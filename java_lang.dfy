/**
 * The few Java platform notions the model needs: the 32-bit `int` with its
 * wrap-around arithmetic, and exceptions as values.
 */
module JavaLang {
  import opened Wrappers

  const IntegerMinValue: int := -0x8000_0000
  const IntegerMaxValue: int := 0x7fff_ffff

  /** A Java `int`. */
  type JavaInt = x: int | IntegerMinValue <= x <= IntegerMaxValue

  /** Java's `n + 1` on an `int` (and `AtomicInteger.incrementAndGet`): the maximum wraps to the minimum. */
  function Successor(n: JavaInt): (s: JavaInt)
    ensures n < IntegerMaxValue ==> s == n + 1
    ensures n == IntegerMaxValue ==> s == IntegerMinValue
  {
    if n == IntegerMaxValue then IntegerMinValue else n + 1
  }

  /** Java's `n - 1` on an `int`: one below the minimum wraps to the maximum. */
  function Predecessor(n: JavaInt): (p: JavaInt)
    ensures n > IntegerMinValue ==> p == n - 1
    ensures n == IntegerMinValue ==> p == IntegerMaxValue
  {
    if n == IntegerMinValue then IntegerMaxValue else n - 1
  }

  /** `String.endsWith`: the last |suffix| characters of `s` are `suffix`. */
  predicate EndsWith(s: string, suffix: string) {
    |suffix| <= |s| && s[|s| - |suffix|..] == suffix
  }

  /** The kinds of exception the modelled code tells apart; every kind but `CheckedException` is unchecked. */
  datatype ThrowableKind = MessagingException | NullPointerException | IllegalArgumentException | CheckedException | OtherException

  /** An exception: its kind and what `getMessage()` answers (`None` for null). */
  datatype Throwable = Throwable(kind: ThrowableKind, message: Option<string>)

  /** How an intercepted call ended: it returned a value (`None` for null) or threw. */
  datatype Completion<V> = Returned(value: Option<V>) | Threw(error: Throwable)
}
