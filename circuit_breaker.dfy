/**
 * The circuit breaker put around a message handler: after `threshold`
 * failures the handler is not called again until `halfOpenAfter`
 * milliseconds have passed since the last failure; then one trial call goes
 * through, and a success closes the breaker again.
 *
 * Reading the clock is a parameter: `now` is the time read before the call
 * and `failedAt` the time read after the handler failed.
 */
module CircuitBreaker {
  import opened Wrappers
  import opened JavaLang
  import opened BeanPostProcessing

  const OpenMessagePrefix := "Circuit Breaker is Open for "

  /** The exception a call meets while the breaker is open. */
  function OpenError(beanName: string): (e: Throwable)
    ensures e.kind == MessagingException && e.message.Some?
    ensures |e.message.value| == |OpenMessagePrefix| + |beanName|
    ensures e.message.value[..|OpenMessagePrefix|] == OpenMessagePrefix
    ensures e.message.value[|OpenMessagePrefix|..] == beanName
  {
    Throwable(MessagingException, Some(OpenMessagePrefix + beanName))
  }

  /** What the post-processor gives each interceptor. */
  datatype Settings = Settings(beanName: string, threshold: JavaInt, halfOpenAfter: int)

  /** The interceptor's mutable part. */
  datatype Breaker = Breaker(failures: JavaInt, lastFailure: int)

  const Closed := Breaker(0, 0)

  /** Calls are refused: enough failures, and the last one too recent. */
  predicate IsOpen(s: Settings, b: Breaker, now: int): (open: bool)
    ensures open <==> b.failures >= s.threshold && now - b.lastFailure < s.halfOpenAfter
    ensures open ==> b.failures >= s.threshold
    ensures b.failures < s.threshold ==> !open
    ensures now - b.lastFailure >= s.halfOpenAfter ==> !open
  {
    b.failures >= s.threshold && now - b.lastFailure < s.halfOpenAfter
  }

  /** One call: whether the handler was reached, the breaker after it, and how the call ended. */
  datatype Call<V> = Call(proceeded: bool, breaker: Breaker, completion: Completion<V>)

  /**
   * The interceptor's `invoke`, given what the handler does when it is
   * reached (`handler`).
   */
  function Invoked<V>(s: Settings, b: Breaker, now: int, handler: Completion<V>, failedAt: int): (c: Call<V>)
    ensures c.proceeded <==> !IsOpen(s, b, now)
    ensures !c.proceeded ==> c.breaker == b && c.completion == Threw(OpenError(s.beanName))
    ensures c.proceeded ==> c.completion == handler
    ensures c.proceeded && handler.Returned? ==> c.breaker == Breaker(0, b.lastFailure)
    ensures c.proceeded && handler.Threw? && handler.error.kind == MessagingException ==>
      c.breaker == Breaker(Successor(b.failures), failedAt)
    ensures c.proceeded && handler.Threw? && handler.error.kind != MessagingException ==> c.breaker == b
  {
    if IsOpen(s, b, now) then Call(false, b, Threw(OpenError(s.beanName)))
    else
      match handler
      case Returned(_) => Call(true, Breaker(0, b.lastFailure), handler)
      case Threw(e) =>
        if e.kind == MessagingException then Call(true, Breaker(Successor(b.failures), failedAt), handler)
        else Call(true, b, handler)
  }

  /** Below the threshold the handler is always reached, whatever the time. */
  lemma BelowThresholdProceeds<V>(s: Settings, b: Breaker, now: int, handler: Completion<V>, failedAt: int)
    requires b.failures < s.threshold
    ensures Invoked(s, b, now, handler, failedAt).proceeded
    ensures Invoked(s, b, now, handler, failedAt).completion == handler
  {
  }

  /** After a successful call the breaker is closed for every later call, whatever the time. */
  lemma SuccessCloses<V>(s: Settings, b: Breaker, now: int, value: Option<V>, failedAt: int, later: int)
    requires s.threshold > 0 && !IsOpen(s, b, now)
    ensures !IsOpen(s, Invoked(s, b, now, Returned(value), failedAt).breaker, later)
  {
  }

  /**
   * From a closed breaker, `threshold` handler failures in a row trip it: the
   * next call within `halfOpenAfter` of the last failure is refused.
   */
  lemma {:induction false} FailuresTrip(s: Settings, b: Breaker, times: seq<int>, e: Throwable, now: int)
    requires e.kind == MessagingException && 0 <= b.failures && |times| > 0
    requires b.failures + |times| <= s.threshold
    ensures var after := Failures(s, b, times, e);
      && after.failures == b.failures + |times|
      && after.lastFailure == times[|times| - 1]
    ensures b.failures + |times| == s.threshold && now - times[|times| - 1] < s.halfOpenAfter ==>
      IsOpen(s, Failures(s, b, times, e), now)
    decreases |times|
  {
    var first := Invoked(s, b, times[0], Completion<int>.Threw(e), times[0]);
    if |times| > 1 {
      FailuresTrip(s, first.breaker, times[1..], e, now);
    }
  }

  /**
   * The breaker after calls at `times`, each failing in the handler with `e`
   * at the moment of the call (a refused call leaves the breaker alone).
   */
  function Failures(s: Settings, b: Breaker, times: seq<int>, e: Throwable): (after: Breaker)
    decreases |times|
  {
    if times == [] then b
    else Failures(s, Invoked(s, b, times[0], Completion<int>.Threw(e), times[0]).breaker, times[1..], e)
  }

  /**
   * Once `halfOpenAfter` has passed, one trial call reaches the handler; if it
   * fails the breaker is open again at once.
   */
  lemma HalfOpenTrial<V>(s: Settings, b: Breaker, now: int, e: Throwable, failedAt: int)
    requires b.failures >= s.threshold && now - b.lastFailure >= s.halfOpenAfter
    requires e.kind == MessagingException && b.failures < IntegerMaxValue && s.halfOpenAfter > 0
    ensures var c := Invoked(s, b, now, Completion<V>.Threw(e), failedAt);
      c.proceeded && c.completion == Threw(e) && IsOpen(s, c.breaker, failedAt)
  {
  }

  /**
   * The interceptor's life as in the breaker test: threshold 2, 100 ms; the
   * handler fails its first three calls with "In handler" and then succeeds.
   * Two failures; a refused call; after the wait a trial that fails; a refused
   * call; after another wait a trial that succeeds.
   */
  lemma BreakerScenario(t1: int, t2: int, t3: int, t4: int, t5: int, t6: int)
    requires t3 - t2 < 100 && t4 - t2 >= 110 && t5 - t4 < 100 && t6 - t4 >= 110
    ensures var s := Settings("aBean", 2, 100);
      var inHandler := Throwable(MessagingException, Some("In handler"));
      var c1 := Invoked(s, Closed, t1, Completion<int>.Threw(inHandler), t1);
      var c2 := Invoked(s, c1.breaker, t2, Completion<int>.Threw(inHandler), t2);
      var c3 := Invoked(s, c2.breaker, t3, Completion<int>.Threw(inHandler), t3);
      var c4 := Invoked(s, c3.breaker, t4, Completion<int>.Threw(inHandler), t4);
      var c5 := Invoked(s, c4.breaker, t5, Completion<int>.Returned(None), t5);
      var c6 := Invoked(s, c5.breaker, t6, Completion<int>.Returned(None), t6);
      && c1.completion == Threw(inHandler) && c2.completion == Threw(inHandler)
      && c3.completion == Threw(OpenError("aBean")) && !c3.proceeded
      && c3.completion.error.message == Some("Circuit Breaker is Open for aBean")
      && c4.completion == Threw(inHandler)
      && c5.completion == Threw(OpenError("aBean")) && !c5.proceeded
      && c6.completion == Returned(None) && c6.breaker.failures == 0
  {
    assert OpenMessagePrefix + "aBean" == "Circuit Breaker is Open for aBean";
  }

  /**
   * postProcessAfterInitialization: only message handlers whose bean name
   * matches one of the patterns get the breaker (`nameMatches` is the pattern
   * match, a library call).
   */
  function PostProcessAfterInitialization(isHandler: bool, nameMatches: bool, canApply: bool, advised: bool): (a: Advice)
    ensures !isHandler || !nameMatches ==> a == AsIs
    ensures isHandler && nameMatches ==> a == Advise(true, canApply, advised)
  {
    Advise(isHandler && nameMatches, canApply, advised)
  }

  class CircuitBreakerInterceptor {
    const settings: Settings
    var failures: JavaInt
    var lastFailure: int

    function State(): Breaker
      reads this
    {
      Breaker(failures, lastFailure)
    }

    constructor (beanName: string, threshold: JavaInt, halfOpenAfter: int)
      ensures settings == Settings(beanName, threshold, halfOpenAfter)
      ensures State() == Closed
    {
      settings := Settings(beanName, threshold, halfOpenAfter);
      failures := 0;
      lastFailure := 0;
    }

    /** `handler` is how the intercepted call ends if it is reached. */
    method Invoke<V>(now: int, handler: Completion<V>, failedAt: int) returns (c: Completion<V>)
      modifies this
      ensures var call := Invoked(settings, old(State()), now, handler, failedAt);
        State() == call.breaker && c == call.completion
    {
      if failures >= settings.threshold && now - lastFailure < settings.halfOpenAfter {
        return Threw(OpenError(settings.beanName));
      }
      match handler
      case Returned(_) =>
        failures := 0;
        c := handler;
      case Threw(e) =>
        if e.kind == MessagingException {
          failures := Successor(failures);
          lastFailure := failedAt;
        }
        c := handler;
    }
  }
}
