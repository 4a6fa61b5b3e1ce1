/**
 * The counters kept around a polled message source: every `receive` call
 * adds one to exactly one of three counters, by how it ended; a failed
 * `receive` is also announced as a "PollFailed" notification once the
 * monitor has an object name.
 */
module MessageSourceMetrics {
  import opened Wrappers
  import opened JavaLang

  const ReceiveMethod := "receive"
  const PollFailed := "PollFailed"

  /** A JMX notification: its type, its source (the object name), its sequence number and its message. */
  datatype Notification = Notification(kind: string, source: string, sequence: JavaInt, message: Option<string>)

  datatype Counts = Counts(messageCount: JavaInt, noWorkCount: JavaInt, pollFailureCount: JavaInt)

  const Zero := Counts(0, 0, 0)

  /** The exception a missing publisher causes; its message is null. */
  const MissingPublisher := Throwable(NullPointerException, None)

  /** What one intercepted call leaves behind: the counters, the notifications it sent and how it ended. */
  datatype Observed<V> = Observed(counts: Counts, sent: seq<Notification>, completion: Completion<V>)

  /**
   * The interceptor's `invoke` for a call of `methodName` that ended as `outcome`,
   * given the monitor's object name and whether a publisher was set.
   */
  function Intercept<V>(c: Counts, objectName: Option<string>, hasPublisher: bool, methodName: string, outcome: Completion<V>)
    : (o: Observed<V>)
    ensures methodName != ReceiveMethod ==> o == Observed(c, [], outcome)
    ensures methodName == ReceiveMethod && outcome.Returned? && outcome.value.Some? ==>
      o == Observed(c.(messageCount := Successor(c.messageCount)), [], outcome)
    ensures methodName == ReceiveMethod && outcome == Returned(None) ==>
      o == Observed(c.(noWorkCount := Successor(c.noWorkCount)), [], outcome)
    ensures methodName == ReceiveMethod && outcome.Threw? ==>
      && o.counts == c.(pollFailureCount := Successor(c.pollFailureCount))
      && (objectName.None? ==> o.sent == [] && o.completion == outcome)
      && (objectName.Some? && hasPublisher ==>
            && o.sent == [Notification(PollFailed, objectName.value, o.counts.pollFailureCount, outcome.error.message)]
            && o.completion == outcome)
      && (objectName.Some? && !hasPublisher ==> o.sent == [] && o.completion == Threw(MissingPublisher))
  {
    if methodName != ReceiveMethod then Observed(c, [], outcome)
    else
      match outcome
      case Returned(value) =>
        if value.Some? then Observed(c.(messageCount := Successor(c.messageCount)), [], outcome)
        else Observed(c.(noWorkCount := Successor(c.noWorkCount)), [], outcome)
      case Threw(t) =>
        var sequence := Successor(c.pollFailureCount);
        var counted := c.(pollFailureCount := sequence);
        if objectName.None? then Observed(counted, [], outcome)
        else if hasPublisher then Observed(counted, [Notification(PollFailed, objectName.value, sequence, t.message)], outcome)
        else Observed(counted, [], Threw(MissingPublisher))
  }

  function Total(c: Counts): int {
    c.messageCount + c.noWorkCount + c.pollFailureCount
  }

  /** A `receive` call that overflows no counter adds exactly one to the total, and to one counter only. */
  lemma ReceiveCountsOnce<V>(c: Counts, objectName: Option<string>, hasPublisher: bool, outcome: Completion<V>)
    requires c.messageCount < IntegerMaxValue && c.noWorkCount < IntegerMaxValue && c.pollFailureCount < IntegerMaxValue
    ensures var o := Intercept(c, objectName, hasPublisher, ReceiveMethod, outcome);
      && Total(o.counts) == Total(c) + 1
      && (o.counts.messageCount == c.messageCount + 1 <==> outcome.Returned? && outcome.value.Some?)
      && (o.counts.noWorkCount == c.noWorkCount + 1 <==> outcome == Returned(None))
      && (o.counts.pollFailureCount == c.pollFailureCount + 1 <==> outcome.Threw?)
  {
  }

  /** The counters and the notifications after a series of `receive` calls ending as `outcomes`. */
  function Polls<V>(c: Counts, objectName: Option<string>, hasPublisher: bool, outcomes: seq<Completion<V>>)
    : (r: (Counts, seq<Notification>))
    decreases |outcomes|
  {
    if outcomes == [] then (c, [])
    else
      var o := Intercept(c, objectName, hasPublisher, ReceiveMethod, outcomes[0]);
      var rest := Polls(o.counts, objectName, hasPublisher, outcomes[1..]);
      (rest.0, o.sent + rest.1)
  }

  /** How many of `outcomes` threw. */
  function Failed<V>(outcomes: seq<Completion<V>>): (n: nat)
    ensures n <= |outcomes|
  {
    if outcomes == [] then 0 else (if outcomes[0].Threw? then 1 else 0) + Failed(outcomes[1..])
  }

  /**
   * Counting from `c`, with no counter overflowing, the series adds
   * `|outcomes|` to the total and the failures to `pollFailureCount`; with an
   * object name and a publisher, failure k after `c` is announced as
   * notification k, numbered `c.pollFailureCount + k`.
   */
  lemma {:induction false} PollsCount<V>(c: Counts, objectName: Option<string>, hasPublisher: bool, outcomes: seq<Completion<V>>)
    requires c.messageCount + |outcomes| <= IntegerMaxValue
    requires c.noWorkCount + |outcomes| <= IntegerMaxValue
    requires 0 <= c.pollFailureCount && c.pollFailureCount + |outcomes| <= IntegerMaxValue
    ensures var r := Polls(c, objectName, hasPublisher, outcomes);
      && Total(r.0) == Total(c) + |outcomes|
      && r.0.pollFailureCount == c.pollFailureCount + Failed(outcomes)
    ensures var r := Polls(c, objectName, hasPublisher, outcomes);
      objectName.Some? && hasPublisher ==>
        && |r.1| == Failed(outcomes)
        && forall k :: 0 <= k < |r.1| ==>
             r.1[k].kind == PollFailed && r.1[k].source == objectName.value
             && r.1[k].sequence == c.pollFailureCount + k + 1
    decreases |outcomes|
  {
    if outcomes != [] {
      var o := Intercept(c, objectName, hasPublisher, ReceiveMethod, outcomes[0]);
      ReceiveCountsOnce(c, objectName, hasPublisher, outcomes[0]);
      PollsCount(o.counts, objectName, hasPublisher, outcomes[1..]);
    }
  }

  /**
   * A source whose `receive` always throws "AlwaysFails", on a monitor with an
   * object name and a publisher: the first poll sends one "PollFailed"
   * notification carrying that message, from that object name, and the
   * exception is rethrown.
   */
  lemma AlwaysFailsNotifies(objectName: string)
    ensures var failure := Throwable(OtherException, Some("AlwaysFails"));
      var o := Intercept(Zero, Some(objectName), true, ReceiveMethod, Completion<int>.Threw(failure));
      && o.sent == [Notification("PollFailed", objectName, 1, Some("AlwaysFails"))]
      && o.completion == Threw(failure)
      && o.counts == Counts(0, 0, 1)
  {
  }

  class SimpleMessageSourceMetrics {
    var messageCount: JavaInt
    var noWorkCount: JavaInt
    var pollFailureCount: JavaInt
    var objectName: Option<string>
    var hasPublisher: bool
    /** Every notification handed to the publisher so far. */
    var sent: seq<Notification>

    function Counters(): Counts
      reads this
    {
      Counts(messageCount, noWorkCount, pollFailureCount)
    }

    constructor ()
      ensures Counters() == Zero && objectName == None && !hasPublisher && sent == []
    {
      messageCount := 0;
      noWorkCount := 0;
      pollFailureCount := 0;
      objectName := None;
      hasPublisher := false;
      sent := [];
    }

    method SetObjectName(name: Option<string>)
      modifies this
      ensures objectName == name
      ensures Counters() == old(Counters()) && hasPublisher == old(hasPublisher) && sent == old(sent)
    {
      objectName := name;
    }

    method SetNotificationPublisher(present: bool)
      modifies this
      ensures hasPublisher == present
      ensures Counters() == old(Counters()) && objectName == old(objectName) && sent == old(sent)
    {
      hasPublisher := present;
    }

    method Reset()
      modifies this
      ensures Counters() == Zero
      ensures objectName == old(objectName) && hasPublisher == old(hasPublisher) && sent == old(sent)
    {
      messageCount := 0;
      pollFailureCount := 0;
      noWorkCount := 0;
    }

    method GetMessageCount() returns (n: JavaInt)
      ensures n == Counters().messageCount
    {
      n := messageCount;
    }

    method GetNoWorkCount() returns (n: JavaInt)
      ensures n == Counters().noWorkCount
    {
      n := noWorkCount;
    }

    method GetPollFailureCount() returns (n: JavaInt)
      ensures n == Counters().pollFailureCount
    {
      n := pollFailureCount;
    }

    /** `outcome` is how the intercepted call of `methodName` ended. */
    method Invoke<V>(methodName: string, outcome: Completion<V>) returns (c: Completion<V>)
      modifies this
      ensures var o := Intercept(old(Counters()), objectName, hasPublisher, methodName, outcome);
        && Counters() == o.counts && sent == old(sent) + o.sent && c == o.completion
      ensures objectName == old(objectName) && hasPublisher == old(hasPublisher)
    {
      var callingReceive := methodName == ReceiveMethod;
      match outcome
      case Returned(value) =>
        if callingReceive {
          if value.Some? {
            messageCount := Successor(messageCount);
          } else {
            noWorkCount := Successor(noWorkCount);
          }
        }
        c := outcome;
      case Threw(t) =>
        c := outcome;
        if callingReceive {
          pollFailureCount := Successor(pollFailureCount);
          var sequence := pollFailureCount;
          if objectName.Some? {
            if !hasPublisher {
              return Threw(MissingPublisher);
            }
            sent := sent + [Notification(PollFailed, objectName.value, sequence, t.message)];
          }
        }
    }
  }
}
