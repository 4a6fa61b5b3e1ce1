/**
 * The resequencer that drives the unbounded store and release rule: each
 * arriving message is added to its group, then, while the rule allows, the
 * lowest unmarked message is sent out and marked in the store (which prunes
 * the previously marked one). The driving handler itself is not part of this
 * model; these ghost functions state what the store and the rule together do
 * for it, and the lemmas prove that messages leave in sequence order.
 */
module Resequencer {
  import opened Wrappers
  import opened JavaLang
  import opened Messages
  import opened UnboundedStore
  import opened ReleaseStrategy

  /** Every message of `s` has an `int` sequence number under the header. */
  ghost predicate Numbered(h: Option<string>, s: set<Message>) {
    forall m :: m in s ==> SequenceInt(h, m).Success?
  }

  /** The message's sequence number under the header (0 when it has none, a case the lemmas exclude). */
  ghost function Number(h: Option<string>, m: Message): JavaInt {
    match SequenceInt(h, m)
    case Success(n) => n
    case Failure(_) => 0
  }

  /** Taking one member out of a set leaves one fewer. */
  lemma RemoveOne(s: set<Message>, y: Message)
    requires y in s
    ensures |s - {y}| == |s| - 1
  {
    assert s == (s - {y}) + {y};
  }

  /** A message of `s` with the lowest number, by induction on the size of `s`. */
  lemma {:induction false} LowestOf(h: Option<string>, s: set<Message>) returns (m: Message)
    requires s != {} && Numbered(h, s)
    ensures m in s && forall x :: x in s ==> Number(h, m) <= Number(h, x)
    decreases |s|
  {
    var y :| y in s;
    if s == {y} {
      return y;
    }
    var rest := s - {y};
    assert rest != {} by {
      var z :| z in s && z !in {y};
      assert z in rest;
    }
    RemoveOne(s, y);
    var k := LowestOf(h, rest);
    if Number(h, y) < Number(h, k) {
      m := y;
    } else {
      m := k;
    }
  }

  lemma LowestExists(h: Option<string>, s: set<Message>)
    requires s != {} && Numbered(h, s)
    ensures exists m :: m in s && forall x :: x in s ==> Number(h, m) <= Number(h, x)
  {
    var m := LowestOf(h, s);
  }

  /** A message with the lowest sequence number. */
  ghost function Lowest(h: Option<string>, s: set<Message>): (m: Message)
    requires s != {} && Numbered(h, s)
    ensures m in s && forall x :: x in s ==> Number(h, m) <= Number(h, x)
  {
    LowestExists(h, s);
    var m :| m in s && forall x :: x in s ==> Number(h, m) <= Number(h, x); m
  }

  /** The messages of `s` in ascending sequence order, as the base strategy's comparator sorts them. */
  ghost function SortedBy(h: Option<string>, s: set<Message>): (r: seq<Message>)
    requires Numbered(h, s)
    ensures s == {} <==> r == []
    ensures s != {} ==> r[0] == Lowest(h, s)
    decreases |s|
  {
    if s == {} then []
    else
      var m := Lowest(h, s);
      [m] + SortedBy(h, s - {m})
  }

  /** A shadow group the driver can work on: well formed and numbered throughout. */
  ghost predicate Ready(h: Option<string>, g: UnboundedMessageGroup) {
    g.delegate.Wellformed() && Numbered(h, g.delegate.unmarked) && Numbered(h, g.delegate.marked)
  }

  datatype Released = Released(out: seq<Message>, group: UnboundedMessageGroup)

  /**
   * One release pass: while the rule allows the lowest unmarked message out,
   * send it and mark it. A failing rule (an exception in the handler) ends
   * the pass like a refusal.
   */
  ghost function Release(h: Option<string>, g: UnboundedMessageGroup): (r: Released)
    requires Ready(h, g)
    ensures Ready(h, r.group)
    ensures r.group.delegate.unmarked <= g.delegate.unmarked
    ensures forall x :: r.group.delegate.Contains(x) ==> g.delegate.Contains(x)
    decreases |g.delegate.unmarked|
  {
    var unmarked := g.delegate.unmarked;
    if unmarked == {} then Released([], g)
    else
      var sorted := SortedBy(h, unmarked);
      if CanReleasePartial(h, SortedBy(h, g.delegate.marked), sorted) == Success(true) then
        var rest := Release(h, g.MarkFrom(sorted[0]));
        Released([sorted[0]] + rest.out, rest.group)
      else
        Released([], g)
  }

  /** A message arrives: it is added to the delegate's group and the shadow refreshed. */
  function Arrive(g: UnboundedMessageGroup, m: Message): (a: UnboundedMessageGroup)
    requires g.delegate.Wellformed()
    ensures a.delegate.Wellformed() && a.delegate.Contains(m) && a.removed == g.removed
    ensures a.Size() == if g.delegate.Contains(m) then g.Size() else g.Size() + 1
  {
    g.SetDelegate(g.delegate.Add(m))
  }

  const Start := UnboundedMessageGroup(EmptyGroup, 0)

  /** Every arrival has an `int` sequence number under the header. */
  ghost predicate AllNumbered(h: Option<string>, arrivals: seq<Message>) {
    forall i :: 0 <= i < |arrivals| ==> SequenceInt(h, arrivals[i]).Success?
  }

  /** The messages sent out and the group left after each of `arrivals`, in order, arrived and was followed by a release pass. */
  ghost function Feed(h: Option<string>, arrivals: seq<Message>): (r: Released)
    requires AllNumbered(h, arrivals)
    ensures Ready(h, r.group)
    ensures forall x :: r.group.delegate.Contains(x) ==> x in arrivals
    decreases |arrivals|
  {
    if arrivals == [] then Released([], Start)
    else
      var before := Feed(h, arrivals[..|arrivals| - 1]);
      var m := arrivals[|arrivals| - 1];
      assert forall x :: x in arrivals[..|arrivals| - 1] ==> x in arrivals;
      var after := Release(h, Arrive(before.group, m));
      Released(before.out + after.out, after.group)
  }

  /**
   * A group the driver can resume from: `last` is the number of the one
   * marked (last released) message, or 0 before any; every unmarked number
   * is above it, and no two unmarked messages share a number.
   */
  ghost predicate Resumable(h: Option<string>, g: UnboundedMessageGroup, last: int) {
    && Ready(h, g)
    && |g.delegate.marked| <= 1
    && (g.delegate.marked == {} ==> last == 0)
    && (forall k :: k in g.delegate.marked ==> Number(h, k) == last)
    && (forall x :: x in g.delegate.unmarked ==> Number(h, x) > last)
    && (forall x, y :: x in g.delegate.unmarked && y in g.delegate.unmarked && Number(h, x) == Number(h, y) ==> x == y)
  }

  /**
   * What a release pass `r` from `g` did: it sent last+1, last+2, ... for as
   * long as they were present, left the rest unmarked, left the last sent
   * message as the only marked one, and kept the group's size, counting each
   * pruned message as removed.
   */
  ghost predicate RunFrom(h: Option<string>, g: UnboundedMessageGroup, last: int, r: Released) {
    && (forall i :: 0 <= i < |r.out| ==> r.out[i] in g.delegate.unmarked && Number(h, r.out[i]) == last + 1 + i)
    && (forall x :: x in g.delegate.unmarked ==> Number(h, x) != last + |r.out| + 1)
    && (forall x :: x in r.group.delegate.unmarked <==> x in g.delegate.unmarked && Number(h, x) > last + |r.out|)
    && r.group.delegate.marked == (if r.out == [] then g.delegate.marked else {r.out[|r.out| - 1]})
    && r.group.Size() == g.Size()
    && r.group.removed == g.removed + (if r.out == [] then 0 else |g.delegate.marked| + |r.out| - 1)
  }

  /** The rule lets the lowest unmarked message out exactly when it is number last + 1. */
  lemma RuleAt(h: Option<string>, g: UnboundedMessageGroup, last: int)
    requires Resumable(h, g, last) && g.delegate.unmarked != {}
    ensures var sorted := SortedBy(h, g.delegate.unmarked);
      (CanReleasePartial(h, SortedBy(h, g.delegate.marked), sorted) == Success(true)
       <==> Number(h, sorted[0]) == last + 1)
  {
    var sorted := SortedBy(h, g.delegate.unmarked);
    var markedSeq := SortedBy(h, g.delegate.marked);
    assert sorted[0] in g.delegate.unmarked;
    if markedSeq != [] {
      assert markedSeq[0] in g.delegate.marked;
    }
  }

  /** Sending the lowest message, number last + 1, then the rest of the pass: the messages sent. */
  lemma RunConsSent(h: Option<string>, g: UnboundedMessageGroup, last: int, rest: Released)
    requires Resumable(h, g, last) && g.delegate.unmarked != {}
    requires Number(h, Lowest(h, g.delegate.unmarked)) == last + 1
    requires RunFrom(h, g.MarkFrom(Lowest(h, g.delegate.unmarked)), last + 1, rest)
    ensures var out := [Lowest(h, g.delegate.unmarked)] + rest.out;
      && (forall i :: 0 <= i < |out| ==> out[i] in g.delegate.unmarked && Number(h, out[i]) == last + 1 + i)
      && (forall x :: x in g.delegate.unmarked ==> Number(h, x) != last + |out| + 1)
  {
    var head := Lowest(h, g.delegate.unmarked);
    var next := g.MarkFrom(head);
    var out := [head] + rest.out;
    assert next.delegate.unmarked == g.delegate.unmarked - {head};
    forall i | 0 <= i < |out|
      ensures out[i] in g.delegate.unmarked && Number(h, out[i]) == last + 1 + i
    {
      if i > 0 {
        assert out[i] == rest.out[i - 1];
      }
    }
    forall x | x in g.delegate.unmarked
      ensures Number(h, x) != last + |out| + 1
    {
      if x != head {
        assert x in next.delegate.unmarked;
      }
    }
  }

  /** Sending the lowest message, number last + 1, then the rest of the pass. */
  lemma RunCons(h: Option<string>, g: UnboundedMessageGroup, last: int, rest: Released)
    requires Resumable(h, g, last) && g.delegate.unmarked != {}
    requires Number(h, Lowest(h, g.delegate.unmarked)) == last + 1
    requires RunFrom(h, g.MarkFrom(Lowest(h, g.delegate.unmarked)), last + 1, rest)
    ensures RunFrom(h, g, last, Released([Lowest(h, g.delegate.unmarked)] + rest.out, rest.group))
  {
    var head := Lowest(h, g.delegate.unmarked);
    MarkUnmarked(g, head);
    RunConsSent(h, g, last, rest);
  }

  /** A pass that may send the lowest message sends it and goes on from the marked group. */
  lemma ReleaseSends(h: Option<string>, g: UnboundedMessageGroup)
    requires Ready(h, g) && g.delegate.unmarked != {}
    requires CanReleasePartial(h, SortedBy(h, g.delegate.marked), SortedBy(h, g.delegate.unmarked)) == Success(true)
    ensures var head := Lowest(h, g.delegate.unmarked);
      Release(h, g) == Released([head] + Release(h, g.MarkFrom(head)).out, Release(h, g.MarkFrom(head)).group)
  {
  }

  /** A pass that may not send the lowest message sends nothing and changes nothing. */
  lemma ReleaseHolds(h: Option<string>, g: UnboundedMessageGroup)
    requires Ready(h, g)
    requires g.delegate.unmarked != {} ==>
      CanReleasePartial(h, SortedBy(h, g.delegate.marked), SortedBy(h, g.delegate.unmarked)) != Success(true)
    ensures Release(h, g) == Released([], g)
  {
  }

  /** Marking the lowest message, number last + 1, leaves a group resumable from last + 1. */
  lemma MarkResumable(h: Option<string>, g: UnboundedMessageGroup, last: int)
    requires Resumable(h, g, last) && g.delegate.unmarked != {}
    requires Number(h, Lowest(h, g.delegate.unmarked)) == last + 1
    ensures Resumable(h, g.MarkFrom(Lowest(h, g.delegate.unmarked)), last + 1)
  {
    var head := Lowest(h, g.delegate.unmarked);
    var next := g.MarkFrom(head);
    assert next.delegate.unmarked == g.delegate.unmarked - {head};
    assert next.delegate.marked == {head};
  }

  /** A pass whose lowest message is not number last + 1 sends nothing, and nothing waiting is number last + 1. */
  lemma RunHolds(h: Option<string>, g: UnboundedMessageGroup, last: int)
    requires Resumable(h, g, last)
    requires g.delegate.unmarked != {} ==> Number(h, Lowest(h, g.delegate.unmarked)) != last + 1
    ensures RunFrom(h, g, last, Release(h, g))
  {
    if g.delegate.unmarked != {} {
      RuleAt(h, g, last);
    }
    ReleaseHolds(h, g);
  }

  /** A pass whose lowest message is number last + 1 sends it and then runs on from the marked group. */
  lemma RunSends(h: Option<string>, g: UnboundedMessageGroup, last: int)
    requires Resumable(h, g, last) && g.delegate.unmarked != {}
    requires Number(h, Lowest(h, g.delegate.unmarked)) == last + 1
    requires RunFrom(h, g.MarkFrom(Lowest(h, g.delegate.unmarked)), last + 1, Release(h, g.MarkFrom(Lowest(h, g.delegate.unmarked))))
    ensures RunFrom(h, g, last, Release(h, g))
  {
    RuleAt(h, g, last);
    ReleaseSends(h, g);
    RunCons(h, g, last, Release(h, g.MarkFrom(Lowest(h, g.delegate.unmarked))));
  }

  /** The release pass from a resumable group, by induction on the unmarked messages. */
  lemma {:induction false} ReleaseRun(h: Option<string>, g: UnboundedMessageGroup, last: int)
    requires Resumable(h, g, last)
    ensures RunFrom(h, g, last, Release(h, g))
    decreases |g.delegate.unmarked|
  {
    if g.delegate.unmarked != {} && Number(h, Lowest(h, g.delegate.unmarked)) == last + 1 {
      var head := Lowest(h, g.delegate.unmarked);
      var next := g.MarkFrom(head);
      MarkUnmarked(g, head);
      MarkResumable(h, g, last);
      ReleaseRun(h, next, last + 1);
      RunSends(h, g, last);
    } else {
      RunHolds(h, g, last);
    }
  }

  /** No two arrivals share a sequence number, and every number is positive. */
  ghost predicate DistinctPositive(h: Option<string>, arrivals: seq<Message>) {
    && (forall i :: 0 <= i < |arrivals| ==> Number(h, arrivals[i]) > 0)
    && (forall i, j :: 0 <= i < j < |arrivals| ==> Number(h, arrivals[i]) != Number(h, arrivals[j]))
  }

  /**
   * What has been sent after `arrivals` is 1, 2, ..., sent, in that order;
   * sent + 1 has not arrived; everything above sent waits unmarked; the last
   * one sent is the only marked message; and the group counts every arrival.
   */
  ghost predicate InOrder(h: Option<string>, arrivals: seq<Message>, r: Released) {
    var sent := |r.out|;
    && (forall i :: 0 <= i < sent ==> r.out[i] in arrivals && Number(h, r.out[i]) == i + 1)
    && (forall i :: 0 <= i < |arrivals| ==> Number(h, arrivals[i]) != sent + 1)
    && (forall x :: x in r.group.delegate.unmarked <==> x in arrivals && Number(h, x) > sent)
    && r.group.delegate.marked == (if sent == 0 then {} else {r.out[sent - 1]})
    && r.group.Size() == |arrivals|
  }

  lemma MemberIndex(arrivals: seq<Message>, x: Message) returns (i: nat)
    requires x in arrivals
    ensures i < |arrivals| && arrivals[i] == x
  {
    i :| 0 <= i < |arrivals| && arrivals[i] == x;
  }

  /** Messages of distinct arrivals with equal numbers are the same message. */
  lemma SameNumberSameMessage(h: Option<string>, arrivals: seq<Message>, x: Message, y: Message)
    requires AllNumbered(h, arrivals) && DistinctPositive(h, arrivals)
    requires x in arrivals && y in arrivals && Number(h, x) == Number(h, y)
    ensures x == y
  {
    var i := MemberIndex(arrivals, x);
    var j := MemberIndex(arrivals, y);
  }

  /** An earlier arrival's number differs from the newcomer's. */
  lemma OtherNumber(h: Option<string>, prefix: seq<Message>, m: Message, x: Message)
    requires AllNumbered(h, prefix + [m]) && DistinctPositive(h, prefix + [m])
    requires x in prefix
    ensures Number(h, x) != Number(h, m)
  {
    var arrivals := prefix + [m];
    var i := MemberIndex(prefix, x);
    assert arrivals[i] == x && arrivals[|prefix|] == m;
  }

  /** The message sent k-th is number k + 1, which is not the newcomer's number. */
  lemma SentNumber(h: Option<string>, prefix: seq<Message>, m: Message, before: Released, k: int)
    requires AllNumbered(h, prefix + [m]) && DistinctPositive(h, prefix + [m])
    requires AllNumbered(h, prefix) && Ready(h, before.group)
    requires forall x :: before.group.delegate.Contains(x) ==> x in prefix
    requires InOrder(h, prefix, before)
    requires 0 <= k < |before.out|
    ensures Number(h, before.out[k]) == k + 1 != Number(h, m)
  {
    OtherNumber(h, prefix, m, before.out[k]);
  }

  /** The new arrival is not yet in the group, and its number is above everything sent. */
  lemma Newcomer(h: Option<string>, prefix: seq<Message>, m: Message, before: Released)
    requires AllNumbered(h, prefix + [m]) && DistinctPositive(h, prefix + [m]) && SequenceInt(h, m).Success?
    requires AllNumbered(h, prefix) && Ready(h, before.group)
    requires forall x :: before.group.delegate.Contains(x) ==> x in prefix
    requires InOrder(h, prefix, before)
    ensures m !in prefix && !before.group.delegate.Contains(m)
    ensures Number(h, m) > |before.out|
  {
    var arrivals := prefix + [m];
    assert arrivals[|prefix|] == m;
    if m in prefix {
      OtherNumber(h, prefix, m, m);
      assert false;
    }
    if Number(h, m) <= |before.out| {
      SentNumber(h, prefix, m, before, Number(h, m) - 1);
      assert false;
    }
  }

  /** After the newcomer arrives, the group is resumable from the last message sent. */
  lemma ArrivedResumable(h: Option<string>, prefix: seq<Message>, m: Message, before: Released)
    requires AllNumbered(h, prefix + [m]) && DistinctPositive(h, prefix + [m]) && SequenceInt(h, m).Success?
    requires AllNumbered(h, prefix) && Ready(h, before.group)
    requires forall x :: before.group.delegate.Contains(x) ==> x in prefix
    requires InOrder(h, prefix, before)
    ensures var arrived := Arrive(before.group, m);
      && Resumable(h, arrived, |before.out|)
      && arrived.delegate.unmarked == before.group.delegate.unmarked + {m}
      && arrived.delegate.marked == before.group.delegate.marked
      && arrived.Size() == |prefix| + 1
  {
    var arrivals := prefix + [m];
    Newcomer(h, prefix, m, before);
    var arrived := Arrive(before.group, m);
    assert arrived.delegate.unmarked == before.group.delegate.unmarked + {m};
    assert forall x :: x in prefix ==> x in arrivals;
    forall x, y | x in arrived.delegate.unmarked && y in arrived.delegate.unmarked && Number(h, x) == Number(h, y)
      ensures x == y
    {
      SameNumberSameMessage(h, arrivals, x, y);
    }
  }

  /** The newcomer `m` arrived in the group `before` left, and `after` is the pass that followed. */
  ghost predicate ArrivedThenRan(h: Option<string>, prefix: seq<Message>, m: Message, before: Released,
                                 arrived: UnboundedMessageGroup, after: Released) {
    && InOrder(h, prefix, before)
    && arrived.delegate.unmarked == before.group.delegate.unmarked + {m}
    && arrived.delegate.marked == before.group.delegate.marked
    && arrived.Size() == |prefix| + 1
    && RunFrom(h, arrived, |before.out|, after)
  }

  /** Everything sent so far, old and new, arrived, and the k-th message sent is number k + 1. */
  lemma SentAfter(h: Option<string>, prefix: seq<Message>, m: Message, before: Released,
                  arrived: UnboundedMessageGroup, after: Released)
    requires ArrivedThenRan(h, prefix, m, before, arrived, after)
    ensures var out := before.out + after.out;
      forall i :: 0 <= i < |out| ==> out[i] in prefix + [m] && Number(h, out[i]) == i + 1
  {
    var sent := |before.out|;
    var out := before.out + after.out;
    forall i | 0 <= i < |out|
      ensures out[i] in prefix + [m] && Number(h, out[i]) == i + 1
    {
      if i >= sent {
        assert out[i] == after.out[i - sent];
      }
    }
  }

  /** The number after the last one sent has not arrived, the newcomer included. */
  lemma NextMissingAfter(h: Option<string>, prefix: seq<Message>, m: Message, before: Released,
                         arrived: UnboundedMessageGroup, after: Released)
    requires ArrivedThenRan(h, prefix, m, before, arrived, after)
    ensures forall i :: 0 <= i < |prefix + [m]| ==> Number(h, (prefix + [m])[i]) != |before.out + after.out| + 1
  {
    var arrivals := prefix + [m];
    var sent := |before.out|;
    forall i | 0 <= i < |arrivals|
      ensures Number(h, arrivals[i]) != |before.out + after.out| + 1
    {
      var x := arrivals[i];
      if i == |prefix| {
        assert x in arrived.delegate.unmarked;
      } else {
        assert x == prefix[i];
        if Number(h, x) > sent {
          assert x in arrived.delegate.unmarked;
        }
      }
    }
  }

  /** What still waits is every arrival numbered above the last one sent. */
  lemma WaitingAfter(h: Option<string>, prefix: seq<Message>, m: Message, before: Released,
                     arrived: UnboundedMessageGroup, after: Released)
    requires ArrivedThenRan(h, prefix, m, before, arrived, after)
    ensures forall x :: x in after.group.delegate.unmarked <==> x in prefix + [m] && Number(h, x) > |before.out + after.out|
  {
    var arrivals := prefix + [m];
    forall x
      ensures x in after.group.delegate.unmarked <==> x in arrivals && Number(h, x) > |before.out + after.out|
    {
      if x in arrivals && x != m {
        var i := MemberIndex(arrivals, x);
        assert x in prefix by {
          assert prefix[i] == x;
        }
      }
    }
  }

  /** The pass after the newcomer arrived extends what was sent in order. */
  lemma InOrderAfter(h: Option<string>, prefix: seq<Message>, m: Message, before: Released,
                     arrived: UnboundedMessageGroup, after: Released)
    requires ArrivedThenRan(h, prefix, m, before, arrived, after)
    ensures InOrder(h, prefix + [m], Released(before.out + after.out, after.group))
  {
    SentAfter(h, prefix, m, before, arrived, after);
    NextMissingAfter(h, prefix, m, before, arrived, after);
    WaitingAfter(h, prefix, m, before, arrived, after);
  }

  /** One arrival and its release pass keep `InOrder`. */
  lemma FeedStep(h: Option<string>, prefix: seq<Message>, m: Message, before: Released)
    requires AllNumbered(h, prefix + [m]) && DistinctPositive(h, prefix + [m]) && SequenceInt(h, m).Success?
    requires AllNumbered(h, prefix) && Ready(h, before.group)
    requires forall x :: before.group.delegate.Contains(x) ==> x in prefix
    requires InOrder(h, prefix, before)
    ensures var after := Release(h, Arrive(before.group, m));
      && (forall x :: after.group.delegate.Contains(x) ==> x in prefix + [m])
      && InOrder(h, prefix + [m], Released(before.out + after.out, after.group))
  {
    ArrivedResumable(h, prefix, m, before);
    var arrived := Arrive(before.group, m);
    ReleaseRun(h, arrived, |before.out|);
    var after := Release(h, arrived);
    assert forall x :: x in prefix ==> x in prefix + [m];
    InOrderAfter(h, prefix, m, before, arrived, after);
  }

  /**
   * The resequencing theorem: for arrivals with distinct positive sequence
   * numbers, in any order, what has been sent out is exactly 1, 2, ..., L for
   * the largest L such that 1..L have all arrived.
   */
  lemma {:induction false} FeedInOrder(h: Option<string>, arrivals: seq<Message>)
    requires AllNumbered(h, arrivals) && DistinctPositive(h, arrivals)
    ensures InOrder(h, arrivals, Feed(h, arrivals))
    decreases |arrivals|
  {
    if arrivals == [] {
      return;
    }
    var prefix := arrivals[..|arrivals| - 1];
    var m := arrivals[|arrivals| - 1];
    assert arrivals == prefix + [m];
    FeedInOrder(h, prefix);
    assert arrivals[|prefix|] == m;
    FeedStep(h, prefix, m, Feed(h, prefix));
  }

  /** The sequence numbers that have arrived. */
  ghost function Numbers(h: Option<string>, arrivals: seq<Message>): set<int> {
    set i | 0 <= i < |arrivals| :: Number(h, arrivals[i])
  }

  lemma Element(s: seq<Message>, k: int)
    requires 0 <= k < |s|
    ensures s[k] in s
  {
  }

  lemma IndexOf(arrivals: seq<Message>, xs: seq<Message>, j: int) returns (i: nat)
    requires 0 <= j < |xs| && forall k :: 0 <= k < |xs| ==> xs[k] in arrivals
    ensures i < |arrivals| && arrivals[i] == xs[j]
  {
    i := MemberIndex(arrivals, xs[j]);
  }

  /** When the arrived numbers are exactly 1..N, number k arrived at some position. */
  lemma Covered(h: Option<string>, arrivals: seq<Message>, k: int) returns (i: nat)
    requires forall k :: k in Numbers(h, arrivals) <==> 1 <= k <= |arrivals|
    requires 1 <= k <= |arrivals|
    ensures i < |arrivals| && Number(h, arrivals[i]) == k
  {
    assert k in Numbers(h, arrivals);
    i :| 0 <= i < |arrivals| && Number(h, arrivals[i]) == k;
  }

  /** When the arrived numbers are exactly 1..N, every arrival is numbered within 1..N. */
  lemma NumbersBound(h: Option<string>, arrivals: seq<Message>)
    requires forall k :: k in Numbers(h, arrivals) <==> 1 <= k <= |arrivals|
    ensures forall x :: x in arrivals ==> 1 <= Number(h, x) <= |arrivals|
  {
    forall x | x in arrivals
      ensures 1 <= Number(h, x) <= |arrivals|
    {
      var i := MemberIndex(arrivals, x);
      assert Number(h, arrivals[i]) in Numbers(h, arrivals);
    }
  }

  /**
   * When the arrived numbers are exactly 1..N (a permutation, in any order),
   * all of them are sent, in order, nothing waits, and the group counts all N.
   */
  lemma FeedPermutation(h: Option<string>, arrivals: seq<Message>)
    requires AllNumbered(h, arrivals) && DistinctPositive(h, arrivals)
    requires forall k :: k in Numbers(h, arrivals) <==> 1 <= k <= |arrivals|
    ensures var r := Feed(h, arrivals);
      && |r.out| == |arrivals|
      && (forall i :: 0 <= i < |r.out| ==> Number(h, r.out[i]) == i + 1)
      && r.group.GetUnmarked() == {}
      && r.group.Size() == |arrivals|
  {
    FeedInOrder(h, arrivals);
    NumbersBound(h, arrivals);
    var r := Feed(h, arrivals);
    if |r.out| < |arrivals| {
      var i := Covered(h, arrivals, |r.out| + 1);
      assert false;
    }
    if |r.out| > |arrivals| {
      Element(r.out, |arrivals|);
      assert false;
    }
    assert r.group.GetUnmarked() == {};
  }

  /**
   * The arrivals carry distinct positive numbers, `expected` lists the
   * arrivals numbered 1..|expected| in that order, and number |expected| + 1
   * has not arrived.
   */
  ghost predicate Trace(h: Option<string>, arrivals: seq<Message>, expected: seq<Message>) {
    && AllNumbered(h, arrivals) && DistinctPositive(h, arrivals)
    && (forall i :: 0 <= i < |expected| ==> expected[i] in arrivals && Number(h, expected[i]) == i + 1)
    && (forall i :: 0 <= i < |arrivals| ==> Number(h, arrivals[i]) != |expected| + 1)
  }

  /** A pass history `r` that keeps a trace's arrivals in order sent exactly the expected messages. */
  lemma InOrderSentExactly(h: Option<string>, arrivals: seq<Message>, r: Released, expected: seq<Message>)
    requires Trace(h, arrivals, expected) && InOrder(h, arrivals, r)
    ensures r.out == expected
  {
    if |r.out| < |expected| {
      var i := IndexOf(arrivals, expected, |r.out|);
      assert false;
    }
    if |r.out| > |expected| {
      var i := IndexOf(arrivals, r.out, |expected|);
      assert false;
    }
    forall i | 0 <= i < |r.out|
      ensures r.out[i] == expected[i]
    {
      SameNumberSameMessage(h, arrivals, r.out[i], expected[i]);
    }
  }

  /** For a trace, exactly the expected messages are sent. */
  lemma SentExactly(h: Option<string>, arrivals: seq<Message>, expected: seq<Message>)
    requires Trace(h, arrivals, expected)
    ensures Feed(h, arrivals).out == expected
  {
    FeedInOrder(h, arrivals);
    InOrderSentExactly(h, arrivals, Feed(h, arrivals), expected);
  }

  /** For a trace that sends every arrival, nothing waits, only the last one sent is marked, and the size counts every arrival. */
  lemma SettledExactly(h: Option<string>, arrivals: seq<Message>, expected: seq<Message>)
    requires Trace(h, arrivals, expected) && expected != []
    requires forall i :: 0 <= i < |arrivals| ==> Number(h, arrivals[i]) <= |expected|
    ensures var r := Feed(h, arrivals);
      && r.out == expected
      && r.group.Size() == |arrivals|
      && r.group.GetMarked() == {expected[|expected| - 1]}
      && r.group.GetUnmarked() == {}
  {
    SentExactly(h, arrivals, expected);
    FeedInOrder(h, arrivals);
    var r := Feed(h, arrivals);
    forall x | x in r.group.delegate.unmarked
      ensures false
    {
      var i := MemberIndex(arrivals, x);
    }
  }

  /*
   * The arrivals of the resequencer tests, for messages numbered 1 to 5 under
   * whichever header is configured (the standard sequence number, or a custom
   * header holding Integers). Each list of arrivals is first shown to be a
   * trace, on its own, and the messages sent then follow from SentExactly.
   */

  lemma TraceOne(h: Option<string>, m1: Message)
    requires SequenceInt(h, m1) == Success(1)
    ensures Trace(h, [m1], [m1])
  {
  }

  /** 1 arrives first and goes out at once. */
  lemma ArriveOne(h: Option<string>, m1: Message)
    requires SequenceInt(h, m1) == Success(1)
    ensures Feed(h, [m1]).out == [m1]
  {
    TraceOne(h, m1);
    SentExactly(h, [m1], [m1]);
  }

  lemma TraceOneThree(h: Option<string>, m1: Message, m3: Message)
    requires SequenceInt(h, m1) == Success(1) && SequenceInt(h, m3) == Success(3)
    ensures Trace(h, [m1, m3], [m1])
  {
  }

  /** 3 arrives after 1 and waits for 2. */
  lemma ArriveOneThree(h: Option<string>, m1: Message, m3: Message)
    requires SequenceInt(h, m1) == Success(1) && SequenceInt(h, m3) == Success(3)
    ensures Feed(h, [m1, m3]).out == [m1]
  {
    TraceOneThree(h, m1, m3);
    SentExactly(h, [m1, m3], [m1]);
  }

  lemma TraceOneThreeTwoFive(h: Option<string>, m1: Message, m2: Message, m3: Message, m5: Message)
    requires SequenceInt(h, m1) == Success(1) && SequenceInt(h, m2) == Success(2) && SequenceInt(h, m3) == Success(3)
    requires SequenceInt(h, m5) == Success(5)
    ensures Trace(h, [m1, m3, m2, m5], [m1, m2, m3])
  {
    assert Number(h, m1) == 1 && Number(h, m2) == 2 && Number(h, m3) == 3 && Number(h, m5) == 5;
  }

  /** 2 brings out 2 and 3; 5 waits for 4. */
  lemma ArriveOneThreeTwoFive(h: Option<string>, m1: Message, m2: Message, m3: Message, m5: Message)
    requires SequenceInt(h, m1) == Success(1) && SequenceInt(h, m2) == Success(2) && SequenceInt(h, m3) == Success(3)
    requires SequenceInt(h, m5) == Success(5)
    ensures Feed(h, [m1, m3, m2, m5]).out == [m1, m2, m3]
  {
    TraceOneThreeTwoFive(h, m1, m2, m3, m5);
    SentExactly(h, [m1, m3, m2, m5], [m1, m2, m3]);
  }

  lemma TraceOneThreeTwoFiveFour(h: Option<string>, m1: Message, m2: Message, m3: Message, m4: Message, m5: Message)
    requires SequenceInt(h, m1) == Success(1) && SequenceInt(h, m2) == Success(2) && SequenceInt(h, m3) == Success(3)
    requires SequenceInt(h, m4) == Success(4) && SequenceInt(h, m5) == Success(5)
    ensures Trace(h, [m1, m3, m2, m5, m4], [m1, m2, m3, m4, m5])
    ensures forall i :: 0 <= i < 5 ==> Number(h, [m1, m3, m2, m5, m4][i]) <= 5
  {
    assert Number(h, m1) == 1 && Number(h, m2) == 2 && Number(h, m3) == 3 && Number(h, m4) == 4 && Number(h, m5) == 5;
  }

  /** 4 brings out 4 and 5. */
  lemma ArriveOneThreeTwoFiveFour(h: Option<string>, m1: Message, m2: Message, m3: Message, m4: Message, m5: Message)
    requires SequenceInt(h, m1) == Success(1) && SequenceInt(h, m2) == Success(2) && SequenceInt(h, m3) == Success(3)
    requires SequenceInt(h, m4) == Success(4) && SequenceInt(h, m5) == Success(5)
    ensures Feed(h, [m1, m3, m2, m5, m4]).out == [m1, m2, m3, m4, m5]
  {
    TraceOneThreeTwoFiveFour(h, m1, m2, m3, m4, m5);
    SentExactly(h, [m1, m3, m2, m5, m4], [m1, m2, m3, m4, m5]);
  }

  /** After those five arrivals the group still counts all five, with only 5 marked and nothing waiting. */
  lemma AllFiveReleased(h: Option<string>, m1: Message, m2: Message, m3: Message, m4: Message, m5: Message)
    requires SequenceInt(h, m1) == Success(1) && SequenceInt(h, m2) == Success(2) && SequenceInt(h, m3) == Success(3)
    requires SequenceInt(h, m4) == Success(4) && SequenceInt(h, m5) == Success(5)
    ensures Feed(h, [m1, m3, m2, m5, m4]).group.Size() == 5
    ensures Feed(h, [m1, m3, m2, m5, m4]).group.GetMarked() == {m5}
    ensures Feed(h, [m1, m3, m2, m5, m4]).group.GetUnmarked() == {}
  {
    TraceOneThreeTwoFiveFour(h, m1, m2, m3, m4, m5);
    SettledExactly(h, [m1, m3, m2, m5, m4], [m1, m2, m3, m4, m5]);
  }

  lemma TraceTwo(h: Option<string>, m2: Message)
    requires SequenceInt(h, m2) == Success(2)
    ensures Trace(h, [m2], [])
  {
  }

  /** 2 arriving first waits for 1. */
  lemma ArriveTwo(h: Option<string>, m2: Message)
    requires SequenceInt(h, m2) == Success(2)
    ensures Feed(h, [m2]).out == []
  {
    TraceTwo(h, m2);
    SentExactly(h, [m2], []);
  }

  lemma TraceTwoOne(h: Option<string>, m1: Message, m2: Message)
    requires SequenceInt(h, m1) == Success(1) && SequenceInt(h, m2) == Success(2)
    ensures Trace(h, [m2, m1], [m1, m2])
  {
  }

  /** 1 brings out 1 and 2. */
  lemma ArriveTwoOne(h: Option<string>, m1: Message, m2: Message)
    requires SequenceInt(h, m1) == Success(1) && SequenceInt(h, m2) == Success(2)
    ensures Feed(h, [m2, m1]).out == [m1, m2]
  {
    TraceTwoOne(h, m1, m2);
    SentExactly(h, [m2, m1], [m1, m2]);
  }

  lemma TraceTwoOneFour(h: Option<string>, m1: Message, m2: Message, m4: Message)
    requires SequenceInt(h, m1) == Success(1) && SequenceInt(h, m2) == Success(2) && SequenceInt(h, m4) == Success(4)
    ensures Trace(h, [m2, m1, m4], [m1, m2])
  {
    assert Number(h, m1) == 1 && Number(h, m2) == 2 && Number(h, m4) == 4;
  }

  /** 4 waits for 3. */
  lemma ArriveTwoOneFour(h: Option<string>, m1: Message, m2: Message, m4: Message)
    requires SequenceInt(h, m1) == Success(1) && SequenceInt(h, m2) == Success(2) && SequenceInt(h, m4) == Success(4)
    ensures Feed(h, [m2, m1, m4]).out == [m1, m2]
  {
    TraceTwoOneFour(h, m1, m2, m4);
    SentExactly(h, [m2, m1, m4], [m1, m2]);
  }

  lemma TraceTwoOneFourThree(h: Option<string>, m1: Message, m2: Message, m3: Message, m4: Message)
    requires SequenceInt(h, m1) == Success(1) && SequenceInt(h, m2) == Success(2)
    requires SequenceInt(h, m3) == Success(3) && SequenceInt(h, m4) == Success(4)
    ensures Trace(h, [m2, m1, m4, m3], [m1, m2, m3, m4])
  {
    assert Number(h, m1) == 1 && Number(h, m2) == 2 && Number(h, m3) == 3 && Number(h, m4) == 4;
  }

  /** 3 brings out 3 and 4. */
  lemma ArriveTwoOneFourThree(h: Option<string>, m1: Message, m2: Message, m3: Message, m4: Message)
    requires SequenceInt(h, m1) == Success(1) && SequenceInt(h, m2) == Success(2)
    requires SequenceInt(h, m3) == Success(3) && SequenceInt(h, m4) == Success(4)
    ensures Feed(h, [m2, m1, m4, m3]).out == [m1, m2, m3, m4]
  {
    TraceTwoOneFourThree(h, m1, m2, m3, m4);
    SentExactly(h, [m2, m1, m4, m3], [m1, m2, m3, m4]);
  }
}
