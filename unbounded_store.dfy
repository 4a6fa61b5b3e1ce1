/**
 * The unbounded message-group store: a decorator over a base store that,
 * each time a message is marked, physically deletes every other marked
 * message of that group and counts it in the group's shadow, so that a
 * never-ending sequence keeps at most one released message while its size
 * still counts every message ever added.
 */
module UnboundedStore {
  import opened Wrappers
  import opened JavaLang
  import opened Messages
  import opened DelegateStore

  /**
   * The group the decorator hands out for a key: the delegate's group as it
   * is at that moment, and the number of marked messages the decorator has
   * deleted from it.
   */
  datatype UnboundedMessageGroup = UnboundedMessageGroup(delegate: MessageGroup, removed: nat) {

    /** Physically held messages plus the ones deleted after marking. */
    function Size(): (n: nat)
      ensures n == |delegate.unmarked| + |delegate.marked| + removed
      ensures n >= removed && n >= |delegate.unmarked| + |delegate.marked|
      ensures n == 0 <==> delegate.unmarked == {} && delegate.marked == {} && removed == 0
    {
      delegate.Size() + removed
    }

    /** An unbounded group never completes. */
    function IsComplete(): (complete: bool)
      ensures !complete
    {
      false
    }

    /** The declared sequence size is the "unbounded" sentinel. */
    function GetSequenceSize(): (n: int)
      ensures n == IntegerMaxValue
    {
      IntegerMaxValue
    }

    /** Passes through to the delegate's group: the messages still physically marked. */
    function GetMarked(): (marked: set<Message>)
      ensures marked == delegate.marked
    {
      delegate.marked
    }

    /** Passes through to the delegate's group: the messages not yet released. */
    function GetUnmarked(): (unmarked: set<Message>)
      ensures unmarked == delegate.unmarked
    {
      delegate.unmarked
    }

    /** Points the shadow at the group the delegate returned last; the count is kept. */
    function SetDelegate(group: MessageGroup): (s: UnboundedMessageGroup)
      ensures s.removed == removed && s.GetMarked() == group.marked && s.GetUnmarked() == group.unmarked
    {
      this.(delegate := group)
    }

    function IncrementRemoved(): (s: UnboundedMessageGroup)
      ensures s.delegate == delegate && s.Size() == Size() + 1
    {
      this.(removed := removed + 1)
    }

    /** The shadow after markMessageFromGroup(m): the delegate marks m and every other marked message is deleted and counted. */
    function MarkFrom(m: Message): (s: UnboundedMessageGroup)
      requires delegate.Wellformed()
      ensures s.delegate.Wellformed()
      ensures s.GetUnmarked() == GetUnmarked() - {m}
      ensures s.GetMarked() == if delegate.Contains(m) then {m} else {}
      ensures s.removed == removed + |GetMarked() - {m}|
    {
      UnboundedMessageGroup(MarkAndPrune(delegate, m), removed + |delegate.marked - {m}|)
    }
  }

  /** The delegate's group after marking `m` and deleting every other marked message. */
  function MarkAndPrune(g: MessageGroup, m: Message): (r: MessageGroup)
    requires g.Wellformed()
    ensures r.Wellformed()
    ensures r.unmarked == g.unmarked - {m}
    ensures r.marked == if g.Contains(m) then {m} else {}
  {
    var marked := g.Mark(m);
    MessageGroup(marked.unmarked, marked.marked * {m})
  }

  /**
   * Marking never changes the logical size, leaves at most one physically
   * marked message (exactly `m` when the group holds it), and only ever
   * increases the removed count.
   */
  lemma MarkKeepsSize(s: UnboundedMessageGroup, m: Message)
    requires s.delegate.Wellformed()
    ensures s.MarkFrom(m).Size() == s.Size()
    ensures s.MarkFrom(m).GetMarked() == if s.delegate.Contains(m) then {m} else {}
    ensures |s.MarkFrom(m).GetMarked()| <= 1
    ensures s.MarkFrom(m).removed >= s.removed
  {
    var g := s.delegate;
    if m in g.unmarked {
      assert m !in g.marked;
      assert g.marked - {m} == g.marked;
      assert |g.unmarked - {m}| == |g.unmarked| - 1;
    } else if m in g.marked {
      assert g.unmarked - {m} == g.unmarked;
      assert |g.marked - {m}| == |g.marked| - 1;
    } else {
      assert g.unmarked - {m} == g.unmarked;
      assert g.marked - {m} == g.marked;
    }
  }

  /** Marking an unmarked message: it becomes the only marked one, and every previously marked message is counted as removed. */
  lemma MarkUnmarked(s: UnboundedMessageGroup, m: Message)
    requires s.delegate.Wellformed() && m in s.delegate.unmarked
    ensures s.MarkFrom(m).GetUnmarked() == s.delegate.unmarked - {m}
    ensures s.MarkFrom(m).GetMarked() == {m}
    ensures s.MarkFrom(m).removed == s.removed + |s.delegate.marked|
    ensures |s.MarkFrom(m).GetUnmarked()| == |s.delegate.unmarked| - 1
    ensures s.MarkFrom(m).Size() == s.Size()
  {
    assert s.delegate.marked - {m} == s.delegate.marked;
  }

  /** In a fresh group of three, marking the first moves it alone to the marked side and counts nothing. */
  lemma MarkFirstOfThree(a: Message, b: Message, c: Message)
    requires a != b && b != c && a != c
    ensures UnboundedMessageGroup(MessageGroup({a, b, c}, {}), 0).MarkFrom(a)
      == UnboundedMessageGroup(MessageGroup({b, c}, {a}), 0)
  {
    MarkUnmarked(UnboundedMessageGroup(MessageGroup({a, b, c}, {}), 0), a);
    assert {a, b, c} - {a} == {b, c};
  }

  /**
   * A group of three: marking the first and then the second leaves the size
   * at three with only the second physically marked, the first counted as
   * removed.
   */
  lemma MarkTwice(a: Message, b: Message, c: Message)
    requires a != b && b != c && a != c
    ensures var s := UnboundedMessageGroup(MessageGroup({a, b, c}, {}), 0).MarkFrom(a).MarkFrom(b);
      s.Size() == 3 && s.GetMarked() == {b} && s.removed == 1 && s.GetUnmarked() == {c}
  {
    MarkFirstOfThree(a, b, c);
    var s1 := UnboundedMessageGroup(MessageGroup({b, c}, {a}), 0);
    MarkUnmarked(s1, b);
    assert {b, c} - {b} == {c};
  }

  /** The delegate's groups while the pruning loop runs: the marked messages in `visited`, other than `m`, are gone. */
  function PruneAt(groups: map<CorrelationKey, MessageGroup>, key: CorrelationKey, m: Message, visited: set<Message>): map<CorrelationKey, MessageGroup>
  {
    if key in groups then groups[key := MessageGroup(groups[key].unmarked, groups[key].marked - (visited - {m}))] else groups
  }

  /** One turn of the pruning loop over the visited and still-to-visit parts of the marked set. */
  lemma VisitStep(visited: set<Message>, toVisit: set<Message>, m: Message, message: Message)
    requires message in toVisit && visited !! toVisit
    ensures (visited + {message}) + (toVisit - {message}) == visited + toVisit
    ensures (visited + {message}) !! (toVisit - {message})
    ensures (visited + {message}) - {m} == if message == m then visited - {m} else (visited - {m}) + {message}
    ensures |(visited + {message}) - {m}| == |visited - {m}| + (if message == m then 0 else 1)
  {
    if message != m {
      assert message !in visited - {m};
    }
  }

  /** Visiting `message` other than `m` deletes it from the delegate's group. */
  lemma PruneStep(groups: map<CorrelationKey, MessageGroup>, key: CorrelationKey, m: Message,
                  visited: set<Message>, message: Message)
    requires key in groups ==> groups[key].Wellformed() && message in groups[key].marked
    requires message != m
    ensures var now := PruneAt(groups, key, m, visited);
      key in now ==>
        now[key].Wellformed() && PruneAt(groups, key, m, visited + {message}) == now[key := now[key].Remove(message)]
  {
    if key in groups {
      var g := groups[key];
      assert (visited + {message}) - {m} == (visited - {m}) + {message};
      assert g.unmarked - {message} == g.unmarked;
      assert g.marked - (visited + {message} - {m}) == (g.marked - (visited - {m})) - {message};
    }
  }

  /** Once every marked message has been visited, the delegate's group is the marked-and-pruned one. */
  lemma PruneDone(groups: map<CorrelationKey, MessageGroup>, key: CorrelationKey, m: Message)
    requires key in groups ==> groups[key].Wellformed()
    ensures var afterMark := if key in groups then groups[key := groups[key].Mark(m)] else groups;
      PruneAt(afterMark, key, m, GroupOf(afterMark, key).marked)
        == if key in groups then groups[key := MarkAndPrune(groups[key], m)] else groups
  {
    if key in groups {
      var g := groups[key];
      var afterMark := groups[key := g.Mark(m)];
      var marked := g.Mark(m).marked;
      assert GroupOf(afterMark, key) == g.Mark(m);
      assert marked - (marked - {m}) == marked * {m};
      assert afterMark[key := MarkAndPrune(g, m)] == groups[key := MarkAndPrune(g, m)];
    }
  }

  /** The Java NullPointerException of synchronizing on a shadow group that does not exist. */
  datatype StoreError = NoShadowGroup(key: CorrelationKey)

  class UnboundedMessageGroupStore {
    const delegate: SimpleMessageStore

    /** The shadow groups: for each key, the number of marked messages deleted from the delegate. */
    var groups: map<CorrelationKey, nat>

    ghost predicate Valid()
      reads this, delegate
    {
      delegate.Valid()
    }

    constructor (messageGroupStore: SimpleMessageStore)
      requires messageGroupStore.Valid()
      ensures Valid() && delegate == messageGroupStore && groups == map[]
    {
      delegate := messageGroupStore;
      groups := map[];
    }

    /** The shadow group for `key`, seen through its (live) reference to the delegate's group. */
    function Shadow(key: CorrelationKey): UnboundedMessageGroup
      reads this, delegate
      requires key in groups
    {
      UnboundedMessageGroup(delegate.Group(key), groups[key])
    }

    /** The size the shadow for `key` reports, counting a missing shadow as having removed nothing. */
    ghost function LogicalSize(key: CorrelationKey): nat
      reads this, delegate
    {
      delegate.Group(key).Size() + (if key in groups then groups[key] else 0)
    }

    method GetMessageCountForAllMessageGroups() returns (n: nat)
      ensures n == Total(delegate.groups, AllMessages)
    {
      n := delegate.GetMessageCountForAllMessageGroups();
    }

    method GetMarkedMessageCountForAllMessageGroups() returns (n: nat)
      ensures n == Total(delegate.groups, MarkedMessages)
    {
      n := delegate.GetMarkedMessageCountForAllMessageGroups();
    }

    method GetMessageGroupCount() returns (n: nat)
      ensures n == |delegate.groups|
    {
      n := delegate.GetMessageGroupCount();
    }

    method GetMessageGroup(groupId: CorrelationKey) returns (r: UnboundedMessageGroup)
      requires Valid()
      modifies this
      ensures Valid()
      ensures groupId in old(groups) ==> groups == old(groups)
      ensures groupId !in old(groups) ==> groups == old(groups)[groupId := 0]
      ensures r == Shadow(groupId) && r.Size() == LogicalSize(groupId)
    {
      var messageGroup := delegate.Group(groupId);
      if groupId !in groups {
        r := UnboundedMessageGroup(messageGroup, 0);
        groups := groups[groupId := r.removed];
      } else {
        r := UnboundedMessageGroup(messageGroup, groups[groupId]);
      }
    }

    method AddMessageToGroup(groupId: CorrelationKey, message: Message) returns (r: UnboundedMessageGroup)
      requires Valid()
      modifies this, delegate
      ensures Valid()
      ensures delegate.groups == old(delegate.groups)[groupId := old(delegate.Group(groupId)).Add(message)]
      ensures groups == old(groups)[groupId := if groupId in old(groups) then old(groups)[groupId] else 0]
      ensures r == Shadow(groupId)
      ensures r.Size() == old(LogicalSize(groupId)) + if old(delegate.Group(groupId)).Contains(message) then 0 else 1
    {
      var group := delegate.AddMessageToGroup(groupId, message);
      if groupId !in groups {
        r := UnboundedMessageGroup(group, 0);
        groups := groups[groupId := r.removed];
      } else {
        r := UnboundedMessageGroup(group, groups[groupId]);
      }
    }

    /** Whole-group marking passes straight through: no pruning, no count. */
    method MarkMessageGroup(groupId: CorrelationKey) returns (g: MessageGroup)
      requires Valid()
      modifies delegate
      ensures Valid()
      ensures delegate.groups == if groupId in old(delegate.groups) then old(delegate.groups)[groupId := old(delegate.groups)[groupId].MarkAll()] else old(delegate.groups)
      ensures g == delegate.Group(groupId) && LogicalSize(groupId) == old(LogicalSize(groupId))
    {
      g := delegate.MarkMessageGroup(groupId);
    }

    /** Passes straight through: the message leaves the delegate and is not counted as removed. */
    method RemoveMessageFromGroup(key: CorrelationKey, messageToRemove: Message) returns (g: MessageGroup)
      requires Valid()
      modifies delegate
      ensures Valid()
      ensures delegate.groups == if key in old(delegate.groups) then old(delegate.groups)[key := old(delegate.groups)[key].Remove(messageToRemove)] else old(delegate.groups)
      ensures g == delegate.Group(key)
      ensures LogicalSize(key) == old(LogicalSize(key)) - if old(delegate.Group(key)).Contains(messageToRemove) then 1 else 0
    {
      g := delegate.RemoveMessageFromGroup(key, messageToRemove);
    }

    /**
     * Marks `messageToMark` and deletes every other marked message of the
     * group, counting each in the shadow. Callers mark in ascending sequence
     * order; the pruning itself does not depend on it.
     */
    method MarkMessageFromGroup(key: CorrelationKey, messageToMark: Message) returns (r: Result<UnboundedMessageGroup, StoreError>)
      requires Valid()
      modifies this, delegate
      ensures Valid()
      ensures key !in old(groups) ==>
        r == Failure(NoShadowGroup(key)) && groups == old(groups) && delegate.groups == old(delegate.groups)
      ensures key in old(groups) ==>
        && delegate.groups == (if key in old(delegate.groups)
                               then old(delegate.groups)[key := MarkAndPrune(old(delegate.groups)[key], messageToMark)]
                               else old(delegate.groups))
        && key in groups
        && groups == old(groups)[key := Shadow(key).removed]
        && r == Success(Shadow(key))
        && Shadow(key) == old(Shadow(key)).MarkFrom(messageToMark)
        && Shadow(key).Size() == old(Shadow(key)).Size()
        && Shadow(key).GetMarked() == (if old(delegate.Group(key)).Contains(messageToMark) then {messageToMark} else {})
        && Total(delegate.groups, AllMessages) + Shadow(key).removed
             == old(Total(delegate.groups, AllMessages)) + old(groups)[key]
    {
      if key !in groups {
        return Failure(NoShadowGroup(key));
      }
      var group := Shadow(key);
      ghost var before := group.delegate;
      delegate.MarkMessageFromGroup(key, messageToMark);
      var marked := delegate.Group(key).marked;
      group := PruneMarked(key, messageToMark, marked, group);
      groups := groups[key := group.removed];
      PruneDone(old(delegate.groups), key, messageToMark);
      MarkKeepsSize(UnboundedMessageGroup(before, old(groups)[key]), messageToMark);
      TotalUpdate(old(delegate.groups), key, MarkAndPrune(before, messageToMark), AllMessages);
      r := Success(Shadow(key));
    }

    /**
     * The loop of markMessageFromGroup: every message of `marked` other than
     * `keep` is removed from the delegate and counted in `group`.
     */
    method PruneMarked(key: CorrelationKey, keep: Message, marked: set<Message>, group: UnboundedMessageGroup)
      returns (pruned: UnboundedMessageGroup)
      requires Valid() && marked == delegate.Group(key).marked
      modifies delegate
      ensures Valid()
      ensures delegate.groups == PruneAt(old(delegate.groups), key, keep, marked)
      ensures pruned.removed == group.removed + |marked - {keep}|
    {
      pruned := group;
      ghost var start := delegate.groups;
      var toVisit := marked;
      ghost var visited: set<Message> := {};
      assert visited - {keep} == {};
      assert key in start ==> start[key] == MessageGroup(start[key].unmarked, start[key].marked - {});
      assert start == PruneAt(start, key, keep, visited);
      while toVisit != {}
        invariant Valid()
        invariant visited + toVisit == marked && visited !! toVisit
        invariant delegate.groups == PruneAt(start, key, keep, visited)
        invariant pruned.removed == group.removed + |visited - {keep}|
        decreases toVisit
      {
        var message :| message in toVisit;
        VisitStep(visited, toVisit, keep, message);
        if message != keep {
          PruneStep(start, key, keep, visited, message);
          var _ := RemoveMessageFromGroup(key, message);
          pruned := pruned.IncrementRemoved();
        }
        visited := visited + {message};
        toVisit := toVisit - {message};
      }
    }

    method RemoveMessageGroup(groupId: CorrelationKey)
      modifies this, delegate
      ensures delegate.groups == old(delegate.groups) - {groupId}
      ensures groups == old(groups) - {groupId}
    {
      delegate.RemoveMessageGroup(groupId);
      groups := groups - {groupId};
    }

    /**
     * Runs the delegate's sweep (whose outcome is `delegateExpired` and
     * `after`); when it expired anything, drops every shadow whose delegate
     * group is now empty and keeps the others.
     */
    method ExpireMessageGroups(timeout: int, delegateExpired: nat, after: map<CorrelationKey, MessageGroup>) returns (expired: nat)
      requires Valid()
      requires forall k :: k in after ==> after[k].Wellformed()
      modifies this, delegate
      ensures Valid()
      ensures expired == delegateExpired && delegate.groups == after
      ensures expired > 0 ==> groups == map k | k in old(groups) && GroupOf(after, k).Size() != 0 :: old(groups)[k]
      ensures expired == 0 ==> groups == old(groups)
    {
      expired := delegate.ExpireMessageGroups(timeout, delegateExpired, after);
      if expired > 0 {
        var keys := groups.Keys;
        while keys != {}
          invariant keys <= old(groups).Keys && delegate.groups == after
          invariant groups == map k | k in old(groups) && (k in keys || GroupOf(after, k).Size() != 0) :: old(groups)[k]
          decreases keys
        {
          var key :| key in keys;
          if delegate.Group(key).Size() == 0 {
            groups := groups - {key};
          }
          keys := keys - {key};
        }
      }
    }
  }
}
