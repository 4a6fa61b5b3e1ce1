/**
 * The base message-group store that the unbounded decorator wraps. Its own
 * implementation is not part of this model; this is an abstract in-memory
 * store: a map from correlation key to a plain group, with the operations of
 * the base store contract and its aggregate counters.
 */
module DelegateStore {
  import opened Messages

  /** What an aggregate counter adds up over the groups. */
  datatype Tally = AllMessages | MarkedMessages

  function CountIn(g: MessageGroup, t: Tally): nat {
    match t
    case AllMessages => g.Size()
    case MarkedMessages => |g.marked|
  }

  /** Some key of a non-empty store, the one the sum below starts from. */
  ghost function AnyKey(groups: map<CorrelationKey, MessageGroup>): (k: CorrelationKey)
    requires groups != map[]
    ensures k in groups
  {
    var k :| k in groups; k
  }

  /** The sum of `CountIn` over every group of the store. */
  ghost function Total(groups: map<CorrelationKey, MessageGroup>, t: Tally): nat
    decreases |groups|
  {
    if groups == map[] then 0
    else
      var k := AnyKey(groups);
      CountIn(groups[k], t) + Total(groups - {k}, t)
  }

  lemma MapRemoveCardinality(groups: map<CorrelationKey, MessageGroup>, k: CorrelationKey)
    requires k in groups
    ensures |groups - {k}| == |groups| - 1
  {
    assert (groups - {k}).Keys == groups.Keys - {k};
  }

  /** Whichever key the sum starts from, it comes to the same total. */
  lemma {:induction false} TotalRemove(groups: map<CorrelationKey, MessageGroup>, k: CorrelationKey, t: Tally)
    requires k in groups
    ensures Total(groups, t) == CountIn(groups[k], t) + Total(groups - {k}, t)
    decreases |groups|
  {
    var j := AnyKey(groups);
    if j != k {
      MapRemoveCardinality(groups, j);
      MapRemoveCardinality(groups, k);
      TotalRemove(groups - {j}, k, t);
      TotalRemove(groups - {k}, j, t);
      assert groups - {j} - {k} == groups - {k} - {j};
    }
  }

  /** Replacing one group changes the total by exactly that group's difference. */
  lemma TotalUpdate(groups: map<CorrelationKey, MessageGroup>, k: CorrelationKey, g: MessageGroup, t: Tally)
    ensures Total(groups[k := g], t) + CountIn(GroupOf(groups, k), t) == Total(groups, t) + CountIn(g, t)
  {
    TotalRemove(groups[k := g], k, t);
    assert groups[k := g] - {k} == groups - {k};
    if k in groups {
      TotalRemove(groups, k, t);
    } else {
      assert groups - {k} == groups;
    }
  }

  class SimpleMessageStore {
    var groups: map<CorrelationKey, MessageGroup>

    ghost predicate Valid()
      reads this
    {
      forall k :: k in groups ==> groups[k].Wellformed()
    }

    constructor ()
      ensures Valid() && groups == map[]
    {
      groups := map[];
    }

    /** getMessageGroup: the group for `key`, or an empty one; the store itself is not changed. */
    function Group(key: CorrelationKey): MessageGroup
      reads this
    {
      GroupOf(groups, key)
    }

    method AddMessageToGroup(key: CorrelationKey, message: Message) returns (g: MessageGroup)
      requires Valid()
      modifies this
      ensures Valid()
      ensures groups == old(groups)[key := old(Group(key)).Add(message)]
      ensures g == Group(key)
    {
      g := Group(key).Add(message);
      groups := groups[key := g];
    }

    method MarkMessageFromGroup(key: CorrelationKey, message: Message)
      requires Valid()
      modifies this
      ensures Valid()
      ensures groups == if key in old(groups) then old(groups)[key := old(groups)[key].Mark(message)] else old(groups)
    {
      if key in groups {
        groups := groups[key := groups[key].Mark(message)];
      }
    }

    method MarkMessageGroup(key: CorrelationKey) returns (g: MessageGroup)
      requires Valid()
      modifies this
      ensures Valid()
      ensures groups == if key in old(groups) then old(groups)[key := old(groups)[key].MarkAll()] else old(groups)
      ensures g == Group(key)
    {
      if key in groups {
        groups := groups[key := groups[key].MarkAll()];
      }
      g := Group(key);
    }

    method RemoveMessageFromGroup(key: CorrelationKey, message: Message) returns (g: MessageGroup)
      requires Valid()
      modifies this
      ensures Valid()
      ensures groups == if key in old(groups) then old(groups)[key := old(groups)[key].Remove(message)] else old(groups)
      ensures g == Group(key)
    {
      if key in groups {
        groups := groups[key := groups[key].Remove(message)];
      }
      g := Group(key);
    }

    method RemoveMessageGroup(key: CorrelationKey)
      modifies this
      ensures groups == old(groups) - {key}
    {
      groups := groups - {key};
    }

    /**
     * The delegate's expiry sweep, together with whatever its registered
     * callbacks do, is outside this model: `expired` is the count it reports
     * and `after` the groups it leaves behind.
     */
    method ExpireMessageGroups(timeout: int, expired: nat, after: map<CorrelationKey, MessageGroup>) returns (n: nat)
      requires forall k :: k in after ==> after[k].Wellformed()
      modifies this
      ensures Valid()
      ensures groups == after && n == expired
    {
      groups := after;
      n := expired;
    }

    method CountAll(t: Tally) returns (n: nat)
      ensures n == Total(groups, t)
    {
      var rest := groups;
      n := 0;
      while rest != map[]
        invariant n + Total(rest, t) == Total(groups, t)
        decreases |rest|
      {
        var k :| k in rest;
        TotalRemove(rest, k, t);
        MapRemoveCardinality(rest, k);
        n := n + CountIn(rest[k], t);
        rest := rest - {k};
      }
    }

    method GetMessageCountForAllMessageGroups() returns (n: nat)
      ensures n == Total(groups, AllMessages)
    {
      n := CountAll(AllMessages);
    }

    method GetMarkedMessageCountForAllMessageGroups() returns (n: nat)
      ensures n == Total(groups, MarkedMessages)
    {
      n := CountAll(MarkedMessages);
    }

    method GetMessageGroupCount() returns (n: nat)
      ensures n == |groups|
    {
      n := |groups|;
    }
  }
}
