/**
 * Envelopes and the plain message group of the base store contract: a group
 * partitions its messages into an unmarked and a marked set.
 */
module Messages {
  import opened JavaLang

  /** A header value: the release strategy expects an Integer, anything else is a cast error. */
  datatype HeaderValue = IntValue(i: JavaInt) | TextValue(s: string)

  /**
   * An immutable envelope. `id` stands for the message's unique id header,
   * `sequenceNumber` for the standard sequence-number header (0 when absent),
   * `headers` for every other header.
   */
  datatype Message = Message(id: nat, sequenceNumber: JavaInt, headers: map<string, HeaderValue>)

  type CorrelationKey = string

  /** A group as the delegate store keeps it. */
  datatype MessageGroup = MessageGroup(unmarked: set<Message>, marked: set<Message>) {

    /** A message is in at most one of the two partitions. */
    predicate Wellformed() {
      unmarked !! marked
    }

    /** The plain group's size: every message it physically holds. */
    function Size(): nat {
      |unmarked| + |marked|
    }

    predicate Contains(m: Message) {
      m in unmarked || m in marked
    }

    /** Adds `m` as unmarked; a message already in the group is not added twice. */
    function Add(m: Message): (g: MessageGroup)
      requires Wellformed()
      ensures g.Wellformed()
      ensures g.Contains(m)
      ensures g.Size() == if Contains(m) then Size() else Size() + 1
    {
      if Contains(m) then this else MessageGroup(unmarked + {m}, marked)
    }

    /** Moves `m` from the unmarked to the marked partition; anything else is left alone. */
    function Mark(m: Message): (g: MessageGroup)
      requires Wellformed()
      ensures g.Wellformed() && g.Size() == Size()
      ensures g.Contains(m) == Contains(m)
      ensures Contains(m) ==> m in g.marked
    {
      if m in unmarked then MessageGroup(unmarked - {m}, marked + {m}) else this
    }

    /** Marks every unmarked message of the group. */
    function MarkAll(): (g: MessageGroup)
      requires Wellformed()
      ensures g.Wellformed() && g.Size() == Size() && g.unmarked == {}
    {
      MessageGroup({}, unmarked + marked)
    }

    /** Deletes `m` from whichever partition holds it. */
    function Remove(m: Message): (g: MessageGroup)
      requires Wellformed()
      ensures g.Wellformed() && !g.Contains(m)
      ensures g.Size() == if Contains(m) then Size() - 1 else Size()
    {
      MessageGroup(unmarked - {m}, marked - {m})
    }
  }

  const EmptyGroup := MessageGroup({}, {})

  /** What the delegate answers for `key`: its group, or an empty group when it has none. */
  function GroupOf(groups: map<CorrelationKey, MessageGroup>, key: CorrelationKey): MessageGroup {
    if key in groups then groups[key] else EmptyGroup
  }
}
