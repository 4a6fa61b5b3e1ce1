/**
 * The release rule of the unbounded resequencer: the lowest unmarked message
 * may go out when it directly follows the last released (marked) one, or,
 * before anything was released, when it is sequence number 1.
 *
 * The strategy's only state is its configuration, kept in the class below;
 * the rule itself reads just the configured header, so it is stated as pure
 * functions of that header.
 */
module ReleaseStrategy {
  import opened Wrappers
  import opened JavaLang
  import opened Messages

  datatype ReleaseError =
    | NullSequenceNumber            // unboxing a null Integer
    | NotAnInteger(header: string)  // the custom header holds something other than an Integer
    | UnsupportedOperation(message: string)
    | IndexOutOfBounds              // `get(0)` on an empty list

  const PartialSequencesRequired := "Release Partial Sequences Must be True"

  /**
   * getSequenceNumber: the standard sequence number when no custom header is
   * configured, otherwise the named header's value (`None` standing for the
   * Java null of an absent header).
   */
  function SequenceNumber(sequenceHeader: Option<string>, m: Message): (r: Result<Option<JavaInt>, ReleaseError>)
    ensures sequenceHeader.None? ==> r == Success(Some(m.sequenceNumber))
    ensures sequenceHeader.Some? ==> (r == Success(None) <==> sequenceHeader.value !in m.headers)
    ensures sequenceHeader.Some? ==>
      (r.Failure? <==> sequenceHeader.value in m.headers && m.headers[sequenceHeader.value].TextValue?)
    ensures sequenceHeader.Some? && r.Success? && r.value.Some? ==>
      sequenceHeader.value in m.headers && m.headers[sequenceHeader.value] == IntValue(r.value.value)
  {
    match sequenceHeader
    case None => Success(Some(m.sequenceNumber))
    case Some(name) =>
      if name !in m.headers then Success(None)
      else
        match m.headers[name]
        case IntValue(i) => Success(Some(i))
        case TextValue(_) => Failure(NotAnInteger(name))
  }

  /** The sequence number as the `int` the rule compares: a null cannot be unboxed. */
  function SequenceInt(sequenceHeader: Option<string>, m: Message): (r: Result<JavaInt, ReleaseError>)
    ensures r.Success? <==> SequenceNumber(sequenceHeader, m).Success? && SequenceNumber(sequenceHeader, m).value.Some?
    ensures r.Success? ==> SequenceNumber(sequenceHeader, m) == Success(Some(r.value))
    ensures SequenceNumber(sequenceHeader, m) == Success(None) ==> r == Failure(NullSequenceNumber)
  {
    match SequenceNumber(sequenceHeader, m)
    case Failure(e) => Failure(e)
    case Success(None) => Failure(NullSequenceNumber)
    case Success(Some(n)) => Success(n)
  }

  /**
   * canReleasePartial. `sorted` is the group's unmarked messages in ascending
   * sequence order (only its head is read, and an empty list has none) and
   * `marked` the group's marked messages in iteration order (only the first
   * is read).
   */
  function CanReleasePartial(sequenceHeader: Option<string>, marked: seq<Message>, sorted: seq<Message>)
    : (r: Result<bool, ReleaseError>)
    ensures |sorted| == 0 ==> r == Failure(IndexOutOfBounds)
    ensures |sorted| > 0 && SequenceInt(sequenceHeader, sorted[0]).Failure? ==>
      r == Failure(SequenceInt(sequenceHeader, sorted[0]).error)
    ensures r.Failure? <==>
      || |sorted| == 0
      || SequenceInt(sequenceHeader, sorted[0]).Failure?
      || (|marked| > 0 && SequenceInt(sequenceHeader, marked[0]).Failure?)
    ensures r == Success(true) <==>
      && |sorted| > 0
      && SequenceInt(sequenceHeader, sorted[0]).Success?
      && (|marked| == 0 ==> SequenceInt(sequenceHeader, sorted[0]).value == 1)
      && (|marked| > 0 ==> SequenceInt(sequenceHeader, marked[0]) == Success(Predecessor(SequenceInt(sequenceHeader, sorted[0]).value)))
  {
    if |sorted| == 0 then Failure(IndexOutOfBounds)
    else
      match SequenceInt(sequenceHeader, sorted[0])
      case Failure(e) => Failure(e)
      case Success(tail) =>
        if |marked| == 0 then Success(tail == 1)
        else
          match SequenceInt(sequenceHeader, marked[0])
          case Failure(e) => Failure(e)
          case Success(last) => Success(last == Predecessor(tail))
  }

  /** Orders messages by the sequence number read from one header (the standard one when `None`). */
  datatype SequenceNumberComparator = SequenceNumberComparator(sequenceHeader: Option<string>)

  class UnboundedSequenceReleaseStrategy {
    var sequenceHeader: Option<string>
    var comparator: SequenceNumberComparator
    var releasePartialSequences: bool

    /** Partial release is always on, and the sort uses the header the rule reads. */
    ghost predicate Valid()
      reads this
    {
      releasePartialSequences && comparator.sequenceHeader == sequenceHeader
    }

    constructor ()
      ensures Valid() && sequenceHeader == None
    {
      sequenceHeader := None;
      comparator := SequenceNumberComparator(None);
      releasePartialSequences := true;
    }

    method SetSequenceHeader(header: Option<string>)
      requires Valid()
      modifies this
      ensures Valid() && sequenceHeader == header
    {
      sequenceHeader := header;
      comparator := SequenceNumberComparator(header);
    }

    /** Partial release cannot be switched off; switching it on changes nothing. */
    method SetReleasePartialSequences(releasePartialSequences: bool) returns (r: Outcome<ReleaseError>)
      ensures r.Pass? <==> releasePartialSequences
      ensures !releasePartialSequences ==> r == Fail(UnsupportedOperation(PartialSequencesRequired))
    {
      if !releasePartialSequences {
        return Fail(UnsupportedOperation(PartialSequencesRequired));
      }
      r := Pass;
    }
  }
}
