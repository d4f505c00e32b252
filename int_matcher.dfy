/** IntMatcher: compares an int key with a stored number under one of six comparison modes. */
module IntMatcher {
  import opened Bytes
  import opened Errors

  /** IntMatcher.Types, in declaration order 0..5. */
  datatype Types = Equal | NotEqual | Greater | GreaterOrEqual | Less | LessOrEqual

  /** The `(int)matchType` switch: the mode a raw enum value selects, if any. */
  function TypeOf(matchType: int): (r: Option<Types>)
    ensures r.Some? <==> 0 <= matchType <= 5
  {
    match matchType
    case 0 => Some(Equal)
    case 1 => Some(NotEqual)
    case 2 => Some(Greater)
    case 3 => Some(GreaterOrEqual)
    case 4 => Some(Less)
    case 5 => Some(LessOrEqual)
    case _ => None
  }

  /** The six match predicates. */
  predicate Accepts(t: Types, number: int32, key: int32)
  {
    match t
    case Equal => key == number
    case NotEqual => key != number
    case Greater => key > number
    case GreaterOrEqual => key >= number
    case Less => key < number
    case LessOrEqual => key <= number
  }

  /** Equal and NotEqual, Greater and LessOrEqual, GreaterOrEqual and Less are complements. */
  lemma ComplementModes(number: int32, key: int32)
    ensures Accepts(Equal, number, key) <==> !Accepts(NotEqual, number, key)
    ensures Accepts(Greater, number, key) <==> !Accepts(LessOrEqual, number, key)
    ensures Accepts(GreaterOrEqual, number, key) <==> !Accepts(Less, number, key)
  {
  }

  class IntMatcher {
    var number: int32
    /** The selected predicate; None stands for the unset delegate. */
    var doMatch: Option<Types>

    constructor (number: int32, matchType: int)
      ensures this.number == number && doMatch == TypeOf(matchType)
    {
      this.number := number;
      doMatch := None;
      new;
      SetMatchType(matchType);
    }

    /** The Number setter: later matches compare against the new value. */
    method SetNumber(value: int32)
      modifies this`number
      ensures number == value
    {
      number := value;
    }

    /** Selects predicate `(int)matchType` for 0..5; any other value keeps the previous one. */
    method SetMatchType(matchType: int)
      modifies this`doMatch
      ensures doMatch == if TypeOf(matchType).Some? then TypeOf(matchType) else old(doMatch)
    {
      match matchType {
        case 0 => doMatch := Some(Equal);
        case 1 => doMatch := Some(NotEqual);
        case 2 => doMatch := Some(Greater);
        case 3 => doMatch := Some(GreaterOrEqual);
        case 4 => doMatch := Some(Less);
        case 5 => doMatch := Some(LessOrEqual);
        case _ =>
      }
    }

    /** IsMatch(key): calls the selected predicate; with none selected the call fails on a null delegate. */
    function IsMatch(key: int32): (r: Result<bool>)
      reads this
      ensures doMatch.None? <==> r == Err(NullReference)
      ensures doMatch == Some(Equal) ==> r == Ok(key == number)
      ensures doMatch == Some(NotEqual) ==> r == Ok(key != number)
      ensures doMatch == Some(Greater) ==> r == Ok(key > number)
      ensures doMatch == Some(GreaterOrEqual) ==> r == Ok(key >= number)
      ensures doMatch == Some(Less) ==> r == Ok(key < number)
      ensures doMatch == Some(LessOrEqual) ==> r == Ok(key <= number)
    {
      match doMatch
      case None => Err(NullReference)
      case Some(t) => Ok(Accepts(t, number, key))
    }

    /** The matcher as a key predicate, for adding to a match group. */
    function AsPredicate(): (p: int32 -> bool)
      reads this
      requires doMatch.Some?
      ensures forall key :: IsMatch(key) == Ok(p(key))
    {
      var t, n := doMatch.value, number;
      (key: int32) => Accepts(t, n, key)
    }
  }

  /**
   * Changing Number changes the threshold later matches use, and an out-of-range match type
   * keeps the Greater predicate chosen at construction.
   */
  method NumberChangesThreshold() returns (before: Result<bool>, after: Result<bool>)
    ensures before == Ok(true) && after == Ok(false)
  {
    var m := new IntMatcher(10, 2);
    before := m.IsMatch(15);
    m.SetNumber(20);
    m.SetMatchType(9);
    after := m.IsMatch(15);
  }
}
