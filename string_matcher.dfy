/**
 * StringMatcher: tests a string key against a stored query by containment, prefix, suffix,
 * equality or inequality, optionally after lower-casing both.
 */
module StringMatcher {
  import opened Errors

  /** StringMatcher.Types, in declaration order 0..4. */
  datatype Types = Contain | StartWith | EndWith | Equal | NotEqual

  function TypeOf(matchType: int): (r: Option<Types>)
    ensures r.Some? <==> 0 <= matchType <= 4
  {
    match matchType
    case 0 => Some(Contain)
    case 1 => Some(StartWith)
    case 2 => Some(EndWith)
    case 3 => Some(Equal)
    case 4 => Some(NotEqual)
    case _ => None
  }

  /** String.StartsWith, compared character by character. */
  predicate StartsWith(key: string, q: string)
  {
    |q| <= |key| && key[..|q|] == q
  }

  predicate EndsWith(key: string, q: string)
  {
    |q| <= |key| && key[|key| - |q|..] == q
  }

  /** String.Contains: q occurs at some position of key. */
  predicate Contains(key: string, q: string)
    decreases |key|
  {
    StartsWith(key, q) || (key != [] && Contains(key[1..], q))
  }

  /** q occurs in key starting at position i. */
  predicate OccursAt(key: string, q: string, i: int)
  {
    0 <= i <= |key| - |q| && key[i..i + |q|] == q
  }

  /** Contains is the existence of an occurrence, in both directions. */
  lemma {:induction false} ContainsAt(key: string, q: string)
    ensures Contains(key, q) <==> exists i :: OccursAt(key, q, i)
    decreases |key|
  {
    if StartsWith(key, q) {
      assert OccursAt(key, q, 0);
    } else if key != [] {
      ContainsAt(key[1..], q);
      if Contains(key[1..], q) {
        var i :| OccursAt(key[1..], q, i);
        assert key[i + 1..i + 1 + |q|] == key[1..][i..i + |q|];
        assert OccursAt(key, q, i + 1);
      }
      if i :| OccursAt(key, q, i) {
        assert i != 0;
        assert key[1..][i - 1..i - 1 + |q|] == key[i..i + |q|];
        assert OccursAt(key[1..], q, i - 1);
      }
    }
  }

  /** A key none of whose characters is c does not contain the one-character string c. */
  lemma {:induction false} NotContainsChar(key: string, c: char)
    requires forall i | 0 <= i < |key| :: key[i] != c
    ensures !Contains(key, [c])
    decreases |key|
  {
    if key != [] {
      assert key[0] != c;
      NotContainsChar(key[1..], c);
    }
  }

  /** String.ToLower on the letters A to Z. */
  function ToLowerChar(c: char): char
  {
    if 'A' <= c <= 'Z' then (c as int + 32) as char else c
  }

  function ToLower(s: string): (r: string)
    ensures |r| == |s| && forall i | 0 <= i < |s| :: r[i] == ToLowerChar(s[i])
  {
    seq(|s|, i requires 0 <= i < |s| => ToLowerChar(s[i]))
  }

  /** The five match predicates, applied as doMatch(q, key). */
  predicate Accepts(t: Types, q: string, key: string)
  {
    match t
    case Contain => Contains(key, q)
    case StartWith => StartsWith(key, q)
    case EndWith => EndsWith(key, q)
    case Equal => key == q
    case NotEqual => key != q
  }

  class StringMatcher {
    var isIgnoreCase: bool
    var query: string
    var doMatch: Option<Types>

    /** The constructor with a non-null query: stores it and the case flag, then selects the predicate. */
    constructor (query: string, matchType: int, isIgnoreCase: bool)
      ensures this.query == query && this.isIgnoreCase == isIgnoreCase
      ensures doMatch == TypeOf(matchType)
    {
      this.query := query;
      this.isIgnoreCase := isIgnoreCase;
      doMatch := TypeOf(matchType);
    }

    /** The constructor as called with a possibly null query, which the Query setter rejects. */
    static method Create(query: Option<string>, matchType: int, isIgnoreCase: bool) returns (r: Result<StringMatcher>)
      ensures query.None? <==> r == Err(ArgumentNull)
      ensures r.Ok? ==> fresh(r.value) && r.value.query == query.value
      ensures r.Ok? ==> r.value.isIgnoreCase == isIgnoreCase && r.value.doMatch == TypeOf(matchType)
    {
      if query.None? {
        return Err(ArgumentNull);
      }
      var m := new StringMatcher(query.value, matchType, isIgnoreCase);
      return Ok(m);
    }

    /** The Query setter: throws for null and otherwise replaces the query. */
    method SetQuery(value: Option<string>) returns (s: Status)
      modifies this`query
      ensures value.None? <==> s == Fail(ArgumentNull)
      ensures query == if value.Some? then value.value else old(query)
    {
      if value.None? {
        return Fail(ArgumentNull);
      }
      query := value.value;
      return Done;
    }

    method SetIgnoreCase(value: bool)
      modifies this`isIgnoreCase
      ensures isIgnoreCase == value
    {
      isIgnoreCase := value;
    }

    /** Selects predicate `(int)matchType` for 0..4; any other value keeps the previous one. */
    method SetMatchType(matchType: int)
      modifies this`doMatch
      ensures doMatch == if TypeOf(matchType).Some? then TypeOf(matchType) else old(doMatch)
    {
      match matchType {
        case 0 => doMatch := Some(Contain);
        case 1 => doMatch := Some(StartWith);
        case 2 => doMatch := Some(EndWith);
        case 3 => doMatch := Some(Equal);
        case 4 => doMatch := Some(NotEqual);
        case _ =>
      }
    }

    /** IsMatch(key): lower-cases query and key first when isIgnoreCase, then applies the predicate. */
    function IsMatch(key: string): (r: Result<bool>)
      reads this
      ensures doMatch.None? <==> r == Err(NullReference)
      ensures doMatch.Some? && !isIgnoreCase ==> r == Ok(Accepts(doMatch.value, query, key))
      ensures doMatch.Some? && isIgnoreCase ==> r == Ok(Accepts(doMatch.value, ToLower(query), ToLower(key)))
    {
      var q := if isIgnoreCase then ToLower(query) else query;
      var k := if isIgnoreCase then ToLower(key) else key;
      match doMatch
      case None => Err(NullReference)
      case Some(t) => Ok(Accepts(t, q, k))
    }

    function AsPredicate(): (p: string -> bool)
      reads this
      requires doMatch.Some?
      ensures forall key :: IsMatch(key) == Ok(p(key))
    {
      var t, q, ic := doMatch.value, query, isIgnoreCase;
      (key: string) => if ic then Accepts(t, ToLower(q), ToLower(key)) else Accepts(t, q, key)
    }
  }

  /** Equal and NotEqual are complements. */
  lemma EqualNotEqualComplement(q: string, key: string)
    ensures Accepts(Equal, q, key) <==> !Accepts(NotEqual, q, key)
  {
  }

  /** The four positive matches against "HI_-_IH" that the matcher test prints. */
  method HiMatches() returns (a: Result<bool>, b: Result<bool>, c: Result<bool>, d: Result<bool>)
    ensures a == Ok(true) && b == Ok(true) && c == Ok(true) && d == Ok(true)
  {
    var key := "HI_-_IH";
    var m1 := new StringMatcher("HI_", 1, false);
    a := m1.IsMatch(key);
    var m2 := new StringMatcher("_IH", 2, false);
    b := m2.IsMatch(key);
    var m3 := new StringMatcher("HI_-_IH", 3, false);
    c := m3.IsMatch(key);
    var m4 := new StringMatcher("_-_", 0, false);
    assert key[2..][..3] == "_-_";
    d := m4.IsMatch(key);
  }
}
