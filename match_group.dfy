/**
 * MatchGroup: a list of matchers that a key matches when it matches every one of them (an AND
 * of conditions). A matcher is represented by the predicate its IsMatch computes.
 */
module MatchGroups {
  import opened Errors

  class MatchGroup<K> {
    var matchers: seq<K -> bool>

    constructor ()
      ensures matchers == []
    {
      matchers := [];
    }

    /** The indexer: the matcher at index, or ArgumentOutOfRange outside [0, Count). */
    function Get(index: int): (r: Result<K -> bool>)
      reads this
      ensures r.Ok? <==> 0 <= index < |matchers|
      ensures r.Ok? ==> r.value == matchers[index]
      ensures r.Err? ==> r.error == ArgumentOutOfRange
    {
      if index < 0 || index >= |matchers| then Err(ArgumentOutOfRange) else Ok(matchers[index])
    }

    method AddMatcher(matcher: K -> bool)
      modifies this`matchers
      ensures matchers == old(matchers) + [matcher]
    {
      matchers := matchers + [matcher];
    }

    /** The group's condition: every matcher accepts the key (vacuously true when empty). */
    ghost predicate Matches(key: K)
      reads this
    {
      forall i | 0 <= i < |matchers| :: matchers[i](key)
    }

    /** IsMatch stops at the first matcher that rejects the key. */
    method IsMatch(key: K) returns (r: bool)
      ensures r <==> Matches(key)
      ensures !r ==> exists i | 0 <= i < |matchers| :: !matchers[i](key)
    {
      var i := 0;
      while i < |matchers|
        invariant 0 <= i <= |matchers|
        invariant forall j | 0 <= j < i :: matchers[j](key)
      {
        if !matchers[i](key) {
          return false;
        }
        i := i + 1;
      }
      return true;
    }
  }

  /** Adding a matcher narrows the group: the new group matches exactly what both accept. */
  lemma AddMatcherNarrows<K>(before: seq<K -> bool>, m: K -> bool, key: K)
    ensures (forall i | 0 <= i < |before + [m]| :: (before + [m])[i](key))
        <==> (forall i | 0 <= i < |before| :: before[i](key)) && m(key)
  {
    var after := before + [m];
    assert after[|before|] == m;
    assert forall i | 0 <= i < |before| :: after[i] == before[i];
  }
}
