/**
 * MatchQuery: a list of match groups that a key matches when it matches any one of them (an OR
 * of AND groups). The query holds the groups themselves, so a matcher added to a group after
 * the group was added to the query takes part in later matches.
 */
module MatchQueries {
  import opened Errors
  import opened MatchGroups

  class MatchQuery<K> {
    var groups: seq<MatchGroup<K>>

    constructor ()
      ensures groups == []
    {
      groups := [];
    }

    /** The indexer: the group at index, or ArgumentOutOfRange outside [0, Count). */
    function Get(index: int): (r: Result<MatchGroup<K>>)
      reads this
      ensures r.Ok? <==> 0 <= index < |groups|
      ensures r.Ok? ==> r.value == groups[index]
      ensures r.Err? ==> r.error == ArgumentOutOfRange
    {
      if index < 0 || index >= |groups| then Err(ArgumentOutOfRange) else Ok(groups[index])
    }

    /** NewMatchGroup: a fresh empty group that is not yet part of the query. */
    static method NewMatchGroup() returns (g: MatchGroup<K>)
      ensures fresh(g) && g.matchers == []
    {
      g := new MatchGroup();
    }

    method AddMatchGroup(group: MatchGroup<K>)
      modifies this`groups
      ensures groups == old(groups) + [group]
    {
      groups := groups + [group];
    }

    /** AddMatchGroup(): adds a fresh empty group and returns it. */
    method AddNewMatchGroup() returns (g: MatchGroup<K>)
      modifies this`groups
      ensures fresh(g) && g.matchers == []
      ensures groups == old(groups) + [g]
    {
      g := NewMatchGroup();
      AddMatchGroup(g);
    }

    /** AddMatcher: the same as adding the matcher to the target group directly. */
    method AddMatcher(matcher: K -> bool, targetGroup: MatchGroup<K>)
      modifies targetGroup`matchers
      ensures targetGroup.matchers == old(targetGroup.matchers) + [matcher]
    {
      targetGroup.AddMatcher(matcher);
    }

    /** The query's condition: some group matches the key (false when there are no groups). */
    ghost predicate Matches(key: K)
      reads this, groups
    {
      exists i | 0 <= i < |groups| :: groups[i].Matches(key)
    }

    /** IsMatch stops at the first group that matches the key. */
    method IsMatch(key: K) returns (r: bool)
      ensures r <==> Matches(key)
    {
      var i := 0;
      while i < |groups|
        invariant 0 <= i <= |groups|
        invariant forall j | 0 <= j < i :: !groups[j].Matches(key)
      {
        var m := groups[i].IsMatch(key);
        if m {
          return true;
        }
        i := i + 1;
      }
      return false;
    }
  }
}
