/**
 * The match queries the matcher test builds, checked against the key "Blah_-_blaH". The
 * regular expression ^Blah_-_blaHH$ of the fifth case is written as the equality it denotes.
 */
module MatcherTest {
  import opened StringMatcher
  import opened MatchGroups
  import opened MatchQueries

  const Key := "Blah_-_blaH"

  /** A string matcher with a case-sensitive comparison, as a predicate. */
  method Matcher(query: string, matchType: int) returns (p: string -> bool)
    ensures forall key :: p(key) == Accepts(TypeOf(matchType).value, query, key)
    requires 0 <= matchType <= 4
  {
    var m := new StringMatcher(query, matchType, false);
    p := m.AsPredicate();
  }

  /** No groups: nothing matches. */
  method Case1() returns (r: bool)
    ensures !r
  {
    var q := new MatchQuery<string>();
    r := q.IsMatch(Key);
  }

  /** One empty group: everything matches. */
  method Case2() returns (r: bool)
    ensures r
  {
    var q := new MatchQuery<string>();
    var g := q.AddNewMatchGroup();
    assert q.groups[0].Matches(Key);
    r := q.IsMatch(Key);
  }

  /** One group asking for an "A" the key does not contain. */
  method Case3() returns (r: bool)
    ensures !r
  {
    var q := new MatchQuery<string>();
    var g := q.AddNewMatchGroup();
    var p := Matcher("A", 0);
    g.AddMatcher(p);
    NotContainsChar(Key, 'A');
    assert g.matchers[0] == p && !p(Key);
    assert q.groups == [g];
    r := q.IsMatch(Key);
  }

  /** One group asking for an "a" and a final "H": both hold. */
  method Case4() returns (r: bool)
    ensures r
  {
    var q := new MatchQuery<string>();
    var g := q.AddNewMatchGroup();
    var p1 := Matcher("a", 0);
    g.AddMatcher(p1);
    var p2 := Matcher("H", 2);
    g.AddMatcher(p2);
    ContainsAt(Key, "a");
    assert OccursAt(Key, "a", 2);
    assert q.groups[0].Matches(Key);
    r := q.IsMatch(Key);
  }

  /** Two groups, neither of which matches: "blah" is not a prefix and the key is not Blah_-_blaHH. */
  method Case5() returns (r: bool)
    ensures !r
  {
    var q := new MatchQuery<string>();
    var g1 := q.AddNewMatchGroup();
    var p1 := Matcher("_-_", 0);
    g1.AddMatcher(p1);
    var p2 := Matcher("blah", 1);
    g1.AddMatcher(p2);
    var g2 := q.AddNewMatchGroup();
    g2.AddMatcher(key => key == "Blah_-_blaHH");
    assert Key[..4] != "blah" by { assert Key[0] == 'B'; }
    assert g1.matchers[1] == p2 && !p2(Key);
    assert g2.matchers[0](Key) == (Key == "Blah_-_blaHH");
    assert Key != "Blah_-_blaHH" by { assert |Key| != |"Blah_-_blaHH"|; }
    assert q.groups == [g1, g2];
    r := q.IsMatch(Key);
  }
}
