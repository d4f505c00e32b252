/** Order-preserving filters over sequences, used for the query's id lists and the match scans. */
module Seqs {
  import opened Errors

  /** The elements of s that satisfy p, in their order in s. */
  function Filter<T>(s: seq<T>, p: T -> bool): (r: seq<T>)
    ensures |r| <= |s|
  {
    if s == [] then [] else (if p(s[0]) then [s[0]] else []) + Filter(s[1..], p)
  }

  /** An element is kept exactly when it occurs in s and satisfies p. */
  lemma {:induction false} FilterMembership<T>(s: seq<T>, p: T -> bool, x: T)
    ensures x in Filter(s, p) <==> x in s && p(x)
  {
    if s != [] {
      FilterMembership(s[1..], p, x);
      assert x in s <==> x == s[0] || x in s[1..];
    }
  }

  lemma {:induction false} FilterAppend<T>(a: seq<T>, b: seq<T>, p: T -> bool)
    ensures Filter(a + b, p) == Filter(a, p) + Filter(b, p)
  {
    if a == [] {
      assert a + b == b;
    } else {
      var ab, tail := a + b, a[1..];
      assert ab[0] == a[0] && ab[1..] == tail + b;
      FilterAppend(tail, b, p);
      var head := if p(a[0]) then [a[0]] else [];
      var x, y := Filter(tail, p), Filter(b, p);
      assert Filter(ab, p) == head + (x + y);
      assert Filter(a, p) == head + x;
      assert head + (x + y) == (head + x) + y;
    }
  }

  /** The values f gives for the elements of s, skipping those it gives none for. */
  function Collect<A, B>(s: seq<A>, f: A -> Option<B>): (r: seq<B>)
    ensures |r| <= |s|
  {
    if s == [] then []
    else (if f(s[0]).Some? then [f(s[0]).value] else []) + Collect(s[1..], f)
  }

  /** Collecting with two functions that agree on s gives the same sequence. */
  lemma {:induction false} CollectAgree<A, B>(s: seq<A>, f: A -> Option<B>, g: A -> Option<B>)
    requires forall i | 0 <= i < |s| :: f(s[i]) == g(s[i])
    ensures Collect(s, f) == Collect(s, g)
  {
    if s != [] {
      CollectAgree(s[1..], f, g);
    }
  }

  lemma {:induction false} CollectAppend<A, B>(a: seq<A>, b: seq<A>, f: A -> Option<B>)
    ensures Collect(a + b, f) == Collect(a, f) + Collect(b, f)
  {
    if a == [] {
      assert a + b == b;
    } else {
      var ab, tail := a + b, a[1..];
      assert ab[0] == a[0] && ab[1..] == tail + b;
      CollectAppend(tail, b, f);
      var head := if f(a[0]).Some? then [f(a[0]).value] else [];
      var x, y := Collect(tail, f), Collect(b, f);
      assert Collect(ab, f) == head + (x + y);
      assert Collect(a, f) == head + x;
      assert head + (x + y) == (head + x) + y;
    }
  }
}
