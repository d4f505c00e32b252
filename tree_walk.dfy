/**
 * TreeWalks: what TreeEnumerator yields on a tree of any height. Started where FindFirstNode
 * points, an ascending walk yields the tree's entries in order and then finishes; started where
 * FindLastNode points, a descending walk yields them in reverse order and then finishes.
 *
 * The proof follows the walk through each subtree: from its first entry it reaches its last
 * one, yielding everything between in order; the step after a child's last entry climbs to the
 * separator after that child, and the step after a separator descends to the first entry of
 * the next child.
 */
module TreeWalks {
  import opened Errors
  import opened TreeArena
  import opened TreeNodes
  import opened TreeEnumerators
  import opened TreeScanners
  import opened IndexTrees
  import opened TreeShapes
  import Bytes

  /**
   * From p, |out| calls of MoveNext in the given direction each yield true, yield the entries of
   * out in order, and leave the enumerator at q.
   */
  ghost predicate Steps<K, V>(a: Arena<K, V>, p: Position<K, V>, ascending: bool, out: seq<(K, V)>, q: Position<K, V>)
    decreases |out|
  {
    p.node in a.heap && q.node in a.heap
    && if out == [] then p == q
       else
         var (m, p1) := NextStep(a, p, ascending);
         m == Ok(true) && p1.entry == Some(out[0]) && Steps(a, p1, ascending, out[1..], q)
  }

  /** Steps that yield out and then steps that yield more are steps that yield both. */
  lemma {:induction false} StepsJoin<K, V>(a: Arena<K, V>, p: Position<K, V>, ascending: bool, out: seq<(K, V)>,
                                           q: Position<K, V>, more: seq<(K, V)>, r: Position<K, V>)
    requires Steps(a, p, ascending, out, q) && Steps(a, q, ascending, more, r)
    ensures Steps(a, p, ascending, out + more, r)
    decreases |out|
  {
    if out != [] {
      var (m, p1) := NextStep(a, p, ascending);
      StepsJoin(a, p1, ascending, out[1..], q, more, r);
      assert (out + more)[1..] == out[1..] + more;
    } else {
      assert out + more == more;
    }
  }

  /** One call of MoveNext that yields x. */
  lemma StepsOne<K, V>(a: Arena<K, V>, p: Position<K, V>, ascending: bool, x: (K, V), q: Position<K, V>)
    requires p.node in a.heap && NextStep(a, p, ascending) == (Ok(true), q) && q.entry == Some(x)
    ensures Steps(a, p, ascending, [x], q)
  {
    assert [x][1..] == [];
  }

  /** The first n calls of a walk along such steps yield the first n entries of out. */
  lemma {:induction false} StepsPrefix<K, V>(a: Arena<K, V>, p: Position<K, V>, ascending: bool, out: seq<(K, V)>,
                                             q: Position<K, V>, n: nat)
    requires Steps(a, p, ascending, out, q) && n <= |out|
    ensures Walk(a, p, ascending, n).0 == Ok(out[..n])
    decreases n
  {
    if n > 0 {
      var (m, p1) := NextStep(a, p, ascending);
      StepsPrefix(a, p1, ascending, out[1..], q, n - 1);
      assert out[..n] == [out[0]] + out[1..][..n - 1];
    }
  }

  /** A walk along such steps and then m calls more yields out before what those m calls yield. */
  lemma {:induction false} StepsThen<K, V>(a: Arena<K, V>, p: Position<K, V>, ascending: bool, out: seq<(K, V)>,
                                           q: Position<K, V>, m: nat)
    requires Steps(a, p, ascending, out, q)
    ensures Walk(a, p, ascending, |out| + m) == (Prepend(out, Walk(a, q, ascending, m).0), Walk(a, q, ascending, m).1)
    decreases |out|
  {
    if out != [] {
      var (_, p1) := NextStep(a, p, ascending);
      StepsThen(a, p1, ascending, out[1..], q, m);
      assert |out| + m - 1 == |out[1..]| + m;
      PrependStep([], out[0], Prepend(out[1..], Walk(a, q, ascending, m).0));
      assert [out[0]] + out[1..] == out;
      PrependAssociates(out[0], out[1..], Walk(a, q, ascending, m).0);
    }
  }

  /** Yielding x and then out before a rest is yielding [x] + out before it. */
  lemma PrependAssociates<T>(x: T, out: seq<T>, rest: Result<seq<T>>)
    ensures Prepend([x], Prepend(out, rest)) == Prepend([x] + out, rest)
  {
    if rest.Ok? {
      assert [x] + (out + rest.value) == ([x] + out) + rest.value;
    }
  }

  /** The enumerator standing on entry 0 of the first leaf of the subtree at id. */
  ghost function First<K, V>(a: Arena<K, V>, id: nat, h: nat): (p: Position<K, V>)
    requires Subtree(a, id, h)
    ensures p.node in a.heap
  {
    var leaf := FirstLeafOf(a, id, h);
    Position(leaf, 0, Some(a.heap[leaf].entries[0]), false)
  }

  /** The enumerator standing on the last entry of the last leaf of the subtree at id. */
  ghost function Last<K, V>(a: Arena<K, V>, id: nat, h: nat): (p: Position<K, V>)
    requires Subtree(a, id, h)
    ensures p.node in a.heap
  {
    var leaf := LastLeafOf(a, id, h);
    var e := a.heap[leaf].entries;
    Position(leaf, |e| - 1, Some(e[|e| - 1]), false)
  }

  /** Child i of an internal node finds itself at position i of its parent. */
  lemma ChildIndex<K, V>(a: Arena<K, V>, id: nat, h: nat, i: nat)
    requires Subtree(a, id, h + 1) && i < |a.heap[id].children|
    ensures a.heap[id].children[i] in a.heap && IndexInParent(a, a.heap[id].children[i]) == Ok(i)
  {
    var c := a.heap[id].children;
    assert Subtree(a, c[i], h);
  }

  /** Climbing past the end of child i arrives at position i of its parent, with one unit of fuel spent. */
  lemma ClimbPast<K, V>(a: Arena<K, V>, id: nat, h: nat, i: nat, e: Option<(K, V)>, f: nat, g: nat)
    requires h > 0 && Subtree(a, id, h) && i < |a.heap[id].children| && f == g + 1
    ensures a.heap[id].children[i] in a.heap
    ensures ClimbUp(a, a.heap[id].children[i], |a.heap[a.heap[id].children[i]].entries|, e, f) == ClimbUp(a, id, i, e, g)
  {
    ChildIndex(a, id, h - 1, i);
  }

  /** Ascending within a leaf, from entry i to the last entry. */
  lemma {:induction false} LeafSteps<K, V>(a: Arena<K, V>, id: nat, i: nat)
    requires Subtree(a, id, 0) && i < |a.heap[id].entries|
    ensures var e := a.heap[id].entries;
      Steps(a, Position(id, i, Some(e[i]), false), true, e[i + 1..], Position(id, |e| - 1, Some(e[|e| - 1]), false))
    decreases |a.heap[id].entries| - i
  {
    var e := a.heap[id].entries;
    if i + 1 < |e| {
      var p1 := Position(id, i + 1, Some(e[i + 1]), false);
      assert NextStep(a, Position(id, i, Some(e[i]), false), true) == (Ok(true), p1);
      LeafSteps(a, id, i + 1);
      assert e[i + 1..][1..] == e[i + 2..];
    }
  }

  /**
   * Climbing from the end of the last leaf below id, with fuel at least the height, arrives at
   * id past its last entry with the fuel less the height.
   */
  lemma {:induction false} ClimbFromLastLeaf<K, V>(a: Arena<K, V>, id: nat, h: nat, e: Option<(K, V)>, fuel: nat, rest: nat)
    requires Subtree(a, id, h) && fuel == rest + h
    ensures var leaf := LastLeafOf(a, id, h);
      ClimbUp(a, leaf, |a.heap[leaf].entries|, e, fuel) == ClimbUp(a, id, |a.heap[id].entries|, e, rest)
    decreases h
  {
    if h > 0 {
      var c := a.heap[id].children;
      var last := c[|c| - 1];
      ClimbFromLastLeaf(a, last, h - 1, e, fuel, rest + 1);
      assert |c| - 1 == |a.heap[id].entries|;
      ClimbPast(a, id, h, |c| - 1, e, rest + 1, rest);
    }
  }

  /** The step after the last entry of child j climbs to entry j of the parent. */
  lemma ClimbToSeparator<K, V>(a: Arena<K, V>, id: nat, h: nat, j: nat)
    requires Subtree(a, id, h + 1) && j < |a.heap[id].entries| && |a.heap| > h + 1
    ensures NextStep(a, Last(a, a.heap[id].children[j], h), true)
      == (Ok(true), Position(id, j, Some(a.heap[id].entries[j]), false))
  {
    var c := a.heap[id].children[j];
    var p := Last(a, c, h);
    ClimbFromLastLeaf(a, c, h, p.entry, |a.heap|, |a.heap| - h);
    ClimbPast(a, id, h + 1, j, p.entry, |a.heap| - h, |a.heap| - h - 1);
  }

  /** Descending through first children from child j, with fuel at least its height, reaches its first entry. */
  lemma {:induction false} DescendToFirst<K, V>(a: Arena<K, V>, id: nat, h: nat, j: nat, e: Option<(K, V)>, fuel: nat)
    requires Subtree(a, id, h + 1) && j < |a.heap[id].children| && fuel >= h
    ensures FirstLeaf(a, id, j, e, fuel) == (Ok(true), First(a, a.heap[id].children[j], h))
    decreases h
  {
    var c := a.heap[id].children[j];
    if h > 0 {
      DescendToFirst(a, c, h - 1, 0, e, fuel - 1);
    }
  }

  /** The step after entry j of an internal node descends to the first entry of child j + 1. */
  lemma DescendAfterSeparator<K, V>(a: Arena<K, V>, id: nat, h: nat, j: nat)
    requires Subtree(a, id, h + 1) && j < |a.heap[id].entries| && |a.heap| > h + 1
    ensures NextStep(a, Position(id, j, Some(a.heap[id].entries[j]), false), true)
      == (Ok(true), First(a, a.heap[id].children[j + 1], h))
  {
    DescendToFirst(a, id, h, j + 1, Some(a.heap[id].entries[j]), |a.heap|);
  }

  /** An ascending walk from the first entry of a subtree reaches its last entry, yielding the rest in order. */
  lemma {:induction false} SubtreeSteps<K, V>(a: Arena<K, V>, id: nat, h: nat)
    requires Subtree(a, id, h) && |a.heap| > h
    ensures Steps(a, First(a, id, h), true, Flat(a, id, h)[1..], Last(a, id, h))
    decreases h, 1, 0
  {
    if h == 0 {
      LeafSteps(a, id, 0);
    } else {
      var c := a.heap[id].children;
      InnerSteps(a, id, h - 1, |c|);
    }
  }

  /** Before the first k children come the first k - 1, the entry after them and child k - 1. */
  lemma InnerTail<K, V>(a: Arena<K, V>, id: nat, h: nat, k: nat)
    requires Subtree(a, id, h + 1) && 2 <= k <= |a.heap[id].children|
    ensures Inner(a, id, h, k)[1..]
      == Inner(a, id, h, k - 1)[1..] + ([a.heap[id].entries[k - 2]] + Flat(a, a.heap[id].children[k - 1], h))
  {
    var I := Inner(a, id, h, k - 1);
    var x := [a.heap[id].entries[k - 2]];
    var F := Flat(a, a.heap[id].children[k - 1], h);
    assert (I + x + F)[1..] == I[1..] + (x + F);
  }

  /** From the last entry of child j, the walk yields entry j and then all of child j + 1, which is child j1. */
  lemma CrossSeparator<K, V>(a: Arena<K, V>, id: nat, h: nat, j: nat, j1: nat)
    requires Subtree(a, id, h + 1) && j < |a.heap[id].entries| && j1 == j + 1 && |a.heap| > h + 1
    ensures var n := a.heap[id];
      Steps(a, Last(a, n.children[j], h), true, [n.entries[j]] + Flat(a, n.children[j1], h), Last(a, n.children[j1], h))
    decreases h + 1, 0, 0
  {
    var n := a.heap[id];
    var next := n.children[j1];
    var sep := Position(id, j, Some(n.entries[j]), false);
    ClimbToSeparator(a, id, h, j);
    StepsOne(a, Last(a, n.children[j], h), true, n.entries[j], sep);
    DescendAfterSeparator(a, id, h, j);
    var f := Flat(a, next, h);
    FlatStartsAtFirstLeaf(a, next, h);
    SubtreeSteps(a, next, h);
    assert Steps(a, sep, true, f, Last(a, next, h));
    StepsJoin(a, Last(a, n.children[j], h), true, [n.entries[j]], sep, f, Last(a, next, h));
  }

  /** The same across the first k children of an internal node and the entries between them. */
  lemma {:induction false} InnerSteps<K, V>(a: Arena<K, V>, id: nat, h: nat, k: nat)
    requires Subtree(a, id, h + 1) && 1 <= k <= |a.heap[id].children| && |a.heap| > h + 1
    ensures var c := a.heap[id].children;
      Steps(a, First(a, c[0], h), true, Inner(a, id, h, k)[1..], Last(a, c[k - 1], h))
    decreases h + 1, 0, k
  {
    var n := a.heap[id];
    var c := n.children;
    if k == 1 {
      SubtreeSteps(a, c[0], h);
    } else {
      InnerSteps(a, id, h, k - 1);
      CrossSeparator(a, id, h, k - 2, k - 1);
      ForwardJoin(a, id, h, k - 1, k);
    }
  }

  /** The walk up the first m children, then across the separator through child m, is the walk up the first k = m + 1. */
  lemma ForwardJoin<K, V>(a: Arena<K, V>, id: nat, h: nat, m: nat, k: nat)
    requires Subtree(a, id, h + 1) && 1 <= m && k == m + 1 && k <= |a.heap[id].children|
    requires Steps(a, First(a, a.heap[id].children[0], h), true, Inner(a, id, h, m)[1..], Last(a, a.heap[id].children[m - 1], h))
    requires var n := a.heap[id];
      Steps(a, Last(a, n.children[k - 2], h), true, [n.entries[k - 2]] + Flat(a, n.children[k - 1], h), Last(a, n.children[k - 1], h))
    ensures var c := a.heap[id].children;
      Steps(a, First(a, c[0], h), true, Inner(a, id, h, k)[1..], Last(a, c[k - 1], h))
  {
    var n := a.heap[id];
    var c := n.children;
    var cross := [n.entries[k - 2]] + Flat(a, c[k - 1], h);
    assert c[m - 1] == c[k - 2];
    StepsJoin(a, First(a, c[0], h), true, Inner(a, id, h, m)[1..], Last(a, c[k - 2], h), cross, Last(a, c[k - 1], h));
    InnerTail(a, id, h, k);
  }

  /** Ascending from the position FindFirstNode points at yields the first entry of the tree. */
  lemma {:induction false} SmallestIsFirstLeaf<K, V>(a: Arena<K, V>, id: nat, h: nat, fuel: nat)
    requires Subtree(a, id, h) && fuel >= h
    ensures FindSmallest(a, id, fuel) == Ok((FirstLeafOf(a, id, h), 0))
    decreases h
  {
    if h > 0 {
      SmallestIsFirstLeaf(a, a.heap[id].children[0], h - 1, fuel - 1);
    }
  }

  /** FindLargest ends at the last entry of the last leaf. */
  lemma {:induction false} LargestIsLastLeaf<K, V>(a: Arena<K, V>, id: nat, h: nat, fuel: nat)
    requires Subtree(a, id, h) && fuel >= h
    ensures var leaf := LastLeafOf(a, id, h); FindLargest(a, id, fuel) == Ok((leaf, |a.heap[leaf].entries| - 1))
    decreases h
  {
    if h > 0 {
      var c := a.heap[id].children;
      LargestIsLastLeaf(a, c[|c| - 1], h - 1, fuel - 1);
    }
  }

  /** Past the last entry of the tree an ascending walk finishes. */
  lemma AscendingEnd<K, V>(a: Arena<K, V>, h: nat)
    requires Tree(a, h) && Subtree(a, a.root.value, h)
    ensures var r := a.root.value;
      NextStep(a, Last(a, r, h), true) == (Ok(false), Position(r, |a.heap[r].entries|, None, true))
  {
    var r := a.root.value;
    HeapHoldsSpine(a, r, h);
    ClimbFromLastLeaf(a, r, h, Last(a, r, h).entry, |a.heap|, |a.heap| - h);
  }

  /** From before the first entry of its first leaf, an ascending walk yields a whole subtree in order. */
  lemma WholeSteps<K, V>(a: Arena<K, V>, id: nat, h: nat)
    requires Subtree(a, id, h) && |a.heap| > h
    ensures Steps(a, Start(FirstLeafOf(a, id, h), -1), true, Flat(a, id, h), Last(a, id, h))
  {
    var c := Flat(a, id, h);
    var start: Position<K, V> := Start(FirstLeafOf(a, id, h), -1);
    FlatStartsAtFirstLeaf(a, id, h);
    assert NextStep(a, start, true) == (Ok(true), First(a, id, h));
    StepsOne(a, start, true, c[0], First(a, id, h));
    SubtreeSteps(a, id, h);
    StepsJoin(a, start, true, [c[0]], First(a, id, h), c[1..], Last(a, id, h));
    assert [c[0]] + c[1..] == c;
  }

  /**
   * GetAll(true): on a tree of any height, the first n calls of MoveNext from where
   * FindFirstNode points yield the first n entries of the tree in order, and once every entry
   * has been yielded the walk has finished.
   */
  lemma AscendingScan<K, V>(a: Arena<K, V>, h: nat, n: nat)
    requires Tree(a, h)
    ensures ScanStart(a, true).Ok?
    ensures var s := ScanStart(a, true).value; var c := Contents(a, h);
      var w := Walk(a, Start(s.0, s.1), true, n);
      (n <= |c| ==> w.0 == Ok(c[..n])) && (n > |c| ==> w.0 == Ok(c) && w.1.finished)
  {
    var r := a.root.value;
    if Subtree(a, r, h) {
      HeapHoldsSpine(a, r, h);
      SmallestIsFirstLeaf(a, r, h, |a.heap|);
      var c := Flat(a, r, h);
      var start: Position<K, V> := Start(FirstLeafOf(a, r, h), -1);
      WholeSteps(a, r, h);
      if n <= |c| {
        StepsPrefix(a, start, true, c, Last(a, r, h), n);
      } else {
        StepsThen(a, start, true, c, Last(a, r, h), n - |c|);
        AscendingEnd(a, h);
      }
    } else {
      HeapNotEmptyAt(a, r);
    }
  }

  /** A held node makes the arena non-empty. */
  lemma HeapNotEmptyAt<K, V>(a: Arena<K, V>, id: nat)
    requires id in a.heap
    ensures |a.heap| >= 1
  {
    assert |a.heap.Keys| >= |{id}|;
  }

  /** Reversing a concatenation reverses the order of the parts. */
  lemma ReverseConcat<T>(s: seq<T>, t: seq<T>)
    ensures Bytes.Reverse(s + t) == Bytes.Reverse(t) + Bytes.Reverse(s)
  {
    var l := Bytes.Reverse(s + t);
    var r := Bytes.Reverse(t) + Bytes.Reverse(s);
    assert |l| == |r|;
    forall i | 0 <= i < |l| ensures l[i] == r[i] {
      if i < |t| {
        assert r[i] == Bytes.Reverse(t)[i];
      } else {
        assert r[i] == Bytes.Reverse(s)[i - |t|];
      }
    }
  }

  /** Descending within a leaf, from entry i to entry 0. */
  lemma {:induction false} LeafStepsBack<K, V>(a: Arena<K, V>, id: nat, i: nat)
    requires Subtree(a, id, 0) && i < |a.heap[id].entries|
    ensures var e := a.heap[id].entries;
      Steps(a, Position(id, i, Some(e[i]), false), false, Bytes.Reverse(e[..i]), Position(id, 0, Some(e[0]), false))
    decreases i
  {
    var e := a.heap[id].entries;
    if i > 0 {
      var p1 := Position(id, i - 1, Some(e[i - 1]), false);
      assert NextStep(a, Position(id, i, Some(e[i]), false), false) == (Ok(true), p1);
      LeafStepsBack(a, id, i - 1);
      assert e[..i] == e[..i - 1] + [e[i - 1]];
      ReverseConcat(e[..i - 1], [e[i - 1]]);
      assert Bytes.Reverse(e[..i])[1..] == Bytes.Reverse(e[..i - 1]);
    } else {
      assert e[..i] == [];
    }
  }

  /**
   * Climbing down from before the first leaf below id, with fuel at least the height, arrives
   * at id before its first entry with the fuel less the height.
   */
  lemma {:induction false} ClimbFromFirstLeaf<K, V>(a: Arena<K, V>, id: nat, h: nat, e: Option<(K, V)>, fuel: nat, rest: nat)
    requires Subtree(a, id, h) && fuel == rest + h
    ensures ClimbDown(a, FirstLeafOf(a, id, h), -1, e, fuel) == ClimbDown(a, id, -1, e, rest)
    decreases h
  {
    if h > 0 {
      var first := a.heap[id].children[0];
      ClimbFromFirstLeaf(a, first, h - 1, e, fuel, rest + 1);
      ClimbBefore(a, id, h, 0, -1, e, rest + 1, rest);
    }
  }

  /** Climbing down from before child i arrives at position i - 1 of its parent, with one unit of fuel spent. */
  lemma ClimbBefore<K, V>(a: Arena<K, V>, id: nat, h: nat, i: nat, j: int, e: Option<(K, V)>, f: nat, g: nat)
    requires h > 0 && Subtree(a, id, h) && i < |a.heap[id].children| && j == i - 1 && f == g + 1
    ensures a.heap[id].children[i] in a.heap
    ensures ClimbDown(a, a.heap[id].children[i], -1, e, f) == ClimbDown(a, id, j, e, g)
  {
    ChildIndex(a, id, h - 1, i);
  }

  /** Descending from the first entry of child j + 1 climbs to entry j of the parent. */
  lemma ClimbToSeparatorBack<K, V>(a: Arena<K, V>, id: nat, h: nat, j: nat)
    requires Subtree(a, id, h + 1) && j < |a.heap[id].entries| && |a.heap| > h + 1
    ensures NextStep(a, First(a, a.heap[id].children[j + 1], h), false)
      == (Ok(true), Position(id, j, Some(a.heap[id].entries[j]), false))
  {
    var c := a.heap[id].children[j + 1];
    var p := First(a, c, h);
    ClimbFromFirstLeaf(a, c, h, p.entry, |a.heap|, |a.heap| - h);
    ClimbBefore(a, id, h + 1, j + 1, j, p.entry, |a.heap| - h, |a.heap| - h - 1);
  }

  /** Descending through last children from child j, with fuel at least its height, reaches its last entry. */
  lemma {:induction false} DescendToLast<K, V>(a: Arena<K, V>, id: nat, h: nat, j: nat, e: Option<(K, V)>, fuel: nat)
    requires Subtree(a, id, h + 1) && j < |a.heap[id].children| && fuel >= h
    ensures LastLeaf(a, id, j, e, fuel) == (Ok(true), Last(a, a.heap[id].children[j], h))
    decreases h
  {
    var c := a.heap[id].children[j];
    if h > 0 {
      DescendToLast(a, c, h - 1, |a.heap[c].entries|, e, fuel - 1);
    }
  }

  /** From the first entry of child j + 1, the walk down yields entry j and then the last entry of child j. */
  lemma CrossSeparatorBack<K, V>(a: Arena<K, V>, id: nat, h: nat, j: nat)
    requires Subtree(a, id, h + 1) && j < |a.heap[id].entries| && |a.heap| > h + 1
    ensures var n := a.heap[id];
      Steps(a, First(a, n.children[j + 1], h), false, [n.entries[j], Last(a, n.children[j], h).entry.value], Last(a, n.children[j], h))
  {
    var n := a.heap[id];
    var sep := Position(id, j, Some(n.entries[j]), false);
    ClimbToSeparatorBack(a, id, h, j);
    StepsOne(a, First(a, n.children[j + 1], h), false, n.entries[j], sep);
    DescendToLast(a, id, h, j, Some(n.entries[j]), |a.heap|);
    var prev := Last(a, n.children[j], h);
    StepsOne(a, sep, false, prev.entry.value, prev);
    StepsJoin(a, First(a, n.children[j + 1], h), false, [n.entries[j]], sep, [prev.entry.value], prev);
  }

  /** A descending walk from the last entry of a subtree reaches its first entry, yielding the rest in reverse order. */
  lemma {:induction false} SubtreeStepsBack<K, V>(a: Arena<K, V>, id: nat, h: nat)
    requires Subtree(a, id, h) && |a.heap| > h
    ensures Steps(a, Last(a, id, h), false, Bytes.Reverse(Flat(a, id, h))[1..], First(a, id, h))
    decreases h, 1, 0
  {
    if h == 0 {
      LeafBack(a, id);
    } else {
      InnerStepsBack(a, id, h - 1, |a.heap[id].children|);
    }
  }

  /** A descending walk from the last entry of a leaf reaches its first entry, yielding the rest in reverse order. */
  lemma LeafBack<K, V>(a: Arena<K, V>, id: nat)
    requires Subtree(a, id, 0) && |a.heap| > 0
    ensures Steps(a, Last(a, id, 0), false, Bytes.Reverse(Flat(a, id, 0))[1..], First(a, id, 0))
  {
    var e := a.heap[id].entries;
    LeafStepsBack(a, id, |e| - 1);
    assert e == e[..|e| - 1] + [e[|e| - 1]];
    ReverseConcat(e[..|e| - 1], [e[|e| - 1]]);
  }

  /** Reversed, the first k children and their separators are child k - 1, its separator, then the rest. */
  lemma InnerReversed<K, V>(a: Arena<K, V>, id: nat, h: nat, k: nat)
    requires Subtree(a, id, h + 1) && 2 <= k <= |a.heap[id].children|
    ensures Bytes.Reverse(Inner(a, id, h, k))
      == Bytes.Reverse(Flat(a, a.heap[id].children[k - 1], h)) + [a.heap[id].entries[k - 2]] + Bytes.Reverse(Inner(a, id, h, k - 1))
  {
    var n := a.heap[id];
    var before := Inner(a, id, h, k - 1);
    var f := Flat(a, n.children[k - 1], h);
    ReverseConcat(before + [n.entries[k - 2]], f);
    ReverseConcat(before, [n.entries[k - 2]]);
  }

  /** From the last entry of child k - 1, the walk down passes through it and its separator to the last entry of child k - 2. */
  lemma BackAcross<K, V>(a: Arena<K, V>, id: nat, h: nat, k: nat)
    requires Subtree(a, id, h + 1) && 2 <= k <= |a.heap[id].children| && |a.heap| > h + 1
    ensures var n := a.heap[id];
      Steps(a, Last(a, n.children[k - 1], h), false,
            Bytes.Reverse(Flat(a, n.children[k - 1], h))[1..] + [n.entries[k - 2], Last(a, n.children[k - 2], h).entry.value],
            Last(a, n.children[k - 2], h))
    decreases h + 1, 0, 0
  {
    var n := a.heap[id];
    SubtreeStepsBack(a, n.children[k - 1], h);
    CrossSeparatorBack(a, id, h, k - 2);
    StepsJoin(a, Last(a, n.children[k - 1], h), false, Bytes.Reverse(Flat(a, n.children[k - 1], h))[1..],
              First(a, n.children[k - 1], h), [n.entries[k - 2], Last(a, n.children[k - 2], h).entry.value],
              Last(a, n.children[k - 2], h));
  }

  /** Reversed, the first k children and their separators start with the last entry of child k - 1. */
  lemma ReversedInnerStart<K, V>(a: Arena<K, V>, id: nat, h: nat, k: nat)
    requires Subtree(a, id, h + 1) && 1 <= k <= |a.heap[id].children|
    ensures Bytes.Reverse(Inner(a, id, h, k))[0] == Last(a, a.heap[id].children[k - 1], h).entry.value
  {
    InnerEnds(a, id, h, k);
    FlatEndsAtLastLeaf(a, a.heap[id].children[k - 1], h);
  }

  /** The tail of top + [x] + rest, both parts non-empty, regrouped around rest's first element. */
  lemma Regroup<T>(s: seq<T>, top: seq<T>, x: T, rest: seq<T>)
    requires s == top + [x] + rest && |top| > 0 && |rest| > 0
    ensures s[1..] == top[1..] + [x, rest[0]] + rest[1..]
  {
    assert rest == [rest[0]] + rest[1..];
  }

  /** The same across the first k children of an internal node, from the last to the first. */
  lemma {:induction false} InnerStepsBack<K, V>(a: Arena<K, V>, id: nat, h: nat, k: nat)
    requires Subtree(a, id, h + 1) && 1 <= k <= |a.heap[id].children| && |a.heap| > h + 1
    ensures var c := a.heap[id].children;
      Steps(a, Last(a, c[k - 1], h), false, Bytes.Reverse(Inner(a, id, h, k))[1..], First(a, c[0], h))
    decreases h + 1, 0, k
  {
    var n := a.heap[id];
    var c := n.children;
    if k == 1 {
      SubtreeStepsBack(a, c[0], h);
    } else {
      BackAcross(a, id, h, k);
      InnerStepsBack(a, id, h, k - 1);
      BackJoin(a, id, h, k);
    }
  }

  /** The walk down child k - 1 and its separator, then down the first k - 1 children, is the walk down the first k. */
  lemma BackJoin<K, V>(a: Arena<K, V>, id: nat, h: nat, k: nat)
    requires Subtree(a, id, h + 1) && 2 <= k <= |a.heap[id].children|
    requires var n := a.heap[id];
      Steps(a, Last(a, n.children[k - 1], h), false,
            Bytes.Reverse(Flat(a, n.children[k - 1], h))[1..] + [n.entries[k - 2], Last(a, n.children[k - 2], h).entry.value],
            Last(a, n.children[k - 2], h))
    requires Steps(a, Last(a, a.heap[id].children[k - 2], h), false, Bytes.Reverse(Inner(a, id, h, k - 1))[1..],
                   First(a, a.heap[id].children[0], h))
    ensures var c := a.heap[id].children;
      Steps(a, Last(a, c[k - 1], h), false, Bytes.Reverse(Inner(a, id, h, k))[1..], First(a, c[0], h))
  {
    var n := a.heap[id];
    var c := n.children;
    var top := Bytes.Reverse(Flat(a, c[k - 1], h));
    var rest := Bytes.Reverse(Inner(a, id, h, k - 1));
    var x := Last(a, c[k - 2], h).entry.value;
    ReversedInnerStart(a, id, h, k - 1);
    StepsJoin(a, Last(a, c[k - 1], h), false, top[1..] + [n.entries[k - 2], x], Last(a, c[k - 2], h), rest[1..], First(a, c[0], h));
    InnerReversed(a, id, h, k);
    Regroup(Bytes.Reverse(Inner(a, id, h, k)), top, n.entries[k - 2], rest);
  }

  /** Past the first entry of the tree a descending walk finishes. */
  lemma DescendingEnd<K, V>(a: Arena<K, V>, h: nat)
    requires Tree(a, h) && Subtree(a, a.root.value, h)
    ensures var r := a.root.value; NextStep(a, First(a, r, h), false) == (Ok(false), Position(r, -1, None, true))
  {
    var r := a.root.value;
    HeapHoldsSpine(a, r, h);
    ClimbFromFirstLeaf(a, r, h, First(a, r, h).entry, |a.heap|, |a.heap| - h);
  }

  /** From past the last entry of its last leaf, a descending walk yields a whole subtree in reverse order. */
  lemma WholeStepsBack<K, V>(a: Arena<K, V>, id: nat, h: nat)
    requires Subtree(a, id, h) && |a.heap| > h
    ensures var leaf := LastLeafOf(a, id, h);
      Steps(a, Start(leaf, |a.heap[leaf].entries|), false, Bytes.Reverse(Flat(a, id, h)), First(a, id, h))
  {
    var leaf := LastLeafOf(a, id, h);
    var c := Bytes.Reverse(Flat(a, id, h));
    var start: Position<K, V> := Start(leaf, |a.heap[leaf].entries|);
    FlatEndsAtLastLeaf(a, id, h);
    assert NextStep(a, start, false) == (Ok(true), Last(a, id, h));
    StepsOne(a, start, false, c[0], Last(a, id, h));
    SubtreeStepsBack(a, id, h);
    StepsJoin(a, start, false, [c[0]], Last(a, id, h), c[1..], First(a, id, h));
    assert [c[0]] + c[1..] == c;
  }

  /**
   * GetAll(false): on a tree of any height, the first n calls of MoveNext from where
   * FindLastNode points yield the last n entries of the tree from the last one down, and once
   * every entry has been yielded the walk has finished.
   */
  lemma DescendingScan<K, V>(a: Arena<K, V>, h: nat, n: nat)
    requires Tree(a, h)
    ensures ScanStart(a, false).Ok?
    ensures var s := ScanStart(a, false).value; var c := Bytes.Reverse(Contents(a, h));
      var w := Walk(a, Start(s.0, s.1), false, n);
      (n <= |c| ==> w.0 == Ok(c[..n])) && (n > |c| ==> w.0 == Ok(c) && w.1.finished)
  {
    var r := a.root.value;
    if Subtree(a, r, h) {
      HeapHoldsSpine(a, r, h);
      LargestIsLastLeaf(a, r, h, |a.heap|);
      var leaf := LastLeafOf(a, r, h);
      var c := Bytes.Reverse(Flat(a, r, h));
      var start: Position<K, V> := Start(leaf, |a.heap[leaf].entries|);
      WholeStepsBack(a, r, h);
      if n <= |c| {
        StepsPrefix(a, start, false, c, First(a, r, h), n);
      } else {
        StepsThen(a, start, false, c, First(a, r, h), n - |c|);
        DescendingEnd(a, h);
      }
    } else {
      HeapNotEmptyAt(a, r);
    }
  }
}
