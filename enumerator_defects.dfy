/**
 * EnumeratorDefects: TreeEnumerator.Descend as written. It moves the index down by one before
 * it looks at the node, in the internal branch as in the leaf branch, so standing on entry j
 * of an internal node it goes down child j - 1 instead of child j, the child just before that
 * entry. For j = 0 the child index is -1 and GetChildNode throws; otherwise the walk skips
 * child j and entry j - 1. TreeEnumerators.DescendStep models the step as intended, and the
 * descending scans of TreeWalks are proved for it.
 */
module EnumeratorDefects {
  import opened Errors
  import opened TreeArena
  import opened TreeNodes
  import opened TreeEnumerators
  import opened TreeScanners
  import opened IndexTrees
  import opened TreeShapes
  import opened TreeWalks
  import Bytes

  /** TreeEnumerator.Descend as written: the index moves down by one, then either branch. */
  function DescendStepAsWritten<K, V>(a: Arena<K, V>, p: Position<K, V>, fuel: nat): (r: (Result<bool>, Position<K, V>))
    requires p.node in a.heap && !p.finished
    ensures Sound(a, r)
    ensures a.heap[p.node].IsLeaf() ==> r == DescendStep(a, p, fuel)
  {
    if a.heap[p.node].IsLeaf() then ClimbDown(a, p.node, p.index - 1, p.entry, fuel)
    else LastLeaf(a, p.node, p.index - 1, p.entry, fuel)
  }

  /**
   * Standing on entry j of an internal node, the step as written throws for j = 0 and else
   * ends on the last entry of child j - 1; the intended step ends on the last entry of child j.
   */
  lemma DescendAsWrittenFromSeparator<K, V>(a: Arena<K, V>, id: nat, h: nat, j: nat)
    requires Subtree(a, id, h + 1) && j < |a.heap[id].entries| && |a.heap| > h + 1
    ensures var p := Position(id, j, Some(a.heap[id].entries[j]), false);
      var r := DescendStepAsWritten(a, p, |a.heap|);
      (j == 0 ==> r.0 == Err(ArgumentOutOfRange))
      && (j > 0 ==> r == (Ok(true), Last(a, a.heap[id].children[j - 1], h)))
      && NextStep(a, p, false) == (Ok(true), Last(a, a.heap[id].children[j], h))
  {
    var e := Some(a.heap[id].entries[j]);
    DescendToLast(a, id, h, j, e, |a.heap|);
    if j > 0 {
      DescendToLast(a, id, h, j - 1, e, |a.heap|);
    }
  }

  /** A root holding 5 over the leaves 3 and 7. */
  function SmallTree(): (a: Arena<int, int>)
    ensures a.root == Some(1) && a.heap.Keys == {1, 2, 3}
  {
    Arena(map[1 := Node(1, 0, [(5, 0)], [2, 3]), 2 := Node(2, 1, [(3, 0)], []), 3 := Node(3, 1, [(7, 0)], [])],
          {}, 4, Some(1))
  }

  /**
   * On that tree a descending scan as written yields 7 and 5 and then throws
   * ArgumentOutOfRangeException; DescendingScanAsIntended gives the intended scan.
   */
  lemma DescendingScanAsWrittenThrows()
    ensures var a := SmallTree();
      var sep := Position(1, 0, Some((5, 0)), false);
      ScanStart(a, false) == Ok((3, 1))
      && NextStep(a, Start<int, int>(3, 1), false) == (Ok(true), Position(3, 0, Some((7, 0)), false))
      && NextStep(a, Position(3, 0, Some((7, 0)), false), false) == (Ok(true), sep)
      && DescendStepAsWritten(a, sep, |a.heap|).0 == Err(ArgumentOutOfRange)
  {
    assert |SmallTree().heap| == 3 by {
      assert |SmallTree().heap.Keys| == |{1, 2, 3}|;
    }
  }

  /** The small tree is a tree of height 1 over three nodes, holding 3, 5 and 7 in order. */
  lemma SmallTreeShape()
    ensures var a := SmallTree();
      Tree(a, 1) && |a.heap| == 3 && Contents(a, 1) == [(3, 0), (5, 0), (7, 0)]
  {
    var a := SmallTree();
    assert Subtree(a, 2, 0) && Subtree(a, 3, 0);
    assert Subtree(a, 1, 1);
    assert |a.heap| == 3 by {
      assert |a.heap.Keys| == |{1, 2, 3}|;
    }
    assert Flat(a, 1, 1) == Inner(a, 1, 0, 2);
    assert Inner(a, 1, 0, 1) == [(3, 0)];
  }

  /** On that tree the intended descending scan yields 7, 5 and 3 and finishes. */
  lemma DescendingScanAsIntended()
    ensures Walk(SmallTree(), Start<int, int>(3, 1), false, 4).0 == Ok([(7, 0), (5, 0), (3, 0)])
  {
    var a := SmallTree();
    SmallTreeShape();
    DescendingScanAsWrittenThrows();
    var c := Contents(a, 1);
    DescendingScan(a, 1, 4);
    var r := Bytes.Reverse(c);
    assert r == [r[0], r[1], r[2]];
  }
}
