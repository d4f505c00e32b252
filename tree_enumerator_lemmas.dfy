/**
 * TreeEnumeratorLemmas: what one step of TreeEnumerator does in each case of the source, and
 * what a whole walk over a tree that is a single leaf yields.
 */
module TreeEnumeratorLemmas {
  import opened Errors
  import opened TreeArena
  import opened TreeNodes
  import opened TreeEnumerators
  import Bytes

  /** A finished enumerator answers false and stays where it is, so a walk from it yields nothing. */
  lemma FinishedStaysFinished<K, V>(a: Arena<K, V>, p: Position<K, V>, ascending: bool, n: nat)
    requires p.node in a.heap
    ensures var (m, q) := NextStep(a, p, ascending);
      m == Ok(false) ==> q.finished && NextStep(a, q, ascending) == (Ok(false), q)
    ensures p.finished ==> Walk(a, p, ascending, n) == (Ok([]), p)
  {
  }

  /** Ascending inside a leaf yields the next entry of the same leaf. */
  lemma AscendInLeaf<K, V>(a: Arena<K, V>, p: Position<K, V>)
    requires p.node in a.heap && a.heap[p.node].IsLeaf() && !p.finished
    requires -1 <= p.index && p.index + 1 < |a.heap[p.node].entries|
    ensures NextStep(a, p, true)
      == (Ok(true), Position(p.node, p.index + 1, Some(a.heap[p.node].entries[p.index + 1]), false))
  {
  }

  /** A node in the heap makes the heap non-empty. */
  lemma HeapNotEmpty<K, V>(a: Arena<K, V>, id: nat)
    requires id in a.heap
    ensures |a.heap| >= 1
  {
    assert id in a.heap.Keys;
    assert |a.heap.Keys| >= |{id}|;
  }

  /**
   * When a leaf is exhausted, ascending climbs to the parent with the index of this leaf in it,
   * and yields the separator there.
   */
  lemma AscendClimbsToSeparator<K, V>(a: Arena<K, V>, p: Position<K, V>, i: nat)
    requires p.node in a.heap && a.heap[p.node].IsLeaf() && !p.finished
    requires p.index + 1 >= |a.heap[p.node].entries|
    requires a.heap[p.node].parentId != 0 && IndexInParent(a, p.node) == Ok(i)
    requires i < |a.heap[a.heap[p.node].parentId].entries|
    ensures var pid := a.heap[p.node].parentId;
      NextStep(a, p, true) == (Ok(true), Position(pid, i, Some(a.heap[pid].entries[i]), false))
  {
    HeapNotEmpty(a, p.node);
    var pid := a.heap[p.node].parentId;
    assert ClimbUp(a, p.node, p.index + 1, p.entry, |a.heap|) == ClimbUp(a, pid, i, p.entry, |a.heap| - 1);
  }

  /**
   * When a leaf is exhausted, descending climbs to the parent at the position before this leaf,
   * and yields the separator there.
   */
  lemma DescendClimbsToSeparator<K, V>(a: Arena<K, V>, p: Position<K, V>, i: nat)
    requires p.node in a.heap && a.heap[p.node].IsLeaf() && !p.finished && p.index <= 0
    requires a.heap[p.node].parentId != 0 && IndexInParent(a, p.node) == Ok(i)
    requires 1 <= i <= |a.heap[a.heap[p.node].parentId].entries|
    ensures var pid := a.heap[p.node].parentId;
      NextStep(a, p, false) == (Ok(true), Position(pid, i - 1, Some(a.heap[pid].entries[i - 1]), false))
  {
    HeapNotEmpty(a, p.node);
    var pid := a.heap[p.node].parentId;
    assert ClimbDown(a, p.node, p.index - 1, p.entry, |a.heap|) == ClimbDown(a, pid, i - 1, p.entry, |a.heap| - 1);
  }

  /** The outcome FindSmallest predicts for a walk down from child c: its leaf's entry 0. */
  ghost predicate ReachesSmallest<K, V>(a: Arena<K, V>, c: nat, fuel: nat, r: (Result<bool>, Position<K, V>))
    requires c in a.heap
  {
    match FindSmallest(a, c, fuel)
    case Ok(found) =>
      var leaf := a.heap[found.0];
      if |leaf.entries| == 0 then r.0 == Err(ArgumentOutOfRange)
      else r == (Ok(true), Position(found.0, 0, Some(leaf.entries[0]), false))
    case Err(_) => r.0.Err?
  }

  /**
   * The internal branch of Ascend ends where TreeNode.FindSmallest of the child ends, at entry 0
   * of that leaf, and fails where FindSmallest fails.
   */
  lemma {:induction false} FirstLeafFindsSmallest<K, V>(a: Arena<K, V>, node: nat, index: int, e: Option<(K, V)>, fuel: nat)
    requires node in a.heap && 0 <= index < |a.heap[node].children| && Held(a, a.heap[node].children[index])
    ensures ReachesSmallest(a, a.heap[node].children[index], fuel, FirstLeaf(a, node, index, e, fuel))
    decreases fuel
  {
    var c := a.heap[node].children[index];
    var m := a.heap[c];
    if !m.IsLeaf() && fuel > 0 && Held(a, m.children[0]) {
      FirstLeafFindsSmallest(a, c, 0, e, fuel - 1);
    }
  }

  /** So ascending from an internal node yields entry 0 of the leaf FindSmallest finds below. */
  lemma AscendFromInternal<K, V>(a: Arena<K, V>, p: Position<K, V>)
    requires p.node in a.heap && !a.heap[p.node].IsLeaf() && !p.finished
    requires 0 <= p.index + 1 < |a.heap[p.node].children| && Held(a, a.heap[p.node].children[p.index + 1])
    ensures ReachesSmallest(a, a.heap[p.node].children[p.index + 1], |a.heap|, NextStep(a, p, true))
  {
    FirstLeafFindsSmallest(a, p.node, p.index + 1, p.entry, |a.heap|);
  }

  /** Every internal node has one child more than it has entries. */
  ghost predicate Shaped<K, V>(a: Arena<K, V>)
  {
    forall id | id in a.heap && !a.heap[id].IsLeaf() :: |a.heap[id].children| == |a.heap[id].entries| + 1
  }

  /** The outcome FindLargest predicts for a walk down from child c: its leaf's last entry. */
  ghost predicate ReachesLargest<K, V>(a: Arena<K, V>, c: nat, fuel: nat, r: (Result<bool>, Position<K, V>))
    requires c in a.heap
  {
    match FindLargest(a, c, fuel)
    case Ok(found) =>
      var leaf := a.heap[found.0];
      if |leaf.entries| == 0 then r.0 == Err(ArgumentOutOfRange)
      else r == (Ok(true), Position(found.0, found.1, Some(leaf.entries[found.1]), false))
    case Err(_) => r.0.Err?
  }

  /**
   * The internal branch of Descend enters child EntryCount of each node below, which is the
   * last child in a shaped tree, so it ends where TreeNode.FindLargest ends.
   */
  lemma {:induction false} LastLeafFindsLargest<K, V>(a: Arena<K, V>, node: nat, index: int, e: Option<(K, V)>, fuel: nat)
    requires Shaped(a)
    requires node in a.heap && 0 <= index < |a.heap[node].children| && Held(a, a.heap[node].children[index])
    ensures ReachesLargest(a, a.heap[node].children[index], fuel, LastLeaf(a, node, index, e, fuel))
    decreases fuel
  {
    var c := a.heap[node].children[index];
    var m := a.heap[c];
    if !m.IsLeaf() && fuel > 0 && Held(a, m.children[|m.children| - 1]) {
      LastLeafFindsLargest(a, c, |m.entries|, e, fuel - 1);
    }
  }

  /**
   * So descending from entry i of an internal node yields the last entry of the leaf
   * FindLargest finds below child i.
   */
  lemma DescendFromInternal<K, V>(a: Arena<K, V>, p: Position<K, V>)
    requires Shaped(a)
    requires p.node in a.heap && !a.heap[p.node].IsLeaf() && !p.finished
    requires 0 <= p.index < |a.heap[p.node].children| && Held(a, a.heap[p.node].children[p.index])
    ensures ReachesLargest(a, a.heap[p.node].children[p.index], |a.heap|, NextStep(a, p, false))
  {
    LastLeafFindsLargest(a, p.node, p.index, p.entry, |a.heap|);
  }

  /**
   * An ascending walk over a root that is a leaf, from just before entry i, yields the entries
   * from i on in order, and the next call finishes it.
   */
  lemma {:induction false} LeafWalkAscending<K, V>(a: Arena<K, V>, id: nat, i: nat, e: Option<(K, V)>)
    requires id in a.heap && a.heap[id].IsLeaf() && a.heap[id].parentId == 0
    requires i <= |a.heap[id].entries|
    ensures var (r, q) := Walk(a, Position(id, i as int - 1, e, false), true, |a.heap[id].entries| - i + 1);
      r == Ok(a.heap[id].entries[i..]) && q.finished
    decreases |a.heap[id].entries| - i
  {
    var entries := a.heap[id].entries;
    if i < |entries| {
      var q := Position(id, i, Some(entries[i]), false);
      assert NextStep(a, Position(id, i as int - 1, e, false), true) == (Ok(true), q);
      LeafWalkAscending(a, id, i + 1, Some(entries[i]));
      assert entries[i..] == [entries[i]] + entries[i + 1..];
    }
  }

  /**
   * A descending walk over a root that is a leaf, from just after entry i - 1, yields the
   * entries before i from the last to the first, and the next call finishes it.
   */
  lemma {:induction false} LeafWalkDescending<K, V>(a: Arena<K, V>, id: nat, i: nat, e: Option<(K, V)>)
    requires id in a.heap && a.heap[id].IsLeaf() && a.heap[id].parentId == 0
    requires i <= |a.heap[id].entries|
    ensures var (r, q) := Walk(a, Position(id, i, e, false), false, i + 1);
      r == Ok(Bytes.Reverse(a.heap[id].entries[..i])) && q.finished
    decreases i
  {
    var entries := a.heap[id].entries;
    if i > 0 {
      var q := Position(id, i - 1, Some(entries[i - 1]), false);
      assert NextStep(a, Position(id, i, e, false), false) == (Ok(true), q);
      LeafWalkDescending(a, id, i - 1, Some(entries[i - 1]));
      assert Bytes.Reverse(entries[..i]) == [entries[i - 1]] + Bytes.Reverse(entries[..i - 1]);
    }
  }
}
