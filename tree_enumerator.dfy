/**
 * TreeEnumerators: TreeEnumerator<K, V>, the in-order walk over the B-tree that the scanners and
 * IndexTree use. The walk never changes the tree: each step reads the manager's arena.
 *
 * A position is the enumerator's four fields: the node it stands on, the index in that node,
 * the entry it last yielded and whether it has finished. Ascend and Descend are written here as
 * functions of the arena and the position before the call; TreeEnumerator's methods carry out
 * the same loops on its fields and are proved to end where those functions say.
 *
 * The source's loops climb and descend without a bound. Here they are bounded by the number of
 * node objects: a longer walk has visited some node twice, and from a node the walk goes on the
 * same way every time, so the source would loop forever; the model then ends in NonTermination.
 */
module TreeEnumerators {
  import opened Errors
  import opened TreeArena
  import opened TreeNodes
  import opened MemoryTreeNodeManagers

  /** curNode, curIndex, curEntry and isFinished. */
  datatype Position<K, V> = Position(node: nat, index: int, entry: Option<(K, V)>, finished: bool)

  /** What a step that yields true promises: the current entry is the node's entry at the index. */
  ghost predicate Yields<K, V>(a: Arena<K, V>, p: Position<K, V>)
  {
    p.node in a.heap && 0 <= p.index < |a.heap[p.node].entries| && !p.finished
    && p.entry == Some(a.heap[p.node].entries[p.index])
  }

  /** The outcome of a step: the value MoveNext returns or the exception, and the new position. */
  ghost predicate Sound<K, V>(a: Arena<K, V>, r: (Result<bool>, Position<K, V>))
  {
    r.1.node in a.heap
    && (r.0 == Ok(true) ==> Yields(a, r.1))
    && (r.0 == Ok(false) ==> r.1.finished && r.1.entry.None?)
  }

  /**
   * The leaf branch of Ascend: the entry at index if there is one, else up to the parent at this
   * node's index in it, else the walk is over.
   */
  function ClimbUp<K, V>(a: Arena<K, V>, node: nat, index: int, entry: Option<(K, V)>, fuel: nat): (r: (Result<bool>, Position<K, V>))
    requires node in a.heap
    ensures Sound(a, r)
    ensures r.0 == Ok(false) ==> a.heap[r.1.node].parentId == 0
    decreases fuel
  {
    var n := a.heap[node];
    if index < |n.entries| then
      if index < 0 then (Err(ArgumentOutOfRange), Position(node, index, entry, false))
      else (Ok(true), Position(node, index, Some(n.entries[index]), false))
    else if n.parentId != 0 then
      match IndexInParent(a, node)
      case Err(e) => (Err(e), Position(node, index, entry, false))
      case Ok(i) =>
        if fuel == 0 then (Err(NonTermination), Position(n.parentId, i, entry, false))
        else ClimbUp(a, n.parentId, i, entry, fuel - 1)
    else (Ok(false), Position(node, index, None, true))
  }

  /** The internal branch of Ascend: down child index, then first children, to entry 0 of a leaf. */
  function FirstLeaf<K, V>(a: Arena<K, V>, node: nat, index: int, entry: Option<(K, V)>, fuel: nat): (r: (Result<bool>, Position<K, V>))
    requires node in a.heap
    ensures Sound(a, r)
    ensures r.0 != Ok(false)
    ensures r.0 == Ok(true) ==> a.heap[r.1.node].IsLeaf() && r.1.index == 0
    decreases fuel
  {
    var n := a.heap[node];
    if index < 0 || index >= |n.children| then (Err(ArgumentOutOfRange), Position(node, index, entry, false))
    else
      var c := n.children[index];
      if !Held(a, c) then (Err(Argument), Position(node, index, entry, false))
      else
        var m := a.heap[c];
        if m.IsLeaf() then
          if |m.entries| == 0 then (Err(ArgumentOutOfRange), Position(c, 0, entry, false))
          else (Ok(true), Position(c, 0, Some(m.entries[0]), false))
        else if fuel == 0 then (Err(NonTermination), Position(c, 0, entry, false))
        else FirstLeaf(a, c, 0, entry, fuel - 1)
  }

  /** TreeEnumerator.Ascend: the index moves up by one, then the leaf or the internal branch. */
  function AscendStep<K, V>(a: Arena<K, V>, p: Position<K, V>, fuel: nat): (r: (Result<bool>, Position<K, V>))
    requires p.node in a.heap && !p.finished
    ensures Sound(a, r)
  {
    if a.heap[p.node].IsLeaf() then ClimbUp(a, p.node, p.index + 1, p.entry, fuel)
    else FirstLeaf(a, p.node, p.index + 1, p.entry, fuel)
  }

  /**
   * The leaf branch of Descend: the entry at index if it is not negative, else up to the parent
   * at the position before this node's, else the walk is over.
   */
  function ClimbDown<K, V>(a: Arena<K, V>, node: nat, index: int, entry: Option<(K, V)>, fuel: nat): (r: (Result<bool>, Position<K, V>))
    requires node in a.heap
    ensures Sound(a, r)
    ensures r.0 == Ok(false) ==> a.heap[r.1.node].parentId == 0
    decreases fuel
  {
    var n := a.heap[node];
    if index >= 0 then
      if index >= |n.entries| then (Err(ArgumentOutOfRange), Position(node, index, entry, false))
      else (Ok(true), Position(node, index, Some(n.entries[index]), false))
    else if n.parentId != 0 then
      match IndexInParent(a, node)
      case Err(e) => (Err(e), Position(node, index, entry, false))
      case Ok(i) =>
        if fuel == 0 then (Err(NonTermination), Position(n.parentId, i - 1, entry, false))
        else ClimbDown(a, n.parentId, i - 1, entry, fuel - 1)
    else (Ok(false), Position(node, index, None, true))
  }

  /** The internal branch of Descend: down child index, then last children, to a leaf's last entry. */
  function LastLeaf<K, V>(a: Arena<K, V>, node: nat, index: int, entry: Option<(K, V)>, fuel: nat): (r: (Result<bool>, Position<K, V>))
    requires node in a.heap
    ensures Sound(a, r)
    ensures r.0 != Ok(false)
    ensures r.0 == Ok(true) ==> a.heap[r.1.node].IsLeaf() && r.1.index == |a.heap[r.1.node].entries| - 1
    decreases fuel
  {
    var n := a.heap[node];
    if index < 0 || index >= |n.children| then (Err(ArgumentOutOfRange), Position(node, index, entry, false))
    else
      var c := n.children[index];
      if !Held(a, c) then (Err(Argument), Position(node, index, entry, false))
      else
        var m := a.heap[c];
        if m.IsLeaf() then
          if |m.entries| == 0 then (Err(ArgumentOutOfRange), Position(c, -1, entry, false))
          else (Ok(true), Position(c, |m.entries| - 1, Some(m.entries[|m.entries| - 1]), false))
        else if fuel == 0 then (Err(NonTermination), Position(c, |m.entries|, entry, false))
        else LastLeaf(a, c, |m.entries|, entry, fuel - 1)
  }

  /**
   * TreeEnumerator.Descend as intended: in a leaf the index moves down by one, then the leaf
   * branch; at an internal node, standing on entry index, the walk goes down child index, the
   * one just before that entry. (The source moves the index down before the internal branch
   * too, which enters the child before that one; EnumeratorDefects models that.)
   */
  function DescendStep<K, V>(a: Arena<K, V>, p: Position<K, V>, fuel: nat): (r: (Result<bool>, Position<K, V>))
    requires p.node in a.heap && !p.finished
    ensures Sound(a, r)
  {
    if a.heap[p.node].IsLeaf() then ClimbDown(a, p.node, p.index - 1, p.entry, fuel)
    else LastLeaf(a, p.node, p.index, p.entry, fuel)
  }

  /** TreeEnumerator.MoveNext: false once finished, else a step in the scan's direction. */
  function NextStep<K, V>(a: Arena<K, V>, p: Position<K, V>, ascending: bool): (r: (Result<bool>, Position<K, V>))
    requires p.node in a.heap
    ensures r.1.node in a.heap
    ensures r.0 == Ok(true) ==> Yields(a, r.1)
    ensures r.0 == Ok(false) ==> r.1.finished
    ensures p.finished ==> r == (Ok(false), p)
  {
    if p.finished then (Ok(false), p)
    else if ascending then AscendStep(a, p, |a.heap|)
    else DescendStep(a, p, |a.heap|)
  }

  /** The result of yielding out before the rest of a walk. */
  function Prepend<T>(out: seq<T>, rest: Result<seq<T>>): (r: Result<seq<T>>)
    ensures r.Err? <==> rest.Err?
    ensures r.Ok? ==> r.value == out + rest.value
    ensures out == [] ==> r == rest
    ensures rest == Ok([]) ==> r == Ok(out)
  {
    if rest.Err? then rest
    else
      assert [] + rest.value == rest.value && out + [] == out;
      Ok(out + rest.value)
  }

  /** Yielding out and then x before a rest is yielding out + [x] before it. */
  lemma PrependStep<T>(out: seq<T>, x: T, rest: Result<seq<T>>)
    ensures Prepend(out, Prepend([x], rest)) == Prepend(out + [x], rest)
  {
    if rest.Ok? {
      assert out + ([x] + rest.value) == (out + [x]) + rest.value;
    }
  }

  /**
   * The entries the first n calls of MoveNext yield, in order, and the position after them; the
   * calls stop early when one returns false, and an exception ends the walk.
   */
  function Walk<K, V>(a: Arena<K, V>, p: Position<K, V>, ascending: bool, n: nat): (r: (Result<seq<(K, V)>>, Position<K, V>))
    requires p.node in a.heap
    ensures r.1.node in a.heap
    decreases n
  {
    if n == 0 then (Ok([]), p)
    else
      var (m, q) := NextStep(a, p, ascending);
      match m
      case Err(e) => (Err(e), q)
      case Ok(more) =>
        if !more then (Ok([]), q)
        else
          var (rest, q2) := Walk(a, q, ascending, n - 1);
          (Prepend([q.entry.value], rest), q2)
  }

  class TreeEnumerator<K, V> {
    const nodeManager: MemoryTreeNodeManager<K, V>
    const ascending: bool
    var curNode: nat
    var curEntry: Option<(K, V)>
    var curIndex: int
    var isFinished: bool

    /** The enumerator's fields as a position. */
    function Current(): Position<K, V>
      reads this
    {
      Position(curNode, curIndex, curEntry, isFinished)
    }

    /** The constructor: at node and startIndex, nothing yielded yet, not finished. */
    constructor(nodeManager: MemoryTreeNodeManager<K, V>, node: nat, startIndex: int, ascending: bool)
      ensures this.nodeManager == nodeManager && this.ascending == ascending
      ensures Current() == Position(node, startIndex, None, false)
    {
      this.nodeManager := nodeManager;
      this.ascending := ascending;
      curNode := node;
      curIndex := startIndex;
      curEntry := None;
      isFinished := false;
    }

    /** MoveNext: false once finished, else one step of the scan. */
    method MoveNext() returns (r: Result<bool>)
      requires curNode in nodeManager.heap
      modifies this
      ensures (r, Current()) == NextStep(nodeManager.State(), old(Current()), ascending)
    {
      if isFinished {
        return Ok(false);
      }
      if ascending {
        r := Ascend();
      } else {
        r := Descend();
      }
    }

    /** Ascend: the loop up through exhausted leaves, or the loop down through first children. */
    method Ascend() returns (r: Result<bool>)
      requires curNode in nodeManager.heap && !isFinished
      modifies this
      ensures (r, Current()) == AscendStep(nodeManager.State(), old(Current()), |nodeManager.heap|)
    {
      curIndex := curIndex + 1;
      if nodeManager.heap[curNode].IsLeaf() {
        r := Up();
      } else {
        r := Down();
      }
    }

    /** The leaf branch of Ascend. */
    method Up() returns (r: Result<bool>)
      requires curNode in nodeManager.heap && !isFinished
      modifies this
      ensures (r, Current()) == ClimbUp(nodeManager.State(), old(curNode), old(curIndex), old(curEntry), |nodeManager.heap|)
    {
      ghost var a := nodeManager.State();
      ghost var goal := ClimbUp(a, curNode, curIndex, curEntry, |nodeManager.heap|);
      var fuel: nat := |nodeManager.heap|;
      while true
        invariant curNode in a.heap && !isFinished
        invariant ClimbUp(a, curNode, curIndex, curEntry, fuel) == goal
        decreases fuel
      {
        var n := nodeManager.heap[curNode];
        if curIndex < |n.entries| {
          if curIndex < 0 {
            return Err(ArgumentOutOfRange);
          }
          curEntry := Some(n.entries[curIndex]);
          return Ok(true);
        } else if n.parentId != 0 {
          var i := nodeManager.IndexInParent(curNode);
          if i.Err? {
            return Err(i.error);
          }
          curIndex := i.value;
          curNode := n.parentId;
          if fuel == 0 {
            return Err(NonTermination);
          }
          fuel := fuel - 1;
        } else {
          curEntry := None;
          isFinished := true;
          return Ok(false);
        }
      }
    }

    /** The internal branch of Ascend. */
    method Down() returns (r: Result<bool>)
      requires curNode in nodeManager.heap && !isFinished
      modifies this
      ensures (r, Current()) == FirstLeaf(nodeManager.State(), old(curNode), old(curIndex), old(curEntry), |nodeManager.heap|)
    {
      ghost var a := nodeManager.State();
      ghost var goal := FirstLeaf(a, curNode, curIndex, curEntry, |nodeManager.heap|);
      var fuel: nat := |nodeManager.heap|;
      while true
        invariant curNode in a.heap && !isFinished
        invariant FirstLeaf(a, curNode, curIndex, curEntry, fuel) == goal
        decreases fuel
      {
        var n := nodeManager.heap[curNode];
        if curIndex < 0 || curIndex >= |n.children| {
          return Err(ArgumentOutOfRange);
        }
        var child := nodeManager.Find(n.children[curIndex]);
        if child.Err? {
          return Err(child.error);
        }
        curNode := n.children[curIndex];
        curIndex := 0;
        if child.value.IsLeaf() {
          if |child.value.entries| == 0 {
            return Err(ArgumentOutOfRange);
          }
          curEntry := Some(child.value.entries[0]);
          return Ok(true);
        }
        if fuel == 0 {
          return Err(NonTermination);
        }
        fuel := fuel - 1;
      }
    }

    /** Descend, as intended: the mirror of Ascend. */
    method Descend() returns (r: Result<bool>)
      requires curNode in nodeManager.heap && !isFinished
      modifies this
      ensures (r, Current()) == DescendStep(nodeManager.State(), old(Current()), |nodeManager.heap|)
    {
      if nodeManager.heap[curNode].IsLeaf() {
        curIndex := curIndex - 1;
        r := UpBack();
      } else {
        r := DownBack();
      }
    }

    /** The leaf branch of Descend. */
    method UpBack() returns (r: Result<bool>)
      requires curNode in nodeManager.heap && !isFinished
      modifies this
      ensures (r, Current()) == ClimbDown(nodeManager.State(), old(curNode), old(curIndex), old(curEntry), |nodeManager.heap|)
    {
      ghost var a := nodeManager.State();
      ghost var goal := ClimbDown(a, curNode, curIndex, curEntry, |nodeManager.heap|);
      var fuel: nat := |nodeManager.heap|;
      while true
        invariant curNode in a.heap && !isFinished
        invariant ClimbDown(a, curNode, curIndex, curEntry, fuel) == goal
        decreases fuel
      {
        var n := nodeManager.heap[curNode];
        if curIndex >= 0 {
          if curIndex >= |n.entries| {
            return Err(ArgumentOutOfRange);
          }
          curEntry := Some(n.entries[curIndex]);
          return Ok(true);
        } else if n.parentId != 0 {
          var i := nodeManager.IndexInParent(curNode);
          if i.Err? {
            return Err(i.error);
          }
          curIndex := i.value - 1;
          curNode := n.parentId;
          if fuel == 0 {
            return Err(NonTermination);
          }
          fuel := fuel - 1;
        } else {
          curEntry := None;
          isFinished := true;
          return Ok(false);
        }
      }
    }

    /** The internal branch of Descend. */
    method DownBack() returns (r: Result<bool>)
      requires curNode in nodeManager.heap && !isFinished
      modifies this
      ensures (r, Current()) == LastLeaf(nodeManager.State(), old(curNode), old(curIndex), old(curEntry), |nodeManager.heap|)
    {
      ghost var a := nodeManager.State();
      ghost var goal := LastLeaf(a, curNode, curIndex, curEntry, |nodeManager.heap|);
      var fuel: nat := |nodeManager.heap|;
      while true
        invariant curNode in a.heap && !isFinished
        invariant LastLeaf(a, curNode, curIndex, curEntry, fuel) == goal
        decreases fuel
      {
        var n := nodeManager.heap[curNode];
        if curIndex < 0 || curIndex >= |n.children| {
          return Err(ArgumentOutOfRange);
        }
        var child := nodeManager.Find(n.children[curIndex]);
        if child.Err? {
          return Err(child.error);
        }
        curNode := n.children[curIndex];
        curIndex := |child.value.entries|;
        if child.value.IsLeaf() {
          curIndex := curIndex - 1;
          if curIndex < 0 {
            return Err(ArgumentOutOfRange);
          }
          curEntry := Some(child.value.entries[curIndex]);
          return Ok(true);
        }
        if fuel == 0 {
          return Err(NonTermination);
        }
        fuel := fuel - 1;
      }
    }
  }
}
