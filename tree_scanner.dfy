/**
 * TreeScanners: TreeScanner<K, V> and TreeMatchScanner<K, V>, the enumerables IndexTree hands
 * out. Each keeps the manager, a start node, a start index and a direction (and the matcher),
 * and every enumeration starts a new TreeEnumerator there.
 *
 * A scanner's fields never change, so a scanner is a value here; its start node is an id, and
 * the null references its constructor rejects are a null manager and an absent node. What an
 * enumeration yields is written as the entries of a number of MoveNext calls on a fresh
 * enumerator, and the methods Entries and Matches run that loop.
 */
module TreeScanners {
  import opened Errors
  import opened TreeArena
  import opened MemoryTreeNodeManagers
  import opened TreeEnumerators

  datatype TreeScanner<K, V> = TreeScanner(nodeManager: MemoryTreeNodeManager<K, V>, node: nat, startIndex: int, ascending: bool)

  /** The TreeScanner constructor: ArgumentNullException for a null manager or node. */
  function NewTreeScanner<K, V>(nodeManager: MemoryTreeNodeManager?<K, V>, node: Option<nat>, startIndex: int,
                                ascending: bool): (r: Result<TreeScanner<K, V>>)
    ensures r.Err? <==> nodeManager == null || node.None?
    ensures r.Err? ==> r.error == ArgumentNull
    ensures r.Ok? ==> r.value.nodeManager == nodeManager && Some(r.value.node) == node
                      && r.value.startIndex == startIndex && r.value.ascending == ascending
  {
    if nodeManager == null then Err(ArgumentNull)
    else if node.None? then Err(ArgumentNull)
    else Ok(TreeScanner(nodeManager, node.value, startIndex, ascending))
  }

  /** Where every enumeration of a scanner starts: the start node and index, nothing yielded. */
  function Start<K, V>(node: nat, startIndex: int): (p: Position<K, V>)
    ensures p.node == node && p.index == startIndex && p.entry.None? && !p.finished
  {
    Position(node, startIndex, None, false)
  }

  /**
   * GetEnumerator, generic and not: a new enumerator at the stored start, so an enumeration
   * after another begins again from there.
   */
  method GetEnumerator<K, V>(s: TreeScanner<K, V>) returns (e: TreeEnumerator<K, V>)
    ensures fresh(e) && e.nodeManager == s.nodeManager && e.ascending == s.ascending
    ensures e.Current() == Start(s.node, s.startIndex)
  {
    e := new TreeEnumerator(s.nodeManager, s.node, s.startIndex, s.ascending);
  }

  /**
   * A foreach over a TreeScanner that stops after limit calls of MoveNext: the entries of the
   * walk from the start.
   */
  method Entries<K, V>(s: TreeScanner<K, V>, limit: nat) returns (r: Result<seq<(K, V)>>)
    requires s.node in s.nodeManager.heap
    ensures r == Walk(s.nodeManager.State(), Start(s.node, s.startIndex), s.ascending, limit).0
  {
    ghost var a := s.nodeManager.State();
    ghost var goal := Walk(a, Start(s.node, s.startIndex), s.ascending, limit).0;
    var e := GetEnumerator(s);
    var out: seq<(K, V)> := [];
    var k := 0;
    ghost var left := limit;
    while k < limit
      invariant 0 <= k <= limit && left == limit - k && e.nodeManager == s.nodeManager && e.ascending == s.ascending
      invariant s.nodeManager.State() == a && e.curNode in a.heap
      invariant Prepend(out, Walk(a, e.Current(), s.ascending, left).0) == goal
    {
      ghost var p := e.Current();
      var more := e.MoveNext();
      WalkStep(a, p, s.ascending, left, left - 1, out, goal);
      if more.Err? {
        return Err(more.error);
      }
      if !more.value {
        return Ok(out);
      }
      out := out + [e.curEntry.value];
      k, left := k + 1, left - 1;
    }
    return Ok(out);
  }

  /**
   * One call of MoveNext in a walk of n calls: an exception ends it, false ends it with what
   * was yielded so far, and true yields the entry it moved to before the remaining n - 1 calls.
   */
  lemma WalkStep<K, V>(a: Arena<K, V>, p: Position<K, V>, ascending: bool, n: nat, n1: int,
                       out: seq<(K, V)>, goal: Result<seq<(K, V)>>)
    requires p.node in a.heap && n > 0 && n1 == n - 1
    requires Prepend(out, Walk(a, p, ascending, n).0) == goal
    ensures var (m, q) := NextStep(a, p, ascending);
      (m.Err? ==> goal == Err(m.error))
      && (m == Ok(false) ==> goal == Ok(out))
      && (m == Ok(true) ==> q.entry.Some? && Prepend(out + [q.entry.value], Walk(a, q, ascending, n1).0) == goal)
  {
    var (m, q) := NextStep(a, p, ascending);
    if m == Ok(true) {
      PrependStep(out, q.entry.value, Walk(a, q, ascending, n1).0);
    }
  }

  datatype TreeMatchScanner<!K, V> = TreeMatchScanner(nodeManager: MemoryTreeNodeManager<K, V>, node: nat, startIndex: int,
                                                     matcher: Option<K -> bool>, ascending: bool)

  /** The TreeMatchScanner constructor: the same null checks; the matcher is not checked. */
  function NewTreeMatchScanner<K, V>(nodeManager: MemoryTreeNodeManager?<K, V>, node: Option<nat>, startIndex: int,
                                     matcher: Option<K -> bool>, ascending: bool): (r: Result<TreeMatchScanner<K, V>>)
    ensures r.Err? <==> nodeManager == null || node.None?
    ensures r.Err? ==> r.error == ArgumentNull
    ensures r.Ok? ==> r.value.nodeManager == nodeManager && Some(r.value.node) == node && r.value.matcher == matcher
                      && r.value.startIndex == startIndex && r.value.ascending == ascending
  {
    if nodeManager == null then Err(ArgumentNull)
    else if node.None? then Err(ArgumentNull)
    else Ok(TreeMatchScanner(nodeManager, node.value, startIndex, matcher, ascending))
  }

  /**
   * The enumeration of a TreeMatchScanner over n calls of MoveNext: each entry yielded whose key
   * the matcher accepts; with no matcher the first yielded entry throws NullReferenceException.
   */
  function MatchWalk<K, V>(a: Arena<K, V>, p: Position<K, V>, ascending: bool, matcher: Option<K -> bool>, n: nat): (r: Result<seq<(K, V)>>)
    requires p.node in a.heap
    decreases n
  {
    if n == 0 then Ok([])
    else
      var (m, q) := NextStep(a, p, ascending);
      match m
      case Err(e) => Err(e)
      case Ok(more) =>
        if !more then Ok([])
        else if matcher.None? then Err(NullReference)
        else
          var rest := MatchWalk(a, q, ascending, matcher, n - 1);
          if matcher.value(q.entry.value.0) then Prepend([q.entry.value], rest) else rest
  }

  /** The entries whose key the matcher accepts, in their order. */
  function Filter<K, V>(entries: seq<(K, V)>, f: K -> bool): (r: seq<(K, V)>)
    ensures |r| <= |entries|
    ensures forall x | x in r :: x in entries && f(x.0)
    ensures forall x | x in entries && f(x.0) :: x in r
  {
    if entries == [] then []
    else if f(entries[0].0) then [entries[0]] + Filter(entries[1..], f)
    else Filter(entries[1..], f)
  }

  /** Filtering keeps the order: filtering a concatenation concatenates the filtered parts. */
  lemma {:induction false} FilterConcat<K, V>(x: seq<(K, V)>, y: seq<(K, V)>, f: K -> bool)
    ensures Filter(x + y, f) == Filter(x, f) + Filter(y, f)
  {
    if x != [] {
      assert (x + y)[0] == x[0] && (x + y)[1..] == x[1..] + y;
      FilterConcat(x[1..], y, f);
      if f(x[0].0) {
        assert Filter(x + y, f) == [x[0]] + (Filter(x[1..], f) + Filter(y, f));
        assert [x[0]] + (Filter(x[1..], f) + Filter(y, f)) == ([x[0]] + Filter(x[1..], f)) + Filter(y, f);
      }
    } else {
      assert x + y == y && [] + Filter(y, f) == Filter(y, f);
    }
  }

  /**
   * A TreeMatchScanner with a matcher yields exactly the entries of the plain walk whose key
   * the matcher accepts, in the walk's order, and fails where the walk fails.
   */
  lemma {:induction false} MatchWalkFilters<K, V>(a: Arena<K, V>, p: Position<K, V>, ascending: bool, f: K -> bool, n: nat)
    requires p.node in a.heap
    ensures var w := Walk(a, p, ascending, n).0;
      MatchWalk(a, p, ascending, Some(f), n) == (if w.Err? then Err(w.error) else Ok(Filter(w.value, f)))
    decreases n
  {
    if n > 0 {
      var (m, q) := NextStep(a, p, ascending);
      if m == Ok(true) {
        MatchWalkFilters(a, q, ascending, f, n - 1);
      }
    }
  }

  /** GetEnumerator of a TreeMatchScanner: a new enumerator at the stored start. */
  method GetMatchEnumerator<K, V>(s: TreeMatchScanner<K, V>) returns (e: TreeEnumerator<K, V>)
    ensures fresh(e) && e.nodeManager == s.nodeManager && e.ascending == s.ascending
    ensures e.Current() == Start(s.node, s.startIndex)
  {
    e := new TreeEnumerator(s.nodeManager, s.node, s.startIndex, s.ascending);
  }

  /**
   * The iterator of TreeMatchScanner run for limit calls of MoveNext: the loop over a new
   * enumerator that keeps the entries the matcher accepts.
   */
  method Matches<K, V>(s: TreeMatchScanner<K, V>, limit: nat) returns (r: Result<seq<(K, V)>>)
    requires s.node in s.nodeManager.heap
    ensures r == MatchWalk(s.nodeManager.State(), Start(s.node, s.startIndex), s.ascending, s.matcher, limit)
  {
    ghost var a := s.nodeManager.State();
    ghost var goal := MatchWalk(a, Start(s.node, s.startIndex), s.ascending, s.matcher, limit);
    var e := GetMatchEnumerator(s);
    var out: seq<(K, V)> := [];
    var k := 0;
    ghost var left := limit;
    while k < limit
      invariant 0 <= k <= limit && left == limit - k && e.nodeManager == s.nodeManager && e.ascending == s.ascending
      invariant s.nodeManager.State() == a && e.curNode in a.heap
      invariant Prepend(out, MatchWalk(a, e.Current(), s.ascending, s.matcher, left)) == goal
    {
      ghost var p := e.Current();
      var more := e.MoveNext();
      MatchWalkStep(a, p, s.ascending, s.matcher, left, left - 1, out, goal);
      if more.Err? {
        return Err(more.error);
      }
      if !more.value {
        return Ok(out);
      }
      if s.matcher.None? {
        return Err(NullReference);
      }
      var current := e.curEntry.value;
      if s.matcher.value(current.0) {
        out := out + [current];
      }
      k, left := k + 1, left - 1;
    }
    return Ok(out);
  }

  /**
   * One call of MoveNext in a matching walk of n calls: an exception, false or a missing
   * matcher ends it; true goes on with the remaining n - 1 calls, after the entry it moved to
   * when the matcher accepts its key.
   */
  lemma MatchWalkStep<K, V>(a: Arena<K, V>, p: Position<K, V>, ascending: bool, matcher: Option<K -> bool>,
                            n: nat, n1: int, out: seq<(K, V)>, goal: Result<seq<(K, V)>>)
    requires p.node in a.heap && n > 0 && n1 == n - 1
    requires Prepend(out, MatchWalk(a, p, ascending, matcher, n)) == goal
    ensures var (m, q) := NextStep(a, p, ascending);
      (m.Err? ==> goal == Err(m.error))
      && (m == Ok(false) ==> goal == Ok(out))
      && (m == Ok(true) && matcher.None? ==> goal == Err(NullReference))
      && (m == Ok(true) && matcher.Some? ==>
            q.entry.Some?
            && (var kept := if matcher.value(q.entry.value.0) then out + [q.entry.value] else out;
                Prepend(kept, MatchWalk(a, q, ascending, matcher, n1)) == goal))
  {
    var (m, q) := NextStep(a, p, ascending);
    if m == Ok(true) && matcher.Some? {
      PrependStep(out, q.entry.value, MatchWalk(a, q, ascending, matcher, n1));
    }
  }
}
