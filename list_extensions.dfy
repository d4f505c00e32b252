/**
 * ListExtensions: RemoveRange(from), and the first/last-occurrence refinements of
 * List<T>.BinarySearch. The library's BinarySearch is modelled by the halving search of the
 * .NET runtime (ArraySortHelper.InternalBinarySearch).
 */
module ListExtensions {
  import opened Errors
  import opened Comparers

  /**
   * List<T>.BinarySearch(value, comparer): the index of an element level with value, or the
   * bitwise complement of the index where value would be inserted.
   */
  function BinarySearch<T>(list: seq<T>, value: T, cmp: Comparer<T>): (r: int)
    ensures -|list| - 1 <= r < |list|
    ensures r >= 0 ==> cmp(list[r], value) == 0
  {
    Search(list, value, cmp, 0, |list| - 1)
  }

  /** One round of the search over the still-open window [lo, hi]. */
  function Search<T>(list: seq<T>, value: T, cmp: Comparer<T>, lo: int, hi: int): (r: int)
    requires 0 <= lo <= hi + 1 <= |list|
    ensures r >= 0 ==> lo <= r <= hi && cmp(list[r], value) == 0
    ensures r < 0 ==> lo <= -r - 1 <= hi + 1
    decreases hi - lo
  {
    if lo > hi then -lo - 1
    else
      var i := lo + (hi - lo) / 2;
      var order := cmp(list[i], value);
      if order == 0 then i
      else if order < 0 then Search(list, value, cmp, i + 1, hi)
      else Search(list, value, cmp, lo, i - 1)
  }

  /** The insertion point of a complemented result. */
  function InsertionPoint(r: int): int { -r - 1 }

  /**
   * Where the elements level with value sit: those before m are below value, those from m up
   * to n level with it, and those from n on above it.
   */
  ghost predicate Bracketed<T>(list: seq<T>, value: T, cmp: Comparer<T>, m: int, n: int)
  {
    0 <= m <= n <= |list|
    && (forall j | 0 <= j < m :: cmp(list[j], value) < 0)
    && (forall j | m <= j < n :: cmp(list[j], value) == 0)
    && (forall j | n <= j < |list| :: cmp(list[j], value) > 0)
  }

  /** A sorted list brackets every value. */
  lemma SortedBracketed<T(!new)>(list: seq<T>, value: T, cmp: Comparer<T>) returns (m: int, n: int)
    requires IsComparer(cmp) && Sorted(list, cmp)
    ensures Bracketed(list, value, cmp, m, n)
  {
    m := 0;
    while m < |list| && cmp(list[m], value) < 0
      invariant 0 <= m <= |list| && forall j | 0 <= j < m :: cmp(list[j], value) < 0
    {
      m := m + 1;
    }
    n := m;
    while n < |list| && cmp(list[n], value) == 0
      invariant m <= n <= |list| && forall j | m <= j < n :: cmp(list[j], value) == 0
    {
      n := n + 1;
    }
    if n < |list| {
      if cmp(list[n], value) < 0 {
        BelowPrefix(list, value, cmp, n);
        assert false;
      }
      AboveSuffix(list, value, cmp, n);
    }
  }

  /**
   * The halving search over a window that holds the run of elements level with value: a
   * negative result means the run is empty, and complements the index where it would start.
   */
  lemma {:induction false} SearchInsertionPoint<T>(list: seq<T>, value: T, cmp: Comparer<T>, lo: int, hi: int, m: int, n: int)
    requires Bracketed(list, value, cmp, m, n) && 0 <= lo <= m && n <= hi + 1 <= |list|
    ensures var r := Search(list, value, cmp, lo, hi);
      r < 0 ==> m == n && InsertionPoint(r) == m
    decreases hi - lo
  {
    if lo <= hi {
      var i := lo + (hi - lo) / 2;
      var order := cmp(list[i], value);
      if order < 0 {
        SearchInsertionPoint(list, value, cmp, i + 1, hi, m, n);
      } else if order > 0 {
        SearchInsertionPoint(list, value, cmp, lo, i - 1, m, n);
      }
    }
  }

  /** In a sorted list, everything up to an element below value is below value. */
  lemma BelowPrefix<T(!new)>(list: seq<T>, value: T, cmp: Comparer<T>, i: int)
    requires IsComparer(cmp) && Sorted(list, cmp)
    requires 0 <= i < |list| && cmp(list[i], value) < 0
    ensures forall j | 0 <= j <= i :: cmp(list[j], value) < 0
  {
    forall j | 0 <= j < i ensures cmp(list[j], value) < 0 {
      StrictTransitive(cmp, list[j], list[i], value);
    }
  }

  /** In a sorted list, everything from an element above value on is above value. */
  lemma AboveSuffix<T(!new)>(list: seq<T>, value: T, cmp: Comparer<T>, i: int)
    requires IsComparer(cmp) && Sorted(list, cmp)
    requires 0 <= i < |list| && cmp(list[i], value) > 0
    ensures forall j | i <= j < |list| :: cmp(list[j], value) > 0
  {
    assert cmp(value, list[i]) < 0;
    forall j | i < j < |list| ensures cmp(list[j], value) > 0 {
      StrictTransitive(cmp, value, list[i], list[j]);
      assert cmp(value, list[j]) < 0;
    }
  }

  /** On a sorted list the search fails exactly when no element is level with value. */
  lemma BinarySearchFindsPresent<T(!new)>(list: seq<T>, value: T, cmp: Comparer<T>)
    requires IsComparer(cmp) && Sorted(list, cmp)
    ensures var r := BinarySearch(list, value, cmp);
      (r >= 0 <==> exists j | 0 <= j < |list| :: cmp(list[j], value) == 0) &&
      (r < 0 ==> (forall j | 0 <= j < InsertionPoint(r) :: cmp(list[j], value) < 0) &&
                 (forall j | InsertionPoint(r) <= j < |list| :: cmp(list[j], value) > 0))
  {
    var m, n := SortedBracketed(list, value, cmp);
    SearchInsertionPoint(list, value, cmp, 0, |list| - 1, m, n);
  }

  /**
   * On a sorted list the first-occurrence search starts the run of elements level with value
   * (or, on a miss, marks where it would start) and the last-occurrence search ends it.
   */
  lemma OccurrenceBounds<T(!new)>(list: seq<T>, value: T, cmp: Comparer<T>) returns (m: int, n: int)
    requires IsComparer(cmp) && Sorted(list, cmp)
    ensures Bracketed(list, value, cmp, m, n)
    ensures var f := FirstOccurrence(list, value, cmp);
      (f >= 0 <==> m < n) && (if f >= 0 then f else InsertionPoint(f)) == m
    ensures var l := LastOccurrence(list, value, cmp);
      (if l >= 0 then l + 1 else InsertionPoint(l)) == n
  {
    m, n := SortedBracketed(list, value, cmp);
    OccurrencesAtBracket(list, value, cmp, m, n);
  }

  /** Where the run of elements level with value is bracketed, the two searches find its ends. */
  lemma OccurrencesAtBracket<T>(list: seq<T>, value: T, cmp: Comparer<T>, m: int, n: int)
    requires Bracketed(list, value, cmp, m, n)
    ensures var f := FirstOccurrence(list, value, cmp);
      (f >= 0 <==> m < n) && (if f >= 0 then f else InsertionPoint(f)) == m
    ensures var l := LastOccurrence(list, value, cmp);
      (if l >= 0 then l + 1 else InsertionPoint(l)) == n
  {
    SearchInsertionPoint(list, value, cmp, 0, |list| - 1, m, n);
    var b := BinarySearch(list, value, cmp);
    if b >= 0 {
      var f := BackToFirst(list, value, cmp, b);
      var l := OnToLast(list, value, cmp, b);
      assert m <= b < n;
      assert cmp(list[f], value) == 0 && (f == 0 || cmp(list[f - 1], value) != 0);
      assert cmp(list[l], value) == 0 && (l == |list| - 1 || cmp(list[l + 1], value) != 0);
    }
  }

  /** RemoveRange(from): List<T>.RemoveRange(from, Count - from), which keeps the first from elements. */
  function RemoveRange<T>(list: seq<T>, from: int): (r: Result<seq<T>>)
    ensures r.Ok? <==> 0 <= from <= |list|
    ensures !r.Ok? ==> r.error == ArgumentOutOfRange
    ensures r.Ok? ==> |r.value| == from && forall i | 0 <= i < from :: r.value[i] == list[i]
  {
    if from < 0 || from > |list| then Err(ArgumentOutOfRange) else Ok(list[..from])
  }

  /**
   * What BinarySearchFirst returns: a miss unchanged; after a hit at b, an index r <= b such that
   * every element from r to b is level with value and r is 0 or follows an element that is not.
   */
  ghost predicate IsFirstOccurrence<T>(list: seq<T>, value: T, cmp: Comparer<T>, r: int)
  {
    var b := BinarySearch(list, value, cmp);
    if b < 0 then r == b else
      0 <= r <= b && (forall j | r <= j <= b :: cmp(list[j], value) == 0) &&
      (r == 0 || cmp(list[r - 1], value) != 0)
  }

  /** The mirror image for BinarySearchLast. */
  ghost predicate IsLastOccurrence<T>(list: seq<T>, value: T, cmp: Comparer<T>, r: int)
  {
    var b := BinarySearch(list, value, cmp);
    if b < 0 then r == b else
      b <= r < |list| && (forall j | b <= j <= r :: cmp(list[j], value) == 0) &&
      (r == |list| - 1 || cmp(list[r + 1], value) != 0)
  }

  /** Back from a hit at i while the element before is level with value. */
  function BackToFirst<T>(list: seq<T>, value: T, cmp: Comparer<T>, i: nat): (r: nat)
    requires i < |list| && cmp(list[i], value) == 0
    ensures r <= i && (forall j | r <= j <= i :: cmp(list[j], value) == 0)
    ensures r == 0 || cmp(list[r - 1], value) != 0
  {
    if i > 0 && cmp(list[i - 1], value) == 0 then BackToFirst(list, value, cmp, i - 1) else i
  }

  /** On from a hit at i while the element after is level with value. */
  function OnToLast<T>(list: seq<T>, value: T, cmp: Comparer<T>, i: nat): (r: nat)
    requires i < |list| && cmp(list[i], value) == 0
    ensures i <= r < |list| && (forall j | i <= j <= r :: cmp(list[j], value) == 0)
    ensures r == |list| - 1 || cmp(list[r + 1], value) != 0
    decreases |list| - i
  {
    if i + 1 < |list| && cmp(list[i + 1], value) == 0 then OnToLast(list, value, cmp, i + 1) else i
  }

  /** The result of BinarySearchFirst with a comparer. */
  function FirstOccurrence<T>(list: seq<T>, value: T, cmp: Comparer<T>): (r: int)
    ensures IsFirstOccurrence(list, value, cmp, r)
  {
    var b := BinarySearch(list, value, cmp);
    if b < 0 then b else BackToFirst(list, value, cmp, b)
  }

  /** The result of BinarySearchLast with a comparer. */
  function LastOccurrence<T>(list: seq<T>, value: T, cmp: Comparer<T>): (r: int)
    ensures IsLastOccurrence(list, value, cmp, r)
  {
    var b := BinarySearch(list, value, cmp);
    if b < 0 then b else OnToLast(list, value, cmp, b)
  }

  method BinarySearchFirst<T>(list: seq<T>, value: T, comparer: Option<Comparer<T>>) returns (r: Result<int>)
    ensures comparer.None? <==> r == Err(ArgumentNull)
    ensures comparer.Some? ==> r.Ok? && IsFirstOccurrence(list, value, comparer.value, r.value)
    ensures comparer.Some? ==> r == Ok(FirstOccurrence(list, value, comparer.value))
  {
    if comparer.None? {
      return Err(ArgumentNull);
    }
    var cmp := comparer.value;
    var result := BinarySearch(list, value, cmp);
    ghost var b := result;
    if result >= 1 {
      var i := result - 1;
      while i >= 0
        invariant -1 <= i && result == i + 1 && result <= b
        invariant forall j | result <= j <= b :: cmp(list[j], value) == 0
        invariant BackToFirst(list, value, cmp, result) == BackToFirst(list, value, cmp, b)
      {
        if cmp(list[i], value) != 0 {
          break;
        }
        result := i;
        i := i - 1;
      }
    }
    return Ok(result);
  }

  method BinarySearchLast<T>(list: seq<T>, value: T, comparer: Option<Comparer<T>>) returns (r: Result<int>)
    ensures comparer.None? <==> r == Err(ArgumentNull)
    ensures comparer.Some? ==> r.Ok? && IsLastOccurrence(list, value, comparer.value, r.value)
    ensures comparer.Some? ==> r == Ok(LastOccurrence(list, value, comparer.value))
  {
    if comparer.None? {
      return Err(ArgumentNull);
    }
    var cmp := comparer.value;
    var result := BinarySearch(list, value, cmp);
    ghost var b := result;
    if result >= 0 && result + 1 < |list| {
      var i := result + 1;
      while i < |list|
        invariant i <= |list| && result == i - 1 && b <= result
        invariant forall j | b <= j <= result :: cmp(list[j], value) == 0
        invariant OnToLast(list, value, cmp, result) == OnToLast(list, value, cmp, b)
      {
        if cmp(list[i], value) != 0 {
          break;
        }
        result := i;
        i := i + 1;
      }
    }
    return Ok(result);
  }

  /**
   * On a sorted list the two refinements bracket exactly the elements level with value:
   * everything before the first is below it, everything after the last is above it.
   */
  lemma OccurrencesBracket<T(!new)>(list: seq<T>, value: T, cmp: Comparer<T>, first: int, last: int)
    requires IsComparer(cmp) && Sorted(list, cmp)
    requires IsFirstOccurrence(list, value, cmp, first) && IsLastOccurrence(list, value, cmp, last)
    requires BinarySearch(list, value, cmp) >= 0
    ensures forall j | 0 <= j < first :: cmp(list[j], value) < 0
    ensures forall j | first <= j <= last :: cmp(list[j], value) == 0
    ensures forall j | last < j < |list| :: cmp(list[j], value) > 0
  {
    var b := BinarySearch(list, value, cmp);
    if first > 0 {
      assert cmp(list[first - 1], list[first]) <= 0;
      Transitive(cmp, list[first - 1], list[first], value);
      assert cmp(list[first - 1], value) < 0;
      forall j | 0 <= j < first ensures cmp(list[j], value) < 0 {
        if j < first - 1 { StrictTransitive(cmp, list[j], list[first - 1], value); }
      }
    }
    if last < |list| - 1 {
      assert cmp(list[last], list[last + 1]) <= 0;
      Reflexive(cmp, value);
      assert cmp(value, list[last]) <= 0 by {
        assert cmp(list[last], value) == 0;
        assert cmp(value, list[last]) > 0 <==> cmp(list[last], value) < 0;
      }
      Transitive(cmp, value, list[last], list[last + 1]);
      assert cmp(value, list[last + 1]) < 0 by {
        assert cmp(list[last + 1], value) != 0;
      }
      forall j | last < j < |list| ensures cmp(list[j], value) > 0 {
        if j > last + 1 {
          assert cmp(list[last + 1], list[j]) <= 0;
          StrictTransitive(cmp, value, list[last + 1], list[j]);
        }
      }
    }
  }
}
