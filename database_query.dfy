/**
 * DatabaseQuery: narrows a list of candidate record ids step by step. Each Find collects the
 * ids an index yields into tempIndexes and intersects them with the ids found so far.
 *
 * The database behind the query is not part of this model. An index's enumeration is the
 * sequence of entries it yields in the query's sort direction, and a record lookup (the record
 * storage's Find followed by the model serializer) is a function `load` from id to an optional
 * model.
 */
module DatabaseQueries {
  import opened Bytes
  import opened Errors
  import opened Comparers
  import opened Seqs

  /** Membership in t, as a predicate. */
  function InList(t: seq<uint32>): (p: uint32 -> bool)
    ensures forall x :: p(x) <==> x in t
  {
    x => x in t
  }

  /** The ids of ids0 that an intersection with found drops. */
  ghost function Dropped(ids0: seq<uint32>, found: seq<uint32>): set<uint32>
  {
    set x | x in ids0 && x !in found
  }

  /** The id list after IntersectIndexes: found itself at first, then the ids also in found. */
  ghost function Intersected(ids0: seq<uint32>, included: bool, found: seq<uint32>): seq<uint32>
  {
    if included then Filter(ids0, InList(found)) else ids0 + found
  }

  /** The ids an index enumeration yields, in order. */
  function Ids<K>(entries: seq<(K, uint32)>): (r: seq<uint32>)
    ensures |r| == |entries| && forall i | 0 <= i < |entries| :: r[i] == entries[i].1
  {
    seq(|entries|, i requires 0 <= i < |entries| => entries[i].1)
  }

  /** The length of the leading run of entries whose key compares equal to key. */
  function EqualRun<K>(entries: seq<(K, uint32)>, key: K, cmp: Comparer<K>): (n: nat)
    ensures n <= |entries|
    ensures forall i | 0 <= i < n :: cmp(entries[i].0, key) == 0
    ensures n < |entries| ==> cmp(entries[n].0, key) != 0
  {
    if entries == [] || cmp(entries[0].0, key) != 0 then 0
    else 1 + EqualRun(entries[1..], key, cmp)
  }

  /** The entries whose key satisfies condition. */
  function KeyFilter<K(!new)>(condition: K -> bool): (p: ((K, uint32)) -> bool)
    ensures forall e :: p(e) == condition(e.0)
  {
    (e: (K, uint32)) => condition(e.0)
  }

  /** A record Find(condition) keeps: one that cannot be loaded, or one whose model passes. */
  function Kept<M>(load: uint32 -> Option<M>, condition: M -> bool): (p: uint32 -> bool)
    ensures forall id :: p(id) <==> load(id).None? || condition(load(id).value)
  {
    (id: uint32) => load(id).None? || condition(load(id).value)
  }

  /** A record Find(condition) caches: one that loads and passes. */
  predicate Passes<M>(load: uint32 -> Option<M>, condition: M -> bool, id: uint32)
  {
    load(id).Some? && condition(load(id).value)
  }

  /** The cache entries Find(condition) adds for the ids of s. */
  ghost function PassMap<M>(s: seq<uint32>, load: uint32 -> Option<M>, condition: M -> bool): map<uint32, M>
  {
    map x | x in s && Passes(load, condition, x) :: load(x).value
  }

  /**
   * Find(condition) runs without an exception exactly when no passing id is already cached when
   * the backward loop reaches it: it is not in the cache at the start, and it does not also
   * pass at a later position.
   */
  ghost predicate NoCollision<M>(s: seq<uint32>, cache: map<uint32, M>, load: uint32 -> Option<M>, condition: M -> bool)
  {
    forall j | 0 <= j < |s| && Passes(load, condition, s[j]) ::
      s[j] !in cache && forall k | j < k < |s| && Passes(load, condition, s[k]) :: s[k] != s[j]
  }

  /** The cache agrees with the records: every cached model is what loading its id gives. */
  ghost predicate CacheConsistent<M>(cache: map<uint32, M>, load: uint32 -> Option<M>)
  {
    forall id | id in cache :: load(id) == Some(cache[id])
  }

  class DatabaseQuery<M> {
    var indexes: seq<uint32>
    var tempIndexes: seq<uint32>
    var cachedData: map<uint32, M>
    var isAscending: bool
    var isInitiallyIncluded: bool

    /**
     * Between calls tempIndexes is empty, and until the first Find there are neither ids nor
     * cached models.
     */
    ghost predicate Valid()
      reads this
    {
      tempIndexes == [] && (!isInitiallyIncluded ==> indexes == [] && cachedData == map[])
    }

    constructor ()
      ensures Valid()
      ensures indexes == [] && cachedData == map[] && isAscending && !isInitiallyIncluded
    {
      indexes := [];
      tempIndexes := [];
      cachedData := map[];
      isAscending := true;
      isInitiallyIncluded := false;
    }

    /** ShouldIgnore: a find has already run and left no ids. */
    predicate ShouldIgnore()
      reads this
      ensures ShouldIgnore() <==> isInitiallyIncluded && indexes == []
    {
      isInitiallyIncluded && |indexes| == 0
    }

    method Reset()
      modifies this
      ensures Valid()
      ensures indexes == [] && tempIndexes == [] && cachedData == map[]
      ensures isAscending && !isInitiallyIncluded
    {
      indexes := [];
      tempIndexes := [];
      cachedData := map[];
      isAscending := true;
      isInitiallyIncluded := false;
    }

    method Sort(isAscending: bool)
      modifies this`isAscending
      ensures this.isAscending == isAscending
    {
      this.isAscending := isAscending;
    }

    /**
     * IntersectIndexes: the first call appends tempIndexes; later calls keep, in order, the ids
     * also in tempIndexes and drop the cached models of the others. Either way tempIndexes is
     * emptied and the query counts as included.
     */
    method IntersectIndexes()
      modifies this`indexes, this`tempIndexes, this`cachedData, this`isInitiallyIncluded
      ensures indexes == Intersected(old(indexes), old(isInitiallyIncluded), old(tempIndexes))
      ensures cachedData == if old(isInitiallyIncluded) then old(cachedData) - Dropped(old(indexes), old(tempIndexes))
                            else old(cachedData)
      ensures isInitiallyIncluded && tempIndexes == []
    {
      if isInitiallyIncluded {
        ghost var ids0 := indexes;
        var i := |indexes|;
        while i > 0
          invariant 0 <= i <= |ids0|
          invariant tempIndexes == old(tempIndexes)
          invariant indexes == ids0[..i] + Filter(ids0[i..], InList(tempIndexes))
          invariant cachedData == old(cachedData) - Dropped(ids0[i..], tempIndexes)
        {
          var id := indexes[i - 1];
          IntersectStep(ids0, i, tempIndexes, indexes);
          if id !in tempIndexes {
            cachedData := cachedData - {id};
            indexes := indexes[..i - 1] + indexes[i..];
          }
          i := i - 1;
        }
        assert ids0[0..] == ids0;
      } else {
        indexes := indexes + tempIndexes;
      }
      isInitiallyIncluded := true;
      tempIndexes := [];
    }

    /** Find(): intersect with the ids of the unique index, unless the query is to be ignored. */
    method FindAll(uniqueIds: seq<uint32>)
      requires Valid()
      modifies this
      ensures Valid()
      ensures old(ShouldIgnore()) ==> unchanged(this)
      ensures !old(ShouldIgnore()) ==> isInitiallyIncluded
      ensures !old(ShouldIgnore()) ==> indexes == Intersected(old(indexes), old(isInitiallyIncluded), uniqueIds)
      ensures !old(ShouldIgnore()) ==> cachedData == if old(isInitiallyIncluded) then old(cachedData) - Dropped(old(indexes), uniqueIds)
                                                     else old(cachedData)
      ensures isAscending == old(isAscending)
    {
      if ShouldIgnore() {
        return;
      }
      for j := 0 to |uniqueIds|
        invariant tempIndexes == uniqueIds[..j]
        invariant indexes == old(indexes) && cachedData == old(cachedData)
        invariant isInitiallyIncluded == old(isInitiallyIncluded) && isAscending == old(isAscending)
      {
        tempIndexes := tempIndexes + [uniqueIds[j]];
      }
      assert tempIndexes == uniqueIds;
      IntersectIndexes();
    }

    /**
     * Find<K>(field): intersect with the ids of every entry of the field's index; a field
     * without an index (None) leaves the query as it is.
     */
    method FindField<K>(index: Option<seq<(K, uint32)>>)
      requires Valid()
      modifies this
      ensures Valid()
      ensures old(ShouldIgnore()) || index.None? ==> unchanged(this)
      ensures !old(ShouldIgnore()) && index.Some? ==>
        indexes == Intersected(old(indexes), old(isInitiallyIncluded), Ids(index.value))
      ensures !old(ShouldIgnore()) && index.Some? ==> isInitiallyIncluded
      ensures !old(ShouldIgnore()) && index.Some? ==>
        cachedData == if old(isInitiallyIncluded) then old(cachedData) - Dropped(old(indexes), Ids(index.value))
                      else old(cachedData)
      ensures isAscending == old(isAscending)
    {
      if ShouldIgnore() {
        return;
      }
      if index.Some? {
        var entries := index.value;
        for j := 0 to |entries|
          invariant tempIndexes == Ids(entries[..j])
          invariant indexes == old(indexes) && cachedData == old(cachedData)
          invariant isInitiallyIncluded == old(isInitiallyIncluded) && isAscending == old(isAscending)
        {
          tempIndexes := tempIndexes + [entries[j].1];
        }
        assert entries[..|entries|] == entries;
        IntersectIndexes();
      }
    }

    /**
     * Find<K>(field, key): the exact-match scan starts at the first entry not below key, and the
     * loop stops at the first entry whose key is not equal to key.
     */
    method FindExact<K>(index: Option<seq<(K, uint32)>>, key: K, cmp: Comparer<K>)
      requires Valid()
      modifies this
      ensures Valid()
      ensures old(ShouldIgnore()) || index.None? ==> unchanged(this)
      ensures !old(ShouldIgnore()) && index.Some? ==>
        indexes == Intersected(old(indexes), old(isInitiallyIncluded), Ids(index.value[..EqualRun(index.value, key, cmp)]))
      ensures !old(ShouldIgnore()) && index.Some? ==> isInitiallyIncluded
      ensures !old(ShouldIgnore()) && index.Some? ==>
        cachedData == if old(isInitiallyIncluded) then old(cachedData) - Dropped(old(indexes), Ids(index.value[..EqualRun(index.value, key, cmp)]))
                      else old(cachedData)
      ensures isAscending == old(isAscending)
    {
      if ShouldIgnore() {
        return;
      }
      if index.Some? {
        var entries := index.value;
        var j := 0;
        while j < |entries|
          invariant 0 <= j <= EqualRun(entries, key, cmp)
          invariant tempIndexes == Ids(entries[..j])
          invariant indexes == old(indexes) && cachedData == old(cachedData)
          invariant isInitiallyIncluded == old(isInitiallyIncluded) && isAscending == old(isAscending)
        {
          if cmp(entries[j].0, key) != 0 {
            break;
          }
          EqualRunExtends(entries, key, cmp, j);
          tempIndexes := tempIndexes + [entries[j].1];
          j := j + 1;
        }
        assert j == EqualRun(entries, key, cmp);
        IntersectIndexes();
      }
    }

    /** Find<K>(field, condition): intersect with the ids of the entries whose key passes. */
    method FindFieldWhere<K(!new)>(index: Option<seq<(K, uint32)>>, condition: K -> bool)
      requires Valid()
      modifies this
      ensures Valid()
      ensures old(ShouldIgnore()) || index.None? ==> unchanged(this)
      ensures !old(ShouldIgnore()) && index.Some? ==>
        indexes == Intersected(old(indexes), old(isInitiallyIncluded), Ids(Filter(index.value, KeyFilter(condition))))
      ensures !old(ShouldIgnore()) && index.Some? ==> isInitiallyIncluded
      ensures !old(ShouldIgnore()) && index.Some? ==>
        cachedData == if old(isInitiallyIncluded) then old(cachedData) - Dropped(old(indexes), Ids(Filter(index.value, KeyFilter(condition))))
                      else old(cachedData)
      ensures isAscending == old(isAscending)
    {
      if ShouldIgnore() {
        return;
      }
      if index.Some? {
        var entries := index.value;
        for j := 0 to |entries|
          invariant tempIndexes == Ids(Filter(entries[..j], KeyFilter(condition)))
          invariant indexes == old(indexes) && cachedData == old(cachedData)
          invariant isInitiallyIncluded == old(isInitiallyIncluded) && isAscending == old(isAscending)
        {
          FilterAppend(entries[..j], [entries[j]], KeyFilter(condition));
          assert entries[..j + 1] == entries[..j] + [entries[j]];
          if condition(entries[j].0) {
            tempIndexes := tempIndexes + [entries[j].1];
          }
        }
        assert entries[..|entries|] == entries;
        IntersectIndexes();
      }
    }

    /**
     * Find(condition): after a first Find() over the unique index if none has run, walks the ids
     * backwards. An id whose record does not load is kept; one whose model passes is kept and
     * its model cached (Dictionary.Add, which throws for an id cached already); any other is
     * removed. When Dictionary.Add throws, the ids from `stop` on are filtered and their passing
     * models cached, and those before `stop` are left as they were.
     */
    method FindWhere(uniqueIds: seq<uint32>, load: uint32 -> Option<M>, condition: M -> bool)
      returns (s: Status, ghost stop: nat)
      requires Valid()
      modifies this
      ensures Valid()
      ensures old(ShouldIgnore()) ==> s == Done && unchanged(this)
      ensures !old(ShouldIgnore()) ==> isInitiallyIncluded
      ensures !old(ShouldIgnore()) ==>
        var start := if old(isInitiallyIncluded) then old(indexes) else uniqueIds;
        && (s == Done <==> NoCollision(start, old(cachedData), load, condition))
        && (s.Fail? ==> s.error == Argument)
        && (s == Done ==> indexes == Filter(start, Kept(load, condition)))
        && (s == Done ==> cachedData == old(cachedData) + PassMap(start, load, condition))
        && (s.Fail? ==> 0 < stop <= |start| && Passes(load, condition, start[stop - 1])
                        && start[stop - 1] in cachedData
                        && indexes == start[..stop] + Filter(start[stop..], Kept(load, condition))
                        && cachedData == old(cachedData) + PassMap(start[stop..], load, condition))
      ensures isAscending == old(isAscending)
    {
      if ShouldIgnore() {
        return Done, 0;
      }
      if !isInitiallyIncluded {
        FindAll(uniqueIds);
        assert indexes == [] + uniqueIds == uniqueIds;
      }
      s, stop := FilterByCondition(load, condition);
    }

    /**
     * The backward loop of Find(condition), over the ids found so far. When Dictionary.Add
     * throws, the loop has handled the ids from `stop` on and stops at the one before.
     */
    method FilterByCondition(load: uint32 -> Option<M>, condition: M -> bool) returns (s: Status, ghost stop: nat)
      requires Valid() && isInitiallyIncluded
      modifies this`indexes, this`cachedData
      ensures Valid()
      ensures s == Done <==> NoCollision(old(indexes), old(cachedData), load, condition)
      ensures s.Fail? ==> s.error == Argument
      ensures s == Done ==> indexes == Filter(old(indexes), Kept(load, condition))
      ensures s == Done ==> cachedData == old(cachedData) + PassMap(old(indexes), load, condition)
      ensures s.Fail? ==>
        && 0 < stop <= |old(indexes)| && Passes(load, condition, old(indexes)[stop - 1])
        && old(indexes)[stop - 1] in cachedData
        && indexes == old(indexes)[..stop] + Filter(old(indexes)[stop..], Kept(load, condition))
        && cachedData == old(cachedData) + PassMap(old(indexes)[stop..], load, condition)
    {
      ghost var ids0, cache0 := indexes, cachedData;
      var i := |indexes|;
      assert PassMap(ids0[i..], load, condition) == map[];
      assert cache0 + map[] == cache0;
      while i > 0
        invariant 0 <= i <= |ids0|
        invariant indexes == ids0[..i] + Filter(ids0[i..], Kept(load, condition))
        invariant cachedData == cache0 + PassMap(ids0[i..], load, condition)
        invariant NoCollision(ids0[i..], cache0, load, condition)
      {
        var id := indexes[i - 1];
        FilterStep(ids0, i, Kept(load, condition), indexes);
        ConditionStep(ids0, i, cache0, load, condition);
        var data := load(id);
        if data.Some? && condition(data.value) {
          if id in cachedData {
            CollisionAt(ids0, i, cache0, load, condition);
            return Fail(Argument), i;
          }
          UnionUpdate(cache0, PassMap(ids0[i..], load, condition), id, data.value);
          cachedData := cachedData[id := data.value];
        } else if data.Some? {
          indexes := indexes[..i - 1] + indexes[i..];
        }
        i := i - 1;
      }
      assert ids0[0..] == ids0;
      return Done, 0;
    }

    /** Skip(count): List.RemoveRange(0, count), or Clear when count reaches the length. */
    method Skip(count: int) returns (s: Status)
      requires Valid()
      modifies this`indexes
      ensures Valid()
      ensures s.Fail? <==> count < 0
      ensures s.Fail? ==> s.error == ArgumentOutOfRange && indexes == old(indexes)
      ensures s == Done ==> indexes == if count < |old(indexes)| then old(indexes)[count..] else []
    {
      if count < |indexes| {
        if count < 0 {
          return Fail(ArgumentOutOfRange);
        }
        indexes := indexes[count..];
      } else {
        indexes := [];
      }
      return Done;
    }

    function GetCount(): (n: int)
      reads this
      ensures n == |indexes|
    {
      |indexes|
    }

    /** Where GetAll, GetRange and GetFirst take a model from: the cache, else the record. */
    function Resolver(load: uint32 -> Option<M>): (f: uint32 -> Option<M>)
      reads this
      ensures forall id :: f(id) == if id in cachedData then Some(cachedData[id]) else load(id)
    {
      var cache := cachedData;
      (id: uint32) => if id in cache then Some(cache[id]) else load(id)
    }

    /** GetAll(): the cached or loaded model of each id in order, skipping records that do not load. */
    method GetAll(load: uint32 -> Option<M>) returns (r: seq<M>)
      ensures r == Collect(indexes, Resolver(load))
    {
      r := GetRange(load, |indexes|);
      assert indexes[..|indexes|] == indexes;
    }

    /** GetRange(count): GetAll limited to the first min(count, Count) ids. */
    method GetRange(load: uint32 -> Option<M>, count: int) returns (r: seq<M>)
      ensures r == Collect(indexes[..if count < |indexes| then (if count < 0 then 0 else count) else |indexes|], Resolver(load))
    {
      var loop := if count < |indexes| then count else |indexes|;
      var f := Resolver(load);
      r := [];
      var i := 0;
      while i < loop
        invariant 0 <= i <= (if loop < 0 then 0 else loop)
        invariant r == Collect(indexes[..i], f)
      {
        CollectAppend(indexes[..i], [indexes[i]], f);
        assert indexes[..i + 1] == indexes[..i] + [indexes[i]];
        var m := f(indexes[i]);
        if m.Some? {
          r := r + [m.value];
        }
        i := i + 1;
      }
    }

    /** GetFirst(): the first model GetAll would yield, or null. */
    method GetFirst(load: uint32 -> Option<M>) returns (r: Option<M>)
      ensures var all := Collect(indexes, Resolver(load));
        r == if all == [] then None else Some(all[0])
    {
      var f := Resolver(load);
      var i := 0;
      while i < |indexes|
        invariant 0 <= i <= |indexes|
        invariant Collect(indexes[..i], f) == []
      {
        CollectAppend(indexes[..i], [indexes[i]], f);
        assert indexes[..i + 1] == indexes[..i] + [indexes[i]];
        var m := f(indexes[i]);
        if m.Some? {
          CollectAppend(indexes[..i + 1], indexes[i + 1..], f);
          assert indexes[..i + 1] + indexes[i + 1..] == indexes;
          return m;
        }
        i := i + 1;
      }
      assert indexes[..i] == indexes;
      return None;
    }

    /** GetAll(iterator): each id with its loaded model, skipping records that do not load. */
    method GetAllLoaded(load: uint32 -> Option<M>) returns (r: seq<(uint32, M)>)
      ensures r == Collect(indexes, Tagged(load))
    {
      var f := Tagged(load);
      r := [];
      for i := 0 to |indexes|
        invariant r == Collect(indexes[..i], f)
      {
        CollectAppend(indexes[..i], [indexes[i]], f);
        assert indexes[..i + 1] == indexes[..i] + [indexes[i]];
        var m := load(indexes[i]);
        if m.Some? {
          r := r + [(indexes[i], m.value)];
        }
      }
      assert indexes[..|indexes|] == indexes;
    }
  }

  /** The id paired with its loaded model. */
  function Tagged<M>(load: uint32 -> Option<M>): (f: uint32 -> Option<(uint32, M)>)
    ensures forall id :: f(id) == if load(id).Some? then Some((id, load(id).value)) else None
  {
    (id: uint32) => if load(id).Some? then Some((id, load(id).value)) else None
  }

  lemma UnionUpdate<A, B>(a: map<A, B>, b: map<A, B>, k: A, v: B)
    ensures a + b[k := v] == (a + b)[k := v]
  {
  }

  /** One backward step of a filter in place: entry i of s0 stays exactly when it satisfies p. */
  lemma FilterStep<T>(s0: seq<T>, i: nat, p: T -> bool, s: seq<T>)
    requires 0 < i <= |s0| && s == s0[..i] + Filter(s0[i..], p)
    ensures i - 1 < |s| && s[i - 1] == s0[i - 1]
    ensures p(s0[i - 1]) ==> s == s0[..i - 1] + Filter(s0[i - 1..], p)
    ensures !p(s0[i - 1]) ==> s[..i - 1] + s[i..] == s0[..i - 1] + Filter(s0[i - 1..], p)
  {
    var j := i - 1;
    var x := s0[j];
    var kept := Filter(s0[i..], p);
    assert s0[..i] == s0[..j] + [x];
    assert s0[j..] == [x] + s0[i..];
    FilterCons(x, s0[i..], p);
    if !p(x) {
      assert s[..j] == s0[..j] && s[i..] == kept;
    }
  }

  /** One turn of IntersectIndexes' loop on the id list: entry i stays exactly when found holds it. */
  lemma IntersectStep(ids0: seq<uint32>, i: nat, found: seq<uint32>, indexes: seq<uint32>)
    requires 0 < i <= |ids0| && indexes == ids0[..i] + Filter(ids0[i..], InList(found))
    ensures i - 1 < |indexes| && indexes[i - 1] == ids0[i - 1]
    ensures ids0[i - 1] in found ==> indexes == ids0[..i - 1] + Filter(ids0[i - 1..], InList(found))
    ensures ids0[i - 1] !in found ==> indexes[..i - 1] + indexes[i..] == ids0[..i - 1] + Filter(ids0[i - 1..], InList(found))
    ensures Dropped(ids0[i - 1..], found) == Dropped(ids0[i..], found) + (if ids0[i - 1] in found then {} else {ids0[i - 1]})
  {
    FilterStep(ids0, i, InList(found), indexes);
    assert ids0[i - 1..] == [ids0[i - 1]] + ids0[i..];
    DroppedCons(ids0[i - 1], ids0[i..], found);
  }

  /** One turn of Find(condition)'s loop on the cache: entry i adds its model when it passes, unless it collides. */
  lemma ConditionStep<M>(ids0: seq<uint32>, i: nat, cache0: map<uint32, M>, load: uint32 -> Option<M>, condition: M -> bool)
    requires 0 < i <= |ids0|
    ensures PassMap(ids0[i - 1..], load, condition)
      == if Passes(load, condition, ids0[i - 1]) then PassMap(ids0[i..], load, condition)[ids0[i - 1] := load(ids0[i - 1]).value]
         else PassMap(ids0[i..], load, condition)
    ensures NoCollision(ids0[i..], cache0, load, condition)
      && (Passes(load, condition, ids0[i - 1]) ==> ids0[i - 1] !in cache0 + PassMap(ids0[i..], load, condition))
      ==> NoCollision(ids0[i - 1..], cache0, load, condition)
  {
    var x := ids0[i - 1];
    assert ids0[i - 1..] == [x] + ids0[i..];
    PassMapCons(x, ids0[i..], load, condition);
    if NoCollision(ids0[i..], cache0, load, condition)
      && (Passes(load, condition, x) ==> x !in cache0 + PassMap(ids0[i..], load, condition)) {
      NoCollisionCons(x, ids0[i..], cache0, load, condition);
    }
  }

  lemma FilterCons<T>(x: T, rest: seq<T>, p: T -> bool)
    ensures Filter([x] + rest, p) == (if p(x) then [x] else []) + Filter(rest, p)
  {
    assert ([x] + rest)[1..] == rest;
  }

  lemma DroppedCons(x: uint32, rest: seq<uint32>, found: seq<uint32>)
    ensures Dropped([x] + rest, found) == Dropped(rest, found) + (if x in found then {} else {x})
  {
    assert forall y :: y in [x] + rest <==> y == x || y in rest;
  }

  lemma EqualRunExtends<K>(entries: seq<(K, uint32)>, key: K, cmp: Comparer<K>, j: nat)
    requires j <= EqualRun(entries, key, cmp) && j < |entries| && cmp(entries[j].0, key) == 0
    ensures j < EqualRun(entries, key, cmp)
  {
  }

  lemma PassMapCons<M>(id: uint32, rest: seq<uint32>, load: uint32 -> Option<M>, condition: M -> bool)
    ensures PassMap([id] + rest, load, condition) ==
      if Passes(load, condition, id) then PassMap(rest, load, condition)[id := load(id).value]
      else PassMap(rest, load, condition)
  {
    assert forall x :: x in [id] + rest <==> x == id || x in rest;
  }

  lemma NoCollisionCons<M>(id: uint32, rest: seq<uint32>, cache: map<uint32, M>, load: uint32 -> Option<M>, condition: M -> bool)
    requires NoCollision(rest, cache, load, condition)
    requires Passes(load, condition, id) ==> id !in cache + PassMap(rest, load, condition)
    ensures NoCollision([id] + rest, cache, load, condition)
  {
    var s := [id] + rest;
    forall j | 0 <= j < |s| && Passes(load, condition, s[j])
      ensures s[j] !in cache && forall k | j < k < |s| && Passes(load, condition, s[k]) :: s[k] != s[j]
    {
      if j == 0 {
        forall k | 0 < k < |s| && Passes(load, condition, s[k]) ensures s[k] != id {
          assert s[k] == rest[k - 1];
          assert s[k] in PassMap(rest, load, condition);
        }
      } else {
        assert s[j] == rest[j - 1];
        forall k | j < k < |s| && Passes(load, condition, s[k]) ensures s[k] != s[j] {
          assert s[k] == rest[k - 1];
        }
      }
    }
  }

  /** A passing id met at position i - 1 that is already cached is a collision of start. */
  lemma CollisionAt<M>(start: seq<uint32>, i: nat, cache0: map<uint32, M>, load: uint32 -> Option<M>, condition: M -> bool)
    requires 0 < i <= |start| && Passes(load, condition, start[i - 1])
    requires start[i - 1] in cache0 + PassMap(start[i..], load, condition)
    ensures !NoCollision(start, cache0, load, condition)
  {
    var x := start[i - 1];
    if x !in cache0 {
      assert x in start[i..] && Passes(load, condition, x);
      var k :| 0 <= k < |start[i..]| && start[i..][k] == x;
      assert start[i + k] == x;
    }
  }

  /** The models Find(condition) caches are the loaded ones, so a consistent cache stays so. */
  lemma PassMapConsistent<M>(cache: map<uint32, M>, s: seq<uint32>, load: uint32 -> Option<M>, condition: M -> bool)
    requires CacheConsistent(cache, load)
    ensures CacheConsistent(cache + PassMap(s, load, condition), load)
  {
  }

  /** With a consistent cache, the cached view the getters use is the records' own view. */
  lemma ResolverIsLoad<M>(q: DatabaseQuery<M>, load: uint32 -> Option<M>)
    requires CacheConsistent(q.cachedData, load)
    ensures Collect(q.indexes, q.Resolver(load)) == Collect(q.indexes, load)
  {
    CollectAgree(q.indexes, q.Resolver(load), load);
  }

  /** An intersection keeps exactly the earlier ids that the index also yielded. */
  lemma IntersectedMembership(ids0: seq<uint32>, found: seq<uint32>, x: uint32)
    ensures x in Intersected(ids0, true, found) <==> x in ids0 && x in found
  {
    FilterMembership(ids0, InList(found), x);
  }

  /** Find(condition) keeps exactly the ids whose record is missing or passes. */
  lemma KeptMembership<M>(start: seq<uint32>, load: uint32 -> Option<M>, condition: M -> bool, x: uint32)
    ensures x in Filter(start, Kept(load, condition)) <==> x in start && (load(x).None? || condition(load(x).value))
  {
    FilterMembership(start, Kept(load, condition), x);
  }
}
