/**
 * RecordDefects: RecordStorage.MarkAsReusable and Delete as the source writes them, next to
 * RecordSpec.MarkSpec and RecordSpec.DeleteFrom, which read a block's NextBlockId before
 * clearing it.
 *
 * MarkAsReusable clears the block's NextBlockId first and only then reads
 * it back for Delete, so Delete always stops after the first block of a record. The
 * other blocks of the record stay linked to it, are never flagged deleted and never join the
 * free chain: no Find reaches them and no allocation reuses them.
 */
module RecordDefects {
  import opened Bytes
  import opened Errors
  import opened Storage
  import opened RecordBlocks
  import opened RecordSpec
  import opened RecordLemmas
  import opened RecordDelete

  /** MarkAsReusable(block, out nextBlockId) as written: NextBlockId is read after it is cleared. */
  ghost function MarkSpecAsWritten(d: seq<Image>, cs: nat, aligned: bool, b: nat): (r: (Result<uint32>, seq<Image>))
    requires b < |d| < MaxBlocks
    ensures |r.1| == |d|
  {
    var (t, e) := TrackerSpec(d, cs, aligned);
    if t.Err? then (Err(t.error), e)
    else
      var last := t.value.0;
      var e1 := SetHeader(e, last, NextBlockId, b);
      if b in TrackerDisposed(d, cs, aligned) then (Err(ObjectDisposed), e1)
      else
        var e2 := SetHeader(e1, b, PreviousBlockId, last);
        var e3 := SetHeader(e2, b, NextBlockId, 0);
        (Ok(NextId(e3, b)), e3)
  }

  /** The loop of Delete as written, on MarkSpecAsWritten. */
  ghost function DeleteFromAsWritten(d: seq<Image>, cs: nat, aligned: bool, cur: nat, fuel: nat): (r: (Status, seq<Image>))
    requires cur < |d| < MaxBlocks
    ensures |r.1| == |d|
    decreases fuel
  {
    var (m, e) := MarkSpecAsWritten(d, cs, aligned, cur);
    if m.Err? then (Fail(m.error), e)
    else if Tracked(d, cs, aligned, cur) then (Fail(ObjectDisposed), e)
    else
      var e1 := SetHeader(e, cur, IsDeleted, 1);
      var next := m.value;
      if next == 0 then (Done, e1)
      else if next >= |e1| then (Fail(InvalidData), e1)
      else if fuel == 0 then (Fail(NonTermination), e1)
      else DeleteFromAsWritten(e1, cs, aligned, next, fuel - 1)
  }

  /** RecordStorage.Delete(id) as written. */
  ghost function DeleteSpecAsWritten(d: seq<Image>, cs: nat, aligned: bool, id: nat): (r: (Status, seq<Image>))
    requires |d| < MaxBlocks
  {
    if id < |d| then DeleteFromAsWritten(d, cs, aligned, id, |d|)
    else
      var (t, e) := TrackerSpec(d, cs, aligned);
      (if t.Err? then Fail(t.error) else Fail(NullReference), e)
  }

  /**
   * Delete, as written, of a block off the free chain: it recycles that block and stops,
   * whatever the block's NextBlockId named.
   */
  lemma DeleteAsWrittenStops(d: seq<Image>, cs: nat, aligned: bool, id: nat, F: seq<nat>) returns (e: seq<Image>)
    requires 0 < |d| < MaxBlocks && FreeChain(d, F) && id < |d| && id !in F
    ensures DeleteSpecAsWritten(d, cs, aligned, id) == (Done, e)
    ensures |e| == |d| && FreeChain(e, F + [id]) && e[id].isDeleted == 1
    ensures forall i | 0 <= i < |d| && i !in F && i != id :: e[i] == d[i]
  {
    MarkStep(d, cs, aligned, F, id);
    var e0 := MarkSpec(d, cs, aligned, id).1;
    assert MarkSpecAsWritten(d, cs, aligned, id) == (Ok(0), e0);
    e := SetHeader(e0, id, IsDeleted, 1);
    FreeChainKept(e0, e, F + [id]);
  }

  /**
   * Deleting, as written, a stored record of more than one block frees its first block only:
   * GetDeletedId then lists that block alone after the blocks that were free (the corrected
   * Delete lists every block of the record, by RecordDelete.DeleteThenFind), and the record's
   * second block is left as it was, on no chain the store follows.
   */
  lemma DeleteAsWrittenLeaks(d: seq<Image>, cs: nat, aligned: bool, id: nat, ids: seq<nat>, data: seq<byte>, F: seq<nat>)
    requires |d| < MaxBlocks && Stores(d, cs, id, ids, data) && FreeChain(d, F) && Apart(ids, F) && |ids| > 1
    ensures var (s, e) := DeleteSpecAsWritten(d, cs, aligned, id);
      s.Done? && FreeChain(e, F + [id]) && DeletedIdsSpec(e, cs, aligned) == (Ok(F[1..] + [id]), e)
      && ids[1] !in F + [id] && ids[1] < |e| && e[ids[1]] == d[ids[1]]
  {
    HeldChain(d, cs, ids, |data|);
    ChainDistinct(d, ids);
    var e := DeleteAsWrittenStops(d, cs, aligned, id, F);
    TrackerIsFreeChainEnd(e, cs, aligned, F + [id]);
    assert (F + [id])[1..] == F[1..] + [id];
    assert ids[1] != id && ids[1] !in F;
  }
}
