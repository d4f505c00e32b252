/**
 * RecordBlocks: blocks as the record layer sees them, and the chains it follows.
 *
 * RecordStorage touches a block only through GetHeader, SetHeader, Read and Write with offset 0,
 * so all it sees of a block is an Image: the five header fields and the content past the header.
 * ImageOf computes the image from a block's bytes (Storage.Block.View), and the lemmas below show
 * that the block operations act on images field by field.
 *
 * Records are chains of blocks linked by NextBlockId. WalkFrom follows a chain the way
 * RecordStorage.FindBlocks does; the lemmas show it finds exactly the chains IsChain describes.
 */
module RecordBlocks {
  import opened Bytes
  import opened Errors
  import opened BufferHelper
  import opened Storage

  /** Block ids are uint values, so a store holds at most 2^32 blocks. */
  const MaxBlocks := 0x1_0000_0000

  datatype Image = Image(nextBlockId: int64, previousBlockId: int64, recordLength: int64,
                         blockContentLength: int64, isDeleted: int64, content: seq<byte>)
  {
    /** Block.GetHeader of one of the five fields, by its BlockFields index. */
    function Header(field: nat): int64
      requires field < CachedHeaderCount
    {
      if field == NextBlockId then nextBlockId
      else if field == PreviousBlockId then previousBlockId
      else if field == RecordLength then recordLength
      else if field == BlockContentLength then blockContentLength
      else isDeleted
    }

    /** The image after Block.SetHeader(field, value). */
    function WithHeader(field: nat, value: int64): (r: Image)
      requires field < CachedHeaderCount
      ensures r.Header(field) == value && r.content == content
      ensures forall f | 0 <= f < CachedHeaderCount && f != field :: r.Header(f) == Header(f)
    {
      if field == NextBlockId then this.(nextBlockId := value)
      else if field == PreviousBlockId then this.(previousBlockId := value)
      else if field == RecordLength then this.(recordLength := value)
      else if field == BlockContentLength then this.(blockContentLength := value)
      else this.(isDeleted := value)
    }
  }

  /** The image of a block BlockStorage.CreateNew has just made: every byte zero. */
  function ZeroImage(contentSize: nat): (r: Image)
    ensures |r.content| == contentSize
  {
    Image(0, 0, 0, 0, 0, Zeros(contentSize))
  }

  /** The first n header fields of a block whose bytes are `view`, eight bytes each. */
  function Headers(view: seq<byte>, n: nat): (r: seq<int64>)
    requires 8 * n <= |view|
    ensures |r| == n
  {
    if n == 0 then [] else Headers(view, n - 1) + [ReadInt64(view, 8 * (n - 1))]
  }

  /** Field k of Headers is the int64 at byte 8 * k. */
  lemma {:induction false} HeadersAt(view: seq<byte>, n: nat, k: nat)
    requires 8 * n <= |view| && k < n
    ensures Headers(view, n)[k] == ReadInt64(view, 8 * k)
  {
    if k < n - 1 {
      HeadersAt(view, n - 1, k);
    }
  }

  /** Equal bytes read as equal int64 values. */
  lemma ReadInt64Same(a: seq<byte>, b: seq<byte>, offset: nat)
    requires offset + 8 <= |a| && offset + 8 <= |b| && a[offset..offset + 8] == b[offset..offset + 8]
    ensures ReadInt64(a, offset) == ReadInt64(b, offset)
  {
  }

  /** Blocks that agree on their first 8 * n bytes have the same n header fields. */
  lemma {:induction false} HeadersSame(a: seq<byte>, b: seq<byte>, n: nat)
    requires 8 * n <= |a| && 8 * n <= |b| && forall i | 0 <= i < 8 * n :: a[i] == b[i]
    ensures Headers(a, n) == Headers(b, n)
  {
    if n > 0 {
      var o := 8 * (n - 1);
      HeadersSame(a, b, n - 1);
      assert a[o..o + 8] == b[o..o + 8];
      ReadInt64Same(a, b, o);
    }
  }

  /** Updating the last element of a sequence, or one before it. */
  lemma UpdateAppend(a: seq<int64>, x: int64, i: nat, value: int64)
    requires i <= |a|
    ensures i == |a| ==> (a + [x])[i := value] == a + [value]
    ensures i < |a| ==> (a + [x])[i := value] == a[i := value] + [x]
  {
  }

  /** Writing field `field` as Block.SetHeader does replaces that field and keeps the others. */
  lemma {:induction false} HeadersSet(view: seq<byte>, n: nat, field: nat, value: int64)
    requires 8 * n <= |view| && field < n
    ensures Headers(Splice(view, 8 * field, Int64Bytes(value)), n) == Headers(view, n)[field := value]
    decreases n, 1
  {
    if field == n - 1 {
      HeadersSetLast(view, n, value);
    } else {
      HeadersSetBefore(view, n, field, value);
    }
  }

  /** HeadersSet for the last of the n fields. */
  lemma HeadersSetLast(view: seq<byte>, n: nat, value: int64)
    requires 8 * n <= |view| && 0 < n
    ensures Headers(Splice(view, 8 * (n - 1), Int64Bytes(value)), n) == Headers(view, n)[n - 1 := value]
  {
    var o := 8 * (n - 1);
    var after := Splice(view, o, Int64Bytes(value));
    var before := Headers(view, n - 1);
    assert Headers(view, n)[n - 1 := value] == before + [value] by {
      UpdateAppend(before, ReadInt64(view, o), n - 1, value);
    }
    assert Headers(after, n - 1) == before by {
      HeadersSame(after, view, n - 1);
    }
    assert ReadInt64(after, o) == value by {
      ReadInt64AfterWrite(view, o, value);
    }
  }

  /** HeadersSet for a field before the last. */
  lemma {:induction false} HeadersSetBefore(view: seq<byte>, n: nat, field: nat, value: int64)
    requires 8 * n <= |view| && field < n - 1
    ensures Headers(Splice(view, 8 * field, Int64Bytes(value)), n) == Headers(view, n)[field := value]
    decreases n, 0
  {
    var after := Splice(view, 8 * field, Int64Bytes(value));
    var o := 8 * (n - 1);
    var before := Headers(view, n - 1);
    UpdateAppend(before, ReadInt64(view, o), field, value);
    HeadersSet(view, n - 1, field, value);
    ReadInt64Disjoint(view, 8 * field, Int64Bytes(value), o);
    assert Headers(after, n) == before[field := value] + [ReadInt64(view, o)];
  }

  /** The image of a block whose bytes are `view`, with a header of `headerSize` bytes. */
  function ImageOf(view: seq<byte>, headerSize: nat): (r: Image)
    requires TotalHeaderSize <= headerSize <= |view|
    ensures |r.content| == |view| - headerSize
  {
    var h := Headers(view, CachedHeaderCount);
    Image(h[NextBlockId], h[PreviousBlockId], h[RecordLength], h[BlockContentLength], h[IsDeleted],
          view[headerSize..])
  }

  /** Block.GetHeader reads the field of the image. */
  lemma ImageOfGetHeader(view: seq<byte>, headerSize: nat, field: nat)
    requires TotalHeaderSize <= headerSize <= |view| && field < CachedHeaderCount
    ensures ImageOf(view, headerSize).Header(field) == ReadInt64(view, 8 * field)
  {
    HeadersAt(view, CachedHeaderCount, field);
  }

  /** Block.SetHeader changes one field of the image and nothing else. */
  lemma ImageOfSetHeader(view: seq<byte>, headerSize: nat, field: nat, value: int64)
    requires TotalHeaderSize <= headerSize <= |view| && field < CachedHeaderCount
    ensures ImageOf(Splice(view, 8 * field, Int64Bytes(value)), headerSize)
         == ImageOf(view, headerSize).WithHeader(field, value)
  {
    var after := Splice(view, 8 * field, Int64Bytes(value));
    HeadersSet(view, CachedHeaderCount, field, value);
    SpliceOutside(view, 8 * field, Int64Bytes(value), headerSize, |view|);
    var hs := Headers(view, CachedHeaderCount)[field := value];
    assert ImageOf(after, headerSize) == Image(hs[0], hs[1], hs[2], hs[3], hs[4], view[headerSize..]);
  }

  /** A content write splices the content past the header at the shifted offset. */
  lemma ContentSplice(view: seq<byte>, headerSize: nat, offset: nat, bytes: seq<byte>)
    requires headerSize + offset + |bytes| <= |view|
    ensures Splice(view, headerSize + offset, bytes)[headerSize..] == Splice(view[headerSize..], offset, bytes)
  {
    var n := |view| - headerSize;
    SpliceWindow(view, headerSize, n, offset, bytes);
    assert view[headerSize..headerSize + n] == view[headerSize..];
    var after := Splice(view, headerSize + offset, bytes);
    assert after[headerSize..headerSize + n] == after[headerSize..];
  }

  /** Block.Write at content offset `offset` splices the image's content and keeps its header. */
  lemma ImageOfWrite(view: seq<byte>, headerSize: nat, offset: nat, bytes: seq<byte>)
    requires TotalHeaderSize <= headerSize && headerSize + offset + |bytes| <= |view|
    ensures ImageOf(Splice(view, headerSize + offset, bytes), headerSize)
         == ImageOf(view, headerSize).(content := Splice(view[headerSize..], offset, bytes))
  {
    HeadersSame(Splice(view, headerSize + offset, bytes), view, CachedHeaderCount);
    ContentSplice(view, headerSize, offset, bytes);
  }

  /** Block.Read at content offset 0 reads the start of the image's content. */
  lemma ImageOfRead(view: seq<byte>, headerSize: nat, length: nat)
    requires TotalHeaderSize <= headerSize && headerSize + length <= |view|
    ensures view[headerSize..headerSize + length] == ImageOf(view, headerSize).content[..length]
  {
  }

  /** Zero bytes read as 0. */
  lemma {:induction false} FromLEZeros(s: seq<byte>)
    requires forall i | 0 <= i < |s| :: s[i] == 0
    ensures FromLE(s) == 0
  {
    if s != [] {
      FromLEZeros(s[1..]);
    }
  }

  /** Eight zero bytes read as the int64 0. */
  lemma ReadInt64Zeros(s: seq<byte>, offset: nat)
    requires offset + 8 <= |s| && forall i | offset <= i < offset + 8 :: s[i] == 0
    ensures ReadInt64(s, offset) == 0
  {
    FromLEZeros(s[offset..offset + 8]);
  }

  /** Zero bytes have zero header fields. */
  lemma {:induction false} HeadersZeros(size: nat, n: nat)
    requires 8 * n <= size
    ensures Headers(Zeros(size), n) == seq(n, _ => 0)
  {
    if n > 0 {
      HeadersZeros(size, n - 1);
      ReadInt64Zeros(Zeros(size), 8 * (n - 1));
      assert seq(n, _ => 0) == seq(n - 1, _ => 0) + [0];
    }
  }

  /** A block of zero bytes has the zero image. */
  lemma ImageOfZeros(size: nat, headerSize: nat)
    requires TotalHeaderSize <= headerSize <= size
    ensures ImageOf(Zeros(size), headerSize) == ZeroImage(size - headerSize)
  {
    HeadersZeros(size, CachedHeaderCount);
    assert Zeros(size)[headerSize..] == Zeros(size - headerSize);
  }

  /** RecordStorage's (uint) conversion of a block's NextBlockId header. */
  function NextId(d: seq<Image>, id: nat): uint32
    requires id < |d|
  {
    TruncateToUInt32(d[id].nextBlockId)
  }

  /**
   * A chain: blocks in the store, each but the last naming the next as its NextBlockId (never
   * block 0, which ends a chain), the last naming 0.
   */
  ghost predicate IsChain(d: seq<Image>, ids: seq<nat>)
  {
    |ids| > 0
    && (forall k | 0 <= k < |ids| :: ids[k] < |d|)
    && (forall k | 1 <= k < |ids| :: ids[k] != 0 && NextId(d, ids[k - 1]) == ids[k])
    && NextId(d, ids[|ids| - 1]) == 0
  }

  ghost predicate NoneDeleted(d: seq<Image>, ids: seq<nat>)
  {
    forall k | 0 <= k < |ids| && ids[k] < |d| :: d[ids[k]].isDeleted != 1
  }

  ghost predicate Distinct(ids: seq<nat>)
  {
    forall i, j | 0 <= i < j < |ids| :: ids[i] != ids[j]
  }

  /**
   * The loop of RecordStorage.FindBlocks from block `cur`, with `acc` the blocks collected so
   * far: a missing block throws, a block flagged deleted throws when `checkDeleted`, and a
   * walk that would collect more blocks than `fuel` never ends.
   */
  ghost function WalkFrom(d: seq<Image>, cur: nat, checkDeleted: bool, acc: seq<nat>, fuel: nat): (r: Result<seq<nat>>)
    ensures r.Ok? ==> |acc| < |r.value| && r.value[|acc|] == cur
    ensures r.Ok? ==> forall k | 0 <= k < |acc| :: r.value[k] == acc[k]
    ensures r.Ok? ==> forall k | |acc| <= k < |r.value| :: r.value[k] < |d|
    decreases fuel
  {
    if cur >= |d| then Err(Generic)
    else if checkDeleted && d[cur].isDeleted == 1 then Err(InvalidData)
    else if fuel == 0 then Err(NonTermination)
    else
      var next := NextId(d, cur);
      if next == 0 then Ok(acc + [cur])
      else WalkFrom(d, next, checkDeleted, acc + [cur], fuel - 1)
  }

  /** A block that names the first block of a chain as its next extends the chain. */
  lemma ChainCons(d: seq<Image>, cur: nat, tail: seq<nat>)
    requires IsChain(d, tail) && cur < |d| && tail[0] != 0 && NextId(d, cur) == tail[0]
    ensures IsChain(d, [cur] + tail)
  {
    var ids := [cur] + tail;
    assert forall k | 1 <= k < |ids| :: ids[k] == tail[k - 1];
  }

  /** What WalkFrom collects extends `acc` by a chain starting at `cur`. */
  lemma {:induction false} WalkSound(d: seq<Image>, cur: nat, checkDeleted: bool, acc: seq<nat>, fuel: nat)
    requires WalkFrom(d, cur, checkDeleted, acc, fuel).Ok?
    ensures var ids := WalkFrom(d, cur, checkDeleted, acc, fuel).value;
      |acc| < |ids| && ids[..|acc|] == acc && ids[|acc|] == cur
      && IsChain(d, ids[|acc|..]) && (checkDeleted ==> NoneDeleted(d, ids[|acc|..]))
    decreases fuel, 1
  {
    var ids := WalkFrom(d, cur, checkDeleted, acc, fuel).value;
    assert ids[..|acc|] == acc;
    if NextId(d, cur) == 0 {
      assert ids[|acc|..] == [cur];
    } else {
      WalkSoundMore(d, cur, checkDeleted, acc, fuel, ids);
    }
  }

  /** WalkSound when the chain goes on past cur. */
  lemma {:induction false} WalkSoundMore(d: seq<Image>, cur: nat, checkDeleted: bool, acc: seq<nat>, fuel: nat, ids: seq<nat>)
    requires WalkFrom(d, cur, checkDeleted, acc, fuel) == Ok(ids) && cur < |d| && NextId(d, cur) != 0
    ensures |acc| < |ids| && ids[|acc|] == cur
      && IsChain(d, ids[|acc|..]) && (checkDeleted ==> NoneDeleted(d, ids[|acc|..]))
    decreases fuel, 0
  {
    var next := NextId(d, cur);
    var acc1 := acc + [cur];
    assert WalkFrom(d, next, checkDeleted, acc1, fuel - 1) == Ok(ids);
    WalkSound(d, next, checkDeleted, acc1, fuel - 1);
    assert |acc1| == |acc| + 1;
    WalkTail(d, ids, |acc|, cur, checkDeleted);
  }

  /** A chain after `cur` at position n + 1 of ids, with cur at position n, makes a chain from n. */
  lemma WalkTail(d: seq<Image>, ids: seq<nat>, n: nat, cur: nat, checkDeleted: bool)
    requires n + 1 < |ids| && ids[n] == cur && cur < |d| && ids[n + 1] != 0 && NextId(d, cur) == ids[n + 1]
    requires IsChain(d, ids[n + 1..]) && (checkDeleted ==> NoneDeleted(d, ids[n + 1..]) && d[cur].isDeleted != 1)
    ensures IsChain(d, ids[n..]) && (checkDeleted ==> NoneDeleted(d, ids[n..]))
  {
    var tail := ids[n + 1..];
    ChainCons(d, cur, tail);
    assert ids[n..] == [cur] + tail;
  }

  /** WalkFrom collects every chain that starts at its block and fits in its fuel. */
  lemma {:induction false} WalkComplete(d: seq<Image>, ids: seq<nat>, checkDeleted: bool, acc: seq<nat>, fuel: nat)
    requires IsChain(d, ids) && |ids| <= fuel && (checkDeleted ==> NoneDeleted(d, ids))
    ensures WalkFrom(d, ids[0], checkDeleted, acc, fuel) == Ok(acc + ids)
    decreases |ids|
  {
    if |ids| > 1 {
      assert IsChain(d, ids[1..]);
      WalkComplete(d, ids[1..], checkDeleted, acc + [ids[0]], fuel - 1);
      assert acc + [ids[0]] + ids[1..] == acc + ids;
    } else {
      assert acc + [ids[0]] == acc + ids;
    }
  }

  /** A link of a chain. */
  lemma ChainLink(d: seq<Image>, ids: seq<nat>, k: nat)
    requires IsChain(d, ids) && 1 <= k < |ids|
    ensures ids[k] != 0 && ids[k - 1] < |d| && NextId(d, ids[k - 1]) == ids[k]
  {
  }

  /** Two equal blocks in a chain are followed by equal blocks. */
  lemma {:induction false} ChainShift(d: seq<Image>, ids: seq<nat>, i: nat, j: nat, m: nat)
    requires IsChain(d, ids) && i < j && j + m < |ids| && ids[i] == ids[j]
    ensures ids[i + m] == ids[j + m]
  {
    if m > 0 {
      ChainShift(d, ids, i, j, m - 1);
      var a, b := i + m, j + m;
      assert NextId(d, ids[a - 1]) == ids[a] && NextId(d, ids[b - 1]) == ids[b];
    }
  }

  /** A chain visits no block twice: otherwise its end would be reached earlier. */
  lemma ChainDistinct(d: seq<Image>, ids: seq<nat>)
    requires IsChain(d, ids)
    ensures Distinct(ids)
  {
    forall i, j | 0 <= i < j < |ids|
      ensures ids[i] != ids[j]
    {
      if ids[i] == ids[j] {
        var m := |ids| - 1 - j;
        ChainShift(d, ids, i, j, m);
        ChainLink(d, ids, i + m + 1);
        assert false;
      }
    }
  }

  /** Pigeonhole: at most n distinct values below n. */
  lemma {:induction false} DistinctBound(s: seq<nat>, n: nat)
    requires Distinct(s) && forall i | 0 <= i < |s| :: s[i] < n
    ensures |s| <= n
    decreases |s|
  {
    if |s| > 0 {
      var x := s[0];
      var rest := s[1..];
      assert forall i | 0 <= i < |rest| :: rest[i] == s[i + 1] && rest[i] != x;
      // Rename the value n - 1, if rest holds it, to x: what remains lies below n - 1.
      var t := seq(|rest|, i requires 0 <= i < |rest| => if rest[i] == n - 1 then x else rest[i]);
      assert Distinct(t) by {
        forall i, j | 0 <= i < j < |t|
          ensures t[i] != t[j]
        {
          assert s[i + 1] != s[j + 1];
        }
      }
      DistinctBound(t, n - 1);
    }
  }

  /** A chain is no longer than the store. */
  lemma ChainLength(d: seq<Image>, ids: seq<nat>)
    requires IsChain(d, ids)
    ensures |ids| <= |d|
  {
    ChainDistinct(d, ids);
    DistinctBound(ids, |d|);
  }

  /** A chain without its first block is a chain. */
  lemma ChainTail(d: seq<Image>, ids: seq<nat>)
    requires IsChain(d, ids) && |ids| > 1
    ensures IsChain(d, ids[1..]) && ids[1..][0] == NextId(d, ids[0])
  {
    var tail := ids[1..];
    assert forall k | 0 <= k < |tail| :: tail[k] == ids[k + 1];
  }

  /** A chain is a single block exactly when its first block names no next block. */
  lemma ChainEnd(d: seq<Image>, ids: seq<nat>)
    requires IsChain(d, ids)
    ensures |ids| == 1 <==> NextId(d, ids[0]) == 0
  {
    if |ids| > 1 {
      ChainLink(d, ids, 1);
    }
  }

  /** The chain FindBlocks returns is the only chain from its first block. */
  lemma {:induction false} ChainUnique(d: seq<Image>, ids: seq<nat>, other: seq<nat>)
    requires IsChain(d, ids) && IsChain(d, other) && ids[0] == other[0]
    ensures ids == other
    decreases |ids|
  {
    ChainEnd(d, ids);
    ChainEnd(d, other);
    if NextId(d, ids[0]) != 0 {
      ChainTail(d, ids);
      ChainTail(d, other);
      ChainUnique(d, ids[1..], other[1..]);
      assert ids == [ids[0]] + ids[1..] && other == [other[0]] + other[1..];
    }
  }

  /** A chain is still a chain in a store that agrees on its blocks' NextBlockId. */
  lemma ChainFrame(d: seq<Image>, e: seq<Image>, ids: seq<nat>)
    requires IsChain(d, ids)
    requires forall k | 0 <= k < |ids| :: ids[k] < |e| && e[ids[k]].nextBlockId == d[ids[k]].nextBlockId
    ensures IsChain(e, ids)
  {
    assert forall k | 0 <= k < |ids| :: NextId(e, ids[k]) == NextId(d, ids[k]);
  }

  /** A chain without its last block is a chain where the block before that one ends it. */
  lemma ChainCut(d: seq<Image>, e: seq<Image>, ids: seq<nat>)
    requires IsChain(d, ids) && |ids| > 1
    requires forall k | 0 <= k < |ids| - 2 :: ids[k] < |e| && e[ids[k]].nextBlockId == d[ids[k]].nextBlockId
    requires ids[|ids| - 2] < |e| && NextId(e, ids[|ids| - 2]) == 0
    ensures IsChain(e, ids[..|ids| - 1])
  {
    var g := ids[..|ids| - 1];
    forall k | 1 <= k < |g|
      ensures g[k] != 0 && NextId(e, g[k - 1]) == g[k]
    {
      ChainLink(d, ids, k);
    }
  }

  /**
   * The free chain RecordStorage keeps as record 0, as FindBlocks(0) finds it; on an empty
   * store FindBlocks(0) first creates block 0.
   */
  ghost function FreeList(d: seq<Image>): Result<seq<nat>>
  {
    if |d| == 0 then Ok([0]) else WalkFrom(d, 0, false, [], |d|)
  }

  /** The free list is the chain from block 0 whenever there is one, and an error otherwise. */
  lemma FreeListIsChain(d: seq<Image>)
    requires |d| > 0
    ensures FreeList(d).Ok? ==> IsChain(d, FreeList(d).value) && FreeList(d).value[0] == 0
    ensures forall ids | IsChain(d, ids) && ids[0] == 0 :: FreeList(d) == Ok(ids)
  {
    if FreeList(d).Ok? {
      WalkSound(d, 0, false, [], |d|);
      assert FreeList(d).value[0..] == FreeList(d).value;
    }
    forall ids | IsChain(d, ids) && ids[0] == 0
      ensures FreeList(d) == Ok(ids)
    {
      ChainLength(d, ids);
      WalkComplete(d, ids, false, [], |d|);
      assert [] + ids == ids;
    }
  }
}
