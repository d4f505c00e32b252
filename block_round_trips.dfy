/**
 * BlockRoundTrips: what the block layer promises across calls. Content written is read back,
 * a header set is got back, and a disposed block's bytes are what a later Find sees.
 */
module BlockRoundTrips {
  import opened Bytes
  import opened Errors
  import opened BufferHelper
  import opened Storage

  /** Block.Write of some content followed by Block.Read of the same range returns that content. */
  method WriteThenRead(b: Block, data: seq<byte>, writeOffset: nat, buffer: array<byte>) returns (w: Status, r: Status)
    requires b.Usable() && !b.disposed && buffer !in b.storage.Repr
    requires 0 <= b.storage.blockHeaderSize && 0 < |data| == buffer.Length
    requires writeOffset + |data| <= b.storage.blockContentSize
    modifies b.firstSector, b`dirty, b.storage`stream, buffer
    ensures w == Done && r == Done && buffer[..] == data
  {
    w := b.Write(data, 0, writeOffset, |data|);
    assert data[0..|data|] == data;
    r := b.Read(buffer, 0, writeOffset, |data|);
    assert buffer[..] == buffer[..][0..|data|];
  }

  /** Block.SetHeader followed by Block.GetHeader of the same field returns the value set. */
  method SetThenGetHeader(b: Block, field: int, value: int64) returns (s: Status, r: Result<int64>)
    requires b.Usable() && !b.disposed
    requires 0 <= field < b.storage.blockHeaderSize / 8 && 8 * field + 8 <= b.storage.diskSectorSize
    modifies b.cachedHeaders, b.firstSector, b`dirty
    ensures s == Done && r == Ok(value)
  {
    ghost var v := b.View();
    s := b.SetHeader(field, value);
    ReadInt64AfterWrite(v, 8 * field, value);
    r := b.GetHeader(field);
  }

  /**
   * Block.Dispose followed by BlockStorage.Find of the same id: the block is loaded afresh from
   * the stream and shows the bytes the disposed block showed, its unsaved sector included.
   */
  method DisposeThenFind(b: Block) returns (c: Block?)
    requires b.Usable() && !b.disposed
    modifies b`disposed, b`dirty, b.storage`stream, b.storage`blocks, b.storage`Repr
    ensures c != null && c != b && c.Viewable() && c.View() == old(b.View())
  {
    var storage := b.storage;
    b.Dispose();
    c := storage.Find(b.id);
  }
}
