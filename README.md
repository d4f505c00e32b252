# RenDB storage engine in Dafny

This project models the core of RenDB, a small embedded database written in C#, and proves
properties of that model. It covers these layers, from the bottom up:

- **Byte codecs.** `LittleEndian` and `BufferHelper` convert integers to and from bytes. The
  key/value serializers handle `uint`, `int`, `Guid` and length-prefixed UTF-8 strings.
- **Blocks.** `BlockStorage` cuts a byte stream into fixed-size blocks. Block `id` starts at
  `id * blockSize`. The stream grows one block at a time, and the open blocks are kept in a
  registry. A `Block` caches its first disk sector and its five 64-bit header fields. It reads
  and writes its content partly through that cached sector and partly straight through the
  stream.
- **Records.** `RecordStorage` stores variable-length records as chains of blocks. The chains
  are linked both ways through the `NextBlockId` and `PreviousBlockId` headers. Record 0 heads
  the free chain: a deleted record is appended to its end, and new blocks are taken from its
  tail first.
- **The B-tree index.** `TreeNode` holds sorted entries and child ids. It inserts, splits, and
  removes by predecessor replacement, and it repairs an underflowing node by rotating from a
  sibling or by combining with one. Nodes refer to each other only by id, through a node
  manager:
  - `MemoryTreeNodeManager` keeps the nodes in a dictionary, modelled here as an arena of node
    values.
  - `DiskTreeNodeManager` keeps each node in a record, with a dirty table, a node cache, and
    the root id stored in record 1. `DiskTreeNodeSerializer` is the format of a node record.
- **Index operations.** `IndexTree` provides insert, both deletes, get, and ascending and
  descending scans, with and without a key matcher. `ListExtensions` supplies the
  first/last-occurrence binary searches they use. `TreeEnumerator`, `TreeScanner` and
  `TreeMatchScanner` walk the tree in key order.
- **Matchers and queries.** `IntMatcher` and `StringMatcher` are key predicates. `MatchGroup`
  combines them with AND and `MatchQuery` with OR. `DatabaseQuery` narrows a list of candidate
  record ids step by step.

State the source changes in place is modelled as Dafny classes that hold the same fields:
`BlockStorage`, `Block`, `RecordStorage`, `MemoryTreeNodeManager`, `DiskTreeNodeManager`,
`IndexTree`, `TreeEnumerator`, the matchers and `DatabaseQuery`. Each method that changes state
is proved against a specification function of the old state. The specification functions are
then described by lemmas: round trips, invariants kept, frames, and the error cases.

The defects of the source listed under "## Findings" are modelled twice:

- the code as written, with a lemma or a concrete input that exposes the defect;
- the evidently intended behaviour, which the rest of the model is built on.

The "## Model" rows for members that follow the intended behaviour say so.

## Model

| member | source | states |
|---|---|---|
| LittleEndian.NativeBytes | LittleEndian.cs:12 | BitConverter.GetBytes gives exactly n bytes, in the host's byte order |
| LittleEndian.GetBytes | LittleEndian.cs:10-40 | whichever the host's byte order, the four integer GetBytes overloads return the value's n little-endian bytes, least significant first |
| LittleEndian.GetValue | LittleEndian.cs:58-100 | on a little-endian host the reader takes the first n bytes; on a big-endian host it reverses the whole array and so reads the last n bytes |
| LittleEndian.GetBytesInt32 | LittleEndian.cs:10-16 | exactly 4 bytes: the two's-complement pattern of the int, least significant byte first, on either host |
| LittleEndian.GetBytesUInt32 | LittleEndian.cs:18-24 | exactly 4 bytes, least significant first, on either host |
| LittleEndian.GetBytesInt64 | LittleEndian.cs:26-32 | exactly 8 bytes: the two's-complement pattern of the long, least significant first, on either host |
| LittleEndian.GetBytesUInt64 | LittleEndian.cs:34-40 | exactly 8 bytes, least significant first, on either host |
| LittleEndian.GetInt32 | LittleEndian.cs:58-67 | the signed value of the first 4 bytes on a little-endian host, or of the last 4 on a big-endian one |
| LittleEndian.GetUInt32 | LittleEndian.cs:69-78 | the value of the first 4 bytes on a little-endian host, or of the last 4 on a big-endian one |
| LittleEndian.GetInt64 | LittleEndian.cs:80-89 | the signed value of the first 8 bytes on a little-endian host, or of the last 8 on a big-endian one |
| LittleEndian.GetUInt64 | LittleEndian.cs:91-100 | the value of the first 8 bytes on a little-endian host, or of the last 8 on a big-endian one |
| LittleEndian.Int32RoundTrip | LittleEndian.cs:10-67 | GetInt32(GetBytes(x)) == x for every int, whatever the byte order of the writing and of the reading host |
| LittleEndian.UInt32RoundTrip | LittleEndian.cs:18-78 | GetUInt32(GetBytes(x)) == x for every uint, on hosts of either order |
| LittleEndian.Int64RoundTrip | LittleEndian.cs:26-89 | GetInt64(GetBytes(x)) == x for every long, on hosts of either order |
| LittleEndian.UInt64RoundTrip | LittleEndian.cs:34-100 | GetUInt64(GetBytes(x)) == x for every ulong, on hosts of either order |
| LittleEndian.ReadersHostIndependent | LittleEndian.cs:60-66 | on an array exactly as wide as the value, both branches of each reader give the same value |
| LittleEndian.ReadersDependOnHostForLongerArrays | LittleEndian.cs:71-77 | on the 5-byte array [1,0,0,0,0], GetUInt32 reads 1 on a little-endian host and 0 on a big-endian one |
| BufferHelper.BlockCopy | BufferHelper.cs:14 | Buffer.BlockCopy replaces the count bytes of dst at dstOffset with src's bytes at srcOffset, and every other byte of dst stays as it was |
| BufferHelper.ReadGuid | BufferHelper.cs:11-16 | the Guid whose 16-byte form is buffer[offset..offset+16] |
| BufferHelper.ReadInt32 | BufferHelper.cs:18-23 | the signed little-endian value of buffer[offset..offset+4]; the buffer is a value and is not changed |
| BufferHelper.ReadUInt32 | BufferHelper.cs:25-30 | the little-endian value of buffer[offset..offset+4] |
| BufferHelper.ReadInt64 | BufferHelper.cs:32-37 | the signed little-endian value of buffer[offset..offset+8] |
| BufferHelper.ReadUInt64 | BufferHelper.cs:39-44 | the little-endian value of buffer[offset..offset+8] |
| BufferHelper.Int32Bytes | BufferHelper.cs:62 | the 4 bytes WriteBuffer(int) copies, which are the same on hosts of either order |
| BufferHelper.UInt32Bytes | BufferHelper.cs:67 | the 4 bytes WriteBuffer(uint) copies, the same on either host |
| BufferHelper.Int64Bytes | BufferHelper.cs:72 | the 8 bytes WriteBuffer(long) copies, the same on either host |
| BufferHelper.UInt64Bytes | BufferHelper.cs:77 | the 8 bytes WriteBuffer(ulong) copies, the same on either host |
| BufferHelper.WriteBufferInt32 | BufferHelper.cs:60-63 | exactly buffer[offset..offset+4] becomes the value's bytes; every other byte is unchanged |
| BufferHelper.WriteBufferUInt32 | BufferHelper.cs:65-68 | exactly buffer[offset..offset+4] becomes the value's bytes; every other byte is unchanged |
| BufferHelper.WriteBufferInt64 | BufferHelper.cs:70-73 | exactly buffer[offset..offset+8] becomes the value's bytes; every other byte is unchanged |
| BufferHelper.WriteBufferUInt64 | BufferHelper.cs:75-78 | exactly buffer[offset..offset+8] becomes the value's bytes; every other byte is unchanged |
| BufferHelper.ReadInt32AfterWrite | BufferHelper.cs:18-63 | ReadInt32 at the offset of a WriteBuffer(int) returns the value written |
| BufferHelper.ReadUInt32AfterWrite | BufferHelper.cs:25-68 | ReadUInt32 after WriteBuffer(uint) at the same offset returns the value written |
| BufferHelper.ReadInt64AfterWrite | BufferHelper.cs:32-73 | ReadInt64 after WriteBuffer(long) at the same offset returns the value written |
| BufferHelper.ReadUInt64AfterWrite | BufferHelper.cs:39-78 | ReadUInt64 after WriteBuffer(ulong) at the same offset returns the value written |
| BufferHelper.ReadInt64Disjoint | BufferHelper.cs:32-37 | an 8-byte read that does not overlap a write returns what it returned before the write |
| Guids.FromByteArray | BufferHelper.cs:15 | new Guid(bytes) on 16 bytes is the Guid whose ToByteArray gives those bytes back |
| Guids.FromToByteArray | Serializers/GuidSerializer.cs:43-57 | new Guid(g.ToByteArray()) == g |
| Utf8.EncodeChar | Serializers/StringSerializer.cs:46 | Encoding.UTF8 writes one character as 1 to 4 bytes |
| Utf8.Encode | Serializers/StringSerializer.cs:46 | Encoding.UTF8.GetBytes: between one and four bytes per character |
| Utf8.Decode | Serializers/StringSerializer.cs:65-67 | Encoding.UTF8.GetString yields at most one character per byte |
| Utf8.DecodeEncode | Serializers/StringSerializer.cs:46-67 | decoding the UTF-8 bytes of s gives s back |
| Utf8.EncodeAppend | Serializers/StringSerializer.cs:46 | the encoding of s + t is the encoding of s followed by that of t |
| Serializers.CopyCheck | BufferHelper.cs:14-21 | Buffer.BlockCopy's checks pass exactly when offset >= 0 and offset + count <= the data's length |
| Serializers.UintSerialize | Serializers/UintSerializer.cs:43-46 | the 4 little-endian bytes of the value |
| Serializers.UintDeserialize | Serializers/UintSerializer.cs:51-54 | succeeds exactly when the 4 bytes at offset exist, and then reads them as a little-endian uint; the length is ignored |
| Serializers.UintRoundTrip | Serializers/UintSerializer.cs:43-54 | Deserialize of Serialize(x), found at any offset inside a larger buffer, is x |
| Serializers.UintSound | Serializers/UintSerializer.cs:28-54 | fixed size 4 and the round trip at any offset, as the node serializer relies on |
| Serializers.IntSerialize | Serializers/IntSerializer.cs:42-45 | the 4 two's-complement little-endian bytes of the value |
| Serializers.IntDeserialize | Serializers/IntSerializer.cs:50-53 | succeeds exactly when the 4 bytes at offset exist, and then reads them as a signed little-endian int |
| Serializers.IntRoundTrip | Serializers/IntSerializer.cs:42-53 | Deserialize of Serialize(x) at any offset is x |
| Serializers.IntSound | Serializers/IntSerializer.cs:27-53 | fixed size 4 and the round trip at any offset |
| Serializers.GuidSerialize | Serializers/GuidSerializer.cs:43-46 | the Guid's 16 bytes |
| Serializers.GuidDeserialize | Serializers/GuidSerializer.cs:51-57 | a length other than 16 is ArgumentException; otherwise it succeeds exactly when the 16 bytes at offset exist, and returns the Guid with those bytes |
| Serializers.GuidRoundTrip | Serializers/GuidSerializer.cs:43-57 | Deserialize of Serialize(x), with length 16, at any offset is x |
| Serializers.GuidSound | Serializers/GuidSerializer.cs:28-57 | fixed size 16 and the round trip at any offset |
| Serializers.StringBytes | Serializers/StringSerializer.cs:44-58 | 4 + n bytes: the little-endian UTF-8 byte count n, then the n UTF-8 bytes |
| Serializers.StringSerialize | Serializers/StringSerializer.cs:44-58 | the new buffer holds the length prefix, which reads back as the byte count, followed by the encoded bytes |
| Serializers.StringDeserialize | Serializers/StringSerializer.cs:63-68 | decodes bytes offset+4 .. offset+length and does not read the stored prefix; out-of-range arguments are ArgumentOutOfRange |
| Serializers.StringRoundTrip | Serializers/StringSerializer.cs:44-68 | Deserialize of Serialize(x), with its full length, at any offset is x |
| Serializers.StringSound | Serializers/StringSerializer.cs:29-68 | the round trip at any offset holds; the serializer is not fixed-size |
| ListExtensions.BinarySearch | Internal/Extensions/ListExtensions.cs:19 | List<T>.BinarySearch returns an index whose element compares level with the value, or a negative number that complements an index in 0..Count |
| ListExtensions.Search | Internal/Extensions/ListExtensions.cs:19 | a round of the halving search over [lo, hi]: a hit lies in the window and compares level; a miss complements an index in lo..hi+1 |
| ListExtensions.SortedBracketed | Internal/Extensions/ListExtensions.cs:13-49 | in a list sorted by a lawful comparer, the elements below, level with and above any value form three consecutive runs |
| ListExtensions.SearchInsertionPoint | Internal/Extensions/ListExtensions.cs:19 | on a bracketed list the halving search hits inside the level run, or misses exactly at its start |
| ListExtensions.BinarySearchFindsPresent | Internal/Extensions/ListExtensions.cs:19 | on a sorted list the search hits exactly when some element is level with the value; on a miss everything before the insertion point is below it and everything from that point on is above it |
| ListExtensions.OccurrenceBounds | Internal/Extensions/ListExtensions.cs:13-49 | on a sorted list BinarySearchFirst returns the first index of the run of level elements, or on a miss the complement of where that run would start; BinarySearchLast returns the last index of the run |
| ListExtensions.RemoveRange | Internal/Extensions/ListExtensions.cs:8-11 | fails with ArgumentOutOfRange unless 0 <= from <= Count; otherwise keeps exactly the first `from` elements, unchanged |
| ListExtensions.BackToFirst | Internal/Extensions/ListExtensions.cs:22-27 | walking back from a hit ends at an index where everything up to the hit is level and the element before, if any, is not |
| ListExtensions.OnToLast | Internal/Extensions/ListExtensions.cs:41-46 | walking on from a hit ends at an index where everything from the hit is level and the element after, if any, is not |
| ListExtensions.FirstOccurrence | Internal/Extensions/ListExtensions.cs:13-30 | a miss is returned unchanged; after a hit, an index r at or before it where every element from r to the hit is level and r is 0 or follows an element that is not level |
| ListExtensions.LastOccurrence | Internal/Extensions/ListExtensions.cs:32-49 | a miss is returned unchanged; after a hit, an index r at or after it where every element from the hit to r is level and r is the last index or precedes an element that is not level |
| ListExtensions.BinarySearchFirst | Internal/Extensions/ListExtensions.cs:13-30 | a null comparer is ArgumentNullException; otherwise the loop returns the first occurrence described above |
| ListExtensions.BinarySearchLast | Internal/Extensions/ListExtensions.cs:32-49 | a null comparer is ArgumentNullException; otherwise the loop returns the last occurrence described above |
| ListExtensions.OccurrencesBracket | Internal/Extensions/ListExtensions.cs:13-49 | on a sorted list with a hit, everything before the first occurrence is below the value, everything from first to last is level, and everything after the last is above |
| Comparers.Reflexive | Internal/Tree/TreeEntryComparer.cs:16-19 | a lawful comparer finds every value level with itself |
| Comparers.StrictTransitive | Internal/Tree/TreeEntryComparer.cs:16-19 | combining "at most" with "strictly below", in either order, gives "strictly below" |
| TreeEntryComparer.CompareByKeyOnly | Internal/Tree/TreeEntryComparer.cs:16-19 | two entries compare as their keys do, whatever their values |
| TreeEntryComparer.EqualKeysCompareZero | Internal/Tree/TreeEntryComparer.cs:16-19 | entries with the same key compare level |
| TreeEntryComparer.EntryComparerIsComparer | Internal/Tree/TreeEntryComparer.cs:6-19 | the entry comparer obeys the comparer laws whenever the key comparer does |
| TreeEntryComparer.Keys | Internal/Tree/TreeEntryComparer.cs:18 | the keys of a list of entries, in order, one for each entry |
| TreeEntryComparer.BinarySearchByKey | Internal/Tree/TreeEntryComparer.cs:16-19 | List.BinarySearch over entries with the entry comparer gives the same result as the search of their keys |
| Storage.BlockBytes | Internal/Storage/Block.cs:116-151 | a block's bytes are its in-memory first sector followed by the stream past that sector, exactly blockSize bytes |
| Storage.ReadChunks | Internal/Storage/Block.cs:145-151 | Stream.Read in chunks of at most one sector copies exactly the stream's bytes at the position into the buffer and changes nothing else |
| Storage.BlockStorage.OffsetMono | Internal/Storage/BlockStorage.cs:79 | a block with a smaller id ends at or before the start of a block with a larger id |
| Storage.BlockStorage.BlocksDisjoint | Internal/Storage/BlockStorage.cs:79 | the byte ranges of two distinct block ids do not overlap |
| Storage.BlockStorage.New | Internal/Storage/BlockStorage.cs:49-67 | a header not smaller than the block, or a block smaller than 128 bytes, is refused with ArgumentException; otherwise a valid storage with no open blocks over the given stream |
| Storage.BlockStorage.constructor | Internal/Storage/BlockStorage.cs:60-66 | content size is block size minus header size; the disk sector is 128 bytes for blocks under 4096 bytes and 4096 otherwise |
| Storage.BlockStorage.OnBlockInitialized | Internal/Storage/BlockStorage.cs:121-125 | the block is registered under its id, overriding any earlier entry |
| Storage.BlockStorage.OnBlockDisposed | Internal/Storage/BlockStorage.cs:130-134 | the id leaves the table of open blocks |
| Storage.BlockStorage.Find | Internal/Storage/BlockStorage.cs:72-91 | an open block is returned as it is; an id whose block does not fit the stream gives null; otherwise a new clean registered block whose bytes are the stream's bytes at id * blockSize |
| Storage.BlockStorage.CreateNew | Internal/Storage/BlockStorage.cs:96-116 | a stream whose length is not a multiple of the block size is refused with DataMisalignedException and nothing changes; otherwise the stream grows by one zeroed block whose id is the old length / blockSize, and the new block is registered and reads as zeros |
| Storage.BlockStorage.Grow | Internal/Storage/BlockStorage.cs:109 | Stream.SetLength past the end appends zero bytes and keeps every open block valid |
| Storage.BlockStorage.WriteChunks | Internal/Storage/Block.cs:202-207 | writing at most one sector per Stream.Write stores the bytes at the position in the stream, as one write of the whole range |
| Storage.BlockStorage.FlushSector | Internal/Storage/Block.cs:222-227 | the first sector is written over the stream at the block's start and the block becomes clean |
| Storage.Block.View | Internal/Storage/Block.cs:10-17 | what a block's readers see: blockSize bytes, the in-memory sector first |
| Storage.Block.constructor | Internal/Storage/Block.cs:34-53 | a new block has five empty reserved header caches and is neither dirty nor disposed |
| Storage.Block.GetHeader | Internal/Storage/Block.cs:63-79 | a disposed block gives ObjectDisposedException, a negative field IndexOutOfRangeException, a field past the header (or past the sector) ArgumentException; otherwise the little-endian long at byte 8 * field of the block, whether served from the cache or read afresh |
| Storage.Block.CachedHeader | Internal/Storage/Block.cs:73-77 | a reserved header read through the cache, filled on first use, equals the header's bytes |
| Storage.Block.SetHeader | Internal/Storage/Block.cs:84-97 | disposed and negative field fail as in GetHeader, with no upper bound against the header size; on success the block's bytes at 8 * field are the value's eight little-endian bytes and the block is dirty; on failure nothing changes |
| Storage.Block.WriteHeader | Internal/Storage/Block.cs:91-96 | the header write keeps every cached header equal to the bytes it caches |
| Storage.Block.Read | Internal/Storage/Block.cs:102-152 | as intended, with the end of the read checked against the content size (see Findings): the argument checks of Block.Read and of the copies it makes, in order; on success the buffer receives exactly the block's content bytes [readOffset, readOffset + length) at bufferOffset and nothing else in it changes; on failure the buffer is unchanged (with the first-sector test corrected, see Findings) |
| Storage.Block.ReadFromSector | Internal/Storage/Block.cs:119-151 | a read starting in the first sector takes the sector part from memory and the rest from the stream, giving the block's bytes over the whole range |
| Storage.Block.Write | Internal/Storage/Block.cs:157-209 | as intended, with each later sector taken from its own part of the buffer (see Findings): the argument checks of Block.Write in order; on success the block's bytes at headerSize + writeOffset become the buffer's bytes [bufferOffset, bufferOffset + length), the sector becomes dirty exactly when the write starts inside it, the stream receives the part past the sector at its block position and nothing else changes (with the buffer offset of the stream loop corrected, see Findings) |
| Storage.Block.WriteAcross | Internal/Storage/Block.cs:172-208 | a write that starts in the sector and ends past it splits into a sector part and a stream part whose combined effect is one write of the whole range |
| Storage.Block.Dispose | Internal/Storage/Block.cs:211-232 | a second Dispose changes nothing; the first writes a dirty sector back to the stream, leaves the block clean, removes it from the storage's table, and leaves the block's bytes in the stream exactly as its readers saw them |
| Storage.Block.WriteBack | Internal/Storage/Block.cs:222-227 | after the write-back the stream holds the block's bytes as they were viewed, whether or not the sector was dirty |
| StorageDefects.ReadAsWrittenOnCleanBlock | Internal/Storage/Block.cs:113-151 | as written, Block.Read is right on a clean block: when the in-memory sector equals the stream, the bytes it delivers are the block's bytes over the requested range |
| StorageDefects.ReadDefectExample | Internal/Storage/Block.cs:116 | on a 256-byte block with a 40-byte header whose in-memory sector holds a 1 at the first content byte, the read as written returns [0] while the block's content begins with 1 |
| StorageDefects.WriteChunksAsWrittenWrites | Internal/Storage/Block.cs:201-207 | when every chunk lies in the buffer, the as-written loop of Stream.Write calls is one write of the whole range |
| StorageDefects.StreamWriteAsWrittenWhenOffsetsAgree | Internal/Storage/Block.cs:188-208 | when bufferOffset equals writeOffset, the stream part of the write as written stores what the intended write stores |
| StorageDefects.StreamWriteDefectExample | Internal/Storage/Block.cs:194-204 | a 200-byte write from buffer position 100 at content offset 0 of a 256-byte block with a 40-byte header: the stream should get buffer[188..300] after the sector, but the write as written takes buffer[88..200] |
| BlockRoundTrips.WriteThenRead | Internal/Storage/Block.cs:102-209 | Block.Write of some content at an offset followed by Block.Read of the same range succeeds and returns that content |
| BlockRoundTrips.SetThenGetHeader | Internal/Storage/Block.cs:63-97 | Block.SetHeader of a header field followed by Block.GetHeader of the same field returns the value set |
| BlockRoundTrips.DisposeThenFind | Internal/Storage/Block.cs:211-232 | after Block.Dispose, BlockStorage.Find of the same id loads a new block whose bytes are those the disposed block showed, its unsaved sector included |
| RecordBlocks.ImageOfGetHeader | Internal/Storage/RecordStorage.cs:237-266 | Block.GetHeader of one of the five record fields reads that field of the block's image |
| RecordBlocks.ImageOfSetHeader | Internal/Storage/RecordStorage.cs:45-49 | Block.SetHeader of one of the five fields changes that field of the image and nothing else |
| RecordBlocks.ImageOfWrite | Internal/Storage/RecordStorage.cs:92 | a content write at an offset splices the image's content and keeps its five header fields |
| RecordBlocks.ImageOfRead | Internal/Storage/RecordStorage.cs:262 | a content read from offset 0 reads the start of the image's content |
| RecordBlocks.ImageOfZeros | Internal/Storage/BlockStorage.cs:109-113 | a block BlockStorage.CreateNew has just made has all five fields zero and zero content |
| RecordBlocks.WalkSound | Internal/Storage/RecordStorage.cs:295-331 | whatever the FindBlocks loop collects is a chain linked by NextBlockId starting at the block it began with, with no deleted block when it looks for a record other than 0 |
| RecordBlocks.WalkComplete | Internal/Storage/RecordStorage.cs:295-331 | the FindBlocks loop finds every such chain that fits in its step bound |
| RecordBlocks.ChainDistinct | Internal/Storage/RecordStorage.cs:303-319 | a chain that ends at a block naming no next block visits no block twice |
| RecordBlocks.ChainLength | Internal/Storage/RecordStorage.cs:303-319 | such a chain is no longer than the store, so the model's step bound never cuts off a real chain |
| RecordBlocks.ChainUnique | Internal/Storage/RecordStorage.cs:303-319 | two chains from the same first block are the same chain |
| RecordBlocks.FreeListIsChain | Internal/Storage/RecordStorage.cs:282-290 | the free list is the chain from block 0 whenever there is one, and an error otherwise |
| RecordSpec.CreateNewSpec | Internal/Storage/BlockStorage.cs:96-116 | on an aligned stream a zeroed block is appended and its id is the old block count; on a misaligned one DataMisalignedException and no change |
| RecordSpec.FindBlocksSpec | Internal/Storage/RecordStorage.cs:295-331 | the store is unchanged except that looking up record 0 on an empty store creates block 0; a found chain starts at the id and names only existing blocks |
| RecordSpec.TrackerSpec | Internal/Storage/RecordStorage.cs:395-424 | the last block of the free chain, and the one before it when the chain is longer than block 0; when there is none before, the last block is block 0 |
| RecordSpec.TryGetSpec | Internal/Storage/RecordStorage.cs:365-390 | a block handed out for reuse is never block 0 and exists in the store |
| RecordSpec.AllocateSpec | Internal/Storage/RecordStorage.cs:336-360 | the block allocated is never block 0 and exists afterwards; at most one block (two on an empty store) is added |
| RecordSpec.DeleteSpec | Internal/Storage/RecordStorage.cs:191-220 | Delete, with MarkAsReusable as intended, adds at most one block (block 0 on an empty store) and keeps every block's size |
| RecordSpec.StoreSpec | Internal/Storage/RecordStorage.cs:74-123 | storing data as record id returns id and adds at most one block per byte |
| RecordSpec.CreateSpec | Internal/Storage/RecordStorage.cs:68-125 | a created record's id is positive and inside the store, which grows by at most the data's length plus two blocks |
| RecordSpec.UpdateBlock | Internal/Storage/RecordStorage.cs:159-169 | one pass of Update's writes touches only the target block and the block before it |
| RecordSpec.UpdateStep | Internal/Storage/RecordStorage.cs:140-174 | one pass of Update's loop adds at most one block, and the block it writes and every block of the grown chain exist |
| RecordSpec.UpdateSpec | Internal/Storage/RecordStorage.cs:130-186 | Update, as intended, grows the store by at most the data's length plus two blocks and keeps every block's size; its later chunks use the intended Block.Write and its trailing Delete the intended MarkAsReusable (see Findings) |
| RecordStore.RecordStorage.Open | Internal/Storage/RecordStorage.cs:14-26 | refused with ArgumentException exactly when the block header is smaller than the five 8-byte fields |
| RecordStore.RecordStorage.CreateNew | Internal/Storage/BlockStorage.cs:96-116 | the store after the call is the one RecordSpec.CreateNewSpec gives |
| RecordStore.RecordStorage.FindBlocks | Internal/Storage/RecordStorage.cs:295-331 | the result and the store after the loop are those of RecordSpec.FindBlocksSpec, the walk WalkSound and WalkComplete characterise |
| RecordStore.RecordStorage.GetSpaceTrackerBlock | Internal/Storage/RecordStorage.cs:395-424 | result and store as RecordSpec.TrackerSpec gives them |
| RecordStore.RecordStorage.TryGetReusableBlock | Internal/Storage/RecordStorage.cs:365-390 | result and store as RecordSpec.TryGetSpec gives them: the last free block is detached unless it is block 0 |
| RecordStore.RecordStorage.AllocateBlock | Internal/Storage/RecordStorage.cs:336-360 | result and store as RecordSpec.AllocateSpec gives them: a recycled block with its five headers zeroed, or a new block |
| RecordStore.RecordStorage.MarkAsReusable | Internal/Storage/RecordStorage.cs:430-462 | result and store as RecordSpec.MarkSpec gives them, as intended (its read of NextBlockId moved before the clear, see Findings); a block GetSpaceTrackerBlock has disposed fails with ObjectDisposed |
| RecordStore.RecordStorage.CreateEmpty | Internal/Storage/RecordStorage.cs:31-36 | a record of one new zeroed block |
| RecordStore.RecordStorage.CreateWithHeaders | Internal/Storage/RecordStorage.cs:41-52 | a new block whose five headers hold the given values |
| RecordStore.RecordStorage.Create | Internal/Storage/RecordStorage.cs:68-125 | result and store as RecordSpec.CreateSpec gives them; RecordLemmas.CreateStores and CreateThenFind say what they mean |
| RecordStore.RecordStorage.CreateFrom | Internal/Storage/RecordStorage.cs:57-63 | Create(data) is Create with a provider that always returns data |
| RecordStore.RecordStorage.Delete | Internal/Storage/RecordStorage.cs:191-220 | result and store as RecordSpec.DeleteSpec gives them; RecordDelete.DeleteRecord says what they mean |
| RecordStore.RecordStorage.Find | Internal/Storage/RecordStorage.cs:225-277 | null for record 0, a missing block, a deleted block or a continuation block; NotSupportedException past 1 GiB; otherwise the bytes the chain holds, as RecordSpec.FindSpec gives them |
| RecordStore.RecordStorage.GetDeletedId | Internal/Storage/RecordStorage.cs:282-290 | the ids of the chain from block 0 without block 0 itself |
| RecordStore.RecordStorage.Update | Internal/Storage/RecordStorage.cs:130-186 | result and store as RecordSpec.UpdateSpec gives them, as intended: chunks written over the record's chain in order, blocks allocated past its end, the unused rest deleted (as written, later chunks meet the Block.cs:204 defect and only the first unused block is freed, see Findings) |
| RecordLemmas.FindBlocksChain | Internal/Storage/RecordStorage.cs:295-331 | FindBlocks on a non-empty store changes nothing and returns a chain from the id, undeleted for a record other than 0; and every such chain is what it returns |
| RecordLemmas.TrackerIsFreeChainEnd | Internal/Storage/RecordStorage.cs:395-424 | GetSpaceTrackerBlock returns the last block of the free chain and the one before it, and GetDeletedId lists the free chain after block 0 |
| RecordLemmas.AllocateFromFreeChain | Internal/Storage/RecordStorage.cs:336-390 | with a free chain longer than block 0, allocation takes its last block, zeroes that block's headers, ends the chain at the block before, and changes no other block |
| RecordLemmas.AllocateFresh | Internal/Storage/RecordStorage.cs:342-346 | with block 0 alone on the free chain, allocation creates a new block and the free chain stays as it was |
| RecordLemmas.FirstAllocation | Internal/Storage/RecordStorage.cs:307-346 | on an empty stream the first allocation creates block 0 for the free chain and then block 1: the first record is record 1 |
| RecordLemmas.FindStored | Internal/Storage/RecordStorage.cs:225-277 | Find of a record whose chain holds data, block by block with the right content lengths, returns exactly data |
| RecordLemmas.AllocateStep | Internal/Storage/RecordStorage.cs:336-360 | allocation succeeds unless it must create a block on a misaligned stream; the block is blank, taken off the free chain or new, and no block outside the free chain changes |
| RecordLemmas.FillSucceeds | Internal/Storage/RecordStorage.cs:86-120 | on an aligned stream the loop of Create always finishes |
| RecordLemmas.FillHolds | Internal/Storage/RecordStorage.cs:86-120 | when the loop of Create finishes, the chain from its first block holds the data, and blocks outside the free chain other than that first block are untouched |
| RecordLemmas.CreateStores | Internal/Storage/RecordStorage.cs:68-125 | on an aligned stream Create succeeds, the record it returns stores exactly the provider's data for that id, the free list is still a chain without that record, and no other block outside it changes |
| RecordLemmas.CreateThenFind | Internal/Storage/RecordStorage.cs:68-277 | a record Create stores (at most 1 GiB) is found again by Find with the same bytes |
| RecordDelete.MarkStep | Internal/Storage/RecordStorage.cs:430-462 | MarkAsReusable of a block off the free chain links it after the last free block, ends the free chain there, and returns the NextBlockId the block had |
| RecordDelete.DeleteChain | Internal/Storage/RecordStorage.cs:195-218 | the loop of Delete over a chain apart from the free chain appends every block of it, in order, to the free chain and flags each deleted, changing nothing else |
| RecordDelete.DeleteRecord | Internal/Storage/RecordStorage.cs:191-220 | Delete of a stored record completes; the record's blocks, in order, end the free chain and are flagged deleted; no other block outside the free chain changes |
| RecordDelete.DeleteThenFind | Internal/Storage/RecordStorage.cs:191-360 | after Delete(id), Find(id) is null, GetDeletedId lists the record's blocks after those free before, and the next allocation reuses the record's last block |
| RecordDefects.DeleteAsWrittenStops | Internal/Storage/RecordStorage.cs:447-450 | as written, MarkAsReusable clears NextBlockId before reading it, so Delete recycles the first block and stops whatever the block named as next |
| RecordDelete.DeleteFreeBlockThrows | Internal/Storage/RecordStorage.cs:191-220 | Delete of a block already on the free chain fails with ObjectDisposed and leaves it unflagged: one of the last two free blocks is first relinked after the last, any other only gets named by the last block's NextBlockId |
| RecordDelete.DeleteZeroThrows | Internal/Storage/RecordStorage.cs:191-220 | Delete(0) on a store with a free chain fails with ObjectDisposed, since block 0 heads that chain |
| RecordDelete.DeleteTwiceThrows | Internal/Storage/RecordStorage.cs:191-220 | deleting a stored record a second time fails with ObjectDisposed |
| RecordDefects.DeleteAsWrittenLeaks | Internal/Storage/RecordStorage.cs:430-462 | deleting, as written, a stored record of two or more blocks frees only its first block: GetDeletedId lists it alone after the blocks free before, and the second block stays as it was, neither free nor flagged |
| RecordWriteDefects.SectorSizeFor | Internal/Storage/BlockStorage.cs:66 | the sector is 128 bytes exactly for blocks under 4096 bytes, and otherwise 4096 |
| RecordWriteDefects.ContentInFirstSector | Internal/Storage/BlockStorage.cs:66 | a block's content lies wholly in its first sector exactly for the block sizes 128 and 4096 |
| RecordWriteDefects.FirstChunkAsIntended | Internal/Storage/Block.cs:157-209 | the first chunk of a record is written as intended even by Block.Write as written |
| RecordWriteDefects.LaterChunkAsWritten | Internal/Storage/Block.cs:194-204 | a later chunk reaching past the first sector gets, as written, bytes from the start of the data instead of its own bytes past the sector |
| RecordWriteDefects.SecondChunkExample | Internal/Storage/Block.cs:204 | with a 316-byte record in 256-byte blocks whose last 12 bytes are 1, the second block's byte 128 should be 1 but Block.Write as written puts a 0 there |
| TreeArena.MaxEntries | Internal/Tree/MemoryTreeNodeManager.cs:31-33 | MaxEntriesPerNode is twice MinEntriesPerNode cast back to ushort: it always fits 16 bits, and is exactly 2 * min whenever min is below 2^15 |
| TreeArena.Initial | Internal/Tree/MemoryTreeNodeManager.cs:57-66 | the constructor leaves a consistent manager holding the empty root with id 1 |
| TreeArena.Create | Internal/Tree/MemoryTreeNodeManager.cs:71-82 | the new node takes the counter as its id, has parent 0 and the given entries and children, the counter moves on by one and the dictionary maps the id to the node |
| TreeArena.Find | Internal/Tree/MemoryTreeNodeManager.cs:87-92 | the node the dictionary holds for the id, and ArgumentException exactly when it holds none |
| TreeArena.MakeRoot | Internal/Tree/MemoryTreeNodeManager.cs:111-114 | the root becomes the node and nothing else changes |
| TreeArena.CreateNewRoot | Internal/Tree/MemoryTreeNodeManager.cs:97-106 | a new node holding the single entry between the two children, made the root |
| TreeArena.Delete | Internal/Tree/MemoryTreeNodeManager.cs:127-133 | the id leaves the dictionary and the root is cleared when it was that node; nothing else changes |
| TreeArena.CreateThenFind | Internal/Tree/MemoryTreeNodeManager.cs:71-92 | after Create, Find of the new id gives the new node with parent 0, the id was never used, and every other id is found as before |
| TreeArena.CreateIdsIncrease | Internal/Tree/MemoryTreeNodeManager.cs:75 | two creations in a row give consecutive ids starting at the counter |
| TreeArena.InitialRoot | Internal/Tree/MemoryTreeNodeManager.cs:64-65 | the constructor's root is the empty node 1 and the next node created is node 2 |
| TreeArena.DeleteThenFind | Internal/Tree/MemoryTreeNodeManager.cs:87-133 | after Delete, Find of the id throws ArgumentException and every other id is found as before |
| TreeNodes.RemoveAt | Internal/Tree/TreeNode.cs:259 | List.RemoveAt(i): one element fewer, those before i in place and those after moved down by one |
| TreeNodes.InsertAtShifts | Internal/Tree/TreeNode.cs:131-148 | List.Insert(i, x): the elements before i stay in place, and those from i on move up by one |
| TreeNodes.IndexOf | Internal/Tree/TreeNode.cs:331-335 | the loop of IndexInParent: the first position holding x, or -1 when no position does |
| TreeNodes.KeySearch | Internal/Tree/TreeNode.cs:342-348 | BinarySearch(key) returns a position holding an entry whose key compares equal to key, or a negative complement of an insertion point |
| TreeNodes.InsertAsLeaf | Internal/Tree/TreeNode.cs:127-133 | List.Insert into the entries at index, ArgumentOutOfRangeException outside 0..count with nothing changed |
| TreeNodes.ReparentEffect | Internal/Tree/TreeNode.cs:184-188 | the re-parenting loop succeeds exactly when every id is found, and then exactly those nodes name the new parent; a node's other fields never change |
| TreeNodes.FindLargest | Internal/Tree/TreeNode.cs:291-303 | the walk down the last children ends at a leaf and that leaf's last index; a missing child gives ArgumentException |
| TreeNodes.FindSmallest | Internal/Tree/TreeNode.cs:308-320 | the walk down the first children ends at a leaf and index 0 |
| TreeNodes.IndexInParent | Internal/Tree/TreeNode.cs:325-337 | the first position of the node in its parent's children; ArgumentException when the parent is not found and an Exception when the node is not among its children |
| TreeNodes.RightSibling | Internal/Tree/TreeNode.cs:542-548 | the child after position i of the parent, which exists, or null |
| TreeNodes.LeftSibling | Internal/Tree/TreeNode.cs:553-559 | the child before position i of the parent, which exists, or null when i is 0 |
| TreeNodes.Remove | Internal/Tree/TreeNode.cs:252-286 | an index outside the entries gives ArgumentOutOfRangeException and changes nothing; no id is created or dropped from the node objects |
| TreeNodeLemmas.LeafAndOverflow | Internal/Tree/TreeNode.cs:63-72 | a node is a leaf exactly when it has no children, and overflows exactly when it has more than 2 * MinEntriesPerNode entries |
| TreeNodeLemmas.InsertIndexSplits | Internal/Tree/TreeNode.cs:143-145 | in sorted entries the insertion index of a key has every key before it at most the key and every key from it on at least the key |
| TreeNodeLemmas.InsertKeepsSorted | Internal/Tree/TreeNode.cs:131-148 | inserting a key where it splits a sorted list keeps the list sorted |
| TreeNodeLemmas.InsertAsLeafKeepsOrder | Internal/Tree/TreeNode.cs:127-133 | InsertAsLeaf at the key's insertion index keeps a sorted leaf sorted, places the entry there, and changes no other node |
| TreeNodeLemmas.InsertAsParentPlacement | Internal/Tree/TreeNode.cs:138-156 | InsertAsParent places the entry at its insertion index p, puts left and right at children p and p + 1 in place of the old child p, and keeps the entries sorted |
| TreeNodeLemmas.SplitOffShape | Internal/Tree/TreeNode.cs:161-195 | the first half of Split: the new node, numbered by the counter, takes the entries after the middle one and the children after the middle position, the node keeps the first halves, and the middle entry is handed up |
| TreeNodeLemmas.SplitOffFrame | Internal/Tree/TreeNode.cs:184-188 | that first half re-parents exactly the children moved to the new node and leaves every other node as it was |
| TreeNodeLemmas.SplitHalves | Internal/Tree/TreeNode.cs:167-194 | the kept half, the middle entry and the larger half together are the old entries, in order, and the two child lists together are the old children; each half has min entries |
| TreeNodeLemmas.SplitRootHalves | Internal/Tree/TreeNode.cs:198-212 | Split of a root: a new root holds the middle entry between the two halves, both halves name it as parent, and it becomes the manager's root |
| TreeNodeLemmas.SplitRootFrame | Internal/Tree/TreeNode.cs:161-238 | Split of a root changes no node but the two halves, the moved children and the new root |
| TreeNodeLemmas.SplitIntoParent | Internal/Tree/TreeNode.cs:214-226 | Split under a parent with room: the parent takes the middle entry at its insertion index, right next to the node, with the new node as the child after it, and stays sorted; nothing else changes but the moved children's parent |
| TreeNodeLemmas.SplitIntoFullRoot | Internal/Tree/TreeNode.cs:214-229 | Split under a full root, with the parent split as intended: the root overflows, splits in turn, and a new root holds its middle entry |
| TreeFixLemmas.RotateLeftEntries | Internal/Tree/TreeNode.cs:416-426 | FixByRotateLeft: the node appends the parent's separator, the separator becomes the right sibling's first entry, the sibling loses it, and the three entry lists read in order are unchanged; a separator out of range throws with nothing changed |
| TreeFixLemmas.RotateLeftChildren | Internal/Tree/TreeNode.cs:428-439 | off an internal sibling its first child moves to the end of the node's children and names the node as its parent; the two child lists read in order are unchanged |
| TreeFixLemmas.RotateLeftFrame | Internal/Tree/TreeNode.cs:416-448 | the rotation touches only the node, its sibling, the parent and the moved child |
| TreeFixLemmas.RotateRightEntries | Internal/Tree/TreeNode.cs:454-468 | FixByRotateRight: the node takes the separator in front, the separator becomes the left sibling's last entry, and the three entry lists read in order are unchanged |
| TreeFixLemmas.RotateRightChildren | Internal/Tree/TreeNode.cs:470-481 | off an internal sibling its last child moves to the front of the node's children and names the node as its parent |
| TreeFixLemmas.RotateRightFrame | Internal/Tree/TreeNode.cs:454-490 | that rotation touches only the node, its sibling, the parent and the moved child |
| TreeFixLemmas.CombineMerges | Internal/Tree/TreeNode.cs:495-537 | FixByCombine merges the right child and the separator into the left child and drops them from the parent; an emptied root parent gives way to the left child as root, an underfull inner parent is fixed in turn, and otherwise that is all |
| TreeFixLemmas.CombineErrors | Internal/Tree/TreeNode.cs:499-509 | a separator out of range throws ArgumentOutOfRangeException with nothing changed, and a child of the right node the manager does not hold throws ArgumentException |
| TreeFixLemmas.RemoveFromLeafNoFix | Internal/Tree/TreeNode.cs:257-264 | removal from a leaf that stays at or above the minimum, or from a root leaf, drops that entry and changes nothing else |
| TreeFixLemmas.RemoveFromLeafRefills | Internal/Tree/TreeNode.cs:257-398 | a non-root leaf at the minimum whose right sibling leaf can spare an entry ends with min entries, its own after the removal followed by the separator, which the sibling's first entry replaces |
| TreeFixLemmas.RemoveTakesPredecessor | Internal/Tree/TreeNode.cs:269-285 | Remove on an internal node replaces the entry with the last entry of the leaf FindLargest reaches from the child before it, and that leaf loses that entry |
| TreeDefects.SplitCopiesTooFewChildren | Internal/Tree/TreeNode.cs:176-177 | as written, Split copies halfCount child ids into an array of halfCount + 1 slots, so the larger node's last child id is 0, which no node has, and re-parenting it throws ArgumentException |
| TreeDefects.ReparentRefusesMissing | Internal/Tree/TreeNode.cs:185-187 | re-parenting stops with ArgumentException at an id the manager does not hold |
| TreeDefects.SplitUpAsWrittenResplitsChild | Internal/Tree/TreeNode.cs:228-229 | as written, an overflowing parent is not split: Split() runs again on the node itself, which now has only min entries, so reading its middle entry is out of range, and the parent is left overflowing |
| TreeDefects.SplitAsWrittenUnderFullParent | Internal/Tree/TreeNode.cs:161-238 | so Split as written of a full leaf under a full parent throws after the new node was created and the parent overflowed |
| TreeDefects.RemoveAsWrittenLeavesUnderflow | Internal/Tree/TreeNode.cs:263-267 | as written, a non-root leaf at the minimum keeps min - 1 entries after a removal with no fix, while one above the minimum is fixed although it needs none |
| TreeNodeLemmas.SplitUpAtRoot | Internal/Tree/TreeNode.cs:197-212 | with no parent, the middle entry goes into a new root over the node and the large node, both of them name it as parent, and it becomes the manager's root |
| TreeNodeLemmas.SplitRoot | Internal/Tree/TreeNode.cs:161-212 | Split of an overflowing root answers the new large node, creates exactly it and a new root holding the middle entry over the two halves, and makes that root the tree's root |
| TreeNodeLemmas.SplitUpIntoParent | Internal/Tree/TreeNode.cs:213-226 | under a parent with room, the middle entry goes into the parent at its sorted place with the large node just after this node, the parent stays sorted, and no other node but the large node changes |
| TreeNodeLemmas.SplitUpIntoFullRoot | Internal/Tree/TreeNode.cs:213-230 | under a full root parent, the promoted parent overflows and is itself split, growing the tree by a new root, and the promoted entries stay sorted |
| TreeNodeLemmas.SplitParentRoot | Internal/Tree/TreeNode.cs:161-212 | splitting an overflowing root grows the tree by one level, with the halves and the middle entry placed as Split of a root places them |
| TreeNodeLemmas.SplitOffIntoFullRoot | Internal/Tree/TreeNode.cs:161-230 | the first half of a split below a full root creates the large node and then hands the middle entry up, where the root is split in turn |
| TreeFixLemmas.CombineDownMerges | Internal/Tree/TreeNode.cs:498-515 | the moves of FixByCombine, before it looks at the parent again: the left child gets its entries, the separator and the right child's entries, then its children and the right child's; those children name the left child as parent; the parent loses the separator and the right child; the right child is deleted |
| MemoryTreeNodeManagers.MemoryTreeNodeManager.constructor | Internal/Tree/MemoryTreeNodeManager.cs:57-66 | the new manager's state is the initial arena: a consistent manager whose root is the empty node 1 |
| MemoryTreeNodeManagers.MemoryTreeNodeManager.Create | Internal/Tree/MemoryTreeNodeManager.cs:71-82 | the node and the new state are those TreeArena.Create gives for the old state, so CreateThenFind holds of them |
| MemoryTreeNodeManagers.MemoryTreeNodeManager.Find | Internal/Tree/MemoryTreeNodeManager.cs:87-92 | the outcome TreeArena.Find gives: the held node, or ArgumentException |
| MemoryTreeNodeManagers.MemoryTreeNodeManager.CreateNewRoot | Internal/Tree/MemoryTreeNodeManager.cs:97-106 | the new state is that of TreeArena.CreateNewRoot: a new node between the two children, made the root |
| MemoryTreeNodeManagers.MemoryTreeNodeManager.MakeRoot | Internal/Tree/MemoryTreeNodeManager.cs:111-114 | the new state is that of TreeArena.MakeRoot |
| MemoryTreeNodeManagers.MemoryTreeNodeManager.Delete | Internal/Tree/MemoryTreeNodeManager.cs:127-133 | the new state is that of TreeArena.Delete, so DeleteThenFind holds of it |
| MemoryTreeNodeManagers.MemoryTreeNodeManager.SetParentId | Internal/Tree/TreeNode.cs:24-30 | only the node's parent id changes |
| MemoryTreeNodeManagers.MemoryTreeNodeManager.InsertAsLeaf | Internal/Tree/TreeNode.cs:127-133 | the outcome and state of TreeNodes.InsertAsLeaf, which InsertAsLeafKeepsOrder relates to sorted leaves |
| MemoryTreeNodeManagers.MemoryTreeNodeManager.InsertAsParent | Internal/Tree/TreeNode.cs:138-156 | the outcome and state of TreeNodes.InsertAsParent, which InsertAsParentPlacement describes |
| MemoryTreeNodeManagers.MemoryTreeNodeManager.Reparent | Internal/Tree/TreeNode.cs:184-188 | the loop's outcome and state are those of TreeNodes.Reparent, which ReparentEffect describes |
| MemoryTreeNodeManagers.MemoryTreeNodeManager.CopyChildren | Internal/Tree/TreeNode.cs:173-177 | the array holds the copied child ids followed by zeros, as TreeNodes.LargeChildren gives them |
| MemoryTreeNodeManagers.MemoryTreeNodeManager.SplitOff | Internal/Tree/TreeNode.cs:161-195 | the outcome and state of TreeNodes.SplitOff, which SplitOffShape and SplitOffFrame describe |
| MemoryTreeNodeManagers.MemoryTreeNodeManager.Split | Internal/Tree/TreeNode.cs:161-238 | as intended (all the larger children copied, an overflowing parent split; see Findings), the outcome and state of TreeNodes.Split, whose halves, new root and parent insertion SplitHalves, SplitRootHalves and SplitIntoParent describe |
| MemoryTreeNodeManagers.MemoryTreeNodeManager.SplitUp | Internal/Tree/TreeNode.cs:198-229 | as intended (an overflowing parent is split, see Findings), the outcome and state of TreeNodes.SplitUp, which SplitUpAtRoot, SplitUpIntoParent and SplitUpIntoFullRoot describe |
| MemoryTreeNodeManagers.MemoryTreeNodeManager.FindLargest | Internal/Tree/TreeNode.cs:291-303 | the result TreeNodes.FindLargest gives; the state is not changed |
| MemoryTreeNodeManagers.MemoryTreeNodeManager.FindSmallest | Internal/Tree/TreeNode.cs:308-320 | the result TreeNodes.FindSmallest gives |
| MemoryTreeNodeManagers.MemoryTreeNodeManager.IndexInParent | Internal/Tree/TreeNode.cs:325-337 | the result TreeNodes.IndexInParent gives: the first position of the node among its parent's children |
| MemoryTreeNodeManagers.MemoryTreeNodeManager.GetRightSibling | Internal/Tree/TreeNode.cs:542-548 | the result TreeNodes.RightSibling gives |
| MemoryTreeNodeManagers.MemoryTreeNodeManager.GetLeftSibling | Internal/Tree/TreeNode.cs:553-559 | the result TreeNodes.LeftSibling gives |
| MemoryTreeNodeManagers.MemoryTreeNodeManager.RotateLeft | Internal/Tree/TreeNode.cs:416-448 | the outcome and state of TreeNodes.RotateLeft, which RotateLeftEntries, RotateLeftChildren and RotateLeftFrame describe |
| MemoryTreeNodeManagers.MemoryTreeNodeManager.RotateRight | Internal/Tree/TreeNode.cs:454-490 | the outcome and state of TreeNodes.RotateRight, which RotateRightEntries, RotateRightChildren and RotateRightFrame describe |
| MemoryTreeNodeManagers.MemoryTreeNodeManager.FixNode | Internal/Tree/TreeNode.cs:390-410 | the outcome and state of TreeNodes.FixNode: a rotation from the right, else from the left, else a combine |
| MemoryTreeNodeManagers.MemoryTreeNodeManager.Combine | Internal/Tree/TreeNode.cs:495-537 | the outcome and state of TreeNodes.Combine, which CombineMerges and CombineErrors describe |
| MemoryTreeNodeManagers.MemoryTreeNodeManager.RemoveFromLeaf | Internal/Tree/TreeNode.cs:257-268 | as intended (a leaf at the minimum is fixed, see Findings), the outcome and state of TreeNodes.RemoveFromLeaf, which RemoveFromLeafNoFix and RemoveFromLeafRefills describe |
| MemoryTreeNodeManagers.MemoryTreeNodeManager.Remove | Internal/Tree/TreeNode.cs:252-286 | the outcome and state of TreeNodes.Remove, which RemoveTakesPredecessor describes for internal nodes |
| DiskTreeNodeManagers.MaxEntriesPerNode | Internal/Tree/DiskTreeNodeManager.cs:41-43 | twice the minimum, the same bound as the memory manager's |
| DiskTreeNodeManagers.RootRecord | Internal/Tree/DiskTreeNodeManager.cs:173-218 | the root record is four bytes that read back as the root's id |
| DiskTreeNodeManagers.EncodeIgnoresId | Internal/Tree/DiskTreeNodeSerializer.cs:65-113 | a node's serialization does not depend on its id, which the record id gives instead |
| DiskTreeNodeManagers.NodeData | Internal/Tree/DiskTreeNodeManager.cs:103-112 | for any record id the callback yields the serialization of the node with that id, parent 0 and the given entries and children |
| DiskTreeNodeManagers.Sweep | Internal/Tree/DiskTreeNodeManager.cs:242-258 | as intended, the weak table keeps exactly the ids whose reference is alive, each with its node |
| DiskTreeNodeManagers.Trimmed | Internal/Tree/DiskTreeNodeManager.cs:236-239 | as intended, the strong queue stays below its maximum by keeping only its most recent part; a queue below the maximum is kept whole and a non-empty one stays non-empty |
| DiskTreeNodeManagers.Initialized | Internal/Tree/DiskTreeNodeManager.cs:227-259 | Dictionary.Add throws ArgumentException, changing nothing, exactly when the weak table already holds the id; otherwise the table maps the id to the node, the queue stays below its maximum and the cleanup counter counts up or wraps to 0; the sweep and the trim are as intended (see Findings) |
| DiskTreeNodeManagers.Enqueued | Internal/Tree/DiskTreeNodeManager.cs:233 | the node just initialized is the most recent entry of the strong queue |
| DiskTreeNodeManagers.Remove | Internal/Tree/DiskTreeNodeManager.cs:196 | Dictionary.Remove drops exactly the id from the order of the entries and keeps the rest |
| DiskTreeNodeManagers.RemoveDistinct | Internal/Tree/DiskTreeNodeManager.cs:196 | removing an id keeps the dictionary's keys without repeats |
| DiskTreeNodeManagers.Marked | Internal/Tree/DiskTreeNodeManager.cs:179-183 | the dirty table maps the node's id to it; a new id goes last in the order and a known id keeps its place |
| DiskTreeNodeManagers.Unmarked | Internal/Tree/DiskTreeNodeManager.cs:195-196 | the id leaves the dirty table and its order, and every other id and node stays |
| DiskTreeNodeManagers.InOrder | Internal/Tree/DiskTreeNodeManager.cs:204 | the dirty nodes in the order the foreach of Save visits them, one per id |
| DiskTreeNodeManagers.SaveStep | Internal/Tree/DiskTreeNodeManager.cs:204-205 | Save's loop starts with the first dirty node: a serializer exception ends it unchanged, else its record is updated with its bytes, and a failed Update ends it |
| DiskTreeNodeManagers.SaveSpec | Internal/Tree/DiskTreeNodeManager.cs:202-208 | the storage after Save's loop keeps its block size and grows by no more than the nodes' bytes need |
| DiskTreeNodeManagers.CreateOutcome | Internal/Tree/DiskTreeNodeManager.cs:100-118 | Create returns the node with the id RecordStorage.Create allocated, parent 0 and the given entries and children; the store is what that Create leaves, and the node is registered |
| DiskTreeNodeManagers.Load | Internal/Tree/DiskTreeNodeManager.cs:139-148 | a record that does not exist gives null, and a node read back carries the record's id |
| DiskTreeNodeManagers.FindOutcome | Internal/Tree/DiskTreeNodeManager.cs:123-149 | a node the weak table holds is returned without reading, else the node is loaded from its record; a node found is then in the weak table |
| DiskTreeNodeManagers.BootOutcome | Internal/Tree/DiskTreeNodeManager.cs:87-94 | with record 1 present the store is only read and the root is Find of the id its first four bytes hold, or the read's exception; without it record 1 is created and an empty node follows |
| DiskTreeNodeManagers.RootFromRecord | Internal/Tree/DiskTreeNodeManager.cs:90 | ReadUInt32 of record 1 throws when it is too short, else the root is Find of the id it gives |
| DiskTreeNodeManagers.FirstRootOutcome | Internal/Tree/DiskTreeNodeManager.cs:213-222 | a failed creation of record 1 is passed on unchanged; otherwise the root is an empty node |
| DiskTreeNodeManagers.EmptyNodeSmall | Internal/Tree/DiskTreeNodeSerializer.cs:71-128 | an empty node serializes to at most the 12 header bytes |
| DiskTreeNodeManagers.DiskTreeNodeManager.New | Internal/Tree/DiskTreeNodeManager.cs:70-95 | ArgumentNullException for a missing record storage or serializer, else a manager whose root is what BootOutcome gives |
| DiskTreeNodeManagers.DiskTreeNodeManager.Create | Internal/Tree/DiskTreeNodeManager.cs:100-118 | the node, the new store and the new tables are those CreateOutcome gives |
| DiskTreeNodeManagers.DiskTreeNodeManager.Find | Internal/Tree/DiskTreeNodeManager.cs:123-149 | the result and tables FindOutcome gives; the store is not changed |
| DiskTreeNodeManagers.DiskTreeNodeManager.MakeRoot | Internal/Tree/DiskTreeNodeManager.cs:170-174 | the root is the node and record 1 is updated to the bytes of its id |
| DiskTreeNodeManagers.DiskTreeNodeManager.CreateNewRoot | Internal/Tree/DiskTreeNodeManager.cs:154-165 | a node created with the one entry and the two children, then made the root as MakeRoot does |
| DiskTreeNodeManagers.DiskTreeNodeManager.MarkAsChanged | Internal/Tree/DiskTreeNodeManager.cs:179-183 | the dirty table becomes what Marked gives |
| DiskTreeNodeManagers.DiskTreeNodeManager.Delete | Internal/Tree/DiskTreeNodeManager.cs:188-197 | the root is cleared when it is the node, the store is what RecordStorage.Delete leaves, and the dirty table is what Unmarked gives |
| DiskTreeNodeManagers.DiskTreeNodeManager.Save | Internal/Tree/DiskTreeNodeManager.cs:202-208 | the store is what SaveSpec gives for the dirty nodes in order, and on success the dirty table is empty |
| DiskTreeNodeManagers.DiskTreeNodeManager.OnNodeInitialized | Internal/Tree/DiskTreeNodeManager.cs:227-259 | the tables become what Initialized gives, with the sweep and the trim as intended (see Findings) |
| DiskTreeNodeManagers.DiskTreeNodeManager.TrimStrongNodes | Internal/Tree/DiskTreeNodeManager.cs:236-239 | the strong queue becomes Trimmed of the old one |
| DiskTreeNodeManagers.DiskTreeNodeManager.SweepWeakNodes | Internal/Tree/DiskTreeNodeManager.cs:242-258 | the weak table becomes Sweep of the old one |
| DiskTreeNodeManagerDefects.SweepAsWritten | Internal/Tree/DiskTreeNodeManager.cs:247-255 | as written, the sweep collects the ids whose reference is alive and removes them, so the table keeps exactly the dead ones |
| DiskTreeNodeManagerDefects.SweepsPartition | Internal/Tree/DiskTreeNodeManager.cs:247-255 | the sweep as written and as intended split the table between them: each id survives exactly one |
| DiskTreeNodeManagerDefects.SweepAsWrittenDropsLiveNode | Internal/Tree/DiskTreeNodeManager.cs:249-250 | one live cached node: the sweep as written forgets it and the intended sweep keeps it |
| DiskTreeNodeManagerDefects.AsWrittenDropped | Internal/Tree/DiskTreeNodeManager.cs:237-238 | the loop as written, with i counting up from half the maximum while the count it is compared with shrinks, dequeues a quarter of a queue of 200 |
| DiskTreeNodeManagerDefects.TrimAsWrittenKeepsThreeQuarters | Internal/Tree/DiskTreeNodeManager.cs:236-238 | a full queue of 200 keeps 150 nodes under the loop as written and the most recent 100 under the intended trim |
| DiskTreeNodeManagerLemmas.NodeDataProvided | Internal/Tree/DiskTreeNodeManager.cs:103-112 | the callback yields, for every record id, bytes the store has room for |
| DiskTreeNodeManagerLemmas.CreateThenLoad | Internal/Tree/DiskTreeNodeManager.cs:100-149 | a node Create returns is read back from its record as the same node |
| DiskTreeNodeManagerLemmas.CreateThenFindCached | Internal/Tree/DiskTreeNodeManager.cs:123-132 | a node Create returns is in the weak table, so Find returns it without reading the store |
| DiskTreeNodeManagerLemmas.MarkedIdempotent | Internal/Tree/DiskTreeNodeManager.cs:179-183 | marking a node changed twice is marking it once |
| DiskTreeNodeManagerLemmas.UnmarkedNotSaved | Internal/Tree/DiskTreeNodeManager.cs:195-205 | a node taken out of the dirty table by Delete is not among the nodes Save writes |
| DiskTreeNodeManagerLemmas.MarkedSavedLast | Internal/Tree/DiskTreeNodeManager.cs:181-204 | a node marked for the first time is saved after every node marked before it |
| DiskTreeNodeManagerLemmas.FirstRecordIsOne | Internal/Tree/DiskTreeNodeManager.cs:215-218 | on an empty store the first record created, the root record, gets id 1 |
| DiskTreeNodeManagerLemmas.BootOnEmptyStore | Internal/Tree/DiskTreeNodeManager.cs:87-222 | on an empty store the constructor writes record 1, so the next constructor on that store finds record 1 and takes the root from it |
| DiskTreeNodeSerializers.NewNodeSerializer | Internal/Tree/DiskTreeNodeSerializer.cs:19-32 | ArgumentNullException exactly when the key or the value serializer is missing, else a serializer holding both |
| DiskTreeNodeSerializers.Header | Internal/Tree/DiskTreeNodeSerializer.cs:82-128 | the header is 12 bytes |
| DiskTreeNodeSerializers.ChildIdBytes | Internal/Tree/DiskTreeNodeSerializer.cs:104-145 | four bytes per child id |
| DiskTreeNodeSerializers.ReadU32 | BufferHelper.cs:25-30 | succeeds exactly when four bytes from the offset are inside the data, and gives their little-endian value |
| DiskTreeNodeSerializers.ReadI32 | BufferHelper.cs:18-23 | succeeds exactly when four bytes from the offset are inside the data, and gives their little-endian value as a signed 32-bit number |
| DiskTreeNodeSerializers.Entries | Internal/Tree/DiskTreeNodeSerializer.cs:175-229 | a successful entry loop reads exactly entryCount entries |
| DiskTreeNodeSerializers.ChildIds | Internal/Tree/DiskTreeNodeSerializer.cs:186-236 | a successful child id loop reads exactly the count of ids, each a 32-bit number |
| DiskTreeNodeSerializers.DecodeImage | Internal/Tree/DiskTreeNodeSerializer.cs:154-240 | a node read back takes the id the caller gives, and its parent and child ids are 32-bit numbers |
| DiskTreeNodeSerializers.FixedBothSerialize | Internal/Tree/DiskTreeNodeSerializer.cs:65-113 | the buffer written through the array is the node's encoding, or the size exception |
| DiskTreeNodeSerializers.WriteHeader | Internal/Tree/DiskTreeNodeSerializer.cs:82-92 | the first 12 bytes of the buffer become the header and the rest is kept |
| DiskTreeNodeSerializers.FixedValueSerialize | Internal/Tree/DiskTreeNodeSerializer.cs:118-149 | the stream's bytes are the node's encoding in the variable-key layout |
| DiskTreeNodeSerializers.Serialize | Internal/Tree/DiskTreeNodeSerializer.cs:37-46 | the dispatch gives the node's encoding, NotSupportedException when the value serializer is not fixed size |
| DiskTreeNodeSerializers.ReadHeader | Internal/Tree/DiskTreeNodeSerializer.cs:163-173 | succeeds exactly when the data has 12 bytes, giving its three words; a shorter buffer fails at the first word that does not fit |
| DiskTreeNodeSerializers.FixedBothDeserialize | Internal/Tree/DiskTreeNodeSerializer.cs:154-195 | the loops give the node Decode gives for the data |
| DiskTreeNodeSerializers.FixedValueDeserialize | Internal/Tree/DiskTreeNodeSerializer.cs:200-240 | the loops give the node Decode gives for the data |
| DiskTreeNodeSerializers.Deserialize | Internal/Tree/DiskTreeNodeSerializer.cs:51-60 | the node Decode gives, NotSupportedException when the value serializer is not fixed size |
| DiskTreeNodeSerializers.ImageLength | Internal/Tree/DiskTreeNodeSerializer.cs:68-73 | the fixed-size layout is exactly as long as the size FixedBothSerialize computes |
| DiskTreeNodeSerializers.FixedFormatBounded | Internal/Tree/DiskTreeNodeSerializer.cs:75-76 | a node that serializes in the fixed-size layout takes fewer than MaxNodeSize bytes |
| DiskTreeNodeSerializers.FixedEntryInside | Internal/Tree/DiskTreeNodeSerializer.cs:98-184 | one fixed-size entry written at an offset is read back from there, and the read ends right after it |
| DiskTreeNodeSerializers.VariableEntryInside | Internal/Tree/DiskTreeNodeSerializer.cs:133-229 | one entry led by its key length is read back from where it was written |
| DiskTreeNodeSerializers.EntriesRoundTrip | Internal/Tree/DiskTreeNodeSerializer.cs:175-229 | the entry loop reads back entries whose images sit one after another |
| DiskTreeNodeSerializers.ChildIdsRoundTrip | Internal/Tree/DiskTreeNodeSerializer.cs:186-236 | the child id loop reads back the ids whose bytes sit at the offset |
| DiskTreeNodeSerializers.ImageRoundTrip | Internal/Tree/DiskTreeNodeSerializer.cs:65-240 | reading back a node's bytes with faithful serializers gives the same node under the id it is read with |
| DiskTreeNodeSerializers.SerializeRoundTrip | Internal/Tree/DiskTreeNodeSerializer.cs:37-60 | whatever Serialize produces, Deserialize with the same serializers turns back into the node; both throw NotSupportedException exactly when the value serializer is not fixed size |
| IndexTrees.Root | Internal/Tree/IndexTree.cs:284-310 | the root node the manager holds, and a NullReferenceException exactly when it has none |
| IndexTrees.ChildAt | Internal/Tree/TreeNode.cs:366-369 | GetChildNode(i): the child id at i when it is in range and held; an index out of range gives ArgumentOutOfRangeException and a dropped id ArgumentException |
| IndexTrees.FindNode | Internal/Tree/IndexTree.cs:247-276 | a non-negative index is an entry of the node whose key compares equal to the key, in a leaf when keys may repeat; a negative one is the complement of an insertion point in a leaf or an empty node |
| IndexTrees.OccurrenceSearch | Internal/Tree/TreeNode.cs:355-361 | BinarySearch(key, firstOccurrence) gives the first or the last position of the key, or the complement of its insertion point |
| IndexTrees.FindNodeIterative | Internal/Tree/IndexTree.cs:209-241 | the search ends at an empty node with ~0, or at a leaf with the occurrence search of its entries |
| IndexTrees.FirstNode | Internal/Tree/IndexTree.cs:290-302 | FindFirstNode ends at the leaf FindSmallest reaches from the root, with index -1; NullReferenceException without a root |
| IndexTrees.LastNode | Internal/Tree/IndexTree.cs:307-320 | FindLastNode ends at the leaf FindLargest reaches from the root, with its entry count as index |
| IndexTrees.ExactStart | Internal/Tree/IndexTree.cs:182-202 | the start of an exact-match scan stands at -1 up to the last entry for an ascending scan and at 0 up to the entry count for a descending one |
| IndexTrees.InsertInto | Internal/Tree/IndexTree.cs:25-44 | Insert without a root throws NullReferenceException and changes nothing; no node object is ever dropped |
| IndexTrees.PlaceEntry | Internal/Tree/IndexTree.cs:36-40 | an index out of range throws and changes nothing; with room in the node the entry goes in at the index and nothing else changes |
| IndexTrees.GetIn | Internal/Tree/IndexTree.cs:123-133 | an entry Get returns has a key equal to the key asked for; without a root, NullReferenceException |
| IndexTrees.DeleteKeyFrom | Internal/Tree/IndexTree.cs:102-118 | in duplicate mode InvalidOperationException with nothing changed; false changes nothing |
| IndexTrees.ScanForMatch | Internal/Tree/IndexTree.cs:64-86 | a match the inner loop stops at is an entry the scan stands on, with a key not past the key and a value the value comparer finds level with the value |
| IndexTrees.DeleteRounds | Internal/Tree/IndexTree.cs:59-95 | false means nothing changed and nothing was removed before; once a round removed a match the answer is true |
| IndexTrees.DeleteMatchingFrom | Internal/Tree/IndexTree.cs:50-96 | in unique mode InvalidOperationException with nothing changed; false changes nothing |
| IndexTrees.NextRound | Internal/Tree/IndexTree.cs:62-88 | after a round that removed a match, the outer loop goes on from the tree that round left |
| IndexTrees.IndexTree.New | Internal/Tree/IndexTree.cs:13-20 | ArgumentNullException for a null manager, else a tree over it in the mode given |
| IndexTrees.IndexTree.FindFirstNode | Internal/Tree/IndexTree.cs:290-302 | the loop ends where FirstNode says |
| IndexTrees.IndexTree.FindLastNode | Internal/Tree/IndexTree.cs:307-320 | the loop ends where LastNode says |
| IndexTrees.IndexTree.GetAll | Internal/Tree/IndexTree.cs:138-153 | a scanner from the first or the last node in the direction asked, or the error of finding it |
| IndexTrees.IndexTree.GetOptionMatch | Internal/Tree/IndexTree.cs:158-177 | without a matcher the scanner GetAll gives, else a match scanner from the same start |
| IndexTrees.IndexTree.GetExactMatch | Internal/Tree/IndexTree.cs:182-202 | a scanner from the exact-match start in the direction asked |
| IndexTrees.IndexTree.Get | Internal/Tree/IndexTree.cs:123-133 | the result GetIn gives for the manager's tree |
| IndexTrees.IndexTree.Insert | Internal/Tree/IndexTree.cs:25-44 | the outcome and new tree InsertInto gives |
| IndexTrees.IndexTree.DeleteKey | Internal/Tree/IndexTree.cs:102-118 | the outcome and new tree DeleteKeyFrom gives |
| IndexTrees.IndexTree.FindMatch | Internal/Tree/IndexTree.cs:63-87 | the match RoundMatch gives for the manager's tree |
| IndexTrees.IndexTree.DeleteMatching | Internal/Tree/IndexTree.cs:50-96 | the outcome and new tree DeleteMatchingFrom gives |
| IndexTreeLemmas.KeySearchHits | Internal/Tree/TreeNode.cs:342-348 | on sorted entries the search by key hits exactly when some entry has the key |
| IndexTreeLemmas.InsertPresentKeyRefused | Internal/Tree/IndexTree.cs:29-33 | in unique mode a key the root leaf holds gives TreeKeyExistsException and changes nothing |
| IndexTreeLemmas.InsertIntoRootLeaf | Internal/Tree/IndexTree.cs:29-40 | into a root leaf with room the entry goes in at the search position, the entries stay sorted, and no other node changes |
| IndexTreeLemmas.GetAtRootLeaf | Internal/Tree/IndexTree.cs:123-133 | on a sorted root leaf Get finds an entry exactly when one has the key |
| IndexTreeLemmas.InsertThenGet | Internal/Tree/IndexTree.cs:25-133 | after an insertion into a root leaf Get finds the key; with unique keys it finds exactly the entry inserted |
| IndexTreeLemmas.FirstSplit | Internal/Tree/IndexTree.cs:189 | the first-occurrence start of an ascending scan has the smaller keys before it and the others from it on |
| IndexTreeLemmas.LastSplit | Internal/Tree/IndexTree.cs:192 | the last-occurrence start of a descending scan has the larger keys from it on and the others before it |
| IndexTreeLemmas.DeleteKeyAtRootLeaf | Internal/Tree/IndexTree.cs:102-118 | on a sorted root leaf in unique mode, with the key present its first entry is removed and the answer is true; without it nothing changes and the answer is false |
| IndexTreeLemmas.DeleteStartAtRootLeaf | Internal/Tree/IndexTree.cs:110-112 | the first step from the exact-match start yields an entry with the key exactly when the key is present |
| IndexTreeLemmas.GetAllAtRootLeaf | Internal/Tree/IndexTree.cs:138-153 | on a root leaf the ascending scan yields the entries in order and the descending one in reverse, and each then finishes |
| IndexTreeLemmas.ExactMatchAscendingAtRootLeaf | Internal/Tree/IndexTree.cs:182-202 | GetExactMatch(key, true) on a sorted root leaf yields in order exactly the entries whose key is not below the key |
| IndexTreeLemmas.ExactMatchDescendingAtRootLeaf | Internal/Tree/IndexTree.cs:182-202 | GetExactMatch(key, false) on a sorted root leaf yields, last first, exactly the entries whose key is not above the key |
| IndexTreeHeights.SearchTree | Internal/Tree/IndexTree.cs:247-276 | on a well-formed tree of any height the search in unique mode succeeds with the fuel of the node count, and ends where the tree's contents split at the key |
| IndexTreeHeights.GetFindsContents | Internal/Tree/IndexTree.cs:123-133 | on a well-formed tree of any height Get succeeds, and finds an entry exactly when the tree holds the key, an entry of the tree |
| IndexTreeHeights.InsertPresentRefused | Internal/Tree/IndexTree.cs:29-33 | on any height, in unique mode a key the tree holds gives TreeKeyExistsException and changes nothing |
| IndexTreeHeights.InsertAbsentKey | Internal/Tree/IndexTree.cs:25-40 | a key the tree lacks, whose leaf has room, goes in: the tree keeps its height, stays well formed, and its contents gain the entry at the point where the keys split around it |
| IndexTreeHeights.InsertInLeaf | Internal/Tree/IndexTree.cs:36 | the entry put at the miss point of the leaf reached keeps the tree well formed and lands between the entries below and above it |
| IndexTreeHeights.InsertThenGetAnyHeight | Internal/Tree/IndexTree.cs:25-133 | on a tree of any height, after that insertion Get finds exactly the entry inserted, and finds an entry for every other key exactly when it did before |
| TreePaths.SearchPath | Internal/Tree/IndexTree.cs:247-276 | the unique-mode search of a subtree with sorted entries hits exactly when the subtree has the key, and on a miss ends at a leaf whose entries and insertion point split the subtree at the key |
| TreeShapes.FlatStartsAtFirstLeaf | Internal/Tree/TreeNode.cs:308-320 | the first entry of a subtree is entry 0 of the leaf FindSmallest reaches |
| TreeShapes.FlatEndsAtLastLeaf | Internal/Tree/TreeNode.cs:291-303 | the last entry of a subtree is the last entry of the leaf FindLargest reaches |
| TreeShapes.HeapHoldsSpine | Internal/Tree/IndexTree.cs:294-298 | a subtree of height h has at least h + 1 nodes, so fuel of the node count reaches its leaves |
| TreeWalks.SmallestIsFirstLeaf | Internal/Tree/IndexTree.cs:290-302 | from where FindFirstNode points, the first step yields the first entry of the tree |
| TreeWalks.LargestIsLastLeaf | Internal/Tree/TreeNode.cs:291-303 | FindLargest ends at the last entry of the last leaf |
| TreeWalks.CrossSeparator | Internal/Tree/TreeEnumerator.cs:101-155 | from the last entry of child j an ascending walk yields separator j and then all of child j + 1 |
| TreeWalks.SubtreeSteps | Internal/Tree/TreeEnumerator.cs:101-155 | an ascending walk from the first entry of a subtree of any height reaches its last entry, yielding the rest in order |
| TreeWalks.AscendingScan | Internal/Tree/IndexTree.cs:138-153 | GetAll(true) on a tree of any height: the first n calls of MoveNext yield the first n entries of the tree in order, and past the end the scan finishes |
| TreeWalks.SubtreeStepsBack | Internal/Tree/TreeEnumerator.cs:101-155 | a descending walk from the last entry of a subtree reaches its first, yielding the rest in reverse order |
| TreeWalks.DescendingScan | Internal/Tree/IndexTree.cs:138-153 | GetAll(false) on a tree of any height: the first n calls of MoveNext yield the last n entries from the largest down, and past the first entry the scan finishes |
| IndexTreeSaves.Changed | Internal/Tree/TreeNode.cs:24-30 | the nodes an operation made differ from their old state, exactly those the MarkAsChanged calls and the ParentId setter report |
| IndexTreeSaves.Track | Internal/Tree/DiskTreeNodeManager.cs:179-197 | after one operation the dirty table holds every changed node it did not delete, and the deleted nodes lose their records |
| IndexTreeSaves.Save | Internal/Tree/DiskTreeNodeManager.cs:202-208 | every dirty node's record becomes the node and the dirty table is empty |
| IndexTreeSaves.TrackKeepsStep | Internal/Tree/DiskTreeNodeManager.cs:179-197 | whatever an operation does, every held node stays dirty or recorded as it is |
| IndexTreeSaves.SaveSyncs | Internal/Tree/DiskTreeNodeManager.cs:202-208 | Save leaves the records of every held node equal to it |
| IndexTreeSaves.SavingOperationsSync | Internal/Tree/IndexTree.cs:43-94 | Insert and Delete(key, value) that return normally leave the records in step with the tree |
| IndexTreeSaves.DeleteKeyKeepsStep | Internal/Tree/IndexTree.cs:102-118 | Delete(key) as written keeps every held node dirty or recorded; with the Save added it leaves the records in step |
| IndexTreeSaves.DeleteKeyAsWrittenLeavesStaleRecord | Internal/Tree/IndexTree.cs:113-114 | Delete(key) as written answers true and removes the entry in memory, but the root's record still holds the key; with the Save added the record loses it |
| TreeEnumerators.ClimbUp | Internal/Tree/TreeEnumerator.cs:89-113 | the leaf branch of Ascend yields an entry it stands on, throws, or returns false only once it has climbed to a node without a parent |
| TreeEnumerators.FirstLeaf | Internal/Tree/TreeEnumerator.cs:115-131 | the internal branch of Ascend never returns false, and when it succeeds it stands on entry 0 of a leaf |
| TreeEnumerators.ClimbDown | Internal/Tree/TreeEnumerator.cs:141-165 | the leaf branch of Descend yields an entry it stands on, throws, or returns false only at a node without a parent |
| TreeEnumerators.LastLeaf | Internal/Tree/TreeEnumerator.cs:167-185 | the internal branch of Descend never returns false, and when it succeeds it stands on the last entry of a leaf |
| TreeEnumerators.NextStep | Internal/Tree/TreeEnumerator.cs:64-70 | MoveNext of a finished enumerator returns false and stays put; true means it stands on the entry it yields; false leaves it finished |
| TreeEnumerators.Prepend | Internal/Tree/TreeEnumerator.cs:64-70 | the entries yielded go in front of what the rest of the walk yields, and an exception in the rest is the walk's exception |
| TreeEnumerators.TreeEnumerator.constructor | Internal/Tree/TreeEnumerator.cs:47-59 | the enumerator stands at the node and start index given, has yielded nothing and is not finished |
| TreeEnumerators.TreeEnumerator.MoveNext | Internal/Tree/TreeEnumerator.cs:64-70 | the answer and the new position are those NextStep gives |
| TreeEnumerators.TreeEnumerator.Ascend | Internal/Tree/TreeEnumerator.cs:85-132 | the answer and the new position are those AscendStep gives |
| TreeEnumerators.TreeEnumerator.Up | Internal/Tree/TreeEnumerator.cs:89-113 | the loop ends where ClimbUp says |
| TreeEnumerators.TreeEnumerator.Down | Internal/Tree/TreeEnumerator.cs:115-131 | the loop ends where FirstLeaf says |
| TreeEnumerators.TreeEnumerator.Descend | Internal/Tree/TreeEnumerator.cs:137-186 | the answer and the new position are those DescendStep gives, the step as intended |
| TreeEnumerators.TreeEnumerator.UpBack | Internal/Tree/TreeEnumerator.cs:141-165 | the loop ends where ClimbDown says |
| TreeEnumerators.TreeEnumerator.DownBack | Internal/Tree/TreeEnumerator.cs:167-185 | the loop ends where LastLeaf says |
| TreeEnumeratorLemmas.FinishedStaysFinished | Internal/Tree/TreeEnumerator.cs:66-111 | after MoveNext returned false the enumerator is finished and answers false again without moving, and a walk from a finished enumerator yields nothing |
| TreeEnumeratorLemmas.AscendInLeaf | Internal/Tree/TreeEnumerator.cs:87-94 | inside a leaf ascending yields the next entry of the same leaf |
| TreeEnumeratorLemmas.AscendClimbsToSeparator | Internal/Tree/TreeEnumerator.cs:96-101 | at the end of a leaf ascending climbs to the parent at this leaf's index in it and yields the separator there |
| TreeEnumeratorLemmas.DescendClimbsToSeparator | Internal/Tree/TreeEnumerator.cs:148-153 | at the start of a leaf descending climbs to the parent at the position before this leaf and yields the separator there |
| TreeEnumeratorLemmas.FirstLeafFindsSmallest | Internal/Tree/TreeEnumerator.cs:115-131 | the internal branch of Ascend ends where TreeNode.FindSmallest of the child ends, and fails where it fails |
| TreeEnumeratorLemmas.AscendFromInternal | Internal/Tree/TreeEnumerator.cs:85-131 | ascending from entry i of an internal node yields entry 0 of the leaf FindSmallest finds below child i + 1 |
| TreeEnumeratorLemmas.LastLeafFindsLargest | Internal/Tree/TreeEnumerator.cs:167-185 | the internal branch of Descend ends where TreeNode.FindLargest of the child ends |
| TreeEnumeratorLemmas.DescendFromInternal | Internal/Tree/TreeEnumerator.cs:137-185 | descending, as intended, from entry i of an internal node yields the last entry of the leaf FindLargest finds below child i |
| TreeEnumeratorLemmas.LeafWalkAscending | Internal/Tree/TreeEnumerator.cs:85-113 | over a root leaf, an ascending walk from just before entry i yields the entries from i on in order and then finishes |
| TreeEnumeratorLemmas.LeafWalkDescending | Internal/Tree/TreeEnumerator.cs:137-165 | over a root leaf, a descending walk from just after entry i - 1 yields the entries before i, last first, and then finishes |
| EnumeratorDefects.DescendStepAsWritten | Internal/Tree/TreeEnumerator.cs:139-171 | as written Descend moves the index down before either branch; in a leaf that is the intended step |
| EnumeratorDefects.DescendAsWrittenFromSeparator | Internal/Tree/TreeEnumerator.cs:139-171 | standing on entry j of an internal node, the step as written throws for j = 0 and else ends on the last entry of child j - 1, where the intended step ends on the last entry of child j |
| EnumeratorDefects.SmallTree | Internal/Tree/TreeEnumerator.cs:137-186 | a root holding 5 over the leaves 3 and 7 |
| EnumeratorDefects.DescendingScanAsWrittenThrows | Internal/Tree/TreeEnumerator.cs:139-171 | on that tree a descending scan as written yields 7 and 5 and then throws ArgumentOutOfRangeException |
| EnumeratorDefects.SmallTreeShape | Internal/Tree/TreeEnumerator.cs:137-186 | that tree is a tree of height 1 holding 3, 5 and 7 in order |
| EnumeratorDefects.DescendingScanAsIntended | Internal/Tree/TreeEnumerator.cs:137-186 | on that tree the intended descending scan yields 7, 5 and 3 |
| TreeScanners.NewTreeScanner | Internal/Tree/TreeScanner.cs:15-27 | ArgumentNullException exactly when the manager or the node is missing, else a scanner holding what it was given |
| TreeScanners.Start | Internal/Tree/TreeScanner.cs:29-32 | every enumeration starts at the stored node and index, with nothing yielded |
| TreeScanners.GetEnumerator | Internal/Tree/TreeScanner.cs:29-37 | a new enumerator at the stored start, so each enumeration begins again from there |
| TreeScanners.Entries | Internal/Tree/TreeScanner.cs:29-32 | a foreach over the scanner yields what Walk yields from the start |
| TreeScanners.WalkStep | Internal/Tree/TreeEnumerator.cs:64-70 | one call of MoveNext in a walk: an exception ends it, false ends it with what was yielded, and true yields the entry it moved to before the rest |
| TreeScanners.NewTreeMatchScanner | Internal/Tree/TreeMatchScanner.cs:17-30 | the same null checks; the matcher is not checked |
| TreeScanners.Filter | Internal/Tree/TreeMatchScanner.cs:35-39 | the entries kept are entries of the input whose key the matcher accepts, and every such entry is kept |
| TreeScanners.FilterConcat | Internal/Tree/TreeMatchScanner.cs:35-39 | filtering keeps the order: filtering a concatenation concatenates the filtered parts |
| TreeScanners.MatchWalkFilters | Internal/Tree/TreeMatchScanner.cs:32-40 | a match scanner with a matcher yields exactly the entries of the plain walk whose key the matcher accepts, in the walk's order, and throws where the walk throws |
| TreeScanners.GetMatchEnumerator | Internal/Tree/TreeMatchScanner.cs:34 | a new enumerator at the stored start |
| TreeScanners.Matches | Internal/Tree/TreeMatchScanner.cs:32-40 | the iterator's loop yields what MatchWalk gives |
| TreeScanners.MatchWalkStep | Internal/Tree/TreeMatchScanner.cs:35-38 | one call of MoveNext in the matching loop: an exception or false ends it, a missing matcher throws NullReferenceException, and otherwise the entry is kept exactly when the matcher accepts its key |
| TreeEnumerators.AscendStep | Internal/Tree/TreeEnumerator.cs:85-132 | a step of Ascend either throws, or answers true standing on the entry it yields, or answers false finished with no current entry, always at a node the manager holds |
| TreeEnumerators.DescendStep | Internal/Tree/TreeEnumerator.cs:137-186 | a step of Descend, as intended, either throws, or answers true standing on the entry it yields, or answers false finished with no current entry, always at a node the manager holds |
| TreeEnumerators.Walk | Internal/Tree/TreeEnumerator.cs:64-70 | the entries that a sequence of MoveNext calls yields always leave the enumerator at a node the manager holds |
| IntMatcher.TypeOf | Matcher/IntMatcher.cs:33-40 | the switch selects a predicate exactly for the values 0 to 5 |
| IntMatcher.ComplementModes | Matcher/IntMatcher.cs:48-58 | Equal and NotEqual, Greater and LessOrEqual, GreaterOrEqual and Less accept complementary keys |
| IntMatcher.IntMatcher.constructor | Matcher/IntMatcher.cs:21-26 | the matcher holds the number and the predicate the match type selects |
| IntMatcher.IntMatcher.SetNumber | Matcher/IntMatcher.cs:15-18 | later matches compare with the new number |
| IntMatcher.IntMatcher.SetMatchType | Matcher/IntMatcher.cs:31-41 | a value from 0 to 5 selects its predicate and any other keeps the previous one |
| IntMatcher.IntMatcher.IsMatch | Matcher/IntMatcher.cs:46-58 | each mode compares the key with the number as its name says; with no predicate selected the call throws NullReferenceException |
| IntMatcher.IntMatcher.AsPredicate | Matcher/IntMatcher.cs:46 | a predicate that agrees with IsMatch on every key |
| IntMatcher.NumberChangesThreshold | Matcher/IntMatcher.cs:15-41 | a Greater matcher accepts a key above its number and, after Number is raised past the key and an out-of-range match type is set, rejects it |
| StringMatcher.TypeOf | Matcher/StringMatcher.cs:45-51 | the switch selects a predicate exactly for the values 0 to 4 |
| StringMatcher.ContainsAt | Matcher/StringMatcher.cs:68 | Contains holds exactly when the query occurs at some position of the key |
| StringMatcher.NotContainsChar | Matcher/StringMatcher.cs:68 | a key none of whose characters is c does not contain the string of c |
| StringMatcher.ToLower | Matcher/StringMatcher.cs:61-62 | a string of the same length, each character lowered |
| StringMatcher.StringMatcher.constructor | Matcher/StringMatcher.cs:31-38 | the matcher holds the query, the case flag and the predicate the match type selects |
| StringMatcher.StringMatcher.SetQuery | Matcher/StringMatcher.cs:21-28 | ArgumentNullException exactly for null, which keeps the old query; otherwise the query is replaced |
| StringMatcher.StringMatcher.SetIgnoreCase | Matcher/StringMatcher.cs:12 | the case flag becomes the value |
| StringMatcher.StringMatcher.SetMatchType | Matcher/StringMatcher.cs:43-52 | a value from 0 to 4 selects its predicate and any other keeps the previous one |
| StringMatcher.StringMatcher.IsMatch | Matcher/StringMatcher.cs:57-76 | the selected predicate applied to query and key, both lowered first when the case is ignored; NullReferenceException when none is selected |
| StringMatcher.StringMatcher.AsPredicate | Matcher/StringMatcher.cs:57 | a predicate that agrees with IsMatch on every key |
| StringMatcher.EqualNotEqualComplement | Matcher/StringMatcher.cs:74-76 | Equal and NotEqual accept complementary keys |
| StringMatcher.HiMatches | _Test/MatcherTest.cs:63-76 | the four matches against "HI_-_IH" in the test all hold |
| MatchGroups.MatchGroup.constructor | Matcher/MatchGroup.cs:23-26 | a group with no matchers |
| MatchGroups.MatchGroup.Get | Matcher/MatchGroup.cs:14-20 | the matcher at the index, ArgumentOutOfRangeException exactly outside 0 to Count - 1 |
| MatchGroups.MatchGroup.AddMatcher | Matcher/MatchGroup.cs:31-34 | the matcher is appended |
| MatchGroups.MatchGroup.IsMatch | Matcher/MatchGroup.cs:39-46 | true exactly when every matcher accepts the key; a false answer names a matcher that rejects it |
| MatchGroups.AddMatcherNarrows | Matcher/MatchGroup.cs:31-46 | the group with one more matcher accepts exactly the keys both the old group and the new matcher accept |
| MatchQueries.MatchQuery.constructor | Matcher/MatchQuery.cs:30-33 | a query with no groups |
| MatchQueries.MatchQuery.Get | Matcher/MatchQuery.cs:14-20 | the group at the index, ArgumentOutOfRangeException exactly outside 0 to Count - 1 |
| MatchQueries.MatchQuery.AddMatchGroup | Matcher/MatchQuery.cs:39-42 | the group is appended |
| MatchQueries.MatchQuery.AddNewMatchGroup | Matcher/MatchQuery.cs:48-53 | a fresh empty group is appended and returned |
| MatchQueries.MatchQuery.AddMatcher | Matcher/MatchQuery.cs:59-62 | the matcher is appended to the target group |
| MatchQueries.MatchQuery.IsMatch | Matcher/MatchQuery.cs:67-75 | true exactly when some group accepts the key |
| MatcherTest.Matcher | _Test/MatcherTest.cs:105 | the string matcher as a predicate: the case-sensitive test of its mode |
| MatcherTest.Case1 | _Test/MatcherTest.cs:79-86 | a query without groups matches nothing |
| MatcherTest.Case2 | _Test/MatcherTest.cs:88-98 | one empty group matches everything |
| MatcherTest.Case3 | _Test/MatcherTest.cs:100-111 | a group asking for an "A" the key lacks does not match |
| MatcherTest.Case4 | _Test/MatcherTest.cs:113-125 | a group asking for an "a" and a final "H" matches "Blah_-_blaH" |
| MatcherTest.Case5 | _Test/MatcherTest.cs:127-143 | two groups, neither of which accepts "Blah_-_blaH", do not match |
| DatabaseQueries.InList | Internal/Database/DatabaseQuery.cs:380 | tempIndexes.Contains as a predicate: true exactly for the ids in the list |
| DatabaseQueries.Ids | Internal/Database/DatabaseQuery.cs:173-176 | the record ids of an index's entries, one per entry and in order |
| DatabaseQueries.EqualRun | Internal/Database/DatabaseQuery.cs:209-218 | the loop of an exact-match Find takes the leading entries whose key equals the key and stops at the first that does not |
| DatabaseQueries.KeyFilter | Internal/Database/DatabaseQuery.cs:248-251 | an entry passes exactly when its key passes the condition |
| DatabaseQueries.Kept | Internal/Database/DatabaseQuery.cs:128-146 | Find(condition) keeps an id exactly when its record cannot be loaded or its model passes |
| DatabaseQueries.DatabaseQuery.constructor | Internal/Database/DatabaseQuery.cs:36-45 | no ids, no cache, ascending, and nothing searched yet |
| DatabaseQueries.DatabaseQuery.Reset | Internal/Database/DatabaseQuery.cs:50-58 | every list and the cache are empty, the order is ascending and nothing counts as searched |
| DatabaseQueries.DatabaseQuery.Sort | Internal/Database/DatabaseQuery.cs:71-75 | only the direction changes |
| DatabaseQueries.DatabaseQuery.IntersectIndexes | Internal/Database/DatabaseQuery.cs:376-392 | the first call takes the ids found; later calls keep, in order, the ids also found and drop the cached models of the others; afterwards the query counts as searched and the found list is empty |
| DatabaseQueries.DatabaseQuery.FindAll | Internal/Database/DatabaseQuery.cs:88-103 | a query to be ignored is unchanged; otherwise its ids are intersected with the unique index's |
| DatabaseQueries.DatabaseQuery.FindField | Internal/Database/DatabaseQuery.cs:163-183 | a field without an index, or a query to be ignored, changes nothing; otherwise the ids are intersected with those of every entry of the index, the query counts as included, and the cached models of the ids dropped are removed |
| DatabaseQueries.DatabaseQuery.FindExact | Internal/Database/DatabaseQuery.cs:196-225 | a field without an index, or a query to be ignored, changes nothing; otherwise the ids are intersected with those of the leading entries whose key equals the key, the query counts as included, and the cached models of the ids dropped are removed |
| DatabaseQueries.DatabaseQuery.FindFieldWhere | Internal/Database/DatabaseQuery.cs:238-258 | a field without an index, or a query to be ignored, changes nothing; otherwise the ids are intersected with those of the entries whose key passes the condition, the query counts as included, and the cached models of the ids dropped are removed |
| DatabaseQueries.DatabaseQuery.FindWhere | Internal/Database/DatabaseQuery.cs:117-149 | after a first Find over the unique index if none has run, the query counts as included and the ids kept are those whose record is missing or passes, in order, and the passing models join the cache; Dictionary.Add throws ArgumentException exactly when a passing id is already cached, leaving the ids after the colliding one filtered and cached and the rest as they were; after a find that left no ids it changes nothing |
| DatabaseQueries.DatabaseQuery.FilterByCondition | Internal/Database/DatabaseQuery.cs:128-146 | the backward loop keeps exactly the ids Kept accepts and caches the passing models, or throws at a collision with the ids after it filtered and cached and those before it untouched |
| DatabaseQueries.DatabaseQuery.ShouldIgnore | Internal/Database/DatabaseQuery.cs:31-33 | holds exactly when a find has already run and left the id list empty |
| DatabaseQueries.DatabaseQuery.Skip | Internal/Database/DatabaseQuery.cs:271-278 | the first count ids go, all of them when count reaches the length; a negative count throws ArgumentOutOfRangeException and changes nothing |
| DatabaseQueries.DatabaseQuery.GetCount | Internal/Database/DatabaseQuery.cs:368-371 | the number of ids the query holds |
| DatabaseQueries.DatabaseQuery.Resolver | Internal/Database/DatabaseQuery.cs:310-320 | a cached model is taken from the cache, any other from its record |
| DatabaseQueries.DatabaseQuery.GetAll | Internal/Database/DatabaseQuery.cs:307-322 | the models of the ids in order, cached or loaded, skipping records that do not load |
| DatabaseQueries.DatabaseQuery.GetRange | Internal/Database/DatabaseQuery.cs:327-343 | the same over the first min(count, Count) ids, none for a negative count |
| DatabaseQueries.DatabaseQuery.GetFirst | Internal/Database/DatabaseQuery.cs:348-362 | the first model GetAll would yield, or null |
| DatabaseQueries.DatabaseQuery.GetAllLoaded | Internal/Database/DatabaseQuery.cs:291-302 | each id with its loaded model, in order, skipping records that do not load |
| DatabaseQueries.Tagged | Internal/Database/DatabaseQuery.cs:297-300 | an id with its model when its record loads, else nothing |
| DatabaseQueries.FilterStep | Internal/Database/DatabaseQuery.cs:128-146 | one backward step of a filter in place keeps entry i exactly when it passes, and leaves the processed part filtered |
| DatabaseQueries.IntersectStep | Internal/Database/DatabaseQuery.cs:379-384 | one backward step of the intersection keeps entry i exactly when it was found, and adds it to the dropped ids otherwise |
| DatabaseQueries.CollisionAt | Internal/Database/DatabaseQuery.cs:139-140 | a passing id already cached is a collision, so Dictionary.Add throws |
| DatabaseQueries.PassMapConsistent | Internal/Database/DatabaseQuery.cs:136-140 | the models Find(condition) caches are the loaded ones, so a cache that agrees with the records keeps agreeing |
| DatabaseQueries.ResolverIsLoad | Internal/Database/DatabaseQuery.cs:307-362 | with a cache that agrees with the records, the getters yield the records' own models |
| DatabaseQueries.IntersectedMembership | Internal/Database/DatabaseQuery.cs:376-392 | after a later intersection an id is held exactly when it was held before and was found |
| DatabaseQueries.KeptMembership | Internal/Database/DatabaseQuery.cs:128-146 | after Find(condition) an id is held exactly when it was held and its record is missing or passes |

## Left out

- Streams, files and directories: the stream is a byte sequence with a length. `Flush`, the stream position, finalizers and `GC.SuppressFinalize` are not modelled.
- The database layer (`BaseDatabase`, `DiskDatabase`, `MemoryDatabase`, `IndexUtility`, `RenDB`) is not part of this model. Neither is the stale root-level `DatabaseQuery.cs` duplicate.
- Interfaces (`IBlock`, `IBlockStorage`, `IRecordStorage`, `ITreeNodeManager`, `IIndex`, `ISerializer`, `IMatcher` and the rest) have no model of their own. The tree algorithms run over `MemoryTreeNodeManager`, and `DiskTreeNodeManager` is modelled beside it over `RecordStorage`.
- Floating point: the `float`/`double` overloads of `LittleEndian` and `BufferHelper` are not modelled.
- `RegexMatcher` and `DelegatedMatcher` are not part of this model. The regex group of the matcher test's fifth case is modelled as a plain predicate.
- BufferHelper.ReadInt32, BufferHelper.ReadUInt32, BufferHelper.ReadInt64, BufferHelper.ReadUInt64, BufferHelper.ReadGuid, BufferHelper.BlockCopy and the BufferHelper.WriteBuffer methods: their `requires` demand that the bytes lie inside the buffers. The source lets `Buffer.BlockCopy` throw there instead. `Serializers.CopyCheck` states the check `Buffer.BlockCopy` makes.
- The `Block` constructor's check that the first sector has the sector size is not modelled. Only `BlockStorage` creates blocks, and always with a buffer of that size.
- Storage.BlockStorage.CreateNew: requires that the new block's id fits in 32 bits (`|stream| / blockSize < 2^32`). The source would wrap the `uint` id there.
- Strings are sequences of Unicode scalar values, not UTF-16 code units. Unpaired surrogates cannot occur in the model.
- StringMatcher.ToLower: lower-cases ASCII letters only, where .NET `ToLower` lower-cases every letter by culture rules. `StartsWith` and `EndsWith` compare character by character (ordinal), not by culture rules.
- Matchers are snapshots: `MatchGroup` and `MatchQuery` hold the predicates of the matchers added. Changing a matcher's `Number` or `Query` after `AddMatcher` does not change the group, and a `MatchGroup` cannot be added to another group as a matcher.
- The loops that follow tree links or block chains (`FindLargest`, `FindSmallest`, `FindNode`, splitting up the tree, fixing up the tree, the enumerator's climbs and descents, the walks of block chains) take a fuel bound. When the fuel runs out they end in a `NonTermination` error. The source would loop forever on a cyclic structure or overflow its stack instead.
- DiskTreeNodeManagers.DiskTreeNodeManager.Save: writes the dirty nodes in the order they were first marked. A .NET `Dictionary` may enumerate in another order once entries have been removed. The final records are the same either way.
- The weak and strong node caches of `DiskTreeNodeManager` are plain tables. No garbage collector is modelled, so every weak reference stays alive, and `Sweep` takes which references are alive as a parameter.
- Save on the memory manager changes nothing. The persistence of `IndexTree` operations is proved over the dirty table and records of `IndexTreeSaves`, not over the `IndexTree` class.
- `TreeEnumerator.Reset` and `Dispose` change nothing and have no model.
- RecordStore.RecordStorage.Update: proved against `RecordSpec.UpdateSpec` and that function's frame and size lemmas. There is no lemma that `Find` after `Update` returns the new data, because that proof would need one invariant over the three phases of a single call (the old chain overwritten, blocks allocated past its end, the unused tail freed), and the model proves each phase's effect and the whole call's frame and size bounds instead. `UpdateSpec` writes later chunks with the intended `Block.Write`, so for block sizes other than 128 and 4096 the bytes past the first sector of a later block differ from the source's (the Block.cs:204 finding). Its trailing `Delete` uses the intended `MarkAsReusable`, so it frees every unused block, where the source frees only the first one (the RecordStorage.cs:447-450 finding).
- IndexTreeHeights.InsertAbsentKey: proved on trees of any height only when the leaf reached has room, so no split happens. Insert with splits is described node by node by the split lemmas.
- IndexTrees.DeleteKeyFrom: which entry it removes is proved only for a tree that is a single root leaf (`IndexTreeLemmas.DeleteKeyAtRootLeaf`). On deeper trees the removal is described node by node, by the rotation, combine and predecessor-replacement lemmas. That a deletion keeps a multi-level tree well formed is not proved.
- IndexTrees.DeleteMatchingFrom: its contract states the duplicate-mode error, that an answer of false changes nothing, and (through `IndexTreeSaves`) that the records end in step. Which entries the restart loop removes is not proved.
- RecordSpec.UpdateSpec: written with the intended `Block.Write` for later chunks and the intended `MarkAsReusable` for the trailing `Delete`, as the `RecordStore.RecordStorage.Update` line above says.
- LittleEndian.GetInt32, LittleEndian.GetUInt32, LittleEndian.GetInt64 and LittleEndian.GetUInt64: their `requires` demand at least 4 or 8 bytes. `BitConverter` throws an `ArgumentException` for a shorter array; the model has no such path.
- Serializers.StringSerialize: requires that the UTF-8 bytes plus the 4-byte prefix fit in a .NET array (`MaxStringBytes`). The source would fail to allocate the buffer there.
- DiskTreeNodeSerializers.FixedBothSerialize and DiskTreeNodeManagers.DiskTreeNodeManager.Valid: require that a fixed-size serializer's output has exactly its announced `Length` (`ExactWidth`, `Widths`). With a serializer that breaks that promise, the source's `Buffer.BlockCopy` would throw or copy a truncated entry; the model does not cover such serializers.
- Storage.Block.Read: `ReadCheck` adds `length + readOffset` and `length + bufferOffset` on unbounded integers. The source adds them on 32-bit `int` (Block.cs:108-111), where they wrap. With `length` = Int32.MaxValue and `readOffset` = `bufferOffset` = 1, both sums wrap negative and the source's checks pass: it copies bytes into the buffer (from the first sector when its first-sector test holds, then from the stream) until `Stream.Read` throws ArgumentException or EndOfStreamException. The model fails with ArgumentOutOfRange and leaves the buffer unchanged on such inputs. `RecordStorage` never passes such lengths.
- Storage.Block.Write: `WriteCheck` adds `writeOffset + length` and `bufferOffset + length` on unbounded integers. The source adds them on 32-bit `int` (Block.cs:163-166), where they wrap, and so does `headerSize + writeOffset + length` (Block.cs:188). With `length` = Int32.MaxValue and `writeOffset` = `bufferOffset` = 1, the source's checks pass, it copies `sectorSize - headerSize - 1` bytes into the first sector, marks it dirty, writes nothing to the stream and returns. The model fails with ArgumentOutOfRange and changes nothing on such inputs. `RecordStorage` never passes such lengths.
- Storage.Block.SetHeader: `field * 8` is computed on unbounded integers, so every field past the sector fails. The source computes it on 32-bit `int`, which wraps for fields of 2^28 or more: most of them give a negative offset and `Buffer.BlockCopy` throws, but a field such as 2^29 wraps to offset 0 and overwrites header 0 in the sector without updating its cached value. `GetHeader` is not affected, because it rejects every field from `BlockHeaderSize / 8` on first.
- IndexTrees.IndexTree.DeleteMatching: takes the value comparer as a parameter. The source's default, `Comparer<V>.Default` when the argument is null, is not modelled.
- DatabaseQueries.DatabaseQuery.constructor: takes no `estimatedCount`. In the source it is only the initial capacity of the lists, and a negative one throws `ArgumentOutOfRangeException`; that path is not modelled.
- Null keys are not modelled for the matchers: a key is always a value (`int` or a string), so the source's `NullReferenceException` on a null string key has no counterpart.
- RecordLemmas.CreateThenFind: proved with `Block.Write` as intended. With `Block.Write` as written, the round trip holds only when each block's content lies in its first sector, that is for block sizes 128 and 4096 (see Findings).

## Findings

| source | as written | input that shows it | evidently intended | confidence | as-written member | corrected member |
|---|---|---|---|---|---|---|
| Internal/Storage/Block.cs:116 | `Read` decides whether to start in the cached first sector by testing `contentSize + readOffset < sectorSize` | a 256-byte block with a 40-byte header whose cached sector holds 1 at the first content byte: the read of one byte returns 0 from the stream | test `headerSize + readOffset < sectorSize`, as `Write` does | not executed | StorageDefects.ReadDefectExample | Storage.Block.Read |
| Internal/Storage/Block.cs:204 | the bytes after the first sector are taken from `buffer` at `curWrite + writeOffset` | a 200-byte write from buffer position 100 at content offset 0 of a 256-byte block with a 40-byte header: the stream gets `buffer[88..200]` instead of `buffer[188..300]` | take them from `bufferOffset` plus the bytes already written | not executed | StorageDefects.StreamWriteDefectExample | Storage.Block.Write |
| Internal/Storage/Block.cs:204 | the same write, seen through `RecordStorage.Create` | a 316-byte record in 256-byte blocks whose last 12 bytes are 1: byte 128 of the second block gets 0 instead of 1 | the record's second chunk written in place | not executed | RecordWriteDefects.SecondChunkExample | RecordLemmas.CreateThenFind |
| Internal/Storage/RecordStorage.cs:447-450 | `MarkAsReusable` sets `NextBlockId` to 0 before it reads it, so `Delete` frees only the first block of a record | a stored record of two blocks: after `Delete` the second block is neither on the free chain nor flagged deleted | read `NextBlockId` before clearing it, so the whole chain is freed | not executed | RecordDefects.DeleteAsWrittenLeaks | RecordDelete.DeleteRecord |
| Internal/Tree/TreeNode.cs:177 | `Split` copies `halfCount` child ids into an array of `halfCount + 1` slots | any internal node with `2 * min + 1` entries: the larger node's last child id is 0, and re-parenting it throws `ArgumentException` | copy `halfCount + 1` child ids | not executed | TreeDefects.SplitCopiesTooFewChildren | TreeNodeLemmas.SplitHalves |
| Internal/Tree/TreeNode.cs:229 | when the parent overflows, `Split()` is called on this node instead of on the parent | a full leaf under a full parent: the node, now holding `min` entries, is split again and reading its middle entry is out of range, and the parent stays overflowing | `parentNode.Split()` | not executed | TreeDefects.SplitUpAsWrittenResplitsChild | TreeNodeLemmas.SplitUpIntoFullRoot |
| Internal/Tree/TreeNode.cs:263 | after removing from a non-root leaf, the fix runs when the leaf still has at least `min` entries | a non-root leaf with exactly `min` entries: removing one leaves `min - 1` entries with no fix | fix the leaf when it falls below `min`, as the comment above that line says | not executed | TreeDefects.RemoveAsWrittenLeavesUnderflow | TreeFixLemmas.RemoveFromLeafRefills |
| Internal/Tree/DiskTreeNodeManager.cs:249-250 | the sweep removes the weak entries whose reference is still alive | one live cached node: the sweep as written forgets it | remove the entries whose reference is dead | not executed | DiskTreeNodeManagerDefects.SweepAsWrittenDropsLiveNode | DiskTreeNodeManagers.Sweep |
| Internal/Tree/DiskTreeNodeManager.cs:236-238 | the trim loop counts `i` up from half the maximum while comparing it with the shrinking queue count | a full queue of 200 nodes keeps 150 | keep the most recent half, 100 nodes | not executed | DiskTreeNodeManagerDefects.TrimAsWrittenKeepsThreeQuarters | DiskTreeNodeManagers.Trimmed |
| Internal/Tree/IndexTree.cs:113-114 | `Delete(key)` on a unique tree removes the entry but never calls `Save` | a tree whose root leaf holds the key: after `Delete(key)` the root's record still holds the key | call `Save` after the removal, as `Insert` and `Delete(key, value)` do | not executed | IndexTreeSaves.DeleteKeyAsWrittenLeavesStaleRecord | IndexTreeSaves.DeleteKeyKeepsStep |
| Internal/Tree/TreeEnumerator.cs:139-171 | `Descend` moves the index down by one before it looks at the node, so from entry j of an internal node it goes into child j - 1 | a root holding 5 over the leaves 3 and 7: a descending scan yields 7 and 5 and then throws `ArgumentOutOfRangeException` | from entry j go into child j, the child just before that entry | not executed | EnumeratorDefects.DescendingScanAsWrittenThrows | TreeWalks.DescendingScan |
