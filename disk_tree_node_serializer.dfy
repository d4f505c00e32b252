/**
 * DiskTreeNodeSerializers: the on-disk form of a B-tree node, as DiskTreeNodeSerializer<K, V>
 * writes and reads it. Both formats start with three little-endian 32-bit words (parent id,
 * entry count, child count), then the entries, then the child ids as 32-bit words. With a
 * fixed-size key an entry is the key's bytes then the value's; with a variable-size key the
 * key's bytes are preceded by their count as a 32-bit word. The value serializer must be of
 * fixed size in both.
 *
 * Encode and Decode state both formats as functions (the key serializer's IsFixedSize picks
 * the entry layout); the methods are the source's loops over a buffer or a growing stream,
 * proved to produce exactly those functions' results. The round trips are proved for
 * serializers whose deserialization inverts their serialization.
 */
module DiskTreeNodeSerializers {
  import opened Bytes
  import opened Errors
  import opened TreeArena
  import opened Serializers
  import BufferHelper

  /** The largest serialized size (exclusive) of a node in the fixed-size format. */
  const MaxNodeSize := 1024 * 64

  /** The serializer's collaborators: the key and the value serializers. */
  datatype NodeSerializer<!K, !V> = NodeSerializer(keySerializer: Serializer<K>, valueSerializer: Serializer<V>)

  /** The constructor: ArgumentNullException for a missing key or value serializer. */
  function NewNodeSerializer<K, V>(keySerializer: Option<Serializer<K>>, valueSerializer: Option<Serializer<V>>)
    : (r: Result<NodeSerializer<K, V>>)
    ensures r.Err? <==> keySerializer.None? || valueSerializer.None?
    ensures r.Err? ==> r.error == ArgumentNull
    ensures r.Ok? ==> r.value.keySerializer == keySerializer.value && r.value.valueSerializer == valueSerializer.value
  {
    if keySerializer.None? then Err(ArgumentNull)
    else if valueSerializer.None? then Err(ArgumentNull)
    else Ok(NodeSerializer(keySerializer.value, valueSerializer.value))
  }

  /** A fixed-size serializer that keeps its promise: every serialization has Length bytes. */
  ghost predicate ExactWidth<T(!new)>(s: Serializer<T>)
  {
    0 <= s.length && forall x :: |s.serialize(x)| == s.length
  }

  /** The fields the format stores in 32-bit words fit them (TreeNode keeps them as uint and int). */
  predicate Storable<K, V>(n: Node<K, V>)
  {
    n.parentId < 0x1_0000_0000 && |n.entries| < 0x8000_0000 && |n.children| < 0x8000_0000
    && forall i | 0 <= i < |n.children| :: n.children[i] < 0x1_0000_0000
  }

  /** Every key's serialization is shorter than 2^31 bytes, as a .NET array is. */
  ghost predicate KeyBytesFit<K, V>(s: NodeSerializer<K, V>, entries: seq<(K, V)>)
  {
    forall i | 0 <= i < |entries| :: |s.keySerializer.serialize(entries[i].0)| < 0x8000_0000
  }

  // The byte images

  /** Parent id, entry count and child count, each as four little-endian bytes. */
  function Header<K, V>(n: Node<K, V>): (r: seq<byte>)
    ensures |r| == 12
  {
    ToLE(n.parentId, 4) + ToLE(|n.entries|, 4) + ToLE(|n.children|, 4)
  }

  /**
   * One entry: with a fixed-size key, the key's bytes then the value's; otherwise the key's byte
   * count as four little-endian bytes first.
   */
  function EntryImage<K, V>(s: NodeSerializer<K, V>, e: (K, V)): (r: seq<byte>)
  {
    var key := s.keySerializer.serialize(e.0);
    if s.keySerializer.isFixedSize then key + s.valueSerializer.serialize(e.1)
    else ToLE(|key|, 4) + key + s.valueSerializer.serialize(e.1)
  }

  /** The entries, one image after another. */
  function EntryBytes<K, V>(s: NodeSerializer<K, V>, entries: seq<(K, V)>): (r: seq<byte>)
  {
    if entries == [] then [] else EntryImage(s, entries[0]) + EntryBytes(s, entries[1..])
  }

  /** The child ids, each as four little-endian bytes. */
  function ChildIdBytes(children: seq<nat>): (r: seq<byte>)
    ensures |r| == 4 * |children|
  {
    if children == [] then [] else ToLE(children[0], 4) + ChildIdBytes(children[1..])
  }

  /** The serialized node: header, entries, child ids. */
  function Image<K, V>(s: NodeSerializer<K, V>, n: Node<K, V>): seq<byte>
  {
    Header(n) + EntryBytes(s, n.entries) + ChildIdBytes(n.children)
  }

  /** The size FixedBothSerialize computes before it allocates the buffer. */
  function FixedSize<K, V>(s: NodeSerializer<K, V>, n: Node<K, V>): int
  {
    4 + 4 + 4 + |n.entries| * (s.keySerializer.length + s.valueSerializer.length) + |n.children| * 4
  }

  /**
   * Serialize: NotSupportedException unless the value serializer is of fixed size; with a
   * fixed-size key too, an exception when the computed size reaches MaxNodeSize.
   */
  function Encode<K, V>(s: NodeSerializer<K, V>, n: Node<K, V>): (r: Result<seq<byte>>)
  {
    if !s.valueSerializer.isFixedSize then Err(NotSupported)
    else if s.keySerializer.isFixedSize && FixedSize(s, n) >= MaxNodeSize then Err(Generic)
    else Ok(Image(s, n))
  }

  // Reading

  /** BufferHelper.ReadUInt32 with the argument checks of its block copy. */
  function ReadU32(data: seq<byte>, offset: int): (r: Result<uint32>)
    ensures r.Ok? <==> 0 <= offset && offset + 4 <= |data|
    ensures r.Ok? ==> r.value == FromLE(data[offset..offset + 4])
  {
    match CopyCheck(data, offset, 4)
    case Some(e) => Err(e)
    case None => Ok(BufferHelper.ReadUInt32(data, offset))
  }

  /** BufferHelper.ReadInt32 with the argument checks of its block copy. */
  function ReadI32(data: seq<byte>, offset: int): (r: Result<int32>)
    ensures r.Ok? <==> 0 <= offset && offset + 4 <= |data|
    ensures r.Ok? ==> r.value == Signed(FromLE(data[offset..offset + 4]), 4)
  {
    match CopyCheck(data, offset, 4)
    case Some(e) => Err(e)
    case None => Ok(BufferHelper.ReadInt32(data, offset))
  }

  /** A list read so far and the offset after it. */
  type Read<T> = Result<(seq<T>, int)>

  /** One more element in front of what the rest of a read gives. */
  function Cons<T>(x: T, rest: Read<T>): (r: Read<T>)
    ensures r.Ok? <==> rest.Ok?
    ensures r.Ok? ==> r.value == ([x] + rest.value.0, rest.value.1)
  {
    if rest.Err? then rest else Ok(([x] + rest.value.0, rest.value.1))
  }

  /** The elements already read, in front of what the rest of a read gives. */
  function Join<T>(xs: seq<T>, rest: Read<T>): (r: Read<T>)
    ensures r.Ok? <==> rest.Ok?
    ensures r.Ok? ==> r.value == (xs + rest.value.0, rest.value.1)
  {
    if rest.Err? then Err(rest.error) else Ok((xs + rest.value.0, rest.value.1))
  }

  lemma JoinNil<T>(rest: Read<T>)
    ensures Join([], rest) == rest
  {
    if rest.Ok? {
      assert [] + rest.value.0 == rest.value.0;
    }
  }

  lemma JoinCons<T>(xs: seq<T>, x: T, rest: Read<T>)
    ensures Join(xs, Cons(x, rest)) == Join(xs + [x], rest)
  {
    if rest.Ok? {
      assert xs + ([x] + rest.value.0) == (xs + [x]) + rest.value.0;
    }
  }

  /** Reading k entries from offset, one entry read there comes first. */
  lemma EntriesAdvance<K, V>(s: NodeSerializer<K, V>, data: seq<byte>, offset: int, k: nat, k1: nat,
                             entries: seq<(K, V)>, goal: Read<(K, V)>)
    requires k > 0 && k1 == k - 1 && EntryAt(s, data, offset).Ok?
    requires Join(entries, Entries(s, data, offset, k)) == goal
    ensures var one := EntryAt(s, data, offset).value;
      Join(entries + [one.0], Entries(s, data, one.1, k1)) == goal
  {
    var one := EntryAt(s, data, offset).value;
    JoinCons(entries, one.0, Entries(s, data, one.1, k1));
  }

  /** Reading k entries from offset fails as one entry read there fails. */
  lemma EntriesFail<K, V>(s: NodeSerializer<K, V>, data: seq<byte>, offset: int, k: nat,
                          entries: seq<(K, V)>, goal: Read<(K, V)>)
    requires k > 0 && EntryAt(s, data, offset).Err?
    requires Join(entries, Entries(s, data, offset, k)) == goal
    ensures goal == Err(EntryAt(s, data, offset).error)
  {
  }

  /**
   * One entry read at offset, and the offset after it. With a fixed-size key: Length key bytes,
   * then Length value bytes. Otherwise: a signed 32-bit key length, that many key bytes, then
   * Length value bytes.
   */
  function EntryAt<K, V>(s: NodeSerializer<K, V>, data: seq<byte>, offset: int): (r: Result<((K, V), int)>)
  {
    var valueLength := s.valueSerializer.length;
    if s.keySerializer.isFixedSize then
      var keyLength := s.keySerializer.length;
      match s.keySerializer.deserialize(data, offset, keyLength)
      case Err(e) => Err(e)
      case Ok(key) =>
        match s.valueSerializer.deserialize(data, offset + keyLength, valueLength)
        case Err(e) => Err(e)
        case Ok(value) => Ok(((key, value), offset + keyLength + valueLength))
    else
      match ReadI32(data, offset)
      case Err(e) => Err(e)
      case Ok(keyLength) =>
        match s.keySerializer.deserialize(data, offset + 4, keyLength)
        case Err(e) => Err(e)
        case Ok(key) =>
          match s.valueSerializer.deserialize(data, offset + 4 + keyLength, valueLength)
          case Err(e) => Err(e)
          case Ok(value) => Ok(((key, value), offset + 4 + keyLength + valueLength))
  }

  /** The entry loop of both deserializers: count entries from offset; the first failure throws. */
  function Entries<K, V>(s: NodeSerializer<K, V>, data: seq<byte>, offset: int, count: nat): (r: Read<(K, V)>)
    ensures r.Ok? ==> |r.value.0| == count
    decreases count
  {
    if count == 0 then Ok(([], offset))
    else
      match EntryAt(s, data, offset)
      case Err(e) => Err(e)
      case Ok(one) => Cons(one.0, Entries(s, data, one.1, count - 1))
  }

  /** The child id loop of both deserializers. */
  function ChildIds(data: seq<byte>, offset: int, count: nat): (r: Read<nat>)
    ensures r.Ok? ==> |r.value.0| == count && forall i | 0 <= i < count :: r.value.0[i] < 0x1_0000_0000
    decreases count
  {
    if count == 0 then Ok(([], offset))
    else
      match ReadU32(data, offset)
      case Err(e) => Err(e)
      case Ok(c) => Cons(c as nat, ChildIds(data, offset + 4, count - 1))
  }

  /** The header, the entries, the child ids, and a node with the id the caller gives. */
  function DecodeImage<K, V>(s: NodeSerializer<K, V>, id: uint32, data: seq<byte>): (r: Result<Node<K, V>>)
    ensures r.Ok? ==> r.value.id == id && r.value.parentId < 0x1_0000_0000
    ensures r.Ok? ==> forall i | 0 <= i < |r.value.children| :: r.value.children[i] < 0x1_0000_0000
  {
    match ReadU32(data, 0)
    case Err(e) => Err(e)
    case Ok(parentId) =>
      match ReadU32(data, 4)
      case Err(e) => Err(e)
      case Ok(entryCount) =>
        match ReadU32(data, 8)
        case Err(e) => Err(e)
        case Ok(childCount) =>
          match Entries(s, data, 12, entryCount)
          case Err(e) => Err(e)
          case Ok(entries) =>
            match ChildIds(data, entries.1, childCount)
            case Err(e) => Err(e)
            case Ok(children) => Ok(Node(id, parentId, entries.0, children.0))
  }

  /** Deserialize: NotSupportedException unless the value serializer is of fixed size. */
  function Decode<K, V>(s: NodeSerializer<K, V>, id: uint32, data: seq<byte>): (r: Result<Node<K, V>>)
  {
    if !s.valueSerializer.isFixedSize then Err(NotSupported) else DecodeImage(s, id, data)
  }

  // The serializer's loops

  /** FixedBothSerialize: the size check, a buffer of that size, the header, the entries, the child ids. */
  method FixedBothSerialize<K(!new), V(!new)>(s: NodeSerializer<K, V>, node: Node<K, V>) returns (r: Result<seq<byte>>)
    requires s.keySerializer.isFixedSize && s.valueSerializer.isFixedSize
    requires ExactWidth(s.keySerializer) && ExactWidth(s.valueSerializer) && Storable(node)
    ensures r == Encode(s, node)
  {
    var keyLength := s.keySerializer.length;
    var valueLength := s.valueSerializer.length;
    var entrySize := keyLength + valueLength;
    var bufferSize := 4 + 4 + 4 + |node.entries| * entrySize + |node.children| * 4;
    if bufferSize >= MaxNodeSize {
      return Err(Generic);
    }
    ImageLength(s, node);
    var buffer := new byte[bufferSize];
    ghost var blank := buffer[..];
    WriteHeader(node, buffer);
    var bufferOffset := WriteFixedEntries(s, node.entries, buffer, 12);
    SpliceAdjacent(blank, 0, Header(node), EntryBytes(s, node.entries));
    bufferOffset := WriteChildIds(node.children, buffer, bufferOffset);
    SpliceAdjacent(blank, 0, Header(node) + EntryBytes(s, node.entries), ChildIdBytes(node.children));
    assert buffer[..] == Image(s, node);
    return Ok(buffer[..]);
  }

  /** The three header words at offsets 0, 4 and 8. */
  method WriteHeader<K, V>(node: Node<K, V>, buffer: array<byte>)
    requires Storable(node) && 12 <= buffer.Length
    modifies buffer
    ensures buffer[..] == Splice(old(buffer[..]), 0, Header(node))
  {
    ghost var blank := buffer[..];
    Pow256Values();
    BufferHelper.WriteBufferUInt32(node.parentId, buffer, 0);
    BufferHelper.WriteBufferInt32(|node.entries|, buffer, 4);
    SpliceAdjacent(blank, 0, ToLE(node.parentId, 4), ToLE(|node.entries|, 4));
    BufferHelper.WriteBufferInt32(|node.children|, buffer, 8);
    SpliceAdjacent(blank, 0, ToLE(node.parentId, 4) + ToLE(|node.entries|, 4), ToLE(|node.children|, 4));
  }

  /** The entry loop of FixedBothSerialize: each key's and value's Length bytes at the running offset. */
  method WriteFixedEntries<K(!new), V(!new)>(s: NodeSerializer<K, V>, entries: seq<(K, V)>, buffer: array<byte>, offset: nat)
    returns (end: nat)
    requires s.keySerializer.isFixedSize && ExactWidth(s.keySerializer) && ExactWidth(s.valueSerializer)
    requires offset + |EntryBytes(s, entries)| <= buffer.Length
    modifies buffer
    ensures end == offset + |EntryBytes(s, entries)|
    ensures buffer[..] == Splice(old(buffer[..]), offset, EntryBytes(s, entries))
  {
    ghost var before := buffer[..];
    var keyLength := s.keySerializer.length;
    var valueLength := s.valueSerializer.length;
    var bufferOffset := offset;
    for i := 0 to |entries|
      invariant bufferOffset == offset + |EntryBytes(s, entries[..i])| <= offset + |EntryBytes(s, entries)|
      invariant buffer[..] == Splice(before, offset, EntryBytes(s, entries[..i]))
    {
      EntryBytesStep(s, entries, i);
      bufferOffset := WriteFixedEntryAt(s, entries[i], buffer, before, offset, EntryBytes(s, entries[..i]), bufferOffset);
    }
    assert entries[..|entries|] == entries;
    return bufferOffset;
  }

  /** One turn of that loop: after the bytes written so far, the image of one more entry. */
  method WriteFixedEntryAt<K(!new), V(!new)>(s: NodeSerializer<K, V>, entry: (K, V), buffer: array<byte>,
                                             ghost before: seq<byte>, offset: nat, ghost written: seq<byte>,
                                             bufferOffset: nat) returns (end: nat)
    requires s.keySerializer.isFixedSize && ExactWidth(s.keySerializer) && ExactWidth(s.valueSerializer)
    requires bufferOffset == offset + |written| && bufferOffset + |EntryImage(s, entry)| <= buffer.Length == |before|
    requires buffer[..] == Splice(before, offset, written)
    modifies buffer
    ensures end == bufferOffset + |EntryImage(s, entry)|
    ensures buffer[..] == Splice(before, offset, written + EntryImage(s, entry))
  {
    ghost var image := EntryImage(s, entry);
    end := WriteFixedEntry(s, entry, buffer, bufferOffset);
    SpliceAdjacent(before, offset, written, image);
  }

  /** The body of that loop: the entry's key, then its value, at bufferOffset. */
  method WriteFixedEntry<K(!new), V(!new)>(s: NodeSerializer<K, V>, entry: (K, V), buffer: array<byte>, bufferOffset: nat)
    returns (end: nat)
    requires s.keySerializer.isFixedSize && ExactWidth(s.keySerializer) && ExactWidth(s.valueSerializer)
    requires bufferOffset + |EntryImage(s, entry)| <= buffer.Length
    modifies buffer
    ensures end == bufferOffset + |EntryImage(s, entry)|
    ensures buffer[..] == Splice(old(buffer[..]), bufferOffset, EntryImage(s, entry))
  {
    ghost var before := buffer[..];
    var keyLength := s.keySerializer.length;
    var valueLength := s.valueSerializer.length;
    var key := s.keySerializer.serialize(entry.0);
    var value := s.valueSerializer.serialize(entry.1);
    ghost var image := EntryImage(s, entry);
    assert image == key + value;
    assert key[0..keyLength] == key && value[0..valueLength] == value;
    BufferHelper.BlockCopy(key, 0, buffer, bufferOffset, keyLength);
    end := bufferOffset + keyLength;
    BufferHelper.BlockCopy(value, 0, buffer, end, valueLength);
    SpliceAdjacent(before, bufferOffset, key, value);
    assert buffer[..] == Splice(before, bufferOffset, image);
    end := end + valueLength;
  }

  /** The child id loop of FixedBothSerialize: each id as a word at the running offset. */
  method WriteChildIds(children: seq<nat>, buffer: array<byte>, offset: nat) returns (end: nat)
    requires forall i | 0 <= i < |children| :: children[i] < 0x1_0000_0000
    requires offset + 4 * |children| <= buffer.Length
    modifies buffer
    ensures end == offset + 4 * |children|
    ensures buffer[..] == Splice(old(buffer[..]), offset, ChildIdBytes(children))
  {
    ghost var before := buffer[..];
    var bufferOffset := offset;
    for i := 0 to |children|
      invariant bufferOffset == offset + 4 * i
      invariant buffer[..] == Splice(before, offset, ChildIdBytes(children[..i]))
    {
      ChildIdBytesStep(children, i);
      BufferHelper.WriteBufferUInt32(children[i], buffer, bufferOffset);
      SpliceAdjacent(before, offset, ChildIdBytes(children[..i]), BufferHelper.UInt32Bytes(children[i]));
      bufferOffset := bufferOffset + 4;
    }
    assert children[..|children|] == children;
    return bufferOffset;
  }

  /**
   * FixedValueSerialize: the same fields written one after another to a growing stream, each
   * key preceded by its byte count.
   */
  method FixedValueSerialize<K, V>(s: NodeSerializer<K, V>, node: Node<K, V>) returns (r: seq<byte>)
    requires s.valueSerializer.isFixedSize && !s.keySerializer.isFixedSize
    requires Storable(node) && KeyBytesFit(s, node.entries)
    ensures Ok(r) == Encode(s, node)
  {
    Pow256Values();
    var ms: seq<byte> := [];
    ms := ms + BufferHelper.UInt32Bytes(node.parentId);
    ms := ms + BufferHelper.UInt32Bytes(|node.entries|);
    ms := ms + BufferHelper.UInt32Bytes(|node.children|);
    assert ms == Header(node);
    ms := AppendVariableEntries(s, node.entries, ms);
    ms := AppendChildIds(node.children, ms);
    return ms;
  }

  /** The child id loop of FixedValueSerialize: each id as a word, appended. */
  method AppendChildIds(childrenIds: seq<nat>, ms: seq<byte>) returns (r: seq<byte>)
    requires forall i | 0 <= i < |childrenIds| :: childrenIds[i] < 0x1_0000_0000
    ensures r == ms + ChildIdBytes(childrenIds)
  {
    r := ms;
    for i := 0 to |childrenIds|
      invariant r == ms + ChildIdBytes(childrenIds[..i])
    {
      ChildIdBytesStep(childrenIds, i);
      r := r + BufferHelper.UInt32Bytes(childrenIds[i]);
    }
    assert childrenIds[..|childrenIds|] == childrenIds;
  }

  /** The entry loop of FixedValueSerialize: key length, key bytes, value bytes, appended. */
  method AppendVariableEntries<K, V>(s: NodeSerializer<K, V>, entries: seq<(K, V)>, ms: seq<byte>) returns (r: seq<byte>)
    requires !s.keySerializer.isFixedSize && KeyBytesFit(s, entries)
    ensures r == ms + EntryBytes(s, entries)
  {
    Pow256Values();
    r := ms;
    for i := 0 to |entries|
      invariant r == ms + EntryBytes(s, entries[..i])
    {
      r := AppendVariableEntryAt(s, entries, i, ms, r);
    }
    assert entries[..|entries|] == entries;
  }

  /** One turn of that loop: after the entries before i, entry i. */
  method AppendVariableEntryAt<K, V>(s: NodeSerializer<K, V>, entries: seq<(K, V)>, i: nat, ghost ms: seq<byte>,
                                     written: seq<byte>) returns (r: seq<byte>)
    requires !s.keySerializer.isFixedSize && i < |entries| && KeyBytesFit(s, entries)
    requires written == ms + EntryBytes(s, entries[..i])
    ensures r == ms + EntryBytes(s, entries[..i + 1])
  {
    ghost var before, image := EntryBytes(s, entries[..i]), EntryImage(s, entries[i]);
    EntryBytesStep(s, entries, i);
    r := AppendVariableEntry(s, entries[i], written);
    AppendAssociates(ms, before, image);
  }

  lemma AppendAssociates<T>(x: seq<T>, y: seq<T>, z: seq<T>)
    ensures (x + y) + z == x + (y + z)
  {
  }

  /** The body of that loop: the key's byte count, the key and the value, appended to ms. */
  method AppendVariableEntry<K, V>(s: NodeSerializer<K, V>, entry: (K, V), ms: seq<byte>) returns (r: seq<byte>)
    requires !s.keySerializer.isFixedSize && |s.keySerializer.serialize(entry.0)| < 0x8000_0000
    ensures r == ms + EntryImage(s, entry)
  {
    Pow256Values();
    var key := s.keySerializer.serialize(entry.0);
    var value := s.valueSerializer.serialize(entry.1);
    r := ms + BufferHelper.Int32Bytes(|key|);
    r := r + key;
    r := r + value;
    assert r == ms + (ToLE(|key|, 4) + key + value);
  }

  /** Serialize: the dispatch on the two serializers' IsFixedSize. */
  method Serialize<K(!new), V(!new)>(s: NodeSerializer<K, V>, node: Node<K, V>) returns (r: Result<seq<byte>>)
    requires Storable(node)
    requires s.keySerializer.isFixedSize ==> ExactWidth(s.keySerializer) && ExactWidth(s.valueSerializer)
    requires !s.keySerializer.isFixedSize ==> KeyBytesFit(s, node.entries)
    ensures r == Encode(s, node)
  {
    if s.valueSerializer.isFixedSize {
      if s.keySerializer.isFixedSize {
        r := FixedBothSerialize(s, node);
        return;
      }
      var bytes := FixedValueSerialize(s, node);
      return Ok(bytes);
    }
    return Err(NotSupported);
  }

  // The deserializer's loops

  /** The three header words, read in order; the first that does not fit the data throws. */
  method ReadHeader(data: seq<byte>) returns (r: Result<(uint32, uint32, uint32)>)
    ensures r.Ok? <==> 12 <= |data|
    ensures r.Ok? ==> r.value == (ReadU32(data, 0).value, ReadU32(data, 4).value, ReadU32(data, 8).value)
    ensures r.Err? ==> r.error == (if |data| < 4 then ReadU32(data, 0) else if |data| < 8 then ReadU32(data, 4) else ReadU32(data, 8)).error
  {
    var bufferOffset := 0;
    var parentId := ReadU32(data, bufferOffset);
    if parentId.Err? {
      return Err(parentId.error);
    }
    bufferOffset := bufferOffset + 4;
    var entryCount := ReadU32(data, bufferOffset);
    if entryCount.Err? {
      return Err(entryCount.error);
    }
    bufferOffset := bufferOffset + 4;
    var childCount := ReadU32(data, bufferOffset);
    if childCount.Err? {
      return Err(childCount.error);
    }
    return Ok((parentId.value, entryCount.value, childCount.value));
  }

  /** The child id loop: count words from offset. */
  method ReadChildIds(data: seq<byte>, offset: int, count: nat) returns (r: Read<nat>)
    ensures r == ChildIds(data, offset, count)
  {
    var childrenIds: seq<nat> := [];
    var dataOffset := offset;
    var i := 0;
    JoinNil(ChildIds(data, offset, count));
    while i < count
      invariant 0 <= i <= count
      invariant Join(childrenIds, ChildIds(data, dataOffset, count - i)) == ChildIds(data, offset, count)
    {
      var id := ReadU32(data, dataOffset);
      if id.Err? {
        return Err(id.error);
      }
      ghost var (o0, i0) := (dataOffset, i);
      JoinCons(childrenIds, id.value as nat, ChildIds(data, o0 + 4, count - i0 - 1));
      childrenIds := childrenIds + [id.value as nat];
      dataOffset, i := dataOffset + 4, i + 1;
      assert ChildIds(data, dataOffset, count - i) == ChildIds(data, o0 + 4, count - i0 - 1);
    }
    assert childrenIds + [] == childrenIds;
    return Ok((childrenIds, dataOffset));
  }

  /** FixedBothDeserialize's entry loop: entries of fixed-size keys and values from byte 12. */
  method ReadFixedEntries<K, V>(s: NodeSerializer<K, V>, data: seq<byte>, count: nat) returns (r: Read<(K, V)>)
    requires s.keySerializer.isFixedSize
    ensures r == Entries(s, data, 12, count)
  {
    ghost var goal := Entries(s, data, 12, count);
    var entries: seq<(K, V)> := [];
    var bufferOffset := 12;
    var i := 0;
    ghost var left := count;
    JoinNil(goal);
    while i < count
      invariant 0 <= i <= count && left == count - i
      invariant Join(entries, Entries(s, data, bufferOffset, left)) == goal
    {
      var entry := ReadFixedEntry(s, data, bufferOffset);
      if entry.Err? {
        EntriesFail(s, data, bufferOffset, left, entries, goal);
        return Err(entry.error);
      }
      EntriesAdvance(s, data, bufferOffset, left, left - 1, entries, goal);
      entries := entries + [entry.value.0];
      bufferOffset, i, left := entry.value.1, i + 1, left - 1;
    }
    assert entries + [] == entries;
    return Ok((entries, bufferOffset));
  }

  /** FixedValueDeserialize's entry loop: entries led by their key length, from byte 12. */
  method ReadVariableEntries<K, V>(s: NodeSerializer<K, V>, data: seq<byte>, count: nat) returns (r: Read<(K, V)>)
    requires !s.keySerializer.isFixedSize
    ensures r == Entries(s, data, 12, count)
  {
    ghost var goal := Entries(s, data, 12, count);
    var entries: seq<(K, V)> := [];
    var dataOffset := 12;
    var i := 0;
    ghost var left := count;
    JoinNil(goal);
    while i < count
      invariant 0 <= i <= count && left == count - i
      invariant Join(entries, Entries(s, data, dataOffset, left)) == goal
    {
      var entry := ReadVariableEntry(s, data, dataOffset);
      if entry.Err? {
        EntriesFail(s, data, dataOffset, left, entries, goal);
        return Err(entry.error);
      }
      EntriesAdvance(s, data, dataOffset, left, left - 1, entries, goal);
      entries := entries + [entry.value.0];
      dataOffset, i, left := entry.value.1, i + 1, left - 1;
    }
    assert entries + [] == entries;
    return Ok((entries, dataOffset));
  }

  /** The body of FixedBothDeserialize's entry loop: key, then value, each of its Length. */
  method ReadFixedEntry<K, V>(s: NodeSerializer<K, V>, data: seq<byte>, bufferOffset: int) returns (r: Result<((K, V), int)>)
    requires s.keySerializer.isFixedSize
    ensures r == EntryAt(s, data, bufferOffset)
  {
    var keyLength := s.keySerializer.length;
    var valueLength := s.valueSerializer.length;
    var key := s.keySerializer.deserialize(data, bufferOffset, keyLength);
    if key.Err? {
      return Err(key.error);
    }
    var offset := bufferOffset + keyLength;
    var value := s.valueSerializer.deserialize(data, offset, valueLength);
    if value.Err? {
      return Err(value.error);
    }
    offset := offset + valueLength;
    return Ok(((key.value, value.value), offset));
  }

  /** The body of FixedValueDeserialize's entry loop: key length, key, then value. */
  method ReadVariableEntry<K, V>(s: NodeSerializer<K, V>, data: seq<byte>, dataOffset: int) returns (r: Result<((K, V), int)>)
    requires !s.keySerializer.isFixedSize
    ensures r == EntryAt(s, data, dataOffset)
  {
    var valueLength := s.valueSerializer.length;
    var keyLength := ReadI32(data, dataOffset);
    if keyLength.Err? {
      return Err(keyLength.error);
    }
    var offset := dataOffset + 4;
    var key := s.keySerializer.deserialize(data, offset, keyLength.value);
    if key.Err? {
      return Err(key.error);
    }
    offset := offset + keyLength.value;
    var value := s.valueSerializer.deserialize(data, offset, valueLength);
    if value.Err? {
      return Err(value.error);
    }
    offset := offset + valueLength;
    return Ok(((key.value, value.value), offset));
  }

  /** FixedBothDeserialize: header, then entryCount fixed-size entries, then the child ids. */
  method FixedBothDeserialize<K, V>(s: NodeSerializer<K, V>, id: uint32, data: seq<byte>) returns (r: Result<Node<K, V>>)
    requires s.keySerializer.isFixedSize && s.valueSerializer.isFixedSize
    ensures r == Decode(s, id, data)
  {
    var header := ReadHeader(data);
    if header.Err? {
      return Err(header.error);
    }
    var (parentId, entryCount, childIdCount) := header.value;
    var entries := ReadFixedEntries(s, data, entryCount);
    if entries.Err? {
      return Err(entries.error);
    }
    var children := ReadChildIds(data, entries.value.1, childIdCount);
    if children.Err? {
      return Err(children.error);
    }
    return Ok(Node(id, parentId, entries.value.0, children.value.0));
  }

  /** FixedValueDeserialize: header, then entryCount entries led by their key length, then the child ids. */
  method FixedValueDeserialize<K, V>(s: NodeSerializer<K, V>, id: uint32, data: seq<byte>) returns (r: Result<Node<K, V>>)
    requires !s.keySerializer.isFixedSize && s.valueSerializer.isFixedSize
    ensures r == Decode(s, id, data)
  {
    var header := ReadHeader(data);
    if header.Err? {
      return Err(header.error);
    }
    var (parentId, entryCount, childrenIdCount) := header.value;
    var entries := ReadVariableEntries(s, data, entryCount);
    if entries.Err? {
      return Err(entries.error);
    }
    var children := ReadChildIds(data, entries.value.1, childrenIdCount);
    if children.Err? {
      return Err(children.error);
    }
    return Ok(Node(id, parentId, entries.value.0, children.value.0));
  }

  /** Deserialize: the dispatch on the two serializers' IsFixedSize. */
  method Deserialize<K, V>(s: NodeSerializer<K, V>, id: uint32, data: seq<byte>) returns (r: Result<Node<K, V>>)
    ensures r == Decode(s, id, data)
  {
    if s.valueSerializer.isFixedSize {
      if s.keySerializer.isFixedSize {
        r := FixedBothDeserialize(s, id, data);
        return;
      }
      r := FixedValueDeserialize(s, id, data);
      return;
    }
    return Err(NotSupported);
  }

  // Lengths and concatenation

  lemma {:induction false} EntryBytesConcat<K, V>(s: NodeSerializer<K, V>, x: seq<(K, V)>, y: seq<(K, V)>)
    ensures EntryBytes(s, x + y) == EntryBytes(s, x) + EntryBytes(s, y)
    decreases |x|
  {
    if x == [] {
      assert x + y == y;
    } else {
      assert (x + y)[0] == x[0] && (x + y)[1..] == x[1..] + y;
      EntryBytesConcat(s, x[1..], y);
    }
  }

  /** Writing entry i after the first i: the bytes of the first i + 1, still inside the whole. */
  lemma EntryBytesStep<K, V>(s: NodeSerializer<K, V>, entries: seq<(K, V)>, i: nat)
    requires i < |entries|
    ensures EntryBytes(s, entries[..i + 1]) == EntryBytes(s, entries[..i]) + EntryImage(s, entries[i])
    ensures |EntryBytes(s, entries[..i + 1])| <= |EntryBytes(s, entries)|
  {
    assert entries[..i + 1] == entries[..i] + [entries[i]];
    EntryBytesConcat(s, entries[..i], [entries[i]]);
    assert entries == entries[..i + 1] + entries[i + 1..];
    EntryBytesConcat(s, entries[..i + 1], entries[i + 1..]);
  }

  /** Three splices one after another are one splice of the three byte runs. */
  lemma SpliceThree<T>(s: seq<T>, offset: nat, w: seq<T>, x: seq<T>, y: seq<T>)
    requires offset + |w| + |x| + |y| <= |s|
    ensures Splice(Splice(Splice(s, offset, w), offset + |w|, x), offset + |w| + |x|, y) == Splice(s, offset, w + x + y)
  {
    SpliceAdjacent(s, offset, w, x);
    SpliceAdjacent(s, offset, w + x, y);
  }

  lemma {:induction false} ChildIdBytesConcat(x: seq<nat>, y: seq<nat>)
    ensures ChildIdBytes(x + y) == ChildIdBytes(x) + ChildIdBytes(y)
    decreases |x|
  {
    if x == [] {
      assert x + y == y;
    } else {
      assert (x + y)[0] == x[0] && (x + y)[1..] == x[1..] + y;
      ChildIdBytesConcat(x[1..], y);
    }
  }

  lemma ChildIdBytesStep(children: seq<nat>, i: nat)
    requires i < |children| && children[i] < 0x1_0000_0000
    ensures ChildIdBytes(children[..i + 1]) == ChildIdBytes(children[..i]) + BufferHelper.UInt32Bytes(children[i])
  {
    assert children[..i + 1] == children[..i] + [children[i]];
    ChildIdBytesConcat(children[..i], [children[i]]);
  }

  lemma {:induction false} EntryBytesLength<K(!new), V(!new)>(s: NodeSerializer<K, V>, entries: seq<(K, V)>)
    requires s.keySerializer.isFixedSize && ExactWidth(s.keySerializer) && ExactWidth(s.valueSerializer)
    ensures |EntryBytes(s, entries)| == |entries| * (s.keySerializer.length + s.valueSerializer.length)
  {
    if entries != [] {
      EntryBytesLength(s, entries[1..]);
      var w := s.keySerializer.length + s.valueSerializer.length;
      assert |entries| * w == (|entries| - 1) * w + w;
    }
  }

  /** The fixed-size format has exactly the size FixedBothSerialize computes. */
  lemma ImageLength<K(!new), V(!new)>(s: NodeSerializer<K, V>, n: Node<K, V>)
    requires s.keySerializer.isFixedSize && ExactWidth(s.keySerializer) && ExactWidth(s.valueSerializer)
    ensures |Image(s, n)| == FixedSize(s, n)
  {
    EntryBytesLength(s, n.entries);
  }

  /** So a node that serializes in the fixed-size format takes fewer than MaxNodeSize bytes. */
  lemma FixedFormatBounded<K(!new), V(!new)>(s: NodeSerializer<K, V>, n: Node<K, V>)
    requires s.keySerializer.isFixedSize && ExactWidth(s.keySerializer) && ExactWidth(s.valueSerializer)
    ensures Encode(s, n).Ok? ==> |Encode(s, n).value| < MaxNodeSize
  {
    ImageLength(s, n);
  }

  // Round trips

  lemma ReadI32Inside(pre: seq<byte>, v: nat, post: seq<byte>)
    requires v < 0x8000_0000
    ensures ReadI32(pre + ToLE(v, 4) + post, |pre|) == Ok(v)
  {
    var data := pre + ToLE(v, 4) + post;
    assert data[|pre|..|pre| + 4] == ToLE(v, 4);
    Pow256Values();
    FromLEToLE(v, 4);
  }

  /** What the entry loops need of a key: with a variable-size key, a serialization under 2^31 bytes. */
  ghost predicate KeyFits<K, V>(s: NodeSerializer<K, V>, e: (K, V))
  {
    !s.keySerializer.isFixedSize ==> |s.keySerializer.serialize(e.0)| < 0x8000_0000
  }

  /** What the round trips need of the two serializers. */
  ghost predicate Faithful<K(!new), V(!new)>(s: NodeSerializer<K, V>)
  {
    Sound(s.keySerializer) && Sound(s.valueSerializer) && ExactWidth(s.valueSerializer)
    && (s.keySerializer.isFixedSize ==> ExactWidth(s.keySerializer))
  }

  /** One fixed-size entry read back from inside a larger buffer. */
  lemma FixedEntryInside<K(!new), V(!new)>(s: NodeSerializer<K, V>, pre: seq<byte>, e: (K, V), post: seq<byte>)
    requires Faithful(s) && s.keySerializer.isFixedSize
    ensures EntryAt(s, pre + EntryImage(s, e) + post, |pre|) == Ok((e, |pre| + |EntryImage(s, e)|))
  {
    var key := s.keySerializer.serialize(e.0);
    var value := s.valueSerializer.serialize(e.1);
    var data := pre + EntryImage(s, e) + post;
    assert data == pre + key + (value + post);
    assert s.keySerializer.deserialize(pre + key + (value + post), |pre|, |key|) == Ok(e.0);
    assert data == (pre + key) + value + post;
    assert s.valueSerializer.deserialize((pre + key) + value + post, |pre + key|, |value|) == Ok(e.1);
  }

  /** One variable-key entry read back from inside a larger buffer. */
  lemma VariableEntryInside<K(!new), V(!new)>(s: NodeSerializer<K, V>, pre: seq<byte>, e: (K, V), post: seq<byte>)
    requires Faithful(s) && !s.keySerializer.isFixedSize && KeyFits(s, e)
    ensures EntryAt(s, pre + EntryImage(s, e) + post, |pre|) == Ok((e, |pre| + |EntryImage(s, e)|))
  {
    var key := s.keySerializer.serialize(e.0);
    var value := s.valueSerializer.serialize(e.1);
    var size := ToLE(|key|, 4);
    var data := pre + EntryImage(s, e) + post;
    assert data == pre + size + (key + value + post);
    ReadI32Inside(pre, |key|, key + value + post);
    assert data == (pre + size) + key + (value + post);
    assert s.keySerializer.deserialize((pre + size) + key + (value + post), |pre + size|, |key|) == Ok(e.0);
    assert data == (pre + size + key) + value + post;
    assert s.valueSerializer.deserialize((pre + size + key) + value + post, |pre + size + key|, |value|) == Ok(e.1);
  }

  /** bytes sit in data at offset. */
  ghost predicate SitsAt(data: seq<byte>, offset: nat, bytes: seq<byte>)
  {
    offset + |bytes| <= |data| && data[offset..offset + |bytes|] == bytes
  }

  /** Where whole, which is x + y, sits at offset, x sits at offset and y right after it. */
  lemma SliceSplit(data: seq<byte>, offset: nat, whole: seq<byte>, x: seq<byte>, y: seq<byte>)
    requires whole == x + y && SitsAt(data, offset, whole)
    ensures SitsAt(data, offset, x) && SitsAt(data, offset + |x|, y)
  {
    forall i | 0 <= i < |x|
      ensures data[offset + i] == x[i]
    {
      assert whole[i] == (x + y)[i];
    }
    forall i | 0 <= i < |y|
      ensures data[offset + |x| + i] == y[i]
    {
      assert whole[|x| + i] == (x + y)[|x| + i];
    }
  }

  /** Every entry is read back where its image sits. */
  ghost predicate EntriesRead<K(!new), V(!new)>(s: NodeSerializer<K, V>)
  {
    forall data, offset: nat, e {:trigger SitsAt(data, offset, EntryImage(s, e))} |
      KeyFits(s, e) && SitsAt(data, offset, EntryImage(s, e))
      :: EntryAt(s, data, offset) == Ok((e, offset + |EntryImage(s, e)|))
  }

  /** Faithful serializers read every entry back. */
  lemma FaithfulEntriesRead<K(!new), V(!new)>(s: NodeSerializer<K, V>)
    requires Faithful(s)
    ensures EntriesRead(s)
  {
    forall data, offset: nat, e | KeyFits(s, e) && SitsAt(data, offset, EntryImage(s, e))
      ensures EntryAt(s, data, offset) == Ok((e, offset + |EntryImage(s, e)|))
    {
      EntryAtImage(s, data, offset, e);
    }
  }

  /** Each entry is read at the offset where the images of those before it end. */
  ghost predicate ReadableAt<K, V>(s: NodeSerializer<K, V>, data: seq<byte>, offset: nat, entries: seq<(K, V)>)
    decreases |entries|
  {
    entries == []
    || (EntryAt(s, data, offset) == Ok((entries[0], offset + |EntryImage(s, entries[0])|))
        && ReadableAt(s, data, offset + |EntryImage(s, entries[0])|, entries[1..]))
  }

  /** Where the entries' images sit at offset, each entry is read back in turn. */
  lemma {:induction false} EntriesReadable<K(!new), V(!new)>(s: NodeSerializer<K, V>, data: seq<byte>, offset: nat, entries: seq<(K, V)>)
    requires EntriesRead(s) && forall i | 0 <= i < |entries| :: KeyFits(s, entries[i])
    requires SitsAt(data, offset, EntryBytes(s, entries))
    ensures ReadableAt(s, data, offset, entries)
    decreases |entries|
  {
    if entries != [] {
      var e, tail := entries[0], entries[1..];
      EntryBytesCons(s, entries);
      SliceSplit(data, offset, EntryBytes(s, entries), EntryImage(s, e), EntryBytes(s, tail));
      assert forall i | 0 <= i < |tail| :: tail[i] == entries[i + 1];
      EntriesReadable(s, data, offset + |EntryImage(s, e)|, tail);
    }
  }

  /** The images of non-empty entries are the first entry's image, then the others'. */
  lemma EntryBytesCons<K, V>(s: NodeSerializer<K, V>, entries: seq<(K, V)>)
    requires entries != []
    ensures EntryBytes(s, entries) == EntryImage(s, entries[0]) + EntryBytes(s, entries[1..])
  {
  }

  /** The entry loop of the deserializer reads back entries that are read back one by one. */
  lemma {:induction false} EntriesRoundTrip<K, V>(s: NodeSerializer<K, V>, data: seq<byte>, offset: nat, entries: seq<(K, V)>)
    requires ReadableAt(s, data, offset, entries)
    ensures Entries(s, data, offset, |entries|) == Ok((entries, offset + |EntryBytes(s, entries)|))
    decreases |entries|
  {
    if entries != [] {
      var e, tail := entries[0], entries[1..];
      var image, rest := EntryImage(s, e), EntryBytes(s, tail);
      assert EntryBytes(s, entries) == image + rest;
      EntriesRoundTrip(s, data, offset + |image|, tail);
      EntriesStep(s, data, offset, e, offset + |image|, tail, offset + |image| + |rest|);
      assert [e] + tail == entries;
    }
  }

  /** An entry read at offset, then the entries read after it, are the entries read from offset. */
  lemma EntriesStep<K, V>(s: NodeSerializer<K, V>, data: seq<byte>, offset: int, e: (K, V), next: int,
                          tail: seq<(K, V)>, end: int)
    requires EntryAt(s, data, offset) == Ok((e, next))
    requires Entries(s, data, next, |tail|) == Ok((tail, end))
    ensures Entries(s, data, offset, |tail| + 1) == Ok(([e] + tail, end))
  {
  }

  /** One entry read back at offset, where its bytes sit. */
  lemma EntryAtImage<K(!new), V(!new)>(s: NodeSerializer<K, V>, data: seq<byte>, offset: nat, e: (K, V))
    requires Faithful(s) && KeyFits(s, e)
    requires SitsAt(data, offset, EntryImage(s, e))
    ensures EntryAt(s, data, offset) == Ok((e, offset + |EntryImage(s, e)|))
  {
    var image := EntryImage(s, e);
    var pre, post := data[..offset], data[offset + |image|..];
    assert data == pre + image + post;
    EntryInside(s, pre, e, post);
  }

  /** One entry read back from inside a larger buffer, in either layout. */
  lemma EntryInside<K(!new), V(!new)>(s: NodeSerializer<K, V>, pre: seq<byte>, e: (K, V), post: seq<byte>)
    requires Faithful(s) && KeyFits(s, e)
    ensures EntryAt(s, pre + EntryImage(s, e) + post, |pre|) == Ok((e, |pre| + |EntryImage(s, e)|))
  {
    if s.keySerializer.isFixedSize {
      FixedEntryInside(s, pre, e, post);
    } else {
      VariableEntryInside(s, pre, e, post);
    }
  }

  /** Four little-endian bytes of v at offset read back as v. */
  lemma ReadU32At(data: seq<byte>, offset: nat, v: nat)
    requires v < 0x1_0000_0000 && SitsAt(data, offset, ToLE(v, 4))
    ensures ReadU32(data, offset) == Ok(v)
  {
    Pow256Values();
    FromLEToLE(v, 4);
  }

  /** The child id loop reads back the ids whose bytes sit at offset. */
  lemma {:induction false} ChildIdsRoundTrip(data: seq<byte>, offset: nat, children: seq<nat>)
    requires forall i | 0 <= i < |children| :: children[i] < 0x1_0000_0000
    requires SitsAt(data, offset, ChildIdBytes(children))
    ensures ChildIds(data, offset, |children|) == Ok((children, offset + 4 * |children|))
    decreases |children|
  {
    if children != [] {
      var first, rest := ToLE(children[0], 4), ChildIdBytes(children[1..]);
      SliceSplit(data, offset, ChildIdBytes(children), first, rest);
      ReadU32At(data, offset, children[0]);
      ChildIdsRoundTrip(data, offset + 4, children[1..]);
      assert [children[0]] + children[1..] == children;
    }
  }

  /** A node's image holds its header, then its entries' images at 12, then its child ids. */
  lemma ImageParts<K, V>(s: NodeSerializer<K, V>, n: Node<K, V>)
    requires Storable(n)
    ensures var image, entryBytes := Image(s, n), EntryBytes(s, n.entries);
      ReadU32(image, 0) == Ok(n.parentId) && ReadU32(image, 4) == Ok(|n.entries|) && ReadU32(image, 8) == Ok(|n.children|)
      && SitsAt(image, 12, entryBytes) && SitsAt(image, 12 + |entryBytes|, ChildIdBytes(n.children))
  {
    var image := Image(s, n);
    assert SitsAt(image, 0, image);
    PartsAt(image, 0, Header(n), EntryBytes(s, n.entries), ChildIdBytes(n.children));
    PartsAt(image, 0, ToLE(n.parentId, 4), ToLE(|n.entries|, 4), ToLE(|n.children|, 4));
    ReadU32At(image, 0, n.parentId);
    ReadU32At(image, 4, |n.entries|);
    ReadU32At(image, 8, |n.children|);
  }

  /** Where x + y + z sits at offset, x, y and z sit there one after another. */
  lemma PartsAt(data: seq<byte>, offset: nat, x: seq<byte>, y: seq<byte>, z: seq<byte>)
    requires SitsAt(data, offset, x + y + z)
    ensures SitsAt(data, offset, x) && SitsAt(data, offset + |x|, y) && SitsAt(data, offset + |x| + |y|, z)
  {
    SliceSplit(data, offset, x + y + z, x + y, z);
    SliceSplit(data, offset, x + y, x, y);
  }

  /**
   * The node round trip: reading back a node's image with the same serializers gives its parent
   * id, every entry and every child id, under the id it is read with.
   */
  lemma ImageRoundTrip<K(!new), V(!new)>(s: NodeSerializer<K, V>, id: uint32, n: Node<K, V>)
    requires Storable(n) && Faithful(s) && (!s.keySerializer.isFixedSize ==> KeyBytesFit(s, n.entries))
    ensures DecodeImage(s, id, Image(s, n)) == Ok(n.(id := id))
  {
    var end := 12 + |EntryBytes(s, n.entries)|;
    ImageParts(s, n);
    ImageEntriesRead(s, n);
    ChildIdsRoundTrip(Image(s, n), end, n.children);
    DecodeParts(s, id, Image(s, n), n, end);
  }

  /** The entries of a node's image read back as its entries, up to the child ids. */
  lemma ImageEntriesRead<K(!new), V(!new)>(s: NodeSerializer<K, V>, n: Node<K, V>)
    requires Storable(n) && Faithful(s) && (!s.keySerializer.isFixedSize ==> KeyBytesFit(s, n.entries))
    ensures Entries(s, Image(s, n), 12, |n.entries|) == Ok((n.entries, 12 + |EntryBytes(s, n.entries)|))
  {
    ImageEntriesReadable(s, n);
    EntriesRoundTrip(s, Image(s, n), 12, n.entries);
  }

  /** Each entry of a node's image is read back in turn from offset 12. */
  lemma ImageEntriesReadable<K(!new), V(!new)>(s: NodeSerializer<K, V>, n: Node<K, V>)
    requires Storable(n) && Faithful(s) && (!s.keySerializer.isFixedSize ==> KeyBytesFit(s, n.entries))
    ensures ReadableAt(s, Image(s, n), 12, n.entries)
  {
    ImageParts(s, n);
    FaithfulEntriesRead(s);
    EntriesReadable(s, Image(s, n), 12, n.entries);
  }

  /** Bytes whose header, entries and child ids read back as n's decode to n. */
  lemma DecodeParts<K, V>(s: NodeSerializer<K, V>, id: uint32, data: seq<byte>, n: Node<K, V>, end: int)
    requires ReadU32(data, 0) == Ok(n.parentId) && ReadU32(data, 4) == Ok(|n.entries|) && ReadU32(data, 8) == Ok(|n.children|)
    requires Entries(s, data, 12, |n.entries|) == Ok((n.entries, end))
    requires ChildIds(data, end, |n.children|) == Ok((n.children, end + 4 * |n.children|))
    ensures DecodeImage(s, id, data) == Ok(n.(id := id))
  {
  }

  /**
   * Serialize then Deserialize: whatever Serialize produces, Deserialize with the same
   * serializers turns back into the node; and both refuse exactly when the value serializer is
   * not of fixed size.
   */
  lemma SerializeRoundTrip<K(!new), V(!new)>(s: NodeSerializer<K, V>, id: uint32, n: Node<K, V>)
    requires Storable(n) && Sound(s.keySerializer) && Sound(s.valueSerializer)
    requires s.valueSerializer.isFixedSize ==> ExactWidth(s.valueSerializer)
    requires s.keySerializer.isFixedSize ==> ExactWidth(s.keySerializer)
    requires !s.keySerializer.isFixedSize ==> KeyBytesFit(s, n.entries)
    ensures Encode(s, n).Ok? ==> Decode(s, id, Encode(s, n).value) == Ok(n.(id := id))
    ensures !s.valueSerializer.isFixedSize <==> Encode(s, n) == Err(NotSupported) && Decode(s, id, []) == Err(NotSupported)
  {
    if s.valueSerializer.isFixedSize {
      ImageRoundTrip(s, id, n);
    }
  }
}
