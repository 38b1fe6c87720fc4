/**
 * The chunk header at the start of every container file:
 * [version:int32][typeName:string][offsetToObject:int32][offsetToReferences:int32].
 * The two offsets locate the object region and the references region.
 */
module Container {
  import opened Binary

  datatype ChunkHeader = ChunkHeader(
    version: int,
    typeName: string,
    offsetToObject: int,
    offsetToReferences: int)

  /** A header whose fields survive being written and read back. */
  predicate WellFormed(h: ChunkHeader)
  {
    IsInt32(h.version) && IsText(h.typeName) && IsInt32(h.offsetToObject) && IsInt32(h.offsetToReferences)
  }

  /** The serialized length of a header depends only on its type name. */
  function HeaderLength(typeName: string): nat
  {
    16 + |typeName|
  }

  /** `ChunkHeader.Write`: the fields in declaration order, each integer truncated to 32 bits. */
  function EncodeHeader(h: ChunkHeader): (r: seq<byte>)
    ensures |r| == HeaderLength(h.typeName)
  {
    Int32Bytes(h.version) + StringBytes(h.typeName) + Int32Bytes(h.offsetToObject) + Int32Bytes(h.offsetToReferences)
  }

  /** `ChunkHeader.Read`: None stands for the null header returned for a file that does not parse. */
  function ReadHeader(s: seq<byte>): (r: Option<(ChunkHeader, seq<byte>)>)
    ensures r.Some? ==> |r.value.1| == |s| - HeaderLength(r.value.0.typeName)
    ensures r.Some? ==> WellFormed(r.value.0)
  {
    match ReadInt32(s)
    case None => None
    case Some((version, s1)) =>
      match ReadString(s1)
      case None => None
      case Some((typeName, s2)) =>
        match ReadInt32(s2)
        case None => None
        case Some((obj, s3)) =>
          match ReadInt32(s3)
          case None => None
          case Some((refs, s4)) =>
            Some((ChunkHeader(version, typeName, obj, refs), s4))
  }

  /** The references region `tx` and `SoundToXenko` write: a copy of the `.refs` file when there is one, an int32 0 otherwise. */
  function RefsRegion(refs: Option<seq<byte>>): seq<byte>
  {
    if refs.None? then Int32Bytes(0) else refs.value
  }

  /**
   * The header `tx` and `SoundToXenko` rewrite at position 0 once the
   * regions are written: the references start right after the header and
   * the object right after the references region, each position truncated
   * to an int32.
   */
  function LayoutHeader(version: int, typeName: string, refs: Option<seq<byte>>): ChunkHeader
  {
    var h := HeaderLength(typeName);
    ChunkHeader(version, typeName, Wrap32(h + |RefsRegion(refs)|), Wrap32(h))
  }

  /** When both offsets fit in an int32 the layout header holds them as they are, and it reads back. */
  lemma LayoutHeaderReadsBack(version: int, typeName: string, refs: Option<seq<byte>>, body: seq<byte>)
    requires IsInt32(version) && IsText(typeName)
    requires HeaderLength(typeName) + |RefsRegion(refs)| < TwoTo31
    ensures LayoutHeader(version, typeName, refs)
      == ChunkHeader(version, typeName, HeaderLength(typeName) + |RefsRegion(refs)|, HeaderLength(typeName))
    ensures ReadHeader(EncodeHeader(LayoutHeader(version, typeName, refs)) + body)
      == Some((LayoutHeader(version, typeName, refs), body))
  {
    assert IsInt32(HeaderLength(typeName) + |RefsRegion(refs)|);
    assert Wrap32(HeaderLength(typeName) + |RefsRegion(refs)|) == HeaderLength(typeName) + |RefsRegion(refs)|;
    assert IsInt32(HeaderLength(typeName));
    assert Wrap32(HeaderLength(typeName)) == HeaderLength(typeName);
    assert WellFormed(LayoutHeader(version, typeName, refs));
    HeaderRoundTrip(LayoutHeader(version, typeName, refs), body);
  }

  /** Reading a written header gives it back, with the bytes that follow it. */
  lemma HeaderRoundTrip(h: ChunkHeader, rest: seq<byte>)
    requires WellFormed(h)
    ensures ReadHeader(EncodeHeader(h) + rest) == Some((h, rest))
  {
    var tail3 := Int32Bytes(h.offsetToReferences) + rest;
    var tail2 := Int32Bytes(h.offsetToObject) + tail3;
    var tail1 := StringBytes(h.typeName) + tail2;
    assert EncodeHeader(h) + rest == Int32Bytes(h.version) + tail1;
    Int32RoundTrip(h.version, tail1);
    StringRoundTrip(h.typeName, tail2);
    Int32RoundTrip(h.offsetToObject, tail3);
    Int32RoundTrip(h.offsetToReferences, rest);
  }

  /** Changing only the offsets keeps the encoding's length, so a rewrite at position 0 covers the placeholder exactly. */
  lemma HeaderLengthIgnoresOffsets(h: ChunkHeader, obj: int, refs: int)
    ensures |EncodeHeader(h.(offsetToObject := obj, offsetToReferences := refs))| == |EncodeHeader(h)|
  {
  }
}
