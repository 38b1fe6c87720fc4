/**
 * `xu`: rewrites a container whose references region precedes its object
 * region (the layout `tx` and `SoundToXenko` produce) so that the object
 * comes first and the references follow it.
 *
 * `RelayoutAsWritten` is the command as the repository has it;
 * `Relayout` is the same command with the two corrections the lemmas
 * below motivate: the new references offset counts from where the object
 * now starts, and a file already in the target layout is copied whole.
 */
module Relayout {
  import opened Binary
  import opened Streams
  import opened Container
  import Commands
  import Text

  /** What `xu` leaves in the destination file, and whether it stopped with an exception. */
  datatype Outcome = Outcome(output: seq<byte>, failed: bool)

  /** The header `xu` writes when it moves the object: the object now starts where the references did. */
  function MovedHeader(header: ChunkHeader, newRefs: int): ChunkHeader
  {
    header.(offsetToObject := header.offsetToReferences, offsetToReferences := newRefs)
  }

  /**
   * The branch that moves the object: the rewritten header, the
   * `contentLength` bytes from the object offset, then the references.
   * `newRefs` is the references offset written into the header. A negative
   * content length fails the buffer allocation; a negative references
   * offset fails the seek to it.
   */
  function MoveObject(src: seq<byte>, header: ChunkHeader, contentLength: int, newRefs: int): (r: Outcome)
    requires 0 <= header.offsetToObject
    requires contentLength >= 0 ==> header.offsetToObject + contentLength <= |src|
    requires header.offsetToReferences < header.offsetToObject
  {
    var obj := header.offsetToObject;
    var refs := header.offsetToReferences;
    var written := EncodeHeader(MovedHeader(header, newRefs));
    if contentLength < 0 then Outcome(written, true)
    else if refs < 0 then Outcome(written + src[obj..obj + contentLength], true)
    else Outcome(written + src[obj..obj + contentLength] + src[refs..obj], false)
  }

  /** `(int)(srcFs.Length - objOffset)`: never more than the bytes the file has past the object offset. */
  lemma ContentLengthFits(src: seq<byte>, obj: int)
    requires 0 <= obj < TwoTo31
    ensures var c := Wrap32(|src| - obj); c >= 0 ==> obj + c <= |src|
  {
  }

  /** `xu` as the repository writes it. */
  function RelayoutAsWritten(src: seq<byte>): (r: Outcome)
  {
    var read := ReadHeader(src);
    if read.None? then Outcome([], true)
    else
      var header := read.value.0;
      var obj := header.offsetToObject;
      var refs := header.offsetToReferences;
      if obj < 0 then Outcome([], true)
      else if refs < obj then
        ContentLengthFits(src, obj);
        var contentLength := Wrap32(|src| - obj);
        MoveObject(src, header, contentLength, Wrap32(obj + contentLength))
      else Outcome(if obj <= |src| then src[obj..] else [], false)
  }

  /** `xu` with the references offset taken from the new object offset and a whole-file copy otherwise. */
  function Relayout(src: seq<byte>): (r: Outcome)
  {
    var read := ReadHeader(src);
    if read.None? then Outcome([], true)
    else
      var header := read.value.0;
      var obj := header.offsetToObject;
      var refs := header.offsetToReferences;
      if obj < 0 then Outcome([], true)
      else if refs < obj then
        ContentLengthFits(src, obj);
        var contentLength := Wrap32(|src| - obj);
        MoveObject(src, header, contentLength, Wrap32(refs + contentLength))
      else Outcome(src, false)
  }

  /** A container in the layout `tx` writes: the references start right after the header and end where the object starts. */
  predicate RefsFirst(src: seq<byte>)
  {
    && ReadHeader(src).Some?
    && var header := ReadHeader(src).value.0;
    && header.offsetToReferences == HeaderLength(header.typeName)
    && header.offsetToReferences < header.offsetToObject <= |src| < TwoTo31
  }

  /** The file that moving the object writes in full: the new header, the object region, then the references region. */
  function MovedFile(src: seq<byte>, header: ChunkHeader, newRefs: int): seq<byte>
    requires 0 <= header.offsetToReferences <= header.offsetToObject <= |src|
  {
    var obj := header.offsetToObject;
    EncodeHeader(MovedHeader(header, newRefs)) + src[obj..obj + (|src| - obj)] + src[header.offsetToReferences..obj]
  }

  /** The moved file holds the new header and every byte from the references offset on. */
  lemma MovedFileLength(src: seq<byte>, header: ChunkHeader, newRefs: int)
    requires 0 <= header.offsetToReferences <= header.offsetToObject <= |src|
    ensures |MovedFile(src, header, newRefs)| == HeaderLength(header.typeName) + (|src| - header.offsetToReferences)
  {
  }

  /** Moving the whole object region of a container whose references precede it writes the moved file and succeeds. */
  lemma MoveWholeObject(src: seq<byte>, header: ChunkHeader, newRefs: int)
    requires 0 <= header.offsetToReferences < header.offsetToObject <= |src|
    ensures MoveObject(src, header, |src| - header.offsetToObject, newRefs) == Outcome(MovedFile(src, header, newRefs), false)
  {
  }

  /**
   * On a container whose references precede its object both versions take
   * the branch that moves the object and write the new header, the object
   * region, then the references region, dropping the bytes between the
   * header and the references. They differ only in the references offset
   * the new header holds.
   */
  lemma AsWrittenLayout(src: seq<byte>, header: ChunkHeader)
    requires ReadHeader(src).Some? && ReadHeader(src).value.0 == header
    requires 0 <= header.offsetToReferences < header.offsetToObject <= |src| < TwoTo31
    ensures RelayoutAsWritten(src) == Outcome(MovedFile(src, header, |src|), false)
    ensures |MovedFile(src, header, |src|)| == HeaderLength(header.typeName) + (|src| - header.offsetToReferences)
  {
    assert IsInt32(|src| - header.offsetToObject);
    assert Wrap32(|src| - header.offsetToObject) == |src| - header.offsetToObject;
    assert IsInt32(header.offsetToObject + (|src| - header.offsetToObject));
    assert Wrap32(header.offsetToObject + (|src| - header.offsetToObject)) == |src|;
    assert RelayoutAsWritten(src) == MoveObject(src, header, |src| - header.offsetToObject,
      header.offsetToObject + (|src| - header.offsetToObject));
    MoveWholeObject(src, header, |src|);
    MovedFileLength(src, header, |src|);
  }

  lemma RelayoutLayout(src: seq<byte>, header: ChunkHeader)
    requires ReadHeader(src).Some? && ReadHeader(src).value.0 == header
    requires 0 <= header.offsetToReferences < header.offsetToObject <= |src| < TwoTo31
    ensures Relayout(src)
      == Outcome(MovedFile(src, header, header.offsetToReferences + (|src| - header.offsetToObject)), false)
    ensures |MovedFile(src, header, header.offsetToReferences + (|src| - header.offsetToObject))|
      == HeaderLength(header.typeName) + (|src| - header.offsetToReferences)
  {
    assert IsInt32(|src| - header.offsetToObject);
    assert Wrap32(|src| - header.offsetToObject) == |src| - header.offsetToObject;
    assert IsInt32(header.offsetToReferences + (|src| - header.offsetToObject));
    assert Wrap32(header.offsetToReferences + (|src| - header.offsetToObject))
      == header.offsetToReferences + (|src| - header.offsetToObject);
    assert Relayout(src) == MoveObject(src, header, |src| - header.offsetToObject,
      header.offsetToReferences + (|src| - header.offsetToObject));
    MoveWholeObject(src, header, header.offsetToReferences + (|src| - header.offsetToObject));
    MovedFileLength(src, header, header.offsetToReferences + (|src| - header.offsetToObject));
  }

  /**
   * The moved file is as long as the source, its header reads back as the
   * moved header, and the object and references regions follow it in turn.
   */
  predicate MovedReadable(src: seq<byte>, header: ChunkHeader, newRefs: int)
    requires 0 <= header.offsetToReferences <= header.offsetToObject <= |src|
  {
    var obj := header.offsetToObject;
    var refs := header.offsetToReferences;
    var c := |src| - obj;
    var out := MovedFile(src, header, newRefs);
    && |out| == |src|
    && ReadHeader(out) == Some((MovedHeader(header, newRefs), src[obj..obj + c] + src[refs..obj]))
    && out[refs..refs + c] == src[obj..obj + c]
    && out[refs + c..] == src[refs..obj]
  }

  /**
   * A moved container reads back: its header is the moved header, the
   * object follows the header and the references follow the object, in a
   * file as long as the source.
   */
  lemma MovedReadsBack(src: seq<byte>, header: ChunkHeader, newRefs: int)
    requires WellFormed(header) && IsInt32(newRefs)
    requires header.offsetToReferences == HeaderLength(header.typeName)
    requires header.offsetToReferences < header.offsetToObject <= |src|
    ensures MovedReadable(src, header, newRefs)
  {
    Regroup(EncodeHeader(MovedHeader(header, newRefs)),
      src[header.offsetToObject..header.offsetToObject + (|src| - header.offsetToObject)],
      src[header.offsetToReferences..header.offsetToObject]);
    HeaderRoundTrip(MovedHeader(header, newRefs),
      src[header.offsetToObject..header.offsetToObject + (|src| - header.offsetToObject)]
        + src[header.offsetToReferences..header.offsetToObject]);
  }

  /** Three regions laid end to end, and where each of them lies. */
  lemma Regroup(a: seq<byte>, b: seq<byte>, c: seq<byte>)
    ensures a + b + c == a + (b + c)
    ensures (a + b + c)[|a|..|a| + |b|] == b
    ensures (a + b + c)[|a| + |b|..] == c
  {
    assert (a + b + c)[|a|..] == b + c;
  }

  /**
   * On such a container, the as-written `xu` keeps every byte and moves the
   * object correctly, but writes the end of the file as the references
   * offset: the header it writes declares an empty references region,
   * although the references follow the object.
   */
  lemma AsWrittenLosesRefs(src: seq<byte>, header: ChunkHeader)
    requires RefsFirst(src) && ReadHeader(src).value.0 == header
    ensures var r := RelayoutAsWritten(src);
      && !r.failed
      && |r.output| == |src|
      && ReadHeader(r.output).Some? && ReadHeader(r.output).value.0 == MovedHeader(header, |src|)
      && Commands.RefsSize(MovedHeader(header, |src|), |src|) == 0
      && 0 < header.offsetToObject - header.offsetToReferences
      && r.output[header.offsetToReferences + (|src| - header.offsetToObject)..]
        == src[header.offsetToReferences..header.offsetToObject]
  {
    AsWrittenLayout(src, header);
    assert WellFormed(header);
    assert IsInt32(|src|);
    MovedReadsBack(src, header, |src|);
  }

  /** A container whose object already precedes its references is copied whole by the corrected command. */
  lemma RelayoutKeepsOrderedFile(src: seq<byte>)
    requires ReadHeader(src).Some?
    requires var header := ReadHeader(src).value.0;
      0 <= header.offsetToObject <= header.offsetToReferences
    ensures Relayout(src) == Outcome(src, false)
  {
  }

  /**
   * The as-written command copies such a container from its object offset
   * on, so every container whose object lies past its header loses the
   * header and is no longer a container.
   */
  lemma AsWrittenDropsHeader(src: seq<byte>)
    requires ReadHeader(src).Some?
    requires var header := ReadHeader(src).value.0;
      HeaderLength(header.typeName) <= header.offsetToObject <= header.offsetToReferences
      && header.offsetToObject <= |src|
    ensures var header := ReadHeader(src).value.0;
      var r := RelayoutAsWritten(src);
      && !r.failed
      && r.output == src[header.offsetToObject..]
      && |r.output| <= |src| - HeaderLength(header.typeName)
  {
  }

  /**
   * The container the corrected `xu` writes, read back: its header is the
   * moved header, and the regions that header declares hold the source's
   * object and references.
   */
  lemma RelaidReadsBack(src: seq<byte>, header: ChunkHeader)
    requires RefsFirst(src) && ReadHeader(src).value.0 == header
    ensures MovedReadable(src, header, header.offsetToReferences + (|src| - header.offsetToObject))
    ensures Commands.RefsSize(MovedHeader(header, header.offsetToReferences + (|src| - header.offsetToObject)), |src|)
      == header.offsetToObject - header.offsetToReferences
  {
    assert WellFormed(header);
    assert IsInt32(header.offsetToReferences + (|src| - header.offsetToObject));
    MovedReadsBack(src, header, header.offsetToReferences + (|src| - header.offsetToObject));
  }

  /** Relaying out a relaid container changes nothing more. */
  lemma RelayoutIdempotent(src: seq<byte>, header: ChunkHeader)
    requires RefsFirst(src) && ReadHeader(src).value.0 == header
    ensures Relayout(Relayout(src).output) == Relayout(src)
  {
    RelayoutLayout(src, header);
    RelaidReadsBack(src, header);
    RelayoutKeepsOrderedFile(Relayout(src).output);
  }

  /** `xt` on a container whose object precedes its references: the image follows the object's discriminator and the references run to the end. */
  lemma ExtractObjectFirst(file: seq<byte>, dst: string, header: ChunkHeader)
    requires Text.EndsWith(dst, ".dds")
    requires ReadHeader(file).Some? && ReadHeader(file).value.0 == header
    requires 0 <= header.offsetToObject < header.offsetToReferences <= |file|
    requires file[header.offsetToObject] == 0
    ensures Commands.Extract(file, dst)
      == Commands.Extracted(file[header.offsetToObject + 1..], dst + ".refs", file[header.offsetToReferences..])
  {
    assert Commands.RefsSize(header, |file|) == |file| - header.offsetToReferences;
    Commands.ReadToEnd(file, header.offsetToReferences);
    assert Commands.Extract(file, dst) == Commands.Extracted(file[header.offsetToObject + 1..], dst + ".refs",
      Commands.ReadAt(file, header.offsetToReferences, |file| - header.offsetToReferences));
  }

  /** The bytes after the first of a region `a` that is followed by `b` up to the end. */
  lemma AfterFirst(s: seq<byte>, a: seq<byte>, b: seq<byte>, k: nat)
    requires 0 < |a| && k + |a| <= |s|
    requires s[k..k + |a|] == a && s[k + |a|..] == b
    ensures s[k + 1..] == a[1..] + b
  {
    assert s[k..] == s[k..k + |a|] + s[k + |a|..];
  }

  /** `xt` on a container in the layout `tx` writes: the image after the discriminator, then the references up to the object. */
  lemma ExtractRefsFirst(src: seq<byte>, dst: string, header: ChunkHeader)
    requires RefsFirst(src) && ReadHeader(src).value.0 == header
    requires Commands.Extract(src, dst).Extracted?
    ensures Commands.Extract(src, dst)
      == Commands.Extracted(src[header.offsetToObject + 1..], dst + ".refs", src[header.offsetToReferences..header.offsetToObject])
  {
    Commands.ExtractedRefs(src, dst);
  }

  /** `xt` on the moved file `out`, its regions named: the discriminator and the image, then the references that now follow it. */
  lemma ExtractMoved(src: seq<byte>, dst: string, header: ChunkHeader)
    requires RefsFirst(src) && ReadHeader(src).value.0 == header
    requires Commands.Extract(src, dst).Extracted?
    ensures Commands.Extract(MovedFile(src, header, header.offsetToReferences + (|src| - header.offsetToObject)), dst)
      == Commands.Extracted(src[header.offsetToObject + 1..] + src[header.offsetToReferences..header.offsetToObject],
           dst + ".refs", src[header.offsetToReferences..header.offsetToObject])
  {
    assert WellFormed(header);
    assert IsInt32(header.offsetToReferences + (|src| - header.offsetToObject));
    MovedReadsBack(src, header, header.offsetToReferences + (|src| - header.offsetToObject));
    assert Text.EndsWith(dst, ".dds") && src[header.offsetToObject] == 0 && header.offsetToObject < |src|;
    AfterFirst(MovedFile(src, header, header.offsetToReferences + (|src| - header.offsetToObject)), src[header.offsetToObject..header.offsetToObject + (|src| - header.offsetToObject)],
      src[header.offsetToReferences..header.offsetToObject], header.offsetToReferences);
    assert src[header.offsetToObject..header.offsetToObject + (|src| - header.offsetToObject)][1..]
      == src[header.offsetToObject + 1..];
    assert MovedFile(src, header, header.offsetToReferences + (|src| - header.offsetToObject))[header.offsetToReferences] == src[header.offsetToObject];
    ExtractObjectFirst(MovedFile(src, header, header.offsetToReferences + (|src| - header.offsetToObject)), dst, MovedHeader(header, header.offsetToReferences + (|src| - header.offsetToObject)));
  }

  /** `xt` on the moved file, stated against `xt` on the source. */
  lemma MovedExtractsLikeSource(src: seq<byte>, dst: string, header: ChunkHeader)
    requires RefsFirst(src) && ReadHeader(src).value.0 == header
    requires Commands.Extract(src, dst).Extracted?
    ensures Commands.Extract(MovedFile(src, header, header.offsetToReferences + (|src| - header.offsetToObject)), dst)
      == Commands.Extracted(Commands.Extract(src, dst).image + src[header.offsetToReferences..header.offsetToObject],
           Commands.Extract(src, dst).refsPath, Commands.Extract(src, dst).refs)
  {
    ExtractRefsFirst(src, dst, header);
    ExtractMoved(src, dst, header);
  }

  /**
   * `xt` reads the same references from the relaid container as from the
   * original, and the same image followed by the moved references.
   */
  lemma RelayoutThenExtract(src: seq<byte>, dst: string, header: ChunkHeader)
    requires RefsFirst(src) && ReadHeader(src).value.0 == header
    requires Commands.Extract(src, dst).Extracted?
    ensures Commands.Extract(Relayout(src).output, dst)
      == Commands.Extracted(Commands.Extract(src, dst).image + src[header.offsetToReferences..header.offsetToObject],
           Commands.Extract(src, dst).refsPath, Commands.Extract(src, dst).refs)
  {
    RelayoutLayout(src, header);
    MovedExtractsLikeSource(src, dst, header);
  }

  /** A file with no header or a negative object offset fails `xu` before anything is written. */
  lemma AsWrittenFails(src: seq<byte>)
    requires ReadHeader(src).None? || ReadHeader(src).value.0.offsetToObject < 0
    ensures RelayoutAsWritten(src) == Outcome([], true)
  {
  }

  /** A container whose references precede its object takes the branch of `xu` that moves the object. */
  lemma AsWrittenMoves(src: seq<byte>, header: ChunkHeader)
    requires ReadHeader(src).Some? && ReadHeader(src).value.0 == header
    requires 0 <= header.offsetToObject && header.offsetToReferences < header.offsetToObject
    ensures RelayoutAsWritten(src) == MoveObject(src, header, Wrap32(|src| - header.offsetToObject),
      Wrap32(header.offsetToObject + Wrap32(|src| - header.offsetToObject)))
  {
    assert ReadHeader(src) == Some((header, ReadHeader(src).value.1));
  }

  /** Any other container with a non-negative object offset takes the branch that copies from the object on. */
  lemma AsWrittenCopies(src: seq<byte>, header: ChunkHeader)
    requires ReadHeader(src).Some? && ReadHeader(src).value.0 == header
    requires 0 <= header.offsetToObject <= header.offsetToReferences
    ensures RelayoutAsWritten(src)
      == Outcome(if header.offsetToObject <= |src| then src[header.offsetToObject..] else [], false)
  {
  }

  /**
   * The branch of `xu` that moves the object: the moved header, the content
   * copied through a buffer of `contentLength` bytes, then the references
   * through the same buffer when it is large enough and a new one otherwise.
   */
  method WriteMoved(dst: OutputStream, src: seq<byte>, header: ChunkHeader, contentLength: int, newRefs: int)
    returns (failed: bool)
    requires 0 <= header.offsetToObject
    requires contentLength >= 0 ==> header.offsetToObject + contentLength <= |src|
    requires header.offsetToReferences < header.offsetToObject
    requires dst.data == [] && dst.position == 0
    modifies dst
    ensures Outcome(dst.data, failed) == MoveObject(src, header, contentLength, newRefs)
  {
    var objOffset := header.offsetToObject;
    var refsOffset := header.offsetToReferences;
    var refsLength := objOffset - refsOffset;
    var written := EncodeHeader(MovedHeader(header, newRefs));
    dst.Write(written);
    assert dst.data == written && dst.position == |written|;
    if contentLength < 0 {
      return true;
    }
    var buf := new byte[contentLength](_ => 0);
    ReadBytes(buf, src, objOffset, contentLength);
    dst.Write(buf[..contentLength]);
    assert dst.data == written + src[objOffset..objOffset + contentLength];
    if buf.Length < refsLength {
      buf := new byte[refsLength](_ => 0);
    }
    if refsOffset < 0 {
      return true;
    }
    ReadBytes(buf, src, refsOffset, refsLength);
    dst.Write(buf[..refsLength]);
    assert dst.data == written + src[objOffset..objOffset + contentLength] + src[refsOffset..objOffset];
    return false;
  }

  /** `xu` step by step: the destination is created first, then the header is read and the object offset sought. */
  method RelayoutFile(src: seq<byte>) returns (dst: OutputStream, failed: bool)
    ensures fresh(dst)
    ensures Outcome(dst.data, failed) == RelayoutAsWritten(src)
  {
    dst := new OutputStream();
    var read := ReadHeader(src);
    if read.None? {
      AsWrittenFails(src);
      return dst, true;
    }
    var header := read.value.0;
    var objOffset := header.offsetToObject;
    if objOffset < 0 {
      AsWrittenFails(src);
      return dst, true;
    }
    if header.offsetToReferences < objOffset {
      ContentLengthFits(src, objOffset);
      var contentLength := Wrap32(|src| - objOffset);
      AsWrittenMoves(src, header);
      failed := WriteMoved(dst, src, header, contentLength, Wrap32(objOffset + contentLength));
      return dst, failed;
    }
    AsWrittenCopies(src, header);
    dst.Write(if objOffset <= |src| then src[objOffset..] else []);
    assert dst.data == (if objOffset <= |src| then src[objOffset..] else []);
    return dst, false;
  }
}
