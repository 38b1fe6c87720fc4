/**
 * Three commands of the bundle manager (DistantWorlds2.BundleManager/Program.cs):
 *
 *  - `lb` lists the bundle names found among the `.bundle` files, skipping
 *    the content files whose names carry a 32-character hash;
 *  - `xt` reads a texture container and extracts its references region into
 *    a `.refs` file next to the converted image;
 *  - `tx` writes a texture container: a placeholder header, the references
 *    region, the object region, and the header rewritten at position 0.
 *
 * The image codecs (`Image.Load`, `Image.Save`) are not modelled: `xt` hands
 * the bytes after the discriminator to the loader, and `tx` writes image
 * bytes it is given. The file system is a map from paths to contents.
 */
module Commands {
  import opened Binary
  import opened Streams
  import opened Container
  import opened Text

  // ---------------------------------------------------------------------
  // lb: the bundle-name filter
  // ---------------------------------------------------------------------

  /** The length of the `.bundle` extension that is cut off the printed names. */
  const ExtensionLength: nat := 7

  /** File names up to this length are always listed. */
  const ShortNameLength: nat := 40

  /** Two dots this far apart enclose the hash of a bundle content file. */
  const HashDotGap: nat := 33

  /** What the loop body of `lb` does with one enumerated path. */
  datatype Entry =
    | Listed(name: string)   // the name is printed
    | Skipped                // `continue`: a content file
    | EndOfListing           // `break`: a long name without a dot
    | Failed                 // an argument-out-of-range exception ends the command

  /** `bundlePath.Substring(bundlePath.LastIndexOf('\\') + 1)`. */
  function FileName(path: string): (r: string)
    ensures |r| <= |path|
  {
    var lastSlash := LastIndexOf(path, '\\');
    path[lastSlash + 1..]
  }

  /** The file name is what follows the last backslash of the path, or the whole path without one. */
  lemma FileNameAfterLastSeparator(path: string)
    ensures path[|path| - |FileName(path)|..] == FileName(path)
    ensures |FileName(path)| < |path| ==> path[|path| - |FileName(path)| - 1] == '\\'
    ensures forall i :: 0 <= i < |FileName(path)| ==> FileName(path)[i] != '\\'
  {
    LastIndexOfSpec(path, '\\');
    SuffixAfter(path, LastIndexOf(path, '\\'), '\\', FileName(path));
  }

  /** The part `f` of `s` after index `k` is a suffix of `s`, and holds no `c` when no index after `k` does. */
  lemma SuffixAfter(s: string, k: int, c: char, f: string)
    requires -1 <= k < |s| && f == s[k + 1..]
    requires k >= 0 ==> s[k] == c
    requires forall j :: k < j < |s| ==> s[j] != c
    ensures |f| == |s| - (k + 1)
    ensures s[|s| - |f|..] == f
    ensures |f| < |s| ==> s[|s| - |f| - 1] == c
    ensures forall i :: 0 <= i < |f| ==> f[i] != c
  {
    assert |s| - |f| == k + 1;
  }

  /**
   * The loop body of `lb` on one path: the name is the file name without its
   * last seven characters (a shorter name fails `Substring`); a long name is
   * skipped when its last two dots are 33 apart, ends the listing when it
   * has no dot, and fails when its only dot is its first character
   * (`LastIndexOf('.', -1)` throws).
   */
  function Classify(path: string): Entry
  {
    var fileName := FileName(path);
    if |fileName| < ExtensionLength then Failed
    else
      var bundleName := fileName[..|fileName| - ExtensionLength];
      if |fileName| > ShortNameLength then
        var lastDot := LastIndexOf(fileName, '.');
        if lastDot == -1 then EndOfListing
        else if lastDot == 0 then Failed
        else
          var prevLastDot := LastIndexOfFrom(fileName, '.', lastDot - 1);
          if prevLastDot != -1 && lastDot - prevLastDot == HashDotGap then Skipped
          else Listed(bundleName)
      else Listed(bundleName)
  }

  /** The printed names and whether the command ended in an exception. */
  datatype Listing = Listing(names: seq<string>, failed: bool)

  /** `lb` over the enumerated paths, in enumeration order. */
  function ListingOf(paths: seq<string>): Listing
  {
    if paths == [] then Listing([], false)
    else
      match Classify(paths[0])
      case Listed(name) => var rest := ListingOf(paths[1..]); Listing([name] + rest.names, rest.failed)
      case Skipped => ListingOf(paths[1..])
      case EndOfListing => Listing([], false)
      case Failed => Listing([], true)
  }

  /** The last two dots of `s` are at `i` and `i + 33`. */
  predicate HashDotsAt(s: string, i: nat)
  {
    && i + HashDotGap < |s| && s[i] == '.' && s[i + HashDotGap] == '.'
    && forall k :: i < k < |s| && k != i + HashDotGap ==> s[k] != '.'
  }

  predicate HasDot(s: string)
  {
    exists k :: 0 <= k < |s| && s[k] == '.'
  }

  /** The only dot of `s` is its first character. */
  predicate DotOnlyAtStart(s: string)
  {
    |s| > 0 && s[0] == '.' && forall k :: 0 < k < |s| ==> s[k] != '.'
  }

  /** The name of a bundle content file: its last two dots are 33 apart. */
  ghost predicate ContentFileName(s: string)
  {
    exists i: nat :: HashDotsAt(s, i)
  }

  /** The dots of a name, as `LastIndexOf` finds them. */
  lemma DotCases(f: string)
    ensures var lastDot := LastIndexOf(f, '.');
      && (lastDot == -1 <==> !HasDot(f))
      && (lastDot == 0 <==> DotOnlyAtStart(f))
      && (lastDot > 0 ==>
            var prev := LastIndexOfFrom(f, '.', lastDot - 1);
            (prev != -1 && lastDot - prev == HashDotGap) <==> ContentFileName(f))
  {
    var lastDot := LastIndexOf(f, '.');
    LastIndexOfSpec(f, '.');
    if lastDot > 0 {
      var prev := LastIndexOfFrom(f, '.', lastDot - 1);
      LastIndexOfFromSpec(f, '.', lastDot - 1);
      if prev != -1 && lastDot - prev == HashDotGap {
        assert HashDotsAt(f, prev);
      }
      if ContentFileName(f) {
        var i: nat :| HashDotsAt(f, i);
        assert f[i + HashDotGap] == '.';
      }
    } else if lastDot == -1 {
      assert !HasDot(f);
    }
  }

  /**
   * A name is printed exactly when it has at least seven characters and,
   * when longer than 40, has a dot after its first character and is not a
   * content file name; the printed name drops the last seven characters.
   */
  lemma ClassifyListed(path: string)
    ensures var f := FileName(path);
      Classify(path).Listed? <==>
        && ExtensionLength <= |f|
        && (|f| > ShortNameLength ==> HasDot(f) && !DotOnlyAtStart(f) && !ContentFileName(f))
    ensures Classify(path).Listed? ==> Classify(path).name == FileName(path)[..|FileName(path)| - ExtensionLength]
  {
    DotCases(FileName(path));
  }

  /** A name is skipped exactly when it is a long content file name. */
  lemma ClassifySkipped(path: string)
    ensures var f := FileName(path);
      Classify(path).Skipped? <==> ExtensionLength <= |f| && |f| > ShortNameLength && ContentFileName(f)
  {
    var f := FileName(path);
    DotCases(f);
    if ContentFileName(f) {
      var i: nat :| HashDotsAt(f, i);
      assert HasDot(f) && !DotOnlyAtStart(f) by {
        assert f[i + HashDotGap] == '.';
      }
    }
  }

  /** A long name without any dot ends the whole listing. */
  lemma ClassifyEnds(path: string)
    ensures var f := FileName(path);
      Classify(path).EndOfListing? <==> ExtensionLength <= |f| && |f| > ShortNameLength && !HasDot(f)
  {
    DotCases(FileName(path));
  }

  /** The command fails on a name shorter than the extension, and on a long name whose only dot comes first. */
  lemma ClassifyFails(path: string)
    ensures var f := FileName(path);
      Classify(path).Failed? <==> |f| < ExtensionLength || (|f| > ShortNameLength && DotOnlyAtStart(f))
  {
    DotCases(FileName(path));
  }

  /** Names of at most 40 characters (and at least 7) are always printed. */
  lemma ShortNamesListed(path: string)
    requires ExtensionLength <= |FileName(path)| <= ShortNameLength
    ensures Classify(path) == Listed(FileName(path)[..|FileName(path)| - ExtensionLength])
  {
  }

  /** When every name is short, every name is printed, in order. */
  lemma {:induction false} ShortListing(paths: seq<string>)
    requires forall k :: 0 <= k < |paths| ==> ExtensionLength <= |FileName(paths[k])| <= ShortNameLength
    ensures !ListingOf(paths).failed && |ListingOf(paths).names| == |paths|
    ensures forall k :: 0 <= k < |paths| ==>
      ListingOf(paths).names[k] == FileName(paths[k])[..|FileName(paths[k])| - ExtensionLength]
  {
    if paths != [] {
      ShortNamesListed(paths[0]);
      ShortListing(paths[1..]);
      assert forall k :: 1 <= k < |paths| ==> paths[k] == paths[1..][k - 1];
    }
  }

  /** The listing of the paths from `i` on, after `names` have been printed. */
  function Resume(names: seq<string>, rest: Listing): Listing
  {
    Listing(names + rest.names, rest.failed)
  }

  /** The loop body of `lb` on one path, statement by statement. */
  method EntryOf(bundlePath: string) returns (e: Entry)
    ensures e == Classify(bundlePath)
  {
    var lastSlash := LastIndexOf(bundlePath, '\\');
    var bundleFileName := bundlePath[lastSlash + 1..];
    if |bundleFileName| < ExtensionLength {
      return Failed;
    }
    var bundleName := bundleFileName[..|bundleFileName| - ExtensionLength];
    if |bundleFileName| > ShortNameLength {
      var lastDot := LastIndexOf(bundleFileName, '.');
      if lastDot == -1 {
        return EndOfListing;
      }
      if lastDot == 0 {
        return Failed;
      }
      var prevLastDot := LastIndexOfFrom(bundleFileName, '.', lastDot - 1);
      if prevLastDot != -1 && lastDot - prevLastDot == HashDotGap {
        return Skipped;
      }
    }
    return Listed(bundleName);
  }

  /** The listing from path `i` on, in terms of the entry of path `i`. */
  lemma ListingFrom(paths: seq<string>, i: nat)
    requires i < |paths|
    ensures ListingOf(paths[i..]) == match Classify(paths[i])
      case Listed(name) => Listing([name] + ListingOf(paths[i + 1..]).names, ListingOf(paths[i + 1..]).failed)
      case Skipped => ListingOf(paths[i + 1..])
      case EndOfListing => Listing([], false)
      case Failed => Listing([], true)
  {
    assert paths[i..][0] == paths[i];
    assert paths[i..][1..] == paths[i + 1..];
  }

  /** The `foreach` loop of `lb` with its `continue` and `break`. */
  method ListBundles(paths: seq<string>) returns (names: seq<string>, failed: bool)
    ensures Listing(names, failed) == ListingOf(paths)
  {
    names := [];
    failed := false;
    var i := 0;
    assert paths[i..] == paths;
    while i < |paths|
      invariant 0 <= i <= |paths|
      invariant ListingOf(paths) == Resume(names, ListingOf(paths[i..]))
    {
      var entry := EntryOf(paths[i]);
      ListingFrom(paths, i);
      if entry.Failed? {
        failed := true;
        assert names + [] == names;
        return;
      }
      if entry.EndOfListing? {
        assert names + [] == names;
        break;
      }
      if entry.Skipped? {
        i := i + 1;
        continue;
      }
      assert names + ([entry.name] + ListingOf(paths[i + 1..]).names) == names + [entry.name] + ListingOf(paths[i + 1..]).names;
      names := names + [entry.name];
      i := i + 1;
    }
    if i == |paths| {
      assert names + [] == names;
    }
  }

  // ---------------------------------------------------------------------
  // xt: extracting the references region
  // ---------------------------------------------------------------------

  /** The outcome of `xt`; every outcome but `Extracted` is an exception. */
  datatype Extraction =
    | UnknownFormat       // the destination is not a `.dds` file
    | InvalidHeader       // `ChunkHeader.Read` returned null
    | SeekFailed          // a seek to a negative offset
    | ReadFailed          // the discriminator lies past the end of the file
    | ObjectNotSupported  // the object region starts with `true`
    | NegativeRefsSize    // the references region would have a negative size
    | Extracted(image: seq<byte>, refsPath: string, refs: seq<byte>)

  /** The size of the references region: up to the object when that follows it, else up to the end of the file. */
  function RefsSize(header: ChunkHeader, length: nat): (r: int)
    ensures header.offsetToReferences + r
      == if header.offsetToObject > header.offsetToReferences then header.offsetToObject else length
    ensures header.offsetToObject > header.offsetToReferences ==> r > 0
  {
    if header.offsetToObject > header.offsetToReferences then header.offsetToObject - header.offsetToReferences
    else length - header.offsetToReferences
  }

  /** `Read(buffer, 0, size)` at offset `at` into a zeroed buffer of `size` bytes, stopping at the end of the file. */
  function ReadAt(file: seq<byte>, at: nat, size: nat): (r: seq<byte>)
    ensures |r| == size
  {
    if at >= |file| then Zeros(size)
    else
      var available := if size <= |file| - at then size else |file| - at;
      file[at..at + available] + Zeros(size - available)
  }

  /** Reading from `at` to the end of the file yields exactly those bytes. */
  lemma ReadToEnd(file: seq<byte>, at: nat)
    requires at <= |file|
    ensures ReadAt(file, at, |file| - at) == file[at..]
  {
    if at < |file| {
      assert file[at..at + (|file| - at)] + Zeros(0) == file[at..];
    }
  }

  /**
   * `xt` on the container `file` for the destination `dst`: the header, the
   * discriminator at the object offset (false: the image follows), then the
   * references region, which goes to `dst + ".refs"`.
   */
  function Extract(file: seq<byte>, dst: string): (r: Extraction)
    ensures r.Extracted? ==> r.refsPath == dst + ".refs"
  {
    if !EndsWith(dst, ".dds") then UnknownFormat
    else
      match ReadHeader(file)
      case None => InvalidHeader
      case Some((header, _)) =>
        var obj := header.offsetToObject;
        var refs := header.offsetToReferences;
        if obj < 0 then SeekFailed
        else if obj >= |file| then ReadFailed
        else if file[obj] != 0 then ObjectNotSupported
        else if refs < 0 then SeekFailed
        else if RefsSize(header, |file|) < 0 then NegativeRefsSize
        else Extracted(file[obj + 1..], dst + ".refs", ReadAt(file, refs, RefsSize(header, |file|)))
  }

  /**
   * Which outcome `xt` reaches: a destination that is not a `.dds` file, a
   * header that does not parse, a discriminator past the end of the file
   * and a true discriminator are each rejected, in that order, and
   * extraction succeeds exactly when every check and seek passes.
   */
  lemma ExtractOutcomes(file: seq<byte>, dst: string)
    ensures Extract(file, dst) == UnknownFormat <==> !EndsWith(dst, ".dds")
    ensures Extract(file, dst) == InvalidHeader <==> EndsWith(dst, ".dds") && ReadHeader(file).None?
    ensures Extract(file, dst) == ReadFailed <==>
      EndsWith(dst, ".dds") && ReadHeader(file).Some? && ReadHeader(file).value.0.offsetToObject >= |file|
    ensures Extract(file, dst) == ObjectNotSupported <==>
      && EndsWith(dst, ".dds") && ReadHeader(file).Some?
      && 0 <= ReadHeader(file).value.0.offsetToObject < |file|
      && file[ReadHeader(file).value.0.offsetToObject] != 0
    ensures Extract(file, dst).Extracted? <==>
      && EndsWith(dst, ".dds") && ReadHeader(file).Some?
      && 0 <= ReadHeader(file).value.0.offsetToObject < |file|
      && file[ReadHeader(file).value.0.offsetToObject] == 0
      && ReadHeader(file).value.0.offsetToReferences >= 0
      && RefsSize(ReadHeader(file).value.0, |file|) >= 0
    ensures Extract(file, dst).Extracted? ==>
      && Extract(file, dst).image == file[ReadHeader(file).value.0.offsetToObject + 1..]
      && |Extract(file, dst).refs| == RefsSize(ReadHeader(file).value.0, |file|)
  {
  }

  /**
   * The extracted references are exactly the bytes from the references
   * offset to the object offset (when the object follows) or to the end of
   * the file: the read never runs past the end.
   */
  lemma ExtractedRefs(file: seq<byte>, dst: string)
    requires Extract(file, dst).Extracted?
    ensures var header := ReadHeader(file).value.0;
      var refs := header.offsetToReferences;
      var end := if header.offsetToObject > refs then header.offsetToObject else |file|;
      && 0 <= refs <= end <= |file|
      && Extract(file, dst).refs == file[refs..end]
      && Extract(file, dst).image == file[header.offsetToObject + 1..]
  {
    var header := ReadHeader(file).value.0;
    var refs := header.offsetToReferences;
    var size := RefsSize(header, |file|);
    assert file[refs..refs + size] + Zeros(0) == file[refs..refs + size];
  }

  /** `xt` step by step: the checks, the seeks, and the buffer the references are read into. */
  method ExtractTexture(file: seq<byte>, dst: string) returns (r: Extraction)
    ensures r == Extract(file, dst)
  {
    if !EndsWith(dst, ".dds") {
      return UnknownFormat;
    }
    var read := ReadHeader(file);
    if read.None? {
      return InvalidHeader;
    }
    var header := read.value.0;
    if header.offsetToObject < 0 {
      return SeekFailed;
    }
    var position: nat := header.offsetToObject;
    if position >= |file| {
      return ReadFailed;
    }
    if file[position] != 0 {
      return ObjectNotSupported;
    }
    var image := file[position + 1..];
    if header.offsetToReferences < 0 {
      return SeekFailed;
    }
    position := header.offsetToReferences;
    var refsSize := RefsSize(header, |file|);
    if refsSize < 0 {
      return NegativeRefsSize;
    }
    var refs := ReadRefs(file, position, refsSize);
    assert Extract(file, dst) == Extracted(image, dst + ".refs", ReadAt(file, position, refsSize));
    return Extracted(image, dst + ".refs", refs);
  }

  /** `new byte[size]` and `Read(buffer, 0, size)` at offset `at`: the read stops at the end of the file. */
  method ReadRefs(file: seq<byte>, at: nat, size: nat) returns (refs: seq<byte>)
    ensures refs == ReadAt(file, at, size)
  {
    var buffer := NewBuffer(size);
    if at < |file| {
      var available := if size <= |file| - at then size else |file| - at;
      ReadBytes(buffer, file, at, available);
      assert buffer[..] == buffer[..available] + buffer[available..];
      assert buffer[available..] == Zeros(size - available);
    }
    refs := buffer[..];
  }

  // ---------------------------------------------------------------------
  // tx: writing a texture container
  // ---------------------------------------------------------------------

  /**
   * The file `tx` leaves behind: the final header (references right after
   * it, the object after the references), the references region, the
   * discriminator byte 0, the image and an int32 0.
   */
  function TextureFile(version: int, typeName: string, refs: Option<seq<byte>>, image: seq<byte>): seq<byte>
  {
    EncodeHeader(LayoutHeader(version, typeName, refs)) + TextureBody(refs, image)
  }

  /** What follows the header in the file `tx` writes: the references region, byte 0, the image and an int32 0. */
  function TextureBody(refs: Option<seq<byte>>, image: seq<byte>): seq<byte>
  {
    RefsRegion(refs) + (ByteBytes(0) + (image + Int32Bytes(0)))
  }

  /**
   * `tx` once the image is encoded: a header with zero offsets, the
   * references region (the `.refs` file, or an int32 0 without one), byte 0,
   * the image and an int32 0; then the header again at position 0 with the
   * positions recorded along the way.
   */
  method WriteTexture(version: int, typeName: string, refs: Option<seq<byte>>, image: seq<byte>)
    returns (dst: OutputStream)
    ensures fresh(dst)
    ensures dst.data == TextureFile(version, typeName, refs, image)
  {
    dst := new OutputStream();
    var header := ChunkHeader(version, typeName, 0, 0);
    var placeholder := EncodeHeader(header);
    dst.Write(placeholder);
    assert dst.data == placeholder && dst.position == HeaderLength(typeName);
    header := header.(offsetToReferences := Wrap32(dst.position));
    if refs.None? {
      dst.Write(Int32Bytes(0));
    } else {
      dst.Write(refs.value);
    }
    var region := RefsRegion(refs);
    assert dst.data == placeholder + region && dst.position == HeaderLength(typeName) + |region|;
    header := header.(offsetToObject := Wrap32(dst.position));
    assert header == LayoutHeader(version, typeName, refs);
    WriteObjectRegion(dst, image);
    assert dst.data == placeholder + TextureBody(refs, image);
    dst.Seek(0);
    OverwritePrefix(placeholder, TextureBody(refs, image), EncodeHeader(header));
    dst.Write(EncodeHeader(header));
    assert dst.data == EncodeHeader(header) + TextureBody(refs, image);
  }

  /** The object region at the end of the stream: the discriminator byte 0 (an image follows), the image, then an int32 0. */
  method WriteObjectRegion(dst: OutputStream, image: seq<byte>)
    requires dst.position == |dst.data|
    modifies dst
    ensures dst.data == old(dst.data) + (ByteBytes(0) + (image + Int32Bytes(0)))
    ensures dst.position == |dst.data|
  {
    dst.Write(ByteBytes(0));
    dst.Write(image);
    dst.Write(Int32Bytes(0));
    assert dst.data == old(dst.data) + ByteBytes(0) + image + Int32Bytes(0);
  }

  /**
   * The layout `tx` writes: the references offset is the header length, the
   * object offset is that plus the references region (4 bytes without a
   * `.refs` file), and the object region is byte 0, the image and an int32 0.
   */
  lemma TextureFileLayout(version: int, typeName: string, refs: Option<seq<byte>>, image: seq<byte>)
    requires IsInt32(version) && IsText(typeName)
    requires HeaderLength(typeName) + |RefsRegion(refs)| < TwoTo31
    ensures var file := TextureFile(version, typeName, refs, image);
      var h := HeaderLength(typeName);
      var obj := h + |RefsRegion(refs)|;
      && ReadHeader(file) == Some((ChunkHeader(version, typeName, obj, h), file[h..]))
      && (refs.None? ==> obj == h + 4)
      && |file| == obj + 1 + |image| + 4
      && file[h..obj] == RefsRegion(refs)
      && file[obj] == 0
      && file[obj + 1..] == image + Int32Bytes(0)
  {
    TextureFileHeader(version, typeName, refs, image);
    TextureFileRegions(TextureFile(version, typeName, refs, image), HeaderLength(typeName), RefsRegion(refs), image);
  }

  /** The header of the file `tx` writes reads back with the final offsets, and the regions follow it. */
  lemma TextureFileHeader(version: int, typeName: string, refs: Option<seq<byte>>, image: seq<byte>)
    requires IsInt32(version) && IsText(typeName)
    requires HeaderLength(typeName) + |RefsRegion(refs)| < TwoTo31
    ensures ReadHeader(TextureFile(version, typeName, refs, image))
      == Some((ChunkHeader(version, typeName, HeaderLength(typeName) + |RefsRegion(refs)|, HeaderLength(typeName)),
               TextureFile(version, typeName, refs, image)[HeaderLength(typeName)..]))
    ensures TextureFile(version, typeName, refs, image)[HeaderLength(typeName)..]
      == RefsRegion(refs) + (ByteBytes(0) + (image + Int32Bytes(0)))
  {
    LayoutHeaderReadsBack(version, typeName, refs, TextureBody(refs, image));
    assert TextureFile(version, typeName, refs, image)[HeaderLength(typeName)..] == TextureBody(refs, image);
  }

  /** Where the regions of a body made of `region`, byte 0, `image` and an int32 0 lie in the file from `h` on. */
  lemma TextureFileRegions(file: seq<byte>, h: nat, region: seq<byte>, image: seq<byte>)
    requires h <= |file| && file[h..] == region + (ByteBytes(0) + (image + Int32Bytes(0)))
    ensures |file| == h + |region| + 1 + |image| + 4
    ensures file[h..h + |region|] == region
    ensures file[h + |region|] == 0
    ensures file[h + |region| + 1..] == image + Int32Bytes(0)
  {
    assert ByteBytes(0)[0] == 0;
    assert file[h..h + |region|] == file[h..][..|region|];
    assert file[h + |region|..] == file[h..][|region|..];
  }

  // ---------------------------------------------------------------------
  // xt then tx, tx then xt
  // ---------------------------------------------------------------------

  /** The files `xt` leaves: the `.refs` file beside the destination. */
  function AfterExtract(files: map<string, seq<byte>>, r: Extraction): map<string, seq<byte>>
  {
    if r.Extracted? then files[r.refsPath := r.refs] else files
  }

  /** The `.refs` file `tx` reads for the source `src`, when it exists. */
  function RefsFor(files: map<string, seq<byte>>, src: string): Option<seq<byte>>
  {
    if src + ".refs" in files then Some(files[src + ".refs"]) else None
  }

  /**
   * `tx` run on the image `xt` produced carries the references region of the
   * original container over unchanged: the region between the new offsets
   * holds the bytes `xt` extracted.
   */
  lemma ExtractThenWrite(file: seq<byte>, dds: string, files: map<string, seq<byte>>,
                         version: int, typeName: string, image: seq<byte>)
    requires Extract(file, dds).Extracted?
    requires IsInt32(version) && IsText(typeName)
    requires HeaderLength(typeName) + |Extract(file, dds).refs| < TwoTo31
    ensures var header := ReadHeader(file).value.0;
      var refs := header.offsetToReferences;
      var end := if header.offsetToObject > refs then header.offsetToObject else |file|;
      var out := TextureFile(version, typeName, RefsFor(AfterExtract(files, Extract(file, dds)), dds), image);
      var h := HeaderLength(typeName);
      out[h..h + (end - refs)] == file[refs..end]
  {
    var r := Extract(file, dds);
    ExtractedRefs(file, dds);
    var refs := RefsFor(AfterExtract(files, r), dds);
    assert refs == Some(r.refs);
    TextureFileLayout(version, typeName, refs, image);
  }

  /**
   * `xt` on a file `tx` wrote gets the image back and, when the references
   * region is not empty, that region. With an empty `.refs` file the two
   * offsets coincide, and `xt` takes everything after the header, object
   * region included, as references.
   */
  lemma WriteThenExtract(version: int, typeName: string, refs: Option<seq<byte>>, image: seq<byte>, dds: string)
    requires IsInt32(version) && IsText(typeName) && EndsWith(dds, ".dds")
    requires HeaderLength(typeName) + |RefsRegion(refs)| < TwoTo31
    ensures var file := TextureFile(version, typeName, refs, image);
      var r := Extract(file, dds);
      && r.Extracted?
      && r.image == image + Int32Bytes(0)
      && (|RefsRegion(refs)| > 0 ==> r.refs == RefsRegion(refs))
      && (|RefsRegion(refs)| == 0 ==> r.refs == [0] + image + Int32Bytes(0))
  {
    var file := TextureFile(version, typeName, refs, image);
    TextureFileLayout(version, typeName, refs, image);
    ExtractedRefs(file, dds);
    if |RefsRegion(refs)| == 0 {
      var h := HeaderLength(typeName);
      assert file[h..] == [0] + image + Int32Bytes(0);
    }
  }
}
