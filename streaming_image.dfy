/**
 * Mip-chunked texture storage (DistantWorlds2.BundleManager/StreamingImage.cs):
 * per-level byte sizes for a pixel format, the chunk table and checksum that
 * describe the side data file, the container that `Write` produces, and the
 * copy loop of `Load` that reassembles the levels into one image buffer.
 */
module StreamingImage {
  import opened Binary
  import opened Streams
  import opened Container

  // ---------------------------------------------------------------------
  // Pixel formats and per-level sizes
  // ---------------------------------------------------------------------

  /** The pixel formats that the block-size switch names; every other format is `OtherFormat`. */
  datatype FormatId =
    | BC1_Typeless | BC1_UNorm | BC1_UNorm_SRgb
    | BC4_Typeless | BC4_UNorm | BC4_SNorm
    | OtherFormat(code: int)

  /**
   * A pixel format with the answers of the graphics library's
   * `IsCompressed()` and `SizeInBytes()` for it, which are inputs here.
   */
  datatype PixelFormat = PixelFormat(id: FormatId, isCompressed: bool, sizeInBytes: nat)

  /** The six formats whose 4x4 blocks take 8 bytes. */
  predicate HasEightByteBlocks(id: FormatId)
  {
    id == BC1_Typeless || id == BC1_UNorm || id == BC1_UNorm_SRgb ||
    id == BC4_Typeless || id == BC4_UNorm || id == BC4_SNorm
  }

  /** Bytes per 4x4 block for a compressed format, bytes per texel otherwise. */
  function BlockSize(format: PixelFormat): (r: nat)
    ensures format.isCompressed ==> r == 8 || r == 16
    ensures !format.isCompressed ==> r == format.sizeInBytes
  {
    if !format.isCompressed then format.sizeInBytes
    else
      match format.id
      case BC1_Typeless | BC1_UNorm | BC1_UNorm_SRgb | BC4_Typeless | BC4_UNorm | BC4_SNorm => 8
      case _ => 16
  }

  /** `Math.Max(1, x)`. */
  function Max1(x: int): (r: nat)
    ensures r >= 1 && r >= x && (r == 1 || r == x)
  {
    if x < 1 then 1 else x
  }

  /** `x` halved `k` times, rounding down. */
  function Halve(x: nat, k: nat): nat
  {
    if k == 0 then x else Halve(x, k - 1) / 2
  }

  /** C#'s `x >> count` on a non-negative int: the shift count is taken modulo 32. */
  function Shr(x: nat, count: nat): nat
  {
    Halve(x, count % 32)
  }

  /** Halving never grows a value. */
  lemma {:induction false} HalveBelow(x: nat, k: nat)
    ensures Halve(x, k) <= x
  {
    if k > 0 {
      HalveBelow(x, k - 1);
    }
  }

  /** A shift never grows a non-negative value, and shifting by 32 more is the same shift. */
  lemma ShrBounds(x: nat, count: nat)
    ensures Shr(x, count) <= x
    ensures Shr(x, count + 32) == Shr(x, count)
    ensures count % 32 == 0 ==> Shr(x, count) == x
  {
    HalveBelow(x, count % 32);
    assert (count + 32) % 32 == count % 32;
  }

  /** The number of 4-texel blocks along a side of `n` texels: the least count that covers them. */
  function BlocksAlong(n: nat): (r: nat)
    ensures 4 * r >= n
    ensures n >= 1 ==> 4 * (r - 1) < n
  {
    (n + 3) / 4
  }

  /** `SlicePitch(width, height, format)`: the bytes of one mip level of one array slice. */
  function SlicePitch(width: nat, height: nat, format: PixelFormat): nat
  {
    var w := if format.isCompressed then BlocksAlong(width) else width;
    var h := if format.isCompressed then BlocksAlong(height) else height;
    Mul(Mul(Max1(h), Max1(w)), BlockSize(format))
  }

  datatype ImageDescription = ImageDescription(
    width: nat,
    height: nat,
    mipLevels: nat,
    arraySize: nat,
    format: PixelFormat)

  /** The dimensions of mip level `i`: each halves per level and never drops below 1. */
  function MipWidth(desc: ImageDescription, i: nat): nat { Max1(Shr(desc.width, i)) }

  function MipHeight(desc: ImageDescription, i: nat): nat { Max1(Shr(desc.height, i)) }

  /** The bytes of mip level `i`: never less than one block, however far the level is shrunk. */
  function LevelPitch(desc: ImageDescription, i: nat): (r: nat)
    ensures r >= BlockSize(desc.format)
  {
    SlicePitchAtLeastOneBlock(MipWidth(desc, i), MipHeight(desc, i), desc.format);
    SlicePitch(MipWidth(desc, i), MipHeight(desc, i), desc.format)
  }

  /** The total bytes of mip levels 0 .. n-1 of one array slice. */
  function MipChainSize(desc: ImageDescription, n: nat): nat
  {
    if n == 0 then 0 else MipChainSize(desc, n - 1) + LevelPitch(desc, n - 1)
  }

  /** One more level adds the next level's pitch, computed from the halved dimensions. */
  lemma MipChainStep(desc: ImageDescription, i: nat)
    ensures MipChainSize(desc, i + 1)
         == MipChainSize(desc, i) + SlicePitch(Max1(Shr(desc.width, i)), Max1(Shr(desc.height, i)), desc.format)
  {
  }

  /** The byte size of the whole image: every mip level of every array slice. */
  function ImageSize(desc: ImageDescription): nat
  {
    Mul(desc.arraySize, MipChainSize(desc, desc.mipLevels))
  }

  /** For a compressed format a level is a grid of 4x4 blocks of 8 or 16 bytes. */
  lemma CompressedSlicePitch(width: nat, height: nat, format: PixelFormat)
    requires format.isCompressed && width >= 1 && height >= 1
    ensures SlicePitch(width, height, format)
         == BlocksAlong(width) * BlocksAlong(height) * (if HasEightByteBlocks(format.id) then 8 else 16)
  {
    var w := BlocksAlong(width);
    var h := BlocksAlong(height);
    assert w >= 1 && h >= 1;
    MulIsProduct(h, w);
    MulIsProduct(h * w, BlockSize(format));
  }

  /** For an uncompressed format a level is its texel count times the texel size. */
  lemma UncompressedSlicePitch(width: nat, height: nat, format: PixelFormat)
    requires !format.isCompressed && width >= 1 && height >= 1
    ensures SlicePitch(width, height, format) == width * height * format.sizeInBytes
  {
    MulIsProduct(height, width);
    MulIsProduct(height * width, format.sizeInBytes);
  }

  /** A level of at least one texel takes at least one block. */
  lemma SlicePitchAtLeastOneBlock(width: nat, height: nat, format: PixelFormat)
    requires width >= 1 && height >= 1
    ensures SlicePitch(width, height, format) >= BlockSize(format)
  {
    var w := if format.isCompressed then BlocksAlong(width) else width;
    var h := if format.isCompressed then BlocksAlong(height) else height;
    MulIsProduct(Max1(h), Max1(w));
    MulIsProduct(Max1(h) * Max1(w), BlockSize(format));
    assert Max1(h) * Max1(w) >= 1;
    assert Max1(h) * Max1(w) * BlockSize(format) >= 1 * BlockSize(format);
  }

  /** An 8x8 BC1 level is a 2x2 grid of 8-byte blocks. */
  lemma Bc1EightByEight(texelBytes: nat)
    ensures SlicePitch(8, 8, PixelFormat(BC1_UNorm, true, texelBytes)) == 32
  {
  }

  // ---------------------------------------------------------------------
  // CalculateSizeInBytes
  // ---------------------------------------------------------------------

  /** `SlicePitch` as the product the size loop computes. */
  lemma SlicePitchProduct(width: nat, height: nat, format: PixelFormat)
    ensures var w := if format.isCompressed then (width + 3) / 4 else width;
      var h := if format.isCompressed then (height + 3) / 4 else height;
      SlicePitch(width, height, format) == Max1(h) * Max1(w) * BlockSize(format)
  {
    var w := if format.isCompressed then BlocksAlong(width) else width;
    var h := if format.isCompressed then BlocksAlong(height) else height;
    MulIsProduct(Max1(h), Max1(w));
    MulIsProduct(Max1(h) * Max1(w), BlockSize(format));
  }

  /**
   * `CalculateSizeInBytes`: the accumulator loop with its own copy of the
   * block-size switch; it agrees with the sum of `SlicePitch` over the levels.
   */
  method CalculateSizeInBytes(desc: ImageDescription) returns (total: int)
    ensures total == ImageSize(desc)
  {
    var isCompressed := desc.format.isCompressed;
    var blockSize: int := desc.format.sizeInBytes;
    if isCompressed {
      match desc.format.id
      case BC1_Typeless | BC1_UNorm | BC1_UNorm_SRgb | BC4_Typeless | BC4_UNorm | BC4_SNorm =>
        blockSize := 8;
      case _ =>
        blockSize := 16;
    }
    assert blockSize == BlockSize(desc.format);
    var size := 0;
    var index := 0;
    while index < desc.mipLevels
      invariant 0 <= index <= desc.mipLevels
      invariant size == MipChainSize(desc, index)
    {
      var width: int := Max1(Shr(desc.width, index));
      var height: int := Max1(Shr(desc.height, index));
      if isCompressed {
        width := (width + 3) / 4;
        height := (height + 3) / 4;
      }
      var slicePitch := Max1(height) * Max1(width) * blockSize;
      SlicePitchProduct(Max1(Shr(desc.width, index)), Max1(Shr(desc.height, index)), desc.format);
      assert slicePitch == LevelPitch(desc, index);
      MipChainStep(desc, index);
      size := size + slicePitch;
      index := index + 1;
    }
    total := size * desc.arraySize;
    MulIsProduct(desc.arraySize, size);
  }

  // ---------------------------------------------------------------------
  // Chunk table and checksum
  // ---------------------------------------------------------------------

  datatype ChunkEntry = ChunkEntry(location: int, size: int)

  /** The table `Write` builds for levels 0 .. n-1: contiguous chunks of the level sizes from offset 0. */
  function ChunkTable(desc: ImageDescription, n: nat): (r: seq<ChunkEntry>)
    ensures |r| == n
  {
    if n == 0 then []
    else ChunkTable(desc, n - 1) + [ChunkEntry(MipChainSize(desc, n - 1), LevelPitch(desc, n - 1))]
  }

  function SumSizes(chunks: seq<ChunkEntry>): int
  {
    if chunks == [] then 0 else SumSizes(chunks[..|chunks| - 1]) + chunks[|chunks| - 1].size
  }

  /** Entry i of the table locates level i right after the levels before it. */
  lemma {:induction false} ChunkTableEntry(desc: ImageDescription, n: nat, i: nat)
    requires i < n
    ensures ChunkTable(desc, n)[i] == ChunkEntry(MipChainSize(desc, i), LevelPitch(desc, i))
  {
    if i < n - 1 {
      ChunkTableEntry(desc, n - 1, i);
    }
  }

  /** The table starts at 0, each chunk starts where the previous ends, and chunk i has level i's size. */
  lemma ChunkTableContiguous(desc: ImageDescription, n: nat)
    ensures n > 0 ==> ChunkTable(desc, n)[0].location == 0
    ensures forall i :: 0 <= i < n ==> ChunkTable(desc, n)[i].size == LevelPitch(desc, i)
    ensures forall i :: 0 <= i < n - 1 ==>
      ChunkTable(desc, n)[i + 1].location == ChunkTable(desc, n)[i].location + ChunkTable(desc, n)[i].size
  {
    forall i | 0 <= i < n
      ensures ChunkTable(desc, n)[i] == ChunkEntry(MipChainSize(desc, i), LevelPitch(desc, i))
    {
      ChunkTableEntry(desc, n, i);
    }
  }

  /** The chunk sizes add up to one array slice, which is the whole image when there is one slice. */
  lemma {:induction false} ChunkTableTotal(desc: ImageDescription, n: nat)
    ensures SumSizes(ChunkTable(desc, n)) == MipChainSize(desc, n)
    ensures n == desc.mipLevels && desc.arraySize == 1 ==> SumSizes(ChunkTable(desc, n)) == ImageSize(desc)
  {
    if n > 0 {
      ChunkTableTotal(desc, n - 1);
      assert ChunkTable(desc, n)[..n - 1] == ChunkTable(desc, n - 1);
    }
    if desc.arraySize == 1 {
      MulIsProduct(1, MipChainSize(desc, n));
    }
  }

  /** The chunk-table loop of `Write`, filling a new array while advancing `writeOffset`. */
  method BuildChunkTable(desc: ImageDescription) returns (chunks: array<ChunkEntry>)
    ensures fresh(chunks)
    ensures chunks[..] == ChunkTable(desc, desc.mipLevels)
  {
    chunks := new ChunkEntry[desc.mipLevels](_ => ChunkEntry(0, 0));
    var writeOffset := 0;
    var i := 0;
    while i < desc.mipLevels
      invariant 0 <= i <= desc.mipLevels
      invariant writeOffset == MipChainSize(desc, i)
      invariant chunks[..i] == ChunkTable(desc, i)
    {
      var width := Max1(Shr(desc.width, i));
      var height := Max1(Shr(desc.height, i));
      var pitch := SlicePitch(width, height, desc.format);
      MipChainStep(desc, i);
      chunks[i] := ChunkEntry(writeOffset, pitch);
      assert chunks[..i + 1] == chunks[..i] + [chunks[i]];
      writeOffset := writeOffset + pitch;
      i := i + 1;
    }
    assert chunks[..] == chunks[..desc.mipLevels];
  }

  /**
   * The checksum works on 32-bit words: a C# `int` is taken as its low 32
   * bits read unsigned, multiplication wraps around and `^` is the bitwise
   * exclusive or of the words, which is the same on the two's complement
   * values.
   */
  function Word(x: int): (r: nat)
    ensures r < TwoTo32
  {
    x % TwoTo32
  }

  function Pow2(n: nat): (r: nat)
    ensures r >= 1
  {
    if n == 0 then 1 else 2 * Pow2(n - 1)
  }

  lemma Pow2Of32()
    ensures Pow2(32) == TwoTo32
  {
    assert Pow2(4) == 0x10;
    assert Pow2(8) == 0x100;
    assert Pow2(12) == 0x1000;
    assert Pow2(16) == 0x1_0000;
    assert Pow2(20) == 0x10_0000;
    assert Pow2(24) == 0x100_0000;
    assert Pow2(28) == 0x1000_0000;
  }

  /** The exclusive or of the low `k` bits of `a` and `b`. */
  function XorBits(a: nat, b: nat, k: nat): (r: nat)
    ensures r < Pow2(k)
  {
    if k == 0 then 0
    else 2 * XorBits(a / 2, b / 2, k - 1) + (if a % 2 == b % 2 then 0 else 1)
  }

  function Xor(a: nat, b: nat): (r: nat)
    ensures r < TwoTo32
  {
    Pow2Of32();
    XorBits(a, b, 32)
  }

  /** `h * 397` with 32-bit wrap-around. */
  function Times397(h: nat): (r: nat)
    ensures r < TwoTo32
  {
    (h * 397) % TwoTo32
  }

  /** `(int)Ticks * 397 ^ Chunks.Length`. */
  function HashSeed(ticks: int, count: int): (r: nat)
    ensures r < TwoTo32
  {
    Xor(Times397(Word(ticks)), Word(count))
  }

  /** `hashCode = hashCode * 397 ^ Chunks[index].Size` folded over the chunks in order. */
  function HashFold(seed: nat, chunks: seq<ChunkEntry>): nat
  {
    if chunks == [] then seed
    else Xor(Times397(HashFold(seed, chunks[..|chunks| - 1])), Word(chunks[|chunks| - 1].size))
  }

  /** The checksum as the C# `int` it is stored as. */
  function StorageHash(ticks: int, chunks: seq<ChunkEntry>): (r: int)
    ensures IsInt32(r)
  {
    Wrap32(HashFold(HashSeed(ticks, |chunks|), chunks))
  }

  /** The checksum reads only the chunk sizes, never their locations. */
  lemma {:induction false} HashFoldIgnoresLocations(seed: nat, a: seq<ChunkEntry>, b: seq<ChunkEntry>)
    requires |a| == |b|
    requires forall i :: 0 <= i < |a| ==> a[i].size == b[i].size
    ensures HashFold(seed, a) == HashFold(seed, b)
  {
    if a != [] {
      HashFoldIgnoresLocations(seed, a[..|a| - 1], b[..|b| - 1]);
    }
  }

  /** The checksum depends on the timestamp's low 32 bits, the chunk count and the sizes in order. */
  lemma StorageHashInputs(ticks1: int, ticks2: int, a: seq<ChunkEntry>, b: seq<ChunkEntry>)
    requires ticks1 % TwoTo32 == ticks2 % TwoTo32
    requires |a| == |b|
    requires forall i :: 0 <= i < |a| ==> a[i].size == b[i].size
    ensures StorageHash(ticks1, a) == StorageHash(ticks2, b)
  {
    HashFoldIgnoresLocations(HashSeed(ticks1, |a|), a, b);
  }

  datatype StorageHeader = StorageHeader(
    initialImage: bool,
    packageTicks: int,
    dataUrl: string,
    chunks: seq<ChunkEntry>,
    hashCode: int)

  /** `GetHashCode(ContentStorageHeader)`: the 32-bit wrapping fold over the sizes. */
  method GetHashCode(header: StorageHeader) returns (hashCode: int)
    ensures hashCode == StorageHash(header.packageTicks, header.chunks)
  {
    var chunks := header.chunks;
    var h := Xor(Times397(Word(header.packageTicks)), Word(|chunks|));
    var index := 0;
    while index < |chunks|
      invariant 0 <= index <= |chunks|
      invariant h == HashFold(HashSeed(header.packageTicks, |chunks|), chunks[..index])
    {
      assert chunks[..index + 1][..index] == chunks[..index];
      h := Xor(Times397(h), Word(chunks[index].size));
      index := index + 1;
    }
    assert chunks[..index] == chunks;
    hashCode := Wrap32(h);
  }

  // ---------------------------------------------------------------------
  // Content storage header encoding
  // ---------------------------------------------------------------------

  function EncodeChunks(chunks: seq<ChunkEntry>): (r: seq<byte>)
    ensures |r| == 8 * |chunks|
  {
    if chunks == [] then []
    else Int32Bytes(chunks[0].location) + Int32Bytes(chunks[0].size) + EncodeChunks(chunks[1..])
  }

  /** The chunk count followed by (location, size) for each chunk. */
  function EncodeChunkList(chunks: seq<ChunkEntry>): (r: seq<byte>)
    ensures |r| == 4 + 8 * |chunks|
  {
    Int32Bytes(|chunks|) + EncodeChunks(chunks)
  }

  /** [initialImage][packageTime ticks:int64][dataUrl][chunk list][hashCode]. */
  function EncodeStorage(s: StorageHeader): seq<byte>
  {
    BoolBytes(s.initialImage) + (Int64Bytes(s.packageTicks) + (StringBytes(s.dataUrl)
      + (EncodeChunkList(s.chunks) + Int32Bytes(s.hashCode))))
  }

  function ReadChunks(s: seq<byte>, n: nat): (r: Option<(seq<ChunkEntry>, seq<byte>)>)
    ensures r.Some? ==> |r.value.0| == n
  {
    if n == 0 then Some(([], s))
    else
      match ReadInt32(s)
      case None => None
      case Some((location, s1)) =>
        match ReadInt32(s1)
        case None => None
        case Some((size, s2)) =>
          match ReadChunks(s2, n - 1)
          case None => None
          case Some((more, s3)) => Some(([ChunkEntry(location, size)] + more, s3))
  }

  /** A negative chunk count fails like the array allocation it sizes. */
  function ReadChunkList(s: seq<byte>): Option<(seq<ChunkEntry>, seq<byte>)>
  {
    match ReadInt32(s)
    case None => None
    case Some((count, s1)) =>
      if count < 0 then None else ReadChunks(s1, count)
  }

  /** The fields before the chunk list: the initial-image flag, the package ticks and the data URL. */
  function ReadStorageFront(s: seq<byte>): Option<(bool, int, string, seq<byte>)>
  {
    match ReadBool(s)
    case None => None
    case Some((initialImage, s1)) =>
      match ReadInt64(s1)
      case None => None
      case Some((ticks, s2)) =>
        match ReadString(s2)
        case None => None
        case Some((dataUrl, s3)) => Some((initialImage, ticks, dataUrl, s3))
  }

  /** `ContentStorageHeader.Read`. */
  function ReadStorage(s: seq<byte>): Option<(StorageHeader, seq<byte>)>
  {
    match ReadStorageFront(s)
    case None => None
    case Some((initialImage, ticks, dataUrl, s3)) =>
      match ReadChunkList(s3)
      case None => None
      case Some((chunks, s4)) =>
        match ReadInt32(s4)
        case None => None
        case Some((hashCode, s5)) =>
          Some((StorageHeader(initialImage, ticks, dataUrl, chunks, hashCode), s5))
  }

  predicate ChunkFitsInt32(c: ChunkEntry) { IsInt32(c.location) && IsInt32(c.size) }

  predicate StorageWellFormed(s: StorageHeader)
  {
    IsInt64(s.packageTicks) && IsText(s.dataUrl) && |s.chunks| < TwoTo31 && IsInt32(s.hashCode)
    && forall i :: 0 <= i < |s.chunks| ==> ChunkFitsInt32(s.chunks[i])
  }

  lemma {:induction false} ChunksRoundTrip(chunks: seq<ChunkEntry>, rest: seq<byte>)
    requires forall i :: 0 <= i < |chunks| ==> ChunkFitsInt32(chunks[i])
    ensures ReadChunks(EncodeChunks(chunks) + rest, |chunks|) == Some((chunks, rest))
  {
    if chunks != [] {
      var c := chunks[0];
      assert ChunkFitsInt32(c);
      var tail := EncodeChunks(chunks[1..]) + rest;
      var s := EncodeChunks(chunks) + rest;
      assert s == Int32Bytes(c.location) + (Int32Bytes(c.size) + tail);
      Int32RoundTrip(c.location, Int32Bytes(c.size) + tail);
      assert ReadInt32(s) == Some((c.location, Int32Bytes(c.size) + tail));
      Int32RoundTrip(c.size, tail);
      assert ReadInt32(Int32Bytes(c.size) + tail) == Some((c.size, tail));
      ChunksRoundTrip(chunks[1..], rest);
      assert ReadChunks(tail, |chunks| - 1) == Some((chunks[1..], rest));
      assert [c] + chunks[1..] == chunks;
    } else {
      assert EncodeChunks(chunks) + rest == rest;
    }
  }

  lemma ChunkListRoundTrip(chunks: seq<ChunkEntry>, rest: seq<byte>)
    requires |chunks| < TwoTo31
    requires forall i :: 0 <= i < |chunks| ==> ChunkFitsInt32(chunks[i])
    ensures ReadChunkList(EncodeChunkList(chunks) + rest) == Some((chunks, rest))
  {
    var tail := EncodeChunks(chunks) + rest;
    assert EncodeChunkList(chunks) + rest == Int32Bytes(|chunks|) + tail;
    Int32RoundTrip(|chunks|, tail);
    ChunksRoundTrip(chunks, rest);
  }

  lemma StorageFrontRoundTrip(s: StorageHeader, rest: seq<byte>)
    requires IsInt64(s.packageTicks) && IsText(s.dataUrl)
    ensures ReadStorageFront(BoolBytes(s.initialImage) + (Int64Bytes(s.packageTicks) + (StringBytes(s.dataUrl) + rest)))
         == Some((s.initialImage, s.packageTicks, s.dataUrl, rest))
  {
    var t2 := StringBytes(s.dataUrl) + rest;
    var t1 := Int64Bytes(s.packageTicks) + t2;
    BoolRoundTrip(s.initialImage, t1);
    Int64RoundTrip(s.packageTicks, t2);
    StringRoundTrip(s.dataUrl, rest);
  }

  /** A storage header written by `Write` is read back unchanged by `Load`. */
  lemma StorageRoundTrip(s: StorageHeader, rest: seq<byte>)
    requires StorageWellFormed(s)
    ensures ReadStorage(EncodeStorage(s) + rest) == Some((s, rest))
  {
    var t4 := Int32Bytes(s.hashCode) + rest;
    var t3 := EncodeChunkList(s.chunks) + t4;
    assert EncodeStorage(s) + rest
        == BoolBytes(s.initialImage) + (Int64Bytes(s.packageTicks) + (StringBytes(s.dataUrl) + t3));
    StorageFrontRoundTrip(s, t3);
    assert ReadStorageFront(EncodeStorage(s) + rest) == Some((s.initialImage, s.packageTicks, s.dataUrl, t3));
    ChunkListRoundTrip(s.chunks, t4);
    Int32RoundTrip(s.hashCode, rest);
  }

  // ---------------------------------------------------------------------
  // Write
  // ---------------------------------------------------------------------

  /** The storage header `Write` fills in: no initial image, the data file's URL, the table and its hash. */
  function WrittenStorage(desc: ImageDescription, ticks: int, assetPath: string): (r: StorageHeader)
    ensures !r.initialImage && r.packageTicks == ticks && r.dataUrl == assetPath + "_Data"
    ensures |r.chunks| == desc.mipLevels
    ensures r.hashCode == StorageHash(r.packageTicks, r.chunks)
  {
    var chunks := ChunkTable(desc, desc.mipLevels);
    StorageHeader(false, ticks, assetPath + "_Data", chunks, StorageHash(ticks, chunks))
  }

  /**
   * The container file `Write` leaves behind: the final header (version 1,
   * references right after it, object 4 bytes later), an int32 0 as the
   * references region, discriminator byte 1, the serialized description,
   * the storage header and a trailing int32 0.
   */
  function TextureContainer(textureType: string, descBytes: seq<byte>, storage: StorageHeader): seq<byte>
  {
    var h := HeaderLength(textureType);
    EncodeHeader(ChunkHeader(1, textureType, Wrap32(h + 4), Wrap32(h))) + ContainerBody(descBytes, storage)
  }

  /** Everything after the header: the references region and the object region. */
  function ContainerBody(descBytes: seq<byte>, storage: StorageHeader): seq<byte>
  {
    Int32Bytes(0) + (ByteBytes(1) + (descBytes + (EncodeStorage(storage) + Int32Bytes(0))))
  }

  lemma Regroup(p: seq<byte>, a: seq<byte>, b: seq<byte>, c: seq<byte>, d: seq<byte>, e: seq<byte>)
    ensures p + a + b + c + d + e == p + (a + (b + (c + (d + e))))
  {
  }

  /**
   * The container half of `Write`: the header is written with placeholder
   * offsets, the offsets are recorded as the stream advances, and the header
   * is rewritten at position 0.
   */
  method WriteContainer(textureType: string, descBytes: seq<byte>, storage: StorageHeader)
    returns (container: OutputStream)
    ensures fresh(container)
    ensures container.data == TextureContainer(textureType, descBytes, storage)
  {
    container := new OutputStream();
    var header := ChunkHeader(1, textureType, 0, 0);
    var placeholder := EncodeHeader(header);
    container.Write(placeholder);
    assert container.data == placeholder && container.position == HeaderLength(textureType);
    header := header.(offsetToReferences := Wrap32(container.position));
    container.Write(Int32Bytes(0));
    header := header.(offsetToObject := Wrap32(container.position));
    container.Write(ByteBytes(1));
    container.Write(descBytes);
    container.Write(EncodeStorage(storage));
    container.Write(Int32Bytes(0));
    var body := ContainerBody(descBytes, storage);
    Regroup(placeholder, Int32Bytes(0), ByteBytes(1), descBytes, EncodeStorage(storage), Int32Bytes(0));
    assert container.data == placeholder + body;

    container.Seek(0);
    OverwritePrefix(placeholder, body, EncodeHeader(header));
    container.Write(EncodeHeader(header));
    assert container.data == EncodeHeader(header) + body;
  }

  /**
   * `Write`: the storage header gets the chunk table and its checksum, the
   * container is written, and the data file is sized to the image and
   * filled from the image's pixel buffer. The package time is an input, and
   * `descBytes` is the serializer's encoding of the image description.
   */
  method Write(assetPath: string, textureType: string, desc: ImageDescription, descBytes: seq<byte>,
               pixels: seq<byte>, ticks: int)
    returns (container: OutputStream, dataFile: OutputStream)
    requires |pixels| >= ImageSize(desc)
    ensures fresh(container) && fresh(dataFile)
    ensures container.data == TextureContainer(textureType, descBytes, WrittenStorage(desc, ticks, assetPath))
    ensures dataFile.data == pixels[..ImageSize(desc)]
  {
    var chunks := BuildChunkTable(desc);
    var storage := StorageHeader(false, ticks, assetPath + "_Data", chunks[..], 0);
    var hashCode := GetHashCode(storage);
    storage := storage.(hashCode := hashCode);
    assert storage == WrittenStorage(desc, ticks, assetPath);
    container := WriteContainer(textureType, descBytes, storage);
    dataFile := WriteDataFile(desc, pixels);
  }

  /** The data-file half of `Write`: sized to the image, then filled from the pixel buffer. */
  method WriteDataFile(desc: ImageDescription, pixels: seq<byte>) returns (dataFile: OutputStream)
    requires |pixels| >= ImageSize(desc)
    ensures fresh(dataFile)
    ensures dataFile.data == pixels[..ImageSize(desc)]
  {
    dataFile := new OutputStream();
    var totalSize := CalculateSizeInBytes(desc);
    dataFile.SetLength(totalSize);
    dataFile.Seek(0);
    dataFile.Write(pixels[..totalSize]);
    assert dataFile.data == pixels[..totalSize];
  }

  /**
   * Reading the container back: the header says version 1 with the object
   * region 4 bytes after the references region, which holds an int32 0 and
   * starts right after the header; the object region starts with the
   * discriminator 1, and the storage header after the description is read
   * back unchanged.
   */
  lemma TextureContainerLayout(textureType: string, descBytes: seq<byte>, storage: StorageHeader)
    requires IsText(textureType) && HeaderLength(textureType) + 4 < TwoTo31
    requires StorageWellFormed(storage)
    ensures ReadHeader(TextureContainer(textureType, descBytes, storage)).Some?
    ensures var header := ReadHeader(TextureContainer(textureType, descBytes, storage)).value.0;
      && header.version == 1
      && header.typeName == textureType
      && header.offsetToReferences == HeaderLength(textureType)
      && header.offsetToObject == header.offsetToReferences + 4
    ensures TextureContainer(textureType, descBytes, storage)[HeaderLength(textureType)..] == ContainerBody(descBytes, storage)
    ensures var body := ContainerBody(descBytes, storage);
      && body[..4] == Int32Bytes(0)
      && body[4] == 1
      && body[5..5 + |descBytes|] == descBytes
      && ReadStorage(body[5 + |descBytes|..]) == Some((storage, Int32Bytes(0)))
  {
    TextureContainerHeader(textureType, descBytes, storage);
    ContainerBodyLayout(descBytes, storage);
  }

  /** The header of the container reads back with the final offsets, followed by the body. */
  lemma TextureContainerHeader(textureType: string, descBytes: seq<byte>, storage: StorageHeader)
    requires IsText(textureType) && HeaderLength(textureType) + 4 < TwoTo31
    ensures ReadHeader(TextureContainer(textureType, descBytes, storage))
         == Some((ChunkHeader(1, textureType, HeaderLength(textureType) + 4, HeaderLength(textureType)),
                  ContainerBody(descBytes, storage)))
    ensures TextureContainer(textureType, descBytes, storage)[HeaderLength(textureType)..] == ContainerBody(descBytes, storage)
  {
    assert IsInt32(HeaderLength(textureType) + 4) && IsInt32(HeaderLength(textureType));
    HeaderRoundTrip(ChunkHeader(1, textureType, HeaderLength(textureType) + 4, HeaderLength(textureType)),
                    ContainerBody(descBytes, storage));
  }

  /** The body is the int32 0, the discriminator 1, the description and the storage header followed by an int32 0. */
  lemma ContainerBodyLayout(descBytes: seq<byte>, storage: StorageHeader)
    requires StorageWellFormed(storage)
    ensures ContainerBody(descBytes, storage)[..4] == Int32Bytes(0)
    ensures ContainerBody(descBytes, storage)[4] == 1
    ensures ContainerBody(descBytes, storage)[5..5 + |descBytes|] == descBytes
    ensures ReadStorage(ContainerBody(descBytes, storage)[5 + |descBytes|..]) == Some((storage, Int32Bytes(0)))
  {
    assert ByteBytes(1)[0] == 1;
    BodyParts(Int32Bytes(0), ByteBytes(1), descBytes, EncodeStorage(storage) + Int32Bytes(0));
    StorageRoundTrip(storage, Int32Bytes(0));
  }

  /** The parts of a body made of a 4-byte field, a 1-byte field, `c` and `d`. */
  lemma BodyParts(a: seq<byte>, b: seq<byte>, c: seq<byte>, d: seq<byte>)
    requires |a| == 4 && |b| == 1
    ensures (a + (b + (c + d)))[..4] == a
    ensures (a + (b + (c + d)))[4] == b[0]
    ensures (a + (b + (c + d)))[5..5 + |c|] == c
    ensures (a + (b + (c + d)))[5 + |c|..] == d
  {
    assert (a + (b + (c + d)))[5..] == c + d;
  }

  // ---------------------------------------------------------------------
  // Load
  // ---------------------------------------------------------------------

  /** `bytes` copied over the buffer at offset `at`. */
  function Paste(buffer: seq<byte>, at: nat, bytes: seq<byte>): (r: seq<byte>)
    requires at + |bytes| <= |buffer|
    ensures |r| == |buffer|
  {
    buffer[..at] + bytes + buffer[at + |bytes|..]
  }

  /** Pasting replaces exactly the bytes at [at, at + |bytes|). */
  lemma PasteSpec(buffer: seq<byte>, at: nat, bytes: seq<byte>)
    requires at + |bytes| <= |buffer|
    ensures forall i :: at <= i < at + |bytes| ==> Paste(buffer, at, bytes)[i] == bytes[i - at]
    ensures forall i :: 0 <= i < |buffer| && !(at <= i < at + |bytes|) ==> Paste(buffer, at, bytes)[i] == buffer[i]
  {
  }

  /**
   * Where `Load` places chunk i in the destination buffer: the sum of the
   * computed sizes of levels 0 .. i-1, whatever the table says.
   */
  function DestOffsets(desc: ImageDescription, n: nat): (r: seq<nat>)
    ensures |r| == n
    ensures forall i :: 0 <= i < n ==> r[i] == MipChainSize(desc, i)
  {
    seq(n, i requires 0 <= i < n => MipChainSize(desc, i))
  }

  /**
   * What `Load` needs of its inputs: every chunk lies within the data file,
   * and placed at its destination offset it lies within the destination
   * buffer of `total` bytes (which also bounds the staging buffer).
   */
  predicate ChunksFit(offsets: seq<nat>, total: nat, chunks: seq<ChunkEntry>, dataFile: seq<byte>)
  {
    && |offsets| == |chunks|
    && forall i :: 0 <= i < |chunks| ==>
      && 0 <= chunks[i].location
      && 0 <= chunks[i].size
      && chunks[i].location + chunks[i].size <= |dataFile|
      && offsets[i] + chunks[i].size <= total
  }

  /**
   * The destination buffer after the first n chunks: it starts with the
   * contents `initial` the allocator left in it, then chunk i is read at its
   * table location and pasted at its destination offset.
   */
  function Loaded(offsets: seq<nat>, initial: seq<byte>, chunks: seq<ChunkEntry>, dataFile: seq<byte>, n: nat): (r: seq<byte>)
    requires n <= |chunks| && ChunksFit(offsets, |initial|, chunks, dataFile)
    ensures |r| == |initial|
  {
    if n == 0 then initial
    else
      var c := chunks[n - 1];
      Paste(Loaded(offsets, initial, chunks, dataFile, n - 1), offsets[n - 1], dataFile[c.location..c.location + c.size])
  }

  /** Bytes at and after `from`, which no chunk's destination reaches, keep the allocator's contents. */
  lemma {:induction false} LoadedTail(offsets: seq<nat>, initial: seq<byte>, chunks: seq<ChunkEntry>, dataFile: seq<byte>,
                                      n: nat, from: nat)
    requires n <= |chunks| && ChunksFit(offsets, |initial|, chunks, dataFile) && from <= |initial|
    requires forall i :: 0 <= i < n ==> offsets[i] + chunks[i].size <= from
    ensures Loaded(offsets, initial, chunks, dataFile, n)[from..] == initial[from..]
  {
    if n > 0 {
      LoadedTail(offsets, initial, chunks, dataFile, n - 1, from);
      var c := chunks[n - 1];
      var before := Loaded(offsets, initial, chunks, dataFile, n - 1);
      PasteSpec(before, offsets[n - 1], dataFile[c.location..c.location + c.size]);
    }
  }

  /**
   * One pass of `Load`'s loop: chunk i is read from the data file at its
   * location into the staging buffer, then copied to the destination at
   * `destOffset`, which is chunk i's destination offset.
   */
  method LoadChunk(ghost offsets: seq<nat>, ghost initial: seq<byte>, chunks: seq<ChunkEntry>, dataFile: seq<byte>, i: nat,
                   data: array<byte>, image: array<byte>, destOffset: nat)
    requires data != image && data.Length == image.Length == |initial|
    requires i < |chunks| && ChunksFit(offsets, |initial|, chunks, dataFile) && destOffset == offsets[i]
    requires image[..] == Loaded(offsets, initial, chunks, dataFile, i)
    modifies data, image
    ensures image[..] == Loaded(offsets, initial, chunks, dataFile, i + 1)
  {
    var location := chunks[i].location;
    var size := chunks[i].size;
    // ds.Position = Location; ds.Read(data, 0, Size)
    ReadBytes(data, dataFile, location, size);
    // CopyMemory(dest + destOffset, src, Size)
    CopyMemory(image, destOffset, data, size);
  }

  /** `Utilities.CopyMemory(dest + at, src, n)`: the first n bytes of `src` are pasted at `at`. */
  method CopyMemory(dest: array<byte>, at: nat, src: array<byte>, n: nat)
    requires dest != src && n <= src.Length && at + n <= dest.Length
    modifies dest
    ensures dest[..] == Paste(old(dest[..]), at, src[..n])
  {
    ghost var before := dest[..];
    forall j | 0 <= j < n {
      dest[at + j] := src[j];
    }
    PasteSpec(before, at, src[..n]);
    assert dest[..] == Paste(before, at, src[..n]);
  }

  /** The end of `Load`'s loop body: the destination offset advances by level i's computed size. */
  method NextDestOffset(desc: ImageDescription, i: nat, destOffset: nat) returns (next: nat)
    requires destOffset == MipChainSize(desc, i)
    ensures next == MipChainSize(desc, i + 1)
  {
    var width := Max1(Shr(desc.width, i));
    var height := Max1(Shr(desc.height, i));
    MipChainStep(desc, i);
    next := destOffset + SlicePitch(width, height, desc.format);
  }

  /**
   * `Utilities.AllocateMemory(n)`: a fresh buffer of n bytes whose contents
   * are whatever the allocator left there, given here as `initial`.
   */
  method AllocateMemory(n: nat, initial: seq<byte>) returns (a: array<byte>)
    requires |initial| == n
    ensures fresh(a) && a[..] == initial
  {
    a := new byte[n](i requires 0 <= i < n => initial[i]);
  }

  /**
   * `Load`: the staging buffer is a zeroed `new byte[totalSize]`, the
   * destination is allocated with unspecified contents `initial`, then the
   * chunk copy loop fills the destination.
   */
  method Load(desc: ImageDescription, storage: StorageHeader, dataFile: seq<byte>, initial: seq<byte>) returns (image: array<byte>)
    requires |initial| == ImageSize(desc)
    requires ChunksFit(DestOffsets(desc, |storage.chunks|), ImageSize(desc), storage.chunks, dataFile)
    ensures fresh(image)
    ensures image[..] == Loaded(DestOffsets(desc, |storage.chunks|), initial, storage.chunks, dataFile, |storage.chunks|)
  {
    var totalSize := CalculateSizeInBytes(desc);
    var data := NewBuffer(totalSize);
    image := AllocateMemory(totalSize, initial);
    LoadChunks(desc, DestOffsets(desc, |storage.chunks|), initial, storage.chunks, dataFile, data, image);
  }

  /**
   * The chunk copy loop of `Load`: each chunk is read from the data file into
   * the staging buffer and copied to the destination at `destOffset`, which
   * starts at 0 and advances by each level's computed size; `offsets` are
   * those destination offsets.
   */
  method LoadChunks(desc: ImageDescription, ghost offsets: seq<nat>, ghost initial: seq<byte>, chunks: seq<ChunkEntry>,
                    dataFile: seq<byte>, data: array<byte>, image: array<byte>)
    requires ChunksFit(offsets, |initial|, chunks, dataFile)
    requires forall i :: 0 <= i < |offsets| ==> offsets[i] == MipChainSize(desc, i)
    requires data != image && data.Length == image.Length == |initial| && image[..] == initial
    modifies data, image
    ensures image[..] == Loaded(offsets, initial, chunks, dataFile, |chunks|)
  {
    var destOffset := 0;
    var i := 0;
    while i < |chunks|
      invariant 0 <= i <= |chunks|
      invariant destOffset == MipChainSize(desc, i)
      invariant image[..] == Loaded(offsets, initial, chunks, dataFile, i)
    {
      LoadChunk(offsets, initial, chunks, dataFile, i, data, image, destOffset);
      destOffset := NextDestOffset(desc, i, destOffset);
      i := i + 1;
    }
  }

  /** A table whose chunk i sits at destination offset i, each chunk starting where the previous one ends. */
  predicate Contiguous(offsets: seq<nat>, chunks: seq<ChunkEntry>)
  {
    && |offsets| == |chunks|
    && (|chunks| > 0 ==> offsets[0] == 0)
    && (forall i :: 0 <= i < |chunks| ==> chunks[i].location == offsets[i])
    && forall i :: 0 <= i < |chunks| - 1 ==> offsets[i + 1] == offsets[i] + chunks[i].size
  }

  /** The end of the first n chunks of a contiguous table. */
  function ChunksEnd(offsets: seq<nat>, chunks: seq<ChunkEntry>, n: nat): int
    requires n <= |offsets| == |chunks|
  {
    if n == 0 then 0 else offsets[n - 1] + chunks[n - 1].size
  }

  /** Loading a contiguous table whose locations are its destinations copies the data file's prefix. */
  lemma {:induction false} LoadedPrefix(offsets: seq<nat>, initial: seq<byte>, chunks: seq<ChunkEntry>, file: seq<byte>, n: nat)
    requires n <= |chunks| && ChunksFit(offsets, |initial|, chunks, file) && Contiguous(offsets, chunks)
    ensures ChunksEnd(offsets, chunks, n) <= |initial| && ChunksEnd(offsets, chunks, n) <= |file|
    ensures forall k :: 0 <= k < ChunksEnd(offsets, chunks, n) ==> Loaded(offsets, initial, chunks, file, n)[k] == file[k]
  {
    if n > 0 {
      LoadedPrefix(offsets, initial, chunks, file, n - 1);
      var prev := offsets[n - 1];
      var c := chunks[n - 1];
      assert prev == ChunksEnd(offsets, chunks, n - 1);
      var before := Loaded(offsets, initial, chunks, file, n - 1);
      var after := Loaded(offsets, initial, chunks, file, n);
      assert after == Paste(before, prev, file[prev..prev + c.size]);
      PasteSpec(before, prev, file[prev..prev + c.size]);
    }
  }

  lemma {:induction false} MipChainMonotone(desc: ImageDescription, m: nat, n: nat)
    requires m <= n
    ensures MipChainSize(desc, m) <= MipChainSize(desc, n)
  {
    if m < n {
      MipChainMonotone(desc, m, n - 1);
    }
  }

  lemma MipChainBelowImage(desc: ImageDescription)
    requires desc.arraySize >= 1
    ensures MipChainSize(desc, desc.mipLevels) <= ImageSize(desc)
  {
    var s := MipChainSize(desc, desc.mipLevels);
    MulIsProduct(desc.arraySize, s);
    assert desc.arraySize * s >= 1 * s;
  }

  /** The table `Write` builds is contiguous and its locations are the offsets `Load` pastes at. */
  lemma WrittenTableContiguous(desc: ImageDescription)
    ensures Contiguous(DestOffsets(desc, desc.mipLevels), ChunkTable(desc, desc.mipLevels))
    ensures ChunksEnd(DestOffsets(desc, desc.mipLevels), ChunkTable(desc, desc.mipLevels), desc.mipLevels)
         == MipChainSize(desc, desc.mipLevels)
  {
    ChunkTableContiguous(desc, desc.mipLevels);
    forall i | 0 <= i < desc.mipLevels
      ensures ChunkTable(desc, desc.mipLevels)[i] == ChunkEntry(MipChainSize(desc, i), LevelPitch(desc, i))
    {
      ChunkTableEntry(desc, desc.mipLevels, i);
    }
  }

  /**
   * A contiguous table that ends at `e` loads the first `e` bytes of the
   * data file and keeps the allocator's contents after them.
   */
  lemma LoadedSplit(offsets: seq<nat>, initial: seq<byte>, chunks: seq<ChunkEntry>, file: seq<byte>, n: nat, e: nat)
    requires n <= |chunks| && ChunksFit(offsets, |initial|, chunks, file) && Contiguous(offsets, chunks)
    requires ChunksEnd(offsets, chunks, n) == e
    requires forall i :: 0 <= i < n ==> offsets[i] + chunks[i].size <= e
    ensures e <= |initial| && e <= |file|
    ensures Loaded(offsets, initial, chunks, file, n)[..e] == file[..e]
    ensures Loaded(offsets, initial, chunks, file, n)[e..] == initial[e..]
  {
    LoadedPrefix(offsets, initial, chunks, file, n);
    LoadedTail(offsets, initial, chunks, file, n, e);
  }

  /**
   * Round trip: loading the table and data file that `Write` produced
   * reproduces the image's bytes for the first array slice, which is the
   * whole image when there is one slice; the bytes of the further slices,
   * which no chunk covers, keep whatever the allocator left there.
   */
  lemma WriteThenLoad(desc: ImageDescription, pixels: seq<byte>, initial: seq<byte>)
    requires desc.arraySize >= 1 && |pixels| >= ImageSize(desc) && |initial| == ImageSize(desc)
    ensures ChunksFit(DestOffsets(desc, desc.mipLevels), ImageSize(desc), ChunkTable(desc, desc.mipLevels), pixels[..ImageSize(desc)])
    ensures var n := MipChainSize(desc, desc.mipLevels);
      var loaded := Loaded(DestOffsets(desc, desc.mipLevels), initial, ChunkTable(desc, desc.mipLevels),
                           pixels[..ImageSize(desc)], desc.mipLevels);
      loaded[..n] == pixels[..n] && loaded[n..] == initial[n..]
    ensures desc.arraySize == 1 ==>
      Loaded(DestOffsets(desc, desc.mipLevels), initial, ChunkTable(desc, desc.mipLevels),
             pixels[..ImageSize(desc)], desc.mipLevels) == pixels[..ImageSize(desc)]
  {
    var n := MipChainSize(desc, desc.mipLevels);
    var file := pixels[..ImageSize(desc)];
    WrittenFileLoads(desc, initial, file);
    assert file[..n] == pixels[..n];
    if desc.arraySize == 1 {
      MulIsProduct(1, n);
      var loaded := Loaded(DestOffsets(desc, desc.mipLevels), initial, ChunkTable(desc, desc.mipLevels), file, desc.mipLevels);
      assert loaded == loaded[..n];
    }
  }

  /** The written table, over any data file of the image's size, loads the file's mip chain. */
  lemma WrittenFileLoads(desc: ImageDescription, initial: seq<byte>, file: seq<byte>)
    requires desc.arraySize >= 1 && |file| == ImageSize(desc) && |initial| == ImageSize(desc)
    ensures ChunksFit(DestOffsets(desc, desc.mipLevels), ImageSize(desc), ChunkTable(desc, desc.mipLevels), file)
    ensures MipChainSize(desc, desc.mipLevels) <= ImageSize(desc)
    ensures var n := MipChainSize(desc, desc.mipLevels);
      var loaded := Loaded(DestOffsets(desc, desc.mipLevels), initial, ChunkTable(desc, desc.mipLevels), file, desc.mipLevels);
      loaded[..n] == file[..n] && loaded[n..] == initial[n..]
  {
    WrittenChunkBounds(desc, file);
    WrittenTableContiguous(desc);
    LoadedSplit(DestOffsets(desc, desc.mipLevels), initial, ChunkTable(desc, desc.mipLevels), file, desc.mipLevels,
                MipChainSize(desc, desc.mipLevels));
  }

  /** Every chunk of the written table lies inside the data file and the mip chain. */
  lemma WrittenChunkBounds(desc: ImageDescription, file: seq<byte>)
    requires desc.arraySize >= 1 && |file| == ImageSize(desc)
    ensures MipChainSize(desc, desc.mipLevels) <= ImageSize(desc)
    ensures ChunksFit(DestOffsets(desc, desc.mipLevels), ImageSize(desc), ChunkTable(desc, desc.mipLevels), file)
    ensures forall i :: 0 <= i < desc.mipLevels ==>
      DestOffsets(desc, desc.mipLevels)[i] + ChunkTable(desc, desc.mipLevels)[i].size <= MipChainSize(desc, desc.mipLevels)
  {
    var offsets := DestOffsets(desc, desc.mipLevels);
    var table := ChunkTable(desc, desc.mipLevels);
    MipChainBelowImage(desc);
    WrittenTableContiguous(desc);
    forall i | 0 <= i < desc.mipLevels
      ensures 0 <= table[i].location && 0 <= table[i].size
      ensures table[i].location + table[i].size <= ImageSize(desc)
      ensures offsets[i] + table[i].size <= MipChainSize(desc, desc.mipLevels)
    {
      ChunkTableEntry(desc, desc.mipLevels, i);
      MipChainMonotone(desc, i + 1, desc.mipLevels);
    }
  }
}
