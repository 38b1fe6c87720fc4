# DistantWorlds2.BundleManager: a verified model of the asset converters

DistantWorlds2.BundleManager is a command-line tool for the asset bundles of
Distant Worlds 2. The game's assets are Xenko chunk containers. Each starts
with a chunk header (version, type name, offset to the object region, offset
to the references region), followed by the two regions. Bulk data such as
pixels or audio packets lives in a side file named after the asset plus
`_Data`.

This project models the sequential logic at the core of the tool and proves
what it computes:

- **Texture storage** (`StreamingImage.cs`):
  - the per-level byte size of a mip level (`SlicePitch`) and of the whole image (`CalculateSizeInBytes`);
  - the contiguous chunk table and its 32-bit checksum (`GetHashCode`);
  - the container and side file that `Write` produces;
  - the copy loop of `Load` that reassembles the levels into one image buffer.
- **Sound framing** (`SoundConverter.cs`):
  - the encode loop that cuts a sample stream into frames of `512 * channels` samples, starting with a zero frame and zero-padding the tail;
  - the length-prefixed packets of the side file and the packet count, sample count and packet length maximum;
  - the sound descriptor, and the decode loop that reads the packets back and trims the decoder delay from every packet.
- **Commands in `Program.cs`**:
  - `lb` and its bundle-name filter;
  - `xt` and its references-region size rule;
  - `tx` and its two-phase header write;
  - `xu`, which moves the object region in front of the references region.
- **`LinearSearchReadOnlyDictionary`**: a read-only dictionary over an array of pairs, where the first matching pair wins and every mutator throws.

Modules follow the program's structure:

- `Binary`: the little-endian integer, byte, bool and string encodings, with C#'s truncating casts written out.
- `Streams`: an output stream class whose writes overwrite at the current position, and a bounded read into an array.
- `Container`: the chunk header.
- `StreamingImage`, `SoundConverter`, `Commands` (`lb`, `xt`, `tx`), `Relayout` (`xu`) and `ReadOnlyDictionary`: the source files and commands.
- `Text`: the ordinal string operations the commands use.

Loops of the source are methods with loop invariants. Each is proved equal to a specification function, and the properties are lemmas about those functions:

- `CalculateSizeInBytes`, `BuildChunkTable`, `GetHashCode` and `Load` in `StreamingImage`;
- `EncodeFrames` and `DecodeLoop` in `SoundConverter`;
- `ListBundles` in `Commands`;
- `CopyTo` in `ReadOnlyDictionary`.

Writers and buffers are modelled as they exist in the source:

- **writers** are an `OutputStream` class;
- **buffers** are arrays: the chunk table, the image buffer, the frame buffer, the packet input and decode output buffers, and the caller's array in `CopyTo`.

The CELT encoder and decoder are function parameters, and samples are values of a type parameter with a distinguished zero. The following are parameters too:

- the answers of `PixelFormat.IsCompressed()` and `SizeInBytes()`;
- the package timestamp;
- the decoder delay;
- whether FFmpeg was found;
- the contents of files the commands read.

Where the code does something other than one would expect, the model follows the code:

- **Zero-length sound input.** One might expect a single packet, the zero frame. For an empty input the code writes none when the decoder delay is 0, and two when the padded length is shorter than one frame (`PacketCountEmpty`, `PacketCountShort`).
- **Whole frames of sound.** When the padded length is a multiple of the frame size, the last frame is never encoded; see "## Findings".
- **`xu` layout.** One would expect the new references at `refs + (length - obj)` and an already-ordered file copied verbatim. The code does neither; see "## Findings".
- **`TryGetValue`.** One would expect false for a missing key. With a value type such as `ObjectId` it answers true for every key; see "## Findings".
- **`Load` offsets.** `Load` reads each chunk at the location the table records, but writes it at the offset the size formula gives. The model keeps both. `WriteThenLoad` shows they coincide for a table `Write` produced.

## Model

| member | source | states |
|---|---|---|
| Binary.MulIsProduct | DistantWorlds2.BundleManager/StreamingImage.cs:138 | the recursive product used for the size formulas is ordinary multiplication |
| Binary.Wrap32 | DistantWorlds2.BundleManager/Program.cs:221 | an `(int)` cast yields an int32 congruent to its argument modulo 2^32, the argument itself when it fits, and no more than a non-negative argument |
| Binary.Wrap16 | DistantWorlds2.BundleManager/SoundConverter.cs:173 | a `(short)` cast yields an int16 congruent to its argument modulo 2^16, the argument itself when it fits |
| Binary.ReadInt32 | DistantWorlds2.BundleManager/SoundConverter.cs:64 | reading an int32 succeeds exactly when four bytes remain, yields an int32 and consumes exactly four bytes |
| Binary.ReadInt64 | DistantWorlds2.BundleManager/StreamingImage.cs:18 | reading an int64 succeeds exactly when eight bytes remain, yields an int64 and consumes eight bytes |
| Binary.ReadInt16 | DistantWorlds2.BundleManager/SoundConverter.cs:69 | reading an int16 succeeds exactly when two bytes remain, yields an int16 and consumes two bytes |
| Binary.ReadByte | DistantWorlds2.BundleManager/SoundConverter.cs:65 | reading a byte succeeds exactly when a byte remains and yields that byte |
| Binary.ReadBool | DistantWorlds2.BundleManager/SoundConverter.cs:66-67 | reading a bool succeeds exactly when a byte remains and yields whether it is non-zero |
| Binary.ReadString | DistantWorlds2.BundleManager/SoundConverter.cs:63 | a string read consumes its length prefix and one byte per character; `StringRoundTrip` gives the value read |
| Binary.Int32RoundTrip | DistantWorlds2.BundleManager/SoundConverter.cs:216 | an int32 written and read back is the argument truncated to 32 bits, and the bytes after it are untouched |
| Binary.Int64RoundTrip | DistantWorlds2.BundleManager/StreamingImage.cs:89 | an int64 written and read back is unchanged |
| Binary.Int16RoundTrip | DistantWorlds2.BundleManager/SoundConverter.cs:173 | a short written and read back is the argument truncated to 16 bits |
| Binary.Int16ReadBack | DistantWorlds2.BundleManager/SoundConverter.cs:84 | a non-negative short that was read re-encodes to exactly the two bytes it was read from |
| Binary.ByteRoundTrip | DistantWorlds2.BundleManager/SoundConverter.cs:217 | a byte written and read back is the argument modulo 256 |
| Binary.BoolRoundTrip | DistantWorlds2.BundleManager/SoundConverter.cs:218-219 | a bool written and read back is unchanged |
| Binary.CharsRoundTrip | DistantWorlds2.BundleManager/SoundConverter.cs:215 | characters below 256 survive the one-byte-per-character encoding |
| Binary.StringRoundTrip | DistantWorlds2.BundleManager/SoundConverter.cs:215 | a string written and read back is unchanged, with the bytes after it |
| Streams.NewBuffer | DistantWorlds2.BundleManager/Program.cs:160 | `new byte[n]` is a fresh array of `n` zero bytes |
| Streams.OverwriteSpec | DistantWorlds2.BundleManager/Program.cs:195-196 | a write at a position keeps the bytes before it, zero-fills any gap past the end, places the bytes and keeps what follows |
| Streams.OverwriteAtEnd | DistantWorlds2.BundleManager/Program.cs:192-194 | a write at the end of a stream appends |
| Streams.OverwritePrefix | DistantWorlds2.BundleManager/Program.cs:195-196 | rewriting a prefix of equal length at position 0 replaces exactly that prefix |
| Streams.ReadBytes | DistantWorlds2.BundleManager/Program.cs:161 | filling a buffer from a file copies the requested bytes and leaves the rest of the buffer as it was |
| Streams.OutputStream.constructor | DistantWorlds2.BundleManager/Program.cs:176 | a newly opened output file is empty with its position at 0 |
| Streams.OutputStream.Write | DistantWorlds2.BundleManager/Program.cs:192-194 | a write overwrites from the current position, extending the file as needed, and advances the position by the bytes written |
| Streams.OutputStream.Seek | DistantWorlds2.BundleManager/Program.cs:195 | setting the position changes nothing else |
| Streams.OutputStream.SetLength | DistantWorlds2.BundleManager/StreamingImage.cs:96 | `SetLength` truncates or zero-extends the contents; a position past the new end moves to it, any other position is kept |
| Container.EncodeHeader | DistantWorlds2.BundleManager/Program.cs:179-180 | the written header's length depends only on its type name; `HeaderRoundTrip` says it reads back field by field |
| Container.ReadHeader | DistantWorlds2.BundleManager/Program.cs:145-146 | a header read consumes exactly the header's length and yields fields that fit their encodings; `HeaderRoundTrip` gives the fields of a written header |
| Container.HeaderRoundTrip | DistantWorlds2.BundleManager/Program.cs:145 | a written header reads back unchanged, with the bytes that follow it |
| Container.HeaderLengthIgnoresOffsets | DistantWorlds2.BundleManager/Program.cs:195-196 | changing the offsets keeps the header's length, so the rewrite at 0 covers the placeholder exactly |
| Container.LayoutHeader | DistantWorlds2.BundleManager/Program.cs:179-191 | the final header of `tx` and `SoundToXenko`; `LayoutHeaderReadsBack` states its offsets |
| Container.LayoutHeaderReadsBack | DistantWorlds2.BundleManager/Program.cs:179-196 | the final header puts the references right after the header and the object right after the references region, and it reads back |
| StreamingImage.Max1 | DistantWorlds2.BundleManager/StreamingImage.cs:33-34 | `Math.Max(1, x)` is at least 1 and at least `x`, and is one of them |
| StreamingImage.BlockSize | DistantWorlds2.BundleManager/StreamingImage.cs:147-164 | a compressed format has 8-byte blocks (the BC1 and BC4 families) or 16-byte ones; an uncompressed one uses its bytes per texel |
| StreamingImage.ShrBounds | DistantWorlds2.BundleManager/StreamingImage.cs:131-132 | C#'s `x >> i` on a non-negative int, which takes `i` modulo 32, never grows `x`, and a count 32 larger shifts alike |
| StreamingImage.BlocksAlong | DistantWorlds2.BundleManager/StreamingImage.cs:167-168 | `(n + 3) / 4` is the least number of 4-texel blocks covering `n` texels |
| StreamingImage.SlicePitch | DistantWorlds2.BundleManager/StreamingImage.cs:144-172 | the bytes of one mip level; its value is stated by `CompressedSlicePitch`, `UncompressedSlicePitch`, `SlicePitchAtLeastOneBlock` and `SlicePitchProduct` |
| StreamingImage.LevelPitch | DistantWorlds2.BundleManager/StreamingImage.cs:78-80 | the pitch of mip level `i`, at its shifted and clamped dimensions, is at least one block; `ChunkTableEntry` and `CalculateSizeInBytes` use it for each level |
| StreamingImage.CompressedSlicePitch | DistantWorlds2.BundleManager/StreamingImage.cs:144-171 | for a compressed format a level is `((w+3)/4) * ((h+3)/4)` blocks of 8 bytes for the six BC1/BC4 formats and 16 bytes otherwise |
| StreamingImage.UncompressedSlicePitch | DistantWorlds2.BundleManager/StreamingImage.cs:144-171 | for an uncompressed format a level is `w * h` texels of the format's size |
| StreamingImage.SlicePitchAtLeastOneBlock | DistantWorlds2.BundleManager/StreamingImage.cs:144-171 | a level of at least 1x1 texels takes at least one block |
| StreamingImage.Bc1EightByEight | DistantWorlds2.BundleManager/StreamingImage.cs:150-170 | an 8x8 BC1 level takes 2x2 blocks of 8 bytes, 32 bytes |
| StreamingImage.SlicePitchProduct | DistantWorlds2.BundleManager/StreamingImage.cs:165-171 | the pitch is `Max(1, h) * Max(1, w) * blockSize` over the block grid for compressed formats and over texels otherwise |
| StreamingImage.MipChainSize | DistantWorlds2.BundleManager/StreamingImage.cs:128-140 | the running total of the level pitches; `MipChainMonotone` says it grows with the level count and `ChunkTableTotal` that the chunk table covers exactly it |
| StreamingImage.ImageSize | DistantWorlds2.BundleManager/StreamingImage.cs:141 | the array size times the mip chain; `CalculateSizeInBytes` computes it and `MipChainBelowImage` bounds the chain by it |
| StreamingImage.MipChainMonotone | DistantWorlds2.BundleManager/StreamingImage.cs:128-140 | the running total of the level sizes never decreases |
| StreamingImage.MipChainBelowImage | DistantWorlds2.BundleManager/StreamingImage.cs:141 | with at least one array slice the mip chain fits in the image size |
| StreamingImage.CalculateSizeInBytes | DistantWorlds2.BundleManager/StreamingImage.cs:107-142 | the loop computes the array size times the sum of the level pitches, with the same block-size switch as `SlicePitch` |
| StreamingImage.ChunkTable | DistantWorlds2.BundleManager/StreamingImage.cs:73 | the table has one entry per mip level; `ChunkTableEntry` and `ChunkTableContiguous` give the entries |
| StreamingImage.ChunkTableEntry | DistantWorlds2.BundleManager/StreamingImage.cs:75-87 | entry `i` sits at the sum of the earlier level sizes and has the level-`i` pitch as its size |
| StreamingImage.ChunkTableContiguous | DistantWorlds2.BundleManager/StreamingImage.cs:75-87 | the first chunk is at 0, each size is its level's pitch, and each chunk starts where the previous one ends |
| StreamingImage.ChunkTableTotal | DistantWorlds2.BundleManager/StreamingImage.cs:75-95 | the sizes add up to the mip chain size, which is `CalculateSizeInBytes` for a single array slice |
| StreamingImage.BuildChunkTable | DistantWorlds2.BundleManager/StreamingImage.cs:73-87 | the loop fills a fresh array with exactly the contiguous chunk table |
| StreamingImage.HashSeed | DistantWorlds2.BundleManager/StreamingImage.cs:176 | the seed `(int)Ticks * 397 ^ count` is a 32-bit word; `StorageHashInputs` says what it depends on |
| StreamingImage.WrittenStorage | DistantWorlds2.BundleManager/StreamingImage.cs:68-88 | the storage header `Write` fills in has no initial image, the given ticks, the data file's URL, one chunk per mip level and the hash `GetHashCode` computes for it; `StorageRoundTrip` reads it back |
| StreamingImage.StorageHash | DistantWorlds2.BundleManager/StreamingImage.cs:174-180 | the checksum is an int32; `GetHashCode` computes it by the wrapping fold, and `StorageHashInputs` and `HashFoldIgnoresLocations` say what it depends on |
| StreamingImage.HashFoldIgnoresLocations | DistantWorlds2.BundleManager/StreamingImage.cs:177-178 | the checksum fold reads the chunk sizes and never their locations |
| StreamingImage.StorageHashInputs | DistantWorlds2.BundleManager/StreamingImage.cs:174-180 | the checksum depends only on the low 32 bits of the ticks, the chunk count and the sizes in order |
| StreamingImage.GetHashCode | DistantWorlds2.BundleManager/StreamingImage.cs:174-180 | the loop computes the 32-bit wrapping fold `h = h * 397 ^ size` from the seed over the chunks in order |
| StreamingImage.ChunksRoundTrip | DistantWorlds2.BundleManager/StreamingImage.cs:89 | chunk entries whose fields fit an int32 read back unchanged |
| StreamingImage.ChunkListRoundTrip | DistantWorlds2.BundleManager/StreamingImage.cs:89 | a counted chunk list reads back unchanged |
| StreamingImage.StorageFrontRoundTrip | DistantWorlds2.BundleManager/StreamingImage.cs:89 | the initial-image flag, the timestamp and the data URL read back unchanged |
| StreamingImage.StorageRoundTrip | DistantWorlds2.BundleManager/StreamingImage.cs:88-89 | a well-formed content storage header reads back unchanged, with the bytes after it |
| StreamingImage.WriteContainer | DistantWorlds2.BundleManager/StreamingImage.cs:53-92 | the container writes step by step, a placeholder header then the rewrite at 0, leaving exactly the texture container layout |
| StreamingImage.WriteDataFile | DistantWorlds2.BundleManager/StreamingImage.cs:94-103 | the data file is set to `CalculateSizeInBytes` bytes and holds the first that many pixel bytes |
| StreamingImage.Write | DistantWorlds2.BundleManager/StreamingImage.cs:46-105 | `Write` yields the container with the contiguous chunk table and its checksum, plus the data file of the image's bytes |
| StreamingImage.TextureContainer | DistantWorlds2.BundleManager/StreamingImage.cs:53-92 | the container `Write` leaves; `TextureContainerLayout` and `TextureContainerHeader` state its layout |
| StreamingImage.TextureContainerLayout | DistantWorlds2.BundleManager/StreamingImage.cs:56-92 | the written container reads back with version 1, the references right after the header and the object 4 bytes later; the region holds an int32 0, then discriminator byte 1, the description and the storage header, which reads back |
| StreamingImage.TextureContainerHeader | DistantWorlds2.BundleManager/StreamingImage.cs:56-64 | the header read from the container holds the final offsets, and everything after it is the body |
| StreamingImage.ContainerBodyLayout | DistantWorlds2.BundleManager/StreamingImage.cs:62-90 | the body is an int32 0, discriminator byte 1, the description, then a storage header that reads back followed by an int32 0 |
| StreamingImage.PasteSpec | DistantWorlds2.BundleManager/StreamingImage.cs:38 | a memory copy places the bytes at the offset and leaves every other byte of the destination unchanged |
| StreamingImage.CopyMemory | DistantWorlds2.BundleManager/StreamingImage.cs:38 | `CopyMemory` pastes the first `n` bytes of the source at the destination offset |
| StreamingImage.AllocateMemory | DistantWorlds2.BundleManager/StreamingImage.cs:28 | `AllocateMemory` gives a fresh buffer of the requested size whose contents are unspecified, here a parameter |
| StreamingImage.DestOffsets | DistantWorlds2.BundleManager/StreamingImage.cs:24-39 | the destination offset of chunk `i` is the sum of the pitches of the levels before it |
| StreamingImage.NextDestOffset | DistantWorlds2.BundleManager/StreamingImage.cs:39 | advancing the destination offset adds the pitch of the current level |
| StreamingImage.Loaded | DistantWorlds2.BundleManager/StreamingImage.cs:21-40 | the image buffer has `CalculateSizeInBytes` bytes; `LoadedPrefix` and `LoadedTail` say which bytes come from the data file and which keep the allocator's contents |
| StreamingImage.LoadedTail | DistantWorlds2.BundleManager/StreamingImage.cs:28-40 | bytes past every chunk's destination keep the contents the allocator left there |
| StreamingImage.LoadChunk | DistantWorlds2.BundleManager/StreamingImage.cs:36-38 | one iteration reads chunk `i` from its recorded location and pastes it at the formula offset |
| StreamingImage.LoadChunks | DistantWorlds2.BundleManager/StreamingImage.cs:31-40 | the copy loop pastes every chunk at its formula offset |
| StreamingImage.Load | DistantWorlds2.BundleManager/StreamingImage.cs:21-41 | `Load` returns a fresh buffer of `CalculateSizeInBytes` bytes that starts with the allocator's contents and holds every chunk, read at its table location, at its formula offset |
| StreamingImage.LoadedPrefix | DistantWorlds2.BundleManager/StreamingImage.cs:31-40 | when read locations and destination offsets coincide and the chunks are contiguous, the loaded prefix equals the data file's prefix |
| StreamingImage.WrittenTableContiguous | DistantWorlds2.BundleManager/StreamingImage.cs:75-87 | for the table `Write` builds, the recorded locations equal the formula offsets and the chunks end at the mip chain size |
| StreamingImage.WriteThenLoad | DistantWorlds2.BundleManager/StreamingImage.cs:31-40 | loading the table and data file that `Write` produced fits the buffer and reproduces the written bytes of the mip chain; the further array slices keep the allocator's contents, and for one array slice the buffer is the whole data file |
| SoundConverter.FrameContents | DistantWorlds2.BundleManager/SoundConverter.cs:162-183 | packet 0 encodes the zeroed buffer; packet `k >= 1` encodes stream positions `[(k-1)F, kF)`, the samples in order and zeros past the end |
| SoundConverter.Frames | DistantWorlds2.BundleManager/SoundConverter.cs:166-183 | one frame per packet; `FrameContents` says what each holds |
| SoundConverter.PacketCount | DistantWorlds2.BundleManager/SoundConverter.cs:167-194 | the packets the framing writes for a padded length; `PacketCountOf`, `FinalCount`, `PacketCountEmpty` and `PacketCountShort` state it |
| SoundConverter.Packets | DistantWorlds2.BundleManager/SoundConverter.cs:157-194 | the packets `SoundToXenko` writes; `EncodeFrames` computes them and `PerfectCodecRoundTrip` reads them back |
| SoundConverter.PacketCountOf | DistantWorlds2.BundleManager/SoundConverter.cs:168-194 | `k` full or partial frames give `k` packets, plus one when the last frame is partial |
| SoundConverter.SlotOf | DistantWorlds2.BundleManager/SoundConverter.cs:170-182 | the slot `position % frameSize` is 0 after a full frame and the fill count otherwise |
| SoundConverter.FinalCount | DistantWorlds2.BundleManager/SoundConverter.cs:185-194 | the trailing partial frame adds a packet exactly when the last frame is neither full nor empty |
| SoundConverter.PacketCountEmpty | DistantWorlds2.BundleManager/SoundConverter.cs:168-194 | an empty padded stream gives no packets |
| SoundConverter.PacketCountShort | DistantWorlds2.BundleManager/SoundConverter.cs:168-194 | a padded stream shorter than one frame gives two packets, the zero frame and the padded partial frame |
| SoundConverter.WholeFramesDropLast | DistantWorlds2.BundleManager/SoundConverter.cs:168-185 | when the padded length is `q` whole frames the loop writes `q` packets, so the last packet encodes the second-to-last full frame and the last frame is never encoded |
| SoundConverter.IntendedFramesCoverStream | DistantWorlds2.BundleManager/SoundConverter.cs:168-194 | with the corrected count every stream position lands in slot `j % F` of packet `j / F + 1`, one packet more than the loop writes for whole frames |
| SoundConverter.MaxLengthIsMaximum | DistantWorlds2.BundleManager/SoundConverter.cs:178 | the maximum packet length bounds every packet, is reached by one, and is 0 with no packets |
| SoundConverter.MaxLengthAppend | DistantWorlds2.BundleManager/SoundConverter.cs:178 | one more packet updates the maximum as `Math.Max(len, maxPacketLength)` |
| SoundConverter.SideFileAppend | DistantWorlds2.BundleManager/SoundConverter.cs:173-174 | one more packet appends its short length and its bytes to the side file |
| SoundConverter.Clear | DistantWorlds2.BundleManager/SoundConverter.cs:180 | `Array.Clear` sets every sample of the buffer to zero |
| SoundConverter.Store | DistantWorlds2.BundleManager/SoundConverter.cs:182 | storing the next sample extends the filled part of the buffer by one stream position |
| SoundConverter.FrameSlot | DistantWorlds2.BundleManager/SoundConverter.cs:170-182 | the slot is 0 exactly when a frame has just been completed |
| SoundConverter.EmitPacket | DistantWorlds2.BundleManager/SoundConverter.cs:172-178 | an encode appends the packet to the side file, counts it, adds 512 samples and updates the maximum length |
| SoundConverter.StartFrame | DistantWorlds2.BundleManager/SoundConverter.cs:170-181 | at a frame boundary the current buffer is encoded as the next frame and cleared |
| SoundConverter.FrameStep | DistantWorlds2.BundleManager/SoundConverter.cs:168-183 | one loop iteration keeps the frames encoded, the buffer contents and the counters in step with the stream position |
| SoundConverter.FlushFrame | DistantWorlds2.BundleManager/SoundConverter.cs:185-194 | after the loop, a partial frame is encoded once more, so the packets are those of all `PacketCount` frames |
| SoundConverter.EncodeFrames | DistantWorlds2.BundleManager/SoundConverter.cs:157-194 | the framing loop writes exactly the packets of `PacketCount(N, F)` frames; the packet count, `samples = 512 * packets` and the maximum length agree with them |
| SoundConverter.ReadDescriptor | DistantWorlds2.BundleManager/SoundConverter.cs:61-70 | a descriptor read yields a byte channel count and a short maximum packet length |
| SoundConverter.DescriptorBytes | DistantWorlds2.BundleManager/SoundConverter.cs:61 | the seek to `OffsetToObject + 1` as a C# int fails exactly when that sum wraps negative, and otherwise starts the descriptor there |
| SoundConverter.WrittenDescriptor | DistantWorlds2.BundleManager/SoundConverter.cs:215-222 | the descriptor `SoundToXenko` writes; `DescriptorRoundTrip` and `SoundContainerReadsBack` read it back |
| SoundConverter.EncodeDescriptor | DistantWorlds2.BundleManager/SoundConverter.cs:214-222 | the descriptor bytes in write order; `DescriptorRoundTrip` reads them back |
| SoundConverter.DescriptorFrontRoundTrip | DistantWorlds2.BundleManager/SoundConverter.cs:215-217 | the URL, sample rate and channel count read back in the order they were written |
| SoundConverter.DescriptorBackRoundTrip | DistantWorlds2.BundleManager/SoundConverter.cs:218-222 | the two flags, packet count, maximum length and sample count read back in order |
| SoundConverter.DescriptorRoundTrip | DistantWorlds2.BundleManager/SoundConverter.cs:214-222 | a descriptor whose channels fit a byte and whose maximum length fits a short reads back unchanged |
| SoundConverter.DescriptorReadsBack | DistantWorlds2.BundleManager/SoundConverter.cs:214-222 | the descriptor alone reads back with nothing left over |
| SoundConverter.WriteSoundContainer | DistantWorlds2.BundleManager/SoundConverter.cs:198-224 | a placeholder header, then the references region, byte 0, the descriptor and the header rewritten at 0, leaving exactly the sound container |
| SoundConverter.SoundContainer | DistantWorlds2.BundleManager/SoundConverter.cs:198-224 | the container `SoundToXenko` leaves; `SoundContainerHeader`, `SoundContainerRegions` and `SoundContainerReadsBack` state its layout |
| SoundConverter.SoundToXenko | DistantWorlds2.BundleManager/SoundConverter.cs:157-224 | without channels the conversion throws; otherwise it writes the side file of the framed packets and a container whose descriptor holds their count, maximum and samples |
| SoundConverter.SoundContainerHeader | DistantWorlds2.BundleManager/SoundConverter.cs:201-213 | the container's header reads back with the references right after it and the object after the references region |
| SoundConverter.SoundContainerRegions | DistantWorlds2.BundleManager/SoundConverter.cs:205-222 | the container holds the references region, discriminator byte 0 at the object offset, then the descriptor |
| SoundConverter.SoundContainerReadsBack | DistantWorlds2.BundleManager/SoundConverter.cs:54-61 | reading the container back finds its type name and, one byte past the object offset, the descriptor as written |
| SoundConverter.ReadPacket | DistantWorlds2.BundleManager/SoundConverter.cs:84-85 | a packet read fails exactly without a length, with a negative one or with one beyond the input buffer; otherwise the decoder gets that many bytes from the front of the refilled buffer |
| SoundConverter.ReadPacketSplits | DistantWorlds2.BundleManager/SoundConverter.cs:84-85 | a packet the file holds in full consumes exactly one length-prefixed packet; one it cuts short consumes the rest of the file and leaves stale bytes of the buffer after it |
| SoundConverter.PacketRoundTrip | DistantWorlds2.BundleManager/SoundConverter.cs:84-85 | a written packet no longer than the input buffer reads back, with the bytes after it, over the front of the buffer |
| SoundConverter.DecodeInto | DistantWorlds2.BundleManager/SoundConverter.cs:86 | the decoder writes its samples over the front of the output buffer |
| SoundConverter.Overlay | DistantWorlds2.BundleManager/SoundConverter.cs:86 | the output buffer keeps its length; `OverlayElements` says the decoded samples overwrite its front and the previous packet's samples stay beyond |
| SoundConverter.Drop | DistantWorlds2.BundleManager/SoundConverter.cs:87 | `Skip(k)` keeps all but the first `k` elements; `DropElements` says they are the elements from index `k` on, in order |
| SoundConverter.DecodePackets | DistantWorlds2.BundleManager/SoundConverter.cs:82-91 | the decoding of `count` packets; `DecodeLoop` computes it, `DecodedLength` and `SideFileReadsBack` state it |
| SoundConverter.DecodeStep | DistantWorlds2.BundleManager/SoundConverter.cs:84-90 | one iteration fails exactly when the packet read fails; otherwise it refills the input buffer, decodes over the output buffer, emits it without its first `skip` samples and consumes the packet |
| SoundConverter.DecodeLoop | DistantWorlds2.BundleManager/SoundConverter.cs:75-91 | the decode loop over a zeroed input buffer of `maxPacketLength` bytes and a zeroed buffer of `512 * channels` samples computes the packet-by-packet decoding |
| SoundConverter.DecodedLength | DistantWorlds2.BundleManager/SoundConverter.cs:82-91 | every decoded packet contributes `512 * channels - delay * channels` samples, so the output has `count` times that many |
| SoundConverter.SideFileReadsBack | DistantWorlds2.BundleManager/SoundConverter.cs:82-85 | decoding the side file the encoder wrote reads back the same packets in order |
| SoundConverter.PerfectCodecReplay | DistantWorlds2.BundleManager/SoundConverter.cs:82-91 | with a codec that gives back each frame, decoding the packets yields every frame without its first `skip` samples |
| SoundConverter.DropEachLength | DistantWorlds2.BundleManager/SoundConverter.cs:87-90 | frames of equal size each contribute `size - skip` samples |
| SoundConverter.DropEachAt | DistantWorlds2.BundleManager/SoundConverter.cs:87-90 | sample `i` of the output of frame `k` is sample `skip + i` of that frame |
| SoundConverter.ConvertBack | DistantWorlds2.BundleManager/SoundConverter.cs:38-91 | side files are skipped, a missing FFmpeg is an error, a file with no header or without the sound type name is skipped, and a decoded sound has a byte channel count |
| SoundConverter.DecodeSound | DistantWorlds2.BundleManager/SoundConverter.cs:72-91 | decoding never ends other than in a read failure or samples; a negative maximum packet length fails the buffer allocation, and the samples carry the descriptor's rate and channels; `DecodeSoundDecoded` and `ConvertBackDecoded` give the samples |
| SoundConverter.XenkoToSoundfile | DistantWorlds2.BundleManager/SoundConverter.cs:38-91 | the method does what `ConvertBack` specifies, reading the descriptor at `OffsetToObject + 1` and running the decode loop |
| SoundConverter.ConvertBackDecoded | DistantWorlds2.BundleManager/SoundConverter.cs:54-91 | a sound container whose descriptor reads back decodes to the descriptor's sample rate and channels and the decoded samples |
| SoundConverter.SoundRoundTrip | DistantWorlds2.BundleManager/SoundConverter.cs:38-91 | converting back what `SoundToXenko` wrote gives 48000 Hz, the written channel count and the decoding of exactly the written packets |
| SoundConverter.PerfectCodecRoundTrip | DistantWorlds2.BundleManager/SoundConverter.cs:157-194 | with a codec that gives back each frame, converting back yields every encoded frame, the leading zero frame first, each without the decoder delay |
| Commands.FileName | DistantWorlds2.BundleManager/Program.cs:70-71 | the file name is no longer than the path; `FileNameAfterLastSeparator` says which suffix it is |
| Commands.FileNameAfterLastSeparator | DistantWorlds2.BundleManager/Program.cs:70-71 | the file name is the suffix after the last backslash, and it holds none |
| Commands.DotCases | DistantWorlds2.BundleManager/Program.cs:76-79 | `LastIndexOf('.')` is -1 exactly without a dot and 0 exactly when the only dot is first; otherwise the 33-apart test holds exactly for a content-file name |
| Commands.Classify | DistantWorlds2.BundleManager/Program.cs:70-81 | the filter on one path; `ClassifyListed`, `ClassifySkipped`, `ClassifyEnds` and `ClassifyFails` state each outcome |
| Commands.ClassifyListed | DistantWorlds2.BundleManager/Program.cs:70-81 | a path is printed exactly when its file name has room for `.bundle` and, past 40 characters, is not a content file, has a dot and does not have only a leading one; the printed name drops the last 7 characters |
| Commands.ClassifySkipped | DistantWorlds2.BundleManager/Program.cs:74-79 | a name is skipped exactly when it is longer than 40 characters and its last two dots are 33 apart |
| Commands.ClassifyEnds | DistantWorlds2.BundleManager/Program.cs:76-77 | a name longer than 40 characters without a dot ends the listing |
| Commands.ClassifyFails | DistantWorlds2.BundleManager/Program.cs:72-78 | the command throws for a name of fewer than 7 characters and for a long name whose only dot is first |
| Commands.ShortNamesListed | DistantWorlds2.BundleManager/Program.cs:72-81 | a name of 7 to 40 characters is always printed |
| Commands.ShortListing | DistantWorlds2.BundleManager/Program.cs:68-84 | bundles whose names are at most 40 characters are all listed, in order, with the extension cut off |
| Commands.ListingOf | DistantWorlds2.BundleManager/Program.cs:68-84 | the names `lb` prints and whether it threw; `ListBundles`, `ListingFrom` and `ShortListing` state it |
| Commands.EntryOf | DistantWorlds2.BundleManager/Program.cs:70-81 | the loop body on one path, statement by statement, classifies it as the filter does |
| Commands.ListingFrom | DistantWorlds2.BundleManager/Program.cs:68-82 | the listing prints a name and goes on, goes on past a content file, stops at `break` and stops with a failure at an exception |
| Commands.ListBundles | DistantWorlds2.BundleManager/Program.cs:67-85 | the `lb` loop prints exactly the listing of the enumerated paths and reports whether it threw |
| Commands.ReadAt | DistantWorlds2.BundleManager/Program.cs:160-161 | a read into a buffer of `size` bytes yields `size` bytes; `ReadToEnd` and `ReadRefs` give the bytes |
| Commands.RefsSize | DistantWorlds2.BundleManager/Program.cs:157-159 | the references region ends at the object when that follows it and at the end of the file otherwise, and is not empty in the first case |
| Commands.ReadToEnd | DistantWorlds2.BundleManager/Program.cs:157-161 | reading from an offset to the end of the file yields exactly those bytes |
| Commands.Extract | DistantWorlds2.BundleManager/Program.cs:136-164 | the references go to the destination path plus `.refs`; `ExtractOutcomes` says which outcome each input reaches and `ExtractedRefs` gives the regions extracted |
| Commands.ExtractOutcomes | DistantWorlds2.BundleManager/Program.cs:136-161 | a destination not ending in `.dds` is rejected with `UnknownFormat`, a header that does not parse gives `InvalidHeader`, a discriminator past the end gives `ReadFailed` and a true discriminator gives `ObjectNotSupported`, each exactly in its case; extraction succeeds exactly when every check and seek passes, and then the image follows the discriminator and the references are `RefsSize` bytes |
| Commands.ExtractedRefs | DistantWorlds2.BundleManager/Program.cs:156-161 | the references extracted run from the references offset to the object offset when that follows, else to the end of the file, and the image starts after the discriminator |
| Commands.ExtractTexture | DistantWorlds2.BundleManager/Program.cs:133-167 | `xt` step by step rejects an unknown extension, a missing header, a failing seek or read, a `true` discriminator and a negative size, and otherwise extracts as specified |
| Commands.ReadRefs | DistantWorlds2.BundleManager/Program.cs:160-161 | the buffered read of the references region yields the bytes the size rule selects, zero-padded past the end of the file |
| Commands.WriteObjectRegion | DistantWorlds2.BundleManager/Program.cs:192-194 | the object region is discriminator byte 0, the image and an int32 0, appended at the end |
| Commands.WriteTexture | DistantWorlds2.BundleManager/Program.cs:168-199 | `tx` step by step, placeholder header then the rewrite at 0, leaves exactly the texture file layout |
| Commands.TextureFile | DistantWorlds2.BundleManager/Program.cs:178-196 | the file `tx` leaves; `TextureFileLayout` and `TextureFileHeader` state its layout |
| Commands.TextureFileHeader | DistantWorlds2.BundleManager/Program.cs:179-196 | the written header reads back with the references at the header length and the object after the references region |
| Commands.TextureFileLayout | DistantWorlds2.BundleManager/Program.cs:178-196 | the object offset is the references offset plus the `.refs` length, or plus 4 without one; the regions are the references, byte 0, the image and an int32 0 |
| Commands.ExtractThenWrite | DistantWorlds2.BundleManager/Program.cs:183-189 | `tx` run on what `xt` extracted puts the original references region back between the new offsets |
| Commands.WriteThenExtract | DistantWorlds2.BundleManager/Program.cs:156-164 | `xt` on what `tx` wrote finds the image followed by the int32 padding and the references region; an empty `.refs` file makes the size rule run to the end |
| Text.LastIndexOfFromSpec | DistantWorlds2.BundleManager/Program.cs:78 | `LastIndexOf(c, from)` finds `c` and no `c` lies between it and `from` |
| Text.LastIndexOf | DistantWorlds2.BundleManager/Program.cs:70 | the index found is -1 or an index of the string; `LastIndexOfSpec` says it is the last occurrence |
| Text.LastIndexOfSpec | DistantWorlds2.BundleManager/Program.cs:76 | `LastIndexOf(c)` is the last occurrence of `c`, or -1 when there is none |
| Relayout.MoveObject | DistantWorlds2.BundleManager/Program.cs:221-234 | the moved file of the first branch; `MoveWholeObject` and `MovedReadsBack` state it, and `ContentLengthFits` says the `(int)` content length never runs past the end of the file |
| Relayout.RelayoutAsWritten | DistantWorlds2.BundleManager/Program.cs:200-241 | `xu` as written; `RelayoutFile`, `AsWrittenLayout`, `AsWrittenLosesRefs` and `AsWrittenDropsHeader` state it |
| Relayout.Relayout | DistantWorlds2.BundleManager/Program.cs:218-237 | the corrected `xu`; `RelayoutLayout`, `RelaidReadsBack`, `RelayoutIdempotent`, `RelayoutKeepsOrderedFile` and `RelayoutThenExtract` state it |
| Relayout.MoveWholeObject | DistantWorlds2.BundleManager/Program.cs:221-234 | moving the whole object region writes the new header, the object region, then the references region, without failing |
| Relayout.AsWrittenLayout | DistantWorlds2.BundleManager/Program.cs:218-234 | on every container whose references precede its object, `xu` as written writes the new header, the object region, then the references region, with the file length as the new references offset; the output is as long as the header plus the bytes from the references on |
| Relayout.RelayoutLayout | DistantWorlds2.BundleManager/Program.cs:218-234 | on every such container, the corrected `xu` writes the same regions with the references at the old references offset plus the object length, in an output as long as the header plus the bytes from the references on |
| Relayout.MovedReadsBack | DistantWorlds2.BundleManager/Program.cs:223-225 | the moved file's header reads back with the new offsets, and the object region follows it |
| Relayout.AsWrittenLosesRefs | DistantWorlds2.BundleManager/Program.cs:223-224 | `xu` as written keeps the file length but points the references at the end of the file, so `xt` finds none, though the old references sit right at the corrected offset |
| Relayout.AsWrittenDropsHeader | DistantWorlds2.BundleManager/Program.cs:214-237 | on an ordered container `xu` as written copies only the bytes from the object offset on, with no header |
| Relayout.RelayoutKeepsOrderedFile | DistantWorlds2.BundleManager/Program.cs:236-237 | the corrected `xu` copies an ordered container unchanged |
| Relayout.RelaidReadsBack | DistantWorlds2.BundleManager/Program.cs:221-224 | the corrected output reads back and its references region has the old references' size |
| Relayout.RelayoutIdempotent | DistantWorlds2.BundleManager/Program.cs:218-237 | running the corrected `xu` on its own output changes nothing |
| Relayout.ExtractObjectFirst | DistantWorlds2.BundleManager/Program.cs:156-161 | `xt` on a container whose object comes first extracts the references up to the end of the file |
| Relayout.ExtractRefsFirst | DistantWorlds2.BundleManager/Program.cs:156-161 | `xt` on a container whose references come first extracts them up to the object offset |
| Relayout.ExtractMoved | DistantWorlds2.BundleManager/Program.cs:218-234 | `xt` on the corrected output extracts the old references, with the object region followed by those references as the image bytes |
| Relayout.MovedExtractsLikeSource | DistantWorlds2.BundleManager/Program.cs:218-234 | `xt` on the corrected output gives the same references and path as on the input |
| Relayout.RelayoutThenExtract | DistantWorlds2.BundleManager/Program.cs:218-234 | the corrected `xu` followed by `xt` extracts the same references as `xt` on the input |
| Relayout.WriteMoved | DistantWorlds2.BundleManager/Program.cs:221-234 | writing the header, the content buffer and the references buffer step by step leaves the moved output, failing as the allocations and seeks do |
| Relayout.RelayoutFile | DistantWorlds2.BundleManager/Program.cs:200-241 | `xu` step by step leaves exactly what the as-written command specifies |
| ReadOnlyDictionary.AnyKey | DistantWorlds2.BundleManager/LinearSearchReadOnlyDictionary.cs:37-38 | `Any` holds exactly when some pair has the key |
| ReadOnlyDictionary.Occurs | DistantWorlds2.BundleManager/LinearSearchReadOnlyDictionary.cs:24-25 | `Contains` holds exactly when the pair occurs in the array |
| ReadOnlyDictionary.KeysOf | DistantWorlds2.BundleManager/LinearSearchReadOnlyDictionary.cs:55-58 | the key projection has one key per pair, in array order |
| ReadOnlyDictionary.ValuesOf | DistantWorlds2.BundleManager/LinearSearchReadOnlyDictionary.cs:60-63 | the value projection has one value per pair, in array order |
| ReadOnlyDictionary.FirstValueOrDefaultSpec | DistantWorlds2.BundleManager/LinearSearchReadOnlyDictionary.cs:51 | `FirstOrDefault(...).Value` is the value at the first match, and the default without a match |
| ReadOnlyDictionary.EarlierPairWins | DistantWorlds2.BundleManager/LinearSearchReadOnlyDictionary.cs:51 | pairs after a key's first occurrence do not change its lookup |
| ReadOnlyDictionary.LinearSearchReadOnlyDictionary.constructor | DistantWorlds2.BundleManager/LinearSearchReadOnlyDictionary.cs:9-10 | the dictionary holds the given pairs, the default value of `TValue` and whether it is a value or a reference type |
| ReadOnlyDictionary.LinearSearchReadOnlyDictionary.Count | DistantWorlds2.BundleManager/LinearSearchReadOnlyDictionary.cs:33 | `Count` is the number of pairs, which is also the number of keys and of values |
| ReadOnlyDictionary.LinearSearchReadOnlyDictionary.IsReadOnly | DistantWorlds2.BundleManager/LinearSearchReadOnlyDictionary.cs:35 | the dictionary is read-only |
| ReadOnlyDictionary.LinearSearchReadOnlyDictionary.ContainsKey | DistantWorlds2.BundleManager/LinearSearchReadOnlyDictionary.cs:37-38 | `ContainsKey` holds exactly when some pair has the key, exactly when the key is among `Keys` |
| ReadOnlyDictionary.LinearSearchReadOnlyDictionary.Contains | DistantWorlds2.BundleManager/LinearSearchReadOnlyDictionary.cs:24-25 | `Contains` holds exactly when the pair is in the array, and then its key is contained |
| ReadOnlyDictionary.LinearSearchReadOnlyDictionary.Get | DistantWorlds2.BundleManager/LinearSearchReadOnlyDictionary.cs:49-51 | the indexer returns the value of the first pair with the key, the default without one, and never throws |
| ReadOnlyDictionary.LinearSearchReadOnlyDictionary.TryGetValue | DistantWorlds2.BundleManager/LinearSearchReadOnlyDictionary.cs:46-47 | the value is the indexer's and the answer is never false: `Equals(default)` compares with a null object, so a value type answers true for every key, and a reference type throws on a null value, a missing key included |
| ReadOnlyDictionary.LinearSearchReadOnlyDictionary.MissingKeyReportedPresent | DistantWorlds2.BundleManager/LinearSearchReadOnlyDictionary.cs:46-47 | with a value type, a key no pair holds is reported present with the default value |
| ReadOnlyDictionary.LinearSearchReadOnlyDictionary.TryGetValueIntended | DistantWorlds2.BundleManager/LinearSearchReadOnlyDictionary.cs:46-47 | the corrected test answers true exactly when the key is present with a value other than the default, and then the pair is in the dictionary |
| ReadOnlyDictionary.LinearSearchReadOnlyDictionary.Keys | DistantWorlds2.BundleManager/LinearSearchReadOnlyDictionary.cs:55-58 | `Keys` has the keys of the pairs in array order |
| ReadOnlyDictionary.LinearSearchReadOnlyDictionary.Values | DistantWorlds2.BundleManager/LinearSearchReadOnlyDictionary.cs:60-63 | `Values` has the values of the pairs in array order |
| ReadOnlyDictionary.LinearSearchReadOnlyDictionary.Enumerate | DistantWorlds2.BundleManager/LinearSearchReadOnlyDictionary.cs:12-16 | enumeration yields `Count` pairs in array order, pair `i` made of key `i` and value `i` |
| ReadOnlyDictionary.LinearSearchReadOnlyDictionary.Mutate | DistantWorlds2.BundleManager/LinearSearchReadOnlyDictionary.cs:18-53 | both `Add` overloads, `Clear`, both `Remove` overloads and the indexer's setter throw `NotSupportedException`, and the pairs stay as they were |
| ReadOnlyDictionary.LinearSearchReadOnlyDictionary.CopyTo | DistantWorlds2.BundleManager/LinearSearchReadOnlyDictionary.cs:27-28 | a null array, a negative index or too little room throw and change nothing; otherwise the pairs land at `array[i..i+Count)` and the rest is unchanged |

## Left out

- The game's object database, bundles and glob matching (`ls`, `ex`, `mb`), argument dispatch and usage text: plumbing over library calls with no logic of their own. `SimpleFileOdbBackend.cs` is not part of this model.
- `Image.Load`, `Image.Save`, `Image.New` and the DDS and Xenko image encodings: library code. `xt` hands the bytes after the discriminator to the loader, and `tx` and `Write` take the image bytes and the serialized image description as inputs.
- The CELT codec, FFmpeg and ffprobe, the PATH search of `FindFFmpeg`, process launch and temporary files: external tools. The codec is a pair of function parameters, and whether FFmpeg was found is a boolean. The failures of the `Celt` constructor are not modelled: a descriptor with 0 channels, which `new Celt` receives as it stands, gives an empty output buffer here, so every packet that reads decodes to no samples. The PCM stream is the sample sequence FFmpeg would produce, and the decoded samples are the result; the float writer and the final FFmpeg call are not modelled.
- Floating-point samples: opaque values with a distinguished zero.
- Xenko's serializer internals. The chunk header is version, type name and two offsets, without Xenko's magic number. Strings carry an int32 length and one byte per character, in place of the 7-bit length prefix and UTF-8. Only what the commands rely on is kept: every field reads back, and the header's length does not depend on its offsets. A file too short for a header reads as no header, where Xenko would throw.
- The content storage header's exact field order: modelled as the initial-image flag, timestamp, URL, chunk list and checksum.
- `DateTime.UtcNow`: the ticks are a parameter.
- Unsafe memory (`AllocateMemory`, pinning, `UnmanagedMemoryStream`): arrays and sequences.
- Async and await: sequential.
- Short reads of `Read`, `ReadAsync` and `Serialize`: every read fills what the file holds, and the rest of the buffer keeps its contents.
- `File.OpenWrite` not truncating an existing file: every output file starts empty.
- `Path.GetExtension(dst) == ".dds"` is modelled as the name ending in `.dds`.
- The file system is a map from paths to contents. `File.Exists` is key membership.
- Console output of `xu` and `XenkoToSoundfile`.
- 32-bit overflow is left out of every size and offset computation of `StreamingImage` and `SoundToXenko` except the casts named below, because it matters only for files or images beyond 2 GiB. Among them:
  - the slice-pitch product and the `(width + 3) / 4` block counts;
  - the running sizes in `CalculateSizeInBytes` and `Write`, and the `size * ArraySize` product;
  - the running `destOffset` of `Load`;
  - the stream position of `SoundToXenko` and its `samples` counter.
  The casts that matter are modelled: the `(int)` content length in `xu`, `OffsetToObject + 1` in `XenkoToSoundfile`, the `(short)` lengths, the `>>` shift count and the `(int)` ticks of the checksum.
- StreamingImage.ImageDescription: the width, height, mip level count and array size are natural numbers. A description read from a file with a negative one cannot be represented. In the source a negative array size makes the buffer allocation of `Load` throw, and a negative mip level count runs the loops zero times.
- SoundConverter.SoundRoundTrip: requires the maximum packet length to fit a short and every packet to fit the input buffer. A longer packet is truncated by the `(short)` casts of the source, and that case is not proved to read back.
- StreamingImage.Load: the read offset `ds.Position` is the table's location for every chunk. The precondition `ChunksFit` excludes every table on which the source throws or misbehaves, and those cases are not modelled:
  - a negative location or size, where setting `ds.Position` or `ds.Read` throws;
  - a size beyond the staging buffer of `CalculateSizeInBytes` bytes, where `ds.Read` throws;
  - a chunk running past the end of the data file, where the short read leaves stale staging bytes that are then copied;
  - a chunk whose destination runs past the image buffer, which `CopyMemory` would overrun.
- StreamingImage.Load: a missing `_Data` file, on which `File.OpenRead` throws, is not modelled; the data file is a parameter.
- SoundConverter.XenkoToSoundfile: a missing `_Data` side file, on which `File.OpenRead` throws, is not modelled; the side file is a parameter.
- ReadOnlyDictionary.LinearSearchReadOnlyDictionary.TryGetValue: whether `TValue` is a value or a reference type is a field of the dictionary, beside its default value (`null` for a reference type). A value type's own `Equals(object)` override is taken to answer false for null, as the object one does.
- ReadOnlyDictionary.LinearSearchReadOnlyDictionary: the pairs are a snapshot. Changes to the caller's array after construction are not seen.
- Null keys: a null key in the array would make `kv.Key!.Equals` throw; keys are values here.
- Commands.ExtractTexture: the `(int)refsSize` cast in the read is not modelled. The size is `obj - refs`, below 2^31, or at most the file length, so it matters only for files of 2 GiB or more.

## Findings

| source | as written | input that shows it | evidently intended | confidence | as-written member | corrected member |
|---|---|---|---|---|---|---|
| DistantWorlds2.BundleManager/Program.cs:218-224 | `xu` sets the new `OffsetToReferences` to `objOffset + contentLength`, which is the file length, while the references are written after the object at `refsOffset + contentLength` | type name `""` (a 16-byte header), references at 16, object at 20, file length 30: the new references offset is 30, so `xt` on the result finds an empty references region, though the 4 reference bytes sit at 26 | the new references offset is `refsOffset + contentLength`, where the references now start | not executed | Relayout.AsWrittenLosesRefs | Relayout.RelayoutThenExtract |
| DistantWorlds2.BundleManager/Program.cs:236-237 | for a container whose object already precedes its references, `xu` copies the source from the position of the earlier seek to the object offset, so the header and everything before the object are dropped | a container with object offset 16 and references offset 40 in a 40-byte file: the output is its last 24 bytes and has no header | the container is copied unchanged | not executed | Relayout.AsWrittenDropsHeader | Relayout.RelayoutKeepsOrderedFile |
| DistantWorlds2.BundleManager/LinearSearchReadOnlyDictionary.cs:46-47 | `TryGetValue` returns `!value.Equals(default)`; for an unconstrained `TValue` this calls `object.Equals(null)`, which a boxed value type never satisfies, and a null reference throws | an empty pair array with `TValue` a value type such as `ObjectId`: every key reports true with the default value | true exactly when the key holds a value other than the default, false otherwise | not executed | ReadOnlyDictionary.LinearSearchReadOnlyDictionary.MissingKeyReportedPresent | ReadOnlyDictionary.LinearSearchReadOnlyDictionary.TryGetValueIntended |
| DistantWorlds2.BundleManager/SoundConverter.cs:168-185 | for a padded length `N` the loop encodes the buffer at every multiple of `F` below `N`, the first time while it is still zero, and once more only when `N % F > 0`; so when `N` is a multiple of `F` it writes `N / F` packets and the last full frame `[N - F, N)` is never encoded | `N = F`: one packet is written and it is the zero frame, so no sample reaches the file | `1 + (N + F - 1) / F` packets, one past the zero frame for every frame the stream touches | not executed | SoundConverter.WholeFramesDropLast | SoundConverter.IntendedFramesCoverStream |

The corrected command is `Relayout.Relayout`. Beyond the two corrected members, `Relayout.RelaidReadsBack` and `Relayout.RelayoutIdempotent` are proved about it.

The corrected dictionary test is `TryGetValueIntended`. The corrected packet count is `SoundConverter.IntendedPacketCount`; `SoundToXenko` and its round trips keep the count as written, so the model states what the shipped converter writes.
