/**
 * Audio packet framing (DistantWorlds2.BundleManager/SoundConverter.cs).
 *
 * `SoundToXenko` cuts a PCM sample stream into frames of 512 samples per
 * channel, encodes each frame into a packet, writes the packets with a 16-bit
 * length prefix to the side data file and describes them in a sound
 * container. `XenkoToSoundfile` reads the descriptor back, decodes every
 * packet into a reused sample buffer and emits each buffer without the
 * decoder's leading delay.
 *
 * Samples are opaque values of type `S` with a distinguished `zero`; the
 * CELT encoder and decoder are function parameters.
 */
module SoundConverter {
  import opened Binary
  import opened Streams
  import opened Container
  import opened Text

  const SamplesPerFrame: nat := 512

  /** The output sample rate `SoundToXenko` records. */
  const OutputBitrate: int := 48000

  // ---------------------------------------------------------------------
  // Framing
  // ---------------------------------------------------------------------

  /** Stream position j: the PCM sample while there is one, zero in the padding after it. */
  function Sample<S>(pcm: seq<S>, zero: S, j: nat): S
  {
    if j < |pcm| then pcm[j] else zero
  }

  /** The frame of `size` stream positions starting at `start`. */
  function FrameAt<S>(pcm: seq<S>, zero: S, start: nat, size: nat): (r: seq<S>)
    ensures |r| == size
    ensures forall i :: 0 <= i < size ==> r[i] == Sample(pcm, zero, start + i)
  {
    seq(size, i requires 0 <= i < size => Sample(pcm, zero, start + i))
  }

  function ZeroFrame<S>(zero: S, size: nat): (r: seq<S>)
    ensures |r| == size
    ensures forall i :: 0 <= i < size ==> r[i] == zero
  {
    seq(size, i requires 0 <= i < size => zero)
  }

  /**
   * The frames behind the first `count` packets: packet 0 encodes the zeroed
   * buffer, and packet k >= 1 encodes the frame of stream positions
   * [(k-1)F, kF).
   */
  function Frames<S>(pcm: seq<S>, zero: S, size: nat, count: nat): (r: seq<seq<S>>)
    ensures |r| == count
  {
    if count == 0 then []
    else if count == 1 then [ZeroFrame(zero, size)]
    else Frames(pcm, zero, size, count - 1) + [FrameAt(pcm, zero, Mul(count - 2, size), size)]
  }

  /**
   * The number of packets for a stream of `n` positions and frames of `size`:
   * one at every position divisible by `size`, and one more for a trailing
   * partial frame.
   */
  function PacketCount(n: nat, size: nat): nat
    requires size > 0
  {
    (n + size - 1) / size + (if n % size > 0 then 1 else 0)
  }

  function EncodeAll<S>(encode: seq<S> -> seq<byte>, frames: seq<seq<S>>): (r: seq<seq<byte>>)
    ensures |r| == |frames|
    ensures forall k :: 0 <= k < |frames| ==> r[k] == encode(frames[k])
  {
    seq(|frames|, k requires 0 <= k < |frames| => encode(frames[k]))
  }

  /** The packets `SoundToXenko` writes for `pcm` on `channels` channels with a decoder delay of `delay`. */
  function Packets<S>(pcm: seq<S>, channels: nat, delay: nat, zero: S, encode: seq<S> -> seq<byte>): seq<seq<byte>>
    requires channels >= 1
  {
    var size := SamplesPerFrame * channels;
    var n := |pcm| + channels * delay;
    EncodeAll(encode, Frames(pcm, zero, size, PacketCount(n, size)))
  }

  /** One packet in the side file: its length as a C# `short`, then its bytes. */
  function PacketBytes(packet: seq<byte>): seq<byte>
  {
    Int16Bytes(|packet|) + packet
  }

  function SideFile(packets: seq<seq<byte>>): seq<byte>
  {
    if packets == [] then [] else PacketBytes(packets[0]) + SideFile(packets[1..])
  }

  function MaxLength(packets: seq<seq<byte>>): nat
  {
    if packets == [] then 0
    else
      var m := MaxLength(packets[..|packets| - 1]);
      var len := |packets[|packets| - 1]|;
      if len > m then len else m
  }

  // ---------------------------------------------------------------------
  // Facts about the framing
  // ---------------------------------------------------------------------

  /** Frames grow by one at the end, so a prefix of the frames is the frames of the prefix. */
  lemma {:induction false} FramesPrefix<S>(pcm: seq<S>, zero: S, size: nat, count: nat, k: nat)
    requires k < count
    ensures Frames(pcm, zero, size, count)[k] == Frames(pcm, zero, size, k + 1)[k]
  {
    if k < count - 1 {
      FramesPrefix(pcm, zero, size, count - 1, k);
    }
  }

  /** The first packet encodes an all-zero frame; packet k >= 1 encodes stream positions [(k-1)F, kF). */
  lemma FrameContents<S>(pcm: seq<S>, zero: S, size: nat, count: nat, k: nat)
    requires k < count
    ensures k == 0 ==> Frames(pcm, zero, size, count)[k] == ZeroFrame(zero, size)
    ensures k >= 1 ==> Frames(pcm, zero, size, count)[k] == FrameAt(pcm, zero, (k - 1) * size, size)
    ensures k >= 1 ==> forall i :: 0 <= i < size ==>
      Frames(pcm, zero, size, count)[k][i] == (if (k - 1) * size + i < |pcm| then pcm[(k - 1) * size + i] else zero)
  {
    FramesPrefix(pcm, zero, size, count, k);
    if k >= 1 {
      MulIsProduct(k - 1, size);
    }
  }

  /**
   * A stream whose last (possibly partial) frame started at `Mul(k - 1, size)`
   * and holds `filled` positions gives `k` packets, and one more when that
   * frame is partial.
   */
  lemma PacketCountOf(k: nat, filled: nat, size: nat)
    requires k >= 1 && 1 <= filled <= size
    ensures PacketCount(Mul(k - 1, size) + filled, size) == k + (if filled < size then 1 else 0)
  {
    if filled < size {
      MulDivMod(k - 1, size, filled);
      MulDivMod(k, size, filled - 1);
    } else {
      MulDivMod(k, size, 0);
      MulDivMod(k, size, size - 1);
    }
  }

  /** The slot of the last position in a frame that started at `Mul(k - 1, size)` and holds `filled` positions. */
  lemma SlotOf(k: nat, filled: nat, size: nat)
    requires k >= 1 && 1 <= filled <= size
    ensures (Mul(k - 1, size) + filled) % size == if filled == size then 0 else filled
  {
    if filled < size {
      MulDivMod(k - 1, size, filled);
    } else {
      MulDivMod(k, size, 0);
    }
  }

  /** The packets of a stream of `n` positions: those encoded in the loop, and one more for a partial last frame. */
  lemma FinalCount(n: nat, size: nat, frames: nat, filled: nat)
    requires size > 0 && filled <= size
    requires n == 0 ==> frames == 0 && filled == 0
    requires n > 0 ==> frames >= 1 && filled >= 1 && n == Mul(frames - 1, size) + filled
    ensures PacketCount(n, size) == frames + (if filled == size || n == 0 then 0 else 1)
  {
    if n == 0 {
      PacketCountEmpty(size);
    } else {
      PacketCountOf(frames, filled, size);
    }
  }

  /** No positions give no packets. */
  lemma PacketCountEmpty(size: nat)
    requires size > 0
    ensures PacketCount(0, size) == 0
  {
    MulDivMod(0, size, size - 1);
  }

  /** A stream shorter than one frame gives two packets: the zero frame and the partial frame. */
  lemma PacketCountShort(n: nat, size: nat)
    requires 0 < n < size
    ensures PacketCount(n, size) == 2
  {
    PacketCountOf(1, n, size);
  }

  /**
   * A stream of `q` whole frames gives `q` packets, the zero frame included,
   * so the last packet encodes positions [n - 2F, n - F) and the final frame,
   * positions [n - F, n), is never encoded.
   */
  lemma WholeFramesDropLast<S>(pcm: seq<S>, zero: S, size: nat, q: nat)
    requires size > 0 && q >= 1
    ensures PacketCount(Mul(q, size), size) == q
    ensures q >= 2 ==> Mul(q, size) >= 2 * size && Frames(pcm, zero, size, q)[q - 1] == FrameAt(pcm, zero, Mul(q, size) - 2 * size, size)
  {
    PacketCountOf(q, size, size);
  }

  /**
   * The packet count the framing evidently intends: the zero frame, then one
   * packet for every frame the n stream positions occupy, the last one
   * whether it is full or partial.
   */
  function IntendedPacketCount(n: nat, size: nat): nat
    requires size > 0
  {
    1 + (n + size - 1) / size
  }

  /**
   * With the intended count every stream position is encoded: position j is
   * slot `j % size` of packet `j / size + 1`. For a stream of q whole frames
   * that is q + 1 packets, one more than the loop writes.
   */
  lemma IntendedFramesCoverStream<S>(pcm: seq<S>, zero: S, size: nat, n: nat, j: nat)
    requires size > 0 && j < n
    ensures j / size + 1 < IntendedPacketCount(n, size)
    ensures |Frames(pcm, zero, size, IntendedPacketCount(n, size))[j / size + 1]| == size
    ensures Frames(pcm, zero, size, IntendedPacketCount(n, size))[j / size + 1][j % size] == Sample(pcm, zero, j)
    ensures forall q: nat :: n == Mul(q, size) ==> IntendedPacketCount(n, size) == PacketCount(n, size) + 1
  {
    var q := j / size;
    DivModBasics(j, size);
    var e := n + size - 1 - Mul(q + 1, size);
    DivModBasics(e, size);
    MulSub(q + 1 + e / size, e / size, size);
    MulDivMod(q + 1 + e / size, size, e % size);
    FrameContents(pcm, zero, size, IntendedPacketCount(n, size), q + 1);
    MulIsProduct(q, size);
    forall q': nat | n == Mul(q', size)
      ensures IntendedPacketCount(n, size) == PacketCount(n, size) + 1
    {
      MulDivMod(q', size, size - 1);
      MulDivMod(q', size, 0);
      assert q' >= 1;
      PacketCountOf(q', size, size);
      MulSub(q', 1, size);
    }
  }

  /** `MaxLength` is the length of the longest packet (0 when there is none). */
  lemma {:induction false} MaxLengthIsMaximum(packets: seq<seq<byte>>)
    ensures forall k :: 0 <= k < |packets| ==> |packets[k]| <= MaxLength(packets)
    ensures packets == [] ==> MaxLength(packets) == 0
    ensures packets != [] ==> exists k :: 0 <= k < |packets| && |packets[k]| == MaxLength(packets)
  {
    if packets != [] {
      var init := packets[..|packets| - 1];
      MaxLengthIsMaximum(init);
      assert forall k :: 0 <= k < |init| ==> packets[k] == init[k];
      if init != [] && MaxLength(packets) == MaxLength(init) {
        var k :| 0 <= k < |init| && |init[k]| == MaxLength(init);
        assert |packets[k]| == MaxLength(packets);
      } else {
        assert |packets[|packets| - 1]| == MaxLength(packets);
      }
    }
  }

  lemma {:induction false} SideFileAppend(packets: seq<seq<byte>>, p: seq<byte>)
    ensures SideFile(packets + [p]) == SideFile(packets) + PacketBytes(p)
  {
    if packets == [] {
      assert packets + [p] == [p];
      assert [p][1..] == [];
    } else {
      assert (packets + [p])[1..] == packets[1..] + [p];
      SideFileAppend(packets[1..], p);
    }
  }

  lemma MaxLengthAppend(packets: seq<seq<byte>>, p: seq<byte>)
    ensures MaxLength(packets + [p]) == if |p| > MaxLength(packets) then |p| else MaxLength(packets)
  {
    assert (packets + [p])[..|packets|] == packets;
  }

  lemma EncodeAllAppend<S>(encode: seq<S> -> seq<byte>, frames: seq<seq<S>>, frame: seq<S>)
    ensures EncodeAll(encode, frames + [frame]) == EncodeAll(encode, frames) + [encode(frame)]
  {
  }

  // ---------------------------------------------------------------------
  // The encode loop of SoundToXenko
  // ---------------------------------------------------------------------

  /**
   * The frame buffer holds the `filled` positions of the frame that starts at
   * stream position `start`, and zero in the slots after them.
   */
  ghost predicate Holds<S>(buffer: seq<S>, pcm: seq<S>, zero: S, start: nat, filled: nat)
  {
    forall i :: 0 <= i < |buffer| ==> buffer[i] == if i < filled then Sample(pcm, zero, start + i) else zero
  }

  /**
   * The buffer encoded at a multiple of the frame size, or after the loop, is
   * the next of the `Frames`: the zero frame first, and after that the frame
   * at `start`, once it is full or all its remaining slots lie past the PCM
   * data.
   */
  lemma NextFrame<S>(frames: seq<seq<S>>, buffer: seq<S>, pcm: seq<S>, zero: S, start: nat, filled: nat)
    requires frames == Frames(pcm, zero, |buffer|, |frames|)
    requires Holds(buffer, pcm, zero, start, filled)
    requires |frames| == 0 ==> filled == 0
    requires |frames| >= 1 ==> start == Mul(|frames| - 1, |buffer|) && (filled >= |buffer| || start + filled >= |pcm|)
    ensures frames + [buffer] == Frames(pcm, zero, |buffer|, |frames| + 1)
  {
    if |frames| == 0 {
      FirstFrame(buffer, pcm, zero, start);
    } else {
      FullFrame(buffer, pcm, zero, start, filled);
    }
  }

  lemma FirstFrame<S>(buffer: seq<S>, pcm: seq<S>, zero: S, start: nat)
    requires Holds(buffer, pcm, zero, start, 0)
    ensures [buffer] == Frames(pcm, zero, |buffer|, 1)
  {
    assert buffer == ZeroFrame(zero, |buffer|);
  }

  lemma FullFrame<S>(buffer: seq<S>, pcm: seq<S>, zero: S, start: nat, filled: nat)
    requires Holds(buffer, pcm, zero, start, filled)
    requires filled >= |buffer| || start + filled >= |pcm|
    ensures buffer == FrameAt(pcm, zero, start, |buffer|)
  {
  }

  /**
   * The state of the framing loop at stream position `position`: the frames
   * encoded so far are the first `Frames`, and the buffer holds the `filled`
   * positions of the current frame, which starts at `start`.
   */
  ghost predicate Framed<S>(buffer: seq<S>, pcm: seq<S>, zero: S, frames: seq<seq<S>>, start: nat, filled: nat, position: nat)
  {
    && filled <= |buffer| && start + filled == position
    && (position == 0 <==> |frames| == 0)
    && (position > 0 ==> filled >= 1 && start == Mul(|frames| - 1, |buffer|))
    && Holds(buffer, pcm, zero, start, filled)
    && frames == Frames(pcm, zero, |buffer|, |frames|)
  }

  /** The side file and counters after writing `packets`. */
  ghost predicate Emitted(packets: seq<seq<byte>>, sideFile: seq<byte>, numberOfPackets: int, samples: int, maxPacketLength: int)
  {
    && sideFile == SideFile(packets)
    && numberOfPackets == |packets|
    && samples == SamplesPerFrame * numberOfPackets
    && maxPacketLength == MaxLength(packets)
  }

  /** `Array.Clear(buffer, 0, frameSize)`. */
  method Clear<S>(buffer: array<S>, zero: S)
    modifies buffer
    ensures forall i :: 0 <= i < buffer.Length ==> buffer[i] == zero
  {
    forall i | 0 <= i < buffer.Length {
      buffer[i] := zero;
    }
  }

  /** `buffer[position % frameSize] = sample`: the slot after the filled ones receives the sample at `position`. */
  method Store<S>(buffer: array<S>, slot: nat, sample: S, ghost pcm: seq<S>, ghost zero: S, ghost start: nat)
    requires slot < buffer.Length && Holds(buffer[..], pcm, zero, start, slot)
    requires sample == Sample(pcm, zero, start + slot)
    modifies buffer
    ensures Holds(buffer[..], pcm, zero, start, slot + 1)
  {
    buffer[slot] := sample;
  }

  /**
   * `position % frameSize`, the slot of `position` in the frame buffer: when
   * the current frame started at `Mul(frames - 1, frameSize)` and holds
   * `filled` positions, it is `filled`, or 0 once the frame is full.
   */
  method FrameSlot(position: nat, frameSize: nat, ghost frames: nat, ghost filled: nat) returns (slot: nat)
    requires frameSize > 0 && filled <= frameSize
    requires position == 0 ==> frames == 0 && filled == 0
    requires position > 0 ==> frames >= 1 && filled >= 1 && position == Mul(frames - 1, frameSize) + filled
    ensures slot == if filled == frameSize then 0 else filled
  {
    slot := position % frameSize;
    if position == 0 {
      MulDivMod(0, frameSize, 0);
    } else {
      SlotOf(frames, filled, frameSize);
    }
  }

  /**
   * Encodes the frame buffer and appends the packet, with its length as a
   * 16-bit prefix, to the side file; counts the packet, its samples per
   * channel and its length.
   */
  method EmitPacket<S>(buffer: array<S>, encode: seq<S> -> seq<byte>, perChannel: int,
                       sideFile: seq<byte>, samples: int, numberOfPackets: int, maxPacketLength: int,
                       ghost packets: seq<seq<byte>>)
    returns (sideFile': seq<byte>, samples': int, numberOfPackets': int, maxPacketLength': int,
             ghost packets': seq<seq<byte>>)
    requires sideFile == SideFile(packets) && numberOfPackets == |packets|
    requires samples == perChannel * |packets| && maxPacketLength == MaxLength(packets)
    ensures packets' == packets + [encode(buffer[..])]
    ensures sideFile' == SideFile(packets') && numberOfPackets' == |packets'|
    ensures samples' == perChannel * |packets'| && maxPacketLength' == MaxLength(packets')
  {
    var packet := encode(buffer[..]);
    var len := |packet|;
    SideFileAppend(packets, packet);
    MaxLengthAppend(packets, packet);
    sideFile' := sideFile + Int16Bytes(len) + packet;
    assert perChannel * (|packets| + 1) == perChannel * |packets| + perChannel;
    samples' := samples + perChannel;
    numberOfPackets' := numberOfPackets + 1;
    maxPacketLength' := if len > maxPacketLength then len else maxPacketLength;
    packets' := packets + [packet];
    assert |packets'| == |packets| + 1;
  }

  /**
   * One iteration of the framing loop at `position`: when the position is a
   * multiple of the frame size the buffer is encoded and emitted, then
   * cleared; then `sample` is stored in the position's slot.
   */
  method FrameStep<S>(buffer: array<S>, position: nat, sample: S, zero: S, encode: seq<S> -> seq<byte>, perChannel: int,
                      sideFile: seq<byte>, numberOfPackets: int, samples: int, maxPacketLength: int,
                      ghost pcm: seq<S>, ghost frames: seq<seq<S>>, ghost packets: seq<seq<byte>>,
                      ghost start: nat, ghost filled: nat)
    returns (sideFile': seq<byte>, numberOfPackets': int, samples': int, maxPacketLength': int,
             ghost frames': seq<seq<S>>, ghost packets': seq<seq<byte>>, ghost start': nat, ghost filled': nat)
    requires buffer.Length > 0 && perChannel == SamplesPerFrame
    requires Framed(buffer[..], pcm, zero, frames, start, filled, position)
    requires sample == Sample(pcm, zero, position)
    requires packets == EncodeAll(encode, frames)
    requires Emitted(packets, sideFile, numberOfPackets, samples, maxPacketLength)
    modifies buffer
    ensures Framed(buffer[..], pcm, zero, frames', start', filled', position + 1)
    ensures packets' == EncodeAll(encode, frames')
    ensures Emitted(packets', sideFile', numberOfPackets', samples', maxPacketLength')
  {
    sideFile', numberOfPackets', samples', maxPacketLength' := sideFile, numberOfPackets, samples, maxPacketLength;
    frames', packets', start', filled' := frames, packets, start, filled;
    var slot := FrameSlot(position, buffer.Length, |frames|, filled);
    if slot == 0 {
      sideFile', numberOfPackets', samples', maxPacketLength', frames', packets' :=
        StartFrame(buffer, position, zero, encode, perChannel, sideFile, numberOfPackets, samples, maxPacketLength,
                   pcm, frames, packets, start, filled);
      start' := position;
      filled' := 0;
    }
    Store(buffer, slot, sample, pcm, zero, start');
    filled' := filled' + 1;
  }

  /**
   * The branch of the framing loop taken at a multiple of the frame size:
   * the buffer, full or (at position 0) untouched, is encoded and emitted as
   * the next frame, then cleared for the frame that starts at `position`.
   */
  method StartFrame<S>(buffer: array<S>, position: nat, zero: S, encode: seq<S> -> seq<byte>, perChannel: int,
                       sideFile: seq<byte>, numberOfPackets: int, samples: int, maxPacketLength: int,
                       ghost pcm: seq<S>, ghost frames: seq<seq<S>>, ghost packets: seq<seq<byte>>,
                       ghost start: nat, ghost filled: nat)
    returns (sideFile': seq<byte>, numberOfPackets': int, samples': int, maxPacketLength': int,
             ghost frames': seq<seq<S>>, ghost packets': seq<seq<byte>>)
    requires buffer.Length > 0 && perChannel == SamplesPerFrame
    requires Framed(buffer[..], pcm, zero, frames, start, filled, position)
    requires filled == 0 || filled == buffer.Length
    requires packets == EncodeAll(encode, frames)
    requires Emitted(packets, sideFile, numberOfPackets, samples, maxPacketLength)
    modifies buffer
    ensures |frames'| == |frames| + 1 && position == Mul(|frames|, buffer.Length)
    ensures frames' == Frames(pcm, zero, buffer.Length, |frames'|)
    ensures Holds(buffer[..], pcm, zero, position, 0)
    ensures packets' == EncodeAll(encode, frames')
    ensures Emitted(packets', sideFile', numberOfPackets', samples', maxPacketLength')
  {
    ghost var frame := buffer[..];
    NextFrame(frames, frame, pcm, zero, start, filled);
    EncodeAllAppend(encode, frames, frame);
    assert position == Mul(|frames|, buffer.Length);
    sideFile', samples', numberOfPackets', maxPacketLength', packets' :=
      EmitPacket(buffer, encode, perChannel, sideFile, samples, numberOfPackets, maxPacketLength, packets);
    frames' := frames + [frame];
    Clear(buffer, zero);
    assert Holds(buffer[..], pcm, zero, position, 0);
  }

  /**
   * After the loop, at the end of the stream: a partial last frame is encoded
   * and emitted like the others.
   */
  method FlushFrame<S>(buffer: array<S>, position: nat, encode: seq<S> -> seq<byte>, perChannel: int,
                       sideFile: seq<byte>, numberOfPackets: int, samples: int, maxPacketLength: int,
                       ghost pcm: seq<S>, ghost zero: S, ghost frames: seq<seq<S>>, ghost packets: seq<seq<byte>>,
                       ghost start: nat, ghost filled: nat)
    returns (sideFile': seq<byte>, numberOfPackets': int, samples': int, maxPacketLength': int,
             ghost packets': seq<seq<byte>>)
    requires buffer.Length > 0 && perChannel == SamplesPerFrame && position >= |pcm|
    requires Framed(buffer[..], pcm, zero, frames, start, filled, position)
    requires packets == EncodeAll(encode, frames)
    requires Emitted(packets, sideFile, numberOfPackets, samples, maxPacketLength)
    ensures packets' == EncodeAll(encode, Frames(pcm, zero, buffer.Length, PacketCount(position, buffer.Length)))
    ensures Emitted(packets', sideFile', numberOfPackets', samples', maxPacketLength')
  {
    sideFile', numberOfPackets', samples', maxPacketLength', packets' := sideFile, numberOfPackets, samples, maxPacketLength, packets;
    var slot := FrameSlot(position, buffer.Length, |frames|, filled);
    FinalCount(position, buffer.Length, |frames|, filled);
    if slot > 0 {
      ghost var frame := buffer[..];
      NextFrame(frames, frame, pcm, zero, start, filled);
      EncodeAllAppend(encode, frames, frame);
      sideFile', samples', numberOfPackets', maxPacketLength', packets' :=
        EmitPacket(buffer, encode, perChannel, sideFile, samples, numberOfPackets, maxPacketLength, packets);
    }
  }

  /**
   * The framing loop of `SoundToXenko`: `buffer` holds the current frame, is
   * encoded whenever the position reaches a multiple of the frame size and is
   * then cleared; positions past the PCM data store zero. A trailing partial
   * frame is encoded after the loop.
   */
  method EncodeFrames<S>(pcm: seq<S>, channels: nat, delay: nat, zero: S, encode: seq<S> -> seq<byte>)
    returns (sideFile: seq<byte>, numberOfPackets: int, samples: int, maxPacketLength: int)
    requires channels >= 1
    ensures var packets := Packets(pcm, channels, delay, zero, encode);
      && numberOfPackets == |packets| == PacketCount(|pcm| + channels * delay, SamplesPerFrame * channels)
      && sideFile == SideFile(packets)
      && samples == SamplesPerFrame * numberOfPackets
      && maxPacketLength == MaxLength(packets)
  {
    var length := |pcm|;
    var padding := channels * delay;
    var frameSize := SamplesPerFrame * channels;
    var buffer := new S[frameSize](_ => zero);
    sideFile := [];
    samples := 0;
    numberOfPackets := 0;
    maxPacketLength := 0;
    ghost var frames: seq<seq<S>> := [];
    ghost var packets: seq<seq<byte>> := [];
    ghost var frameStart: nat := 0;
    ghost var filled: nat := 0;
    ExactDiv(SamplesPerFrame, channels);
    var position := 0;
    while position < length + padding
      invariant 0 <= position <= length + padding
      invariant buffer.Length == frameSize
      invariant Framed(buffer[..], pcm, zero, frames, frameStart, filled, position)
      invariant packets == EncodeAll(encode, frames)
      invariant Emitted(packets, sideFile, numberOfPackets, samples, maxPacketLength)
    {
      var sample := if position < length then pcm[position] else zero;
      sideFile, numberOfPackets, samples, maxPacketLength, frames, packets, frameStart, filled :=
        FrameStep(buffer, position, sample, zero, encode, frameSize / channels, sideFile, numberOfPackets, samples,
                  maxPacketLength, pcm, frames, packets, frameStart, filled);
      position := position + 1;
    }

    sideFile, numberOfPackets, samples, maxPacketLength, packets :=
      FlushFrame(buffer, position, encode, frameSize / channels, sideFile, numberOfPackets, samples,
                 maxPacketLength, pcm, zero, frames, packets, frameStart, filled);
  }

  // ---------------------------------------------------------------------
  // The sound descriptor and the container SoundToXenko writes
  // ---------------------------------------------------------------------

  /** The object region of a sound container after its discriminator byte. */
  datatype SoundDescriptor = SoundDescriptor(
    compressedDataUrl: string,
    sampleRate: int,
    channels: int,
    streamFromDisk: bool,
    spatialized: bool,
    numberOfPackets: int,
    maxPacketLength: int,
    samples: int)

  /** A descriptor whose fields survive being written and read back. */
  predicate DescriptorWellFormed(d: SoundDescriptor)
  {
    && IsText(d.compressedDataUrl) && IsInt32(d.sampleRate) && 0 <= d.channels < 256
    && IsInt32(d.numberOfPackets) && IsInt16(d.maxPacketLength) && IsInt32(d.samples)
  }

  /**
   * The fields in the order `SoundToXenko` writes them; the channel count is
   * written as a byte and the maximum packet length as a short.
   */
  function EncodeDescriptor(d: SoundDescriptor): seq<byte>
  {
    StringBytes(d.compressedDataUrl) + (Int32Bytes(d.sampleRate) + (ByteBytes(d.channels) +
      (BoolBytes(d.streamFromDisk) + (BoolBytes(d.spatialized) + (Int32Bytes(d.numberOfPackets) +
      (Int16Bytes(d.maxPacketLength) + Int32Bytes(d.samples)))))))
  }

  /** The URL, the sample rate and the channel count, read in that order. */
  function ReadDescriptorFront(s: seq<byte>): Option<(string, int, int, seq<byte>)>
  {
    match ReadString(s)
    case None => None
    case Some((url, s1)) =>
      match ReadInt32(s1)
      case None => None
      case Some((sampleRate, s2)) =>
        match ReadByte(s2)
        case None => None
        case Some((channels, s3)) => Some((url, sampleRate, channels, s3))
  }

  /** The two flags and the three counts that follow. */
  function ReadDescriptorBack(s: seq<byte>): Option<(bool, bool, int, int, int, seq<byte>)>
  {
    match ReadBool(s)
    case None => None
    case Some((streamFromDisk, s1)) =>
      match ReadBool(s1)
      case None => None
      case Some((spatialized, s2)) =>
        match ReadInt32(s2)
        case None => None
        case Some((packets, s3)) =>
          match ReadInt16(s3)
          case None => None
          case Some((maxLength, s4)) =>
            match ReadInt32(s4)
            case None => None
            case Some((samples, s5)) => Some((streamFromDisk, spatialized, packets, maxLength, samples, s5))
  }

  /** The reads of `XenkoToSoundfile` after the seek past the discriminator byte. */
  function ReadDescriptor(s: seq<byte>): (r: Option<(SoundDescriptor, seq<byte>)>)
    ensures r.Some? ==> 0 <= r.value.0.channels < 256 && IsInt16(r.value.0.maxPacketLength)
  {
    match ReadDescriptorFront(s)
    case None => None
    case Some((url, sampleRate, channels, s1)) =>
      match ReadDescriptorBack(s1)
      case None => None
      case Some((streamFromDisk, spatialized, packets, maxLength, samples, s2)) =>
        Some((SoundDescriptor(url, sampleRate, channels, streamFromDisk, spatialized, packets, maxLength, samples), s2))
  }

  lemma DescriptorFrontRoundTrip(d: SoundDescriptor, rest: seq<byte>)
    requires DescriptorWellFormed(d)
    ensures ReadDescriptorFront(StringBytes(d.compressedDataUrl) + (Int32Bytes(d.sampleRate) + (ByteBytes(d.channels) + rest)))
         == Some((d.compressedDataUrl, d.sampleRate, d.channels, rest))
  {
    var t2 := ByteBytes(d.channels) + rest;
    var t1 := Int32Bytes(d.sampleRate) + t2;
    StringRoundTrip(d.compressedDataUrl, t1);
    Int32RoundTrip(d.sampleRate, t2);
    ByteRoundTrip(d.channels, rest);
  }

  lemma DescriptorBackRoundTrip(d: SoundDescriptor, rest: seq<byte>)
    requires DescriptorWellFormed(d)
    ensures ReadDescriptorBack(BoolBytes(d.streamFromDisk) + (BoolBytes(d.spatialized) + (Int32Bytes(d.numberOfPackets) +
              (Int16Bytes(d.maxPacketLength) + (Int32Bytes(d.samples) + rest)))))
         == Some((d.streamFromDisk, d.spatialized, d.numberOfPackets, d.maxPacketLength, d.samples, rest))
  {
    var t4 := Int32Bytes(d.samples) + rest;
    var t3 := Int16Bytes(d.maxPacketLength) + t4;
    var t2 := Int32Bytes(d.numberOfPackets) + t3;
    var t1 := BoolBytes(d.spatialized) + t2;
    BoolRoundTrip(d.streamFromDisk, t1);
    BoolRoundTrip(d.spatialized, t2);
    Int32RoundTrip(d.numberOfPackets, t3);
    Int16RoundTrip(d.maxPacketLength, t4);
    Int32RoundTrip(d.samples, rest);
  }

  /** Reading a written descriptor gives it back, with the bytes that follow it. */
  lemma DescriptorRoundTrip(d: SoundDescriptor, rest: seq<byte>)
    requires DescriptorWellFormed(d)
    ensures ReadDescriptor(EncodeDescriptor(d) + rest) == Some((d, rest))
  {
    var back := BoolBytes(d.streamFromDisk) + (BoolBytes(d.spatialized) + (Int32Bytes(d.numberOfPackets) +
                (Int16Bytes(d.maxPacketLength) + Int32Bytes(d.samples))));
    var backRest := BoolBytes(d.streamFromDisk) + (BoolBytes(d.spatialized) + (Int32Bytes(d.numberOfPackets) +
                (Int16Bytes(d.maxPacketLength) + (Int32Bytes(d.samples) + rest))));
    assert back + rest == backRest;
    var front := StringBytes(d.compressedDataUrl) + (Int32Bytes(d.sampleRate) + ByteBytes(d.channels));
    assert EncodeDescriptor(d) + rest
        == StringBytes(d.compressedDataUrl) + (Int32Bytes(d.sampleRate) + (ByteBytes(d.channels) + backRest));
    DescriptorFrontRoundTrip(d, backRest);
    DescriptorBackRoundTrip(d, rest);
  }

  lemma DescriptorReadsBack(d: SoundDescriptor)
    requires DescriptorWellFormed(d)
    ensures ReadDescriptor(EncodeDescriptor(d)) == Some((d, []))
  {
    DescriptorRoundTrip(d, []);
    assert EncodeDescriptor(d) + [] == EncodeDescriptor(d);
  }

  /** The descriptor `SoundToXenko` fills in for a stream of `channels` channels. */
  function WrittenDescriptor(assetPath: string, channels: int, numberOfPackets: int, maxPacketLength: int, samples: int): SoundDescriptor
  {
    SoundDescriptor(assetPath + "_Data", OutputBitrate, channels, false, channels > 1, numberOfPackets, maxPacketLength, samples)
  }

  /**
   * The container file `SoundToXenko` leaves behind: the final header
   * (references right after it, the object after the references), the
   * references region, discriminator byte 0 and the descriptor.
   */
  function SoundContainer(version: int, typeName: string, refs: Option<seq<byte>>, d: SoundDescriptor): seq<byte>
  {
    EncodeHeader(LayoutHeader(version, typeName, refs)) + SoundBody(refs, d)
  }

  /** What follows the header in the container: the references region, discriminator byte 0 and the descriptor. */
  function SoundBody(refs: Option<seq<byte>>, d: SoundDescriptor): seq<byte>
  {
    RefsRegion(refs) + (ByteBytes(0) + EncodeDescriptor(d))
  }

  lemma Regroup3(p: seq<byte>, a: seq<byte>, b: seq<byte>, c: seq<byte>)
    ensures p + a + b + c == p + (a + (b + c))
  {
  }

  /** The parts of a file laid out as `head`, `region`, a one-byte `mark`, `tail`. */
  lemma Parts(head: seq<byte>, region: seq<byte>, mark: seq<byte>, tail: seq<byte>)
    requires |mark| == 1
    ensures var file := head + (region + (mark + tail));
      && file[|head|..] == region + (mark + tail)
      && file[|head|..|head| + |region|] == region
      && file[|head| + |region|] == mark[0]
      && file[|head| + |region| + 1..] == tail
  {
    var file := head + (region + (mark + tail));
    assert file[|head|..] == region + (mark + tail);
  }

  /**
   * The container half of `SoundToXenko`: a header with placeholder offsets,
   * the references region, the object region, and the header rewritten at
   * position 0 with the offsets recorded along the way.
   */
  method WriteSoundContainer(version: int, typeName: string, refs: Option<seq<byte>>, d: SoundDescriptor)
    returns (container: OutputStream)
    ensures fresh(container)
    ensures container.data == SoundContainer(version, typeName, refs, d)
  {
    container := new OutputStream();
    var header := ChunkHeader(version, typeName, 0, 0);
    var placeholder := EncodeHeader(header);
    container.Write(placeholder);
    assert container.data == placeholder && container.position == HeaderLength(typeName);
    header := header.(offsetToReferences := Wrap32(container.position));
    var region := RefsRegion(refs);
    if refs.None? {
      container.Write(Int32Bytes(0));
    } else {
      container.Write(refs.value);
    }
    assert container.data == placeholder + region;
    header := header.(offsetToObject := Wrap32(container.position));
    assert header == LayoutHeader(version, typeName, refs);
    container.Write(ByteBytes(0));
    container.Write(EncodeDescriptor(d));
    Regroup3(placeholder, region, ByteBytes(0), EncodeDescriptor(d));
    assert container.data == placeholder + SoundBody(refs, d);
    container.Seek(0);
    OverwritePrefix(placeholder, SoundBody(refs, d), EncodeHeader(header));
    container.Write(EncodeHeader(header));
    assert container.data == EncodeHeader(header) + SoundBody(refs, d);
  }

  datatype Converted = Converted(container: seq<byte>, sideFile: seq<byte>)
  datatype Conversion = NoChannels | Written(value: Converted)

  /**
   * `SoundToXenko` after the PCM stream has been produced: the framing loop,
   * then the container. With no channels the frame size is 0 and the first
   * `position % frameSize` throws.
   */
  method SoundToXenko<S>(pcm: seq<S>, channels: nat, delay: nat, zero: S, encode: seq<S> -> seq<byte>,
                         version: int, typeName: string, refs: Option<seq<byte>>, assetPath: string)
    returns (r: Conversion)
    ensures channels == 0 <==> r.NoChannels?
    ensures r.Written? ==>
      var packets := Packets(pcm, channels, delay, zero, encode);
      && r.value.sideFile == SideFile(packets)
      && r.value.container == SoundContainer(version, typeName, refs,
           WrittenDescriptor(assetPath, channels, |packets|, MaxLength(packets), SamplesPerFrame * |packets|))
  {
    if channels == 0 {
      return NoChannels;
    }
    var sideFile, numberOfPackets, samples, maxPacketLength := EncodeFrames(pcm, channels, delay, zero, encode);
    var d := WrittenDescriptor(assetPath, channels, numberOfPackets, maxPacketLength, samples);
    var container := WriteSoundContainer(version, typeName, refs, d);
    return Written(Converted(container.data, sideFile));
  }

  /**
   * Reading the container's header back: the references offset is the end
   * of the header and the object offset the end of the references region.
   */
  lemma SoundContainerHeader(version: int, typeName: string, refs: Option<seq<byte>>, d: SoundDescriptor)
    requires IsInt32(version) && IsText(typeName)
    requires HeaderLength(typeName) + |RefsRegion(refs)| < TwoTo31
    ensures var file := SoundContainer(version, typeName, refs, d);
      var h := HeaderLength(typeName);
      ReadHeader(file) == Some((ChunkHeader(version, typeName, h + |RefsRegion(refs)|, h), file[h..]))
  {
    LayoutHeaderReadsBack(version, typeName, refs, SoundBody(refs, d));
    assert SoundContainer(version, typeName, refs, d)[HeaderLength(typeName)..] == SoundBody(refs, d);
  }

  /**
   * The regions of the container: the references region between the two
   * offsets, then discriminator byte 0, then the descriptor, which
   * `DescriptorReadsBack` reads back unchanged.
   */
  lemma SoundContainerRegions(version: int, typeName: string, refs: Option<seq<byte>>, d: SoundDescriptor)
    ensures var file := SoundContainer(version, typeName, refs, d);
      var h := HeaderLength(typeName);
      var obj := h + |RefsRegion(refs)|;
      && file[h..obj] == RefsRegion(refs)
      && file[obj] == 0
      && file[obj + 1..] == EncodeDescriptor(d)
  {
    var file := SoundContainer(version, typeName, refs, d);
    var head := EncodeHeader(LayoutHeader(version, typeName, refs));
    var region := RefsRegion(refs);
    var tail := EncodeDescriptor(d);
    assert |head| == HeaderLength(typeName);
    Parts(head, region, ByteBytes(0), tail);
  }

  // ---------------------------------------------------------------------
  // XenkoToSoundfile: reading the descriptor and decoding the packets
  // ---------------------------------------------------------------------

  /** The text `XenkoToSoundfile` looks for in the header's type name. */
  const SoundTypeName: string := "Xenko.Audio.Sound"

  /** The number of elements `Skip(k)` leaves of `n`. */
  function Kept(n: nat, k: int): nat
  {
    if k <= 0 then n else if k >= n then 0 else n - k
  }

  /** `Enumerable.Skip(k)`: the elements after the first `k`. */
  function Drop<S>(s: seq<S>, k: int): (r: seq<S>)
    ensures |r| == Kept(|s|, k)
  {
    if k <= 0 then s else if k >= |s| then [] else s[k..]
  }

  lemma DropElements<S>(s: seq<S>, k: int)
    ensures forall i :: 0 <= i < |Drop(s, k)| ==> Drop(s, k)[i] == s[i + (if k <= 0 then 0 else k)]
  {
  }

  /**
   * The output buffer after a packet decodes to `decoded`: the decoded
   * samples over its start (as many as fit), the older samples after them.
   */
  function Overlay<S>(buffer: seq<S>, decoded: seq<S>): (r: seq<S>)
    ensures |r| == |buffer|
  {
    if |decoded| >= |buffer| then decoded[..|buffer|] else decoded + buffer[|decoded|..]
  }

  lemma OverlayElements<S>(buffer: seq<S>, decoded: seq<S>)
    ensures forall i :: 0 <= i < |buffer| ==>
      Overlay(buffer, decoded)[i] == if i < |decoded| then decoded[i] else buffer[i]
  {
  }

  /**
   * A packet read into the input buffer: the bytes the decoder is given, the
   * rest of the side file, and the input buffer after the read.
   */
  datatype PacketRead = PacketRead(packet: seq<byte>, rest: seq<byte>, input: seq<byte>)

  /**
   * One packet of the side file read into the input buffer `input`: a 16-bit
   * length n, then `Serialize(input, 0, n)`, which copies as many of the next
   * n bytes as the file still holds over the start of the buffer and keeps
   * the rest of it; the decoder is given the first n bytes of the buffer. A
   * missing length, a negative one and one beyond the buffer are read errors.
   */
  function ReadPacket(data: seq<byte>, input: seq<byte>): (r: Option<PacketRead>)
    ensures r.Some? <==> ReadInt16(data).Some? && 0 <= ReadInt16(data).value.0 <= |input|
    ensures r.Some? ==> |r.value.packet| == ReadInt16(data).value.0
    ensures r.Some? ==> |r.value.input| == |input| && r.value.packet == r.value.input[..|r.value.packet|]
  {
    match ReadInt16(data)
    case None => None
    case Some((n, rest)) =>
      if n < 0 || n > |input| then None
      else
        var m := if n <= |rest| then n else |rest|;
        var filled := rest[..m] + input[m..];
        Some(PacketRead(filled[..n], rest[m..], filled))
  }

  /**
   * A packet the file holds in full consumes exactly one written packet. One
   * the file cuts short consumes the rest of the file, and the decoder is
   * given those bytes followed by what the buffer held after them.
   */
  lemma ReadPacketSplits(data: seq<byte>, input: seq<byte>)
    ensures var r := ReadPacket(data, input);
      r.Some? && 2 + |r.value.packet| <= |data| ==>
        PacketBytes(r.value.packet) + r.value.rest == data && r.value.input == r.value.packet + input[|r.value.packet|..]
    ensures var r := ReadPacket(data, input);
      r.Some? && 2 + |r.value.packet| > |data| ==>
        r.value.rest == [] && r.value.packet == data[2..] + input[|data| - 2..|r.value.packet|]
  {
    var r := ReadPacket(data, input);
    if r.Some? {
      var n := |r.value.packet|;
      var rest := data[2..];
      if 2 + n <= |data| {
        Int16ReadBack(data);
        assert data == data[..2] + rest[..n] + rest[n..];
      }
    }
  }

  /** Prepends `out` to a result, keeping a failure. */
  function Prefixed<S>(out: seq<S>, r: Option<seq<S>>): Option<seq<S>>
  {
    if r.None? then None else Some(out + r.value)
  }

  /**
   * The decode loop: `count` packets read from `data`, each decoded over the
   * output buffer, which is then emitted without its first `skip` samples.
   */
  function DecodePackets<S>(data: seq<byte>, count: nat, input: seq<byte>, buffer: seq<S>, skip: int,
                            decode: seq<byte> -> seq<S>): Option<seq<S>>
  {
    if count == 0 then Some([])
    else
      var read := ReadPacket(data, input);
      if read.None? then None
      else
        var next := Overlay(buffer, decode(read.value.packet));
        Prefixed(Drop(next, skip), DecodePackets(read.value.rest, count - 1, read.value.input, next, skip, decode))
  }

  /** Decoding packets already in hand, with the same buffer reuse. */
  function Replay<S>(packets: seq<seq<byte>>, buffer: seq<S>, skip: int, decode: seq<byte> -> seq<S>): seq<S>
  {
    if packets == [] then []
    else
      var next := Overlay(buffer, decode(packets[0]));
      Drop(next, skip) + Replay(packets[1..], next, skip, decode)
  }

  /** The frames with the first `skip` samples of each removed, one after the other. */
  function DropEach<S>(frames: seq<seq<S>>, skip: int): seq<S>
  {
    if frames == [] then [] else Drop(frames[0], skip) + DropEach(frames[1..], skip)
  }

  /** The outcome of `XenkoToSoundfile` before the external transcoder runs. */
  datatype Outcome<S> =
    | SkippedDataFile
    | NoFFmpeg
    | NotSound
    | ReadFailed
    | Decoded(sampleRate: int, channels: int, pcm: seq<S>)

  /** Where the descriptor starts: `OffsetToObject + 1` as a C# int; a negative seek throws. */
  function DescriptorBytes(file: seq<byte>, header: ChunkHeader): (r: Option<seq<byte>>)
    ensures r.None? <==> Wrap32(header.offsetToObject + 1) < 0
    ensures IsInt32(header.offsetToObject + 1) && 0 <= header.offsetToObject + 1 <= |file| ==>
      r == Some(file[header.offsetToObject + 1..])
  {
    var at := Wrap32(header.offsetToObject + 1);
    if at < 0 then None else Some(if at <= |file| then file[at..] else [])
  }

  /**
   * `XenkoToSoundfile` on a container `file` and its side `dataFile`: side
   * files are skipped, a missing FFmpeg is an error, a file that is not a
   * sound is skipped, and a failing read or an impossible packet is an error.
   */
  function ConvertBack<S>(src: string, file: seq<byte>, dataFile: seq<byte>, ffmpegFound: bool,
                          delay: nat, zero: S, decode: seq<byte> -> seq<S>): (r: Outcome<S>)
    ensures r.SkippedDataFile? <==> EndsWith(src, "_Data")
    ensures r.NoFFmpeg? <==> !EndsWith(src, "_Data") && !ffmpegFound
    ensures r.NotSound? <==>
              && !EndsWith(src, "_Data") && ffmpegFound
              && (ReadHeader(file).None? || !Contains(ReadHeader(file).value.0.typeName, SoundTypeName))
    ensures r.Decoded? ==> 0 <= r.channels < 256 && IsInt32(r.sampleRate)
  {
    if EndsWith(src, "_Data") then SkippedDataFile
    else if !ffmpegFound then NoFFmpeg
    else
      match ReadHeader(file)
      case None => NotSound
      case Some((header, _)) =>
        if !Contains(header.typeName, SoundTypeName) then NotSound
        else
          match DescriptorBytes(file, header)
          case None => ReadFailed
          case Some(bytes) =>
            match ReadDescriptor(bytes)
            case None => ReadFailed
            case Some((d, _)) => DecodeSound(d, dataFile, delay, zero, decode)
  }

  /**
   * The buffers and the loop for descriptor `d`: a negative maximum packet
   * length fails the allocation of the input buffer, which otherwise starts
   * zeroed, and a negative packet count runs the loop zero times.
   */
  function DecodeSound<S>(d: SoundDescriptor, dataFile: seq<byte>, delay: nat, zero: S,
                          decode: seq<byte> -> seq<S>): (r: Outcome<S>)
    requires 0 <= d.channels
    ensures r.ReadFailed? || r.Decoded?
    ensures d.maxPacketLength < 0 ==> r.ReadFailed?
    ensures r.Decoded? ==> r.sampleRate == d.sampleRate && r.channels == d.channels
  {
    if d.maxPacketLength < 0 then ReadFailed
    else
      var count := if d.numberOfPackets < 0 then 0 else d.numberOfPackets;
      match DecodePackets(dataFile, count, Zeros(d.maxPacketLength), ZeroFrame(zero, SamplesPerFrame * d.channels),
                          d.channels * delay, decode)
      case None => ReadFailed
      case Some(pcm) => Decoded(d.sampleRate, d.channels, pcm)
  }

  // ---------------------------------------------------------------------
  // Facts about decoding
  // ---------------------------------------------------------------------

  /** A written packet reads back, with the bytes after it, and fills the front of the input buffer. */
  lemma PacketRoundTrip(packet: seq<byte>, rest: seq<byte>, input: seq<byte>)
    requires |packet| <= |input| && |packet| < TwoTo15
    ensures ReadPacket(PacketBytes(packet) + rest, input) == Some(PacketRead(packet, rest, packet + input[|packet|..]))
  {
    var data := PacketBytes(packet) + rest;
    assert data == Int16Bytes(|packet|) + (packet + rest);
    Int16RoundTrip(|packet|, packet + rest);
    assert (packet + rest)[..|packet|] == packet;
    assert (packet + rest)[|packet|..] == rest;
  }

  /** Every decoded packet contributes the same number of samples: the buffer size less the skip. */
  lemma {:induction false} DecodedLength<S>(data: seq<byte>, count: nat, input: seq<byte>, buffer: seq<S>, skip: int,
                                            decode: seq<byte> -> seq<S>)
    ensures var r := DecodePackets(data, count, input, buffer, skip, decode);
      r.Some? ==> |r.value| == Mul(count, Kept(|buffer|, skip))
  {
    if count > 0 && ReadPacket(data, input).Some? {
      var read := ReadPacket(data, input);
      var next := Overlay(buffer, decode(read.value.packet));
      DecodedLength(read.value.rest, count - 1, read.value.input, next, skip, decode);
    }
  }

  /**
   * The side file the encoder writes decodes packet by packet: reading it
   * back replays exactly the packets that were written.
   */
  lemma {:induction false} SideFileReadsBack<S>(packets: seq<seq<byte>>, rest: seq<byte>, input: seq<byte>,
                                                buffer: seq<S>, skip: int, decode: seq<byte> -> seq<S>)
    requires forall k :: 0 <= k < |packets| ==> |packets[k]| <= |input| && |packets[k]| < TwoTo15
    ensures DecodePackets(SideFile(packets) + rest, |packets|, input, buffer, skip, decode)
         == Some(Replay(packets, buffer, skip, decode))
  {
    if packets != [] {
      var tail := SideFile(packets[1..]) + rest;
      assert SideFile(packets) + rest == PacketBytes(packets[0]) + tail;
      PacketRoundTrip(packets[0], tail, input);
      var filled := packets[0] + input[|packets[0]|..];
      var next := Overlay(buffer, decode(packets[0]));
      SideFileReadsBack(packets[1..], rest, filled, next, skip, decode);
    }
  }

  /**
   * With a codec that gives back every frame it encoded, replaying the
   * encoded frames emits each frame without its first `skip` samples.
   */
  lemma {:induction false} PerfectCodecReplay<S>(frames: seq<seq<S>>, buffer: seq<S>, skip: int,
                                                 encode: seq<S> -> seq<byte>, decode: seq<byte> -> seq<S>)
    requires forall k :: 0 <= k < |frames| ==> |frames[k]| == |buffer| && decode(encode(frames[k])) == frames[k]
    ensures Replay(EncodeAll(encode, frames), buffer, skip, decode) == DropEach(frames, skip)
  {
    if frames != [] {
      var packets := EncodeAll(encode, frames);
      assert packets[0] == encode(frames[0]);
      var next := Overlay(buffer, decode(packets[0]));
      assert next == frames[0];
      assert packets[1..] == EncodeAll(encode, frames[1..]);
      PerfectCodecReplay(frames[1..], next, skip, encode, decode);
    }
  }

  // ---------------------------------------------------------------------
  // The decode loop of XenkoToSoundfile over its two buffers
  // ---------------------------------------------------------------------

  lemma PrefixedTwice<S>(a: seq<S>, b: seq<S>, r: Option<seq<S>>)
    ensures Prefixed(a, Prefixed(b, r)) == Prefixed(a + b, r)
  {
    if r.Some? {
      assert a + (b + r.value) == (a + b) + r.value;
    }
  }

  /** The first pass of the decode loop, as the loop takes it. */
  lemma DecodeUnfold<S>(data: seq<byte>, count: nat, input: seq<byte>, buffer: seq<S>, skip: int,
                        decode: seq<byte> -> seq<S>)
    requires count > 0
    ensures var read := ReadPacket(data, input);
      DecodePackets(data, count, input, buffer, skip, decode)
      == if read.None? then None
         else
           var next := Overlay(buffer, decode(read.value.packet));
           Prefixed(Drop(next, skip), DecodePackets(read.value.rest, count - 1, read.value.input, next, skip, decode))
  {
  }

  lemma PrefixedNothing<S>(r: Option<seq<S>>)
    ensures Prefixed([], r) == r
  {
    if r.Some? {
      assert [] + r.value == r.value;
    }
  }

  /** `celt.Decode` writing the samples of one packet over the start of the output buffer. */
  method DecodeInto<S>(output: array<S>, decoded: seq<S>)
    modifies output
    ensures output[..] == Overlay(old(output[..]), decoded)
  {
    ghost var before := output[..];
    var m := if |decoded| < output.Length then |decoded| else output.Length;
    for k := 0 to m
      invariant forall j :: 0 <= j < k ==> output[j] == decoded[j]
      invariant forall j :: k <= j < output.Length ==> output[j] == before[j]
    {
      output[k] := decoded[k];
    }
    OverlayElements(before, decoded);
  }

  /**
   * The packet the loop reads at `pos`: a length `n` that passed the checks,
   * then the `m` bytes of it the file still holds copied over the front of
   * the input buffer, which is what `ReadPacket` returns on the rest of the
   * file.
   */
  lemma PacketAt(data: seq<byte>, pos: nat, n: int, m: nat, before: seq<byte>, after: seq<byte>)
    requires pos <= |data| && ReadInt16(data[pos..]).Some? && ReadInt16(data[pos..]).value.0 == n
    requires 0 <= n <= |before| && m == (if n <= |data| - pos - 2 then n else |data| - pos - 2)
    requires |after| == |before| && after[..m] == data[pos + 2..pos + 2 + m] && after[m..] == before[m..]
    ensures ReadPacket(data[pos..], before) == Some(PacketRead(after[..n], data[pos + 2 + m..], after))
  {
    var rest := data[pos..][2..];
    assert rest == data[pos + 2..];
    assert rest[..m] == data[pos + 2..pos + 2 + m];
    assert rest[m..] == data[pos + 2 + m..];
    assert after == after[..m] + after[m..];
  }

  /**
   * One pass of the loop: read the length, fill the input buffer from what
   * the file still holds, decode the first n bytes of the buffer over the
   * output buffer and emit it past the decoder delay. A missing length, or
   * one the input buffer cannot hold, fails the whole conversion.
   */
  method DecodeStep<S>(input: array<byte>, output: array<S>, data: seq<byte>, pos: nat, skip: int,
                       decode: seq<byte> -> seq<S>) returns (emitted: Option<(seq<S>, nat)>)
    requires input != output && pos <= |data|
    modifies input, output
    ensures var read := ReadPacket(data[pos..], old(input[..]));
      && (emitted.None? <==> read.None?)
      && (emitted.Some? ==>
           && input[..] == read.value.input
           && output[..] == Overlay(old(output[..]), decode(read.value.packet))
           && emitted.value.0 == Drop(output[..], skip)
           && pos + emitted.value.1 <= |data| && data[pos + emitted.value.1..] == read.value.rest)
  {
    var header := ReadInt16(data[pos..]);
    if header.None? {
      return None;
    }
    var n := header.value.0;
    if n < 0 || n > input.Length {
      return None;
    }
    var m := if n <= |data| - pos - 2 then n else |data| - pos - 2;
    ghost var before := input[..];
    ReadBytes(input, data, pos + 2, m);  // dataReader.Serialize(inputSamples, 0, n)
    PacketAt(data, pos, n, m, before, input[..]);
    DecodeInto(output, decode(input[..n]));
    return Some((Drop(output[..], skip), 2 + m));
  }

  /**
   * The loop of `XenkoToSoundfile`: an input buffer of `maxLength` bytes, an
   * output buffer of `frameSize` zero samples, and `count` packets.
   */
  method DecodeLoop<S>(data: seq<byte>, count: nat, maxLength: nat, frameSize: nat, skip: int, zero: S,
                       decode: seq<byte> -> seq<S>) returns (r: Option<seq<S>>)
    ensures r == DecodePackets(data, count, Zeros(maxLength), ZeroFrame(zero, frameSize), skip, decode)
  {
    var input := NewBuffer(maxLength);
    var output := new S[frameSize](_ => zero);
    assert output[..] == ZeroFrame(zero, frameSize);
    var pos: nat := 0;
    var pcm: seq<S> := [];
    assert data[pos..] == data;
    PrefixedNothing(DecodePackets(data, count, input[..], output[..], skip, decode));
    for i := 0 to count
      invariant pos <= |data|
      invariant DecodePackets(data, count, Zeros(maxLength), ZeroFrame(zero, frameSize), skip, decode)
             == Prefixed(pcm, DecodePackets(data[pos..], count - i, input[..], output[..], skip, decode))
    {
      ghost var buffer := output[..];
      ghost var filled := input[..];
      var emitted := DecodeStep(input, output, data, pos, skip, decode);
      DecodeUnfold(data[pos..], count - i, filled, buffer, skip, decode);
      if emitted.None? {
        return None;
      }
      PrefixedTwice(pcm, emitted.value.0, DecodePackets(data[pos + emitted.value.1..], count - i - 1, input[..], output[..], skip, decode));
      pcm := pcm + emitted.value.0;
      pos := pos + emitted.value.1;
    }
    assert pcm + [] == pcm;
    return Some(pcm);
  }

  /**
   * `XenkoToSoundfile` up to the external transcoder: the checks, the
   * header and descriptor reads, the buffers and the decode loop; the PCM
   * it would hand to FFmpeg is in the outcome.
   */
  method XenkoToSoundfile<S>(src: string, file: seq<byte>, dataFile: seq<byte>, ffmpegFound: bool,
                             delay: nat, zero: S, decode: seq<byte> -> seq<S>) returns (r: Outcome<S>)
    ensures r == ConvertBack(src, file, dataFile, ffmpegFound, delay, zero, decode)
  {
    if EndsWith(src, "_Data") {
      return SkippedDataFile;
    }
    if !ffmpegFound {
      return NoFFmpeg;
    }
    var read := ReadHeader(file);
    if read.None? || !Contains(read.value.0.typeName, SoundTypeName) {
      return NotSound;
    }
    var bytes := DescriptorBytes(file, read.value.0);
    if bytes.None? {
      return ReadFailed;
    }
    var descriptor := ReadDescriptor(bytes.value);
    if descriptor.None? {
      return ReadFailed;
    }
    var d := descriptor.value.0;
    if d.maxPacketLength < 0 {
      return ReadFailed;
    }
    var count := if d.numberOfPackets < 0 then 0 else d.numberOfPackets;
    var pcm := DecodeLoop(dataFile, count, d.maxPacketLength, SamplesPerFrame * d.channels, d.channels * delay, zero, decode);
    if pcm.None? {
      return ReadFailed;
    }
    return Decoded(d.sampleRate, d.channels, pcm.value);
  }

  // ---------------------------------------------------------------------
  // Reading back what SoundToXenko writes
  // ---------------------------------------------------------------------

  /**
   * The reads of `XenkoToSoundfile` on a container `SoundToXenko` wrote:
   * the header names the type, and the seek past the discriminator byte
   * lands on the descriptor.
   */
  lemma SoundContainerReadsBack(version: int, typeName: string, refs: Option<seq<byte>>, d: SoundDescriptor)
    requires IsInt32(version) && IsText(typeName)
    requires HeaderLength(typeName) + |RefsRegion(refs)| + 1 < TwoTo31
    ensures var file := SoundContainer(version, typeName, refs, d);
      var read := ReadHeader(file);
      && read.Some? && read.value.0.typeName == typeName
      && DescriptorBytes(file, read.value.0) == Some(EncodeDescriptor(d))
  {
    SoundContainerHeader(version, typeName, refs, d);
    SoundContainerRegions(version, typeName, refs, d);
    assert IsInt32(HeaderLength(typeName) + |RefsRegion(refs)| + 1);
  }

  /** The path of `ConvertBack` that decodes: every read succeeds and the packets decode to `pcm`. */
  lemma ConvertBackDecoded<S>(src: string, file: seq<byte>, dataFile: seq<byte>, delay: nat, zero: S,
                              decode: seq<byte> -> seq<S>, header: ChunkHeader, d: SoundDescriptor, pcm: seq<S>)
    requires !EndsWith(src, "_Data")
    requires ReadHeader(file).Some? && ReadHeader(file).value.0 == header && Contains(header.typeName, SoundTypeName)
    requires DescriptorBytes(file, header) == Some(EncodeDescriptor(d)) && DescriptorWellFormed(d)
    requires d.maxPacketLength >= 0 && d.numberOfPackets >= 0
    requires DecodePackets(dataFile, d.numberOfPackets, Zeros(d.maxPacketLength), ZeroFrame(zero, SamplesPerFrame * d.channels),
                           d.channels * delay, decode) == Some(pcm)
    ensures ConvertBack(src, file, dataFile, true, delay, zero, decode) == Decoded(d.sampleRate, d.channels, pcm)
  {
    DescriptorReadsBack(d);
    DecodeSoundDecoded(d, dataFile, delay, zero, decode, pcm);
    assert ConvertBack(src, file, dataFile, true, delay, zero, decode) == DecodeSound(d, dataFile, delay, zero, decode);
  }

  /** `DecodeSound` on a descriptor whose packets all decode returns their samples. */
  lemma DecodeSoundDecoded<S>(d: SoundDescriptor, dataFile: seq<byte>, delay: nat, zero: S,
                              decode: seq<byte> -> seq<S>, pcm: seq<S>)
    requires d.maxPacketLength >= 0 && d.numberOfPackets >= 0 && d.channels >= 0
    requires DecodePackets(dataFile, d.numberOfPackets, Zeros(d.maxPacketLength), ZeroFrame(zero, SamplesPerFrame * d.channels),
                           d.channels * delay, decode) == Some(pcm)
    ensures DecodeSound(d, dataFile, delay, zero, decode) == Decoded(d.sampleRate, d.channels, pcm)
  {
  }

  /**
   * Converting back a sound `SoundToXenko` wrote for `packets`: the
   * descriptor is read back, every packet is read back in turn, and the
   * decoded samples are those of replaying the packets through the decoder
   * over a zeroed frame buffer, each output past the decoder delay.
   */
  lemma SoundRoundTrip<S>(src: string, version: int, typeName: string, refs: Option<seq<byte>>, assetPath: string,
                          channels: nat, packets: seq<seq<byte>>, samples: int, delay: nat, zero: S,
                          decode: seq<byte> -> seq<S>)
    requires !EndsWith(src, "_Data")
    requires IsInt32(version) && IsText(typeName) && Contains(typeName, SoundTypeName)
    requires HeaderLength(typeName) + |RefsRegion(refs)| + 1 < TwoTo31
    requires IsText(assetPath + "_Data") && 0 < channels < 256
    requires |packets| < TwoTo31 && MaxLength(packets) < TwoTo15 && IsInt32(samples)
    ensures var d := WrittenDescriptor(assetPath, channels, |packets|, MaxLength(packets), samples);
      ConvertBack(src, SoundContainer(version, typeName, refs, d), SideFile(packets), true, delay, zero, decode)
      == Decoded(OutputBitrate, channels, Replay(packets, ZeroFrame(zero, SamplesPerFrame * channels), channels * delay, decode))
  {
    var d := WrittenDescriptor(assetPath, channels, |packets|, MaxLength(packets), samples);
    assert DescriptorWellFormed(d);
    var file := SoundContainer(version, typeName, refs, d);
    SoundContainerReadsBack(version, typeName, refs, d);
    var header := ReadHeader(file).value.0;
    MaxLengthIsMaximum(packets);
    var buffer := ZeroFrame(zero, SamplesPerFrame * channels);
    var dataFile := SideFile(packets);
    SideFileReadsBack(packets, [], Zeros(MaxLength(packets)), buffer, channels * delay, decode);
    assert dataFile + [] == dataFile;
    ConvertBackDecoded(src, file, dataFile, delay, zero, decode, header, d, Replay(packets, buffer, channels * delay, decode));
  }

  /**
   * With a codec that gives back every frame it encoded, converting back a
   * sound `SoundToXenko` wrote for `pcm` yields every frame it encoded, the
   * leading zero frame included, each without its first `channels * delay`
   * samples.
   */
  lemma PerfectCodecRoundTrip<S>(src: string, version: int, typeName: string, refs: Option<seq<byte>>, assetPath: string,
                                 pcm: seq<S>, channels: nat, delay: nat, zero: S,
                                 encode: seq<S> -> seq<byte>, decode: seq<byte> -> seq<S>)
    requires !EndsWith(src, "_Data")
    requires IsInt32(version) && IsText(typeName) && Contains(typeName, SoundTypeName)
    requires HeaderLength(typeName) + |RefsRegion(refs)| + 1 < TwoTo31
    requires IsText(assetPath + "_Data") && 0 < channels < 256
    requires var size := SamplesPerFrame * channels;
      var frames := Frames(pcm, zero, size, PacketCount(|pcm| + channels * delay, size));
      && SamplesPerFrame * |frames| < TwoTo31 && MaxLength(EncodeAll(encode, frames)) < TwoTo15
      && forall k :: 0 <= k < |frames| ==> decode(encode(frames[k])) == frames[k]
    ensures var size := SamplesPerFrame * channels;
      var frames := Frames(pcm, zero, size, PacketCount(|pcm| + channels * delay, size));
      var packets := Packets(pcm, channels, delay, zero, encode);
      var d := WrittenDescriptor(assetPath, channels, |packets|, MaxLength(packets), SamplesPerFrame * |packets|);
      ConvertBack(src, SoundContainer(version, typeName, refs, d), SideFile(packets), true, delay, zero, decode)
      == Decoded(OutputBitrate, channels, DropEach(frames, channels * delay))
  {
    var size := SamplesPerFrame * channels;
    var count := PacketCount(|pcm| + channels * delay, size);
    var frames := Frames(pcm, zero, size, count);
    var packets := EncodeAll(encode, frames);
    forall k | 0 <= k < |frames|
      ensures |frames[k]| == size
    {
      FrameContents(pcm, zero, size, count, k);
    }
    SoundRoundTrip(src, version, typeName, refs, assetPath, channels, packets, SamplesPerFrame * |packets|,
                   delay, zero, decode);
    PerfectCodecReplay(frames, ZeroFrame(zero, size), channels * delay, encode, decode);
  }

  /**
   * Sample `i` of the output of frame `k`: each frame of `size` samples
   * contributes its samples from `skip` on, one frame after the other.
   */
  lemma DropEachAt<S>(frames: seq<seq<S>>, size: nat, skip: nat, k: nat, i: nat)
    requires skip < size && forall j :: 0 <= j < |frames| ==> |frames[j]| == size
    requires k < |frames| && i < size - skip
    ensures Mul(k, size - skip) + i < |DropEach(frames, skip)|
    ensures DropEach(frames, skip)[Mul(k, size - skip) + i] == frames[k][skip + i]
  {
    DropEachSplit(frames, skip, k);
    DropEachLength(frames[..k], size, skip);
    assert frames[k..][0] == frames[k];
    DropFirstAt(frames[k..], size, skip, i);
    AppendAt(DropEach(frames[..k], skip), DropEach(frames[k..], skip), Mul(k, size - skip) + i);
  }

  /** Sample `i` of the output of the first frame. */
  lemma DropFirstAt<S>(frames: seq<seq<S>>, size: nat, skip: nat, i: nat)
    requires 0 < |frames| && |frames[0]| == size && i < size - skip
    ensures i < |DropEach(frames, skip)| && DropEach(frames, skip)[i] == frames[0][skip + i]
  {
    DropElements(frames[0], skip);
    AppendAt(Drop(frames[0], skip), DropEach(frames[1..], skip), i);
  }

  /** The samples of a run of frames are those of its first `k` frames followed by those of the rest. */
  lemma {:induction false} DropEachSplit<S>(frames: seq<seq<S>>, skip: int, k: nat)
    requires k <= |frames|
    ensures DropEach(frames, skip) == DropEach(frames[..k], skip) + DropEach(frames[k..], skip)
  {
    if k == 0 {
      assert frames[..0] == [] && frames[0..] == frames;
    } else {
      DropEachSplit(frames[1..], skip, k - 1);
      assert frames[1..][..k - 1] == frames[..k][1..];
      assert frames[1..][k - 1..] == frames[k..];
      assert frames[..k][0] == frames[0];
    }
  }

  /** Element `j` of `a + b`, on either side of the seam. */
  lemma AppendAt<S>(a: seq<S>, b: seq<S>, j: nat)
    requires j < |a| + |b|
    ensures (a + b)[j] == if j < |a| then a[j] else b[j - |a|]
  {
  }

  /** Every frame of `size` samples contributes `size - skip` of them. */
  lemma {:induction false} DropEachLength<S>(frames: seq<seq<S>>, size: nat, skip: nat)
    requires skip <= size && forall j :: 0 <= j < |frames| ==> |frames[j]| == size
    ensures |DropEach(frames, skip)| == Mul(|frames|, size - skip)
  {
    if frames != [] {
      DropEachLength(frames[1..], size, skip);
    }
  }
}
