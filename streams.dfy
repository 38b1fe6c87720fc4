/**
 * A seekable output file: what `FileStream` and the serialization writer on
 * top of it do to the bytes of the file they write.
 */
module Streams {
  import opened Binary

  function Zeros(n: nat): (r: seq<byte>)
    ensures |r| == n && forall i :: 0 <= i < n ==> r[i] == 0
  {
    if n == 0 then [] else Zeros(n - 1) + [0]
  }

  /** `new byte[n]`: a fresh zero-filled buffer. */
  method NewBuffer(n: nat) returns (a: array<byte>)
    ensures fresh(a) && a[..] == Zeros(n)
  {
    a := new byte[n](_ => 0);
  }

  /** The file contents after writing `bytes` at `pos`; `OverwriteSpec` says what they are. */
  function Overwrite(data: seq<byte>, pos: nat, bytes: seq<byte>): (r: seq<byte>)
    ensures |r| == if pos + |bytes| <= |data| then |data| else pos + |bytes|
  {
    var front := if pos <= |data| then data[..pos] else data + Zeros(pos - |data|);
    var back := if pos + |bytes| < |data| then data[pos + |bytes|..] else [];
    front + bytes + back
  }

  /**
   * Earlier bytes are kept, the bytes at [pos, pos + |bytes|) are replaced
   * (a gap past the old end is zero-filled), and the bytes after them are kept.
   */
  lemma OverwriteSpec(data: seq<byte>, pos: nat, bytes: seq<byte>)
    ensures var r := Overwrite(data, pos, bytes);
      && (forall i :: 0 <= i < pos && i < |data| ==> r[i] == data[i])
      && (forall i :: |data| <= i < pos ==> r[i] == 0)
      && r[pos..pos + |bytes|] == bytes
      && (forall i :: pos + |bytes| <= i < |data| ==> r[i] == data[i])
  {
    var front := if pos <= |data| then data[..pos] else data + Zeros(pos - |data|);
    var back := if pos + |bytes| < |data| then data[pos + |bytes|..] else [];
    assert (front + bytes + back)[pos..pos + |bytes|] == bytes;
  }

  /** Writing at the end of the file appends. */
  lemma OverwriteAtEnd(data: seq<byte>, bytes: seq<byte>)
    ensures Overwrite(data, |data|, bytes) == data + bytes
  {
    assert data[..|data|] == data;
  }

  /** Rewriting a prefix with as many bytes replaces exactly that prefix. */
  lemma OverwritePrefix(old_: seq<byte>, rest: seq<byte>, new_: seq<byte>)
    requires |new_| == |old_|
    ensures Overwrite(old_ + rest, 0, new_) == new_ + rest
  {
    var data := old_ + rest;
    if |new_| < |data| {
      assert data[|new_|..] == rest;
    }
  }

  /**
   * `Stream.Read(buffer, 0, n)` from position `from` of a file that still
   * holds at least `n` bytes there: the first `n` bytes of the buffer become
   * the file's, the rest of the buffer is kept.
   */
  method ReadBytes(buffer: array<byte>, data: seq<byte>, from: nat, n: nat)
    requires n <= buffer.Length && from + n <= |data|
    modifies buffer
    ensures buffer[..n] == data[from..from + n]
    ensures buffer[n..] == old(buffer[n..])
  {
    for k := 0 to n
      invariant forall j :: 0 <= j < k ==> buffer[j] == data[from + j]
      invariant forall j :: k <= j < buffer.Length ==> buffer[j] == old(buffer[j])
    {
      buffer[k] := data[from + k];
    }
  }

  class OutputStream {
    var data: seq<byte>
    var position: nat

    /** A newly created (or emptied) file, positioned at its start. */
    constructor ()
      ensures data == [] && position == 0
    {
      data := [];
      position := 0;
    }

    method Write(bytes: seq<byte>)
      modifies this
      ensures data == Overwrite(old(data), old(position), bytes)
      ensures old(position) == |old(data)| ==> data == old(data) + bytes
      ensures position == old(position) + |bytes|
    {
      OverwriteAtEnd(data, bytes);
      data := Overwrite(data, position, bytes);
      position := position + |bytes|;
    }

    /** Setting `Position` (or `Seek` from the beginning). */
    method Seek(pos: nat)
      modifies this
      ensures position == pos && data == old(data)
    {
      position := pos;
    }

    /**
     * `SetLength`: truncates, or extends with zero bytes; a position past the
     * new end moves to the new end, any other position is kept.
     */
    method SetLength(n: nat)
      modifies this
      ensures data == if n <= |old(data)| then old(data)[..n] else old(data) + Zeros(n - |old(data)|)
      ensures position == if old(position) > n then n else old(position)
    {
      if n <= |data| {
        data := data[..n];
      } else {
        data := data + Zeros(n - |data|);
      }
      if position > n {
        position := n;
      }
    }
  }
}
