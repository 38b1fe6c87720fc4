/**
 * Little-endian binary encodings used by the container files: the integers,
 * bytes, booleans and strings that the serialization writer emits and the
 * serialization reader consumes.
 *
 * Encoders take any integer and keep only its low bits, which is what the
 * C# casts `(int)`, `(short)` and `(byte)` do before a value is written.
 * Decoders consume a prefix of a byte sequence and return the value together
 * with the bytes that follow it, or None when the input is too short or
 * malformed.
 */
module Binary {

  type byte = b: int | 0 <= b < 256

  datatype Option<T> = None | Some(value: T)

  const TwoTo8: int := 0x100
  const TwoTo15: int := 0x8000
  const TwoTo16: int := 0x1_0000
  const TwoTo31: int := 0x8000_0000
  const TwoTo32: int := 0x1_0000_0000
  const TwoTo63: int := 0x8000_0000_0000_0000
  const TwoTo64: int := 0x1_0000_0000_0000_0000

  predicate IsInt32(x: int) { -TwoTo31 <= x < TwoTo31 }

  predicate IsInt16(x: int) { -TwoTo15 <= x < TwoTo15 }

  predicate IsInt64(x: int) { -TwoTo63 <= x < TwoTo63 }

  /**
   * `a * b` on naturals as repeated addition. Size and offset functions use
   * it so that the solver sees them as linear; `MulIsProduct` connects it
   * with `*` where a proof needs the product.
   */
  function Mul(a: nat, b: nat): nat
  {
    if a == 0 then 0 else Mul(a - 1, b) + b
  }

  lemma {:induction false} MulIsProduct(a: nat, b: nat)
    ensures Mul(a, b) == a * b
  {
    if a > 0 {
      MulIsProduct(a - 1, b);
    }
  }

  lemma {:induction false} MulSub(a: nat, b: nat, f: nat)
    requires a >= b
    ensures Mul(a, f) == Mul(a - b, f) + Mul(b, f)
  {
    if b > 0 {
      MulSub(a - 1, b - 1, f);
    }
  }

  /** The quotient and remainder of a natural, in terms of `Mul`. */
  lemma DivModBasics(x: nat, f: nat)
    requires f > 0
    ensures x == Mul(x / f, f) + x % f && x % f < f
  {
    MulIsProduct(x / f, f);
  }

  /** Dividing `q * f + r` (with `r < f`) by `f` gives quotient `q` and remainder `r`. */
  lemma MulDivMod(q: nat, f: nat, r: nat)
    requires r < f
    ensures (Mul(q, f) + r) % f == r && (Mul(q, f) + r) / f == q
  {
    var x := Mul(q, f) + r;
    DivModBasics(x, f);
    var q2 := x / f;
    if q2 > q {
      MulSub(q2, q, f);
    } else if q2 < q {
      MulSub(q, q2, f);
    }
  }

  lemma ExactDiv(k: nat, f: nat)
    requires f > 0
    ensures (k * f) / f == k
  {
    MulIsProduct(k, f);
    MulDivMod(k, f, 0);
  }

  /** The value of C#'s unchecked `(int)x`: the low 32 bits read as two's complement. */
  function Wrap32(x: int): (r: int)
    ensures IsInt32(r)
    ensures (r - x) % TwoTo32 == 0
    ensures IsInt32(x) ==> r == x
    ensures x >= 0 ==> r <= x
  {
    var u := x % TwoTo32;
    if u < TwoTo31 then u else u - TwoTo32
  }

  /** The value of C#'s unchecked `(short)x`. */
  function Wrap16(x: int): (r: int)
    ensures IsInt16(r)
    ensures (r - x) % TwoTo16 == 0
    ensures IsInt16(x) ==> r == x
  {
    var u := x % TwoTo16;
    if u < TwoTo15 then u else u - TwoTo16
  }

  /** The four bytes `BinaryWriter.Write(int)` emits for `(int)x`, least significant first. */
  function Int32Bytes(x: int): (r: seq<byte>)
    ensures |r| == 4
  {
    var u := x % TwoTo32;
    [u % 256, (u / 0x100) % 256, (u / 0x1_0000) % 256, u / 0x100_0000]
  }

  /** The eight bytes written for a `long`: the low word, then the high word. */
  function Int64Bytes(x: int): (r: seq<byte>)
    ensures |r| == 8
  {
    Int32Bytes(x % TwoTo32) + Int32Bytes((x % TwoTo64) / TwoTo32)
  }

  /** The two bytes written for `(short)x`, least significant first. */
  function Int16Bytes(x: int): (r: seq<byte>)
    ensures |r| == 2
  {
    var u := x % TwoTo16;
    [u % 256, u / 0x100]
  }

  /** The single byte written for `(byte)x`. */
  function ByteBytes(x: int): (r: seq<byte>)
    ensures |r| == 1
  {
    [x % 256]
  }

  /** A boolean is written as one byte, 1 for true and 0 for false. */
  function BoolBytes(b: bool): (r: seq<byte>)
    ensures |r| == 1
  {
    [if b then 1 else 0]
  }

  /** A character occupies one byte; only text of such characters round-trips. */
  predicate IsText(s: string)
  {
    |s| < TwoTo31 && forall i :: 0 <= i < |s| ==> s[i] as int < 256
  }

  function CharBytes(s: string): (r: seq<byte>)
    ensures |r| == |s|
    ensures forall i :: 0 <= i < |s| ==> r[i] == (s[i] as int) % 256
  {
    seq(|s|, i requires 0 <= i < |s| => (s[i] as int) % 256)
  }

  function BytesChars(b: seq<byte>): (r: string)
    ensures |r| == |b|
    ensures forall i :: 0 <= i < |b| ==> r[i] as int == b[i]
  {
    seq(|b|, i requires 0 <= i < |b| => b[i] as char)
  }

  /** A string is its length as a 4-byte integer followed by one byte per character. */
  function StringBytes(s: string): (r: seq<byte>)
    ensures |r| == 4 + |s|
  {
    Int32Bytes(|s|) + CharBytes(s)
  }

  function ReadInt32(s: seq<byte>): (r: Option<(int, seq<byte>)>)
    ensures r.Some? <==> |s| >= 4
    ensures r.Some? ==> IsInt32(r.value.0) && r.value.1 == s[4..]
  {
    if |s| < 4 then None
    else
      var u := s[0] as int + 0x100 * s[1] as int + 0x1_0000 * s[2] as int + 0x100_0000 * s[3] as int;
      Some((if u < TwoTo31 then u else u - TwoTo32, s[4..]))
  }

  function ReadInt64(s: seq<byte>): (r: Option<(int, seq<byte>)>)
    ensures r.Some? <==> |s| >= 8
    ensures r.Some? ==> IsInt64(r.value.0) && r.value.1 == s[8..]
  {
    match ReadInt32(s)
    case None => None
    case Some((lo, s1)) =>
      match ReadInt32(s1)
      case None => None
      case Some((hi, s2)) =>
        Some((hi * TwoTo32 + lo % TwoTo32, s2))
  }

  function ReadInt16(s: seq<byte>): (r: Option<(int, seq<byte>)>)
    ensures r.Some? <==> |s| >= 2
    ensures r.Some? ==> IsInt16(r.value.0) && r.value.1 == s[2..]
  {
    if |s| < 2 then None
    else
      var u := s[0] as int + 0x100 * s[1] as int;
      Some((if u < TwoTo15 then u else u - TwoTo16, s[2..]))
  }

  function ReadByte(s: seq<byte>): (r: Option<(int, seq<byte>)>)
    ensures r.Some? <==> |s| >= 1
    ensures r.Some? ==> r.value == (s[0], s[1..])
  {
    if |s| < 1 then None else Some((s[0] as int, s[1..]))
  }

  /** `ReadBoolean` reads one byte and yields true for any non-zero byte. */
  function ReadBool(s: seq<byte>): (r: Option<(bool, seq<byte>)>)
    ensures r.Some? <==> |s| >= 1
    ensures r.Some? ==> r.value == (s[0] != 0, s[1..])
  {
    if |s| < 1 then None else Some((s[0] != 0, s[1..]))
  }

  /** A string read fails on a negative length and on a length beyond the input. */
  function ReadString(s: seq<byte>): (r: Option<(string, seq<byte>)>)
    ensures r.Some? ==> |r.value.1| == |s| - 4 - |r.value.0| && IsText(r.value.0)
  {
    match ReadInt32(s)
    case None => None
    case Some((n, rest)) =>
      if n < 0 || n > |rest| then None
      else Some((BytesChars(rest[..n]), rest[n..]))
  }

  /** Dividing by 0x100 and then by 0x100 again is dividing by 0x1_0000. */
  lemma DivDiv256(v: nat)
    ensures (v / 0x100) / 0x100 == v / 0x1_0000
  {
    var q := v / 0x1_0000;
    var r := v % 0x1_0000;
    assert v == 0x100 * (0x100 * q + r / 0x100) + r % 0x100;
  }

  /** A 32-bit unsigned value is the sum of its four bytes at their weights. */
  lemma ByteDecompose(u: nat)
    requires u < TwoTo32
    ensures u % 256 + 0x100 * ((u / 0x100) % 256) + 0x1_0000 * ((u / 0x1_0000) % 256) + 0x100_0000 * (u / 0x100_0000) == u
  {
    var a := u / 0x100;
    var b := a / 0x100;
    var c := b / 0x100;
    DivDiv256(u);
    DivDiv256(a);
    DivDiv256(u / 0x1_0000);
    assert u == u % 256 + 0x100 * a;
    assert a == a % 256 + 0x100 * b;
    assert b == b % 256 + 0x100 * c;
  }

  lemma Int32RoundTrip(x: int, rest: seq<byte>)
    ensures ReadInt32(Int32Bytes(x) + rest) == Some((Wrap32(x), rest))
  {
    var s := Int32Bytes(x) + rest;
    var u := x % TwoTo32;
    ByteDecompose(u);
    assert s[0] as int + 0x100 * s[1] as int + 0x1_0000 * s[2] as int + 0x100_0000 * s[3] as int == u;
    assert s[4..] == rest;
  }

  lemma Int64Split(x: int) returns (hi: int, lo: int)
    requires IsInt64(x)
    ensures lo == x % TwoTo32 && hi == (x % TwoTo64) / TwoTo32
    ensures Wrap32(hi) * TwoTo32 + Wrap32(lo) % TwoTo32 == x
  {
    var u := if x >= 0 then x else x + TwoTo64;
    assert u == x % TwoTo64;
    hi := u / TwoTo32;
    lo := u % TwoTo32;
    assert u == hi * TwoTo32 + lo;
    assert lo == x % TwoTo32;
  }

  lemma Int64RoundTrip(x: int, rest: seq<byte>)
    requires IsInt64(x)
    ensures ReadInt64(Int64Bytes(x) + rest) == Some((x, rest))
  {
    var hi, lo := Int64Split(x);
    assert Int64Bytes(x) + rest == Int32Bytes(lo) + (Int32Bytes(hi) + rest);
    Int32RoundTrip(lo, Int32Bytes(hi) + rest);
    Int32RoundTrip(hi, rest);
  }

  lemma Int16RoundTrip(x: int, rest: seq<byte>)
    ensures ReadInt16(Int16Bytes(x) + rest) == Some((Wrap16(x), rest))
  {
    var s := Int16Bytes(x) + rest;
    assert s[0] as int + 0x100 * s[1] as int == x % TwoTo16;
    assert s[2..] == rest;
  }

  /** A non-negative 16-bit value read back is written as the same two bytes. */
  lemma Int16ReadBack(s: seq<byte>)
    requires ReadInt16(s).Some? && ReadInt16(s).value.0 >= 0
    ensures Int16Bytes(ReadInt16(s).value.0) == s[..2]
  {
    var u := s[0] as int + 0x100 * s[1] as int;
    assert ReadInt16(s).value.0 == u;
    assert u % TwoTo16 == u;
    assert u % 256 == s[0] as int;
    assert u / 0x100 == s[1] as int;
  }

  lemma ByteRoundTrip(x: int, rest: seq<byte>)
    ensures ReadByte(ByteBytes(x) + rest) == Some((x % 256, rest))
  {
    assert (ByteBytes(x) + rest)[1..] == rest;
  }

  lemma BoolRoundTrip(b: bool, rest: seq<byte>)
    ensures ReadBool(BoolBytes(b) + rest) == Some((b, rest))
  {
    assert (BoolBytes(b) + rest)[1..] == rest;
  }

  lemma CharsRoundTrip(s: string)
    requires forall i :: 0 <= i < |s| ==> s[i] as int < 256
    ensures BytesChars(CharBytes(s)) == s
  {
    var r := BytesChars(CharBytes(s));
    forall i | 0 <= i < |s|
      ensures r[i] == s[i]
    {
      assert r[i] as int == (s[i] as int) % 256;
    }
  }

  lemma StringRoundTrip(s: string, rest: seq<byte>)
    requires IsText(s)
    ensures ReadString(StringBytes(s) + rest) == Some((s, rest))
  {
    var b := StringBytes(s) + rest;
    assert b == Int32Bytes(|s|) + (CharBytes(s) + rest);
    Int32RoundTrip(|s|, CharBytes(s) + rest);
    var tail := CharBytes(s) + rest;
    assert tail[..|s|] == CharBytes(s);
    assert tail[|s|..] == rest;
    CharsRoundTrip(s);
  }
}
