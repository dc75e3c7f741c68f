/**
 * Fixed-width integer fields, as read by `struct.unpack` with the standard
 * size format characters `<B <H <L <Q <b <h <l <q` and their `>` twins.
 */
module IntCodec {
  import opened Results

  /** One octet of a superblock image. */
  type Byte = x: int | 0 <= x < 256

  function Pow256(n: nat): (p: nat)
    ensures p >= 1
  {
    if n == 0 then 1 else 256 * Pow256(n - 1)
  }

  /** Half of `Pow256(n)`: the bound of the signed range of an `n`-byte field. */
  function Half(n: nat): int
    requires n >= 1
  {
    128 * Pow256(n - 1)
  }

  /** 2^k, the factor of Python's unbounded `x << k`. */
  function Pow2(k: nat): (p: nat)
    ensures p >= 1
  {
    if k == 0 then 1 else 2 * Pow2(k - 1)
  }

  function Reverse<T>(s: seq<T>): (r: seq<T>)
    ensures |r| == |s|
    ensures forall i :: 0 <= i < |s| ==> r[i] == s[|s| - 1 - i]
  {
    if s == [] then [] else Reverse(s[1..]) + [s[0]]
  }

  /** Unsigned value of `b` with byte `i` weighing 256^i (least significant first). */
  function LeValue(b: seq<Byte>): (v: nat)
    ensures v < Pow256(|b|)
  {
    if b == [] then 0 else b[0] + 256 * LeValue(b[1..])
  }

  /** Unsigned value of `b` with the last byte least significant. */
  function BeValue(b: seq<Byte>): (v: nat)
    ensures v < Pow256(|b|)
  {
    if b == [] then 0 else 256 * BeValue(b[..|b| - 1]) + b[|b| - 1]
  }

  /** The `n` bytes of `v` modulo 256^n, least significant first. */
  function LeBytes(v: nat, n: nat): (b: seq<Byte>)
    ensures |b| == n
  {
    if n == 0 then [] else [v % 256] + LeBytes(v / 256, n - 1)
  }

  /** The `n` bytes of `v` modulo 256^n, most significant first. */
  function BeBytes(v: nat, n: nat): (b: seq<Byte>)
    ensures |b| == n
  {
    if n == 0 then [] else BeBytes(v / 256, n - 1) + [v % 256]
  }

  lemma {:induction false} LeValueOfLeBytes(v: nat, n: nat)
    requires v < Pow256(n)
    ensures LeValue(LeBytes(v, n)) == v
  {
    if n > 0 {
      LeValueOfLeBytes(v / 256, n - 1);
      assert LeBytes(v, n)[1..] == LeBytes(v / 256, n - 1);
    }
  }

  lemma {:induction false} LeBytesOfLeValue(b: seq<Byte>)
    ensures LeBytes(LeValue(b), |b|) == b
  {
    if b != [] {
      var v := LeValue(b);
      assert v % 256 == b[0] && v / 256 == LeValue(b[1..]);
      LeBytesOfLeValue(b[1..]);
    }
  }

  lemma {:induction false} BeValueOfBeBytes(v: nat, n: nat)
    requires v < Pow256(n)
    ensures BeValue(BeBytes(v, n)) == v
  {
    if n > 0 {
      var b := BeBytes(v, n);
      BeValueOfBeBytes(v / 256, n - 1);
      assert b[..n - 1] == BeBytes(v / 256, n - 1);
    }
  }

  lemma {:induction false} BeBytesOfBeValue(b: seq<Byte>)
    ensures BeBytes(BeValue(b), |b|) == b
  {
    if b != [] {
      var v := BeValue(b);
      var init := b[..|b| - 1];
      assert v % 256 == b[|b| - 1] && v / 256 == BeValue(init);
      BeBytesOfBeValue(init);
      assert init + [b[|b| - 1]] == b;
    }
  }

  /** Reading big-endian is reading little-endian after reversing the bytes. */
  lemma {:induction false} BeValueIsLeValueOfReverse(b: seq<Byte>)
    ensures BeValue(b) == LeValue(Reverse(b))
  {
    if b != [] {
      var init, last := b[..|b| - 1], b[|b| - 1];
      BeValueIsLeValueOfReverse(init);
      var r := Reverse(b);
      assert r == [last] + Reverse(init);
      assert r[1..] == Reverse(init);
    }
  }

  datatype Endian = Little | Big

  datatype Width = W8 | W16 | W32 | W64 {
    /** Standard size in bytes of the format character. */
    function Size(): nat {
      match this
      case W8 => 1
      case W16 => 2
      case W32 => 4
      case W64 => 8
    }
  }

  /** A one-field `struct` format: byte order, signedness and width. */
  datatype Format = Format(endian: Endian, signed: bool, width: Width)

  /** The values a field of format `f` can hold. */
  predicate InRange(f: Format, v: int) {
    var n := f.width.Size();
    if f.signed then -Half(n) <= v < Half(n) else 0 <= v < Pow256(n)
  }

  /** Two's-complement reading of an unsigned `n`-byte value. */
  function ToSigned(u: nat, n: nat): int
    requires n >= 1
  {
    if u < Half(n) then u else u - Pow256(n)
  }

  function FromSigned(v: int, n: nat): nat
    requires n >= 1 && -Half(n) <= v < Half(n)
  {
    if v < 0 then v + Pow256(n) else v
  }

  function Unsigned(e: Endian, b: seq<Byte>): nat {
    if e == Little then LeValue(b) else BeValue(b)
  }

  /**
   * `struct.unpack(fmt, b)[0]`: raises unless `b` holds exactly the width of
   * the format, and then gives the unsigned or two's-complement value.
   */
  function Unpack(f: Format, b: seq<Byte>): (r: Result<int>)
    ensures r.Ok? <==> |b| == f.width.Size()
    ensures r.Ok? ==> InRange(f, r.value)
  {
    var n := f.width.Size();
    if |b| != n then Error
    else
      var u := Unsigned(f.endian, b);
      Ok(if f.signed then ToSigned(u, n) else u)
  }

  /** `struct.pack(fmt, v)`: the inverse of `Unpack` on the values of the format. */
  function Pack(f: Format, v: int): (b: seq<Byte>)
    requires InRange(f, v)
    ensures |b| == f.width.Size()
  {
    var n := f.width.Size();
    var u := if f.signed then FromSigned(v, n) else v;
    if f.endian == Little then LeBytes(u, n) else BeBytes(u, n)
  }

  /** Encoding a value and decoding it gives the value back. */
  lemma UnpackPack(f: Format, v: int)
    requires InRange(f, v)
    ensures Unpack(f, Pack(f, v)) == Ok(v)
  {
    var n := f.width.Size();
    var u := if f.signed then FromSigned(v, n) else v;
    if f.endian == Little {
      LeValueOfLeBytes(u, n);
    } else {
      BeValueOfBeBytes(u, n);
    }
  }

  /** Decoding a full-width field and encoding the value gives the bytes back. */
  lemma PackUnpack(f: Format, b: seq<Byte>)
    requires |b| == f.width.Size()
    ensures Unpack(f, b).Ok? && Pack(f, Unpack(f, b).value) == b
  {
    if f.endian == Little {
      LeBytesOfLeValue(b);
    } else {
      BeBytesOfBeValue(b);
    }
  }

  /** A big-endian reader on `b` agrees with the little-endian reader on `Reverse(b)`. */
  lemma BigIsLittleReversed(signed: bool, w: Width, b: seq<Byte>)
    ensures Unpack(Format(Big, signed, w), b) == Unpack(Format(Little, signed, w), Reverse(b))
  {
    BeValueIsLeValueOfReverse(b);
  }

  // The sixteen readers of the source, one per format character.

  function LeUint8(b: seq<Byte>): (r: Result<int>)
    ensures r.Ok? <==> |b| == 1
    ensures r.Ok? ==> r.value == b[0]
  {
    Unpack(Format(Little, false, W8), b)
  }

  function LeUint16(b: seq<Byte>): (r: Result<int>)
    ensures r.Ok? <==> |b| == 2
    ensures r.Ok? ==> r.value == LeValue(b) && 0 <= r.value < 0x1_0000
  {
    Unpack(Format(Little, false, W16), b)
  }

  function LeUint32(b: seq<Byte>): (r: Result<int>)
    ensures r.Ok? <==> |b| == 4
    ensures r.Ok? ==> r.value == LeValue(b) && 0 <= r.value < 0x1_0000_0000
  {
    Unpack(Format(Little, false, W32), b)
  }

  function LeUint64(b: seq<Byte>): (r: Result<int>)
    ensures r.Ok? <==> |b| == 8
    ensures r.Ok? ==> r.value == LeValue(b) && 0 <= r.value < 0x1_0000_0000_0000_0000
  {
    Unpack(Format(Little, false, W64), b)
  }

  function LeSint8(b: seq<Byte>): (r: Result<int>)
    ensures r.Ok? <==> |b| == 1
    ensures r.Ok? ==> r.value == (if b[0] < 0x80 then b[0] as int else b[0] as int - 0x100)
  {
    Unpack(Format(Little, true, W8), b)
  }

  function LeSint16(b: seq<Byte>): (r: Result<int>)
    ensures r.Ok? <==> |b| == 2
    ensures r.Ok? ==> -0x8000 <= r.value < 0x8000 && r.value % 0x1_0000 == LeValue(b)
  {
    Unpack(Format(Little, true, W16), b)
  }

  function LeSint32(b: seq<Byte>): (r: Result<int>)
    ensures r.Ok? <==> |b| == 4
    ensures r.Ok? ==> -0x8000_0000 <= r.value < 0x8000_0000 && r.value % 0x1_0000_0000 == LeValue(b)
  {
    Unpack(Format(Little, true, W32), b)
  }

  function LeSint64(b: seq<Byte>): (r: Result<int>)
    ensures r.Ok? <==> |b| == 8
    ensures r.Ok? ==> -0x8000_0000_0000_0000 <= r.value < 0x8000_0000_0000_0000
    ensures r.Ok? ==> r.value % 0x1_0000_0000_0000_0000 == LeValue(b)
  {
    Unpack(Format(Little, true, W64), b)
  }

  function BeUint8(b: seq<Byte>): (r: Result<int>)
    ensures r.Ok? <==> |b| == 1
    ensures r.Ok? ==> r.value == b[0]
  {
    Unpack(Format(Big, false, W8), b)
  }

  function BeUint16(b: seq<Byte>): (r: Result<int>)
    ensures r.Ok? <==> |b| == 2
    ensures r.Ok? ==> r.value == BeValue(b) && 0 <= r.value < 0x1_0000
  {
    Unpack(Format(Big, false, W16), b)
  }

  function BeUint32(b: seq<Byte>): (r: Result<int>)
    ensures r.Ok? <==> |b| == 4
    ensures r.Ok? ==> r.value == BeValue(b) && 0 <= r.value < 0x1_0000_0000
  {
    Unpack(Format(Big, false, W32), b)
  }

  function BeUint64(b: seq<Byte>): (r: Result<int>)
    ensures r.Ok? <==> |b| == 8
    ensures r.Ok? ==> r.value == BeValue(b) && 0 <= r.value < 0x1_0000_0000_0000_0000
  {
    Unpack(Format(Big, false, W64), b)
  }

  function BeSint8(b: seq<Byte>): (r: Result<int>)
    ensures r.Ok? <==> |b| == 1
    ensures r.Ok? ==> r.value == (if b[0] < 0x80 then b[0] as int else b[0] as int - 0x100)
  {
    Unpack(Format(Big, true, W8), b)
  }

  function BeSint16(b: seq<Byte>): (r: Result<int>)
    ensures r.Ok? <==> |b| == 2
    ensures r.Ok? ==> -0x8000 <= r.value < 0x8000 && r.value % 0x1_0000 == BeValue(b)
  {
    Unpack(Format(Big, true, W16), b)
  }

  function BeSint32(b: seq<Byte>): (r: Result<int>)
    ensures r.Ok? <==> |b| == 4
    ensures r.Ok? ==> -0x8000_0000 <= r.value < 0x8000_0000 && r.value % 0x1_0000_0000 == BeValue(b)
  {
    Unpack(Format(Big, true, W32), b)
  }

  function BeSint64(b: seq<Byte>): (r: Result<int>)
    ensures r.Ok? <==> |b| == 8
    ensures r.Ok? ==> -0x8000_0000_0000_0000 <= r.value < 0x8000_0000_0000_0000
    ensures r.Ok? ==> r.value % 0x1_0000_0000_0000_0000 == BeValue(b)
  {
    Unpack(Format(Big, true, W64), b)
  }
}
