/**
 * Text fields of a superblock: NUL-terminated labels (`conv_string`) and
 * UUIDs rendered as hexadecimal in the 8-4-4-4-12 grouping of section 3 of
 * RFC 4122 (`conv_uuid`).
 */
module TextCodec {
  import opened Results
  import opened IntCodec

  function Min(a: nat, b: nat): nat {
    if a <= b then a else b
  }

  /** Python's `s[lo:hi]` for `0 <= lo <= hi`: both ends clamp at the length. */
  function Slice<T>(s: seq<T>, lo: nat, hi: nat): (r: seq<T>)
    requires lo <= hi
    ensures |r| == Min(hi, |s|) - Min(lo, |s|)
    ensures hi <= |s| ==> r == s[lo..hi]
  {
    s[Min(lo, |s|)..Min(hi, |s|)]
  }

  // ---- conv_string ----

  /**
   * `s.split(b'\0', 1)[0]`: the bytes before the first NUL, or all of `s`
   * when it holds none. Never fails, whatever the length of `s`.
   */
  function CString(s: seq<Byte>): (r: seq<Byte>)
    ensures r <= s
    ensures 0 !in r
    ensures |r| < |s| ==> s[|r|] == 0
  {
    if s == [] || s[0] == 0 then [] else [s[0]] + CString(s[1..])
  }

  /** The three properties of `CString` single out its result. */
  lemma CStringUnique(s: seq<Byte>, p: seq<Byte>)
    requires p <= s && 0 !in p
    requires |p| < |s| ==> s[|p|] == 0
    ensures p == CString(s)
  {
  }

  /** A label with no NUL byte comes back whole. */
  lemma CStringNoNul(s: seq<Byte>)
    requires 0 !in s
    ensures CString(s) == s
  {
    CStringUnique(s, s);
  }

  /** A label starting with NUL (in particular an all-NUL field) is empty. */
  lemma CStringLeadingNul(s: seq<Byte>)
    requires |s| > 0 && s[0] == 0
    ensures CString(s) == []
  {
  }

  // ---- hexlify ----

  /** One of the sixteen lowercase hexadecimal digits `0`-`9`, `a`-`f`. */
  predicate IsHexDigit(c: char) {
    '0' <= c <= '9' || 'a' <= c <= 'f'
  }

  /** The lowercase digit of a nibble. */
  function HexDigit(d: int): (c: char)
    requires 0 <= d < 16
    ensures IsHexDigit(c)
  {
    if d < 10 then ('0' as int + d) as char else ('a' as int + (d - 10)) as char
  }

  /** The value of a lowercase hex digit, `None` for any other character. */
  function HexValue(c: char): (r: Option<int>)
    ensures r.Some? <==> IsHexDigit(c)
    ensures r.Some? ==> 0 <= r.value < 16 && HexDigit(r.value) == c
  {
    if '0' <= c <= '9' then Some(c as int - '0' as int)
    else if 'a' <= c <= 'f' then Some(c as int - 'a' as int + 10)
    else None
  }

  lemma HexValueOfDigit(d: int)
    requires 0 <= d < 16
    ensures HexValue(HexDigit(d)) == Some(d)
  {
  }

  /** `binascii.hexlify`: two lowercase hex digits per byte, high nibble first. */
  function Hexlify(b: seq<Byte>): (h: string)
    ensures |h| == 2 * |b|
  {
    if b == [] then "" else [HexDigit(b[0] / 16), HexDigit(b[0] % 16)] + Hexlify(b[1..])
  }

  /** `binascii.unhexlify` restricted to lowercase digits: the partner of `Hexlify`. */
  function Unhexlify(h: string): Option<seq<Byte>>
    decreases |h|
  {
    if |h| < 2 then (if h == [] then Some([]) else None)
    else
      var hi, lo, rest := HexValue(h[0]), HexValue(h[1]), Unhexlify(h[2..]);
      if hi.None? || lo.None? || rest.None? then None
      else Some([16 * hi.value + lo.value] + rest.value)
  }

  lemma UnhexlifyPair(x: Byte, t: string)
    requires Unhexlify(t).Some?
    ensures Unhexlify([HexDigit(x / 16), HexDigit(x % 16)] + t) == Some([x] + Unhexlify(t).value)
  {
    var h := [HexDigit(x / 16), HexDigit(x % 16)] + t;
    assert h[0] == HexDigit(x / 16) && h[1] == HexDigit(x % 16) && h[2..] == t;
    HexValueOfDigit(x / 16);
    HexValueOfDigit(x % 16);
    var hi, lo := HexValue(h[0]), HexValue(h[1]);
    assert 16 * hi.value + lo.value == x;
    assert Unhexlify(h) == Some([16 * hi.value + lo.value] + Unhexlify(h[2..]).value);
  }

  lemma {:induction false} UnhexlifyHexlify(b: seq<Byte>)
    ensures Unhexlify(Hexlify(b)) == Some(b)
  {
    if b != [] {
      assert Hexlify(b) == [HexDigit(b[0] / 16), HexDigit(b[0] % 16)] + Hexlify(b[1..]);
      UnhexlifyHexlify(b[1..]);
      UnhexlifyPair(b[0], Hexlify(b[1..]));
      assert [b[0]] + b[1..] == b;
    }
  }

  /** Hex digit `j` of `Hexlify(b)` renders a nibble of byte `j / 2`: the high one at even `j`. */
  lemma {:induction false} HexlifyAt(b: seq<Byte>, j: nat)
    requires j < 2 * |b|
    ensures Hexlify(b)[j] == HexDigit(if j % 2 == 0 then b[j / 2] / 16 else b[j / 2] % 16)
  {
    if j >= 2 {
      HexlifyAt(b[1..], j - 2);
      assert Hexlify(b)[j] == Hexlify(b[1..])[j - 2];
      assert b[1..][(j - 2) / 2] == b[j / 2];
    }
  }

  // ---- conv_uuid ----

  /**
   * `'-'.join([h[:8], h[8:12], h[12:16], h[16:20], h[20:]])` with
   * `h = hexlify(b)`. Slices clamp, so a short input gives short or empty
   * groups but always four hyphens; a long input puts every extra digit in
   * the last group.
   */
  function UuidText(b: seq<Byte>): (u: string)
    ensures |u| == 2 * |b| + 4
  {
    var h := Hexlify(b);
    Slice(h, 0, 8) + "-" + Slice(h, 8, 12) + "-" + Slice(h, 12, 16) + "-"
      + Slice(h, 16, 20) + "-" + h[Min(20, |h|)..]
  }

  /**
   * `u` holds `n` digits and four hyphens, the hyphens sitting after the
   * first 8, 12, 16 and 20 digits, or after all of them when there are fewer.
   */
  predicate ClampedHyphens(u: string, n: nat) {
    && |u| == n + 4
    && u[Min(8, n)] == '-' && u[Min(12, n) + 1] == '-'
    && u[Min(16, n) + 2] == '-' && u[Min(20, n) + 3] == '-'
  }

  /**
   * Where the four hyphens go for input of any length: after the groups of
   * `hexlify` clamped to 8, 4, 4 and 4 digits, so that a short input gives
   * short or empty groups and never moves a hyphen ahead of its digits.
   */
  lemma UuidHyphensAt(b: seq<Byte>)
    ensures ClampedHyphens(UuidText(b), 2 * |b|)
  {
    var h := Hexlify(b);
    var n := |h|;
    var g0, g1, g2, g3, g4 := Slice(h, 0, 8), Slice(h, 8, 12), Slice(h, 12, 16), Slice(h, 16, 20), h[Min(20, n)..];
    assert |g0| == Min(8, n) && |g1| == Min(12, n) - Min(8, n);
    assert |g2| == Min(16, n) - Min(12, n) && |g3| == Min(20, n) - Min(16, n);
    var a1 := g0 + "-";
    var a2 := a1 + g1 + "-";
    var a3 := a2 + g2 + "-";
    var a4 := a3 + g3 + "-";
    assert UuidText(b) == a4 + g4;
    assert a1[Min(8, n)] == '-' && a2[Min(12, n) + 1] == '-';
    assert a3[Min(16, n) + 2] == '-' && a4[Min(20, n) + 3] == '-';
    assert a4[Min(8, n)] == a3[Min(8, n)] == a2[Min(8, n)] == a1[Min(8, n)];
    assert a4[Min(12, n) + 1] == a3[Min(12, n) + 1] == a2[Min(12, n) + 1];
    assert a4[Min(16, n) + 2] == a3[Min(16, n) + 2];
  }

  /** Position in the rendered UUID of hex digit `j` (0 <= j < 32). */
  function DigitPos(j: nat): nat {
    if j < 8 then j
    else if j < 12 then j + 1
    else if j < 16 then j + 2
    else if j < 20 then j + 3
    else j + 4
  }

  predicate IsHyphenPos(k: nat) {
    k == 8 || k == 13 || k == 18 || k == 23
  }

  /** On 16 bytes every group is full: 8, 4, 4, 4 and 12 digits. */
  lemma UuidGroups(b: seq<Byte>)
    requires |b| == 16
    ensures var h := Hexlify(b);
      UuidText(b) == h[0..8] + "-" + h[8..12] + "-" + h[12..16] + "-" + h[16..20] + "-" + h[20..32]
  {
    var h := Hexlify(b);
    assert Slice(h, 0, 8) == h[0..8] && Slice(h, 8, 12) == h[8..12] && Slice(h, 12, 16) == h[12..16];
    assert Slice(h, 16, 20) == h[16..20] && h[Min(20, |h|)..] == h[20..32];
  }

  /** Hex digit `j` of the 32 lands at `DigitPos(j)` of the rendered UUID. */
  lemma UuidDigitAt(b: seq<Byte>, j: nat)
    requires |b| == 16 && j < 32
    ensures UuidText(b)[DigitPos(j)] == Hexlify(b)[j]
  {
    UuidGroups(b);
  }

  /** On 16 bytes the hyphens sit at positions 8, 13, 18 and 23. */
  lemma UuidHyphens(b: seq<Byte>)
    requires |b| == 16
    ensures var u := UuidText(b);
      u[8] == '-' && u[13] == '-' && u[18] == '-' && u[23] == '-'
  {
    UuidGroups(b);
  }

  /** On 16 bytes the text is the canonical 36-character 8-4-4-4-12 form. */
  lemma UuidLayout(b: seq<Byte>)
    requires |b| == 16
    ensures var u := UuidText(b);
      && |u| == 36
      && (forall k :: 0 <= k < 36 ==> (u[k] == '-' <==> IsHyphenPos(k)))
      && (forall k :: 0 <= k < 36 && !IsHyphenPos(k) ==> IsHexDigit(u[k]))
      && (forall i :: 0 <= i < 16 ==>
            u[DigitPos(2 * i)] == HexDigit(b[i] / 16) && u[DigitPos(2 * i + 1)] == HexDigit(b[i] % 16))
  {
    var u := UuidText(b);
    UuidHyphens(b);
    forall k | 0 <= k < 36 && !IsHyphenPos(k) ensures IsHexDigit(u[k]) {
      var j := if k < 8 then k else if k < 13 then k - 1 else if k < 18 then k - 2 else if k < 23 then k - 3 else k - 4;
      assert DigitPos(j) == k;
      UuidDigitAt(b, j);
      HexlifyAt(b, j);
    }
    forall i | 0 <= i < 16
      ensures u[DigitPos(2 * i)] == HexDigit(b[i] / 16) && u[DigitPos(2 * i + 1)] == HexDigit(b[i] % 16)
    {
      UuidDigitAt(b, 2 * i);
      HexlifyAt(b, 2 * i);
      UuidDigitAt(b, 2 * i + 1);
      HexlifyAt(b, 2 * i + 1);
    }
  }

  /**
   * Reads a canonical 36-character UUID back into its 16 bytes; `None` when
   * the text is not in that form.
   */
  function ParseUuid(u: string): Option<seq<Byte>> {
    if |u| != 36 || u[8] != '-' || u[13] != '-' || u[18] != '-' || u[23] != '-' then None
    else Unhexlify(u[0..8] + u[9..13] + u[14..18] + u[19..23] + u[24..36])
  }

  /** Cutting the hyphens out of the 8-4-4-4-12 grouping of 32 digits gives the digits back. */
  lemma UngroupGroups(h: string)
    requires |h| == 32
    ensures var u := h[0..8] + "-" + h[8..12] + "-" + h[12..16] + "-" + h[16..20] + "-" + h[20..32];
      && |u| == 36 && u[8] == '-' && u[13] == '-' && u[18] == '-' && u[23] == '-'
      && u[0..8] + u[9..13] + u[14..18] + u[19..23] + u[24..36] == h
  {
    var u := h[0..8] + "-" + h[8..12] + "-" + h[12..16] + "-" + h[16..20] + "-" + h[20..32];
    assert u[0..8] == h[0..8] && u[9..13] == h[8..12] && u[14..18] == h[12..16];
    assert u[19..23] == h[16..20] && u[24..36] == h[20..32];
    assert h == h[0..8] + h[8..12] + h[12..16] + h[16..20] + h[20..32];
  }

  /** The rendering of a 16-byte UUID loses nothing: parsing it gives the bytes back. */
  lemma ParseUuidText(b: seq<Byte>)
    requires |b| == 16
    ensures ParseUuid(UuidText(b)) == Some(b)
  {
    UuidGroups(b);
    UngroupGroups(Hexlify(b));
    UnhexlifyHexlify(b);
  }

  /** The text with its hyphens cut out. */
  function UuidDigits(u: string): (d: string)
    ensures |d| <= |u| && '-' !in d
  {
    if u == [] then [] else (if u[0] == '-' then [] else [u[0]]) + UuidDigits(u[1..])
  }

  lemma {:induction false} UuidDigitsAppend(a: string, c: string)
    ensures UuidDigits(a + c) == UuidDigits(a) + UuidDigits(c)
  {
    if a == [] {
      assert a + c == c;
    } else {
      assert (a + c)[1..] == a[1..] + c;
      UuidDigitsAppend(a[1..], c);
    }
  }

  lemma UuidDigitsHyphen(x: string, y: string)
    ensures UuidDigits(x + "-" + y) == UuidDigits(x) + UuidDigits(y)
  {
    UuidDigitsAppend(x + "-", y);
    UuidDigitsAppend(x, "-");
  }

  lemma {:induction false} UuidDigitsNoHyphen(g: string)
    requires '-' !in g
    ensures UuidDigits(g) == g
  {
    if g != [] {
      assert g[0] in g && forall c :: c in g[1..] ==> c in g;
      UuidDigitsNoHyphen(g[1..]);
      assert [g[0]] + g[1..] == g;
    }
  }

  lemma HexlifyNoHyphen(b: seq<Byte>)
    ensures '-' !in Hexlify(b)
  {
    var h := Hexlify(b);
    forall k | 0 <= k < |h| ensures h[k] != '-' {
      HexlifyAt(b, k);
    }
  }

  lemma NoHyphenInSlice(h: string, i: nat, j: nat)
    requires i <= j <= |h| && '-' !in h
    ensures '-' !in h[i..j]
  {
    assert forall c :: c in h[i..j] ==> c in h;
  }

  lemma SliceJoin(h: string, i: nat, j: nat, k: nat)
    requires i <= j <= k <= |h|
    ensures h[i..j] + h[j..k] == h[i..k]
  {
  }

  /**
   * Whatever the length of the input, cutting the hyphens out of the
   * rendered UUID gives the hex text of every byte: short input only makes
   * groups short or empty, and long input only lengthens the last one.
   */
  lemma UuidDigitsOfText(b: seq<Byte>)
    ensures UuidDigits(UuidText(b)) == Hexlify(b)
    ensures Unhexlify(UuidDigits(UuidText(b))) == Some(b)
  {
    var h := Hexlify(b);
    var n := |h|;
    var i1, i2, i3, i4 := Min(8, n), Min(12, n), Min(16, n), Min(20, n);
    HexlifyNoHyphen(b);
    NoHyphenInSlice(h, 0, i1);
    NoHyphenInSlice(h, i1, i2);
    NoHyphenInSlice(h, i2, i3);
    NoHyphenInSlice(h, i3, i4);
    NoHyphenInSlice(h, i4, n);
    var g0, g1, g2, g3, g4 := h[0..i1], h[i1..i2], h[i2..i3], h[i3..i4], h[i4..n];
    UuidDigitsNoHyphen(g0);
    UuidDigitsNoHyphen(g1);
    UuidDigitsNoHyphen(g2);
    UuidDigitsNoHyphen(g3);
    UuidDigitsNoHyphen(g4);
    var t1 := g0 + "-" + g1;
    var t2 := t1 + "-" + g2;
    var t3 := t2 + "-" + g3;
    assert UuidText(b) == t3 + "-" + g4;
    UuidDigitsHyphen(g0, g1);
    UuidDigitsHyphen(t1, g2);
    UuidDigitsHyphen(t2, g3);
    UuidDigitsHyphen(t3, g4);
    SliceJoin(h, 0, i1, i2);
    SliceJoin(h, 0, i2, i3);
    SliceJoin(h, 0, i3, i4);
    SliceJoin(h, 0, i4, n);
    assert h[0..n] == h;
    UnhexlifyHexlify(b);
  }

  /**
   * The rendering for input of any length is fixed: `2|b| + 4` characters,
   * hyphens after the clamped groups, and the hex digits of every byte in
   * order once those hyphens are cut out.
   */
  lemma UuidTextAnyLength(b: seq<Byte>)
    ensures var u := UuidText(b);
      && ClampedHyphens(u, 2 * |b|)
      && UuidDigits(u) == Hexlify(b)
      && Unhexlify(UuidDigits(u)) == Some(b)
  {
    UuidHyphensAt(b);
    UuidDigitsOfText(b);
  }

  lemma {:induction false} HexlifyZeros(n: nat)
    ensures Hexlify(seq(n, _ => 0)) == seq(2 * n, _ => '0')
  {
    if n > 0 {
      var b: seq<Byte> := seq(n, _ => 0);
      assert b[1..] == seq(n - 1, _ => 0);
      HexlifyZeros(n - 1);
    }
  }

  /** Sixteen zero bytes render as the nil UUID. */
  lemma UuidOfZeros()
    ensures UuidText(seq(16, _ => 0)) == "00000000-0000-0000-0000-000000000000"
  {
    var b: seq<Byte> := seq(16, _ => 0);
    HexlifyZeros(16);
    UuidGroups(b);
    var h := Hexlify(b);
    assert h[0..8] == "00000000";
    assert h[8..12] == "0000" && h[12..16] == "0000" && h[16..20] == "0000";
    assert h[20..32] == "000000000000";
    NilUuidText();
  }

  lemma NilUuidText()
    ensures "00000000" + "-" + "0000" + "-" + "0000" + "-" + "0000" + "-" + "000000000000"
         == "00000000-0000-0000-0000-000000000000"
  {
  }
}
