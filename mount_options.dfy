/**
 * The ext2/3/4 default-mount-option word (`s_default_mount_opts`) and its
 * rendering as the comma-separated option list that `tune2fs -o` accepts.
 * As in the source, the word and the masks are unbounded non-negative
 * integers and `&` is integer bitwise and.
 */
module MountOptions {
  import opened Results
  import opened IntCodec

  /** The journal-mode pair of bits, looked up as one entry of the table. */
  const JournalMode: nat := 0x0060

  /** The number of bits the scan visits. */
  const WordBits: nat := 32

  /** The bit positions whose single-bit mask has an entry in the name table. */
  const NamedPositions: set<nat> := {0, 1, 2, 3, 4, 5, 6, 8, 9, 10, 11}

  /**
   * `ext2_mntopt_string`: the option named by an exact mask value, `None`
   * (the function falling off its end) for any other value.
   */
  function OptionName(mask: int): (r: Option<string>)
    ensures r.Some? <==> mask in {0x0001, 0x0002, 0x0004, 0x0008, 0x0010, 0x0020, 0x0040, 0x0060,
                                  0x0100, 0x0200, 0x0400, 0x0800}
  {
    if mask == 0x0001 then Some("debug")
    else if mask == 0x0002 then Some("bsdgroups")
    else if mask == 0x0004 then Some("user_xattr")
    else if mask == 0x0008 then Some("acl")
    else if mask == 0x0010 then Some("uid16")
    else if mask == 0x0020 then Some("journal_data")
    else if mask == 0x0040 then Some("journal_data_ordered")
    else if mask == 0x0060 then Some("journal_data_writeback")
    else if mask == 0x0100 then Some("nobarrier")
    else if mask == 0x0200 then Some("block_validity")
    else if mask == 0x0400 then Some("discard")
    else if mask == 0x0800 then Some("nodelalloc")
    else None
  }

  /** Python's `a & b` on non-negative integers, one binary digit at a time. */
  function And(a: nat, b: nat): nat {
    if a == 0 || b == 0 then 0
    else 2 * And(a / 2, b / 2) + (if a % 2 == 1 && b % 2 == 1 then 1 else 0)
  }

  /** Binary digit `i` of `w` is 1 (digit 0 is the least significant). */
  predicate IsSet(w: nat, i: nat) {
    if i == 0 then w % 2 == 1 else IsSet(w / 2, i - 1)
  }

  /** `w & (1 << i)` is non-zero exactly when bit `i` of `w` is set. */
  lemma {:induction false} AndSingleBit(w: nat, i: nat)
    ensures (And(w, Pow2(i)) != 0) == IsSet(w, i)
  {
    if i > 0 {
      AndSingleBit(w / 2, i - 1);
      assert Pow2(i) / 2 == Pow2(i - 1) && Pow2(i) % 2 == 0;
    }
  }

  /** The positions below `n` of the bits set in `w`, in ascending order. */
  function SetBits(w: nat, n: nat): (bits: seq<nat>)
    ensures forall k :: 0 <= k < |bits| ==> bits[k] < n
  {
    if n == 0 then [] else SetBits(w, n - 1) + (if IsSet(w, n - 1) then [n - 1] else [])
  }

  /** `SetBits(w, n)` holds every set bit below `n` and nothing else. */
  lemma {:induction false} SetBitsExact(w: nat, n: nat)
    ensures forall i: nat :: i in SetBits(w, n) <==> i < n && IsSet(w, i)
  {
    if n > 0 {
      SetBitsExact(w, n - 1);
      var prev := SetBits(w, n - 1);
      assert SetBits(w, n) == prev + if IsSet(w, n - 1) then [n - 1] else [];
    }
  }

  predicate Ascending(s: seq<nat>) {
    forall k, l :: 0 <= k < l < |s| ==> s[k] < s[l]
  }

  /** `SetBits(w, n)` lists the bits in strictly ascending order. */
  lemma {:induction false} SetBitsAscending(w: nat, n: nat)
    ensures Ascending(SetBits(w, n))
  {
    if n > 0 {
      SetBitsAscending(w, n - 1);
      var prev := SetBits(w, n - 1);
      var bits := SetBits(w, n);
      if IsSet(w, n - 1) {
        assert bits == prev + [n - 1];
        forall k, l | 0 <= k < l < |bits| ensures bits[k] < bits[l] {
          assert bits[k] == prev[k] < n - 1;
          if l < |prev| {
            assert bits[l] == prev[l];
          }
        }
      } else {
        assert bits == prev;
      }
    }
  }

  /** The name lookup applied to the single-bit mask of each position. */
  function NamesOf(bits: seq<nat>): (r: seq<Option<string>>)
    ensures |r| == |bits|
  {
    seq(|bits|, k requires 0 <= k < |bits| => OptionName(Pow2(bits[k])))
  }

  /**
   * The list the source builds: the journal-mode name when either bit of
   * 0x0060 is set, then one lookup per set bit among bits 0 to 31, in
   * ascending bit order.
   */
  function OptionList(w: nat): seq<Option<string>> {
    (if And(w, JournalMode) != 0 then [OptionName(JournalMode)] else []) + NamesOf(SetBits(w, WordBits))
  }

  /** `','.join(items)`: raises as soon as one item is `None`. */
  function Join(items: seq<Option<string>>): (r: Result<string>)
    ensures r.Ok? <==> forall k :: 0 <= k < |items| ==> items[k].Some?
    ensures |items| == 0 ==> r == Ok("")
    ensures |items| == 1 && r.Ok? ==> r.value == items[0].value
  {
    if items == [] then Ok("")
    else if items[0].None? then Error
    else if |items| == 1 then Ok(items[0].value)
    else
      var rest :- Join(items[1..]);
      Ok(items[0].value + "," + rest)
  }

  /** `s.split(',')`: the pieces between commas, always at least one. */
  function SplitCommas(s: string): (parts: seq<string>)
    ensures |parts| >= 1
  {
    if s == [] then [""]
    else if s[0] == ',' then [""] + SplitCommas(s[1..])
    else
      var rest := SplitCommas(s[1..]);
      [[s[0]] + rest[0]] + rest[1..]
  }

  /** A comma-free prefix stays in the first piece. */
  lemma {:induction false} SplitCommaFree(a: string, c: string)
    requires ',' !in a
    ensures SplitCommas(a + c) == [a + SplitCommas(c)[0]] + SplitCommas(c)[1..]
  {
    var p := SplitCommas(c);
    if a == [] {
      assert a + c == c && a + p[0] == p[0];
      assert p == [p[0]] + p[1..];
    } else {
      assert (a + c)[0] == a[0] && (a + c)[1..] == a[1..] + c;
      assert forall x :: x in a[1..] ==> x in a;
      SplitCommaFree(a[1..], c);
      assert [a[0]] + (a[1..] + SplitCommas(c)[0]) == a + SplitCommas(c)[0];
    }
  }

  /** Splitting `a + "," + b` gives `a` and then the pieces of `b`. */
  lemma SplitAtComma(a: string, b: string)
    requires ',' !in a
    ensures SplitCommas(a + "," + b) == [a] + SplitCommas(b)
  {
    assert a + "," + b == a + ("," + b);
    SplitCommaFree(a, "," + b);
    assert ("," + b)[1..] == b;
    assert a + "" == a;
  }

  /**
   * The partner of `Join`: when no item contains a comma, splitting the
   * joined text on commas gives back every item, in order.
   */
  lemma {:induction false} SplitJoin(items: seq<Option<string>>)
    requires |items| >= 1
    requires forall k :: 0 <= k < |items| ==> items[k].Some? && ',' !in items[k].value
    ensures Join(items).Ok?
    ensures var parts := SplitCommas(Join(items).value);
      && |parts| == |items|
      && forall k :: 0 <= k < |items| ==> parts[k] == items[k].value
  {
    var v := items[0].value;
    if |items| == 1 {
      SplitCommaFree(v, "");
      assert v + "" == v;
    } else {
      SplitJoin(items[1..]);
      var rest := Join(items[1..]).value;
      assert Join(items) == Ok(v + "," + rest);
      SplitAtComma(v, rest);
      var parts := SplitCommas(v + "," + rest);
      forall k | 0 <= k < |items| ensures parts[k] == items[k].value {
        if k > 0 {
          assert parts[k] == SplitCommas(rest)[k - 1];
          assert items[1..][k - 1] == items[k];
        }
      }
    }
  }

  /** `a, b` joined is `a,b`. */
  lemma JoinTwo(a: string, b: string)
    ensures Join([Some(a), Some(b)]) == Ok(a + "," + b)
  {
    assert [Some(a), Some(b)][1..] == [Some(b)];
    assert Join([Some(b)]) == Ok(b);
  }

  /** `a, b, c` joined is `a,b,c`. */
  lemma JoinThree(a: string, b: string, c: string)
    ensures Join([Some(a), Some(b), Some(c)]) == Ok(a + "," + b + "," + c)
  {
    assert [Some(a), Some(b), Some(c)][1..] == [Some(b), Some(c)];
    JoinTwo(b, c);
    assert a + "," + (b + "," + c) == a + "," + b + "," + c;
  }

  /** Every set bit among bits 0 to 31 of `w` has an option name. */
  predicate AllBitsNamed(w: nat) {
    forall i :: 0 <= i < 32 && IsSet(w, i) ==> i in NamedPositions
  }

  /**
   * The loop of the ext2 reader that turns the default-mount-option word
   * into its text: `mntopts` grows by one looked-up name per set bit while
   * `m` walks the single-bit masks 1, 2, 4, ... of bits 0 to 31.
   */
  method DefaultMountOptions(w: nat) returns (r: Result<string>)
    ensures r == Join(OptionList(w))
  {
    var mntopts: seq<Option<string>> := [];
    if And(w, JournalMode) != 0 {
      mntopts := mntopts + [OptionName(JournalMode)];
    }
    ghost var head := mntopts;
    var m: nat := 1;
    for i := 0 to WordBits
      invariant m == Pow2(i)
      invariant mntopts == head + NamesOf(SetBits(w, i))
    {
      AndSingleBit(w, i);
      NamesStep(w, i);
      if And(w, m) != 0 {
        mntopts := mntopts + [OptionName(m)];
      }
      m := 2 * m;
    }
    r := Join(mntopts);
  }

  lemma NamesStep(w: nat, i: nat)
    ensures NamesOf(SetBits(w, i + 1))
         == NamesOf(SetBits(w, i)) + if IsSet(w, i) then [OptionName(Pow2(i))] else []
  {
    var a, b := SetBits(w, i), SetBits(w, i + 1);
    assert b == a + if IsSet(w, i) then [i] else [];
  }

  lemma {:induction false} Pow2AtLeast4096(i: nat)
    requires i >= 12
    ensures Pow2(i) >= 0x1000
  {
    if i > 12 {
      Pow2AtLeast4096(i - 1);
    }
  }

  lemma Pow2Table()
    ensures Pow2(0) == 0x0001 && Pow2(1) == 0x0002 && Pow2(2) == 0x0004 && Pow2(3) == 0x0008
    ensures Pow2(4) == 0x0010 && Pow2(5) == 0x0020 && Pow2(6) == 0x0040 && Pow2(7) == 0x0080
    ensures Pow2(8) == 0x0100 && Pow2(9) == 0x0200 && Pow2(10) == 0x0400 && Pow2(11) == 0x0800
  {
  }

  /**
   * The single-bit mask of bit `i` has a name exactly for the eleven named
   * positions; the scan never looks up the two-bit journal-mode entry.
   */
  lemma SingleBitNamed(i: nat)
    ensures OptionName(Pow2(i)).Some? <==> i in NamedPositions
    ensures Pow2(i) != JournalMode
  {
    if i >= 12 {
      Pow2AtLeast4096(i);
    } else {
      Pow2Table();
      assert i in {0, 1, 2, 3, 4, 5, 6, 7, 8, 9, 10, 11};
    }
  }

  /**
   * The text exists exactly when every set bit among bits 0 to 31 is a
   * named one: bit 7 or any bit from 12 up makes the lookup give `None` and
   * the join raise.
   */
  lemma OptionsDefinedIff(w: nat)
    ensures Join(OptionList(w)).Ok? <==> AllBitsNamed(w)
  {
    if AllBitsNamed(w) {
      AllNamed(w);
    } else {
      var i :| 0 <= i < 32 && IsSet(w, i) && i !in NamedPositions;
      OneUnnamed(w, i);
    }
  }

  /** The lookups of a list of positions all succeed exactly when every position is named. */
  lemma NamesDefinedIff(bits: seq<nat>)
    ensures (forall k :: 0 <= k < |bits| ==> NamesOf(bits)[k].Some?)
        <==> (forall k :: 0 <= k < |bits| ==> bits[k] in NamedPositions)
  {
    forall k | 0 <= k < |bits| ensures NamesOf(bits)[k].Some? <==> bits[k] in NamedPositions {
      SingleBitNamed(bits[k]);
    }
  }

  lemma AllNamed(w: nat)
    requires forall i :: 0 <= i < 32 && IsSet(w, i) ==> i in NamedPositions
    ensures forall k :: 0 <= k < |OptionList(w)| ==> OptionList(w)[k].Some?
  {
    var bits := SetBits(w, 32);
    SetBitsExact(w, 32);
    assert forall k :: 0 <= k < |bits| ==> bits[k] in NamedPositions by {
      forall k | 0 <= k < |bits| ensures bits[k] in NamedPositions {
        assert bits[k] in bits;
      }
    }
    NamesDefinedIff(bits);
  }

  lemma OneUnnamed(w: nat, i: nat)
    requires i < 32 && IsSet(w, i) && i !in NamedPositions
    ensures exists k :: 0 <= k < |OptionList(w)| && OptionList(w)[k].None?
  {
    var bits := SetBits(w, 32);
    SetBitsExact(w, 32);
    assert i in bits;
    var k :| 0 <= k < |bits| && bits[k] == i;
    SingleBitNamed(i);
    var names := NamesOf(bits);
    assert names[k].None?;
    var head := if And(w, JournalMode) != 0 then [OptionName(JournalMode)] else [];
    var list := OptionList(w);
    assert list == head + names;
    assert list[|head| + k].None?;
  }

  /**
   * The journal-mode name comes first whenever either bit of 0x0060 is set,
   * and after it come exactly the lookups of the set bits in ascending order.
   */
  lemma OptionListOrder(w: nat)
    ensures And(w, JournalMode) != 0 <==> IsSet(w, 5) || IsSet(w, 6)
    ensures And(w, JournalMode) != 0 ==> OptionList(w)[0] == Some("journal_data_writeback")
    ensures var list, bits := OptionList(w), SetBits(w, 32);
      var skip := if And(w, JournalMode) != 0 then 1 else 0;
      && |list| == skip + |bits|
      && (forall i: nat :: i in bits <==> i < 32 && IsSet(w, i))
      && Ascending(bits)
      && (forall k :: 0 <= k < |bits| ==> list[skip + k] == OptionName(Pow2(bits[k])))
  {
    JournalModeBits(w);
    SetBitsExact(w, 32);
    SetBitsAscending(w, 32);
  }

  /** `a & (2 * b)` keeps no low bit: it is twice `(a / 2) & b`. */
  lemma AndDouble(a: nat, b: nat)
    requires b > 0
    ensures And(a, 2 * b) == 2 * And(a / 2, b)
  {
    assert (2 * b) / 2 == b && (2 * b) % 2 == 0;
  }

  /** `w & 0x0060` is non-zero exactly when bit 5 or bit 6 of `w` is set. */
  lemma JournalModeBits(w: nat)
    ensures And(w, JournalMode) != 0 <==> IsSet(w, 5) || IsSet(w, 6)
  {
    var w1, w2, w3, w4 := w / 2, w / 2 / 2, w / 2 / 2 / 2, w / 2 / 2 / 2 / 2;
    var w5 := w4 / 2;
    AndDouble(w, 0x30);
    AndDouble(w1, 0x18);
    AndDouble(w2, 0x0c);
    AndDouble(w3, 0x06);
    AndDouble(w4, 0x03);
    assert And(w, JournalMode) == 32 * And(w5, 3);
    assert And(w5, 3) == 2 * And(w5 / 2, 1) + (if w5 % 2 == 1 then 1 else 0);
    assert And(w5 / 2, 1) == (if w5 / 2 % 2 == 1 then 1 else 0);
    assert IsSet(w, 5) == IsSet(w1, 4) == IsSet(w2, 3) == IsSet(w3, 2) == IsSet(w4, 1) == IsSet(w5, 0);
    assert IsSet(w, 6) == IsSet(w1, 5) == IsSet(w2, 4) == IsSet(w3, 3) == IsSet(w4, 2) == IsSet(w5, 1);
    assert IsSet(w5, 0) == (w5 % 2 == 1) && IsSet(w5, 1) == (w5 / 2 % 2 == 1);
  }

  lemma {:induction false} NoBitsOfZero(i: nat)
    ensures !IsSet(0, i)
  {
    if i > 0 {
      NoBitsOfZero(i - 1);
    }
  }

  /** A word below `2^n` has no bit set from `n` up. */
  lemma {:induction false} HighBitsClear(w: nat, n: nat, i: nat)
    requires w < Pow2(n) && n <= i
    ensures !IsSet(w, i)
  {
    if n == 0 {
      NoBitsOfZero(i);
    } else {
      HighBitsClear(w / 2, n - 1, i - 1);
    }
  }

  /** For a word below `2^n`, scanning further than bit `n` finds nothing more. */
  lemma {:induction false} SetBitsBelow(w: nat, n: nat, m: nat)
    requires w < Pow2(n) && n <= m
    ensures SetBits(w, m) == SetBits(w, n)
  {
    if n < m {
      SetBitsBelow(w, n, m - 1);
      HighBitsClear(w, n, m - 1);
    }
  }

  /** The list built for a word whose set bits all lie below bit `n`. */
  lemma {:induction false} OptionListBelow(w: nat, n: nat)
    requires w < Pow2(n) && n <= 32
    ensures OptionList(w) == (if And(w, JournalMode) != 0 then [OptionName(JournalMode)] else [])
                             + NamesOf(SetBits(w, n))
  {
    SetBitsBelow(w, n, 32);
  }

  /** A word with no set bit below `n` lists none. */
  lemma {:induction false} NoSetBitsBelow(w: nat, n: nat)
    requires forall i :: 0 <= i < n ==> !IsSet(w, i)
    ensures SetBits(w, n) == []
  {
    if n > 0 {
      NoSetBitsBelow(w, n - 1);
    }
  }

  /** Bits 5 and 6 are the set bits of 0x0060. */
  lemma BitsOf0060()
    ensures SetBits(0x0060, 7) == [5, 6]
  {
    assert !IsSet(0x0060, 0) && !IsSet(0x0060, 1) && !IsSet(0x0060, 2) && !IsSet(0x0060, 3) && !IsSet(0x0060, 4);
    NoSetBitsBelow(0x0060, 5);
    assert IsSet(0x0060, 5) && IsSet(0x0060, 6);
    assert SetBits(0x0060, 6) == [5];
  }

  /** Both journal bits: the pair name and then both single names. */
  lemma ExampleBothJournalBits()
    ensures OptionList(0x0060) == [Some("journal_data_writeback"), Some("journal_data"), Some("journal_data_ordered")]
  {
    Pow2Table();
    OptionListBelow(0x0060, 7);
    BitsOf0060();
    assert And(0x0060, JournalMode) == 0x0060;
    assert NamesOf([5, 6]) == [OptionName(0x0020), OptionName(0x0040)];
  }

  /** Bit 5 is the set bit of 0x0020. */
  lemma BitsOf0020()
    ensures SetBits(0x0020, 6) == [5]
  {
    assert !IsSet(0x0020, 0) && !IsSet(0x0020, 1) && !IsSet(0x0020, 2) && !IsSet(0x0020, 3) && !IsSet(0x0020, 4);
    NoSetBitsBelow(0x0020, 5);
    assert IsSet(0x0020, 5);
  }

  /** One journal bit: the pair name is still emitted, then the single name. */
  lemma ExampleOneJournalBit()
    ensures OptionList(0x0020) == [Some("journal_data_writeback"), Some("journal_data")]
  {
    Pow2Table();
    OptionListBelow(0x0020, 6);
    BitsOf0020();
    assert And(0x0020, JournalMode) == 0x0020;
    assert NamesOf([5]) == [OptionName(0x0020)];
  }

  /** Bits 0 and 3 are the set bits of 0x0009. */
  lemma BitsOf0009()
    ensures SetBits(0x0009, 4) == [0, 3]
  {
    assert IsSet(0x0009, 0) && !IsSet(0x0009, 1) && !IsSet(0x0009, 2) && IsSet(0x0009, 3);
    assert SetBits(0x0009, 1) == [0];
    assert SetBits(0x0009, 3) == [0];
  }

  /** debug and acl come out in ascending bit order. */
  lemma ExampleDebugAcl()
    ensures OptionList(0x0009) == [Some("debug"), Some("acl")]
  {
    Pow2Table();
    OptionListBelow(0x0009, 4);
    BitsOf0009();
    assert And(0x0009, JournalMode) == 0;
    assert NamesOf([0, 3]) == [OptionName(0x0001), OptionName(0x0008)];
  }

  /** No option name contains a comma, so the joined text splits back into the names. */
  lemma OptionNamesCommaFree(mask: int)
    requires OptionName(mask).Some?
    ensures ',' !in OptionName(mask).value
  {
  }

  /**
   * A successful option text splits on commas into exactly the entries of
   * the option list, in order.
   */
  lemma OptionTextSplits(w: nat)
    requires Join(OptionList(w)).Ok? && |OptionList(w)| >= 1
    ensures var list, parts := OptionList(w), SplitCommas(Join(OptionList(w)).value);
      && |parts| == |list|
      && forall k :: 0 <= k < |list| ==> parts[k] == list[k].value
  {
    var list := OptionList(w);
    forall k | 0 <= k < |list| ensures list[k].Some? && ',' !in list[k].value {
      assert list[k].Some?;
      assert exists m :: list[k] == OptionName(m) by {
        if And(w, JournalMode) != 0 && k == 0 {
          assert list[k] == OptionName(JournalMode);
        } else {
          var skip := if And(w, JournalMode) != 0 then 1 else 0;
          var bits := SetBits(w, WordBits);
          assert list[k] == NamesOf(bits)[k - skip] == OptionName(Pow2(bits[k - skip]));
        }
      }
      var m :| list[k] == OptionName(m);
      OptionNamesCommaFree(m);
    }
    SplitJoin(list);
  }

  /** Both journal bits, as text. */
  lemma ExampleBothJournalBitsText()
    ensures Join(OptionList(0x0060)) == Ok("journal_data_writeback,journal_data,journal_data_ordered")
  {
    ExampleBothJournalBits();
    JoinThree("journal_data_writeback", "journal_data", "journal_data_ordered");
    BothJournalNamesText();
  }

  /** One journal bit, as text. */
  lemma ExampleOneJournalBitText()
    ensures Join(OptionList(0x0020)) == Ok("journal_data_writeback,journal_data")
  {
    ExampleOneJournalBit();
    JoinTwo("journal_data_writeback", "journal_data");
    OneJournalNameText();
  }

  lemma BothJournalNamesText()
    ensures "journal_data_writeback" + "," + "journal_data" + "," + "journal_data_ordered"
         == "journal_data_writeback,journal_data,journal_data_ordered"
  {
  }

  lemma OneJournalNameText()
    ensures "journal_data_writeback" + "," + "journal_data" == "journal_data_writeback,journal_data"
  {
  }

  lemma DebugAclText()
    ensures "debug" + "," + "acl" == "debug,acl"
  {
  }

  /** debug and acl, as text. */
  lemma ExampleDebugAclText()
    ensures Join(OptionList(0x0009)) == Ok("debug,acl")
  {
    ExampleDebugAcl();
    JoinTwo("debug", "acl");
    DebugAclText();
  }

  /** No bit set: the empty text. */
  lemma ExampleNoBits()
    ensures Join(OptionList(0)) == Ok("")
  {
    OptionListBelow(0, 0);
  }

  /** One set bit without a name is enough to make the join fail. */
  lemma UnnamedBitFails(w: nat, i: nat)
    requires i < 32 && IsSet(w, i) && i !in NamedPositions
    ensures Join(OptionList(w)) == Error
  {
    OneUnnamed(w, i);
  }

  /** The only bit set in `2^k` is bit `k`. */
  lemma {:induction false} SingleBitSet(k: nat, i: nat)
    ensures IsSet(Pow2(k), i) <==> i == k
  {
    if k == 0 {
      if i > 0 {
        NoBitsOfZero(i - 1);
      }
    } else if i > 0 {
      SingleBitSet(k - 1, i - 1);
    }
  }

  /** Scanning `2^k` up to bit `k` lists bit `k` alone. */
  lemma SetBitsOfPow2(k: nat)
    ensures SetBits(Pow2(k), k + 1) == [k]
  {
    forall i | 0 <= i <= k {
      SingleBitSet(k, i);
    }
    NoSetBitsBelow(Pow2(k), k);
  }

  /** Bit 7 has no name: its lookup gives `None`, so the join fails. */
  lemma ExampleBit7Unnamed()
    ensures OptionList(0x0080) == [None]
  {
    Pow2Table();
    OptionListBelow(0x0080, 8);
    SetBitsOfPow2(7);
    assert And(0x0080, JournalMode) == 0;
    assert NamesOf([7]) == [OptionName(0x0080)];
  }

  /** Bit 12 has no name either: no bit from 12 up has one. */
  lemma ExampleBit12Unnamed()
    ensures OptionList(0x1000) == [None]
  {
    Pow2Table();
    assert Pow2(12) == 0x1000;
    OptionListBelow(0x1000, 13);
    SetBitsOfPow2(12);
    assert And(0x1000, JournalMode) == 0;
    assert NamesOf([12]) == [OptionName(Pow2(12))];
  }
}
