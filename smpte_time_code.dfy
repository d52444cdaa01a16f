/// The 64-bit SMPTE ST 12 timecode record as stored in DNG metadata (Core/IO/SMPTETimeCode.cs).
module SmpteTimeCode {
  import opened DecimalText

  /** Two readonly 32-bit words; every accessor reads the low one. */
  datatype SmpteTimeCode = SmpteTimeCode(lowInteger: bv32, highInteger: bv32)
  {
    /** The source's ReadSection: C# masks every uint shift count to its low 5 bits, and an offset
        of 32 or more selects the high word at offset - 32. The accessors below state what it
        reads for each of their constant arguments. */
    function ReadSection(offset: bv32, length: bv32): bv32 {
      var pos := if offset < 32 then offset else offset - 32;
      var word := if offset < 32 then lowInteger else highInteger;
      var mask: bv32 := (((1 as bv32) << (length & 31)) - 1) << (pos & 31);
      (word & mask) >> (pos & 31)
    }

    /** Bits 0-3 of the low word. */
    function FrameUnits(): (r: bv32) ensures r == lowInteger & 15 { ReadSection(0, 4) }
    /** Bits 4-5. */
    function FrameTens(): (r: bv32) ensures r == (lowInteger >> 4) & 3 { ReadSection(4, 2) }
    /** Bit 6. */
    predicate DropFlag() ensures DropFlag() <==> (lowInteger >> 6) & 1 == 1 { ReadSection(6, 1) != 0 }
    /** Bits 8-11. */
    function SecondUnits(): (r: bv32) ensures r == (lowInteger >> 8) & 15 { ReadSection(8, 4) }
    /** Bits 12-14. */
    function SecondTens(): (r: bv32) ensures r == (lowInteger >> 12) & 7 { ReadSection(12, 3) }
    /** Bit 15. */
    predicate Flag1() ensures Flag1() <==> (lowInteger >> 15) & 1 == 1 { ReadSection(15, 1) != 0 }
    /** Bits 16-19. */
    function MinuteUnits(): (r: bv32) ensures r == (lowInteger >> 16) & 15 { ReadSection(16, 4) }
    /** Bits 20-22. */
    function MinuteTens(): (r: bv32) ensures r == (lowInteger >> 20) & 7 { ReadSection(20, 3) }
    /** Bit 23. */
    predicate Flag2() ensures Flag2() <==> (lowInteger >> 23) & 1 == 1 { ReadSection(23, 1) != 0 }
    /** Bits 24-27. */
    function HourUnits(): (r: bv32) ensures r == (lowInteger >> 24) & 15 { ReadSection(24, 4) }
    /** Bits 28-29. */
    function HourTens(): (r: bv32) ensures r == (lowInteger >> 28) & 3 { ReadSection(28, 2) }
    /** Bit 30. */
    predicate Flag3() ensures Flag3() <==> (lowInteger >> 30) & 1 == 1 { ReadSection(30, 1) != 0 }
    /** Bit 31. */
    predicate Flag4() ensures Flag4() <==> (lowInteger >> 31) & 1 == 1 { ReadSection(31, 1) != 0 }

    /** Accessor k in declaration order, a flag read as 0 or 1; Fields[k] is its bit range. */
    function Accessor(k: nat): bv32
      requires k < |Fields|
    {
      match k
      case 0 => FrameUnits() case 1 => FrameTens() case 2 => if DropFlag() then 1 else 0
      case 3 => SecondUnits() case 4 => SecondTens() case 5 => if Flag1() then 1 else 0
      case 6 => MinuteUnits() case 7 => MinuteTens() case 8 => if Flag2() then 1 else 0
      case 9 => HourUnits() case 10 => HourTens() case 11 => if Flag3() then 1 else 0
      case _ => if Flag4() then 1 else 0
    }

    function Hours(): (n: nat)
      ensures n < 100
    {
      FieldBounds(this);
      HourTens() as nat * 10 + HourUnits() as nat
    }
    function Minutes(): (n: nat)
      ensures n < 100
    {
      FieldBounds(this);
      MinuteTens() as nat * 10 + MinuteUnits() as nat
    }
    function Seconds(): (n: nat)
      ensures n < 100
    {
      FieldBounds(this);
      SecondTens() as nat * 10 + SecondUnits() as nat
    }
    function Frames(): (n: nat)
      ensures n < 100
    {
      FieldBounds(this);
      FrameTens() as nat * 10 + FrameUnits() as nat
    }

    /** "HH:MM:SS;FF" when the drop flag is set, "HH:MM:SS:FF" otherwise. */
    function ToString(): (s: string)
      ensures |s| == 11
      ensures s[2] == ':' && s[5] == ':' && s[8] == (if DropFlag() then ';' else ':')
      ensures AllDigits(s[0..2]) && AllDigits(s[3..5]) && AllDigits(s[6..8]) && AllDigits(s[9..11])
      ensures Value(s[0..2]) == Hours() && Value(s[3..5]) == Minutes()
      ensures Value(s[6..8]) == Seconds() && Value(s[9..11]) == Frames()
    {
      FieldBounds(this);
      TwoDigitPad(Hours());
      TwoDigitPad(Minutes());
      TwoDigitPad(Seconds());
      TwoDigitPad(Frames());
      var sep := if DropFlag() then ";" else ":";
      Layout(ZeroPad(Hours(), 2), ZeroPad(Minutes(), 2), ZeroPad(Seconds(), 2), sep, ZeroPad(Frames(), 2));
      ZeroPad(Hours(), 2) + ":" + ZeroPad(Minutes(), 2) + ":" + ZeroPad(Seconds(), 2) + sep + ZeroPad(Frames(), 2)
    }
  }

  /** Where the four two-character fields sit in "HH:MM:SS" + separator + "FF". */
  lemma {:induction false} Layout(h: string, m: string, s: string, sep: string, f: string)
    requires |h| == 2 && |m| == 2 && |s| == 2 && |sep| == 1 && |f| == 2
    ensures var r := h + ":" + m + ":" + s + sep + f;
            |r| == 11 && r[2] == ':' && r[5] == ':' && r[8] == sep[0]
            && r[0..2] == h && r[3..5] == m && r[6..8] == s && r[9..11] == f
  {
  }

  /** Offsets and widths of the accessors in declaration order. */
  const Fields: seq<(bv32, bv32)> :=
    [(0, 4), (4, 2), (6, 1), (8, 4), (12, 3), (15, 1), (16, 4), (20, 3), (23, 1), (24, 4), (28, 2), (30, 1), (31, 1)]

  /** The bits of the low word that the range Fields[k] covers. */
  function FieldMask(k: nat): bv32
    requires k < |Fields|
  {
    (((1 as bv32) << Fields[k].1) - 1) << Fields[k].0
  }

  /** Accessor k reads exactly the bits of Fields[k]: its value is those bits of the low word,
      shifted down to the bottom. */
  lemma {:induction false} AccessorsReadFields(t: SmpteTimeCode, k: nat)
    requires k < |Fields|
    ensures t.Accessor(k) == (t.lowInteger & FieldMask(k)) >> Fields[k].0
  {
    if k < 3 { Byte0ReadsFields(t, k); }
    else if k < 6 { Byte1ReadsFields(t, k); }
    else if k < 9 { Byte2ReadsFields(t, k); }
    else if k < 11 { Byte3ReadsFields(t, k); }
    else { TopBitsReadFields(t, k); }
  }

  /** Byte 0 of the low word: accessors 0 to 2. */
  lemma {:induction false} Byte0ReadsFields(t: SmpteTimeCode, k: nat)
    requires 0 <= k < 3
    ensures t.Accessor(k) == (t.lowInteger & FieldMask(k)) >> Fields[k].0
  {
    MaskValue(k);
    var w := t.lowInteger;
    match k
    case 0 =>
      assert Fields[0] == (0, 4) && Masks[0] == 0x0000_000F;
      assert t.Accessor(0) == (w & 0x0000_000F) >> 0;
    case 1 =>
      assert Fields[1] == (4, 2) && Masks[1] == 0x0000_0030;
      assert t.Accessor(1) == (w & 0x0000_0030) >> 4;
    case 2 =>
      assert Fields[2] == (6, 1) && Masks[2] == 0x0000_0040;
      assert t.Accessor(2) == (w & 0x0000_0040) >> 6;
  }

  /** Byte 1 of the low word: accessors 3 to 5. */
  lemma {:induction false} Byte1ReadsFields(t: SmpteTimeCode, k: nat)
    requires 3 <= k < 6
    ensures t.Accessor(k) == (t.lowInteger & FieldMask(k)) >> Fields[k].0
  {
    MaskValue(k);
    var w := t.lowInteger;
    match k
    case 3 =>
      assert Fields[3] == (8, 4) && Masks[3] == 0x0000_0F00;
      assert t.Accessor(3) == (w & 0x0000_0F00) >> 8;
    case 4 =>
      assert Fields[4] == (12, 3) && Masks[4] == 0x0000_7000;
      assert t.Accessor(4) == (w & 0x0000_7000) >> 12;
    case 5 =>
      assert Fields[5] == (15, 1) && Masks[5] == 0x0000_8000;
      assert t.Accessor(5) == (w & 0x0000_8000) >> 15;
  }

  /** Byte 2 of the low word: accessors 6 to 8. */
  lemma {:induction false} Byte2ReadsFields(t: SmpteTimeCode, k: nat)
    requires 6 <= k < 9
    ensures t.Accessor(k) == (t.lowInteger & FieldMask(k)) >> Fields[k].0
  {
    MaskValue(k);
    var w := t.lowInteger;
    match k
    case 6 =>
      assert Fields[6] == (16, 4) && Masks[6] == 0x000F_0000;
      assert t.Accessor(6) == (w & 0x000F_0000) >> 16;
    case 7 =>
      assert Fields[7] == (20, 3) && Masks[7] == 0x0070_0000;
      assert t.Accessor(7) == (w & 0x0070_0000) >> 20;
    case 8 =>
      assert Fields[8] == (23, 1) && Masks[8] == 0x0080_0000;
      assert t.Accessor(8) == (w & 0x0080_0000) >> 23;
  }

  /** Byte 3 of the low word: accessors 9 and 10. */
  lemma {:induction false} Byte3ReadsFields(t: SmpteTimeCode, k: nat)
    requires 9 <= k < 11
    ensures t.Accessor(k) == (t.lowInteger & FieldMask(k)) >> Fields[k].0
  {
    MaskValue(k);
    var w := t.lowInteger;
    match k
    case 9 =>
      assert Fields[9] == (24, 4) && Masks[9] == 0x0F00_0000;
      assert t.Accessor(9) == (w & 0x0F00_0000) >> 24;
    case 10 =>
      assert Fields[10] == (28, 2) && Masks[10] == 0x3000_0000;
      assert t.Accessor(10) == (w & 0x3000_0000) >> 28;
  }

  /** The two flags at the top of the low word: accessors 11 and 12. */
  lemma {:induction false} TopBitsReadFields(t: SmpteTimeCode, k: nat)
    requires 11 <= k < 13
    ensures t.Accessor(k) == (t.lowInteger & FieldMask(k)) >> Fields[k].0
  {
    MaskValue(k);
    var w := t.lowInteger;
    match k
    case 11 =>
      assert Fields[11] == (30, 1) && Masks[11] == 0x4000_0000;
      assert t.Accessor(11) == (w & 0x4000_0000) >> 30;
    case 12 =>
      assert Fields[12] == (31, 1) && Masks[12] == 0x8000_0000;
      assert t.Accessor(12) == (w & 0x8000_0000) >> 31;
  }

  /** Every accessor's range is non-empty and lies inside the low word, and no two of their
      masks share a bit. */
  lemma {:induction false} FieldsDisjointInLowWord()
    ensures forall i :: 0 <= i < |Fields| ==> Fields[i].0 < 32 && 1 <= Fields[i].1 <= 32 - Fields[i].0
    ensures forall i :: 0 <= i < |Fields| ==> FieldMask(i) != 0
    ensures forall i, j :: 0 <= i < j < |Fields| ==> FieldMask(i) & FieldMask(j) == 0
  {
    MasksDisjoint();
    forall i | 0 <= i < |Fields|
      ensures FieldMask(i) != 0
    {
      MaskValue(i);
    }
    forall i, j | 0 <= i < j < |Fields|
      ensures FieldMask(i) & FieldMask(j) == 0
    {
      MaskValue(i);
      MaskValue(j);
    }
  }

  /** The masks of the thirteen ranges, written out. */
  const Masks: seq<bv32> :=
    [0x0000_000F, 0x0000_0030, 0x0000_0040, 0x0000_0F00, 0x0000_7000, 0x0000_8000, 0x000F_0000,
     0x0070_0000, 0x0080_0000, 0x0F00_0000, 0x3000_0000, 0x4000_0000, 0x8000_0000]

  /** Masks[k] is the mask of Fields[k]. */
  lemma {:induction false} MaskValue(k: nat)
    requires k < |Fields|
    ensures |Masks| == |Fields| && FieldMask(k) == Masks[k]
  {
    match k
    case 0 => case 1 => case 2 => case 3 => case 4 => case 5 => case 6 =>
    case 7 => case 8 => case 9 => case 10 => case 11 => case 12 =>
  }

  /** No two of the written-out masks share a bit, and none is empty. */
  lemma {:induction false} MasksDisjoint()
    ensures forall i :: 0 <= i < |Masks| ==> Masks[i] != 0
    ensures forall i, j :: 0 <= i < j < |Masks| ==> Masks[i] & Masks[j] == 0
  {
  }

  /** Two records whose low words agree on the bits of Fields[k] give the same accessor k,
      whatever the other bits and the high words hold. */
  lemma {:induction false} AccessorIndependent(t1: SmpteTimeCode, t2: SmpteTimeCode, k: nat)
    requires k < |Fields|
    requires (t1.lowInteger ^ t2.lowInteger) & FieldMask(k) == 0
    ensures t1.Accessor(k) == t2.Accessor(k)
  {
    MaskValue(k);
    var d := t1.lowInteger ^ t2.lowInteger;
    match k
    case 0 => assert d & 0x0000_000F == 0;
    case 1 => assert d & 0x0000_0030 == 0;
    case 2 => assert d & 0x0000_0040 == 0;
    case 3 => assert d & 0x0000_0F00 == 0;
    case 4 => assert d & 0x0000_7000 == 0;
    case 5 => assert d & 0x0000_8000 == 0;
    case 6 => assert d & 0x000F_0000 == 0;
    case 7 => assert d & 0x0070_0000 == 0;
    case 8 => assert d & 0x0080_0000 == 0;
    case 9 => assert d & 0x0F00_0000 == 0;
    case 10 => assert d & 0x3000_0000 == 0;
    case 11 => assert d & 0x4000_0000 == 0;
    case 12 => assert d & 0x8000_0000 == 0;
  }

  /** Bounds of the BCD digit fields and of the derived values. */
  lemma {:induction false} FieldBounds(t: SmpteTimeCode)
    ensures t.FrameUnits() <= 15 && t.FrameTens() <= 3
    ensures t.SecondUnits() <= 15 && t.SecondTens() <= 7
    ensures t.MinuteUnits() <= 15 && t.MinuteTens() <= 7
    ensures t.HourUnits() <= 15 && t.HourTens() <= 3
  {
  }

  /** No accessor depends on the high word. */
  lemma {:induction false} HighWordUnused(lo: bv32, hi1: bv32, hi2: bv32)
    ensures SmpteTimeCode(lo, hi1).Hours() == SmpteTimeCode(lo, hi2).Hours()
    ensures SmpteTimeCode(lo, hi1).Minutes() == SmpteTimeCode(lo, hi2).Minutes()
    ensures SmpteTimeCode(lo, hi1).Seconds() == SmpteTimeCode(lo, hi2).Seconds()
    ensures SmpteTimeCode(lo, hi1).Frames() == SmpteTimeCode(lo, hi2).Frames()
    ensures SmpteTimeCode(lo, hi1).DropFlag() == SmpteTimeCode(lo, hi2).DropFlag()
    ensures SmpteTimeCode(lo, hi1).Flag1() == SmpteTimeCode(lo, hi2).Flag1()
    ensures SmpteTimeCode(lo, hi1).Flag2() == SmpteTimeCode(lo, hi2).Flag2()
    ensures SmpteTimeCode(lo, hi1).Flag3() == SmpteTimeCode(lo, hi2).Flag3()
    ensures SmpteTimeCode(lo, hi1).Flag4() == SmpteTimeCode(lo, hi2).Flag4()
  {
  }
}
