/// Coefficients of 8x8 blocks in the entropy-coded data (Decoders/JPEG/coeffs.c): the category
/// and extra bits of a coefficient (section F.1.2.1 of ITU-T T.81), the run-length symbols of the
/// AC coefficients (section F.1.2.2), and the reading, writing and dry-run counting of whole
/// blocks on top of the Huffman code reader and writer.
module JpegCoeffs {
  import opened Arith
  import opened JpegCommon
  import opened JpegIo
  import opened JpegHuffman

  /* ---------------------------------------------------------------------------------------- */
  /* Categories and extra bits                                                                */
  /* ---------------------------------------------------------------------------------------- */

  /** The values an int32_t coefficient takes, less INT32_MIN, whose negation encode_cat and
      encode_extra cannot form. */
  predicate Int32(c: int) {
    -0x8000_0000 < c < 0x8000_0000
  }

  function Abs(c: int): nat {
    if c < 0 then -c else c
  }

  /** value_to_category: the low nibble SSSS of a symbol RRRRSSSS. */
  function Category(v: int): (s: nat)
    requires 0 <= v < 0x100
    ensures s < 16
  {
    v % 16
  }

  /** value_to_zerorun: the high nibble RRRR of a symbol RRRRSSSS. */
  function ZeroRun(v: int): (r: nat)
    requires 0 <= v < 0x100
    ensures r < 16
  {
    v / 16
  }

  /** cat_zrl_to_value: the symbol RRRRSSSS made of the low nibbles of a zero run and a category. */
  function CatZrlToValue(cat: nat, zrl: nat): (v: int)
    ensures 0 <= v < 0x100
    ensures Category(v) == cat % 16 && ZeroRun(v) == zrl % 16
  {
    (zrl % 16) * 16 + cat % 16
  }

  /** A symbol is its two nibbles put together again. */
  lemma {:induction false} SymbolNibbles(v: int)
    requires 0 <= v < 0x100
    ensures CatZrlToValue(Category(v), ZeroRun(v)) == v
  {
  }

  /** The number of significant bits of a magnitude: the category of a coefficient. */
  function BitLength(n: nat): nat {
    if n == 0 then 0 else 1 + BitLength(n / 2)
  }

  /** A positive magnitude lies between the powers of two its bit length names, and only that
      bit length places it there. */
  lemma {:induction false} BitLengthBounds(n: nat)
    requires n > 0
    ensures BitLength(n) >= 1 && Pow2(BitLength(n) - 1) <= n < Pow2(BitLength(n))
  {
    if n > 1 {
      BitLengthBounds(n / 2);
    }
  }

  lemma {:induction false} BitLengthOf(n: nat, k: nat)
    requires 1 <= k && Pow2(k - 1) <= n < Pow2(k)
    ensures BitLength(n) == k
  {
    if k > 1 {
      BitLengthOf(n / 2, k - 1);
    }
  }

  /** Bit lengths grow with the magnitude. */
  lemma {:induction false} BitLengthBelow(n: nat, k: nat)
    requires n < Pow2(k)
    ensures BitLength(n) <= k
  {
    if n > 0 {
      BitLengthBounds(n);
      if BitLength(n) > k {
        Pow2Mono(k, BitLength(n) - 1);
      }
    }
  }

  lemma {:induction false} Pow2ThirtyOne()
    ensures Pow2(31) == 0x8000_0000
  {
    Pow2Word();
    Pow2Add(16, 15);
    assert Pow2(16) == 2 * Pow2(15);
  }

  /** encode_cat: halves the magnitude until nothing is left, counting the halvings. */
  method EncodeCat(c: int) returns (cat: int)
    requires Int32(c)
    ensures cat == BitLength(Abs(c)) && 0 <= cat <= 31
  {
    if c == 0 {
      return 0;
    }
    var m := if c < 0 then -c else c;
    cat := 0;
    while m != 0
      invariant 0 <= m && cat + BitLength(m) == BitLength(Abs(c))
      decreases m
    {
      m := m / 2;
      cat := cat + 1;
    }
    Pow2ThirtyOne();
    BitLengthBelow(Abs(c), 31);
  }

  /** encode_extra: the low cat bits of the coefficient, of the coefficient less one when it is
      negative (two's complement), cut to the uint16_t the C returns. */
  function EncodeExtra(c: int, cat: nat): (r: nat)
    requires Int32(c) && cat < 32
    ensures r < Word && r < Pow2(cat)
  {
    var d := if c < 0 then c - 1 else c;
    var low := d % Pow2(cat);
    if low < Word then low else low % Word
  }

  /** decode_coeff (Figure F.12 of ITU-T T.81): an extra value whose top bit (bit cat - 1) is
      clear stands for a negative coefficient, extra + 1 - 2^cat; otherwise it is the
      coefficient itself. The C tests the bit as extra >> (cat - 1) == 0, which for an extra
      value of 16 bits holds exactly when extra < 2^(cat - 1). */
  function DecodeCoeff(cat: nat, extra: nat): int
    requires cat < 0x100 && extra < Word
  {
    if cat == 0 then 0
    else if extra < Pow2(cat - 1) then extra + 1 - Pow2(cat)
    else extra
  }

  lemma {:induction false} Pow2Sixteen(k: nat)
    requires k <= 16
    ensures Pow2(k) <= Word
  {
    Pow2Mono(k, 16);
    Pow2Word();
  }

  /** Coefficient round trip: decode_coeff gives back a coefficient from its category and its
      extra bits, for every category of at most 16 bits. */
  lemma {:induction false} CoeffRoundTrip(c: int)
    requires 0 < Abs(c) < Word
    ensures var cat := BitLength(Abs(c));
            1 <= cat <= 16 && DecodeCoeff(cat, EncodeExtra(c, cat)) == c
  {
    var cat := BitLength(Abs(c));
    BitLengthBounds(Abs(c));
    Pow2Word();
    BitLengthBelow(Abs(c), 16);
    Pow2Sixteen(cat);
    var p := Pow2(cat - 1);
    assert Pow2(cat) == 2 * p;
    if c > 0 {
      DivModUnique(c, 2 * p, 0, c);
      DivModUnique(c, p, 1, c - p);
    } else {
      DivModUnique(c - 1, 2 * p, -1, c - 1 + 2 * p);
      DivModUnique(c - 1 + 2 * p, p, 0, c - 1 + 2 * p);
    }
  }

  /** And the other way: every extra value of a category 1..16 is the encoding of the
      coefficient it decodes to, which has that category. */
  lemma {:induction false} ExtraRoundTrip(cat: nat, extra: nat)
    requires 1 <= cat <= 16 && extra < Pow2(cat) && extra < Word
    ensures var c := DecodeCoeff(cat, extra);
            Int32(c) && BitLength(Abs(c)) == cat && EncodeExtra(c, cat) == extra
  {
    Pow2Sixteen(cat);
    var p := Pow2(cat - 1);
    assert Pow2(cat) == 2 * p;
    var c := DecodeCoeff(cat, extra);
    if extra >= p {
      DivModUnique(extra, p, 1, extra - p);
      BitLengthOf(extra, cat);
      DivModUnique(extra, 2 * p, 0, extra);
    } else {
      DivModUnique(extra, p, 0, extra);
      assert c == extra + 1 - 2 * p;
      BitLengthOf(Abs(c), cat);
      DivModUnique(c - 1, 2 * p, -1, extra);
    }
  }

  /* ---------------------------------------------------------------------------------------- */
  /* Symbols                                                                                  */
  /* ---------------------------------------------------------------------------------------- */

  /** What is coded for one coefficient or run: the Huffman-coded value, then size extra bits
      holding extra. */
  datatype Sym = Sym(value: int, size: nat, extra: nat)

  /** write_dc: the category of the DC difference is the coded value and also the number of
      extra bits. */
  function DcSym(c: int): (s: Sym)
    requires Int32(c)
  {
    var cat := BitLength(Abs(c));
    BitLengthSmall(c);
    Sym(cat, cat, EncodeExtra(c, cat))
  }

  /** write_ac for a coefficient after a run of zrl zeros: the value is RRRRSSSS, the extra bits
      are the coefficient's own. */
  function AcSym(c: int, zrl: nat): (s: Sym)
    requires Int32(c)
  {
    var cat := BitLength(Abs(c));
    BitLengthSmall(c);
    Sym(CatZrlToValue(cat, zrl), cat, EncodeExtra(c, cat))
  }

  /** write_ac for the end of block: value 0 and no extra bits, whatever the run. */
  const Eob: Sym := Sym(0, 0, 0)

  /** The zero run of 16: value 0xF0, no extra bits. */
  const Zrl: Sym := Sym(0xF0, 0, 0)

  /** ZRL is what write_ac makes of a zero after a run of 15 zeros. */
  lemma {:induction false} ZrlSym()
    ensures AcSym(0, 15) == Zrl
  {
  }

  lemma {:induction false} BitLengthSmall(c: int)
    requires Int32(c)
    ensures BitLength(Abs(c)) < 32
  {
    Pow2ThirtyOne();
    BitLengthBelow(Abs(c), 31);
  }

  /** The ZRL symbols write_block sends ahead of a coefficient that follows a run of r zeros:
      one for every 16 zeros while more than 15 are pending. */
  function Zrls(r: nat): (zs: seq<Sym>)
    ensures |zs| == if r > 15 then r / 16 else 0
    ensures forall j | 0 <= j < |zs| :: zs[j] == Zrl
  {
    if r > 15 then [Zrl] + Zrls(r - 16) else []
  }

  /** The coefficients of a block in zigzag order, each an int32_t. */
  predicate Block(z: seq<int>) {
    |z| == 64 && forall k | 0 <= k < 64 :: Int32(z[k])
  }

  /** write_block's loop over the AC coefficients (Figure F.2 of ITU-T T.81), from position i on
      with r zeros pending: a zero only lengthens the run, except at position 63 where the end of
      block is coded; a nonzero coefficient is coded after the ZRLs of its run, with the run's
      remaining 0..15 zeros in its symbol. */
  function AcSyms(z: seq<int>, i: nat, r: nat): seq<Sym>
    requires Block(z) && 1 <= i <= 64
    decreases 64 - i
  {
    if i == 64 then []
    else if z[i] == 0 then
      if i == 63 then [Eob] else AcSyms(z, i + 1, r + 1)
    else Zrls(r) + [AcSym(z[i], r % 16)] + AcSyms(z, i + 1, 0)
  }

  /** A nonzero coefficient: the ZRLs of its run and its own symbol come next. */
  lemma {:induction false} AcSymsNonzero(sent: seq<Sym>, z: seq<int>, i: nat, r: nat)
    requires Block(z) && 1 <= i < 64 && z[i] != 0
    ensures sent + AcSyms(z, i, r) == sent + Zrls(r) + [AcSym(z[i], r % 16)] + AcSyms(z, i + 1, 0)
  {
    assert AcSyms(z, i, r) == Zrls(r) + [AcSym(z[i], r % 16)] + AcSyms(z, i + 1, 0);
    AppendRegroup(sent, Zrls(r), [AcSym(z[i], r % 16)], AcSyms(z, i + 1, 0));
  }

  lemma {:induction false} AppendRegroup<T>(a: seq<T>, b: seq<T>, c: seq<T>, d: seq<T>)
    ensures a + (b + c + d) == a + b + c + d
  {
  }

  /** The symbols of a block's AC coefficients. */
  function BlockAcSyms(z: seq<int>): seq<Sym>
    requires Block(z)
  {
    AcSyms(z, 1, 0)
  }

  /** Every AC symbol is a byte value: the ones write_block_dry counts fit its 257 counters. */
  lemma {:induction false} AcSymsValues(z: seq<int>, i: nat, r: nat)
    requires Block(z) && 1 <= i <= 64
    ensures forall j | 0 <= j < |AcSyms(z, i, r)| :: 0 <= AcSyms(z, i, r)[j].value < 0x100
    decreases 64 - i
  {
    if i < 64 {
      if z[i] == 0 {
        if i < 63 {
          AcSymsValues(z, i + 1, r + 1);
        }
      } else {
        AcSymsValues(z, i + 1, 0);
      }
    }
  }

  /** The AC coefficients of a block are within the 15 bits a category nibble can name. */
  predicate AcInRange(z: seq<int>)
    requires Block(z)
  {
    forall k | 1 <= k < 64 :: Abs(z[k]) < 0x8000
  }

  /** The symbol of a nonzero AC coefficient of at most 15 bits names its category and its run,
      so it is never the end of block. */
  lemma {:induction false} AcSymNibbles(c: int, zrl: nat)
    requires 0 < Abs(c) < 0x8000
    ensures var s := AcSym(c, zrl);
            && 1 <= s.size <= 15 && s.value != 0
            && Category(s.value) == s.size && ZeroRun(s.value) == zrl % 16
  {
    var cat := BitLength(Abs(c));
    assert 1 <= cat <= 15 by {
      BitLengthBounds(Abs(c));
      assert Pow2(15) == 0x8000 by { Pow2Word(); }
      BitLengthBelow(Abs(c), 15);
    }
    CategoryNibble(cat, zrl);
  }

  /** A category from 1 to 15 is the low nibble of the symbol it makes, which is therefore not
      zero. */
  lemma {:induction false} CategoryNibble(cat: nat, zrl: nat)
    requires 1 <= cat <= 15
    ensures var v := CatZrlToValue(cat, zrl);
            v != 0 && Category(v) == cat && ZeroRun(v) == zrl % 16
  {
    assert cat % 16 == cat;
  }

  /* ---------------------------------------------------------------------------------------- */
  /* Symbols as bits                                                                          */
  /* ---------------------------------------------------------------------------------------- */

  /** An hcode's contents within the ranges of their C types. */
  predicate Coded(t: CodeTable) {
    && Shaped(t)
    && ByteValues(t)
    && (forall k | 0 <= k < 256 :: 0 <= t.sizes[k])
    && (forall k | 0 <= k < 256 :: 0 <= t.codes[k] < Word)
  }

  lemma {:induction false} TableCoded(h: HCode)
    requires h.Valid()
    ensures Coded(Table(h))
  {
  }

  /** Every symbol of a list has a code in the table. */
  predicate Present(t: CodeTable, ss: seq<Sym>)
    requires Shaped(t)
  {
    forall j | 0 <= j < |ss| :: ValueIndex(t, ss[j].value).Some?
  }

  /** The bits write_code then write_extra_bits send for a symbol. */
  function SymBits(t: CodeTable, x: Sym): (bs: seq<Bit>)
    requires Coded(t) && ValueIndex(t, x.value).Some?
  {
    var k := ValueIndex(t, x.value).value;
    LowBits(t.codes[k], t.sizes[k]) + LowBits(x.extra, x.size)
  }

  /** The bits of a list of symbols, one after the other. */
  function SymsBits(t: CodeTable, ss: seq<Sym>): (bs: seq<Bit>)
    requires Coded(t) && Present(t, ss)
    decreases |ss|
  {
    if |ss| == 0 then [] else SymsBits(t, ss[..|ss| - 1]) + SymBits(t, ss[|ss| - 1])
  }

  lemma {:induction false} SymsBitsAppend(t: CodeTable, a: seq<Sym>, b: seq<Sym>)
    requires Coded(t) && Present(t, a) && Present(t, b)
    ensures Present(t, a + b) && SymsBits(t, a + b) == SymsBits(t, a) + SymsBits(t, b)
    decreases |b|
  {
    if |b| > 0 {
      var b' := b[..|b| - 1];
      assert (a + b)[..|a + b| - 1] == a + b';
      SymsBitsAppend(t, a, b');
    } else {
      assert a + b == a;
    }
  }

  /** Bytes sent through put_bit: from writer state w0 and stream data d0, sending the bits bs
      reaches writer state w1 and stream data d1. */
  ghost predicate Sent(w0: Writer, d0: seq<byte>, w1: Writer, d1: seq<byte>, bs: seq<Bit>)
    requires w0.count < 8
  {
    w1 == PutBitsF(w0, bs).0 && d1 == d0 + Stuffed(PutBitsF(w0, bs).1)
  }

  lemma {:induction false} SentThen(w0: Writer, d0: seq<byte>, w1: Writer, d1: seq<byte>, w2: Writer, d2: seq<byte>,
                 a: seq<Bit>, b: seq<Bit>)
    requires w0.count < 8 && w1.count < 8
    requires Sent(w0, d0, w1, d1, a) && Sent(w1, d1, w2, d2, b)
    ensures Sent(w0, d0, w2, d2, a + b)
  {
    var A := PutBitsF(w0, a);
    var B := PutBitsF(w1, b);
    assert PutBitsF(w0, a + b) == (B.0, A.1 + B.1) by {
      PutBitsAppend(w0, a, b);
    }
    assert Stuffed(A.1 + B.1) == Stuffed(A.1) + Stuffed(B.1) by {
      StuffedAppend(A.1, B.1);
    }
  }

  /** One more symbol sent after a list of them. */
  lemma {:induction false} SentSym(t: CodeTable, w0: Writer, d0: seq<byte>, w1: Writer, d1: seq<byte>,
                w2: Writer, d2: seq<byte>, ss: seq<Sym>, x: Sym)
    requires Coded(t) && Present(t, ss) && ValueIndex(t, x.value).Some?
    requires w0.count < 8 && w1.count < 8
    requires Sent(w0, d0, w1, d1, SymsBits(t, ss)) && Sent(w1, d1, w2, d2, SymBits(t, x))
    ensures Present(t, ss + [x]) && Sent(w0, d0, w2, d2, SymsBits(t, ss + [x]))
  {
    assert (ss + [x])[..|ss|] == ss;
    SentThen(w0, d0, w1, d1, w2, d2, SymsBits(t, ss), SymBits(t, x));
  }

  /* ---------------------------------------------------------------------------------------- */
  /* Writing                                                                                  */
  /* ---------------------------------------------------------------------------------------- */

  /** write_dc: the code of the category, then the extra bits. A category the table lacks is
      NotFound and nothing is sent. */
  method WriteDc(bits: Bits, s: OutStream, hcode: HCode, c: int) returns (err: Status)
    requires hcode.Valid() && bits.count < 8 && Int32(c)
    modifies bits, s
    ensures bits.count < 8 && Coded(Table(hcode))
    ensures var x := DcSym(c);
            && (ValueIndex(Table(hcode), x.value).None? ==>
                  err == NotFound && bits.byte == old(bits.byte) && bits.count == old(bits.count)
                  && s.data == old(s.data))
            && (ValueIndex(Table(hcode), x.value).Some? ==>
                  err == Success && Sent(old(Writer(bits.byte, bits.count)), old(s.data),
                                         Writer(bits.byte, bits.count), s.data, SymBits(Table(hcode), x)))
  {
    ghost var w0 := Writer(bits.byte, bits.count);
    ghost var d0 := s.data;
    var cat := EncodeCat(c);
    var extra := EncodeExtra(c, cat);
    err := WriteCode(bits, s, hcode, cat);
    if err != Success {
      return;
    }
    ghost var w1 := Writer(bits.byte, bits.count);
    ghost var d1 := s.data;
    WriteExtraBits(bits, s, cat, extra);
    var k := ValueIndex(Table(hcode), cat).value;
    SentThen(w0, d0, w1, d1, Writer(bits.byte, bits.count), s.data,
             LowBits(hcode.huffCode[k], hcode.huffSize[k]), LowBits(extra, cat));
  }

  /** The symbol write_ac sends for a struct coeff_ac. */
  function AcSymOf(eob: bool, zrl: nat, c: int): Sym
    requires Int32(c)
  {
    if eob then Eob else AcSym(c, zrl)
  }

  /** write_ac: an end of block is value 0 without extra bits (its coefficient is cleared
      first); otherwise RRRRSSSS from the run and the category, then the extra bits. */
  method WriteAc(bits: Bits, s: OutStream, hcode: HCode, eob: bool, zrl: nat, c: int)
      returns (err: Status)
    requires hcode.Valid() && bits.count < 8 && zrl < 0x100 && Int32(c)
    modifies bits, s
    ensures bits.count < 8 && Coded(Table(hcode))
    ensures var x := AcSymOf(eob, zrl, c);
            && (ValueIndex(Table(hcode), x.value).None? ==>
                  err == NotFound && bits.byte == old(bits.byte) && bits.count == old(bits.count)
                  && s.data == old(s.data))
            && (ValueIndex(Table(hcode), x.value).Some? ==>
                  err == Success && Sent(old(Writer(bits.byte, bits.count)), old(s.data),
                                         Writer(bits.byte, bits.count), s.data, SymBits(Table(hcode), x)))
  {
    ghost var w0 := Writer(bits.byte, bits.count);
    ghost var d0 := s.data;
    var c := c;
    if eob {
      c := 0;
    }
    var cat := EncodeCat(c);
    var extra := EncodeExtra(c, cat);
    var rs := CatZrlToValue(cat, zrl);
    if eob {
      cat := 0;
      rs := 0;
    }
    err := WriteCode(bits, s, hcode, rs);
    if err != Success {
      return;
    }
    ghost var w1 := Writer(bits.byte, bits.count);
    ghost var d1 := s.data;
    WriteExtraBits(bits, s, cat, extra);
    var k := ValueIndex(Table(hcode), rs).value;
    SentThen(w0, d0, w1, d1, Writer(bits.byte, bits.count), s.data,
             LowBits(hcode.huffCode[k], hcode.huffSize[k]), LowBits(extra, cat));
  }

  /** The coefficients of a block in natural order (struct int_block), read in zigzag order. */
  function Zigzagged(c: seq<int>): (z: seq<int>)
    requires |c| == 64
    ensures |z| == 64 && forall k | 0 <= k < 64 :: 0 <= Zigzag[k] < 64 && z[k] == c[Zigzag[k]]
  {
    ZigzagInverse();
    seq(64, k requires 0 <= k < 64 => c[Zigzag[k]])
  }

  /** Coefficients in zigzag order put back in natural order. */
  function Natural(z: seq<int>): (c: seq<int>)
    requires |z| == 64
    ensures |c| == 64 && forall p | 0 <= p < 64 :: 0 <= ZigzagPosition[p] < 64 && c[p] == z[ZigzagPosition[p]]
  {
    ZigzagPositionInverse();
    seq(64, p requires 0 <= p < 64 => z[ZigzagPosition[p]])
  }

  /** The two orders are inverse to each other. */
  lemma {:induction false} NaturalZigzagged(c: seq<int>, z: seq<int>)
    requires |c| == 64 && |z| == 64
    ensures Natural(Zigzagged(c)) == c && Zigzagged(Natural(z)) == z
  {
    ZigzagInverse();
    ZigzagPositionInverse();
    assert forall p | 0 <= p < 64 :: Natural(Zigzagged(c))[p] == c[p];
    assert forall k | 0 <= k < 64 :: Zigzagged(Natural(z))[k] == z[k];
  }

  /** A block of int32_t coefficients in natural order. */
  lemma {:induction false} ZigzaggedBlock(c: seq<int>)
    requires |c| == 64 && forall p | 0 <= p < 64 :: Int32(c[p])
    ensures Block(Zigzagged(c))
  {
  }

  /** A list holding a symbol the table lacks is not all present. */
  lemma {:induction false} Missing(t: CodeTable, full: seq<Sym>, sent: seq<Sym>, x: Sym, rest: seq<Sym>)
    requires Shaped(t) && full == sent + [x] + rest && ValueIndex(t, x.value).None?
    ensures !Present(t, full)
  {
    assert full[|sent|] == x;
  }

  /** The symbols sent so far all have codes, and their bits took the writer from state w1
      and stream data d1 to state w and data d. */
  ghost predicate Progress(t: CodeTable, w1: Writer, d1: seq<byte>, w: Writer, d: seq<byte>, sent: seq<Sym>)
    requires Coded(t) && w1.count < 8
  {
    Present(t, sent) && Sent(w1, d1, w, d, SymsBits(t, sent))
  }

  /** write_ac with the bookkeeping of write_block's loop: one more symbol sent, or NotFound. */
  method SendAc(bits: Bits, s: OutStream, hac: HCode, eob: bool, zrl: nat, c: int, ghost t: CodeTable,
                ghost w1: Writer, ghost d1: seq<byte>, ghost sent: seq<Sym>) returns (err: Status)
    requires hac.Valid() && bits.count < 8 && zrl < 0x100 && Int32(c) && w1.count < 8
    requires t == Table(hac) && Coded(t)
    requires Progress(t, w1, d1, Writer(bits.byte, bits.count), s.data, sent)
    modifies bits, s
    ensures bits.count < 8
    ensures err == Success <==> ValueIndex(t, AcSymOf(eob, zrl, c).value).Some?
    ensures err != Success ==> err == NotFound
    ensures err == Success ==>
              Progress(t, w1, d1, Writer(bits.byte, bits.count), s.data, sent + [AcSymOf(eob, zrl, c)])
  {
    ghost var wm, dm := Writer(bits.byte, bits.count), s.data;
    err := WriteAc(bits, s, hac, eob, zrl, c);
    if err == Success {
      SentSym(t, w1, d1, wm, dm, Writer(bits.byte, bits.count), s.data, sent, AcSymOf(eob, zrl, c));
    }
  }

  /** The ZRLs write_block sends ahead of a nonzero coefficient: one for every 16 zeros while
      more than 15 are pending; the zeros left are the run coded with the coefficient. */
  method WriteZrls(bits: Bits, s: OutStream, hac: HCode, r: nat, ghost t: CodeTable,
                   ghost w1: Writer, ghost d1: seq<byte>, ghost sent: seq<Sym>) returns (err: Status, k: nat)
    requires hac.Valid() && bits.count < 8 && w1.count < 8 && t == Table(hac) && Coded(t)
    requires Progress(t, w1, d1, Writer(bits.byte, bits.count), s.data, sent)
    modifies bits, s
    ensures bits.count < 8
    ensures err == Success ==>
              k == r % 16 && Progress(t, w1, d1, Writer(bits.byte, bits.count), s.data, sent + Zrls(r))
    ensures err != Success ==> err == NotFound && r > 15 && ValueIndex(t, Zrl.value).None?
  {
    k := r;
    ghost var j: nat := 0;
    ghost var cur := sent;
    err := Success;
    while k > 15
      invariant bits.count < 8 && err == Success && r == k + 16 * j
      invariant cur + Zrls(k) == sent + Zrls(r)
      invariant Progress(t, w1, d1, Writer(bits.byte, bits.count), s.data, cur)
      decreases k
    {
      err := SendZrl(bits, s, hac, t, w1, d1, cur);
      if err != Success {
        return;
      }
      ZrlsStep(cur, k);
      cur := cur + [Zrl];
      k := k - 16;
      j := j + 1;
    }
    assert k == r % 16 by {
      DivModUnique(r, 16, j, k);
    }
    assert cur == sent + Zrls(r) by {
      assert Zrls(k) == [] && cur + [] == cur;
    }
  }

  /** One ZRL sent, or NotFound when the AC table has no code for it. */
  method SendZrl(bits: Bits, s: OutStream, hac: HCode, ghost t: CodeTable, ghost w1: Writer,
                 ghost d1: seq<byte>, ghost sent: seq<Sym>) returns (err: Status)
    requires hac.Valid() && bits.count < 8 && w1.count < 8 && t == Table(hac) && Coded(t)
    requires Progress(t, w1, d1, Writer(bits.byte, bits.count), s.data, sent)
    modifies bits, s
    ensures bits.count < 8
    ensures err == Success ==> Progress(t, w1, d1, Writer(bits.byte, bits.count), s.data, sent + [Zrl])
    ensures err != Success ==> err == NotFound && ValueIndex(t, Zrl.value).None?
  {
    ZrlSym();
    err := SendAc(bits, s, hac, false, 15, 0, t, w1, d1, sent);
  }

  /** Sending one ZRL leaves the ZRLs of a run 16 shorter. */
  lemma {:induction false} ZrlsStep(cur: seq<Sym>, k: nat)
    requires k > 15
    ensures cur + [Zrl] + Zrls(k - 16) == cur + Zrls(k)
  {
    assert Zrls(k) == [Zrl] + Zrls(k - 16);
  }

  /** One step of write_block's AC loop at zig-zag index i with r zeros pending: a zero only
      lengthens the run (or, at index 63, sends EOB); a nonzero coefficient sends the pending ZRL
      symbols and its own symbol. */
  method WriteAcStep(bits: Bits, s: OutStream, hac: HCode, block: array<int>, i: nat, r: nat,
                     ghost t: CodeTable, ghost z: seq<int>, ghost w1: Writer, ghost d1: seq<byte>,
                     ghost sent: seq<Sym>) returns (err: Status, r': nat, ghost sent': seq<Sym>)
    requires hac.Valid() && bits.count < 8 && w1.count < 8 && t == Table(hac) && Coded(t)
    requires block.Length == 64 && z == Zigzagged(block[..]) && Block(z) && 1 <= i < 64 && r < i
    requires Progress(t, w1, d1, Writer(bits.byte, bits.count), s.data, sent)
    modifies bits, s
    ensures bits.count < 8
    ensures err == Success ==>
              r' <= i && sent + AcSyms(z, i, r) == sent' + AcSyms(z, i + 1, r')
              && Progress(t, w1, d1, Writer(bits.byte, bits.count), s.data, sent')
    ensures err != Success ==> err == NotFound && !Present(t, sent + AcSyms(z, i, r))
  {
    ghost var full := sent + AcSyms(z, i, r);
    r', sent' := 0, sent;
    if block[Zigzag[i]] == 0 {
      if i == 63 {
        err := SendAc(bits, s, hac, true, 0, 0, t, w1, d1, sent);
        if err != Success {
          Missing(t, full, sent, Eob, []);
          return;
        }
        sent' := sent + [Eob];
        r' := 0;
      } else {
        err, r' := Success, r + 1;
        sent' := sent;
      }
    } else {
      err, sent' := WriteNonzero(bits, s, hac, block[Zigzag[i]], i, r, t, z, w1, d1, sent);
    }
  }

  /** The nonzero branch of write_block's AC loop: the pending ZRL symbols, then the coefficient
      coded with the zeros left over. */
  method WriteNonzero(bits: Bits, s: OutStream, hac: HCode, c: int, i: nat, r: nat,
                      ghost t: CodeTable, ghost z: seq<int>, ghost w1: Writer, ghost d1: seq<byte>,
                      ghost sent: seq<Sym>) returns (err: Status, ghost sent': seq<Sym>)
    requires hac.Valid() && bits.count < 8 && w1.count < 8 && t == Table(hac) && Coded(t)
    requires Block(z) && 1 <= i < 64 && r < i && c == z[i] && c != 0
    requires Progress(t, w1, d1, Writer(bits.byte, bits.count), s.data, sent)
    modifies bits, s
    ensures bits.count < 8
    ensures err == Success ==>
              sent + AcSyms(z, i, r) == sent' + AcSyms(z, i + 1, 0)
              && Progress(t, w1, d1, Writer(bits.byte, bits.count), s.data, sent')
    ensures err != Success ==> err == NotFound && !Present(t, sent + AcSyms(z, i, r))
  {
    ghost var full := sent + AcSyms(z, i, r);
    AcSymsNonzero(sent, z, i, r);
    sent' := sent;
    var k;
    err, k := WriteZrls(bits, s, hac, r, t, w1, d1, sent);
    if err != Success {
      assert full[|sent|] == Zrls(r)[0];
      return;
    }
    ghost var mid := sent + Zrls(r);
    err := SendAc(bits, s, hac, false, k, c, t, w1, d1, mid);
    if err != Success {
      assert full[|mid|] == AcSym(z[i], k);
      return;
    }
    sent' := mid + [AcSym(z[i], k)];
  }

  /** The AC part of write_block's loop: the runs of zeros, the coefficients and the final EOB
      of one block, coded with the AC table. */
  method WriteAcs(bits: Bits, s: OutStream, hac: HCode, block: array<int>, ghost t: CodeTable,
                  ghost z: seq<int>) returns (err: Status)
    requires hac.Valid() && bits.count < 8 && t == Table(hac) && Coded(t)
    requires block.Length == 64 && z == Zigzagged(block[..]) && Block(z)
    modifies bits, s
    ensures bits.count < 8
    ensures err == Success <==> Present(t, BlockAcSyms(z))
    ensures err != Success ==> err == NotFound
    ensures err == Success ==>
              Sent(old(Writer(bits.byte, bits.count)), old(s.data), Writer(bits.byte, bits.count),
                   s.data, SymsBits(t, BlockAcSyms(z)))
  {
    ghost var w1 := Writer(bits.byte, bits.count);
    ghost var d1 := s.data;
    ghost var full := BlockAcSyms(z);
    ghost var sent: seq<Sym> := [];
    var r := 0;
    for i := 1 to 64
      invariant 0 <= r < i && bits.count < 8
      invariant full == sent + AcSyms(z, i, r)
      invariant Progress(t, w1, d1, Writer(bits.byte, bits.count), s.data, sent)
    {
      err, r, sent := WriteAcStep(bits, s, hac, block, i, r, t, z, w1, d1, sent);
      if err != Success {
        return;
      }
    }
    assert full == sent;
    err := Success;
  }

  /** write_block: the DC difference, then the AC coefficients as write_block's loop codes them
      (Figure F.2 of ITU-T T.81). It succeeds exactly when every symbol has a code, and then
      sends the bits of the DC symbol followed by those of the AC symbols; otherwise the first
      symbol without a code stops it with NotFound. */
  method WriteBlock(bits: Bits, s: OutStream, hdc: HCode, hac: HCode, block: array<int>)
      returns (err: Status)
    requires hdc.Valid() && hac.Valid() && bits.count < 8
    requires block.Length == 64 && forall p | 0 <= p < 64 :: Int32(block[p])
    modifies bits, s
    ensures bits.count < 8 && Coded(Table(hdc)) && Coded(Table(hac))
    ensures var z := Zigzagged(block[..]);
            && Block(z)
            && (err == Success <==>
                  Present(Table(hdc), [DcSym(z[0])]) && Present(Table(hac), BlockAcSyms(z)))
            && (err != Success ==> err == NotFound)
            && (err == Success ==>
                  Sent(old(Writer(bits.byte, bits.count)), old(s.data), Writer(bits.byte, bits.count),
                       s.data, SymsBits(Table(hdc), [DcSym(z[0])]) + SymsBits(Table(hac), BlockAcSyms(z))))
  {
    ghost var w0 := Writer(bits.byte, bits.count);
    ghost var d0 := s.data;
    ghost var z := Zigzagged(block[..]);
    ZigzaggedBlock(block[..]);
    ZigzagEnds();
    ghost var tdc := Table(hdc);
    ghost var tac := Table(hac);
    TableCoded(hac);
    err := WriteDc(bits, s, hdc, block[Zigzag[0]]);
    PresentOne(tdc, DcSym(z[0]));
    if err != Success {
      return;
    }
    ghost var w1 := Writer(bits.byte, bits.count);
    ghost var d1 := s.data;
    err := WriteAcs(bits, s, hac, block, tac, z);
    if err == Success {
      SentThen(w0, d0, w1, d1, Writer(bits.byte, bits.count), s.data, SymsBits(tdc, [DcSym(z[0])]),
               SymsBits(tac, BlockAcSyms(z)));
    }
  }

  /** A one-symbol list is present exactly when its symbol has a code, and then its bits are
      that symbol's bits. */
  lemma {:induction false} PresentOne(t: CodeTable, x: Sym)
    requires Coded(t)
    ensures Present(t, [x]) <==> ValueIndex(t, x.value).Some?
    ensures Present(t, [x]) ==> SymsBits(t, [x]) == SymBits(t, x)
  {
    assert [x][0] == x;
    if Present(t, [x]) {
      assert [x][..0] == [];
    }
  }

  /* ---------------------------------------------------------------------------------------- */
  /* Counting symbols without writing them                                                    */
  /* ---------------------------------------------------------------------------------------- */

  /** Every symbol value is a byte, a slot of the 257 frequency counters. */
  predicate Bytes(ss: seq<Sym>) {
    forall j | 0 <= j < |ss| :: 0 <= ss[j].value < 0x100
  }

  /** The counters after one increment per symbol, in order. */
  function Tally(f: seq<int>, ss: seq<Sym>): (g: seq<int>)
    requires |f| == 257 && Bytes(ss)
    ensures |g| == 257
    decreases |ss|
  {
    if ss == [] then f
    else
      var g := Tally(f, ss[..|ss| - 1]);
      var v := ss[|ss| - 1].value;
      g[v := g[v] + 1]
  }

  /** How often value v occurs among the symbols. */
  function Occurrences(ss: seq<Sym>, v: int): nat {
    if ss == [] then 0 else (if ss[0].value == v then 1 else 0) + Occurrences(ss[1..], v)
  }

  lemma {:induction false} OccurrencesAppend(a: seq<Sym>, b: seq<Sym>, v: int)
    ensures Occurrences(a + b, v) == Occurrences(a, v) + Occurrences(b, v)
  {
    if a != [] {
      assert (a + b)[1..] == a[1..] + b;
      OccurrencesAppend(a[1..], b, v);
    } else {
      assert a + b == b;
    }
  }

  /** Tallying adds to each counter the number of symbols with its value. */
  lemma {:induction false} TallyOccurrences(f: seq<int>, ss: seq<Sym>, v: int)
    requires |f| == 257 && Bytes(ss) && 0 <= v < 257
    ensures Tally(f, ss)[v] == f[v] + Occurrences(ss, v)
    decreases |ss|
  {
    if ss != [] {
      var init, x := ss[..|ss| - 1], ss[|ss| - 1];
      assert ss == init + [x];
      TallyOccurrences(f, init, v);
      OccurrencesAppend(init, [x], v);
      assert [x][1..] == [];
    }
  }

  /** One more symbol counted. */
  lemma {:induction false} TallySnoc(f: seq<int>, ss: seq<Sym>, x: Sym)
    requires |f| == 257 && Bytes(ss) && 0 <= x.value < 0x100
    ensures Bytes(ss + [x])
    ensures Tally(f, ss + [x]) == Tally(f, ss)[x.value := Tally(f, ss)[x.value] + 1]
  {
    assert (ss + [x])[..|ss|] == ss;
  }

  /** The counter of value v goes up by one. */
  method Bump(freq: array<int>, v: int)
    requires freq.Length == 257 && 0 <= v < 257
    modifies freq
    ensures freq[..] == old(freq[..])[v := old(freq[v]) + 1]
  {
    freq[v] := freq[v] + 1;
  }

  /** The ZRLs write_block_dry counts ahead of a nonzero coefficient. */
  method DryZrls(ac: HuffEnc, r: nat, ghost f: seq<int>, ghost sent: seq<Sym>) returns (k: nat)
    requires ac.Valid() && |f| == 257 && Bytes(sent) && ac.freq[..] == Tally(f, sent)
    modifies ac.freq
    ensures k == r % 16 && Bytes(sent + Zrls(r)) && ac.freq[..] == Tally(f, sent + Zrls(r))
  {
    ghost var zs := Zrls(r);
    k := r;
    ghost var j: nat := 0;
    ghost var cur := sent;
    while k > 15
      invariant r == k + 16 * j && j <= |zs| && cur == sent + zs[..j]
      invariant k > 15 ==> j < |zs|
      invariant Bytes(cur) && ac.freq[..] == Tally(f, cur)
      decreases k
    {
      Bump(ac.freq, CatZrlToValue(0, 15));
      TallySnoc(f, cur, Zrl);
      assert zs[..j + 1] == zs[..j] + [Zrl];
      cur := cur + [Zrl];
      k := k - 16;
      j := j + 1;
    }
    assert j == |zs| && k == r % 16 by {
      DivModUnique(r, 16, j, k);
    }
    assert cur == sent + zs;
  }

  /** A nonzero coefficient after r zeros, as write_block_dry counts it: its ZRLs, then its
      own symbol. */
  method DryCoeff(ac: HuffEnc, c: int, r: nat, ghost f: seq<int>, ghost sent: seq<Sym>)
    requires ac.Valid() && |f| == 257 && Int32(c) && Bytes(sent) && ac.freq[..] == Tally(f, sent)
    modifies ac.freq
    ensures Bytes(sent + Zrls(r) + [AcSym(c, r % 16)])
    ensures ac.freq[..] == Tally(f, sent + Zrls(r) + [AcSym(c, r % 16)])
  {
    var k := DryZrls(ac, r, f, sent);
    var cat := EncodeCat(c);
    Bump(ac.freq, CatZrlToValue(cat, k));
    TallySnoc(f, sent + Zrls(r), AcSym(c, k));
  }

  /** One step of write_block_dry's AC loop at zig-zag index i with r zeros pending. */
  method DryAcStep(ac: HuffEnc, block: array<int>, i: nat, r: nat, ghost f: seq<int>,
                   ghost z: seq<int>, ghost sent: seq<Sym>) returns (r': nat, ghost sent': seq<Sym>)
    requires ac.Valid() && |f| == 257 && block != ac.freq
    requires block.Length == 64 && z == Zigzagged(block[..]) && Block(z) && 1 <= i < 64 && r < i
    requires Bytes(sent) && ac.freq[..] == Tally(f, sent)
    modifies ac.freq
    ensures r' <= i && sent + AcSyms(z, i, r) == sent' + AcSyms(z, i + 1, r')
    ensures Bytes(sent') && ac.freq[..] == Tally(f, sent')
  {
    r', sent' := 0, sent;
    if block[Zigzag[i]] == 0 {
      if i == 63 {
        Bump(ac.freq, 0);
        TallySnoc(f, sent, Eob);
        sent' := sent + [Eob];
        assert Bytes(sent');
        assert ac.freq[..] == Tally(f, sent');
      } else {
        r' := r + 1;
      }
    } else {
      sent' := DryNonzero(ac, block[Zigzag[i]], i, r, f, z, sent);
    }
  }

  /** The nonzero branch of write_block_dry's AC loop. */
  method DryNonzero(ac: HuffEnc, c: int, i: nat, r: nat, ghost f: seq<int>, ghost z: seq<int>,
                    ghost sent: seq<Sym>) returns (ghost sent': seq<Sym>)
    requires ac.Valid() && |f| == 257 && Block(z) && 1 <= i < 64 && c == z[i] && c != 0
    requires Bytes(sent) && ac.freq[..] == Tally(f, sent)
    modifies ac.freq
    ensures sent + AcSyms(z, i, r) == sent' + AcSyms(z, i + 1, 0)
    ensures Bytes(sent') && ac.freq[..] == Tally(f, sent')
  {
    AcSymsNonzero(sent, z, i, r);
    DryCoeff(ac, c, r, f, sent);
    sent' := sent + Zrls(r) + [AcSym(z[i], r % 16)];
  }

  /** write_block_dry: the DC category and the AC symbols of the block, counted in the
      frequencies of the DC and AC tables, exactly the symbols write_block would send. */
  method WriteBlockDry(dc: HuffEnc, ac: HuffEnc, block: array<int>)
    requires dc.Valid() && ac.Valid() && dc.freq != ac.freq
    requires block != dc.freq && block != ac.freq
    requires block.Length == 64 && forall p | 0 <= p < 64 :: Int32(block[p])
    modifies dc.freq, ac.freq
    ensures var z := Zigzagged(block[..]);
            && Block(z) && Bytes([DcSym(z[0])]) && Bytes(BlockAcSyms(z))
            && dc.freq[..] == Tally(old(dc.freq[..]), [DcSym(z[0])])
            && ac.freq[..] == Tally(old(ac.freq[..]), BlockAcSyms(z))
  {
    ghost var z := Zigzagged(block[..]);
    ZigzaggedBlock(block[..]);
    ZigzagEnds();
    ghost var fdc := dc.freq[..];
    ghost var fac := ac.freq[..];
    var cat := EncodeCat(block[Zigzag[0]]);
    Bump(dc.freq, cat);
    TallySnoc(fdc, [], DcSym(z[0]));
    assert [] + [DcSym(z[0])] == [DcSym(z[0])];
    ghost var full := BlockAcSyms(z);
    ghost var sent: seq<Sym> := [];
    var r := 0;
    for i := 1 to 64
      invariant 0 <= r < i
      invariant full == sent + AcSyms(z, i, r)
      invariant Bytes(sent) && ac.freq[..] == Tally(fac, sent)
      invariant dc.freq[..] == Tally(fdc, [DcSym(z[0])])
    {
      r, sent := DryAcStep(ac, block, i, r, fac, z, sent);
    }
    assert full == sent;
  }
}
