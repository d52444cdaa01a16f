/// The reading half of Decoders/JPEG/coeffs.c: read_dc, read_ac and read_block, each proved
/// against a function of the bits still to be read, and the round trip from the symbols
/// write_block sends back to the block's coefficients.
module JpegCoeffsRead {
  import opened Arith
  import opened JpegCommon
  import opened JpegIo
  import opened JpegHuffman
  import opened JpegCoeffs

  /* ---------------------------------------------------------------------------------------- */
  /* One coefficient                                                                          */
  /* ---------------------------------------------------------------------------------------- */

  /** read_dc on the pending bits P: the category's code, then that many extra bits, composed
      into the coefficient; None when the bits run out first (or no code matches). */
  function ReadDcF(t: CodeTable, P: seq<Bit>): (r: Option<(int, seq<Bit>)>)
    requires Coded(t)
    ensures r.Some? ==> |r.value.1| < |P|
  {
    match Decode(t, P)
    case None => None
    case Some((cat, n)) =>
      var R := P[n..];
      if cat > |R| then None
      else Some((DecodeCoeff(cat, BitsValue(R[..cat]) % Word), R[cat..]))
  }

  /** An AC coefficient as read_ac hands it to read_block. */
  datatype AcCoeff = AcCoeff(eob: bool, zrl: nat, c: int)

  /** read_ac on the pending bits P: the RRRRSSSS symbol, then SSSS extra bits; the symbol 0 is
      the end of block. */
  function ReadAcF(t: CodeTable, P: seq<Bit>): (r: Option<(AcCoeff, seq<Bit>)>)
    requires Coded(t)
    ensures r.Some? ==> |r.value.1| < |P| && r.value.0.zrl < 16
  {
    match Decode(t, P)
    case None => None
    case Some((rs, n)) =>
      var R := P[n..];
      var cat := Category(rs);
      if cat > |R| then None
      else Some((AcCoeff(rs == 0, ZeroRun(rs), DecodeCoeff(cat, BitsValue(R[..cat]) % Word)), R[cat..]))
  }

  /** read_dc: what ReadDcF says, and on a failure the stream's stop status with nothing left. */
  method ReadDc(bits: Bits, s: InStream, hcode: HCode) returns (err: Status, c: int)
    requires hcode.Valid() && bits.count <= 8
    modifies bits, s
    ensures bits.count <= 8 && EcsStop(s) == old(EcsStop(s)) && old(s.pos) <= s.pos && Coded(Table(hcode))
    ensures var r := ReadDcF(Table(hcode), old(Pending(bits, s)));
            && (r.Some? ==> err == Success && c == r.value.0 && Pending(bits, s) == r.value.1)
            && (r.None? ==> err == old(EcsStop(s)).0 && Pending(bits, s) == [])
  {
    TableCoded(hcode);
    ghost var P := Pending(bits, s);
    c := 0;
    var cat;
    err, cat := ReadCode(bits, s, hcode);
    if err != Success {
      return;
    }
    var extra;
    err, extra := ReadExtraBits(bits, s, cat);
    if err != Success {
      return;
    }
    c := DecodeCoeff(cat, extra);
  }

  /** read_ac: what ReadAcF says, and on a failure the stream's stop status with nothing left. */
  method ReadAc(bits: Bits, s: InStream, hcode: HCode) returns (err: Status, a: AcCoeff)
    requires hcode.Valid() && bits.count <= 8
    modifies bits, s
    ensures bits.count <= 8 && EcsStop(s) == old(EcsStop(s)) && old(s.pos) <= s.pos && Coded(Table(hcode))
    ensures var r := ReadAcF(Table(hcode), old(Pending(bits, s)));
            && (r.Some? ==> err == Success && a == r.value.0 && Pending(bits, s) == r.value.1)
            && (r.None? ==> err == old(EcsStop(s)).0 && Pending(bits, s) == [])
  {
    TableCoded(hcode);
    ghost var P := Pending(bits, s);
    a := AcCoeff(false, 0, 0);
    var rs;
    err, rs := ReadCode(bits, s, hcode);
    if err != Success {
      return;
    }
    var cat := Category(rs);
    var extra;
    err, extra := ReadExtraBits(bits, s, cat);
    if err != Success {
      return;
    }
    a := AcCoeff(rs == 0, ZeroRun(rs), DecodeCoeff(cat, extra));
  }

  /* ---------------------------------------------------------------------------------------- */
  /* Symbols read back                                                                        */
  /* ---------------------------------------------------------------------------------------- */

  /** In a canonical table the bits of a symbol decode as its value, and the extra bits follow
      the code word. */
  lemma {:induction false} SymDecode(t: CodeTable, x: Sym, rest: seq<Bit>)
    requires Canonical(t) && Coded(t) && ValueIndex(t, x.value).Some?
    ensures var k := ValueIndex(t, x.value).value;
            && Decode(t, SymBits(t, x) + rest) == Some((x.value, t.sizes[k]))
            && (SymBits(t, x) + rest)[t.sizes[k]..] == LowBits(x.extra, x.size) + rest
  {
    var k := ValueIndex(t, x.value).value;
    var code := LowBits(t.codes[k], t.sizes[k]);
    assert SymBits(t, x) + rest == code + (LowBits(x.extra, x.size) + rest);
    CodeRoundTrip(t, x.value, LowBits(x.extra, x.size) + rest);
  }

  /** The extra bits of a symbol read back as its extra value. */
  lemma {:induction false} ExtraRead(x: Sym, rest: seq<Bit>)
    requires x.size <= 16 && x.extra < Pow2(x.size)
    ensures var R := LowBits(x.extra, x.size) + rest;
            && x.size <= |R| && BitsValue(R[..x.size]) % Word == x.extra && R[x.size..] == rest
  {
    var R := LowBits(x.extra, x.size) + rest;
    assert R[..x.size] == LowBits(x.extra, x.size);
    ExtraBitsRoundTrip(x.extra, x.size);
  }

  /** read_dc reads back the DC coefficient write_dc sends (Figure F.12 of ITU-T T.81 undoes
      section F.1.2.1's encoding), whatever follows it. */
  lemma {:induction false} DcRoundTrip(t: CodeTable, c: int, rest: seq<Bit>)
    requires Canonical(t) && Coded(t) && Int32(c) && Abs(c) < Word
    requires ValueIndex(t, DcSym(c).value).Some?
    ensures ReadDcF(t, SymBits(t, DcSym(c)) + rest) == Some((c, rest))
  {
    var x := DcSym(c);
    SymDecode(t, x, rest);
    if c == 0 {
      assert x.size == 0;
      ExtraRead(x, rest);
    } else {
      CoeffRoundTrip(c);
      Pow2Sixteen(x.size);
      ExtraRead(x, rest);
    }
  }

  /** read_ac reads back a nonzero AC coefficient write_ac sends, with its run of zeros. */
  lemma {:induction false} AcRoundTrip(t: CodeTable, c: int, zrl: nat, rest: seq<Bit>)
    requires Canonical(t) && Coded(t) && 0 < Abs(c) < 0x8000
    requires ValueIndex(t, AcSym(c, zrl).value).Some?
    ensures ReadAcF(t, SymBits(t, AcSym(c, zrl)) + rest) == Some((AcCoeff(false, zrl % 16, c), rest))
  {
    var x := AcSym(c, zrl);
    SymDecode(t, x, rest);
    AcSymNibbles(c, zrl);
    CoeffRoundTrip(c);
    Pow2Sixteen(x.size);
    ExtraRead(x, rest);
  }

  /** read_ac reads the EOB symbol back as the end of block. */
  lemma {:induction false} EobRoundTrip(t: CodeTable, rest: seq<Bit>)
    requires Canonical(t) && Coded(t) && ValueIndex(t, Eob.value).Some?
    ensures ReadAcF(t, SymBits(t, Eob) + rest) == Some((AcCoeff(true, 0, 0), rest))
  {
    SymDecode(t, Eob, rest);
    ExtraRead(Eob, rest);
  }

  /** read_ac reads the ZRL symbol back as a run of 15 zeros followed by a zero coefficient. */
  lemma {:induction false} ZrlRoundTrip(t: CodeTable, rest: seq<Bit>)
    requires Canonical(t) && Coded(t) && ValueIndex(t, Zrl.value).Some?
    ensures ReadAcF(t, SymBits(t, Zrl) + rest) == Some((AcCoeff(false, 15, 0), rest))
  {
    SymDecode(t, Zrl, rest);
    ExtraRead(Zrl, rest);
  }

  /* ---------------------------------------------------------------------------------------- */
  /* Whole blocks                                                                             */
  /* ---------------------------------------------------------------------------------------- */

  /** What reading a block comes to: the coefficients in zig-zag order and the bits after them;
      a run of zeros that would reach past position 63; or the bits running out. */
  datatype BlockRead = Got(z: seq<int>, rest: seq<Bit>) | Overrun(rest: seq<Bit>) | Stopped

  /** A block holding only its DC coefficient, in zig-zag order. */
  function DcOnly(dc: int): (z: seq<int>)
    ensures |z| == 64 && z[0] == dc && forall j | 1 <= j < 64 :: z[j] == 0
  {
    [dc] + seq(63, _ => 0)
  }

  /** read_block's AC loop from position i (64 - i positions remain): EOB ends the block, any
      other symbol skips its run of zeros and stores its coefficient; once position 63 is filled
      the block is complete. A run reaching past position 63 is refused as Overrun, where the
      loop as written stores outside the block (see AsWrittenStores). */
  function ReadAcsF(t: CodeTable, P: seq<Bit>, z: seq<int>, i: nat): (r: BlockRead)
    requires Coded(t) && |z| == 64 && 1 <= i < 64
    ensures r.Got? ==> |r.z| == 64
    ensures (r.Got? || r.Overrun?) ==> |r.rest| < |P|
    decreases 64 - i
  {
    match ReadAcF(t, P)
    case None => Stopped
    case Some((a, R)) =>
      if a.eob then Got(z, R)
      else if a.zrl >= 64 - i then Overrun(R)
      else
        var k := i + a.zrl;
        if k + 1 == 64 then Got(z[k := a.c], R) else ReadAcsF(t, R, z[k := a.c], k + 1)
  }

  /** read_block on a target block: the DC coefficient, then the AC loop over a block that
      holds only the DC coefficient. */
  function ReadBlockF(tdc: CodeTable, tac: CodeTable, P: seq<Bit>): (r: BlockRead)
    requires Coded(tdc) && Coded(tac)
    ensures r.Got? ==> |r.z| == 64
    ensures (r.Got? || r.Overrun?) ==> |r.rest| < |P|
  {
    match ReadDcF(tdc, P)
    case None => Stopped
    case Some((dc, R)) => ReadAcsF(tac, R, DcOnly(dc), 1)
  }

  /** The positions read_block's loop, as written, stores at for successive non-EOB symbols
      with the given runs of zeros, starting at position i with rem positions remaining: the
      run is skipped, the coefficient stored, and the loop goes on while rem stays positive.
      Nothing keeps a position below 64. */
  function AsWrittenStores(runs: seq<nat>, i: int, rem: int): (ks: seq<int>)
    ensures |ks| <= |runs|
    ensures |ks| > 0 ==> ks[0] == i + runs[0]
  {
    if runs == [] then []
    else
      var k := i + runs[0];
      var rem' := rem - (runs[0] + 1);
      [k] + (if rem' > 0 then AsWrittenStores(runs[1..], k + 1, rem') else [])
  }

  /** Four ZRL symbols (run 15, coefficient 0) make the loop as written store at position 64,
      one past the end of the zig-zag table and of the block. */
  lemma {:induction false} AsWrittenOverrun()
    ensures AsWrittenStores([15, 15, 15, 15], 1, 63) == [16, 32, 48, 64]
  {
    assert AsWrittenStores([15], 49, 15) == [64];
    assert AsWrittenStores([15, 15], 33, 31) == [48, 64] by {
      assert [15, 15][1..] == [15];
    }
    assert AsWrittenStores([15, 15, 15], 17, 47) == [32, 48, 64] by {
      assert [15, 15, 15][1..] == [15, 15];
    }
    assert [15, 15, 15, 15][1..] == [15, 15, 15];
  }

  /** One turn of read_block's AC loop, as ReadAcsF takes it, once read_ac has read a from
      the bits P and left R. */
  lemma {:induction false} ReadAcsNext(t: CodeTable, P: seq<Bit>, z: seq<int>, i: nat, a: AcCoeff, R: seq<Bit>)
    requires Coded(t) && |z| == 64 && 1 <= i < 64 && ReadAcF(t, P) == Some((a, R))
    ensures a.eob ==> ReadAcsF(t, P, z, i) == Got(z, R)
    ensures !a.eob && a.zrl >= 64 - i ==> ReadAcsF(t, P, z, i) == Overrun(R)
    ensures !a.eob && i + a.zrl + 1 == 64 ==> ReadAcsF(t, P, z, i) == Got(z[i + a.zrl := a.c], R)
    ensures !a.eob && i + a.zrl + 1 < 64 ==>
              ReadAcsF(t, P, z, i) == ReadAcsF(t, R, z[i + a.zrl := a.c], i + a.zrl + 1)
  {
  }

  /** Bits zb that read_ac reads as a ZRL symbol, whatever follows them. */
  ghost predicate ZrlReads(t: CodeTable, zb: seq<Bit>)
    requires Coded(t)
  {
    forall R {:trigger ReadAcF(t, zb + R)} :: ReadAcF(t, zb + R) == Some((AcCoeff(false, 15, 0), R))
  }

  /** In a canonical table that holds it, the code of the ZRL symbol is such bits. */
  lemma {:induction false} ZrlReadsOf(t: CodeTable)
    requires Canonical(t) && Coded(t) && ValueIndex(t, Zrl.value).Some?
    ensures ZrlReads(t, SymBits(t, Zrl))
  {
    forall R
      ensures ReadAcF(t, SymBits(t, Zrl) + R) == Some((AcCoeff(false, 15, 0), R))
    {
      ZrlRoundTrip(t, R);
    }
  }

  /** One ZRL symbol read by the corrected loop at position i: refused from position 49 on,
      where fewer than 16 positions remain; otherwise 16 positions skipped. */
  lemma {:induction false} ZrlStep(t: CodeTable, zb: seq<Bit>, R: seq<Bit>, z: seq<int>, i: nat)
    requires Coded(t) && ZrlReads(t, zb) && |z| == 64 && 1 <= i < 64
    ensures i >= 49 ==> ReadAcsF(t, zb + R, z, i) == Overrun(R)
    ensures i + 16 < 64 ==> ReadAcsF(t, zb + R, z, i) == ReadAcsF(t, R, z[i + 15 := 0], i + 16)
  {
    ReadAcsNext(t, zb + R, z, i, AcCoeff(false, 15, 0), R);
  }

  /** A ZRL symbol read with at least 17 positions left skips 16 of them. */
  lemma {:induction false} ZrlSkip(t: CodeTable, zb: seq<Bit>, R: seq<Bit>, z: seq<int>, i: nat, r: BlockRead)
    requires Coded(t) && ZrlReads(t, zb) && |z| == 64
    requires 1 <= i && i + 16 < 64 && ReadAcsF(t, R, z[i + 15 := 0], i + 16) == r
    ensures ReadAcsF(t, zb + R, z, i) == r
  {
    ZrlStep(t, zb, R, z, i);
  }

  /** Four ZRL symbols from position 1 are refused by the corrected loop, and the bits after
      them are left: the input on which the loop as written stores at position 64
      (AsWrittenOverrun). */
  lemma {:induction false} ZrlsOverrun(t: CodeTable, z: seq<int>, rest: seq<Bit>)
    requires Canonical(t) && Coded(t) && ValueIndex(t, Zrl.value).Some? && |z| == 64
    ensures var b := SymBits(t, Zrl);
            ReadAcsF(t, b + (b + (b + (b + rest))), z, 1) == Overrun(rest)
  {
    var b := SymBits(t, Zrl);
    var z1 := z[16 := 0];
    var z2 := z1[32 := 0];
    var z3 := z2[48 := 0];
    ZrlReadsOf(t);
    ZrlStep(t, b, rest, z3, 49);
    ZrlSkip(t, b, b + rest, z2, 33, Overrun(rest));
    ZrlSkip(t, b, b + (b + rest), z1, 17, Overrun(rest));
    ZrlSkip(t, b, b + (b + (b + rest)), z, 1, Overrun(rest));
  }

  /* ---------------------------------------------------------------------------------------- */
  /* read_block on a block in memory                                                          */
  /* ---------------------------------------------------------------------------------------- */

  /** Storing at natural index Zigzag[k] is storing at zig-zag position k. */
  lemma {:induction false} NaturalUpdate(z: seq<int>, k: nat, c: int)
    requires |z| == 64 && k < 64
    ensures 0 <= Zigzag[k] < 64 && Natural(z)[Zigzag[k] := c] == Natural(z[k := c])
  {
    ZigzagInverse();
    ZigzagPositionInverse();
    var a, b := Natural(z)[Zigzag[k] := c], Natural(z[k := c]);
    forall p | 0 <= p < 64
      ensures a[p] == b[p]
    {
      if p != Zigzag[k] {
        assert Zigzag[ZigzagPosition[p]] == p;
      }
    }
  }

  /** The block is not one of the table's arrays. */
  predicate Apart(block: array<int>, h: HCode) {
    block != h.huffVal && block != h.huffSize && block != h.huffCode && block != h.eHufCo
    && block != h.eHufSi
  }

  /** read_block's start: the DC coefficient at natural index Zigzag[0], every other
      coefficient reset to zero. */
  method ClearBlock(block: array<int>, dc: int)
    requires block.Length == 64
    modifies block
    ensures block[..] == Natural(DcOnly(dc))
  {
    ZigzagPermutation();
    block[Zigzag[0]] := dc;
    for i := 1 to 64
      invariant forall j | 0 <= j < i :: block[Zigzag[j]] == DcOnly(dc)[j]
    {
      block[Zigzag[i]] := 0;
    }
    var z := Zigzagged(block[..]);
    assert z == DcOnly(dc);
    NaturalZigzagged(block[..], z);
  }

  /** int_block->c[zigzag[k]] = c: the coefficient at zig-zag position k. */
  method Store(block: array<int>, k: nat, c: int, ghost z: seq<int>)
    requires block.Length == 64 && k < 64 && |z| == 64 && block[..] == Natural(z)
    modifies block
    ensures block[..] == Natural(z[k := c])
  {
    NaturalUpdate(z, k, c);
    block[Zigzag[k]] := c;
  }

  /** One turn of read_block's do-while loop from position i: read_ac, then on an EOB the end
      of the loop; a run reaching past position 63 is refused; otherwise the run is skipped and
      the coefficient stored, and the loop goes on from next. */
  method AcTurn(bits: Bits, s: InStream, hac: HCode, block: array<int>, ghost t: CodeTable,
                ghost z: seq<int>, i: nat) returns (err: Status, eob: bool, next: nat, ghost z': seq<int>)
    requires hac.Valid() && bits.count <= 8 && t == Table(hac) && Coded(t) && 1 <= i < 64
    requires block.Length == 64 && Apart(block, hac) && |z| == 64 && block[..] == Natural(z)
    modifies bits, s, block
    ensures bits.count <= 8 && EcsStop(s) == old(EcsStop(s)) && old(s.pos) <= s.pos
    ensures |z'| == 64 && block[..] == Natural(z')
    ensures var r := ReadAcsF(t, old(Pending(bits, s)), z, i);
            && (err == Success && eob ==> r == Got(z', Pending(bits, s)))
            && (err == Success && !eob ==> i < next <= 64)
            && (err == Success && !eob && next < 64 ==> r == ReadAcsF(t, Pending(bits, s), z', next))
            && (err == Success && !eob && next == 64 ==> r == Got(z', Pending(bits, s)))
            && (err != Success ==>
                  || (r.Overrun? && err == FailureNoMoreData && Pending(bits, s) == r.rest)
                  || (r.Stopped? && err == old(EcsStop(s)).0 && Pending(bits, s) == []))
  {
    ghost var P := Pending(bits, s);
    z', eob, next := z, false, i;
    var a;
    err, a := ReadAc(bits, s, hac);
    if err != Success {
      assert ReadAcF(t, P).None? && ReadAcsF(t, P, z, i) == Stopped;
      return;
    }
    ReadAcsNext(t, P, z, i, a, Pending(bits, s));
    if a.eob {
      eob := true;
      return;
    }
    if a.zrl >= 64 - i {
      err := FailureNoMoreData;
      return;
    }
    var k := i + a.zrl;
    ghost var R := Pending(bits, s);
    Store(block, k, a.c, z);
    assert Pending(bits, s) == R;
    z' := z[k := a.c];
    next := k + 1;
  }

  /** read_block's do-while loop over the AC coefficients, with the overrun check the loop as
      written lacks. */
  method ReadAcs(bits: Bits, s: InStream, hac: HCode, block: array<int>, ghost t: CodeTable,
                 ghost z0: seq<int>) returns (err: Status)
    requires hac.Valid() && bits.count <= 8 && t == Table(hac) && Coded(t)
    requires block.Length == 64 && Apart(block, hac) && |z0| == 64 && block[..] == Natural(z0)
    modifies bits, s, block
    ensures bits.count <= 8 && EcsStop(s) == old(EcsStop(s)) && old(s.pos) <= s.pos
    ensures var r := ReadAcsF(t, old(Pending(bits, s)), z0, 1);
            && (r.Got? ==> err == Success && block[..] == Natural(r.z) && Pending(bits, s) == r.rest)
            && (r.Overrun? ==> err == FailureNoMoreData && Pending(bits, s) == r.rest)
            && (r.Stopped? ==> err == old(EcsStop(s)).0 && Pending(bits, s) == [])
  {
    ghost var target := ReadAcsF(t, Pending(bits, s), z0, 1);
    ghost var z := z0;
    var i := 1;
    var rem := 63;
    err := Success;
    while rem > 0
      invariant 1 <= i <= 64 && rem == 64 - i && bits.count <= 8 && EcsStop(s) == old(EcsStop(s))
      invariant old(s.pos) <= s.pos
      invariant hac.Valid() && t == Table(hac) && err == Success
      invariant |z| == 64 && block[..] == Natural(z)
      invariant i < 64 ==> ReadAcsF(t, Pending(bits, s), z, i) == target
      invariant i == 64 ==> target == Got(z, Pending(bits, s))
      decreases rem
    {
      var eob, next;
      err, eob, next, z := AcTurn(bits, s, hac, block, t, z, i);
      if err != Success || eob {
        return;
      }
      rem := rem - (next - i);
      i := next;
    }
  }

  /** read_block: the DC coefficient first; with no target block (an MCU past the block grid)
      FailureNoMoreData; otherwise the block reset and its AC coefficients stored, each at its
      natural index. */
  method ReadBlock(bits: Bits, s: InStream, hdc: HCode, hac: HCode, block: array?<int>)
      returns (err: Status)
    requires hdc.Valid() && hac.Valid() && bits.count <= 8
    requires block != null ==> block.Length == 64 && Apart(block, hdc) && Apart(block, hac)
    modifies bits, s, block
    ensures bits.count <= 8 && EcsStop(s) == old(EcsStop(s)) && old(s.pos) <= s.pos
    ensures Coded(Table(hdc)) && Coded(Table(hac))
    ensures hdc.Valid() && hac.Valid() && Table(hdc) == old(Table(hdc)) && Table(hac) == old(Table(hac))
    ensures block == null ==>
              var d := ReadDcF(Table(hdc), old(Pending(bits, s)));
              && (d.Some? ==> err == FailureNoMoreData && Pending(bits, s) == d.value.1)
              && (d.None? ==> err == old(EcsStop(s)).0 && Pending(bits, s) == [])
    ensures block != null ==>
              var r := ReadBlockF(Table(hdc), Table(hac), old(Pending(bits, s)));
              && (r.Got? ==> err == Success && block[..] == Natural(r.z) && Pending(bits, s) == r.rest)
              && (r.Overrun? ==> err == FailureNoMoreData && Pending(bits, s) == r.rest)
              && (r.Stopped? ==> err == old(EcsStop(s)).0 && Pending(bits, s) == [])
  {
    TableCoded(hac);
    var dc;
    err, dc := ReadDc(bits, s, hdc);
    if err != Success {
      return;
    }
    if block == null {
      return FailureNoMoreData;
    }
    ClearBlock(block, dc);
    err := ReadAcs(bits, s, hac, block, Table(hac), DcOnly(dc));
  }

  /* ---------------------------------------------------------------------------------------- */
  /* Round trip: read_block reads back what write_block sends                                 */
  /* ---------------------------------------------------------------------------------------- */

  lemma {:induction false} PresentSplit(t: CodeTable, a: seq<Sym>, b: seq<Sym>)
    requires Shaped(t) && Present(t, a + b)
    ensures Present(t, a) && Present(t, b)
  {
    forall j | 0 <= j < |a|
      ensures ValueIndex(t, a[j].value).Some?
    {
      assert (a + b)[j] == a[j];
    }
    forall j | 0 <= j < |b|
      ensures ValueIndex(t, b[j].value).Some?
    {
      assert (a + b)[|a| + j] == b[j];
    }
  }

  /** The bits of a list that starts with one symbol. */
  lemma {:induction false} SymsBitsCons(t: CodeTable, x: Sym, ss: seq<Sym>)
    requires Coded(t) && Present(t, [x] + ss)
    ensures ValueIndex(t, x.value).Some? && Present(t, ss)
    ensures SymsBits(t, [x] + ss) == SymBits(t, x) + SymsBits(t, ss)
  {
    PresentSplit(t, [x], ss);
    PresentOne(t, x);
    SymsBitsAppend(t, [x], ss);
  }

  /** Where read_block's loop stands once coefficient c is stored at position p. */
  function AfterStore(t: CodeTable, zz: seq<int>, p: nat, c: int, more: seq<Bit>): BlockRead
    requires Coded(t) && |zz| == 64 && 1 <= p < 64
  {
    if p == 63 then Got(zz[p := c], more) else ReadAcsF(t, more, zz[p := c], p + 1)
  }

  /** Bits that read as coefficient c after k zeros store c at position d + k. */
  lemma {:induction false} CoeffThen(t: CodeTable, Q: seq<Bit>, more: seq<Bit>, c: int, k: nat, d: nat, p: nat, zz: seq<int>)
    requires Coded(t) && 1 <= d && p == d + k < 64 && |zz| == 64
    requires ReadAcF(t, Q) == Some((AcCoeff(false, k, c), more))
    ensures ReadAcsF(t, Q, zz, d) == AfterStore(t, zz, p, c, more)
  {
    ReadAcsNext(t, Q, zz, d, AcCoeff(false, k, c), more);
  }

  /** Before a nonzero coefficient after a run of 16 or more zeros, write_block sends a ZRL, and
      then what it sends for the same coefficient after 16 fewer zeros. */
  lemma {:induction false} AcSymsZrl(z: seq<int>, i: nat, r: nat)
    requires Block(z) && 1 <= i < 64 && z[i] != 0 && r > 15
    ensures AcSyms(z, i, r) == [Zrl] + AcSyms(z, i, r - 16)
  {
    assert r % 16 == (r - 16) % 16 by {
      DivModUnique(r, 16, (r - 16) / 16 + 1, (r - 16) % 16);
    }
    assert Zrls(r) == [Zrl] + Zrls(r - 16);
    ConsRegroup(Zrl, Zrls(r - 16), [AcSym(z[i], r % 16)], AcSyms(z, i + 1, 0));
  }

  lemma {:induction false} ConsRegroup<T>(a: T, b: seq<T>, c: seq<T>, d: seq<T>)
    ensures [a] + b + c + d == [a] + (b + c + d)
  {
  }

  /** A nonzero coefficient after a run of at most 15 zeros is a single symbol. */
  lemma {:induction false} AcSymsCoeff(z: seq<int>, i: nat, r: nat)
    requires Block(z) && 1 <= i < 64 && z[i] != 0 && r <= 15
    ensures AcSyms(z, i, r) == [AcSym(z[i], r)] + AcSyms(z, i + 1, 0)
  {
    DivModUnique(r, 16, 0, r);
    assert Zrls(r) == [];
  }

  /** A ZRL read while the coefficient is still more than 15 positions ahead skips 16 positions
      that are zero already. */
  lemma {:induction false} ZrlThen(t: CodeTable, z: seq<int>, i: nat, r: nat, d: nat, zz: seq<int>, rest: seq<Bit>)
    requires Canonical(t) && Coded(t) && Block(z) && 1 <= i < 64 && 15 < r < i && d == i - r
    requires z[i] != 0 && Present(t, AcSyms(z, i, r))
    requires |zz| == 64 && zz[d + 15] == 0
    ensures Present(t, AcSyms(z, i, r - 16))
    ensures ReadAcsF(t, SymsBits(t, AcSyms(z, i, r)) + rest, zz, d)
            == ReadAcsF(t, SymsBits(t, AcSyms(z, i, r - 16)) + rest, zz, d + 16)
  {
    var Y := AcSyms(z, i, r - 16);
    AcSymsZrl(z, i, r);
    SymsBitsCons(t, Zrl, Y);
    var R := SymsBits(t, Y) + rest;
    assert SymsBits(t, [Zrl] + Y) + rest == SymBits(t, Zrl) + R;
    ZrlOver(t, R, zz, d);
  }

  /** The code of ZRL read at position d, with more than 16 positions left, skips to d + 16;
      the zero it stores at d + 15 is there already. */
  lemma {:induction false} ZrlOver(t: CodeTable, R: seq<Bit>, zz: seq<int>, d: nat)
    requires Canonical(t) && Coded(t) && ValueIndex(t, Zrl.value).Some?
    requires |zz| == 64 && 1 <= d && d + 16 < 64 && zz[d + 15] == 0
    ensures ReadAcsF(t, SymBits(t, Zrl) + R, zz, d) == ReadAcsF(t, R, zz, d + 16)
  {
    ZrlRoundTrip(t, R);
    ReadAcsNext(t, SymBits(t, Zrl) + R, zz, d, AcCoeff(false, 15, 0), R);
    assert zz[d + 15 := 0] == zz;
  }

  /** The symbol of a nonzero coefficient after at most 15 zeros, read from the start of the
      run, stores the coefficient, and reading goes on with the symbols of the rest of the
      block. */
  lemma {:induction false} CoeffHere(t: CodeTable, z: seq<int>, i: nat, r: nat, d: nat, zz: seq<int>, rest: seq<Bit>)
    requires Canonical(t) && Coded(t) && Block(z) && AcInRange(z) && 1 <= i < 64 && r <= 15 && r < i
    requires d == i - r && z[i] != 0 && Present(t, AcSyms(z, i, r)) && |zz| == 64
    ensures Present(t, AcSyms(z, i + 1, 0))
    ensures ReadAcsF(t, SymsBits(t, AcSyms(z, i, r)) + rest, zz, d)
            == AfterStore(t, zz, i, z[i], SymsBits(t, AcSyms(z, i + 1, 0)) + rest)
  {
    var x, Y := AcSym(z[i], r), AcSyms(z, i + 1, 0);
    AcSymsCoeff(z, i, r);
    SymsBitsCons(t, x, Y);
    var more := SymsBits(t, Y) + rest;
    assert SymsBits(t, [x] + Y) + rest == SymBits(t, x) + more;
    AcRoundTrip(t, z[i], r, more);
    assert r % 16 == r by {
      DivModUnique(r, 16, 0, r);
    }
    CoeffThen(t, SymBits(t, x) + more, more, z[i], r, d, i, zz);
  }

  /** The end-of-block code ends the loop and leaves the block as it is. */
  lemma {:induction false} EobRead(t: CodeTable, d: nat, zz: seq<int>, rest: seq<Bit>)
    requires Canonical(t) && Coded(t) && ValueIndex(t, Eob.value).Some? && 1 <= d < 64 && |zz| == 64
    ensures ReadAcsF(t, SymBits(t, Eob) + rest, zz, d) == Got(zz, rest)
  {
    EobRoundTrip(t, rest);
    ReadAcsNext(t, SymBits(t, Eob) + rest, zz, d, AcCoeff(true, 0, 0), rest);
  }

  /** A block that agrees with z below d and is zero from d on, where z is too, is z. */
  lemma {:induction false} SameBlock(z: seq<int>, zz: seq<int>, d: nat, i: nat)
    requires |z| == 64 && |zz| == 64 && d <= i && i == 63 && zz[..d] == z[..d]
    requires forall j | d <= j < 64 :: zz[j] == 0
    requires forall j | d <= j < i :: z[j] == 0
    requires z[i] == 0
    ensures zz == z
  {
    forall j | 0 <= j < d
      ensures zz[j] == z[j]
    {
      assert zz[..d][j] == z[..d][j];
    }
  }

  /** Storing z[i] into a block that agrees with z below d and is zero from d on, where z is
      zero from d up to i, gives a block that agrees with z up to i. */
  lemma {:induction false} StoredPrefix(z: seq<int>, zz: seq<int>, d: nat, i: nat)
    requires |z| == 64 && |zz| == 64 && d <= i < 64 && zz[..d] == z[..d]
    requires forall j | d <= j < i :: zz[j] == 0 && z[j] == 0
    ensures zz[i := z[i]][..i + 1] == z[..i + 1]
  {
    forall j | 0 <= j < i + 1
      ensures zz[i := z[i]][j] == z[j]
    {
      if j < d {
        assert zz[..d][j] == z[..d][j];
      }
    }
  }

  /** A zero coefficient before the last position lengthens the pending run. */
  lemma {:induction false} ZeroThen(t: CodeTable, z: seq<int>, i: nat, r: nat, d: nat)
    requires Coded(t) && Block(z) && 1 <= i < 63 && r < i && d == i - r && z[i] == 0
    requires Present(t, AcSyms(z, i, r)) && forall j | d <= j < i :: z[j] == 0
    ensures AcSyms(z, i, r) == AcSyms(z, i + 1, r + 1) && Present(t, AcSyms(z, i + 1, r + 1))
    ensures d == (i + 1) - (r + 1) && forall j | d <= j < i + 1 :: z[j] == 0
  {
  }

  /** A zero in the last position: write_block sends the end of block, which completes the
      block. */
  lemma {:induction false} EobThen(t: CodeTable, z: seq<int>, i: nat, r: nat, d: nat, zz: seq<int>, rest: seq<Bit>)
    requires Canonical(t) && Coded(t) && Block(z) && i == 63 && r < i && d == i - r && z[i] == 0
    requires Present(t, AcSyms(z, i, r))
    requires |zz| == 64 && zz[..d] == z[..d] && forall j | d <= j < 64 :: zz[j] == 0
    requires forall j | d <= j < i :: z[j] == 0
    ensures ReadAcsF(t, SymsBits(t, AcSyms(z, i, r)) + rest, zz, d) == Got(z, rest)
  {
    assert AcSyms(z, i, r) == [Eob];
    PresentOne(t, Eob);
    EobRead(t, d, zz, rest);
    SameBlock(z, zz, d, i);
  }

  /** The AC symbols of a block from position i with r zeros pending, read from position
      d = i - r on a block that holds the coefficients before d and zeros from there, complete
      the block and leave the bits after them. */
  lemma {:induction false} AcsRoundTrip(t: CodeTable, z: seq<int>, i: nat, r: nat, d: nat, zz: seq<int>,
                                        rest: seq<Bit>)
    requires Canonical(t) && Coded(t) && Block(z) && AcInRange(z) && 1 <= i < 64 && r < i && d == i - r
    requires Present(t, AcSyms(z, i, r))
    requires |zz| == 64 && zz[..d] == z[..d] && forall j | d <= j < 64 :: zz[j] == 0
    requires forall j | d <= j < i :: z[j] == 0
    ensures ReadAcsF(t, SymsBits(t, AcSyms(z, i, r)) + rest, zz, d) == Got(z, rest)
    decreases 64 - i, 2, 0
  {
    if z[i] == 0 {
      if i == 63 {
        EobThen(t, z, i, r, d, zz, rest);
      } else {
        ZeroStep(t, z, i, r, d, zz, rest);
      }
    } else {
      CoeffStep(t, z, i, r, d, zz, rest);
    }
  }

  /** The case of AcsRoundTrip where the coefficient at position i is zero and not the last:
      nothing is read for it, and the pending run grows by one. */
  lemma {:induction false} ZeroStep(t: CodeTable, z: seq<int>, i: nat, r: nat, d: nat, zz: seq<int>,
                                    rest: seq<Bit>)
    requires Canonical(t) && Coded(t) && Block(z) && AcInRange(z) && 1 <= i < 63 && r < i && d == i - r
    requires Present(t, AcSyms(z, i, r))
    requires |zz| == 64 && zz[..d] == z[..d] && forall j | d <= j < 64 :: zz[j] == 0
    requires forall j | d <= j < i :: z[j] == 0
    requires z[i] == 0
    ensures ReadAcsF(t, SymsBits(t, AcSyms(z, i, r)) + rest, zz, d) == Got(z, rest)
    decreases 64 - i, 0, 0
  {
    ZeroThen(t, z, i, r, d);
    AcsRoundTrip(t, z, i + 1, r + 1, d, zz, rest);
  }

  /** The case of AcsRoundTrip where the coefficient at position i is nonzero: the ZRLs of its
      run are read, each skipping 16 positions, then its own symbol. */
  lemma {:induction false} CoeffStep(t: CodeTable, z: seq<int>, i: nat, r: nat, d: nat, zz: seq<int>,
                                     rest: seq<Bit>)
    requires Canonical(t) && Coded(t) && Block(z) && AcInRange(z) && 1 <= i < 64 && r < i && d == i - r
    requires Present(t, AcSyms(z, i, r))
    requires |zz| == 64 && zz[..d] == z[..d] && forall j | d <= j < 64 :: zz[j] == 0
    requires forall j | d <= j < i :: z[j] == 0
    requires z[i] != 0
    ensures ReadAcsF(t, SymsBits(t, AcSyms(z, i, r)) + rest, zz, d) == Got(z, rest)
    decreases 64 - i, 1, r
  {
    if r > 15 {
      ZrlThen(t, z, i, r, d, zz, rest);
      PrefixGrows(z, zz, d, d + 16);
      CoeffStep(t, z, i, r - 16, d + 16, zz, rest);
    } else {
      CoeffStore(t, z, i, r, d, zz, rest);
    }
  }

  /** Agreement below d extends over positions where both blocks are zero. */
  lemma {:induction false} PrefixGrows(z: seq<int>, zz: seq<int>, d: nat, e: nat)
    requires |z| == 64 && |zz| == 64 && d <= e <= 64 && zz[..d] == z[..d]
    requires forall j | d <= j < e :: zz[j] == 0 && z[j] == 0
    ensures zz[..e] == z[..e]
  {
    forall j | 0 <= j < e
      ensures zz[j] == z[j]
    {
      if j < d {
        assert zz[..d][j] == z[..d][j];
      }
    }
  }

  /** The last step of CoeffStep: the coefficient's own symbol stores it, and the rest of the
      block follows from position i + 1. */
  lemma {:induction false} CoeffStore(t: CodeTable, z: seq<int>, i: nat, r: nat, d: nat, zz: seq<int>,
                                      rest: seq<Bit>)
    requires Canonical(t) && Coded(t) && Block(z) && AcInRange(z) && 1 <= i < 64 && r <= 15 && r < i
    requires d == i - r && Present(t, AcSyms(z, i, r))
    requires |zz| == 64 && zz[..d] == z[..d] && forall j | d <= j < 64 :: zz[j] == 0
    requires forall j | d <= j < i :: z[j] == 0
    requires z[i] != 0
    ensures ReadAcsF(t, SymsBits(t, AcSyms(z, i, r)) + rest, zz, d) == Got(z, rest)
    decreases 64 - i, 0, 0
  {
    CoeffHere(t, z, i, r, d, zz, rest);
    StoredPrefix(z, zz, d, i);
    var zz' := zz[i := z[i]];
    if i == 63 {
      assert AcSyms(z, i + 1, 0) == [];
      assert zz' == z by {
        assert zz' == zz'[..i + 1];
        assert z == z[..i + 1];
      }
    } else {
      AcsRoundTrip(t, z, i + 1, 0, i + 1, zz', rest);
    }
  }

  /** Block round trip: for tables that are canonical and hold every symbol write_block sends,
      the bits of the DC symbol followed by those of the AC symbols read back as the block, with
      whatever follows them left unread. AC coefficients must fit the 15 bits a category nibble
      can name, the DC coefficient the 16 bits read_extra_bits returns. */
  lemma {:induction false} BlockRoundTrip(tdc: CodeTable, tac: CodeTable, z: seq<int>, rest: seq<Bit>)
    requires Canonical(tdc) && Coded(tdc) && Canonical(tac) && Coded(tac)
    requires Block(z) && Abs(z[0]) < Word && AcInRange(z)
    requires Present(tdc, [DcSym(z[0])]) && Present(tac, BlockAcSyms(z))
    ensures ReadBlockF(tdc, tac, SymsBits(tdc, [DcSym(z[0])]) + SymsBits(tac, BlockAcSyms(z)) + rest)
            == Got(z, rest)
  {
    var acBits := SymsBits(tac, BlockAcSyms(z));
    PresentOne(tdc, DcSym(z[0]));
    assert SymsBits(tdc, [DcSym(z[0])]) + acBits + rest == SymBits(tdc, DcSym(z[0])) + (acBits + rest);
    DcRoundTrip(tdc, z[0], acBits + rest);
    AcsRoundTrip(tac, z, 1, 0, 1, DcOnly(z[0]), rest);
  }
}
