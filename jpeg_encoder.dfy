/// The baseline encoder's set-up and marker segment writers (Decoders/JPEG/encoder.c): the
/// quality scaling of the quantisation tables, the component set-up read_image makes for a
/// grey or colour picture, the scan's component list, and produce_SOI, produce_DQT,
/// produce_SOF0, produce_DHT, produce_SOS and produce_EOI, each proved to append the bytes of
/// the segment JpegSegments defines, which the decoder's parsers read back.
module JpegEncoder {
  import opened JpegCommon
  import opened JpegIo
  import opened JpegHuffman
  import opened JpegCoeffs
  import opened JpegContext
  import opened JpegSegments
  import JpegScan
  import opened Arith

  /* ---------------------------------------------------------------------------------------- */
  /* Quality and quantisation tables (section K.1)                                            */
  /* ---------------------------------------------------------------------------------------- */

  /** The luminance quantisation table of Table K.1, in raster order. */
  const StdLuminanceQuantTbl: seq<int> :=
      [16, 11, 10, 16,  24,  40,  51,  61]
    + [12, 12, 14, 19,  26,  58,  60,  55]
    + [14, 13, 16, 24,  40,  57,  69,  56]
    + [14, 17, 22, 29,  51,  87,  80,  62]
    + [18, 22, 37, 56,  68, 109, 103,  77]
    + [24, 35, 55, 64,  81, 104, 113,  92]
    + [49, 64, 78, 87, 103, 121, 120, 101]
    + [72, 92, 95, 98, 112, 100, 103,  99]

  /** The chrominance quantisation table of Table K.2, in raster order. */
  const StdChrominanceQuantTbl: seq<int> :=
      [17, 18, 24, 47, 99, 99, 99, 99]
    + [18, 21, 26, 66, 99, 99, 99, 99]
    + [24, 26, 56, 99, 99, 99, 99, 99]
    + [47, 66, 99, 99, 99, 99, 99, 99]
    + [99, 99, 99, 99, 99, 99, 99, 99]
    + [99, 99, 99, 99, 99, 99, 99, 99]
    + [99, 99, 99, 99, 99, 99, 99, 99]
    + [99, 99, 99, 99, 99, 99, 99, 99]

  /** A reference table: 64 entries, each a valid 8-bit quantiser. */
  predicate Reference(t: seq<int>) {
    |t| == 64 && forall i | 0 <= i < 64 :: 1 <= t[i] <= 255
  }

  lemma {:induction false} StdTablesReference()
    ensures Reference(StdLuminanceQuantTbl) && Reference(StdChrominanceQuantTbl)
  {
  }

  /** quality_to_sf: the quality forced into 1..100 becomes a percentage scaling factor, the
      quotient 5000 / q below 50 and 200 - 2 q from 50 on, so quality 50 keeps the reference
      tables (100 %) and quality 100 scales them to nothing. */
  function QualityToSf(q: int): (sf: int)
    ensures 0 <= sf <= 5000
    ensures var c := Clamp(1, q, 100); c < 50 ==> sf * c <= 5000 < (sf + 1) * c
    ensures var c := Clamp(1, q, 100); c >= 50 ==> sf + 2 * c == 200 && sf <= 100
  {
    var c := Clamp(1, q, 100);
    if c < 50 then
      assert 5000 == c * (5000 / c) + 5000 % c;
      DivNonneg(5000, c);
      MulLe(1, c, 5000 / c);
      5000 / c
    else 200 - c * 2
  }

  /** A better quality never scales the tables up: the factor falls as q rises, from 5000 at
      quality 1 through 100 at quality 50 to 0 at quality 100. */
  lemma {:induction false} QualityToSfMonotone(q1: int, q2: int)
    requires q1 <= q2
    ensures QualityToSf(q2) <= QualityToSf(q1)
  {
    var c1, c2 := Clamp(1, q1, 100), Clamp(1, q2, 100);
    var s1, s2 := QualityToSf(q1), QualityToSf(q2);
    assert c1 <= c2;
    if c2 < 50 {
      QuotientsFall(c1, c2, s1, s2);
    } else if c1 < 50 {
      // s1 > 5000 / 50 - 1 >= 100 >= s2
      MulLe(c1, 50, s1 + 1);
    }
  }

  /** Quotients of 5000 by a larger divisor are no larger. */
  lemma {:induction false} QuotientsFall(c1: int, c2: int, s1: int, s2: int)
    requires 1 <= c1 <= c2 && 0 <= s1 && 0 <= s2 && s2 * c2 <= 5000 < (s1 + 1) * c1
    ensures s2 <= s1
  {
    // s2 c2 <= 5000 < (s1 + 1) c1 <= (s1 + 1) c2
    MulLe(c1, c2, s1 + 1);
    if s2 > s1 {
      MulLe(s1 + 1, s2, c2);
      assert false;
    }
  }

  /** The factors at the ends and in the middle of the quality range. */
  lemma {:induction false} QualityToSfLandmarks()
    ensures QualityToSf(1) == 5000 && QualityToSf(49) == 102 && QualityToSf(50) == 100
    ensures QualityToSf(75) == 50 && QualityToSf(100) == 0
    ensures forall q | q <= 1 :: QualityToSf(q) == 5000
    ensures forall q | q >= 100 :: QualityToSf(q) == 0
  {
  }

  /** One entry of set_qtable: the reference quantiser scaled by sf percent, rounded, and
      clamped to a valid 8-bit quantiser. */
  function Scaled(r: int, sf: int): (v: int)
    ensures 1 <= v <= 255
  {
    Clamp(1, (r * sf + 50) / 100, 255)
  }

  /** A reference table scaled by sf percent. */
  function ScaledTable(t: seq<int>, sf: int): (r: seq<int>)
    ensures |r| == |t| && forall i | 0 <= i < |t| :: r[i] == Scaled(t[i], sf)
  {
    seq(|t|, i requires 0 <= i < |t| => Scaled(t[i], sf))
  }

  /** A larger factor never gives a smaller quantiser. */
  lemma {:induction false} ScaledMonotone(r: int, sf1: int, sf2: int)
    requires r >= 0 && sf1 <= sf2
    ensures Scaled(r, sf1) <= Scaled(r, sf2)
  {
    MulLe(sf1, sf2, r);
    assert r * sf1 <= r * sf2;
    DivMono(r * sf1 + 50, r * sf2 + 50, 100);
  }

  /** A better quality gives every quantiser the same or a finer step. */
  lemma {:induction false} FinerWithQuality(t: seq<int>, q1: int, q2: int)
    requires q1 <= q2 && forall i | 0 <= i < |t| :: t[i] >= 0
    ensures forall i | 0 <= i < |t| ::
              ScaledTable(t, QualityToSf(q2))[i] <= ScaledTable(t, QualityToSf(q1))[i]
  {
    QualityToSfMonotone(q1, q2);
    forall i | 0 <= i < |t|
      ensures ScaledTable(t, QualityToSf(q2))[i] <= ScaledTable(t, QualityToSf(q1))[i]
    {
      ScaledMonotone(t[i], QualityToSf(q2), QualityToSf(q1));
    }
  }

  /** At quality 50 the tables are the reference tables themselves. */
  lemma {:induction false} QualityFiftyKeepsReference(t: seq<int>)
    requires Reference(t)
    ensures ScaledTable(t, QualityToSf(50)) == t
  {
    forall i | 0 <= i < 64
      ensures ScaledTable(t, QualityToSf(50))[i] == t[i]
    {
      DivModUnique(t[i] * 100 + 50, 100, t[i], 50);
    }
  }

  /** At quality 100 every quantiser is 1: no quantisation. */
  lemma {:induction false} QualityHundredIsLossless(t: seq<int>)
    requires forall i | 0 <= i < |t| :: t[i] >= 0
    ensures forall i | 0 <= i < |t| :: ScaledTable(t, QualityToSf(100))[i] == 1
  {
  }

  /** set_qtable: every quantiser of the table the reference one scaled for quality q. */
  method SetQTable(qtable: QTable, qref: seq<int>, q: int)
    requires qtable.Valid() && |qref| == 64
    modifies qtable.Q
    ensures qtable.Q[..] == ScaledTable(qref, QualityToSf(q))
  {
    var sf := QualityToSf(q);
    for i := 0 to 64
      invariant forall k | 0 <= k < i :: qtable.Q[k] == Scaled(qref[k], sf)
    {
      qtable.Q[i] := Clamp(1, (qref[i] * sf + 50) / 100, 255);
    }
  }

  /* ---------------------------------------------------------------------------------------- */
  /* Component set-up (read_image)                                                            */
  /* ---------------------------------------------------------------------------------------- */

  /** struct params, the command line parameters: the luma sampling factors, the quality and
      whether the Huffman tables are adapted to the picture. */
  datatype Params = Params(H: int, V: int, q: int, optimize: bool)

  /** init_params: 2 x 1 luma sampling, quality 75, adapted tables. */
  const DefaultParams: Params := Params(2, 1, 75, true)

  /** A component's sampling factors and table selectors. */
  function SamplingOf(k: Component): Sampling
    reads k
  {
    Sampling(k.H, k.V, k.Tq, k.Td, k.Ta)
  }

  /** The 256 components' samplings. */
  ghost function SamplingsOf(ctx: Context): (ss: seq<Sampling>)
    requires ctx.Shaped()
    reads ctx, ctx.component
    ensures |ss| == 256 && forall c | 0 <= c < 256 :: ss[c] == SamplingOf(ctx.component[c])
    ensures (forall c | 0 <= c < 256 :: ctx.ComponentSized(c)) ==> Samplings(ss)
  {
    var ss := seq(256, c requires 0 <= c < 256 reads ctx.component => SamplingOf(ctx.component[c]));
    assert (forall c | 0 <= c < 256 :: ctx.ComponentSized(c)) ==> Samplings(ss) by {
      if forall c | 0 <= c < 256 :: ctx.ComponentSized(c) {
        forall c | 0 <= c < 256
          ensures 0 <= ss[c].h < 0x100 && 0 <= ss[c].v < 0x100 && 0 <= ss[c].tq < 0x100
          ensures 0 <= ss[c].td < 0x100 && 0 <= ss[c].ta < 0x100
        {
          assert ctx.ComponentSized(c);
        }
      }
    }
    ss
  }

  /** The samplings read_image gives a picture of nf components: a grey picture has component
      1 alone, at 1 x 1 with tables 0; a colour one has luma component 1 at h x v with tables 0
      and chroma components 2 and 3 at 1 x 1 with tables 1. */
  function SetUp(ss: seq<Sampling>, nf: int, h: int, v: int): (r: seq<Sampling>)
    requires |ss| == 256 && (nf == 1 || nf == 3)
    ensures |r| == 256
  {
    if nf == 1 then ss[1 := Sampling(1, 1, 0, 0, 0)]
    else ss[1 := Sampling(h, v, 0, 0, 0)][2 := Sampling(1, 1, 1, 1, 1)][3 := Sampling(1, 1, 1, 1, 1)]
  }

  /** Every component as init_component leaves it. */
  const Unset: seq<Sampling> := seq(256, _ => Sampling(0, 0, 0, 0, 0))

  /** Components from m on are not sampled, so the list of declared components stops at m. */
  lemma {:induction false} DeclaredStops(ss: seq<Sampling>, m: nat, n: nat)
    requires m <= n <= |ss| && forall c | m <= c < n :: ss[c].h == 0
    ensures Declared(ss, n) == Declared(ss, m)
  {
    if m < n {
      DeclaredStops(ss, m, n - 1);
    }
  }

  /** The components read_image declares, from freshly initialised ones: component 1, or
      components 1, 2 and 3, with their sampling factors and tables; so the frame header
      lists exactly Nf components and can be read back. */
  lemma {:induction false} SetUpDeclares(nf: int, h: int, v: int)
    requires nf == 1 || (nf == 3 && 1 <= h <= 2 && 1 <= v <= 2)
    ensures var ss := SetUp(Unset, nf, h, v);
            && Samplings(ss) && Encodable(ss) && |Declared(ss, 256)| == nf
            && Declared(ss, 256)
               == if nf == 1 then [ComponentSpec(1, 1, 1, 0)]
                  else [ComponentSpec(1, h, v, 0), ComponentSpec(2, 1, 1, 1), ComponentSpec(3, 1, 1, 1)]
  {
    if nf == 1 {
      GreyDeclares(h, v);
    } else {
      ColourDeclares(h, v);
    }
  }

  lemma {:induction false} GreyDeclares(h: int, v: int)
    ensures Declared(SetUp(Unset, 1, h, v), 256) == [ComponentSpec(1, 1, 1, 0)]
  {
    var ss := SetUp(Unset, 1, h, v);
    assert forall c | 4 <= c < 256 :: ss[c].h == 0;
    DeclaredStops(ss, 4, 256);
    DeclaredFirst(ss);
    DeclaredGrey(ss);
  }

  lemma {:induction false} ColourDeclares(h: int, v: int)
    requires 1 <= h <= 2 && 1 <= v <= 2
    ensures Declared(SetUp(Unset, 3, h, v), 256)
            == [ComponentSpec(1, h, v, 0), ComponentSpec(2, 1, 1, 1), ComponentSpec(3, 1, 1, 1)]
  {
    var ss := SetUp(Unset, 3, h, v);
    assert forall c | 4 <= c < 256 :: ss[c].h == 0;
    DeclaredStops(ss, 4, 256);
    DeclaredFirst(ss);
    DeclaredColour(ss, h, v);
  }

  /** Component 0 unsampled and component 1 sampled: component 1 comes first. */
  lemma {:induction false} DeclaredFirst(ss: seq<Sampling>)
    requires |ss| == 256 && ss[0].h == 0 && ss[1].h != 0
    ensures Declared(ss, 2) == [ComponentSpec(1, ss[1].h, ss[1].v, ss[1].tq)]
  {
    assert Declared(ss, 1) == Declared(ss, 0) == [];
  }

  lemma {:induction false} DeclaredGrey(ss: seq<Sampling>)
    requires |ss| == 256 && ss[2].h == 0 && ss[3].h == 0
    ensures Declared(ss, 4) == Declared(ss, 2)
  {
    assert Declared(ss, 3) == Declared(ss, 2);
  }

  lemma {:induction false} DeclaredColour(ss: seq<Sampling>, h: int, v: int)
    requires |ss| == 256 && ss[2] == Sampling(1, 1, 1, 1, 1) && ss[3] == Sampling(1, 1, 1, 1, 1)
    ensures Declared(ss, 4) == Declared(ss, 2) + [ComponentSpec(2, 1, 1, 1), ComponentSpec(3, 1, 1, 1)]
  {
    assert Declared(ss, 3) == Declared(ss, 2) + [ComponentSpec(2, 1, 1, 1)];
  }

  /** The component set-up of read_image, given what read_frame_header found: Nf, Y, X and P
      are stored; a grey picture (one component) or a colour one (three) gets its components'
      sampling factors and table selectors, max_H and max_V, and the two quantisation tables
      scaled for the quality; any other number of components is unsupported, and colour luma
      sampling factors outside 1..2 fail read_image's assertion. */
  method SetUpComponents(ctx: Context, nf: int, y: int, x: int, p: int, params: Params) returns (err: Status)
    requires ctx.Valid() && 0 <= nf < 0x100 && 0 <= y < 0x1_0000 && 0 <= x < 0x1_0000 && 0 <= p < 0x100
    requires 0 <= params.H < 0x100 && 0 <= params.V < 0x100
    modifies ctx`Nf, ctx`Y, ctx`X, ctx`P, ctx`maxH, ctx`maxV
    modifies ctx.component[1], ctx.component[2], ctx.component[3], ctx.qtable[0].Q, ctx.qtable[1].Q
    ensures ctx.Valid() && ctx.Nf == nf && ctx.Y == y && ctx.X == x && ctx.P == p
    ensures forall c | 0 <= c < 256 :: Grid(ctx.component[c]) == old(Grid(ctx.component[c]))
    ensures err == (if nf != 1 && nf != 3 then FailureFileUnsupported
                    else if nf == 3 && !(1 <= params.H <= 2 && 1 <= params.V <= 2) then FailureLogicError
                    else Success)
    ensures err != Success ==>
              && (forall c | 0 <= c < 256 :: SamplingOf(ctx.component[c]) == old(SamplingOf(ctx.component[c])))
              && ctx.maxH == old(ctx.maxH) && ctx.maxV == old(ctx.maxV)
              && ctx.qtable[0].Q[..] == old(ctx.qtable[0].Q[..]) && ctx.qtable[1].Q[..] == old(ctx.qtable[1].Q[..])
    ensures err == Success ==>
              && (forall c | 0 <= c < 256 ::
                    SamplingOf(ctx.component[c]) == SetUp(old(SamplingsOf(ctx)), nf, params.H, params.V)[c])
              && ctx.maxH == (if nf == 1 then 1 else params.H) && ctx.maxV == (if nf == 1 then 1 else params.V)
              && ctx.qtable[0].Q[..] == ScaledTable(StdLuminanceQuantTbl, QualityToSf(params.q))
              && ctx.qtable[1].Q[..] == ScaledTable(StdChrominanceQuantTbl, QualityToSf(params.q))
  {
    ghost var ss := SamplingsOf(ctx);
    SetFrameFields(ctx, nf, y, x, p);
    err := SetUpSwitch(ctx, nf, params, ss);
  }

  /** read_image's switch on the number of components. */
  method SetUpSwitch(ctx: Context, nf: int, params: Params, ghost ss: seq<Sampling>) returns (err: Status)
    requires ctx.Valid() && 0 <= params.H < 0x100 && 0 <= params.V < 0x100
    requires |ss| == 256 && forall c | 0 <= c < 256 :: ss[c] == SamplingOf(ctx.component[c])
    modifies ctx`maxH, ctx`maxV, ctx.component[1], ctx.component[2], ctx.component[3], ctx.qtable[0].Q, ctx.qtable[1].Q
    ensures ctx.Valid()
    ensures forall c | 0 <= c < 256 :: Grid(ctx.component[c]) == old(Grid(ctx.component[c]))
    ensures err == (if nf != 1 && nf != 3 then FailureFileUnsupported
                    else if nf == 3 && !(1 <= params.H <= 2 && 1 <= params.V <= 2) then FailureLogicError
                    else Success)
    ensures err != Success ==>
              && (forall c | 0 <= c < 256 :: SamplingOf(ctx.component[c]) == ss[c])
              && ctx.maxH == old(ctx.maxH) && ctx.maxV == old(ctx.maxV)
              && ctx.qtable[0].Q[..] == old(ctx.qtable[0].Q[..]) && ctx.qtable[1].Q[..] == old(ctx.qtable[1].Q[..])
    ensures err == Success ==>
              && (forall c | 0 <= c < 256 :: SamplingOf(ctx.component[c]) == SetUp(ss, nf, params.H, params.V)[c])
              && ctx.maxH == (if nf == 1 then 1 else params.H) && ctx.maxV == (if nf == 1 then 1 else params.V)
              && ctx.qtable[0].Q[..] == ScaledTable(StdLuminanceQuantTbl, QualityToSf(params.q))
              && ctx.qtable[1].Q[..] == ScaledTable(StdChrominanceQuantTbl, QualityToSf(params.q))
  {
    if nf != 1 && nf != 3 {
      return FailureFileUnsupported;
    }
    if nf == 3 && !(1 <= params.H <= 2 && 1 <= params.V <= 2) {
      // assert(params->H >= 1 && params->H <= 2) and the same for V
      return FailureLogicError;
    }
    SetSamplings(ctx, nf, params.H, params.V, ss);
    SetQTables(ctx, params.q);
    err := Success;
  }

  /** The frame's size, precision and component count, as read_frame_header found them. */
  method SetFrameFields(ctx: Context, nf: int, y: int, x: int, p: int)
    requires ctx.Valid() && 0 <= nf < 0x100 && 0 <= y < 0x1_0000 && 0 <= x < 0x1_0000 && 0 <= p < 0x100
    modifies ctx`Nf, ctx`Y, ctx`X, ctx`P
    ensures ctx.Valid() && ctx.Nf == nf && ctx.Y == y && ctx.X == x && ctx.P == p
  {
    ctx.Nf, ctx.Y, ctx.X, ctx.P := nf, y, x, p;
    forall c | 0 <= c < 256
      ensures ctx.ComponentSized(c)
    {
      assert old(ctx.ComponentSized(c));
    }
  }

  /** read_image's switch on the number of components: the samplings of SetUp, max_H and
      max_V. */
  method SetSamplings(ctx: Context, nf: int, h: int, v: int, ghost ss: seq<Sampling>)
    requires ctx.Valid() && (nf == 1 || (nf == 3 && 1 <= h <= 2 && 1 <= v <= 2))
    requires |ss| == 256 && forall c | 0 <= c < 256 :: ss[c] == SamplingOf(ctx.component[c])
    modifies ctx`maxH, ctx`maxV, ctx.component[1], ctx.component[2], ctx.component[3]
    ensures ctx.Valid()
    ensures forall c | 0 <= c < 256 :: Grid(ctx.component[c]) == old(Grid(ctx.component[c]))
    ensures forall c | 0 <= c < 256 :: SamplingOf(ctx.component[c]) == SetUp(ss, nf, h, v)[c]
    ensures ctx.maxH == (if nf == 1 then 1 else h) && ctx.maxV == (if nf == 1 then 1 else v)
  {
    if nf == 1 {
      SetSampling(ctx, 1, Sampling(1, 1, 0, 0, 0));
      SetMaxSampling(ctx, 1, 1);
    } else {
      SetSampling(ctx, 1, Sampling(h, v, 0, 0, 0));
      SetSampling(ctx, 2, Sampling(1, 1, 1, 1, 1));
      SetSampling(ctx, 3, Sampling(1, 1, 1, 1, 1));
      SetMaxSampling(ctx, h, v);
    }
  }

  /** Quantisation tables 0 (luma) and 1 (chroma) scaled for quality q. */
  method SetQTables(ctx: Context, q: int)
    requires ctx.Valid()
    modifies ctx.qtable[0].Q, ctx.qtable[1].Q
    ensures ctx.qtable[0].Q[..] == ScaledTable(StdLuminanceQuantTbl, QualityToSf(q))
    ensures ctx.qtable[1].Q[..] == ScaledTable(StdChrominanceQuantTbl, QualityToSf(q))
  {
    assert ctx.Owns(ctx.qtable[0].Q, QSlot(0)) && ctx.Owns(ctx.qtable[1].Q, QSlot(1));
    SetQTable(ctx.qtable[0], StdLuminanceQuantTbl, q);
    SetQTable(ctx.qtable[1], StdChrominanceQuantTbl, q);
  }

  /** Component c's sampling factors and table selectors set; the rest of the context kept. */
  method SetSampling(ctx: Context, c: int, s: Sampling)
    requires ctx.Valid() && 0 <= c < 256
    requires 0 <= s.h < 0x100 && 0 <= s.v < 0x100 && 0 <= s.tq < 4 && 0 <= s.td < 4 && 0 <= s.ta < 4
    modifies ctx.component[c]
    ensures ctx.Valid()
    ensures SamplingOf(ctx.component[c]) == s
    ensures forall d | 0 <= d < 256 && d != c :: SamplingOf(ctx.component[d]) == old(SamplingOf(ctx.component[d]))
    ensures forall d | 0 <= d < 256 :: Grid(ctx.component[d]) == old(Grid(ctx.component[d]))
  {
    assert ctx.Owns(ctx.component[c], ComponentSlot(c)) && ctx.ComponentSized(c);
    var k := ctx.component[c];
    k.H, k.V, k.Tq, k.Td, k.Ta := s.h, s.v, s.tq, s.td, s.ta;
    forall d | 0 <= d < 256 && d != c
      ensures ctx.component[d] != k && ctx.ComponentSized(d)
    {
      assert ctx.Owns(ctx.component[d], ComponentSlot(d));
      assert old(ctx.ComponentSized(d));
    }
  }

  /* ---------------------------------------------------------------------------------------- */
  /* The scan's components (fill_scan)                                                        */
  /* ---------------------------------------------------------------------------------------- */

  /** Identifiers in strictly increasing order. */
  predicate Ascending(ks: seq<ComponentSpec>) {
    forall i, j | 0 <= i < j < |ks| :: ks[i].c < ks[j].c
  }

  /** The declared components are listed in strictly increasing identifier order. */
  lemma {:induction false} DeclaredAscending(ss: seq<Sampling>, n: nat)
    requires n <= |ss|
    ensures Ascending(Declared(ss, n))
  {
    if n > 0 {
      DeclaredAscending(ss, n - 1);
      var ks := Declared(ss, n - 1);
      var s := ss[n - 1];
      if s.h != 0 {
        var ks' := ks + [ComponentSpec(n - 1, s.h, s.v, s.tq)];
        assert Declared(ss, n) == ks';
        forall i, j | 0 <= i < j < |ks'|
          ensures ks'[i].c < ks'[j].c
        {
          assert ks'[i] == ks[i] && ks[i].c < n - 1;
          if j < |ks| {
            assert ks'[j] == ks[j];
            assert ks[i].c < ks[j].c;
          } else {
            assert ks'[j].c == n - 1;
          }
        }
      } else {
        assert Declared(ss, n) == ks;
      }
    }
  }

  /** A component is declared exactly when it is sampled. */
  lemma {:induction false} DeclaredExactlySampled(ss: seq<Sampling>, n: nat, c: int)
    requires n <= |ss| && 0 <= c < n
    ensures var ks := Declared(ss, n); ss[c].h != 0 <==> exists i | 0 <= i < |ks| :: ks[i].c == c
  {
    var ks := Declared(ss, n - 1);
    var s := ss[n - 1];
    if c < n - 1 {
      DeclaredExactlySampled(ss, n - 1, c);
    }
    if s.h != 0 {
      var ks' := ks + [ComponentSpec(n - 1, s.h, s.v, s.tq)];
      assert Declared(ss, n) == ks';
      assert ks'[|ks|].c == n - 1;
      if i :| 0 <= i < |ks'| && ks'[i].c == c {
        if i < |ks| {
          assert ks[i].c == c;
        }
      }
      if i :| 0 <= i < |ks| && ks[i].c == c {
        assert ks'[i].c == c;
      }
    } else {
      assert Declared(ss, n) == ks;
    }
  }

  /** Cs after fill_scan over the samplings ss, from cs0: each of the 256 entries names a
      component, the components with H != 0 come first in increasing order, and the entries
      after them are those of cs0. */
  ghost predicate Listed(cs: seq<int>, cs0: seq<int>, ss: seq<Sampling>)
    requires |ss| == 256
  {
    var ks := Declared(ss, 256);
    && |cs| == 256 && |cs0| == 256 && (forall j | 0 <= j < 256 :: 0 <= cs[j] < 256)
    && (forall k | 0 <= k < |ks| :: cs[k] == ks[k].c)
    && (forall k | |ks| <= k < 256 :: cs[k] == cs0[k])
  }

  /** fill_scan: the scan takes Nf components, and its list starts with the identifiers of the
      sampled components, in increasing order, as produce_SOF0 declares them; the rest of the
      list is kept. */
  method FillScan(ctx: Context, scan: Scan, ghost ss: seq<Sampling>)
    requires ctx.Valid() && |scan.Cs| == 256 && forall j | 0 <= j < 256 :: 0 <= scan.Cs[j] < 256
    requires ss == SamplingsOf(ctx)
    modifies scan`Ns, scan`Cs
    ensures scan.Ns == ctx.Nf && Listed(scan.Cs, old(scan.Cs), ss)
  {
    scan.Ns := ctx.Nf;
    var j := 0;
    for i := 0 to 256
      invariant j == |Declared(ss, i)| <= i && |scan.Cs| == 256
      invariant forall k | 0 <= k < j :: scan.Cs[k] == Declared(ss, i)[k].c
      invariant forall k | j <= k < 256 :: scan.Cs[k] == old(scan.Cs[k])
      invariant forall k | 0 <= k < 256 :: 0 <= scan.Cs[k] < 256
      invariant scan.Ns == ctx.Nf
    {
      if ctx.component[i].H != 0 {
        scan.Cs := scan.Cs[j := i];
        j := j + 1;
      }
    }
  }

  /* ---------------------------------------------------------------------------------------- */
  /* Marker segments                                                                          */
  /* ---------------------------------------------------------------------------------------- */

  /** produce_SOI: the start-of-image marker. */
  method ProduceSoi(s: OutStream)
    modifies s
    ensures s.data == old(s.data) + [0xFF, 0xD8]
  {
    WriteMarker(s, 0xFFD8);
  }

  /** produce_EOI: the end-of-image marker. */
  method ProduceEoi(s: OutStream)
    modifies s
    ensures s.data == old(s.data) + [0xFF, 0xD9]
  {
    WriteMarker(s, 0xFFD9);
  }

  /** produce_DQT: quantisation table tq as a DQT segment of 8-bit entries in zig-zag order. */
  method ProduceDqt(ctx: Context, tq: int, s: OutStream)
    requires ctx.Shaped() && 0 <= tq < 4
    modifies s
    ensures s.data == old(s.data) + DqtSegment(tq, ctx.qtable[tq].Q[..])
  {
    var Q := ctx.qtable[tq].Q;
    assert Q.Length == 64;
    WriteDqt(tq, Q, s);
  }

  /** produce_DQT once the table is chosen: marker, length, (Pq, Tq), then the entries. */
  method WriteDqt(tq: byte, Q: array<int>, s: OutStream)
    requires Q.Length == 64
    modifies s
    ensures s.data == old(s.data) + DqtSegment(tq, Q[..])
  {
    ghost var d0 := s.data;
    WriteMarker(s, 0xFFDB);
    WriteWord(s, 67);
    WriteNibbles(s, 0, tq);
    ghost var head := [0xFF, 0xDB] + WordBytes(67) + [NibblesByte(0, tq)];
    AppendRegroup(d0, [0xFF, 0xDB], WordBytes(67), [NibblesByte(0, tq)]);
    WriteQtEntries(Q, s);
    JpegScan.AppendAssoc(d0, head, QtBytes(Q[..]));
  }

  /** produce_DQT's loop: entry zigzag[i] truncated to a byte as the i-th byte. */
  method WriteQtEntries(Q: array<int>, s: OutStream)
    requires Q.Length == 64
    modifies s
    ensures s.data == old(s.data) + QtBytes(Q[..])
  {
    ghost var z := Zigzagged(Q[..]);
    ghost var head := s.data;
    for i := 0 to 64
      invariant |s.data| == |head| + i && s.data[..|head|] == head
      invariant forall k | 0 <= k < i :: s.data[|head| + k] == z[k] % 0x100
    {
      WriteByte(s, Q[Zigzag[i]] % 0x100);
    }
    assert s.data[|head|..] == QtBytes(Q[..]);
    assert s.data == head + s.data[|head|..];
  }

  /** The bytes of one more component specification. */
  lemma {:induction false} SpecBytesSnoc(ks: seq<ComponentSpec>, k: ComponentSpec)
    requires forall i | 0 <= i < |ks| :: 0 <= ks[i].c < 0x100 && 0 <= ks[i].h < 0x100 && 0 <= ks[i].v < 0x100
                                         && 0 <= ks[i].tq < 0x100
    requires 0 <= k.c < 0x100 && 0 <= k.h < 0x100 && 0 <= k.v < 0x100 && 0 <= k.tq < 0x100
    ensures SpecBytes(ks + [k]) == SpecBytes(ks) + [k.c, NibblesByte(k.h, k.v), k.tq]
  {
    assert (ks + [k])[..|ks|] == ks;
  }

  /** One more component, listed when it is sampled. */
  lemma DeclaredBytesSnoc(ss: seq<Sampling>, i: nat)
    requires i < |ss| <= 256 && Samplings(ss)
    ensures SpecBytes(Declared(ss, i + 1))
            == SpecBytes(Declared(ss, i)) + if ss[i].h != 0 then [i, NibblesByte(ss[i].h, ss[i].v), ss[i].tq] else []
  {
    var s := ss[i];
    var ks := Declared(ss, i);
    if s.h != 0 {
      var k := ComponentSpec(i, s.h, s.v, s.tq);
      assert Declared(ss, i + 1) == ks + [k];
      SpecBytesSnoc(ks, k);
    } else {
      assert Declared(ss, i + 1) == ks;
    }
  }

  /** produce_SOF0: the frame header, listing every sampled component in identifier order. */
  method ProduceSof0(ctx: Context, s: OutStream)
    requires ctx.Valid()
    modifies s
    ensures s.data == old(s.data) + Sof0Segment(ctx.P, ctx.Y, ctx.X, ctx.Nf, SamplingsOf(ctx))
  {
    WriteSof0(ctx.P, ctx.Y, ctx.X, ctx.Nf, ctx.component, SamplingsOf(ctx), s);
  }

  /** produce_SOF0 once the frame's fields are read: marker, length 8 + 3 Nf, P, Y, X, Nf, then
      the sampled components. */
  method WriteSof0(p: byte, y: int, x: int, nf: byte, component: seq<Component>, ghost ss: seq<Sampling>,
                   s: OutStream)
    requires 0 <= y < 0x1_0000 && 0 <= x < 0x1_0000
    requires |component| == 256 && |ss| == 256 && Samplings(ss)
    requires forall c | 0 <= c < 256 :: ss[c] == SamplingOf(component[c])
    modifies s
    ensures s.data == old(s.data) + Sof0Segment(p, y, x, nf, ss)
  {
    ghost var d0 := s.data;
    WriteMarker(s, 0xFFC0);
    WriteWord(s, 8 + 3 * nf);
    ghost var h0 := s.data;
    WriteByte(s, p);
    WriteWord(s, y);
    WriteWord(s, x);
    WriteByte(s, nf);
    assert s.data == h0 + ([p] + WordBytes(y) + WordBytes(x) + [nf]);
    WriteSpecs(component, ss, s);
    Sof0Bytes(d0, p, y, x, nf, ss);
  }

  /** A frame header written after d0. */
  lemma {:induction false} Sof0Bytes(d0: seq<byte>, p: byte, y: int, x: int, nf: byte, ss: seq<Sampling>)
    requires 0 <= y < 0x1_0000 && 0 <= x < 0x1_0000 && |ss| == 256 && Samplings(ss)
    ensures d0 + [0xFF, 0xC0] + WordBytes(8 + 3 * nf) + ([p] + WordBytes(y) + WordBytes(x) + [nf])
              + SpecBytes(Declared(ss, 256))
            == d0 + Sof0Segment(p, y, x, nf, ss)
  {
    var h := [p] + WordBytes(y) + WordBytes(x) + [nf];
    var b := SpecBytes(Declared(ss, 256));
    JpegScan.AppendAssoc(d0 + [0xFF, 0xC0] + WordBytes(8 + 3 * nf), h, b);
    AppendRegroup(d0, [0xFF, 0xC0], WordBytes(8 + 3 * nf), h + b);
  }

  /** produce_SOF0's loop body: component i's identifier, (H, V) and Tq when it is sampled. */
  method WriteSpec(i: byte, k: Component, ghost ss: seq<Sampling>, s: OutStream)
    requires i < |ss| && Samplings(ss) && ss[i] == SamplingOf(k)
    modifies s
    ensures s.data == old(s.data) + if ss[i].h != 0 then [i, NibblesByte(ss[i].h, ss[i].v), ss[i].tq] else []
  {
    if k.H != 0 {
      WriteByte(s, i);
      WriteNibbles(s, k.H, k.V);
      WriteByte(s, k.Tq);
    }
  }

  /** produce_SOF0's loop: the specification of every sampled component. */
  method WriteSpecs(component: seq<Component>, ghost ss: seq<Sampling>, s: OutStream)
    requires |component| == 256 && |ss| == 256 && Samplings(ss)
    requires forall c | 0 <= c < 256 :: ss[c] == SamplingOf(component[c])
    modifies s
    ensures s.data == old(s.data) + SpecBytes(Declared(ss, 256))
  {
    for i := 0 to 256
      invariant s.data == old(s.data) + SpecsWritten(ss, i)
    {
      ghost var tail: seq<byte> := if ss[i].h != 0 then [i, NibblesByte(ss[i].h, ss[i].v), ss[i].tq] else [];
      WriteSpec(i, component[i], ss, s);
      JpegScan.AppendAssoc(old(s.data), SpecsWritten(ss, i), tail);
    }
    SpecsWrittenDeclared(ss, 256);
  }

  /** What produce_SOF0's loop has written after components 0 .. n - 1. */
  function SpecsWritten(ss: seq<Sampling>, n: nat): seq<byte>
    requires n <= |ss| <= 256 && Samplings(ss)
  {
    if n == 0 then []
    else
      var s := ss[n - 1];
      SpecsWritten(ss, n - 1) + if s.h != 0 then [n - 1, NibblesByte(s.h, s.v), s.tq] else []
  }

  /** The loop writes the specifications of the declared components. */
  lemma {:induction false} SpecsWrittenDeclared(ss: seq<Sampling>, n: nat)
    requires n <= |ss| <= 256 && Samplings(ss)
    ensures SpecsWritten(ss, n) == SpecBytes(Declared(ss, n))
  {
    if n > 0 {
      SpecsWrittenDeclared(ss, n - 1);
      SpecsWrittenStep(ss, n - 1);
    }
  }

  /** One more component of the loop, once the first i are written as declared. */
  lemma {:induction false} SpecsWrittenStep(ss: seq<Sampling>, i: nat)
    requires i < |ss| <= 256 && Samplings(ss)
    requires SpecsWritten(ss, i) == SpecBytes(Declared(ss, i))
    ensures SpecsWritten(ss, i + 1) == SpecBytes(Declared(ss, i + 1))
  {
    var s := ss[i];
    var tail: seq<byte> := if s.h != 0 then [i, NibblesByte(s.h, s.v), s.tq] else [];
    assert SpecsWritten(ss, i + 1) == SpecsWritten(ss, i) + tail;
    DeclaredBytesSnoc(ss, i);
  }

  /** A DHT table as struct htable holds it: the array sizes, and counts and values within
      uint8_t. */
  ghost predicate Transmittable(t: HTable)
    reads t.L, t.V
  {
    t.Valid() && CountsValid(t.L[..]) && forall i, l | 0 <= i < 16 && 0 <= l < 255 :: 0 <= t.V[i, l] < 0x100
  }

  /** Every element within uint8_t. */
  predicate AllBytes(xs: seq<int>) {
    forall i | 0 <= i < |xs| :: 0 <= xs[i] < 0x100
  }

  /** Integers within uint8_t as bytes. */
  function AsBytes(xs: seq<int>): (bs: seq<byte>)
    requires AllBytes(xs)
    ensures bs == xs
  {
    xs
  }

  /** The first m values of row i of a table are bytes. */
  lemma {:induction false} RowBytes(V: array2<int>, i: nat, m: nat)
    requires i < V.Length0 && m <= V.Length1 && forall l | 0 <= l < V.Length1 :: 0 <= V[i, l] < 0x100
    ensures AllBytes(Row(V, i, m))
  {
    if m > 0 {
      RowBytes(V, i, m - 1);
      JoinBytes(Row(V, i, m - 1), [V[i, m - 1]]);
    }
  }

  /** Two byte sequences joined are bytes. */
  lemma {:induction false} JoinBytes(a: seq<int>, b: seq<int>)
    requires AllBytes(a) && AllBytes(b)
    ensures AllBytes(a + b)
  {
    forall k | 0 <= k < |a + b|
      ensures 0 <= (a + b)[k] < 0x100
    {
      if k < |a| {
        assert (a + b)[k] == a[k];
      } else {
        assert (a + b)[k] == b[k - |a|];
      }
    }
  }

  /** The values of the first n rows of a table are bytes. */
  lemma {:induction false} HtValuesBytes(t: HTable, n: nat)
    requires Transmittable(t) && n <= 16
    ensures AllBytes(HtValues(t.L[..], t.V, n))
  {
    if n > 0 {
      HtValuesBytes(t, n - 1);
      var L := t.L[..];
      assert L[n - 1] <= 255;
      RowBytes(t.V, n - 1, L[n - 1]);
      JoinBytes(HtValues(L, t.V, n - 1), Row(t.V, n - 1, L[n - 1]));
    }
  }

  /** The values of a table, in code order. */
  ghost function TableValues(t: HTable): (vals: seq<byte>)
    requires Transmittable(t)
    reads t.L, t.V
    ensures |vals| == SumTo(t.L[..], 16)
  {
    HtValuesBytes(t, 16);
    AsBytes(HtValues(t.L[..], t.V, 16))
  }

  /** produce_DHT: Huffman table (tc, th) as a DHT segment: its 16 counts, then its values row
      by row. */
  method ProduceDht(ctx: Context, tc: int, th: int, s: OutStream)
    requires ctx.Shaped() && 0 <= tc < 2 && 0 <= th < 4 && Transmittable(ctx.htable[tc][th])
    modifies s
    ensures var t := ctx.htable[tc][th]; s.data == old(s.data) + DhtSegment(tc, th, t.L[..], TableValues(t))
  {
    WriteDht(tc, th, ctx.htable[tc][th], s);
  }

  /** produce_DHT once the table is chosen: marker, length 19 + mt, (Tc, Th), the counts, then
      the values. */
  method WriteDht(tc: byte, th: byte, t: HTable, s: OutStream)
    requires Transmittable(t)
    modifies s
    ensures s.data == old(s.data) + DhtSegment(tc, th, t.L[..], TableValues(t))
  {
    WriteMarker(s, 0xFFC4);
    var mt := CountValues(t);
    WriteWord(s, 2 + 17 + mt);
    WriteNibbles(s, tc, th);
    WriteCounts(t, s);
    WriteValues(t, s);
  }

  /** produce_DHT's count of the values: the sum of the 16 counts. */
  method CountValues(t: HTable) returns (mt: int)
    requires Transmittable(t)
    ensures mt == SumTo(t.L[..], 16) && 0 <= mt <= 16 * 255
  {
    ghost var L := t.L[..];
    mt := 0;
    for i := 0 to 16
      invariant mt == SumTo(L, i)
    {
      mt := mt + t.L[i];
    }
    SumToBound(L, 16);
  }

  /** produce_DHT's first loop: the 16 counts. */
  method WriteCounts(t: HTable, s: OutStream)
    requires Transmittable(t)
    modifies s
    ensures s.data == old(s.data) + t.L[..]
  {
    for i := 0 to 16
      invariant s.data == old(s.data) + t.L[..i]
    {
      WriteByte(s, t.L[i]);
    }
  }

  /** produce_DHT's second loop: the values of each row. */
  method WriteValues(t: HTable, s: OutStream)
    requires Transmittable(t)
    modifies s
    ensures s.data == old(s.data) + TableValues(t)
  {
    ghost var L := t.L[..];
    for i := 0 to 16
      invariant s.data == old(s.data) + HtValues(L, t.V, i)
    {
      for l := 0 to t.L[i]
        invariant s.data == old(s.data) + HtValues(L, t.V, i) + Row(t.V, i, l)
      {
        WriteByte(s, t.V[i, l]);
      }
    }
  }

  /** The bytes of one more scan component's selector. */
  lemma {:induction false} SelectorBytesSnoc(cs: seq<int>, ss: seq<Sampling>, n: nat)
    requires n < |cs| && |ss| == 256 && Samplings(ss) && forall j | 0 <= j < |cs| :: 0 <= cs[j] < 256
    ensures SelectorBytes(cs, ss, n + 1) == SelectorBytes(cs, ss, n) + [cs[n], NibblesByte(ss[cs[n]].td, ss[cs[n]].ta)]
  {
  }

  /** produce_SOS: the scan takes Nf components, listed as fill_scan lists them, each with its
      DC and AC table selectors, for the whole spectrum without successive approximation. */
  method ProduceSos(ctx: Context, s: OutStream, scan: Scan)
    requires ctx.Valid() && |scan.Cs| == 256 && forall j | 0 <= j < 256 :: 0 <= scan.Cs[j] < 256
    modifies s, scan`Ns, scan`Cs
    ensures scan.Ns == ctx.Nf && Listed(scan.Cs, old(scan.Cs), old(SamplingsOf(ctx)))
    ensures s.data == old(s.data) + SosSegment(ctx.Nf, scan.Cs, old(SamplingsOf(ctx)))
  {
    ghost var d0 := s.data;
    ghost var ss := SamplingsOf(ctx);
    WriteMarker(s, 0xFFDA);
    WriteWord(s, 6 + 2 * ctx.Nf);
    ghost var d1 := s.data;
    assert d1 == d0 + [0xFF, 0xDA] + WordBytes(6 + 2 * ctx.Nf);
    FillScan(ctx, scan, ss);
    WriteScan(ctx.Nf, scan.Cs, ctx.component, ss, s);
    assert s.data == d1 + ScanBytes(ctx.Nf, scan.Cs, ss);
    SosBytes(d0, ctx.Nf, scan.Cs, ss);
  }

  /** A scan header written after d0. */
  lemma {:induction false} SosBytes(d0: seq<byte>, ns: byte, cs: seq<int>, ss: seq<Sampling>)
    requires ns <= |cs| && |ss| == 256 && Samplings(ss) && forall j | 0 <= j < |cs| :: 0 <= cs[j] < 256
    ensures d0 + [0xFF, 0xDA] + WordBytes(6 + 2 * ns) + ScanBytes(ns, cs, ss) == d0 + SosSegment(ns, cs, ss)
  {
    AppendRegroup(d0, [0xFF, 0xDA], WordBytes(6 + 2 * ns), ScanBytes(ns, cs, ss));
  }

  /** produce_SOS once the scan is listed: Ns, the selectors, then Ss, Se and (Ah, Al). */
  method WriteScan(ns: byte, cs: seq<int>, component: seq<Component>, ghost ss: seq<Sampling>, s: OutStream)
    requires ns <= |cs| && forall j | 0 <= j < |cs| :: 0 <= cs[j] < 256
    requires |component| == 256 && |ss| == 256 && Samplings(ss)
    requires forall c | 0 <= c < 256 :: ss[c] == SamplingOf(component[c])
    modifies s
    ensures s.data == old(s.data) + ScanBytes(ns, cs, ss)
  {
    ghost var d0 := s.data;
    WriteByte(s, ns);
    WriteSelectors(ns, cs, component, ss, s);
    ghost var d1 := s.data;
    WriteByte(s, 0);
    WriteByte(s, 63);
    WriteNibbles(s, 0, 0);
    assert s.data == d1 + [0, 63, NibblesByte(0, 0)];
    AppendRegroup(d0, [ns], SelectorBytes(cs, ss, ns), [0, 63, NibblesByte(0, 0)]);
  }

  /** produce_SOS's loop: each scan component's identifier and table selectors. */
  method WriteSelectors(ns: int, cs: seq<int>, component: seq<Component>, ghost ss: seq<Sampling>, s: OutStream)
    requires 0 <= ns <= |cs| && forall j | 0 <= j < |cs| :: 0 <= cs[j] < 256
    requires |component| == 256 && |ss| == 256 && Samplings(ss)
    requires forall c | 0 <= c < 256 :: ss[c] == SamplingOf(component[c])
    modifies s
    ensures s.data == old(s.data) + SelectorBytes(cs, ss, ns)
  {
    for j := 0 to ns
      invariant s.data == old(s.data) + SelectorBytes(cs, ss, j)
    {
      var c := cs[j];
      assert ss[c] == SamplingOf(component[c]);
      SelectorBytesSnoc(cs, ss, j);
      WriteByte(s, c);
      WriteNibbles(s, component[c].Td, component[c].Ta);
    }
  }

  /** The headers the encoder writes after set-up read back as set up: SOF0 declares component 1
      (H, V as requested, table 0) alone, or with components 2 and 3 (1 x 1, table 1), and SOS
      selects them in that order, component 1 with tables 0 and the others with tables 1. */
  lemma {:induction false} HeadersRoundTrip(nf: byte, h: int, v: int, p: byte, y: int, x: int, cs: seq<int>,
                                            rest: seq<byte>)
    requires nf == 1 || (nf == 3 && 1 <= h <= 2 && 1 <= v <= 2)
    requires 0 <= y < 0x1_0000 && 0 < x < 0x1_0000
    requires |cs| == 256 && forall j | 0 <= j < 256 :: 0 <= cs[j] < 256
    requires var ks := Declared(SetUp(Unset, nf, h, v), 256); forall k | 0 <= k < |ks| :: cs[k] == ks[k].c
    ensures var ss := SetUp(Unset, nf, h, v);
            ParseFrameHeaderF(Sof0Segment(p, y, x, nf, ss)[4..] + rest)
            == Parsed(FrameSpec(p, y, x, nf,
                                if nf == 1 then [ComponentSpec(1, 1, 1, 0)]
                                else [ComponentSpec(1, h, v, 0), ComponentSpec(2, 1, 1, 1), ComponentSpec(3, 1, 1, 1)]),
                      6 + 3 * nf)
    ensures var ss := SetUp(Unset, nf, h, v);
            ParseScanHeaderF(SosSegment(nf, cs, ss)[4..] + rest)
            == Parsed(ScanSpec(nf, if nf == 1 then [Selector(1, 0, 0)]
                                   else [Selector(1, 0, 0), Selector(2, 1, 1), Selector(3, 1, 1)]),
                      4 + 2 * nf)
  {
    var ss := SetUp(Unset, nf, h, v);
    SetUpDeclares(nf, h, v);
    Sof0RoundTrip(p, y, x, nf, ss, rest);
    var ks := Declared(ss, 256);
    assert cs[0] == 1;
    if nf == 3 {
      assert cs[1] == 2 && cs[2] == 3;
    }
    assert Selecting(cs, ss, nf);
    SosRoundTrip(nf, cs, ss, rest);
    var sel := Selected(cs, ss, nf);
    if nf == 1 {
      assert sel == [Selector(1, 0, 0)];
    } else {
      assert sel == [Selector(1, 0, 0), Selector(2, 1, 1), Selector(3, 1, 1)];
    }
  }
}
