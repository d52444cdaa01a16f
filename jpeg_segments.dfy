/// The marker segments of ITU-T T.81 (section B.2) that the baseline codec reads
/// (parse_qtable, parse_frame_header, parse_huffman_tables and parse_scan_header in
/// Decoders/JPEG/decoder.c) and writes (produce_DQT, produce_SOF0, produce_DHT and produce_SOS in
/// Decoders/JPEG/encoder.c), stated on bytes: what a parser makes of the bytes that follow a
/// segment's length field, and the bytes a producer writes. Every segment the encoder writes is
/// read back by the decoder as it was written.
module JpegSegments {
  import opened JpegCommon
  import opened JpegIo
  import opened JpegHuffman
  import opened JpegCoeffs

  /** What parsing some bytes comes to: a failure status, or the value read and the number of
      bytes it took. */
  datatype Parse<T> = Failed(status: Status) | Parsed(value: T, used: nat)

  /* ---------------------------------------------------------------------------------------- */
  /* DQT: quantisation table specification (section B.2.4.1)                                  */
  /* ---------------------------------------------------------------------------------------- */

  /** A quantisation table as parse_qtable stores it: precision Pq, destination Tq, and the 64
      entries in natural (raster) order. */
  datatype QtSpec = QtSpec(pq: int, tq: int, q: seq<int>)

  /** The bytes one entry takes: a byte for 8-bit precision (Pq = 0), a word otherwise. */
  function EntryBytes(pq: int): nat {
    if pq == 0 then 1 else 2
  }

  /** Entry i, in zig-zag order, of a table whose (Pq, Tq) byte is d[0]. */
  function QtEntry(d: seq<byte>, pq: int, i: nat): int
    requires 1 + EntryBytes(pq) * (i + 1) <= |d|
  {
    if pq == 0 then d[1 + i] else BytesWord(d[1 + 2 * i], d[2 + 2 * i])
  }

  /** The 64 entries of a table whose (Pq, Tq) byte is d[0], in the order read: zig-zag order. */
  function QtEntries(d: seq<byte>, pq: int): (z: seq<int>)
    requires 1 + 64 * EntryBytes(pq) <= |d|
    ensures |z| == 64
  {
    seq(64, i requires 0 <= i < 64 => QtEntry(d, pq, i))
  }

  /** parse_qtable: Tq of 4 or more is unsupported; Pq of 2 or more fails its assertion; bytes
      running out is FailureFileIo; otherwise the entries read, put in natural order. */
  function ParseQTableF(d: seq<byte>): (r: Parse<QtSpec>)
    ensures r.Parsed? ==> && 0 <= r.value.pq < 2 && 0 <= r.value.tq < 4 && |r.value.q| == 64
                          && r.used == 1 + 64 * EntryBytes(r.value.pq) <= |d|
                          && ByteNibbles(d[0]) == (r.value.pq, r.value.tq)
  {
    if |d| == 0 then Failed(FailureFileIo)
    else
      var pq, tq := ByteNibbles(d[0]).0, ByteNibbles(d[0]).1;
      if tq >= 4 then Failed(FailureFileUnsupported)
      else if pq >= 2 then Failed(FailureLogicError)
      else if |d| < 1 + 64 * EntryBytes(pq) then Failed(FailureFileIo)
      else Parsed(QtSpec(pq, tq, Natural(QtEntries(d, pq))), 1 + 64 * EntryBytes(pq))
  }

  /** The i-th entry read is stored at natural index zigzag[i]. */
  lemma {:induction false} QtStoredInZigzagOrder(d: seq<byte>)
    requires ParseQTableF(d).Parsed?
    ensures var t := ParseQTableF(d).value;
            forall i | 0 <= i < 64 :: 0 <= Zigzag[i] < 64 && t.q[Zigzag[i]] == QtEntry(d, t.pq, i)
  {
    ZigzagInverse();
  }

  /** produce_DQT: marker, length 67, (Pq = 0, Tq), then entry zigzag[i] truncated to a byte
      as the i-th byte. */
  function DqtSegment(tq: byte, q: seq<int>): (r: seq<byte>)
    requires |q| == 64
    ensures |r| == 69 && r[..2] == [0xFF, 0xDB] && BytesWord(r[2], r[3]) == |r| - 2
  {
    [0xFF, 0xDB] + WordBytes(67) + [NibblesByte(0, tq)] + QtBytes(q)
  }

  /** The 64 entries of a table in zig-zag order, each truncated to a byte. */
  function QtBytes(q: seq<int>): (r: seq<byte>)
    requires |q| == 64
    ensures |r| == 64 && forall i | 0 <= i < 64 :: r[i] == Zigzagged(q)[i] % 0x100
  {
    var z := Zigzagged(q);
    seq(64, i requires 0 <= i < 64 => z[i] % 0x100)
  }

  /** A table of byte entries written by produce_DQT is read back by parse_qtable as it was:
      8-bit precision, the same destination, the same entries in the same places. */
  lemma {:induction false} DqtRoundTrip(tq: byte, q: seq<int>, rest: seq<byte>)
    requires tq < 4 && |q| == 64 && forall k | 0 <= k < 64 :: 0 <= q[k] < 0x100
    ensures ParseQTableF(DqtSegment(tq, q)[4..] + rest) == Parsed(QtSpec(0, tq, q), 65)
  {
    var d := DqtSegment(tq, q)[4..] + rest;
    assert d[0] == NibblesByte(0, tq);
    NibblesRoundTrip(0, tq);
    var z := Zigzagged(q);
    DqtEntries(tq, q, rest, d, z);
    NaturalZigzagged(q, z);
  }

  /** The entries read back from a written DQT segment are the table in zig-zag order. */
  lemma {:induction false} DqtEntries(tq: byte, q: seq<int>, rest: seq<byte>, d: seq<byte>, z: seq<int>)
    requires |q| == 64 && forall k | 0 <= k < 64 :: 0 <= q[k] < 0x100
    requires d == DqtSegment(tq, q)[4..] + rest && z == Zigzagged(q)
    ensures |d| >= 65 && QtEntries(d, 0) == z
  {
    forall i | 0 <= i < 64
      ensures QtEntries(d, 0)[i] == z[i]
    {
      assert d[1 + i] == z[i] % 0x100;
    }
  }

  /* ---------------------------------------------------------------------------------------- */
  /* SOF: frame header (section B.2.2)                                                        */
  /* ---------------------------------------------------------------------------------------- */

  /** One frame component specification: identifier C, sampling factors H and V, table Tq. */
  datatype ComponentSpec = ComponentSpec(c: int, h: int, v: int, tq: int)

  /** A frame header: precision P, Y lines, X samples per line, Nf and the Nf component
      specifications in the order given. */
  datatype FrameSpec = FrameSpec(p: int, y: int, x: int, nf: int, comps: seq<ComponentSpec>)

  /** Component specification i of the list at d. */
  function ComponentSpecAt(d: seq<byte>, i: nat): (k: ComponentSpec)
    requires 3 * i + 3 <= |d|
    ensures 0 <= k.c < 0x100 && 0 <= k.h < 16 && 0 <= k.v < 16 && 0 <= k.tq < 0x100
  {
    ComponentSpec(d[3 * i], ByteNibbles(d[3 * i + 1]).0, ByteNibbles(d[3 * i + 1]).1, d[3 * i + 2])
  }

  /** parse_frame_header's loop over n component specifications: bytes running out is
      FailureFileIo; a table selector Tq of 4 or more is refused as unsupported, since
      dequantize indexes the four quantisation tables with it. */
  function ComponentSpecsF(d: seq<byte>, n: nat): (r: Parse<seq<ComponentSpec>>)
    ensures r.Parsed? ==> |r.value| == n && r.used == 3 * n <= |d|
    ensures r.Failed? ==> r.status == FailureFileIo || r.status == FailureFileUnsupported
  {
    if n == 0 then Parsed([], 0)
    else
      match ComponentSpecsF(d, n - 1)
      case Failed(e) => Failed(e)
      case Parsed(ks, _) =>
        if |d| < 3 * n then Failed(FailureFileIo)
        else if d[3 * n - 1] >= 4 then Failed(FailureFileUnsupported)
        else Parsed(ks + [ComponentSpecAt(d, n - 1)], 3 * n)
  }

  /** parse_frame_header up to its call of compute_no_blocks_and_alloc_buffers: P, Y, X and Nf,
      X = 0 or Nf = 0 failing its assertion, then the component specifications. */
  function ParseFrameHeaderF(d: seq<byte>): (r: Parse<FrameSpec>)
    ensures r.Parsed? ==> && 6 <= r.used <= |d| && r.value.x > 0 && r.value.nf > 0
                          && |r.value.comps| == r.value.nf && r.used == 6 + 3 * r.value.nf
    ensures r.Failed? ==> r.status in {FailureFileIo, FailureLogicError, FailureFileUnsupported}
  {
    if |d| < 6 then Failed(FailureFileIo)
    else
      var x, nf := BytesWord(d[3], d[4]), d[5];
      if x == 0 || nf == 0 then Failed(FailureLogicError)
      else
        match ComponentSpecsF(d[6..], nf)
        case Failed(e) => Failed(e)
        case Parsed(ks, u) => Parsed(FrameSpec(d[0], BytesWord(d[1], d[2]), x, nf, ks), 6 + u)
  }

  /** The specification a component ends up with: the last one in the list with its identifier
      (a later one overwrites an earlier one), None when none names it. */
  function LastSpec(ks: seq<ComponentSpec>, c: int): (r: Option<ComponentSpec>)
    ensures r.Some? ==> r.value in ks && r.value.c == c
    ensures r.None? ==> forall i | 0 <= i < |ks| :: ks[i].c != c
  {
    if ks == [] then None
    else if ks[|ks| - 1].c == c then Some(ks[|ks| - 1])
    else LastSpec(ks[..|ks| - 1], c)
  }

  /** The largest H of the list, 0 for none: max_H. */
  function MaxH(ks: seq<ComponentSpec>): (m: int)
    ensures m >= 0 && forall i | 0 <= i < |ks| :: ks[i].h <= m
    ensures m == 0 || exists i | 0 <= i < |ks| :: ks[i].h == m
  {
    if ks == [] then 0
    else
      var m := MaxH(ks[..|ks| - 1]);
      var h := ks[|ks| - 1].h;
      assert forall i | 0 <= i < |ks| - 1 :: ks[..|ks| - 1][i] == ks[i];
      if h > m then h else m
  }

  /** The largest V of the list, 0 for none: max_V. */
  function MaxV(ks: seq<ComponentSpec>): (m: int)
    ensures m >= 0 && forall i | 0 <= i < |ks| :: ks[i].v <= m
    ensures m == 0 || exists i | 0 <= i < |ks| :: ks[i].v == m
  {
    if ks == [] then 0
    else
      var m := MaxV(ks[..|ks| - 1]);
      var v := ks[|ks| - 1].v;
      assert forall i | 0 <= i < |ks| - 1 :: ks[..|ks| - 1][i] == ks[i];
      if v > m then v else m
  }

  /** A component's sampling factors and table selectors as the encoder keeps them. */
  datatype Sampling = Sampling(h: int, v: int, tq: int, td: int, ta: int)

  /** Sampling factors and selectors within the uint8_t fields of struct component. */
  predicate Samplings(ss: seq<Sampling>) {
    forall c | 0 <= c < |ss| :: 0 <= ss[c].h < 0x100 && 0 <= ss[c].v < 0x100 && 0 <= ss[c].tq < 0x100
                                && 0 <= ss[c].td < 0x100 && 0 <= ss[c].ta < 0x100
  }

  /** The components among the first n that produce_SOF0 lists: those with H != 0, in identifier
      order. */
  function Declared(ss: seq<Sampling>, n: nat): (ks: seq<ComponentSpec>)
    requires n <= |ss|
    ensures |ks| <= n
    ensures forall i | 0 <= i < |ks| ::
              && 0 <= ks[i].c < n && ss[ks[i].c].h != 0
              && ks[i] == ComponentSpec(ks[i].c, ss[ks[i].c].h, ss[ks[i].c].v, ss[ks[i].c].tq)
  {
    if n == 0 then []
    else
      var s := ss[n - 1];
      Declared(ss, n - 1) + if s.h != 0 then [ComponentSpec(n - 1, s.h, s.v, s.tq)] else []
  }

  /** The three bytes of a component specification: C, (H, V), Tq. */
  function SpecBytes(ks: seq<ComponentSpec>): (r: seq<byte>)
    requires forall i | 0 <= i < |ks| :: 0 <= ks[i].c < 0x100 && 0 <= ks[i].h < 0x100 && 0 <= ks[i].v < 0x100
                                         && 0 <= ks[i].tq < 0x100
    ensures |r| == 3 * |ks|
  {
    if ks == [] then []
    else
      var k := ks[|ks| - 1];
      SpecBytes(ks[..|ks| - 1]) + [k.c, NibblesByte(k.h, k.v), k.tq]
  }

  lemma {:induction false} SpecBytesAt(ks: seq<ComponentSpec>, i: nat)
    requires forall j | 0 <= j < |ks| :: 0 <= ks[j].c < 0x100 && 0 <= ks[j].h < 0x100 && 0 <= ks[j].v < 0x100
                                         && 0 <= ks[j].tq < 0x100
    requires i < |ks|
    ensures SpecBytes(ks)[3 * i] == ks[i].c && SpecBytes(ks)[3 * i + 1] == NibblesByte(ks[i].h, ks[i].v)
            && SpecBytes(ks)[3 * i + 2] == ks[i].tq
  {
    var m := |ks| - 1;
    if i < m {
      assert ks[..m][i] == ks[i];
      SpecBytesAt(ks[..m], i);
    }
  }

  /** The body of the frame header produce_SOF0 writes: P, Y, X, Nf, then the specification of
      every component with H != 0, in identifier order. */
  function FrameBytes(p: byte, y: int, x: int, nf: byte, ss: seq<Sampling>): (r: seq<byte>)
    requires 0 <= y < 0x1_0000 && 0 <= x < 0x1_0000 && |ss| == 256 && Samplings(ss)
    ensures |r| == 6 + 3 * |Declared(ss, 256)|
  {
    [p] + WordBytes(y) + WordBytes(x) + [nf] + SpecBytes(Declared(ss, 256))
  }

  /** produce_SOF0: marker, length 8 + 3 Nf, then the frame header's body. */
  function Sof0Segment(p: byte, y: int, x: int, nf: byte, ss: seq<Sampling>): (r: seq<byte>)
    requires 0 <= y < 0x1_0000 && 0 <= x < 0x1_0000 && |ss| == 256 && Samplings(ss)
    ensures |r| >= 10 && r[..2] == [0xFF, 0xC0] && BytesWord(r[2], r[3]) == 8 + 3 * nf
    ensures r[4..] == FrameBytes(p, y, x, nf, ss)
    ensures |Declared(ss, 256)| == nf ==> |r| == 10 + 3 * nf && BytesWord(r[2], r[3]) == |r| - 2
  {
    WordRoundTrip(8 + 3 * nf);
    [0xFF, 0xC0] + WordBytes(8 + 3 * nf) + FrameBytes(p, y, x, nf, ss)
  }

  /** The components with H != 0 can be written to and read from a frame header: H and V fit a
      nibble and Tq selects one of the four tables. */
  predicate Encodable(ss: seq<Sampling>) {
    forall c | 0 <= c < |ss| :: ss[c].h != 0 ==> ss[c].h < 16 && 0 <= ss[c].v < 16 && 0 <= ss[c].tq < 4
  }

  /** The three bytes of a specification at place i read back as that specification. */
  lemma {:induction false} SpecAtBytes(d: seq<byte>, i: nat, k: ComponentSpec)
    requires 3 * i + 3 <= |d| && 0 <= k.h < 16 && 0 <= k.v < 16
    requires d[3 * i] == k.c && d[3 * i + 1] == NibblesByte(k.h, k.v) && d[3 * i + 2] == k.tq
    ensures ComponentSpecAt(d, i) == k
  {
    NibblesRoundTrip(k.h, k.v);
  }

  /** The first n specifications written are read back as written. */
  lemma {:induction false} SpecsRoundTrip(ks: seq<ComponentSpec>, rest: seq<byte>, n: nat)
    requires forall j | 0 <= j < |ks| :: 0 <= ks[j].c < 0x100 && 0 <= ks[j].h < 16 && 0 <= ks[j].v < 16
                                         && 0 <= ks[j].tq < 4
    requires n <= |ks|
    ensures ComponentSpecsF(SpecBytes(ks) + rest, n) == Parsed(ks[..n], 3 * n)
  {
    if n > 0 {
      SpecsRoundTrip(ks, rest, n - 1);
      SpecsRoundTripStep(ks, rest, n - 1);
    }
  }

  /** One more specification read back, once the first i are. */
  lemma {:induction false} SpecsRoundTripStep(ks: seq<ComponentSpec>, rest: seq<byte>, i: nat)
    requires forall j | 0 <= j < |ks| :: 0 <= ks[j].c < 0x100 && 0 <= ks[j].h < 16 && 0 <= ks[j].v < 16
                                         && 0 <= ks[j].tq < 4
    requires i < |ks| && ComponentSpecsF(SpecBytes(ks) + rest, i) == Parsed(ks[..i], 3 * i)
    ensures ComponentSpecsF(SpecBytes(ks) + rest, i + 1) == Parsed(ks[..i + 1], 3 * (i + 1))
  {
    var d := SpecBytes(ks) + rest;
    SpecBytesAt(ks, i);
    assert |d| >= 3 * (i + 1);
    assert d[3 * i] == ks[i].c && d[3 * i + 1] == NibblesByte(ks[i].h, ks[i].v) && d[3 * i + 2] == ks[i].tq;
    SpecAtBytes(d, i, ks[i]);
    SpecsStepOn(d, ks, i);
  }

  /** The loop of parse_frame_header takes one more step over bytes whose next specification
      is ks[i] with a supported table selector. */
  lemma {:induction false} SpecsStepOn(d: seq<byte>, ks: seq<ComponentSpec>, i: nat)
    requires i < |ks| && 3 * i + 3 <= |d| && ComponentSpecsF(d, i) == Parsed(ks[..i], 3 * i)
    requires d[3 * i + 2] < 4 && ComponentSpecAt(d, i) == ks[i]
    ensures ComponentSpecsF(d, i + 1) == Parsed(ks[..i + 1], 3 * (i + 1))
  {
    assert ks[..i + 1] == ks[..i] + [ks[i]];
  }

  /** A frame header written by produce_SOF0 is read back by parse_frame_header: the same P, Y,
      X and Nf, and the specifications of the components with H != 0, when Nf counts them. */
  lemma {:induction false} Sof0RoundTrip(p: byte, y: int, x: int, nf: byte, ss: seq<Sampling>, rest: seq<byte>)
    requires 0 <= y < 0x1_0000 && 0 < x < 0x1_0000 && |ss| == 256 && Samplings(ss) && Encodable(ss)
    requires 0 < nf && |Declared(ss, 256)| == nf
    ensures ParseFrameHeaderF(Sof0Segment(p, y, x, nf, ss)[4..] + rest)
            == Parsed(FrameSpec(p, y, x, nf, Declared(ss, 256)), 6 + 3 * nf)
  {
    assert Sof0Segment(p, y, x, nf, ss)[4..] + rest == FrameBytes(p, y, x, nf, ss) + rest;
    FrameBytesRead(p, y, x, nf, ss, rest);
  }

  /** The body of a frame header reads back field by field. */
  lemma {:induction false} FrameBytesRead(p: byte, y: int, x: int, nf: byte, ss: seq<Sampling>, rest: seq<byte>)
    requires 0 <= y < 0x1_0000 && 0 < x < 0x1_0000 && |ss| == 256 && Samplings(ss) && Encodable(ss)
    requires 0 < nf && |Declared(ss, 256)| == nf
    ensures ParseFrameHeaderF(FrameBytes(p, y, x, nf, ss) + rest)
            == Parsed(FrameSpec(p, y, x, nf, Declared(ss, 256)), 6 + 3 * nf)
  {
    var ks := Declared(ss, 256);
    var d := FrameBytes(p, y, x, nf, ss) + rest;
    FrameFields(p, y, x, nf, ss, rest);
    assert ComponentSpecsF(d[6..], nf) == Parsed(ks, 3 * nf) by {
      SpecsRoundTrip(ks, rest, nf);
      assert ks[..nf] == ks;
    }
  }

  /** Where the fields of a frame header sit in its body. */
  lemma FrameFields(p: byte, y: int, x: int, nf: byte, ss: seq<Sampling>, rest: seq<byte>)
    requires 0 <= y < 0x1_0000 && 0 <= x < 0x1_0000 && |ss| == 256 && Samplings(ss)
    ensures var d := FrameBytes(p, y, x, nf, ss) + rest;
            && |d| >= 6 && d[0] == p && d[5] == nf && d[6..] == SpecBytes(Declared(ss, 256)) + rest
            && BytesWord(d[1], d[2]) == y && BytesWord(d[3], d[4]) == x
  {
    var wy, wx, sb := WordBytes(y), WordBytes(x), SpecBytes(Declared(ss, 256)) + rest;
    var h := [p] + wy + wx + [nf];
    var d := FrameBytes(p, y, x, nf, ss) + rest;
    assert d == h + sb;
    assert d[1] == wy[0] && d[2] == wy[1] && d[3] == wx[0] && d[4] == wx[1];
    assert d[6..] == sb;
    WordRoundTrip(y);
    WordRoundTrip(x);
  }

  /** The decoder gives each component the specification the encoder kept for it: a component
      with H != 0 its own, any other none. */
  lemma {:induction false} DeclaredLast(ss: seq<Sampling>, n: nat, c: int)
    requires n <= |ss|
    ensures LastSpec(Declared(ss, n), c)
            == if 0 <= c < n && ss[c].h != 0 then Some(ComponentSpec(c, ss[c].h, ss[c].v, ss[c].tq)) else None
  {
    if n > 0 {
      DeclaredLast(ss, n - 1, c);
      var ks := Declared(ss, n - 1);
      var s := ss[n - 1];
      if s.h != 0 {
        var k := ComponentSpec(n - 1, s.h, s.v, s.tq);
        assert Declared(ss, n) == ks + [k];
        LastSpecSnoc(ks, k, c);
        if c == n - 1 {
          assert LastSpec(Declared(ss, n), c) == Some(k);
        } else {
          assert LastSpec(Declared(ss, n), c) == LastSpec(ks, c);
        }
      } else {
        assert Declared(ss, n) == ks;
        assert c == n - 1 ==> ss[c].h == 0;
      }
    } else {
      assert Declared(ss, n) == [];
    }
  }

  /** The last specification naming c, once one more is appended. */
  lemma {:induction false} LastSpecSnoc(ks: seq<ComponentSpec>, k: ComponentSpec, c: int)
    ensures LastSpec(ks + [k], c) == if k.c == c then Some(k) else LastSpec(ks, c)
  {
    assert (ks + [k])[..|ks|] == ks;
  }

  /* ---------------------------------------------------------------------------------------- */
  /* DHT: Huffman table specification (section B.2.4.2)                                       */
  /* ---------------------------------------------------------------------------------------- */

  /** A Huffman table as transmitted: class Tc (0 for DC, 1 for AC), destination Th, the 16
      counts L and the values in code order. */
  datatype HuffmanSpec = HuffmanSpec(tc: int, th: int, L: seq<int>, vals: seq<int>)

  /** parse_huffman_tables: Tc of 2 or more is unsupported, and so, in this model, is a
      destination Th of 4 or more, which the source uses unchecked to index its four tables;
      bytes running out is FailureFileIo; then conv_htable_to_hcode's assertion fails for 256 or
      more codes, and a table without codes is refused as unsupported. */
  function ParseHuffmanTablesF(d: seq<byte>): (r: Parse<HuffmanSpec>)
    ensures r.Parsed? ==> && 0 <= r.value.tc < 2 && 0 <= r.value.th < 4 && CountsValid(r.value.L)
                          && 0 < SumTo(r.value.L, 16) < 256 && |r.value.vals| == SumTo(r.value.L, 16)
                          && r.used == 17 + |r.value.vals| <= |d|
                          && ByteNibbles(d[0]) == (r.value.tc, r.value.th)
  {
    if |d| == 0 then Failed(FailureFileIo)
    else
      var tc, th := ByteNibbles(d[0]).0, ByteNibbles(d[0]).1;
      if tc >= 2 || th >= 4 then Failed(FailureFileUnsupported)
      else if |d| < 17 then Failed(FailureFileIo)
      else
        var L: seq<int> := d[1..17];
        var total := SumTo(L, 16);
        assert 0 <= total by { SumToMono(L, 0, 16); }
        if |d| < 17 + total then Failed(FailureFileIo)
        else if total >= 256 then Failed(FailureLogicError)
        else if total == 0 then Failed(FailureFileUnsupported)
        else Parsed(HuffmanSpec(tc, th, L, d[17..17 + total]), 17 + total)
  }
  /** The table parse_huffman_tables fills as decoder.c has it: &htable[Tc][Th] in the
      row-major [2][4] array, with Th unchecked, is table 4 Tc + Th of the eight. */
  function DhtDestinationAsWritten(b: byte): int {
    4 * ByteNibbles(b).0 + ByteNibbles(b).1
  }

  /** A destination Th of 4 or more leaves the row of its class: a DC table lands on one of the
      AC tables, an AC table past all eight. */
  lemma {:induction false} DhtDestinationStrays(b: byte)
    requires ByteNibbles(b).0 < 2 && ByteNibbles(b).1 >= 4
    ensures var k := DhtDestinationAsWritten(b);
            k >= 4 && !(4 * ByteNibbles(b).0 <= k < 4 * ByteNibbles(b).0 + 4)
  {
  }

  /** For example, the byte 0x04 (DC table 4) overwrites AC table 0 and the byte 0x14 (AC table
      4) writes past the tables. */
  lemma DhtDestinationExamples()
    ensures DhtDestinationAsWritten(0x04) == 4 && DhtDestinationAsWritten(0x14) == 8
  {
  }

  /** The corrected parse refuses those destinations, and every table it accepts is one of the
      four of its class. */
  lemma {:induction false} DhtDestinationChecked(d: seq<byte>)
    requires |d| > 0 && ByteNibbles(d[0]).0 < 2
    ensures var k := DhtDestinationAsWritten(d[0]);
            && (ParseHuffmanTablesF(d).Parsed? ==> 4 * ByteNibbles(d[0]).0 <= k < 4 * ByteNibbles(d[0]).0 + 4)
            && (ByteNibbles(d[0]).1 >= 4 ==> ParseHuffmanTablesF(d) == Failed(FailureFileUnsupported))
  {
  }


  /** produce_DHT: marker, length 19 + the number of values, (Tc, Th), the 16 counts, the
      values. */
  function DhtSegment(tc: byte, th: byte, L: seq<int>, vals: seq<byte>): (r: seq<byte>)
    requires CountsValid(L) && |vals| == SumTo(L, 16)
    ensures |r| == 21 + |vals| && r[..2] == [0xFF, 0xC4] && BytesWord(r[2], r[3]) == |r| - 2
  {
    SumToBound(L, 16);
    var counts: seq<byte> := seq(16, i requires 0 <= i < 16 => L[i]);
    [0xFF, 0xC4] + WordBytes(19 + |vals|) + [NibblesByte(tc, th)] + counts + vals
  }

  /** At most 255 codes of each of the 16 lengths. */
  lemma {:induction false} SumToBound(L: seq<int>, n: nat)
    requires CountsValid(L) && n <= 16
    ensures 0 <= SumTo(L, n) <= 255 * n
  {
    if n > 0 {
      SumToBound(L, n - 1);
    }
  }

  /** A table written by produce_DHT is read back by parse_huffman_tables as it was. */
  lemma {:induction false} DhtRoundTrip(tc: byte, th: byte, L: seq<int>, vals: seq<byte>, rest: seq<byte>)
    requires tc < 2 && th < 4 && CountsValid(L) && 0 < SumTo(L, 16) < 256 && |vals| == SumTo(L, 16)
    ensures ParseHuffmanTablesF(DhtSegment(tc, th, L, vals)[4..] + rest)
            == Parsed(HuffmanSpec(tc, th, L, vals), 17 + |vals|)
  {
    var counts: seq<byte> := seq(16, i requires 0 <= i < 16 => L[i]);
    assert counts == L;
    var body := [NibblesByte(tc, th)] + counts + vals;
    assert DhtSegment(tc, th, L, vals)[4..] == body;
    var d := body + rest;
    NibblesRoundTrip(tc, th);
    assert d[0] == NibblesByte(tc, th) && |d| >= 17 + |vals|;
    assert d[1..17] == L;
    assert d[17..17 + |vals|] == vals;
  }

  /* ---------------------------------------------------------------------------------------- */
  /* SOS: scan header (section B.2.3)                                                         */
  /* ---------------------------------------------------------------------------------------- */

  /** One scan component specification: component Cs and its DC and AC table selectors. */
  datatype Selector = Selector(cs: int, td: int, ta: int)

  /** A scan header of Ns components; Ss, Se, Ah and Al are always 0, 63, 0 and 0. */
  datatype ScanSpec = ScanSpec(ns: int, sels: seq<Selector>)

  function SelectorAt(d: seq<byte>, j: nat): (k: Selector)
    requires 2 * j + 2 <= |d|
    ensures 0 <= k.cs < 0x100 && 0 <= k.td < 16 && 0 <= k.ta < 16
  {
    Selector(d[2 * j], ByteNibbles(d[2 * j + 1]).0, ByteNibbles(d[2 * j + 1]).1)
  }

  /** parse_scan_header's loop over n scan component specifications: bytes running out is
      FailureFileIo; a selector Td or Ta of 4 or more is refused as unsupported, since the source
      uses them unchecked to index its four tables. */
  function SelectorsF(d: seq<byte>, n: nat): (r: Parse<seq<Selector>>)
    ensures r.Parsed? ==> |r.value| == n && r.used == 2 * n <= |d|
  {
    if n == 0 then Parsed([], 0)
    else
      match SelectorsF(d, n - 1)
      case Failed(e) => Failed(e)
      case Parsed(ks, _) =>
        if |d| < 2 * n then Failed(FailureFileIo)
        else if ByteNibbles(d[2 * n - 1]).0 >= 4 || ByteNibbles(d[2 * n - 1]).1 >= 4 then Failed(FailureFileUnsupported)
        else Parsed(ks + [SelectorAt(d, n - 1)], 2 * n)
  }

  /** parse_scan_header: Ns, the Ns selectors, then Ss, Se and (Ah, Al); only a sequential scan
      of all 64 coefficients (Ss = 0, Se = 63) without successive approximation (Ah = Al = 0) is
      supported. */
  function ParseScanHeaderF(d: seq<byte>): (r: Parse<ScanSpec>)
    ensures r.Parsed? ==> && 0 <= r.value.ns < 0x100 && |r.value.sels| == r.value.ns
                          && r.used == 4 + 2 * r.value.ns <= |d|
  {
    if |d| == 0 then Failed(FailureFileIo)
    else
      var ns := d[0];
      match SelectorsF(d[1..], ns)
      case Failed(e) => Failed(e)
      case Parsed(ks, u) =>
        if |d| < 4 + u then Failed(FailureFileIo)
        else if d[1 + u] != 0 || d[2 + u] != 63 then Failed(FailureFileUnsupported)
        else if d[3 + u] != 0 then Failed(FailureFileUnsupported)
        else Parsed(ScanSpec(ns, ks), 4 + u)
  }

  /** The selector bytes of the first n components of a scan: Cs[j], then (Td, Ta) of that
      component. */
  function SelectorBytes(cs: seq<int>, ss: seq<Sampling>, n: nat): (r: seq<byte>)
    requires n <= |cs| && |ss| == 256 && Samplings(ss) && forall j | 0 <= j < |cs| :: 0 <= cs[j] < 256
    ensures |r| == 2 * n
  {
    if n == 0 then []
    else
      var c := cs[n - 1];
      SelectorBytes(cs, ss, n - 1) + [c, NibblesByte(ss[c].td, ss[c].ta)]
  }

  /** The body of the scan header produce_SOS writes: Ns, a selector for each of the first Ns
      components of the scan, then Ss = 0, Se = 63 and (Ah, Al) = (0, 0). */
  function ScanBytes(ns: byte, cs: seq<int>, ss: seq<Sampling>): (r: seq<byte>)
    requires ns <= |cs| && |ss| == 256 && Samplings(ss) && forall j | 0 <= j < |cs| :: 0 <= cs[j] < 256
    ensures |r| == 4 + 2 * ns
  {
    [ns] + SelectorBytes(cs, ss, ns) + [0, 63, NibblesByte(0, 0)]
  }

  /** produce_SOS: marker, length 6 + 2 Ns, then the scan header's body. */
  function SosSegment(ns: byte, cs: seq<int>, ss: seq<Sampling>): (r: seq<byte>)
    requires ns <= |cs| && |ss| == 256 && Samplings(ss) && forall j | 0 <= j < |cs| :: 0 <= cs[j] < 256
    ensures |r| == 8 + 2 * ns && r[..2] == [0xFF, 0xDA] && BytesWord(r[2], r[3]) == |r| - 2
    ensures r[4..] == ScanBytes(ns, cs, ss)
  {
    WordRoundTrip(6 + 2 * ns);
    [0xFF, 0xDA] + WordBytes(6 + 2 * ns) + ScanBytes(ns, cs, ss)
  }

  lemma {:induction false} SelectorBytesAt(cs: seq<int>, ss: seq<Sampling>, n: nat, j: nat)
    requires n <= |cs| && |ss| == 256 && Samplings(ss) && forall i | 0 <= i < |cs| :: 0 <= cs[i] < 256
    requires j < n
    ensures SelectorBytes(cs, ss, n)[2 * j] == cs[j]
    ensures SelectorBytes(cs, ss, n)[2 * j + 1] == NibblesByte(ss[cs[j]].td, ss[cs[j]].ta)
  {
    if j < n - 1 {
      SelectorBytesAt(cs, ss, n - 1, j);
    }
  }

  /** The selectors produce_SOS writes for the first n components of the scan. */
  function Selected(cs: seq<int>, ss: seq<Sampling>, n: nat): (ks: seq<Selector>)
    requires n <= |cs| && |ss| == 256 && forall j | 0 <= j < |cs| :: 0 <= cs[j] < 256
    ensures |ks| == n
    ensures forall j | 0 <= j < n :: ks[j] == Selector(cs[j], ss[cs[j]].td, ss[cs[j]].ta)
  {
    seq(n, j requires 0 <= j < n => Selector(cs[j], ss[cs[j]].td, ss[cs[j]].ta))
  }

  /** Every component of the scan selects one of the four DC and four AC tables. */
  predicate Selecting(cs: seq<int>, ss: seq<Sampling>, n: nat)
    requires n <= |cs| && |ss| == 256 && forall j | 0 <= j < |cs| :: 0 <= cs[j] < 256
  {
    forall j | 0 <= j < n :: 0 <= ss[cs[j]].td < 4 && 0 <= ss[cs[j]].ta < 4
  }

  /** The two bytes of a selector at place j read back as that selector. */
  lemma {:induction false} SelectorAtBytes(d: seq<byte>, j: nat, k: Selector)
    requires 2 * j + 2 <= |d| && 0 <= k.td < 16 && 0 <= k.ta < 16
    requires d[2 * j] == k.cs && d[2 * j + 1] == NibblesByte(k.td, k.ta)
    ensures SelectorAt(d, j) == k
  {
    NibblesRoundTrip(k.td, k.ta);
  }

  /** One more selector read: the list grows by the selector at the next place. */
  lemma {:induction false} SelectorsSnoc(d: seq<byte>, m: nat, ks: seq<Selector>, k: Selector)
    requires 0 < m && 2 * m <= |d| && SelectorsF(d, m - 1) == Parsed(ks, 2 * (m - 1))
    requires SelectorAt(d, m - 1) == k && k.td < 4 && k.ta < 4
    ensures SelectorsF(d, m) == Parsed(ks + [k], 2 * m)
  {
  }

  /** The first m selectors written are read back as written. */
  lemma {:induction false} SelectorsRoundTrip(cs: seq<int>, ss: seq<Sampling>, n: nat, m: nat, rest: seq<byte>)
    requires n <= |cs| && |ss| == 256 && Samplings(ss) && forall j | 0 <= j < |cs| :: 0 <= cs[j] < 256
    requires Selecting(cs, ss, n) && m <= n
    ensures SelectorsF(SelectorBytes(cs, ss, n) + rest, m) == Parsed(Selected(cs, ss, m), 2 * m)
  {
    if m > 0 {
      var d := SelectorBytes(cs, ss, n) + rest;
      var j := m - 1;
      SelectorsRoundTrip(cs, ss, n, j, rest);
      var c := cs[j];
      var k := Selector(c, ss[c].td, ss[c].ta);
      assert SelectorAt(d, j) == k by {
        SelectorBytesAt(cs, ss, n, j);
        SelectorAtBytes(d, j, k);
      }
      SelectorsSnoc(d, m, Selected(cs, ss, j), k);
      SelectedSnoc(cs, ss, m);
    }
  }

  /** One more scan component selected. */
  lemma {:induction false} SelectedSnoc(cs: seq<int>, ss: seq<Sampling>, m: nat)
    requires 0 < m <= |cs| && |ss| == 256 && forall j | 0 <= j < |cs| :: 0 <= cs[j] < 256
    ensures Selected(cs, ss, m) == Selected(cs, ss, m - 1) + [Selector(cs[m - 1], ss[cs[m - 1]].td, ss[cs[m - 1]].ta)]
  {
  }

  /** A scan header written by produce_SOS is read back by parse_scan_header: the same Ns and
      the same components with the same selectors. */
  lemma {:induction false} SosRoundTrip(ns: byte, cs: seq<int>, ss: seq<Sampling>, rest: seq<byte>)
    requires ns <= |cs| && |ss| == 256 && Samplings(ss) && forall j | 0 <= j < |cs| :: 0 <= cs[j] < 256
    requires Selecting(cs, ss, ns)
    ensures ParseScanHeaderF(SosSegment(ns, cs, ss)[4..] + rest)
            == Parsed(ScanSpec(ns, Selected(cs, ss, ns)), 4 + 2 * ns)
  {
    var d := ScanBytes(ns, cs, ss) + rest;
    var tail := [0, 63, NibblesByte(0, 0)] + rest;
    assert NibblesByte(0, 0) == 0;
    assert d[0] == ns;
    assert SelectorsF(d[1..], ns) == Parsed(Selected(cs, ss, ns), 2 * ns) by {
      assert d[1..] == SelectorBytes(cs, ss, ns) + tail;
      SelectorsRoundTrip(cs, ss, ns, ns, tail);
    }
    assert d[1 + 2 * ns] == 0 && d[2 + 2 * ns] == 63 && d[3 + 2 * ns] == 0 by {
      assert d[1 + 2 * ns..] == tail;
    }
  }
}
