/// The baseline decoder's marker segment parsers (parse_qtable, parse_frame_header,
/// parse_huffman_tables, parse_scan_header, parse_restart_interval and parse_comment in
/// Decoders/JPEG/decoder.c), each proved against the byte-level parse of JpegSegments: what the
/// parser returns and what it stores in the context is what that parse makes of the bytes that
/// follow the segment's length field.
module JpegDecoder {
  import opened JpegCommon
  import opened JpegIo
  import opened JpegHuffman
  import opened JpegCoeffs
  import opened JpegCoeffsRead
  import opened JpegContext
  import opened JpegSegments
  import opened JpegScan
  import opened JpegMcu
  import opened Arith
  import JpegHuffmanAdapt

  /** The status a parse comes to. */
  function StatusOf<T>(r: Parse<T>): Status {
    if r.Failed? then r.status else Success
  }

  /** The bytes left once k of the bytes d at position p0 have been read. */
  lemma {:induction false} RemainingAt(s: InStream, d: seq<byte>, p0: nat, k: nat)
    requires p0 <= |s.data| && d == s.data[p0..] && s.pos == p0 + k && k <= |d|
    ensures s.pos <= |s.data| && Remaining(s) == d[k..]
    ensures k < |d| ==> s.data[s.pos] == d[k]
    ensures k + 1 < |d| ==> s.data[s.pos + 1] == d[k + 1]
  {
  }

  /** The destination Tq the first byte of a DQT table names, -1 with no byte. */
  function TqOf(d: seq<byte>): int {
    if |d| == 0 then -1 else ByteNibbles(d[0]).1
  }

  /* ---------------------------------------------------------------------------------------- */
  /* DQT                                                                                      */
  /* ---------------------------------------------------------------------------------------- */

  /** The quantisation tables are neither the context nor one of its components. */
  lemma {:induction false} QObjectsApart(ctx: Context)
    requires ctx.Shaped()
    ensures ctx !in ctx.QObjects() && forall c | 0 <= c < 256 :: ctx.component[c] !in ctx.QObjects()
  {
    forall c | 0 <= c < 256
      ensures ctx.component[c] !in ctx.QObjects()
    {
      assert ctx.Owns(ctx.component[c], ComponentSlot(c));
    }
  }

  /** parse_qtable: the (Pq, Tq) byte, then 64 entries of Pq + 1 bytes each, stored at the
      natural index of their zig-zag position in table Tq. What it returns, and the table it
      stores, is what ParseQTableF makes of the bytes at the stream's position; the other three
      tables keep theirs. */
  method ParseQTable(s: InStream, ctx: Context) returns (err: Status)
    requires ctx.Valid()
    modifies s, ctx.QObjects()
    ensures ctx.Valid()
    ensures var r := ParseQTableF(old(Remaining(s)));
            && err == StatusOf(r)
            && (r.Parsed? ==>
                  && s.pos == old(s.pos) + r.used
                  && ctx.qtable[r.value.tq].Pq == r.value.pq && ctx.qtable[r.value.tq].Q[..] == r.value.q)
    ensures forall t | 0 <= t < 4 && t != TqOf(old(Remaining(s))) ::
              ctx.qtable[t].Pq == old(ctx.qtable[t].Pq) && ctx.qtable[t].Q[..] == old(ctx.qtable[t].Q[..])
  {
    QObjectsApart(ctx);
    ghost var d := Remaining(s);
    ghost var p0 := s.pos;
    var pq, tq;
    err, pq, tq := ReadNibbles(s);
    if err != Success {
      return;
    }
    RemainingAt(s, d, p0, 1);
    if tq >= 4 {
      return FailureFileUnsupported;
    }
    if pq >= 2 {
      // assert(Pq < 2)
      return FailureLogicError;
    }
    assert ctx.Owns(ctx.qtable[tq], QObjSlot(tq)) && ctx.Owns(ctx.qtable[tq].Q, QSlot(tq));
    forall t | 0 <= t < 4 && t != tq
      ensures ctx.qtable[t] != ctx.qtable[tq] && ctx.qtable[t].Q != ctx.qtable[tq].Q
    {
      assert ctx.Owns(ctx.qtable[t], QObjSlot(t)) && ctx.Owns(ctx.qtable[t].Q, QSlot(t));
    }
    var qt := ctx.qtable[tq];
    qt.Pq := pq;
    err := ReadQtEntries(s, qt.Q, pq, d, p0);
  }

  /** parse_qtable's loop: 64 entries of Pq + 1 bytes each, following the (Pq, Tq) byte at
      position p0, stored at the natural index of their zig-zag position; FailureFileIo when
      the table is cut short. */
  method ReadQtEntries(s: InStream, Q: array<int>, pq: int, ghost d: seq<byte>, ghost p0: nat) returns (err: Status)
    requires Q.Length == 64 && 0 <= pq < 2
    requires p0 < |s.data| && d == s.data[p0..] && s.pos == p0 + 1
    modifies s, Q
    ensures err == (if |d| < 1 + 64 * EntryBytes(pq) then FailureFileIo else Success)
    ensures err == Success ==> s.pos == p0 + 1 + 64 * EntryBytes(pq) && Q[..] == Natural(QtEntries(d, pq))
  {
    ghost var z := Zigzagged(Q[..]);
    NaturalZigzagged(Q[..], z);
    err := Success;
    for i := 0 to 64
      invariant err == Success && s.pos == p0 + 1 + (if pq == 0 then i else 2 * i) <= p0 + |d|
      invariant |z| == 64 && Q[..] == Natural(z)
      invariant forall k | 0 <= k < i :: z[k] == if pq == 0 then d[1 + k] else BytesWord(d[1 + 2 * k], d[2 + 2 * k])
    {
      RemainingAt(s, d, p0, s.pos - p0);
      var e;
      if pq == 0 {
        var b;
        err, b := ReadByte(s);
        if err != Success {
          return;
        }
        e := b;
      } else {
        err, e := ReadWord(s);
        if err != Success {
          return;
        }
      }
      Store(Q, i, e, z);
      z := z[i := e];
    }
    assert z == QtEntries(d, pq);
  }

  /* ---------------------------------------------------------------------------------------- */
  /* SOF                                                                                      */
  /* ---------------------------------------------------------------------------------------- */

  /** A component's header fields (H, V, Tq, Td, Ta) once the frame header has given it a
      specification, or as they were when it gives none. */
  function Specified(h: (int, int, int, int, int), k: Option<ComponentSpec>): (int, int, int, int, int) {
    if k.Some? then (k.value.h, k.value.v, k.value.tq, h.3, h.4) else h
  }

  /** The 256 components are 256 distinct objects. */
  lemma {:induction false} ComponentsDistinct(ctx: Context, c: int, c': int)
    requires ctx.Shaped() && 0 <= c < 256 && 0 <= c' < 256 && c != c'
    ensures ctx.component[c] != ctx.component[c']
  {
    assert ctx.Owns(ctx.component[c], ComponentSlot(c)) && ctx.Owns(ctx.component[c'], ComponentSlot(c'));
  }

  /** Specifications ks are the first |ks| of the list at d, each with a selector below 4. */
  predicate SpecsAt(d: seq<byte>, ks: seq<ComponentSpec>) {
    && 3 * |ks| <= |d|
    && forall j | 0 <= j < |ks| :: ks[j] == ComponentSpecAt(d, j) && d[3 * j + 2] < 4
  }

  /** Such specifications are what the list parses to. */
  lemma {:induction false} SpecsAtParsed(d: seq<byte>, ks: seq<ComponentSpec>)
    requires SpecsAt(d, ks)
    ensures ComponentSpecsF(d, |ks|) == Parsed(ks, 3 * |ks|)
  {
    if ks != [] {
      var n := |ks| - 1;
      SpecsAtParsed(d, ks[..n]);
      assert ks[..n] + [ks[n]] == ks;
    }
  }

  /** One more specification read. */
  lemma {:induction false} SpecsAtSnoc(d: seq<byte>, ks: seq<ComponentSpec>, k: ComponentSpec)
    requires SpecsAt(d, ks) && 3 * |ks| + 3 <= |d| && k == ComponentSpecAt(d, |ks|) && d[3 * |ks| + 2] < 4
    ensures SpecsAt(d, ks + [k])
  {
  }

  /** max_H and max_V after one more specification. */
  lemma {:induction false} MaxSnoc(ks: seq<ComponentSpec>, k: ComponentSpec)
    ensures MaxH(ks + [k]) == if k.h > MaxH(ks) then k.h else MaxH(ks)
    ensures MaxV(ks + [k]) == if k.v > MaxV(ks) then k.v else MaxV(ks)
  {
    assert (ks + [k])[..|ks|] == ks;
  }

  /** A list that fails at some length fails the same way at every greater length. */
  lemma {:induction false} SpecsFailed(d: seq<byte>, m: nat, n: nat)
    requires m <= n && ComponentSpecsF(d, m).Failed?
    ensures ComponentSpecsF(d, n) == ComponentSpecsF(d, m)
    decreases n
  {
    if m < n {
      SpecsFailed(d, m, n - 1);
    }
  }

  /** A list whose specification i is cut short or names a fifth table fails with that status
      at every length past i. */
  lemma {:induction false} SpecsFailAt(d: seq<byte>, i: nat, n: nat, e: Status)
    requires i < n && ComponentSpecsF(d, i).Parsed?
    requires e == FailureFileIo ==> |d| < 3 * i + 3
    requires e == FailureFileUnsupported ==> 3 * i + 3 <= |d| && d[3 * i + 2] >= 4
    requires e == FailureFileIo || e == FailureFileUnsupported
    ensures ComponentSpecsF(d, n) == Failed(e)
  {
    SpecsFailed(d, i + 1, n);
  }

  /** The 256 components' headers. */
  ghost function Headers(ctx: Context): (hs: seq<(int, int, int, int, int)>)
    requires ctx.Shaped()
    reads ctx.component
    ensures |hs| == 256 && forall c | 0 <= c < 256 :: hs[c] == Header(ctx.component[c])
  {
    seq(256, c requires 0 <= c < 256 reads ctx.component => Header(ctx.component[c]))
  }

  /** The 256 components' block grids and buffers. */
  ghost function Grids256(ctx: Context): (gs: seq<(int, int, array?<int>, array?<real>, array?<real>)>)
    requires ctx.Shaped()
    reads ctx.component
    ensures |gs| == 256 && forall c | 0 <= c < 256 :: gs[c] == Grid(ctx.component[c])
  {
    seq(256, c requires 0 <= c < 256 reads ctx.component => Grid(ctx.component[c]))
  }

  /** Every component's header is the one hs held for it, overwritten by the last of the
      specifications ks that names it. */
  ghost predicate Declares(ctx: Context, hs: seq<(int, int, int, int, int)>, ks: seq<ComponentSpec>)
    requires ctx.Shaped() && |hs| == 256
    reads ctx.component
  {
    forall c | 0 <= c < 256 :: Header(ctx.component[c]) == Specified(hs[c], LastSpec(ks, c))
  }

  /** Every component's block grid and buffers are the ones gs held for it. */
  ghost predicate Grids(ctx: Context, gs: seq<(int, int, array?<int>, array?<real>, array?<real>)>)
    requires ctx.Shaped() && |gs| == 256
    reads ctx.component
  {
    forall c | 0 <= c < 256 :: Grid(ctx.component[c]) == gs[c]
  }

  /** The three stores of one component specification into component[k.c]: the component takes
      k, the others keep theirs. */
  method SetComponentSpec(ctx: Context, k: ComponentSpec, ghost hs: seq<(int, int, int, int, int)>,
                          ghost gs: seq<(int, int, array?<int>, array?<real>, array?<real>)>,
                          ghost ks: seq<ComponentSpec>)
    requires ctx.Valid() && 0 <= k.c < 256 && 0 <= k.h < 16 && 0 <= k.v < 16 && 0 <= k.tq < 4
    requires |hs| == 256 && Declares(ctx, hs, ks) && |gs| == 256 && Grids(ctx, gs)
    modifies ctx.component[k.c]
    ensures ctx.Valid() && Declares(ctx, hs, ks + [k]) && Grids(ctx, gs)
  {
    var comp := ctx.component[k.c];
    forall c | 0 <= c < 256 && c != k.c
      ensures ctx.component[c] != comp
    {
      ComponentsDistinct(ctx, c, k.c);
    }
    assert forall c :: LastSpec(ks + [k], c) == if c == k.c then Some(k) else LastSpec(ks, c) by {
      assert (ks + [k])[..|ks|] == ks;
    }
    comp.H := k.h;
    comp.V := k.v;
    comp.Tq := k.tq;
    forall c | 0 <= c < 256
      ensures ctx.ComponentSized(c)
    {
      assert old(ctx.ComponentSized(c));
    }
  }

  /** The three reads of component specification i of the list at d (which starts at p0):
      bytes running out is FailureFileIo, a selector Tq of 4 or more FailureFileUnsupported. */
  method ReadSpec(s: InStream, ghost d: seq<byte>, ghost p0: nat, ghost i: nat) returns (err: Status, k: ComponentSpec)
    requires p0 <= |s.data| && d == s.data[p0..] && s.pos == p0 + 3 * i <= |s.data|
    modifies s
    ensures 0 <= k.c < 0x100 && 0 <= k.h < 16 && 0 <= k.v < 16 && 0 <= k.tq < 4
    ensures err == Success || err == FailureFileIo || err == FailureFileUnsupported
    ensures err == FailureFileIo <==> |d| < 3 * i + 3
    ensures err != FailureFileIo ==> (err == FailureFileUnsupported <==> d[3 * i + 2] >= 4)
    ensures err == Success ==> k == ComponentSpecAt(d, i) && s.pos == p0 + 3 * i + 3
  {
    RemainingAt(s, d, p0, 3 * i);
    var C, H, V, Tq;
    k := ComponentSpec(0, 0, 0, 0);
    err, C := ReadByte(s);
    if err != Success {
      return;
    }
    err, H, V := ReadNibbles(s);
    if err != Success {
      return;
    }
    err, Tq := ReadByte(s);
    if err != Success {
      return;
    }
    if Tq >= 4 {
      // dequantize indexes the four quantisation tables with Tq
      return FailureFileUnsupported, k;
    }
    k := ComponentSpec(C, H, V, Tq);
  }

  /** The state parse_frame_header's loop keeps after reading specifications ks of the list
      at d (which starts at p0): the stream just past them, each component's header as hs held
      it overwritten by the last of ks naming it, and the grids as gs held them. */
  ghost predicate SpecsRead(s: InStream, ctx: Context, d: seq<byte>, p0: nat,
                            hs: seq<(int, int, int, int, int)>,
                            gs: seq<(int, int, array?<int>, array?<real>, array?<real>)>,
                            ks: seq<ComponentSpec>)
    reads s, ctx, ctx.component
  {
    && ctx.Valid() && |hs| == 256 && |gs| == 256
    && p0 <= |s.data| && d == s.data[p0..] && SpecsAt(d, ks) && s.pos == p0 + 3 * |ks|
    && Declares(ctx, hs, ks) && Grids(ctx, gs)
  }

  /** One pass of parse_frame_header's loop: read C, H and V, Tq, then store them in
      component[C]. */
  method ReadComponentSpec(s: InStream, ctx: Context, nf: int, ghost d: seq<byte>, ghost p0: nat,
                           ghost hs: seq<(int, int, int, int, int)>,
                           ghost gs: seq<(int, int, array?<int>, array?<real>, array?<real>)>,
                           ghost ks: seq<ComponentSpec>)
      returns (err: Status, k: ComponentSpec)
    requires SpecsRead(s, ctx, d, p0, hs, gs, ks) && |ks| < nf
    modifies s, ctx.component
    ensures ctx.Valid() && Grids(ctx, gs) && 0 <= k.h < 16 && 0 <= k.v < 16
    ensures err != Success ==> ComponentSpecsF(d, nf) == Failed(err)
    ensures err == Success ==> SpecsRead(s, ctx, d, p0, hs, gs, ks + [k])
  {
    err, k := ReadSpec(s, d, p0, |ks|);
    if err != Success {
      SpecsAtParsed(d, ks);
      SpecsFailAt(d, |ks|, nf, err);
      return;
    }
    SpecsAtSnoc(d, ks, k);
    SetComponentSpec(ctx, k, hs, gs, ks);
  }

  /** parse_frame_header's loop over the Nf component specifications that follow the first six
      bytes of the header at position p0: each gives its component H, V and Tq, a later one
      overwriting an earlier one; max_H and max_V are the largest H and V read. */
  method ReadComponentSpecs(s: InStream, ctx: Context, nf: int, ghost d: seq<byte>, ghost p0: nat)
      returns (err: Status, maxH: int, maxV: int)
    requires ctx.Valid() && 0 <= nf < 0x100
    requires p0 <= |s.data| && d == s.data[p0..] && s.pos == p0
    modifies s, ctx.component
    ensures ctx.Valid() && Grids(ctx, old(Grids256(ctx))) && 0 <= maxH < 16 && 0 <= maxV < 16
    ensures var r := ComponentSpecsF(d, nf);
            && err == StatusOf(r) && (err == Success <==> r.Parsed?)
            && (r.Parsed? ==>
                  && s.pos == p0 + r.used && maxH == MaxH(r.value) && maxV == MaxV(r.value)
                  && Declares(ctx, old(Headers(ctx)), r.value))
  {
    ghost var hs := Headers(ctx);
    ghost var gs := Grids256(ctx);
    ghost var ks: seq<ComponentSpec> := [];
    maxH, maxV := 0, 0;
    err := Success;
    for i := 0 to nf
      invariant err == Success && |ks| == i && SpecsRead(s, ctx, d, p0, hs, gs, ks)
      invariant maxH == MaxH(ks) && maxV == MaxV(ks) && 0 <= maxH < 16 && 0 <= maxV < 16
    {
      var k;
      err, k := ReadComponentSpec(s, ctx, nf, d, p0, hs, gs, ks);
      if err != Success {
        return;
      }
      MaxSnoc(ks, k);
      maxH := if k.h > maxH then k.h else maxH;
      maxV := if k.v > maxV then k.v else maxV;
      ks := ks + [k];
    }
    SpecsAtParsed(d, ks);
  }

  /** The frame header parse once its first six bytes are in: the component specifications
      decide it. */
  lemma {:induction false} FrameHeaderOf(d: seq<byte>)
    requires |d| >= 6 && BytesWord(d[3], d[4]) != 0 && d[5] != 0
    ensures var cs := ComponentSpecsF(d[6..], d[5]);
            ParseFrameHeaderF(d) ==
              if cs.Failed? then Failed(cs.status)
              else Parsed(FrameSpec(d[0], BytesWord(d[1], d[2]), BytesWord(d[3], d[4]), d[5], cs.value), 6 + cs.used)
  {
  }

  /** The rest of parse_frame_header: the Nf component specifications at d (which starts at
      p0), then compute_no_blocks_and_alloc_buffers over the largest H and V read. */
  method ParseFrameComponents(s: InStream, ctx: Context, nf: int, ghost d: seq<byte>, ghost p0: nat)
      returns (err: Status)
    requires ctx.Valid() && 0 <= nf < 0x100
    requires p0 <= |s.data| && d == s.data[p0..] && s.pos == p0
    modifies s, ctx, ctx.component
    ensures ctx.Valid() && ctx.BuffersFresh()
    ensures ctx.P == old(ctx.P) && ctx.Y == old(ctx.Y) && ctx.X == old(ctx.X) && ctx.Nf == old(ctx.Nf)
    ensures var r := ComponentSpecsF(d, nf);
            && (r.Failed? ==> err == r.status)
            && (r.Parsed? ==>
                  && s.pos == p0 + r.used
                  && ctx.maxH == MaxH(r.value) && ctx.maxV == MaxV(r.value)
                  && Declares(ctx, old(Headers(ctx)), r.value)
                  && (ctx.maxH == 0 || ctx.maxV == 0 ==> err == FailureFileUnsupported)
                  && (ctx.maxH != 0 && ctx.maxV != 0 ==>
                        && err == Success
                        && ctx.mX == CeilDiv(ctx.X, 8 * ctx.maxH) && ctx.mY == CeilDiv(ctx.Y, 8 * ctx.maxV)
                        && forall c | 0 <= c < 256 && ctx.component[c].H != 0 ::
                             Allocated(ctx.component[c], ctx.mX, ctx.mY)))
  {
    var maxH, maxV;
    err, maxH, maxV := ReadComponentSpecs(s, ctx, nf, d, p0);
    if err != Success {
      return;
    }
    ghost var ks := ComponentSpecsF(d, nf).value;
    ghost var hs := Headers(ctx);
    SetMaxSampling(ctx, maxH, maxV);
    err := ctx.ComputeNoBlocksAndAllocBuffers();
    assert Headers(ctx) == hs;
  }

  /** The first reads of parse_frame_header: P, Y, X and Nf. */
  method ReadFrameFields(s: InStream) returns (err: Status, P: byte, Y: int, X: int, Nf: byte)
    modifies s
    ensures var d := old(Remaining(s));
            && (err == Success <==> |d| >= 6) && (err != Success ==> err == FailureFileIo)
            && (err == Success ==>
                  && (P, Y, X, Nf) == (d[0], BytesWord(d[1], d[2]), BytesWord(d[3], d[4]), d[5])
                  && s.pos == old(s.pos) + 6 <= |s.data| && s.data[s.pos..] == d[6..])
  {
    ghost var d := Remaining(s);
    ghost var p0 := s.pos;
    P, Y, X, Nf := 0, 0, 0, 0;
    err, P := ReadByte(s);
    if err != Success {
      return;
    }
    RemainingAt(s, d, p0, 1);
    err, Y := ReadWord(s);
    if err != Success {
      return;
    }
    RemainingAt(s, d, p0, 3);
    err, X := ReadWord(s);
    if err != Success {
      return;
    }
    RemainingAt(s, d, p0, 5);
    err, Nf := ReadByte(s);
    if err != Success {
      return;
    }
    RemainingAt(s, d, p0, 6);
  }

  /** The stores of P, Y, X and Nf into the context. */
  method SetFrame(ctx: Context, P: byte, Y: int, X: int, Nf: byte)
    requires ctx.Valid() && 0 <= Y < 0x1_0000 && 0 <= X < 0x1_0000
    modifies ctx`P, ctx`Y, ctx`X, ctx`Nf
    ensures ctx.Valid() && ctx.P == P && ctx.Y == Y && ctx.X == X && ctx.Nf == Nf
  {
    ctx.P := P;
    ctx.Y := Y;
    ctx.X := X;
    ctx.Nf := Nf;
  }

  /** parse_frame_header: P, Y, X and Nf, X = 0 or Nf = 0 failing its assertion, then the
      component specifications and the buffers. */
  method ParseFrameHeader(s: InStream, ctx: Context) returns (err: Status)
    requires ctx.Valid()
    modifies s, ctx, ctx.component
    ensures ctx.Valid() && ctx.BuffersFresh()
    ensures var r := ParseFrameHeaderF(old(Remaining(s)));
            && (r.Failed? ==> err == r.status)
            && (r.Parsed? ==>
                  && s.pos == old(s.pos) + r.used
                  && ctx.P == r.value.p && ctx.Y == r.value.y && ctx.X == r.value.x && ctx.Nf == r.value.nf
                  && ctx.maxH == MaxH(r.value.comps) && ctx.maxV == MaxV(r.value.comps)
                  && Declares(ctx, old(Headers(ctx)), r.value.comps)
                  && (ctx.maxH == 0 || ctx.maxV == 0 ==> err == FailureFileUnsupported)
                  && (ctx.maxH != 0 && ctx.maxV != 0 ==>
                        && err == Success
                        && ctx.mX == CeilDiv(ctx.X, 8 * ctx.maxH) && ctx.mY == CeilDiv(ctx.Y, 8 * ctx.maxV)
                        && forall c | 0 <= c < 256 && ctx.component[c].H != 0 ::
                             Allocated(ctx.component[c], ctx.mX, ctx.mY)))
  {
    ghost var d := Remaining(s);
    var P, Y, X, Nf;
    err, P, Y, X, Nf := ReadFrameFields(s);
    if err != Success {
      return;
    }
    if X == 0 || Nf == 0 {
      // assert(X > 0); assert(Nf > 0);
      return FailureLogicError;
    }
    FrameHeaderOf(d);
    SetFrame(ctx, P, Y, X, Nf);
    assert ctx.bufferSlot == old(ctx.bufferSlot);
    err := ParseFrameComponents(s, ctx, Nf, d[6..], s.pos);
  }

  /* ---------------------------------------------------------------------------------------- */
  /* DHT                                                                                      */
  /* ---------------------------------------------------------------------------------------- */

  /** The class and destination (Tc, Th) a DHT segment at d names; (-1, -1) when d is empty. */
  function TcThOf(d: seq<byte>): (int, int) {
    if |d| == 0 then (-1, -1) else var n := ByteNibbles(d[0]); (n.0 as int, n.1 as int)
  }

  /** Every entry of a V table is a uint8_t. */
  ghost predicate Bytes2(V: array2<int>)
    reads V
  {
    forall r, c | 0 <= r < V.Length0 && 0 <= c < V.Length1 :: 0 <= V[r, c] < 0x100
  }

  /** The counts and values arrays of the eight DHT tables. */
  /** The first loop of parse_huffman_tables: the 16 counts L, after the (Tc, Th) byte at p0. */
  method ReadCounts(s: InStream, L: array<int>, ghost d: seq<byte>, ghost p0: nat) returns (err: Status)
    requires L.Length == 16 && p0 < |s.data| && d == s.data[p0..] && s.pos == p0 + 1
    modifies s, L
    ensures err == (if |d| < 17 then FailureFileIo else Success)
    ensures err == Success ==> s.pos == p0 + 17 && L[..] == d[1..17]
  {
    for i := 0 to 16
      invariant s.pos == p0 + 1 + i <= p0 + |d|
      invariant forall k | 0 <= k < i :: L[k] == d[1 + k]
    {
      RemainingAt(s, d, p0, 1 + i);
      var b;
      err, b := ReadByte(s);
      if err != Success {
        return;
      }
      L[i] := b;
    }
    err := Success;
  }

  /** One row of the second loop of parse_huffman_tables: the m values of length i + 1, from
      offset off of the segment at p0. */
  method ReadRow(s: InStream, V: array2<int>, i: int, m: int, ghost d: seq<byte>, ghost p0: nat, ghost off: nat)
      returns (err: Status)
    requires V.Length0 == 16 && V.Length1 == 255 && 0 <= i < 16 && 0 <= m <= 255 && Bytes2(V)
    requires p0 <= |s.data| && d == s.data[p0..] && s.pos == p0 + off && off <= |d|
    modifies s, V
    ensures Bytes2(V)
    ensures err == (if |d| < off + m then FailureFileIo else Success)
    ensures err == Success ==> s.pos == p0 + off + m && forall c | 0 <= c < m :: V[i, c] == d[off + c]
    ensures forall r, c | 0 <= r < 16 && 0 <= c < 255 && r != i :: V[r, c] == old(V[r, c])
  {
    for l := 0 to m
      invariant s.pos == p0 + off + l <= p0 + |d| && Bytes2(V)
      invariant forall c | 0 <= c < l :: V[i, c] == d[off + c]
      invariant forall r, c | 0 <= r < 16 && 0 <= c < 255 && r != i :: V[r, c] == old(V[r, c])
    {
      RemainingAt(s, d, p0, off + l);
      var b;
      err, b := ReadByte(s);
      if err != Success {
        return;
      }
      V[i, l] := b;
    }
    err := Success;
  }

  /** The second loop of parse_huffman_tables: L[i] values of length i + 1 into row i of V, for
      each of the 16 lengths, after the 17 bytes of (Tc, Th) and counts at p0. */
  method ReadValues(s: InStream, L: array<int>, V: array2<int>, ghost d: seq<byte>, ghost p0: nat)
      returns (err: Status)
    requires L.Length == 16 && V.Length0 == 16 && V.Length1 == 255 && CountsValid(L[..]) && Bytes2(V)
    requires p0 <= |s.data| && d == s.data[p0..] && s.pos == p0 + 17 <= |s.data|
    modifies s, V
    ensures Bytes2(V) && 0 <= SumTo(L[..], 16)
    ensures err == (if |d| < 17 + SumTo(L[..], 16) then FailureFileIo else Success)
    ensures err == Success ==>
              && s.pos == p0 + 17 + SumTo(L[..], 16)
              && HtValues(L[..], V, 16) == d[17..17 + SumTo(L[..], 16)]
  {
    ghost var Ls := L[..];
    ghost var hv := d[17..];
    SumToMono(Ls, 0, 16);
    for i := 0 to 16
      invariant L[..] == Ls && Bytes2(V)
      invariant 0 <= SumTo(Ls, i) && s.pos == p0 + 17 + SumTo(Ls, i) <= p0 + |d|
      invariant forall r, c {:trigger V[r, c]} | 0 <= r < i && 0 <= c < Ls[r] && 0 <= SumTo(Ls, r) + c < |hv| ::
                  V[r, c] == hv[SumTo(Ls, r) + c]
    {
      SumToMono(Ls, 0, i);
      SumToMono(Ls, i + 1, 16);
      err := ReadRow(s, V, i, L[i], d, p0, 17 + SumTo(Ls, i));
      if err != Success {
        return;
      }
    }
    JpegHuffmanAdapt.HtValuesFrom(Ls, V, hv, 16);
    err := Success;
  }

  /** The number of codes the counts give, which generate_size_table counts in K as it fills
      HUFFSIZE. */
  method CountCodes(L: array<int>) returns (n: int)
    requires L.Length == 16
    ensures n == SumTo(L[..], 16)
  {
    n := 0;
    for i := 0 to 16
      invariant n == SumTo(L[..], i)
    {
      n := n + L[i];
    }
  }

  /** A table set (t, h) holds a DHT table as transmitted: its counts, its values in code order,
      and the hcode conv_htable_to_hcode derives from them. */
  ghost predicate Loaded(t: HTable, h: HCode, k: HuffmanSpec)
    requires t.Valid()
    reads t.L, t.V, h, h.huffVal, h.huffSize, h.huffCode, h.eHufCo, h.eHufSi
  {
    && t.L[..] == k.L && CountsValid(k.L) && HtValues(t.L[..], t.V, 16) == k.vals
    && ExpandedFrom(Table(h), k.L, t.V)
  }

  /** The arrays and objects of DHT table set (j, i): L, V, the hcode and its five arrays. */
  ghost function TableSet(ctx: Context, j: int, i: int): set<object>
    requires ctx.Shaped() && 0 <= j < 2 && 0 <= i < 4
  {
    var t, h := ctx.htable[j][i], ctx.hcode[j][i];
    {t.L, t.V, h, h.huffVal, h.huffSize, h.huffCode, h.eHufCo, h.eHufSi}
  }

  /** The slots of table set (j, i). */
  function TableSlots(j: int, i: int): set<int> {
    {LSlot(j, i), VSlot(j, i), CodeSlot(j, i, 0), CodeSlot(j, i, 1), CodeSlot(j, i, 2), CodeSlot(j, i, 3),
     CodeSlot(j, i, 4), CodeSlot(j, i, 5)}
  }

  lemma TableSlotsApart(j: int, i: int, j': int, i': int)
    requires 0 <= j < 2 && 0 <= i < 4 && 0 <= j' < 2 && 0 <= i' < 4 && (j, i) != (j', i')
    ensures TableSlots(j, i) !! TableSlots(j', i')
  {
  }

  lemma TableSetSlots(ctx: Context, j: int, i: int, o: object)
    requires ctx.Shaped() && 0 <= j < 2 && 0 <= i < 4 && o in TableSet(ctx, j, i)
    ensures o in ctx.slot && ctx.slot[o] in TableSlots(j, i)
  {
    assert ctx.TableSlotted(j, i);
  }

  /** Every DHT table set's objects: what parse_huffman_tables may write. */
  ghost function DhtObjects(ctx: Context): set<object>
    requires ctx.Shaped()
  {
    set j, i, o | 0 <= j < 2 && 0 <= i < 4 && o in TableSet(ctx, j, i) :: o
  }

  /** Two different table sets share no object. */
  lemma TableSetsApart(ctx: Context, j: int, i: int, j': int, i': int)
    requires ctx.Shaped() && 0 <= j < 2 && 0 <= i < 4 && 0 <= j' < 2 && 0 <= i' < 4 && (j, i) != (j', i')
    ensures TableSet(ctx, j, i) !! TableSet(ctx, j', i')
  {
    TableSlotsApart(j, i, j', i');
    forall o | o in TableSet(ctx, j, i) && o in TableSet(ctx, j', i')
      ensures false
    {
      TableSetSlots(ctx, j, i, o);
      TableSetSlots(ctx, j', i', o);
    }
  }

  /** Table set (j, i) is as it was: counts, values and hcode. */
  twostate predicate Kept(ctx: Context, j: int, i: int)
    requires ctx.Shaped() && 0 <= j < 2 && 0 <= i < 4
    reads TableSet(ctx, j, i)
  {
    unchanged(TableSet(ctx, j, i))
  }

  /** parse_huffman_tables once (Tc, Th) has been read and accepted: the counts and values
      into htable, then conv_htable_to_hcode into hcode. generate_size_table's assertion fails for
      256 or more codes, and a table without codes is refused. */
  method LoadTable(s: InStream, t: HTable, h: HCode, ghost d: seq<byte>, ghost p0: nat) returns (err: Status)
    requires t.Valid() && h.Valid() && Bytes2(t.V)
    requires p0 < |s.data| && d == s.data[p0..] && s.pos == p0 + 1
    requires ByteNibbles(d[0]).0 < 2 && ByteNibbles(d[0]).1 < 4
    modifies s, t.L, t.V, h, h.huffVal, h.huffSize, h.huffCode, h.eHufCo, h.eHufSi
    ensures Bytes2(t.V) && h.Valid()
    ensures var r := ParseHuffmanTablesF(d);
            && err == StatusOf(r) && (err == Success <==> r.Parsed?)
            && (r.Parsed? ==>
                  s.pos == p0 + r.used && Loaded(t, h, r.value))
  {
    err := ReadCounts(s, t.L, d, p0);
    if err != Success {
      return;
    }
    err := ReadValues(s, t.L, t.V, d, p0);
    if err != Success {
      return;
    }
    var total := CountCodes(t.L);
    if total >= 256 {
      // assert(K < 256) in generate_size_table
      return FailureLogicError;
    }
    if total == 0 {
      return FailureFileUnsupported;
    }
    ConvHtableToHcode(t, h);
  }

  ghost predicate TableValid(ctx: Context, j: int, i: int)
    requires ctx.Shaped() && 0 <= j < 2 && 0 <= i < 4
    reads TableSet(ctx, j, i)
  {
    Bytes2(ctx.htable[j][i].V) && ctx.hcode[j][i].Valid()
  }

  /** parse_huffman_tables from the counts on, into table set (tc, th) alone. */
  method LoadTableSet(s: InStream, ctx: Context, tc: int, th: int, ghost d: seq<byte>, ghost p0: nat) returns (err: Status)
    requires ctx.Shaped() && forall j, i | 0 <= j < 2 && 0 <= i < 4 :: TableValid(ctx, j, i)
    requires p0 < |s.data| && d == s.data[p0..] && s.pos == p0 + 1
    requires ByteNibbles(d[0]) == (tc, th) && tc < 2 && th < 4
    modifies s, TableSet(ctx, tc, th)
    ensures forall j, i | 0 <= j < 2 && 0 <= i < 4 :: TableValid(ctx, j, i)
    ensures ctx.TableSlotted(tc, th)
    ensures var r := ParseHuffmanTablesF(d);
            && err == StatusOf(r) && (err == Success <==> r.Parsed?)
            && (r.Parsed? ==> s.pos == p0 + r.used && Loaded(ctx.htable[tc][th], ctx.hcode[tc][th], r.value))
    ensures forall j, i | 0 <= j < 2 && 0 <= i < 4 && (j, i) != (tc, th) :: Kept(ctx, j, i)
  {
    assert ctx.TableSlotted(tc, th);
    assert TableValid(ctx, tc, th);
    err := LoadTable(s, ctx.htable[tc][th], ctx.hcode[tc][th], d, p0);
    assert TableValid(ctx, tc, th);
    forall j, i | 0 <= j < 2 && 0 <= i < 4 && (j, i) != (tc, th)
      ensures Kept(ctx, j, i) && TableValid(ctx, j, i)
    {
      TableSetsApart(ctx, j, i, tc, th);
      assert old(TableValid(ctx, j, i));
    }
  }

  /** parse_huffman_tables: (Tc, Th), the 16 counts, the values, then conv_htable_to_hcode into
      hcode[Tc][Th]. A class Tc of 2 or more is unsupported; so, here, is a destination Th of 4
      or more. The other seven tables stay as they were. */
  method ParseHuffmanTables(s: InStream, ctx: Context) returns (err: Status)
    requires ctx.Valid() && forall j, i | 0 <= j < 2 && 0 <= i < 4 :: TableValid(ctx, j, i)
    modifies s, DhtObjects(ctx)
    ensures ctx.Valid() && forall j, i | 0 <= j < 2 && 0 <= i < 4 :: TableValid(ctx, j, i)
    ensures var r := ParseHuffmanTablesF(old(Remaining(s)));
            && err == StatusOf(r) && (err == Success <==> r.Parsed?)
            && (r.Parsed? ==>
                  && s.pos == old(s.pos) + r.used && ctx.TableSlotted(r.value.tc, r.value.th)
                  && Loaded(ctx.htable[r.value.tc][r.value.th], ctx.hcode[r.value.tc][r.value.th], r.value))
    ensures forall j, i | 0 <= j < 2 && 0 <= i < 4 && (j, i) != TcThOf(old(Remaining(s))) :: Kept(ctx, j, i)
  {
    ghost var d := Remaining(s);
    ghost var p0 := s.pos;
    var tc, th;
    err, tc, th := ReadNibbles(s);
    if err != Success {
      return;
    }
    RemainingAt(s, d, p0, 1);
    if tc >= 2 {
      return FailureFileUnsupported;
    }
    if th >= 4 {
      // htable and hcode have four destinations
      return FailureFileUnsupported;
    }
    err := LoadTableSet(s, ctx, tc, th, d, p0);
  }

  /* ---------------------------------------------------------------------------------------- */
  /* SOS                                                                                      */
  /* ---------------------------------------------------------------------------------------- */

  /** A component's header fields (H, V, Tq, Td, Ta) once a scan header has chosen its DC and
      AC tables, or as they were when it does not name the component. */
  function Selects(h: (int, int, int, int, int), k: Option<Selector>): (int, int, int, int, int) {
    if k.Some? then (h.0, h.1, h.2, k.value.td, k.value.ta) else h
  }

  /** The selector a component ends up with: the last one in the list naming it (a later one
      overwrites an earlier one), None when none names it. */
  function LastSelector(ks: seq<Selector>, c: int): (r: Option<Selector>)
    ensures r.Some? ==> r.value in ks && r.value.cs == c
    ensures r.None? ==> forall i | 0 <= i < |ks| :: ks[i].cs != c
  {
    if ks == [] then None
    else if ks[|ks| - 1].cs == c then Some(ks[|ks| - 1])
    else LastSelector(ks[..|ks| - 1], c)
  }

  /** Selectors ks are the first |ks| of the list at d, each choosing tables below 4. */
  predicate SelsAt(d: seq<byte>, ks: seq<Selector>) {
    && 2 * |ks| <= |d|
    && forall j | 0 <= j < |ks| :: ks[j] == SelectorAt(d, j) && ks[j].td < 4 && ks[j].ta < 4
  }

  /** Such selectors are what the list parses to. */
  lemma {:induction false} SelsAtParsed(d: seq<byte>, ks: seq<Selector>)
    requires SelsAt(d, ks)
    ensures SelectorsF(d, |ks|) == Parsed(ks, 2 * |ks|)
  {
    if ks != [] {
      var n := |ks| - 1;
      SelsAtParsed(d, ks[..n]);
      SelectorsSnoc(d, |ks|, ks[..n], ks[n]);
      assert ks[..n] + [ks[n]] == ks;
    }
  }

  /** A selector list that fails at some length fails the same way at every greater length. */
  lemma {:induction false} SelsFailed(d: seq<byte>, m: nat, n: nat)
    requires m <= n && SelectorsF(d, m).Failed?
    ensures SelectorsF(d, n) == SelectorsF(d, m)
    decreases n
  {
    if m < n {
      SelsFailed(d, m, n - 1);
    }
  }

  /** A selector list whose selector i is cut short or names a fifth table fails with that
      status at every length past i. */
  lemma {:induction false} SelsFailAt(d: seq<byte>, i: nat, n: nat, e: Status)
    requires i < n && SelectorsF(d, i).Parsed?
    requires e == FailureFileIo ==> |d| < 2 * i + 2
    requires e == FailureFileUnsupported ==>
               2 * i + 2 <= |d| && (SelectorAt(d, i).td >= 4 || SelectorAt(d, i).ta >= 4)
    requires e == FailureFileIo || e == FailureFileUnsupported
    ensures SelectorsF(d, n) == Failed(e)
  {
    SelsFailed(d, i + 1, n);
  }

  /** Every component's header is the one hs held for it, with Td and Ta overwritten by the
      last of the selectors ks that names it. */
  ghost predicate Chooses(ctx: Context, hs: seq<(int, int, int, int, int)>, ks: seq<Selector>)
    requires ctx.Shaped() && |hs| == 256
    reads ctx.component
  {
    forall c | 0 <= c < 256 :: Header(ctx.component[c]) == Selects(hs[c], LastSelector(ks, c))
  }

  /** The stores of Td and Ta of one scan component selector into component[Cs]; the other
      components keep theirs. */
  method SetSelector(ctx: Context, k: Selector, ghost hs: seq<(int, int, int, int, int)>,
                     ghost gs: seq<(int, int, array?<int>, array?<real>, array?<real>)>,
                     ghost ks: seq<Selector>)
    requires ctx.Valid() && 0 <= k.cs < 256 && 0 <= k.td < 4 && 0 <= k.ta < 4
    requires |hs| == 256 && Chooses(ctx, hs, ks) && |gs| == 256 && Grids(ctx, gs)
    modifies ctx.component[k.cs]
    ensures ctx.Valid() && Chooses(ctx, hs, ks + [k]) && Grids(ctx, gs)
  {
    var comp := ctx.component[k.cs];
    forall c | 0 <= c < 256 && c != k.cs
      ensures ctx.component[c] != comp
    {
      ComponentsDistinct(ctx, c, k.cs);
    }
    assert forall c :: LastSelector(ks + [k], c) == if c == k.cs then Some(k) else LastSelector(ks, c) by {
      assert (ks + [k])[..|ks|] == ks;
    }
    comp.Td := k.td;
    comp.Ta := k.ta;
    forall c | 0 <= c < 256
      ensures ctx.ComponentSized(c)
    {
      assert old(ctx.ComponentSized(c));
    }
  }

  /** The store of Cs[j] for selector j. */
  method StoreCs(scan: Scan, j: int, k: Selector, ghost ks: seq<Selector>)
    requires |scan.Cs| == 256 && Ids(scan.Cs) && 0 <= k.cs < 0x100
    requires j == |ks| < 256 && forall i | 0 <= i < |ks| :: scan.Cs[i] == ks[i].cs
    modifies scan`Cs
    ensures |scan.Cs| == 256 && Ids(scan.Cs) && forall i | 0 <= i < |ks| + 1 :: scan.Cs[i] == (ks + [k])[i].cs
  {
    scan.Cs := scan.Cs[j := k.cs];
  }

  /** The two reads of scan component selector i of the list at d (which starts at p0): bytes
      running out is FailureFileIo, a Td or Ta of 4 or more FailureFileUnsupported. */
  method ReadSelector(s: InStream, ghost d: seq<byte>, ghost p0: nat, ghost i: nat) returns (err: Status, k: Selector)
    requires p0 <= |s.data| && d == s.data[p0..] && s.pos == p0 + 2 * i <= |s.data|
    modifies s
    ensures 0 <= k.cs < 0x100 && 0 <= k.td < 4 && 0 <= k.ta < 4
    ensures err == Success || err == FailureFileIo || err == FailureFileUnsupported
    ensures err == FailureFileIo <==> |d| < 2 * i + 2
    ensures err != FailureFileIo ==>
              (err == FailureFileUnsupported <==> SelectorAt(d, i).td >= 4 || SelectorAt(d, i).ta >= 4)
    ensures err == Success ==> k == SelectorAt(d, i) && s.pos == p0 + 2 * i + 2
  {
    RemainingAt(s, d, p0, 2 * i);
    var Cs, Td, Ta;
    k := Selector(0, 0, 0);
    err, Cs := ReadByte(s);
    if err != Success {
      return;
    }
    err, Td, Ta := ReadNibbles(s);
    if err != Success {
      return;
    }
    if Td >= 4 || Ta >= 4 {
      // read_macroblock indexes the four hcode tables with Td and Ta
      return FailureFileUnsupported, k;
    }
    k := Selector(Cs, Td, Ta);
  }

  /** The state parse_scan_header's loop keeps after reading selectors ks of the list at d
      (which starts at p0): the stream just past them, Cs[j] holding each one's component, each
      component's header as hs held it with the tables of the last of ks naming it, and the
      grids as gs held them. */
  ghost predicate SelsRead(s: InStream, ctx: Context, scan: Scan, d: seq<byte>, p0: nat,
                           hs: seq<(int, int, int, int, int)>,
                           gs: seq<(int, int, array?<int>, array?<real>, array?<real>)>,
                           ks: seq<Selector>)
    reads s, ctx, ctx.component, scan
  {
    && ctx.Valid() && |hs| == 256 && |gs| == 256
    && p0 <= |s.data| && d == s.data[p0..] && SelsAt(d, ks) && s.pos == p0 + 2 * |ks|
    && Chooses(ctx, hs, ks) && Grids(ctx, gs)
    && |scan.Cs| == 256 && Ids(scan.Cs) && |ks| <= 256 && forall j | 0 <= j < |ks| :: scan.Cs[j] == ks[j].cs
  }

  /** One pass of parse_scan_header's loop: read Cs, Td and Ta, then store them. */
  method ReadSelectorStep(s: InStream, ctx: Context, scan: Scan, ns: int, j: int, ghost d: seq<byte>, ghost p0: nat,
                          ghost hs: seq<(int, int, int, int, int)>,
                          ghost gs: seq<(int, int, array?<int>, array?<real>, array?<real>)>,
                          ghost ks: seq<Selector>)
      returns (err: Status, k: Selector)
    requires SelsRead(s, ctx, scan, d, p0, hs, gs, ks) && j == |ks| < ns <= 256
    modifies s, ctx.component, scan`Cs
    ensures ctx.Valid() && Grids(ctx, gs) && |scan.Cs| == 256 && Ids(scan.Cs)
    ensures err != Success ==> SelectorsF(d, ns) == Failed(err)
    ensures err == Success ==> SelsRead(s, ctx, scan, d, p0, hs, gs, ks + [k])
  {
    err, k := ReadSelector(s, d, p0, |ks|);
    if err != Success {
      SelsAtParsed(d, ks);
      SelsFailAt(d, |ks|, ns, err);
      return;
    }
    SetSelector(ctx, k, hs, gs, ks);
    StoreCs(scan, j, k, ks);
  }

  /** parse_scan_header's loop over the Ns scan component selectors at d (which starts at p0):
      Cs[j] takes the component of selector j, and each component named takes the tables of the
      last selector naming it. */
  method ReadSelectors(s: InStream, ctx: Context, scan: Scan, ns: int, ghost d: seq<byte>, ghost p0: nat)
      returns (err: Status)
    requires ctx.Valid() && 0 <= ns < 0x100 && |scan.Cs| == 256 && Ids(scan.Cs)
    requires p0 <= |s.data| && d == s.data[p0..] && s.pos == p0
    modifies s, ctx.component, scan`Cs
    ensures ctx.Valid() && Grids(ctx, old(Grids256(ctx))) && |scan.Cs| == 256 && Ids(scan.Cs)
    ensures var r := SelectorsF(d, ns);
            && err == StatusOf(r) && (err == Success <==> r.Parsed?)
            && (r.Parsed? ==>
                  && s.pos == p0 + r.used && Chooses(ctx, old(Headers(ctx)), r.value)
                  && forall j | 0 <= j < ns :: scan.Cs[j] == r.value[j].cs)
  {
    ghost var hs := Headers(ctx);
    ghost var gs := Grids256(ctx);
    ghost var ks: seq<Selector> := [];
    err := Success;
    for i := 0 to ns
      invariant err == Success && |ks| == i && SelsRead(s, ctx, scan, d, p0, hs, gs, ks)
    {
      var k;
      err, k := ReadSelectorStep(s, ctx, scan, ns, i, d, p0, hs, gs, ks);
      if err != Success {
        return;
      }
      ks := ks + [k];
    }
    SelsAtParsed(d, ks);
  }

  /** The reads after the selectors: Ss, Se, then (Ah, Al). */
  method ReadSpectral(s: InStream) returns (err: Status, Ss: byte, Se: byte, Ah: byte, Al: byte)
    modifies s
    ensures var d := old(Remaining(s));
            && (err == Success <==> |d| >= 3) && (err != Success ==> err == FailureFileIo)
            && (err == Success ==>
                  && Ss == d[0] && Se == d[1] && (Ah, Al) == ByteNibbles(d[2])
                  && s.pos == old(s.pos) + 3)
  {
    ghost var d := Remaining(s);
    ghost var p0 := s.pos;
    Ss, Se, Ah, Al := 0, 0, 0, 0;
    err, Ss := ReadByte(s);
    if err != Success {
      return;
    }
    RemainingAt(s, d, p0, 1);
    err, Se := ReadByte(s);
    if err != Success {
      return;
    }
    RemainingAt(s, d, p0, 2);
    err, Ah, Al := ReadNibbles(s);
    if err != Success {
      return;
    }
  }

  /** Both nibbles of a byte are zero just when the byte is. */
  lemma {:induction false} NibblesZero(b: byte)
    ensures ByteNibbles(b) == (0, 0) <==> b == 0
  {
    if ByteNibbles(b) == (0, 0) {
      assert b == 16 * (b / 16) + b % 16;
    }
  }

  /** The end of parse_scan_header: Ss, Se and (Ah, Al), of which only a sequential scan of all
      64 coefficients (Ss = 0, Se = 63) without successive approximation (Ah = Al = 0) is
      supported; then mblocks restarts at 0. */
  method FinishScanHeader(s: InStream, ctx: Context) returns (err: Status)
    requires ctx.Valid()
    modifies s, ctx`mblocks
    ensures ctx.Valid() && ctx.bufferSlot == old(ctx.bufferSlot)
    ensures Headers(ctx) == old(Headers(ctx)) && Grids256(ctx) == old(Grids256(ctx))
    ensures var d := old(Remaining(s));
            && (err == Success <==> |d| >= 3 && d[0] == 0 && d[1] == 63 && d[2] == 0)
            && (err != Success ==> err == if |d| < 3 then FailureFileIo else FailureFileUnsupported)
            && (err == Success ==> s.pos == old(s.pos) + 3 && ctx.mblocks == 0)
  {
    var Ss, Se, Ah, Al;
    err, Ss, Se, Ah, Al := ReadSpectral(s);
    if err != Success {
      return;
    }
    NibblesZero(old(Remaining(s))[2]);
    if Ss != 0 || Se != 63 {
      return FailureFileUnsupported;
    }
    if Ah != 0 || Al != 0 {
      return FailureFileUnsupported;
    }
    ctx.mblocks := 0;
  }

  /** The scan header parse once Ns is in: the selectors decide it, then the last three bytes. */
  lemma {:induction false} ScanHeaderOf(d: seq<byte>)
    requires |d| >= 1
    ensures var e := d[1..];
            var sr := SelectorsF(e, d[0]);
            ParseScanHeaderF(d) ==
              if sr.Failed? then Failed(sr.status)
              else if |e| < 3 + sr.used then Failed(FailureFileIo)
              else if e[sr.used] != 0 || e[1 + sr.used] != 63 || e[2 + sr.used] != 0 then Failed(FailureFileUnsupported)
              else Parsed(ScanSpec(d[0], sr.value), 4 + sr.used)
  {
  }

  /** parse_scan_header: Ns, stored at once into the scan; the Ns selectors; then Ss, Se and
      (Ah, Al), of which only a sequential scan of all 64 coefficients (Ss = 0, Se = 63) without
      successive approximation (Ah = Al = 0) is supported; finally mblocks restarts at 0. */
  method ParseScanHeader(s: InStream, ctx: Context, scan: Scan) returns (err: Status)
    requires ctx.Valid() && ScanIds(scan)
    modifies s, ctx`mblocks, ctx.component, scan`Ns, scan`Cs
    ensures ctx.Valid() && Grids(ctx, old(Grids256(ctx))) && ScanIds(scan) && ctx.bufferSlot == old(ctx.bufferSlot)
    ensures |old(Remaining(s))| > 0 ==> scan.Ns == old(Remaining(s))[0]
    ensures var r := ParseScanHeaderF(old(Remaining(s)));
            && err == StatusOf(r) && (err == Success <==> r.Parsed?)
            && (r.Parsed? ==>
                  && s.pos == old(s.pos) + r.used && scan.Ns == r.value.ns
                  && (forall j | 0 <= j < r.value.ns :: scan.Cs[j] == r.value.sels[j].cs)
                  && Chooses(ctx, old(Headers(ctx)), r.value.sels) && ctx.mblocks == 0)
  {
    ghost var d := Remaining(s);
    ghost var p0 := s.pos;
    var Ns;
    err, Ns := ReadByte(s);
    if err != Success {
      return;
    }
    RemainingAt(s, d, p0, 1);
    scan.Ns := Ns;
    err := ScanHeaderRest(s, ctx, scan, Ns, d, s.pos);
  }

  /** parse_scan_header once Ns, the first of the header's bytes h, is stored: the Ns selectors
      at the rest of h (which starts at p0), then Ss, Se and (Ah, Al). */
  method ScanHeaderRest(s: InStream, ctx: Context, scan: Scan, ns: byte, ghost h: seq<byte>, ghost p0: nat)
      returns (err: Status)
    requires ctx.Valid() && ScanIds(scan) && scan.Ns == ns as int && |h| >= 1 && h[0] == ns
    requires p0 <= |s.data| && h[1..] == s.data[p0..] && s.pos == p0
    modifies s, ctx`mblocks, ctx.component, scan`Cs
    ensures ctx.Valid() && Grids(ctx, old(Grids256(ctx))) && ScanIds(scan) && ctx.bufferSlot == old(ctx.bufferSlot)
    ensures var r := ParseScanHeaderF(h);
            && err == StatusOf(r) && (err == Success <==> r.Parsed?)
            && (r.Parsed? ==>
                  && s.pos == p0 + r.used - 1 && ctx.mblocks == 0
                  && (forall j | 0 <= j < r.value.ns :: scan.Cs[j] == r.value.sels[j].cs)
                  && Chooses(ctx, old(Headers(ctx)), r.value.sels))
  {
    ScanHeaderOf(h);
    err := ReadSelectors(s, ctx, scan, ns as int, h[1..], p0);
    if err != Success {
      return;
    }
    ghost var u := SelectorsF(h[1..], ns as int).used;
    RemainingAt(s, h[1..], p0, u);
    err := FinishScanHeader(s, ctx);
  }

  /* ---------------------------------------------------------------------------------------- */
  /* ECS                                                                                      */
  /* ---------------------------------------------------------------------------------------- */

  /** What a scan uses of component c: its sampling factors, its block grid and its DC and AC
      table selectors. */
  ghost function UnitOf(ctx: Context, c: int): (u: Unit)
    requires ctx.Valid() && 0 <= c < 256
    reads ctx, ctx.component
  {
    var k := ctx.component[c];
    assert ctx.ComponentSized(c);
    Unit(Geometry(k.H, k.V, k.bX, k.bY), k.Td, k.Ta)
  }

  /** The units of the first n components. */
  ghost function UnitsUpTo(ctx: Context, n: nat): (us: seq<Unit>)
    requires ctx.Valid() && n <= 256
    reads ctx, ctx.component
    ensures |us| == n && forall c | 0 <= c < n :: us[c] == UnitOf(ctx, c)
  {
    if n == 0 then [] else UnitsUpTo(ctx, n - 1) + [UnitOf(ctx, n - 1)]
  }

  ghost function UnitsOf(ctx: Context): (us: seq<Unit>)
    requires ctx.Valid()
    reads ctx, ctx.component
    ensures |us| == 256 && forall c | 0 <= c < 256 :: us[c] == UnitOf(ctx, c)
  {
    UnitsUpTo(ctx, 256)
  }

  /** The [2][4] code tables, DC tables first. */
  ghost function TableRow(ctx: Context, j: int): (row: seq<CodeTable>)
    requires ctx.Shaped() && 0 <= j < 2
    reads ctx.slot.Keys
    ensures |row| == 4 && forall i | 0 <= i < 4 :: row[i] == Table(ctx.hcode[j][i])
  {
    assert ctx.TableSlotted(j, 0) && ctx.TableSlotted(j, 1) && ctx.TableSlotted(j, 2) && ctx.TableSlotted(j, 3);
    [Table(ctx.hcode[j][0]), Table(ctx.hcode[j][1]), Table(ctx.hcode[j][2]), Table(ctx.hcode[j][3])]
  }

  ghost function TablesOf(ctx: Context): (ts: seq<seq<CodeTable>>)
    requires ctx.Shaped()
    reads ctx.slot.Keys
    ensures |ts| == 2 && forall j | 0 <= j < 2 :: ts[j] == TableRow(ctx, j)
  {
    [TableRow(ctx, 0), TableRow(ctx, 1)]
  }

  /** A coefficient buffer's contents, none when there is no buffer. */
  function Cells(a: array?<int>): seq<int>
    reads a
  {
    if a == null then [] else a[..]
  }

  /** The coefficient buffers: the first of each component's three buffers. */
  ghost function IntBuffers(ctx: Context): set<array<int>>
    reads ctx`bufferSlot
  {
    set o: array<int> | o in ctx.bufferSlot.Keys && ctx.bufferSlot[o] % 3 == 0
  }

  /** The coefficient buffers of the first n components. */
  ghost function BufsUpTo(ctx: Context, n: nat): (bs: seq<seq<int>>)
    requires ctx.Valid() && n <= 256
    reads ctx, ctx.component, IntBuffers(ctx)
    ensures |bs| == n && forall c | 0 <= c < n :: bs[c] == Cells(ctx.component[c].intBuffer)
  {
    if n == 0 then []
    else
      assert ctx.ComponentSized(n - 1);
      BufsUpTo(ctx, n - 1) + [Cells(ctx.component[n - 1].intBuffer)]
  }

  /** The coefficients of every component and the scan's last blocks. */
  ghost function CoeffsOf(ctx: Context, scan: Scan): (st: Coeffs)
    requires ctx.Valid()
    reads ctx, ctx.component, IntBuffers(ctx), scan
  {
    Coeffs(BufsUpTo(ctx, 256), scan.lastBlock)
  }

  /** Every component grid is at least m_x H blocks wide, as the frame header leaves it: the
      column read_macroblock asserts lies inside the grid does. */
  ghost predicate Gridded(ctx: Context)
    requires ctx.Shaped()
    reads ctx, ctx.component
  {
    forall c | 0 <= c < 256 :: ctx.component[c].bX >= ctx.mX * ctx.component[c].H
  }

  /** The context as the decoder keeps it: in range, every code table usable, every grid at
      least as wide as the MCU grid. */
  ghost predicate Decoding(ctx: Context)
    reads ctx, ctx.component, ctx.slot.Keys
  {
    && ctx.Valid()
    && (forall j, i | 0 <= j < 2 && 0 <= i < 4 :: ctx.TableSlotted(j, i) && TableValid(ctx, j, i))
    && Gridded(ctx)
  }

  /** The scan's component count and ids, each a uint8_t. */
  ghost predicate ScanIds(scan: Scan)
    reads scan`Ns, scan`Cs
  {
    0 <= scan.Ns < 256 && |scan.Cs| == 256 && Ids(scan.Cs)
  }

  /** Every last block lies in its component's grid. */
  ghost predicate LastInGrid(ctx: Context, scan: Scan)
    requires ctx.Shaped()
    reads ctx.component, scan
  {
    && |scan.lastBlock| == 256
    && forall c | 0 <= c < 256 && scan.lastBlock[c].Some? ::
         scan.lastBlock[c].value < ctx.component[c].bX * ctx.component[c].bY
  }

  /** The reader's bit buffer, stream and scan are none of the context's tables or buffers. */
  ghost predicate Separate(ctx: Context, bits: Bits, s: InStream, scan: Scan)
    reads ctx
  {
    && bits !in ctx.slot && s !in ctx.slot && scan !in ctx.slot
    && bits !in ctx.bufferSlot && s !in ctx.bufferSlot && scan !in ctx.bufferSlot
  }

  /** The tables the selectors pick are usable. */
  lemma {:induction false} DecodingTabled(ctx: Context)
    requires Decoding(ctx)
    ensures Tabled(UnitsOf(ctx), TablesOf(ctx))
  {
    forall c | 0 <= c < 256
      ensures 0 <= UnitsOf(ctx)[c].td < 4 && 0 <= UnitsOf(ctx)[c].ta < 4
    {
      assert ctx.ComponentSized(c);
    }
    forall j, i | 0 <= j < 2 && 0 <= i < 4
      ensures Coded(TablesOf(ctx)[j][i])
    {
      assert TableValid(ctx, j, i);
      TableCoded(ctx.hcode[j][i]);
    }
  }

  /** The coefficients fit the grids. */
  lemma {:induction false} DecodingSized(ctx: Context, scan: Scan)
    requires ctx.Valid() && LastInGrid(ctx, scan)
    ensures Sized(UnitsOf(ctx), CoeffsOf(ctx, scan))
  {
    forall c | 0 <= c < 256
      ensures |CoeffsOf(ctx, scan).bufs[c]| == 64 * (UnitsOf(ctx)[c].g.bX * UnitsOf(ctx)[c].g.bY)
    {
      assert ctx.ComponentSized(c);
    }
  }

  /** Reading the visits done from coefficients st0 and bits P0 came to status err and left the
      bits pending; the coefficients it came to are base's, with buf as component c's, and the
      scan's last blocks. */
  ghost predicate Reached(bits: Bits, s: InStream, buf: array?<int>, scan: Scan, c: int, us: seq<Unit>,
                          ts: seq<seq<CodeTable>>, stop: Status, st0: Coeffs, P0: seq<Bit>, base: Coeffs,
                          done: seq<Visit>, err: Status)
    reads bits, s, buf, scan
  {
    && Tabled(us, ts) && Sized(us, st0) && Visiting(done) && stop != Success && 0 <= c < 256
    && bits.count <= 8 && EcsStop(s).0 == stop && |base.bufs| == 256
    && var r := ReadVisitsF(us, ts, done, stop, st0, P0);
       && r.status == err && Pending(bits, s) == r.rest
       && r.st == Coeffs(base.bufs[c := Cells(buf)], scan.lastBlock)
  }

  /** A failure stays the outcome when more visits follow: read_macroblock returns at once. */
  lemma {:induction false} ReachedFailed(bits: Bits, s: InStream, buf: array?<int>, scan: Scan, c: int,
                                         us: seq<Unit>, ts: seq<seq<CodeTable>>, stop: Status, st0: Coeffs,
                                         P0: seq<Bit>, base: Coeffs, q: seq<Visit>, vs: seq<Visit>, err: Status)
    requires Reached(bits, s, buf, scan, c, us, ts, stop, st0, P0, base, q, err)
    requires err != Success && q <= vs && Visiting(vs)
    ensures Reached(bits, s, buf, scan, c, us, ts, stop, st0, P0, base, vs, err)
  {
    ReadVisitsStuck(us, ts, vs, q, stop, st0, P0);
  }

  /** hdc and hac are component c's DC and AC tables, usable, and none of their arrays is the
      component's buffer. */
  ghost predicate Coding(hdc: HCode, hac: HCode, buf: array?<int>, c: int, us: seq<Unit>, ts: seq<seq<CodeTable>>)
    reads hdc, hdc.huffVal, hdc.huffSize, hdc.huffCode, hdc.eHufCo, hdc.eHufSi
    reads hac, hac.huffVal, hac.huffSize, hac.huffCode, hac.eHufCo, hac.eHufSi
  {
    && hdc.Valid() && hac.Valid() && Tabled(us, ts) && 0 <= c < 256
    && Table(hdc) == DcTable(us, ts, c) && Table(hac) == AcTable(us, ts, c)
    && (buf != null ==> Apart(buf, hdc) && Apart(buf, hac))
  }

  /** The 64 coefficients of blk stored as block b of buf. */
  method StoreBlock(buf: array<int>, b: nat, blk: array<int>)
    requires 64 * b + 64 <= buf.Length && blk.Length == 64 && buf != blk
    modifies buf
    ensures buf[..] == Splice(old(buf[..]), b, old(blk[..]))
  {
    forall q | 0 <= q < 64 {
      buf[64 * b + q] := blk[q];
    }
  }

  /** Differential DC decoding: the DC coefficient of the block coded last added to block b's. */
  method AddPredictor(buf: array<int>, b: nat, last: Option<nat>)
    requires 64 * b < buf.Length && (last.Some? ==> 64 * last.value < buf.Length)
    modifies buf
    ensures buf[..] == old(buf[..])[64 * b := old(buf[64 * b]) + Predictor(old(buf[..]), last)]
  {
    if last.Some? {
      buf[64 * b] := buf[64 * b] + buf[64 * last.value];
    }
  }

  /** Read_macroblock on a visit whose block reads: the block stored, undifferenced, and the
      bits after it left. */
  lemma {:induction false} VisitGot(us: seq<Unit>, ts: seq<seq<CodeTable>>, v: Visit, stop: Status, st: Coeffs,
                                    P: seq<Bit>, n: nat, z: seq<int>, R: seq<Bit>)
    requires Tabled(us, ts) && 0 <= v.c < 256 && stop != Success
    requires Sized(us, st) && Slot(us[v.c].g, v) == Some(n)
    requires ReadBlockF(DcTable(us, ts, v.c), AcTable(us, ts, v.c), P) == Got(z, R)
    ensures ReadVisitF(us, ts, v, stop, st, P)
              == Read(Success, Undifferenced(us, st.(bufs := st.bufs[v.c := Splice(st.bufs[v.c], n, Natural(z))]), v.c, n), R, None)
  {
  }

  /** Storing block n in component c's coefficients and undifferencing it: the block stored with
      its predictor added, and n c's last block. */
  lemma {:induction false} StoredUndifferenced(us: seq<Unit>, st: Coeffs, c: int, n: nat, blk: seq<int>)
    requires Sized(us, st) && 0 <= c < 256 && n < us[c].g.bX * us[c].g.bY && |blk| == 64
    ensures var sp := Splice(st.bufs[c], n, blk);
            Undifferenced(us, st.(bufs := st.bufs[c := sp]), c, n)
              == Coeffs(st.bufs[c := sp[64 * n := sp[64 * n] + Predictor(sp, st.last[c])]], st.last[c := Some(n)])
  {
    var sp := Splice(st.bufs[c], n, blk);
    UpdateTwice(st.bufs, c, sp, sp[64 * n := sp[64 * n] + Predictor(sp, st.last[c])]);
  }

  /** Block n of buf replaced by blk, with the DC coefficient of component c's last block
      added; n becomes the last block. */
  method Deposit(buf: array<int>, scan: Scan, c: int, n: nat, blk: array<int>)
    requires 64 * n + 64 <= buf.Length && blk.Length == 64 && buf != blk
    requires 0 <= c < |scan.lastBlock| && (scan.lastBlock[c].Some? ==> 64 * scan.lastBlock[c].value < buf.Length)
    modifies buf, scan`lastBlock
    ensures var sp := Splice(old(buf[..]), n, old(blk[..]));
            buf[..] == sp[64 * n := sp[64 * n] + Predictor(sp, old(scan.lastBlock[c]))]
    ensures scan.lastBlock == old(scan.lastBlock)[c := Some(n)]
  {
    StoreBlock(buf, n, blk);
    AddPredictor(buf, n, scan.lastBlock[c]);
    scan.lastBlock := scan.lastBlock[c := Some(n)];
  }

  /** A block read, blk, deposited as block n of component c: the coefficients come to those
      of storing the block in c's and undifferencing it. */
  method DepositRead(buf: array?<int>, scan: Scan, c: int, n: nat, blk: array<int>, ghost hdc: HCode,
                     ghost hac: HCode, ghost us: seq<Unit>, ghost ts: seq<seq<CodeTable>>, ghost st: Coeffs,
                     ghost z: seq<int>)
    requires Sized(us, st) && 0 <= c < 256 && n < us[c].g.bX * us[c].g.bY && Coding(hdc, hac, buf, c, us, ts)
    requires Cells(buf) == st.bufs[c] && scan.lastBlock == st.last && |z| == 64 && blk[..] == Natural(z) && buf != blk
    modifies buf, scan`lastBlock
    ensures Coding(hdc, hac, buf, c, us, ts)
    ensures Coeffs(st.bufs[c := Cells(buf)], scan.lastBlock)
              == Undifferenced(us, st.(bufs := st.bufs[c := Splice(st.bufs[c], n, Natural(z))]), c, n)
  {
    StoredUndifferenced(us, st, c, n, blk[..]);
    Deposit(buf, scan, c, n, blk);
  }

  /** read_block with no block (NULL), for a visit past the end of component c's grid: the DC
      coefficient is read, and reading stops. */
  method ReadPastGrid(bits: Bits, s: InStream, hdc: HCode, hac: HCode, buf: array?<int>, scan: Scan, c: int,
                      ghost us: seq<Unit>, ghost ts: seq<seq<CodeTable>>, ghost stop: Status, ghost st0: Coeffs,
                      ghost P0: seq<Bit>, ghost base: Coeffs, ghost done: seq<Visit>, ghost v: Visit)
    returns (err: Status)
    requires Reached(bits, s, buf, scan, c, us, ts, stop, st0, P0, base, done, Success)
    requires Coding(hdc, hac, buf, c, us, ts) && v.c == c && Slot(us[c].g, v).None?
    modifies bits, s
    ensures Coding(hdc, hac, buf, c, us, ts)
    ensures Reached(bits, s, buf, scan, c, us, ts, stop, st0, P0, base, done + [v], err)
  {
    ReadVisitsThen(us, ts, done, v, stop, st0, P0);
    err := ReadBlock(bits, s, hdc, hac, null);
  }

  /** read_block into block n of component c's grid, which, when it reads, gets the DC
      coefficient of the block coded last added and becomes the last block. */
  method ReadInGrid(bits: Bits, s: InStream, hdc: HCode, hac: HCode, buf: array?<int>, scan: Scan, c: int, n: nat,
                    ghost us: seq<Unit>, ghost ts: seq<seq<CodeTable>>, ghost stop: Status, ghost st: Coeffs,
                    ghost v: Visit)
    returns (err: Status)
    requires Tabled(us, ts) && Sized(us, st) && stop != Success && bits.count <= 8 && EcsStop(s).0 == stop
    requires Coding(hdc, hac, buf, c, us, ts) && v.c == c && Slot(us[c].g, v) == Some(n)
    requires Cells(buf) == st.bufs[c] && scan.lastBlock == st.last
    modifies bits, s, buf, scan`lastBlock
    ensures Coding(hdc, hac, buf, c, us, ts)
    ensures bits.count <= 8 && EcsStop(s).0 == stop
    ensures var r := ReadVisitF(us, ts, v, stop, st, old(Pending(bits, s)));
            && err == r.status && Pending(bits, s) == r.rest
            && r.st == Coeffs(st.bufs[c := Cells(buf)], scan.lastBlock)
  {
    var blk := new int[64];
    ghost var P := Pending(bits, s);
    err := ReadBlock(bits, s, hdc, hac, blk);
    assert Table(hdc) == DcTable(us, ts, c) && Table(hac) == AcTable(us, ts, c);
    if err == Success {
      ghost var g := ReadBlockF(Table(hdc), Table(hac), P);
      VisitGot(us, ts, v, stop, st, P, n, g.z, g.rest);
      assert Cells(buf) == st.bufs[c];
      DepositRead(buf, scan, c, n, blk, hdc, hac, us, ts, st, g.z);
    } else {
      UpdateSame(st.bufs, c);
    }
  }

  /** The body of read_macroblock's loops on the visit v, block b of component c's buffer (None
      past the end of the grid): read_block with the component's tables, NULL past the end. */
  method ReadVisit(bits: Bits, s: InStream, hdc: HCode, hac: HCode, buf: array?<int>, scan: Scan, c: int,
                   b: Option<nat>, ghost us: seq<Unit>, ghost ts: seq<seq<CodeTable>>, ghost stop: Status,
                   ghost st0: Coeffs, ghost P0: seq<Bit>, ghost base: Coeffs, ghost done: seq<Visit>,
                   ghost v: Visit)
    returns (err: Status)
    requires Reached(bits, s, buf, scan, c, us, ts, stop, st0, P0, base, done, Success)
    requires Coding(hdc, hac, buf, c, us, ts) && v.c == c && b == Slot(us[c].g, v)
    modifies bits, s, buf, scan`lastBlock
    ensures Coding(hdc, hac, buf, c, us, ts)
    ensures Reached(bits, s, buf, scan, c, us, ts, stop, st0, P0, base, done + [v], err)
  {
    if b.None? {
      err := ReadPastGrid(bits, s, hdc, hac, buf, scan, c, us, ts, stop, st0, P0, base, done, v);
    } else {
      ghost var r := ReadVisitsF(us, ts, done, stop, st0, P0);
      ReadVisitsThen(us, ts, done, v, stop, st0, P0);
      err := ReadInGrid(bits, s, hdc, hac, buf, scan, c, b.value, us, ts, stop, r.st, v);
      UpdateTwice(base.bufs, c, r.st.bufs[c], Cells(buf));
    }
  }

  /** The block at column x H + h, row y V + r of a component's grid: its index (y V + r) b_x +
      x H + h in the buffer, or None past the end of the buffer. */
  method CellSlot(c: int, x: nat, y: nat, r: nat, h: nat, H: nat, V: nat, bX: nat, bY: nat, ghost g: Geometry,
                  ghost row: seq<Visit>)
    returns (b: Option<nat>)
    requires g == Geometry(H, V, bX, bY) && row == JpegScan.Row(c, g, x, y, r) && h < H
    ensures b == Slot(g, row[h])
  {
    var n: nat := (y * V + r) * bX + (x * H + h);
    b := if n < bX * bY then Some(n) else None;
  }

  /** Block w of MCU seq_no of a non-interleaved scan: index H V seq_no + w in the buffer, or
      None past the end of the buffer. */
  method RunSlot(c: int, seqNo: nat, w: nat, H: nat, V: nat, bX: nat, bY: nat, ghost g: Geometry,
                 ghost run: seq<Visit>)
    returns (b: Option<nat>)
    requires g == Geometry(H, V, bX, bY) && run == RunVisits(c, g, seqNo) && w < H * V
    ensures b == Slot(g, run[w])
  {
    var n: nat := H * V * seqNo + w;
    b := if n < bX * bY then Some(n) else None;
  }

  /** read_macroblock's loop over h: row r of the blocks component c contributes to the MCU at
      column x, row y, left to right, up to the first block that does not read. */
  method ReadUnitRow(bits: Bits, s: InStream, hdc: HCode, hac: HCode, buf: array?<int>, scan: Scan, c: int,
                     x: nat, y: nat, r: nat, H: nat, V: nat, bX: nat, bY: nat, ghost us: seq<Unit>,
                     ghost ts: seq<seq<CodeTable>>, ghost stop: Status, ghost st0: Coeffs, ghost P0: seq<Bit>,
                     ghost base: Coeffs, ghost done: seq<Visit>)
    returns (err: Status)
    requires Reached(bits, s, buf, scan, c, us, ts, stop, st0, P0, base, done, Success)
    requires Coding(hdc, hac, buf, c, us, ts) && us[c].g == Geometry(H, V, bX, bY)
    modifies bits, s, buf, scan`lastBlock
    ensures Coding(hdc, hac, buf, c, us, ts)
    ensures Reached(bits, s, buf, scan, c, us, ts, stop, st0, P0, base, done + JpegScan.Row(c, us[c].g, x, y, r), err)
  {
    ghost var row := JpegScan.Row(c, us[c].g, x, y, r);
    VisitingConcat(done, row);
    TakeNone(done, row);
    var h := 0;
    while h < H
      invariant h <= H && Coding(hdc, hac, buf, c, us, ts)
      invariant Reached(bits, s, buf, scan, c, us, ts, stop, st0, P0, base, done + row[..h], Success)
    {
      var b := CellSlot(c, x, y, r, h, H, V, bX, bY, us[c].g, row);
      GrowPrefix(done, row, h);
      err := ReadVisit(bits, s, hdc, hac, buf, scan, c, b, us, ts, stop, st0, P0, base, done + row[..h], row[h]);
      if err != Success {
        ReachedFailed(bits, s, buf, scan, c, us, ts, stop, st0, P0, base, done + row[..h + 1], done + row, err);
        return;
      }
      h := h + 1;
    }
    TakeAll(done, row);
    err := Success;
  }

  /** read_macroblock's loop over v: the H by V blocks component c contributes to the MCU at
      column x, row y, row by row, up to the first block that does not read. */
  method ReadUnit(bits: Bits, s: InStream, hdc: HCode, hac: HCode, buf: array?<int>, scan: Scan, c: int,
                  x: nat, y: nat, H: nat, V: nat, bX: nat, bY: nat, ghost us: seq<Unit>,
                  ghost ts: seq<seq<CodeTable>>, ghost stop: Status, ghost st0: Coeffs, ghost P0: seq<Bit>,
                  ghost base: Coeffs, ghost done: seq<Visit>)
    returns (err: Status)
    requires Reached(bits, s, buf, scan, c, us, ts, stop, st0, P0, base, done, Success)
    requires Coding(hdc, hac, buf, c, us, ts) && us[c].g == Geometry(H, V, bX, bY)
    modifies bits, s, buf, scan`lastBlock
    ensures Coding(hdc, hac, buf, c, us, ts)
    ensures Reached(bits, s, buf, scan, c, us, ts, stop, st0, P0, base, done + UnitVisits(c, us[c].g, x, y), err)
  {
    ghost var g := us[c].g;
    VisitingConcat(done, UnitVisits(c, g, x, y));
    assert done + Rows(c, g, x, y, 0) == done;
    var r := 0;
    while r < V
      invariant r <= V && Coding(hdc, hac, buf, c, us, ts)
      invariant Reached(bits, s, buf, scan, c, us, ts, stop, st0, P0, base, done + Rows(c, g, x, y, r), Success)
    {
      RowsNext(done, c, g, x, y, r, V);
      err := ReadUnitRow(bits, s, hdc, hac, buf, scan, c, x, y, r, H, V, bX, bY, us, ts, stop, st0, P0, base,
                         done + Rows(c, g, x, y, r));
      if err != Success {
        ReachedFailed(bits, s, buf, scan, c, us, ts, stop, st0, P0, base, done + Rows(c, g, x, y, r + 1),
                      done + Rows(c, g, x, y, V), err);
        return;
      }
      r := r + 1;
    }
    err := Success;
  }

  /** read_macroblock for a non-interleaved scan (Ns = 1) over component c: the H V blocks
      that follow the first H V seq_no in the grid's row-major order, up to the first that
      does not read. The block past the end of the grid gets no block (see Findings). */
  method ReadRun(bits: Bits, s: InStream, hdc: HCode, hac: HCode, buf: array?<int>, scan: Scan, c: int,
                 seqNo: nat, H: nat, V: nat, bX: nat, bY: nat, ghost us: seq<Unit>, ghost ts: seq<seq<CodeTable>>,
                 ghost stop: Status, ghost st0: Coeffs, ghost P0: seq<Bit>, ghost base: Coeffs,
                 ghost done: seq<Visit>)
    returns (err: Status)
    requires Reached(bits, s, buf, scan, c, us, ts, stop, st0, P0, base, done, Success)
    requires Coding(hdc, hac, buf, c, us, ts) && us[c].g == Geometry(H, V, bX, bY)
    modifies bits, s, buf, scan`lastBlock
    ensures Coding(hdc, hac, buf, c, us, ts)
    ensures Reached(bits, s, buf, scan, c, us, ts, stop, st0, P0, base, done + RunVisits(c, us[c].g, seqNo), err)
  {
    ghost var run := RunVisits(c, us[c].g, seqNo);
    VisitingConcat(done, run);
    TakeNone(done, run);
    var blocks := H * V;
    var w := 0;
    while w < blocks
      invariant w <= blocks && Coding(hdc, hac, buf, c, us, ts)
      invariant Reached(bits, s, buf, scan, c, us, ts, stop, st0, P0, base, done + run[..w], Success)
    {
      var b := RunSlot(c, seqNo, w, H, V, bX, bY, us[c].g, run);
      GrowPrefix(done, run, w);
      err := ReadVisit(bits, s, hdc, hac, buf, scan, c, b, us, ts, stop, st0, P0, base, done + run[..w], run[w]);
      if err != Success {
        ReachedFailed(bits, s, buf, scan, c, us, ts, stop, st0, P0, base, done + run[..w + 1], done + run, err);
        return;
      }
      w := w + 1;
    }
    TakeAll(done, run);
    err := Success;
  }

  /** The context's coefficients and the bits pending are what reading the visits done from
      coefficients st0 and bits P0 comes to, with status err. */
  ghost predicate Decoded(bits: Bits, s: InStream, ctx: Context, scan: Scan, us: seq<Unit>, ts: seq<seq<CodeTable>>,
                          stop: Status, st0: Coeffs, P0: seq<Bit>, done: seq<Visit>, err: Status)
    requires ctx.Valid()
    reads bits, s, ctx, ctx.component, IntBuffers(ctx), scan
  {
    && Tabled(us, ts) && Sized(us, st0) && Visiting(done) && stop != Success
    && bits.count <= 8 && EcsStop(s).0 == stop
    && var r := ReadVisitsF(us, ts, done, stop, st0, P0);
       && r.status == err && Pending(bits, s) == r.rest && CoeffsOf(ctx, scan) == r.st
  }

  /** A failure stays the outcome when more visits follow. */
  lemma {:induction false} DecodedFailed(bits: Bits, s: InStream, ctx: Context, scan: Scan, us: seq<Unit>,
                                         ts: seq<seq<CodeTable>>, stop: Status, st0: Coeffs, P0: seq<Bit>,
                                         q: seq<Visit>, vs: seq<Visit>, err: Status)
    requires ctx.Valid() && Decoded(bits, s, ctx, scan, us, ts, stop, st0, P0, q, err)
    requires err != Success && q <= vs && Visiting(vs)
    ensures Decoded(bits, s, ctx, scan, us, ts, stop, st0, P0, vs, err)
  {
    ReadVisitsStuck(us, ts, vs, q, stop, st0, P0);
  }

  /** Seen from component c: the context's coefficients are base's with c's buffer in place. */
  lemma {:induction false} DecodedReached(bits: Bits, s: InStream, ctx: Context, scan: Scan, c: int, us: seq<Unit>,
                                          ts: seq<seq<CodeTable>>, stop: Status, st0: Coeffs, P0: seq<Bit>,
                                          done: seq<Visit>)
    requires ctx.Valid() && 0 <= c < 256 && Decoded(bits, s, ctx, scan, us, ts, stop, st0, P0, done, Success)
    ensures Reached(bits, s, ctx.component[c].intBuffer, scan, c, us, ts, stop, st0, P0, CoeffsOf(ctx, scan), done,
                    Success)
  {
    UpdateSame(CoeffsOf(ctx, scan).bufs, c);
  }

  /** The coefficient buffers of the first n components, none for component c: what reading
      component c's blocks leaves alone. Only buffers with a slot of their own count, so that
      the function reads nothing of component c. */
  ghost function OthersUpTo(ctx: Context, c: int, n: nat): (bs: seq<seq<int>>)
    requires 0 <= c < |ctx.component| && n <= |ctx.component|
    reads ctx, ctx.component, ctx.bufferSlot.Keys - {ctx.component[c].intBuffer}
    ensures |bs| == n
  {
    if n == 0 then []
    else
      var b := ctx.component[n - 1].intBuffer;
      OthersUpTo(ctx, c, n - 1) + [if b != null && b in ctx.bufferSlot.Keys - {ctx.component[c].intBuffer} then Cells(b) else []]
  }

  ghost function OtherBufs(ctx: Context, c: int): seq<seq<int>>
    requires 0 <= c < |ctx.component|
    reads ctx, ctx.component, ctx.bufferSlot.Keys - {ctx.component[c].intBuffer}
  {
    OthersUpTo(ctx, c, |ctx.component|)
  }

  /** In a valid context these are all the buffers but component c's. */
  lemma {:induction false} OthersUpToAre(ctx: Context, c: int, n: nat)
    requires ctx.Valid() && 0 <= c < 256 && n <= 256
    ensures forall d | 0 <= d < n :: OthersUpTo(ctx, c, n)[d] == if d == c then [] else Cells(ctx.component[d].intBuffer)
  {
    if n > 0 {
      OthersUpToAre(ctx, c, n - 1);
      assert ctx.ComponentSized(n - 1) && ctx.ComponentSized(c);
    }
  }

  lemma {:induction false} OthersAre(ctx: Context, c: int)
    requires ctx.Valid() && 0 <= c < 256
    ensures OtherBufs(ctx, c) == BufsUpTo(ctx, 256)[c := []]
  {
    OthersUpToAre(ctx, c, 256);
  }

  /** Back to the whole context, once every other component's buffer is as in base. */
  lemma {:induction false} ReachedDecoded(bits: Bits, s: InStream, ctx: Context, scan: Scan, c: int, us: seq<Unit>,
                                          ts: seq<seq<CodeTable>>, stop: Status, st0: Coeffs, P0: seq<Bit>,
                                          base: Coeffs, done: seq<Visit>, err: Status)
    requires ctx.Valid() && 0 <= c < 256
    requires Reached(bits, s, ctx.component[c].intBuffer, scan, c, us, ts, stop, st0, P0, base, done, err)
    requires OtherBufs(ctx, c) == base.bufs[c := []]
    ensures Decoded(bits, s, ctx, scan, us, ts, stop, st0, P0, done, err)
  {
    OthersAre(ctx, c);
    forall d | 0 <= d < 256 && d != c
      ensures Cells(ctx.component[d].intBuffer) == base.bufs[d]
    {
      assert OtherBufs(ctx, c)[d] == base.bufs[d];
    }
    AgreeBut(base.bufs, BufsUpTo(ctx, 256), c);
  }

  /** What reading component c's blocks keeps of the context: its ranges, its tables and its
      components, as long as none of the objects with a slot changed. */
  twostate lemma ContextKept(ctx: Context)
    requires old(Decoding(ctx)) && unchanged(ctx)
    requires forall o: object | o in ctx.slot.Keys :: unchanged(o)
    ensures Decoding(ctx) && UnitsOf(ctx) == old(UnitsOf(ctx)) && TablesOf(ctx) == old(TablesOf(ctx))
  {
    forall c | 0 <= c < 256
      ensures ctx.ComponentSized(c)
    {
      assert old(ctx.ComponentSized(c));
      assert ctx.Owns(ctx.component[c], ComponentSlot(c));
    }
  }

  /** Component c's tables, as its selectors pick them, are usable and are not its buffer. */
  lemma {:induction false} CodingOf(ctx: Context, c: int)
    requires Decoding(ctx) && 0 <= c < 256
    ensures var k := ctx.component[c];
            && 0 <= k.Td < 4 && 0 <= k.Ta < 4
            && Coding(ctx.hcode[0][k.Td], ctx.hcode[1][k.Ta], k.intBuffer, c, UnitsOf(ctx), TablesOf(ctx))
  {
    var k := ctx.component[c];
    assert ctx.ComponentSized(c);
    DecodingTabled(ctx);
    assert TableValid(ctx, 0, k.Td) && TableValid(ctx, 1, k.Ta);
    assert ctx.TableSlotted(0, k.Td) && ctx.TableSlotted(1, k.Ta);
  }

  /** Where read_macroblock finds the blocks of one component: H V consecutive blocks of the
      grid for MCU seq_no of a non-interleaved scan, the H by V blocks at MCU column x, row y of
      an interleaved one. */
  datatype Order = Sequential(seqNo: nat) | Interleaved(x: nat, y: nat)

  function OrderVisits(c: int, g: Geometry, o: Order): (vs: seq<Visit>)
    ensures |vs| == g.H * g.V && forall k | 0 <= k < |vs| :: vs[k].c == c
  {
    match o
    case Sequential(seqNo) => RunVisits(c, g, seqNo)
    case Interleaved(x, y) => UnitVisits(c, g, x, y)
  }

  /** The blocks of component c in the given order. */
  method ReadOrder(bits: Bits, s: InStream, hdc: HCode, hac: HCode, buf: array?<int>, scan: Scan, c: int, o: Order,
                   H: nat, V: nat, bX: nat, bY: nat, ghost us: seq<Unit>, ghost ts: seq<seq<CodeTable>>,
                   ghost stop: Status, ghost st0: Coeffs, ghost P0: seq<Bit>, ghost base: Coeffs,
                   ghost done: seq<Visit>)
    returns (err: Status)
    requires Reached(bits, s, buf, scan, c, us, ts, stop, st0, P0, base, done, Success)
    requires Coding(hdc, hac, buf, c, us, ts) && us[c].g == Geometry(H, V, bX, bY)
    modifies bits, s, buf, scan`lastBlock
    ensures Reached(bits, s, buf, scan, c, us, ts, stop, st0, P0, base, done + OrderVisits(c, us[c].g, o), err)
  {
    match o
    case Sequential(seqNo) =>
      err := ReadRun(bits, s, hdc, hac, buf, scan, c, seqNo, H, V, bX, bY, us, ts, stop, st0, P0, base, done);
    case Interleaved(x, y) =>
      err := ReadUnit(bits, s, hdc, hac, buf, scan, c, x, y, H, V, bX, bY, us, ts, stop, st0, P0, base, done);
  }

  /** The blocks of component c in its own buffer: every other buffer keeps its contents. */
  method ReadOwnBuffer(bits: Bits, s: InStream, ctx: Context, hdc: HCode, hac: HCode, scan: Scan, c: int, o: Order,
                       H: nat, V: nat, bX: nat, bY: nat, ghost us: seq<Unit>, ghost ts: seq<seq<CodeTable>>,
                       ghost stop: Status, ghost st0: Coeffs, ghost P0: seq<Bit>, ghost base: Coeffs,
                       ghost done: seq<Visit>)
    returns (err: Status)
    requires Separate(ctx, bits, s, scan) && 0 <= c < |ctx.component|
    requires Reached(bits, s, ctx.component[c].intBuffer, scan, c, us, ts, stop, st0, P0, base, done, Success)
    requires Coding(hdc, hac, ctx.component[c].intBuffer, c, us, ts) && us[c].g == Geometry(H, V, bX, bY)
    modifies bits, s, ctx.component[c].intBuffer, scan`lastBlock
    ensures OtherBufs(ctx, c) == old(OtherBufs(ctx, c))
    ensures Reached(bits, s, ctx.component[c].intBuffer, scan, c, us, ts, stop, st0, P0, base,
                    done + OrderVisits(c, us[c].g, o), err)
  {
    err := ReadOrder(bits, s, hdc, hac, ctx.component[c].intBuffer, scan, c, o, H, V, bX, bY, us, ts, stop, st0, P0,
                     base, done);
  }

  /** The blocks of component c, with the tables its selectors pick: the tables and the
      components stay as they were. */
  method ReadKeepingTables(bits: Bits, s: InStream, ctx: Context, scan: Scan, c: int, o: Order, ghost us: seq<Unit>,
                           ghost ts: seq<seq<CodeTable>>, ghost stop: Status, ghost st0: Coeffs, ghost P0: seq<Bit>,
                           ghost base: Coeffs, ghost done: seq<Visit>)
    returns (err: Status)
    requires Decoding(ctx) && Separate(ctx, bits, s, scan) && 0 <= c < 256 && |us| == 256 && us[c] == UnitOf(ctx, c)
    requires var k := ctx.component[c];
             && 0 <= k.Td < 4 && 0 <= k.Ta < 4
             && Coding(ctx.hcode[0][k.Td], ctx.hcode[1][k.Ta], k.intBuffer, c, us, ts)
    requires Reached(bits, s, ctx.component[c].intBuffer, scan, c, us, ts, stop, st0, P0, base, done, Success)
    modifies bits, s, ctx.component[c].intBuffer, scan`lastBlock
    ensures Decoding(ctx) && UnitsOf(ctx) == old(UnitsOf(ctx)) && TablesOf(ctx) == old(TablesOf(ctx))
    ensures OtherBufs(ctx, c) == old(OtherBufs(ctx, c))
    ensures Reached(bits, s, ctx.component[c].intBuffer, scan, c, us, ts, stop, st0, P0, base,
                    done + OrderVisits(c, us[c].g, o), err)
  {
    var k := ctx.component[c];
    assert ctx.ComponentSized(c);
    err := ReadOwnBuffer(bits, s, ctx, ctx.hcode[0][k.Td], ctx.hcode[1][k.Ta], scan, c, o, k.H, k.V, k.bX, k.bY,
                         us, ts, stop, st0, P0, base, done);
    ContextKept(ctx);
  }

  /** read_macroblock on the blocks of component c, with the tables its selectors pick and its
      coefficient buffer: only that buffer and the last blocks change. */
  method ReadComponent(bits: Bits, s: InStream, ctx: Context, scan: Scan, c: int, o: Order, ghost us: seq<Unit>,
                       ghost ts: seq<seq<CodeTable>>, ghost stop: Status, ghost st0: Coeffs, ghost P0: seq<Bit>,
                       ghost done: seq<Visit>)
    returns (err: Status)
    requires Decoding(ctx) && Separate(ctx, bits, s, scan) && 0 <= c < 256
    requires us == UnitsOf(ctx) && ts == TablesOf(ctx)
    requires Decoded(bits, s, ctx, scan, us, ts, stop, st0, P0, done, Success)
    modifies bits, s, ctx.component[c].intBuffer, scan`lastBlock
    ensures Decoding(ctx) && us == UnitsOf(ctx) && ts == TablesOf(ctx)
    ensures Decoded(bits, s, ctx, scan, us, ts, stop, st0, P0, done + OrderVisits(c, us[c].g, o), err)
  {
    ghost var base := CoeffsOf(ctx, scan);
    DecodedReached(bits, s, ctx, scan, c, us, ts, stop, st0, P0, done);
    OthersAre(ctx, c);
    CodingOf(ctx, c);
    err := ReadKeepingTables(bits, s, ctx, scan, c, o, us, ts, stop, st0, P0, base, done);
    ReachedDecoded(bits, s, ctx, scan, c, us, ts, stop, st0, P0, base, done + OrderVisits(c, us[c].g, o), err);
  }

  /** One pass of read_macroblock's loop over the components of an interleaved scan: the H by V
      blocks of component cs[j] in the MCU at column x, row y. more says whether there are any. */
  method ReadMcuComponent(bits: Bits, s: InStream, ctx: Context, scan: Scan, cs: seq<int>, j: nat, x: nat, y: nat,
                          ghost us: seq<Unit>, ghost ts: seq<seq<CodeTable>>, ghost geo: seq<Geometry>,
                          ghost stop: Status, ghost st0: Coeffs, ghost P0: seq<Bit>)
    returns (err: Status, more: bool)
    requires Decoding(ctx) && Separate(ctx, bits, s, scan) && Ids(cs) && j < |cs|
    requires us == UnitsOf(ctx) && ts == TablesOf(ctx) && geo == Geos(us)
    requires Decoded(bits, s, ctx, scan, us, ts, stop, st0, P0, McuVisits(cs[..j], geo, x, y), Success)
    modifies bits, s, ctx.component[cs[j]].intBuffer, scan`lastBlock
    ensures Ids(cs[..j + 1])
    ensures Decoding(ctx) && us == UnitsOf(ctx) && ts == TablesOf(ctx)
    ensures Decoded(bits, s, ctx, scan, us, ts, stop, st0, P0, McuVisits(cs[..j + 1], geo, x, y), err)
    ensures McuVisits(cs[..j + 1], geo, x, y) <= McuVisits(cs, geo, x, y)
    ensures McuVisits(cs[..j + 1], geo, x, y) != [] <==> McuVisits(cs[..j], geo, x, y) != [] || more
  {
    var c := cs[j];
    McuComponentNext(cs, us, geo, x, y, j);
    assert ctx.ComponentSized(c);
    more := ctx.component[c].H * ctx.component[c].V > 0;
    err := ReadComponent(bits, s, ctx, scan, c, Interleaved(x, y), us, ts, stop, st0, P0, McuVisits(cs[..j], geo, x, y));
  }

  /** The visits of an MCU up to component cs[j]: those of the components before it, then its
      own blocks, which are there exactly when its H V is positive. */
  lemma {:induction false} McuComponentNext(cs: seq<int>, us: seq<Unit>, geo: seq<Geometry>, x: nat, y: nat, j: nat)
    requires Ids(cs) && j < |cs| && |us| == 256 && geo == Geos(us)
    ensures Ids(cs[..j + 1])
    ensures var vs := McuVisits(cs[..j + 1], geo, x, y);
            && vs == McuVisits(cs[..j], geo, x, y) + OrderVisits(cs[j], us[cs[j]].g, Interleaved(x, y))
            && vs <= McuVisits(cs, geo, x, y)
            && (vs != [] <==> McuVisits(cs[..j], geo, x, y) != [] || us[cs[j]].g.H * us[cs[j]].g.V > 0)
  {
    assert Ids(cs[..j + 1]);
    McuNext(cs, geo, x, y, j, |cs|);
  }

  /** The first j components of cs read, and any says whether they had any block: what
      ReadMcuCells keeps from one pass to the next. */
  ghost predicate McuRead(bits: Bits, s: InStream, ctx: Context, scan: Scan, cs: seq<int>, j: nat, x: nat, y: nat,
                          us: seq<Unit>, ts: seq<seq<CodeTable>>, geo: seq<Geometry>, stop: Status, st0: Coeffs,
                          P0: seq<Bit>, any: bool)
    reads bits, s, ctx, ctx.component, ctx.slot.Keys, IntBuffers(ctx), scan
  {
    && Decoding(ctx) && Ids(cs) && j <= |cs|
    && us == UnitsOf(ctx) && ts == TablesOf(ctx) && geo == Geos(us)
    && (any <==> McuVisits(cs[..j], geo, x, y) != [])
    && Decoded(bits, s, ctx, scan, us, ts, stop, st0, P0, McuVisits(cs[..j], geo, x, y), Success)
  }

  /** The whole MCU read with status err, which is where reading it stops. */
  ghost predicate McuDone(bits: Bits, s: InStream, ctx: Context, scan: Scan, cs: seq<int>, x: nat, y: nat,
                          us: seq<Unit>, ts: seq<seq<CodeTable>>, geo: seq<Geometry>, stop: Status, st0: Coeffs,
                          P0: seq<Bit>, err: Status)
    reads bits, s, ctx, ctx.component, ctx.slot.Keys, IntBuffers(ctx), scan
  {
    && Decoding(ctx) && Ids(cs) && |geo| == 256
    && us == UnitsOf(ctx) && ts == TablesOf(ctx)
    && Decoded(bits, s, ctx, scan, us, ts, stop, st0, P0, McuVisits(cs, geo, x, y), err)
  }

  /** One pass of ReadMcuCells: component cs[j], after which either the first j + 1 components
      are read or reading the MCU has failed. */
  method ReadMcuStep(bits: Bits, s: InStream, ctx: Context, scan: Scan, cs: seq<int>, j: nat, x: nat, y: nat,
                     ghost us: seq<Unit>, ghost ts: seq<seq<CodeTable>>, ghost geo: seq<Geometry>,
                     ghost stop: Status, ghost st0: Coeffs, ghost P0: seq<Bit>, any: bool)
    returns (err: Status, any': bool)
    requires Separate(ctx, bits, s, scan) && j < |cs|
    requires McuRead(bits, s, ctx, scan, cs, j, x, y, us, ts, geo, stop, st0, P0, any)
    modifies bits, s, IntBuffers(ctx), scan`lastBlock
    ensures err == Success ==> McuRead(bits, s, ctx, scan, cs, j + 1, x, y, us, ts, geo, stop, st0, P0, any')
    ensures err != Success ==> McuDone(bits, s, ctx, scan, cs, x, y, us, ts, geo, stop, st0, P0, err)
  {
    BufferIn(ctx, cs[j]);
    var more;
    err, more := ReadMcuComponent(bits, s, ctx, scan, cs, j, x, y, us, ts, geo, stop, st0, P0);
    IdsTake(cs, j + 1);
    if err != Success {
      DecodedFailed(bits, s, ctx, scan, us, ts, stop, st0, P0, McuVisits(cs[..j + 1], geo, x, y),
                    McuVisits(cs, geo, x, y), err);
    }
    any' := any || more;
  }

  /** read_macroblock's loop over the components cs of an interleaved scan: each component's H
      by V blocks of the MCU at column x, row y, in the order the scan lists them, up to the first
      failure. any says whether the MCU has any block at all. */
  method ReadMcuCells(bits: Bits, s: InStream, ctx: Context, scan: Scan, cs: seq<int>, x: nat, y: nat,
                      ghost us: seq<Unit>, ghost ts: seq<seq<CodeTable>>, ghost geo: seq<Geometry>,
                      ghost stop: Status, ghost st0: Coeffs, ghost P0: seq<Bit>)
    returns (err: Status, any: bool)
    requires Separate(ctx, bits, s, scan)
    requires McuRead(bits, s, ctx, scan, cs, 0, x, y, us, ts, geo, stop, st0, P0, false)
    modifies bits, s, IntBuffers(ctx), scan`lastBlock
    ensures McuDone(bits, s, ctx, scan, cs, x, y, us, ts, geo, stop, st0, P0, err)
    ensures err == Success ==> (any <==> McuVisits(cs, geo, x, y) != [])
  {
    var j := 0;
    any := false;
    while j < |cs|
      invariant j <= |cs| && Separate(ctx, bits, s, scan)
      invariant McuRead(bits, s, ctx, scan, cs, j, x, y, us, ts, geo, stop, st0, P0, any)
    {
      err, any := ReadMcuStep(bits, s, ctx, scan, cs, j, x, y, us, ts, geo, stop, st0, P0, any);
      if err != Success {
        return;
      }
      j := j + 1;
    }
    McuReadAll(bits, s, ctx, scan, cs, x, y, us, ts, geo, stop, st0, P0, any);
    err := Success;
  }

  /** All of cs read: the MCU read without failure. */
  lemma {:induction false} McuReadAll(bits: Bits, s: InStream, ctx: Context, scan: Scan, cs: seq<int>, x: nat, y: nat,
                                      us: seq<Unit>, ts: seq<seq<CodeTable>>, geo: seq<Geometry>, stop: Status,
                                      st0: Coeffs, P0: seq<Bit>, any: bool)
    requires McuRead(bits, s, ctx, scan, cs, |cs|, x, y, us, ts, geo, stop, st0, P0, any)
    ensures McuDone(bits, s, ctx, scan, cs, x, y, us, ts, geo, stop, st0, P0, Success)
    ensures any <==> McuVisits(cs, geo, x, y) != []
  {
    assert cs[..|cs|] == cs;
  }

  /** Component c's buffer is one of the coefficient buffers. */
  lemma {:induction false} BufferIn(ctx: Context, c: int)
    requires ctx.Valid() && 0 <= c < 256
    ensures ctx.component[c].intBuffer == null || ctx.component[c].intBuffer in IntBuffers(ctx)
  {
    assert ctx.ComponentSized(c);
  }

  /** The coefficients and the bits pending are those r leaves, and the stream still stops
      with status stop. */
  ghost predicate Landed(bits: Bits, s: InStream, ctx: Context, scan: Scan, stop: Status, r: Read)
    requires ctx.Valid()
    reads bits, s, ctx, ctx.component, IntBuffers(ctx), scan
  {
    && bits.count <= 8 && EcsStop(s).0 == stop
    && Pending(bits, s) == r.rest && CoeffsOf(ctx, scan) == r.st
  }

  /** What reading the visits vs from coefficients st0 and bits P0 comes to, where an MCU
      without blocks is FailureNoMoreData. */
  ghost function McuOutcome(us: seq<Unit>, ts: seq<seq<CodeTable>>, vs: seq<Visit>, stop: Status, st0: Coeffs,
                            P0: seq<Bit>): Read
    requires Tabled(us, ts) && Sized(us, st0) && Visiting(vs) && stop != Success
  {
    if vs == [] then Read(FailureNoMoreData, st0, P0, None) else ReadVisitsF(us, ts, vs, stop, st0, P0)
  }

  /** ReadMcuF on a scan without components. */
  lemma {:induction false} McuPlannedNone(us: seq<Unit>, ts: seq<seq<CodeTable>>, cs: seq<int>, mX: nat,
                                          seqNo: nat, stop: Status, st: Coeffs, P: seq<Bit>)
    requires Tabled(us, ts) && Sized(us, st) && Ids(cs) && stop != Success
    ensures ReadMcuF(us, ts, 0, cs, mX, seqNo, stop, st, P) == Read(FailureNoMoreData, st, P, None)
  {
  }

  /** ReadMcuF on a scan of one component: the blocks of MCU seq_no of that component. */
  lemma {:induction false} McuPlannedRun(us: seq<Unit>, ts: seq<seq<CodeTable>>, cs: seq<int>, mX: nat,
                                         seqNo: nat, stop: Status, st: Coeffs, P: seq<Bit>)
    requires Tabled(us, ts) && Sized(us, st) && 1 <= |cs| && Ids(cs) && stop != Success
    ensures ReadMcuF(us, ts, 1, cs, mX, seqNo, stop, st, P)
            == McuOutcome(us, ts, RunVisits(cs[0], us[cs[0]].g, seqNo), stop, st, P)
  {
  }

  /** ReadMcuF on an interleaved scan before any frame header. */
  lemma {:induction false} McuPlannedNoGrid(us: seq<Unit>, ts: seq<seq<CodeTable>>, ns: nat, cs: seq<int>,
                                            seqNo: nat, stop: Status, st: Coeffs, P: seq<Bit>)
    requires Tabled(us, ts) && Sized(us, st) && 1 < ns <= |cs| && Ids(cs) && stop != Success
    ensures ReadMcuF(us, ts, ns, cs, 0, seqNo, stop, st, P) == Read(FailureFileUnsupported, st, P, None)
  {
  }

  /** ReadMcuF on an interleaved scan: the blocks of the MCU at column seq_no % m_x, row
      seq_no / m_x. */
  lemma {:induction false} McuPlannedInterleaved(us: seq<Unit>, ts: seq<seq<CodeTable>>, ns: nat, cs: seq<int>,
                                                 mX: nat, seqNo: nat, x: nat, y: nat, stop: Status, st: Coeffs,
                                                 P: seq<Bit>)
    requires Tabled(us, ts) && Sized(us, st) && 1 < ns <= |cs| && Ids(cs) && stop != Success
    requires mX > 0 && x == seqNo % mX && y == seqNo / mX
    ensures Ids(cs[..ns])
    ensures ReadMcuF(us, ts, ns, cs, mX, seqNo, stop, st, P)
            == McuOutcome(us, ts, McuVisits(cs[..ns], Geos(us), x, y), stop, st, P)
  {
    IdsTake(cs, ns);
  }

  /** Nothing read yet: what is left is where reading started. */
  lemma {:induction false} LandedAtStart(bits: Bits, s: InStream, ctx: Context, scan: Scan, us: seq<Unit>,
                                         ts: seq<seq<CodeTable>>, stop: Status, st0: Coeffs, P0: seq<Bit>,
                                         err: Status)
    requires ctx.Valid() && Decoded(bits, s, ctx, scan, us, ts, stop, st0, P0, [], Success)
    ensures Landed(bits, s, ctx, scan, stop, Read(err, st0, P0, None))
  {
  }

  /** An MCU without blocks reads nothing and reports FailureNoMoreData. */
  lemma {:induction false} LandedNowhere(bits: Bits, s: InStream, ctx: Context, scan: Scan, us: seq<Unit>,
                                         ts: seq<seq<CodeTable>>, stop: Status, st0: Coeffs, P0: seq<Bit>,
                                         vs: seq<Visit>)
    requires ctx.Valid() && Decoded(bits, s, ctx, scan, us, ts, stop, st0, P0, [], Success) && vs == []
    ensures var r := McuOutcome(us, ts, vs, stop, st0, P0);
            r.status == FailureNoMoreData && Landed(bits, s, ctx, scan, stop, r)
  {
  }

  /** Having read the visits vs of an MCU with blocks, the decoder stands where McuOutcome says. */
  lemma {:induction false} DecodedLanded(bits: Bits, s: InStream, ctx: Context, scan: Scan, us: seq<Unit>,
                                         ts: seq<seq<CodeTable>>, stop: Status, st0: Coeffs, P0: seq<Bit>,
                                         vs: seq<Visit>, err: Status)
    requires ctx.Valid() && Decoded(bits, s, ctx, scan, us, ts, stop, st0, P0, [] + vs, err)
    requires Visiting(vs) && vs != []
    ensures var r := McuOutcome(us, ts, vs, stop, st0, P0);
            err == r.status && Landed(bits, s, ctx, scan, stop, r)
  {
    assert [] + vs == vs;
  }

  /** The Ns = 1 branch of read_macroblock: the H V blocks of MCU seq_no of component c. */
  method ReadSequential(bits: Bits, s: InStream, ctx: Context, scan: Scan, c: int, seqNo: nat,
                        ghost us: seq<Unit>, ghost ts: seq<seq<CodeTable>>, ghost stop: Status, ghost st0: Coeffs,
                        ghost P0: seq<Bit>)
    returns (err: Status)
    requires Decoding(ctx) && Separate(ctx, bits, s, scan) && 0 <= c < 256
    requires us == UnitsOf(ctx) && ts == TablesOf(ctx)
    requires Decoded(bits, s, ctx, scan, us, ts, stop, st0, P0, [], Success)
    modifies bits, s, IntBuffers(ctx), scan`lastBlock
    ensures Decoding(ctx) && us == UnitsOf(ctx) && ts == TablesOf(ctx)
    ensures var r := McuOutcome(us, ts, RunVisits(c, us[c].g, seqNo), stop, st0, P0);
            err == r.status && Landed(bits, s, ctx, scan, stop, r)
  {
    assert ctx.ComponentSized(c);
    var H, V := ctx.component[c].H, ctx.component[c].V;
    if H * V == 0 {
      LandedNowhere(bits, s, ctx, scan, us, ts, stop, st0, P0, RunVisits(c, us[c].g, seqNo));
      return FailureNoMoreData;
    }
    BufferIn(ctx, c);
    err := ReadComponent(bits, s, ctx, scan, c, Sequential(seqNo), us, ts, stop, st0, P0, []);
    DecodedLanded(bits, s, ctx, scan, us, ts, stop, st0, P0, OrderVisits(c, us[c].g, Sequential(seqNo)), err);
  }

  /** The Ns > 1 branch of read_macroblock: the MCU at column x, row y over the components cs. */
  method ReadInterleaved(bits: Bits, s: InStream, ctx: Context, scan: Scan, cs: seq<int>, x: nat, y: nat,
                         ghost us: seq<Unit>, ghost ts: seq<seq<CodeTable>>, ghost stop: Status, ghost st0: Coeffs,
                         ghost P0: seq<Bit>)
    returns (err: Status)
    requires Decoding(ctx) && Separate(ctx, bits, s, scan) && Ids(cs)
    requires us == UnitsOf(ctx) && ts == TablesOf(ctx)
    requires Decoded(bits, s, ctx, scan, us, ts, stop, st0, P0, [], Success)
    modifies bits, s, IntBuffers(ctx), scan`lastBlock
    ensures Decoding(ctx) && us == UnitsOf(ctx) && ts == TablesOf(ctx)
    ensures var r := McuOutcome(us, ts, McuVisits(cs, Geos(us), x, y), stop, st0, P0);
            err == r.status && Landed(bits, s, ctx, scan, stop, r)
  {
    assert cs[..0] == [];
    var any;
    err, any := ReadMcuCells(bits, s, ctx, scan, cs, x, y, us, ts, Geos(us), stop, st0, P0);
    if err == Success && !any {
      err := FailureNoMoreData;
    }
  }

  /** read_macroblock on a scan of one component (Ns = 1), as ReadMcuF has it. */
  method ReadMacroblockRun(bits: Bits, s: InStream, ctx: Context, scan: Scan, seqNo: nat, ghost us: seq<Unit>,
                           ghost ts: seq<seq<CodeTable>>, ghost stop: Status, ghost st0: Coeffs,
                           ghost P0: seq<Bit>)
    returns (err: Status)
    requires Decoding(ctx) && Separate(ctx, bits, s, scan) && ScanIds(scan) && scan.Ns == 1
    requires us == UnitsOf(ctx) && ts == TablesOf(ctx)
    requires Decoded(bits, s, ctx, scan, us, ts, stop, st0, P0, [], Success)
    modifies bits, s, IntBuffers(ctx), scan`lastBlock
    ensures Decoding(ctx) && us == UnitsOf(ctx) && ts == TablesOf(ctx)
    ensures var r := ReadMcuF(us, ts, scan.Ns, scan.Cs, ctx.mX, seqNo, stop, st0, P0);
            err == r.status && Landed(bits, s, ctx, scan, stop, r)
  {
    McuPlannedRun(us, ts, scan.Cs, ctx.mX, seqNo, stop, st0, P0);
    err := ReadSequential(bits, s, ctx, scan, scan.Cs[0], seqNo, us, ts, stop, st0, P0);
  }

  /** read_macroblock on an interleaved scan (Ns > 1) once the frame header has set m_x, as
      ReadMcuF has it. */
  method ReadMacroblockInterleaved(bits: Bits, s: InStream, ctx: Context, scan: Scan, seqNo: nat,
                                   ghost us: seq<Unit>, ghost ts: seq<seq<CodeTable>>, ghost stop: Status,
                                   ghost st0: Coeffs, ghost P0: seq<Bit>)
    returns (err: Status)
    requires Decoding(ctx) && Separate(ctx, bits, s, scan) && ScanIds(scan) && scan.Ns > 1 && ctx.mX > 0
    requires us == UnitsOf(ctx) && ts == TablesOf(ctx)
    requires Decoded(bits, s, ctx, scan, us, ts, stop, st0, P0, [], Success)
    modifies bits, s, IntBuffers(ctx), scan`lastBlock
    ensures Decoding(ctx) && us == UnitsOf(ctx) && ts == TablesOf(ctx)
    ensures var r := ReadMcuF(us, ts, scan.Ns, scan.Cs, ctx.mX, seqNo, stop, st0, P0);
            err == r.status && Landed(bits, s, ctx, scan, stop, r)
  {
    DivNonneg(seqNo, ctx.mX);
    var x: nat, y: nat := seqNo % ctx.mX, seqNo / ctx.mX;
    McuPlannedInterleaved(us, ts, scan.Ns, scan.Cs, ctx.mX, seqNo, x, y, stop, st0, P0);
    err := ReadInterleaved(bits, s, ctx, scan, scan.Cs[..scan.Ns], x, y, us, ts, stop, st0, P0);
  }

  /** read_macroblock on a scan that reads nothing: without components (Ns = 0), or interleaved
      before any frame header (m_x = 0); as ReadMcuF has it. */
  method ReadMacroblockNothing(bits: Bits, s: InStream, ctx: Context, scan: Scan, seqNo: nat,
                               ghost us: seq<Unit>, ghost ts: seq<seq<CodeTable>>, ghost stop: Status,
                               ghost st0: Coeffs, ghost P0: seq<Bit>)
    returns (err: Status)
    requires Decoding(ctx) && ScanIds(scan) && (scan.Ns == 0 || (scan.Ns > 1 && ctx.mX == 0))
    requires us == UnitsOf(ctx) && ts == TablesOf(ctx)
    requires Decoded(bits, s, ctx, scan, us, ts, stop, st0, P0, [], Success)
    ensures var r := ReadMcuF(us, ts, scan.Ns, scan.Cs, ctx.mX, seqNo, stop, st0, P0);
            err == r.status && Landed(bits, s, ctx, scan, stop, r)
  {
    if scan.Ns == 0 {
      McuPlannedNone(us, ts, scan.Cs, ctx.mX, seqNo, stop, st0, P0);
      err := FailureNoMoreData;
    } else {
      McuPlannedNoGrid(us, ts, scan.Ns, scan.Cs, seqNo, stop, st0, P0);
      err := FailureFileUnsupported;
    }
    LandedAtStart(bits, s, ctx, scan, us, ts, stop, st0, P0, err);
  }

  /** read_macroblock: MCU seq_no = m_blocks of the scan, as ReadMcuF has it. A scan without
      components, or an MCU without blocks, reports FailureNoMoreData; an interleaved scan
      before any frame header (m_x = 0) reports FailureFileUnsupported. */
  method ReadMacroblock(bits: Bits, s: InStream, ctx: Context, scan: Scan, seqNo: nat, ghost us: seq<Unit>,
                        ghost ts: seq<seq<CodeTable>>, ghost stop: Status, ghost st0: Coeffs, ghost P0: seq<Bit>)
    returns (err: Status)
    requires Decoding(ctx) && Separate(ctx, bits, s, scan) && ScanIds(scan)
    requires us == UnitsOf(ctx) && ts == TablesOf(ctx)
    requires Decoded(bits, s, ctx, scan, us, ts, stop, st0, P0, [], Success)
    modifies bits, s, IntBuffers(ctx), scan`lastBlock
    ensures Decoding(ctx) && us == UnitsOf(ctx) && ts == TablesOf(ctx)
    ensures var r := ReadMcuF(us, ts, scan.Ns, scan.Cs, ctx.mX, seqNo, stop, st0, P0);
            err == r.status && Landed(bits, s, ctx, scan, stop, r)
  {
    if scan.Ns == 1 {
      err := ReadMacroblockRun(bits, s, ctx, scan, seqNo, us, ts, stop, st0, P0);
    } else if scan.Ns > 1 && ctx.mX > 0 {
      err := ReadMacroblockInterleaved(bits, s, ctx, scan, seqNo, us, ts, stop, st0, P0);
    } else {
      err := ReadMacroblockNothing(bits, s, ctx, scan, seqNo, us, ts, stop, st0, P0);
    }
  }

  /** read_ecs has stopped after n MCUs, the last read_macroblock reporting err: R is where it
      stands. */
  ghost predicate EcsOver(bits: Bits, s: InStream, ctx: Context, scan: Scan, us: seq<Unit>, ts: seq<seq<CodeTable>>,
                          n: int, R: Scanned, err: Status)
    reads bits, s, ctx, ctx.component, ctx.slot.Keys, IntBuffers(ctx), scan
  {
    && Decoding(ctx) && ScanIds(scan) && Separate(ctx, bits, s, scan)
    && us == UnitsOf(ctx) && ts == TablesOf(ctx) && bits.count <= 8
    && R.status == (if err == FailureNoMoreData then Success else err)
    && R.st == CoeffsOf(ctx, scan) && R.rest == Pending(bits, s) && R.mcus == n
  }

  /** The pure half of read_ecs's loop between two MCUs: from MCU n on, with coefficients st
      and bits P, the rest of the scan comes to R. */
  ghost predicate EcsLeft(us: seq<Unit>, ts: seq<seq<CodeTable>>, ns: int, cs: seq<int>, mX: int, n: int,
                          stop: Status, st: Coeffs, P: seq<Bit>, R: Scanned)
  {
    && 0 <= ns <= |cs| && Ids(cs) && mX >= 0 && n >= 0 && Tabled(us, ts) && Sized(us, st) && stop != Success
    && ReadEcsF(us, ts, ns, cs, mX, n, stop, st, P) == R
  }

  /** read_ecs's loop takes one MCU at a time: after a successful one the rest of the scan is
      the rest from the next MCU on, on strictly fewer bits; otherwise the scan stops there,
      FailureNoMoreData meaning success. */
  lemma {:induction false} EcsNext(us: seq<Unit>, ts: seq<seq<CodeTable>>, ns: int, cs: seq<int>, mX: int,
                                   n: int, stop: Status, st: Coeffs, P: seq<Bit>, R: Scanned)
    requires EcsLeft(us, ts, ns, cs, mX, n, stop, st, P, R)
    ensures var m := ReadMcuF(us, ts, ns, cs, mX, n, stop, st, P);
            && (m.status == Success ==> EcsLeft(us, ts, ns, cs, mX, n + 1, stop, m.st, m.rest, R) && |m.rest| < |P|)
            && (m.status != Success ==>
                  R == Scanned(if m.status == FailureNoMoreData then Success else m.status, m.st, m.rest, m.spoilt, n))
  {
  }

  /** The decoder's state holds: the tables and components are us and ts, the coefficients are
      st and the bits pending P. */
  ghost predicate EcsHeld(bits: Bits, s: InStream, ctx: Context, scan: Scan, us: seq<Unit>, ts: seq<seq<CodeTable>>,
                          stop: Status, st: Coeffs, P: seq<Bit>)
    reads bits, s, ctx, ctx.component, ctx.slot.Keys, IntBuffers(ctx), scan
  {
    && Decoding(ctx) && ScanIds(scan) && us == UnitsOf(ctx) && ts == TablesOf(ctx)
    && Landed(bits, s, ctx, scan, stop, Read(Success, st, P, None))
  }

  /** read_ecs between two MCUs: the next is MCU n and the rest of the scan comes to R. */
  ghost predicate EcsAt(bits: Bits, s: InStream, ctx: Context, scan: Scan, us: seq<Unit>, ts: seq<seq<CodeTable>>,
                        stop: Status, n: int, st: Coeffs, P: seq<Bit>, R: Scanned)
    reads bits, s, ctx, ctx.component, ctx.slot.Keys, IntBuffers(ctx), scan
  {
    && EcsHeld(bits, s, ctx, scan, us, ts, stop, st, P)
    && EcsLeft(us, ts, scan.Ns, scan.Cs, ctx.mX, n, stop, st, P, R)
  }

  /** Between two MCUs nothing of the next MCU has been read yet. */
  lemma {:induction false} EcsDecoded(bits: Bits, s: InStream, ctx: Context, scan: Scan, us: seq<Unit>,
                                      ts: seq<seq<CodeTable>>, stop: Status, n: int, st: Coeffs, P: seq<Bit>,
                                      R: Scanned)
    requires EcsAt(bits, s, ctx, scan, us, ts, stop, n, st, P, R)
    ensures Decoded(bits, s, ctx, scan, us, ts, stop, st, P, [], Success)
  {
  }

  /** One pass of read_ecs's loop: read_macroblock on MCU n. On success the loop stands before
      MCU n + 1 with fewer bits pending; otherwise the scan has come to R with err. */
  method ReadEcsStep(bits: Bits, s: InStream, ctx: Context, scan: Scan, n: nat, ghost us: seq<Unit>,
                     ghost ts: seq<seq<CodeTable>>, ghost stop: Status, ghost st: Coeffs,
                     ghost P: seq<Bit>, ghost R: Scanned)
    returns (err: Status, ghost st': Coeffs, ghost P': seq<Bit>)
    requires Separate(ctx, bits, s, scan) && EcsAt(bits, s, ctx, scan, us, ts, stop, n, st, P, R)
    modifies bits, s, IntBuffers(ctx), scan`lastBlock
    ensures err == Success ==> EcsAt(bits, s, ctx, scan, us, ts, stop, n + 1, st', P', R) && |P'| < |P|
    ensures err != Success ==> EcsOver(bits, s, ctx, scan, us, ts, n, R, err)
  {
    EcsDecoded(bits, s, ctx, scan, us, ts, stop, n, st, P, R);
    err := ReadMacroblock(bits, s, ctx, scan, n, us, ts, stop, st, P);
    ghost var m := ReadMcuF(us, ts, scan.Ns, scan.Cs, ctx.mX, n, stop, st, P);
    EcsNext(us, ts, scan.Ns, scan.Cs, ctx.mX, n, stop, st, P, R);
    st', P' := m.st, m.rest;
  }

  /** read_ecs's loop from MCU n0: MCUs until read_macroblock fails, n counting those read
      (context->mblocks++); the scan then stands where R says. Each pass of the loop is one
      ReadEcsStep followed by the passes from the next MCU on. */
  method ReadEcsLoop(bits: Bits, s: InStream, ctx: Context, scan: Scan, n0: nat, ghost us: seq<Unit>,
                     ghost ts: seq<seq<CodeTable>>, ghost stop: Status, ghost st0: Coeffs,
                     ghost P0: seq<Bit>, ghost R: Scanned)
    returns (err: Status, n: nat)
    requires Separate(ctx, bits, s, scan) && EcsAt(bits, s, ctx, scan, us, ts, stop, n0, st0, P0, R)
    modifies bits, s, IntBuffers(ctx), scan`lastBlock
    ensures err != Success && EcsOver(bits, s, ctx, scan, us, ts, n, R, err)
    decreases |P0|
  {
    ghost var st, P;
    err, st, P := ReadEcsStep(bits, s, ctx, scan, n0, us, ts, stop, st0, P0, R);
    if err != Success {
      return err, n0;
    }
    err, n := ReadEcsLoop(bits, s, ctx, scan, n0 + 1, us, ts, stop, st, P, R);
  }

  /** read_ecs's end: the MCU count lands in m_blocks, which changes nothing else the decoder
      keeps, and FailureNoMoreData becomes success; left is what the bit buffer still holds. */
  method FinishEcs(bits: Bits, s: InStream, ctx: Context, scan: Scan, ghost us: seq<Unit>,
                   ghost ts: seq<seq<CodeTable>>, n: nat, ghost R: Scanned, err0: Status)
    returns (err: Status, ghost left: seq<Bit>)
    requires EcsOver(bits, s, ctx, scan, us, ts, n, R, err0)
    modifies ctx`mblocks
    ensures Decoding(ctx) && ScanIds(scan) && s !in ctx.bufferSlot && scan !in ctx.bufferSlot
    ensures err == R.status && ctx.mblocks == R.mcus
            && BufsUpTo(ctx, 256) == R.st.bufs && scan.lastBlock == R.st.last
            && |left| <= 8 && R.rest == left + BytesBits(EntropyCoded(Remaining(s)).bytes)
  {
    forall j, i | 0 <= j < 2 && 0 <= i < 4
      ensures ctx !in TableSet(ctx, j, i)
    {
      assert ctx.TableSlotted(j, i);
    }
    ctx.mblocks := n;
    left := ByteBits(bits.byte)[..bits.count];
    err := if err0 == FailureNoMoreData then Success else err0;
  }

  /** The coefficients a scan starts from: the buffers as they are, and no last block. */
  ghost function ScanStart(ctx: Context): (st: Coeffs)
    requires ctx.Valid()
    reads ctx, ctx.component, IntBuffers(ctx)
    ensures Sized(UnitsOf(ctx), st)
  {
    var st := Coeffs(BufsUpTo(ctx, 256), NoLastBlocks);
    assert Sized(UnitsOf(ctx), st) by {
      forall c | 0 <= c < 256
        ensures |st.bufs[c]| == 64 * (UnitsOf(ctx)[c].g.bX * UnitsOf(ctx)[c].g.bY)
      {
        assert ctx.ComponentSized(c);
      }
    }
    st
  }

  /** What read_ecs comes to on the scan from MCU m_blocks on, by ReadEcsF on the entropy-coded
      bytes ahead in the stream. */
  ghost function EcsSpec(s: InStream, ctx: Context, scan: Scan): Scanned
    requires Decoding(ctx) && ScanIds(scan)
    reads s, ctx, ctx.component, ctx.slot.Keys, IntBuffers(ctx), scan
  {
    DecodingTabled(ctx);
    ReadEcsF(UnitsOf(ctx), TablesOf(ctx), scan.Ns, scan.Cs, ctx.mX, ctx.mblocks, EcsStop(s).0, ScanStart(ctx),
             BytesBits(EntropyCoded(Remaining(s)).bytes))
  }

  /** EcsSpec is the rest of the scan from the start: from MCU m_blocks, with no last block, on
      the entropy-coded bits ahead in the stream. */
  lemma {:induction false} EcsSpecLeft(s: InStream, ctx: Context, scan: Scan, us: seq<Unit>,
                                       ts: seq<seq<CodeTable>>)
    requires Decoding(ctx) && ScanIds(scan) && us == UnitsOf(ctx) && ts == TablesOf(ctx)
    ensures EcsLeft(us, ts, scan.Ns, scan.Cs, ctx.mX, ctx.mblocks, EcsStop(s).0, ScanStart(ctx),
                    BytesBits(EntropyCoded(Remaining(s)).bytes), EcsSpec(s, ctx, scan))
  {
    DecodingTabled(ctx);
  }

  /** read_ecs's `last_block[i] = NULL` for every id; nothing else the decoder keeps changes. */
  method ResetLastBlocks(ctx: Context, scan: Scan)
    requires Decoding(ctx) && scan !in ctx.slot && scan !in ctx.bufferSlot
    modifies scan`lastBlock
    ensures scan.lastBlock == NoLastBlocks
    ensures Decoding(ctx) && UnitsOf(ctx) == old(UnitsOf(ctx)) && TablesOf(ctx) == old(TablesOf(ctx))
    ensures ScanStart(ctx) == old(ScanStart(ctx))
  {
    scan.lastBlock := NoLastBlocks;
    ContextKept(ctx);
  }

  /** read_ecs's start: a fresh, empty bit buffer and every last block NULL; the loop stands
      before MCU m_blocks with the rest of the scan coming to EcsSpec. */
  method StartEcs(s: InStream, ctx: Context, scan: Scan, ghost us: seq<Unit>, ghost ts: seq<seq<CodeTable>>)
    returns (bits: Bits, ghost st: Coeffs, ghost P: seq<Bit>, ghost R: Scanned)
    requires Decoding(ctx) && ScanIds(scan) && us == UnitsOf(ctx) && ts == TablesOf(ctx)
    requires s !in ctx.slot && scan !in ctx.slot && s !in ctx.bufferSlot && scan !in ctx.bufferSlot
    modifies scan`lastBlock
    ensures fresh(bits) && Separate(ctx, bits, s, scan) && R == old(EcsSpec(s, ctx, scan))
    ensures EcsAt(bits, s, ctx, scan, us, ts, EcsStop(s).0, ctx.mblocks, st, P, R)
  {
    EcsSpecLeft(s, ctx, scan, us, ts);
    R, st, P := EcsSpec(s, ctx, scan), ScanStart(ctx), BytesBits(EntropyCoded(Remaining(s)).bytes);
    ResetLastBlocks(ctx, scan);
    bits := new Bits();
  }

  /** read_ecs: a fresh bit buffer, every last block NULL, then MCUs from m_blocks on until
      read_macroblock fails; FailureNoMoreData ends the scan with success. The scan comes to
      EcsSpec: its status, the MCU count, the coefficients; left is what the discarded bit buffer
      still held ahead of the bytes left in the stream. */
  method ReadEcs(s: InStream, ctx: Context, scan: Scan, ghost us: seq<Unit>, ghost ts: seq<seq<CodeTable>>)
    returns (err: Status, ghost left: seq<Bit>)
    requires Decoding(ctx) && ScanIds(scan) && us == UnitsOf(ctx) && ts == TablesOf(ctx)
    requires s !in ctx.slot && scan !in ctx.slot && s !in ctx.bufferSlot && scan !in ctx.bufferSlot
    modifies s, ctx`mblocks, IntBuffers(ctx), scan`lastBlock
    ensures Decoding(ctx) && ScanIds(scan) && s !in ctx.bufferSlot && scan !in ctx.bufferSlot
    ensures var r := old(EcsSpec(s, ctx, scan));
            && err == r.status && ctx.mblocks == r.mcus
            && BufsUpTo(ctx, 256) == r.st.bufs && scan.lastBlock == r.st.last
            && |left| <= 8 && r.rest == left + BytesBits(EntropyCoded(Remaining(s)).bytes)
  {
    var bits, st, P, R := StartEcs(s, ctx, scan, us, ts);
    var n;
    err, n := ReadEcsLoop(bits, s, ctx, scan, ctx.mblocks, us, ts, EcsStop(s).0, st, P, R);
    err, left := FinishEcs(bits, s, ctx, scan, us, ts, n, R, err);
  }

  /* ---------------------------------------------------------------------------------------- */
  /* DRI and COM                                                                              */
  /* ---------------------------------------------------------------------------------------- */

  /** parse_restart_interval: the restart interval Ri, a word; FailureFileIo when it is cut
      short. */
  method ParseRestartInterval(s: InStream, ctx: Context) returns (err: Status)
    requires ctx.Valid()
    modifies s, ctx`Ri
    ensures ctx.Valid()
    ensures var d := old(Remaining(s));
            if |d| >= 2 then err == Success && ctx.Ri == BytesWord(d[0], d[1]) && s.pos == old(s.pos) + 2
            else err == FailureFileIo && ctx.Ri == old(ctx.Ri)
  {
    var ri;
    err, ri := ReadWord(s);
    if err != Success {
      return;
    }
    ctx.Ri := ri;
  }

  /** What parse_comment reads: a comment of len - 2 bytes, len counting its own two bytes; a
      length below 2 is unsupported and bytes running out is FailureFileIo. */
  function CommentF(d: seq<byte>, len: int): (r: Parse<seq<byte>>)
    ensures r.Parsed? ==> 2 <= len && r.used == len - 2 <= |d| && r.value == d[..len - 2]
    ensures r.Failed? ==> r.status == (if len < 2 then FailureFileUnsupported else FailureFileIo)
  {
    if len < 2 then Failed(FailureFileUnsupported)
    else if |d| < len - 2 then Failed(FailureFileIo)
    else Parsed(d[..len - 2], len - 2)
  }

  /** parse_comment: the comment is read and printed; the printing, and the allocation of its
      buffer, are not modelled. fread consumes what is left when the comment is cut short. */
  method ParseComment(s: InStream, len: int) returns (err: Status)
    requires 0 <= len < 0x1_0000
    modifies s
    ensures var r := CommentF(old(Remaining(s)), len);
            err == StatusOf(r) && (r.Parsed? ==> s.pos == old(s.pos) + r.used)
  {
    if len < 2 {
      return FailureFileUnsupported;
    }
    var l := len - 2;
    if l == 0 || s.pos + l <= |s.data| {
      s.pos := s.pos + l;
      err := Success;
    } else {
      if s.pos < |s.data| {
        s.pos := |s.data|;
      }
      err := FailureFileIo;
    }
  }
}
