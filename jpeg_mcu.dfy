/// The blocks of one scan as read_macroblock and read_ecs (Decoders/JPEG/decoder.c) and
/// write_macroblock, write_macroblock_dry, write_ecs and write_ecs_dry
/// (Decoders/JPEG/encoder.c) code them, stated on values: each component's coefficients, the
/// block coded last per component (the DC predictor of section F.1.2.1 of ITU-T T.81), and the
/// bits of the entropy-coded segment. The round trip: reading the bits written for a run of
/// blocks gives the coefficients back.
module JpegMcu {
  import opened Arith
  import opened JpegCommon
  import opened JpegIo
  import opened JpegHuffman
  import opened JpegCoeffs
  import opened JpegCoeffsRead
  import opened JpegScan

  /** What a scan uses of a component: its geometry and its DC and AC table selectors. */
  datatype Unit = Unit(g: Geometry, td: int, ta: int)

  /** Each component's coefficients, 64 per block in natural order, and for each component the
      block coded last in the interval (last_block, as an index into the buffer). */
  datatype Coeffs = Coeffs(bufs: seq<seq<int>>, last: seq<Option<nat>>)

  /** 256 units whose selectors each pick one of four tables. */
  predicate Selected(us: seq<Unit>) {
    |us| == 256 && forall c | 0 <= c < 256 :: 0 <= us[c].td < 4 && 0 <= us[c].ta < 4
  }

  /** Selectors into the [2][4] code tables, each usable. */
  predicate Tabled(us: seq<Unit>, ts: seq<seq<CodeTable>>) {
    && Selected(us) && |ts| == 2
    && (forall j | 0 <= j < 2 :: |ts[j]| == 4)
    && (forall j, i | 0 <= j < 2 && 0 <= i < 4 :: Coded(ts[j][i]))
  }

  /** Each buffer holds 64 coefficients per block of its component's grid; each last block lies
      in the grid. */
  predicate Sized(us: seq<Unit>, st: Coeffs) {
    && |us| == 256 && |st.bufs| == 256 && |st.last| == 256
    && forall c | 0 <= c < 256 ::
         && |st.bufs[c]| == 64 * (us[c].g.bX * us[c].g.bY)
         && (st.last[c].Some? ==> st.last[c].value < us[c].g.bX * us[c].g.bY)
  }

  /** Every coefficient is an int32_t. */
  predicate Int32s(st: Coeffs) {
    forall c, p | 0 <= c < |st.bufs| && 0 <= p < |st.bufs[c]| :: Int32(st.bufs[c][p])
  }

  function Geos(us: seq<Unit>): (geo: seq<Geometry>)
    ensures |geo| == |us| && forall c | 0 <= c < |us| :: geo[c] == us[c].g
  {
    seq(|us|, c requires 0 <= c < |us| => us[c].g)
  }

  function DcTable(us: seq<Unit>, ts: seq<seq<CodeTable>>, c: int): (t: CodeTable)
    requires Tabled(us, ts) && 0 <= c < 256
    ensures Coded(t)
  {
    ts[0][us[c].td]
  }

  function AcTable(us: seq<Unit>, ts: seq<seq<CodeTable>>, c: int): (t: CodeTable)
    requires Tabled(us, ts) && 0 <= c < 256
    ensures Coded(t)
  {
    ts[1][us[c].ta]
  }

  /** Block b of a buffer. */
  function BlockOf(buf: seq<int>, b: nat): (blk: seq<int>)
    requires 64 * b + 64 <= |buf|
    ensures |blk| == 64 && forall q | 0 <= q < 64 :: blk[q] == buf[64 * b + q]
  {
    buf[64 * b..64 * b + 64]
  }

  /** A buffer with block b replaced. */
  function Splice(buf: seq<int>, b: nat, blk: seq<int>): (r: seq<int>)
    requires 64 * b + 64 <= |buf| && |blk| == 64
    ensures |r| == |buf|
    ensures forall p | 0 <= p < |buf| :: r[p] == if 64 * b <= p < 64 * b + 64 then blk[p - 64 * b] else buf[p]
  {
    buf[..64 * b] + blk + buf[64 * b + 64..]
  }

  /** The DC predictor: the DC coefficient of the block coded last, 0 with none. */
  function Predictor(buf: seq<int>, last: Option<nat>): int
    requires last.Some? ==> 64 * last.value < |buf|
  {
    if last.Some? then buf[64 * last.value] else 0
  }

  /** Block b of component c with the predictor subtracted from its DC coefficient. */
  function Differenced(us: seq<Unit>, st: Coeffs, c: int, b: nat): (r: Coeffs)
    requires Sized(us, st) && 0 <= c < 256 && b < us[c].g.bX * us[c].g.bY
    ensures Sized(us, r) && r.last == st.last
  {
    var buf := st.bufs[c];
    st.(bufs := st.bufs[c := buf[64 * b := buf[64 * b] - Predictor(buf, st.last[c])]])
  }

  /** Block b of component c with the predictor added to its DC coefficient, and b the block
      coded last. */
  function Undifferenced(us: seq<Unit>, st: Coeffs, c: int, b: nat): (r: Coeffs)
    requires Sized(us, st) && 0 <= c < 256 && b < us[c].g.bX * us[c].g.bY
    ensures Sized(us, r)
  {
    var buf := st.bufs[c];
    Coeffs(st.bufs[c := buf[64 * b := buf[64 * b] + Predictor(buf, st.last[c])]], st.last[c := Some(b)])
  }

  /* ---------------------------------------------------------------------------------------- */
  /* Reading                                                                                  */
  /* ---------------------------------------------------------------------------------------- */

  /** What reading some blocks comes to: the status, the coefficients, the bits left, and the
      block a failure may have left partly written. */
  datatype Read = Read(status: Status, st: Coeffs, rest: seq<Bit>, spoilt: Option<(int, nat)>)

  /** read_macroblock on one visit: read_block on the visited block, which is then stored with
      the predictor added and becomes the last block; past the end of the grid read_block gets
      no block, reads the DC coefficient and reports FailureNoMoreData. A run of zeros past
      position 63 is FailureNoMoreData; bits running out give the stream's stop status. */
  function ReadVisitF(us: seq<Unit>, ts: seq<seq<CodeTable>>, v: Visit, stop: Status, st: Coeffs,
                      P: seq<Bit>): (r: Read)
    requires Tabled(us, ts) && Sized(us, st) && 0 <= v.c < 256 && stop != Success
    ensures Sized(us, r.st) && |r.rest| <= |P|
    ensures r.status == Success || r.status == FailureNoMoreData || r.status == stop
    ensures r.status == Success ==> |r.rest| < |P| && r.spoilt.None?
    ensures r.status != Success ==> r.st == st
  {
    var c := v.c;
    match Slot(us[c].g, v)
    case None =>
      (match ReadDcF(DcTable(us, ts, c), P)
       case None => Read(stop, st, [], None)
       case Some((_, R)) => Read(FailureNoMoreData, st, R, None))
    case Some(b) =>
      match ReadBlockF(DcTable(us, ts, c), AcTable(us, ts, c), P)
      case Stopped => Read(stop, st, [], Some((c, b)))
      case Overrun(R) => Read(FailureNoMoreData, st, R, Some((c, b)))
      case Got(z, R) =>
        Read(Success, Undifferenced(us, st.(bufs := st.bufs[c := Splice(st.bufs[c], b, Natural(z))]), c, b),
             R, None)
  }

  /** The visits read one after the other, up to the first failure. */
  function ReadVisitsF(us: seq<Unit>, ts: seq<seq<CodeTable>>, vs: seq<Visit>, stop: Status, st: Coeffs,
                       P: seq<Bit>): (r: Read)
    requires Tabled(us, ts) && Sized(us, st) && Visiting(vs) && stop != Success
    ensures Sized(us, r.st) && |r.rest| <= |P|
    ensures r.status == Success || r.status == FailureNoMoreData || r.status == stop
    ensures r.status == Success ==> r.spoilt.None? && (|vs| > 0 ==> |r.rest| < |P|)
    decreases |vs|, 1
  {
    if vs == [] then Read(Success, st, P, None) else ReadThenLast(us, ts, vs, stop, st, P)
  }

  /** Nonempty visits read one after the other: all but the last, then, if they read, the last
      from what they leave. */
  function ReadThenLast(us: seq<Unit>, ts: seq<seq<CodeTable>>, vs: seq<Visit>, stop: Status, st: Coeffs,
                        P: seq<Bit>): (r: Read)
    requires Tabled(us, ts) && Sized(us, st) && Visiting(vs) && stop != Success && vs != []
    ensures Sized(us, r.st) && |r.rest| <= |P|
    ensures r.status == Success || r.status == FailureNoMoreData || r.status == stop
    ensures r.status == Success ==> r.spoilt.None? && |r.rest| < |P|
    decreases |vs|, 0
  {
    var r := ReadVisitsF(us, ts, vs[..|vs| - 1], stop, st, P);
    if r.status != Success then r
    else ReadVisitF(us, ts, vs[|vs| - 1], stop, r.st, r.rest)
  }

  /** read_macroblock on MCU seq_no: FailureNoMoreData when the scan has no component or the MCU
      no block, FailureFileUnsupported for an interleaved scan without an MCU grid, otherwise
      the MCU's visits in order. */
  function ReadMcuF(us: seq<Unit>, ts: seq<seq<CodeTable>>, ns: nat, cs: seq<int>, mX: nat, seqNo: nat,
                    stop: Status, st: Coeffs, P: seq<Bit>): (r: Read)
    requires Tabled(us, ts) && Sized(us, st) && ns <= |cs| && Ids(cs) && stop != Success
    ensures Sized(us, r.st) && |r.rest| <= |P|
    ensures r.status == Success || r.status == FailureNoMoreData || r.status == FailureFileUnsupported
            || r.status == stop
    ensures r.status == Success ==> r.spoilt.None? && |r.rest| < |P|
  {
    match ReadPlan(ns, cs, Geos(us), mX, seqNo)
    case NoComponents => Read(FailureNoMoreData, st, P, None)
    case NoGrid => Read(FailureFileUnsupported, st, P, None)
    case Visits(vs) =>
      if vs == [] then Read(FailureNoMoreData, st, P, None) else ReadVisitsF(us, ts, vs, stop, st, P)
  }

  /** What reading a scan comes to: a Read, and the number of MCUs read (mblocks). */
  datatype Scanned = Scanned(status: Status, st: Coeffs, rest: seq<Bit>, spoilt: Option<(int, nat)>, mcus: nat)

  /** read_ecs's loop from MCU seq_no on: MCUs are read until one fails; FailureNoMoreData ends
      the scan with success, any other failure is returned. */
  function ReadEcsF(us: seq<Unit>, ts: seq<seq<CodeTable>>, ns: nat, cs: seq<int>, mX: nat, seqNo: nat,
                    stop: Status, st: Coeffs, P: seq<Bit>): (r: Scanned)
    requires Tabled(us, ts) && Sized(us, st) && ns <= |cs| && Ids(cs) && stop != Success
    ensures Sized(us, r.st) && r.mcus >= seqNo
    ensures r.status == Success || r.status == FailureFileUnsupported || r.status == stop
    decreases |P|
  {
    var m := ReadMcuF(us, ts, ns, cs, mX, seqNo, stop, st, P);
    if m.status == Success then ReadEcsF(us, ts, ns, cs, mX, seqNo + 1, stop, m.st, m.rest)
    else if m.status == FailureNoMoreData then Scanned(Success, m.st, m.rest, m.spoilt, seqNo)
    else Scanned(m.status, m.st, m.rest, m.spoilt, seqNo)
  }

  /** read_macroblock as decoder.c has it: an MCU without blocks (a scanned component with H or
      V of 0) reads nothing and reports RET_SUCCESS. */
  function ReadMcuAsWritten(us: seq<Unit>, ts: seq<seq<CodeTable>>, ns: nat, cs: seq<int>, mX: nat, seqNo: nat,
                            stop: Status, st: Coeffs, P: seq<Bit>): Read
    requires Tabled(us, ts) && Sized(us, st) && ns <= |cs| && Ids(cs) && stop != Success
  {
    match ReadPlan(ns, cs, Geos(us), mX, seqNo)
    case NoComponents => Read(FailureNoMoreData, st, P, None)
    case NoGrid => Read(FailureFileUnsupported, st, P, None)
    case Visits(vs) => ReadVisitsF(us, ts, vs, stop, st, P)
  }

  /** read_ecs's loop over ReadMcuAsWritten, for at most fuel MCUs: None while it is still
      reading. */
  function ReadEcsAsWritten(us: seq<Unit>, ts: seq<seq<CodeTable>>, ns: nat, cs: seq<int>, mX: nat, seqNo: nat,
                            stop: Status, st: Coeffs, P: seq<Bit>, fuel: nat): Option<Scanned>
    requires Tabled(us, ts) && Sized(us, st) && ns <= |cs| && Ids(cs) && stop != Success
    decreases fuel
  {
    if fuel == 0 then None
    else
      var m := ReadMcuAsWritten(us, ts, ns, cs, mX, seqNo, stop, st, P);
      if m.status == Success then ReadEcsAsWritten(us, ts, ns, cs, mX, seqNo + 1, stop, m.st, m.rest, fuel - 1)
      else if m.status == FailureNoMoreData then Some(Scanned(Success, m.st, m.rest, m.spoilt, seqNo))
      else Some(Scanned(m.status, m.st, m.rest, m.spoilt, seqNo))
  }

  /** A scan of one component whose MCUs have no blocks (H V = 0): read_ecs as written never
      stops, however many turns it is given, and reads nothing. */
  lemma {:induction false} EcsAsWrittenNeverEnds(us: seq<Unit>, ts: seq<seq<CodeTable>>, cs: seq<int>, mX: nat,
                                                 seqNo: nat, stop: Status, st: Coeffs, P: seq<Bit>, fuel: nat)
    requires Tabled(us, ts) && Sized(us, st) && 1 <= |cs| && Ids(cs) && stop != Success
    requires us[cs[0]].g.H * us[cs[0]].g.V == 0
    ensures ReadEcsAsWritten(us, ts, 1, cs, mX, seqNo, stop, st, P, fuel) == None
    decreases fuel
  {
    if fuel > 0 {
      var m := ReadMcuAsWritten(us, ts, 1, cs, mX, seqNo, stop, st, P);
      assert RunVisits(cs[0], Geos(us)[cs[0]], seqNo) == [];
      assert m == Read(Success, st, P, None);
      EcsAsWrittenNeverEnds(us, ts, cs, mX, seqNo + 1, stop, st, P, fuel - 1);
    }
  }

  /** The same scan as ReadEcsF has it: read_ecs ends at once, with success, reading nothing. */
  lemma {:induction false} EcsWithoutBlocksEnds(us: seq<Unit>, ts: seq<seq<CodeTable>>, cs: seq<int>, mX: nat,
                                               seqNo: nat, stop: Status, st: Coeffs, P: seq<Bit>)
    requires Tabled(us, ts) && Sized(us, st) && 1 <= |cs| && Ids(cs) && stop != Success
    requires us[cs[0]].g.H * us[cs[0]].g.V == 0
    ensures ReadEcsF(us, ts, 1, cs, mX, seqNo, stop, st, P) == Scanned(Success, st, P, None, seqNo)
  {
    assert RunVisits(cs[0], Geos(us)[cs[0]], seqNo) == [];
  }

  /** On an MCU with blocks, and on a scan without components or without a grid, the corrected
      read_macroblock is the source's. */
  lemma {:induction false} McuAsWrittenAgrees(us: seq<Unit>, ts: seq<seq<CodeTable>>, ns: nat, cs: seq<int>,
                                              mX: nat, seqNo: nat, stop: Status, st: Coeffs, P: seq<Bit>)
    requires Tabled(us, ts) && Sized(us, st) && ns <= |cs| && Ids(cs) && stop != Success
    requires var p := ReadPlan(ns, cs, Geos(us), mX, seqNo); !(p.Visits? && p.vs == [])
    ensures ReadMcuAsWritten(us, ts, ns, cs, mX, seqNo, stop, st, P) == ReadMcuF(us, ts, ns, cs, mX, seqNo, stop, st, P)
  {
  }

  /* ---------------------------------------------------------------------------------------- */
  /* Writing                                                                                  */
  /* ---------------------------------------------------------------------------------------- */

  /** The visit names a block inside its component's grid, as write_macroblock asserts. */
  predicate Inside(us: seq<Unit>, v: Visit) {
    |us| == 256 && 0 <= v.c < 256 && Slot(us[v.c].g, v).Some?
  }

  /** Every visit names a block inside its component's grid. */
  predicate InGrid(us: seq<Unit>, vs: seq<Visit>) {
    forall i | 0 <= i < |vs| :: Inside(us, vs[i])
  }

  /** What writing some blocks comes to: the status, the coefficients, and the bits sent. */
  datatype Write = Write(status: Status, st: Coeffs, bits: seq<Bit>)

  /** The DC difference write_macroblock codes for block b of component c. */
  function Difference(us: seq<Unit>, st: Coeffs, c: int, b: nat): int
    requires Sized(us, st) && 0 <= c < 256 && b < us[c].g.bX * us[c].g.bY
  {
    Differenced(us, st, c, b).bufs[c][64 * b]
  }

  /** Block b of component c in zig-zag order with its DC difference, as write_block codes it. */
  function CodedBlock(us: seq<Unit>, st: Coeffs, c: int, b: nat): (z: seq<int>)
    requires Sized(us, st) && Int32s(st) && 0 <= c < 256 && b < us[c].g.bX * us[c].g.bY
    requires -2047 <= Difference(us, st, c, b) <= 2047
    ensures Block(z)
  {
    Zigzagged(BlockOf(Differenced(us, st, c, b).bufs[c], b))
  }

  /** write_macroblock on one visit: the predictor is subtracted from the block's DC coefficient;
      a difference outside +-2047 is the failed assertion; write_block then sends the DC and AC
      symbols, and failing (a symbol the tables lack) leaves the difference in place; on success
      the predictor is added back and the block becomes the last one. */
  function WriteVisitF(us: seq<Unit>, ts: seq<seq<CodeTable>>, v: Visit, st: Coeffs): (w: Write)
    requires Tabled(us, ts) && Sized(us, st) && Int32s(st) && Inside(us, v)
    ensures Sized(us, w.st)
    ensures w.status == Success || w.status == FailureLogicError || w.status == NotFound
    ensures w.status != Success ==> w.bits == []
    ensures w.status == Success ==> Int32s(w.st)
  {
    var c, b := v.c, Slot(us[v.c].g, v).value;
    var st1 := Differenced(us, st, c, b);
    var d := Difference(us, st, c, b);
    if d < -2047 || 2047 < d then Write(FailureLogicError, st1, [])
    else
      var z := CodedBlock(us, st, c, b);
      if !Present(DcTable(us, ts, c), [DcSym(z[0])]) || !Present(AcTable(us, ts, c), BlockAcSyms(z)) then
        Write(NotFound, st1, [])
      else
        Write(Success, Undifferenced(us, st1, c, b),
              SymsBits(DcTable(us, ts, c), [DcSym(z[0])]) + SymsBits(AcTable(us, ts, c), BlockAcSyms(z)))
  }

  /** A visit written leaves every coefficient as it was and makes its block the last one, except
      that a block that is its own predictor is left with a DC coefficient of 0. */
  lemma {:induction false} WriteVisitKeeps(us: seq<Unit>, ts: seq<seq<CodeTable>>, v: Visit, st: Coeffs)
    requires Tabled(us, ts) && Sized(us, st) && Int32s(st) && Inside(us, v)
    requires WriteVisitF(us, ts, v, st).status == Success
    ensures var c, b := v.c, Slot(us[v.c].g, v).value;
            var w := WriteVisitF(us, ts, v, st);
            && w.st.last == st.last[c := Some(b)]
            && w.st.bufs == if st.last[c] == Some(b) then st.bufs[c := st.bufs[c][64 * b := 0]] else st.bufs
  {
    var c, b := v.c, Slot(us[v.c].g, v).value;
    assert WriteVisitF(us, ts, v, st).st == Undifferenced(us, Differenced(us, st, c, b), c, b);
    UndoDifference(us, st, c, b);
  }

  /** Adding the predictor back undoes subtracting it, except for a block that is its own
      predictor, whose DC coefficient becomes 0. */
  lemma {:induction false} UndoDifference(us: seq<Unit>, st: Coeffs, c: int, b: nat)
    requires Sized(us, st) && 0 <= c < 256 && b < us[c].g.bX * us[c].g.bY
    ensures var r := Undifferenced(us, Differenced(us, st, c, b), c, b);
            && r.last == st.last[c := Some(b)]
            && r.bufs == if st.last[c] == Some(b) then st.bufs[c := st.bufs[c][64 * b := 0]] else st.bufs
  {
    var buf := st.bufs[c];
    var buf1 := buf[64 * b := buf[64 * b] - Predictor(buf, st.last[c])];
    if st.last[c] != Some(b) {
      assert Predictor(buf1, st.last[c]) == Predictor(buf, st.last[c]);
      assert buf1[64 * b := buf1[64 * b] + Predictor(buf1, st.last[c])] == buf;
      assert st.bufs[c := buf] == st.bufs;
    } else {
      assert buf1[64 * b] == 0;
      assert buf1[64 * b := buf1[64 * b] + Predictor(buf1, st.last[c])] == buf[64 * b := 0];
    }
  }

  /** The visits written one after the other, up to the first failure. */
  function WriteVisitsF(us: seq<Unit>, ts: seq<seq<CodeTable>>, vs: seq<Visit>, st: Coeffs): (w: Write)
    requires Tabled(us, ts) && Sized(us, st) && Int32s(st) && InGrid(us, vs)
    ensures Sized(us, w.st)
    ensures w.status == Success || w.status == FailureLogicError || w.status == NotFound
    ensures w.status == Success ==> Int32s(w.st)
    decreases |vs|, 1
  {
    if vs == [] then Write(Success, st, []) else WriteThenLast(us, ts, vs, st)
  }

  /** Nonempty visits written one after the other: all but the last, then, if they are
      written, the last. */
  function WriteThenLast(us: seq<Unit>, ts: seq<seq<CodeTable>>, vs: seq<Visit>, st: Coeffs): (w: Write)
    requires Tabled(us, ts) && Sized(us, st) && Int32s(st) && InGrid(us, vs) && vs != []
    ensures Sized(us, w.st)
    ensures w.status == Success || w.status == FailureLogicError || w.status == NotFound
    ensures w.status == Success ==> Int32s(w.st)
    decreases |vs|, 0
  {
    var w := WriteVisitsF(us, ts, vs[..|vs| - 1], st);
    if w.status != Success then w
    else
      var x := WriteVisitF(us, ts, vs[|vs| - 1], w.st);
      Write(x.status, x.st, w.bits + x.bits)
  }

  /** An interleaved scan over the components cs of an m_x by m_y MCU grid, each component's
      grid sized to it. */
  predicate Scannable(us: seq<Unit>, cs: seq<int>, mX: nat, mY: nat) {
    |us| == 256 && Ids(cs) && forall j | 0 <= j < |cs| :: Fits(us[cs[j]].g, mX, mY)
  }

  /** Every block of every MCU of the grid lies in its component's grid: the assertion
      block_x < b_x of write_macroblock holds, and so does the bound on block_y. */
  lemma {:induction false} McuInGrid(us: seq<Unit>, cs: seq<int>, mX: nat, mY: nat, s: nat)
    requires Scannable(us, cs, mX, mY) && s < mX * mY
    ensures mX > 0 && InGrid(us, McuAt(cs, Geos(us), mX, s))
    decreases |cs|
  {
    assert mX > 0;
    if cs != [] {
      var j := |cs| - 1;
      var c := cs[j];
      McuInGrid(us, cs[..j], mX, mY, s);
      var u := UnitVisits(c, Geos(us)[c], s % mX, s / mX);
      forall k | 0 <= k < |u|
        ensures Slot(us[c].g, u[k]).Some?
      {
        UnitInGrid(c, us[c].g, mX, mY, s, k);
      }
    }
  }

  /** write_macroblock on MCU seq_no: the MCU at column seq_no mod m_x, row seq_no div m_x. */
  function WriteMcuF(us: seq<Unit>, ts: seq<seq<CodeTable>>, cs: seq<int>, mX: nat, mY: nat, seqNo: nat,
                     st: Coeffs): (w: Write)
    requires Tabled(us, ts) && Sized(us, st) && Int32s(st) && Scannable(us, cs, mX, mY) && seqNo < mX * mY
    ensures Sized(us, w.st)
    ensures w.status == Success || w.status == FailureLogicError || w.status == NotFound
    ensures w.status == Success ==> Int32s(w.st) && (AcFit(st) ==> AcFit(w.st))
  {
    McuInGrid(us, cs, mX, mY, seqNo);
    var vs := McuAt(cs, Geos(us), mX, seqNo);
    var w := WriteVisitsF(us, ts, vs, st);
    assert w.status == Success && AcFit(st) ==> AcFit(w.st) by {
      if w.status == Success && AcFit(st) {
        WriteVisitsAcFit(us, ts, vs, st);
      }
    }
    w
  }

  /** write_ecs's loop over the first n MCUs: each written in turn, up to the first failure. */
  function WriteEcsF(us: seq<Unit>, ts: seq<seq<CodeTable>>, cs: seq<int>, mX: nat, mY: nat, n: nat,
                     st: Coeffs): (w: Write)
    requires Tabled(us, ts) && Sized(us, st) && Int32s(st) && Scannable(us, cs, mX, mY) && n <= mX * mY
    ensures Sized(us, w.st)
    ensures w.status == Success || w.status == FailureLogicError || w.status == NotFound
    ensures w.status == Success ==> Int32s(w.st) && (AcFit(st) ==> AcFit(w.st))
  {
    if n == 0 then Write(Success, st, [])
    else
      var w := WriteEcsF(us, ts, cs, mX, mY, n - 1, st);
      if w.status != Success then w
      else
        var m := WriteMcuF(us, ts, cs, mX, mY, n - 1, w.st);
        Write(m.status, m.st, w.bits + m.bits)
  }

  /* ---------------------------------------------------------------------------------------- */
  /* Counting                                                                                 */
  /* ---------------------------------------------------------------------------------------- */

  /** The [2][4] lists of 257 symbol counters (huffenc[j][i].freq). */
  predicate Counters(fs: seq<seq<seq<int>>>) {
    |fs| == 2 && forall j | 0 <= j < 2 :: |fs[j]| == 4 && forall i | 0 <= i < 4 :: |fs[j][i]| == 257
  }

  /** The counters of table i of class j once the symbols are counted. */
  function Count(fs: seq<seq<seq<int>>>, j: int, i: int, ss: seq<Sym>): (gs: seq<seq<seq<int>>>)
    requires Counters(fs) && 0 <= j < 2 && 0 <= i < 4 && Bytes(ss)
    ensures Counters(gs)
  {
    fs[j := fs[j][i := Tally(fs[j][i], ss)]]
  }

  /** The symbols write_block sends for a block are byte values, slots of the counters. */
  lemma {:induction false} SymsBytes(z: seq<int>)
    requires Block(z)
    ensures Bytes([DcSym(z[0])]) && Bytes(BlockAcSyms(z))
  {
    BitLengthSmall(z[0]);
    AcSymsValues(z, 1, 0);
  }

  /** What counting some blocks comes to: the status, the coefficients and the counters. */
  datatype Dry = Dry(status: Status, st: Coeffs, fs: seq<seq<seq<int>>>)

  /** write_macroblock_dry on one visit: as write_macroblock, with write_block_dry counting the
      symbols in the selected tables' counters instead of sending them; it cannot fail. */
  function DryVisitF(us: seq<Unit>, v: Visit, st: Coeffs, fs: seq<seq<seq<int>>>): (d: Dry)
    requires Selected(us) && Sized(us, st) && Int32s(st) && Counters(fs) && Inside(us, v)
    ensures Sized(us, d.st) && Counters(d.fs)
    ensures d.status == Success || d.status == FailureLogicError
    ensures d.status == Success ==> Int32s(d.st)
  {
    var c, b := v.c, Slot(us[v.c].g, v).value;
    var st1 := Differenced(us, st, c, b);
    var d := Difference(us, st, c, b);
    if d < -2047 || 2047 < d then Dry(FailureLogicError, st1, fs)
    else
      var z := CodedBlock(us, st, c, b);
      SymsBytes(z);
      Dry(Success, Undifferenced(us, st1, c, b),
          Count(Count(fs, 0, us[c].td, [DcSym(z[0])]), 1, us[c].ta, BlockAcSyms(z)))
  }

  /** The visits counted one after the other, up to the first failure. */
  function DryVisitsF(us: seq<Unit>, vs: seq<Visit>, st: Coeffs, fs: seq<seq<seq<int>>>): (d: Dry)
    requires Selected(us) && Sized(us, st) && Int32s(st) && Counters(fs) && InGrid(us, vs)
    ensures Sized(us, d.st) && Counters(d.fs)
    ensures d.status == Success || d.status == FailureLogicError
    ensures d.status == Success ==> Int32s(d.st)
    decreases |vs|
  {
    if vs == [] then Dry(Success, st, fs)
    else
      var d := DryVisitsF(us, vs[..|vs| - 1], st, fs);
      if d.status != Success then d
      else
        DryVisitF(us, vs[|vs| - 1], d.st, d.fs)
  }

  /** write_macroblock_dry on MCU seq_no. */
  function DryMcuF(us: seq<Unit>, cs: seq<int>, mX: nat, mY: nat, seqNo: nat, st: Coeffs,
                   fs: seq<seq<seq<int>>>): (d: Dry)
    requires Selected(us) && Sized(us, st) && Int32s(st) && Counters(fs)
    requires Scannable(us, cs, mX, mY) && seqNo < mX * mY
    ensures Sized(us, d.st) && Counters(d.fs)
    ensures d.status == Success || d.status == FailureLogicError
    ensures d.status == Success ==> Int32s(d.st)
  {
    McuInGrid(us, cs, mX, mY, seqNo);
    DryVisitsF(us, McuAt(cs, Geos(us), mX, seqNo), st, fs)
  }

  /** write_ecs_dry's loop over the first n MCUs. */
  function DryEcsF(us: seq<Unit>, cs: seq<int>, mX: nat, mY: nat, n: nat, st: Coeffs,
                   fs: seq<seq<seq<int>>>): (d: Dry)
    requires Selected(us) && Sized(us, st) && Int32s(st) && Counters(fs)
    requires Scannable(us, cs, mX, mY) && n <= mX * mY
    ensures Sized(us, d.st) && Counters(d.fs)
    ensures d.status == Success || d.status == FailureLogicError
    ensures d.status == Success ==> Int32s(d.st)
  {
    if n == 0 then Dry(Success, st, fs)
    else
      var d := DryEcsF(us, cs, mX, mY, n - 1, st, fs);
      if d.status != Success then d
      else DryMcuF(us, cs, mX, mY, n - 1, d.st, d.fs)
  }

  /* ---------------------------------------------------------------------------------------- */
  /* The dry run finds every symbol                                                           */
  /* ---------------------------------------------------------------------------------------- */

  /** Every counter of fs is at most the same counter of F. */
  predicate Dominated(fs: seq<seq<seq<int>>>, F: seq<seq<seq<int>>>)
    requires Counters(fs) && Counters(F)
  {
    forall j, i, v | 0 <= j < 2 && 0 <= i < 4 && 0 <= v < 257 :: fs[j][i][v] <= F[j][i][v]
  }

  predicate Nonneg(fs: seq<seq<seq<int>>>)
    requires Counters(fs)
  {
    forall j, i, v | 0 <= j < 2 && 0 <= i < 4 && 0 <= v < 257 :: 0 <= fs[j][i][v]
  }

  /** Every value below 256 counted in F has a code in the matching table, as adapting the
      tables to the counters (adapt_huffman_table, then conv_htable_to_hcode) makes it. */
  predicate Covers(ts: seq<seq<CodeTable>>, F: seq<seq<seq<int>>>)
    requires |ts| == 2 && (forall j | 0 <= j < 2 :: |ts[j]| == 4) && Counters(F)
  {
    forall j, i, v | 0 <= j < 2 && 0 <= i < 4 && 0 <= v < 256 && F[j][i][v] > 0 ::
      Shaped(ts[j][i]) && ValueIndex(ts[j][i], v).Some?
  }

  lemma {:induction false} DominatedTrans(a: seq<seq<seq<int>>>, b: seq<seq<seq<int>>>, c: seq<seq<seq<int>>>)
    requires Counters(a) && Counters(b) && Counters(c) && Dominated(a, b) && Dominated(b, c)
    ensures Dominated(a, c)
  {
  }

  /** A symbol of a list occurs in it. */
  lemma {:induction false} OccursAt(ss: seq<Sym>, k: nat)
    requires k < |ss|
    ensures Occurrences(ss, ss[k].value) >= 1
    decreases k
  {
    if k > 0 {
      assert ss[1..][k - 1] == ss[k];
      OccursAt(ss[1..], k - 1);
    }
  }

  /** Tallying never lowers a counter. */
  lemma {:induction false} TallyGrows(f: seq<int>, ss: seq<Sym>)
    requires |f| == 257 && Bytes(ss)
    ensures forall v | 0 <= v < 257 :: f[v] <= Tally(f, ss)[v]
  {
    forall v | 0 <= v < 257
      ensures f[v] <= Tally(f, ss)[v]
    {
      TallyOccurrences(f, ss, v);
    }
  }

  /** Symbols tallied from non-negative counters into counters that stay below G, where every
      value G counts has a code, all have a code. */
  lemma {:induction false} CountedPresent(t: CodeTable, f: seq<int>, G: seq<int>, ss: seq<Sym>)
    requires Shaped(t) && |f| == 257 && |G| == 257 && Bytes(ss)
    requires forall v | 0 <= v < 257 :: 0 <= f[v] && Tally(f, ss)[v] <= G[v]
    requires forall v | 0 <= v < 256 && G[v] > 0 :: ValueIndex(t, v).Some?
    ensures Present(t, ss)
  {
    forall k | 0 <= k < |ss|
      ensures ValueIndex(t, ss[k].value).Some?
    {
      OccursAt(ss, k);
      TallyOccurrences(f, ss, ss[k].value);
    }
  }

  /** Counting one visit never lowers a counter. */
  lemma {:induction false} DryVisitGrows(us: seq<Unit>, v: Visit, st: Coeffs, fs: seq<seq<seq<int>>>)
    requires Selected(us) && Sized(us, st) && Int32s(st) && Counters(fs) && Inside(us, v)
    ensures Dominated(fs, DryVisitF(us, v, st, fs).fs)
  {
    var d := DryVisitF(us, v, st, fs);
    var c, b := v.c, Slot(us[v.c].g, v).value;
    if d.status == Success {
      var z := CodedBlock(us, st, c, b);
      SymsBytes(z);
      var fs1 := Count(fs, 0, us[c].td, [DcSym(z[0])]);
      TallyGrows(fs[0][us[c].td], [DcSym(z[0])]);
      TallyGrows(fs1[1][us[c].ta], BlockAcSyms(z));
      assert Dominated(fs, fs1);
    }
  }

  /** Counting visits never lowers a counter. */
  lemma {:induction false} DryVisitsGrow(us: seq<Unit>, vs: seq<Visit>, st: Coeffs, fs: seq<seq<seq<int>>>)
    requires Selected(us) && Sized(us, st) && Int32s(st) && Counters(fs) && InGrid(us, vs)
    ensures Dominated(fs, DryVisitsF(us, vs, st, fs).fs)
    decreases |vs|
  {
    if vs != [] {
      var d := DryVisitsF(us, vs[..|vs| - 1], st, fs);
      DryVisitsGrow(us, vs[..|vs| - 1], st, fs);
      if d.status == Success {
        DryVisitGrows(us, vs[|vs| - 1], d.st, d.fs);
        DominatedTrans(fs, d.fs, DryVisitsF(us, vs, st, fs).fs);
      }
    }
  }

  /** One visit: when the tables hold a code for every value counted up to some F above the
      counters the visit leaves, write_macroblock sends the block and leaves the coefficients
      as the dry run does. */
  lemma {:induction false} DryThenWriteVisit(us: seq<Unit>, ts: seq<seq<CodeTable>>, v: Visit, st: Coeffs,
                                             fs: seq<seq<seq<int>>>, F: seq<seq<seq<int>>>)
    requires Tabled(us, ts) && Sized(us, st) && Int32s(st) && Inside(us, v)
    requires Counters(fs) && Counters(F) && Nonneg(fs) && Covers(ts, F)
    requires DryVisitF(us, v, st, fs).status == Success && Dominated(DryVisitF(us, v, st, fs).fs, F)
    ensures WriteVisitF(us, ts, v, st).status == Success
    ensures WriteVisitF(us, ts, v, st).st == DryVisitF(us, v, st, fs).st
  {
    var c, b := v.c, Slot(us[v.c].g, v).value;
    var td, ta := us[c].td, us[c].ta;
    var z := CodedBlock(us, st, c, b);
    SymsBytes(z);
    var dc, ac := [DcSym(z[0])], BlockAcSyms(z);
    var fs1 := Count(fs, 0, td, dc);
    var fs2 := Count(fs1, 1, ta, ac);
    assert fs2 == DryVisitF(us, v, st, fs).fs;
    assert fs2[0][td] == Tally(fs[0][td], dc);
    assert fs2[1][ta] == Tally(fs[1][ta], ac);
    CountedPresent(ts[0][td], fs[0][td], F[0][td], dc);
    CountedPresent(ts[1][ta], fs[1][ta], F[1][ta], ac);
  }

  /** A run of visits: with the tables adapted to counters at least those the dry run reaches,
      writing the same visits from the same coefficients succeeds and ends where the dry run
      ends. */
  lemma {:induction false} DryThenWriteVisits(us: seq<Unit>, ts: seq<seq<CodeTable>>, vs: seq<Visit>, st: Coeffs,
                                              fs: seq<seq<seq<int>>>, F: seq<seq<seq<int>>>)
    requires Tabled(us, ts) && Sized(us, st) && Int32s(st) && InGrid(us, vs)
    requires Counters(fs) && Counters(F) && Nonneg(fs) && Covers(ts, F)
    requires DryVisitsF(us, vs, st, fs).status == Success && Dominated(DryVisitsF(us, vs, st, fs).fs, F)
    ensures WriteVisitsF(us, ts, vs, st).status == Success
    ensures WriteVisitsF(us, ts, vs, st).st == DryVisitsF(us, vs, st, fs).st
    decreases |vs|
  {
    if vs != [] {
      var init, v := vs[..|vs| - 1], vs[|vs| - 1];
      var d0 := DryVisitsF(us, init, st, fs);
      DryVisitGrows(us, v, d0.st, d0.fs);
      DominatedTrans(d0.fs, DryVisitsF(us, vs, st, fs).fs, F);
      DryThenWriteVisits(us, ts, init, st, fs, F);
      DryVisitsGrow(us, init, st, fs);
      DryThenWriteVisit(us, ts, v, d0.st, d0.fs, F);
    }
  }

  /** Counting MCU n - 1 after the first n - 1 never lowers a counter. */
  lemma {:induction false} DryMcuGrows(us: seq<Unit>, cs: seq<int>, mX: nat, mY: nat, n: nat,
                                       lo: seq<seq<seq<int>>>, d: Dry)
    requires Selected(us) && Sized(us, d.st) && Int32s(d.st) && Counters(d.fs)
    requires Scannable(us, cs, mX, mY) && 0 < n <= mX * mY
    requires Counters(lo) && Dominated(lo, d.fs)
    ensures Dominated(lo, DryMcuF(us, cs, mX, mY, n - 1, d.st, d.fs).fs)
  {
    McuInGrid(us, cs, mX, mY, n - 1);
    DryVisitsGrow(us, McuAt(cs, Geos(us), mX, n - 1), d.st, d.fs);
    DominatedTrans(lo, d.fs, DryMcuF(us, cs, mX, mY, n - 1, d.st, d.fs).fs);
  }

  /** Counting MCUs never lowers a counter. */
  lemma {:induction false} DryEcsGrows(us: seq<Unit>, cs: seq<int>, mX: nat, mY: nat, n: nat, st: Coeffs,
                                       fs: seq<seq<seq<int>>>)
    requires Selected(us) && Sized(us, st) && Int32s(st) && Counters(fs)
    requires Scannable(us, cs, mX, mY) && n <= mX * mY
    ensures Dominated(fs, DryEcsF(us, cs, mX, mY, n, st, fs).fs)
  {
    if n > 0 {
      var d := DryEcsF(us, cs, mX, mY, n - 1, st, fs);
      DryEcsGrows(us, cs, mX, mY, n - 1, st, fs);
      if d.status == Success {
        DryMcuGrows(us, cs, mX, mY, n, fs, d);
      }
    }
  }

  /** MCU n - 1 written after counting it, from where the dry run and the writing of the first
      n - 1 MCUs agree: as DryThenWriteVisits, and the counters before it are below F too. */
  lemma {:induction false} DryThenWriteMcu(us: seq<Unit>, ts: seq<seq<CodeTable>>, cs: seq<int>, mX: nat, mY: nat,
                                           n: nat, fs: seq<seq<seq<int>>>, F: seq<seq<seq<int>>>, d: Dry)
    requires Tabled(us, ts) && Sized(us, d.st) && Int32s(d.st) && Scannable(us, cs, mX, mY) && 0 < n <= mX * mY
    requires Counters(fs) && Counters(d.fs) && Counters(F) && Nonneg(fs) && Dominated(fs, d.fs) && Covers(ts, F)
    requires DryMcuF(us, cs, mX, mY, n - 1, d.st, d.fs).status == Success
    requires Dominated(DryMcuF(us, cs, mX, mY, n - 1, d.st, d.fs).fs, F)
    ensures Dominated(d.fs, F)
    ensures WriteMcuF(us, ts, cs, mX, mY, n - 1, d.st).status == Success
    ensures WriteMcuF(us, ts, cs, mX, mY, n - 1, d.st).st == DryMcuF(us, cs, mX, mY, n - 1, d.st, d.fs).st
  {
    McuInGrid(us, cs, mX, mY, n - 1);
    var vs := McuAt(cs, Geos(us), mX, n - 1);
    DryVisitsGrow(us, vs, d.st, d.fs);
    DominatedTrans(d.fs, DryMcuF(us, cs, mX, mY, n - 1, d.st, d.fs).fs, F);
    NonnegDominated(fs, d.fs);
    DryThenWriteVisits(us, ts, vs, d.st, d.fs, F);
  }

  lemma {:induction false} NonnegDominated(a: seq<seq<seq<int>>>, b: seq<seq<seq<int>>>)
    requires Counters(a) && Counters(b) && Nonneg(a) && Dominated(a, b)
    ensures Nonneg(b)
  {
  }

  /** write_ecs_dry then write_ecs: once the dry run over the MCUs has succeeded and the tables
      hold a code for every value it counted, writing the same MCUs from the same coefficients
      finds every symbol it needs (no NotFound) and ends with the coefficients the dry run
      ends with. */
  lemma {:induction false} DryThenWriteEcs(us: seq<Unit>, ts: seq<seq<CodeTable>>, cs: seq<int>, mX: nat, mY: nat,
                                           n: nat, st: Coeffs, fs: seq<seq<seq<int>>>, F: seq<seq<seq<int>>>)
    requires Tabled(us, ts) && Sized(us, st) && Int32s(st) && Scannable(us, cs, mX, mY) && n <= mX * mY
    requires Counters(fs) && Counters(F) && Nonneg(fs) && Covers(ts, F)
    requires DryEcsF(us, cs, mX, mY, n, st, fs).status == Success
    requires Dominated(DryEcsF(us, cs, mX, mY, n, st, fs).fs, F)
    ensures WriteEcsF(us, ts, cs, mX, mY, n, st).status == Success
    ensures WriteEcsF(us, ts, cs, mX, mY, n, st).st == DryEcsF(us, cs, mX, mY, n, st, fs).st
  {
    if n > 0 {
      var d := DryEcsF(us, cs, mX, mY, n - 1, st, fs);
      assert d.status == Success && DryEcsF(us, cs, mX, mY, n, st, fs) == DryMcuF(us, cs, mX, mY, n - 1, d.st, d.fs);
      DryEcsGrows(us, cs, mX, mY, n - 1, st, fs);
      DryThenWriteMcu(us, ts, cs, mX, mY, n, fs, F, d);
      DryThenWriteEcs(us, ts, cs, mX, mY, n - 1, st, fs, F);
      var w := WriteEcsF(us, ts, cs, mX, mY, n - 1, st);
      var m := WriteMcuF(us, ts, cs, mX, mY, n - 1, d.st);
      assert w.st == d.st && WriteEcsF(us, ts, cs, mX, mY, n, st) == Write(m.status, m.st, w.bits + m.bits);
    }
  }

  /* ---------------------------------------------------------------------------------------- */
  /* Reading back what was written                                                            */
  /* ---------------------------------------------------------------------------------------- */

  /** Every table is canonical, as conv_htable_to_hcode makes it from a table that passes the
      checks. */
  predicate Canonicals(ts: seq<seq<CodeTable>>)
    requires |ts| == 2 && forall j | 0 <= j < 2 :: |ts[j]| == 4
  {
    forall j, i | 0 <= j < 2 && 0 <= i < 4 :: Canonical(ts[j][i])
  }

  /** Every AC coefficient fits the 15 bits a category nibble can name. */
  predicate AcFit(st: Coeffs) {
    forall c, p | 0 <= c < |st.bufs| && 0 <= p < |st.bufs[c]| && p % 64 != 0 :: Abs(st.bufs[c][p]) < 0x8000
  }

  /** The component and the buffer index of the block a visit names. */
  function BlockAt(us: seq<Unit>, v: Visit): (cb: (int, nat))
    requires Inside(us, v)
  {
    (v.c, Slot(us[v.c].g, v).value)
  }

  /** The reader's coefficients agree with the writer's on the blocks in D (pairs of a component
      and a block index), both have the same last blocks, and each last block is in D. */
  predicate Agree(us: seq<Unit>, rd: Coeffs, wr: Coeffs, D: set<(int, nat)>)
    requires Sized(us, rd) && Sized(us, wr)
  {
    && rd.last == wr.last
    && (forall c | 0 <= c < 256 && wr.last[c].Some? :: (c, wr.last[c].value) in D)
    && (forall c, p | 0 <= c < 256 && 0 <= p < |wr.bufs[c]| && (c, p / 64) in D :: rd.bufs[c][p] == wr.bufs[c][p])
  }

  /** The block write_block codes: its first coefficient is the DC difference, of at most 16
      bits, and the others are the block's AC coefficients, which fit in 15 bits. */
  lemma {:induction false} CodedInRange(us: seq<Unit>, st: Coeffs, c: int, b: nat)
    requires Sized(us, st) && Int32s(st) && AcFit(st) && 0 <= c < 256 && b < us[c].g.bX * us[c].g.bY
    requires -2047 <= Difference(us, st, c, b) <= 2047
    ensures var z := CodedBlock(us, st, c, b);
            z[0] == Difference(us, st, c, b) && Abs(z[0]) < Word && AcInRange(z)
  {
    ZigzagEnds();
    ZigzagPermutation();
    var z := CodedBlock(us, st, c, b);
    var buf1 := Differenced(us, st, c, b).bufs[c];
    forall k | 1 <= k < 64
      ensures Abs(z[k]) < 0x8000
    {
      var q := Zigzag[k];
      assert q != Zigzag[0];
      assert z[k] == buf1[64 * b + q] == st.bufs[c][64 * b + q];
      DivModUnique(64 * b + q, 64, b, q);
    }
  }

  /** Index p lies in block b exactly when p div 64 is b. */
  lemma {:induction false} InBlock(p: nat, b: nat)
    ensures 64 * b <= p < 64 * b + 64 <==> p / 64 == b
  {
    if 64 * b <= p < 64 * b + 64 {
      DivModUnique(p, 64, b, p - 64 * b);
    } else {
      DivModUnique(p, 64, p / 64, p % 64);
    }
  }

  /** The reader stores the block the writer coded and adds the same predictor, so the two
      agree on that block too and keep agreeing on the others. */
  lemma {:induction false} StoredAgrees(us: seq<Unit>, rd: Coeffs, st: Coeffs, D: set<(int, nat)>, c: int, b: nat)
    requires Sized(us, rd) && Sized(us, st) && Agree(us, rd, st, D)
    requires 0 <= c < 256 && b < us[c].g.bX * us[c].g.bY
    ensures var st1 := Differenced(us, st, c, b);
            var rd2 := rd.(bufs := rd.bufs[c := Splice(rd.bufs[c], b, BlockOf(st1.bufs[c], b))]);
            Sized(us, rd2) && Agree(us, Undifferenced(us, rd2, c, b), Undifferenced(us, st1, c, b), D + {(c, b)})
  {
    var st1 := Differenced(us, st, c, b);
    var blk := BlockOf(st1.bufs[c], b);
    var rd2 := rd.(bufs := rd.bufs[c := Splice(rd.bufs[c], b, blk)]);
    assert Sized(us, rd2);
    var D' := D + {(c, b)};
    var r, w := Undifferenced(us, rd2, c, b), Undifferenced(us, st1, c, b);
    assert Predictor(rd2.bufs[c], rd.last[c]) == Predictor(st1.bufs[c], st.last[c]) by {
      if rd.last[c].Some? {
        var b' := rd.last[c].value;
        InBlock(64 * b', b');
        InBlock(64 * b', b);
      }
    }
    forall c', p | 0 <= c' < 256 && 0 <= p < |w.bufs[c']| && (c', p / 64) in D'
      ensures r.bufs[c'][p] == w.bufs[c'][p]
    {
      InBlock(p, b);
    }
  }

  /** Changing only the DC coefficient of a block keeps every AC coefficient in range. */
  lemma {:induction false} DcOnlyChanged(st: Coeffs, st': Coeffs, c: int, b: nat)
    requires AcFit(st) && 0 <= c < |st.bufs| && 64 * b < |st.bufs[c]|
    requires st'.bufs == st.bufs || st'.bufs == st.bufs[c := st.bufs[c][64 * b := 0]]
    ensures AcFit(st')
  {
    DivModUnique(64 * b, 64, b, 0);
  }

  /** One visit read back: the bits write_macroblock sends for a block, followed by anything,
      read_macroblock reads as that block, leaving exactly what follows; the reader then agrees
      with the writer on that block as well. */
  lemma {:induction false} VisitRoundTrip(us: seq<Unit>, ts: seq<seq<CodeTable>>, v: Visit, stop: Status,
                                          rd: Coeffs, st: Coeffs, D: set<(int, nat)>, rest: seq<Bit>)
    requires Tabled(us, ts) && Canonicals(ts) && stop != Success
    requires Sized(us, rd) && Sized(us, st) && Int32s(st) && AcFit(st) && Inside(us, v)
    requires Agree(us, rd, st, D) && WriteVisitF(us, ts, v, st).status == Success
    ensures var w := WriteVisitF(us, ts, v, st);
            var r := ReadVisitF(us, ts, v, stop, rd, w.bits + rest);
            && r == Read(Success, r.st, rest, None)
            && Agree(us, r.st, w.st, D + {BlockAt(us, v)})
  {
    var c, b := v.c, Slot(us[v.c].g, v).value;
    var tdc, tac := DcTable(us, ts, c), AcTable(us, ts, c);
    WriteVisitGot(us, ts, v, st);
    var z := CodedBlock(us, st, c, b);
    CodedInRange(us, st, c, b);
    var w := WriteVisitF(us, ts, v, st);
    var dcb, acb := SymsBits(tdc, [DcSym(z[0])]), SymsBits(tac, BlockAcSyms(z));
    assert w.bits + rest == dcb + acb + rest;
    BlockRoundTrip(tdc, tac, z, rest);
    ReadVisitGot(us, ts, v, stop, rd, w.bits + rest, z, rest);
    var st1 := Differenced(us, st, c, b);
    NaturalZigzagged(BlockOf(st1.bufs[c], b), z);
    StoredAgrees(us, rd, st, D, c, b);
  }

  /** A visit written with success: the difference fits, both tables hold the block's symbols,
      and the bits and the new coefficients are those of the coded block. */
  lemma {:induction false} WriteVisitGot(us: seq<Unit>, ts: seq<seq<CodeTable>>, v: Visit, st: Coeffs)
    requires Tabled(us, ts) && Sized(us, st) && Int32s(st) && Inside(us, v)
    requires WriteVisitF(us, ts, v, st).status == Success
    ensures var c, b := v.c, Slot(us[v.c].g, v).value;
            && -2047 <= Difference(us, st, c, b) <= 2047
            && var z := CodedBlock(us, st, c, b);
            && Present(DcTable(us, ts, c), [DcSym(z[0])]) && Present(AcTable(us, ts, c), BlockAcSyms(z))
            && WriteVisitF(us, ts, v, st)
               == Write(Success, Undifferenced(us, Differenced(us, st, c, b), c, b),
                        SymsBits(DcTable(us, ts, c), [DcSym(z[0])]) + SymsBits(AcTable(us, ts, c), BlockAcSyms(z)))
  {
  }

  /** A visit in the grid whose bits hold a whole block: the block is stored, undifferenced. */
  lemma {:induction false} ReadVisitGot(us: seq<Unit>, ts: seq<seq<CodeTable>>, v: Visit, stop: Status, rd: Coeffs,
                                        P: seq<Bit>, z: seq<int>, R: seq<Bit>)
    requires Tabled(us, ts) && Sized(us, rd) && Inside(us, v) && stop != Success
    requires ReadBlockF(DcTable(us, ts, v.c), AcTable(us, ts, v.c), P) == Got(z, R)
    ensures var c, b := v.c, Slot(us[v.c].g, v).value;
            var rd2 := rd.(bufs := rd.bufs[c := Splice(rd.bufs[c], b, Natural(z))]);
            Sized(us, rd2) && ReadVisitF(us, ts, v, stop, rd, P) == Read(Success, Undifferenced(us, rd2, c, b), R, None)
  {
  }

  /** Writing a visit keeps every AC coefficient in range. */
  lemma {:induction false} WriteVisitAcFit(us: seq<Unit>, ts: seq<seq<CodeTable>>, v: Visit, st: Coeffs)
    requires Tabled(us, ts) && Sized(us, st) && Int32s(st) && AcFit(st) && Inside(us, v)
    requires WriteVisitF(us, ts, v, st).status == Success
    ensures AcFit(WriteVisitF(us, ts, v, st).st)
  {
    WriteVisitKeeps(us, ts, v, st);
    DcOnlyChanged(st, WriteVisitF(us, ts, v, st).st, v.c, Slot(us[v.c].g, v).value);
  }

  /** Writing visits keeps every AC coefficient in range. */
  lemma {:induction false} WriteVisitsAcFit(us: seq<Unit>, ts: seq<seq<CodeTable>>, vs: seq<Visit>, st: Coeffs)
    requires Tabled(us, ts) && Sized(us, st) && Int32s(st) && AcFit(st) && InGrid(us, vs)
    requires WriteVisitsF(us, ts, vs, st).status == Success
    ensures AcFit(WriteVisitsF(us, ts, vs, st).st)
    decreases |vs|
  {
    if vs != [] {
      WriteVisitsSnoc(us, ts, vs, st);
      var w0 := WriteVisitsF(us, ts, vs[..|vs| - 1], st);
      WriteVisitsAcFit(us, ts, vs[..|vs| - 1], st);
      WriteVisitAcFit(us, ts, vs[|vs| - 1], w0.st);
    }
  }

  /** The blocks some visits name. */
  function Blocks(us: seq<Unit>, vs: seq<Visit>): set<(int, nat)>
    requires InGrid(us, vs)
    decreases |vs|
  {
    if vs == [] then {} else Blocks(us, vs[..|vs| - 1]) + {BlockAt(us, vs[|vs| - 1])}
  }

  /** Writing visits that end in v is writing the ones before, then v. */
  lemma {:induction false} WriteVisitsSnoc(us: seq<Unit>, ts: seq<seq<CodeTable>>, vs: seq<Visit>, st: Coeffs)
    requires Tabled(us, ts) && Sized(us, st) && Int32s(st) && InGrid(us, vs) && vs != []
    requires WriteVisitsF(us, ts, vs, st).status == Success
    ensures var w0 := WriteVisitsF(us, ts, vs[..|vs| - 1], st);
            && w0.status == Success
            && var x := WriteVisitF(us, ts, vs[|vs| - 1], w0.st);
               WriteVisitsF(us, ts, vs, st) == Write(x.status, x.st, w0.bits + x.bits)
  {
  }

  /** Reading visits that end in v is reading the ones before, then v. */
  lemma {:induction false} ReadVisitsSnoc(us: seq<Unit>, ts: seq<seq<CodeTable>>, vs: seq<Visit>, stop: Status,
                                          rd: Coeffs, P: seq<Bit>)
    requires Tabled(us, ts) && Sized(us, rd) && Visiting(vs) && stop != Success && vs != []
    ensures var r0 := ReadVisitsF(us, ts, vs[..|vs| - 1], stop, rd, P);
            r0.status == Success ==>
              ReadVisitsF(us, ts, vs, stop, rd, P) == ReadVisitF(us, ts, vs[|vs| - 1], stop, r0.st, r0.rest)
  {
    assert ReadVisitsF(us, ts, vs, stop, rd, P) == ReadThenLast(us, ts, vs, stop, rd, P);
  }

  /** Reading the visits done, then v: v is read from what the visits done leave. */
  lemma {:induction false} ReadVisitsThen(us: seq<Unit>, ts: seq<seq<CodeTable>>, done: seq<Visit>, v: Visit,
                                          stop: Status, rd: Coeffs, P: seq<Bit>)
    requires Tabled(us, ts) && Sized(us, rd) && Visiting(done) && 0 <= v.c < 256 && stop != Success
    requires ReadVisitsF(us, ts, done, stop, rd, P).status == Success
    ensures Visiting(done + [v])
    ensures var r0 := ReadVisitsF(us, ts, done, stop, rd, P);
            ReadVisitsF(us, ts, done + [v], stop, rd, P) == ReadVisitF(us, ts, v, stop, r0.st, r0.rest)
  {
    var vs := done + [v];
    assert vs[..|vs| - 1] == done && vs[|vs| - 1] == v;
    ReadVisitsSnoc(us, ts, vs, stop, rd, P);
  }

  /** Once some leading visits fail, reading more visits after them comes to the same failure:
      read_macroblock returns at the first block that does not read. */
  lemma {:induction false} ReadVisitsStuck(us: seq<Unit>, ts: seq<seq<CodeTable>>, vs: seq<Visit>, q: seq<Visit>,
                                           stop: Status, rd: Coeffs, P: seq<Bit>)
    requires Tabled(us, ts) && Sized(us, rd) && Visiting(vs) && Visiting(q) && stop != Success && q <= vs
    requires ReadVisitsF(us, ts, q, stop, rd, P).status != Success
    ensures ReadVisitsF(us, ts, vs, stop, rd, P) == ReadVisitsF(us, ts, q, stop, rd, P)
    decreases |vs|
  {
    if |q| < |vs| {
      var vs' := vs[..|vs| - 1];
      assert vs'[..|q|] == vs[..|q|];
      ReadVisitsStuck(us, ts, vs', q, stop, rd, P);
      assert ReadVisitsF(us, ts, vs, stop, rd, P) == ReadThenLast(us, ts, vs, stop, rd, P);
    } else {
      assert q == vs;
    }
  }

  /** The bits written for the visits, followed by rest, read back from rd: every visit reads,
      exactly rest is left, and the reader agrees with the writer on the blocks of D and on
      every block visited. */
  predicate ReadsBack(us: seq<Unit>, ts: seq<seq<CodeTable>>, vs: seq<Visit>, stop: Status,
                      rd: Coeffs, st: Coeffs, D: set<(int, nat)>, rest: seq<Bit>)
    requires Tabled(us, ts) && stop != Success && Sized(us, rd) && Sized(us, st) && Int32s(st) && InGrid(us, vs)
  {
    var w := WriteVisitsF(us, ts, vs, st);
    var r := ReadVisitsF(us, ts, vs, stop, rd, w.bits + rest);
    && r == Read(Success, r.st, rest, None)
    && Agree(us, r.st, w.st, D + Blocks(us, vs))
  }

  /** Writing visits that end in v, successfully: the ones before are written successfully,
      with every coefficient an int32_t and every AC coefficient in range, and v after them. */
  lemma {:induction false} WriteVisitsSnocFit(us: seq<Unit>, ts: seq<seq<CodeTable>>, vs: seq<Visit>, st: Coeffs)
    requires Tabled(us, ts) && Sized(us, st) && Int32s(st) && AcFit(st) && InGrid(us, vs) && vs != []
    requires WriteVisitsF(us, ts, vs, st).status == Success
    ensures InGrid(us, vs[..|vs| - 1]) && Inside(us, vs[|vs| - 1])
    ensures var w0 := WriteVisitsF(us, ts, vs[..|vs| - 1], st);
            && w0.status == Success && Int32s(w0.st) && AcFit(w0.st)
            && var x := WriteVisitF(us, ts, vs[|vs| - 1], w0.st);
               && x.status == Success
               && WriteVisitsF(us, ts, vs, st) == Write(Success, x.st, w0.bits + x.bits)
  {
    WriteVisitsSnoc(us, ts, vs, st);
    WriteVisitsAcFit(us, ts, vs[..|vs| - 1], st);
  }

  /** Reading back visits that end in v, when the ones before read back: reading all of them is
      reading the ones before, then v from what they leave. */
  lemma {:induction false} ReadsBackPrefix(us: seq<Unit>, ts: seq<seq<CodeTable>>, vs: seq<Visit>, stop: Status,
                                           rd: Coeffs, st: Coeffs, D: set<(int, nat)>, rest: seq<Bit>)
    requires Tabled(us, ts) && stop != Success
    requires Sized(us, rd) && Sized(us, st) && Int32s(st) && InGrid(us, vs) && vs != []
    requires InGrid(us, vs[..|vs| - 1]) && Inside(us, vs[|vs| - 1])
    requires WriteVisitsF(us, ts, vs[..|vs| - 1], st).status == Success
    requires var w0 := WriteVisitsF(us, ts, vs[..|vs| - 1], st);
             var x := WriteVisitF(us, ts, vs[|vs| - 1], w0.st);
             && WriteVisitsF(us, ts, vs, st) == Write(x.status, x.st, w0.bits + x.bits)
             && ReadsBack(us, ts, vs[..|vs| - 1], stop, rd, st, D, x.bits + rest)
    ensures var w0 := WriteVisitsF(us, ts, vs[..|vs| - 1], st);
            var x := WriteVisitF(us, ts, vs[|vs| - 1], w0.st);
            var r0 := ReadVisitsF(us, ts, vs[..|vs| - 1], stop, rd, w0.bits + (x.bits + rest));
            && r0 == Read(Success, r0.st, x.bits + rest, None)
            && Agree(us, r0.st, w0.st, D + Blocks(us, vs[..|vs| - 1]))
            && ReadVisitsF(us, ts, vs, stop, rd, WriteVisitsF(us, ts, vs, st).bits + rest)
               == ReadVisitF(us, ts, vs[|vs| - 1], stop, r0.st, x.bits + rest)
  {
    var init, v := vs[..|vs| - 1], vs[|vs| - 1];
    var w0 := WriteVisitsF(us, ts, init, st);
    var x := WriteVisitF(us, ts, v, w0.st);
    var w := WriteVisitsF(us, ts, vs, st);
    assert w.bits + rest == w0.bits + (x.bits + rest) by {
      assert w.bits == w0.bits + x.bits;
      BitsAssoc(w0.bits, x.bits, rest);
    }
    ReadVisitsSnoc(us, ts, vs, stop, rd, w.bits + rest);
  }

  lemma BitsAssoc(a: seq<Bit>, b: seq<Bit>, c: seq<Bit>)
    ensures (a + b) + c == a + (b + c)
  {
  }

  /** One more visit read back after the ones before it. */
  lemma {:induction false} ReadsBackSnoc(us: seq<Unit>, ts: seq<seq<CodeTable>>, vs: seq<Visit>, stop: Status,
                                         rd: Coeffs, st: Coeffs, D: set<(int, nat)>, rest: seq<Bit>)
    requires Tabled(us, ts) && Canonicals(ts) && stop != Success
    requires Sized(us, rd) && Sized(us, st) && Int32s(st) && AcFit(st) && InGrid(us, vs) && vs != []
    requires WriteVisitsF(us, ts, vs, st).status == Success
    requires InGrid(us, vs[..|vs| - 1]) && WriteVisitsF(us, ts, vs[..|vs| - 1], st).status == Success
    requires var w0 := WriteVisitsF(us, ts, vs[..|vs| - 1], st);
             Inside(us, vs[|vs| - 1]) && ReadsBack(us, ts, vs[..|vs| - 1], stop, rd, st, D, WriteVisitF(us, ts, vs[|vs| - 1], w0.st).bits + rest)
    ensures ReadsBack(us, ts, vs, stop, rd, st, D, rest)
  {
    var init, v := vs[..|vs| - 1], vs[|vs| - 1];
    WriteVisitsSnocFit(us, ts, vs, st);
    ReadsBackPrefix(us, ts, vs, stop, rd, st, D, rest);
    var w0 := WriteVisitsF(us, ts, init, st);
    var x := WriteVisitF(us, ts, v, w0.st);
    var r0 := ReadVisitsF(us, ts, init, stop, rd, w0.bits + (x.bits + rest));
    BlocksSnoc(us, vs, D);
    VisitRoundTrip(us, ts, v, stop, r0.st, w0.st, D + Blocks(us, init), rest);
  }

  /** The blocks of visits that end in v are the blocks of the ones before and v's block. */
  lemma BlocksSnoc(us: seq<Unit>, vs: seq<Visit>, D: set<(int, nat)>)
    requires InGrid(us, vs) && vs != []
    ensures InGrid(us, vs[..|vs| - 1]) && Inside(us, vs[|vs| - 1])
    ensures D + Blocks(us, vs) == D + Blocks(us, vs[..|vs| - 1]) + {BlockAt(us, vs[|vs| - 1])}
  {
  }

  /** A run of visits read back: the bits write_macroblock sends for the visits, followed by
      anything, read_macroblock reads back block by block, leaving exactly what follows, and the
      reader then agrees with the writer on every block visited. */
  lemma {:induction false} VisitsRoundTrip(us: seq<Unit>, ts: seq<seq<CodeTable>>, vs: seq<Visit>, stop: Status,
                                           rd: Coeffs, st: Coeffs, D: set<(int, nat)>, rest: seq<Bit>)
    requires Tabled(us, ts) && Canonicals(ts) && stop != Success
    requires Sized(us, rd) && Sized(us, st) && Int32s(st) && AcFit(st) && InGrid(us, vs)
    requires Agree(us, rd, st, D) && WriteVisitsF(us, ts, vs, st).status == Success
    ensures ReadsBack(us, ts, vs, stop, rd, st, D, rest)
    decreases |vs|
  {
    if vs == [] {
      assert [] + rest == rest;
      assert D + Blocks(us, vs) == D;
    } else {
      WriteVisitsSnocFit(us, ts, vs, st);
      var w0 := WriteVisitsF(us, ts, vs[..|vs| - 1], st);
      VisitsRoundTrip(us, ts, vs[..|vs| - 1], stop, rd, st, D, WriteVisitF(us, ts, vs[|vs| - 1], w0.st).bits + rest);
      ReadsBackSnoc(us, ts, vs, stop, rd, st, D, rest);
    }
  }

  /* ---------------------------------------------------------------------------------------- */
  /* Reading back a scan                                                                      */
  /* ---------------------------------------------------------------------------------------- */

  /** read_macroblock reads a block the same way whichever order names it: only the component
      and the block's index in the buffer matter. */
  lemma {:induction false} SameSlotRead(us: seq<Unit>, ts: seq<seq<CodeTable>>, v: Visit, v': Visit, stop: Status,
                                        st: Coeffs, P: seq<Bit>)
    requires Tabled(us, ts) && Sized(us, st) && 0 <= v.c < 256 && stop != Success
    requires v'.c == v.c && Slot(us[v.c].g, v') == Slot(us[v.c].g, v)
    ensures ReadVisitsF(us, ts, [v], stop, st, P) == ReadVisitsF(us, ts, [v'], stop, st, P)
  {
    assert [v][..0] == [] && [v'][..0] == [];
  }

  /** A scan whose MCUs read_macroblock visits in the order write_macroblock writes them: an
      interleaved scan (more than one component), or a single component sampled 1 by 1, whose
      non-interleaved MCU is the one block the interleaved order would visit. */
  predicate SameOrder(us: seq<Unit>, cs: seq<int>)
    requires |us| == 256 && Ids(cs)
  {
    |cs| >= 2 || (|cs| == 1 && us[cs[0]].g.H == 1 && us[cs[0]].g.V == 1)
  }

  /** For an interleaved scan over all of cs, read_macroblock plans the visits of the interleaved
      order. */
  lemma {:induction false} McuPlanInterleaved(us: seq<Unit>, cs: seq<int>, mX: nat, mY: nat, s: nat)
    requires Scannable(us, cs, mX, mY) && |cs| >= 2 && s < mX * mY
    ensures mX > 0 && ReadPlan(|cs|, cs, Geos(us), mX, s) == Visits(McuAt(cs, Geos(us), mX, s))
  {
    assert cs[..|cs|] == cs;
  }

  /** For one component sampled 1 by 1, read_macroblock plans block seq_no of the grid, which is
      the one block the interleaved order visits. */
  lemma {:induction false} McuPlanSingle(us: seq<Unit>, cs: seq<int>, mX: nat, mY: nat, s: nat)
    requires Scannable(us, cs, mX, mY) && |cs| == 1 && us[cs[0]].g.H == 1 && us[cs[0]].g.V == 1
    requires s < mX * mY
    ensures mX > 0 && ReadPlan(1, cs, Geos(us), mX, s) == Visits([Run(cs[0], s)])
    ensures var v := Cell(cs[0], s % mX, s / mX);
            McuAt(cs, Geos(us), mX, s) == [v] && Slot(us[cs[0]].g, v) == Some(s)
  {
    var c, g := cs[0], us[cs[0]].g;
    assert Fits(g, mX, mY);
    var x, y := s % mX, s / mX;
    assert RunVisits(c, g, s) == [Run(c, s)];
    assert cs[..0] == [];
    assert Rows(c, g, x, y, 1) == [Cell(c, x, y)];
    assert McuAt(cs, Geos(us), mX, s) == McuVisits(cs[..0], Geos(us), x, y) + UnitVisits(c, g, x, y);
    assert y * g.bX + x == s by { DivModUnique(s, mX, y, x); }
  }

  /** The blocks of MCU seq_no. */
  function McuBlocks(us: seq<Unit>, cs: seq<int>, mX: nat, mY: nat, seqNo: nat): set<(int, nat)>
    requires Scannable(us, cs, mX, mY) && seqNo < mX * mY
  {
    McuInGrid(us, cs, mX, mY, seqNo);
    Blocks(us, McuAt(cs, Geos(us), mX, seqNo))
  }

  /** An MCU of a scan over at least one component visits at least one block. */
  lemma {:induction false} McuNonEmpty(us: seq<Unit>, cs: seq<int>, mX: nat, mY: nat, seqNo: nat)
    requires Scannable(us, cs, mX, mY) && cs != [] && mX > 0
    ensures McuAt(cs, Geos(us), mX, seqNo) != []
  {
    var c := cs[|cs| - 1];
    var g := us[c].g;
    assert Fits(g, mX, mY);
    MixedBound(0, 0, g.H, g.V);
  }

  /** read_macroblock reads MCU seq_no of a scan over all of cs as the visits write_macroblock
      makes of it. */
  lemma {:induction false} McuReadsVisits(us: seq<Unit>, ts: seq<seq<CodeTable>>, cs: seq<int>, mX: nat, mY: nat,
                                          s: nat, stop: Status, rd: Coeffs, P: seq<Bit>)
    requires Tabled(us, ts) && stop != Success && Sized(us, rd)
    requires Scannable(us, cs, mX, mY) && SameOrder(us, cs) && s < mX * mY
    ensures mX > 0
    ensures ReadMcuF(us, ts, |cs|, cs, mX, s, stop, rd, P)
            == ReadVisitsF(us, ts, McuAt(cs, Geos(us), mX, s), stop, rd, P)
  {
    McuInGrid(us, cs, mX, mY, s);
    McuNonEmpty(us, cs, mX, mY, s);
    if |cs| == 1 {
      McuPlanSingle(us, cs, mX, mY, s);
      SameSlotRead(us, ts, Run(cs[0], s), Cell(cs[0], s % mX, s / mX), stop, rd, P);
    } else {
      McuPlanInterleaved(us, cs, mX, mY, s);
    }
  }

  /** One MCU read back: the bits write_macroblock sends for MCU seq_no, followed by anything,
      read_macroblock reads back as that MCU, leaving exactly what follows; the reader then
      agrees with the writer on every block of the MCU. */
  lemma {:induction false} McuRoundTrip(us: seq<Unit>, ts: seq<seq<CodeTable>>, cs: seq<int>, mX: nat, mY: nat,
                                        s: nat, stop: Status, rd: Coeffs, st: Coeffs, D: set<(int, nat)>,
                                        rest: seq<Bit>)
    requires Tabled(us, ts) && Canonicals(ts) && stop != Success
    requires Sized(us, rd) && Sized(us, st) && Int32s(st) && AcFit(st)
    requires Scannable(us, cs, mX, mY) && SameOrder(us, cs) && s < mX * mY
    requires Agree(us, rd, st, D) && WriteMcuF(us, ts, cs, mX, mY, s, st).status == Success
    ensures var w := WriteMcuF(us, ts, cs, mX, mY, s, st);
            var r := ReadMcuF(us, ts, |cs|, cs, mX, s, stop, rd, w.bits + rest);
            && r == Read(Success, r.st, rest, None)
            && Agree(us, r.st, w.st, D + McuBlocks(us, cs, mX, mY, s))
  {
    McuInGrid(us, cs, mX, mY, s);
    var vs := McuAt(cs, Geos(us), mX, s);
    var w := WriteVisitsF(us, ts, vs, st);
    VisitsRoundTrip(us, ts, vs, stop, rd, st, D, rest);
    McuReadsVisits(us, ts, cs, mX, mY, s, stop, rd, w.bits + rest);
  }

  /** The blocks of the first n MCUs. */
  function EcsBlocks(us: seq<Unit>, cs: seq<int>, mX: nat, mY: nat, n: nat): set<(int, nat)>
    requires Scannable(us, cs, mX, mY) && n <= mX * mY
  {
    if n == 0 then {} else EcsBlocks(us, cs, mX, mY, n - 1) + McuBlocks(us, cs, mX, mY, n - 1)
  }

  /** The sets of blocks grow by union. */
  lemma BlocksUnion(D: set<(int, nat)>, A: set<(int, nat)>, B: set<(int, nat)>)
    ensures D + (A + B) == D + A + B
  {
  }

  /** Writing MCUs that end in MCU n - 1 is writing the ones before, then that MCU. */
  lemma {:induction false} WriteEcsSnoc(us: seq<Unit>, ts: seq<seq<CodeTable>>, cs: seq<int>, mX: nat, mY: nat,
                                        n: nat, st: Coeffs, rest: seq<Bit>)
    requires Tabled(us, ts) && Sized(us, st) && Int32s(st) && Scannable(us, cs, mX, mY)
    requires 0 < n <= mX * mY && WriteEcsF(us, ts, cs, mX, mY, n, st).status == Success
    ensures var w0 := WriteEcsF(us, ts, cs, mX, mY, n - 1, st);
            && w0.status == Success
            && var m := WriteMcuF(us, ts, cs, mX, mY, n - 1, w0.st);
               && m.status == Success
               && WriteEcsF(us, ts, cs, mX, mY, n, st) == Write(Success, m.st, w0.bits + m.bits)
               && WriteEcsF(us, ts, cs, mX, mY, n, st).bits + rest == w0.bits + (m.bits + rest)
  {
    var w0 := WriteEcsF(us, ts, cs, mX, mY, n - 1, st);
    var m := WriteMcuF(us, ts, cs, mX, mY, n - 1, w0.st);
    BitsAssoc(w0.bits, m.bits, rest);
  }

  /** read_ecs moves on to the next MCU after one that reads. */
  lemma {:induction false} ReadEcsStep(us: seq<Unit>, ts: seq<seq<CodeTable>>, cs: seq<int>, mX: nat, s: nat,
                                       stop: Status, st: Coeffs, P: seq<Bit>)
    requires Tabled(us, ts) && Sized(us, st) && Ids(cs) && stop != Success
    requires ReadMcuF(us, ts, |cs|, cs, mX, s, stop, st, P).status == Success
    ensures var m := ReadMcuF(us, ts, |cs|, cs, mX, s, stop, st, P);
            ReadEcsF(us, ts, |cs|, cs, mX, s, stop, st, P) == ReadEcsF(us, ts, |cs|, cs, mX, s + 1, stop, m.st, m.rest)
  {
  }

  /** read_ecs's first n MCUs, each read in turn, up to the first that does not read. */
  function ReadMcusF(us: seq<Unit>, ts: seq<seq<CodeTable>>, cs: seq<int>, mX: nat, n: nat, stop: Status,
                     st: Coeffs, P: seq<Bit>): (r: Read)
    requires Tabled(us, ts) && Sized(us, st) && Ids(cs) && stop != Success
    ensures Sized(us, r.st)
  {
    if n == 0 then Read(Success, st, P, None)
    else
      var r := ReadMcusF(us, ts, cs, mX, n - 1, stop, st, P);
      if r.status != Success then r
      else ReadMcuF(us, ts, |cs|, cs, mX, n - 1, stop, r.st, r.rest)
  }

  /** Reading n MCUs successfully is reading the first n - 1 successfully, then MCU n - 1. */
  lemma ReadMcusSnoc(us: seq<Unit>, ts: seq<seq<CodeTable>>, cs: seq<int>, mX: nat, n: nat,
                     stop: Status, st: Coeffs, P: seq<Bit>)
    requires Tabled(us, ts) && Sized(us, st) && Ids(cs) && stop != Success && n > 0
    requires ReadMcusF(us, ts, cs, mX, n, stop, st, P).status == Success
    ensures var r0 := ReadMcusF(us, ts, cs, mX, n - 1, stop, st, P);
            && r0.status == Success
            && ReadMcusF(us, ts, cs, mX, n, stop, st, P) == ReadMcuF(us, ts, |cs|, cs, mX, n - 1, stop, r0.st, r0.rest)
  {
  }

  /** read_ecs after n MCUs that read: it goes on from MCU n with what they leave. */
  lemma {:induction false} ReadEcsPrefix(us: seq<Unit>, ts: seq<seq<CodeTable>>, cs: seq<int>, mX: nat, n: nat,
                                         stop: Status, st: Coeffs, P: seq<Bit>)
    requires Tabled(us, ts) && Sized(us, st) && Ids(cs) && stop != Success
    requires ReadMcusF(us, ts, cs, mX, n, stop, st, P).status == Success
    ensures var r := ReadMcusF(us, ts, cs, mX, n, stop, st, P);
            ReadEcsF(us, ts, |cs|, cs, mX, 0, stop, st, P) == ReadEcsF(us, ts, |cs|, cs, mX, n, stop, r.st, r.rest)
  {
    if n > 0 {
      ReadMcusSnoc(us, ts, cs, mX, n, stop, st, P);
      var r0 := ReadMcusF(us, ts, cs, mX, n - 1, stop, st, P);
      ReadEcsPrefix(us, ts, cs, mX, n - 1, stop, st, P);
      ReadEcsStep(us, ts, cs, mX, n - 1, stop, r0.st, r0.rest);
    }
  }

  /** The first n MCUs read back: the bits write_ecs sends for them, followed by rest, read as
      n MCUs that leave exactly rest, and the reader then agrees with the writer on their blocks. */
  predicate EcsBack(us: seq<Unit>, ts: seq<seq<CodeTable>>, cs: seq<int>, mX: nat, mY: nat, n: nat,
                    stop: Status, rd: Coeffs, st: Coeffs, D: set<(int, nat)>, rest: seq<Bit>)
    requires Tabled(us, ts) && stop != Success && Sized(us, rd) && Sized(us, st) && Int32s(st)
    requires Scannable(us, cs, mX, mY) && n <= mX * mY
  {
    var w := WriteEcsF(us, ts, cs, mX, mY, n, st);
    var r := ReadMcusF(us, ts, cs, mX, n, stop, rd, w.bits + rest);
    && r == Read(Success, r.st, rest, None)
    && Agree(us, r.st, w.st, D + EcsBlocks(us, cs, mX, mY, n))
  }

  /** Reading back MCUs that end in MCU n - 1, when the ones before read back: reading all of
      them is reading the ones before, then MCU n - 1 from what they leave. */
  lemma {:induction false} EcsBackPrefix(us: seq<Unit>, ts: seq<seq<CodeTable>>, cs: seq<int>, mX: nat, mY: nat,
                                         n: nat, stop: Status, rd: Coeffs, st: Coeffs, D: set<(int, nat)>,
                                         rest: seq<Bit>)
    requires Tabled(us, ts) && stop != Success && Sized(us, rd) && Sized(us, st) && Int32s(st)
    requires Scannable(us, cs, mX, mY) && 0 < n <= mX * mY
    requires WriteEcsF(us, ts, cs, mX, mY, n - 1, st).status == Success
    requires var w0 := WriteEcsF(us, ts, cs, mX, mY, n - 1, st);
             var m := WriteMcuF(us, ts, cs, mX, mY, n - 1, w0.st);
             && WriteEcsF(us, ts, cs, mX, mY, n, st).bits + rest == w0.bits + (m.bits + rest)
             && EcsBack(us, ts, cs, mX, mY, n - 1, stop, rd, st, D, m.bits + rest)
    ensures var w0 := WriteEcsF(us, ts, cs, mX, mY, n - 1, st);
            var m := WriteMcuF(us, ts, cs, mX, mY, n - 1, w0.st);
            var r0 := ReadMcusF(us, ts, cs, mX, n - 1, stop, rd, w0.bits + (m.bits + rest));
            && r0 == Read(Success, r0.st, m.bits + rest, None)
            && Agree(us, r0.st, w0.st, D + EcsBlocks(us, cs, mX, mY, n - 1))
            && ReadMcusF(us, ts, cs, mX, n, stop, rd, WriteEcsF(us, ts, cs, mX, mY, n, st).bits + rest)
               == ReadMcuF(us, ts, |cs|, cs, mX, n - 1, stop, r0.st, m.bits + rest)
  {
  }

  /** One more MCU read back after the ones before it. */
  lemma {:induction false} EcsBackSnoc(us: seq<Unit>, ts: seq<seq<CodeTable>>, cs: seq<int>, mX: nat, mY: nat,
                                       n: nat, stop: Status, rd: Coeffs, st: Coeffs, D: set<(int, nat)>,
                                       rest: seq<Bit>)
    requires Tabled(us, ts) && Canonicals(ts) && stop != Success
    requires Sized(us, rd) && Sized(us, st) && Int32s(st) && AcFit(st)
    requires Scannable(us, cs, mX, mY) && SameOrder(us, cs) && 0 < n <= mX * mY
    requires WriteEcsF(us, ts, cs, mX, mY, n, st).status == Success
    requires WriteEcsF(us, ts, cs, mX, mY, n - 1, st).status == Success
    requires var w0 := WriteEcsF(us, ts, cs, mX, mY, n - 1, st);
             EcsBack(us, ts, cs, mX, mY, n - 1, stop, rd, st, D, WriteMcuF(us, ts, cs, mX, mY, n - 1, w0.st).bits + rest)
    ensures EcsBack(us, ts, cs, mX, mY, n, stop, rd, st, D, rest)
  {
    WriteEcsSnoc(us, ts, cs, mX, mY, n, st, rest);
    EcsBackPrefix(us, ts, cs, mX, mY, n, stop, rd, st, D, rest);
    var w0 := WriteEcsF(us, ts, cs, mX, mY, n - 1, st);
    var m := WriteMcuF(us, ts, cs, mX, mY, n - 1, w0.st);
    var r0 := ReadMcusF(us, ts, cs, mX, n - 1, stop, rd, w0.bits + (m.bits + rest));
    McuRoundTrip(us, ts, cs, mX, mY, n - 1, stop, r0.st, w0.st, D + EcsBlocks(us, cs, mX, mY, n - 1), rest);
    BlocksUnion(D, EcsBlocks(us, cs, mX, mY, n - 1), McuBlocks(us, cs, mX, mY, n - 1));
  }

  /** The first n MCUs read back: the bits write_ecs sends for the first n MCUs, followed by
      anything, read as those n MCUs, leaving exactly what follows, and the reader then agrees
      with the writer on every block of those MCUs. */
  lemma {:induction false} EcsRoundTrip(us: seq<Unit>, ts: seq<seq<CodeTable>>, cs: seq<int>, mX: nat, mY: nat,
                                        n: nat, stop: Status, rd: Coeffs, st: Coeffs, D: set<(int, nat)>,
                                        rest: seq<Bit>)
    requires Tabled(us, ts) && Canonicals(ts) && stop != Success
    requires Sized(us, rd) && Sized(us, st) && Int32s(st) && AcFit(st)
    requires Scannable(us, cs, mX, mY) && SameOrder(us, cs) && n <= mX * mY
    requires Agree(us, rd, st, D) && WriteEcsF(us, ts, cs, mX, mY, n, st).status == Success
    ensures EcsBack(us, ts, cs, mX, mY, n, stop, rd, st, D, rest)
  {
    if n == 0 {
      assert [] + rest == rest;
      assert D + EcsBlocks(us, cs, mX, mY, n) == D;
    } else {
      WriteEcsSnoc(us, ts, cs, mX, mY, n, st, rest);
      var w0 := WriteEcsF(us, ts, cs, mX, mY, n - 1, st);
      EcsRoundTrip(us, ts, cs, mX, mY, n - 1, stop, rd, st, D, WriteMcuF(us, ts, cs, mX, mY, n - 1, w0.st).bits + rest);
      EcsBackSnoc(us, ts, cs, mX, mY, n, stop, rd, st, D, rest);
    }
  }

  /** No component has a block coded last, as read_ecs and write_ecs set it before the first MCU. */
  predicate Restarted(st: Coeffs) {
    |st.last| == 256 && forall c | 0 <= c < 256 :: st.last[c].None?
  }

  /** A scan read back: the bits write_ecs sends for all m_x m_y MCUs, followed by anything,
      read_ecs reads as those MCUs, and then goes on from MCU m_x m_y with exactly what follows,
      the coefficients agreeing with the writer's on every block of the scan. */
  lemma {:induction false} ScanRoundTrip(us: seq<Unit>, ts: seq<seq<CodeTable>>, cs: seq<int>, mX: nat, mY: nat,
                                         stop: Status, rd: Coeffs, st: Coeffs, rest: seq<Bit>)
    requires Tabled(us, ts) && Canonicals(ts) && stop != Success
    requires Sized(us, rd) && Sized(us, st) && Int32s(st) && AcFit(st)
    requires Scannable(us, cs, mX, mY) && SameOrder(us, cs) && Restarted(rd) && Restarted(st)
    requires WriteEcsF(us, ts, cs, mX, mY, mX * mY, st).status == Success
    ensures var w := WriteEcsF(us, ts, cs, mX, mY, mX * mY, st);
            var r := ReadMcusF(us, ts, cs, mX, mX * mY, stop, rd, w.bits + rest);
            && ReadEcsF(us, ts, |cs|, cs, mX, 0, stop, rd, w.bits + rest)
               == ReadEcsF(us, ts, |cs|, cs, mX, mX * mY, stop, r.st, rest)
            && Agree(us, r.st, w.st, EcsBlocks(us, cs, mX, mY, mX * mY))
  {
    var N := mX * mY;
    assert Agree(us, rd, st, {});
    EcsRoundTrip(us, ts, cs, mX, mY, N, stop, rd, st, {}, rest);
    var w := WriteEcsF(us, ts, cs, mX, mY, N, st);
    ReadEcsPrefix(us, ts, cs, mX, N, stop, rd, w.bits + rest);
    assert {} + EcsBlocks(us, cs, mX, mY, N) == EcsBlocks(us, cs, mX, mY, N);
  }
}
