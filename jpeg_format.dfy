/// parse_format (Decoders/JPEG/decoder.c): the decoder's loop over the markers of a file. Each
/// marker is dispatched to the parser of its segment; DQT and DHT segments hold tables until
/// their length is used up; EOI ends the file with the epilogue's dequantisation.
module JpegFormat {
  import opened JpegCommon
  import opened JpegIo
  import opened JpegHuffman
  import opened JpegContext
  import opened JpegSegments
  import opened JpegScan
  import opened JpegMcu
  import opened JpegDecoder
  import opened JpegImgproc

  /* ---------------------------------------------------------------------------------------- */
  /* DQT and DHT segments                                                                     */
  /* ---------------------------------------------------------------------------------------- */

  /** The tables of a DQT segment whose bytes, from its length field on, are d: after the tables
      acc, parse_qtable at offset at, again while the offset reached lies before end. */
  function QTablesF(d: seq<byte>, at: nat, end: int, acc: seq<QtSpec>): (r: Parse<seq<QtSpec>>)
    requires at <= |d|
    ensures r.Parsed? ==> at < r.used <= |d| && end <= r.used && |acc| < |r.value| && r.value[..|acc|] == acc
    decreases |d| - at
  {
    var t := ParseQTableF(d[at..]);
    if t.Failed? then Failed(t.status)
    else if at + t.used < end then
      var r := QTablesF(d, at + t.used, end, acc + [t.value]);
      assert r.Parsed? ==> r.value[..|acc|] == (r.value[..|acc| + 1])[..|acc|];
      r
    else Parsed(acc + [t.value], at + t.used)
  }

  /** A DQT segment from its length field on: one table at least, tables until the length is
      used up; used counts the length field. */
  function DqtSegmentF(d: seq<byte>): (r: Parse<seq<QtSpec>>)
    ensures r.Parsed? ==> 2 < r.used <= |d| && BytesWord(d[0], d[1]) <= r.used && |r.value| > 0
  {
    if |d| < 2 then Failed(FailureFileIo) else QTablesF(d, 2, BytesWord(d[0], d[1]), [])
  }

  /** The last of the tables ts with destination t: the one parse_qtable leaves in qtable[t]. */
  function LastQt(ts: seq<QtSpec>, t: int): (r: Option<QtSpec>)
    ensures r.Some? ==> r.value in ts && r.value.tq == t
    ensures r.None? <==> forall k | 0 <= k < |ts| :: ts[k].tq != t
  {
    if ts == [] then None
    else if ts[|ts| - 1].tq == t then Some(ts[|ts| - 1])
    else
      var r := LastQt(ts[..|ts| - 1], t);
      assert forall k | 0 <= k < |ts| - 1 :: ts[..|ts| - 1][k] == ts[k];
      r
  }

  /** The table produce_DQT writes is the one table of the segment parse_format reads back. */
  lemma {:induction false} DqtSegmentRoundTrip(tq: byte, q: seq<int>, rest: seq<byte>)
    requires tq < 4 && |q| == 64 && forall k | 0 <= k < 64 :: 0 <= q[k] < 0x100
    ensures DqtSegmentF(DqtSegment(tq, q)[2..] + rest) == Parsed([QtSpec(0, tq, q)], 67)
  {
    var w := DqtSegment(tq, q);
    var d := w[2..] + rest;
    assert d[2..] == w[4..] + rest;
    assert BytesWord(d[0], d[1]) == 67;
    DqtRoundTrip(tq, q, rest);
  }

  /** The tables of a DHT segment whose bytes, from its length field on, are d: after the tables
      acc, parse_huffman_tables at offset at, again while the offset reached lies before end. */
  function HTablesF(d: seq<byte>, at: nat, end: int, acc: seq<HuffmanSpec>): (r: Parse<seq<HuffmanSpec>>)
    requires at <= |d|
    ensures r.Parsed? ==> at < r.used <= |d| && end <= r.used && |acc| < |r.value| && r.value[..|acc|] == acc
    decreases |d| - at
  {
    var t := ParseHuffmanTablesF(d[at..]);
    if t.Failed? then Failed(t.status)
    else if at + t.used < end then
      var r := HTablesF(d, at + t.used, end, acc + [t.value]);
      assert r.Parsed? ==> r.value[..|acc|] == (r.value[..|acc| + 1])[..|acc|];
      r
    else Parsed(acc + [t.value], at + t.used)
  }

  /** A DHT segment from its length field on: one table at least, tables until the length is
      used up; used counts the length field. */
  function DhtSegmentF(d: seq<byte>): (r: Parse<seq<HuffmanSpec>>)
    ensures r.Parsed? ==> 2 < r.used <= |d| && BytesWord(d[0], d[1]) <= r.used && |r.value| > 0
  {
    if |d| < 2 then Failed(FailureFileIo) else HTablesF(d, 2, BytesWord(d[0], d[1]), [])
  }

  /** The last of the tables ks of class j and destination i: the one parse_huffman_tables
      leaves in htable[j][i] and hcode[j][i]. */
  function LastHt(ks: seq<HuffmanSpec>, j: int, i: int): (r: Option<HuffmanSpec>)
    ensures r.Some? ==> r.value in ks && r.value.tc == j && r.value.th == i
    ensures r.None? <==> forall k | 0 <= k < |ks| :: (ks[k].tc, ks[k].th) != (j, i)
  {
    if ks == [] then None
    else if (ks[|ks| - 1].tc, ks[|ks| - 1].th) == (j, i) then Some(ks[|ks| - 1])
    else
      var r := LastHt(ks[..|ks| - 1], j, i);
      assert forall k | 0 <= k < |ks| - 1 :: ks[..|ks| - 1][k] == ks[k];
      r
  }

  /** The table produce_DHT writes is the one table of the segment parse_format reads back. */
  lemma {:induction false} DhtSegmentRoundTrip(tc: byte, th: byte, L: seq<int>, vals: seq<byte>, rest: seq<byte>)
    requires tc < 2 && th < 4 && CountsValid(L) && 0 < SumTo(L, 16) < 256 && |vals| == SumTo(L, 16)
    ensures DhtSegmentF(DhtSegment(tc, th, L, vals)[2..] + rest)
            == Parsed([HuffmanSpec(tc, th, L, vals)], 19 + |vals|)
  {
    var w := DhtSegment(tc, th, L, vals);
    var d := w[2..] + rest;
    assert d[2..] == w[4..] + rest;
    assert BytesWord(d[0], d[1]) == 19 + |vals|;
    DhtRoundTrip(tc, th, L, vals, rest);
  }

  /* ---------------------------------------------------------------------------------------- */
  /* Markers                                                                                  */
  /* ---------------------------------------------------------------------------------------- */

  /** What parse_format's switch does on a marker. */
  datatype Action =
    | Start                  // SOI: nothing
    | App                    // APPn for n = 0 to 8 and 11 to 14: skipped
    | Dqt
    | Sof(supported: bool)   // SOF0 and SOF1; SOF2, SOF3, SOF9 and SOF10 are refused once parsed
    | Dht
    | Sos
    | End                    // EOI
    | Dri
    | Restart                // RSTm: the scan goes on
    | Comment
    | Tem                    // TEM: nothing
    | Dac                    // skipped
    | Unhandled              // any other marker, APP9, APP10 and APP15 among them

  function ActionOf(marker: int): Action {
    if marker == 0xFFD8 then Start
    else if 0xFFE0 <= marker <= 0xFFEE && marker != 0xFFE9 && marker != 0xFFEA then App
    else if marker == 0xFFDB then Dqt
    else if marker == 0xFFC0 || marker == 0xFFC1 then Sof(true)
    else if marker == 0xFFC2 || marker == 0xFFC3 || marker == 0xFFC9 || marker == 0xFFCA then Sof(false)
    else if marker == 0xFFC4 then Dht
    else if marker == 0xFFDA then Sos
    else if marker == 0xFFD9 then End
    else if marker == 0xFFDD then Dri
    else if 0xFFD0 <= marker <= 0xFFD7 then Restart
    else if marker == 0xFFFE then Comment
    else if marker == 0xFF01 then Tem
    else if marker == 0xFFCC then Dac
    else Unhandled
  }

  /** The markers whose segment defines tables or the restart interval, or is skipped. */
  predicate Defines(a: Action) {
    a.Dqt? || a.Dht? || a.Dri? || a.App? || a.Dac? || a.Comment?
  }

  /** The markers after which parse_format reads the next one, when their segment parses. */
  predicate Continues(a: Action) {
    !a.End? && !a.Unhandled? && a != Sof(false)
  }

  /* ---------------------------------------------------------------------------------------- */
  /* The decoder's state between markers                                                      */
  /* ---------------------------------------------------------------------------------------- */

  /** What parse_format keeps between markers: the context as the decoder keeps it, the scan's
      ids in range, and the stream and the scan none of the context's objects. */
  ghost predicate Ready(s: InStream, ctx: Context, scan: Scan)
    reads ctx, ctx.component, ctx.slot.Keys, scan
  {
    && Decoding(ctx) && ScanIds(scan)
    && s !in ctx.slot && scan !in ctx.slot && s !in ctx.bufferSlot && scan !in ctx.bufferSlot
  }

  /** The objects of the Huffman table sets have slots 8 to 71: none is a quantisation table or
      a component. */
  lemma {:induction false} TableSetsInSlots(ctx: Context)
    requires ctx.Shaped()
    ensures forall j, i, o | 0 <= j < 2 && 0 <= i < 4 && o in TableSet(ctx, j, i) ::
              o in ctx.slot && 8 <= ctx.slot[o] < 72
  {
    forall j, i, o | 0 <= j < 2 && 0 <= i < 4 && o in TableSet(ctx, j, i)
      ensures o in ctx.slot && 8 <= ctx.slot[o] < 72
    {
      TableSetSlots(ctx, j, i, o);
    }
  }

  /** What each marker's parser may write lies among the context's slotted objects and buffers. */
  lemma {:induction false} Footprints(ctx: Context)
    requires ctx.Valid()
    ensures DhtObjects(ctx) <= ctx.slot.Keys && FltBuffers(ctx) <= ctx.bufferSlot.Keys
    ensures forall c | 0 <= c < 256 :: ctx.component[c] in ctx.slot.Keys
  {
    TableSetsInSlots(ctx);
    forall c | 0 <= c < 256
      ensures ctx.component[c] in ctx.slot.Keys
      ensures ctx.component[c].fltBuffer != null ==> ctx.component[c].fltBuffer in ctx.bufferSlot.Keys
    {
      assert ctx.Owns(ctx.component[c], ComponentSlot(c)) && ctx.ComponentSized(c);
    }
  }

  /** A call that left the Huffman table sets as they were left each of them usable. */
  twostate lemma {:induction false} TablesKept(ctx: Context)
    requires old(Decoding(ctx))
    requires forall o: object | o in ctx.slot && 8 <= ctx.slot[o] < 72 :: unchanged(o)
    ensures forall j, i | 0 <= j < 2 && 0 <= i < 4 :: TableValid(ctx, j, i)
    ensures TablesOf(ctx) == old(TablesOf(ctx))
  {
    TablesUsable(ctx);
    TableRowsKept(ctx);
  }

  /** TableValid reads only a table set's own objects. */
  twostate lemma {:induction false} TablesUsable(ctx: Context)
    requires old(Decoding(ctx))
    requires forall o: object | o in ctx.slot && 8 <= ctx.slot[o] < 72 :: unchanged(o)
    ensures forall j, i | 0 <= j < 2 && 0 <= i < 4 :: TableValid(ctx, j, i)
  {
    TableSetsInSlots(ctx);
    forall j, i | 0 <= j < 2 && 0 <= i < 4
      ensures TableValid(ctx, j, i)
    {
      assert old(TableValid(ctx, j, i));
    }
  }

  /** Nor does the code table a set holds read anything else. */
  twostate lemma {:induction false} TableRowsKept(ctx: Context)
    requires old(Decoding(ctx))
    requires forall o: object | o in ctx.slot && 8 <= ctx.slot[o] < 72 :: unchanged(o)
    ensures TableRow(ctx, 0) == old(TableRow(ctx, 0)) && TableRow(ctx, 1) == old(TableRow(ctx, 1))
  {
    TableSetsInSlots(ctx);
    forall j, i | 0 <= j < 2 && 0 <= i < 4
      ensures Table(ctx.hcode[j][i]) == old(Table(ctx.hcode[j][i]))
    {
      assert old(TableValid(ctx, j, i));
    }
    ghost var r0, r1 := TableRow(ctx, 0), TableRow(ctx, 1);
    assert r0 == old(TableRow(ctx, 0));
    assert r1 == old(TableRow(ctx, 1));
  }

  /** No component is an object with a slot below the components'. */
  lemma {:induction false} ComponentsApart(ctx: Context)
    requires ctx.Shaped()
    ensures forall o: object | o in ctx.slot && ctx.slot[o] < 112 :: o !in ctx.component
  {
    forall c | 0 <= c < 256
      ensures ctx.component[c] in ctx.slot && ctx.slot[ctx.component[c]] >= 112
    {
      assert ctx.Owns(ctx.component[c], ComponentSlot(c));
    }
  }

  /** A call that kept every component's coefficient buffer and left the buffers alone keeps
      their contents. */
  twostate lemma {:induction false} BufsSame(ctx: Context)
    requires old(ctx.Valid()) && ctx.Valid()
    requires forall c | 0 <= c < 256 :: ctx.component[c].intBuffer == old(ctx.component[c].intBuffer)
    requires forall c | 0 <= c < 256 :: ctx.component[c].intBuffer != null ==> unchanged(ctx.component[c].intBuffer)
    ensures BufsUpTo(ctx, 256) == old(BufsUpTo(ctx, 256))
  {
    forall c | 0 <= c < 256
      ensures BufsUpTo(ctx, 256)[c] == old(BufsUpTo(ctx, 256))[c]
    {
    }
  }

  /** A call that kept the sampling factors H, the grid widths and the MCU grid, and left every
      table usable, keeps the context as the decoder keeps it. */
  twostate lemma {:induction false} DecodingKept(ctx: Context)
    requires old(Decoding(ctx)) && ctx.Valid() && ctx.mX == old(ctx.mX)
    requires forall j, i | 0 <= j < 2 && 0 <= i < 4 :: TableValid(ctx, j, i)
    requires forall c | 0 <= c < 256 ::
               ctx.component[c].H == old(ctx.component[c].H) && ctx.component[c].bX == old(ctx.component[c].bX)
    ensures Decoding(ctx)
  {
  }

  /** Grids of m_x H blocks to a row for every sampled component, and none for the others,
      are as wide as reading an MCU row needs. */
  lemma {:induction false} GriddedOf(ctx: Context)
    requires ctx.Valid()
    requires forall c | 0 <= c < 256 && ctx.component[c].H != 0 :: Allocated(ctx.component[c], ctx.mX, ctx.mY)
    ensures Gridded(ctx)
  {
    forall c | 0 <= c < 256
      ensures ctx.component[c].bX >= ctx.mX * ctx.component[c].H
    {
      assert ctx.ComponentSized(c);
    }
  }

  /* ---------------------------------------------------------------------------------------- */
  /* Segments                                                                                 */
  /* ---------------------------------------------------------------------------------------- */

  /** An APPn or DAC segment: its length, then skip_segment past the rest. The length counts
      its own two bytes, so a length below 2 moves back over them. */
  method SkipMarkerSegment(s: InStream) returns (err: Status)
    modifies s
    ensures var d := old(Remaining(s));
            if |d| >= 2 then err == Success && s.pos == old(s.pos) + BytesWord(d[0], d[1])
            else err == FailureFileIo
  {
    var len;
    err, len := ReadWord(s);
    if err != Success {
      return;
    }
    err := SkipSegment(s, len);
  }

  /** Quantisation table t holds table k, or, for none, what it held before: pq0 and q0. */
  ghost predicate QtHeld(ctx: Context, t: int, k: Option<QtSpec>, pq0: int, q0: seq<int>)
    requires ctx.Shaped() && 0 <= t < 4
    reads ctx.qtable[t], ctx.qtable[t].Q
  {
    match k
    case None => ctx.qtable[t].Pq == pq0 && ctx.qtable[t].Q[..] == q0
    case Some(v) => ctx.qtable[t].Pq == v.pq && ctx.qtable[t].Q[..] == v.q
  }

  /** What quantisation table t holds: Pq and the 64 entries. */
  ghost function QtContents(ctx: Context, t: int): (int, seq<int>)
    requires ctx.Shaped() && 0 <= t < 4
    reads ctx.qtable[t], ctx.qtable[t].Q
  {
    (ctx.qtable[t].Pq, ctx.qtable[t].Q[..])
  }

  /** What the four quantisation tables held. */
  ghost function QtSnapshot(ctx: Context): (cs: seq<(int, seq<int>)>)
    requires ctx.Shaped()
    reads ctx.QObjects()
    ensures |cs| == 4 && forall t | 0 <= t < 4 :: cs[t] == QtContents(ctx, t)
  {
    [QtContents(ctx, 0), QtContents(ctx, 1), QtContents(ctx, 2), QtContents(ctx, 3)]
  }

  /** Every quantisation table holds the last of the tables ts it was given, or what cs says it
      held. */
  ghost predicate QtHeldAll(ctx: Context, ts: seq<QtSpec>, cs: seq<(int, seq<int>)>)
    requires ctx.Shaped() && |cs| == 4
    reads ctx.QObjects()
  {
    forall t | 0 <= t < 4 :: QtHeld(ctx, t, LastQt(ts, t), cs[t].0, cs[t].1)
  }

  /** Nothing loaded yet: every quantisation table holds what the snapshot says. */
  lemma {:induction false} QtStart(ctx: Context, cs: seq<(int, seq<int>)>)
    requires ctx.Shaped() && cs == QtSnapshot(ctx)
    ensures QtHeldAll(ctx, [], cs)
  {
  }

  /** QTablesF one table on: what parse_qtable makes of the bytes at offset at. */
  lemma QTablesNext(d: seq<byte>, at: nat, end: int, acc: seq<QtSpec>, t: Parse<QtSpec>)
      returns (at': nat, acc': seq<QtSpec>)
    requires at <= |d| && t == ParseQTableF(d[at..])
    ensures t.Failed? ==> QTablesF(d, at, end, acc) == Failed(t.status)
    ensures t.Parsed? ==> at' == at + t.used <= |d| && acc' == acc + [t.value]
    ensures t.Parsed? && at' < end ==> QTablesF(d, at, end, acc) == QTablesF(d, at', end, acc')
    ensures t.Parsed? && at' >= end ==> QTablesF(d, at, end, acc) == Parsed(acc', at')
  {
    at', acc' := at, acc;
    if t.Parsed? {
      at', acc' := at + t.used, acc + [t.value];
    }
  }

  /** One pass of the DQT segment's loop: one parse_qtable, t being what it makes of the bytes
      left. On success the tables hold the last of the tables ts and t's table. */
  method ParseDqtStep(s: InStream, ctx: Context, scan: Scan, ghost ts: seq<QtSpec>, ghost cs: seq<(int, seq<int>)>)
      returns (err: Status, ghost t: Parse<QtSpec>)
    requires Ready(s, ctx, scan) && |cs| == 4 && QtHeldAll(ctx, ts, cs)
    modifies s, ctx.QObjects()
    ensures Ready(s, ctx, scan)
    ensures t == ParseQTableF(old(Remaining(s))) && err == StatusOf(t) && (err == Success <==> t.Parsed?)
    ensures t.Parsed? ==> s.pos == old(s.pos) + t.used
    ensures t.Parsed? ==> QtHeldAll(ctx, ts + [t.value], cs)
  {
    t := ParseQTableF(Remaining(s));
    QObjectsApart(ctx);
    TableSetsInSlots(ctx);
    assert scan !in ctx.QObjects();
    label Before:
    err := ParseQTable(s, ctx);
    TablesKept@Before(ctx);
    DecodingKept@Before(ctx);
    if err != Success {
      return;
    }
    assert TqOf(old(Remaining(s))) == t.value.tq;
    ghost var ts' := ts + [t.value];
    assert ts'[..|ts|] == ts;
    forall k | 0 <= k < 4
      ensures QtHeld(ctx, k, LastQt(ts', k), cs[k].0, cs[k].1)
    {
      if k != t.value.tq {
        assert QtContents(ctx, k) == old(QtContents(ctx, k));
      }
    }
  }

  /** How a DQT segment at bytes d, read from position p0 over tables that held q0, ends: with
      the status DqtSegmentF gives and, when it parses, the stream after the segment and each
      destination holding the last table the segment gives it, or what q0 says it held. */
  ghost predicate DqtDone(d: seq<byte>, p0: int, q0: seq<(int, seq<int>)>, s: InStream, ctx: Context, err: Status)
    requires ctx.Shaped()
    reads s, ctx.QObjects()
  {
    var r := DqtSegmentF(d);
    && err == StatusOf(r)
    && (r.Parsed? ==> s.pos == p0 + r.used && |q0| == 4 && QtHeldAll(ctx, r.value, q0))
  }

  /** A DQT segment: its length, then parse_qtable until the stream reaches the segment's end,
      one table at least. What it returns is what DqtSegmentF makes of the bytes; each
      destination then holds the last table the segment gives it, and the others keep theirs. */
  method ParseDqt(s: InStream, ctx: Context, scan: Scan) returns (err: Status)
    requires Ready(s, ctx, scan)
    modifies s, ctx.QObjects()
    ensures Ready(s, ctx, scan)
    ensures DqtDone(old(Remaining(s)), old(s.pos), old(QtSnapshot(ctx)), s, ctx, err)
  {
    ghost var d := Remaining(s);
    ghost var whole := DqtSegmentF(d);
    ghost var cs := QtSnapshot(ctx);
    var pos := s.pos;
    var len;
    QObjectsApart(ctx);
    assert s !in ctx.QObjects();
    err, len := ReadWord(s);
    if err != Success {
      assert whole == Failed(FailureFileIo);
      return;
    }
    assert cs == QtSnapshot(ctx);
    QtStart(ctx, cs);
    ghost var ts: seq<QtSpec> := [];
    ghost var at: nat := 2;
    assert whole == QTablesF(d, at, len, ts);
    while true
      invariant Ready(s, ctx, scan)
      invariant at <= |d| && s.pos == pos + at && d == s.data[pos..]
      invariant whole == QTablesF(d, at, len, ts)
      invariant QtHeldAll(ctx, ts, cs)
      decreases |d| - at
    {
      RemainingAt(s, d, pos, at);
      ghost var t;
      err, t := ParseDqtStep(s, ctx, scan, ts, cs);
      ghost var at', ts' := QTablesNext(d, at, len, ts, t);
      if err != Success {
        assert whole == Failed(err);
        return;
      }
      ts, at := ts', at';
      if s.pos >= pos + len {
        assert whole == Parsed(ts, at);
        return;
      }
    }
  }

  /** Everything table set (j, i) holds: the counts, the values array row by row, the hcode's
      tables and its encoder arrays. */
  ghost function Contents(ctx: Context, j: int, i: int): (seq<int>, seq<int>, CodeTable, seq<int>, seq<int>)
    requires ctx.Shaped() && 0 <= j < 2 && 0 <= i < 4
    reads TableSet(ctx, j, i)
  {
    var t, h := ctx.htable[j][i], ctx.hcode[j][i];
    var V := t.V;
    (t.L[..], seq(16 * 255, p reads V => if 0 <= p / 255 < V.Length0 && 0 <= p % 255 < V.Length1 then V[p / 255, p % 255] else 0), Table(h), h.eHufCo[..],
     h.eHufSi[..])
  }

  /** Nothing loaded yet: every table set holds what the snapshot says. */
  lemma {:induction false} HeldStart(ctx: Context, cs: seq<seq<(seq<int>, seq<int>, CodeTable, seq<int>, seq<int>)>>)
    requires ctx.Shaped() && cs == Snapshot(ctx)
    ensures HeldAll(ctx, [], cs)
  {
  }

  /** Table set (j, i) holds table k, or, for none, what it held before: c0. */
  ghost predicate HtHeld(ctx: Context, j: int, i: int, k: Option<HuffmanSpec>,
                         c0: (seq<int>, seq<int>, CodeTable, seq<int>, seq<int>))
    requires ctx.Shaped() && 0 <= j < 2 && 0 <= i < 4
    reads TableSet(ctx, j, i)
  {
    match k
    case None => Contents(ctx, j, i) == c0
    case Some(v) => ctx.TableSlotted(j, i) && Loaded(ctx.htable[j][i], ctx.hcode[j][i], v)
  }

  /** What the table sets held: Contents for each of the [2][4]. */
  ghost function Snapshot(ctx: Context): (cs: seq<seq<(seq<int>, seq<int>, CodeTable, seq<int>, seq<int>)>>)
    requires ctx.Shaped()
    reads DhtObjects(ctx)
    ensures |cs| == 2 && forall j | 0 <= j < 2 :: |cs[j]| == 4 && forall i | 0 <= i < 4 :: cs[j][i] == Contents(ctx, j, i)
  {
    [[Contents(ctx, 0, 0), Contents(ctx, 0, 1), Contents(ctx, 0, 2), Contents(ctx, 0, 3)],
     [Contents(ctx, 1, 0), Contents(ctx, 1, 1), Contents(ctx, 1, 2), Contents(ctx, 1, 3)]]
  }

  /** Every table set holds the last of the tables ks it was given, or what cs says it held. */
  ghost predicate HeldAll(ctx: Context, ks: seq<HuffmanSpec>,
                          cs: seq<seq<(seq<int>, seq<int>, CodeTable, seq<int>, seq<int>)>>)
    requires ctx.Shaped() && |cs| == 2 && forall j | 0 <= j < 2 :: |cs[j]| == 4
    reads DhtObjects(ctx)
  {
    forall j, i | 0 <= j < 2 && 0 <= i < 4 :: HtHeld(ctx, j, i, LastHt(ks, j, i), cs[j][i])
  }

  /** HTablesF one table on: what parse_huffman_tables makes of the bytes at offset at. */
  lemma HTablesNext(d: seq<byte>, at: nat, end: int, acc: seq<HuffmanSpec>, t: Parse<HuffmanSpec>)
      returns (at': nat, acc': seq<HuffmanSpec>)
    requires at <= |d| && t == ParseHuffmanTablesF(d[at..])
    ensures t.Failed? ==> HTablesF(d, at, end, acc) == Failed(t.status)
    ensures t.Parsed? ==> at' == at + t.used <= |d| && acc' == acc + [t.value]
    ensures t.Parsed? && at' < end ==> HTablesF(d, at, end, acc) == HTablesF(d, at', end, acc')
    ensures t.Parsed? && at' >= end ==> HTablesF(d, at, end, acc) == Parsed(acc', at')
  {
    at', acc' := at, acc;
    if t.Parsed? {
      at', acc' := at + t.used, acc + [t.value];
    }
  }

  /** One pass of the DHT segment's loop: one parse_huffman_tables, t being what it makes of the
      bytes left. On success the table sets hold the last of the tables ks and t's table. */
  method ParseDhtStep(s: InStream, ctx: Context, scan: Scan, ghost ks: seq<HuffmanSpec>,
                      ghost cs: seq<seq<(seq<int>, seq<int>, CodeTable, seq<int>, seq<int>)>>)
      returns (err: Status, ghost t: Parse<HuffmanSpec>)
    requires Ready(s, ctx, scan)
    requires |cs| == 2 && (forall j | 0 <= j < 2 :: |cs[j]| == 4) && HeldAll(ctx, ks, cs)
    modifies s, DhtObjects(ctx)
    ensures Ready(s, ctx, scan)
    ensures t == ParseHuffmanTablesF(old(Remaining(s))) && err == StatusOf(t) && (err == Success <==> t.Parsed?)
    ensures t.Parsed? ==> s.pos == old(s.pos) + t.used
    ensures t.Parsed? ==> HeldAll(ctx, ks + [t.value], cs)
  {
    t := ParseHuffmanTablesF(Remaining(s));
    DhtObjectsApart(ctx);
    assert scan !in DhtObjects(ctx);
    err := ParseHuffmanTables(s, ctx);
    assert ScanIds(scan);
    assert s !in ctx.slot && scan !in ctx.slot;
    assert s !in ctx.bufferSlot && scan !in ctx.bufferSlot;
    DecodingKept(ctx);
    if err != Success {
      return;
    }
    assert TcThOf(old(Remaining(s))) == (t.value.tc, t.value.th);
    ghost var ks' := ks + [t.value];
    assert ks'[..|ks|] == ks;
    forall j, i | 0 <= j < 2 && 0 <= i < 4
      ensures HtHeld(ctx, j, i, LastHt(ks', j, i), cs[j][i])
    {
      if (j, i) != (t.value.tc, t.value.th) {
        assert Contents(ctx, j, i) == old(Contents(ctx, j, i));
      }
    }
  }

  /** How a DHT segment at bytes d, read from position p0 over table sets that held c0, ends:
      with the status DhtSegmentF gives and, when it parses, the stream after the segment and
      each table set holding the last table the segment gives it, or what c0 says it held. */
  ghost predicate DhtDone(d: seq<byte>, p0: int, c0: seq<seq<(seq<int>, seq<int>, CodeTable, seq<int>, seq<int>)>>,
                          s: InStream, ctx: Context, err: Status)
    requires ctx.Shaped()
    reads s, DhtObjects(ctx)
  {
    var r := DhtSegmentF(d);
    && err == StatusOf(r)
    && (r.Parsed? ==>
          && s.pos == p0 + r.used && |c0| == 2 && (forall j | 0 <= j < 2 :: |c0[j]| == 4)
          && HeldAll(ctx, r.value, c0))
  }

  /** A DHT segment: its length, then parse_huffman_tables until the stream reaches the
      segment's end, one table at least. What it returns is what DhtSegmentF makes of the bytes;
      each table set then holds the last table the segment gives it, and the others hold what
      they held. */
  method ParseDht(s: InStream, ctx: Context, scan: Scan) returns (err: Status)
    requires Ready(s, ctx, scan)
    modifies s, DhtObjects(ctx)
    ensures Ready(s, ctx, scan)
    ensures DhtDone(old(Remaining(s)), old(s.pos), old(Snapshot(ctx)), s, ctx, err)
  {
    ghost var d := Remaining(s);
    ghost var whole := DhtSegmentF(d);
    ghost var cs := Snapshot(ctx);
    var pos := s.pos;
    var len;
    DhtObjectsApart(ctx);
    assert s !in DhtObjects(ctx);
    err, len := ReadWord(s);
    if err != Success {
      assert whole == Failed(FailureFileIo);
      return;
    }
    assert cs == Snapshot(ctx);
    HeldStart(ctx, cs);
    ghost var ks: seq<HuffmanSpec> := [];
    ghost var at: nat := 2;
    assert whole == HTablesF(d, at, len, ks);
    while true
      invariant Ready(s, ctx, scan)
      invariant at <= |d| && s.pos == pos + at && d == s.data[pos..]
      invariant whole == HTablesF(d, at, len, ks)
      invariant HeldAll(ctx, ks, cs)
      decreases |d| - at
    {
      RemainingAt(s, d, pos, at);
      ghost var t;
      err, t := ParseDhtStep(s, ctx, scan, ks, cs);
      ghost var at', ks' := HTablesNext(d, at, len, ks, t);
      if err != Success {
        assert whole == Failed(err);
        return;
      }
      ks, at := ks', at';
      if s.pos >= pos + len {
        assert whole == Parsed(ks, at);
        return;
      }
    }
  }

  /** The Huffman table sets are neither the context nor one of its components. */
  lemma {:induction false} DhtObjectsApart(ctx: Context)
    requires ctx.Shaped()
    ensures ctx !in DhtObjects(ctx) && forall c | 0 <= c < 256 :: ctx.component[c] !in DhtObjects(ctx)
    ensures DhtObjects(ctx) <= ctx.slot.Keys
  {
    TableSetsInSlots(ctx);
    forall c | 0 <= c < 256
      ensures ctx.component[c] !in DhtObjects(ctx)
    {
      assert ctx.Owns(ctx.component[c], ComponentSlot(c));
    }
  }

  /* ---------------------------------------------------------------------------------------- */
  /* The other markers                                                                         */
  /* ---------------------------------------------------------------------------------------- */

  /** How a DRI segment at bytes d, read from position p0 with restart interval ri0, ends: the
      interval is the word after the length, or a short stream fails and keeps ri0. */
  ghost predicate DriDone(d: seq<byte>, p0: int, ri0: int, s: InStream, ctx: Context, err: Status)
    reads s, ctx
  {
    if |d| >= 4 then err == Success && ctx.Ri == BytesWord(d[2], d[3]) && s.pos == p0 + 4
    else err == FailureFileIo && ctx.Ri == ri0
  }

  /** A DRI segment: its length, then parse_restart_interval. */
  method ParseDri(s: InStream, ctx: Context, scan: Scan) returns (err: Status)
    requires Ready(s, ctx, scan)
    modifies s, ctx`Ri
    ensures Ready(s, ctx, scan)
    ensures DriDone(old(Remaining(s)), old(s.pos), old(ctx.Ri), s, ctx, err)
  {
    ghost var d := Remaining(s);
    ghost var p0 := s.pos;
    var len;
    err, len := ReadWord(s);
    if err != Success {
      return;
    }
    RemainingAt(s, d, p0, 2);
    label Before:
    err := ParseRestartInterval(s, ctx);
    TablesKept@Before(ctx);
    DecodingKept@Before(ctx);
  }

  /** How a COM segment at bytes d, read from position p0, ends: with parse_comment's status
      over the comment its length gives, the stream after it when it parses. */
  ghost predicate ComDone(d: seq<byte>, p0: int, s: InStream, err: Status)
    reads s
  {
    if |d| < 2 then err == FailureFileIo
    else var r := CommentF(d[2..], BytesWord(d[0], d[1]));
         err == StatusOf(r) && (r.Parsed? ==> s.pos == p0 + 2 + r.used)
  }

  /** A COM segment: its length, then parse_comment over the rest of it. */
  method ParseCom(s: InStream) returns (err: Status)
    modifies s
    ensures ComDone(old(Remaining(s)), old(s.pos), s, err)
  {
    ghost var d := Remaining(s);
    ghost var p0 := s.pos;
    var len;
    err, len := ReadWord(s);
    if err != Success {
      return;
    }
    RemainingAt(s, d, p0, 2);
    err := ParseComment(s, len);
  }

  /** An RSTm marker: read_ecs goes on with the scan, from the MCU count the scan reached. */
  /** What read_ecs leaves once the scan read is r, on a scan of components cs0[..ns0] with mX0
      MCUs to a row: the scan and the grid as they were, r's status, MCU count, coefficients
      and last blocks. */
  ghost predicate RstDone(r: Scanned, ns0: int, cs0: seq<int>, mX0: int, ctx: Context, scan: Scan, err: Status)
    reads ctx, ctx.component, IntBuffers(ctx), scan
  {
    && ctx.Valid() && scan.Ns == ns0 && scan.Cs == cs0 && ctx.mX == mX0
    && err == r.status && ctx.mblocks == r.mcus
    && BufsUpTo(ctx, 256) == r.st.bufs && scan.lastBlock == r.st.last
  }

  method ParseRst(s: InStream, ctx: Context, scan: Scan) returns (err: Status, ghost left: seq<Bit>)
    requires Ready(s, ctx, scan)
    modifies s, ctx`mblocks, IntBuffers(ctx), scan`lastBlock
    ensures Ready(s, ctx, scan)
    ensures RstDone(old(EcsSpec(s, ctx, scan)), old(scan.Ns), old(scan.Cs), old(ctx.mX), ctx, scan, err)
    ensures |left| <= 8 && old(EcsSpec(s, ctx, scan)).rest == left + BytesBits(EntropyCoded(Remaining(s)).bytes)
  {
    ghost var us, ts := UnitsOf(ctx), TablesOf(ctx);
    err, left := ReadEcs(s, ctx, scan, us, ts);
  }

  /** EOI: the stream is taken to its end and the epilogue's dequantize runs; every component's
      floating-point buffer then holds its coefficients dequantised. */
  method ParseEoi(s: InStream, ctx: Context) returns (err: Status)
    requires ctx.Valid()
    modifies s, FltBuffers(ctx)
    ensures err == Success && s.pos == |s.data| && ctx.Valid()
    ensures forall c | 0 <= c < 256 :: DequantizedComponent(ctx, c)
  {
    s.pos := |s.data|;
    err := Dequantize(ctx);
  }

  /** The status a SOFn segment ends with, from the bytes d after its length: parse_frame_header,
      whose maximum sampling factors must be nonzero; a supported process then goes on, the others
      are refused. */
  function SofStatus(d: seq<byte>, supported: bool): (err: Status)
    ensures err == Success <==> supported && ParseFrameHeaderF(d).Parsed? && MaxH(ParseFrameHeaderF(d).value.comps) != 0
                                && MaxV(ParseFrameHeaderF(d).value.comps) != 0
    ensures ParseFrameHeaderF(d).Failed? ==> err == ParseFrameHeaderF(d).status
  {
    var r := ParseFrameHeaderF(d);
    if r.Failed? then r.status
    else if MaxH(r.value.comps) == 0 || MaxV(r.value.comps) == 0 || !supported then FailureFileUnsupported
    else Success
  }

  /** How a SOFn segment whose header is at bytes d, read from position p0 over components
      with headers hs0, ends: with SofStatus; once the header parses, the stream after it, the
      frame fields and component specifications in the context and, with nonzero maximum
      sampling factors, the MCU grid computed and every sampled component's buffers allocated. */
  ghost predicate SofDone(d: seq<byte>, p0: int, hs0: seq<(int, int, int, int, int)>, supported: bool,
                          s: InStream, ctx: Context, err: Status)
    requires ctx.Shaped()
    reads s, ctx, ctx.component, set c | 0 <= c < |ctx.component| :: ctx.component[c].intBuffer
  {
    && err == SofStatus(d, supported)
    && var r := ParseFrameHeaderF(d);
       r.Parsed? ==>
         && s.pos == p0 + 6 + 3 * r.value.nf
         && ctx.P == r.value.p && ctx.Y == r.value.y && ctx.X == r.value.x && ctx.Nf == r.value.nf
         && ctx.maxH == MaxH(r.value.comps) && ctx.maxV == MaxV(r.value.comps)
         && |hs0| == 256 && Declares(ctx, hs0, r.value.comps)
         && (ctx.maxH != 0 && ctx.maxV != 0 ==>
               && ctx.mX == CeilDiv(ctx.X, 8 * ctx.maxH) && ctx.mY == CeilDiv(ctx.Y, 8 * ctx.maxV)
               && forall c | 0 <= c < 256 && ctx.component[c].H != 0 ::
                    Allocated(ctx.component[c], ctx.mX, ctx.mY))
  }

  /** A SOFn segment after its length: parse_frame_header. Once the header parses, the frame
      fields and component specifications are in the context and, with nonzero maximum sampling
      factors, the MCU grid is computed and every sampled component has new zeroed buffers; only
      SOF0 and SOF1 then go on. */
  method ParseSof(s: InStream, ctx: Context, scan: Scan, supported: bool) returns (err: Status)
    requires Ready(s, ctx, scan)
    modifies s, ctx, ctx.component
    ensures ctx.Valid() && ctx.BuffersFresh()
    ensures err == Success ==> Ready(s, ctx, scan)
    ensures SofDone(old(Remaining(s)), old(s.pos), old(Headers(ctx)), supported, s, ctx, err)
  {
    label Before:
    err := ParseFrameHeader(s, ctx);
    if err != Success {
      return;
    }
    if !supported {
      return FailureFileUnsupported;
    }
    TablesKept@Before(ctx);
    GriddedOf(ctx);
  }

  /** The units after a scan header: each component keeps its sampling factors and grid and
      takes the table selectors of the last scan component selector naming it. */
  function Rechosen(us: seq<Unit>, ks: seq<Selector>): seq<Unit> {
    seq(|us|, c requires 0 <= c < |us| =>
      var k := LastSelector(ks, c);
      if k.Some? then Unit(us[c].g, k.value.td, k.value.ta) else us[c])
  }

  /** ecs is what read_ecs makes of the scan that starts at d, on units us, code tables ts,
      the scan's components cs[..ns], mX MCUs to a row and coefficient buffers bufs: the
      entropy-coded bytes of d read from MCU 0 with no last block. */
  ghost predicate ScanFrom(ecs: Scanned, us: seq<Unit>, ts: seq<seq<CodeTable>>, ns: nat, cs: seq<int>,
                           mX: int, bufs: seq<seq<int>>, d: seq<byte>)
  {
    && Tabled(us, ts) && Sized(us, Coeffs(bufs, NoLastBlocks)) && ns <= |cs| && Ids(cs) && mX >= 0
    && ecs == ReadEcsF(us, ts, ns, cs, mX, 0, EntropyCoded(d).stop, Coeffs(bufs, NoLastBlocks),
                       BytesBits(EntropyCoded(d).bytes))
  }

  /** At the start of a scan, read_ecs's specification is the scan read from the stream's
      position. */
  lemma {:induction false} EcsSpecFrom(s: InStream, ctx: Context, scan: Scan)
    requires Decoding(ctx) && ScanIds(scan) && ctx.mblocks == 0
    ensures ScanFrom(EcsSpec(s, ctx, scan), UnitsOf(ctx), TablesOf(ctx), scan.Ns, scan.Cs, ctx.mX,
                     BufsUpTo(ctx, 256), Remaining(s))
  {
    DecodingTabled(ctx);
  }

  /** Units us are the ones component headers hs and grids gs give. */
  ghost predicate UnitsMatch(us: seq<Unit>, hs: seq<(int, int, int, int, int)>,
                             gs: seq<(int, int, array?<int>, array?<real>, array?<real>)>)
  {
    && |us| == 256 && |hs| == 256 && |gs| == 256
    && forall c | 0 <= c < 256 ::
         && us[c].g.H == hs[c].0 && us[c].g.V == hs[c].1 && us[c].td == hs[c].3 && us[c].ta == hs[c].4
         && us[c].g.bX == gs[c].0 && us[c].g.bY == gs[c].1
  }

  lemma {:induction false} UnitsMatchOf(ctx: Context)
    requires ctx.Valid()
    ensures UnitsMatch(UnitsOf(ctx), Headers(ctx), Grids256(ctx))
  {
  }

  /** A context whose components took the selectors ks over headers hs0 and kept grids gs0 has
      the units us0 of those headers and grids, rechosen. */
  lemma {:induction false} UnitsAfter(ctx: Context, us0: seq<Unit>, hs0: seq<(int, int, int, int, int)>,
                                      gs0: seq<(int, int, array?<int>, array?<real>, array?<real>)>, ks: seq<Selector>)
    requires ctx.Valid() && UnitsMatch(us0, hs0, gs0) && Grids(ctx, gs0) && Chooses(ctx, hs0, ks)
    ensures UnitsOf(ctx) == Rechosen(us0, ks)
  {
    forall c | 0 <= c < 256
      ensures UnitsOf(ctx)[c] == Rechosen(us0, ks)[c]
    {
      assert Header(ctx.component[c]) == Selects(hs0[c], LastSelector(ks, c));
      assert Grid(ctx.component[c]) == gs0[c];
    }
  }

  /** A scan header that took selectors, kept every grid and left the tables and the buffers
      alone keeps the context as the decoder keeps it, its tables and its coefficients. */
  twostate lemma {:induction false} ScanHeaderKept(ctx: Context)
    requires old(Decoding(ctx)) && ctx.Valid() && ctx.mX == old(ctx.mX)
    requires Grids(ctx, old(Grids256(ctx))) && exists ks :: Chooses(ctx, old(Headers(ctx)), ks)
    requires forall o: object | o in ctx.slot && 8 <= ctx.slot[o] < 72 :: unchanged(o)
    requires forall c | 0 <= c < 256 :: ctx.component[c].intBuffer != null ==> unchanged(ctx.component[c].intBuffer)
    ensures Decoding(ctx) && TablesOf(ctx) == old(TablesOf(ctx)) && BufsUpTo(ctx, 256) == old(BufsUpTo(ctx, 256))
  {
    var ks :| Chooses(ctx, old(Headers(ctx)), ks);
    TablesKept(ctx);
    forall c | 0 <= c < 256
      ensures ctx.component[c].H == old(ctx.component[c].H) && ctx.component[c].bX == old(ctx.component[c].bX)
      ensures ctx.component[c].intBuffer == old(ctx.component[c].intBuffer)
    {
      assert Header(ctx.component[c]) == Selects(old(Headers(ctx))[c], LastSelector(ks, c));
      assert Grid(ctx.component[c]) == old(Grids256(ctx))[c];
    }
    DecodingKept(ctx);
    BufsSame(ctx);
  }

  /** parse_scan_header at the start of a scan. Once the header parses, the scan's components
      and selectors are in place and the decoder is ready for the scan, on the units with the
      new selectors, the same tables and the same buffers. */
  method SosHeader(s: InStream, ctx: Context, scan: Scan) returns (err: Status)
    requires Ready(s, ctx, scan)
    modifies s, ctx`mblocks, ctx.component, scan`Ns, scan`Cs
    ensures ctx.Valid() && ScanIds(scan)
    ensures var h := ParseScanHeaderF(old(Remaining(s)));
            && err == StatusOf(h) && (err == Success <==> h.Parsed?)
            && (h.Parsed? ==>
                  && Ready(s, ctx, scan) && Remaining(s) == old(Remaining(s))[h.used..] && ctx.mblocks == 0
                  && scan.Ns == h.value.ns && (forall j | 0 <= j < h.value.ns :: scan.Cs[j] == h.value.sels[j].cs)
                  && Chooses(ctx, old(Headers(ctx)), h.value.sels) && Grids(ctx, old(Grids256(ctx)))
                  && TablesOf(ctx) == old(TablesOf(ctx)) && BufsUpTo(ctx, 256) == old(BufsUpTo(ctx, 256)))
  {
    ghost var d := Remaining(s);
    ghost var p0 := s.pos;
    ComponentsApart(ctx);
    err := ParseScanHeader(s, ctx, scan);
    if err != Success {
      return;
    }
    RemainingAt(s, d, p0, ParseScanHeaderF(d).used);
    ScanHeaderKept(ctx);
  }

  /** read_ecs over a scan from its first MCU, once the scan header at bytes d has parsed over
      components whose headers hs0 took its selectors: the segment ends as SosDone says, with
      the units us0 those headers and the grids gs0 give, the tables ts and the coefficient
      buffers bufs. */
  method ScanEcs(s: InStream, ctx: Context, scan: Scan, ghost d: seq<byte>, ghost us0: seq<Unit>,
                 ghost hs0: seq<(int, int, int, int, int)>,
                 ghost gs0: seq<(int, int, array?<int>, array?<real>, array?<real>)>,
                 ghost ts: seq<seq<CodeTable>>, ghost bufs: seq<seq<int>>)
    returns (err: Status, ghost ecs: Scanned, ghost left: seq<Bit>)
    requires Ready(s, ctx, scan) && ctx.mblocks == 0
    requires var h := ParseScanHeaderF(d);
             && h.Parsed? && h.used <= |d| && Remaining(s) == d[h.used..]
             && scan.Ns == h.value.ns && (forall j | 0 <= j < h.value.ns :: scan.Cs[j] == h.value.sels[j].cs)
             && UnitsMatch(us0, hs0, gs0) && Grids(ctx, gs0) && Chooses(ctx, hs0, h.value.sels)
    requires TablesOf(ctx) == ts && BufsUpTo(ctx, 256) == bufs
    modifies s, ctx`mblocks, IntBuffers(ctx), scan`lastBlock
    ensures Ready(s, ctx, scan) && scan.Ns == old(scan.Ns) && scan.Cs == old(scan.Cs)
    ensures SosDone(d, us0, ts, bufs, ecs, ctx, scan, err)
    ensures |left| <= 8 && ecs.rest == left + BytesBits(EntropyCoded(Remaining(s)).bytes)
  {
    ghost var h := ParseScanHeaderF(d);
    UnitsAfter(ctx, us0, hs0, gs0, h.value.sels);
    EcsSpecFrom(s, ctx, scan);
    ecs := EcsSpec(s, ctx, scan);
    err, left := ParseRst(s, ctx, scan);
  }

  /** How an SOS segment whose scan header is at bytes d ends, over units us0, code tables ts0
      and coefficient buffers bufs0: a header that does not parse with its status; one that
      parses with the scan's components it selects, and the scan read, ecs, the one the
      entropy-coded bytes after the header give with those selectors: its status, MCU count,
      coefficients and last blocks are what the decoder keeps. */
  ghost predicate SosDone(d: seq<byte>, us0: seq<Unit>, ts0: seq<seq<CodeTable>>, bufs0: seq<seq<int>>, ecs: Scanned,
                          ctx: Context, scan: Scan, err: Status)
    reads ctx, ctx.component, IntBuffers(ctx), scan
  {
    var h := ParseScanHeaderF(d);
    || (h.Failed? && err == h.status)
    || (&& h.Parsed? && ctx.Valid() && h.used <= |d| && scan.Ns == h.value.ns && h.value.ns <= |scan.Cs|
        && (forall j | 0 <= j < h.value.ns :: scan.Cs[j] == h.value.sels[j].cs)
        && ScanFrom(ecs, Rechosen(us0, h.value.sels), ts0, scan.Ns, scan.Cs, ctx.mX, bufs0, d[h.used..])
        && err == ecs.status && ctx.mblocks == ecs.mcus
        && BufsUpTo(ctx, 256) == ecs.st.bufs && scan.lastBlock == ecs.st.last)
  }

  /** A scan read for a segment that reads none. */
  ghost const NoScan: Scanned := Scanned(Success, Coeffs([], []), [], None, 0)

  /** An SOS segment after its length: parse_scan_header, then read_ecs over the scan from its
      first MCU (SosHeader and ScanEcs state what each step comes to). A header that does not
      parse ends the segment with its status; one that parses leaves the scan's components. */
  method ParseSos(s: InStream, ctx: Context, scan: Scan) returns (err: Status, ghost ecs: Scanned)
    requires Ready(s, ctx, scan)
    modifies s, ctx`mblocks, ctx.component, IntBuffers(ctx), scan`Ns, scan`Cs, scan`lastBlock
    ensures ctx.Valid() && ScanIds(scan) && (err == Success ==> Ready(s, ctx, scan))
    ensures SosDone(old(Remaining(s)), old(UnitsOf(ctx)), old(TablesOf(ctx)), old(BufsUpTo(ctx, 256)), ecs, ctx, scan, err)
  {
    ecs := NoScan;
    ghost var d := Remaining(s);
    ghost var us0, ts0, bufs0 := UnitsOf(ctx), TablesOf(ctx), BufsUpTo(ctx, 256);
    ghost var hs0, gs0 := Headers(ctx), Grids256(ctx);
    UnitsMatchOf(ctx);
    err := SosHeader(s, ctx, scan);
    if err != Success {
      return;
    }
    ghost var left;
    err, ecs, left := ScanEcs(s, ctx, scan, d, us0, hs0, gs0, ts0, bufs0);
  }

  /* ---------------------------------------------------------------------------------------- */
  /* parse_format                                                                             */
  /* ---------------------------------------------------------------------------------------- */

  /** read_length at the start of a SOFn or SOS segment: the length word, of which nothing is
      kept; FailureFileIo when it is cut short. */
  method SegmentLength(s: InStream, ctx: Context, scan: Scan) returns (err: Status)
    requires Ready(s, ctx, scan)
    modifies s
    ensures Ready(s, ctx, scan)
    ensures var d := old(Remaining(s));
            if |d| >= 2 then err == Success && s.pos == old(s.pos) + 2 && Remaining(s) == d[2..]
            else err == FailureFileIo
  {
    ghost var d := Remaining(s);
    ghost var p0 := s.pos;
    var len;
    err, len := ReadWord(s);
    if err != Success {
      return;
    }
    RemainingAt(s, d, p0, 2);
  }

  /** How a skipped segment at bytes d, read from position p0, ends: at the end its length
      field gives, counted from the field, or with FailureFileIo when there is no length. */
  ghost predicate SkipDone(d: seq<byte>, p0: int, s: InStream, err: Status)
    reads s
  {
    if |d| >= 2 then err == Success && s.pos == p0 + BytesWord(d[0], d[1])
    else err == FailureFileIo
  }

  /** An APPn or DAC segment between other segments: skipped, the decoder's state untouched. */
  method ParseSkipped(s: InStream, ctx: Context, scan: Scan) returns (err: Status)
    requires Ready(s, ctx, scan)
    modifies s
    ensures Ready(s, ctx, scan)
    ensures SkipDone(old(Remaining(s)), old(s.pos), s, err)
  {
    err := SkipMarkerSegment(s);
  }

  /** A COM segment between other segments: read past, the decoder's state untouched. */
  method CommentSegment(s: InStream, ctx: Context, scan: Scan) returns (err: Status)
    requires Ready(s, ctx, scan)
    modifies s
    ensures Ready(s, ctx, scan)
    ensures ComDone(old(Remaining(s)), old(s.pos), s, err)
  {
    err := ParseCom(s);
  }

  /** What the decoder keeps of its context survives a step that changes nothing of it. */
  twostate lemma SnapshotsKept(ctx: Context)
    requires old(ctx.Valid()) && unchanged(ctx) && unchanged(ctx.component)
    requires unchanged(old(IntBuffers(ctx))) && unchanged(ctx.slot.Keys)
    ensures ctx.Valid() && Headers(ctx) == old(Headers(ctx)) && UnitsOf(ctx) == old(UnitsOf(ctx))
    ensures TablesOf(ctx) == old(TablesOf(ctx)) && BufsUpTo(ctx, 256) == old(BufsUpTo(ctx, 256))
  {
  }

  /** A SOFn segment: read_length, then parse_frame_header. */
  method FrameSegment(s: InStream, ctx: Context, scan: Scan, supported: bool) returns (err: Status)
    requires Ready(s, ctx, scan)
    modifies s, ctx, ctx.component
    ensures ctx.Valid() && ctx.BuffersFresh()
    ensures err == Success ==> Ready(s, ctx, scan)
    ensures var d := old(Remaining(s));
            if |d| < 2 then err == FailureFileIo
            else SofDone(d[2..], old(s.pos) + 2, old(Headers(ctx)), supported, s, ctx, err)
  {
    err := SegmentLength(s, ctx, scan);
    if err != Success {
      return;
    }
    SnapshotsKept(ctx);
    err := ParseSof(s, ctx, scan, supported);
  }

  /** An SOS segment: read_length, then the scan header and the scan. */
  method ScanSegment(s: InStream, ctx: Context, scan: Scan) returns (err: Status, ghost ecs: Scanned)
    requires Ready(s, ctx, scan)
    modifies s, ctx`mblocks, ctx.component, IntBuffers(ctx), scan`Ns, scan`Cs, scan`lastBlock
    ensures ctx.Valid() && ScanIds(scan) && (err == Success ==> Ready(s, ctx, scan))
    ensures var d := old(Remaining(s));
            if |d| < 2 then err == FailureFileIo
            else SosDone(d[2..], old(UnitsOf(ctx)), old(TablesOf(ctx)), old(BufsUpTo(ctx, 256)), ecs, ctx, scan, err)
  {
    ecs := NoScan;
    err := SegmentLength(s, ctx, scan);
    if err != Success {
      return;
    }
    SnapshotsKept(ctx);
    err, ecs := ParseSos(s, ctx, scan);
  }

  /** How a DQT, DHT, DRI, COM, APPn or DAC segment at bytes d, read from position p0 over
      quantisation tables q0, table sets h0 and restart interval ri0, ends: as its own parser
      says. */
  ghost predicate DefinitionDone(a: Action, d: seq<byte>, p0: int, q0: seq<(int, seq<int>)>,
                                 h0: seq<seq<(seq<int>, seq<int>, CodeTable, seq<int>, seq<int>)>>, ri0: int,
                                 s: InStream, ctx: Context, err: Status)
    requires ctx.Shaped()
    reads s, ctx, ctx.QObjects(), DhtObjects(ctx)
  {
    && (a.Dqt? ==> DqtDone(d, p0, q0, s, ctx, err))
    && (a.Dht? ==> DhtDone(d, p0, h0, s, ctx, err))
    && (a.Dri? ==> DriDone(d, p0, ri0, s, ctx, err))
    && (a.Comment? ==> ComDone(d, p0, s, err))
    && (a.App? || a.Dac? ==> SkipDone(d, p0, s, err))
  }

  /** How a SOFn or SOS segment at bytes d, read from position p0, or an RSTm marker, ends: a
      length cut short with FailureFileIo, and otherwise as its own parser says, over component
      headers hs0, units us0, code tables ts0 and buffers bufs0 for SOFn and SOS, and, for RSTm,
      with the scan read r0 on the scan of components cs0[..ns0] and mX0 MCUs to a row. */
  ghost predicate FrameOrScanDone(a: Action, d: seq<byte>, p0: int, hs0: seq<(int, int, int, int, int)>, us0: seq<Unit>,
                                  ts0: seq<seq<CodeTable>>, bufs0: seq<seq<int>>, r0: Scanned, ns0: int,
                                  cs0: seq<int>, mX0: int, ecs: Scanned, s: InStream, ctx: Context, scan: Scan,
                                  err: Status)
    requires ctx.Shaped()
    reads s, ctx, ctx.component, ctx.bufferSlot.Keys, set c | 0 <= c < |ctx.component| :: ctx.component[c].intBuffer
    reads scan
  {
    && (a.Sof? ==>
          if |d| < 2 then err == FailureFileIo else SofDone(d[2..], p0 + 2, hs0, a.supported, s, ctx, err))
    && (a.Sos? ==>
          if |d| < 2 then err == FailureFileIo else SosDone(d[2..], us0, ts0, bufs0, ecs, ctx, scan, err))
    && (a.Restart? ==> RstDone(r0, ns0, cs0, mX0, ctx, scan, err))
  }

  /** The segments that define tables, the restart interval or nothing the decoder keeps:
      DQT, DHT, DRI, APPn, DAC and COM. The decoder stays ready for the next marker, whatever
      their status, and each segment ends as its own parser says. */
  method ParseDefinition(s: InStream, ctx: Context, scan: Scan, a: Action) returns (err: Status)
    requires Ready(s, ctx, scan) && Defines(a)
    modifies s, ctx`Ri, ctx.QObjects(), DhtObjects(ctx)
    ensures Ready(s, ctx, scan)
    ensures DefinitionDone(a, old(Remaining(s)), old(s.pos), old(QtSnapshot(ctx)), old(Snapshot(ctx)), old(ctx.Ri),
                           s, ctx, err)
  {
    match a
    case Dqt =>
      err := ParseDqt(s, ctx, scan);
    case Dht =>
      err := ParseDht(s, ctx, scan);
    case Dri =>
      err := ParseDri(s, ctx, scan);
    case Comment =>
      err := CommentSegment(s, ctx, scan);
    case App | Dac =>
      err := ParseSkipped(s, ctx, scan);
  }

  /** The segments that start a frame or a scan or go on with one: SOFn and SOS after their
      length, and RSTm. A refused SOFn never lets the decoder go on; each segment ends as its own
      parser says, a length cut short with FailureFileIo. */
  method ParseFrameOrScan(s: InStream, ctx: Context, scan: Scan, a: Action) returns (err: Status, ghost ecs: Scanned)
    requires Ready(s, ctx, scan) && (a.Sof? || a.Sos? || a.Restart?)
    modifies s, ctx, ctx.component, IntBuffers(ctx), scan
    ensures ctx.Valid() && ctx.BuffersFresh()
    ensures err == Success ==> Ready(s, ctx, scan)
    ensures a == Sof(false) ==> err != Success
    ensures FrameOrScanDone(a, old(Remaining(s)), old(s.pos), old(Headers(ctx)), old(UnitsOf(ctx)), old(TablesOf(ctx)),
                            old(BufsUpTo(ctx, 256)), old(EcsSpec(s, ctx, scan)), old(scan.Ns), old(scan.Cs),
                            old(ctx.mX), ecs, s, ctx, scan, err)
  {
    ecs := NoScan;
    match a
    case Sof(supported) =>
      err := FrameSegment(s, ctx, scan, supported);
    case Sos =>
      err, ecs := ScanSegment(s, ctx, scan);
    case Restart =>
      ghost var left;
      err, left := ParseRst(s, ctx, scan);
  }

  /** One turn of parse_format's loop once the marker is read: the segment the marker starts is
      parsed. After SOI, APPn, DQT, SOF0, SOF1, DHT, SOS, DRI, RSTm, COM, TEM and DAC the decoder
      is ready for the next marker when the segment parsed; EOI ends the file with the
      coefficients dequantised; an unhandled marker and a refused SOFn end it with
      FailureFileUnsupported. Every segment ends as its own parser says. */
  method ParseMarker(s: InStream, ctx: Context, scan: Scan, a: Action) returns (err: Status, ghost ecs: Scanned)
    requires Ready(s, ctx, scan)
    modifies s, ctx, ctx.component, ctx.QObjects(), DhtObjects(ctx), IntBuffers(ctx), FltBuffers(ctx), scan
    ensures ctx.Valid() && ctx.BuffersFresh()
    ensures Continues(a) && err == Success ==> Ready(s, ctx, scan)
    ensures a.Unhandled? ==> err == FailureFileUnsupported
    ensures a == Sof(false) ==> err != Success
    ensures a.Start? || a.Tem? ==> err == Success && s.pos == old(s.pos)
    ensures a.End? ==> err == Success && s.pos == |s.data| && forall c | 0 <= c < 256 :: DequantizedComponent(ctx, c)
    ensures Defines(a) ==>
              DefinitionDone(a, old(Remaining(s)), old(s.pos), old(QtSnapshot(ctx)), old(Snapshot(ctx)), old(ctx.Ri),
                             s, ctx, err)
    ensures !Defines(a) ==>
              FrameOrScanDone(a, old(Remaining(s)), old(s.pos), old(Headers(ctx)), old(UnitsOf(ctx)),
                              old(TablesOf(ctx)), old(BufsUpTo(ctx, 256)), old(EcsSpec(s, ctx, scan)), old(scan.Ns),
                              old(scan.Cs), old(ctx.mX), ecs, s, ctx, scan, err)
  {
    if Defines(a) {
      ecs := NoScan;
      QObjectsApart(ctx);
      DhtObjectsApart(ctx);
      err := ParseDefinition(s, ctx, scan, a);
    } else {
      err, ecs := ParseControl(s, ctx, scan, a);
    }
  }

  /** The markers that frame the image, a frame or a scan: SOI, EOI, TEM, SOFn, SOS, RSTm, and
      any marker parse_format does not handle. */
  method ParseControl(s: InStream, ctx: Context, scan: Scan, a: Action) returns (err: Status, ghost ecs: Scanned)
    requires Ready(s, ctx, scan) && !Defines(a)
    modifies s, ctx, ctx.component, IntBuffers(ctx), FltBuffers(ctx), scan
    ensures ctx.Valid() && ctx.BuffersFresh()
    ensures Continues(a) && err == Success ==> Ready(s, ctx, scan)
    ensures a.Unhandled? ==> err == FailureFileUnsupported
    ensures a == Sof(false) ==> err != Success
    ensures a.Start? || a.Tem? ==> err == Success && s.pos == old(s.pos)
    ensures a.End? ==> err == Success && s.pos == |s.data| && forall c | 0 <= c < 256 :: DequantizedComponent(ctx, c)
    ensures FrameOrScanDone(a, old(Remaining(s)), old(s.pos), old(Headers(ctx)), old(UnitsOf(ctx)), old(TablesOf(ctx)),
                            old(BufsUpTo(ctx, 256)), old(EcsSpec(s, ctx, scan)), old(scan.Ns), old(scan.Cs),
                            old(ctx.mX), ecs, s, ctx, scan, err)
  {
    ecs := NoScan;
    match a
    case Start =>
      err := Success;
    case Tem =>
      err := Success;
    case Unhandled =>
      err := FailureFileUnsupported;
    case End =>
      err := ParseEoi(s, ctx);
    case Sof(_) =>
      err, ecs := ParseFrameOrScan(s, ctx, scan, a);
    case Sos =>
      err, ecs := ParseFrameOrScan(s, ctx, scan, a);
    case Restart =>
      err, ecs := ParseFrameOrScan(s, ctx, scan, a);
  }

  /** The marker read_marker finds from position p ends at index t: the first marker at or
      after p. */
  predicate FirstMarkerAt(data: seq<byte>, p: int, t: int) {
    MarkerEndsAt(data, p, t) && forall u | p < u < t :: !MarkerEndsAt(data, p, u)
  }

  /** Action i of acts is that of the first marker from position starts[i], the one ending at
      index marks[i]. */
  predicate Located(data: seq<byte>, acts: seq<Action>, starts: seq<int>, marks: seq<int>) {
    && |starts| == |marks| == |acts|
    && forall i | 0 <= i < |acts| ::
         FirstMarkerAt(data, starts[i], marks[i]) && acts[i] == ActionOf(0xFF00 + data[marks[i]] as int)
  }

  lemma {:induction false} LocatedSnoc(data: seq<byte>, acts: seq<Action>, starts: seq<int>, marks: seq<int>,
                                       a: Action, p: int, t: int)
    requires Located(data, acts, starts, marks)
    requires FirstMarkerAt(data, p, t) && a == ActionOf(0xFF00 + data[t] as int)
    ensures Located(data, acts + [a], starts + [p], marks + [t])
  {
  }

  /** read_marker between segments: the action of the first marker from the stream's position
      on, the decoder's state untouched; FailureFileIo when the file ends before one. */
  method NextMarker(s: InStream, ctx: Context, scan: Scan) returns (err: Status, a: Action)
    requires Ready(s, ctx, scan)
    modifies s
    ensures Ready(s, ctx, scan) && (err == Success || err == FailureFileIo)
    ensures err == Success <==> exists t :: MarkerEndsAt(s.data, old(s.pos), t)
    ensures err == Success ==>
              && FirstMarkerAt(s.data, old(s.pos), s.pos - 1)
              && a == ActionOf(0xFF00 + s.data[s.pos - 1] as int)
  {
    var marker;
    err, marker := ReadMarker(s);
    a := ActionOf(marker);
  }

  /** parse_marker as parse_format's loop relies on it: the outcome of the segment in the
      terms the loop keeps (ParseMarker states each segment's effect in full). */
  method SegmentStep(s: InStream, ctx: Context, scan: Scan, a: Action) returns (err: Status)
    requires Ready(s, ctx, scan)
    modifies s, ctx, ctx.component, ctx.QObjects(), DhtObjects(ctx), ctx.bufferSlot.Keys, scan
    ensures ctx.Valid() && ctx.BuffersFresh()
    ensures Continues(a) && err == Success ==> Ready(s, ctx, scan)
    ensures a.Unhandled? ==> err == FailureFileUnsupported
    ensures a == Sof(false) ==> err != Success
    ensures a.End? ==>
              err == Success && s.pos == |s.data| && forall c | 0 <= c < 256 :: DequantizedComponent(ctx, c)
  {
    Footprints(ctx);
    ghost var ecs;
    err, ecs := ParseMarker(s, ctx, scan, a);
  }

  /** One turn of parse_format's loop: read_marker, then the segment of the marker it finds.
      found says whether there was a marker; the one found ends at index t. */
  method FormatTurn(s: InStream, ctx: Context, scan: Scan) returns (found: bool, err: Status, a: Action, ghost t: int)
    requires Ready(s, ctx, scan)
    modifies s, ctx, ctx.component, ctx.QObjects(), DhtObjects(ctx), ctx.bufferSlot.Keys, scan
    ensures ctx.Valid() && ctx.BuffersFresh()
    ensures !found ==> err == FailureFileIo && forall u :: !MarkerEndsAt(s.data, old(s.pos), u)
    ensures found ==> FirstMarkerAt(s.data, old(s.pos), t) && a == ActionOf(0xFF00 + s.data[t] as int)
    ensures found && Continues(a) && err == Success ==> Ready(s, ctx, scan)
    ensures found && a.Unhandled? ==> err == FailureFileUnsupported
    ensures found && a == Sof(false) ==> err != Success
    ensures found && a.End? ==>
              err == Success && s.pos == |s.data| && forall c | 0 <= c < 256 :: DequantizedComponent(ctx, c)
  {
    t := 0;
    err, a := NextMarker(s, ctx, scan);
    found := err == Success;
    if !found {
      return;
    }
    t := s.pos - 1;
    err := SegmentStep(s, ctx, scan, a);
  }

  /** parse_format: markers are read and their segments parsed, with a scan whose Ns starts at
      0, until EOI, an error or an unhandled or refused marker; at most limit markers are read
      (None when they all let the loop go on). The actions taken are acts: every one but the
      last let the loop go on, and the loop ends in success exactly when the last was EOI, after
      which every component's coefficients are dequantised. Action i is that of the first
      marker from position starts[i], the one ending at index marks[i]; the first search starts
      where the stream stood. */
  method ParseFormat(s: InStream, ctx: Context, limit: nat)
      returns (r: Option<Status>, ghost acts: seq<Action>, ghost starts: seq<int>, ghost marks: seq<int>)
    requires Decoding(ctx) && s !in ctx.slot && s !in ctx.bufferSlot
    modifies s, ctx, ctx.component, ctx.QObjects(), DhtObjects(ctx), ctx.bufferSlot.Keys
    ensures ctx.Valid() && |acts| <= limit
    ensures forall i | 0 <= i < |acts| - 1 :: Continues(acts[i])
    ensures r.None? ==> |acts| == limit && forall i | 0 <= i < |acts| :: Continues(acts[i])
    ensures r.Some? ==> (r.value == Success <==> |acts| > 0 && acts[|acts| - 1].End?)
    ensures r.Some? && |acts| > 0 && acts[|acts| - 1].Unhandled? ==> r.value == FailureFileUnsupported
    ensures r == Some(Success) ==> s.pos == |s.data| && forall c | 0 <= c < 256 :: DequantizedComponent(ctx, c)
    ensures limit > 0 ==> (acts == [] <==> forall t :: !MarkerEndsAt(s.data, old(s.pos), t))
    ensures limit > 0 && acts == [] ==> r == Some(FailureFileIo)
    ensures Located(s.data, acts, starts, marks) && (|acts| > 0 ==> starts[0] == old(s.pos))
  {
    var scan := new Scan();
    acts, starts, marks := [], [], [];
    var n := 0;
    while n < limit
      invariant Ready(s, ctx, scan) && n <= limit && |acts| == n
      invariant n == 0 ==> s.pos == old(s.pos)
      invariant forall i | 0 <= i < n :: Continues(acts[i])
      invariant forall o | o in ctx.bufferSlot && o !in old(ctx.bufferSlot) :: fresh(o)
      invariant Located(s.data, acts, starts, marks) && (n > 0 ==> starts[0] == old(s.pos))
      decreases limit - n
    {
      ghost var p := s.pos;
      var found, err, a, t := FormatTurn(s, ctx, scan);
      if !found {
        return Some(err), acts, starts, marks;
      }
      LocatedSnoc(s.data, acts, starts, marks, a, p, t);
      acts, starts, marks := acts + [a], starts + [p], marks + [t];
      if err != Success || a.End? {
        return Some(err), acts, starts, marks;
      }
      n := n + 1;
    }
    return None, acts, starts, marks;
  }

  /** A context as init_context leaves it is one the decoder can work with. */
  lemma InitialDecoding(ctx: Context)
    requires ctx.Valid() && ctx.CodesValid() && ctx.mX == 0
    requires forall c | 0 <= c < 256 :: Initial(ctx.component[c])
    requires forall j, i | 0 <= j < 2 && 0 <= i < 4 :: ctx.TableInitial(j, i)
    ensures Decoding(ctx)
  {
    forall j, i | 0 <= j < 2 && 0 <= i < 4
      ensures ctx.TableSlotted(j, i) && TableValid(ctx, j, i)
    {
      assert ctx.TableInitial(j, i);
      assert ctx.hcode[j][i].Valid();
    }
    forall c | 0 <= c < 256
      ensures ctx.component[c].bX >= ctx.mX * ctx.component[c].H
    {
      assert Initial(ctx.component[c]);
    }
  }

  /** process_jpeg_stream: init_context on the context the caller allocated, then the marker
      loop over the whole stream from its first byte. The actions taken are acts, action i that of
      the first marker from position starts[i], ending at index marks[i]. The decode succeeds
      exactly when the last action was EOI, which leaves every coefficient dequantised; a stream
      with no marker in it fails with an I/O error. */
  method ProcessJpegStream(ctx: Context, data: seq<byte>, limit: nat)
      returns (r: Option<Status>, ghost acts: seq<Action>, ghost starts: seq<int>, ghost marks: seq<int>)
    requires ctx.Valid() && ctx.CodesValid()
    modifies ctx, ctx.component, ctx.QObjects(), ctx.TableArrays(), DhtObjects(ctx), ctx.bufferSlot.Keys
    ensures ctx.Valid() && |acts| <= limit
    ensures forall i | 0 <= i < |acts| - 1 :: Continues(acts[i])
    ensures r.Some? ==> (r.value == Success <==> |acts| > 0 && acts[|acts| - 1].End?)
    ensures r == Some(Success) ==> forall c | 0 <= c < 256 :: DequantizedComponent(ctx, c)
    ensures Located(data, acts, starts, marks) && (|acts| > 0 ==> starts[0] == 0)
    ensures limit > 0 && (forall t :: !MarkerEndsAt(data, 0, t)) ==> r == Some(FailureFileIo)
  {
    ctx.Init();
    InitialDecoding(ctx);
    var s := new InStream(data);
    r, acts, starts, marks := ParseFormat(s, ctx, limit);
  }
}
