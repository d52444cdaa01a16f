/// The order in which a scan visits the blocks of its components, as read_macroblock in
/// Decoders/JPEG/decoder.c and write_macroblock and write_macroblock_dry in
/// Decoders/JPEG/encoder.c walk it: the non-interleaved order of section A.2.2 of ITU-T T.81
/// (one component, its blocks in row-major order) and the interleaved order of section A.2.3
/// (each MCU holds H by V blocks of every component of the scan).
module JpegScan {
  import opened Arith
  import opened JpegCommon

  /** A component's sampling factors and block grid, b_x by b_y blocks. */
  datatype Geometry = Geometry(H: nat, V: nat, bX: nat, bY: nat)

  /** A block an MCU names: in the interleaved order by its column x and row y in the
      component's grid, in the non-interleaved order by its place n in the grid's row-major
      order. */
  datatype Visit = Cell(c: int, x: nat, y: nat) | Run(c: int, n: nat)

  /** Row v of the blocks component c contributes to the MCU at column x, row y of the MCU
      grid: H blocks, left to right. */
  function Row(c: int, g: Geometry, x: nat, y: nat, v: nat): (vs: seq<Visit>)
    ensures |vs| == g.H && forall h | 0 <= h < |vs| :: vs[h].c == c
  {
    seq(g.H, h requires 0 <= h => Cell(c, x * g.H + h, y * g.V + v))
  }

  /** The first n rows of those blocks, top to bottom. */
  function Rows(c: int, g: Geometry, x: nat, y: nat, n: nat): (vs: seq<Visit>)
    ensures |vs| == n * g.H && forall k | 0 <= k < |vs| :: vs[k].c == c
  {
    if n == 0 then [] else Rows(c, g, x, y, n - 1) + Row(c, g, x, y, n - 1)
  }

  /** The H by V blocks of component c in the MCU at column x, row y. */
  function UnitVisits(c: int, g: Geometry, x: nat, y: nat): (vs: seq<Visit>)
    ensures |vs| == g.V * g.H && forall k | 0 <= k < |vs| :: vs[k].c == c
  {
    Rows(c, g, x, y, g.V)
  }

  /** Component ids as a scan lists them, each naming one of the 256 components. */
  predicate Ids(cs: seq<int>) {
    forall j | 0 <= j < |cs| :: 0 <= cs[j] < 256
  }

  /** Visits of the 256 components. */
  predicate Visiting(vs: seq<Visit>) {
    forall i | 0 <= i < |vs| :: 0 <= vs[i].c < 256
  }

  /** The blocks of the MCU at column x, row y of an interleaved scan over the components cs:
      each component's blocks in turn. */
  function McuVisits(cs: seq<int>, geo: seq<Geometry>, x: nat, y: nat): (vs: seq<Visit>)
    requires Ids(cs) && |geo| == 256
    ensures Visiting(vs)
    decreases |cs|
  {
    if cs == [] then []
    else
      var j := |cs| - 1;
      McuVisits(cs[..j], geo, x, y) + UnitVisits(cs[j], geo[cs[j]], x, y)
  }

  /** The blocks of MCU seq_no of an interleaved scan: the MCU at column seq_no mod m_x,
      row seq_no div m_x. */
  function McuAt(cs: seq<int>, geo: seq<Geometry>, mX: nat, seqNo: nat): (vs: seq<Visit>)
    requires Ids(cs) && |geo| == 256 && mX > 0
    ensures Visiting(vs)
  {
    DivNonneg(seqNo, mX);
    McuVisits(cs, geo, seqNo % mX, seqNo / mX)
  }

  /** The blocks of MCU seq_no of a non-interleaved scan over component c: H V consecutive
      blocks of the grid's row-major order. */
  function RunVisits(c: int, g: Geometry, seqNo: nat): (vs: seq<Visit>)
    ensures |vs| == g.H * g.V && forall w | 0 <= w < |vs| :: vs[w].c == c
  {
    seq(g.H * g.V, w requires 0 <= w => Run(c, g.H * g.V * seqNo + w))
  }

  /** What read_macroblock makes of MCU seq_no: no component in the scan; an interleaved scan
      without an MCU grid (m_x = 0, no frame header yet); or the blocks to read. */
  datatype Plan = NoComponents | NoGrid | Visits(vs: seq<Visit>)

  /** read_macroblock's choice: nothing for Ns = 0, the non-interleaved order for Ns = 1, the
      interleaved order at column seq_no mod m_x, row seq_no div m_x otherwise. */
  function ReadPlan(ns: nat, cs: seq<int>, geo: seq<Geometry>, mX: nat, seqNo: nat): (p: Plan)
    requires ns <= |cs| && Ids(cs) && |geo| == 256
    ensures p.NoComponents? <==> ns == 0
    ensures p.NoGrid? <==> ns > 1 && mX == 0
    ensures p.Visits? ==> Visiting(p.vs)
  {
    if ns == 0 then NoComponents
    else if ns == 1 then Visits(RunVisits(cs[0], geo[cs[0]], seqNo))
    else if mX == 0 then NoGrid
    else Visits(McuAt(cs[..ns], geo, mX, seqNo))
  }

  /** The index in the component's buffer of the block a visit names, None past the end of the
      grid. */
  function Slot(g: Geometry, v: Visit): (b: Option<nat>)
    ensures b.Some? ==> b.value < g.bX * g.bY
  {
    var n := if v.Cell? then v.y * g.bX + v.x else v.n;
    if n < g.bX * g.bY then Some(n) else None
  }

  /** The block decoder.c's non-interleaved branch reads into for block w of MCU seq_no: row
      n div b_x, column n mod b_x for n = H V seq_no + w, with no bound against the grid. */
  function RunBlockAsWritten(g: Geometry, seqNo: nat, w: nat): int
    requires g.bX > 0
  {
    var n := g.H * g.V * seqNo + w;
    (n / g.bX) * g.bX + n % g.bX
  }

  /** The block index is place n itself, so every MCU from seq_no = b_x b_y on (and, when H V
      does not divide b_x b_y, part of the one before) lies past the end of int_buffer. */
  lemma {:induction false} RunBlockAsWrittenOverruns(g: Geometry, seqNo: nat, w: nat)
    requires g.bX > 0 && g.H * g.V > 0 && seqNo >= g.bX * g.bY
    ensures RunBlockAsWritten(g, seqNo, w) >= g.bX * g.bY
  {
    var n := g.H * g.V * seqNo + w;
    DivModSum(n, g.bX);
    assert g.H * g.V * seqNo >= seqNo by { MulLe(1, g.H * g.V, seqNo); }
  }

  /** For example, a 1 by 1 component of a one-block grid: MCU 1 goes to block 1 of a buffer
      that holds one. */
  lemma RunBlockAsWrittenExample()
    ensures RunBlockAsWritten(Geometry(1, 1, 1, 1), 1, 0) == 1
  {
  }

  /** The corrected non-interleaved order: a visit has a block in the buffer exactly when the
      source's index lies inside the grid, and none otherwise. */
  lemma {:induction false} RunSlotBounded(c: int, g: Geometry, seqNo: nat, w: nat)
    requires g.bX > 0 && w < g.H * g.V
    ensures var b := Slot(g, RunVisits(c, g, seqNo)[w]);
            && (b.Some? <==> RunBlockAsWritten(g, seqNo, w) < g.bX * g.bY)
            && (b.Some? ==> b.value == RunBlockAsWritten(g, seqNo, w))
  {
    DivModSum(g.H * g.V * seqNo + w, g.bX);
  }

  /** An interleaved visit whose column lies outside the grid, which read_macroblock and
      write_macroblock assert never happens. */
  predicate OffGrid(g: Geometry, v: Visit) {
    v.Cell? && v.x >= g.bX
  }

  /* ---------------------------------------------------------------------------------------- */
  /* Coverage                                                                                 */
  /* ---------------------------------------------------------------------------------------- */

  /** The block at place k of the first n rows: row k div H, column k mod H of the MCU. */
  lemma {:induction false} RowsAt(c: int, g: Geometry, x: nat, y: nat, n: nat, k: nat)
    requires g.H > 0 && k < n * g.H
    ensures Rows(c, g, x, y, n)[k] == Cell(c, x * g.H + k % g.H, y * g.V + k / g.H)
  {
    var m := n - 1;
    if k < m * g.H {
      RowsAt(c, g, x, y, m, k);
    } else {
      DivModUnique(k, g.H, m, k - m * g.H);
    }
  }

  /** A grid sized to the MCU grid: m_x H by m_y V blocks, as compute_no_blocks_and_alloc_buffers
      makes it. */
  predicate Fits(g: Geometry, mX: nat, mY: nat) {
    g.H > 0 && g.V > 0 && g.bX == mX * g.H && g.bY == mY * g.V
  }

  /** Every block of an MCU of the grid lies inside the component's block grid. */
  lemma {:induction false} UnitInGrid(c: int, g: Geometry, mX: nat, mY: nat, s: nat, k: nat)
    requires Fits(g, mX, mY) && s < mX * mY && k < g.V * g.H
    ensures var v := UnitVisits(c, g, s % mX, s / mX)[k];
            && v.Cell? && v.x < g.bX && v.y < g.bY
            && Slot(g, v) == Some(v.y * g.bX + v.x)
  {
    var x, y := s % mX, s / mX;
    var h, r := k % g.H, k / g.H;
    CellBounds(s, k, mX, mY, g.H, g.V);
    assert UnitVisits(c, g, x, y)[k] == Cell(c, x * g.H + h, y * g.V + r) by { RowsAt(c, g, x, y, g.V, k); }
  }

  /** The arithmetic of UnitInGrid: block k of MCU s lands inside the mX H by mY V grid. */
  lemma {:induction false} CellBounds(s: nat, k: nat, mX: nat, mY: nat, H: nat, V: nat)
    requires H > 0 && V > 0 && s < mX * mY && k < V * H
    ensures var col, row := (s % mX) * H + k % H, (s / mX) * V + k / H;
            && 0 <= s / mX < mY && k / H < V && col < mX * H && row < mY * V
            && row * (mX * H) + col < (mX * H) * (mY * V)
  {
    var x, y := s % mX, s / mX;
    assert y < mY by { DivLt(s, mX, mY); }
    var h, r := k % H, k / H;
    assert r < V by { DivLt(k, H, V); }
    var col, row := x * H + h, y * V + r;
    assert col < mX * H by { MixedBound(x, h, H, mX); }
    assert row < mY * V by { MixedBound(y, r, V, mY); }
    MixedBound(row, col, mX * H, mY * V);
  }

  /** The MCU and the place in it of block (col, row) of an m_x H by m_y V grid. */
  lemma {:induction false} Place(col: int, row: int, H: int, V: int, mX: int, mY: int)
    requires H > 0 && V > 0 && 0 <= col < mX * H && 0 <= row < mY * V
    ensures var s := (row / V) * mX + col / H;
            var k := (row % V) * H + col % H;
            && 0 <= s < mX * mY && 0 <= k < V * H
            && s % mX == col / H && s / mX == row / V && k % H == col % H && k / H == row % V
  {
    var x, y := col / H, row / V;
    var h, r := col % H, row % V;
    assert 0 <= x < mX by { DivNonneg(col, H); DivLt(col, H, mX); }
    assert 0 <= y < mY by { DivNonneg(row, V); DivLt(row, V, mY); }
    var s := y * mX + x;
    var k := r * H + h;
    assert 0 <= s < mY * mX by { MixedBound(y, x, mX, mY); }
    assert 0 <= k < V * H by { MixedBound(r, h, H, V); }
    assert s % mX == x && s / mX == y by { DivModUnique(s, mX, y, x); }
    assert k % H == h && k / H == r by { DivModUnique(k, H, r, h); }
  }

  /** Every block of the grid is visited by some MCU of the grid: MCU (row div V) m_x + col div H,
      place (row mod V) H + col mod H. */
  lemma {:induction false} UnitCovers(c: int, g: Geometry, mX: nat, mY: nat, col: nat, row: nat)
    requires Fits(g, mX, mY) && col < g.bX && row < g.bY
    ensures var s := (row / g.V) * mX + col / g.H;
            var k := (row % g.V) * g.H + col % g.H;
            && 0 <= s < mX * mY && 0 <= k < g.V * g.H
            && UnitVisits(c, g, s % mX, s / mX)[k] == Cell(c, col, row)
  {
    var s := (row / g.V) * mX + col / g.H;
    var k := (row % g.V) * g.H + col % g.H;
    assert 0 <= s < mX * mY && 0 <= k < g.V * g.H
           && s % mX == col / g.H && s / mX == row / g.V && k % g.H == col % g.H && k / g.H == row % g.V by {
      Place(col, row, g.H, g.V, mX, mY);
    }
    assert (col / g.H) * g.H + col % g.H == col && (row / g.V) * g.V + row % g.V == row by {
      DivModSum(col, g.H);
      DivModSum(row, g.V);
    }
    CellAt(c, g, col / g.H, row / g.V, k, col, row);
  }

  /** Place k of the MCU at (x, y) is the block (col, row) the arithmetic names. */
  lemma {:induction false} CellAt(c: int, g: Geometry, x: nat, y: nat, k: nat, col: int, row: int)
    requires g.H > 0 && k < g.V * g.H && x * g.H + k % g.H == col && y * g.V + k / g.H == row
    ensures UnitVisits(c, g, x, y)[k] == Cell(c, col, row)
  {
    RowsAt(c, g, x, y, g.V, k);
  }

  /** No block is visited twice: the MCU and the place in it are fixed by the block. */
  lemma {:induction false} UnitUnique(c: int, g: Geometry, mX: nat, s: nat, k: nat, col: nat, row: nat)
    requires g.H > 0 && g.V > 0 && mX > 0 && k < g.V * g.H
    requires UnitVisits(c, g, s % mX, s / mX)[k] == Cell(c, col, row)
    ensures s == (row / g.V) * mX + col / g.H && k == (row % g.V) * g.H + col % g.H
  {
    var x, y := s % mX, s / mX;
    var h, r := k % g.H, k / g.H;
    assert col == x * g.H + h && row == y * g.V + r by { RowsAt(c, g, x, y, g.V, k); }
    assert 0 <= r < g.V by { DivNonneg(k, g.H); DivLt(k, g.H, g.V); }
    assert col / g.H == x && col % g.H == h by { DivModUnique(col, g.H, x, h); }
    assert row / g.V == y && row % g.V == r by { DivModUnique(row, g.V, y, r); }
  }

  /** The non-interleaved order visits each place of the row-major order once: place n by MCU
      n div HV at position n mod HV, and by no other. */
  lemma {:induction false} RunCovers(c: int, g: Geometry, s: nat, w: nat, n: nat)
    requires g.H * g.V > 0
    ensures var hv := g.H * g.V;
            && RunVisits(c, g, n / hv)[n % hv] == Run(c, n)
            && (w < hv && RunVisits(c, g, s)[w] == Run(c, n) ==> s == n / hv && w == n % hv)
  {
    var hv := g.H * g.V;
    DivNonneg(n, hv);
    if w < hv && RunVisits(c, g, s)[w] == Run(c, n) {
      DivModUnique(n, hv, s, w);
    }
  }

  /* ---------------------------------------------------------------------------------------- */
  /* Prefixes: the blocks visited so far, as read_macroblock's loops reach them               */
  /* ---------------------------------------------------------------------------------------- */

  /** A prefix stays one when the same sequence is put in front of both. */
  lemma {:induction false} PrefixFront<T>(p: seq<T>, a: seq<T>, b: seq<T>)
    requires a <= b
    ensures p + a <= p + b
  {
    assert (p + b)[..|p + a|] == p + b[..|a|];
  }

  /** A prefix of a prefix is a prefix. */
  lemma {:induction false} PrefixTrans<T>(a: seq<T>, b: seq<T>, c: seq<T>)
    requires a <= b && b <= c
    ensures a <= c
  {
    assert c[..|b|][..|a|] == c[..|a|];
  }

  /** The first n rows of an MCU's blocks of one component begin its first m rows. */
  lemma {:induction false} RowsPrefix(c: int, g: Geometry, x: nat, y: nat, n: nat, m: nat)
    requires n <= m
    ensures Rows(c, g, x, y, n) <= Rows(c, g, x, y, m)
    decreases m
  {
    if n < m {
      RowsPrefix(c, g, x, y, n, m - 1);
      var a, b := Rows(c, g, x, y, n), Rows(c, g, x, y, m - 1);
      assert (b + Row(c, g, x, y, m - 1))[..|a|] == b[..|a|];
    }
  }

  /** The blocks of an MCU's first j + 1 components: those of the first j, then the H by V
      blocks of component j. */
  lemma {:induction false} McuSnoc(cs: seq<int>, geo: seq<Geometry>, x: nat, y: nat, j: nat)
    requires Ids(cs) && |geo| == 256 && j < |cs|
    ensures McuVisits(cs[..j + 1], geo, x, y) == McuVisits(cs[..j], geo, x, y) + UnitVisits(cs[j], geo[cs[j]], x, y)
  {
    assert cs[..j + 1][..j] == cs[..j];
  }

  /** The blocks of an MCU's first j components begin the MCU's blocks. */
  lemma {:induction false} McuPrefix(cs: seq<int>, geo: seq<Geometry>, x: nat, y: nat, j: nat)
    requires Ids(cs) && |geo| == 256 && j <= |cs|
    ensures McuVisits(cs[..j], geo, x, y) <= McuVisits(cs, geo, x, y)
    decreases |cs|
  {
    if j < |cs| {
      var k := |cs| - 1;
      McuPrefix(cs[..k], geo, x, y, j);
      assert cs[..k][..j] == cs[..j];
      var a, b := McuVisits(cs[..j], geo, x, y), McuVisits(cs[..k], geo, x, y);
      assert (b + UnitVisits(cs[k], geo[cs[k]], x, y))[..|a|] == b[..|a|];
    } else {
      assert cs[..j] == cs;
    }
  }

  /** Visits of the 256 components, one run after another. */
  lemma {:induction false} VisitingConcat(a: seq<Visit>, b: seq<Visit>)
    requires Visiting(a) && Visiting(b)
    ensures Visiting(a + b)
  {
    forall i | 0 <= i < |a + b|
      ensures 0 <= (a + b)[i].c < 256
    {
      if i >= |a| {
        assert (a + b)[i] == b[i - |a|];
      }
    }
  }

  /** After d, the first i + 1 elements of s are the first i, then element i; and they begin
      d + s. */
  lemma {:induction false} GrowPrefix<T>(d: seq<T>, s: seq<T>, i: nat)
    requires i < |s|
    ensures d + s[..i + 1] == (d + s[..i]) + [s[i]]
    ensures d + s[..i + 1] <= d + s
  {
    assert s[..i + 1] == s[..i] + [s[i]];
    PrefixFront(d, s[..i + 1], s);
  }

  /** After d, none of s. */
  lemma {:induction false} TakeNone<T>(d: seq<T>, s: seq<T>)
    ensures d + s[..0] == d
  {
    assert s[..0] == [];
  }

  /** After d, all of s. */
  lemma {:induction false} TakeAll<T>(d: seq<T>, s: seq<T>)
    ensures d + s[..|s|] == d + s
  {
    assert s[..|s|] == s;
  }

  /** After d, the first r rows of an MCU's blocks of one component, then row r, are its first
      r + 1 rows; and they begin its first n rows. */
  lemma {:induction false} RowsNext(d: seq<Visit>, c: int, g: Geometry, x: nat, y: nat, r: nat, n: nat)
    requires r < n
    ensures (d + Rows(c, g, x, y, r)) + Row(c, g, x, y, r) == d + Rows(c, g, x, y, r + 1)
    ensures d + Rows(c, g, x, y, r + 1) <= d + Rows(c, g, x, y, n)
  {
    AppendAssoc(d, Rows(c, g, x, y, r), Row(c, g, x, y, r));
    RowsPrefix(c, g, x, y, r + 1, n);
    PrefixFront(d, Rows(c, g, x, y, r + 1), Rows(c, g, x, y, n));
  }

  /** Two sequences that agree everywhere but at i: the second is the first with element i
      replaced. */
  lemma {:induction false} AgreeBut<T>(s: seq<T>, t: seq<T>, i: nat)
    requires |s| == |t| && i < |s| && forall j | 0 <= j < |s| && j != i :: s[j] == t[j]
    ensures t == s[i := t[i]]
  {
  }

  /** After the blocks of an MCU's first j components, those of component j: the blocks of its
      first j + 1 components, which begin the blocks of its first ns. */
  lemma {:induction false} McuNext(cs: seq<int>, geo: seq<Geometry>, x: nat, y: nat, j: nat, ns: nat)
    requires Ids(cs) && |geo| == 256 && j < ns <= |cs|
    ensures McuVisits(cs[..j], geo, x, y) + UnitVisits(cs[j], geo[cs[j]], x, y) == McuVisits(cs[..j + 1], geo, x, y)
    ensures McuVisits(cs[..j + 1], geo, x, y) <= McuVisits(cs[..ns], geo, x, y)
    ensures ns == |cs| ==> McuVisits(cs[..j + 1], geo, x, y) <= McuVisits(cs, geo, x, y)
  {
    McuSnoc(cs, geo, x, y, j);
    McuPrefix(cs[..ns], geo, x, y, j + 1);
    assert cs[..ns][..j + 1] == cs[..j + 1];
    assert ns == |cs| ==> cs[..ns] == cs;
  }

  /** The first n of a run of component ids are component ids. */
  lemma IdsTake(cs: seq<int>, n: nat)
    requires Ids(cs) && n <= |cs|
    ensures Ids(cs[..n])
  {
  }

  /** A sequence's first i + 1 elements: its first i, then element i. */
  lemma {:induction false} TakeNext<T>(s: seq<T>, i: nat)
    requires i < |s|
    ensures s[..i + 1] == s[..i] + [s[i]]
  {
  }

  /** Appending to the end of a concatenation. */
  lemma {:induction false} AppendAssoc<T>(a: seq<T>, b: seq<T>, c: seq<T>)
    ensures (a + b) + c == a + (b + c)
  {
  }

  /** Replacing one element twice is replacing it with the second value. */
  lemma {:induction false} UpdateTwice<T>(s: seq<T>, i: nat, x: T, y: T)
    requires i < |s|
    ensures s[i := x][i := y] == s[i := y]
  {
  }

  /** Replacing an element with itself changes nothing. */
  lemma {:induction false} UpdateSame<T>(s: seq<T>, i: nat)
    requires i < |s|
    ensures s[i := s[i]] == s
  {
  }
}
