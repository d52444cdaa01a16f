/// Dequantisation and the conversions between block order and raster order of the component
/// buffers (Decoders/JPEG/imgproc.c). The floating-point buffers hold exact reals; the DCTs,
/// which need cosines, are not part of this model.
module JpegImgproc {
  import opened Arith
  import opened JpegCommon
  import opened JpegContext

  /* ---------------------------------------------------------------------------------------- */
  /* Dequantisation                                                                            */
  /* ---------------------------------------------------------------------------------------- */

  /** A coefficient buffer dequantised: coefficient j of every block times entry j of the
      table, both in natural order. */
  function Dequantized(c: seq<int>, q: seq<int>): (r: seq<real>)
    requires |q| == 64
    ensures |r| == |c|
  {
    seq(|c|, j requires 0 <= j < |c| => (c[j] * q[j % 64]) as real)
  }

  /** roundf: the nearest integer, halves rounded away from zero. */
  function RoundHalfAway(r: real): int {
    if r >= 0.0 then (r + 0.5).Floor else -((0.5 - r).Floor)
  }

  /** quantize_block on every block: each coefficient divided by its table entry and rounded. */
  function Quantized(f: seq<real>, q: seq<int>): (c: seq<int>)
    requires |q| == 64 && forall k | 0 <= k < 64 :: q[k] != 0
    ensures |c| == |f|
  {
    seq(|f|, j requires 0 <= j < |f| => RoundHalfAway(f[j] / q[j % 64] as real))
  }

  /** Rounding leaves integers alone. */
  lemma {:induction false} RoundInteger(n: int)
    ensures RoundHalfAway(n as real) == n
  {
    if n >= 0 {
      assert (n as real + 0.5).Floor == n;
    } else {
      assert (0.5 - n as real).Floor == -n;
    }
  }

  /** The table init_context loads divides nothing: dequantising with it keeps every
      coefficient. */
  lemma {:induction false} DequantizeUnitTable(c: seq<int>, q: seq<int>)
    requires |q| == 64 && forall k | 0 <= k < 64 :: q[k] == 1
    ensures forall j | 0 <= j < |c| :: Dequantized(c, q)[j] == c[j] as real
  {
  }

  /** quantize undoes dequantize: the encoder's rounding recovers every coefficient the
      decoder multiplied out, whatever the (non-zero) table. */
  lemma {:induction false} QuantizeDequantize(c: seq<int>, q: seq<int>)
    requires |q| == 64 && forall k | 0 <= k < 64 :: q[k] != 0
    ensures Quantized(Dequantized(c, q), q) == c
  {
    var d := Dequantized(c, q);
    forall j | 0 <= j < |c|
      ensures Quantized(d, q)[j] == c[j]
    {
      var k := j % 64;
      assert d[j] / q[k] as real == c[j] as real by {
        assert d[j] == c[j] as real * q[k] as real;
      }
      RoundInteger(c[j]);
    }
  }

  /** dequantize_block: the 64 coefficients of block b of the coefficient buffer, times the
      table, into block b of the floating-point buffer; the other blocks keep their samples. */
  method DequantizeBlock(ib: array<int>, fb: array<real>, q: array<int>, b: nat)
    requires q.Length == 64 && ib.Length == fb.Length && 64 * b + 64 <= ib.Length
    modifies fb
    ensures forall j | 64 * b <= j < 64 * b + 64 :: fb[j] == (ib[j] * q[j % 64]) as real
    ensures forall j | 0 <= j < fb.Length && !(64 * b <= j < 64 * b + 64) :: fb[j] == old(fb[j])
  {
    for k := 0 to 64
      invariant forall j | 64 * b <= j < 64 * b + k :: fb[j] == (ib[j] * q[j % 64]) as real
      invariant forall j | 0 <= j < fb.Length && !(64 * b <= j < 64 * b + k) :: fb[j] == old(fb[j])
    {
      DivModUnique(64 * b + k, 64, b, k);
      fb[64 * b + k] := (ib[64 * b + k] * q[k]) as real;
    }
  }

  /** The blocks loop of dequantize for one component: the whole floating-point buffer is the
      coefficient buffer dequantised. */
  method DequantizeComponent(ib: array<int>, fb: array<real>, q: array<int>, blocks: nat)
    requires q.Length == 64 && ib.Length == 64 * blocks && fb.Length == 64 * blocks
    modifies fb
    ensures fb[..] == Dequantized(ib[..], q[..])
  {
    for b := 0 to blocks
      invariant forall j | 0 <= j < 64 * b :: fb[j] == (ib[j] * q[j % 64]) as real
    {
      DequantizeBlock(ib, fb, q, b);
    }
  }

  /** The floating-point buffers of a context's components. */
  ghost function FltBuffers(ctx: Context): set<object>
    requires ctx.Shaped()
    reads ctx.component
  {
    set c | 0 <= c < 256 && ctx.component[c].fltBuffer != null :: ctx.component[c].fltBuffer as object
  }

  /** The frame buffers of a context's components. */
  ghost function FrameBuffers(ctx: Context): set<object>
    requires ctx.Shaped()
    reads ctx.component
  {
    set c | 0 <= c < 256 && ctx.component[c].frameBuffer != null :: ctx.component[c].frameBuffer as object
  }

  /** Two components never share a floating-point or a frame buffer, and no component's two
      buffers are one. */
  lemma {:induction false} BuffersApart(ctx: Context, c: int, d: int)
    requires ctx.Valid() && 0 <= c < 256 && 0 <= d < 256
    requires ctx.component[c].intBuffer != null && ctx.component[d].intBuffer != null
    ensures ctx.component[c].fltBuffer != ctx.component[d].frameBuffer
    ensures c != d ==> ctx.component[c].fltBuffer != ctx.component[d].fltBuffer
    ensures c != d ==> ctx.component[c].frameBuffer != ctx.component[d].frameBuffer
  {
    assert ctx.ComponentSized(c) && ctx.ComponentSized(d);
  }

  /** What dequantize leaves in component c: its floating-point buffer is its coefficient
      buffer dequantised by the table its Tq selects. */
  ghost predicate DequantizedComponent(ctx: Context, c: int)
    requires ctx.Valid() && 0 <= c < 256
    reads ctx, ctx.component, ctx.component[c].intBuffer, ctx.component[c].fltBuffer, ctx.qtable
    reads set t | t in ctx.qtable :: t.Q
  {
    var k := ctx.component[c];
    assert ctx.ComponentSized(c);
    k.intBuffer != null ==>
      k.fltBuffer[..] == Dequantized(k.intBuffer[..], ctx.qtable[k.Tq].Q[..])
  }

  /** dequantize: every component with a coefficient buffer gets its floating-point buffer
      dequantised by its own table; only those buffers change. */
  method Dequantize(ctx: Context) returns (err: Status)
    requires ctx.Valid()
    modifies FltBuffers(ctx)
    ensures err == Success && ctx.Valid()
    ensures forall c | 0 <= c < 256 :: DequantizedComponent(ctx, c)
  {
    for c := 0 to 256
      invariant ctx.Valid()
      invariant forall d | 0 <= d < c :: DequantizedComponent(ctx, d)
    {
      DequantizeEntry(ctx, c);
    }
    err := Success;
  }

  /** One turn of dequantize's component loop. */
  method DequantizeEntry(ctx: Context, c: int)
    requires ctx.Valid() && 0 <= c < 256
    requires forall d | 0 <= d < c :: DequantizedComponent(ctx, d)
    modifies FltBuffers(ctx)
    ensures ctx.Valid()
    ensures forall d | 0 <= d <= c :: DequantizedComponent(ctx, d)
  {
    var k := ctx.component[c];
    assert ctx.ComponentSized(c);
    if k.intBuffer == null {
      return;
    }
    var q := ctx.qtable[k.Tq];
    assert q.Valid();
    DequantizeComponent(k.intBuffer, k.fltBuffer, q.Q, k.bX * k.bY);
    forall d | 0 <= d < c
      ensures DequantizedComponent(ctx, d)
    {
      assert old(DequantizedComponent(ctx, d));
      assert ctx.ComponentSized(d);
      if ctx.component[d].intBuffer != null {
        BuffersApart(ctx, c, d);
      }
    }
  }

  /* ---------------------------------------------------------------------------------------- */
  /* Block order and raster order                                                             */
  /* ---------------------------------------------------------------------------------------- */

  /** Coefficient (v, u) of block (x, y): the block's column x and row y in the component's
      grid, and the coefficient's row v and column u inside the block. */
  datatype Pos = Pos(y: int, x: int, v: int, u: int)

  predicate InGrid(bX: int, bY: int, p: Pos) {
    0 <= p.y < bY && 0 <= p.x < bX && 0 <= p.v < 8 && 0 <= p.u < 8
  }

  /** Where conv_blocks_to_frame puts the coefficient: row 8 y + v, column 8 x + u of a raster
      8 b_x samples wide. */
  function PixelIndex(bX: int, p: Pos): int {
    p.y * bX * 64 + p.v * bX * 8 + p.x * 8 + p.u
  }

  /** Where the coefficient sits in the block buffer: entry 8 v + u of block y b_x + x. */
  function CoeffIndex(bX: int, p: Pos): int {
    (p.y * bX + p.x) * 64 + p.v * 8 + p.u
  }

  /** The position a frame-buffer index stands for. */
  function PixelPos(bX: int, i: int): Pos
    requires bX >= 1
  {
    var r := i / (8 * bX);
    var q := i % (8 * bX);
    Pos(r / 8, q / 8, r % 8, q % 8)
  }

  /** The position a block-buffer index stands for. */
  function CoeffPos(bX: int, j: int): Pos
    requires bX >= 1
  {
    var b := j / 64;
    var w := j % 64;
    Pos(b / bX, b % bX, w / 8, w % 8)
  }

  /** Every frame-buffer index of a b_x by b_y grid names a position of the grid, and the
      position's raster index is the index again. */
  lemma {:induction false} PixelPosIndex(bX: int, bY: int, i: int)
    requires bX >= 1 && 0 <= i < 64 * (bX * bY)
    ensures InGrid(bX, bY, PixelPos(bX, i)) && PixelIndex(bX, PixelPos(bX, i)) == i
  {
    var w := 8 * bX;
    var r := i / w;
    var q := i % w;
    assert i == w * r + q;
    assert 64 * (bX * bY) == w * (8 * bY);
    DivLt(i, w, 8 * bY);
    DivNonneg(i, w);
    var p := PixelPos(bX, i);
    assert r == 8 * p.y + p.v && q == 8 * p.x + p.u;
    DivLt(q, 8, bX);
    PixelIndexSplit(bX, p);
  }

  /** The raster index is row 8 y + v times the raster width 8 b_x, plus column 8 x + u. */
  lemma {:induction false} PixelIndexSplit(bX: int, p: Pos)
    ensures PixelIndex(bX, p) == (8 * bX) * (8 * p.y + p.v) + (8 * p.x + p.u)
  {
    var w := 8 * bX;
    assert w * (8 * p.y + p.v) == w * (8 * p.y) + w * p.v;
    assert w * (8 * p.y) == p.y * bX * 64;
    assert w * p.v == p.v * bX * 8;
  }

  /** Every position of the grid has a frame-buffer index inside the buffer, from which the
      position reads back: conv_blocks_to_frame's index map is one to one. */
  lemma {:induction false} PixelIndexPos(bX: int, bY: int, p: Pos)
    requires bX >= 1 && InGrid(bX, bY, p)
    ensures 0 <= PixelIndex(bX, p) < 64 * (bX * bY) && PixelPos(bX, PixelIndex(bX, p)) == p
  {
    PixelIndexBound(bX, bY, p);
    PixelIndexBack(bX, p);
  }

  lemma {:induction false} PixelIndexBound(bX: int, bY: int, p: Pos)
    requires bX >= 1 && InGrid(bX, bY, p)
    ensures 0 <= PixelIndex(bX, p) < 64 * (bX * bY)
  {
    PixelIndexSplit(bX, p);
    RowMajorBound(8 * p.y + p.v, 8 * p.x + p.u, 8 * bX, 8 * bY);
    GridArea(bX, bY);
  }

  /** The frame buffer of b_x by b_y blocks holds 64 b_x b_y pixels. */
  lemma GridArea(bX: int, bY: int)
    ensures (8 * bX) * (8 * bY) == 64 * (bX * bY)
  {
  }

  lemma {:induction false} PixelIndexBack(bX: int, p: Pos)
    requires bX >= 1 && 0 <= p.x < bX && 0 <= p.y && 0 <= p.v < 8 && 0 <= p.u < 8
    ensures PixelPos(bX, PixelIndex(bX, p)) == p
  {
    var w := 8 * bX;
    var r := 8 * p.y + p.v;
    var q := 8 * p.x + p.u;
    var i := PixelIndex(bX, p);
    assert i == w * r + q by { PixelIndexSplit(bX, p); }
    assert i / w == r && i % w == q by { DivModUnique(i, w, r, q); }
    assert r / 8 == p.y && r % 8 == p.v by { DivModUnique(r, 8, p.y, p.v); }
    assert q / 8 == p.x && q % 8 == p.u by { DivModUnique(q, 8, p.x, p.u); }
  }

  /** Every block-buffer index names a position of the grid, whose block index it is. */
  lemma {:induction false} CoeffPosIndex(bX: int, bY: int, j: int)
    requires bX >= 1 && 0 <= j < 64 * (bX * bY)
    ensures InGrid(bX, bY, CoeffPos(bX, j)) && CoeffIndex(bX, CoeffPos(bX, j)) == j
  {
    var b := j / 64;
    DivLt(j, 64, bX * bY);
    DivLt(b, bX, bY);
    DivNonneg(b, bX);
    var p := CoeffPos(bX, j);
    assert b == p.y * bX + p.x;
  }

  /** Every position of the grid has a block-buffer index inside the buffer, from which the
      position reads back. */
  lemma {:induction false} CoeffIndexPos(bX: int, bY: int, p: Pos)
    requires bX >= 1 && InGrid(bX, bY, p)
    ensures 0 <= CoeffIndex(bX, p) < 64 * (bX * bY) && CoeffPos(bX, CoeffIndex(bX, p)) == p
  {
    var b := p.y * bX + p.x;
    var j := CoeffIndex(bX, p);
    MulLe(0, p.y, bX);
    MulLe(p.y + 1, bY, bX);
    assert 0 <= b < bX * bY;
    DivModUnique(j, 64, b, p.v * 8 + p.u);
    DivModUnique(b, bX, p.y, p.x);
    DivModUnique(p.v * 8 + p.u, 8, p.v, p.u);
  }

  /** The facts about both index maps that the copying loops use. */
  ghost predicate Layout(bX: int, bY: int) {
    && bX >= 1 && bY >= 0
    && (forall p {:trigger PixelIndex(bX, p)} | InGrid(bX, bY, p) ::
          0 <= PixelIndex(bX, p) < 64 * (bX * bY) && PixelPos(bX, PixelIndex(bX, p)) == p)
    && (forall p {:trigger CoeffIndex(bX, p)} | InGrid(bX, bY, p) ::
          0 <= CoeffIndex(bX, p) < 64 * (bX * bY) && CoeffPos(bX, CoeffIndex(bX, p)) == p)
  }

  lemma {:induction false} LayoutHolds(bX: int, bY: int)
    requires bX >= 1 && bY >= 0
    ensures Layout(bX, bY)
  {
    forall p | InGrid(bX, bY, p)
      ensures 0 <= PixelIndex(bX, p) < 64 * (bX * bY) && PixelPos(bX, PixelIndex(bX, p)) == p
    {
      PixelIndexPos(bX, bY, p);
    }
    forall p | InGrid(bX, bY, p)
      ensures 0 <= CoeffIndex(bX, p) < 64 * (bX * bY) && CoeffPos(bX, CoeffIndex(bX, p)) == p
    {
      CoeffIndexPos(bX, bY, p);
    }
  }

  /** conv_blocks_to_frame on one component's buffers: each frame sample is the coefficient its
      position names (a grid without columns has no samples). */
  function BlocksToRaster(flt: seq<real>, bX: int): (f: seq<real>)
    ensures |f| == |flt|
  {
    seq(|flt|, i requires 0 <= i < |flt| =>
      if bX >= 1 && 0 <= CoeffIndex(bX, PixelPos(bX, i)) < |flt| then flt[CoeffIndex(bX, PixelPos(bX, i))] else 0.0)
  }

  /** conv_frame_to_blocks on one component's buffers: each coefficient is the frame sample at
      its position. */
  function RasterToBlocks(frame: seq<real>, bX: int): (f: seq<real>)
    ensures |f| == |frame|
  {
    seq(|frame|, j requires 0 <= j < |frame| =>
      if bX >= 1 && 0 <= PixelIndex(bX, CoeffPos(bX, j)) < |frame| then frame[PixelIndex(bX, CoeffPos(bX, j))] else 0.0)
  }

  /** The two conversions are inverse to each other on a buffer of whole blocks. */
  lemma {:induction false} RasterBlocksRoundTrip(s: seq<real>, bX: int, bY: int)
    requires bX >= 1 && bY >= 0 && |s| == 64 * (bX * bY)
    ensures RasterToBlocks(BlocksToRaster(s, bX), bX) == s
    ensures BlocksToRaster(RasterToBlocks(s, bX), bX) == s
  {
    var f := BlocksToRaster(s, bX);
    forall j | 0 <= j < |s|
      ensures RasterToBlocks(f, bX)[j] == s[j]
    {
      CoeffPosIndex(bX, bY, j);
      PixelIndexPos(bX, bY, CoeffPos(bX, j));
    }
    var g := RasterToBlocks(s, bX);
    forall i | 0 <= i < |s|
      ensures BlocksToRaster(g, bX)[i] == s[i]
    {
      PixelPosIndex(bX, bY, i);
      CoeffIndexPos(bX, bY, PixelPos(bX, i));
    }
  }
}
