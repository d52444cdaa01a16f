/// The raster frame of Decoders/JPEG/frame.c: the bit depth and sample size of a PNM maximum
/// value, the frame padded to whole MCUs, reading a PNM body with edge padding, and spreading
/// each component's raster over its channel of the frame.
module JpegFrame {
  import opened Arith
  import opened JpegCommon
  import opened JpegIo
  import opened JpegHuffman
  import opened JpegCoeffs
  import opened JpegContext

  /* ---------------------------------------------------------------------------------------- */
  /* Bit depth and sample size                                                                */
  /* ---------------------------------------------------------------------------------------- */

  /** floor_log2: halves the unsigned n until at most 1 is left, counting the halvings; that is
      one less than the bit length of n, so 2^r <= n < 2^(r+1), and 0 when n is 0. */
  method FloorLog2(n: nat) returns (r: nat)
    requires n < 0x1_0000_0000
    ensures n >= 1 ==> r + 1 == BitLength(n) && Pow2(r) <= n < Pow2(r + 1)
    ensures n == 0 ==> r == 0
    ensures r < 32
  {
    var m: nat := n / 2;
    r := 0;
    while m != 0
      invariant m <= n && (n == 0 ==> r == 0)
      invariant n >= 1 ==> r + 1 + BitLength(m) == BitLength(n)
    {
      r := r + 1;
      m := m / 2;
    }
    if n >= 1 {
      Pow2ThirtyTwo();
      BitLengthBounds(n);
      BitLengthBelow(n, 32);
    }
  }

  /** The number of bits of an unsigned int. */
  lemma {:induction false} Pow2ThirtyTwo()
    ensures Pow2(32) == 0x1_0000_0000
  {
    Pow2Word();
    Pow2Add(16, 16);
  }

  /** convert_maxval_to_precision: the bits needed for samples up to maxval. */
  method ConvertMaxvalToPrecision(maxval: int) returns (p: int)
    requires 0 < maxval < 0x8000_0000
    ensures p == BitLength(maxval) && 1 <= p <= 32
    ensures Pow2(p - 1) <= maxval < Pow2(p)
  {
    Pow2ThirtyTwo();
    var r := FloorLog2(maxval);
    p := r + 1;
  }

  /** A precision of p bits has maxval 2^p - 1, and that maxval gives back p bits: the two
      conversions of read_frame_body and convert_maxval_to_precision are inverse. */
  lemma {:induction false} PrecisionRoundTrip(p: nat)
    requires p >= 1
    ensures BitLength(Pow2(p) - 1) == p
  {
    assert Pow2(p) == 2 * Pow2(p - 1);
    BitLengthOf(Pow2(p) - 1, p);
  }

  /** The PNM depths 8, 12 and 16 bits. */
  lemma {:induction false} PrecisionExamples()
    ensures BitLength(255) == 8 && BitLength(4095) == 12 && BitLength(65535) == 16
  {
    Pow2Word();
    assert Pow2(16) == 2 * Pow2(15) && Pow2(15) == 2 * Pow2(14) && Pow2(14) == 2 * Pow2(13);
    assert Pow2(13) == 2 * Pow2(12) && Pow2(12) == 2 * Pow2(11) && Pow2(11) == 2 * Pow2(10);
    assert Pow2(10) == 2 * Pow2(9) && Pow2(9) == 2 * Pow2(8);
    PrecisionRoundTrip(8);
    PrecisionRoundTrip(12);
    PrecisionRoundTrip(16);
  }

  /** convert_maxval_to_sample_size: the bytes of one PNM sample, 0 when more than two. */
  function ConvertMaxvalToSampleSize(maxval: int): (size: int)
    requires maxval > 0
    ensures size == 0 <==> maxval > 0xFFFF
    ensures size != 0 ==> size == 1 || size == 2
  {
    if maxval <= 0xFF then 1
    else if maxval <= 0xFFFF then 2
    else 0
  }

  /** The sample size is the fewest whole bytes that hold maxval. */
  lemma {:induction false} SampleSizeFewest(maxval: int)
    requires 0 < maxval <= 0xFFFF
    ensures var size := ConvertMaxvalToSampleSize(maxval);
            maxval < Pow2(8 * size) && maxval >= Pow2(8 * (size - 1))
  {
    Pow2Word();
    assert Pow2(16) == 256 * Pow2(8) by {
      Pow2Add(8, 8);
    }
    assert Pow2(8) == 256;
  }

  /** Samples of p bits take one byte up to 8 bits and two up to 16; deeper ones are refused. */
  lemma {:induction false} SampleSizeOfPrecision(p: nat)
    requires 1 <= p <= 30
    ensures ConvertMaxvalToSampleSize(Pow2(p) - 1) == if p <= 8 then 1 else if p <= 16 then 2 else 0
  {
    Pow2Word();
    assert Pow2(8) == 256 && Pow2(9) == 512 && Pow2(17) == 2 * Pow2(16);
    if p <= 8 {
      Pow2Mono(p, 8);
    } else if p <= 16 {
      Pow2Mono(9, p);
      Pow2Mono(p, 16);
    } else {
      Pow2Mono(17, p);
    }
  }

  /* ---------------------------------------------------------------------------------------- */
  /* The padded frame                                                                         */
  /* ---------------------------------------------------------------------------------------- */

  /** The flat index of sample c of pixel (x, y) in a frame size_x wide with nf interleaved
      components, as frame.c computes it. */
  function Idx(sx: int, nf: int, y: int, x: int, c: int): int {
    y * sx * nf + x * nf + c
  }

  predicate InFrame(sx: int, sy: int, nf: int, y: int, x: int, c: int) {
    0 <= y < sy && 0 <= x < sx && 0 <= c < nf
  }

  lemma {:induction false} IdxInRange(sx: int, sy: int, nf: int, y: int, x: int, c: int)
    requires InFrame(sx, sy, nf, y, x, c)
    ensures 0 <= Idx(sx, nf, y, x, c) < sy * sx * nf
  {
    var q := sx * y + x;
    assert Idx(sx, nf, y, x, c) == nf * q + c;
    RowMajorBound(y, x, sx, sy);
    RowMajorBound(q, c, nf, sx * sy);
    assert nf * (sx * sy) == sy * sx * nf;
  }

  /** Distinct samples of the frame have distinct indices. */
  lemma {:induction false} IdxInjective(sx: int, nf: int, y1: int, x1: int, c1: int, y2: int, x2: int, c2: int)
    requires 0 <= x1 < sx && 0 <= c1 < nf && 0 <= x2 < sx && 0 <= c2 < nf
    ensures Idx(sx, nf, y1, x1, c1) == Idx(sx, nf, y2, x2, c2) ==> y1 == y2 && x1 == x2 && c1 == c2
  {
    var i := Idx(sx, nf, y1, x1, c1);
    if i == Idx(sx, nf, y2, x2, c2) {
      assert i == nf * (y1 * sx + x1) + c1 && i == nf * (y2 * sx + x2) + c2;
      DivModUnique(i, nf, y1 * sx + x1, c1);
      DivModUnique(i, nf, y2 * sx + x2, c2);
      var q := y1 * sx + x1;
      assert q == sx * y1 + x1 && q == sx * y2 + x2;
      DivModUnique(q, sx, y1, x1);
      DivModUnique(q, sx, y2, x2);
    }
  }

  function Min(a: int, b: int): int {
    if a <= b then a else b
  }

  /** The sample at byte offset i of a PNM body: a byte, or a big-endian word (ntohs). */
  function SampleAt(d: seq<byte>, i: int, size: int): int {
    if size == 1 && 0 <= i < |d| then d[i]
    else if size == 2 && 0 <= i && i + 1 < |d| then BytesWord(d[i], d[i + 1])
    else 0
  }

  /** Sample c of pixel x of the PNM row at rowStart, nf samples per pixel. */
  function RowSample(d: seq<byte>, rowStart: int, nf: int, size: int, x: int, c: int): int {
    SampleAt(d, rowStart + (x * nf + c) * size, size)
  }

  /** Sample c of pixel (x, y) of a PNM body at start, w pixels of nf samples per row. */
  function BodySample(d: seq<byte>, start: int, w: int, nf: int, size: int, y: int, x: int, c: int): int {
    RowSample(d, start + y * (size * nf * w), nf, size, x, c)
  }

  /** struct frame: the component count, the image size, the size padded to whole MCUs, the
      sample precision, and the samples, component-interleaved, row by row. */
  class Frame {
    var components: int
    var Y: int
    var X: int
    var sizeX: int
    var sizeY: int
    var precision: int
    var data: array<real>

    /** The ranges of the C types, and the samples filling the padded frame. */
    ghost predicate Shaped()
      reads this
    {
      && 0 <= components < 0x100 && 0 <= Y < 0x1_0000 && 0 <= X < 0x1_0000
      && X <= sizeX && Y <= sizeY && data.Length == sizeY * sizeX * components
    }

    /** Sample c of pixel (x, y); 0 off the frame. */
    function At(y: int, x: int, c: int): real
      reads this, data
    {
      var i := Idx(sizeX, components, y, x, c);
      if 0 <= i < data.Length then data[i] else 0.0
    }

    /** A frame with its header fields set (frame_create copies them from the context) and
        no samples yet. */
    constructor (components: int, y: int, x: int, precision: int)
      ensures this.components == components && Y == y && X == x && this.precision == precision
      ensures sizeX == 0 && sizeY == 0 && data.Length == 0
    {
      this.components := components;
      Y, X := y, x;
      this.precision := precision;
      sizeX, sizeY := 0, 0;
      data := new real[0];
    }

    /** frame_create_empty: the image rounded up to whole MCUs of 8 max_H by 8 max_V pixels,
        and storage for every sample of it. */
    method CreateEmpty(ctx: Context) returns (err: Status)
      requires ctx.maxH > 0 && ctx.maxV > 0
      requires 0 <= components < 0x100 && 0 <= Y < 0x1_0000 && 0 <= X < 0x1_0000
      modifies this
      ensures err == Success && Shaped() && fresh(data)
      ensures components == old(components) && Y == old(Y) && X == old(X) && precision == old(precision)
      ensures sizeX == CeilDiv(X, 8 * ctx.maxH) * (8 * ctx.maxH)
      ensures sizeY == CeilDiv(Y, 8 * ctx.maxV) * (8 * ctx.maxV)
      ensures X <= sizeX < X + 8 * ctx.maxH && Y <= sizeY < Y + 8 * ctx.maxV
    {
      CeilDivBounds(X, 8 * ctx.maxH);
      CeilDivBounds(Y, 8 * ctx.maxV);
      sizeX := CeilDiv(X, 8 * ctx.maxH) * (8 * ctx.maxH);
      sizeY := CeilDiv(Y, 8 * ctx.maxV) * (8 * ctx.maxV);
      MulLe(0, sizeY * sizeX, components);
      data := new real[sizeY * sizeX * components];
      err := Success;
    }

    /** Stores one sample; every other sample of the frame keeps its value. */
    method Put(y: int, x: int, c: int, v: real)
      requires Shaped() && InFrame(sizeX, sizeY, components, y, x, c)
      modifies data
      ensures At(y, x, c) == v
      ensures forall y', x', c' | InFrame(sizeX, sizeY, components, y', x', c') && (y' != y || x' != x || c' != c) ::
                At(y', x', c') == old(At(y', x', c'))
    {
      IdxInRange(sizeX, sizeY, components, y, x, c);
      data[Idx(sizeX, components, y, x, c)] := v;
      forall y', x', c' | InFrame(sizeX, sizeY, components, y', x', c') && (y' != y || x' != x || c' != c)
        ensures At(y', x', c') == old(At(y', x', c'))
      {
        IdxInRange(sizeX, sizeY, components, y', x', c');
        IdxInjective(sizeX, components, y, x, c, y', x', c');
      }
    }

    /** read_frame_body: each of the Y rows is read whole (X pixels of components samples of
        one byte, or of a big-endian word, as the precision asks); each row is padded to
        size_x by repeating its last pixel, and the rows past Y repeat row Y - 1. A short
        read fails with FailureFileIo; a precision needing more than two bytes per sample
        fails with FailureLogicError once the first row is read. */
    method ReadFrameBody(s: InStream) returns (err: Status)
      requires Shaped() && 1 <= X && 1 <= Y && 1 <= precision <= 30 && s.pos <= |s.data|
      modifies s, data
      ensures var size := ConvertMaxvalToSampleSize(Pow2(precision) - 1);
              var line := size * components * X;
              && (size == 0 ==> err == FailureLogicError)
              && (size != 0 && old(s.pos) + Y * line > |s.data| ==> err == FailureFileIo)
              && (size != 0 && old(s.pos) + Y * line <= |s.data| ==>
                    && err == Success && s.pos == old(s.pos) + Y * line
                    && forall y, x, c | InFrame(sizeX, sizeY, components, y, x, c) ::
                         At(y, x, c)
                         == BodySample(s.data, old(s.pos), X, components, size, Min(y, Y - 1), Min(x, X - 1), c) as real)
    {
      var maxval := Pow2(precision) - 1;
      var size := ConvertMaxvalToSampleSize(maxval);
      var line := size * components * X;
      MulLe(0, size * components, X);
      ghost var start := s.pos;
      for y := 0 to Y
        invariant s.pos == start + y * line <= |s.data|
        invariant size != 0 || y == 0
        invariant forall y', x, c | InFrame(sizeX, y, components, y', x, c) ::
                    At(y', x, c)
                    == BodySample(s.data, start, X, components, size, y', Min(x, X - 1), c) as real
      {
        if |s.data| - s.pos < line {
          assert size != 0 && start + (y + 1) * line > |s.data|;
          MulLe(y + 1, Y, line);
          s.pos := |s.data|;
          return FailureFileIo;
        }
        if size == 0 {
          return FailureLogicError;
        }
        ReadLine(s.data, s.pos, y, size);
        s.pos := s.pos + line;
        assert s.pos == start + (y + 1) * line;
      }
      PadRows();
      err := Success;
    }

    /** Row y of the body: the row read at rowStart, then padded to size_x by its last pixel. */
    method ReadLine(d: seq<byte>, rowStart: int, y: int, size: int)
      requires Shaped() && 0 <= y < Y && 1 <= X
      modifies data
      ensures forall x, c | 0 <= x < sizeX && 0 <= c < components ::
                At(y, x, c) == RowSample(d, rowStart, components, size, Min(x, X - 1), c) as real
      ensures forall y', x, c | InFrame(sizeX, sizeY, components, y', x, c) && y' != y ::
                At(y', x, c) == old(At(y', x, c))
    {
      ReadRow(d, rowStart, y, size);
      PadColumns(y);
    }

    /** One row parsed from the bytes read for it: pixel x, sample c at rowStart + (x nf + c) size. */
    method ReadRow(d: seq<byte>, rowStart: int, y: int, size: int)
      requires Shaped() && 0 <= y < Y
      modifies data
      ensures forall x, c | 0 <= x < X && 0 <= c < components ::
                At(y, x, c) == RowSample(d, rowStart, components, size, x, c) as real
      ensures forall y', x', c' | InFrame(sizeX, sizeY, components, y', x', c') && (y' != y || x' >= X) ::
                At(y', x', c') == old(At(y', x', c'))
    {
      for x := 0 to X
        invariant forall x', c | 0 <= x' < x && 0 <= c < components ::
                    At(y, x', c) == RowSample(d, rowStart, components, size, x', c) as real
        invariant forall y', x', c' | InFrame(sizeX, sizeY, components, y', x', c') && (y' != y || x' >= x) ::
                    At(y', x', c') == old(At(y', x', c'))
      {
        for c := 0 to components
          invariant forall x', c' | 0 <= x' < x && 0 <= c' < components ::
                      At(y, x', c') == RowSample(d, rowStart, components, size, x', c') as real
          invariant forall c' | 0 <= c' < c ::
                      At(y, x, c') == RowSample(d, rowStart, components, size, x, c') as real
          invariant forall y', x', c' | InFrame(sizeX, sizeY, components, y', x', c') && (y' != y || x' > x || (x' == x && c' >= c)) ::
                      At(y', x', c') == old(At(y', x', c'))
        {
          Put(y, x, c, RowSample(d, rowStart, components, size, x, c) as real);
        }
      }
    }

    /** The padding of row y: columns X .. size_x - 1 repeat column X - 1. */
    method PadColumns(y: int)
      requires Shaped() && 0 <= y < sizeY && 1 <= X
      modifies data
      ensures forall x, c | X <= x < sizeX && 0 <= c < components ::
                At(y, x, c) == old(At(y, X - 1, c))
      ensures forall y', x', c' | InFrame(sizeX, sizeY, components, y', x', c') && (y' != y || x' < X) ::
                At(y', x', c') == old(At(y', x', c'))
    {
      for x := X to sizeX
        invariant forall x', c | X <= x' < x && 0 <= c < components ::
                    At(y, x', c) == old(At(y, X - 1, c))
        invariant forall y', x', c' | InFrame(sizeX, sizeY, components, y', x', c') && (y' != y || x' < X || x' >= x) ::
                    At(y', x', c') == old(At(y', x', c'))
      {
        for c := 0 to components
          invariant forall x', c' | X <= x' < x && 0 <= c' < components ::
                      At(y, x', c') == old(At(y, X - 1, c'))
          invariant forall c' | 0 <= c' < c ::
                      At(y, x, c') == old(At(y, X - 1, c'))
          invariant forall y', x', c' | InFrame(sizeX, sizeY, components, y', x', c') && (y' != y || x' < X || x' > x || (x' == x && c' >= c)) ::
                      At(y', x', c') == old(At(y', x', c'))
        {
          Put(y, x, c, At(y, X - 1, c));
        }
      }
    }

    /** The padding below the image: rows Y .. size_y - 1 repeat row Y - 1. */
    method PadRows()
      requires Shaped() && 1 <= Y
      modifies data
      ensures forall y, x, c | InFrame(sizeX, sizeY, components, y, x, c) && y >= Y ::
                At(y, x, c) == old(At(Y - 1, x, c))
      ensures forall y, x, c | InFrame(sizeX, sizeY, components, y, x, c) && y < Y ::
                At(y, x, c) == old(At(y, x, c))
    {
      for y := Y to sizeY
        invariant forall y', x, c | InFrame(sizeX, y, components, y', x, c) && y' >= Y ::
                    At(y', x, c) == old(At(Y - 1, x, c))
        invariant forall y', x, c | InFrame(sizeX, sizeY, components, y', x, c) && (y' < Y || y' >= y) ::
                    At(y', x, c) == old(At(y', x, c))
      {
        CopyRow(y);
      }
    }

    /** The samples of channel ch spread from a cx by cy component raster: pixel (x, y) of the
        frame, within the whole steps of size_x / cx by size_y / cy pixels, is the raster
        sample at (x / step_x, y / step_y). */
    ghost predicate Spread(buf: array?<real>, cx: int, cy: int, ch: int)
      reads this, data, buf
    {
      var stepX := if cx > 0 then sizeX / cx else 0;
      var stepY := if cy > 0 then sizeY / cy else 0;
      forall y, x {:trigger Upsampled(buf, cx, stepY, stepX, y, x)}
        | InFrame(sizeX, sizeY, components, y, x, ch) && y < stepY * cy && x < stepX * cx ::
        At(y, x, ch) == Upsampled(buf, cx, stepY, stepX, y, x)
    }

    /** transform_components_to_frame: the rasters of the allocated components, in the order
        of the component table, fill the channels of the frame one after another, each raster
        sample becoming a patch of step_x by step_y pixels. Channels past the last one filled
        keep their samples. */
    method TransformComponentsToFrame(ctx: Context)
      requires Shaped() && |Rasters(ctx.component)| <= components
      requires forall i | 0 <= i < |ctx.component| && ctx.component[i].frameBuffer != null ::
                 var k := ctx.component[i];
                 && k.bX >= 1 && k.bY >= 1 && k.frameBuffer != data && k.frameBuffer.Length == 64 * (k.bX * k.bY)
      modifies data
      ensures var rasters := Rasters(ctx.component);
              forall ch | 0 <= ch < |rasters| :: Spread(rasters[ch].buf, rasters[ch].cx, rasters[ch].cy, ch)
      ensures forall y, x, c | InFrame(sizeX, sizeY, components, y, x, c) && c >= |Rasters(ctx.component)| ::
                At(y, x, c) == old(At(y, x, c))
    {
      ghost var all := Rasters(ctx.component);
      RastersFrom(ctx.component);
      forall ch | 0 <= ch < |all|
        ensures all[ch].buf != data
      {
        assert all[ch] in all;
      }
      var compno := 0;
      for i := 0 to |ctx.component|
        invariant compno <= |all| && Rasters(ctx.component[..i]) == all[..compno]
        invariant forall ch | 0 <= ch < compno :: Spread(all[ch].buf, all[ch].cx, all[ch].cy, ch)
        invariant forall y, x, c | InFrame(sizeX, sizeY, components, y, x, c) && c >= compno ::
                    At(y, x, c) == old(At(y, x, c))
      {
        compno := TransferEntry(ctx, i, compno, all);
      }
      assert ctx.component[..|ctx.component|] == ctx.component;
    }

    /** One step of transform_components_to_frame: entry i of the component table, when it
        holds a frame buffer, fills the next channel; the channels filled before keep their
        samples. */
    method TransferEntry(ctx: Context, i: int, compno: int, ghost all: seq<Raster>) returns (next: int)
      requires Shaped() && 0 <= i < |ctx.component| && all == Rasters(ctx.component) && |all| <= components
      requires var k := ctx.component[i];
               k.frameBuffer != null ==> k.bX >= 1 && k.bY >= 1 && k.frameBuffer.Length == 64 * (k.bX * k.bY)
      requires forall ch | 0 <= ch < |all| :: all[ch].buf != data
      requires 0 <= compno <= |all| && Rasters(ctx.component[..i]) == all[..compno]
      requires forall ch | 0 <= ch < compno :: Spread(all[ch].buf, all[ch].cx, all[ch].cy, ch)
      modifies data
      ensures compno <= next <= |all| && Rasters(ctx.component[..i + 1]) == all[..next]
      ensures forall ch | 0 <= ch < next :: Spread(all[ch].buf, all[ch].cx, all[ch].cy, ch)
      ensures forall y, x, c | InFrame(sizeX, sizeY, components, y, x, c) && c >= next ::
                At(y, x, c) == old(At(y, x, c))
    {
      var k := ctx.component[i];
      RastersPrefix(ctx.component, i);
      RastersMono(ctx.component, i + 1);
      if k.frameBuffer == null {
        return compno;
      }
      var cx, cy := 8 * k.bX, 8 * k.bY;
      ghost var grown := Rasters(ctx.component[..i + 1]);
      assert grown == all[..compno] + [Raster(k.frameBuffer, cx, cy)];
      assert |grown| == compno + 1 <= |all|;
      assert all[compno] == grown[compno] == Raster(k.frameBuffer, cx, cy);
      assert grown == all[..compno + 1];
      assert k.frameBuffer.Length == cx * cy;
      CopyComponent(k.frameBuffer, cx, cy, compno);
      forall ch | 0 <= ch < compno
        ensures Spread(all[ch].buf, all[ch].cx, all[ch].cy, ch)
      {
        assert old(Spread(all[ch].buf, all[ch].cx, all[ch].cy, ch));
      }
      next := compno + 1;
    }

    /** One component raster spread over channel ch; the other channels keep their samples. */
    method CopyComponent(buf: array<real>, cx: int, cy: int, ch: int)
      requires Shaped() && 1 <= cx && 1 <= cy && buf.Length == cx * cy && buf != data
      requires 0 <= ch < components
      modifies data
      ensures Spread(buf, cx, cy, ch)
      ensures forall y, x, c | InFrame(sizeX, sizeY, components, y, x, c) && c != ch ::
                At(y, x, c) == old(At(y, x, c))
    {
      var stepX := sizeX / cx;
      var stepY := sizeY / cy;
      StepFits(sizeX, cx);
      StepFits(sizeY, cy);
      for y := 0 to cy
        invariant forall y', x' | 0 <= y' < stepY * y && 0 <= x' < stepX * cx ::
                    At(y', x', ch) == Upsampled(buf, cx, stepY, stepX, y', x')
        invariant forall y', x', c | InFrame(sizeX, sizeY, components, y', x', c) && c != ch ::
                    At(y', x', c) == old(At(y', x', c))
      {
        MulLe(y + 1, cy, stepY);
        assert stepY * (y + 1) == stepY * y + stepY;
        CopyBand(buf, cx, cy, stepY, stepX, y, ch);
      }
    }

    /** Raster row y of a component spread over rows step_y y .. step_y (y + 1) - 1 of channel
        ch; every other sample keeps its value. */
    method CopyBand(buf: array<real>, cx: int, cy: int, stepY: int, stepX: int, y: int, ch: int)
      requires Shaped() && 1 <= cx && buf.Length == cx * cy && buf != data && 0 <= ch < components
      requires 0 <= y < cy && 0 <= stepY && 0 <= stepX && stepY * y + stepY <= sizeY && stepX * cx <= sizeX
      modifies data
      ensures forall y', x' | stepY * y <= y' < stepY * y + stepY && 0 <= x' < stepX * cx ::
                At(y', x', ch) == Upsampled(buf, cx, stepY, stepX, y', x')
      ensures forall y', x', c | InFrame(sizeX, sizeY, components, y', x', c)
                                 && (c != ch || y' < stepY * y || y' >= stepY * y + stepY) ::
                At(y', x', c) == old(At(y', x', c))
    {
      var y0 := stepY * y;
      for x := 0 to cx
        invariant forall y', x' | y0 <= y' < y0 + stepY && 0 <= x' < stepX * x ::
                    At(y', x', ch) == Upsampled(buf, cx, stepY, stepX, y', x')
        invariant forall y', x', c | InFrame(sizeX, sizeY, components, y', x', c)
                                     && (c != ch || y' < y0 || y' >= y0 + stepY || x' >= stepX * x) ::
                    At(y', x', c) == old(At(y', x', c))
      {
        MulLe(x + 1, cx, stepX);
        RasterIndex(cx, cy, y, x);
        var px := buf[y * cx + x];
        var x0 := stepX * x;
        assert stepX * (x + 1) == x0 + stepX;
        FillPatch(y0, x0, stepY, stepX, ch, px);
        forall y', x' | y0 <= y' < y0 + stepY && x0 <= x' < x0 + stepX
          ensures Upsampled(buf, cx, stepY, stepX, y', x') == px
        {
          DivModUnique(y', stepY, y, y' - y0);
          DivModUnique(x', stepX, x, x' - x0);
        }
      }
    }

    /** A step_x by step_y patch of channel ch at (X0, Y0) set to v; every other sample of the
        frame keeps its value. */
    method FillPatch(y0: int, x0: int, stepY: int, stepX: int, ch: int, v: real)
      requires Shaped() && 0 <= y0 && 0 <= stepY && y0 + stepY <= sizeY
      requires 0 <= x0 && 0 <= stepX && x0 + stepX <= sizeX && 0 <= ch < components
      modifies data
      ensures forall y, x | y0 <= y < y0 + stepY && x0 <= x < x0 + stepX :: At(y, x, ch) == v
      ensures forall y, x, c | InFrame(sizeX, sizeY, components, y, x, c)
                               && (c != ch || y < y0 || y >= y0 + stepY || x < x0 || x >= x0 + stepX) ::
                At(y, x, c) == old(At(y, x, c))
    {
      for y := y0 to y0 + stepY
        invariant forall y', x | y0 <= y' < y && x0 <= x < x0 + stepX :: At(y', x, ch) == v
        invariant forall y', x, c | InFrame(sizeX, sizeY, components, y', x, c)
                                    && (c != ch || y' < y0 || y' >= y || x < x0 || x >= x0 + stepX) ::
                    At(y', x, c) == old(At(y', x, c))
      {
        FillRun(y, x0, x0 + stepX, ch, v);
      }
    }

    /** Samples x0 .. x1 - 1 of channel ch of row y set to v; every other sample keeps its value. */
    method FillRun(y: int, x0: int, x1: int, ch: int, v: real)
      requires Shaped() && 0 <= y < sizeY && 0 <= x0 <= x1 <= sizeX && 0 <= ch < components
      modifies data
      ensures forall x | x0 <= x < x1 :: At(y, x, ch) == v
      ensures forall y', x, c | InFrame(sizeX, sizeY, components, y', x, c) && (c != ch || y' != y || x < x0 || x >= x1) ::
                At(y', x, c) == old(At(y', x, c))
    {
      for x := x0 to x1
        invariant forall x' | x0 <= x' < x :: At(y, x', ch) == v
        invariant forall y', x', c | InFrame(sizeX, sizeY, components, y', x', c) && (c != ch || y' != y || x' < x0 || x' >= x) ::
                    At(y', x', c) == old(At(y', x', c))
      {
        Put(y, x, ch, v);
      }
    }

    /** Row y becomes a copy of row Y - 1. */
    method CopyRow(y: int)
      requires Shaped() && 1 <= Y <= y < sizeY
      modifies data
      ensures forall x, c | 0 <= x < sizeX && 0 <= c < components ::
                At(y, x, c) == old(At(Y - 1, x, c))
      ensures forall y', x, c | InFrame(sizeX, sizeY, components, y', x, c) && y' != y ::
                At(y', x, c) == old(At(y', x, c))
    {
      for x := 0 to sizeX
        invariant forall x', c | 0 <= x' < x && 0 <= c < components ::
                    At(y, x', c) == old(At(Y - 1, x', c))
        invariant forall y', x', c | InFrame(sizeX, sizeY, components, y', x', c) && (y' != y || x' >= x) ::
                    At(y', x', c) == old(At(y', x', c))
      {
        for c := 0 to components
          invariant forall x', c' | 0 <= x' < x && 0 <= c' < components ::
                      At(y, x', c') == old(At(Y - 1, x', c'))
          invariant forall c' | 0 <= c' < c ::
                      At(y, x, c') == old(At(Y - 1, x, c'))
          invariant forall y', x', c' | InFrame(sizeX, sizeY, components, y', x', c') && (y' != y || x' > x || (x' == x && c' >= c)) ::
                      At(y', x', c') == old(At(y', x', c'))
        {
          Put(y, x, c, At(Y - 1, x, c));
        }
      }
    }
  }
  /** Sample (q, r) of a raster cx samples wide; 0 off the raster. */
  function Cell(buf: array?<real>, cx: int, r: int, q: int): real
    reads buf
  {
    var i := r * cx + q;
    if buf != null && 0 <= i < buf.Length then buf[i] else 0.0
  }

  /** The raster sample a frame pixel (x, y) takes when each raster sample covers step_x by
      step_y pixels. */
  function Upsampled(buf: array?<real>, cx: int, stepY: int, stepX: int, y: int, x: int): real
    reads buf
  {
    if stepY > 0 && stepX > 0 then Cell(buf, cx, y / stepY, x / stepX) else 0.0
  }

  /** A component raster: its frame buffer and its width and height in samples. */
  datatype Raster = Raster(buf: array<real>, cx: int, cy: int)

  /** The rasters of the allocated entries of a component table, in table order: the order in
      which transform_components_to_frame assigns them the channels of the frame. */
  function Rasters(cs: seq<Component>): seq<Raster>
    reads cs
  {
    if cs == [] then []
    else
      var k := cs[|cs| - 1];
      Rasters(cs[..|cs| - 1]) + (if k.frameBuffer != null then [Raster(k.frameBuffer, 8 * k.bX, 8 * k.bY)] else [])
  }

  /** The rasters of a table prefix one entry longer. */
  lemma {:induction false} RastersPrefix(cs: seq<Component>, i: int)
    requires 0 <= i < |cs|
    ensures var k := cs[i];
            Rasters(cs[..i + 1])
            == Rasters(cs[..i]) + (if k.frameBuffer != null then [Raster(k.frameBuffer, 8 * k.bX, 8 * k.bY)] else [])
  {
    assert cs[..i + 1][..i] == cs[..i];
  }

  /** The rasters of a table prefix are a prefix of the table's rasters. */
  lemma {:induction false} RastersMono(cs: seq<Component>, j: int)
    requires 0 <= j <= |cs|
    ensures Rasters(cs[..j]) <= Rasters(cs)
    decreases |cs| - j
  {
    if j < |cs| {
      RastersMono(cs, j + 1);
      RastersPrefix(cs, j);
    } else {
      assert cs[..j] == cs;
    }
  }

  /** Every raster of a table comes from an allocated entry of it. */
  lemma {:induction false} RastersFrom(cs: seq<Component>)
    ensures forall r | r in Rasters(cs) :: exists i | 0 <= i < |cs| :: cs[i].frameBuffer == r.buf && r.cx == 8 * cs[i].bX && r.cy == 8 * cs[i].bY
    decreases |cs|
  {
    if cs != [] {
      var n := |cs| - 1;
      RastersFrom(cs[..n]);
      forall r | r in Rasters(cs)
        ensures exists i | 0 <= i < |cs| :: cs[i].frameBuffer == r.buf && r.cx == 8 * cs[i].bX && r.cy == 8 * cs[i].bY
      {
        if r in Rasters(cs[..n]) {
          var i :| 0 <= i < |cs[..n]| && cs[..n][i].frameBuffer == r.buf && r.cx == 8 * cs[..n][i].bX && r.cy == 8 * cs[..n][i].bY;
          assert cs[i] == cs[..n][i];
        } else {
          assert cs[n].frameBuffer == r.buf && r.cx == 8 * cs[n].bX && r.cy == 8 * cs[n].bY;
        }
      }
    }
  }

  lemma {:induction false} StepFits(size: int, c: int)
    requires 0 <= size && 1 <= c
    ensures 0 <= size / c && size / c * c <= size
  {
  }

  lemma {:induction false} RasterIndex(cx: int, cy: int, y: int, x: int)
    requires 0 <= y < cy && 0 <= x < cx
    ensures 0 <= y * cx + x < cx * cy
  {
    MulLe(y + 1, cy, cx);
  }
}
