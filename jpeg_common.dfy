/// Return codes, the zig-zag table, the small arithmetic helpers and the table records of the
/// baseline JPEG codec (Decoders/JPEG/common.h, Decoders/JPEG/common.c).
module JpegCommon {

  /** The codec's return codes (the anonymous enum of common.h). */
  datatype Status =
    | Success
    | FailureFileIo
    | FailureFileUnsupported
    | FailureFileOpen
    | FailureFileSeek
    | FailureMemoryAllocation
    | FailureLogicError
    | FailureOverflowError
    | FailureNoMoreData
    | NotFound

  datatype Option<T> = None | Some(value: T)

  /** The integer each return code stands for; only success is zero, so RETURN_IF, which returns
      any non-zero code unchanged, passes every failure up and nothing else. NotFound is the bare
      -1 that query_code and value_to_vlc return for a code or a value missing from a table. */
  function StatusCode(s: Status): (c: int)
    ensures c == 0 <==> s == Success
    ensures s != Success && s != NotFound ==> 0x1000 <= c <= 0x4000
    ensures s == NotFound <==> c < 0
  {
    match s
    case NotFound => -1
    case Success => 0x0000
    case FailureFileIo => 0x1000
    case FailureFileUnsupported => 0x1001
    case FailureFileOpen => 0x1002
    case FailureFileSeek => 0x1003
    case FailureMemoryAllocation => 0x2000
    case FailureLogicError => 0x3000
    case FailureOverflowError => 0x3001
    case FailureNoMoreData => 0x4000
  }

  /** No two return codes share a value. */
  lemma {:induction false} StatusCodeInjective(s: Status, t: Status)
    ensures StatusCode(s) == StatusCode(t) <==> s == t
  {
  }

  /** zigzag[i]: the raster (row-major) index of the i-th coefficient in zig-zag order. */
  const Zigzag: seq<int> :=
      [ 0,  1,  8, 16,  9,  2,  3, 10]
    + [17, 24, 32, 25, 18, 11,  4,  5]
    + [12, 19, 26, 33, 40, 48, 41, 34]
    + [27, 20, 13,  6,  7, 14, 21, 28]
    + [35, 42, 49, 56, 57, 50, 43, 36]
    + [29, 22, 15, 23, 30, 37, 44, 51]
    + [58, 59, 52, 45, 38, 31, 39, 46]
    + [53, 60, 61, 54, 47, 55, 62, 63]

  /** The inverse table: the zig-zag position of each raster index. */
  const ZigzagPosition: seq<int> :=
      [ 0,  1,  5,  6, 14, 15, 27, 28]
    + [ 2,  4,  7, 13, 16, 26, 29, 42]
    + [ 3,  8, 12, 17, 25, 30, 41, 43]
    + [ 9, 11, 18, 24, 31, 40, 44, 53]
    + [10, 19, 23, 32, 39, 45, 52, 54]
    + [20, 22, 33, 38, 46, 51, 55, 60]
    + [21, 34, 37, 47, 50, 56, 59, 61]
    + [35, 36, 48, 49, 57, 58, 62, 63]

  /** Reading a raster index off the zig-zag table and looking up its position gives back the
      zig-zag position. */
  lemma {:induction false} ZigzagInverse()
    ensures |Zigzag| == 64 && |ZigzagPosition| == 64
    ensures forall i | 0 <= i < 64 :: 0 <= Zigzag[i] < 64 && ZigzagPosition[Zigzag[i]] == i
  {
    forall i | 0 <= i < 64
      ensures 0 <= Zigzag[i] < 64 && ZigzagPosition[Zigzag[i]] == i
    {
      // one case per table entry
      assert i == 0 || i == 1 || i == 2 || i == 3 || i == 4 || i == 5 || i == 6 || i == 7
        || i == 8 || i == 9 || i == 10 || i == 11 || i == 12 || i == 13 || i == 14 || i == 15
        || i == 16 || i == 17 || i == 18 || i == 19 || i == 20 || i == 21 || i == 22 || i == 23
        || i == 24 || i == 25 || i == 26 || i == 27 || i == 28 || i == 29 || i == 30 || i == 31
        || i == 32 || i == 33 || i == 34 || i == 35 || i == 36 || i == 37 || i == 38 || i == 39
        || i == 40 || i == 41 || i == 42 || i == 43 || i == 44 || i == 45 || i == 46 || i == 47
        || i == 48 || i == 49 || i == 50 || i == 51 || i == 52 || i == 53 || i == 54 || i == 55
        || i == 56 || i == 57 || i == 58 || i == 59 || i == 60 || i == 61 || i == 62 || i == 63;
    }
  }

  /** And the other way round: the two tables are inverse to each other. */
  lemma {:induction false} ZigzagPositionInverse()
    ensures forall k | 0 <= k < 64 :: 0 <= ZigzagPosition[k] < 64 && Zigzag[ZigzagPosition[k]] == k
  {
    forall k | 0 <= k < 64
      ensures 0 <= ZigzagPosition[k] < 64 && Zigzag[ZigzagPosition[k]] == k
    {
      // one case per table entry
      assert k == 0 || k == 1 || k == 2 || k == 3 || k == 4 || k == 5 || k == 6 || k == 7
        || k == 8 || k == 9 || k == 10 || k == 11 || k == 12 || k == 13 || k == 14 || k == 15
        || k == 16 || k == 17 || k == 18 || k == 19 || k == 20 || k == 21 || k == 22 || k == 23
        || k == 24 || k == 25 || k == 26 || k == 27 || k == 28 || k == 29 || k == 30 || k == 31
        || k == 32 || k == 33 || k == 34 || k == 35 || k == 36 || k == 37 || k == 38 || k == 39
        || k == 40 || k == 41 || k == 42 || k == 43 || k == 44 || k == 45 || k == 46 || k == 47
        || k == 48 || k == 49 || k == 50 || k == 51 || k == 52 || k == 53 || k == 54 || k == 55
        || k == 56 || k == 57 || k == 58 || k == 59 || k == 60 || k == 61 || k == 62 || k == 63;
    }
  }

  /** Zig-zag order is a permutation of the 64 raster positions. */
  lemma {:induction false} ZigzagPermutation()
    ensures forall i | 0 <= i < 64 :: 0 <= Zigzag[i] < 64
    ensures forall i, j | 0 <= i < j < 64 :: Zigzag[i] != Zigzag[j]
    ensures forall k | 0 <= k < 64 :: k in Zigzag
  {
    ZigzagInverse();
    ZigzagPositionInverse();
    forall k | 0 <= k < 64
      ensures k in Zigzag
    {
      assert Zigzag[ZigzagPosition[k]] == k;
    }
  }

  /** The scan starts at the DC position and ends in the bottom-right corner. */
  lemma {:induction false} ZigzagEnds()
    ensures Zigzag[0] == 0 && Zigzag[63] == 63
  {
    ZigzagInverse();
    assert ZigzagPosition[0] == 0 && ZigzagPosition[63] == 63;
  }

  /** Raster positions a and b are neighbours (or equal) on the 8x8 grid. */
  predicate GridNeighbours(a: int, b: int) {
    -1 <= b / 8 - a / 8 <= 1 && -1 <= b % 8 - a % 8 <= 1
  }

  /** Each step of the scan moves by at most one row and one column. */
  lemma {:induction false} ZigzagNeighbours()
    ensures forall i | 0 <= i < 63 :: GridNeighbours(Zigzag[i], Zigzag[i + 1])
  {
    ZigzagNeighboursIn0();
    ZigzagNeighboursIn1();
    ZigzagNeighboursIn2();
    ZigzagNeighboursIn3();
  }

  lemma {:induction false} ZigzagNeighboursIn0()
    ensures forall i | 0 <= i < 16 :: GridNeighbours(Zigzag[i], Zigzag[i + 1])
  {
    forall i | 0 <= i < 16
      ensures GridNeighbours(Zigzag[i], Zigzag[i + 1])
    {
      assert i == 0 || i == 1 || i == 2 || i == 3 || i == 4 || i == 5 || i == 6 || i == 7
        || i == 8 || i == 9 || i == 10 || i == 11 || i == 12 || i == 13 || i == 14 || i == 15;
    }
  }

  lemma {:induction false} ZigzagNeighboursIn1()
    ensures forall i | 16 <= i < 32 :: GridNeighbours(Zigzag[i], Zigzag[i + 1])
  {
    forall i | 16 <= i < 32
      ensures GridNeighbours(Zigzag[i], Zigzag[i + 1])
    {
      assert i == 16 || i == 17 || i == 18 || i == 19 || i == 20 || i == 21 || i == 22 || i == 23
        || i == 24 || i == 25 || i == 26 || i == 27 || i == 28 || i == 29 || i == 30 || i == 31;
    }
  }

  lemma {:induction false} ZigzagNeighboursIn2()
    ensures forall i | 32 <= i < 48 :: GridNeighbours(Zigzag[i], Zigzag[i + 1])
  {
    forall i | 32 <= i < 48
      ensures GridNeighbours(Zigzag[i], Zigzag[i + 1])
    {
      assert i == 32 || i == 33 || i == 34 || i == 35 || i == 36 || i == 37 || i == 38 || i == 39
        || i == 40 || i == 41 || i == 42 || i == 43 || i == 44 || i == 45 || i == 46 || i == 47;
    }
  }

  lemma {:induction false} ZigzagNeighboursIn3()
    ensures forall i | 48 <= i < 63 :: GridNeighbours(Zigzag[i], Zigzag[i + 1])
  {
    forall i | 48 <= i < 63
      ensures GridNeighbours(Zigzag[i], Zigzag[i + 1])
    {
      assert i == 48 || i == 49 || i == 50 || i == 51 || i == 52 || i == 53 || i == 54 || i == 55
        || i == 56 || i == 57 || i == 58 || i == 59 || i == 60 || i == 61 || i == 62;
    }
  }

  /** ceil_div: n / d rounded up (the callers' n is a 16-bit image size, so n + d - 1 does not
      wrap in size_t). */
  function CeilDiv(n: nat, d: nat): nat
    requires d > 0
  {
    (n + (d - 1)) / d
  }

  /** CeilDiv(n, d) is the least multiple count of d that covers n. */
  lemma {:induction false} CeilDivBounds(n: nat, d: nat)
    requires d > 0
    ensures CeilDiv(n, d) * d >= n
    ensures CeilDiv(n, d) * d < n + d
    ensures CeilDiv(n, d) == 0 <==> n == 0
  {
    var q := (n + (d - 1)) / d;
    var r := (n + (d - 1)) % d;
    assert n + (d - 1) == q * d + r && 0 <= r < d;
  }

  /** clamp(min, val, max): val forced into [min, max]. */
  function Clamp(min: int, val: int, max: int): (r: int)
    ensures min <= max ==> min <= r <= max
    ensures min <= val <= max ==> r == val
    ensures val < min ==> r == min
    ensures min <= val && max < val ==> r == max
  {
    if val < min then min else if val > max then max else val
  }

  /** struct qtable: precision Pq and the 64 quantisation values in raster order. */
  class QTable {
    var Pq: int
    const Q: array<int>

    ghost predicate Valid() {
      Q.Length == 64
    }

    constructor ()
      ensures Valid() && fresh(Q)
    {
      Q := new int[64];
    }

    /** init_qtable: 8-bit precision and every quantiser 1. */
    method Init()
      requires Valid()
      modifies this, Q
      ensures Pq == 0 && forall j | 0 <= j < 64 :: Q[j] == 1
    {
      Pq := 0;
      var i := 0;
      while i < 64
        invariant 0 <= i <= 64 && Pq == 0
        invariant forall j | 0 <= j < i :: Q[j] == 1
      {
        Q[i] := 1;
        i := i + 1;
      }
    }
  }

  /** struct component: sampling factors, table selectors, block grid and buffers. The
      coefficient buffer int_buffer holds 64 integers per block, block after block; the
      floating-point buffers are modelled with exact reals. */
  class Component {
    var H: int
    var V: int
    var Tq: int
    var Td: int
    var Ta: int
    var bX: int
    var bY: int
    var intBuffer: array?<int>
    var fltBuffer: array?<real>
    var frameBuffer: array?<real>

    constructor ()
      ensures H == 0 && V == 0 && Tq == 0 && Td == 0 && Ta == 0 && bX == 0 && bY == 0
      ensures intBuffer == null && fltBuffer == null && frameBuffer == null
    {
      H, V, Tq, Td, Ta, bX, bY := 0, 0, 0, 0, 0, 0, 0;
      intBuffer, fltBuffer, frameBuffer := null, null, null;
    }

    /** init_component: no sampling, table 0, an empty grid and no buffers. */
    method Init()
      modifies this
      ensures H == 0 && V == 0 && Tq == 0 && Td == 0 && Ta == 0 && bX == 0 && bY == 0
      ensures intBuffer == null && fltBuffer == null && frameBuffer == null
    {
      H, V := 0, 0;
      Tq := 0;
      Td, Ta := 0, 0;
      bX, bY := 0, 0;
      intBuffer, fltBuffer, frameBuffer := null, null, null;
    }

    /** alloc_buffers: replaces the buffers by new ones for size blocks; the coefficient buffer
        starts zeroed. Allocation is taken to succeed. */
    method AllocBuffers(size: nat) returns (err: Status)
      modifies this
      ensures err == Success
      ensures H == old(H) && V == old(V) && Tq == old(Tq) && Td == old(Td) && Ta == old(Ta)
      ensures bX == old(bX) && bY == old(bY)
      ensures fresh(intBuffer) && fresh(fltBuffer) && fresh(frameBuffer) && fltBuffer != frameBuffer
      ensures intBuffer.Length == 64 * size && fltBuffer.Length == 64 * size
      ensures frameBuffer.Length == 64 * size
      ensures forall j | 0 <= j < 64 * size :: intBuffer[j] == 0
    {
      intBuffer := new int[64 * size](_ => 0);
      fltBuffer := new real[64 * size];
      frameBuffer := new real[64 * size];
      err := Success;
    }
  }

  /** struct htable, a DHT table as transmitted: L[i] codes of length i + 1, whose values are
      V[i][0..L[i]). */
  class HTable {
    const L: array<int>
    const V: array2<int>

    ghost predicate Valid() {
      L.Length == 16 && V.Length0 == 16 && V.Length1 == 255
    }

    constructor ()
      ensures Valid() && fresh(L) && fresh(V)
    {
      L := new int[16];
      V := new int[16, 255];
    }

    /** init_htable: every count and every value zero. */
    method Init()
      requires Valid()
      modifies L, V
      ensures forall i | 0 <= i < 16 :: L[i] == 0
      ensures forall i, j | 0 <= i < 16 && 0 <= j < 255 :: V[i, j] == 0
    {
      var i := 0;
      while i < 16
        invariant 0 <= i <= 16
        invariant forall k | 0 <= k < i :: L[k] == 0
      {
        L[i] := 0;
        i := i + 1;
      }
      i := 0;
      while i < 16
        invariant 0 <= i <= 16
        invariant forall k | 0 <= k < 16 :: L[k] == 0
        invariant forall k, j | 0 <= k < i && 0 <= j < 255 :: V[k, j] == 0
      {
        var j := 0;
        while j < 255
          invariant 0 <= j <= 255
          invariant forall k | 0 <= k < 16 :: L[k] == 0
          invariant forall k, l | 0 <= k < i && 0 <= l < 255 :: V[k, l] == 0
          invariant forall l | 0 <= l < j :: V[i, l] == 0
        {
          V[i, j] := 0;
          j := j + 1;
        }
        i := i + 1;
      }
    }
  }

  /** struct hcode, the tables of Annex C: the values in code order (HUFFVAL), code lengths
      (HUFFSIZE) and codes (HUFFCODE) in code order, the number of codes (LASTK), and the codes
      and lengths indexed by value (EHUFCO, EHUFSI). */
  class HCode {
    const huffVal: array<int>
    const huffSize: array<int>
    const huffCode: array<int>
    var lastK: int
    const eHufCo: array<int>
    const eHufSi: array<int>

    /** The array sizes of struct hcode, and the ranges of its C types: uint8_t values, size_t
        lengths and uint16_t codes; LASTK stays below 256 (generate_size_table asserts it). */
    ghost predicate Valid()
      reads this, huffVal, huffSize, huffCode, eHufCo, eHufSi
    {
      && huffVal.Length == 16 * 255 && huffSize.Length == 256 && huffCode.Length == 256
      && eHufCo.Length == 256 && eHufSi.Length == 256
      && huffVal != huffSize && huffVal != huffCode && huffVal != eHufCo && huffVal != eHufSi
      && huffSize != huffCode && huffSize != eHufCo && huffSize != eHufSi
      && huffCode != eHufCo && huffCode != eHufSi && eHufCo != eHufSi
      && 0 <= lastK < 256
      && (forall k | 0 <= k < 16 * 255 :: 0 <= huffVal[k] < 0x100)
      && (forall k | 0 <= k < 256 :: 0 <= huffSize[k] && 0 <= huffCode[k] < 0x10000)
      && (forall k | 0 <= k < 256 :: 0 <= eHufCo[k] < 0x10000 && 0 <= eHufSi[k])
    }

    /** The array sizes alone, which the lookups need. */
    predicate Sized()
      reads this
    {
      && huffVal.Length == 16 * 255 && huffSize.Length == 256 && huffCode.Length == 256
      && eHufCo.Length == 256 && eHufSi.Length == 256 && 0 <= lastK < 256
    }

    /** An hcode whose entries are zero; the C context comes from malloc, so any entries within
        the ranges of the C types are possible there, and zero is one of them. */
    constructor ()
      ensures Valid()
      ensures fresh(huffVal) && fresh(huffSize) && fresh(huffCode) && fresh(eHufCo) && fresh(eHufSi)
    {
      huffVal := new int[16 * 255](_ => 0);
      huffSize := new int[256](_ => 0);
      huffCode := new int[256](_ => 0);
      lastK := 0;
      eHufCo := new int[256](_ => 0);
      eHufSi := new int[256](_ => 0);
    }
  }

  /** struct huffenc, the working lists of section K.2: FREQ, CODESIZE and OTHERS for the 256
      values plus the reserved value 256, BITS for code lengths 0..32, and HUFFVAL. */
  class HuffEnc {
    const freq: array<int>
    const codesize: array<int>
    const others: array<int>
    const bits: array<int>
    const huffVal: array<int>

    ghost predicate Valid() {
      && freq.Length == 257 && codesize.Length == 257 && others.Length == 257
      && bits.Length == 33 && huffVal.Length == 16 * 255
      && freq != codesize && freq != others && freq != bits && freq != huffVal
      && codesize != others && codesize != bits && codesize != huffVal
      && others != bits && others != huffVal && bits != huffVal
    }

    constructor ()
      ensures Valid()
      ensures fresh(freq) && fresh(codesize) && fresh(others) && fresh(bits) && fresh(huffVal)
    {
      freq := new int[257];
      codesize := new int[257];
      others := new int[257];
      bits := new int[33];
      huffVal := new int[16 * 255];
    }

    /** init_huffenc: no value seen yet, one reserved code point for value 256, no code sizes
        and no chains. */
    method Init()
      requires Valid()
      modifies freq, codesize, others
      ensures forall v | 0 <= v < 256 :: freq[v] == 0
      ensures freq[256] == 1
      ensures forall v | 0 <= v < 257 :: codesize[v] == 0 && others[v] == -1
    {
      var i := 0;
      while i < 256
        invariant 0 <= i <= 256
        invariant forall v | 0 <= v < i :: freq[v] == 0
      {
        freq[i] := 0;
        i := i + 1;
      }
      freq[256] := 1;
      i := 0;
      while i < 257
        invariant 0 <= i <= 257
        invariant forall v | 0 <= v < 256 :: freq[v] == 0
        invariant freq[256] == 1
        invariant forall v | 0 <= v < i :: codesize[v] == 0 && others[v] == -1
      {
        codesize[i] := 0;
        others[i] := -1;
        i := i + 1;
      }
    }
  }
}
