/// Huffman code tables as Annex C of ITU-T T.81 builds them, and the reading and writing of
/// Huffman codes and of the extra bits that follow them (Decoders/JPEG/huffman.c, lines 1-325).
/// A DHT count list (struct htable) is expanded into code lengths, canonical codes and the
/// per-value lookup (struct hcode); the decoder matches the bits it reads against the codes one
/// bit at a time, the encoder sends the code of a value most significant bit first.
module JpegHuffman {
  import opened Arith
  import opened JpegCommon
  import opened JpegIo

  /** uint16_t arithmetic wraps modulo 2^16. */
  const Word: nat := 0x10000

  /* ---------------------------------------------------------------------------------------- */
  /* Values of bit runs                                                                       */
  /* ---------------------------------------------------------------------------------------- */

  /** The value of a run of bits read most significant first. */
  function BitsValue(bs: seq<Bit>): (v: nat)
    ensures v < Pow2(|bs|)
    decreases |bs|
  {
    if |bs| == 0 then 0 else 2 * BitsValue(bs[..|bs| - 1]) + bs[|bs| - 1]
  }

  /** Reading back the low n bits of a value gives the value modulo 2^n. */
  lemma {:induction false} BitsValueLowBits(v: nat, n: nat)
    ensures BitsValue(LowBits(v, n)) == v % Pow2(n)
  {
    if n > 0 {
      var bs := LowBits(v, n);
      assert bs[..n - 1] == LowBits(v / 2, n - 1);
      BitsValueLowBits(v / 2, n - 1);
      DivDiv(v, 2, Pow2(n - 1));
    }
  }

  /** Writing out the value of a run of bits in as many bits gives the run back. */
  lemma {:induction false} LowBitsBitsValue(bs: seq<Bit>)
    ensures LowBits(BitsValue(bs), |bs|) == bs
    decreases |bs|
  {
    if |bs| > 0 {
      var n := |bs|;
      var init := bs[..n - 1];
      LowBitsBitsValue(init);
      var v := BitsValue(bs);
      assert v / 2 == BitsValue(init) && v % 2 == bs[n - 1];
      assert bs == init + [bs[n - 1]];
    }
  }

  lemma {:induction false} Pow2Add(a: nat, b: nat)
    ensures Pow2(a + b) == Pow2(a) * Pow2(b)
  {
    if a > 0 {
      Pow2Add(a - 1, b);
      assert Pow2(a + b) == 2 * Pow2(a - 1 + b);
    }
  }

  /** 2^16, the range of a uint16_t. */
  lemma {:induction false} Pow2Word()
    ensures Pow2(16) == Word
  {
    assert Pow2(1) == 2;
    assert Pow2(2) == 4;
    assert Pow2(3) == 8;
    assert Pow2(4) == 16;
    assert Pow2(5) == 32;
    assert Pow2(6) == 64;
    assert Pow2(7) == 128;
    assert Pow2(8) == 256;
    assert Pow2(9) == 512;
    assert Pow2(10) == 1024;
    assert Pow2(11) == 2048;
    assert Pow2(12) == 4096;
    assert Pow2(13) == 8192;
    assert Pow2(14) == 16384;
    assert Pow2(15) == 32768;
  }

  /** The first n of the low s bits of a value are the low n bits of its top part. */
  lemma {:induction false} LowBitsPrefix(v: nat, s: nat, n: nat)
    requires n <= s
    ensures LowBits(v, s)[..n] == LowBits(v / Pow2(s - n), n)
    decreases s - n
  {
    if n < s {
      assert LowBits(v, s)[..s - 1] == LowBits(v / 2, s - 1);
      LowBitsPrefix(v / 2, s - 1, n);
      DivDiv(v, 2, Pow2(s - 1 - n));
      assert LowBits(v, s)[..n] == LowBits(v, s)[..s - 1][..n];
    } else {
      assert LowBits(v, s)[..n] == LowBits(v, s);
    }
  }

  /** The first of the low n + 1 bits of a value is bit n of it. */
  lemma {:induction false} LowBitsHead(v: nat, n: nat)
    ensures LowBits(v, n + 1) == [(v / Pow2(n)) % 2] + LowBits(v, n)
  {
    LowBitsPrefix(v, n + 1, 1);
    LowBitsDropTop(v, n);
    var r := LowBits(v, n + 1);
    assert r == r[..1] + r[1..];
  }

  /** Shifting a 16-bit value left and or-ing in a bit only depends on the value modulo 2^16. */
  lemma {:induction false} ShiftInWord(x: nat, b: Bit)
    ensures (2 * (x % Word) + b) % Word == (2 * x + b) % Word
  {
    var q := x / Word;
    var r := x % Word;
    var y := 2 * r + b;
    assert 2 * x + b == Word * (2 * q + y / Word) + y % Word;
    DivModUnique(2 * x + b, Word, 2 * q + y / Word, y % Word);
  }

  /* ---------------------------------------------------------------------------------------- */
  /* struct vlc                                                                               */
  /* ---------------------------------------------------------------------------------------- */

  /** struct vlc: a code word of `size` bits whose value is `code` (a uint16_t). */
  class Vlc {
    var code: nat
    var size: nat

    /** init_vlc: the empty code word. */
    constructor ()
      ensures code == 0 && size == 0
    {
      code := 0;
      size := 0;
    }

    /** vlc_add_bit: the bit goes below the code word, which keeps only 16 bits. A code word
        assembled from a run of bits holds the run's value cut to 16 bits, and its length. */
    method AddBit(bit: Bit, ghost read: seq<Bit>)
      modifies this
      ensures code == (2 * old(code) + bit) % Word && size == old(size) + 1
      ensures old(code) == BitsValue(read) % Word && old(size) == |read| ==>
                code == BitsValue(read + [bit]) % Word && size == |read + [bit]|
    {
      ShiftInWord(BitsValue(read), bit);
      assert (read + [bit])[..|read|] == read;
      code := (2 * code + bit) % Word;
      size := size + 1;
    }

    /** vlc_remove_bit: hands out the most significant of the bits still to send and drops it
        from the count. */
    method RemoveBit() returns (bit: Bit)
      requires size > 0
      modifies this
      ensures code == old(code) && size == old(size) - 1
      ensures [bit] + LowBits(code, size) == LowBits(code, old(size))
    {
      bit := (code / Pow2(size - 1)) % 2;
      size := size - 1;
      LowBitsHead(code, size);
    }
  }

  /* ---------------------------------------------------------------------------------------- */
  /* Figure C.1: code sizes                                                                   */
  /* ---------------------------------------------------------------------------------------- */

  /** A DHT count list: L[i] is the number of codes of length i + 1, one byte each. */
  predicate CountsValid(L: seq<int>) {
    |L| == 16 && forall i | 0 <= i < 16 :: 0 <= L[i] < 0x100
  }

  /** L[0] + ... + L[n - 1]. */
  function SumTo(L: seq<int>, n: nat): int
    requires n <= |L|
  {
    if n == 0 then 0 else SumTo(L, n - 1) + L[n - 1]
  }

  lemma {:induction false} SumToMono(L: seq<int>, m: nat, n: nat)
    requires m <= n <= |L| && forall i | 0 <= i < |L| :: L[i] >= 0
    ensures SumTo(L, m) <= SumTo(L, n)
    decreases n - m
  {
    if m < n {
      SumToMono(L, m, n - 1);
    }
  }

  function Repeat(x: int, n: nat): (r: seq<int>)
    ensures |r| == n
  {
    if n == 0 then [] else Repeat(x, n - 1) + [x]
  }

  lemma {:induction false} RepeatAll(x: int, n: nat)
    ensures forall i | 0 <= i < n :: Repeat(x, n)[i] == x
  {
    if n > 0 {
      RepeatAll(x, n - 1);
      assert forall i | 0 <= i < n - 1 :: Repeat(x, n)[i] == Repeat(x, n - 1)[i];
    }
  }

  lemma {:induction false} RepeatCount(x: int, n: nat)
    ensures multiset(Repeat(x, n))[x] == n
    ensures forall y | y != x :: multiset(Repeat(x, n))[y] == 0
  {
    if n > 0 {
      RepeatCount(x, n - 1);
      assert multiset(Repeat(x, n)) == multiset(Repeat(x, n - 1)) + multiset{x};
    }
  }

  /** HUFFSIZE as Figure C.1 lays it out for code lengths 1..n: L[0] ones, then L[1] twos, and
      so on. */
  function SizesOf(L: seq<int>, n: nat): (r: seq<int>)
    requires n <= |L| && forall i | 0 <= i < |L| :: L[i] >= 0
    ensures |r| == SumTo(L, n)
  {
    if n == 0 then [] else SizesOf(L, n - 1) + Repeat(n, L[n - 1])
  }

  /** Figure C.1 lists lengths between 1 and n. */
  lemma {:induction false} SizesOfRange(L: seq<int>, n: nat)
    requires n <= |L| && forall i | 0 <= i < |L| :: L[i] >= 0
    ensures forall i | 0 <= i < |SizesOf(L, n)| :: 1 <= SizesOf(L, n)[i] <= n
  {
    if n > 0 {
      SizesOfRange(L, n - 1);
      RepeatAll(n, L[n - 1]);
      var a, b := SizesOf(L, n - 1), Repeat(n, L[n - 1]);
      assert SizesOf(L, n) == a + b;
      assert forall i | 0 <= i < |a| :: (a + b)[i] == a[i];
      assert forall i | |a| <= i < |a + b| :: (a + b)[i] == b[i - |a|];
    }
  }

  /** Figure C.1 lists the lengths in non-decreasing order. */
  lemma {:induction false} SizesOfSorted(L: seq<int>, n: nat)
    requires n <= |L| && forall i | 0 <= i < |L| :: L[i] >= 0
    ensures forall i, j | 0 <= i <= j < |SizesOf(L, n)| :: SizesOf(L, n)[i] <= SizesOf(L, n)[j]
  {
    if n > 0 {
      SizesOfSorted(L, n - 1);
      SizesOfRange(L, n - 1);
      RepeatAll(n, L[n - 1]);
      var a, b := SizesOf(L, n - 1), Repeat(n, L[n - 1]);
      assert SizesOf(L, n) == a + b;
      assert forall i | 0 <= i < |a| :: (a + b)[i] == a[i] <= n;
      assert forall i | |a| <= i < |a + b| :: (a + b)[i] == n;
    }
  }

  /** Figure C.1 lists length l exactly L[l - 1] times, and no other length. */
  lemma {:induction false} SizesOfCounts(L: seq<int>, n: nat)
    requires n <= |L| && forall i | 0 <= i < |L| :: L[i] >= 0
    ensures forall l | 1 <= l <= n :: multiset(SizesOf(L, n))[l] == L[l - 1]
    ensures forall l | l < 1 || l > n :: multiset(SizesOf(L, n))[l] == 0
  {
    if n > 0 {
      SizesOfCounts(L, n - 1);
      RepeatCount(n, L[n - 1]);
      var a, b := SizesOf(L, n - 1), Repeat(n, L[n - 1]);
      assert multiset(SizesOf(L, n)) == multiset(a) + multiset(b);
    }
  }

  /** generate_size_table (Figure C.1): HUFFSIZE gets the lengths of the codes in code order,
      then a terminating 0, and LASTK their number. The sum of the counts must leave room for
      the terminator in the 256 entries (the procedure asserts it). */
  method GenerateSizeTable(htable: HTable, hcode: HCode)
    requires htable.Valid() && hcode.Valid()
    requires CountsValid(htable.L[..]) && SumTo(htable.L[..], 16) < 256
    modifies hcode, hcode.huffSize
    ensures hcode.Valid()
    ensures hcode.lastK == SumTo(htable.L[..], 16)
    ensures hcode.huffSize[..hcode.lastK] == SizesOf(htable.L[..], 16)
    ensures hcode.huffSize[hcode.lastK] == 0
  {
    ghost var L := htable.L[..];
    var K := 0;
    var I := 1;
    while I <= 16
      invariant 1 <= I <= 17 && htable.L[..] == L
      invariant K == SumTo(L, I - 1) && K < 256
      invariant hcode.huffSize[..K] == SizesOf(L, I - 1)
      invariant hcode.Valid()
    {
      SumToMono(L, I, 16);
      var J := 1;
      while J <= htable.L[I - 1]
        invariant 1 <= J <= L[I - 1] + 1
        invariant K == SumTo(L, I - 1) + J - 1
        invariant hcode.huffSize[..K] == SizesOf(L, I - 1) + Repeat(I, J - 1)
        invariant hcode.Valid()
      {
        hcode.huffSize[K] := I;
        assert hcode.huffSize[..K + 1] == hcode.huffSize[..K] + [I];
        K := K + 1;
        J := J + 1;
      }
      I := I + 1;
    }
    ghost var before := hcode.huffSize[..K];
    hcode.huffSize[K] := 0;
    assert hcode.huffSize[..K] == before;
    hcode.lastK := K;
  }

  /* ---------------------------------------------------------------------------------------- */
  /* Figure C.2: canonical codes                                                              */
  /* ---------------------------------------------------------------------------------------- */

  /** The lengths of Figure C.1: lastK lengths between 1 and 16 in non-decreasing order, then a
      zero. */
  predicate SizeList(sz: seq<int>, lastK: int) {
    && 0 < lastK < |sz| && sz[lastK] == 0
    && (forall k | 0 <= k < lastK :: 1 <= sz[k] <= 16)
    && Ascending(sz, lastK)
  }

  /** No length among the first n is shorter than the one before it. */
  predicate Ascending(sz: seq<int>, n: nat)
    requires n <= |sz|
  {
    n <= 1 || (sz[n - 2] <= sz[n - 1] && Ascending(sz, n - 1))
  }

  /** Lengths that each reach the one before them never decrease. */
  lemma {:induction false} AscendingMono(sz: seq<int>, n: nat, j: nat, k: nat)
    requires n <= |sz| && Ascending(sz, n) && j <= k < n
    ensures sz[j] <= sz[k]
  {
    if k < n - 1 {
      AscendingMono(sz, n - 1, j, k);
    } else if j < k {
      AscendingMono(sz, n - 1, j, k - 1);
    }
  }

  /** Lengths that never decrease pairwise are ascending. */
  lemma {:induction false} AscendingOf(sz: seq<int>, n: nat)
    requires n <= |sz| && forall i, j | 0 <= i <= j < n :: sz[i] <= sz[j]
    ensures Ascending(sz, n)
  {
    if n > 1 {
      AscendingOf(sz, n - 1);
    }
  }

  /** The lengths of a size list never decrease. */
  lemma {:induction false} SizeListMono(sz: seq<int>, lastK: int, j: nat, k: nat)
    requires SizeList(sz, lastK) && j <= k < lastK
    ensures sz[j] <= sz[k]
  {
    AscendingMono(sz, lastK, j, k);
  }

  /** How much longer entry k of a size list is than entry k - 1. */
  function Growth(sz: seq<int>, lastK: int, k: nat): (g: nat)
    requires SizeList(sz, lastK) && 0 < k < lastK
    ensures g == sz[k] - sz[k - 1]
  {
    SizeListMono(sz, lastK, k - 1, k);
    sz[k] - sz[k - 1]
  }

  /** A 16-bit code shifted left d times, one bit at a time, as CODE <<= 1 does. */
  function Shl(c: nat, d: nat): (r: nat)
    requires c < Word
    ensures r < Word
  {
    if d == 0 then c else (2 * Shl(c, d - 1)) % Word
  }

  /** A shift that does not overflow 16 bits is a multiplication by 2^d. */
  lemma {:induction false} ShlNoWrap(c: nat, d: nat)
    requires c * Pow2(d) < Word
    ensures c < Word && Shl(c, d) == c * Pow2(d)
  {
    MulLe(1, Pow2(d), c);
    if d > 0 {
      assert c * Pow2(d) == 2 * (c * Pow2(d - 1));
      ShlNoWrap(c, d - 1);
      DivModUnique(2 * (c * Pow2(d - 1)), Word, 0, 2 * (c * Pow2(d - 1)));
    }
  }

  /** The code of entry k as Figure C.2 assigns it: entry 0 gets 0, each next code is the
      previous one plus one, shifted left by the growth in length, all in 16-bit arithmetic. */
  function CodeOf(sz: seq<int>, lastK: int, k: nat): (c: nat)
    requires SizeList(sz, lastK) && k < lastK
    ensures c < Word
  {
    if k == 0 then 0 else Shl((CodeOf(sz, lastK, k - 1) + 1) % Word, Growth(sz, lastK, k))
  }

  /** 2^(16 - sz[0]) + ... + 2^(16 - sz[k - 1]): the share of the 16-bit code space the first k
      codes take (the Kraft sum, scaled by 2^16). */
  function KraftSum(sz: seq<int>, k: nat): nat
    requires k <= |sz| && forall j | 0 <= j < k :: 0 <= sz[j] <= 16
  {
    if k == 0 then 0 else KraftSum(sz, k - 1) + Pow2(16 - sz[k - 1])
  }

  lemma {:induction false} KraftSumMono(sz: seq<int>, j: nat, k: nat)
    requires j <= k <= |sz| && forall i | 0 <= i < k :: 0 <= sz[i] <= 16
    ensures KraftSum(sz, j) <= KraftSum(sz, k)
    decreases k - j
  {
    if j < k {
      KraftSumMono(sz, j, k - 1);
    }
  }

  lemma {:induction false} MulSucc(c: int, a: int)
    ensures (c + 1) * a == c * a + a
  {
  }

  /** The arithmetic of one step of Figure C.2 when nothing wraps. */
  lemma {:induction false} CodeStep(c: nat, a: nat, b: nat, e: nat)
    requires a == b * e && e > 0 && (c + 1) * a < Word
    ensures (c + 1) * b < Word && (c + 1) * b * e == (c + 1) * a
  {
    assert (c + 1) * b * e == (c + 1) * (b * e);
    MulLe(1, e, (c + 1) * b);
  }

  lemma {:induction false} BelowByScale(x: nat, y: nat, e: nat)
    requires x * e < y * e
    ensures x < y
  {
    if x >= y {
      MulLe(y, x, e);
    }
  }

  /** One step of CodeKraft: if code k - 1 sits at the space before it, code k does too. */
  lemma {:induction false} CodeKraftStep(sz: seq<int>, lastK: int, k: nat)
    requires SizeList(sz, lastK) && 0 < k < lastK && KraftSum(sz, k + 1) <= Word
    requires CodeOf(sz, lastK, k - 1) * Pow2(16 - sz[k - 1]) == KraftSum(sz, k - 1)
    ensures CodeOf(sz, lastK, k) * Pow2(16 - sz[k]) == KraftSum(sz, k)
  {
    SizeListMono(sz, lastK, k - 1, k);
    var s := sz[k];
    var e := Pow2(16 - s);
    var p := sz[k - 1];
    var d := s - p;
    var c := CodeOf(sz, lastK, k - 1);
    var a := Pow2(16 - p);
    var b := Pow2(d);
    assert KraftSum(sz, k + 1) == KraftSum(sz, k) + e;
    Pow2Add(d, 16 - s);
    assert d + (16 - s) == 16 - p;
    assert KraftSum(sz, k) == c * a + a;
    MulSucc(c, a);
    assert (c + 1) * a < Word;
    CodeStep(c, a, b, e);
    FactorLt(c + 1, a, Word);
    DivModUnique(c + 1, Word, 0, c + 1);
    ShlNoWrap(c + 1, d);
    assert CodeOf(sz, lastK, k) == Shl((c + 1) % Word, d);
  }

  /** When the code space is not overdrawn, no 16-bit arithmetic of Figure C.2 wraps: code k,
      followed by 16 - sz[k] zeros, is exactly the space the codes before it take. */
  lemma {:induction false} CodeKraft(sz: seq<int>, lastK: int, k: nat)
    requires SizeList(sz, lastK) && k < lastK && KraftSum(sz, k + 1) <= Word
    ensures CodeOf(sz, lastK, k) * Pow2(16 - sz[k]) == KraftSum(sz, k)
    ensures CodeOf(sz, lastK, k) < Pow2(sz[k])
  {
    var s := sz[k];
    var e := Pow2(16 - s);
    assert KraftSum(sz, k + 1) == KraftSum(sz, k) + e;
    if k > 0 {
      CodeKraft(sz, lastK, k - 1);
      CodeKraftStep(sz, lastK, k);
    }
    assert Pow2(s) * e == Word by {
      Pow2Add(s, 16 - s);
      assert s + (16 - s) == 16;
      Pow2Word();
    }
    BelowByScale(CodeOf(sz, lastK, k), Pow2(s), e);
  }

  /** The arithmetic of PrefixFree: a code whose space starts at or after the end of another
      code's space does not begin with that code. */
  lemma {:induction false} PrefixArith(a: nat, b: nat, f: nat, e: nat, p: nat, kk: nat)
    requires b * e == kk && f * e == p && a * p + p <= kk && e > 0 && f > 0
    ensures b / f != a
  {
    if b / f == a {
      assert b < (a + 1) * f;
      MulLe(b + 1, (a + 1) * f, e);
    }
  }

  /** Entry j's share of the code space ends at or before entry k's begins. */
  lemma {:induction false} KraftGap(sz: seq<int>, j: nat, k: nat)
    requires j < k <= |sz| && forall i | 0 <= i < k :: 0 <= sz[i] <= 16
    ensures KraftSum(sz, j) + Pow2(16 - sz[j]) <= KraftSum(sz, k)
  {
    assert KraftSum(sz, j + 1) == KraftSum(sz, j) + Pow2(16 - sz[j]);
    KraftSumMono(sz, j + 1, k);
  }

  /** No prefix of the size list overdraws the code space when the whole list does not. */
  lemma {:induction false} KraftFits(sz: seq<int>, lastK: int, k: nat)
    requires SizeList(sz, lastK) && KraftSum(sz, lastK) <= Word && k < lastK
    ensures KraftSum(sz, k + 1) <= Word
  {
    KraftSumMono(sz, k + 1, lastK);
  }

  /** 2^(y - x) * 2^(16 - y) == 2^(16 - x). */
  lemma {:induction false} Pow2Split(x: int, y: int)
    requires 0 <= x <= y <= 16
    ensures Pow2(y - x) * Pow2(16 - y) == Pow2(16 - x)
  {
    Pow2Add(y - x, 16 - y);
  }

  /** The codes of Figure C.2 form a prefix code when the code space is not overdrawn: no code
      is the beginning of a later (longer or equally long) code. */
  lemma {:induction false} PrefixFree(sz: seq<int>, lastK: int, j: nat, k: nat)
    requires SizeList(sz, lastK) && KraftSum(sz, lastK) <= Word && j < k < lastK && sz[j] <= sz[k]
    ensures CodeOf(sz, lastK, k) / Pow2(sz[k] - sz[j]) != CodeOf(sz, lastK, j)
  {
    var a, b := CodeOf(sz, lastK, j), CodeOf(sz, lastK, k);
    var f, e, p := Pow2(sz[k] - sz[j]), Pow2(16 - sz[k]), Pow2(16 - sz[j]);
    var kk := KraftSum(sz, k);
    assert b * e == kk by {
      KraftFits(sz, lastK, k);
      CodeKraft(sz, lastK, k);
    }
    assert a * p + p <= kk by {
      KraftFits(sz, lastK, j);
      CodeKraft(sz, lastK, j);
      KraftGap(sz, j, k);
    }
    assert f * e == p by {
      Pow2Split(sz[j], sz[k]);
    }
    PrefixArith(a, b, f, e, p, kk);
  }

  /** One step of Figure C.2 within a size list. */
  lemma {:induction false} CodeOfStep(sz: seq<int>, lastK: int, k: nat)
    requires SizeList(sz, lastK) && 0 < k < lastK
    ensures sz[k - 1] <= sz[k]
    ensures CodeOf(sz, lastK, k) == Shl((CodeOf(sz, lastK, k - 1) + 1) % Word, sz[k] - sz[k - 1])
  {
    SizeListMono(sz, lastK, k - 1, k);
  }

  /** generate_code_table (Figure C.2): HUFFCODE[k] gets the canonical code of entry k. The size
      list must be the one Figure C.1 produces, with at least one code: the loop relies on the
      terminating 0 and on the lengths never decreasing. */
  method GenerateCodeTable(hcode: HCode)
    requires hcode.Valid() && SizeList(hcode.huffSize[..], hcode.lastK)
    modifies hcode.huffCode
    ensures hcode.Valid()
    ensures forall k | 0 <= k < hcode.lastK :: hcode.huffCode[k] == CodeOf(hcode.huffSize[..], hcode.lastK, k)
  {
    AssignCodes(hcode.huffSize, hcode.huffCode, hcode.lastK);
  }

  /** The loops of Figure C.2 over the HUFFSIZE and HUFFCODE arrays: entries past LASTK keep
      their codes. */
  method AssignCodes(huffSize: array<int>, huffCode: array<int>, lastK: int)
    requires huffSize != huffCode && huffSize.Length == 256 && huffCode.Length == 256
    requires SizeList(huffSize[..], lastK)
    modifies huffCode
    ensures forall k | 0 <= k < lastK :: huffCode[k] == CodeOf(huffSize[..], lastK, k)
    ensures forall k | lastK <= k < 256 :: huffCode[k] == old(huffCode[k])
  {
    ghost var sz := huffSize[..];
    var K := 0;
    var code := 0;
    var si := huffSize[0];
    while true
      invariant 0 <= K < lastK && si == sz[K] && code == CodeOf(sz, lastK, K)
      invariant forall j {:trigger huffCode[j]} | 0 <= j < K :: huffCode[j] == CodeOf(sz, lastK, j)
      invariant forall j {:trigger huffCode[j]} | K <= j < 256 :: huffCode[j] == old(huffCode[j])
      decreases lastK - K
    {
      K, code := AssignRun(huffSize, huffCode, lastK, K, code);
      if huffSize[K] == 0 {
        return;
      }
      ghost var base := (CodeOf(sz, lastK, K - 1) + 1) % Word;
      SizeListMono(sz, lastK, K - 1, K);
      code := (2 * code) % Word;
      si := si + 1;
      while huffSize[K] != si
        invariant sz[K - 1] < si <= sz[K]
        invariant code == Shl(base, si - sz[K - 1])
        decreases sz[K] - si
      {
        code := (2 * code) % Word;
        si := si + 1;
      }
      CodeOfStep(sz, lastK, K);
    }
  }

  /** The inner do-while of Figure C.2: consecutive codes for the run of entries whose length
      is that of entry K. */
  method AssignRun(huffSize: array<int>, huffCode: array<int>, lastK: int, K: int, code: int)
    returns (K': int, code': int)
    requires huffSize != huffCode && huffSize.Length == 256 && huffCode.Length == 256
    requires SizeList(huffSize[..], lastK) && 0 <= K < lastK && code == CodeOf(huffSize[..], lastK, K)
    requires forall j {:trigger huffCode[j]} | 0 <= j < K :: huffCode[j] == CodeOf(huffSize[..], lastK, j)
    modifies huffCode
    ensures K < K' <= lastK && huffSize[K'] != huffSize[K] && huffSize[K' - 1] == huffSize[K]
    ensures code' == (CodeOf(huffSize[..], lastK, K' - 1) + 1) % Word
    ensures forall j {:trigger huffCode[j]} | 0 <= j < K' :: huffCode[j] == CodeOf(huffSize[..], lastK, j)
    ensures forall j {:trigger huffCode[j]} | K' <= j < 256 :: huffCode[j] == old(huffCode[j])
  {
    ghost var sz := huffSize[..];
    var si := huffSize[K];
    huffCode[K] := code;
    code' := (code + 1) % Word;
    K' := K + 1;
    while huffSize[K'] == si
      invariant K < K' <= lastK && si == sz[K' - 1]
      invariant code' == (CodeOf(sz, lastK, K' - 1) + 1) % Word
      invariant forall j {:trigger huffCode[j]} | 0 <= j < K' :: huffCode[j] == CodeOf(sz, lastK, j)
      invariant forall j {:trigger huffCode[j]} | K' <= j < 256 :: huffCode[j] == old(huffCode[j])
      decreases lastK - K'
    {
      CodeOfStep(sz, lastK, K');
      huffCode[K'] := code';
      code' := (code' + 1) % Word;
      K' := K' + 1;
    }
  }

  /* ---------------------------------------------------------------------------------------- */
  /* Lookups                                                                                  */
  /* ---------------------------------------------------------------------------------------- */

  /** The contents of an hcode. */
  datatype CodeTable = CodeTable(vals: seq<int>, sizes: seq<int>, codes: seq<int>, lastK: int)

  function Table(h: HCode): CodeTable
    reads h, h.huffVal, h.huffSize, h.huffCode
  {
    CodeTable(h.huffVal[..], h.huffSize[..], h.huffCode[..], h.lastK)
  }

  predicate Shaped(t: CodeTable) {
    |t.vals| == 16 * 255 && |t.sizes| == 256 && |t.codes| == 256 && 0 <= t.lastK < 256
  }

  /** The entries query_code and order_codes visit: their do-while loops look at entry 0 even
      when LASTK is 0. */
  function Visited(t: CodeTable): nat {
    if t.lastK <= 0 then 1 else t.lastK
  }

  predicate Matches(t: CodeTable, k: nat, size: int, code: int)
    requires Shaped(t) && k < 256
  {
    t.sizes[k] == size && t.codes[k] == code
  }

  function QueryFrom(t: CodeTable, size: int, code: int, k: nat): (r: Option<nat>)
    requires Shaped(t) && k <= Visited(t)
    ensures r.Some? ==> k <= r.value < Visited(t) && Matches(t, r.value, size, code)
                        && forall j | k <= j < r.value :: !Matches(t, j, size, code)
    ensures r.None? ==> forall j | k <= j < Visited(t) :: !Matches(t, j, size, code)
    decreases Visited(t) - k
  {
    if k == Visited(t) then None
    else if Matches(t, k, size, code) then Some(k)
    else QueryFrom(t, size, code, k + 1)
  }

  /** The entry query_code finds for a code word: the first visited entry with that length and
      code. */
  function Query(t: CodeTable, size: int, code: int): (r: Option<nat>)
    requires Shaped(t)
    ensures r.Some? ==> r.value < Visited(t) && Matches(t, r.value, size, code)
                        && forall j | 0 <= j < r.value :: !Matches(t, j, size, code)
    ensures r.None? ==> forall j | 0 <= j < Visited(t) :: !Matches(t, j, size, code)
  {
    QueryFrom(t, size, code, 0)
  }

  function ValueFrom(t: CodeTable, v: int, k: nat): (r: Option<nat>)
    requires Shaped(t) && k <= t.lastK
    ensures r.Some? ==> k <= r.value < t.lastK && t.vals[r.value] == v
                        && forall j | k <= j < r.value :: t.vals[j] != v
    ensures r.None? ==> forall j | k <= j < t.lastK :: t.vals[j] != v
    decreases t.lastK - k
  {
    if k == t.lastK then None
    else if t.vals[k] == v then Some(k)
    else ValueFrom(t, v, k + 1)
  }

  /** The entry value_to_vlc finds for a value: the first of the LASTK entries holding it. */
  function ValueIndex(t: CodeTable, v: int): (r: Option<nat>)
    requires Shaped(t)
    ensures r.Some? ==> r.value < t.lastK && t.vals[r.value] == v
                        && forall j | 0 <= j < r.value :: t.vals[j] != v
    ensures r.None? ==> forall j | 0 <= j < t.lastK :: t.vals[j] != v
  {
    ValueFrom(t, v, 0)
  }

  /** query_code: the value of the first entry whose length and code equal the code word's, or
      NotFound. */
  method QueryCode(vlc: Vlc, hcode: HCode) returns (err: Status, value: int)
    requires hcode.Sized()
    ensures var q := Query(Table(hcode), vlc.size, vlc.code);
            && (q.Some? ==> err == Success && value == hcode.huffVal[q.value])
            && (q.None? ==> err == NotFound)
  {
    ghost var t := Table(hcode);
    var K := 0;
    while true
      invariant 0 <= K < Visited(t)
      invariant forall j | 0 <= j < K :: !Matches(t, j, vlc.size, vlc.code)
      decreases Visited(t) - K
    {
      var code := hcode.huffCode[K];
      var size := hcode.huffSize[K];
      if vlc.size == size && vlc.code == code {
        assert Matches(t, K, vlc.size, vlc.code);
        return Success, hcode.huffVal[K];
      }
      K := K + 1;
      if K >= hcode.lastK {
        return NotFound, 0;
      }
    }
  }

  /** value_to_vlc: the length and code of the first of the LASTK entries holding the value, or
      NotFound with the code word untouched. */
  method ValueToVlc(vlc: Vlc, hcode: HCode, value: int) returns (err: Status)
    requires hcode.Valid()
    modifies vlc
    ensures var q := ValueIndex(Table(hcode), value);
            && (q.Some? ==> err == Success && vlc.size == hcode.huffSize[q.value]
                            && vlc.code == hcode.huffCode[q.value])
            && (q.None? ==> err == NotFound && vlc.size == old(vlc.size) && vlc.code == old(vlc.code))
  {
    ghost var t := Table(hcode);
    var K := 0;
    while K < hcode.lastK
      invariant 0 <= K <= hcode.lastK
      invariant forall j | 0 <= j < K :: t.vals[j] != value
      invariant vlc.size == old(vlc.size) && vlc.code == old(vlc.code)
    {
      if value == hcode.huffVal[K] {
        vlc.size := hcode.huffSize[K];
        vlc.code := hcode.huffCode[K];
        return Success;
      }
      K := K + 1;
    }
    return NotFound;
  }

  /* ---------------------------------------------------------------------------------------- */
  /* Figure C.3 and conv_htable_to_hcode                                                      */
  /* ---------------------------------------------------------------------------------------- */

  function LastWith(vals: seq<int>, v: int, n: nat): (r: Option<nat>)
    requires n <= |vals|
    ensures r.Some? ==> r.value < n && vals[r.value] == v && forall j | r.value < j < n :: vals[j] != v
    ensures r.None? ==> forall j | 0 <= j < n :: vals[j] != v
  {
    if n == 0 then None else if vals[n - 1] == v then Some(n - 1) else LastWith(vals, v, n - 1)
  }

  /** order_codes (Figure C.3): EHUFCO and EHUFSI of each value get the code and length of the
      last visited entry holding that value; values no entry holds keep theirs. */
  method OrderCodes(hcode: HCode)
    requires hcode.Valid()
    modifies hcode.eHufCo, hcode.eHufSi
    ensures hcode.Valid()
    ensures forall v | 0 <= v < 256 ::
              match LastWith(hcode.huffVal[..], v, Visited(Table(hcode)))
              case None => hcode.eHufCo[v] == old(hcode.eHufCo[v]) && hcode.eHufSi[v] == old(hcode.eHufSi[v])
              case Some(k) => hcode.eHufCo[v] == hcode.huffCode[k] && hcode.eHufSi[v] == hcode.huffSize[k]
  {
    OrderEntries(hcode.huffVal, hcode.huffSize, hcode.huffCode, hcode.eHufCo, hcode.eHufSi, hcode.lastK);
  }

  /** The loop of Figure C.3 over the hcode arrays: entries 0 .. Visited - 1 in order, each
      writing its code and length under its value. */
  method OrderEntries(vals: array<int>, sizes: array<int>, codes: array<int>,
                      eCo: array<int>, eSi: array<int>, lastK: int)
    requires eCo != eSi && eCo.Length == 256 && eSi.Length == 256
    requires vals.Length == 16 * 255 && sizes.Length == 256 && codes.Length == 256 && 0 <= lastK < 256
    requires forall k | 0 <= k < 16 * 255 :: 0 <= vals[k] < 0x100
    requires forall k | 0 <= k < 256 :: 0 <= sizes[k] && 0 <= codes[k] < 0x10000
    requires forall v | 0 <= v < 256 :: 0 <= eCo[v] < 0x10000 && 0 <= eSi[v]
    requires eCo != vals && eCo != sizes && eCo != codes && eSi != vals && eSi != sizes && eSi != codes
    modifies eCo, eSi
    ensures forall v | 0 <= v < 256 :: 0 <= eCo[v] < 0x10000 && 0 <= eSi[v]
    ensures forall v | 0 <= v < 256 ::
              match LastWith(vals[..], v, if lastK <= 0 then 1 else lastK)
              case None => eCo[v] == old(eCo[v]) && eSi[v] == old(eSi[v])
              case Some(k) => eCo[v] == codes[k] && eSi[v] == sizes[k]
  {
    ghost var vs := vals[..];
    var n := if lastK <= 0 then 1 else lastK;  // the do-while runs at least once
    var K := 0;
    while K < n
      invariant 0 <= K <= n
      invariant forall v | 0 <= v < 256 :: 0 <= eCo[v] < 0x10000 && 0 <= eSi[v]
      invariant forall v | 0 <= v < 256 ::
                  match LastWith(vs, v, K)
                  case None => eCo[v] == old(eCo[v]) && eSi[v] == old(eSi[v])
                  case Some(k) => eCo[v] == codes[k] && eSi[v] == sizes[k]
    {
      var I := vals[K];
      eCo[I] := codes[K];
      eSi[I] := sizes[K];
      K := K + 1;
    }
  }

  /** With values that occur once each, Figure C.3 gives every entry's value that entry's code
      and length. */
  lemma {:induction false} OrderCodesDistinct(vals: seq<int>, n: nat, k: nat)
    requires k < n <= |vals| && forall i, j | 0 <= i < j < n :: vals[i] != vals[j]
    ensures LastWith(vals, vals[k], n) == Some(k)
  {
  }

  /** The values of a DHT table in code order: row i of V, cut to its L[i] values, for rows
      0..n - 1. */
  function HtValues(L: seq<int>, V: array2<int>, n: nat): (r: seq<int>)
    requires n <= |L| <= V.Length0 && forall i | 0 <= i < |L| :: 0 <= L[i] <= V.Length1
    reads V
    ensures |r| == SumTo(L, n)
  {
    if n == 0 then [] else HtValues(L, V, n - 1) + Row(V, n - 1, L[n - 1])
  }

  function Row(V: array2<int>, i: nat, m: nat): (r: seq<int>)
    requires i < V.Length0 && m <= V.Length1
    reads V
    ensures |r| == m
  {
    if m == 0 then [] else Row(V, i, m - 1) + [V[i, m - 1]]
  }

  /** The hcode of a DHT table as conv_htable_to_hcode leaves it, for at least one and at most
      255 codes: HUFFVAL holds the values in code order, HUFFSIZE the lengths of Figure C.1 and
      HUFFCODE the canonical codes of Figure C.2. */
  ghost predicate ExpandedFrom(t: CodeTable, L: seq<int>, V: array2<int>)
    reads V
  {
    && Shaped(t) && CountsValid(L) && V.Length0 == 16 && V.Length1 == 255
    && t.lastK == SumTo(L, 16) && t.vals[..t.lastK] == HtValues(L, V, 16)
    && t.sizes[..t.lastK] == SizesOf(L, 16) && SizeList(t.sizes, t.lastK)
    && forall k {:trigger t.codes[k]} | 0 <= k < t.lastK :: t.codes[k] == CodeOf(t.sizes, t.lastK, k)
  }

  /** conv_htable_to_hcode: unrolls V into HUFFVAL, then runs Figures C.1, C.2 and C.3. The
      counts must sum to between 1 and 255: generate_size_table asserts the upper bound and
      generate_code_table reads past the terminator of an empty list. */
  method ConvHtableToHcode(htable: HTable, hcode: HCode)
    requires htable.Valid() && hcode.Valid()
    requires CountsValid(htable.L[..]) && 0 < SumTo(htable.L[..], 16) < 256
    requires forall i, j | 0 <= i < 16 && 0 <= j < 255 :: 0 <= htable.V[i, j] < 0x100
    modifies hcode, hcode.huffVal, hcode.huffSize, hcode.huffCode, hcode.eHufCo, hcode.eHufSi
    ensures hcode.Valid()
    ensures ExpandedFrom(Table(hcode), htable.L[..], htable.V)
    ensures forall v | 0 <= v < 256 ::
              match LastWith(hcode.huffVal[..], v, hcode.lastK)
              case None => hcode.eHufCo[v] == old(hcode.eHufCo[v]) && hcode.eHufSi[v] == old(hcode.eHufSi[v])
              case Some(k) => hcode.eHufCo[v] == hcode.huffCode[k] && hcode.eHufSi[v] == hcode.huffSize[k]
  {
    BuildCodes(htable, hcode);
    OrderCodes(hcode);
  }

  /** The first three steps of conv_htable_to_hcode: HUFFVAL, then Figures C.1 and C.2. */
  method BuildCodes(htable: HTable, hcode: HCode)
    requires htable.Valid() && hcode.Valid()
    requires CountsValid(htable.L[..]) && 0 < SumTo(htable.L[..], 16) < 256
    requires forall i, j | 0 <= i < 16 && 0 <= j < 255 :: 0 <= htable.V[i, j] < 0x100
    modifies hcode, hcode.huffVal, hcode.huffSize, hcode.huffCode
    ensures hcode.Valid() && Visited(Table(hcode)) == hcode.lastK
    ensures ExpandedFrom(Table(hcode), htable.L[..], htable.V)
  {
    BuildSizes(htable, hcode);
    ghost var vals := hcode.huffVal[..];
    GenerateCodeTable(hcode);
    assert hcode.huffVal[..] == vals;
  }

  /** HUFFVAL and Figure C.1: the values in code order and their ascending code lengths. */
  method BuildSizes(htable: HTable, hcode: HCode)
    requires htable.Valid() && hcode.Valid()
    requires CountsValid(htable.L[..]) && 0 < SumTo(htable.L[..], 16) < 256
    requires forall i, j | 0 <= i < 16 && 0 <= j < 255 :: 0 <= htable.V[i, j] < 0x100
    modifies hcode, hcode.huffVal, hcode.huffSize
    ensures hcode.Valid() && hcode.lastK == SumTo(htable.L[..], 16)
    ensures hcode.huffVal[..hcode.lastK] == HtValues(htable.L[..], htable.V, 16)
    ensures hcode.huffSize[..hcode.lastK] == SizesOf(htable.L[..], 16)
    ensures SizeList(hcode.huffSize[..], hcode.lastK)
  {
    ghost var L := htable.L[..];
    UnrollValues(htable, hcode);
    ghost var vals := hcode.huffVal[..];
    GenerateSizeTable(htable, hcode);
    SizesOfRange(L, 16);
    SizesOfSorted(L, 16);
    assert SizeList(hcode.huffSize[..], hcode.lastK) by {
      forall k | 0 <= k < hcode.lastK
        ensures hcode.huffSize[k] == SizesOf(L, 16)[k]
      {
        assert hcode.huffSize[..hcode.lastK][k] == hcode.huffSize[k];
      }
      AscendingOf(hcode.huffSize[..], hcode.lastK);
    }
    assert hcode.huffVal[..] == vals;
  }

  /** The first loop of conv_htable_to_hcode: the rows of V, each cut to its count, one after
      the other into HUFFVAL. */
  method UnrollValues(htable: HTable, hcode: HCode)
    requires htable.Valid() && hcode.Valid()
    requires CountsValid(htable.L[..]) && 0 <= SumTo(htable.L[..], 16) < 256
    requires forall i, j | 0 <= i < 16 && 0 <= j < 255 :: 0 <= htable.V[i, j] < 0x100
    modifies hcode.huffVal
    ensures hcode.Valid()
    ensures hcode.huffVal[..SumTo(htable.L[..], 16)] == HtValues(htable.L[..], htable.V, 16)
  {
    ghost var L := htable.L[..];
    SumToMono(L, 0, 16);
    var p := 0;
    for i := 0 to 16
      invariant p == SumTo(L, i) <= SumTo(L, 16)
      invariant hcode.huffVal[..p] == HtValues(L, htable.V, i)
      invariant forall k | 0 <= k < 16 * 255 :: 0 <= hcode.huffVal[k] < 0x100
    {
      SumToMono(L, i + 1, 16);
      var len := htable.L[i];
      for l := 0 to len
        invariant p == SumTo(L, i) + l
        invariant hcode.huffVal[..p] == HtValues(L, htable.V, i) + Row(htable.V, i, l)
        invariant forall k | 0 <= k < 16 * 255 :: 0 <= hcode.huffVal[k] < 0x100
      {
        hcode.huffVal[p] := htable.V[i, l];
        assert hcode.huffVal[..p + 1] == hcode.huffVal[..p] + [htable.V[i, l]];
        p := p + 1;
      }
    }
  }

  /* ---------------------------------------------------------------------------------------- */
  /* Reading and writing codes                                                                */
  /* ---------------------------------------------------------------------------------------- */

  /** Every value in the table is a byte. */
  predicate ByteValues(t: CodeTable)
    requires Shaped(t)
  {
    forall k | 0 <= k < 16 * 255 :: 0 <= t.vals[k] < 0x100
  }

  function DecodeFrom(t: CodeTable, bs: seq<Bit>, n: nat): (r: Option<(int, nat)>)
    requires Shaped(t) && 1 <= n <= |bs|
    ensures r.Some? ==> n <= r.value.1 <= |bs|
    ensures r.Some? && ByteValues(t) ==> 0 <= r.value.0 < 0x100
    decreases |bs| - n
  {
    var q := Query(t, n, BitsValue(bs[..n]) % Word);
    if q.Some? then Some((t.vals[q.value], n))
    else if n == |bs| then None
    else DecodeFrom(t, bs, n + 1)
  }

  /** What read_code makes of a run of bits: the value of the first entry matched by a prefix
      of one or more bits, with the prefix's length; None when no prefix matches. */
  function Decode(t: CodeTable, bs: seq<Bit>): (r: Option<(int, nat)>)
    requires Shaped(t)
    ensures r.Some? ==> 1 <= r.value.1 <= |bs|
    ensures r.Some? && ByteValues(t) ==> 0 <= r.value.0 < 0x100
  {
    if |bs| == 0 then None else DecodeFrom(t, bs, 1)
  }

  /** DecodeFrom finds the shortest prefix, from length n on, whose code word matches. */
  lemma {:induction false} DecodeFromFirstMatch(t: CodeTable, bs: seq<Bit>, n: nat)
    requires Shaped(t) && 1 <= n <= |bs|
    ensures var r := DecodeFrom(t, bs, n);
            && (r.Some? ==> (var q := Query(t, r.value.1, BitsValue(bs[..r.value.1]) % Word);
                             q.Some? && r.value.0 == t.vals[q.value])
                            && forall m | n <= m < r.value.1 :: Query(t, m, BitsValue(bs[..m]) % Word).None?)
            && (r.None? ==> forall m | n <= m <= |bs| :: Query(t, m, BitsValue(bs[..m]) % Word).None?)
    decreases |bs| - n
  {
    if Query(t, n, BitsValue(bs[..n]) % Word).None? && n < |bs| {
      DecodeFromFirstMatch(t, bs, n + 1);
    }
  }

  /** Decode finds the shortest prefix whose code word matches an entry: the value is that
      entry's, and no shorter prefix matches; None means no prefix at all matches. */
  lemma {:induction false} DecodeFirstMatch(t: CodeTable, bs: seq<Bit>)
    requires Shaped(t)
    ensures var r := Decode(t, bs);
            && (r.Some? ==> (var q := Query(t, r.value.1, BitsValue(bs[..r.value.1]) % Word);
                             q.Some? && r.value.0 == t.vals[q.value])
                            && forall m | 1 <= m < r.value.1 :: Query(t, m, BitsValue(bs[..m]) % Word).None?)
            && (r.None? ==> forall m | 1 <= m <= |bs| :: Query(t, m, BitsValue(bs[..m]) % Word).None?)
  {
    if |bs| > 0 {
      DecodeFromFirstMatch(t, bs, 1);
    }
  }

  /** No prefix of 1..n bits of bs matches an entry. */
  predicate NoPrefixMatch(t: CodeTable, bs: seq<Bit>, n: nat)
    requires Shaped(t) && n <= |bs|
  {
    n == 0 || (NoPrefixMatch(t, bs, n - 1) && Query(t, n, BitsValue(bs[..n]) % Word).None?)
  }

  lemma {:induction false} NoPrefixMatchAll(t: CodeTable, bs: seq<Bit>, n: nat)
    requires Shaped(t) && n <= |bs| && NoPrefixMatch(t, bs, n)
    ensures forall m | 1 <= m <= n :: Query(t, m, BitsValue(bs[..m]) % Word).None?
  {
    if n > 0 {
      NoPrefixMatchAll(t, bs, n - 1);
    }
  }

  /** Decode in terms of the prefixes tried: the first prefix that matches decides. */
  lemma {:induction false} DecodeAt(t: CodeTable, bs: seq<Bit>, n: nat)
    requires Shaped(t) && 1 <= n <= |bs| && NoPrefixMatch(t, bs, n - 1)
    requires Query(t, n, BitsValue(bs[..n]) % Word).Some?
    ensures Decode(t, bs) == Some((t.vals[Query(t, n, BitsValue(bs[..n]) % Word).value], n))
  {
    NoPrefixMatchAll(t, bs, n - 1);
    DecodeFrom1(t, bs, n, 1);
  }

  lemma {:induction false} DecodeFrom1(t: CodeTable, bs: seq<Bit>, n: nat, k: nat)
    requires Shaped(t) && 1 <= k <= n <= |bs|
    requires forall m | k <= m < n :: Query(t, m, BitsValue(bs[..m]) % Word).None?
    requires Query(t, n, BitsValue(bs[..n]) % Word).Some?
    ensures DecodeFrom(t, bs, k) == Some((t.vals[Query(t, n, BitsValue(bs[..n]) % Word).value], n))
    decreases n - k
  {
    if k < n {
      DecodeFrom1(t, bs, n, k + 1);
    }
  }

  /** Decode finds nothing when no prefix matches. */
  lemma {:induction false} DecodeNone(t: CodeTable, bs: seq<Bit>, k: nat)
    requires Shaped(t) && 1 <= k <= |bs|
    requires forall m | k <= m <= |bs| :: Query(t, m, BitsValue(bs[..m]) % Word).None?
    ensures DecodeFrom(t, bs, k).None?
    decreases |bs| - k
  {
    if k < |bs| {
      DecodeNone(t, bs, k + 1);
    }
  }

  /** The first n + 1 bits are the first n and one more. */
  lemma {:induction false} TakeSnoc<T>(s: seq<T>, n: nat)
    requires n < |s|
    ensures s[..n + 1] == s[..n] + [s[n]]
  {
  }

  /** One more bit of a run, shifted into a 16-bit word. */
  lemma {:induction false} TakeValue(P: seq<Bit>, i: nat)
    requires i < |P|
    ensures BitsValue(P[..i + 1]) % Word == (2 * (BitsValue(P[..i]) % Word) + P[i]) % Word
  {
    assert P[..i + 1][..i] == P[..i];
    ShiftInWord(BitsValue(P[..i]), P[i]);
  }

  lemma {:induction false} DropOne<T>(s: seq<T>, n: nat)
    requires n < |s|
    ensures s[n..][0] == s[n] && s[n..][1..] == s[n + 1..]
  {
  }

  /** read_code: reads bits one at a time until the code word matches an entry. On success the
      value is the one Decode gives for the pending bits and exactly the matched bits are
      consumed; when no prefix of the pending bits matches, every bit is consumed and the error
      is the one that ends the entropy-coded data. */
  method ReadCode(bits: Bits, s: InStream, hcode: HCode) returns (err: Status, value: int)
    requires hcode.Valid() && bits.count <= 8
    modifies bits, s
    ensures bits.count <= 8 && EcsStop(s) == old(EcsStop(s)) && old(s.pos) <= s.pos
    ensures var d := Decode(Table(hcode), old(Pending(bits, s)));
            && (d.Some? ==> err == Success && value == d.value.0
                            && Pending(bits, s) == old(Pending(bits, s))[d.value.1..])
            && (d.None? ==> err == old(EcsStop(s)).0 && Pending(bits, s) == [])
  {
    ghost var t := Table(hcode);
    ghost var P := Pending(bits, s);
    ghost var stop := EcsStop(s);
    assert hcode.Sized();
    var vlc := new Vlc();
    ghost var n := 0;
    while true
      invariant bits.count <= 8 && EcsStop(s) == stop && Table(hcode) == t
      invariant old(s.pos) <= s.pos
      invariant 0 <= n <= |P| && Pending(bits, s) == P[n..]
      invariant vlc.size == n && vlc.code == BitsValue(P[..n]) % Word
      invariant NoPrefixMatch(t, P, n)
      invariant fresh(vlc)
      decreases |P| - n
    {
      err := ReadBitIntoVlc(bits, s, vlc, P, n);
      if err != Success {
        assert Decode(t, P).None? by {
          if n > 0 {
            NoPrefixMatchAll(t, P, n);
            DecodeNone(t, P, 1);
          }
        }
        return err, 0;
      }
      n := n + 1;
      err, value := QueryCode(vlc, hcode);
      if err == Success {
        DecodeAt(t, P, n);
        return;
      }
    }
  }

  /** The body of read_code's loop up to the lookup: get_bit, then vlc_add_bit. The code word
      grows by the next pending bit; when none is pending, the error is the one that ends the
      entropy-coded data. */
  method ReadBitIntoVlc(bits: Bits, s: InStream, vlc: Vlc, ghost P: seq<Bit>, ghost n: nat)
      returns (err: Status)
    requires bits.count <= 8 && n <= |P| && Pending(bits, s) == P[n..]
    requires vlc.size == n && vlc.code == BitsValue(P[..n]) % Word
    modifies bits, s, vlc
    ensures bits.count <= 8 && EcsStop(s) == old(EcsStop(s)) && old(s.pos) <= s.pos
    ensures err == Success ==> n < |P| && Pending(bits, s) == P[n + 1..]
                               && vlc.size == n + 1 && vlc.code == BitsValue(P[..n + 1]) % Word
    ensures err != Success ==> n == |P| && err == old(EcsStop(s)).0 && Pending(bits, s) == []
  {
    var bit;
    err, bit := NextBit(bits, s);
    if err != Success {
      return;
    }
    DropOne(P, n);
    TakeSnoc(P, n);
    vlc.AddBit(bit, P[..n]);
  }

  /** write_code: sends the code of the value, most significant bit first, through put_bit; a
      value the table lacks is NotFound and nothing is sent. */
  method WriteCode(bits: Bits, s: OutStream, hcode: HCode, value: int) returns (err: Status)
    requires hcode.Valid() && bits.count < 8
    modifies bits, s
    ensures var q := ValueIndex(Table(hcode), value);
            && (q.None? ==> err == NotFound && bits.byte == old(bits.byte)
                            && bits.count == old(bits.count) && s.data == old(s.data))
            && (q.Some? ==>
                  var out := PutBitsF(old(Writer(bits.byte, bits.count)),
                                      LowBits(hcode.huffCode[q.value], hcode.huffSize[q.value]));
                  err == Success && Writer(bits.byte, bits.count) == out.0
                  && s.data == old(s.data) + Stuffed(out.1))
  {
    var vlc := new Vlc();
    err := ValueToVlc(vlc, hcode, value);
    if err != Success {
      return;
    }
    SendCodeWord(bits, s, vlc);
  }

  /** The loop of write_code: vlc_remove_bit and put_bit until the code word is empty, which
      sends its bits most significant first. */
  method SendCodeWord(bits: Bits, s: OutStream, vlc: Vlc)
    requires bits.count < 8
    modifies bits, s, vlc
    ensures bits.count < 8 && vlc.size == 0 && vlc.code == old(vlc.code)
    ensures var out := PutBitsF(old(Writer(bits.byte, bits.count)), LowBits(old(vlc.code), old(vlc.size)));
            Writer(bits.byte, bits.count) == out.0 && s.data == old(s.data) + Stuffed(out.1)
  {
    ghost var w0 := Writer(bits.byte, bits.count);
    ghost var d0 := s.data;
    ghost var code := vlc.code;
    ghost var all := LowBits(code, vlc.size);
    ghost var N := vlc.size;
    while vlc.size != 0
      invariant vlc.code == code && vlc.size <= N && bits.count < 8
      invariant LowBits(code, vlc.size) == all[N - vlc.size..]
      invariant Writer(bits.byte, bits.count) == PutBitsF(w0, all[..N - vlc.size]).0
      invariant s.data == d0 + Stuffed(PutBitsF(w0, all[..N - vlc.size]).1)
      decreases vlc.size
    {
      ghost var sent := all[..N - vlc.size];
      var bit := vlc.RemoveBit();
      assert all[..N - vlc.size] == sent + [bit] by {
        assert all[N - vlc.size - 1] == bit;
      }
      PutBitsSnoc(w0, sent, bit);
      StuffedAppend(PutBitsF(w0, sent).1, PutBitF(PutBitsF(w0, sent).0, bit).1);
      PutBit(bits, s, bit);
    }
    assert all[..N] == all;
  }

  /** Putting one more bit after a run is one more put_bit step. */
  lemma {:induction false} PutBitsSnoc(w: Writer, a: seq<Bit>, b: Bit)
    requires w.count < 8
    ensures var first := PutBitsF(w, a);
            PutBitsF(w, a + [b]) == (PutBitF(first.0, b).0, first.1 + PutBitF(first.0, b).1)
  {
    PutBitsAppend(w, a, [b]);
    var first := PutBitsF(w, a);
    assert PutBitsF(first.0, [b]) == (PutBitF(first.0, b).0, PutBitF(first.0, b).1 + []);
    assert PutBitF(first.0, b).1 + [] == PutBitF(first.0, b).1;
  }

  /** read_extra_bits: reads count bits into a 16-bit value, most significant first. When
      fewer bits are pending, all of them are consumed and the error is the one that ends the
      entropy-coded data. */
  method ReadExtraBits(bits: Bits, s: InStream, count: nat) returns (err: Status, value: int)
    requires bits.count <= 8 && count < 0x100
    modifies bits, s
    ensures bits.count <= 8 && EcsStop(s) == old(EcsStop(s)) && old(s.pos) <= s.pos
    ensures count <= |old(Pending(bits, s))| ==>
              err == Success && value == BitsValue(old(Pending(bits, s))[..count]) % Word
              && Pending(bits, s) == old(Pending(bits, s))[count..]
    ensures count > |old(Pending(bits, s))| ==> err == old(EcsStop(s)).0 && Pending(bits, s) == []
  {
    ghost var P := Pending(bits, s);
    ghost var stop := EcsStop(s);
    var v := 0;
    for i := 0 to count
      invariant bits.count <= 8 && EcsStop(s) == stop
      invariant old(s.pos) <= s.pos
      invariant i <= |P| && Pending(bits, s) == P[i..]
      invariant v == BitsValue(P[..i]) % Word
    {
      var bit;
      err, bit := NextBit(bits, s);
      if err != Success {
        return err, 0;
      }
      DropOne(P, i);
      TakeValue(P, i);
      v := (2 * v + bit) % Word;
    }
    return Success, v;
  }

  /** write_extra_bits: sends the low count bits of the value, most significant first. The
      shift count stays below 32, the width of the int the value is promoted to. */
  method WriteExtraBits(bits: Bits, s: OutStream, count: nat, value: nat)
    requires bits.count < 8 && count <= 32 && value < Word
    modifies bits, s
    ensures var out := PutBitsF(old(Writer(bits.byte, bits.count)), LowBits(value, count));
            Writer(bits.byte, bits.count) == out.0 && s.data == old(s.data) + Stuffed(out.1)
  {
    ghost var w0 := Writer(bits.byte, bits.count);
    ghost var d0 := s.data;
    ghost var all := LowBits(value, count);
    var sh := count - 1;
    while sh >= 0
      invariant -1 <= sh < count && bits.count < 8
      invariant Writer(bits.byte, bits.count) == PutBitsF(w0, all[..count - 1 - sh]).0
      invariant s.data == d0 + Stuffed(PutBitsF(w0, all[..count - 1 - sh]).1)
      decreases sh
    {
      var bit := (value / Pow2(sh)) % 2;
      LowBitsSuffix(value, count, sh + 1);
      LowBitsHead(value, sh);
      ghost var sent := all[..count - 1 - sh];
      assert all[..count - sh] == sent + [bit] by {
        assert all[count - 1 - sh] == LowBits(value, sh + 1)[0];
      }
      PutBitsSnoc(w0, sent, bit);
      StuffedAppend(PutBitsF(w0, sent).1, PutBitF(PutBitsF(w0, sent).0, bit).1);
      PutBit(bits, s, bit);
      sh := sh - 1;
    }
    assert all[..count] == all;
  }

  /** Extra bits round trip: reading back count <= 16 bits sent by write_extra_bits gives the
      value modulo 2^count, so the value itself when it fits in count bits. */
  lemma {:induction false} ExtraBitsRoundTrip(value: nat, count: nat)
    requires count <= 16
    ensures BitsValue(LowBits(value, count)) % Word == value % Pow2(count)
    ensures value < Pow2(count) ==> BitsValue(LowBits(value, count)) % Word == value
  {
    var m := BitsValue(LowBits(value, count));
    assert m == value % Pow2(count) by {
      BitsValueLowBits(value, count);
    }
    assert m < Word by {
      Pow2Mono(count, 16);
      Pow2Word();
    }
    DivModUnique(m, Word, 0, m);
    if value < Pow2(count) {
      DivModUnique(value, Pow2(count), 0, value);
    }
  }

  /** The tables conv_htable_to_hcode builds, with the code space not overdrawn. */
  predicate Canonical(t: CodeTable) {
    && Shaped(t) && SizeList(t.sizes, t.lastK) && KraftSum(t.sizes, t.lastK) <= Word
    && forall k {:trigger t.codes[k]} | 0 <= k < t.lastK :: t.codes[k] == CodeOf(t.sizes, t.lastK, k)
  }

  lemma {:induction false} Pow2Mono(a: nat, b: nat)
    requires a <= b
    ensures Pow2(a) <= Pow2(b)
    decreases b - a
  {
    if a < b {
      Pow2Mono(a, b - 1);
    }
  }

  /** The first m bits of an s-bit code word, read back as read_code assembles them, are the
      code shifted right by s - m. */
  lemma {:induction false} CodePrefixValue(c: nat, s: nat, m: nat, rest: seq<Bit>)
    requires 1 <= m <= s <= 16 && c < Pow2(s)
    ensures BitsValue((LowBits(c, s) + rest)[..m]) % Word == c / Pow2(s - m)
  {
    DivNonneg(c, Pow2(s - m));
    var top: nat := c / Pow2(s - m);
    var bs := (LowBits(c, s) + rest)[..m];
    assert bs == LowBits(top, m) by {
      assert bs == LowBits(c, s)[..m];
      LowBitsPrefix(c, s, m);
    }
    assert top < Pow2(m) by {
      Pow2Add(s - m, m);
      assert s - m + m == s;
      DivLt(c, Pow2(s - m), Pow2(m));
    }
    assert BitsValue(bs) == top by {
      BitsValueLowBits(top, m);
      DivModUnique(top, Pow2(m), 0, top);
    }
    assert top < Word by {
      Pow2Mono(m, 16);
      Pow2Word();
    }
    DivModUnique(top, Word, 0, top);
  }

  /** All bits of an s-bit code word read back give the code itself. */
  lemma {:induction false} CodeValue(c: nat, s: nat, rest: seq<Bit>)
    requires 1 <= s <= 16 && c < Pow2(s)
    ensures BitsValue((LowBits(c, s) + rest)[..s]) % Word == c
  {
    CodePrefixValue(c, s, s, rest);
    assert Pow2(s - s) == 1;
  }

  /** In a canonical table no entry matches a proper prefix of the code of entry k. */
  lemma {:induction false} NoShorterMatch(t: CodeTable, k: nat, m: nat)
    requires Canonical(t) && k < t.lastK && 1 <= m < t.sizes[k]
    ensures Query(t, m, t.codes[k] / Pow2(t.sizes[k] - m)).None?
  {
    var top := t.codes[k] / Pow2(t.sizes[k] - m);
    forall j | 0 <= j < Visited(t)
      ensures !Matches(t, j, m, top)
    {
      if j < k {
        SizeListMono(t.sizes, t.lastK, j, k);
        PrefixFree(t.sizes, t.lastK, j, k);
      } else {
        SizeListMono(t.sizes, t.lastK, k, j);
      }
    }
  }

  /** In a canonical table the code of entry k matches entry k first. */
  lemma {:induction false} ExactMatch(t: CodeTable, k: nat)
    requires Canonical(t) && k < t.lastK
    ensures Query(t, t.sizes[k], t.codes[k]) == Some(k)
  {
    forall j | 0 <= j < k
      ensures !Matches(t, j, t.sizes[k], t.codes[k])
    {
      SizeListMono(t.sizes, t.lastK, j, k);
      PrefixFree(t.sizes, t.lastK, j, k);
    }
    assert Matches(t, k, t.sizes[k], t.codes[k]);
  }

  lemma {:induction false} NoPrefixMatchFromAll(t: CodeTable, bs: seq<Bit>, n: nat)
    requires Shaped(t) && n <= |bs|
    requires forall m | 1 <= m <= n :: Query(t, m, BitsValue(bs[..m]) % Word).None?
    ensures NoPrefixMatch(t, bs, n)
  {
    if n > 0 {
      NoPrefixMatchFromAll(t, bs, n - 1);
    }
  }

  /** Code round trip for one entry: the code word of entry k, whatever follows it, decodes to
      the value of entry k and consumes exactly the code word. */
  lemma {:induction false} EntryRoundTrip(t: CodeTable, k: nat, rest: seq<Bit>)
    requires Canonical(t) && k < t.lastK
    ensures Decode(t, LowBits(t.codes[k], t.sizes[k]) + rest) == Some((t.vals[k], t.sizes[k]))
  {
    var c, s := t.codes[k], t.sizes[k];
    assert 1 <= s <= 16;
    var P := LowBits(c, s) + rest;
    assert c < Pow2(s) by {
      KraftFits(t.sizes, t.lastK, k);
      CodeKraft(t.sizes, t.lastK, k);
    }
    assert NoPrefixMatch(t, P, s - 1) by {
      forall m | 1 <= m <= s - 1
        ensures Query(t, m, BitsValue(P[..m]) % Word).None?
      {
        CodePrefixValue(c, s, m, rest);
        NoShorterMatch(t, k, m);
      }
      NoPrefixMatchFromAll(t, P, s - 1);
    }
    assert BitsValue(P[..s]) % Word == c by {
      CodeValue(c, s, rest);
    }
    ExactMatch(t, k);
    DecodeAt(t, P, s);
  }

  /** Code round trip: in a canonical table, the bits write_code sends for a value, whatever
      follows them, are decoded by read_code as that value, consuming exactly the code. */
  lemma {:induction false} CodeRoundTrip(t: CodeTable, v: int, rest: seq<Bit>)
    requires Canonical(t) && ValueIndex(t, v).Some?
    ensures var k := ValueIndex(t, v).value;
            Decode(t, LowBits(t.codes[k], t.sizes[k]) + rest) == Some((v, t.sizes[k]))
  {
    EntryRoundTrip(t, ValueIndex(t, v).value, rest);
  }
}
