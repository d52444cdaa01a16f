/// Huffman tables adapted to the statistics of an image, as section K.2 of ITU-T T.81 builds
/// them (Decoders/JPEG/huffman.c, lines 327-537): the frequencies a dry encoding pass gathered
/// are merged two least at a time into code sizes (Code_size), the sizes are counted per length
/// (Count_BITS), lengths above 16 are folded back (Adjust_BITS), the values are listed by size
/// (Sort_input) and the result becomes a DHT count list and value table.
module JpegHuffmanAdapt {
  import opened Arith
  import opened JpegCommon
  import opened JpegIo
  import opened JpegHuffman

  /** The largest size_t, which the least-frequency searches start from. */
  const SizeMax: nat := 0xFFFF_FFFF_FFFF_FFFF

  /* ---------------------------------------------------------------------------------------- */
  /* Sums and counts over the frequency table                                                 */
  /* ---------------------------------------------------------------------------------------- */

  function Sum(s: seq<int>): int {
    if |s| == 0 then 0 else Sum(s[..|s| - 1]) + s[|s| - 1]
  }

  /** The number of entries with a non-zero frequency. */
  function NonZero(s: seq<int>): nat {
    if |s| == 0 then 0 else NonZero(s[..|s| - 1]) + (if s[|s| - 1] > 0 then 1 else 0)
  }

  /** Changing one entry changes the sum by the difference. */
  lemma {:induction false} SumUpdate(s: seq<int>, i: nat, x: int)
    requires i < |s|
    ensures Sum(s[i := x]) == Sum(s) - s[i] + x
    decreases |s|
  {
    var t := s[i := x];
    if i < |s| - 1 {
      assert t[..|t| - 1] == s[..|s| - 1][i := x];
      SumUpdate(s[..|s| - 1], i, x);
    } else {
      assert t[..|t| - 1] == s[..|s| - 1];
    }
  }

  /** Changing one entry changes the count by whether the entry was and is non-zero. */
  lemma {:induction false} NonZeroUpdate(s: seq<int>, i: nat, x: int)
    requires i < |s|
    ensures NonZero(s[i := x]) == NonZero(s) - (if s[i] > 0 then 1 else 0) + (if x > 0 then 1 else 0)
    decreases |s|
  {
    var t := s[i := x];
    if i < |s| - 1 {
      assert t[..|t| - 1] == s[..|s| - 1][i := x];
      NonZeroUpdate(s[..|s| - 1], i, x);
    } else {
      assert t[..|t| - 1] == s[..|s| - 1];
    }
  }

  /** A count of one or less leaves no two entries non-zero. */
  lemma {:induction false} NonZeroAtMostOne(s: seq<int>, i: nat, j: nat)
    requires i < j < |s| && s[i] > 0 && s[j] > 0
    ensures NonZero(s) >= 2
    decreases |s|
  {
    var u := s[..|s| - 1];
    if j < |s| - 1 {
      assert u[i] == s[i] && u[j] == s[j];
      NonZeroAtMostOne(u, i, j);
    } else {
      assert u[i] == s[i];
      NonZeroPositive(u, i);
    }
  }

  lemma {:induction false} NonZeroPositive(s: seq<int>, i: nat)
    requires i < |s| && s[i] > 0
    ensures NonZero(s) >= 1
    decreases |s|
  {
    if i < |s| - 1 {
      assert s[..|s| - 1][i] == s[i];
      NonZeroPositive(s[..|s| - 1], i);
    }
  }

  /* ---------------------------------------------------------------------------------------- */
  /* Find V1 for least value of FREQ(V1) > 0                                                  */
  /* ---------------------------------------------------------------------------------------- */

  /** Entry i takes part in a least-frequency search that leaves out `skip`. */
  predicate Candidate(f: seq<int>, skip: int, i: int) {
    0 <= i < |f| && f[i] > 0 && i != skip
  }

  /** Entry r has the least non-zero frequency among the candidates, and among candidates with
      that frequency it has the largest index: the searches compare with <=, so a later tie
      replaces an earlier one. */
  predicate IsLeast(f: seq<int>, skip: int, r: int) {
    && Candidate(f, skip, r)
    && (forall i | 0 <= i < |f| && Candidate(f, skip, i) :: f[r] <= f[i])
    && (forall i | r < i < |f| && Candidate(f, skip, i) :: f[r] < f[i])
  }

  /** The least-frequency selection is determined: no two entries satisfy IsLeast. */
  lemma {:induction false} IsLeastUnique(f: seq<int>, skip: int, r: int, r': int)
    requires IsLeast(f, skip, r) && IsLeast(f, skip, r')
    ensures r == r'
  {
    if r != r' {
      assert false;
    }
  }

  /** Frequencies are size_t counts. */
  predicate FreqRange(f: seq<int>) {
    forall i | 0 <= i < |f| :: 0 <= f[i] <= SizeMax
  }

  /** The scan both searches share: the least non-zero frequency other than `skip`, -1 when
      there is none. */
  method LeastScan(freq: array<int>, skip: int) returns (v: int)
    requires freq.Length == 257 && FreqRange(freq[..])
    ensures v == -1 <==> forall i | 0 <= i < 257 :: !Candidate(freq[..], skip, i)
    ensures v != -1 ==> IsLeast(freq[..], skip, v)
  {
    ghost var f := freq[..];
    var minFreq := SizeMax;
    v := -1;
    for i := 0 to 257
      invariant -1 <= v < i
      invariant v == -1 ==> minFreq == SizeMax && forall k | 0 <= k < i :: !Candidate(f, skip, k)
      invariant v != -1 ==> Candidate(f, skip, v) && minFreq == f[v]
      invariant v != -1 ==> forall k | 0 <= k < i && Candidate(f, skip, k) :: f[v] <= f[k]
      invariant v != -1 ==> forall k | v < k < i && Candidate(f, skip, k) :: f[v] < f[k]
    {
      assert freq[i] == f[i] <= SizeMax;
      if freq[i] > 0 && freq[i] <= minFreq && i != skip {
        minFreq := freq[i];
        v := i;
      }
    }
  }

  /** find_for_least_value_of_freq: the value with the least non-zero frequency, the largest
      such value on ties. The procedure asserts that some frequency is non-zero. */
  method FindLeast(huffenc: HuffEnc) returns (v1: int)
    requires huffenc.Valid() && FreqRange(huffenc.freq[..])
    requires exists i | 0 <= i < 257 :: huffenc.freq[i] > 0
    ensures IsLeast(huffenc.freq[..], -1, v1)
  {
    v1 := LeastScan(huffenc.freq, -1);
    assert v1 != -1 by {
      var i :| 0 <= i < 257 && huffenc.freq[i] > 0;
      assert Candidate(huffenc.freq[..], -1, i);
    }
  }

  /** find_for_next_least_value_of_freq: the same search leaving out V1; -1 when no other value
      has a non-zero frequency. */
  method FindNextLeast(huffenc: HuffEnc, v1: int) returns (v2: int)
    requires huffenc.Valid() && FreqRange(huffenc.freq[..])
    ensures v2 == -1 <==> forall i | 0 <= i < 257 :: !Candidate(huffenc.freq[..], v1, i)
    ensures v2 != -1 ==> IsLeast(huffenc.freq[..], v1, v2)
  {
    v2 := LeastScan(huffenc.freq, v1);
  }

  /* ---------------------------------------------------------------------------------------- */
  /* Code_size                                                                                */
  /* ---------------------------------------------------------------------------------------- */

  /** One merge of Code_size on the frequencies: V1 takes V2's frequency, V2 drops out. */
  function MergeFreq(f: seq<int>, v1: nat, v2: nat): (r: seq<int>)
    requires v1 < |f| && v2 < |f|
    ensures |r| == |f|
  {
    f[v1 := f[v1] + f[v2]][v2 := 0]
  }

  /** A merge of two distinct values with non-zero frequencies keeps the total and leaves one
      fewer non-zero frequency. */
  lemma {:induction false} MergeFreqFacts(f: seq<int>, v1: nat, v2: nat)
    requires v1 < |f| && v2 < |f| && v1 != v2 && f[v1] > 0 && f[v2] > 0
    ensures Sum(MergeFreq(f, v1, v2)) == Sum(f)
    ensures NonZero(MergeFreq(f, v1, v2)) == NonZero(f) - 1
  {
    var g := f[v1 := f[v1] + f[v2]];
    SumUpdate(f, v1, f[v1] + f[v2]);
    NonZeroUpdate(f, v1, f[v1] + f[v2]);
    SumUpdate(g, v2, 0);
    NonZeroUpdate(g, v2, 0);
  }

  /** Two distinct entries of a non-negative table add up to at most its sum. */
  lemma {:induction false} SumTwo(s: seq<int>, i: nat, j: nat)
    requires i < |s| && j < |s| && i != j && forall k | 0 <= k < |s| :: s[k] >= 0
    ensures s[i] + s[j] <= Sum(s)
    decreases |s|
  {
    var u := s[..|s| - 1];
    if i < |s| - 1 && j < |s| - 1 {
      SumTwo(u, i, j);
    } else if i < |s| - 1 {
      SumOne(u, i);
    } else {
      SumOne(u, j);
    }
  }

  lemma {:induction false} SumOne(s: seq<int>, i: nat)
    requires i < |s| && forall k | 0 <= k < |s| :: s[k] >= 0
    ensures s[i] <= Sum(s)
    decreases |s|
  {
    var u := s[..|s| - 1];
    if i < |s| - 1 {
      SumOne(u, i);
    }
    SumNonNeg(u);
  }

  lemma {:induction false} SumNonNeg(s: seq<int>)
    requires forall k | 0 <= k < |s| :: s[k] >= 0
    ensures Sum(s) >= 0
    decreases |s|
  {
    if |s| > 0 {
      SumNonNeg(s[..|s| - 1]);
    }
  }

  /** The chain of h follows OTHERS from h to an entry whose OTHERS is -1, and every member
      knows its chain and its place in it. */
  ghost predicate ChainOk(o: seq<int>, chain: seq<seq<int>>, head: seq<int>, pos: seq<int>, h: nat)
    requires |o| == 257 && |chain| == 257 && |head| == 257 && |pos| == 257 && h < 257
  {
    && chain[h] != [] && chain[h][0] == h
    && (forall p | 0 <= p < |chain[h]| ::
          0 <= chain[h][p] < 257 && head[chain[h][p]] == h && pos[chain[h][p]] == p)
    && (forall p | 0 <= p < |chain[h]| - 1 :: o[chain[h][p]] == chain[h][p + 1])
    && o[chain[h][|chain[h]| - 1]] == -1
  }

  /** The state Code_size keeps: every value with a non-zero frequency heads a chain (the
      values merged into it so far); the values that occurred are exactly the chain members;
      the others have no code size. */
  ghost predicate Forest(f: seq<int>, o: seq<int>, cs: seq<int>, orig: seq<int>,
                         chain: seq<seq<int>>, head: seq<int>, pos: seq<int>)
  {
    && |f| == 257 && |o| == 257 && |cs| == 257 && |orig| == 257
    && |chain| == 257 && |head| == 257 && |pos| == 257
    && (forall h | 0 <= h < 257 :: f[h] >= 0 && (f[h] > 0 <==> chain[h] != []))
    && (forall h | 0 <= h < 257 && f[h] > 0 :: ChainOk(o, chain, head, pos, h))
    && (forall v | 0 <= v < 257 :: orig[v] > 0 <==> head[v] != -1)
    && (forall v | 0 <= v < 257 && head[v] != -1 ::
          0 <= head[v] < 257 && f[head[v]] > 0 && 0 <= pos[v] < |chain[head[v]]| && chain[head[v]][pos[v]] == v)
    && (forall v | 0 <= v < 257 && head[v] == -1 :: cs[v] == 0)
  }

  /** The chains before the first merge: each value that occurred on its own. */
  ghost function InitChain(f: seq<int>): (r: seq<seq<int>>)
    requires |f| == 257
    ensures |r| == 257
  {
    seq(257, v requires 0 <= v < 257 => if f[v] > 0 then [v] else [])
  }

  ghost function InitHead(f: seq<int>): (r: seq<int>)
    requires |f| == 257
    ensures |r| == 257
  {
    seq(257, v requires 0 <= v < 257 => if f[v] > 0 then v else -1)
  }

  /** As init_huffenc leaves them, OTHERS is -1 and CODESIZE 0 everywhere: every value that
      occurred is a chain of its own. */
  lemma {:induction false} InitForest(f: seq<int>, o: seq<int>, cs: seq<int>)
    requires |f| == 257 && |o| == 257 && |cs| == 257
    requires forall v | 0 <= v < 257 :: f[v] >= 0 && o[v] == -1 && cs[v] == 0
    ensures Forest(f, o, cs, f, InitChain(f), InitHead(f), seq(257, _ => 0))
  {
    var chain, head, pos := InitChain(f), InitHead(f), seq(257, _ => 0);
    forall h | 0 <= h < 257 && f[h] > 0
      ensures ChainOk(o, chain, head, pos, h)
    {
      assert chain[h] == [h];
    }
  }

  /** CODESIZE after a merge: one more for every member of either chain. */
  ghost function Bump(cs: seq<int>, head: seq<int>, a: int, b: int): (r: seq<int>)
    requires |cs| == |head|
    ensures |r| == |cs|
  {
    seq(|cs|, u requires 0 <= u < |cs| => if head[u] == a || head[u] == b then cs[u] + 1 else cs[u])
  }

  ghost function MergeChain(chain: seq<seq<int>>, a: nat, b: nat): (r: seq<seq<int>>)
    requires a < |chain| && b < |chain|
    ensures |r| == |chain|
  {
    chain[a := chain[a] + chain[b]][b := []]
  }

  ghost function MergeHead(head: seq<int>, a: int, b: int): (r: seq<int>)
    ensures |r| == |head|
  {
    seq(|head|, u requires 0 <= u < |head| => if head[u] == b then a else head[u])
  }

  ghost function MergePos(pos: seq<int>, head: seq<int>, b: int, n: nat): (r: seq<int>)
    requires |pos| == |head|
    ensures |r| == |pos|
  {
    seq(|pos|, u requires 0 <= u < |pos| => if head[u] == b then pos[u] + n else pos[u])
  }

  /** One merge of Code_size keeps the chain structure: the tail of V1's chain now points to
      V2, whose chain joins V1's, and every member of both gets one more bit. */
  lemma {:induction false} MergeForest(f: seq<int>, o: seq<int>, cs: seq<int>, orig: seq<int>,
                                       chain: seq<seq<int>>, head: seq<int>, pos: seq<int>,
                                       v1: nat, v2: nat)
    requires Forest(f, o, cs, orig, chain, head, pos)
    requires v1 < 257 && v2 < 257 && v1 != v2 && f[v1] > 0 && f[v2] > 0
    ensures var tail := chain[v1][|chain[v1]| - 1];
            Forest(MergeFreq(f, v1, v2), o[tail := v2], Bump(cs, head, v1, v2), orig,
                   MergeChain(chain, v1, v2), MergeHead(head, v1, v2),
                   MergePos(pos, head, v2, |chain[v1]|))
  {
    var c1, c2 := chain[v1], chain[v2];
    assert ChainOk(o, chain, head, pos, v1) && ChainOk(o, chain, head, pos, v2);
    var tail := c1[|c1| - 1];
    var f', o', cs' := MergeFreq(f, v1, v2), o[tail := v2], Bump(cs, head, v1, v2);
    var chain', head', pos' := MergeChain(chain, v1, v2), MergeHead(head, v1, v2), MergePos(pos, head, v2, |c1|);
    assert head[tail] == v1;
    forall h | 0 <= h < 257 && f'[h] > 0
      ensures ChainOk(o', chain', head', pos', h)
    {
      if h == v1 {
        MergedChainOk(o, chain, head, pos, v1, v2);
      } else {
        assert f[h] > 0 && ChainOk(o, chain, head, pos, h);
        forall p | 0 <= p < |chain[h]|
          ensures chain[h][p] != tail
        {
        }
      }
    }
  }

  /** The joined chain of a merge is a chain. */
  lemma {:induction false} MergedChainOk(o: seq<int>, chain: seq<seq<int>>, head: seq<int>, pos: seq<int>,
                                         v1: nat, v2: nat)
    requires |o| == 257 && |chain| == 257 && |head| == 257 && |pos| == 257
    requires v1 < 257 && v2 < 257 && v1 != v2
    requires ChainOk(o, chain, head, pos, v1) && ChainOk(o, chain, head, pos, v2)
    ensures var tail := chain[v1][|chain[v1]| - 1];
            ChainOk(o[tail := v2], MergeChain(chain, v1, v2), MergeHead(head, v1, v2),
                    MergePos(pos, head, v2, |chain[v1]|), v1)
  {
    var c1, c2 := chain[v1], chain[v2];
    var tail := c1[|c1| - 1];
    var o', chain', head', pos' := o[tail := v2], MergeChain(chain, v1, v2), MergeHead(head, v1, v2),
                                   MergePos(pos, head, v2, |c1|);
    var c := c1 + c2;
    assert chain'[v1] == c;
    forall p | 0 <= p < |c|
      ensures 0 <= c[p] < 257 && head'[c[p]] == v1 && pos'[c[p]] == p
    {
      if p < |c1| {
        assert c[p] == c1[p];
      } else {
        assert c[p] == c2[p - |c1|];
      }
    }
    forall p | 0 <= p < |c| - 1
      ensures o'[c[p]] == c[p + 1]
    {
      if p < |c1| - 1 {
        assert c[p] == c1[p] && c[p + 1] == c1[p + 1];
        assert pos[c1[p]] == p;
      } else if p == |c1| - 1 {
        assert c[p] == tail && c[p + 1] == c2[0];
      } else {
        assert c[p] == c2[p - |c1|] && c[p + 1] == c2[p - |c1| + 1];
        assert head[c2[p - |c1|]] == v2;
      }
    }
    assert c[|c| - 1] == c2[|c2| - 1];
    assert head[c2[|c2| - 1]] == v2;
  }

  /** The share of the code space the members of chain h take, in units of 2^-top: a code of
      size s takes 2^(top - s). */
  ghost function Weight(cs: seq<int>, head: seq<int>, h: int, n: nat, top: nat): nat
    requires n <= |cs| == |head|
  {
    if n == 0 then 0
    else Weight(cs, head, h, n - 1, top)
         + (if head[n - 1] == h && 0 <= cs[n - 1] <= top then Pow2(top - cs[n - 1]) else 0)
  }

  /** Every chain is a complete code: its members' shares add up to the whole space. Code
      sizes stay small enough for the shares to be whole: a size grows by one per merge, and
      each merge removes one non-zero frequency. */
  ghost predicate Complete(f: seq<int>, cs: seq<int>, head: seq<int>, top: nat)
    requires |f| == 257 && |cs| == 257 && |head| == 257
  {
    && (forall u | 0 <= u < 257 :: 0 <= cs[u] && cs[u] + NonZero(f) <= 257)
    && (forall h | 0 <= h < 257 && f[h] > 0 :: Weight(cs, head, h, 257, top) == Pow2(top))
  }

  /** A chain with one member of size 0 takes the whole space. */
  lemma {:induction false} WeightSingle(cs: seq<int>, head: seq<int>, h: nat, n: nat, top: nat)
    requires n <= |cs| == |head| && h < |cs| && cs[h] == 0
    requires forall u | 0 <= u < n :: head[u] == h <==> u == h
    ensures Weight(cs, head, h, n, top) == if h < n then Pow2(top) else 0
  {
    if n > 0 {
      WeightSingle(cs, head, h, n - 1, top);
    }
  }

  /** Chains a merge does not touch keep their share. */
  lemma {:induction false} WeightOther(cs: seq<int>, head: seq<int>, a: int, b: int, h: int, n: nat, top: nat)
    requires n <= |cs| == |head| && h != a && h != b
    ensures Weight(Bump(cs, head, a, b), MergeHead(head, a, b), h, n, top) == Weight(cs, head, h, n, top)
  {
    if n > 0 {
      WeightOther(cs, head, a, b, h, n - 1, top);
    }
  }

  /** The merged chain takes half the space of the two chains together: each member's code
      is one bit longer. */
  lemma {:induction false} WeightMerged(cs: seq<int>, head: seq<int>, a: int, b: int, n: nat, top: nat)
    requires n <= |cs| == |head| && a != b
    requires forall u | 0 <= u < n && (head[u] == a || head[u] == b) :: 0 <= cs[u] < top
    ensures 2 * Weight(Bump(cs, head, a, b), MergeHead(head, a, b), a, n, top)
            == Weight(cs, head, a, n, top) + Weight(cs, head, b, n, top)
  {
    if n > 0 {
      WeightMerged(cs, head, a, b, n - 1, top);
      var u := n - 1;
      if head[u] == a || head[u] == b {
        assert Pow2(top - cs[u]) == 2 * Pow2(top - (cs[u] + 1));
      }
    }
  }

  lemma {:induction false} NonZeroAtMost(s: seq<int>)
    ensures NonZero(s) <= |s|
    decreases |s|
  {
    if |s| > 0 {
      NonZeroAtMost(s[..|s| - 1]);
    }
  }

  /** Before the first merge every chain is complete. */
  lemma {:induction false} InitComplete(f: seq<int>, cs: seq<int>, top: nat)
    requires |f| == 257 && |cs| == 257
    requires forall v | 0 <= v < 257 :: f[v] >= 0 && cs[v] == 0
    ensures Complete(f, cs, InitHead(f), top)
  {
    var head := InitHead(f);
    NonZeroAtMost(f);
    forall h | 0 <= h < 257 && f[h] > 0
      ensures Weight(cs, head, h, 257, top) == Pow2(top)
    {
      WeightSingle(cs, head, h, 257, top);
    }
  }

  /** A merge keeps every chain complete. */
  lemma {:induction false} MergeComplete(f: seq<int>, o: seq<int>, cs: seq<int>, orig: seq<int>,
                                         chain: seq<seq<int>>, head: seq<int>, pos: seq<int>,
                                         v1: nat, v2: nat, top: nat)
    requires Forest(f, o, cs, orig, chain, head, pos) && Complete(f, cs, head, top) && top >= 256
    requires v1 < 257 && v2 < 257 && v1 != v2 && f[v1] > 0 && f[v2] > 0
    ensures Complete(MergeFreq(f, v1, v2), Bump(cs, head, v1, v2), MergeHead(head, v1, v2), top)
  {
    var f', cs', head' := MergeFreq(f, v1, v2), Bump(cs, head, v1, v2), MergeHead(head, v1, v2);
    MergeFreqFacts(f, v1, v2);
    NonZeroAtMostOne(f, if v1 < v2 then v1 else v2, if v1 < v2 then v2 else v1);
    forall u | 0 <= u < 257
      ensures 0 <= cs'[u] && cs'[u] + NonZero(f') <= 257
    {
    }
    forall h | 0 <= h < 257 && f'[h] > 0
      ensures Weight(cs', head', h, 257, top) == Pow2(top)
    {
      if h == v1 {
        WeightMerged(cs, head, v1, v2, 257, top);
      } else {
        WeightOther(cs, head, v1, v2, h, 257, top);
      }
    }
  }

  /** The share of the code space the values that occurred take, in units of 2^-top. */
  ghost function Space(cs: seq<int>, occurred: seq<int>, n: nat, top: nat): nat
    requires n <= |cs| == |occurred|
  {
    if n == 0 then 0
    else Space(cs, occurred, n - 1, top)
         + (if occurred[n - 1] > 0 && 0 <= cs[n - 1] <= top then Pow2(top - cs[n - 1]) else 0)
  }

  /** When the members of chain h are exactly the values that occurred, its share is theirs. */
  lemma {:induction false} WeightIsSpace(cs: seq<int>, head: seq<int>, orig: seq<int>, h: int, n: nat, top: nat)
    requires n <= |cs| == |head| == |orig|
    requires forall u | 0 <= u < n :: head[u] == h <==> orig[u] > 0
    ensures Weight(cs, head, h, n, top) == Space(cs, orig, n, top)
  {
    if n > 0 {
      WeightIsSpace(cs, head, orig, h, n - 1, top);
    }
  }

  /** One non-zero entry and no other: the count is one. */
  lemma {:induction false} NonZeroOne(s: seq<int>, v: nat)
    requires v < |s| && s[v] > 0 && forall i | 0 <= i < |s| && i != v :: s[i] <= 0
    ensures NonZero(s) == 1
    decreases |s|
  {
    var u := s[..|s| - 1];
    if v < |s| - 1 {
      NonZeroOne(u, v);
    } else {
      NonZeroNone(u);
    }
  }

  lemma {:induction false} NonZeroNone(s: seq<int>)
    requires forall i | 0 <= i < |s| :: s[i] <= 0
    ensures NonZero(s) == 0
    decreases |s|
  {
    if |s| > 0 {
      NonZeroNone(s[..|s| - 1]);
    }
  }

  /** The two walks of one merge: CODESIZE of every member of chain v goes up by one, following
      OTHERS from v; the last member is returned. */
  method WalkChain(codesize: array<int>, others: array<int>, v: int,
                   ghost chain: seq<seq<int>>, ghost head: seq<int>, ghost pos: seq<int>)
      returns (tail: int)
    requires codesize.Length == 257 && others.Length == 257 && codesize != others
    requires |chain| == 257 && |head| == 257 && |pos| == 257 && 0 <= v < 257
    requires ChainOk(others[..], chain, head, pos, v)
    requires forall u | 0 <= u < 257 && head[u] == v :: 0 <= pos[u] < |chain[v]| && chain[v][pos[u]] == u
    modifies codesize
    ensures tail == chain[v][|chain[v]| - 1]
    ensures forall u | 0 <= u < 257 :: codesize[u] == old(codesize[u]) + (if head[u] == v then 1 else 0)
  {
    ghost var c := chain[v];
    ghost var p := 0;
    tail := v;
    while true
      invariant 0 <= p < |c| && tail == c[p]
      invariant forall u | 0 <= u < 257 ::
                  codesize[u] == old(codesize[u]) + (if head[u] == v && pos[u] < p then 1 else 0)
      decreases |c| - p
    {
      codesize[tail] := codesize[tail] + 1;
      assert p < |c| - 1 ==> others[..][c[p]] == c[p + 1];
      if others[tail] == -1 {
        return;
      }
      tail := others[tail];
      p := p + 1;
    }
  }

  /** Relinking an entry outside chain h leaves chain h as it is. */
  lemma {:induction false} ChainOkFrame(o: seq<int>, chain: seq<seq<int>>, head: seq<int>, pos: seq<int>,
                                        h: nat, x: nat, y: int)
    requires |o| == 257 && |chain| == 257 && |head| == 257 && |pos| == 257 && h < 257 && x < 257
    requires ChainOk(o, chain, head, pos, h) && head[x] != h
    ensures ChainOk(o[x := y], chain, head, pos, h)
  {
    forall p | 0 <= p < |chain[h]|
      ensures chain[h][p] != x
    {
    }
  }

  /** Code_size (Figure K.1): while two values have non-zero frequencies, the two least
      frequent ones are merged, the first keeping both frequencies, and every value merged into
      either gets one more bit of code size. The frequencies must start as init_huffenc and the
      counting left them (OTHERS -1, CODESIZE 0, one frequency non-zero at least) and their total
      must fit in size_t. On return one value keeps the whole frequency, and the code sizes are
      those of a complete code over the values that occurred. */
  method CodeSize(huffenc: HuffEnc, ghost top: nat)
    requires huffenc.Valid() && FreqRange(huffenc.freq[..]) && Sum(huffenc.freq[..]) <= SizeMax
    requires exists i | 0 <= i < 257 :: huffenc.freq[i] > 0
    requires forall v | 0 <= v < 257 :: huffenc.others[v] == -1 && huffenc.codesize[v] == 0
    requires top >= 256
    modifies huffenc.freq, huffenc.codesize, huffenc.others
    ensures Sum(huffenc.freq[..]) == Sum(old(huffenc.freq[..]))
    ensures NonZero(huffenc.freq[..]) == 1
    ensures CompleteSizes(huffenc.codesize[..], old(huffenc.freq[..]), top)
  {
    var freq, codesize, others := huffenc.freq, huffenc.codesize, huffenc.others;
    ghost var orig := freq[..];
    ghost var chain, head, pos := InitChain(orig), InitHead(orig), seq(257, _ => 0);
    ghost var w :| 0 <= w < 257 && freq[w] > 0;
    assert CodeSizeInv(freq[..], others[..], codesize[..], orig, chain, head, pos, top) by {
      InitForest(orig, others[..], codesize[..]);
      InitComplete(orig, codesize[..], top);
    }
    while true
      invariant CodeSizeInv(freq[..], others[..], codesize[..], orig, chain, head, pos, top)
      invariant 0 <= w < 257 && freq[w] > 0
      decreases NonZero(freq[..])
    {
      var V1 := FindLeast(huffenc);
      var V2 := FindNextLeast(huffenc, V1);
      if V2 == -1 {
        w := V1;
        break;
      }
      ghost var f0, o0, cs0 := freq[..], others[..], codesize[..];
      assert Candidate(f0, -1, V1) && Candidate(f0, V1, V2);
      JoinChains(huffenc, V1, V2, orig, chain, head, pos);
      MergeStep(f0, o0, cs0, orig, chain, head, pos, V1, V2, top);
      chain, head, pos := MergeChain(chain, V1, V2), MergeHead(head, V1, V2), MergePos(pos, head, V2, |chain[V1]|);
      w := V1;
    }
    CodeSizeDone(freq[..], others[..], codesize[..], orig, chain, head, pos, w, top);
  }

  /** What Code_size keeps from one merge to the next. */
  ghost predicate CodeSizeInv(f: seq<int>, o: seq<int>, cs: seq<int>, orig: seq<int>,
                              chain: seq<seq<int>>, head: seq<int>, pos: seq<int>, top: nat)
  {
    && Forest(f, o, cs, orig, chain, head, pos) && Complete(f, cs, head, top)
    && FreqRange(f) && Sum(f) == Sum(orig) && Sum(orig) <= SizeMax && top >= 256
  }

  /** One merge of the two least frequencies keeps the invariant and removes one non-zero
      frequency. */
  lemma {:induction false} MergeStep(f: seq<int>, o: seq<int>, cs: seq<int>, orig: seq<int>,
                                     chain: seq<seq<int>>, head: seq<int>, pos: seq<int>,
                                     v1: nat, v2: nat, top: nat)
    requires CodeSizeInv(f, o, cs, orig, chain, head, pos, top)
    requires v1 < 257 && v2 < 257 && v1 != v2 && f[v1] > 0 && f[v2] > 0
    ensures CodeSizeInv(MergeFreq(f, v1, v2), o[chain[v1][|chain[v1]| - 1] := v2], Bump(cs, head, v1, v2),
                        orig, MergeChain(chain, v1, v2), MergeHead(head, v1, v2),
                        MergePos(pos, head, v2, |chain[v1]|), top)
    ensures NonZero(MergeFreq(f, v1, v2)) < NonZero(f) && MergeFreq(f, v1, v2)[v1] > 0
  {
    var f' := MergeFreq(f, v1, v2);
    var tail := chain[v1][|chain[v1]| - 1];
    assert Sum(f') == Sum(f) && NonZero(f') < NonZero(f) by {
      MergeFreqFacts(f, v1, v2);
    }
    assert FreqRange(f') by {
      SumTwo(f, v1, v2);
    }
    assert Forest(f', o[tail := v2], Bump(cs, head, v1, v2), orig, MergeChain(chain, v1, v2),
                  MergeHead(head, v1, v2), MergePos(pos, head, v2, |chain[v1]|)) by {
      MergeForest(f, o, cs, orig, chain, head, pos, v1, v2);
    }
    assert Complete(f', Bump(cs, head, v1, v2), MergeHead(head, v1, v2), top) by {
      MergeComplete(f, o, cs, orig, chain, head, pos, v1, v2, top);
    }
  }

  /** The code sizes Code_size leaves: none above 256, none for a value that did not occur,
      and those of the values that occurred fill the code space exactly (Kraft equality). */
  ghost predicate CompleteSizes(cs: seq<int>, occurred: seq<int>, top: nat)
    requires |cs| == 257 && |occurred| == 257
  {
    && (forall v | 0 <= v < 257 :: 0 <= cs[v] <= 256)
    && (forall v | 0 <= v < 257 && occurred[v] <= 0 :: cs[v] == 0)
    && Space(cs, occurred, 257, top) == Pow2(top)
  }

  /** The body of one Code_size merge: FREQ(V1) takes FREQ(V2), which becomes 0; every member
      of V1's chain, then of V2's, gets one more bit, and the tail of V1's chain now points to
      V2. */
  method JoinChains(huffenc: HuffEnc, v1: int, v2: int,
                    ghost orig: seq<int>, ghost chain: seq<seq<int>>, ghost head: seq<int>, ghost pos: seq<int>)
    requires huffenc.Valid()
    requires Forest(huffenc.freq[..], huffenc.others[..], huffenc.codesize[..], orig, chain, head, pos)
    requires 0 <= v1 < 257 && 0 <= v2 < 257 && v1 != v2
    requires huffenc.freq[v1] > 0 && huffenc.freq[v2] > 0
    modifies huffenc.freq, huffenc.codesize, huffenc.others
    ensures huffenc.freq[..] == MergeFreq(old(huffenc.freq[..]), v1, v2)
    ensures huffenc.others[..] == old(huffenc.others[..])[chain[v1][|chain[v1]| - 1] := v2]
    ensures huffenc.codesize[..] == Bump(old(huffenc.codesize[..]), head, v1, v2)
  {
    var freq, codesize, others := huffenc.freq, huffenc.codesize, huffenc.others;
    ghost var f0, o0, cs0 := freq[..], others[..], codesize[..];
    assert ChainOk(o0, chain, head, pos, v1) && ChainOk(o0, chain, head, pos, v2);
    freq[v1] := freq[v1] + freq[v2];
    freq[v2] := 0;
    assert freq[..] == MergeFreq(f0, v1, v2);
    var tail := WalkChain(codesize, others, v1, chain, head, pos);
    others[tail] := v2;
    assert head[tail] == v1;
    ChainOkFrame(o0, chain, head, pos, v2, tail, v2);
    assert others[..] == o0[tail := v2];
    var _ := WalkChain(codesize, others, v2, chain, head, pos);
    assert codesize[..] == Bump(cs0, head, v1, v2);
  }

  /** When no two frequencies are non-zero, the one chain left holds every value that occurred. */
  lemma {:induction false} CodeSizeDone(f: seq<int>, o: seq<int>, cs: seq<int>, orig: seq<int>,
                                        chain: seq<seq<int>>, head: seq<int>, pos: seq<int>, w: nat, top: nat)
    requires CodeSizeInv(f, o, cs, orig, chain, head, pos, top)
    requires w < 257 && f[w] > 0 && forall i | 0 <= i < 257 :: !Candidate(f, w, i)
    ensures NonZero(f) == 1 && Sum(f) == Sum(orig)
    ensures CompleteSizes(cs, orig, top)
  {
    assert forall i | 0 <= i < 257 && i != w :: f[i] <= 0 by {
      forall i | 0 <= i < 257 && i != w
        ensures f[i] <= 0
      {
        assert !Candidate(f, w, i);
      }
    }
    NonZeroOne(f, w);
    forall u | 0 <= u < 257
      ensures head[u] == w <==> orig[u] > 0
    {
    }
    WeightIsSpace(cs, head, orig, w, 257, top);
  }

  /** Two different values each add their share to the space. */
  lemma {:induction false} SpaceTwo(cs: seq<int>, occurred: seq<int>, n: nat, top: nat, a: nat, b: nat)
    requires n <= |cs| == |occurred| && a < n && b < n && a != b
    requires occurred[a] > 0 && occurred[b] > 0 && 0 <= cs[a] <= top && 0 <= cs[b] <= top
    ensures Space(cs, occurred, n, top) >= Pow2(top - cs[a]) + Pow2(top - cs[b])
  {
    if a < n - 1 && b < n - 1 {
      SpaceTwo(cs, occurred, n - 1, top, a, b);
    } else if a < n - 1 {
      SpaceOne(cs, occurred, n - 1, top, a);
    } else {
      SpaceOne(cs, occurred, n - 1, top, b);
    }
  }

  lemma {:induction false} SpaceOne(cs: seq<int>, occurred: seq<int>, n: nat, top: nat, a: nat)
    requires n <= |cs| == |occurred| && a < n && occurred[a] > 0 && 0 <= cs[a] <= top
    ensures Space(cs, occurred, n, top) >= Pow2(top - cs[a])
  {
    if a < n - 1 {
      SpaceOne(cs, occurred, n - 1, top, a);
    }
  }

  /** Once two values occurred, none of them keeps code size 0: a value of size 0 would take
      the whole code space alone. */
  lemma {:induction false} SizesPositive(cs: seq<int>, occurred: seq<int>, top: nat, a: nat, b: nat)
    requires |cs| == 257 && |occurred| == 257 && CompleteSizes(cs, occurred, top) && top >= 256
    requires a < 257 && b < 257 && a != b && occurred[a] > 0 && occurred[b] > 0
    ensures forall v | 0 <= v < 257 :: occurred[v] > 0 <==> cs[v] > 0
  {
    forall v | 0 <= v < 257 && occurred[v] > 0
      ensures cs[v] > 0
    {
      if cs[v] == 0 {
        var w := if v == a then b else a;
        SpaceTwo(cs, occurred, 257, top, v, w);
        assert false;
      }
    }
  }

  /** The space depends only on which values occurred. */
  lemma {:induction false} SpaceAgree(cs: seq<int>, a: seq<int>, b: seq<int>, n: nat, top: nat)
    requires n <= |cs| == |a| == |b|
    requires forall v | 0 <= v < n :: a[v] > 0 <==> b[v] > 0
    ensures Space(cs, a, n, top) == Space(cs, b, n, top)
  {
    if n > 0 {
      SpaceAgree(cs, a, b, n - 1, top);
    }
  }

  /* ---------------------------------------------------------------------------------------- */
  /* Count_BITS                                                                               */
  /* ---------------------------------------------------------------------------------------- */

  /** The code space that BITS(l) codes of each length l below n take, in units of 2^-s. */
  ghost function Kraft(bits: seq<int>, n: nat, s: nat): int
    requires n <= |bits| && n <= s + 1
  {
    if n == 0 then 0 else Kraft(bits, n - 1, s) + bits[n - 1] * Pow2(s - (n - 1))
  }

  /** Measured in units d times finer, the space is 2^d times larger. */
  lemma {:induction false} KraftScale(bits: seq<int>, n: nat, s: nat, d: nat)
    requires n <= |bits| && n <= s + 1
    ensures Kraft(bits, n, s + d) == Pow2(d) * Kraft(bits, n, s)
  {
    if n > 0 {
      var k, b, e := Kraft(bits, n - 1, s), bits[n - 1], Pow2(s - (n - 1));
      assert Kraft(bits, n - 1, s + d) == Pow2(d) * k by {
        KraftScale(bits, n - 1, s, d);
      }
      assert Pow2(s + d - (n - 1)) == Pow2(d) * e by {
        Pow2Add(d, s - (n - 1));
      }
      ScaleSum(Pow2(d), k, b, e);
    }
  }

  /** Changing one count changes the space by the difference times the share of its length. */
  lemma {:induction false} KraftUpdate(bits: seq<int>, n: nat, s: nat, k: nat, x: int)
    requires n <= |bits| && n <= s + 1 && k < n
    ensures Kraft(bits[k := x], n, s) == Kraft(bits, n, s) + (x - bits[k]) * Pow2(s - k)
  {
    if k < n - 1 {
      KraftUpdate(bits, n - 1, s, k, x);
    } else {
      KraftAgree(bits, bits[k := x], n - 1, s);
    }
  }

  /** The space of the first n counts depends on those counts only. */
  lemma {:induction false} KraftAgree(a: seq<int>, b: seq<int>, n: nat, s: nat)
    requires n <= |a| && n <= |b| && n <= s + 1
    requires forall l | 0 <= l < n :: a[l] == b[l]
    ensures Kraft(a, n, s) == Kraft(b, n, s)
  {
    if n > 0 {
      KraftAgree(a, b, n - 1, s);
    }
  }

  /** Counts of zero add nothing. */
  lemma {:induction false} KraftZeros(bits: seq<int>, m: nat, n: nat, s: nat)
    requires m <= n <= |bits| && n <= s + 1
    requires forall l | m <= l < n :: bits[l] == 0
    ensures Kraft(bits, n, s) == Kraft(bits, m, s)
  {
    if m < n {
      KraftZeros(bits, m, n - 1, s);
    }
  }

  /** The number of values below n whose code size is l. */
  function CountSize(cs: seq<int>, l: int, n: nat): (r: nat)
    requires n <= |cs|
    ensures r <= n
  {
    if n == 0 then 0 else CountSize(cs, l, n - 1) + (if cs[n - 1] == l then 1 else 0)
  }

  /** What Count_BITS computes before the adjustment: BITS(l) is the number of values of code
      size l, BITS(0) is 0 (size 0 means no code), and so the total is the number of values
      with a code and the space the counts take is the space of those codes. */
  ghost predicate Tallied(bits: seq<int>, cs: seq<int>, top: nat)
    requires |bits| == 33 && |cs| == 257 && top >= 32
  {
    && bits[0] == 0
    && (forall l | 1 <= l < 33 :: bits[l] == CountSize(cs, l, 257))
    && Sum(bits) == NonZero(cs)
    && Kraft(bits, 33, top) == Space(cs, cs, 257, top)
  }

  lemma {:induction false} NonZeroSnoc(s: seq<int>, i: nat)
    requires i < |s|
    ensures NonZero(s[..i + 1]) == NonZero(s[..i]) + (if s[i] > 0 then 1 else 0)
  {
    assert s[..i + 1][..i] == s[..i];
  }

  lemma {:induction false} SumZero(s: seq<int>)
    requires forall l | 0 <= l < |s| :: s[l] == 0
    ensures Sum(s) == 0
    decreases |s|
  {
    if |s| > 0 {
      SumZero(s[..|s| - 1]);
    }
  }

  lemma {:induction false} KraftZero(bits: seq<int>, n: nat, s: nat)
    requires n <= |bits| && n <= s + 1
    requires forall l | 0 <= l < n :: bits[l] == 0
    ensures Kraft(bits, n, s) == 0
  {
    KraftZeros(bits, 0, n, s);
  }

  /** Counting one more value of size c in 1..32 adds one to the total and its share to the
      space. */
  lemma {:induction false} TallyStep(b: seq<int>, cs: seq<int>, i: nat, top: nat)
    requires |b| == 33 && i < |cs| && 1 <= cs[i] < 33 && top >= 32
    ensures Sum(b[cs[i] := b[cs[i]] + 1]) == Sum(b) + 1
    ensures Kraft(b[cs[i] := b[cs[i]] + 1], 33, top) == Kraft(b, 33, top) + Pow2(top - cs[i])
  {
    var c := cs[i];
    SumUpdate(b, c, b[c] + 1);
    KraftUpdate(b, 33, top, c, b[c] + 1);
    assert (b[c] + 1 - b[c]) * Pow2(top - c) == Pow2(top - c);
  }

  /** The histogram half of count_bits: BITS(CODESIZE(i)) is counted up for every value with
      a code. The source asserts that no code size reaches 33; the model reports that case as
      FailureLogicError. */
  method TallySizes(huffenc: HuffEnc, ghost top: nat) returns (err: Status)
    requires huffenc.Valid() && top >= 32
    requires forall v | 0 <= v < 257 :: huffenc.codesize[v] >= 0
    modifies huffenc.bits
    ensures err == Success || err == FailureLogicError
    ensures err == Success <==> forall v | 0 <= v < 257 :: huffenc.codesize[v] < 33
    ensures err == Success ==> Tallied(huffenc.bits[..], huffenc.codesize[..], top)
  {
    var bits, codesize := huffenc.bits, huffenc.codesize;
    ghost var cs := codesize[..];
    for k := 0 to 33
      invariant forall l | 0 <= l < k :: bits[l] == 0
    {
      bits[k] := 0;
    }
    assert Kraft(bits[..], 33, top) == 0 && Sum(bits[..]) == 0 by {
      KraftZero(bits[..], 33, top);
      SumZero(bits[..]);
    }
    var i := 0;
    while i != 257
      invariant 0 <= i <= 257
      invariant forall v | 0 <= v < i :: codesize[v] < 33
      invariant bits[0] == 0
      invariant forall l | 1 <= l < 33 :: bits[l] == CountSize(cs, l, i)
      invariant Sum(bits[..]) == NonZero(cs[..i])
      invariant Kraft(bits[..], 33, top) == Space(cs, cs, i, top)
    {
      if codesize[i] >= 33 {
        return FailureLogicError;
      }
      NonZeroSnoc(cs, i);
      if codesize[i] != 0 {
        var c := codesize[i];
        ghost var b0 := bits[..];
        bits[c] := bits[c] + 1;
        assert bits[..] == b0[c := b0[c] + 1];
        TallyStep(b0, cs, i, top);
      }
      i := i + 1;
    }
    assert cs[..257] == cs;
    return Success;
  }

  /* ---------------------------------------------------------------------------------------- */
  /* Adjust_BITS                                                                              */
  /* ---------------------------------------------------------------------------------------- */

  /** Adding t codes of length k changes the space by t times the share of length k. */
  lemma {:induction false} KraftAdd(bits: seq<int>, n: nat, s: nat, k: nat, t: int)
    requires n <= |bits| && n <= s + 1 && k < n
    ensures Kraft(bits[k := bits[k] + t], n, s) == Kraft(bits, n, s) + t * Pow2(s - k)
  {
    KraftUpdate(bits, n, s, k, bits[k] + t);
    assert bits[k] + t - bits[k] == t;
  }

  /** When every count but the one of length l is zero, the space is that count's. */
  lemma {:induction false} KraftSingle(bits: seq<int>, n: nat, s: nat, l: nat)
    requires l < n <= |bits| && n <= s + 1
    requires forall k | 0 <= k < n && k != l :: bits[k] == 0
    ensures Kraft(bits, n, s) == bits[l] * Pow2(s - l)
  {
    KraftZeros(bits, l + 1, n, s);
    KraftZero(bits, l, s);
  }

  /** A total of zero over non-negative counts leaves every count zero. */
  lemma {:induction false} SumZeroAll(s: seq<int>)
    requires forall k | 0 <= k < |s| :: s[k] >= 0
    requires Sum(s) == 0
    ensures forall k | 0 <= k < |s| :: s[k] == 0
  {
    forall k | 0 <= k < |s|
      ensures s[k] == 0
    {
      SumOne(s, k);
    }
  }

  /** What Adjust_BITS keeps while it folds the lengths above 16: BITS(0) stays 0, no count is
      negative, the total n does not change, no code is longer than i, and the codes fill the
      code space exactly (or there are none). */
  ghost predicate Folding(bits: seq<int>, i: int, n: int, top: nat) {
    && |bits| == 33 && top >= 32 && 0 <= i < 33
    && bits[0] == 0 && (forall l | 0 <= l < 33 :: bits[l] >= 0)
    && Sum(bits) == n && n <= 257
    && (forall l | i < l < 33 :: bits[l] == 0)
    && (n > 0 ==> Kraft(bits, 33, top) == Pow2(top))
  }

  /** The space of the longest codes splits off: below i, every share is a multiple of
      2^(top - i + 1). */
  lemma {:induction false} KraftTop(bits: seq<int>, i: nat, top: nat)
    requires |bits| == 33 && 1 <= i <= 32 && top >= 32
    requires forall l | i < l < 33 :: bits[l] == 0
    ensures Kraft(bits, |bits|, top) == Pow2(top - i) * (2 * Kraft(bits, i, i - 1) + bits[i])
  {
    var p := Pow2(top - i);
    KraftZeros(bits, i + 1, 33, top);
    assert Kraft(bits, i + 1, top) == Kraft(bits, i, top) + bits[i] * p;
    assert Kraft(bits, i, top) == Pow2(top - i + 1) * Kraft(bits, i, i - 1) by {
      KraftScale(bits, i, i - 1, top - i + 1);
      assert i - 1 + (top - i + 1) == top;
    }
    assert Pow2(top - i + 1) == 2 * p;
    ScaleSum(p, 2 * Kraft(bits, i, i - 1), bits[i], 1);
  }

  /** 2^top splits as 2^(top - i) times 2^i. */
  lemma {:induction false} Pow2Cut(top: nat, i: nat)
    requires i <= top
    ensures Pow2(top - i) * Pow2(i) == Pow2(top)
  {
    Pow2Add(top - i, i);
    assert top - i + i == top;
  }

  /** When the codes fill the code space and none is longer than i, the shares of lengths
      below i, counted at length i - 1, and the codes of length i make up 2^i. */
  lemma {:induction false} KraftFull(bits: seq<int>, i: nat, top: nat)
    requires |bits| == 33 && 1 <= i <= 32 && top >= 32
    requires forall l | i < l < 33 :: bits[l] == 0
    requires Kraft(bits, |bits|, top) == Pow2(top)
    ensures Pow2(i) == 2 * Kraft(bits, i, i - 1) + bits[i]
  {
    KraftTop(bits, i, top);
    Pow2Cancel(top, i, 2 * Kraft(bits, i, i - 1) + bits[i], Kraft(bits, |bits|, top));
  }

  /** A multiple of 2^(top - i) that equals 2^top is 2^i times it. */
  lemma {:induction false} Pow2Cancel(top: nat, i: nat, e: int, total: int)
    requires i <= top && total == Pow2(top) && total == Pow2(top - i) * e
    ensures Pow2(i) == e
  {
    Pow2Cut(top, i);
    MulCancel(Pow2(top - i), Pow2(i), e);
  }

  /** Complete codes come in pairs at the longest length: BITS(i) is even when no code is
      longer than i. */
  lemma {:induction false} FoldEven(bits: seq<int>, i: nat, n: int, top: nat)
    requires Folding(bits, i, n, top) && 1 <= i && bits[i] > 0
    ensures bits[i] % 2 == 0
  {
    assert Kraft(bits, 33, top) == Pow2(top) by {
      SumOne(bits, i);
    }
    KraftFull(bits, i, top);
    assert Pow2(i) == 2 * Pow2(i - 1);
  }

  /** While a length i above 16 still has codes, some length from 1 to i - 2 has one too:
      otherwise the codes of lengths i - 1 and i alone would fill the space, which takes 2^i
      shares of length i, far more than the 257 codes there are. */
  lemma {:induction false} FoldLower(bits: seq<int>, i: nat, n: int, top: nat)
    requires Folding(bits, i, n, top) && 17 <= i <= 32 && bits[i] > 0
    ensures exists l | 1 <= l <= i - 2 :: bits[l] > 0
  {
    if forall l | 1 <= l <= i - 2 :: bits[l] <= 0 {
      SumOne(bits, i);
      assert Kraft(bits, i - 1, i - 1) == 0 by {
        KraftZero(bits, i - 1, i - 1);
      }
      assert Kraft(bits, i, i - 1) == bits[i - 1] by {
        assert Pow2(0) == 1;
      }
      KraftFull(bits, i, top);
      SumTwo(bits, i - 1, i);
      assert Pow2(10) == 1024;
      Pow2Mono(10, i);
      assert false;
    }
  }

  /** One step of Figure K.3: two codes of length i become one of length i - 1 (their common
      prefix), and one code of a shorter length j becomes two of length j + 1. */
  ghost function Moved(b: seq<int>, i: nat, j: nat): (r: seq<int>)
    requires 1 <= j && j + 2 <= i < |b|
    ensures |r| == |b|
  {
    var b1 := b[i := b[i] - 2];
    var b2 := b1[i - 1 := b1[i - 1] + 1];
    var b3 := b2[j + 1 := b2[j + 1] + 2];
    b3[j := b3[j] - 1]
  }

  /** The step keeps the total: -2 + 1 + 2 - 1 codes. */
  lemma {:induction false} MovedSum(b: seq<int>, i: nat, j: nat)
    requires 1 <= j && j + 2 <= i < |b|
    ensures Sum(Moved(b, i, j)) == Sum(b)
  {
    var b1 := b[i := b[i] - 2];
    var b2 := b1[i - 1 := b1[i - 1] + 1];
    var b3 := b2[j + 1 := b2[j + 1] + 2];
    SumUpdate(b, i, b[i] - 2);
    SumUpdate(b1, i - 1, b1[i - 1] + 1);
    SumUpdate(b2, j + 1, b2[j + 1] + 2);
    SumUpdate(b3, j, b3[j] - 1);
  }

  /** The step keeps the space: -2 shares of length i, +1 of length i - 1, +2 of length j + 1
      and -1 of length j add up to nothing. */
  lemma {:induction false} MovedKraft(b: seq<int>, i: nat, j: nat, top: nat)
    requires |b| == 33 && 1 <= j && j + 2 <= i <= 32 && top >= 32
    ensures Kraft(Moved(b, i, j), 33, top) == Kraft(b, 33, top)
  {
    var b1 := b[i := b[i] - 2];
    var b2 := b1[i - 1 := b1[i - 1] + 1];
    var b3 := b2[j + 1 := b2[j + 1] + 2];
    var p := Pow2(top - i);
    KraftAdd(b, 33, top, i, -2);
    KraftAdd(b1, 33, top, i - 1, 1);
    KraftAdd(b2, 33, top, j + 1, 2);
    KraftAdd(b3, 33, top, j, -1);
    assert Pow2(top - (i - 1)) == 2 * p;
    assert Pow2(top - j) == 2 * Pow2(top - (j + 1));
  }

  /** The step keeps what the folding loop relies on. */
  lemma {:induction false} FoldStep(b: seq<int>, i: nat, j: nat, n: int, top: nat)
    requires Folding(b, i, n, top) && 17 <= i <= 32 && 1 <= j <= i - 2
    requires b[i] >= 2 && b[j] > 0
    ensures Folding(Moved(b, i, j), i, n, top) && Moved(b, i, j)[i] == b[i] - 2
  {
    var m := Moved(b, i, j);
    assert forall l | 0 <= l < 33 && l != i && l != i - 1 && l != j + 1 && l != j :: m[l] == b[l];
    assert m[i] == b[i] - 2 && m[j] == b[j] - 1;
    assert m[i - 1] == b[i - 1] + (if j + 1 == i - 1 then 3 else 1);
    MovedSum(b, i, j);
    MovedKraft(b, i, j, top);
  }

  /** One step of the folding loop at length i, with the search for the next shorter length
      j that has codes (the do-while from j = i - 1). */
  method FoldOnce(huffenc: HuffEnc, i: int, ghost n: int, ghost top: nat)
    requires huffenc.Valid() && 17 <= i <= 32
    requires Folding(huffenc.bits[..], i, n, top) && huffenc.bits[i] > 0
    modifies huffenc.bits
    ensures Folding(huffenc.bits[..], i, n, top)
    ensures huffenc.bits[i] == old(huffenc.bits[i]) - 2
  {
    var bits := huffenc.bits;
    ghost var b0 := bits[..];
    FoldEven(b0, i, n, top);
    FoldLower(b0, i, n, top);
    ghost var w :| 1 <= w <= i - 2 && b0[w] > 0;
    var j := i - 1;
    j := j - 1;
    while bits[j] <= 0
      invariant w <= j <= i - 2
      decreases j
    {
      j := j - 1;
    }
    FoldStep(b0, i, j, n, top);
    bits[i] := bits[i] - 2;
    bits[i - 1] := bits[i - 1] + 1;
    bits[j + 1] := bits[j + 1] + 2;
    bits[j] := bits[j] - 1;
    assert bits[..] == Moved(b0, i, j);
  }

  /** What Adjust_BITS leaves from n counted codes: no code longer than 16 bits, no count
      above 255 (each fits the uint8_t of a DHT count), one code fewer than counted (the code
      point reserved so that no code is all 1-bits), and so the codes leave part of the code
      space free. With no codes counted, it leaves none. */
  ghost predicate Folded(bits: seq<int>, n: int, top: nat) {
    && |bits| == 33 && top >= 32
    && bits[0] == 0 && (forall l | 0 <= l < 33 :: 0 <= bits[l] < 256)
    && (forall l | 17 <= l < 33 :: bits[l] == 0)
    && Sum(bits) == (if n > 0 then n - 1 else 0)
    && (n > 0 ==> Kraft(bits, 33, top) < Pow2(top))
  }

  /** After the longest code m is dropped from a complete code of at most 257 codes, no length
      keeps 256 codes: 256 codes of one length l <= m and nothing else would make
      256 * 2^(m - l) + 1 = 2^m, an odd number equal to an even one. */
  lemma {:induction false} FitsByte(bits: seq<int>, m: nat, top: nat)
    requires |bits| == 33 && 1 <= m <= 16 && top >= 32
    requires forall l | 0 <= l < 33 :: bits[l] >= 0
    requires Sum(bits) <= 256 && forall l | m < l < 33 :: bits[l] == 0
    requires Kraft(bits, 33, top) + Pow2(top - m) == Pow2(top)
    ensures forall l | 0 <= l < 33 :: bits[l] < 256
  {
    forall l | 0 <= l < 33
      ensures bits[l] < 256
    {
      FitsByteAt(bits, m, top, l);
    }
  }

  lemma {:induction false} FitsByteAt(bits: seq<int>, m: nat, top: nat, l: nat)
    requires |bits| == 33 && 1 <= m <= 16 && top >= 32 && l < 33
    requires forall l | 0 <= l < 33 :: bits[l] >= 0
    requires Sum(bits) <= 256 && forall l | m < l < 33 :: bits[l] == 0
    requires Kraft(bits, 33, top) + Pow2(top - m) == Pow2(top)
    ensures bits[l] < 256
  {
    if bits[l] >= 256 {
      SumOne(bits, l);
      forall k | 0 <= k < 33 && k != l
        ensures bits[k] == 0
      {
        SumTwo(bits, k, l);
      }
      var p, x := Pow2(top - m), Pow2(m - l);
      assert Kraft(bits, 33, top) == 256 * (p * x) by {
        KraftSingle(bits, 33, top, l);
        Pow2Sub(top, m, l);
      }
      Pow2Sub(top, m, 0);
      ScaleSum(p, 1, 256, x);
      OddShares(p, x, m);
    }
  }

  /** 2^(a - c) = 2^(a - b) 2^(b - c). */
  lemma {:induction false} Pow2Sub(a: nat, b: nat, c: nat)
    requires c <= b <= a
    ensures Pow2(a - c) == Pow2(a - b) * Pow2(b - c)
  {
    Pow2Add(a - b, b - c);
  }

  /** p (1 + 256 x) is never p 2^m for m >= 1: one side is p times an odd number, the other p
      times an even one. */
  lemma {:induction false} OddShares(p: int, x: int, m: nat)
    requires p > 0 && m >= 1
    ensures p * (1 + 256 * x) != p * Pow2(m)
  {
    if p * (1 + 256 * x) == p * Pow2(m) {
      MulCancel(p, 1 + 256 * x, Pow2(m));
    }
  }

  /** adjust_bits (Figure K.3): while a length i above 16 has codes, two of them are replaced
      by one of length i - 1 and a code of the next shorter length j that has one is split in
      two of length j + 1; then one code of the longest length left is dropped. The counts are
      those Count_BITS made: BITS(0) is 0 and the codes fill the code space exactly, or none
      was counted. The final search stops at length 1 (see FinalSearch). */
  method AdjustBits(huffenc: HuffEnc, ghost top: nat)
    requires huffenc.Valid()
    requires Folding(huffenc.bits[..], 32, Sum(huffenc.bits[..]), top)
    modifies huffenc.bits
    ensures Folded(huffenc.bits[..], old(Sum(huffenc.bits[..])), top)
  {
    var bits := huffenc.bits;
    ghost var n := Sum(bits[..]);
    var i := 32;
    while i != 16
      invariant 16 <= i <= 32 && Folding(bits[..], i, n, top)
      decreases i
    {
      while bits[i] > 0
        invariant Folding(bits[..], i, n, top)
        decreases bits[i]
      {
        FoldOnce(huffenc, i, n, top);
      }
      i := i - 1;
    }
    while i > 0 && bits[i] == 0
      invariant 0 <= i <= 16 && Folding(bits[..], i, n, top)
      decreases i
    {
      i := i - 1;
    }
    if i > 0 {
      ghost var b0 := bits[..];
      assert n > 0 by {
        SumOne(b0, i);
      }
      bits[i] := bits[i] - 1;
      assert bits[..] == b0[i := b0[i] - 1];
      SumUpdate(b0, i, b0[i] - 1);
      KraftAdd(b0, 33, top, i, -1);
      FitsByte(bits[..], i, top);
    } else {
      assert n == 0 by {
        SumZero(bits[..]);
      }
    }
  }

  /** The final search of adjust_bits as written: from length i down, the first length with
      codes, with no lower bound; a result below 0 is a read before the start of BITS. */
  function FinalSearch(bits: seq<int>, i: int): (r: int)
    requires i < |bits|
    ensures r <= i
    decreases i + 1
  {
    if i < 0 then i
    else if bits[i] != 0 then i
    else FinalSearch(bits, i - 1)
  }

  /** With no code counted (only the reserved value 256 occurred, so it kept code size 0),
      the search as written runs past BITS(0) and reads BITS(-1). */
  lemma {:induction false} NoCodesReadsBefore()
    ensures FinalSearch(seq(33, _ => 0), 16) == -1
  {
    var z := seq(33, _ => 0);
    assert forall l | 0 <= l <= 16 :: z[l] == 0;
    FinalSearchZeros(z, 16);
  }

  lemma {:induction false} FinalSearchZeros(bits: seq<int>, i: int)
    requires -1 <= i < |bits| && forall l | 0 <= l <= i :: bits[l] == 0
    ensures FinalSearch(bits, i) == -1
    decreases i + 1
  {
    if i >= 0 {
      FinalSearchZeros(bits, i - 1);
    }
  }

  /** count_bits: the histogram of the code sizes, adjusted to at most 16 bits. */
  method CountBits(huffenc: HuffEnc, ghost top: nat) returns (err: Status)
    requires huffenc.Valid() && top >= 32
    requires forall v | 0 <= v < 257 :: huffenc.codesize[v] >= 0
    requires Space(huffenc.codesize[..], huffenc.codesize[..], 257, top) == Pow2(top)
             || NonZero(huffenc.codesize[..]) == 0
    modifies huffenc.bits
    ensures err == Success || err == FailureLogicError
    ensures err == Success <==> forall v | 0 <= v < 257 :: huffenc.codesize[v] < 33
    ensures err == Success ==> Folded(huffenc.bits[..], NonZero(huffenc.codesize[..]), top)
  {
    err := TallySizes(huffenc, top);
    if err != Success {
      return;
    }
    ghost var b := huffenc.bits[..];
    assert Folding(b, 32, Sum(b), top) by {
      NonZeroAtMost(huffenc.codesize[..]);
      forall l | 0 <= l < 33
        ensures b[l] >= 0
      {
      }
    }
    AdjustBits(huffenc, top);
  }

  /* ---------------------------------------------------------------------------------------- */
  /* Sort_input                                                                               */
  /* ---------------------------------------------------------------------------------------- */

  /** The values below n of code size s, in increasing order. */
  function OfSize(cs: seq<int>, s: int, n: nat): (r: seq<int>)
    requires n <= |cs|
    ensures |r| == CountSize(cs, s, n)
  {
    if n == 0 then [] else OfSize(cs, s, n - 1) + (if cs[n - 1] == s then [n - 1] else [])
  }

  /** The listing Sort_input makes: the values below 256 of code sizes 1, 2, ..., i in turn,
      each size in increasing order of value. */
  function Listing(cs: seq<int>, i: nat): seq<int>
    requires |cs| >= 256
  {
    if i == 0 then [] else Listing(cs, i - 1) + OfSize(cs, i, 256)
  }

  /** The number of values below n with a code size from 1 to i. */
  function CountUpTo(cs: seq<int>, i: int, n: nat): (r: nat)
    requires n <= |cs|
    ensures r <= n
  {
    if n == 0 then 0 else CountUpTo(cs, i, n - 1) + (if 1 <= cs[n - 1] <= i then 1 else 0)
  }

  lemma {:induction false} CountUpToStep(cs: seq<int>, i: nat, n: nat)
    requires n <= |cs| && i >= 1
    ensures CountUpTo(cs, i, n) == CountUpTo(cs, i - 1, n) + CountSize(cs, i, n)
  {
    if n > 0 {
      CountUpToStep(cs, i, n - 1);
    }
  }

  /** The listing holds as many values as there are values below 256 of those sizes, so no
      more than 256. */
  lemma {:induction false} ListingLength(cs: seq<int>, i: nat)
    requires |cs| >= 256
    ensures |Listing(cs, i)| == CountUpTo(cs, i, 256) <= 256
  {
    if i > 0 {
      ListingLength(cs, i - 1);
      CountUpToStep(cs, i, 256);
    } else {
      CountUpToZero(cs, 256);
    }
  }

  lemma {:induction false} CountUpToZero(cs: seq<int>, n: nat)
    requires n <= |cs|
    ensures CountUpTo(cs, 0, n) == 0
  {
    if n > 0 {
      CountUpToZero(cs, n - 1);
    }
  }

  /** OfSize lists exactly the values below n of size s, in increasing order. */
  lemma {:induction false} OfSizeFacts(cs: seq<int>, s: int, n: nat)
    requires n <= |cs|
    ensures forall v :: v in OfSize(cs, s, n) <==> 0 <= v < n && cs[v] == s
    ensures forall p, q | 0 <= p < q < |OfSize(cs, s, n)| :: OfSize(cs, s, n)[p] < OfSize(cs, s, n)[q]
  {
    if n > 0 {
      var r := OfSize(cs, s, n - 1);
      OfSizeFacts(cs, s, n - 1);
      if cs[n - 1] == s {
        var t := r + [n - 1];
        assert OfSize(cs, s, n) == t;
        forall p, q | 0 <= p < q < |t|
          ensures t[p] < t[q]
        {
          assert t[p] == r[p] && r[p] in r;
          if q < |r| {
            assert t[q] == r[q];
          }
        }
      } else {
        assert OfSize(cs, s, n) == r;
      }
    }
  }

  /** The listing holds exactly the values below 256 whose code size is from 1 to i. */
  lemma {:induction false} ListingMembers(cs: seq<int>, i: nat)
    requires |cs| >= 256
    ensures forall v :: v in Listing(cs, i) <==> 0 <= v < 256 && 1 <= cs[v] <= i
  {
    if i > 0 {
      ListingMembers(cs, i - 1);
      OfSizeFacts(cs, i, 256);
    }
  }

  /** Value a comes before value b: by code size, then by value. */
  predicate Before(cs: seq<int>, a: int, b: int)
    requires |cs| >= 256
  {
    0 <= a < 256 && 0 <= b < 256 && (cs[a] < cs[b] || (cs[a] == cs[b] && a < b))
  }

  /** The listing is ordered by code size, and by value within a size; in particular no value
      appears twice. */
  lemma {:induction false} ListingOrdered(cs: seq<int>, i: nat)
    requires |cs| >= 256
    ensures forall p, q | 0 <= p < q < |Listing(cs, i)| :: Before(cs, Listing(cs, i)[p], Listing(cs, i)[q])
  {
    if i > 0 {
      var prev, last := Listing(cs, i - 1), OfSize(cs, i, 256);
      ListingOrdered(cs, i - 1);
      ListingMembers(cs, i - 1);
      OfSizeFacts(cs, i, 256);
      var l := prev + last;
      forall p, q | 0 <= p < q < |l|
        ensures Before(cs, l[p], l[q])
      {
        if q < |prev| {
          assert l[p] == prev[p] && l[q] == prev[q];
        } else if p < |prev| {
          assert l[p] == prev[p] && l[p] in prev;
          assert l[q] == last[q - |prev|] && l[q] in last;
        } else {
          assert l[p] == last[p - |prev|] && l[q] == last[q - |prev|];
          assert l[p] in last && l[q] in last;
        }
      }
    }
  }

  /** sort_input: for each code size i from 1 to 32, the values j from 0 to 255 of that size
      are appended to HUFFVAL. The value 256, the reserved code point, is never listed. */
  method SortInput(huffenc: HuffEnc)
    requires huffenc.Valid()
    modifies huffenc.huffVal
    ensures |Listing(huffenc.codesize[..], 32)| <= 256
    ensures huffenc.huffVal[..|Listing(huffenc.codesize[..], 32)|] == Listing(huffenc.codesize[..], 32)
  {
    var codesize, huffVal := huffenc.codesize, huffenc.huffVal;
    ghost var cs := codesize[..];
    var i := 1;
    var k := 0;
    while i <= 32
      invariant 1 <= i <= 33 && k == |Listing(cs, i - 1)| <= 256
      invariant huffVal[..k] == Listing(cs, i - 1)
    {
      var j := 0;
      ListingLength(cs, i - 1);
      while j <= 255
        invariant 0 <= j <= 256 && k == |Listing(cs, i - 1)| + |OfSize(cs, i, j)| <= 512
        invariant huffVal[..k] == Listing(cs, i - 1) + OfSize(cs, i, j)
      {
        if codesize[j] == i {
          huffVal[k] := j;
          TakeSnoc(huffVal[..], k);
          k := k + 1;
        }
        j := j + 1;
      }
      i := i + 1;
      ListingLength(cs, i - 1);
    }
  }

  /* ---------------------------------------------------------------------------------------- */
  /* adapt_huffman_table                                                                      */
  /* ---------------------------------------------------------------------------------------- */

  lemma {:induction false} SumToMax(L: seq<int>, n: nat)
    requires n <= |L| && forall i | 0 <= i < |L| :: 0 <= L[i] <= 255
    ensures 0 <= SumTo(L, n) <= 255 * n
  {
    if n > 0 {
      SumToMax(L, n - 1);
    }
  }

  /** Every run of 16 counts below 256 ends within 16 * 255 values. */
  lemma {:induction false} SumToRuns(L: seq<int>)
    requires |L| == 16 && forall i | 0 <= i < 16 :: 0 <= L[i] <= 255
    ensures forall r | 0 <= r < 16 :: 0 <= SumTo(L, r) && SumTo(L, r) + L[r] <= 16 * 255
  {
    forall r | 0 <= r < 16
      ensures 0 <= SumTo(L, r) && SumTo(L, r) + L[r] <= 16 * 255
    {
      SumToMax(L, r);
      SumToMax(L, r + 1);
      assert 255 * (r + 1) <= 255 * 16;
    }
  }

  /** The DHT table V holds, row by row, consecutive runs of a value list: then its values in
      code order are the start of that list. */
  lemma {:induction false} HtValuesFrom(L: seq<int>, V: array2<int>, hv: seq<int>, n: nat)
    requires n <= |L| <= V.Length0 && forall i | 0 <= i < |L| :: 0 <= L[i] <= V.Length1
    requires SumTo(L, n) <= |hv|
    requires forall r, c {:trigger V[r, c]} | 0 <= r < n && 0 <= c < L[r] && 0 <= SumTo(L, r) + c < |hv| ::
      V[r, c] == hv[SumTo(L, r) + c]
    ensures 0 <= SumTo(L, n) && HtValues(L, V, n) == hv[..SumTo(L, n)]
  {
    if n > 0 {
      var s := SumTo(L, n - 1);
      assert 0 <= s <= s + L[n - 1] <= |hv| by {
        SumToMono(L, 0, n - 1);
      }
      HtValuesFrom(L, V, hv, n - 1);
      RowFrom(V, n - 1, L[n - 1], hv, s);
      HtValuesSnoc(L, V, hv, n);
    }
  }

  /** One more row, laid after the values of the rows before it. */
  lemma {:induction false} HtValuesSnoc(L: seq<int>, V: array2<int>, hv: seq<int>, n: nat)
    requires 0 < n <= |L| <= V.Length0 && forall i | 0 <= i < |L| :: 0 <= L[i] <= V.Length1
    requires 0 <= SumTo(L, n - 1) && SumTo(L, n) <= |hv|
    requires HtValues(L, V, n - 1) == hv[..SumTo(L, n - 1)]
    requires Row(V, n - 1, L[n - 1]) == hv[SumTo(L, n - 1)..SumTo(L, n)]
    ensures HtValues(L, V, n) == hv[..SumTo(L, n)]
  {
    assert hv[..SumTo(L, n)] == hv[..SumTo(L, n - 1)] + hv[SumTo(L, n - 1)..SumTo(L, n)];
  }

  lemma {:induction false} RowFrom(V: array2<int>, i: nat, m: nat, hv: seq<int>, s: nat)
    requires i < V.Length0 && m <= V.Length1 && s + m <= |hv|
    requires forall c | 0 <= c < m :: V[i, c] == hv[s + c]
    ensures Row(V, i, m) == hv[s..s + m]
  {
    if m > 0 {
      RowFrom(V, i, m - 1, hv, s);
      assert hv[s..s + m] == hv[s..s + m - 1] + [hv[s + m - 1]];
    }
  }

  /** Row i of V takes the next m values of HUFFVAL, from position p on. */
  method CopyRow(V: array2<int>, i: int, huffVal: array<int>, p: int, m: int)
    requires 0 <= i < V.Length0 && 0 <= m <= V.Length1 && 0 <= p && p + m <= huffVal.Length
    modifies V
    ensures forall c | 0 <= c < m :: V[i, c] == huffVal[p + c]
    ensures forall r, c | 0 <= r < V.Length0 && 0 <= c < V.Length1 && r != i :: V[r, c] == old(V[r, c])
  {
    var q := p;
    for l := 0 to m
      invariant q == p + l
      invariant forall c | 0 <= c < l :: V[i, c] == huffVal[p + c]
      invariant forall r, c | 0 <= r < V.Length0 && 0 <= c < V.Length1 && r != i :: V[r, c] == old(V[r, c])
    {
      V[i, l] := huffVal[q];
      q := q + 1;
    }
  }

  /** The end of adapt_huffman_table: L[i] takes BITS(i + 1), cut to its uint8_t, and the rows
      of V take HUFFVAL in turn, L[i] values each. */
  method FillTable(htable: HTable, huffenc: HuffEnc)
    requires htable.Valid() && huffenc.Valid()
    requires htable.L != huffenc.bits && htable.L != huffenc.huffVal
    modifies htable.L, htable.V
    ensures forall i | 0 <= i < 16 :: htable.L[i] == huffenc.bits[i + 1] % 0x100
    ensures CountsValid(htable.L[..]) && 0 <= SumTo(htable.L[..], 16) <= 16 * 255
    ensures HtValues(htable.L[..], htable.V, 16) == huffenc.huffVal[..SumTo(htable.L[..], 16)]
  {
    var L, V, bits, huffVal := htable.L, htable.V, huffenc.bits, huffenc.huffVal;
    for i := 0 to 16
      invariant forall r | 0 <= r < i :: L[r] == bits[r + 1] % 0x100
    {
      L[i] := bits[i + 1] % 0x100;
    }
    ghost var Ls := L[..];
    SumToRuns(Ls);
    SumToMax(Ls, 16);
    var p := 0;
    for i := 0 to 16
      invariant L[..] == Ls && p == SumTo(Ls, i)
      invariant forall r, c | 0 <= r < i && 0 <= c < Ls[r] :: V[r, c] == huffVal[SumTo(Ls, r) + c]
    {
      CopyRow(V, i, huffVal, p, L[i]);
      p := p + L[i];
    }
    HtValuesFrom(Ls, V, huffVal[..], 16);
  }

  lemma {:induction false} SpaceNone(cs: seq<int>, occurred: seq<int>, n: nat, top: nat)
    requires n <= |cs| == |occurred| && forall v | 0 <= v < n :: occurred[v] <= 0
    ensures Space(cs, occurred, n, top) == 0
  {
    if n > 0 {
      SpaceNone(cs, occurred, n - 1, top);
    }
  }

  /** When only the reserved value 256 occurred, it alone takes the whole space, so no value
      gets a code size. */
  lemma {:induction false} OnlyReserved(cs: seq<int>, occurred: seq<int>, top: nat)
    requires |cs| == 257 && |occurred| == 257 && CompleteSizes(cs, occurred, top) && top >= 256
    requires forall v | 0 <= v < 256 :: occurred[v] <= 0
    ensures forall v | 0 <= v < 257 :: cs[v] == 0
  {
    SpaceNone(cs, occurred, 256, top);
    if cs[256] > 0 {
      Pow2Mono(top - cs[256], top - 1);
      assert false;
    }
  }

  /** Below n, the values with a code are the values of sizes 1 to 32, when no size is above
      32. */
  lemma {:induction false} NonZeroCount(cs: seq<int>, n: nat)
    requires n <= |cs| && forall v | 0 <= v < n :: 0 <= cs[v] < 33
    ensures NonZero(cs[..n]) == CountUpTo(cs, 32, n)
  {
    if n > 0 {
      assert cs[..n][..n - 1] == cs[..n - 1];
      NonZeroCount(cs, n - 1);
    }
  }

  /** The DHT counts L[i] = BITS(i + 1) add up to the counts BITS(0..n). */
  lemma {:induction false} SumToBits(L: seq<int>, bits: seq<int>, n: nat)
    requires n <= |L| && n < |bits| && bits[0] == 0
    requires forall i | 0 <= i < n :: L[i] == bits[i + 1]
    ensures SumTo(L, n) == Sum(bits[..n + 1])
  {
    assert bits[..n + 1][..n] == bits[..n];
    if n > 0 {
      SumToBits(L, bits, n - 1);
    } else {
      assert bits[..0] == [];
    }
  }

  lemma {:induction false} SumZeroTail(s: seq<int>, m: nat)
    requires m <= |s| && forall l | m <= l < |s| :: s[l] == 0
    ensures Sum(s) == Sum(s[..m])
    decreases |s|
  {
    if |s| > m {
      SumZeroTail(s[..|s| - 1], m);
      assert s[..|s| - 1][..m] == s[..m];
    } else {
      assert s[..m] == s;
    }
  }

  lemma {:induction false} KraftSumAgree(s: seq<int>, t: seq<int>, k: nat)
    requires k <= |s| && k <= |t| && forall j | 0 <= j < k :: s[j] == t[j] && 0 <= s[j] <= 16
    ensures KraftSum(s, k) == KraftSum(t, k)
  {
    if k > 0 {
      KraftSumAgree(s, t, k - 1);
    }
  }

  /** c more codes of length x add c shares of 2^(16 - x). */
  lemma {:induction false} KraftSumRepeat(a: seq<int>, x: int, c: nat)
    requires 0 <= x <= 16 && forall j | 0 <= j < |a| :: 0 <= a[j] <= 16
    ensures forall j | 0 <= j < |a + Repeat(x, c)| :: 0 <= (a + Repeat(x, c))[j] <= 16
    ensures KraftSum(a + Repeat(x, c), |a| + c) == KraftSum(a, |a|) + c * Pow2(16 - x)
  {
    RepeatAll(x, c);
    if c > 0 {
      var s, s' := a + Repeat(x, c), a + Repeat(x, c - 1);
      KraftSumRepeat(a, x, c - 1);
      assert s == s' + [x];
      assert s[|a| + c - 1] == x;
      KraftSumAgree(s, s', |a| + c - 1);
      assert KraftSum(s, |a| + c) == KraftSum(s', |a| + c - 1) + Pow2(16 - x);
      assert (c - 1) * Pow2(16 - x) + Pow2(16 - x) == c * Pow2(16 - x);
    } else {
      assert a + Repeat(x, c) == a;
    }
  }

  /** The 16-bit Kraft sum of the code lengths Figure C.1 lays out from L is the space the
      counts BITS take, when L[i] = BITS(i + 1). */
  lemma {:induction false} KraftOfSizes(L: seq<int>, bits: seq<int>, n: nat)
    requires |L| == 16 && n <= 16 && |bits| == 33 && bits[0] == 0
    requires forall i | 0 <= i < 16 :: 0 <= L[i] && L[i] == bits[i + 1]
    ensures forall j | 0 <= j < SumTo(L, n) :: 0 <= SizesOf(L, n)[j] <= 16
    ensures KraftSum(SizesOf(L, n), SumTo(L, n)) == Kraft(bits, n + 1, 16)
  {
    SizesOfRange(L, n);
    if n > 0 {
      KraftOfSizes(L, bits, n - 1);
      KraftSumRepeat(SizesOf(L, n - 1), n, L[n - 1]);
    }
  }

  /** Codes that leave part of the space free at scale 2^top leave part of the 16-bit space
      free, when none is longer than 16. */
  lemma {:induction false} KraftBelow(bits: seq<int>, top: nat)
    requires |bits| == 33 && top >= 32 && forall l | 17 <= l < 33 :: bits[l] == 0
    requires Kraft(bits, 33, top) < Pow2(top)
    ensures Kraft(bits, 17, 16) < Word
  {
    KraftZeros(bits, 17, 33, top);
    KraftScale(bits, 17, 16, top - 16);
    Pow2Add(top - 16, 16);
    Pow2Word();
    var p := Pow2(top - 16);
    if Kraft(bits, 17, 16) >= Word {
      MulLe(Word, Kraft(bits, 17, 16), p);
      assert false;
    }
  }

  /** The DHT table adapt_huffman_table produces: counts that fit their uint8_t, the values
      that occurred (every one below 256, none twice) listed by the code size Code_size gave
      them and then by value, and code lengths whose 16-bit Kraft sum leaves room, so that no
      code is all 1-bits. */
  ghost predicate AdaptedTable(L: seq<int>, V: array2<int>, occurred: seq<int>, cs: seq<int>)
    reads V
  {
    && CountsValid(L) && V.Length0 == 16 && V.Length1 == 255 && |occurred| == 257 && |cs| == 257
    && HtValues(L, V, 16) == Listing(cs, 32)
    && (forall v | 0 <= v < 256 :: v in HtValues(L, V, 16) <==> occurred[v] > 0)
    && (forall j | 0 <= j < SumTo(L, 16) :: 0 <= SizesOf(L, 16)[j] <= 16)
    && KraftSum(SizesOf(L, 16), SumTo(L, 16)) < Word
  }

  /** With the reserved value 256 among the values that occurred, a value below 256 gets a
      code size exactly when it occurred, and Count_BITS's total (one less than the number of
      codes, the reserved code being dropped) is the number of values below 256 with a size. */
  lemma {:induction false} AdaptCount(cs: seq<int>, occurred: seq<int>, top: nat)
    requires |cs| == 257 && |occurred| == 257 && CompleteSizes(cs, occurred, top) && top >= 256
    requires occurred[256] > 0 && forall v | 0 <= v < 257 :: cs[v] < 33
    ensures forall v | 0 <= v < 256 :: occurred[v] > 0 <==> cs[v] > 0
    ensures (if NonZero(cs) > 0 then NonZero(cs) - 1 else 0) == CountUpTo(cs, 32, 256)
  {
    NonZeroCount(cs, 256);
    assert cs[..257 - 1] == cs[..256];
    if v :| 0 <= v < 256 && occurred[v] > 0 {
      SizesPositive(cs, occurred, top, v, 256);
    } else {
      OnlyReserved(cs, occurred, top);
      NonZeroNone(cs);
      NonZeroNone(cs[..256]);
    }
  }

  /** The Kraft sum of the table's code lengths: below 2^16 when there are codes (Count_BITS
      took the longest one away) and 0 when there are none. */
  lemma {:induction false} AdaptKraft(L: seq<int>, bits: seq<int>, n: int, top: nat)
    requires |L| == 16 && Folded(bits, n, top) && forall i | 0 <= i < 16 :: L[i] == bits[i + 1]
    ensures forall j | 0 <= j < SumTo(L, 16) :: 0 <= SizesOf(L, 16)[j] <= 16
    ensures KraftSum(SizesOf(L, 16), SumTo(L, 16)) < Word
  {
    KraftOfSizes(L, bits, 16);
    if n > 0 {
      KraftBelow(bits, top);
    } else {
      SumZeroAll(bits);
      KraftZero(bits, 17, 16);
    }
  }

  /** What the four steps of adapt_huffman_table leave make an adapted table. */
  lemma {:induction false} AdaptResult(L: seq<int>, V: array2<int>, bits: seq<int>, hv: seq<int>,
                                       cs: seq<int>, occurred: seq<int>, top: nat)
    requires V.Length0 == 16 && V.Length1 == 255 && |hv| == 16 * 255
    requires |cs| == 257 && |occurred| == 257 && CompleteSizes(cs, occurred, top) && top >= 256
    requires occurred[256] > 0 && forall v | 0 <= v < 257 :: cs[v] < 33
    requires Folded(bits, NonZero(cs), top)
    requires |Listing(cs, 32)| <= 256 && hv[..|Listing(cs, 32)|] == Listing(cs, 32)
    requires CountsValid(L) && 0 <= SumTo(L, 16) <= 16 * 255
    requires forall i | 0 <= i < 16 :: L[i] == bits[i + 1] % 0x100
    requires HtValues(L, V, 16) == hv[..SumTo(L, 16)]
    ensures AdaptedTable(L, V, occurred, cs)
  {
    assert forall i | 0 <= i < 16 :: L[i] == bits[i + 1];
    AdaptCount(cs, occurred, top);
    assert SumTo(L, 16) == |Listing(cs, 32)| by {
      SumToBits(L, bits, 16);
      SumZeroTail(bits, 17);
      ListingLength(cs, 32);
    }
    ListingMembers(cs, 32);
    AdaptKraft(L, bits, NonZero(cs), top);
  }

  /** adapt_huffman_table: Code_size, Count_BITS and Sort_input on the gathered frequencies,
      then BITS(1..16) into L and the sorted values, row by row, into V. A code size above 32
      is the failed assertion in Count_BITS. */
  method AdaptHuffmanTable(htable: HTable, huffenc: HuffEnc, ghost top: nat) returns (err: Status)
    requires htable.Valid() && huffenc.Valid()
    requires htable.L != huffenc.bits && htable.L != huffenc.huffVal
    requires FreqRange(huffenc.freq[..]) && Sum(huffenc.freq[..]) <= SizeMax && huffenc.freq[256] > 0
    requires forall v | 0 <= v < 257 :: huffenc.others[v] == -1 && huffenc.codesize[v] == 0
    requires top >= 256
    modifies huffenc.freq, huffenc.codesize, huffenc.others, huffenc.bits, huffenc.huffVal
    modifies htable.L, htable.V
    ensures err == Success || err == FailureLogicError
    ensures err == Success <==> forall v | 0 <= v < 257 :: huffenc.codesize[v] < 33
    ensures err == Success ==> AdaptedTable(htable.L[..], htable.V, old(huffenc.freq[..]), huffenc.codesize[..])
  {
    ghost var occurred := huffenc.freq[..];
    CodeSize(huffenc, top);
    ghost var cs := huffenc.codesize[..];
    assert Space(cs, cs, 257, top) == Pow2(top) || NonZero(cs) == 0 by {
      if v :| 0 <= v < 256 && occurred[v] > 0 {
        SizesPositive(cs, occurred, top, v, 256);
        SpaceAgree(cs, cs, occurred, 257, top);
      } else {
        OnlyReserved(cs, occurred, top);
        NonZeroNone(cs);
      }
    }
    err := CountBits(huffenc, top);
    if err != Success {
      return;
    }
    SortInput(huffenc);
    FillTable(htable, huffenc);
    AdaptResult(htable.L[..], htable.V, huffenc.bits[..], huffenc.huffVal[..], cs, occurred, top);
  }

  /** End to end: once conv_htable_to_hcode has expanded an adapted table, the table is
      canonical and every value that occurred has a code, which read_code decodes back to the
      value whatever bits follow it. */
  lemma {:induction false} AdaptedRoundTrip(t: CodeTable, L: seq<int>, V: array2<int>, occurred: seq<int>, cs: seq<int>,
                         v: int, rest: seq<Bit>)
    requires AdaptedTable(L, V, occurred, cs) && ExpandedFrom(t, L, V)
    requires 0 <= v < 256 && occurred[v] > 0
    ensures Canonical(t) && ValueIndex(t, v).Some?
    ensures var k := ValueIndex(t, v).value;
            Decode(t, LowBits(t.codes[k], t.sizes[k]) + rest) == Some((v, t.sizes[k]))
  {
    assert KraftSum(t.sizes, t.lastK) < Word by {
      assert forall j | 0 <= j < t.lastK :: t.sizes[j] == t.sizes[..t.lastK][j];
      KraftSumAgree(SizesOf(L, 16), t.sizes, t.lastK);
    }
    assert v in t.vals[..t.lastK];
    CodeRoundTrip(t, v, rest);
  }
}
