/// Unpacking of the bit-packed samples of 12- and 14-bit DNG images into 16-bit samples
/// (Decoders/Unpack/Unpack.cpp). The packed fields are big-endian: the first sample of a group
/// occupies its most significant bits. The output buffer is modelled as the array of 16-bit words
/// the source writes through its uint16_t pointer, so offsets into it count samples.
module Unpack {

  /** The two samples of one 3-byte group, as the source computes them: the shifts happen in C
      int and the store truncates to 16 bits. */
  function Unpack12Pair(b2: bv8, b1: bv8, b0: bv8): (bv16, bv16)
  {
    (((((b2 as bv32) << 4) | ((b1 as bv32) >> 4)) & 0xFFFF) as bv16,
     (((0x0fff & ((b1 as bv32) << 8)) | (b0 as bv32)) & 0xFFFF) as bv16)
  }

  /** The four samples of one 7-byte group, in output order, as the source computes them. */
  function Unpack14Quad(b6: bv8, b5: bv8, b4: bv8, b3: bv8, b2: bv8, b1: bv8, b0: bv8): (bv16, bv16, bv16, bv16)
  {
    (((((b5 as bv32) >> 2) | ((b6 as bv32) << 6)) & 0xFFFF) as bv16,
     ((((b3 as bv32) >> 4) | ((b4 as bv32) << 4) | (0x3fff & ((b5 as bv32) << 12))) & 0xFFFF) as bv16,
     ((((b1 as bv32) >> 6) | ((b2 as bv32) << 2) | (0x3fff & ((b3 as bv32) << 10))) & 0xFFFF) as bv16,
     (((0x3fff & ((b1 as bv32) << 8)) | (b0 as bv32)) & 0xFFFF) as bv16)
  }

  /** The packer the unpacking inverts: two 12-bit samples, most significant first, in 3 bytes. */
  function Pack12(a: bv16, c: bv16): (bv8, bv8, bv8)
  {
    (((a >> 4) & 0xFF) as bv8, (((a & 0xF) << 4) | ((c >> 8) & 0xF)) as bv8, (c & 0xFF) as bv8)
  }

  /** The packer of four 14-bit samples, most significant first, in 7 bytes. */
  function Pack14(p4: bv16, p3: bv16, p2: bv16, p1: bv16): (bv8, bv8, bv8, bv8, bv8, bv8, bv8)
  {
    var v := (((p4 & 0x3FFF) as bv64) << 42) | (((p3 & 0x3FFF) as bv64) << 28)
             | (((p2 & 0x3FFF) as bv64) << 14) | ((p1 & 0x3FFF) as bv64);
    (((v >> 48) & 0xFF) as bv8, ((v >> 40) & 0xFF) as bv8, ((v >> 32) & 0xFF) as bv8,
     ((v >> 24) & 0xFF) as bv8, ((v >> 16) & 0xFF) as bv8, ((v >> 8) & 0xFF) as bv8, (v & 0xFF) as bv8)
  }

  /** Unpacking a 3-byte group yields two 12-bit samples: the big-endian 24-bit group value is the
      first sample followed by the second. */
  lemma {:induction false} Unpack12PairFields(b2: bv8, b1: bv8, b0: bv8)
    ensures var p := Unpack12Pair(b2, b1, b0);
            p.0 < 4096 && p.1 < 4096
            && ((b2 as bv32) << 16) | ((b1 as bv32) << 8) | (b0 as bv32) == ((p.0 as bv32) << 12) | (p.1 as bv32)
  {
  }

  /** Unpacking and packing a 3-byte group are inverse to each other. */
  lemma {:induction false} Unpack12RoundTrip(b2: bv8, b1: bv8, b0: bv8, a: bv16, c: bv16)
    ensures var p := Unpack12Pair(b2, b1, b0); p.0 < 4096 && p.1 < 4096 && Pack12(p.0, p.1) == (b2, b1, b0)
    ensures a < 4096 && c < 4096 ==> var b := Pack12(a, c); Unpack12Pair(b.0, b.1, b.2) == (a, c)
  {
  }

  /** The bytes AB CD EF hold the samples ABC and DEF. */
  lemma {:induction false} Unpack12Example()
    ensures Unpack12Pair(0xAB, 0xCD, 0xEF) == (0xABC, 0xDEF)
  {
  }

  /** Every sample of a 3-byte group fits in 12 bits. */
  lemma {:induction false} Unpack12PairBounds(b2: bv8, b1: bv8, b0: bv8)
    ensures Unpack12Pair(b2, b1, b0).0 < 4096 && Unpack12Pair(b2, b1, b0).1 < 4096
  {
  }

  /** Every sample of a 7-byte group fits in 14 bits. */
  lemma {:induction false} Unpack14QuadBounds(b6: bv8, b5: bv8, b4: bv8, b3: bv8, b2: bv8, b1: bv8, b0: bv8)
    ensures var q := Unpack14Quad(b6, b5, b4, b3, b2, b1, b0);
            q.0 < 16384 && q.1 < 16384 && q.2 < 16384 && q.3 < 16384
  {
  }

  /** Unpacking a 7-byte group yields four 14-bit samples: the big-endian 56-bit group value is the
      four samples one after the other, the first output sample most significant. */
  lemma {:induction false} Unpack14QuadFields(b6: bv8, b5: bv8, b4: bv8, b3: bv8, b2: bv8, b1: bv8, b0: bv8)
    ensures var q := Unpack14Quad(b6, b5, b4, b3, b2, b1, b0);
            q.0 < 16384 && q.1 < 16384 && q.2 < 16384 && q.3 < 16384
            && ((b6 as bv64) << 48) | ((b5 as bv64) << 40) | ((b4 as bv64) << 32) | ((b3 as bv64) << 24)
               | ((b2 as bv64) << 16) | ((b1 as bv64) << 8) | (b0 as bv64)
               == ((q.0 as bv64) << 42) | ((q.1 as bv64) << 28) | ((q.2 as bv64) << 14) | (q.3 as bv64)
  {
  }

  /** Unpacking and packing a 7-byte group are inverse to each other. */
  lemma {:induction false} Unpack14RoundTrip(b6: bv8, b5: bv8, b4: bv8, b3: bv8, b2: bv8, b1: bv8, b0: bv8,
                          p4: bv16, p3: bv16, p2: bv16, p1: bv16)
    ensures var q := Unpack14Quad(b6, b5, b4, b3, b2, b1, b0);
            q.0 < 16384 && q.1 < 16384 && q.2 < 16384 && q.3 < 16384
            && Pack14(q.0, q.1, q.2, q.3) == (b6, b5, b4, b3, b2, b1, b0)
    ensures p4 < 16384 && p3 < 16384 && p2 < 16384 && p1 < 16384 ==>
              var b := Pack14(p4, p3, p2, p1);
              Unpack14Quad(b.0, b.1, b.2, b.3, b.4, b.5, b.6) == (p4, p3, p2, p1)
  {
  }

  /** Sample k (0 or 1) of group g of a run of 3-byte groups. */
  function Sample12(s: seq<bv8>, g: nat, k: nat): bv16
    requires 3 * g + 3 <= |s| && k < 2
  {
    var pair := Unpack12Pair(s[3 * g], s[3 * g + 1], s[3 * g + 2]);
    if k == 0 then pair.0 else pair.1
  }

  /** Sample k (0 to 3) of group g of a run of 7-byte groups. */
  function Sample14(s: seq<bv8>, g: nat, k: nat): bv16
    requires 7 * g + 7 <= |s| && k < 4
  {
    var quad := Unpack14Quad(s[7 * g], s[7 * g + 1], s[7 * g + 2], s[7 * g + 3],
                             s[7 * g + 4], s[7 * g + 5], s[7 * g + 6]);
    if k == 0 then quad.0 else if k == 1 then quad.1 else if k == 2 then quad.2 else quad.3
  }

  /** The samples of a whole run of 3-byte groups: sample j is sample j % 2 of group j / 2. */
  function Samples12(s: seq<bv8>): (r: seq<bv16>)
    requires |s| % 3 == 0
    ensures 3 * |r| == 2 * |s|
    ensures forall j :: 0 <= j < |r| ==> r[j] == Sample12(s, j / 2, j % 2)
  {
    seq(|s| / 3 * 2, j requires 0 <= j < |s| / 3 * 2 => Sample12(s, j / 2, j % 2))
  }

  /** The samples of a whole run of 7-byte groups: sample j is sample j % 4 of group j / 4. */
  function Samples14(s: seq<bv8>): (r: seq<bv16>)
    requires |s| % 7 == 0
    ensures 7 * |r| == 4 * |s|
    ensures forall j :: 0 <= j < |r| ==> r[j] == Sample14(s, j / 4, j % 4)
  {
    seq(|s| / 7 * 4, j requires 0 <= j < |s| / 7 * 4 => Sample14(s, j / 4, j % 4))
  }

  /** Every unpacked 12-bit sample is below 4096. */
  lemma {:induction false} Samples12Bounds(s: seq<bv8>)
    requires |s| % 3 == 0
    ensures forall j :: 0 <= j < |Samples12(s)| ==> Samples12(s)[j] < 4096
  {
    forall j | 0 <= j < |Samples12(s)| ensures Samples12(s)[j] < 4096 {
      var g := j / 2;
      Unpack12PairBounds(s[3 * g], s[3 * g + 1], s[3 * g + 2]);
    }
  }

  /** Every unpacked 14-bit sample is below 16384. */
  lemma {:induction false} Samples14Bounds(s: seq<bv8>)
    requires |s| % 7 == 0
    ensures forall j :: 0 <= j < |Samples14(s)| ==> Samples14(s)[j] < 16384
  {
    forall j | 0 <= j < |Samples14(s)| ensures Samples14(s)[j] < 16384 {
      var g := j / 4;
      Unpack14QuadBounds(s[7 * g], s[7 * g + 1], s[7 * g + 2], s[7 * g + 3], s[7 * g + 4], s[7 * g + 5], s[7 * g + 6]);
    }
  }

  /** Byte k (0 to 2) of pair g of the packed form of a run of 12-bit samples. */
  function PackedByte12(w: seq<bv16>, g: nat, k: nat): bv8
    requires 2 * g + 2 <= |w| && k < 3
  {
    var b := Pack12(w[2 * g], w[2 * g + 1]);
    if k == 0 then b.0 else if k == 1 then b.1 else b.2
  }

  /** The packer of a whole run of 12-bit samples: byte i is byte i % 3 of pair i / 3. */
  function Packed12(w: seq<bv16>): (r: seq<bv8>)
    requires |w| % 2 == 0
    ensures 2 * |r| == 3 * |w|
    ensures forall i :: 0 <= i < |r| ==> r[i] == PackedByte12(w, i / 3, i % 3)
  {
    seq(|w| / 2 * 3, i requires 0 <= i < |w| / 2 * 3 => PackedByte12(w, i / 3, i % 3))
  }

  /** Samples 2g and 2g + 1 of a run are the two samples of its group g. */
  lemma {:induction false} SamplesOfGroup12(s: seq<bv8>, g: nat)
    requires |s| % 3 == 0 && 3 * g + 3 <= |s|
    ensures Samples12(s)[2 * g] == Sample12(s, g, 0) && Samples12(s)[2 * g + 1] == Sample12(s, g, 1)
  {
    assert (2 * g) / 2 == g && (2 * g) % 2 == 0 && (2 * g + 1) / 2 == g && (2 * g + 1) % 2 == 1;
  }

  /** Bytes 3g to 3g + 2 of a packed run are the three bytes of its pair g. */
  lemma {:induction false} BytesOfPair12(w: seq<bv16>, g: nat)
    requires |w| % 2 == 0 && 2 * g + 2 <= |w|
    ensures Packed12(w)[3 * g] == PackedByte12(w, g, 0) && Packed12(w)[3 * g + 1] == PackedByte12(w, g, 1)
            && Packed12(w)[3 * g + 2] == PackedByte12(w, g, 2)
  {
    assert (3 * g) / 3 == g && (3 * g) % 3 == 0 && (3 * g + 1) / 3 == g && (3 * g + 1) % 3 == 1;
    assert (3 * g + 2) / 3 == g && (3 * g + 2) % 3 == 2;
  }

  /** Unpacking a run of groups and packing its samples again gives the groups back. */
  lemma {:induction false} PackUnpacked12(s: seq<bv8>)
    requires |s| % 3 == 0
    ensures Packed12(Samples12(s)) == s
  {
    forall i | 0 <= i < |s| ensures Packed12(Samples12(s))[i] == s[i] {
      PackUnpackedAt12(s, i);
    }
  }

  lemma {:induction false} PackUnpackedAt12(s: seq<bv8>, i: nat)
    requires |s| % 3 == 0 && i < |s|
    ensures |Packed12(Samples12(s))| == |s| && Packed12(Samples12(s))[i] == s[i]
  {
    var g := i / 3;
    SamplesOfGroup12(s, g);
    Unpack12RoundTrip(s[3 * g], s[3 * g + 1], s[3 * g + 2], 0, 0);
  }

  /** Packing a run of 12-bit samples and unpacking it again gives the samples back: every
      12-bit sample sequence is reachable. */
  lemma {:induction false} UnpackPacked12(w: seq<bv16>)
    requires |w| % 2 == 0 && forall i :: 0 <= i < |w| ==> w[i] < 4096
    ensures Samples12(Packed12(w)) == w
  {
    var b := Packed12(w);
    assert |b| % 3 == 0 && |Samples12(b)| == |w| by {
      assert |w| == 2 * (|w| / 2) && |b| == 3 * (|w| / 2);
    }
    forall j | 0 <= j < |w| ensures Samples12(b)[j] == w[j] {
      UnpackPackedAt12(w, j);
    }
  }

  lemma {:induction false} UnpackPackedAt12(w: seq<bv16>, j: nat)
    requires |w| % 2 == 0 && j < |w| && |Packed12(w)| % 3 == 0 && |Samples12(Packed12(w))| == |w|
    requires w[2 * (j / 2)] < 4096 && w[2 * (j / 2) + 1] < 4096
    ensures Samples12(Packed12(w))[j] == w[j]
  {
    var g := j / 2;
    assert j == 2 * g || j == 2 * g + 1;
    UnpackPackedPair12(w, g);
  }

  /** The two samples of pair g survive packing and unpacking. */
  lemma {:induction false} UnpackPackedPair12(w: seq<bv16>, g: nat)
    requires |w| % 2 == 0 && 2 * g + 2 <= |w| && w[2 * g] < 4096 && w[2 * g + 1] < 4096
    requires |Packed12(w)| % 3 == 0
    ensures 2 * g + 1 < |Samples12(Packed12(w))|
    ensures Samples12(Packed12(w))[2 * g] == w[2 * g] && Samples12(Packed12(w))[2 * g + 1] == w[2 * g + 1]
  {
    var b := Packed12(w);
    BytesOfPair12(w, g);
    SamplesOfGroup12(b, g);
    Unpack12RoundTrip(0, 0, 0, w[2 * g], w[2 * g + 1]);
  }

  /** Where the 12-bit input starts in the packed buffer: the AVX2 build reads 4 bytes before each
      block, so the caller leaves 4 bytes of room in front of the data. */
  function Unpack12InputOffsetBytes(avx2: bool): nat
  {
    if avx2 then 4 else 0
  }

  /** Unpack12to16Bit (the portable path): the sizeBytes bytes of packed from inOffsetBytes on
      become 12-bit samples stored through the 16-bit output pointer from sample outOffset on;
      the rest of out is unchanged. The loop runs until the input pointer equals the end, so
      sizeBytes must be a whole number of groups. */
  method Unpack12to16Bit(out: array<bv16>, outOffset: nat, packed: seq<bv8>, inOffsetBytes: nat, sizeBytes: nat)
    requires sizeBytes % 3 == 0
    requires inOffsetBytes + sizeBytes <= |packed|
    requires 3 * outOffset + 2 * sizeBytes <= 3 * out.Length
    modifies out
    ensures var outEnd := outOffset + sizeBytes / 3 * 2;
            out[outOffset..outEnd] == Samples12(packed[inOffsetBytes..inOffsetBytes + sizeBytes])
            && out[..outOffset] == old(out[..outOffset]) && out[outEnd..] == old(out[outEnd..])
  {
    ghost var input := packed[inOffsetBytes..inOffsetBytes + sizeBytes];
    var p := inOffsetBytes;
    var pEnd := inOffsetBytes + sizeBytes;
    var q := outOffset;
    ghost var groups, g := sizeBytes / 3, 0;
    assert 3 * groups == sizeBytes && outOffset + 2 * groups <= out.Length;
    while p != pEnd
      invariant g <= groups && p == inOffsetBytes + 3 * g && q == outOffset + 2 * g
      invariant forall j :: 0 <= j < out.Length && !(outOffset <= j < q) ==> out[j] == old(out[j])
      invariant forall h, k :: 0 <= h < g && 0 <= k < 2 ==> out[outOffset + 2 * h + k] == Sample12(input, h, k)
      decreases pEnd - p
    {
      var b2 := packed[p];
      var b1 := packed[p + 1];
      var b0 := packed[p + 2];
      assert input[3 * g] == b2 && input[3 * g + 1] == b1 && input[3 * g + 2] == b0;
      var pair := Unpack12Pair(b2, b1, b0);
      out[q] := pair.0;
      out[q + 1] := pair.1;
      p := p + 3;
      q := q + 2;
      g := g + 1;
    }
    forall j | 0 <= j < 2 * groups ensures out[outOffset + j] == Samples12(input)[j] {
      assert outOffset + j == outOffset + 2 * (j / 2) + j % 2;
    }
    assert out[outOffset..q] == Samples12(input);
  }

  /** The four stores of one 14-bit group, through the 16-bit output pointer from sample q on. */
  method StoreQuad(out: array<bv16>, q: nat, quad: (bv16, bv16, bv16, bv16))
    requires q + 4 <= out.Length
    modifies out
    ensures out[q] == quad.0 && out[q + 1] == quad.1 && out[q + 2] == quad.2 && out[q + 3] == quad.3
    ensures forall j :: 0 <= j < out.Length && !(q <= j < q + 4) ==> out[j] == old(out[j])
  {
    out[q] := quad.0;
    out[q + 1] := quad.1;
    out[q + 2] := quad.2;
    out[q + 3] := quad.3;
  }

  /** Unpack14to16Bit: the sizeBytes bytes at the start of packed become 14-bit samples stored
      through the 16-bit output pointer from sample outOffset on, four per 7-byte group; the rest
      of out is unchanged. */
  method Unpack14to16Bit(out: array<bv16>, outOffset: nat, packed: seq<bv8>, sizeBytes: nat)
    requires sizeBytes % 7 == 0
    requires sizeBytes <= |packed|
    requires 7 * outOffset + 4 * sizeBytes <= 7 * out.Length
    modifies out
    ensures var outEnd := outOffset + sizeBytes / 7 * 4;
            out[outOffset..outEnd] == Samples14(packed[..sizeBytes])
            && out[..outOffset] == old(out[..outOffset]) && out[outEnd..] == old(out[outEnd..])
  {
    ghost var input := packed[..sizeBytes];
    var p := 0;
    var q := outOffset;
    ghost var groups, g := sizeBytes / 7, 0;
    assert 7 * groups == sizeBytes && outOffset + 4 * groups <= out.Length;
    while p != sizeBytes
      invariant g <= groups && p == 7 * g && q == outOffset + 4 * g
      invariant forall j :: 0 <= j < out.Length && !(outOffset <= j < q) ==> out[j] == old(out[j])
      invariant forall h, k :: 0 <= h < g && 0 <= k < 4 ==> out[outOffset + 4 * h + k] == Sample14(input, h, k)
      decreases sizeBytes - p
    {
      var b6 := packed[p];
      var b5 := packed[p + 1];
      var b4 := packed[p + 2];
      var b3 := packed[p + 3];
      var b2 := packed[p + 4];
      var b1 := packed[p + 5];
      var b0 := packed[p + 6];
      assert input[7 * g] == b6 && input[7 * g + 1] == b5 && input[7 * g + 2] == b4 && input[7 * g + 3] == b3;
      assert input[7 * g + 4] == b2 && input[7 * g + 5] == b1 && input[7 * g + 6] == b0;
      var quad := Unpack14Quad(b6, b5, b4, b3, b2, b1, b0);
      StoreQuad(out, q, quad);
      p := p + 7;
      q := q + 4;
      g := g + 1;
    }
    forall j | 0 <= j < 4 * groups ensures out[outOffset + j] == Samples14(input)[j] {
      assert outOffset + j == outOffset + 4 * (j / 4) + j % 4;
    }
    assert out[outOffset..q] == Samples14(input);
  }
}
