/// The codec's state, struct context of Decoders/JPEG/common.h, with init_context and
/// compute_no_blocks_and_alloc_buffers (Decoders/JPEG/common.c), and struct scan, which
/// Decoders/JPEG/decoder.c and Decoders/JPEG/encoder.c both declare.
module JpegContext {
  import opened Arith
  import opened JpegCommon

  /** The slot numbers that tell the context's table arrays and objects apart. */
  function QSlot(i: int): int { i }
  function QObjSlot(i: int): int { 4 + i }
  function LSlot(j: int, i: int): int { 8 + 4 * j + i }
  function VSlot(j: int, i: int): int { 16 + 4 * j + i }
  /** k = 0 .. 5: the hcode object, then huff_val, huff_size, huff_code, e_huf_co, e_huf_si. */
  function CodeSlot(j: int, i: int, k: int): int { 24 + 8 * k + 4 * j + i }
  /** k = 0 .. 4: freq, codesize, others, bits, huff_val. */
  function EncSlot(j: int, i: int, k: int): int { 72 + 8 * k + 4 * j + i }
  function ComponentSlot(c: int): int { 112 + c }

  /** The component buffers have slots of their own, three per component. */
  function BufferSlot(c: int, k: int): int { 3 * c + k }

  /** struct context. The tables, the 256 components and the three [2][4] table sets are fixed
      objects; the scalars are fields. max_H and max_V are left unset by init_context. */
  class Context {
    const qtable: seq<QTable>
    var P: int
    var Y: int
    var X: int
    var Nf: int
    const component: seq<Component>
    const htable: seq<seq<HTable>>
    const hcode: seq<seq<HCode>>
    const huffenc: seq<seq<HuffEnc>>
    var Ri: int
    var mX: int
    var mY: int
    var mblocks: int
    var maxH: int
    var maxV: int

    /** Each table array and object, and each component, has its own slot: no two alias. */
    ghost const slot: map<object, int>
    /** Each component buffer has its own slot: no two alias, and none is a table array. */
    ghost var bufferSlot: map<object, int>

    ghost predicate Owns(o: object, k: int) {
      o in slot && slot[o] == k
    }

    /** The array sizes of struct context, each table in its own slot. */
    ghost predicate Shaped() {
      && this !in slot
      && |qtable| == 4 && |component| == 256
      && |htable| == 2 && |hcode| == 2 && |huffenc| == 2
      && (forall i | 0 <= i < 4 ::
            qtable[i].Valid() && Owns(qtable[i].Q, QSlot(i)) && Owns(qtable[i], QObjSlot(i)))
      && (forall c | 0 <= c < 256 :: Owns(component[c], ComponentSlot(c)))
      && (forall j | 0 <= j < 2 :: |htable[j]| == 4 && |hcode[j]| == 4 && |huffenc[j]| == 4)
      && (forall j, i | 0 <= j < 2 && 0 <= i < 4 :: TableSlotted(j, i))
    }

    ghost predicate TableSlotted(j: int, i: int)
      requires 0 <= j < |htable| && 0 <= i < |htable[j]|
      requires j < |hcode| && i < |hcode[j]| && j < |huffenc| && i < |huffenc[j]|
    {
      && htable[j][i].Valid() && huffenc[j][i].Valid()
      && Owns(htable[j][i].L, LSlot(j, i)) && Owns(htable[j][i].V, VSlot(j, i))
      && Owns(hcode[j][i], CodeSlot(j, i, 0)) && Owns(hcode[j][i].huffVal, CodeSlot(j, i, 1))
      && Owns(hcode[j][i].huffSize, CodeSlot(j, i, 2)) && Owns(hcode[j][i].huffCode, CodeSlot(j, i, 3))
      && Owns(hcode[j][i].eHufCo, CodeSlot(j, i, 4)) && Owns(hcode[j][i].eHufSi, CodeSlot(j, i, 5))
      && Owns(huffenc[j][i].freq, EncSlot(j, i, 0)) && Owns(huffenc[j][i].codesize, EncSlot(j, i, 1))
      && Owns(huffenc[j][i].others, EncSlot(j, i, 2)) && Owns(huffenc[j][i].bits, EncSlot(j, i, 3))
      && Owns(huffenc[j][i].huffVal, EncSlot(j, i, 4))
    }

    /** A component's grid and buffers agree: either no buffers and an empty grid, or three
        buffers of 64 entries per block of the b_x by b_y grid. */
    ghost predicate ComponentSized(c: int)
      requires Shaped() && 0 <= c < 256
      reads this`bufferSlot, component[c]
    {
      var k := component[c];
      && 0 <= k.H < 0x100 && 0 <= k.V < 0x100 && 0 <= k.Tq < 4 && 0 <= k.Td < 4 && 0 <= k.Ta < 4
      && k.bX >= 0 && k.bY >= 0
      && (k.intBuffer == null ==> k.fltBuffer == null && k.frameBuffer == null && k.bX == 0 && k.bY == 0)
      && (k.intBuffer != null ==>
            && k.fltBuffer != null && k.frameBuffer != null
            && k.intBuffer.Length == 64 * (k.bX * k.bY) && k.fltBuffer.Length == 64 * (k.bX * k.bY)
            && k.frameBuffer.Length == 64 * (k.bX * k.bY)
            && k.intBuffer !in slot
            && k.intBuffer in bufferSlot && bufferSlot[k.intBuffer] == BufferSlot(c, 0)
            && k.fltBuffer in bufferSlot && bufferSlot[k.fltBuffer] == BufferSlot(c, 1)
            && k.frameBuffer in bufferSlot && bufferSlot[k.frameBuffer] == BufferSlot(c, 2))
    }

    /** The ranges of the scalar fields' C types, and every component sized. */
    ghost predicate Valid()
      reads this, component
    {
      && Shaped()
      && 0 <= P < 0x100 && 0 <= Y < 0x1_0000 && 0 <= X < 0x1_0000 && 0 <= Nf < 0x100
      && 0 <= Ri < 0x1_0000 && mX >= 0 && mY >= 0 && mblocks >= 0
      && 0 <= maxH < 0x100 && 0 <= maxV < 0x100
      && forall c | 0 <= c < 256 :: ComponentSized(c)
    }

    /** The quantisation tables and their arrays. */
    ghost function QObjects(): set<object> {
      set o | o in slot.Keys && 0 <= slot[o] < 8
    }

    /** The arrays init_htable and init_huffenc write: L, V, freq, codesize and others. */
    ghost function TableArrays(): set<object> {
      set o | o in slot.Keys && (8 <= slot[o] < 24 || 72 <= slot[o] < 96)
    }

    /** The hcode objects and their arrays. */
    ghost function CodeObjects(): set<object>
      requires Shaped()
    {
      (set j, i | 0 <= j < 2 && 0 <= i < 4 :: hcode[j][i] as object)
      + (set j, i | 0 <= j < 2 && 0 <= i < 4 :: hcode[j][i].huffVal as object)
      + (set j, i | 0 <= j < 2 && 0 <= i < 4 :: hcode[j][i].huffSize as object)
      + (set j, i | 0 <= j < 2 && 0 <= i < 4 :: hcode[j][i].huffCode as object)
      + (set j, i | 0 <= j < 2 && 0 <= i < 4 :: hcode[j][i].eHufCo as object)
      + (set j, i | 0 <= j < 2 && 0 <= i < 4 :: hcode[j][i].eHufSi as object)
    }

    /** Every hcode within the ranges of its C types. */
    ghost predicate CodesValid()
      requires Shaped()
      reads CodeObjects()
    {
      forall j, i | 0 <= j < 2 && 0 <= i < 4 :: hcode[j][i].Valid()
    }

    /** A context whose tables and components are freshly allocated, as malloc gives them:
        init_context still has to set them. */
    constructor ()
      ensures Valid() && CodesValid()
      ensures forall c | 0 <= c < 256 :: component[c].intBuffer == null
    {
      var m: map<object, int>, qs, cs, hts, hcs, hes;
      qs, m := NewQTables();
      cs, m := NewComponents(m);
      hts, hcs, hes, m := NewTableSets(m);
      qtable, component := qs, cs;
      htable, hcode, huffenc := hts, hcs, hes;
      slot := m;
      bufferSlot := map[];
      P, Y, X, Nf := 0, 0, 0, 0;
      Ri, mX, mY, mblocks, maxH, maxV := 0, 0, 0, 0, 0, 0;
      new;
      forall j, i | 0 <= j < 2 && 0 <= i < 4
        ensures TableSlotted(j, i)
      {
        assert Slotted(m, hts[j][i], hcs[j][i], hes[j][i], j, i);
      }
      forall c | 0 <= c < 256
        ensures ComponentSized(c)
      {
        assert Initial(cs[c]);
      }
    }

    /** init_context: every quantisation table, component, DHT table and frequency list set to
        its initial state and the scalars zeroed (max_H and max_V are left as they are). The
        implicit MJPEG tables that init_context loads and converts are not part of this model. */
    method Init()
      requires Valid() && CodesValid()
      modifies this, component, QObjects(), TableArrays()
      ensures Valid() && CodesValid() && bufferSlot == old(bufferSlot) && maxH == old(maxH) && maxV == old(maxV)
      ensures P == 0 && Y == 0 && X == 0 && Nf == 0 && Ri == 0 && mX == 0 && mY == 0 && mblocks == 0
      ensures forall i | 0 <= i < 4 :: qtable[i].Pq == 0 && forall k | 0 <= k < 64 :: qtable[i].Q[k] == 1
      ensures forall c | 0 <= c < 256 :: Initial(component[c])
      ensures forall j, i | 0 <= j < 2 && 0 <= i < 4 :: TableInitial(j, i)
    {
      InitTableSets();
      InitScalarsAndComponents();
      forall j, i | 0 <= j < 2 && 0 <= i < 4
        ensures hcode[j][i].Valid()
      {
        assert TableSlotted(j, i);
        assert old(hcode[j][i].Valid());
      }
    }

    /** The scalar fields and the components of init_context. */
    method InitScalarsAndComponents()
      requires Valid()
      modifies this, component
      ensures Valid() && bufferSlot == old(bufferSlot) && maxH == old(maxH) && maxV == old(maxV)
      ensures P == 0 && Y == 0 && X == 0 && Nf == 0 && Ri == 0 && mX == 0 && mY == 0 && mblocks == 0
      ensures forall c | 0 <= c < 256 :: Initial(component[c])
    {
      InitComponents();
      P, Y, X, Nf := 0, 0, 0, 0;
      Ri, mX, mY, mblocks := 0, 0, 0, 0;
    }

    /** The state init_htable and init_huffenc leave table set (j, i) in. */
    ghost predicate TableInitial(j: int, i: int)
      requires Shaped() && 0 <= j < 2 && 0 <= i < 4
      reads htable[j][i].L, htable[j][i].V, huffenc[j][i].freq, huffenc[j][i].codesize, huffenc[j][i].others
    {
      var t := htable[j][i];
      var e := huffenc[j][i];
      assert TableSlotted(j, i);
      && (forall k | 0 <= k < 16 :: t.L[k] == 0)
      && (forall k, l | 0 <= k < 16 && 0 <= l < 255 :: t.V[k, l] == 0)
      && (forall v | 0 <= v < 256 :: e.freq[v] == 0) && e.freq[256] == 1
      && (forall v | 0 <= v < 257 :: e.codesize[v] == 0 && e.others[v] == -1)
    }

    /** The quantisation and DHT tables of init_context. */
    method InitTableSets()
      requires Shaped()
      modifies QObjects(), TableArrays()
      ensures forall i | 0 <= i < 4 :: qtable[i].Pq == 0 && forall k | 0 <= k < 64 :: qtable[i].Q[k] == 1
      ensures forall j, i | 0 <= j < 2 && 0 <= i < 4 :: TableInitial(j, i)
    {
      InitQTables();
      InitTables();
    }

    method InitQTables()
      requires Shaped()
      modifies QObjects()
      ensures forall i | 0 <= i < 4 :: qtable[i].Pq == 0 && forall k | 0 <= k < 64 :: qtable[i].Q[k] == 1
    {
      for i := 0 to 4
        invariant forall ii | 0 <= ii < i :: qtable[ii].Pq == 0 && forall k | 0 <= k < 64 :: qtable[ii].Q[k] == 1
      {
        qtable[i].Init();
      }
    }

    method InitComponents()
      requires Shaped()
      modifies component
      ensures forall c | 0 <= c < 256 :: Initial(component[c]) && ComponentSized(c)
    {
      for c := 0 to 256
        invariant forall cc | 0 <= cc < c :: Initial(component[cc])
      {
        component[c].Init();
      }
      forall c | 0 <= c < 256
        ensures ComponentSized(c)
      {
        assert Initial(component[c]);
      }
    }

    method InitTables()
      requires Shaped()
      modifies TableArrays()
      ensures forall j, i | 0 <= j < 2 && 0 <= i < 4 :: TableInitial(j, i)
    {
      for j := 0 to 2
        invariant forall jj, i | 0 <= jj < j && 0 <= i < 4 :: TableInitial(jj, i)
      {
        InitTableRow(j);
      }
    }

    method InitTableRow(j: int)
      requires Shaped() && 0 <= j < 2
      modifies TableArrays()
      ensures forall i | 0 <= i < 4 :: TableInitial(j, i)
      ensures forall jj, i | 0 <= jj < 2 && 0 <= i < 4 && jj != j && old(TableInitial(jj, i)) :: TableInitial(jj, i)
    {
      for i := 0 to 4
        invariant forall ii | 0 <= ii < i :: TableInitial(j, ii)
        invariant forall jj, ii | 0 <= jj < 2 && 0 <= ii < 4 && jj != j && old(TableInitial(jj, ii)) :: TableInitial(jj, ii)
      {
        assert TableSlotted(j, i);
        assert htable[j][i].L in TableArrays() && htable[j][i].V in TableArrays();
        assert huffenc[j][i].freq in TableArrays() && huffenc[j][i].codesize in TableArrays();
        assert huffenc[j][i].others in TableArrays();
        InitTableSet(j, i);
      }
    }

    /** init_htable and init_huffenc on table set (j, i); every other table set keeps its state. */
    method InitTableSet(j: int, i: int)
      requires Shaped() && 0 <= j < 2 && 0 <= i < 4
      modifies htable[j][i].L, htable[j][i].V, huffenc[j][i].freq, huffenc[j][i].codesize, huffenc[j][i].others
      ensures TableInitial(j, i)
      ensures forall jj, ii | 0 <= jj < 2 && 0 <= ii < 4 && (jj != j || ii != i) && old(TableInitial(jj, ii)) ::
                TableInitial(jj, ii)
    {
      assert TableSlotted(j, i);
      htable[j][i].Init();
      huffenc[j][i].Init();
      forall jj, ii | 0 <= jj < 2 && 0 <= ii < 4 && (jj != j || ii != i) && old(TableInitial(jj, ii))
        ensures TableInitial(jj, ii)
      {
        assert TableSlotted(jj, ii);
      }
    }

    /** Every buffer the call gave a slot to was allocated by the call. */
    twostate predicate BuffersFresh()
      reads this
    {
      forall o | o in bufferSlot && o !in old(bufferSlot) :: fresh(o)
    }

    /** The buffers of component k were allocated by the call. */
    twostate predicate New(k: Component)
      reads k
    {
      fresh(k.intBuffer) && fresh(k.fltBuffer) && fresh(k.frameBuffer)
    }

    /** compute_no_blocks_and_alloc_buffers: the MCU grid is m_x = ceil(X / (8 max_H)) by
        m_y = ceil(Y / (8 max_V)), and every component with H != 0 gets a grid of m_x H by m_y V
        blocks and new buffers for it, the coefficients zeroed; the other components keep theirs.
        With max_H or max_V zero the source divides by zero; the model refuses that case. */
    method ComputeNoBlocksAndAllocBuffers() returns (err: Status)
      requires Valid()
      modifies this, component
      ensures Valid() && BuffersFresh()
      ensures P == old(P) && Y == old(Y) && X == old(X) && Nf == old(Nf) && Ri == old(Ri)
      ensures mblocks == old(mblocks) && maxH == old(maxH) && maxV == old(maxV)
      ensures forall c | 0 <= c < 256 :: Header(component[c]) == old(Header(component[c]))
      ensures maxH == 0 || maxV == 0 ==>
                err == FailureFileUnsupported && mX == old(mX) && mY == old(mY)
                && forall c | 0 <= c < 256 :: Grid(component[c]) == old(Grid(component[c]))
      ensures maxH != 0 && maxV != 0 ==>
                && err == Success && mX == CeilDiv(X, 8 * maxH) && mY == CeilDiv(Y, 8 * maxV)
                && forall c | 0 <= c < 256 ::
                     if component[c].H != 0 then New(component[c]) && Allocated(component[c], mX, mY)
                     else Grid(component[c]) == old(Grid(component[c]))
    {
      if maxH == 0 || maxV == 0 {
        return FailureFileUnsupported;
      }
      mX := CeilDiv(X, 8 * maxH);
      mY := CeilDiv(Y, 8 * maxV);
      for c := 0 to 256
        invariant Shaped() && 0 <= X && 0 <= Y && 0 < maxH && 0 < maxV && BuffersFresh()
        invariant mX == CeilDiv(X, 8 * maxH) && mY == CeilDiv(Y, 8 * maxV)
        invariant P == old(P) && Y == old(Y) && X == old(X) && Nf == old(Nf) && Ri == old(Ri)
        invariant mblocks == old(mblocks) && maxH == old(maxH) && maxV == old(maxV)
        invariant forall cc | 0 <= cc < 256 :: Header(component[cc]) == old(Header(component[cc]))
        invariant forall cc | 0 <= cc < 256 :: ComponentSized(cc)
        invariant forall cc | 0 <= cc < c ::
                    if component[cc].H != 0 then New(component[cc]) && Allocated(component[cc], mX, mY)
                    else Grid(component[cc]) == old(Grid(component[cc]))
        invariant forall cc | c <= cc < 256 :: Grid(component[cc]) == old(Grid(component[cc]))
      {
        if component[c].H != 0 {
          AllocComponent(c);
        }
      }
      err := Success;
    }

    /** The grid and buffers of component c, from the MCU grid. */
    method AllocComponent(c: int)
      requires Shaped() && 0 <= c < 256 && mX >= 0 && mY >= 0
      requires component[c].H != 0 && forall cc | 0 <= cc < 256 :: ComponentSized(cc)
      modifies this`bufferSlot, component[c]
      ensures forall cc | 0 <= cc < 256 :: ComponentSized(cc)
      ensures Header(component[c]) == old(Header(component[c]))
      ensures New(component[c]) && Allocated(component[c], mX, mY) && BuffersFresh()
    {
      assert Owns(component[c], ComponentSlot(c)) && ComponentSized(c);
      var k := component[c];
      k.bX := mX * k.H;
      k.bY := mY * k.V;
      var size: nat := k.bX * k.bY;
      var _ := k.AllocBuffers(size);
      bufferSlot := bufferSlot[k.intBuffer := BufferSlot(c, 0)][k.fltBuffer := BufferSlot(c, 1)]
                              [k.frameBuffer := BufferSlot(c, 2)];
      forall cc | 0 <= cc < 256 && cc != c
        ensures unchanged(component[cc])
      {
        assert Owns(component[cc], ComponentSlot(cc));
      }
      OthersSized(c);
    }

    /** A step that touches component c alone, and only adds slots for new buffers, leaves every
        other component sized. */
    twostate lemma OthersSized(c: int)
      requires Shaped() && 0 <= c < 256
      requires old(forall cc | 0 <= cc < 256 :: ComponentSized(cc))
      requires forall cc | 0 <= cc < 256 && cc != c :: unchanged(component[cc])
      requires forall o | o in old(bufferSlot) :: o in bufferSlot && bufferSlot[o] == old(bufferSlot)[o]
      ensures forall cc | 0 <= cc < 256 && cc != c :: ComponentSized(cc)
    {
      forall cc | 0 <= cc < 256 && cc != c
        ensures ComponentSized(cc)
      {
        assert old(ComponentSized(cc));
      }
    }
  }

  method NewQTables() returns (qs: seq<QTable>, m: map<object, int>)
    ensures |qs| == 4
    ensures forall k | 0 <= k < 4 :: qs[k].Valid() && fresh(qs[k]) && fresh(qs[k].Q)
    ensures forall k | 0 <= k < 4 :: qs[k].Q in m && m[qs[k].Q] == QSlot(k) && qs[k] in m && m[qs[k]] == QObjSlot(k)
  {
    m := map[];
    qs := [];
    for i := 0 to 4
      invariant |qs| == i
      invariant forall k | 0 <= k < i :: qs[k].Valid() && fresh(qs[k]) && fresh(qs[k].Q)
      invariant forall k | 0 <= k < i :: qs[k].Q in m && m[qs[k].Q] == QSlot(k) && qs[k] in m && m[qs[k]] == QObjSlot(k)
    {
      var q := new QTable();
      m := m[q.Q := QSlot(i)][q := QObjSlot(i)];
      qs := qs + [q];
    }
  }

  method NewComponents(m: map<object, int>) returns (cs: seq<Component>, m': map<object, int>)
    ensures |cs| == 256
    ensures forall o | o in m :: o in m' && m'[o] == m[o]
    ensures forall k | 0 <= k < 256 :: fresh(cs[k]) && cs[k] in m' && m'[cs[k]] == ComponentSlot(k)
    ensures forall k | 0 <= k < 256 :: Initial(cs[k])
  {
    m' := m;
    cs := [];
    for c := 0 to 256
      invariant |cs| == c
      invariant forall o | o in m :: o in m' && m'[o] == m[o]
      invariant forall k | 0 <= k < c :: fresh(cs[k]) && cs[k] in m' && m'[cs[k]] == ComponentSlot(k)
      invariant forall k | 0 <= k < c :: Initial(cs[k])
    {
      var k := new Component();
      m' := m'[k := ComponentSlot(c)];
      cs := cs + [k];
    }
  }

  method NewTableSets(m: map<object, int>) returns (hts: seq<seq<HTable>>, hcs: seq<seq<HCode>>,
                                                    hes: seq<seq<HuffEnc>>, m': map<object, int>)
    ensures |hts| == 2 && |hcs| == 2 && |hes| == 2
    ensures forall j | 0 <= j < 2 :: |hts[j]| == 4 && |hcs[j]| == 4 && |hes[j]| == 4
    ensures forall o | o in m :: o in m' && m'[o] == m[o]
    ensures forall j, i | 0 <= j < 2 && 0 <= i < 4 ::
              Slotted(m', hts[j][i], hcs[j][i], hes[j][i], j, i) && hcs[j][i].Valid()
  {
    var ht0, hc0, he0, m0 := NewTableRow(m, 0);
    var ht1, hc1, he1, m1 := NewTableRow(m0, 1);
    hts, hcs, hes, m' := [ht0, ht1], [hc0, hc1], [he0, he1], m1;
    forall i | 0 <= i < 4
      ensures Slotted(m', hts[0][i], hcs[0][i], hes[0][i], 0, i)
    {
      assert Slotted(m0, ht0[i], hc0[i], he0[i], 0, i);
    }
  }

  /** The four table sets of row j (DC for 0, AC for 1). */
  method NewTableRow(m: map<object, int>, j: int) returns (ht: seq<HTable>, hc: seq<HCode>, he: seq<HuffEnc>,
                                                         m': map<object, int>)
    ensures |ht| == 4 && |hc| == 4 && |he| == 4
    ensures forall o | o in m :: o in m' && m'[o] == m[o]
    ensures forall i | 0 <= i < 4 :: Slotted(m', ht[i], hc[i], he[i], j, i) && hc[i].Valid()
  {
    m' := m;
    ht, hc, he := [], [], [];
    for i := 0 to 4
      invariant |ht| == i && |hc| == i && |he| == i
      invariant forall o | o in m :: o in m' && m'[o] == m[o]
      invariant forall ii | 0 <= ii < i :: Slotted(m', ht[ii], hc[ii], he[ii], j, ii) && hc[ii].Valid()
    {
      var t, h, e;
      t, h, e, m' := NewTableSet(m', j, i);
      ht, hc, he := ht + [t], hc + [h], he + [e];
    }
  }

  /** A fresh htable, hcode and huffenc, entered in slots (j, i). */
  method NewTableSet(m: map<object, int>, j: int, i: int) returns (t: HTable, h: HCode, e: HuffEnc, m': map<object, int>)
    ensures Slotted(m', t, h, e, j, i) && h.Valid()
    ensures forall o | o in m :: o in m' && m'[o] == m[o]
  {
    t := new HTable();
    h := new HCode();
    e := new HuffEnc();
    m' := m[t.L := LSlot(j, i)][t.V := VSlot(j, i)]
          [h := CodeSlot(j, i, 0)][h.huffVal := CodeSlot(j, i, 1)][h.huffSize := CodeSlot(j, i, 2)]
          [h.huffCode := CodeSlot(j, i, 3)][h.eHufCo := CodeSlot(j, i, 4)][h.eHufSi := CodeSlot(j, i, 5)]
          [e.freq := EncSlot(j, i, 0)][e.codesize := EncSlot(j, i, 1)][e.others := EncSlot(j, i, 2)]
          [e.bits := EncSlot(j, i, 3)][e.huffVal := EncSlot(j, i, 4)];
  }

  /** One table set in its slots. */
  ghost predicate Slotted(m: map<object, int>, t: HTable, h: HCode, e: HuffEnc, j: int, i: int) {
    && t.Valid() && e.Valid()
    && t.L in m && m[t.L] == LSlot(j, i) && t.V in m && m[t.V] == VSlot(j, i)
    && h in m && m[h] == CodeSlot(j, i, 0) && h.huffVal in m && m[h.huffVal] == CodeSlot(j, i, 1)
    && h.huffSize in m && m[h.huffSize] == CodeSlot(j, i, 2)
    && h.huffCode in m && m[h.huffCode] == CodeSlot(j, i, 3)
    && h.eHufCo in m && m[h.eHufCo] == CodeSlot(j, i, 4)
    && h.eHufSi in m && m[h.eHufSi] == CodeSlot(j, i, 5)
    && e.freq in m && m[e.freq] == EncSlot(j, i, 0) && e.codesize in m && m[e.codesize] == EncSlot(j, i, 1)
    && e.others in m && m[e.others] == EncSlot(j, i, 2) && e.bits in m && m[e.bits] == EncSlot(j, i, 3)
    && e.huffVal in m && m[e.huffVal] == EncSlot(j, i, 4)
  }

  /** max_H and max_V stored; the rest of the context kept. */
  method SetMaxSampling(ctx: Context, h: int, v: int)
    requires ctx.Valid() && 0 <= h < 0x100 && 0 <= v < 0x100
    modifies ctx`maxH, ctx`maxV
    ensures ctx.Valid() && ctx.maxH == h && ctx.maxV == v
  {
    ctx.maxH, ctx.maxV := h, v;
    forall c | 0 <= c < 256
      ensures ctx.ComponentSized(c)
    {
      assert old(ctx.ComponentSized(c));
    }
  }

  /** The fields a component's header sets: sampling factors and table selectors. */
  function Header(k: Component): (int, int, int, int, int)
    reads k
  {
    (k.H, k.V, k.Tq, k.Td, k.Ta)
  }

  /** A component's block grid and buffers. */
  function Grid(k: Component): (int, int, array?<int>, array?<real>, array?<real>)
    reads k
  {
    (k.bX, k.bY, k.intBuffer, k.fltBuffer, k.frameBuffer)
  }

  /** The state init_component leaves a component in. */
  predicate Initial(k: Component)
    reads k
  {
    Header(k) == (0, 0, 0, 0, 0) && Grid(k) == (0, 0, null, null, null)
  }

  /** A component given H by V blocks per MCU of an m_x by m_y MCU grid, with buffers of 64
      entries per block and its coefficients zeroed. */
  predicate Allocated(k: Component, mX: int, mY: int)
    reads k, k.intBuffer
  {
    && k.bX == mX * k.H && k.bY == mY * k.V
    && k.intBuffer != null && k.fltBuffer != null && k.frameBuffer != null
    && k.intBuffer.Length == 64 * (k.bX * k.bY)
    && forall p | 0 <= p < k.intBuffer.Length :: k.intBuffer[p] == 0
  }

  /** struct scan, declared alike in decoder.c and encoder.c: the number of components in the
      scan, their ids, and for each id the block read or written last in the current interval,
      as its index in that component's buffer (None for NULL). The two 256-entry arrays are
      sequences that the operations replace. */
  /** Every last block NULL, as read_ecs and write_ecs start an interval. */
  const NoLastBlocks: seq<Option<nat>> := Nones(256)

  /** n NULL last blocks. */
  function Nones(n: nat): (r: seq<Option<nat>>)
    ensures |r| == n && forall i | 0 <= i < n :: r[i].None?
  {
    if n == 0 then [] else Nones(n - 1) + [None]
  }

  class Scan {
    var Ns: int
    var Cs: seq<int>
    var lastBlock: seq<Option<nat>>

    /** parse_format's `scan.Ns = 0`; the arrays, uninitialised in C, start as ids 0 and NULL. */
    constructor ()
      ensures Ns == 0 && |Cs| == 256 && |lastBlock| == 256
      ensures forall j | 0 <= j < 256 :: Cs[j] == 0 && lastBlock[j].None?
    {
      Ns := 0;
      Cs := seq(256, _ => 0);
      lastBlock := seq(256, _ => None);
    }
  }
}
