/// Byte, word, nibble and marker I/O, byte stuffing and the bit buffer of the baseline JPEG codec
/// (Decoders/JPEG/io.c, Decoders/JPEG/io.h). A FILE* is modelled by the bytes of the file and a
/// position (reading) or by the bytes written so far (writing); struct bits is a class holding the
/// partly filled byte and its bit count, and the stream it works on is passed alongside.
module JpegIo {
  import opened JpegCommon

  /** uint8_t: shifts and masks on it are written as arithmetic, with the truncation to 8 bits
      explicit. */
  type byte = x: int | 0 <= x < 0x100

  type Bit = b: int | 0 <= b <= 1

  /** A stream opened for reading: the file's bytes and the position of the next read. The
      position may lie past the end after a seek; reads there fail. */
  class InStream {
    const data: seq<byte>
    var pos: nat

    constructor (data: seq<byte>)
      ensures this.data == data && pos == 0
    {
      this.data := data;
      pos := 0;
    }
  }

  /** A stream opened for writing: every byte written so far. Writes are taken to succeed. */
  class OutStream {
    var data: seq<byte>

    constructor ()
      ensures data == []
    {
      data := [];
    }
  }

  /** read_byte: the next byte, or FailureFileIo at the end of the file. */
  method ReadByte(s: InStream) returns (err: Status, b: byte)
    modifies s
    ensures old(s.pos) < |s.data| ==> err == Success && b == s.data[old(s.pos)] && s.pos == old(s.pos) + 1
    ensures old(s.pos) >= |s.data| ==> err == FailureFileIo && s.pos == old(s.pos)
  {
    if s.pos < |s.data| {
      b := s.data[s.pos];
      s.pos := s.pos + 1;
      err := Success;
    } else {
      b := 0;
      err := FailureFileIo;
    }
  }

  /** write_byte. */
  method WriteByte(s: OutStream, b: byte)
    modifies s
    ensures s.data == old(s.data) + [b]
  {
    s.data := s.data + [b];
  }

  /** The two bytes of a 16-bit word in network (big-endian) order, as htons produces them. */
  function WordBytes(w: int): (r: seq<byte>)
    requires 0 <= w < 0x1_0000
    ensures |r| == 2
  {
    [w / 0x100, w % 0x100]
  }

  /** The 16-bit word two big-endian bytes stand for, as ntohs reads them. */
  function BytesWord(hi: byte, lo: byte): (w: int)
    ensures 0 <= w < 0x1_0000
  {
    hi as int * 0x100 + lo as int
  }

  /** Writing a word and reading it back gives the word. */
  lemma {:induction false} WordRoundTrip(w: int)
    requires 0 <= w < 0x1_0000
    ensures BytesWord(WordBytes(w)[0], WordBytes(w)[1]) == w
  {
  }

  /** Every pair of bytes is the word read from it, written back. */
  lemma {:induction false} BytesRoundTrip(hi: byte, lo: byte)
    ensures WordBytes(BytesWord(hi, lo)) == [hi, lo]
  {
  }

  /** read_word: a big-endian word, or FailureFileIo when fewer than two bytes remain (fread then
      consumes what is left). */
  method ReadWord(s: InStream) returns (err: Status, w: int)
    modifies s
    ensures 0 <= w < 0x1_0000
    ensures old(s.pos) + 2 <= |s.data| ==>
              err == Success && w == BytesWord(s.data[old(s.pos)], s.data[old(s.pos) + 1])
              && s.pos == old(s.pos) + 2
    ensures old(s.pos) + 2 > |s.data| ==> err == FailureFileIo
  {
    if s.pos + 2 <= |s.data| {
      w := BytesWord(s.data[s.pos], s.data[s.pos + 1]);
      s.pos := s.pos + 2;
      err := Success;
    } else {
      if s.pos < |s.data| {
        s.pos := |s.data|;
      }
      w := 0;
      err := FailureFileIo;
    }
  }

  /** write_word. */
  method WriteWord(s: OutStream, w: int)
    requires 0 <= w < 0x1_0000
    modifies s
    ensures s.data == old(s.data) + WordBytes(w)
  {
    s.data := s.data + WordBytes(w);
  }

  /** The byte write_nibbles forms: first << 4 truncated to 8 bits, or-ed with second & 15 (the
      low four bits of the shifted value are zero, so the or is a sum). */
  function NibblesByte(first: byte, second: byte): byte {
    (first % 16) * 16 + second % 16
  }

  /** The two 4-bit parameters read_nibbles takes from a byte, high nibble first. */
  function ByteNibbles(b: byte): (r: (byte, byte))
    ensures r.0 < 16 && r.1 < 16
  {
    ((b / 16) % 16, b % 16)
  }

  /** Nibbles below 16 survive a write and a read. */
  lemma {:induction false} NibblesRoundTrip(first: byte, second: byte)
    requires first < 16 && second < 16
    ensures ByteNibbles(NibblesByte(first, second)) == (first, second)
  {
    assert (first * 16 + second) / 16 == first;
  }

  /** Every byte is the nibbles read from it, written back. */
  lemma {:induction false} ByteRoundTrip(b: byte)
    ensures NibblesByte(ByteNibbles(b).0, ByteNibbles(b).1) == b
  {
    assert b / 16 < 16;
  }

  /** read_nibbles. */
  method ReadNibbles(s: InStream) returns (err: Status, first: byte, second: byte)
    modifies s
    ensures first < 16 && second < 16
    ensures old(s.pos) < |s.data| ==>
              err == Success && (first, second) == ByteNibbles(s.data[old(s.pos)])
              && s.pos == old(s.pos) + 1
    ensures old(s.pos) >= |s.data| ==> err == FailureFileIo && s.pos == old(s.pos)
  {
    var b;
    err, b := ReadByte(s);
    if err != Success {
      return err, 0, 0;
    }
    first, second := ByteNibbles(b).0, ByteNibbles(b).1;
  }

  /** write_nibbles. */
  method WriteNibbles(s: OutStream, first: byte, second: byte)
    modifies s
    ensures s.data == old(s.data) + [NibblesByte(first, second)]
  {
    WriteByte(s, NibblesByte(first, second));
  }

  /** A marker (section B.1.1.2 of ITU-T T.81) ends at index t of the data, at or after p: the byte
      before t is 0xFF (a fill byte or the marker's prefix) and the byte at t is neither 0x00
      (stuffing) nor 0xFF (another fill byte). */
  predicate MarkerEndsAt(data: seq<byte>, p: int, t: int) {
    0 <= p < t < |data| && data[t - 1] == 0xFF && data[t] != 0x00 && data[t] != 0xFF
  }

  /** read_marker: skips to a 0xFF, skips further 0xFF fill bytes, starts over after FF 00, and
      returns 0xFF00 | b for the first other byte b. Ends of file on the way are FailureFileIo. */
  method ReadMarker(s: InStream) returns (err: Status, marker: int)
    modifies s
    ensures err == Success || err == FailureFileIo
    ensures err == Success <==> exists t :: MarkerEndsAt(s.data, old(s.pos), t)
    ensures err == Success ==>
              && MarkerEndsAt(s.data, old(s.pos), s.pos - 1)
              && (forall t | old(s.pos) < t < s.pos - 1 :: !MarkerEndsAt(s.data, old(s.pos), t))
              && marker == 0xFF00 + s.data[s.pos - 1] as int
  {
    ghost var p := s.pos;
    while true
      invariant p <= s.pos
      invariant forall t | p < t < s.pos :: !MarkerEndsAt(s.data, p, t)
      invariant p < s.pos ==> s.pos <= |s.data| && s.data[s.pos - 1] != 0xFF
      decreases |s.data| - s.pos
    {
      // seek: do { read } while (byte != 0xff)
      var b: byte;
      err, b := ReadByte(s);
      if err != Success {
        NoMarkerLeft(s.data, p, s.pos);
        return err, 0;
      }
      while b != 0xFF
        invariant p < s.pos <= |s.data| && b == s.data[s.pos - 1]
        invariant forall t | p < t < s.pos :: !MarkerEndsAt(s.data, p, t)
        decreases |s.data| - s.pos
      {
        err, b := ReadByte(s);
        if err != Success {
          NoMarkerLeft(s.data, p, s.pos);
          return err, 0;
        }
      }
      // the byte after one or more 0xFF
      err, b := ReadByte(s);
      if err != Success {
        NoMarkerLeft(s.data, p, s.pos);
        return err, 0;
      }
      while b == 0xFF
        invariant p < s.pos <= |s.data| && b == s.data[s.pos - 1] && s.data[s.pos - 2] == 0xFF
        invariant forall t | p < t < s.pos - 1 :: !MarkerEndsAt(s.data, p, t)
        decreases |s.data| - s.pos
      {
        err, b := ReadByte(s);
        if err != Success {
          NoMarkerLeft(s.data, p, s.pos);
          return err, 0;
        }
      }
      if b != 0x00 {
        assert MarkerEndsAt(s.data, p, s.pos - 1);
        return Success, 0xFF00 + b as int;
      }
      // FF 00 is not a marker: goto seek
    }
  }

  /** When the scan has reached the end of the data without finding a marker, there is none. */
  lemma {:induction false} NoMarkerLeft(data: seq<byte>, p: int, q: int)
    requires forall t | p < t < q :: !MarkerEndsAt(data, p, t)
    requires q >= |data|
    ensures !exists t :: MarkerEndsAt(data, p, t)
  {
  }

  /** write_marker: 0xFF, then the low byte of the marker code. */
  method WriteMarker(s: OutStream, marker: int)
    requires 0 <= marker < 0x1_0000 && marker / 0x100 == 0xFF
    modifies s
    ensures s.data == old(s.data) + [0xFF, marker % 0x100]
  {
    WriteByte(s, 0xFF);
    WriteByte(s, marker % 0x100);
  }

  /** skip_segment: moves len - 2 bytes on from the current position (len counts its own two
      bytes); seeking before the start of the file fails. */
  method SkipSegment(s: InStream, len: int) returns (err: Status)
    requires 0 <= len < 0x1_0000
    modifies s
    ensures old(s.pos) + len >= 2 ==> err == Success && s.pos == old(s.pos) + len - 2
    ensures old(s.pos) + len < 2 ==> err == FailureFileSeek && s.pos == old(s.pos)
  {
    if s.pos + len - 2 < 0 {
      return FailureFileSeek;
    }
    s.pos := s.pos + len - 2;
    err := Success;
  }

  /** The bytes of a stream from its position on (none when the position lies past the end). */
  ghost function Remaining(s: InStream): seq<byte>
    reads s
  {
    if s.pos <= |s.data| then s.data[s.pos..] else []
  }

  /** The entropy-coded bytes at the head of some data: each FF 00 is read as one 0xFF, up to the
      first 0xFF followed by any other byte (a marker), or up to the end of the data. used is how
      many bytes read_ecs_byte consumes before it stops: a marker is left unread, a 0xFF at the very
      end is consumed. */
  datatype Ecs = Ecs(bytes: seq<byte>, stop: Status, used: nat)

  function EntropyCoded(d: seq<byte>): (e: Ecs)
    ensures e.stop == FailureFileIo || e.stop == FailureNoMoreData
    ensures e.used <= |d|
  {
    if |d| == 0 then Ecs([], FailureFileIo, 0)
    else if d[0] != 0xFF then
      var rest := EntropyCoded(d[1..]);
      Ecs([d[0]] + rest.bytes, rest.stop, rest.used + 1)
    else if |d| == 1 then Ecs([], FailureFileIo, 1)
    else if d[1] == 0x00 then
      var rest := EntropyCoded(d[2..]);
      Ecs([0xFF] + rest.bytes, rest.stop, rest.used + 2)
    else Ecs([], FailureNoMoreData, 0)
  }

  /** Where reading entropy-coded bytes from the stream stops, and with which status. */
  ghost function EcsStop(s: InStream): (Status, nat)
    reads s
  {
    (EntropyCoded(Remaining(s)).stop, s.pos + EntropyCoded(Remaining(s)).used)
  }

  /** read_ecs_byte (byte stuffing, section F.1.2.3 of ITU-T T.81): the next entropy-coded byte;
      at a marker it rewinds to the marker's 0xFF and reports FailureNoMoreData. */
  method ReadEcsByte(s: InStream) returns (err: Status, b: byte)
    modifies s
    ensures EcsStop(s) == old(EcsStop(s)) && old(s.pos) <= s.pos
    ensures var e := old(EntropyCoded(Remaining(s)));
            if |e.bytes| > 0 then
              err == Success && b == e.bytes[0] && EntropyCoded(Remaining(s)).bytes == e.bytes[1..]
            else
              err == e.stop && s.pos == old(s.pos) + e.used && EntropyCoded(Remaining(s)).bytes == []
  {
    ghost var d := Remaining(s);
    err, b := ReadByte(s);
    if err != Success {
      return;
    }
    assert Remaining(s) == d[1..];
    if b == 0xFF {
      err, b := ReadByte(s);
      if err != Success {
        return;
      }
      assert Remaining(s) == d[2..];
      if b == 0x00 {
        return Success, 0xFF;
      }
      s.pos := s.pos - 2;
      return FailureNoMoreData, b;
    }
  }

  /** What write_ecs_byte emits for one byte: the byte, and a 0x00 after a 0xFF. */
  function Stuffed1(b: byte): seq<byte> {
    if b == 0xFF then [0xFF, 0x00] else [b]
  }

  /** A sequence of entropy-coded bytes as written to the file (section B.1.1.5 of ITU-T T.81). */
  function Stuffed(bs: seq<byte>): seq<byte> {
    if |bs| == 0 then [] else Stuffed1(bs[0]) + Stuffed(bs[1..])
  }

  /** write_ecs_byte. */
  method WriteEcsByte(s: OutStream, b: byte)
    modifies s
    ensures s.data == old(s.data) + Stuffed1(b)
  {
    WriteByte(s, b);
    if b == 0xFF {
      WriteByte(s, 0x00);
    }
  }

  lemma {:induction false} StuffedAppend(a: seq<byte>, b: seq<byte>)
    ensures Stuffed(a + b) == Stuffed(a) + Stuffed(b)
  {
    if |a| > 0 {
      assert (a + b)[1..] == a[1..] + b;
      StuffedAppend(a[1..], b);
    } else {
      assert a + b == b;
    }
  }

  /** One stuffed byte is read back as that byte, and reading goes on after it. */
  lemma {:induction false} UnstuffOne(b: byte, rest: seq<byte>)
    ensures EntropyCoded(Stuffed1(b) + rest).bytes == [b] + EntropyCoded(rest).bytes
    ensures EntropyCoded(Stuffed1(b) + rest).stop == EntropyCoded(rest).stop
    ensures EntropyCoded(Stuffed1(b) + rest).used == EntropyCoded(rest).used + |Stuffed1(b)|
  {
    var h := Stuffed1(b);
    assert (h + rest)[0] == h[0];
    if b == 0xFF {
      assert (h + rest)[1] == 0 && (h + rest)[2..] == rest;
    } else {
      assert (h + rest)[1..] == rest;
    }
  }

  /** Stuffed bytes are read back as the bytes they were made from, after which reading goes on
      with what follows them. */
  lemma {:induction false} UnstuffStuffed(bs: seq<byte>, rest: seq<byte>)
    ensures EntropyCoded(Stuffed(bs) + rest).bytes == bs + EntropyCoded(rest).bytes
    ensures EntropyCoded(Stuffed(bs) + rest).stop == EntropyCoded(rest).stop
    ensures EntropyCoded(Stuffed(bs) + rest).used == EntropyCoded(rest).used + |Stuffed(bs)|
    decreases |bs|
  {
    if |bs| > 0 {
      var h, t := Stuffed1(bs[0]), Stuffed(bs[1..]);
      assert Stuffed(bs) + rest == h + (t + rest);
      UnstuffStuffed(bs[1..], rest);
      UnstuffOne(bs[0], t + rest);
      assert bs == [bs[0]] + bs[1..];
    } else {
      assert Stuffed(bs) + rest == rest;
    }
  }

  /** A stuffed byte sequence never contains a marker: every 0xFF in it is followed by 0x00. */
  lemma {:induction false} StuffedHasNoMarker(bs: seq<byte>)
    ensures forall t | 0 < t < |Stuffed(bs)| :: Stuffed(bs)[t - 1] == 0xFF ==> Stuffed(bs)[t] == 0x00
    decreases |bs|
  {
    if |bs| > 0 {
      StuffedHasNoMarker(bs[1..]);
      assert Stuffed(bs) == Stuffed1(bs[0]) + Stuffed(bs[1..]);
    }
  }

  /** The low n bits of a value, most significant first. */
  function LowBits(v: nat, n: nat): (r: seq<Bit>)
    ensures |r| == n
  {
    if n == 0 then [] else LowBits(v / 2, n - 1) + [v % 2]
  }

  function Pow2(n: nat): (r: nat)
    ensures r > 0
  {
    if n == 0 then 1 else 2 * Pow2(n - 1)
  }

  /** The eight bits of a byte, most significant first. */
  function ByteBits(b: byte): (r: seq<Bit>)
    ensures |r| == 8
  {
    LowBits(b, 8)
  }

  /** Dropping the top bit of the low n + 1 bits leaves the low n bits. */
  lemma {:induction false} LowBitsDropTop(v: nat, n: nat)
    ensures LowBits(v, n + 1)[1..] == LowBits(v, n)
  {
    if n > 0 {
      LowBitsDropTop(v / 2, n - 1);
    }
  }

  /** The low n bits do not see a multiple of 2^n added above them. */
  lemma {:induction false} LowBitsPeriodic(v: nat, n: nat)
    ensures LowBits(v + Pow2(n), n) == LowBits(v, n)
  {
    if n > 0 {
      assert (v + Pow2(n)) / 2 == v / 2 + Pow2(n - 1);
      LowBitsPeriodic(v / 2, n - 1);
    }
  }

  /** Values below 2^n are told apart by their low n bits. */
  lemma {:induction false} LowBitsInjective(a: nat, b: nat, n: nat)
    requires a < Pow2(n) && b < Pow2(n) && LowBits(a, n) == LowBits(b, n)
    ensures a == b
  {
    if n > 0 {
      assert LowBits(a, n)[n - 1] == a % 2 && LowBits(b, n)[n - 1] == b % 2;
      assert LowBits(a, n)[..n - 1] == LowBits(a / 2, n - 1);
      assert LowBits(b, n)[..n - 1] == LowBits(b / 2, n - 1);
      LowBitsInjective(a / 2, b / 2, n - 1);
    }
  }

  /** The bits of a byte sequence, byte after byte. */
  function BytesBits(bs: seq<byte>): (r: seq<Bit>)
    ensures |r| == 8 * |bs|
  {
    if |bs| == 0 then [] else ByteBits(bs[0]) + BytesBits(bs[1..])
  }

  lemma {:induction false} BytesBitsAppend(a: seq<byte>, b: seq<byte>)
    ensures BytesBits(a + b) == BytesBits(a) + BytesBits(b)
  {
    if |a| > 0 {
      assert (a + b)[1..] == a[1..] + b;
      BytesBitsAppend(a[1..], b);
    } else {
      assert a + b == b;
    }
  }

  /** A byte shifted up by one place (b << 1, truncated to 8 bits) with a bit shifted in at the
      bottom, the way put_bit and flush_bits fill their byte. */
  function ShiftIn(b: byte, bit: Bit): byte {
    if b < 0x80 then 2 * b + bit else 2 * b + bit - 0x100
  }

  /** The top bit of a byte, b >> 7. */
  function TopBit(b: byte): Bit {
    if b < 0x80 then 0 else 1
  }

  /** Shifting a bit in at the bottom moves the other seven up by one place. */
  lemma {:induction false} ByteBitsShiftIn(b: byte, bit: Bit)
    ensures ByteBits(ShiftIn(b, bit)) == ByteBits(b)[1..] + [bit]
  {
    var c := ShiftIn(b, bit);
    assert c % 2 == bit;
    LowBitsDropTop(b, 7);
    if b < 128 {
      assert c / 2 == b;
    } else {
      assert c / 2 + Pow2(7) == b;
      LowBitsPeriodic(c / 2, 7);
    }
  }

  /** struct bits: the partly consumed (reading) or partly filled (writing) byte and how many of
      its bits are still to be read or have been put. */
  class Bits {
    var byte: byte
    var count: nat

    constructor ()
      ensures count == 0
    {
      byte := 0;
      count := 0;
    }

    /** init_bits: an empty buffer. */
    method Init()
      modifies this
      ensures count == 0 && byte == old(byte)
    {
      count := 0;
    }
  }

  /** The bits a reader has still to deliver: the unread top bits of the buffered byte, then the
      bits of the entropy-coded bytes that follow in the stream. */
  ghost function Pending(bits: Bits, s: InStream): seq<Bit>
    reads bits, s
    requires bits.count <= 8
  {
    ByteBits(bits.byte)[..bits.count] + BytesBits(EntropyCoded(Remaining(s)).bytes)
  }

  /** The first of the low n + 1 bits of a value below 2^(n+1) says whether it reaches 2^n. */
  lemma {:induction false} LowBitsTop(v: nat, n: nat)
    requires v < Pow2(n + 1)
    ensures LowBits(v, n + 1)[0] == if v < Pow2(n) then 0 else 1
  {
    if n > 0 {
      LowBitsTop(v / 2, n - 1);
    }
  }

  lemma {:induction false} ByteBitsTop(b: byte)
    ensures ByteBits(b)[0] == TopBit(b)
  {
    assert Pow2(7) == 0x80 && Pow2(8) == 0x100;
    LowBitsTop(b, 7);
  }

  /** Taking the top bit of a buffered byte and shifting the byte up leaves the other buffered
      bits in front of the rest. */
  lemma {:induction false} TakeTopBit(b: byte, c: nat, tail: seq<Bit>)
    requires 1 <= c <= 8
    ensures ByteBits(b)[..c] + tail == [TopBit(b)] + (ByteBits(ShiftIn(b, 0))[..c - 1] + tail)
  {
    ByteBitsTop(b);
    ByteBitsShiftIn(b, 0);
    assert ByteBits(ShiftIn(b, 0))[..c - 1] == ByteBits(b)[1..c];
    assert ByteBits(b)[..c] == [ByteBits(b)[0]] + ByteBits(b)[1..c];
  }

  /** next_bit (the NEXTBIT procedure, section F.2.2.5 of ITU-T T.81): the most significant
      buffered bit; the buffer is refilled from the entropy-coded data only when it is empty.
      When no bit is left, the stream's stop status is returned (FailureNoMoreData at a marker,
      with the stream left at the marker). */
  method NextBit(bits: Bits, s: InStream) returns (err: Status, bit: Bit)
    requires bits.count <= 8
    modifies bits, s
    ensures bits.count <= 8
    ensures EcsStop(s) == old(EcsStop(s)) && old(s.pos) <= s.pos
    ensures |old(Pending(bits, s))| > 0 ==>
              err == Success && bit == old(Pending(bits, s))[0]
              && Pending(bits, s) == old(Pending(bits, s))[1..]
    ensures |old(Pending(bits, s))| == 0 ==>
              err == old(EcsStop(s)).0 && s.pos == old(EcsStop(s)).1
              && Pending(bits, s) == []
  {
    if bits.count == 0 {
      err := Refill(bits, s);
      if err != Success {
        return err, 0;
      }
    }
    ghost var tail := BytesBits(EntropyCoded(Remaining(s)).bytes);
    TakeTopBit(bits.byte, bits.count, tail);
    bit := TopBit(bits.byte);
    bits.byte := ShiftIn(bits.byte, 0);
    bits.count := bits.count - 1;
    err := Success;
  }

  /** The refill of next_bit: the next entropy-coded byte becomes the 8 buffered bits. */
  method Refill(bits: Bits, s: InStream) returns (err: Status)
    requires bits.count == 0
    modifies bits, s
    ensures EcsStop(s) == old(EcsStop(s)) && old(s.pos) <= s.pos
    ensures err == Success ==> bits.count == 8 && Pending(bits, s) == old(Pending(bits, s))
    ensures err != Success ==>
              bits.count == 0 && old(Pending(bits, s)) == [] && Pending(bits, s) == []
              && err == old(EcsStop(s)).0 && s.pos == old(EcsStop(s)).1
  {
    ghost var before := Pending(bits, s);
    ghost var e := EntropyCoded(Remaining(s)).bytes;
    assert before == BytesBits(e);
    var b;
    err, b := ReadEcsByte(s);
    if err != Success {
      return;
    }
    bits.byte := b;
    bits.count := 8;
    assert e == [b] + e[1..];
    BytesBitsAppend([b], e[1..]);
  }

  /** The state of a writer's bit buffer: the byte being filled and how many bits it holds. */
  datatype Writer = Writer(byte: byte, count: nat)

  /** The bits a writer holds and has not yet written: the low count bits of its byte. */
  function HeldBits(w: Writer): seq<Bit>
    requires w.count <= 8
  {
    LowBits(w.byte, w.count)
  }

  /** put_bit on a writer state: the bit is shifted in at the bottom; the eighth bit completes a
      byte, which is emitted and the count restarts at 0. The emitted bytes are the ones
      write_ecs_byte is given, before stuffing. */
  function PutBitF(w: Writer, bit: Bit): (r: (Writer, seq<byte>))
    requires w.count < 8
    ensures r.0.count < 8
    ensures |r.1| <= 1
  {
    var b := ShiftIn(w.byte, bit);
    if w.count + 1 == 8 then (Writer(b, 0), [b]) else (Writer(b, w.count + 1), [])
  }

  /** A run of put_bit calls. */
  function PutBitsF(w: Writer, bs: seq<Bit>): (r: (Writer, seq<byte>))
    requires w.count < 8
    ensures r.0.count < 8
    decreases |bs|
  {
    if |bs| == 0 then (w, [])
    else
      var first := PutBitF(w, bs[0]);
      var rest := PutBitsF(first.0, bs[1..]);
      (rest.0, first.1 + rest.1)
  }

  /** The low n bits of a value are the last n of its low m bits, for n <= m. */
  lemma {:induction false} LowBitsSuffix(v: nat, m: nat, n: nat)
    requires n <= m
    ensures LowBits(v, m)[m - n..] == LowBits(v, n)
    decreases m - n
  {
    if n < m {
      LowBitsDropTop(v, m - 1);
      LowBitsSuffix(v, m - 1, n);
    }
  }

  /** Shifting a bit into a byte that holds c < 8 bits makes it hold those bits and the new one. */
  lemma {:induction false} LowBitsShiftIn(b: byte, c: nat, bit: Bit)
    requires c < 8
    ensures LowBits(ShiftIn(b, bit), c + 1) == LowBits(b, c) + [bit]
  {
    var x := ShiftIn(b, bit);
    assert x % 2 == bit;
    assert LowBits(x, c + 1) == LowBits(x / 2, c) + [bit];
    if b < 128 {
      assert x / 2 == b;
    } else {
      assert x / 2 + Pow2(7) == b;
      LowBitsBelowTop(x / 2, c);
    }
  }

  /** Bit 7 does not show among the low c < 8 bits. */
  lemma {:induction false} LowBitsBelowTop(v: nat, c: nat)
    requires c < 8
    ensures LowBits(v + Pow2(7), c) == LowBits(v, c)
  {
    LowBitsPeriodic(v, 7);
    LowBitsSuffix(v, 7, c);
    LowBitsSuffix(v + Pow2(7), 7, c);
  }

  /** A put_bit keeps the bits seen so far: the bytes emitted followed by the bits held. */
  lemma {:induction false} PutBitKeepsBits(w: Writer, bit: Bit)
    requires w.count < 8
    ensures BytesBits(PutBitF(w, bit).1) + HeldBits(PutBitF(w, bit).0) == HeldBits(w) + [bit]
  {
    LowBitsShiftIn(w.byte, w.count, bit);
    var b := ShiftIn(w.byte, bit);
    if w.count + 1 == 8 {
      assert BytesBits([b]) == ByteBits(b);
    }
  }

  /** Every bit put is either in a byte already emitted or still held, in order. */
  lemma {:induction false} PutBitsKeepsBits(w: Writer, bs: seq<Bit>)
    requires w.count < 8
    ensures BytesBits(PutBitsF(w, bs).1) + HeldBits(PutBitsF(w, bs).0) == HeldBits(w) + bs
    decreases |bs|
  {
    if |bs| > 0 {
      var first := PutBitF(w, bs[0]);
      var rest := PutBitsF(first.0, bs[1..]);
      assert PutBitsF(w, bs) == (rest.0, first.1 + rest.1);
      PutBitKeepsBits(w, bs[0]);
      PutBitsKeepsBits(first.0, bs[1..]);
      BytesBitsAppend(first.1, rest.1);
      assert bs == [bs[0]] + bs[1..];
      Regroup(BytesBits(first.1), BytesBits(rest.1), HeldBits(w), HeldBits(first.0), HeldBits(rest.0), [bs[0]], bs[1..]);
    }
  }

  lemma {:induction false} Regroup<T>(a: seq<T>, b: seq<T>, h0: seq<T>, h1: seq<T>, h2: seq<T>, x: seq<T>, y: seq<T>)
    requires a + h1 == h0 + x && b + h2 == h1 + y
    ensures (a + b) + h2 == h0 + (x + y)
  {
    calc {
      (a + b) + h2;
      a + (b + h2);
      a + (h1 + y);
      (a + h1) + y;
      (h0 + x) + y;
    }
  }

  /** Putting two runs of bits is putting their concatenation. */
  lemma {:induction false} PutBitsAppend(w: Writer, a: seq<Bit>, b: seq<Bit>)
    requires w.count < 8
    ensures PutBitsF(w, a + b).0 == PutBitsF(PutBitsF(w, a).0, b).0
    ensures PutBitsF(w, a + b).1 == PutBitsF(w, a).1 + PutBitsF(PutBitsF(w, a).0, b).1
    decreases |a|
  {
    if |a| > 0 {
      assert (a + b)[0] == a[0] && (a + b)[1..] == a[1..] + b;
      PutBitsAppend(PutBitF(w, a[0]).0, a[1..], b);
    } else {
      assert a + b == b;
    }
  }

  /** put_bit. The writer must hold fewer than 8 bits, which every caller keeps. */
  method PutBit(bits: Bits, s: OutStream, bit: Bit)
    requires bits.count < 8
    modifies bits, s
    ensures Writer(bits.byte, bits.count) == PutBitF(old(Writer(bits.byte, bits.count)), bit).0
    ensures s.data == old(s.data) + Stuffed(PutBitF(old(Writer(bits.byte, bits.count)), bit).1)
  {
    bits.byte := ShiftIn(bits.byte, bit);
    bits.count := bits.count + 1;
    if bits.count == 8 {
      WriteEcsByte(s, bits.byte);
      assert Stuffed([bits.byte]) == Stuffed1(bits.byte);
      bits.count := 0;
    }
  }

  /** The byte flush_bits completes: the held bits followed by 1-bits. */
  function FlushBitsF(w: Writer): (r: seq<byte>)
    requires w.count < 8
    ensures w.count == 0 ==> r == []
    ensures w.count > 0 ==> |r| == 1 && BytesBits(r) == HeldBits(w) + Ones(8 - w.count)
  {
    if w.count == 0 then []
    else
      var b := PadWithOnes(w.byte, w.count);
      assert BytesBits([b]) == ByteBits(b);
      [b]
  }

  function Ones(n: nat): (r: seq<Bit>)
    ensures |r| == n && forall i | 0 <= i < n :: r[i] == 1
  {
    seq(n, _ => 1)
  }

  /** The padding loop of flush_bits on a value: shift in 1-bits until 8 bits are held. */
  function PadWithOnes(b: byte, count: nat): (r: byte)
    requires 0 < count <= 8
    ensures ByteBits(r) == LowBits(b, count) + Ones(8 - count)
    decreases 8 - count
  {
    if count == 8 then b
    else
      LowBitsShiftIn(b, count, 1);
      var r := PadWithOnes(ShiftIn(b, 1), count + 1);
      assert Ones(8 - count) == [1] + Ones(8 - (count + 1));
      r
  }

  /** flush_bits: nothing when no bit is held; otherwise the held bits are padded with 1-bits to a
      byte, which is written, and the count restarts at 0. */
  method FlushBits(bits: Bits, s: OutStream)
    requires bits.count < 8
    modifies bits, s
    ensures bits.count == 0
    ensures s.data == old(s.data) + Stuffed(FlushBitsF(old(Writer(bits.byte, bits.count))))
  {
    if bits.count == 0 {
      assert Stuffed([]) == [];
      assert s.data + [] == s.data;
      return;
    }
    ghost var w := Writer(bits.byte, bits.count);
    while bits.count < 8
      invariant 0 < bits.count <= 8
      invariant PadWithOnes(bits.byte, bits.count) == PadWithOnes(w.byte, w.count)
      invariant s.data == old(s.data)
      decreases 8 - bits.count
    {
      bits.byte := ShiftIn(bits.byte, 1);
      bits.count := bits.count + 1;
    }
    assert bits.byte == PadWithOnes(w.byte, w.count);
    assert FlushBitsF(w) == [bits.byte];
    WriteEcsByte(s, bits.byte);
    assert Stuffed([bits.byte]) == Stuffed1(bits.byte);
    bits.count := 0;
  }

  /** The padding flush_bits adds after bits put from an empty writer. */
  function Padding(bs: seq<Bit>): nat {
    var w := PutBitsF(Writer(0, 0), bs).0;
    if w.count == 0 then 0 else 8 - w.count
  }

  /** The bytes put_bit and flush_bits hand to write_ecs_byte for a run of bits from an empty
      writer. */
  function WrittenBytes(bs: seq<Bit>): seq<byte> {
    var w := PutBitsF(Writer(0, 0), bs);
    w.1 + FlushBitsF(w.0)
  }

  /** The bytes written for a run of bits carry those bits, then the 1-bits of the padding. */
  lemma {:induction false} WrittenBytesBits(bs: seq<Bit>)
    ensures BytesBits(WrittenBytes(bs)) == bs + Ones(Padding(bs))
  {
    var w := PutBitsF(Writer(0, 0), bs);
    PutBitsKeepsBits(Writer(0, 0), bs);
    var sent, held, flushed := BytesBits(w.1), HeldBits(w.0), FlushBitsF(w.0);
    assert HeldBits(Writer(0, 0)) == [];
    assert sent + held == bs;
    BytesBitsAppend(w.1, flushed);
    assert BytesBits(WrittenBytes(bs)) == sent + BytesBits(flushed);
    if w.0.count == 0 {
      assert held == [] && flushed == [] && Padding(bs) == 0;
      assert BytesBits(flushed) == [] && Ones(0) == [];
      assert sent + [] == sent && bs + [] == bs && sent + [] == bs;
    } else {
      var k := 8 - w.0.count;
      assert BytesBits(flushed) == held + Ones(k) && Padding(bs) == k;
      assert sent + (held + Ones(k)) == (sent + held) + Ones(k);
    }
  }

  /** The bit channel: bits put from an empty writer and flushed, stuffed into the file and
      followed by a marker, are delivered by a reader starting there in the same order, followed
      only by the 1-bits of the padding; the reader then stops at the marker. */
  lemma {:induction false} BitsRoundTrip(bs: seq<Bit>, rest: seq<byte>)
    requires |rest| >= 2 && rest[0] == 0xFF && rest[1] != 0x00
    ensures var e := EntropyCoded(Stuffed(WrittenBytes(bs)) + rest);
            && BytesBits(e.bytes) == bs + Ones(Padding(bs))
            && e.stop == FailureNoMoreData && e.used == |Stuffed(WrittenBytes(bs))|
  {
    UnstuffStuffed(WrittenBytes(bs), rest);
    assert EntropyCoded(rest) == Ecs([], FailureNoMoreData, 0);
    assert WrittenBytes(bs) + [] == WrittenBytes(bs);
    WrittenBytesBits(bs);
  }
}
