/// GPU texture formats and their size lookups (GPU/Common/Format.cs).
module GpuFormat {

  datatype Format = BGRA8 | RGBA8 | RGBX8 | RGB8 | R8 | RGBA16 | RGBX16 | RGB16 | R16

  /** Channels stored per pixel, read off the layout name (X counts as a stored padding channel). */
  function Channels(f: Format): (n: int)
    ensures n == 1 || n == 3 || n == 4
  {
    match f
    case BGRA8 | RGBA8 | RGBX8 | RGBA16 | RGBX16 => 4
    case RGB8 | RGB16 => 3
    case R8 | R16 => 1
  }

  /** True for the formats whose name ends in 16. */
  predicate IsWide(f: Format) {
    f.RGBA16? || f.RGBX16? || f.RGB16? || f.R16?
  }

  /** Bits per channel: 8 for the five 8-bit formats, 16 for the four 16-bit ones. */
  function ComponentBitDepth(f: Format): (bits: int)
    ensures bits == 8 || bits == 16
    ensures bits == 16 <==> IsWide(f)
  {
    match f
    case BGRA8 | RGBA8 | RGBX8 | R8 | RGB8 => 8
    case RGBA16 | RGBX16 | R16 | RGB16 => 16
  }

  /** Bytes per pixel. */
  function SizeBytes(f: Format): (bytes: int)
    ensures bytes * 8 == Channels(f) * ComponentBitDepth(f)
  {
    match f
    case BGRA8 | RGBA8 | RGBX8 => 4
    case RGB8 => 3
    case RGBA16 | RGBX16 => 8
    case R8 => 1
    case R16 => 2
    case RGB16 => 6
  }

  /** Bits per pixel, defined through SizeBytes. */
  function SizeBits(f: Format): (bits: int)
    ensures bits == Channels(f) * ComponentBitDepth(f)
  {
    SizeBytes(f) * 8
  }

  /** Dividing the pixel size by the channel depth gives the channel count, which is 1, 3 or 4. */
  lemma {:induction false} ChannelCountFromSizes(f: Format)
    ensures SizeBits(f) / ComponentBitDepth(f) == Channels(f)
    ensures SizeBits(f) / ComponentBitDepth(f) in {1, 3, 4}
  {
    var d := ComponentBitDepth(f);
    assert SizeBits(f) == Channels(f) * d;
  }
}
