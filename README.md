# Verified model of the player's decoding cores

This project models, in Dafny, the computational cores of a video and image-sequence player.

- **The baseline JPEG codec** (`Decoders/JPEG`) follows ITU-T T.81. Its parts are:
  - byte and bit streams with marker stuffing (`io.c`);
  - the Huffman table conversion of Annex C (`huffman.c`);
  - the adaptive table construction of Annex K.2, whose code sizes are limited to 16 bits;
  - the coding of DC differences and AC run/size symbols (`coeffs.c`);
  - the decoder's segment parsers, its MCU and scan readers and its marker loop (`decoder.c`);
  - the encoder's segment writers, its MCU writers and its dry runs (`encoder.c`);
  - dequantisation and the raster/block conversions (`imgproc.c`);
  - the frame buffer and the PNM reader (`frame.c`);
  - context initialisation and buffer sizing (`common.c`, `common.h`).
- **The DNG unpackers** (`Decoders/Unpack/Unpack.cpp`) turn 12-bit and 14-bit packed samples into 16-bit ones.
- **The player's small C# cores**:
  - SMPTE and minute/second/frame timecodes, with drop-frame counting;
  - 32-bit rationals;
  - CinemaDNG frame naming and numbering;
  - path shortening for the title bar;
  - the recent-files list;
  - vertex layouts, texture formats, orientations and illuminants.

Each source file is one module. `jpeg_mcu.dfy` and `jpeg_scan.dfy` hold the pure specification of MCU reading and writing that the decoder's methods are proved against.

Code that works by changing state keeps its imperative form:
- contexts, components, tables, streams and the bit reader/writer are classes;
- the buffers are arrays;
- every loop is a method with invariants.

Each such method is proved against a pure function of the bytes it reads. The lemmas are about those functions. The main results are round trips:
- a coefficient, a block, an MCU and a whole scan written by the encoder read back through the decoder to the same coefficients;
- the DQT, SOF0, DHT and SOS segments the encoder produces parse back to what was written;
- Huffman tables built from symbol counts give every counted symbol a code of at most 16 bits, and are canonical, so that decoding inverts encoding;
- 12-bit and 14-bit packed DNG samples unpack and pack back to the same bytes.

A block that lies past the end of a component's block grid is handled as the code handles it: read_block reads the block's DC coefficient and then returns "no more data" (coeffs.c:211-218), and read_ecs ends the scan there with success (decoder.c:376-382).

Integer widths are written out where the source relies on them:
- C# `long`/`ulong` arithmetic in the timecodes;
- `uint` shifts in the SMPTE record;
- `uint16_t` and `int32_t` fields in the codec;
- truncating division.

## Model

| member | source | states |
|---|---|---|
| Rational.Rational.Transpose | Core/Maths/Rational.cs:19-26 | the reciprocal swaps numerator and denominator, so for a nonzero numerator it is zero exactly when the value is infinite, and for a nonzero denominator the value is zero exactly when the reciprocal is infinite |
| Rational.Rational.Equals | Core/Maths/Rational.cs:39-42 | equality holds exactly when both components are equal, i.e. when the two values are the same fraction as written |
| Rational.TransposeInvolution | Core/Maths/Rational.cs:19-26 | transposing twice gives the original; for a nonzero numerator the transpose is zero exactly when the value is infinite, and for a nonzero denominator the value is zero exactly when its transpose is infinite |
| Rational.OperatorsAgree | Core/Maths/Rational.cs:39-51 | `==` agrees with `Equals` and with componentwise equality and is symmetric; `!=` is its exact negation |
| Rational.NoReduction | Core/Maths/Rational.cs:19-42 | 1/2 and 2/4 compare unequal; 0/0 is zero and not infinite; 5/0 is infinite and not zero |
| Illuminant.Illuminant.Code | Core/Maths/Color/Illuminant.cs:7-31 | every declared code fits the one-byte EXIF LightSource tag |
| Illuminant.FromCode | Core/Maths/Color/Illuminant.cs:7-31 | a code names an illuminant exactly when the enum declares it (0-4, 9-24, 255), and the illuminant found has that code |
| Illuminant.ColorTemperature | Core/Maths/Color/Illuminant.cs:36-74 | the argument is the illuminant's code, since the DNG reader casts any 16-bit tag value into the enum; the source throws (None) exactly for codes outside 1-4 and 9-24, that is Unknown, Other and every undeclared code; every other result lies in [2850, 7500], and every fluorescent kind in [2925, 6400] |
| Illuminant.NamedTemperatures | Core/Maths/Color/Illuminant.cs:40-70 | the tungsten lights give 2850 and 3200, the D series 5000, 5500, 6500 and 7500, and the five fluorescent lamps the midpoints 6400, 5050, 4150, 3525 and 2925 of their ranges |
| Illuminant.CodesDistinct | Core/Maths/Color/Illuminant.cs:7-31 | no two illuminants share a code |
| Illuminant.CodeRoundTrip | Core/Maths/Color/Illuminant.cs:7-31 | every declared illuminant is found again from its code |
| Illuminant.UndeclaredCodesThrow | Core/Maths/Color/Illuminant.cs:71-72 | the 16-bit codes 5-8, 25-254 and 256-65535 name no declared illuminant and reach the throwing default branch |
| GpuFormat.Channels | GPU/Common/Format.cs:3-14 | every format stores 1, 3 or 4 channels |
| GpuFormat.ComponentBitDepth | GPU/Common/Format.cs:18-36 | the depth is 8 or 16 bits, and 16 exactly for the four formats whose name ends in 16 |
| GpuFormat.SizeBytes | GPU/Common/Format.cs:43-65 | the byte size times 8 is the channel count times the channel depth |
| GpuFormat.SizeBits | GPU/Common/Format.cs:38-41 | the bit size is the channel count times the channel depth |
| GpuFormat.ChannelCountFromSizes | GPU/Common/Format.cs:18-65 | the bit size divided by the channel depth is the channel count, one of 1, 3 and 4 |
| GpuOrientation.IsTransposed | GPU/Common/Orientation.cs:17-29 | an orientation is transposed exactly when its first row lies on the left or right side |
| GpuOrientation.ExactlyFourTransposed | GPU/Common/Orientation.cs:3-29 | the eight orientations are listed once each and exactly four of them are transposed |
| GpuVertexFormat.VertexFormatParameterEntry.ComponentCount | GPU/Common/Render/VertexFormat.cs:25-38 | both parameter kinds have two components |
| GpuVertexFormat.VertexFormatParameterEntry.IsNormalised | GPU/Common/Render/VertexFormat.cs:40-53 | neither parameter kind is normalised |
| GpuVertexFormat.ParameterSizeBytes | GPU/Common/Render/VertexFormat.cs:66-76 | a parameter's size is four bytes per component |
| GpuVertexFormat.VertexFormat.constructor | GPU/Common/Render/VertexFormat.cs:61-64 | a new layout has no parameters and a vertex size of 0 |
| GpuVertexFormat.VertexFormat.AddParameter | GPU/Common/Render/VertexFormat.cs:78-86 | appends exactly one entry whose offset is the previous vertex size, and the size grows by 8 modulo 2^32; every entry i keeps offset 8i and the size stays 8 times the count (modulo 2^32) |
| GpuVertexFormat.VertexFormat.Clear | GPU/Common/Render/VertexFormat.cs:88-92 | the parameter list is empty and the vertex size is 0 |
| SmpteTimeCode.SmpteTimeCode.FrameUnits | Core/IO/SMPTETimeCode.cs:15-42 | the generic section read at offset 0, width 4 is bits 0-3 of the low word |
| SmpteTimeCode.SmpteTimeCode.FrameTens | Core/IO/SMPTETimeCode.cs:16-42 | the section at offset 4, width 2 is bits 4-5 of the low word |
| SmpteTimeCode.SmpteTimeCode.DropFlag | Core/IO/SMPTETimeCode.cs:17-42 | the flag is set exactly when bit 6 of the low word is 1 |
| SmpteTimeCode.SmpteTimeCode.SecondUnits | Core/IO/SMPTETimeCode.cs:20-42 | the section at offset 8, width 4 is bits 8-11 of the low word |
| SmpteTimeCode.SmpteTimeCode.SecondTens | Core/IO/SMPTETimeCode.cs:21-42 | the section at offset 12, width 3 is bits 12-14 of the low word |
| SmpteTimeCode.SmpteTimeCode.Flag1 | Core/IO/SMPTETimeCode.cs:22-42 | the flag is bit 15 of the low word |
| SmpteTimeCode.SmpteTimeCode.MinuteUnits | Core/IO/SMPTETimeCode.cs:25-42 | the section at offset 16, width 4 is bits 16-19 of the low word |
| SmpteTimeCode.SmpteTimeCode.MinuteTens | Core/IO/SMPTETimeCode.cs:26-42 | the section at offset 20, width 3 is bits 20-22 of the low word |
| SmpteTimeCode.SmpteTimeCode.Flag2 | Core/IO/SMPTETimeCode.cs:27-42 | the flag is bit 23 of the low word |
| SmpteTimeCode.SmpteTimeCode.HourUnits | Core/IO/SMPTETimeCode.cs:30-42 | the section at offset 24, width 4 is bits 24-27 of the low word |
| SmpteTimeCode.SmpteTimeCode.HourTens | Core/IO/SMPTETimeCode.cs:31-42 | the section at offset 28, width 2 is bits 28-29 of the low word |
| SmpteTimeCode.SmpteTimeCode.Flag3 | Core/IO/SMPTETimeCode.cs:32-42 | the flag is bit 30 of the low word |
| SmpteTimeCode.SmpteTimeCode.Flag4 | Core/IO/SMPTETimeCode.cs:33-42 | the flag is bit 31 of the low word |
| SmpteTimeCode.SmpteTimeCode.Hours | Core/IO/SMPTETimeCode.cs:46 | tens times 10 plus units is below 100 |
| SmpteTimeCode.SmpteTimeCode.Minutes | Core/IO/SMPTETimeCode.cs:47 | tens times 10 plus units is below 100 |
| SmpteTimeCode.SmpteTimeCode.Seconds | Core/IO/SMPTETimeCode.cs:48 | tens times 10 plus units is below 100 |
| SmpteTimeCode.SmpteTimeCode.Frames | Core/IO/SMPTETimeCode.cs:49 | tens times 10 plus units is below 100 |
| SmpteTimeCode.SmpteTimeCode.ToString | Core/IO/SMPTETimeCode.cs:44-53 | 11 characters: four two-digit fields that read back as hours, minutes, seconds and frames, separated by ':' except a ';' before the frames when the drop flag is set |
| SmpteTimeCode.AccessorsReadFields | Core/IO/SMPTETimeCode.cs:15-42 | each of the thirteen accessors, a flag read as 0 or 1, is the low word's bits under the mask of its entry in the range table, shifted down by the entry's offset |
| SmpteTimeCode.FieldsDisjointInLowWord | Core/IO/SMPTETimeCode.cs:15-33 | every range of the table is non-empty and lies inside the low word, and no two ranges' masks share a bit |
| SmpteTimeCode.AccessorIndependent | Core/IO/SMPTETimeCode.cs:15-42 | two records whose low words agree on the bits of accessor k's range give the same value for accessor k, whatever the other bits and the high words hold |
| SmpteTimeCode.FieldBounds | Core/IO/SMPTETimeCode.cs:15-31 | frame units are at most 15, frame tens 3, second and minute tens 7, hour tens 3 |
| SmpteTimeCode.HighWordUnused | Core/IO/SMPTETimeCode.cs:15-33 | no accessor's value depends on the high word |
| TimeCode.TruncatedDivision | Core/Maths/TimeCode.cs:73-81 | C#'s long `/` and `%` (truncating toward zero) recombine to the dividend, and the remainder takes the dividend's sign |
| TimeCode.RoundHalfEvenNearest | Core/Maths/TimeCode.cs:78 | `Math.Round` of the rate lands within half a unit of n/d, and a tie goes to the even neighbour |
| TimeCode.TimeCode.Reset | Core/Maths/TimeCode.cs:95-100 | afterwards frame, second and minute are all 0 |
| TimeCode.TimeCode.ToString | Core/Maths/TimeCode.cs:102-110 | the text is minute, second and frame as three `:`-separated digit strings, each of max(2, digit count) characters and reading back as its field (eight characters `MM:SS:FF` when all fields are below 100); the drop-frame flag changes nothing |
| TimeCode.FromFramesAtIntegerRate | Core/Maths/TimeCode.cs:14-25 | the fields fit ushort/ushort/uint, and a zero rate leaves all three 0 |
| TimeCode.FromSmpte | Core/Maths/TimeCode.cs:27-34 | frame, second and minute are the SMPTE code's tens·10 + units values; the hours are dropped |
| TimeCode.DropFrameSplit | Core/Maths/TimeCode.cs:73-81 | the drop-frame split yields fields that fit ushort/ushort/uint whatever the count |
| TimeCode.Renumbered | Core/Maths/TimeCode.cs:73-76 | the renumbered count, computed in long arithmetic and converted back, is again a ulong |
| TimeCode.SplitAtRate | Core/Maths/TimeCode.cs:78-81 | the frame/second/minute split at the integer rate fits the fields' widths |
| TimeCode.DropFrameNumber | Core/Maths/TimeCode.cs:125-141 | the drop-frame formula, with its uint wrap-around, yields a ulong |
| TimeCode.FromFrames | Core/Maths/TimeCode.cs:36-93 | a zero or infinite rate gives 00:00:00; drop-frame at a rate other than 30000/1001 or 60000/1001 gives 00:00:00; a division by zero happens only when the rate rounds to 0 with drop-frame off; every built timecode fits its fields |
| TimeCode.TotalFrames | Core/Maths/TimeCode.cs:112-148 | the count is a ulong, and a zero or infinite rate gives 0 |
| TimeCode.NtscRatesRound | Core/Maths/TimeCode.cs:78-87 | 30000/1001 rounds to 30 and 60000/1001 to 60 |
| TimeCode.IntegerRateSplits | Core/Maths/TimeCode.cs:14-25 | at a positive rate up to 65536, with a minute count that fits a uint, frame < rate, second < 60 and (minute·60 + second)·rate + frame is the count |
| TimeCode.NonDropIsIntegerSplit | Core/Maths/TimeCode.cs:84-92 | with drop-frame off, the rational-rate constructor equals the integer-rate constructor at the rounded rate |
| TimeCode.NonDropTotal | Core/Maths/TimeCode.cs:146-147 | with drop-frame off, TotalFrames is frame + second·rate + minute·60·rate at the rounded rate |
| TimeCode.NonDropRoundTrip | Core/Maths/TimeCode.cs:84-147 | non-drop round trip: TotalFrames of the timecode built from n is n, whenever the rounded rate is positive and no field is truncated |
| TimeCode.DropRoundTrip2997 | Core/Maths/TimeCode.cs:43-130 | at 30000/1001 with the default drop-frame choice, TotalFrames of the timecode built from n is n for every n below 4·10^9 |
| TimeCode.DropRoundTrip5994 | Core/Maths/TimeCode.cs:43-140 | at 60000/1001 with the default drop-frame choice, TotalFrames of the timecode built from n is n for every n below 4·10^9 |
| TimeCode.MinuteInBlock | Core/Maths/TimeCode.cs:74-76 | inside a ten-minute block the computed (M − dropFrames)/(framesPer10Minutes/10) is the minute q (0..9) in which position M falls once the skipped numbers are added back |
| TimeCode.RenumberedValue | Core/Maths/TimeCode.cs:73-76 | for counts below 2^32 the renumbering adds exactly 9·df·D + df·q, with no wrap-around |
| TimeCode.Renumber2997 | Core/Maths/TimeCode.cs:73-81 | at 29.97 fps the renumbered count stays below 2^32, its minute is 10·D + q, and the split is the plain division of the renumbered count |
| TimeCode.Renumber5994 | Core/Maths/TimeCode.cs:73-81 | at 59.94 fps the renumbered count stays below 2^32, its minute is 10·D + q, and the split is the plain division of the renumbered count |
| TimeCode.DropSplitRoundTrip2997 | Core/Maths/TimeCode.cs:73-130 | the 29.97 drop-frame formula applied to the drop-frame split of n gives n back |
| TimeCode.DropSplitRoundTrip5994 | Core/Maths/TimeCode.cs:73-140 | the 59.94 drop-frame formula applied to the drop-frame split of n gives n back |
| TimeCode.DropNumberOf | Core/Maths/TimeCode.cs:125-140 | in minute 10·d + q the drop-frame formula's uint products do not wrap, and it equals frame + rate·second + perMinute·minute − df·(9d + q) |
| DecimalText.ZeroPad | Core/Clip/ClipCinemaDNG.cs:94 | `ToString("D<width>")` gives only digits, exactly max(width, number of digits) of them |
| DecimalText.ParseZeroPad | Core/Clip/ClipCinemaDNG.cs:94-110 | `uint.TryParse` of a `ToString("D<width>")` rendering of a value below 2^32 succeeds and yields that value |
| DecimalText.ZeroPadValue | Core/Clip/ClipCinemaDNG.cs:94-110 | reading back a zero-padded rendering gives the number |
| DecimalText.TwoDigitPad | Core/Maths/TimeCode.cs:109 | `ToString("D2")` of a number below 100 is two characters reading back as the number |
| DecimalText.DigitsLength | Core/Clip/ClipCinemaDNG.cs:94 | a number below 10^k takes at most k digits, so `ToString("D<k>")` is exactly k characters |
| ClipCinemaDng.SequencingFieldUnique | Core/Clip/ClipCinemaDNG.cs:190-209 | a file name has at most one sequencing field (last digit run, preceded by a non-digit) |
| ClipCinemaDng.WriteField | Core/Clip/ClipCinemaDNG.cs:97-101 | the character-array overwrite throws exactly when a non-empty field runs past the end; otherwise the result keeps the length, the prefix and the suffix, and holds the field at its position |
| ClipCinemaDng.Clip.constructor | Core/Clip/ClipCinemaDNG.cs:46-51 | a new clip is not validated |
| ClipCinemaDng.Clip.Validate | Core/Clip/ClipCinemaDNG.cs:178-219 | a missing directory or an empty listing gives BadPath and changes nothing; otherwise the result is None exactly when the least name has a sequencing field, which is then recorded with the first and last frame names and makes the clip valid, and NoVideoStream exactly when the name has none, which clears valid and keeps the cached path, the frame names and the field position and length |
| ClipCinemaDng.Clip.GetFramePath | Core/Clip/ClipCinemaDNG.cs:84-104 | an unvalidated clip gives ClipNotValidated; otherwise the zero-padded frame number overwrites the cached path from the field position, throwing exactly when it runs past the end; a frame number that fits the field reads back through GetFrameNumber |
| ClipCinemaDng.Clip.GetFrameNumber | Core/Clip/ClipCinemaDNG.cs:106-111 | `Substring` throws exactly when the field runs past the path; otherwise the result is None with the field's value exactly when the field parses as a uint, else BadFrameIndex with 0 |
| ShortenPath.Split | UI/Common/PlayerApplication.cs:148 | `path.Split(sep)` yields at least one piece |
| ShortenPath.JoinSplit | UI/Common/PlayerApplication.cs:148 | the pieces joined back with the separator give the path, so splitting loses nothing |
| ShortenPath.Walk | UI/Common/PlayerApplication.cs:149-191 | the alternating loop never takes more pieces in total than the path has |
| ShortenPath.ShortenPath | UI/Common/PlayerApplication.cs:125-201 | the method's loop computes exactly the function `Shortened` (None where `Substring` throws) |
| ShortenPath.WalkKeeps | UI/Common/PlayerApplication.cs:149-191 | every step of the loop keeps its invariant: the parts are the pieces taken from the front and back with their separators, they stay within maxLength − 3, and the turns alternate apart from empty pieces |
| ShortenPath.AllPieces | UI/Common/PlayerApplication.cs:153-174 | all pieces taken from one side, each with a separator, are one character longer than the path |
| ShortenPath.WalkStops | UI/Common/PlayerApplication.cs:149-191 | on a path longer than maxLength the loop stops before either side has taken every piece |
| ShortenPath.WalkOnPath | UI/Common/PlayerApplication.cs:149-196 | where the loop stops, firstPart is a prefix of the path, and lastPart and the file name are suffixes of it |
| ShortenPath.PiecesOnPath | UI/Common/PlayerApplication.cs:153-196 | pieces from the front start the path; pieces from the back and the last piece end it |
| ShortenPath.ShortenedShape | UI/Common/PlayerApplication.cs:131-200 | a path longer than maxLength (> 3), when `Substring` does not throw, becomes a prefix of the path, "..." and a suffix of the path, at most maxLength long, and exactly maxLength long when the file name was cut; non-empty pieces are taken alternately from the front and the back |
| ShortenPath.ShortFileNameThrows | UI/Common/PlayerApplication.cs:193-197 | "aaaa/b" shortened to 5 throws: the start passed to `Substring` is −1 |
| ShortenPath.ShortenedFixedShape | UI/Common/PlayerApplication.cs:131-200 | the corrected shortening never throws and always yields a prefix of the path, "..." and a suffix of it, at most maxLength long |
| RecentFiles.RecentFileEntry.Touch | UI/Common/RecentFiles.cs:28-31 | the entry keeps its path and type; LastOpened becomes the given time, or the clock when none is given |
| RecentFiles.Insert | UI/Common/RecentFiles.cs:87 | inserting into a list sorted by LastOpened keeps it sorted and adds exactly the one entry |
| RecentFiles.SortByLastOpened | UI/Common/RecentFiles.cs:87 | the result is ascending by LastOpened and a permutation of the list |
| RecentFiles.IndexOfPath | UI/Common/RecentFiles.cs:48-57 | the index found holds the path and no earlier entry does; None exactly when no entry holds it |
| RecentFiles.Trimmed | UI/Common/RecentFiles.cs:85-90 | sort-and-trim keeps min(10, count) entries, sorted, drawn from the list, and none kept is newer than one removed |
| RecentFiles.SplitSorted | UI/Common/RecentFiles.cs:88-89 | `RemoveRange` after k entries of a sorted list removes exactly the tail, each entry of which is no older than any kept one |
| RecentFiles.TouchHasNoEffect | UI/Common/RecentFiles.cs:61-66 | opening an already listed clip changes no entry, since Touch runs on a copy; the list only loses entries to trimming |
| RecentFiles.NewPathAddsOne | UI/Common/RecentFiles.cs:64-66 | a new path adds exactly one entry stamped with the clock before the sort and trim; with fewer than 10 entries it stays |
| RecentFiles.NewestDroppedWhenFull | UI/Common/RecentFiles.cs:64-90 | with 10 older entries listed, the clip just opened is not on the list afterwards |
| RecentFiles.OpenedFixedKeepsClip | UI/Common/RecentFiles.cs:59-90 | with a clock that moves forward, the corrected list is bounded by 10, sorted, and holds the clip just opened, stamped with the time it was opened |
| RecentFiles.RecentFiles.constructor | UI/Common/RecentFiles.cs:41-46 | a new list is empty |
| RecentFiles.RecentFiles.FindEntry | UI/Common/RecentFiles.cs:48-57 | null exactly when no entry has the path; otherwise a listed entry with that path |
| RecentFiles.RecentFiles.Sort | UI/Common/RecentFiles.cs:85-90 | the new list is the old one sorted and trimmed (`Trimmed`) |
| RecentFiles.RecentFiles.OnClipOpened | UI/Common/RecentFiles.cs:59-67 | the new list is `Opened` of the old one: unchanged entries if the clip is listed, otherwise one new entry, then sort and trim |
| Unpack.Unpack12PairFields | Decoders/Unpack/Unpack.cpp:23-29 | both samples of a 3-byte group fit 12 bits, and the big-endian 24-bit group value is the first sample followed by the second |
| Unpack.Unpack12RoundTrip | Decoders/Unpack/Unpack.cpp:23-29 | unpacking a 3-byte group and packing its samples again gives the bytes back, and every pair of 12-bit samples is reached by unpacking its packed bytes |
| Unpack.Unpack12Example | Decoders/Unpack/Unpack.cpp:28-29 | the bytes AB CD EF unpack to the samples ABC and DEF |
| Unpack.Unpack12PairBounds | Decoders/Unpack/Unpack.cpp:28-29 | both samples of a 3-byte group are below 4096 |
| Unpack.Unpack14QuadBounds | Decoders/Unpack/Unpack.cpp:137-146 | all four samples of a 7-byte group are below 16384 |
| Unpack.Unpack14QuadFields | Decoders/Unpack/Unpack.cpp:128-146 | the big-endian 56-bit group value is the four 14-bit samples in output order, the first most significant |
| Unpack.Unpack14RoundTrip | Decoders/Unpack/Unpack.cpp:128-146 | unpacking a 7-byte group and packing its samples again gives the bytes back, and every four 14-bit samples are reached by unpacking their packed bytes |
| Unpack.Samples12 | Decoders/Unpack/Unpack.cpp:19-30 | a run of 3-byte groups yields two samples per group: sample j is sample j mod 2 of group j div 2 |
| Unpack.Samples14 | Decoders/Unpack/Unpack.cpp:124-147 | a run of 7-byte groups yields four samples per group: sample j is sample j mod 4 of group j div 4 |
| Unpack.Samples12Bounds | Decoders/Unpack/Unpack.cpp:19-30 | every unpacked 12-bit sample is below 4096 |
| Unpack.Samples14Bounds | Decoders/Unpack/Unpack.cpp:124-147 | every unpacked 14-bit sample is below 16384 |
| Unpack.PackUnpacked12 | Decoders/Unpack/Unpack.cpp:19-30 | packing the samples of a run of groups gives the run back, so no input bit is lost |
| Unpack.UnpackPacked12 | Decoders/Unpack/Unpack.cpp:19-30 | every even-length sequence of 12-bit samples comes back from unpacking its packed bytes |
| Unpack.Unpack12to16Bit | Decoders/Unpack/Unpack.cpp:11-31 | the output from the offset on holds exactly the samples of the sizeBytes input bytes after the input offset; every other output word is unchanged |
| Unpack.StoreQuad | Decoders/Unpack/Unpack.cpp:137-146 | the four stores of one group land at q..q+3 in order, and nothing else changes |
| Unpack.Unpack14to16Bit | Decoders/Unpack/Unpack.cpp:118-148 | the output from the offset on holds exactly the samples of the first sizeBytes input bytes; every other output word is unchanged |
| JpegCommon.StatusCode | Decoders/JPEG/common.h:15-31 | RET_SUCCESS is the only code 0; every failure code lies in 0x1000..0x4000; the −1 of the table lookups is the only negative one |
| JpegCommon.StatusCodeInjective | Decoders/JPEG/common.h:15-50 | no two return codes share a value, so RETURN_IF hands any failure up unchanged |
| JpegCommon.ZigzagInverse | Decoders/JPEG/common.h:34-43 | every zig-zag entry is a raster index below 64, and the inverse table maps it back to its zig-zag position |
| JpegCommon.ZigzagPositionInverse | Decoders/JPEG/common.h:34-43 | the inverse table maps every raster index to the zig-zag position that holds it |
| JpegCommon.ZigzagPermutation | Decoders/JPEG/common.h:34-43 | the zig-zag table lists each of 0..63 exactly once |
| JpegCommon.ZigzagEnds | Decoders/JPEG/common.h:35-42 | zigzag[0] = 0 and zigzag[63] = 63 |
| JpegCommon.ZigzagNeighbours | Decoders/JPEG/common.h:34-43 | consecutive zig-zag entries are neighbours on the 8×8 grid: row and column each change by at most 1 |
| JpegCommon.CeilDivBounds | Decoders/JPEG/common.c:111-114 | ceil_div(n, d)·d covers n and falls short of n + d, so it is ⌈n/d⌉; it is 0 exactly when n is 0 |
| JpegCommon.Clamp | Decoders/JPEG/common.c:197-208 | below min gives min, above max gives max, and a value in range is returned unchanged |
| JpegCommon.QTable.Init | Decoders/JPEG/common.c:10-21 | Pq becomes 0 and all 64 quantisers 1 |
| JpegCommon.Component.constructor | Decoders/JPEG/common.c:23-44 | a new component has no sampling, table 0, an empty grid and no buffers |
| JpegCommon.Component.Init | Decoders/JPEG/common.c:23-44 | H, V, Tq, Td, Ta, b_x and b_y become 0 and all three buffers null |
| JpegCommon.Component.AllocBuffers | Decoders/JPEG/common.c:116-144 | three new buffers of 64·size entries replace the old ones, the coefficient buffer is zeroed, and the other fields are unchanged |
| JpegCommon.HTable.Init | Decoders/JPEG/common.c:46-61 | all 16 counts and all 16×255 values become 0 |
| JpegCommon.HuffEnc.Init | Decoders/JPEG/common.c:210-225 | freq[0..255] = 0 and freq[256] = 1; every code size is 0 and every chain link −1 |
| JpegIo.InStream.constructor | Decoders/JPEG/io.c:89-96 | a stream over the file's bytes, positioned at the start |
| JpegIo.ReadByte | Decoders/JPEG/io.c:89-96 | with a byte left: Success, that byte, and the position one further; at the end of the file: FailureFileIo and the position unchanged |
| JpegIo.WriteByte | Decoders/JPEG/io.c:98-105 | the byte is appended to the output |
| JpegIo.WordRoundTrip | Decoders/JPEG/io.c:107-133 | a 16-bit word written big-endian reads back as the word |
| JpegIo.BytesRoundTrip | Decoders/JPEG/io.c:107-133 | every two bytes are the big-endian bytes of the word read from them |
| JpegIo.ReadWord | Decoders/JPEG/io.c:107-122 | with two bytes left: Success, the big-endian word they form, and the position two further; with fewer: FailureFileIo |
| JpegIo.WriteWord | Decoders/JPEG/io.c:124-133 | the word's two big-endian bytes are appended |
| JpegIo.ByteNibbles | Decoders/JPEG/io.c:155-171 | both nibbles of a byte are below 16 |
| JpegIo.NibblesRoundTrip | Decoders/JPEG/io.c:155-182 | two values below 16 written with write_nibbles read back, high nibble first |
| JpegIo.ByteRoundTrip | Decoders/JPEG/io.c:155-182 | every byte is the nibble pair read from it, written back |
| JpegIo.ReadNibbles | Decoders/JPEG/io.c:155-171 | with a byte left: Success, its high and low nibble, and the position one further; at the end: FailureFileIo and the position unchanged |
| JpegIo.WriteNibbles | Decoders/JPEG/io.c:173-182 | one byte, first value in the high nibble, is appended |
| JpegIo.ReadMarker | Decoders/JPEG/io.c:186-220 | Success exactly when a marker (an FF, fill FFs, then a byte other than 00 and FF, FF 00 restarting the search) follows the position; the stream then stands just after the first such marker, and the code is 0xFF00 plus its last byte; otherwise FailureFileIo |
| JpegIo.NoMarkerLeft | Decoders/JPEG/io.c:186-220 | a search that reached the end of the file without a marker leaves no marker to find |
| JpegIo.WriteMarker | Decoders/JPEG/io.c:222-235 | 0xFF and the marker's low byte are appended |
| JpegIo.SkipSegment | Decoders/JPEG/io.c:237-245 | the position moves len − 2 bytes on (len counts its own two bytes); a seek before the start fails with FailureFileSeek and moves nothing |
| JpegIo.EntropyCoded | Decoders/JPEG/io.c:247-274 | reading entropy-coded bytes ends either at the end of the file (FailureFileIo) or at a marker (FailureNoMoreData), within the data |
| JpegIo.ReadEcsByte | Decoders/JPEG/io.c:247-274 | while entropy-coded bytes remain, Success and the next unstuffed byte (FF 00 read as FF); otherwise the stop status, with the stream rewound to the marker's FF |
| JpegIo.WriteEcsByte | Decoders/JPEG/io.c:277-290 | the byte is appended, followed by 0x00 exactly when it is 0xFF |
| JpegIo.StuffedAppend | Decoders/JPEG/io.c:277-290 | stuffing byte by byte: stuffing a concatenation concatenates the stuffings |
| JpegIo.UnstuffOne | Decoders/JPEG/io.c:247-290 | one stuffed byte reads back as that byte, and reading then goes on with what follows |
| JpegIo.UnstuffStuffed | Decoders/JPEG/io.c:247-290 | stuffed bytes read back as the original bytes, the reader going on with what follows them |
| JpegIo.StuffedHasNoMarker | Decoders/JPEG/io.c:277-290 | every 0xFF in stuffed output is followed by 0x00, so it never contains a marker |
| JpegIo.LowBitsInjective | Decoders/JPEG/io.c:43-63 | values below 2^n are told apart by their low n bits |
| JpegIo.ByteBitsShiftIn | Decoders/JPEG/io.c:51 | shifting a bit in at the bottom moves the other seven bits up by one place |
| JpegIo.Bits.Init | Decoders/JPEG/io.c:6-16 | an empty bit buffer: count 0 |
| JpegIo.TakeTopBit | Decoders/JPEG/io.c:34-38 | taking the top bit of the buffered byte and shifting it up leaves the other buffered bits in order |
| JpegIo.NextBit | Decoders/JPEG/io.c:18-41 | with bits pending, Success with the first pending bit, which is consumed; with none, the stop status of the entropy-coded data and the stream at the marker |
| JpegIo.Refill | Decoders/JPEG/io.c:22-31 | when count is 0, the next entropy-coded byte becomes 8 buffered bits and the pending bits are unchanged; at the end it fails with the stop status |
| JpegIo.PutBitF | Decoders/JPEG/io.c:43-63 | a put_bit holds fewer than 8 bits afterwards and emits at most one byte |
| JpegIo.PutBitKeepsBits | Decoders/JPEG/io.c:43-63 | after one put_bit the emitted bytes followed by the held bits are the bits held before and the new bit |
| JpegIo.PutBitsKeepsBits | Decoders/JPEG/io.c:43-63 | after a run of put_bit calls every bit put is in an emitted byte or still held, in order |
| JpegIo.PutBitsAppend | Decoders/JPEG/io.c:43-63 | putting two runs of bits is putting their concatenation |
| JpegIo.PutBit | Decoders/JPEG/io.c:43-63 | the bit buffer steps as `PutBitF` says, and a completed byte goes out through write_ecs_byte, stuffed |
| JpegIo.FlushBitsF | Decoders/JPEG/io.c:65-87 | nothing when no bit is held; otherwise one byte whose bits are the held bits followed by 1-bits |
| JpegIo.PadWithOnes | Decoders/JPEG/io.c:73-80 | the padding loop leaves the held bits in front and 1-bits after them |
| JpegIo.FlushBits | Decoders/JPEG/io.c:65-87 | count becomes 0 and the stuffed flush byte, if any, is appended |
| JpegIo.WrittenBytesBits | Decoders/JPEG/io.c:43-87 | the bytes written for a run of bits and a flush carry those bits, then only 1-bits of padding |
| JpegIo.BitsRoundTrip | Decoders/JPEG/io.c:18-290 | bits written with put_bit and flush_bits, followed by a marker, are read back by next_bit in the same order, followed only by the padding's 1-bits, and reading stops at the marker with FailureNoMoreData |
| JpegHuffman.BitsValueLowBits | Decoders/JPEG/huffman.c:20-42 | the value of the low n bits of v, read most significant first, is v mod 2^n |
| JpegHuffman.LowBitsBitsValue | Decoders/JPEG/huffman.c:20-42 | the low bits of BitsValue(bs), as many as bs holds, are bs itself |
| JpegHuffman.LowBitsPrefix | Decoders/JPEG/huffman.c:31-42 | the first n of the low s bits of v are the low n bits of v / 2^(s−n) |
| JpegHuffman.Vlc.constructor | Decoders/JPEG/huffman.c:10-18 | init_vlc: an empty code of size 0 |
| JpegHuffman.Vlc.AddBit | Decoders/JPEG/huffman.c:20-29 | the code is shifted left with the bit below it (16-bit wrap) and the size grows by one, so a vlc holding the bits read so far holds them and the new bit |
| JpegHuffman.Vlc.RemoveBit | Decoders/JPEG/huffman.c:31-42 | the bit returned is the top one of the size bits, and the size shrinks by one |
| JpegHuffman.SizesOfRange | Decoders/JPEG/huffman.c:45-77 | every listed code size lies between 1 and 16 |
| JpegHuffman.SizesOfSorted | Decoders/JPEG/huffman.c:45-77 | the size list is non-decreasing |
| JpegHuffman.SizesOfCounts | Decoders/JPEG/huffman.c:45-77 | length l is listed exactly L[l−1] times, and nothing else is listed |
| JpegHuffman.GenerateSizeTable | Decoders/JPEG/huffman.c:45-77 | last_k becomes ΣL, huff_size[..last_k] is the size list of the counts, and huff_size[last_k] is 0 |
| JpegHuffman.Shl | Decoders/JPEG/huffman.c:107 | a left shift of a 16-bit code stays a 16-bit value |
| JpegHuffman.CodeOfStep | Decoders/JPEG/huffman.c:92-111 | codes of consecutive entries: the next code is the previous one plus 1, shifted left once per unit the size grows |
| JpegHuffman.CodeKraft | Decoders/JPEG/huffman.c:80-115 | while the Kraft sum fits, code k scaled to 16 bits is the Kraft sum of the entries before it, and the code fits its size |
| JpegHuffman.KraftGap | Decoders/JPEG/huffman.c:80-115 | each entry adds 2^(16−size) to the Kraft sum |
| JpegHuffman.PrefixFree | Decoders/JPEG/huffman.c:80-115 | when the Kraft sum fits 2^16, no canonical code is a prefix of a later one |
| JpegHuffman.GenerateCodeTable | Decoders/JPEG/huffman.c:80-115 | huff_code[k] becomes the canonical code of entry k, for every k below last_k |
| JpegHuffman.AssignCodes | Decoders/JPEG/huffman.c:88-111 | the loop gives each entry below last_k its canonical code and leaves the rest of huff_code alone |
| JpegHuffman.Query | Decoders/JPEG/huffman.c:193-225 | the entry found is the first one whose size and code match; None when no visited entry matches |
| JpegHuffman.ValueIndex | Decoders/JPEG/huffman.c:228-253 | the entry found is the first one holding the value; None when no entry below last_k holds it |
| JpegHuffman.QueryCode | Decoders/JPEG/huffman.c:193-225 | Success with the value of the first matching entry; −1 (NotFound) when none matches |
| JpegHuffman.ValueToVlc | Decoders/JPEG/huffman.c:228-253 | Success with the size and code of the first entry holding the value; otherwise −1 and the vlc unchanged |
| JpegHuffman.LastWith | Decoders/JPEG/huffman.c:132-138 | the last entry below n that holds the value, or None when none does |
| JpegHuffman.OrderCodes | Decoders/JPEG/huffman.c:118-148 | e_huf_co[v] and e_huf_si[v] become the code and size of the last entry holding v; values that no entry holds keep their old code and size |
| JpegHuffman.OrderCodesDistinct | Decoders/JPEG/huffman.c:118-148 | with distinct values, each value's entry is the one order_codes picks |
| JpegHuffman.HtValues | Decoders/JPEG/huffman.c:157-166 | the unrolled value list has ΣL entries |
| JpegHuffman.ConvHtableToHcode | Decoders/JPEG/huffman.c:150-178 | the hcode becomes the canonical table of the counts and values: values unrolled row by row, sizes from the counts, canonical codes; and the encoder lookup is set as order_codes says |
| JpegHuffman.BuildSizes | Decoders/JPEG/huffman.c:157-169 | the unrolled values and the size list are stored, and last_k is ΣL |
| JpegHuffman.UnrollValues | Decoders/JPEG/huffman.c:157-166 | huff_val holds V[i][0..L[i]−1] for i = 0..15, in order |
| JpegHuffman.Decode | Decoders/JPEG/huffman.c:255-271 | a decoded value consumes between 1 and all of the pending bits and is a byte when the table holds bytes |
| JpegHuffman.DecodeFirstMatch | Decoders/JPEG/huffman.c:255-271 | decoding stops at the shortest prefix of the bits that query_code finds, and yields its value; None when no prefix matches |
| JpegHuffman.DecodeAt | Decoders/JPEG/huffman.c:255-271 | when no shorter prefix matches and the n-bit prefix does, decoding consumes n bits and yields that entry's value |
| JpegHuffman.ReadCode | Decoders/JPEG/huffman.c:255-271 | read_code consumes exactly the bits `Decode` consumes and returns its value; when no code matches before the bits run out it returns the stop status |
| JpegHuffman.ReadBitIntoVlc | Decoders/JPEG/huffman.c:262-268 | one next_bit + vlc_add_bit step: the vlc then holds one more of the pending bits |
| JpegHuffman.WriteCode | Decoders/JPEG/huffman.c:274-292 | a value not in the table gives −1 and writes nothing; otherwise the size bits of its code go out most significant first through put_bit |
| JpegHuffman.SendCodeWord | Decoders/JPEG/huffman.c:283-289 | the loop puts the vlc's size bits, most significant first, and leaves size 0 |
| JpegHuffman.ReadExtraBits | Decoders/JPEG/huffman.c:294-312 | with count bits pending, their value (most significant first, 16-bit) is returned and they are consumed; otherwise the stop status |
| JpegHuffman.WriteExtraBits | Decoders/JPEG/huffman.c:314-325 | the low count bits of the value go out most significant first |
| JpegHuffman.ExtraBitsRoundTrip | Decoders/JPEG/huffman.c:294-325 | the extra bits written for a value read back as the value mod 2^count, so as the value itself when it fits |
| JpegHuffman.NoShorterMatch | Decoders/JPEG/huffman.c:193-225 | in a canonical table no shorter prefix of a code matches any entry |
| JpegHuffman.ExactMatch | Decoders/JPEG/huffman.c:193-225 | in a canonical table a code and its size find exactly its own entry |
| JpegHuffman.EntryRoundTrip | Decoders/JPEG/huffman.c:255-292 | the code bits of entry k, followed by anything, decode to entry k's value, consuming exactly its size |
| JpegHuffman.CodeRoundTrip | Decoders/JPEG/huffman.c:255-292 | write_code then read_code: the code written for a value decodes back to the value, whatever follows |
| JpegHuffmanAdapt.IsLeastUnique | Decoders/JPEG/huffman.c:327-347 | at most one entry has the least non-zero frequency with the largest index among ties, so the selection the searches make is determined |
| JpegHuffmanAdapt.LeastScan | Decoders/JPEG/huffman.c:335-342 | the scan over the 257 frequencies returns -1 exactly when no entry other than the skipped one has a non-zero frequency, and otherwise the least such frequency, the last index among equal ones |
| JpegHuffmanAdapt.FindLeast | Decoders/JPEG/huffman.c:330-347 | when some frequency is non-zero, V1 is the entry of least non-zero frequency, the largest index among ties |
| JpegHuffmanAdapt.FindNextLeast | Decoders/JPEG/huffman.c:349-364 | V2 is -1 exactly when no entry other than V1 has a non-zero frequency, and otherwise the least such entry, the largest index among ties |
| JpegHuffmanAdapt.MergeFreqFacts | Decoders/JPEG/huffman.c:382-383 | merging FREQ(V2) into FREQ(V1) keeps the total frequency and leaves one entry fewer with a non-zero frequency |
| JpegHuffmanAdapt.JoinChains | Decoders/JPEG/huffman.c:382-405 | one merge adds V2's frequency to V1 and zeroes V2, links the tail of V1's chain to V2, and gives every member of both chains one more bit |
| JpegHuffmanAdapt.MergeStep | Decoders/JPEG/huffman.c:374-406 | a merge of two live entries keeps the Code_size invariant (chains partition the values, each chain's weight 2^-size sums to the whole code space) and removes one live entry, so the loop terminates |
| JpegHuffmanAdapt.CodeSizeDone | Decoders/JPEG/huffman.c:378-380 | when only one live entry is left, the code sizes are complete: only values that occurred have a size and their sizes satisfy the Kraft equality exactly |
| JpegHuffmanAdapt.CodeSize | Decoders/JPEG/huffman.c:366-411 | Code_size keeps the total frequency, ends with a single live entry, and leaves every value that occurred a code size so that the sizes fill the code space exactly and no other value has one |
| JpegHuffmanAdapt.TallySizes | Decoders/JPEG/huffman.c:454-468 | the tally succeeds exactly when every code size is below 33 (the C assert) and then BITS(l) is the number of values of size l, with the same total and code space as the sizes |
| JpegHuffmanAdapt.FoldLower | Decoders/JPEG/huffman.c:423-426 | while a count above 16 bits is non-zero and the code space is full, a shorter non-zero count exists at least two lengths below, so the search for j ends inside the table |
| JpegHuffmanAdapt.FoldOnce | Decoders/JPEG/huffman.c:422-431 | one fold removes two codes of length i and keeps the number of codes and the exact fill of the code space |
| JpegHuffmanAdapt.AdjustBits | Decoders/JPEG/huffman.c:413-444 | from a complete count of codes, Adjust_BITS leaves no code longer than 16 bits, every count below 256, one code fewer than counted, and code space left free |
| JpegHuffmanAdapt.FinalSearch | Decoders/JPEG/huffman.c:437-439 | the search for the longest used length starting at 16 never goes above its start |
| JpegHuffmanAdapt.NoCodesReadsBefore | Decoders/JPEG/huffman.c:437-439 | with all counts zero the search runs past BITS(0) and reaches index -1, before the start of the array |
| JpegHuffmanAdapt.FinalSearchZeros | Decoders/JPEG/huffman.c:437-439 | the search runs below the table whenever every count up to its start is zero |
| JpegHuffmanAdapt.CountBits | Decoders/JPEG/huffman.c:446-474 | Count_BITS succeeds exactly when every code size is below 33, and then leaves the folded counts: at most 16 bits, counts below 256, one code fewer than there were codes |
| JpegHuffmanAdapt.ListingMembers | Decoders/JPEG/huffman.c:476-506 | a value is in the sorted listing exactly when it is below 256 and has a code size from 1 to the sizes scanned |
| JpegHuffmanAdapt.ListingOrdered | Decoders/JPEG/huffman.c:476-506 | the listing is ordered by code size and, within a size, by value, so no value appears twice |
| JpegHuffmanAdapt.SortInput | Decoders/JPEG/huffman.c:476-506 | Sort_input writes the listing of values below 256 by code size, then value, to the start of HUFFVAL, and it fits the 256 places it may take |
| JpegHuffmanAdapt.FillTable | Decoders/JPEG/huffman.c:519-534 | L[i] is BITS(i+1) truncated to its uint8_t, and the rows of V read back in order are the first ΣL entries of HUFFVAL |
| JpegHuffmanAdapt.AdaptCount | Decoders/JPEG/huffman.c:508-517 | with the reserved value 256 present, a value below 256 gets a code exactly when its frequency was non-zero, and the number of such values is the folded total |
| JpegHuffmanAdapt.AdaptKraft | Decoders/JPEG/huffman.c:519-522 | the lengths the new table lists are all at most 16 and their Kraft sum is below 2^16, so no code is all 1-bits |
| JpegHuffmanAdapt.AdaptResult | Decoders/JPEG/huffman.c:508-537 | the table filled from the adjusted counts and the sorted values is an adapted table: it lists exactly the values that occurred, in size then value order, with lengths that leave code space free |
| JpegHuffmanAdapt.AdaptHuffmanTable | Decoders/JPEG/huffman.c:508-537 | adapt_huffman_table succeeds exactly when every code size stays below 33, and then the DHT table holds exactly the values that occurred, ordered by code size and value, with a valid prefix code |
| JpegHuffmanAdapt.AdaptedRoundTrip | Decoders/JPEG/huffman.c:508-537 | in the canonical code expanded from an adapted table, every value that occurred has a code, and decoding that code followed by any bits gives the value back |
| JpegCoeffs.CatZrlToValue | Decoders/JPEG/coeffs.c:15-28 | the RS byte built from a category and a zero run is a byte whose low nibble reads back as the category and whose high nibble as the zero run, each taken modulo 16 |
| JpegCoeffs.SymbolNibbles | Decoders/JPEG/coeffs.c:15-28 | splitting an RS byte into category and zero run and joining them again gives the byte back |
| JpegCoeffs.EncodeCat | Decoders/JPEG/coeffs.c:56-74 | the category of a 32-bit coefficient is the number of bits of its magnitude, 0 for 0, at most 31 |
| JpegCoeffs.EncodeExtra | Decoders/JPEG/coeffs.c:76-83 | the extra bits of a coefficient fit in cat bits and in the uint16_t result |
| JpegCoeffs.CoeffRoundTrip | Decoders/JPEG/coeffs.c:33-83 | for every non-zero coefficient of magnitude below 2^16, its category is 1..16 and decode_coeff of the category and encode_extra gives the coefficient back |
| JpegCoeffs.ExtraRoundTrip | Decoders/JPEG/coeffs.c:33-83 | conversely every extra-bits value of a category 1..16 decodes to a coefficient of that category whose encoding is the same extra bits |
| JpegCoeffs.ZrlSym | Decoders/JPEG/coeffs.c:291-298 | the symbol written for a run of 16 zeros, category 0 with zero run 15, is ZRL (0xF0) |
| JpegCoeffs.Zrls | Decoders/JPEG/coeffs.c:291-298 | a pending run of r zeros emits r / 16 ZRL symbols when r > 15 and none otherwise |
| JpegCoeffs.AcSymNibbles | Decoders/JPEG/coeffs.c:175-178 | the AC symbol of a non-zero coefficient has a non-zero RS byte whose category is the coefficient's bit length (1..15) and whose run is the zero run modulo 16 |
| JpegCoeffs.AcSymsValues | Decoders/JPEG/coeffs.c:276-306 | every AC symbol of a block is a byte value, so it indexes a Huffman table |
| JpegCoeffs.WriteDc | Decoders/JPEG/coeffs.c:110-126 | write_dc fails with NotFound and writes nothing when the table has no code for the category, and otherwise appends the category's code and the extra bits to the bit writer |
| JpegCoeffs.WriteAc | Decoders/JPEG/coeffs.c:164-194 | write_ac writes EOB (RS 0 with no extra bits) or the RS code and extra bits of the coefficient, failing with NotFound and writing nothing when the RS byte has no code |
| JpegCoeffs.NaturalZigzagged | Decoders/JPEG/common.h:34-43 | reordering a block into zig-zag order and back, in either direction, gives it back |
| JpegCoeffs.WriteZrls | Decoders/JPEG/coeffs.c:291-298 | the ZRL loop emits r / 16 ZRL codes and leaves r % 16 pending, or fails with NotFound only when a ZRL was due and the table has no code for it |
| JpegCoeffs.WriteAcs | Decoders/JPEG/coeffs.c:276-306 | the AC loop succeeds exactly when every AC symbol of the block (ZRLs, run/size symbols, a final EOB) has a code, and then it writes exactly the codes and extra bits of that symbol sequence |
| JpegCoeffs.WriteBlock | Decoders/JPEG/coeffs.c:256-309 | write_block succeeds exactly when the DC symbol and every AC symbol of the zig-zag-ordered block have codes, and then its output is the DC bits followed by the AC bits; on failure it returns NotFound |
| JpegCoeffs.TallyOccurrences | Decoders/JPEG/coeffs.c:312-363 | counting a symbol sequence into a frequency table adds to each value the number of its occurrences |
| JpegCoeffs.Bump | Decoders/JPEG/coeffs.c:327 | one freq[...]++ raises one frequency by one and leaves the others alone |
| JpegCoeffs.DryZrls | Decoders/JPEG/coeffs.c:345-352 | the dry ZRL loop counts one ZRL per 16 pending zeros and leaves r % 16 pending |
| JpegCoeffs.WriteBlockDry | Decoders/JPEG/coeffs.c:312-363 | write_block_dry adds to the DC frequencies the block's DC symbol and to the AC frequencies exactly the AC symbols write_block would send |
| JpegCoeffsRead.ReadDcF | Decoders/JPEG/coeffs.c:86-107 | reading a DC coefficient that succeeds consumes at least one pending bit (its partner is DcRoundTrip) |
| JpegCoeffsRead.ReadAcF | Decoders/JPEG/coeffs.c:128-161 | reading an AC coefficient that succeeds consumes at least one bit and yields a zero run below 16, the high nibble of RS |
| JpegCoeffsRead.ReadDc | Decoders/JPEG/coeffs.c:86-107 | read_dc returns the coefficient ReadDcF reads from the pending bits and leaves the bits after it, or the entropy-coded segment's stop status with nothing pending |
| JpegCoeffsRead.ReadAc | Decoders/JPEG/coeffs.c:128-161 | read_ac returns the EOB flag, run and coefficient ReadAcF reads and leaves the bits after them, or the segment's stop status |
| JpegCoeffsRead.SymDecode | Decoders/JPEG/coeffs.c:94-99 | a symbol's Huffman code followed by anything decodes to the symbol's value and leaves its extra bits first |
| JpegCoeffsRead.ExtraRead | Decoders/JPEG/huffman.c:293-325 | the extra bits written for a symbol read back, as a 16-bit value, as the same extra bits |
| JpegCoeffsRead.DcRoundTrip | Decoders/JPEG/coeffs.c:86-126 | the bits write_dc sends for a coefficient of magnitude below 2^16 read back through read_dc as that coefficient, leaving what follows |
| JpegCoeffsRead.AcRoundTrip | Decoders/JPEG/coeffs.c:128-194 | the bits write_ac sends for a non-zero coefficient and a zero run read back as that run (modulo 16), not EOB, and the coefficient |
| JpegCoeffsRead.EobRoundTrip | Decoders/JPEG/coeffs.c:152-153 | the EOB code reads back with the EOB flag set |
| JpegCoeffsRead.ZrlRoundTrip | Decoders/JPEG/coeffs.c:128-194 | the ZRL code reads back as a run of 15 with a zero coefficient |
| JpegCoeffsRead.DcOnly | Decoders/JPEG/coeffs.c:222-227 | the block read_block starts from holds the DC coefficient first and 63 zeros after it |
| JpegCoeffsRead.ReadAcsF | Decoders/JPEG/coeffs.c:229-251 | the AC loop, when it completes a block, yields 64 coefficients and consumes at least one bit; a run past position 63 is refused |
| JpegCoeffsRead.ReadBlockF | Decoders/JPEG/coeffs.c:196-254 | reading a whole block that completes yields 64 coefficients and consumes at least one bit |
| JpegCoeffsRead.AsWrittenStores | Decoders/JPEG/coeffs.c:244-251 | the loop as written stores at most one coefficient per symbol read, the first at the start position plus the first run |
| JpegCoeffsRead.AsWrittenOverrun | Decoders/JPEG/coeffs.c:246-247 | four ZRL symbols in a row make the loop as written store at zig-zag position 64, past the end of the block |
| JpegCoeffsRead.ReadAcsNext | Decoders/JPEG/coeffs.c:237-251 | one turn of the AC loop: EOB ends the block as it is, a run past the end is an overrun, a store at position 63 completes the block, and any other store goes on after the stored position |
| JpegCoeffsRead.ZrlsOverrun | Decoders/JPEG/coeffs.c:246-247 | in the corrected loop four ZRL codes from position 1 are reported as an overrun instead of a store outside the block |
| JpegCoeffsRead.NaturalUpdate | Decoders/JPEG/coeffs.c:247 | storing at zig-zag position k of the natural-order block is the same as storing at k in zig-zag order and reordering |
| JpegCoeffsRead.ClearBlock | Decoders/JPEG/coeffs.c:222-227 | the block in natural order holds the DC coefficient at zig-zag position 0 and zeros elsewhere |
| JpegCoeffsRead.Store | Decoders/JPEG/coeffs.c:247 | one store updates exactly the natural-order position of zig-zag index k |
| JpegCoeffsRead.ReadAcs | Decoders/JPEG/coeffs.c:229-251 | the AC loop leaves in the block the coefficients ReadAcsF reads, or reports the overrun or the segment's stop status |
| JpegCoeffsRead.ReadBlock | Decoders/JPEG/coeffs.c:196-254 | read_block reads the DC and AC coefficients as ReadBlockF does and stores them in natural order; with no target block it reads the DC coefficient and fails with NoMoreData |
| JpegCoeffsRead.AcsRoundTrip | Decoders/JPEG/coeffs.c:229-306 | the AC symbols write_block sends for a block, from any point of the loop, read back through read_block's loop as exactly that block |
| JpegCoeffsRead.BlockRoundTrip | Decoders/JPEG/coeffs.c:196-309 | for every block whose DC magnitude is below 2^16 and whose AC coefficients are below 2^15, the bits write_block sends read back through read_block as that block, leaving what follows |
| JpegContext.Context.constructor | Decoders/JPEG/common.h:124-156 | a fresh context has the shape struct context declares (4 quantisation tables, 256 components, 2 by 4 Huffman table sets) with every component buffer NULL |
| JpegContext.Context.Init | Decoders/JPEG/common.c:63-109 | init_context zeroes P, Y, X, Nf, Ri, m_x, m_y and mblocks, sets every quantisation table to Pq 0 and all ones, every component to zero with no buffers, every DHT table to empty and every encoder frequency table to zero except the reserved entry 256, leaving max_H and max_V alone |
| JpegContext.Context.InitScalarsAndComponents | Decoders/JPEG/common.c:71-80 | the scalar fields become 0 and every component its initial state, and nothing else changes |
| JpegContext.Context.InitQTables | Decoders/JPEG/common.c:67-69 | every quantisation table becomes Pq 0 with all 64 entries 1 |
| JpegContext.Context.InitComponents | Decoders/JPEG/common.c:78-80 | every one of the 256 components becomes all-zero with NULL buffers |
| JpegContext.Context.InitTables | Decoders/JPEG/common.c:82-88 | every one of the 2 by 4 DHT tables and encoder tables is reset |
| JpegContext.Context.InitTableSet | Decoders/JPEG/common.c:84-86 | one DHT table and its encoder table are reset, and the others that were reset stay so |
| JpegContext.Context.ComputeNoBlocksAndAllocBuffers | Decoders/JPEG/common.c:156-195 | the MCU grid becomes ceil(X / 8 max_H) by ceil(Y / 8 max_V), and every component with H != 0 gets H and V times that many blocks with fresh zeroed buffers of 64 coefficients a block; headers and the frame stay as they were, and max_H or max_V of 0 is refused |
| JpegContext.Context.AllocComponent | Decoders/JPEG/common.c:176-191 | one component with H != 0 gets the grid times its sampling factors as block counts and fresh buffers of that size, keeping its header |
| JpegContext.Nones | Decoders/JPEG/decoder.c:186-195 | the list of last blocks of an interval start holds n NULL entries |
| JpegContext.Scan.constructor | Decoders/JPEG/decoder.c:186-195 | a scan starts with Ns 0, 256 component ids and 256 NULL last blocks |
| JpegFrame.FloorLog2 | Decoders/JPEG/frame.c:259-268 | floor_log2(n) is the exponent of the highest power of two not above n (one less than n's bit length), and 0 for n = 0 |
| JpegFrame.ConvertMaxvalToPrecision | Decoders/JPEG/frame.c:270-275 | the precision of a positive maxval is its bit length: 2^(p-1) <= maxval < 2^p |
| JpegFrame.PrecisionRoundTrip | Decoders/JPEG/frame.c:270-282 | the precision of the maxval 2^p - 1 that read_frame_body derives from a precision p is p again |
| JpegFrame.PrecisionExamples | Decoders/JPEG/frame.c:270-275 | maxvals 255, 4095 and 65535 have precisions 8, 12 and 16 |
| JpegFrame.ConvertMaxvalToSampleSize | Decoders/JPEG/frame.c:246-257 | the sample size is 0 (unsupported) exactly when maxval exceeds 65535, and otherwise 1 or 2 bytes |
| JpegFrame.SampleSizeFewest | Decoders/JPEG/frame.c:246-257 | a supported maxval gets the fewest bytes that hold it |
| JpegFrame.SampleSizeOfPrecision | Decoders/JPEG/frame.c:282-283 | a precision of up to 8 bits reads 1-byte samples, up to 16 bits 2-byte samples, and more is unsupported |
| JpegFrame.IdxInRange | Decoders/JPEG/frame.c:305 | the flat sample index of a pixel inside the padded frame lies in the data array |
| JpegFrame.IdxInjective | Decoders/JPEG/frame.c:305 | distinct (row, column, component) positions have distinct flat indices |
| JpegFrame.Frame.CreateEmpty | Decoders/JPEG/frame.c:16-35 | the padded size is X and Y rounded up to whole MCUs of 8 max_H by 8 max_V pixels, so it is at least the image size and less than one MCU more, with a fresh array of that many samples per component |
| JpegFrame.Frame.Put | Decoders/JPEG/frame.c:305 | one store changes exactly one sample of the frame |
| JpegFrame.Frame.ReadFrameBody | Decoders/JPEG/frame.c:277-350 | an unsupported sample size is a logic error, a body shorter than Y lines is an I/O error, and otherwise every padded pixel is the image sample of the nearest pixel inside the image (last column and last row repeated), bytes or big-endian words |
| JpegFrame.Frame.ReadLine | Decoders/JPEG/frame.c:300-332 | one image row holds the row's samples, padded to the right with its last pixel, and no other row changes |
| JpegFrame.Frame.PadColumns | Decoders/JPEG/frame.c:308-314 | the columns past X repeat the last image column of that row |
| JpegFrame.Frame.PadRows | Decoders/JPEG/frame.c:337-345 | the rows past Y repeat the last image row, and the image rows stay |
| JpegFrame.Frame.TransformComponentsToFrame | Decoders/JPEG/frame.c:38-82 | the components with a frame buffer take the frame's channels in table order, each raster sample filling a step_x by step_y patch, and channels beyond them are untouched |
| JpegFrame.Frame.CopyComponent | Decoders/JPEG/frame.c:50-79 | one component raster is spread over its channel, and no other channel changes |
| JpegFrame.Frame.CopyBand | Decoders/JPEG/frame.c:64-76 | one raster row fills step_y frame rows of its channel with each sample repeated step_x times |
| JpegFrame.Frame.FillPatch | Decoders/JPEG/frame.c:71-75 | one patch of step_y by step_x pixels of a channel takes the raster sample, and nothing else changes |
| JpegFrame.RastersFrom | Decoders/JPEG/frame.c:49-80 | each raster the transform copies is a component's frame buffer of 8 b_x by 8 b_y samples |
| JpegImgproc.RoundInteger | Decoders/JPEG/imgproc.c:28 | roundf leaves a whole number unchanged |
| JpegImgproc.DequantizeUnitTable | Decoders/JPEG/imgproc.c:10-19 | with the all-ones table init_context installs, dequantising only converts the coefficients |
| JpegImgproc.QuantizeDequantize | Decoders/JPEG/imgproc.c:10-30 | quantize_block undoes dequantize_block for every non-zero table: dividing c·Q by Q and rounding gives c back |
| JpegImgproc.DequantizeBlock | Decoders/JPEG/imgproc.c:10-19 | entry j of block b becomes coefficient j times table entry j, and no other entry changes |
| JpegImgproc.DequantizeComponent | Decoders/JPEG/imgproc.c:45-51 | the whole floating-point buffer is the coefficient buffer dequantised block by block |
| JpegImgproc.BuffersApart | Decoders/JPEG/common.c:116-144 | allocated buffers of different components, and a component's float and frame buffers, are distinct arrays, so one conversion does not overwrite another's input |
| JpegImgproc.Dequantize | Decoders/JPEG/imgproc.c:32-56 | dequantize succeeds, and every component with a coefficient buffer has its float buffer dequantised by the table its Tq selects; only float buffers change |
| JpegImgproc.DequantizeEntry | Decoders/JPEG/imgproc.c:36-53 | after component c, components 0 to c are dequantised |
| JpegImgproc.PixelPosIndex | Decoders/JPEG/imgproc.c:246-257 | every raster index of a b_x by b_y grid is the raster index of exactly the grid position it decodes to |
| JpegImgproc.PixelIndexSplit | Decoders/JPEG/imgproc.c:253 | coefficient (v, u) of block (x, y) goes to row 8y + v, column 8x + u of a raster 8 b_x samples wide |
| JpegImgproc.PixelIndexPos | Decoders/JPEG/imgproc.c:253 | the raster index of a grid position lies in the buffer and decodes back to the position |
| JpegImgproc.CoeffPosIndex | Decoders/JPEG/imgproc.c:249-253 | every block-buffer index is the index of the block and coefficient it decodes to |
| JpegImgproc.CoeffIndexPos | Decoders/JPEG/imgproc.c:249-253 | the block-buffer index of a grid position lies in the buffer and decodes back to the position |
| JpegImgproc.LayoutHolds | Decoders/JPEG/imgproc.c:246-288 | both index maps are bijections between the grid positions and [0, 64 b_x b_y) |
| JpegImgproc.BlocksToRaster | Decoders/JPEG/imgproc.c:233-262 | conv_blocks_to_frame keeps the buffer size |
| JpegImgproc.RasterToBlocks | Decoders/JPEG/imgproc.c:264-293 | conv_frame_to_blocks keeps the buffer size |
| JpegImgproc.RasterBlocksRoundTrip | Decoders/JPEG/imgproc.c:233-293 | on a buffer of whole blocks, conv_frame_to_blocks undoes conv_blocks_to_frame and the other way round |
| JpegSegments.QtEntries | Decoders/JPEG/decoder.c:46-58 | the DQT body gives 64 entries, bytes for Pq 0 and big-endian words otherwise |
| JpegSegments.ParseQTableF | Decoders/JPEG/decoder.c:20-68 | a parsed DQT table has Pq < 2 and Tq < 4 taken from the first byte's nibbles, 64 entries, and takes 1 + 64 or 1 + 128 bytes of what is there; Tq >= 4 is unsupported |
| JpegSegments.QtStoredInZigzagOrder | Decoders/JPEG/decoder.c:46-58 | entry i of the segment is stored at natural position zigzag[i] |
| JpegSegments.DqtSegment | Decoders/JPEG/encoder.c:205-234 | produce_DQT writes 69 bytes: the DQT marker and a length field of 67, the bytes after the marker |
| JpegSegments.QtBytes | Decoders/JPEG/encoder.c:226-231 | the i-th table byte written is Q[zigzag[i]] truncated to a byte |
| JpegSegments.DqtRoundTrip | Decoders/JPEG/encoder.c:205-234 | parse_qtable reads the body produce_DQT writes for table Tq < 4 with 8-bit entries back as Pq 0, Tq and the same natural-order table, taking 65 bytes |
| JpegSegments.DqtEntries | Decoders/JPEG/encoder.c:226-231 | the entries parse_qtable reads from produce_DQT's bytes are the table in zig-zag order |
| JpegSegments.ComponentSpecAt | Decoders/JPEG/decoder.c:112-117 | a component specification is an identifier byte, H and V nibbles, and a Tq byte |
| JpegSegments.ComponentSpecsF | Decoders/JPEG/decoder.c:107-127 | reading n component specifications takes 3 n bytes and fails only for bytes running out or an unsupported Tq |
| JpegSegments.ParseFrameHeaderF | Decoders/JPEG/decoder.c:70-127 | a parsed SOF0 header has X > 0 and Nf > 0 (the C assertions, otherwise a logic error) and Nf component specifications, taking 6 + 3 Nf bytes |
| JpegSegments.LastSpec | Decoders/JPEG/decoder.c:121-123 | a component's specification is the last in the header that names it, and none when no specification names it |
| JpegSegments.MaxH | Decoders/JPEG/decoder.c:105-130 | max_H is the largest H of the specifications, and 0 for none |
| JpegSegments.MaxV | Decoders/JPEG/decoder.c:105-130 | max_V is the largest V of the specifications, and 0 for none |
| JpegSegments.Declared | Decoders/JPEG/encoder.c:260-271 | the specifications produce_SOF0 writes are those of the components with H != 0, in identifier order, each with its own H, V and Tq |
| JpegSegments.SpecBytesAt | Decoders/JPEG/encoder.c:262-269 | each written specification is the identifier, the (H, V) byte and Tq |
| JpegSegments.Sof0Segment | Decoders/JPEG/encoder.c:236-274 | produce_SOF0 writes the SOF0 marker and a length field of 8 + 3 Nf, which equals the bytes after the marker when Nf counts the components with H != 0 |
| JpegSegments.SpecsRoundTrip | Decoders/JPEG/decoder.c:107-127 | the specification bytes written for components with Tq < 4 read back as those specifications |
| JpegSegments.Sof0RoundTrip | Decoders/JPEG/encoder.c:236-274 | parse_frame_header reads the SOF0 body produce_SOF0 writes back as P, Y, X, Nf and the declared components, taking 6 + 3 Nf bytes |
| JpegSegments.DeclaredLast | Decoders/JPEG/decoder.c:121-123 | after the round trip every component has the H, V and Tq it had in the encoder, and one with H = 0 is not named |
| JpegSegments.ParseHuffmanTablesF | Decoders/JPEG/decoder.c:143-184 | a parsed DHT table has Tc < 2 and Th < 4 from the first byte, 16 counts and as many values as they add up to (between 1 and 255), taking 17 + ΣL bytes |
| JpegSegments.DhtDestinationStrays | Decoders/JPEG/decoder.c:161 | with Th >= 4 unchecked, &htable[Tc][Th] is not one of the four tables of class Tc |
| JpegSegments.DhtDestinationExamples | Decoders/JPEG/decoder.c:161 | the destination byte 0x04 reaches AC table 0 and 0x14 reaches past the eight tables |
| JpegSegments.DhtDestinationChecked | Decoders/JPEG/decoder.c:153-161 | the corrected parse refuses Th >= 4 as unsupported, so every table it accepts is one of the four of its class |
| JpegSegments.DhtSegment | Decoders/JPEG/encoder.c:276-316 | produce_DHT writes the DHT marker and a length field of 19 + ΣL, the bytes after the marker |
| JpegSegments.DhtRoundTrip | Decoders/JPEG/encoder.c:276-316 | parse_huffman_tables reads the body produce_DHT writes for Tc < 2, Th < 4 and 1 to 255 values back as the same class, destination, counts and values |
| JpegSegments.SelectorAt | Decoders/JPEG/decoder.c:216-219 | a scan component specification is a component identifier and (Td, Ta) nibbles |
| JpegSegments.SelectorsF | Decoders/JPEG/decoder.c:212-227 | reading n scan component specifications takes 2 n bytes |
| JpegSegments.ParseScanHeaderF | Decoders/JPEG/decoder.c:197-259 | a parsed SOS header has Ns specifications and takes 4 + 2 Ns bytes; anything but Ss 0, Se 63, Ah = Al = 0 is unsupported |
| JpegSegments.SosSegment | Decoders/JPEG/encoder.c:345-400 | produce_SOS writes the SOS marker and a length field of 6 + 2 Ns, the bytes after the marker |
| JpegSegments.SelectorBytesAt | Decoders/JPEG/encoder.c:373-386 | the j-th written specification is Cs[j] and that component's (Td, Ta) |
| JpegSegments.Selected | Decoders/JPEG/encoder.c:373-386 | the specifications written are, in scan order, each scan component with its own Td and Ta |
| JpegSegments.SelectorsRoundTrip | Decoders/JPEG/decoder.c:212-227 | the written specifications read back as the selected components and tables |
| JpegSegments.SosRoundTrip | Decoders/JPEG/encoder.c:345-400 | parse_scan_header reads the SOS body produce_SOS writes back as Ns and the same component and table selectors, taking 4 + 2 Ns bytes |
| JpegEncoder.StdTablesReference | Decoders/JPEG/encoder.c:14-34 | the two reference tables (the ones in Annex K of ITU-T T.81) hold 64 valid 8-bit quantisers each |
| JpegEncoder.QualityToSf | Decoders/JPEG/encoder.c:38-56 | the quality is clamped to 1..100; below 50 the factor is the integer quotient 5000 / q, from 50 on it is 200 - 2q, and it lies in 0..5000 |
| JpegEncoder.QualityToSfMonotone | Decoders/JPEG/encoder.c:38-56 | a higher quality never gives a larger scaling factor |
| JpegEncoder.QualityToSfLandmarks | Decoders/JPEG/encoder.c:38-56 | qualities 1, 49, 50, 75 and 100 give 5000, 102, 100, 50 and 0, and qualities out of range act as 1 or 100 |
| JpegEncoder.Scaled | Decoders/JPEG/encoder.c:63 | a scaled quantiser is always a valid 8-bit quantiser, 1..255 |
| JpegEncoder.ScaledTable | Decoders/JPEG/encoder.c:62-64 | every entry of the scaled table is its reference entry scaled, rounded and clamped |
| JpegEncoder.ScaledMonotone | Decoders/JPEG/encoder.c:63 | a larger scaling factor never gives a smaller quantiser |
| JpegEncoder.FinerWithQuality | Decoders/JPEG/encoder.c:38-65 | raising the quality never coarsens any entry of the table |
| JpegEncoder.QualityFiftyKeepsReference | Decoders/JPEG/encoder.c:38-65 | quality 50 reproduces the reference table exactly |
| JpegEncoder.QualityHundredIsLossless | Decoders/JPEG/encoder.c:38-65 | quality 100 gives a table of all ones |
| JpegEncoder.SetQTable | Decoders/JPEG/encoder.c:58-65 | set_qtable fills the table with the reference table scaled for the quality |
| JpegEncoder.SamplingsOf | Decoders/JPEG/common.h:59-80 | the sampling factors and table selectors read off all 256 components are in their byte ranges |
| JpegEncoder.SetUp | Decoders/JPEG/encoder.c:109-146 | the set-up changes components 1 to 3 at most and keeps 256 entries |
| JpegEncoder.SetUpDeclares | Decoders/JPEG/encoder.c:109-146 | after set-up SOF0 declares component 1 at 1 x 1 with table 0 for grey, or component 1 at H x V with table 0 and components 2 and 3 at 1 x 1 with table 1 for colour |
| JpegEncoder.GreyDeclares | Decoders/JPEG/encoder.c:110-121 | a grey picture declares component 1 alone, at 1 x 1 with table 0 |
| JpegEncoder.ColourDeclares | Decoders/JPEG/encoder.c:122-146 | a colour picture declares luma at H x V with table 0 and two chroma components at 1 x 1 with table 1 |
| JpegEncoder.SetUpComponents | Decoders/JPEG/encoder.c:104-152 | read_image stores Nf, Y, X and P; one or three components get their samplings, max_H and max_V and the scaled tables; any other count is unsupported and a colour luma factor outside 1..2 is a logic error, both leaving components and tables alone |
| JpegEncoder.SetUpSwitch | Decoders/JPEG/encoder.c:109-152 | the switch on Nf sets the samplings, maxima and tables as SetUp says, or fails without changing them |
| JpegEncoder.SetFrameFields | Decoders/JPEG/encoder.c:104-107 | Nf, Y, X and P become the header's |
| JpegEncoder.SetSamplings | Decoders/JPEG/encoder.c:110-146 | components 1 to 3 take the samplings of SetUp and max_H, max_V the luma factors |
| JpegContext.SetMaxSampling | Decoders/JPEG/encoder.c:119-145 | max_H and max_V take the given values |
| JpegEncoder.SetQTables | Decoders/JPEG/encoder.c:151-152 | table 0 is the luminance reference and table 1 the chrominance reference, both scaled for the quality |
| JpegEncoder.SetSampling | Decoders/JPEG/encoder.c:111-117 | one component takes the given sampling and selectors, and no other component changes |
| JpegEncoder.DeclaredAscending | Decoders/JPEG/encoder.c:260-271 | the components SOF0 declares come in increasing identifier order, so none twice |
| JpegEncoder.DeclaredExactlySampled | Decoders/JPEG/encoder.c:260-271 | a component is declared exactly when its H is non-zero |
| JpegEncoder.FillScan | Decoders/JPEG/encoder.c:329-343 | fill_scan sets Ns to Nf and lists the components with H != 0 in increasing order at the start of Cs, the rest of Cs unchanged |
| JpegEncoder.ProduceSoi | Decoders/JPEG/encoder.c:195-203 | produce_SOI appends FF D8 |
| JpegEncoder.ProduceEoi | Decoders/JPEG/encoder.c:402-410 | produce_EOI appends FF D9 |
| JpegEncoder.ProduceDqt | Decoders/JPEG/encoder.c:205-234 | produce_DQT appends the DQT segment of table Tq |
| JpegEncoder.WriteDqt | Decoders/JPEG/encoder.c:211-231 | the marker, length, (Pq, Tq) and entries are appended as the DQT segment |
| JpegEncoder.WriteQtEntries | Decoders/JPEG/encoder.c:226-231 | the loop appends the table in zig-zag order, each entry truncated to a byte |
| JpegEncoder.ProduceSof0 | Decoders/JPEG/encoder.c:236-274 | produce_SOF0 appends the SOF0 segment of the context's P, Y, X, Nf and components |
| JpegEncoder.WriteSpecs | Decoders/JPEG/encoder.c:260-271 | the loop over 256 components appends exactly the specifications of the declared components |
| JpegEncoder.WriteSpec | Decoders/JPEG/encoder.c:261-270 | one component appends its specification when H != 0 and nothing otherwise |
| JpegEncoder.TableValues | Decoders/JPEG/encoder.c:306-313 | a table's values, row by row, number ΣL |
| JpegEncoder.ProduceDht | Decoders/JPEG/encoder.c:276-316 | produce_DHT appends the DHT segment of table [Tc][Th] |
| JpegEncoder.CountValues | Decoders/JPEG/encoder.c:287-292 | mt is the sum of the 16 counts |
| JpegEncoder.WriteCounts | Decoders/JPEG/encoder.c:301-304 | the 16 counts are appended as they are |
| JpegEncoder.WriteValues | Decoders/JPEG/encoder.c:306-313 | the values are appended row by row, L[i] from row i |
| JpegEncoder.ProduceSos | Decoders/JPEG/encoder.c:345-400 | produce_SOS sets Ns to Nf, lists the declared components in Cs, and appends the SOS segment selecting them with their own tables |
| JpegEncoder.WriteScan | Decoders/JPEG/encoder.c:370-397 | Ns, the selectors, Ss 0, Se 63 and (Ah, Al) 0 are appended |
| JpegEncoder.WriteSelectors | Decoders/JPEG/encoder.c:373-386 | each scan component appends its identifier and (Td, Ta) |
| JpegEncoder.HeadersRoundTrip | Decoders/JPEG/encoder.c:236-400 | the SOF0 and SOS headers the encoder writes after set-up read back through the decoder's parsers as exactly the components, sampling factors and table selectors it set up |
| JpegMcu.Differenced | Decoders/JPEG/encoder.c:442-445 | differential DC coding changes only the block's DC coefficient and keeps the predictor record (its partner is UndoDifference) |
| JpegMcu.UndoDifference | Decoders/JPEG/encoder.c:442-458 | adding the predictor back after subtracting it restores every coefficient and makes the block the last one, except that a block that is its own predictor is left with DC 0 |
| JpegMcu.ReadVisitF | Decoders/JPEG/decoder.c:285-301 | reading one block of an MCU either succeeds, consuming bits and leaving nothing spoilt, or fails with no-more-data or the stream's stop status and leaves every coefficient as it was |
| JpegMcu.ReadVisitsF | Decoders/JPEG/decoder.c:319-358 | the blocks of an MCU read in order either all succeed, consuming bits, or end at the first failure with one of the reader's statuses |
| JpegMcu.ReadMcuF | Decoders/JPEG/decoder.c:262-362 | read_macroblock returns success only after consuming bits; otherwise no-more-data (no components, or no bits), file-unsupported (an interleaved scan with no MCU grid) or the stream's stop status |
| JpegMcu.ReadEcsF | Decoders/JPEG/decoder.c:364-388 | read_ecs counts at least the MCUs it started from and ends with success when the MCUs run out of data, or with the first other failure |
| JpegMcu.EcsAsWrittenNeverEnds | Decoders/JPEG/decoder.c:276-382 | as written, read_ecs over one component whose MCU has no blocks (H V = 0) never stops however many turns it is given |
| JpegMcu.EcsWithoutBlocksEnds | Decoders/JPEG/decoder.c:364-388 | the corrected read_ecs ends at once with success over such a scan, reading nothing and changing nothing |
| JpegMcu.McuAsWrittenAgrees | Decoders/JPEG/decoder.c:262-362 | on every MCU that has blocks, and on scans without components or grid, the corrected read_macroblock is the one written |
| JpegMcu.CodedBlock | Decoders/JPEG/encoder.c:442-450 | the block write_block is given is a 64-entry block in zig-zag order |
| JpegMcu.CodedInRange | Decoders/JPEG/encoder.c:442-450 | the coded block's first entry is the DC difference, below 2^16 in magnitude, and its AC entries fit the coder's range |
| JpegMcu.WriteVisitF | Decoders/JPEG/encoder.c:433-458 | writing one block succeeds, fails with a logic error or a missing code, sends no bits when it fails, and keeps every coefficient an int32_t |
| JpegMcu.WriteVisitKeeps | Decoders/JPEG/encoder.c:442-458 | a block written leaves the coefficients as they were and becomes the component's last block, except a block that is its own predictor, whose DC becomes 0 |
| JpegMcu.McuInGrid | Decoders/JPEG/encoder.c:421-438 | every block of every MCU of the grid lies inside its component's block grid: the assertion block_x < b_x holds, and so does the bound on block_y |
| JpegMcu.WriteMcuF | Decoders/JPEG/encoder.c:412-464 | write_macroblock succeeds or fails with one of the coder's statuses and keeps the coefficients int32_t and the AC coefficients in range |
| JpegMcu.WriteEcsF | Decoders/JPEG/encoder.c:560-587 | write_ecs's loop over the MCUs keeps the coefficients int32_t and the AC coefficients in range |
| JpegMcu.Count | Decoders/JPEG/coeffs.c:196-244 | counting a block's symbols keeps the two-by-four table of 257-entry counters in shape |
| JpegMcu.SymsBytes | Decoders/JPEG/coeffs.c:196-244 | every symbol write_block sends for a block is a byte, so it has a counter |
| JpegMcu.DryVisitF | Decoders/JPEG/encoder.c:484-512 | the dry run of one block cannot fail for want of a code, keeps the counters in shape and the coefficients int32_t |
| JpegMcu.DryMcuF | Decoders/JPEG/encoder.c:466-518 | write_macroblock_dry keeps the counters in shape and the coefficients int32_t |
| JpegMcu.DryEcsF | Decoders/JPEG/encoder.c:525-542 | write_ecs_dry's loop over the MCUs keeps the counters in shape and the coefficients int32_t |
| JpegMcu.TallyGrows | Decoders/JPEG/encoder.c:525-542 | counting symbols never lowers a counter |
| JpegMcu.CountedPresent | Decoders/JPEG/encoder.c:544-555 | every symbol counted by the dry run has a code in a table adapted to counters at least as large |
| JpegMcu.DryEcsGrows | Decoders/JPEG/encoder.c:525-542 | counting MCUs never lowers a counter |
| JpegMcu.DryThenWriteVisit | Decoders/JPEG/encoder.c:466-518 | a block the dry run counted is written, with every symbol found, by tables whose codes cover the counts, and leaves the coefficients as the dry run does |
| JpegMcu.DryThenWriteEcs | Decoders/JPEG/encoder.c:525-587 | after a successful dry run, write_ecs with tables that give a code to every counted symbol succeeds and leaves the same coefficients |
| JpegMcu.StoredAgrees | Decoders/JPEG/decoder.c:291-301 | the reader stores the block the writer coded and adds back the same predictor, so the two agree on that block and still agree on the others |
| JpegMcu.VisitRoundTrip | Decoders/JPEG/decoder.c:285-301 | the bits written for a block read back, leaving what follows, and the reader then agrees with the writer on that block |
| JpegMcu.WriteVisitsAcFit | Decoders/JPEG/encoder.c:425-461 | writing blocks keeps every AC coefficient in the coder's range |
| JpegMcu.ReadVisitsStuck | Decoders/JPEG/decoder.c:347-348 | once a block fails to read, read_macroblock returns that failure, whatever blocks follow |
| JpegMcu.VisitsRoundTrip | Decoders/JPEG/decoder.c:319-358 | the bits written for a list of blocks read back in the same order, and the reader agrees with the writer on every block visited |
| JpegMcu.SameSlotRead | Decoders/JPEG/decoder.c:285-301 | reading a block depends only on its component and its index in the buffer, not on how the MCU order names it |
| JpegMcu.McuPlanInterleaved | Decoders/JPEG/decoder.c:303-358 | for a scan over all components, read_macroblock visits the blocks of the interleaved order |
| JpegMcu.McuPlanSingle | Decoders/JPEG/decoder.c:274-302 | for one component sampled 1x1, read_macroblock reads block seq_no, the one block the interleaved order writes |
| JpegMcu.McuReadsVisits | Decoders/JPEG/decoder.c:262-362 | read_macroblock reads MCU seq_no with the visits write_macroblock makes of it |
| JpegMcu.McuRoundTrip | Decoders/JPEG/encoder.c:412-464 | the bits write_macroblock sends read back through read_macroblock, leaving what follows, and the reader agrees with the writer on every block of the MCU |
| JpegMcu.ReadEcsStep | Decoders/JPEG/decoder.c:376-382 | read_ecs moves on to the next MCU after one that reads |
| JpegMcu.ReadEcsPrefix | Decoders/JPEG/decoder.c:376-382 | after n MCUs that read, read_ecs goes on from MCU n with what they leave |
| JpegMcu.EcsRoundTrip | Decoders/JPEG/encoder.c:560-587 | the bits write_ecs sends for the first n MCUs read back MCU by MCU, and the reader agrees with the writer on every block of them |
| JpegMcu.ScanRoundTrip | Decoders/JPEG/decoder.c:364-388 | a whole scan written by write_ecs reads back through read_ecs to the point after the last MCU, with the coefficients agreeing with the writer's on every block of the scan |
| JpegScan.UnitVisits | Decoders/JPEG/decoder.c:327-357 | a component contributes H times V blocks of its own to an MCU of an interleaved scan |
| JpegScan.McuVisits | Decoders/JPEG/decoder.c:318-358 | the blocks of an interleaved MCU are visits of the scan's components, each component's blocks in one run |
| JpegScan.McuAt | Decoders/JPEG/decoder.c:313-314 | MCU seq_no of an interleaved scan is the MCU at column seq_no mod m_x, row seq_no div m_x, and its blocks are visits of the scan's components |
| JpegScan.RunVisits | Decoders/JPEG/decoder.c:283-302 | an MCU of a non-interleaved scan holds H times V blocks of its one component |
| JpegScan.ReadPlan | Decoders/JPEG/decoder.c:271-311 | read_macroblock has nothing to read exactly when Ns = 0, fails for want of a grid exactly when Ns > 1 and m_x = 0, and otherwise visits blocks of the scan's components |
| JpegScan.Slot | Decoders/JPEG/decoder.c:334-344 | a block the reader stores lies inside its component's buffer; past the end of the grid there is none |
| JpegScan.RunBlockAsWrittenOverruns | Decoders/JPEG/decoder.c:285-291 | as written, the non-interleaved order stores every block of an MCU from seq_no = b_x b_y on past the end of int_buffer |
| JpegScan.RunBlockAsWrittenExample | Decoders/JPEG/decoder.c:285-291 | for a one-block grid sampled 1x1, MCU 1 is stored at index 1 of a one-block buffer |
| JpegScan.RunSlotBounded | Decoders/JPEG/decoder.c:285-291 | the corrected non-interleaved order stores a block exactly where the source's index lies inside the grid, and discards the others |
| JpegScan.RowsAt | Decoders/JPEG/decoder.c:327-334 | place k of an MCU's blocks of one component is row k div H, column k mod H of the MCU |
| JpegScan.UnitInGrid | Decoders/JPEG/decoder.c:329-332 | every block of an MCU of the grid lies inside the component's block grid |
| JpegScan.UnitCovers | Decoders/JPEG/decoder.c:313-334 | every block of the component's grid is visited by some MCU: MCU (row div V) m_x + col div H at place (row mod V) H + col mod H |
| JpegScan.UnitUnique | Decoders/JPEG/decoder.c:313-334 | no block is visited twice: the block fixes the MCU and the place in it |
| JpegScan.RunCovers | Decoders/JPEG/decoder.c:285-289 | the non-interleaved order visits each place of the row-major order exactly once |
| JpegScan.McuSnoc | Decoders/JPEG/decoder.c:319-358 | the blocks of an MCU's first j + 1 components are those of the first j followed by component j's |
| JpegDecoder.ParseQTable | Decoders/JPEG/decoder.c:20-68 | parse_qtable stores the table ParseQTableF reads into the destination Tq, with its precision and entries in natural order, advances the stream by what it read, leaves the other three tables as they were, and reports the parser's status |
| JpegDecoder.ReadQtEntries | Decoders/JPEG/decoder.c:46-58 | the 64 entries are read as bytes or words by precision, stored de-zig-zagged, and a short segment fails with a file error |
| JpegDecoder.ReadSpec | Decoders/JPEG/decoder.c:112-117 | one frame component specification is read as C, H and V nibbles, and Tq, or fails with a file error |
| JpegDecoder.ReadComponentSpecs | Decoders/JPEG/decoder.c:105-127 | the component loop stores each specification ComponentSpecsF reads into its component, returns the largest H and V, and reports the parser's status |
| JpegDecoder.ReadFrameFields | Decoders/JPEG/decoder.c:82-89 | P, Y, X and Nf are read as byte, word, word, byte, or the read fails with a file error |
| JpegDecoder.SetFrame | Decoders/JPEG/decoder.c:96-103 | the frame fields are stored in the context |
| JpegDecoder.ParseFrameHeader | Decoders/JPEG/decoder.c:70-136 | parse_frame_header stores the frame ParseFrameHeaderF reads (precision, size, component count, each component's sampling and table), sets max_H and max_V, and sizes the MCU grid as compute_no_blocks_and_alloc_buffers does; a frame with no sampling is refused |
| JpegDecoder.ReadCounts | Decoders/JPEG/decoder.c:163-166 | the 16 code-length counts are read, or a short segment fails with a file error |
| JpegDecoder.ReadValues | Decoders/JPEG/decoder.c:168-175 | the values are read row by row, as many as the counts say, and are exactly the segment's next bytes |
| JpegDecoder.CountCodes | Decoders/JPEG/huffman.c:58-75 | the loop over the counts returns their sum |
| JpegDecoder.LoadTable | Decoders/JPEG/decoder.c:161-181 | the table segment is loaded into htable and converted into its Huffman code, as ParseHuffmanTablesF reads it, or the parser's failure is returned |
| JpegDecoder.ParseHuffmanTables | Decoders/JPEG/decoder.c:143-184 | parse_huffman_tables loads the table at class Tc, destination Th that ParseHuffmanTablesF reads, converts it into its code, advances the stream by what it read and leaves every other table as it was |
| JpegDecoder.LastSelector | Decoders/JPEG/decoder.c:212-227 | the selector whose Td and Ta a component keeps is the last one naming it, and there is none exactly when no selector names it |
| JpegDecoder.StoreCs | Decoders/JPEG/decoder.c:223 | the scan's component list gains the selector's component at position j and keeps the ones before |
| JpegDecoder.ReadSelector | Decoders/JPEG/decoder.c:216-219 | one scan selector is read as Cs and the Td and Ta nibbles, or fails with a file error |
| JpegDecoder.ReadSelectors | Decoders/JPEG/decoder.c:212-227 | the selector loop fills the scan's component list and each component's Td and Ta as SelectorsF reads them, and reports the parser's status |
| JpegDecoder.ReadSpectral | Decoders/JPEG/decoder.c:233-238 | Ss, Se and the Ah, Al nibbles are read, or the read fails with a file error |
| JpegDecoder.NibblesZero | Decoders/JPEG/decoder.c:248-250 | both nibbles are 0 exactly when the byte is 0 |
| JpegDecoder.FinishScanHeader | Decoders/JPEG/decoder.c:229-258 | the rest of the scan header succeeds exactly when Ss = 0, Se = 63 and Ah = Al = 0, resets the MCU counter, and otherwise fails with a file error when short or as unsupported |
| JpegDecoder.ParseScanHeader | Decoders/JPEG/decoder.c:197-259 | parse_scan_header stores Ns, the component list and each component's Td and Ta as ParseScanHeaderF reads them, resets the MCU counter, and reports the parser's status |
| JpegDecoder.StoreBlock | Decoders/JPEG/coeffs.c:246-255 | the block read is stored as block b of the component's buffer, and nothing else changes |
| JpegDecoder.AddPredictor | Decoders/JPEG/decoder.c:297-299 | the last block's DC coefficient is added to the new block's, when there is a last block |
| JpegDecoder.Deposit | Decoders/JPEG/decoder.c:291-301 | a block read is stored, its DC predictor removed, and it becomes the component's last block |
| JpegDecoder.ReadVisit | Decoders/JPEG/decoder.c:285-355 | reading one block of an MCU changes the buffers, the predictors and the bit reader as ReadVisitF says |
| JpegDecoder.CellSlot | Decoders/JPEG/decoder.c:329-344 | the index read_macroblock computes for an interleaved block is the one Slot gives, and none past the grid |
| JpegDecoder.RunSlot | Decoders/JPEG/decoder.c:286-291 | the index read_macroblock computes for a non-interleaved block is the one Slot gives |
| JpegDecoder.ReadMcuCells | Decoders/JPEG/decoder.c:318-358 | the interleaved loops read the MCU's blocks as ReadVisitsF does and report whether the MCU had any |
| JpegDecoder.ReadSequential | Decoders/JPEG/decoder.c:274-302 | the non-interleaved branch reads the MCU's H V blocks of the one component as the specification of MCU reading says |
| JpegDecoder.ReadInterleaved | Decoders/JPEG/decoder.c:303-358 | the interleaved branch reads the MCU's blocks of every component in turn as the specification of MCU reading says |
| JpegDecoder.ReadMacroblock | Decoders/JPEG/decoder.c:262-362 | read_macroblock's status and its effect on the buffers, the predictors and the bit reader are those ReadMcuF gives |
| JpegDecoder.McuPlannedNone | Decoders/JPEG/decoder.c:271-273 | a scan without components reads nothing and reports no more data |
| JpegDecoder.McuPlannedNoGrid | Decoders/JPEG/decoder.c:306-309 | an interleaved scan with no MCU grid is refused as unsupported |
| JpegDecoder.EcsNext | Decoders/JPEG/decoder.c:376-382 | after an MCU that reads, read_ecs goes on with the next; after one that fails it ends, with success on no more data and with the failure otherwise |
| JpegDecoder.ReadEcs | Decoders/JPEG/decoder.c:364-388 | read_ecs resets the predictors, and its status, MCU count, buffers and predictors are those ReadEcsF gives for the entropy-coded bits of the stream, with at most one byte's bits left unread |
| JpegDecoder.ParseRestartInterval | Decoders/JPEG/decoder.c:390-401 | the restart interval is the next word of the stream; a short stream fails with a file error and leaves it as it was |
| JpegDecoder.CommentF | Decoders/JPEG/decoder.c:403-431 | a comment of length field len is its next len - 2 bytes; a length below 2 is unsupported and a short stream a file error |
| JpegDecoder.ParseComment | Decoders/JPEG/decoder.c:403-431 | parse_comment skips the comment CommentF reads and reports its status |
| JpegFormat.QTablesF | Decoders/JPEG/decoder.c:523-526 | the tables of a DQT segment are parsed one after another until the stream position reaches the segment's end; each parse moves forward and keeps the tables before |
| JpegFormat.DqtSegmentF | Decoders/JPEG/decoder.c:517-527 | a DQT segment that parses uses at least its length field and holds at least one table |
| JpegFormat.LastQt | Decoders/JPEG/decoder.c:41-56 | the table a destination keeps is the last one the segment gives it, and there is none exactly when no table names it |
| JpegFormat.DqtSegmentRoundTrip | Decoders/JPEG/encoder.c:205-234 | the DQT segment produce_DQT writes for one 8-bit table parses back, through parse_format's DQT loop, as that one table with its whole length used |
| JpegFormat.HTablesF | Decoders/JPEG/decoder.c:587-590 | the tables of a DHT segment are parsed one after another until the segment's end; each parse moves forward and keeps the tables before |
| JpegFormat.DhtSegmentF | Decoders/JPEG/decoder.c:580-591 | a DHT segment that parses uses at least its length field and holds at least one table |
| JpegFormat.LastHt | Decoders/JPEG/decoder.c:161-181 | the table a class and destination keep is the last one the segment gives them, and there is none exactly when no table names them |
| JpegFormat.DhtSegmentRoundTrip | Decoders/JPEG/encoder.c:276-316 | the DHT segment produce_DHT writes for one table parses back, through parse_format's DHT loop, as that table with its whole length used |
| JpegFormat.SkipMarkerSegment | Decoders/JPEG/io.c:237-245 | skipping a segment moves the stream to the end its length field gives, counted from the length field itself, or fails with a file error when there is no length |
| JpegFormat.ParseDqtStep | Decoders/JPEG/decoder.c:524-525 | one turn of the DQT loop is parse_qtable: the table it reads is stored and the others keep what they held |
| JpegFormat.ParseDqt | Decoders/JPEG/decoder.c:517-527 | a DQT segment leaves each destination holding the last table the segment gives it, or what it held before when none, and reports DqtSegmentF's status |
| JpegFormat.ParseDhtStep | Decoders/JPEG/decoder.c:588-589 | one turn of the DHT loop is parse_huffman_tables: the table it reads is loaded and the others keep what they held |
| JpegFormat.ParseDht | Decoders/JPEG/decoder.c:580-591 | a DHT segment leaves each class and destination holding the last table the segment gives it, or what it held before when none, and reports DhtSegmentF's status |
| JpegFormat.ParseDri | Decoders/JPEG/decoder.c:613-620 | a DRI segment sets the restart interval to the word after its length; a short stream fails with a file error and keeps the interval |
| JpegFormat.ParseCom | Decoders/JPEG/decoder.c:634-641 | a COM segment skips the comment its length field gives and reports parse_comment's status |
| JpegFormat.ParseRst | Decoders/JPEG/decoder.c:621-633 | an RSTm marker goes on reading the scan with read_ecs, keeping its components and the MCU grid |
| JpegFormat.ParseEoi | Decoders/JPEG/decoder.c:602-612 | EOI ends the stream with success, with every component's coefficients dequantised as the epilogue starts by doing |
| JpegFormat.SofStatus | Decoders/JPEG/decoder.c:528-579 | a SOFn segment succeeds exactly when the process is SOF0 or SOF1, its frame header parses and it declares some sampling; a header that fails gives its own status |
| JpegFormat.ParseSof | Decoders/JPEG/decoder.c:528-579 | a SOFn segment stores the frame header it reads (precision, size, component count, largest sampling) and reports SofStatus |
| JpegFormat.SosHeader | Decoders/JPEG/decoder.c:595-598 | the SOS segment's length and scan header leave the stream after the header, the MCU counter at 0, and the scan's components and tables as ParseScanHeaderF reads them |
| JpegFormat.ScanEcs | Decoders/JPEG/decoder.c:599-600 | once the scan header has parsed, read_ecs reads the scan the entropy-coded bytes after the header give, over the units with the header's selectors, the tables and the buffers the segment started with: its status is the segment's, and its MCU count, coefficients and last blocks are what the decoder keeps |
| JpegFormat.ParseSos | Decoders/JPEG/decoder.c:592-601 | an SOS segment ends with the scan header's failure, or with the header's components and selectors taken and the scan read as ScanEcs states it: the status, MCU count, coefficients and last blocks of the scan the entropy-coded bytes after the header give |
| JpegFormat.SegmentLength | Decoders/JPEG/io.c:135-143 | read_length reads the length word and keeps nothing of it, or fails with a file error |
| JpegFormat.ParseSkipped | Decoders/JPEG/decoder.c:497-653 | an APPn or DAC segment is skipped to the end its length field gives |
| JpegFormat.CommentSegment | Decoders/JPEG/decoder.c:634-641 | a COM segment in the marker loop skips its comment and reports parse_comment's status |
| JpegFormat.ParseFrameOrScan | Decoders/JPEG/decoder.c:528-633 | a SOFn, SOS or RSTm segment ends as its own parser says (a length cut short with a file error, then SofDone, SosDone or RstDone), and a SOF2, SOF3, SOF9 or SOF10 segment never lets the loop go on |
| JpegFormat.FrameSegment | Decoders/JPEG/decoder.c:528-535 | a SOFn segment fails with a file error when its length is cut short, and otherwise ends as SofDone says for the frame header after the length |
| JpegFormat.ScanSegment | Decoders/JPEG/decoder.c:592-601 | an SOS segment fails with a file error when its length is cut short, and otherwise ends as SosDone says for the scan header and scan after the length |
| JpegFormat.ParseMarker | Decoders/JPEG/decoder.c:489-657 | the switch on one marker: each segment ends as its own parser says (DefinitionDone or FrameOrScanDone); an unhandled marker is unsupported, a refused SOFn fails, SOI and TEM read nothing, EOI ends the stream with the coefficients dequantised, and every segment that parses leaves the decoder ready for the next marker |
| JpegFormat.ParseDefinition | Decoders/JPEG/decoder.c:489-657 | a DQT, DHT, DRI, COM, APPn or DAC segment ends as its own parser says, and the decoder is ready for the next marker whatever the status |
| JpegFormat.ParseControl | Decoders/JPEG/decoder.c:489-657 | SOI and TEM read nothing and succeed, an unhandled marker is unsupported, EOI ends the stream with the coefficients dequantised, and SOFn, SOS and RSTm end as FrameOrScanDone says |
| JpegFormat.NextMarker | Decoders/JPEG/io.c:186-220 | read_marker succeeds exactly when a marker lies ahead of the position, stops right after the first such marker and gives the action the switch takes on it; otherwise it fails with a file error |
| JpegFormat.FormatTurn | Decoders/JPEG/decoder.c:481-658 | one turn of the loop: a file error when no marker lies ahead, and otherwise the action of the first marker ahead and its segment's outcome (unsupported for an unhandled marker, never success for a refused SOFn, EOI at the end of the stream with the coefficients dequantised) |
| JpegFormat.ParseFormat | Decoders/JPEG/decoder.c:472-659 | parse_format reads markers until one ends the loop: action i is that of the first marker from starts[i], and starts[0] is the stream's position; every action but the last lets the loop go on; it succeeds exactly when the last marker read is EOI, at the end of the stream with every component dequantised; an unhandled marker is unsupported, and a stream with no marker fails with a file error |
| JpegFormat.InitialDecoding | Decoders/JPEG/common.c:63-109 | a context as init_context leaves it is one the decoder can work on |
| JpegFormat.ProcessJpegStream | Decoders/JPEG/decoder.c:661-685 | process_jpeg_stream runs parse_format over the stream from its first byte: the decode succeeds exactly when the last marker read is EOI, which leaves every coefficient dequantised; each action i is that of the first marker from starts[i], and starts[0] is the first byte; a stream with no marker fails with a file error |

## Left out

- Output streams: `fwrite` failures are not modelled. io.c:98-105 and io.c:124-133 report RET_FAILURE_FILE_IO when a write fails; here the OutStream methods (JpegIo.WriteByte, JpegIo.WriteWord and the rest) always append.
- JpegCommon.Component.AllocBuffers: malloc failure is not modelled. Here the method always succeeds, while common.c:123-137 returns RET_FAILURE_MEMORY_ALLOCATION when one of the three allocations fails.
- JpegIo.PutBit: takes a single bit. put_bit masks any int with `bit & 1` (io.c:49), and every caller passes 0 or 1.
- JpegHuffman.ConvHtableToHcode: requires 0 < ΣL < 256. Its caller JpegDecoder.LoadTable checks the sum first.
  - ΣL ≥ 256 fails `assert(K < 256)` in generate_size_table (huffman.c:60). The model returns FailureLogicError, as it does for every `assert` that input can break.
  - ΣL = 0 would have generate_code_table (huffman.c:92-99) read huff_size past LASTK. The model refuses such a table with FailureFileUnsupported instead of running on stale sizes.
- JpegCoeffs.DecodeCoeff: yields a value for every category. In C, `INT32_C(1) << cat` (coeffs.c:43) is undefined for a category of 31 or more, and the category comes straight from the file's DC table.
- JpegCoeffs.Int32: leaves out INT32_MIN, whose negation encode_cat and encode_extra cannot form. JpegCoeffs.EncodeCat and JpegCoeffs.EncodeExtra are stated for the other int32_t values.
- JpegDecoder.ReadSpec, JpegDecoder.ReadSelector and JpegDecoder.ParseHuffmanTables check their table indices: a frame component's Tq of 4 or more, a scan selector's Td or Ta of 4 or more, and a DHT destination Th of 4 or more are refused with FailureFileUnsupported. decoder.c indexes with them unchecked (decoder.c:123, 161, 225-226); see "## Findings" for Th.
- JpegMcu.ReadMcuF and JpegDecoder.ReadMacroblock: an MCU without blocks (H V = 0) reports FailureNoMoreData, so read_ecs ends. The source loops forever there; see "## Findings".
- JpegDecoder.ReadRun: a block of a non-interleaved scan past the grid is read as read_block reads a null block (DC only, then "no more data"). The source stores it past the end of int_buffer; see "## Findings".
- JpegMcu.ReadVisitF: a block whose reading fails part way is named as spoilt. The coefficients the source had already stored in it are not described.
- JpegContext.ComputeNoBlocksAndAllocBuffers: refuses max_H or max_V of 0 with FailureFileUnsupported. common.c:171-172 divides by zero there.
- JpegContext.Context.Init: the implicit MJPEG Huffman tables that init_context loads and converts are not part of this model. The tables start empty.
- JpegFormat.ParseFormat: takes a bound on the number of markers it reads, and reports None when the bound runs out. The source's loop is unbounded. The value read_length returns before SOFn, SOS, DRI, APPn and DAC bodies is not used, in the source either.
- JpegFormat.ParseFormat: states where each marker search starts in terms of the first search only. It does not tie starts[i + 1] to the byte where segment i ended, because the position after a scan is not expressed as a function of the input.
- JpegFormat.ParseEoi: the epilogue is modelled up to `dequantize`. inverse_dct and forward_dct (cosines in floating point), conv_blocks_to_frame's call inside it, write_image and the trailing-data diagnostic are not part of this model.
- JpegFormat.ProcessJpegStream: the context is allocated by the caller, so the malloc failure of process_jpeg_stream is not modelled. The file is given as its bytes; process_jpeg_file's fopen is not modelled.
- printf output, diagnostics and the command-line front ends (the `main` of decoder.c and encoder.c) are not part of this model.
- JpegMcu.WriteMcuF, JpegMcu.WriteEcsF, JpegMcu.DryMcuF, JpegMcu.DryEcsF: write_macroblock, write_ecs and their dry runs are modelled as pure functions on the coefficient buffers. The in-place subtraction and restoration of the DC predictor is captured as a value, not as an update of int_buffer: JpegMcu.WriteVisitKeeps states that the buffers come back unchanged.
- JpegImgproc.BlocksToRaster, JpegImgproc.RasterToBlocks: conv_blocks_to_frame and conv_frame_to_blocks are modelled as functions on the buffers' contents, not as the source's loops over the arrays.
- produce_codestream (encoder.c:589-645) and process_stream are not part of this model. Its segment writers, write_ecs and the dry run with table adaptation are modelled one by one, and JpegEncoder.HeadersRoundTrip chains the headers.
- JpegEncoder.SetUp: read_image is modelled from the component set-up on. Reading the PNM header and body into the frame, frame_to_ycc, transform_frame_to_components and the quantize/forward DCT steps of process_stream are not part of this model.
- JpegFrame.Frame.ReadFrameBody: a short or bad body reports FailureFileIo as a whole. The rows already written before the failure are not described.
- frame.c's colour conversions (frame_to_ycc, frame_to_rgb) and write_frame_* are not part of this model; they work in floating point or only write files.
- JpegImgproc.Dequantize: coefficient times quantiser is computed on unbounded integers. The source's int32_t product could overflow for a malformed file.
- Floating-point buffers (flt_buffer, frame data) are modelled as `real`. Rounding of `roundf` is stated on whole values only (JpegImgproc.RoundInteger).
- Unpack: offsets into the output count 16-bit samples, as the source's uint16_t pointer does, not bytes. The AVX2 path of Unpack12to16Bit is left out (only its 4-byte input offset is kept), and Unpack10to16Bit is an empty TODO in the source.
- Unpack.Unpack12to16Bit, Unpack.Unpack14to16Bit: require the size in bytes to be a multiple of 3 (or 7), because the source's loops end with `!=` and never stop otherwise.
- TimeCode: `Debug.Assert` is treated as a no-op, as in release builds.
- DecimalText.IsDigit, DecimalText.ParseUInt: only ASCII digits count. C#'s `char.IsDigit` accepts every Unicode decimal digit, and `uint.TryParse` also accepts surrounding white space and a leading sign.
- Rational: `ToSingle`, `ToDouble` (floating point), `ToString` and `GetHashCode` (Rational.cs:28-66) are not part of this model.
- ShortenPath.ShortenPath: lengths count Dafny characters where C# `Length` counts UTF-16 code units. The default `maxLength = 48` is not modelled, since every call states its length. The directory separator is a parameter instead of `Path.DirectorySeparatorChar`.
- RecentFiles: `List.Sort` is modelled as a stable insertion sort; the order of equal timestamps is not fixed by the source. DateTime is a tick count, the clock is a parameter, and JSON persistence is not part of this model.
- ClipCinemaDng: the directory listing is passed in as parameters. ReadMetadata, FolderHasDNG, AdjacentClip and the NextClip/PreviousClip properties (ClipCinemaDNG.cs:14-35, 53-83, 113-176) depend on the file system and the DNG reader, and are not part of this model.

## Findings

| source | as written | input that shows it | evidently intended | confidence | as-written member | corrected member |
|---|---|---|---|---|---|---|
| Decoders/JPEG/coeffs.c:246-247 | the zero run of an AC symbol is added to the position without a bound | four ZRL symbols (0xF0) read from position 1 store their zeros at positions 16, 32, 48 and 64; the last is `zigzag[64]`, past the block | refuse a run that goes past position 63 | not executed | JpegCoeffsRead.AsWrittenOverrun | JpegCoeffsRead.ZrlsOverrun |
| Decoders/JPEG/huffman.c:437-440 | the final `while (BITS(i) == 0) i--;` of adjust_bits has no lower bound | a histogram where only the reserved value 256 was counted (a scan with no MCU): code_size stops at once, every code size stays 0, count_bits leaves every BITS entry 0, and the search reads BITS(-1). It is latent because write_ecs_dry (encoder.c:538-555) adapts tables that every MCU feeds at least one real DC and AC symbol, so it shows only when there are no MCUs | stop the search at length 1 | not executed | JpegHuffmanAdapt.NoCodesReadsBefore | JpegHuffmanAdapt.AdjustBits |
| UI/Common/PlayerApplication.cs:193-197 | the file-name branch calls `Substring` with a start computed from the lengths, which can be negative | "aaaa/b" with maxLength 5 gives the start -1, so `Substring` throws | shorten every path longer than maxLength to a prefix, "..." and a suffix | not executed | ShortenPath.ShortFileNameThrows | ShortenPath.ShortenedFixedShape |
| UI/Common/RecentFiles.cs:63,87-89 | `Touch` runs on a copy of the struct entry, and the ascending sort followed by `RemoveRange(maxEntries, …)` keeps the oldest entries | reopening a listed clip leaves its time unchanged; opening a new clip while MaxEntries older ones are listed drops it at once | refresh the entry and keep the newest MaxEntries | not executed | RecentFiles.TouchHasNoEffect | RecentFiles.OpenedFixedKeepsClip |
| Decoders/JPEG/decoder.c:276-302,376-382 | an MCU with no block (H·V = 0) reads nothing, and the ECS loop goes on forever | an SOS naming a component the frame did not declare, so its sampling factors are 0 | end the ECS when an MCU holds no block | not executed | JpegMcu.EcsAsWrittenNeverEnds | JpegMcu.EcsWithoutBlocksEnds |
| Decoders/JPEG/decoder.c:285-291 | in a scan with one component, the block index of the run is not checked against the block grid | a 1x1-sampled component with a one-block grid, at MCU number 1: the block stored is block 1 of a one-block buffer | stop at the end of the grid | not executed | JpegScan.RunBlockAsWrittenOverruns | JpegScan.RunSlotBounded |
| Decoders/JPEG/decoder.c:161 | the table class Tc and destination Th of a DHT segment are combined into an index without a check on Th | byte 0x04 writes DC table 4, which is AC table 0; byte 0x14 writes past the eight tables | refuse Th above 3 | not executed | JpegSegments.DhtDestinationStrays | JpegSegments.DhtDestinationChecked |
