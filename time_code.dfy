/// Minute/second/frame timecodes and their conversion to and from frame counts,
/// including SMPTE drop-frame counting at 29.97 and 59.94 fps (Core/Maths/TimeCode.cs).
module TimeCode {
  import opened DecimalText
  import Rational
  import SmpteTimeCode
  import opened Arith

  const Two16: int := 0x1_0000
  const Two32: int := 0x1_0000_0000
  const Two63: int := 0x8000_0000_0000_0000
  const Two64: int := 0x1_0000_0000_0000_0000

  /** C#'s unchecked narrowing conversions and wrapping arithmetic. */
  function U16(x: int): int { x % Two16 }
  function U32(x: int): int { x % Two32 }
  function U64(x: int): int { x % Two64 }
  /** (long) of a ulong. */
  function ToLong(u: int): int requires 0 <= u < Two64 { if u < Two63 then u else u - Two64 }

  /** C#'s integer division and remainder truncate toward zero. */
  function TDiv(a: int, b: int): int
    requires b > 0
  {
    if a >= 0 then a / b else -((-a) / b)
  }

  function TRem(a: int, b: int): int
    requires b > 0
  {
    if a >= 0 then a % b else -((-a) % b)
  }

  /** Truncated division and remainder recombine to the dividend, and the remainder takes the
      dividend's sign. */
  lemma {:induction false} TruncatedDivision(a: int, b: int)
    requires b > 0
    ensures a == TDiv(a, b) * b + TRem(a, b)
    ensures a >= 0 ==> 0 <= TRem(a, b) < b
    ensures a < 0 ==> -b < TRem(a, b) <= 0
  {
    if a < 0 {
      assert -a == ((-a) / b) * b + (-a) % b;
    }
  }

  predicate IsUlong(x: int) { 0 <= x < Two64 }

  /** Math.Round(n / (double)d): round half to even. For 32-bit operands the double quotient
      never crosses a rounding boundary, so the exact rational is rounded here. */
  function RoundHalfEven(n: int, d: int): int
    requires d != 0
  {
    var nn := if d > 0 then n else -n;
    var dd := if d > 0 then d else -d;
    var f := nn / dd;
    var twice := 2 * (nn % dd);
    if twice < dd then f
    else if twice > dd then f + 1
    else if f % 2 == 0 then f else f + 1
  }

  /** The rounded value is within half a unit of n / d, and a tie goes to the even neighbour. */
  lemma {:induction false} RoundHalfEvenNearest(n: int, d: int)
    requires d > 0
    ensures var r := RoundHalfEven(n, d);
            -d <= 2 * (n - r * d) <= d
            && (2 * (n - r * d) == d || 2 * (n - r * d) == -d ==> r % 2 == 0)
  {
    var f := n / d;
    var r := RoundHalfEven(n, d);
    assert n == f * d + n % d;
    if r == f + 1 {
      assert n - r * d == n % d - d;
    }
  }

  /** The rate rounded to a whole number of frames per second. */
  function RoundedRate(fr: Rational.Rational): int
    requires fr.denominator != 0
  {
    RoundHalfEven(fr.numerator, fr.denominator)
  }

  const NtscRate: Rational.Rational := Rational.Rational(30000, 1001)
  const NtscDoubleRate: Rational.Rational := Rational.Rational(60000, 1001)

  /** With no explicit choice, drop-frame is used exactly for 30000/1001 and 60000/1001. */
  function DefaultDropFrame(fr: Rational.Rational): bool {
    Rational.Eq(fr, NtscRate) || Rational.Eq(fr, NtscDoubleRate)
  }

  /** Rates the source can convert: zero and infinite rates return early; any other rate must round
      to a value a uint (and a ulong) can hold, since the conversion of an out-of-range double is
      unspecified in C#. */
  predicate RateConvertible(fr: Rational.Rational) {
    fr.IsInfinity() || fr.IsZero() || (fr.denominator != 0 && 0 <= RoundedRate(fr) < Two32)
  }

  /** Frame and Second are ushort properties, Minute a uint. */
  datatype TimeCode = TimeCode(frame: int, second: int, minute: int)
  {
    predicate Valid() { 0 <= frame < Two16 && 0 <= second < Two16 && 0 <= minute < Two32 }

    /** Reset zeroes the three fields. */
    function Reset(): (t: TimeCode)
      ensures t.Valid() && t.frame == 0 && t.second == 0 && t.minute == 0
    {
      TimeCode(0, 0, 0)
    }

    /** "MM:SS:FF" with each field zero-padded to at least two digits; the dropFrame
        argument of the source is ignored, so the separator is always ':'. Each field
        takes max(2, its digit count) characters and reads back as the field. */
    function ToString(dropFrame: bool): (s: string)
      requires Valid()
      ensures FieldsRead(s, minute, second, frame)
      ensures minute < 100 && second < 100 && frame < 100 ==> |s| == 8 && s[2] == ':' && s[5] == ':'
    {
      FieldsText(minute, second, frame);
      ZeroPad(minute, 2) + ":" + ZeroPad(second, 2) + ":" + ZeroPad(frame, 2)
    }
  }

  /** s is three ':'-separated digit strings of max(2, digit count) characters each,
      reading back as the minute, the second and the frame. */
  predicate FieldsRead(s: string, minute: nat, second: nat, frame: nat) {
    var a, b, c := PadWidth(minute), PadWidth(second), PadWidth(frame);
    |s| == a + b + c + 2 && s[a] == ':' && s[a + b + 1] == ':'
    && AllDigits(s[..a]) && AllDigits(s[a + 1..a + b + 1]) && AllDigits(s[a + b + 2..])
    && Value(s[..a]) == minute && Value(s[a + 1..a + b + 1]) == second
    && Value(s[a + b + 2..]) == frame
  }

  lemma {:induction false} FieldsText(minute: nat, second: nat, frame: nat)
    ensures FieldsRead(ZeroPad(minute, 2) + ":" + ZeroPad(second, 2) + ":" + ZeroPad(frame, 2), minute, second, frame)
    ensures minute < 100 && second < 100 && frame < 100 ==>
              |ZeroPad(minute, 2) + ":" + ZeroPad(second, 2) + ":" + ZeroPad(frame, 2)| == 8
  {
    var m, sc, f := ZeroPad(minute, 2), ZeroPad(second, 2), ZeroPad(frame, 2);
    ZeroPadValue(minute, 2);
    ZeroPadValue(second, 2);
    ZeroPadValue(frame, 2);
    FieldsReadJoin(m, sc, f, minute, second, frame);
    if minute < 100 && second < 100 && frame < 100 {
      TwoDigitPad(minute);
      TwoDigitPad(second);
      TwoDigitPad(frame);
    }
  }

  lemma {:induction false} FieldsReadJoin(x: string, y: string, z: string, minute: nat, second: nat, frame: nat)
    requires |x| == PadWidth(minute) && |y| == PadWidth(second) && |z| == PadWidth(frame)
    requires AllDigits(x) && AllDigits(y) && AllDigits(z)
    requires Value(x) == minute && Value(y) == second && Value(z) == frame
    ensures FieldsRead(x + ":" + y + ":" + z, minute, second, frame)
  {
    JoinFields(x, y, z);
  }

  /** The three fields joined with ':' can be cut back into the three fields. */
  lemma {:induction false} JoinFields(x: string, y: string, z: string)
    ensures var s := x + ":" + y + ":" + z;
            |s| == |x| + |y| + |z| + 2 && s[|x|] == ':' && s[|x| + |y| + 1] == ':'
            && s[..|x|] == x && s[|x| + 1..|x| + |y| + 1] == y && s[|x| + |y| + 2..] == z
  {
    var s := x + ":" + y + ":" + z;
    assert s[..|x|] == x;
    assert s[|x| + 1..|x| + |y| + 1] == y;
    assert s[|x| + |y| + 2..] == z;
  }

  /** Characters "D2" gives a field: two, or its digit count when that is larger. */
  function PadWidth(n: nat): (w: nat)
    ensures w >= 2 && w >= |Digits(n)|
  {
    if |Digits(n)| >= 2 then |Digits(n)| else 2
  }

  /** TimeCode(ulong frames, uint framerate). A zero rate leaves every field 0. */
  function FromFramesAtIntegerRate(frames: int, framerate: int): (t: TimeCode)
    requires IsUlong(frames) && 0 <= framerate < Two32
    ensures t.Valid()
    ensures framerate == 0 ==> t == TimeCode(0, 0, 0)
  {
    if framerate != 0 then
      var totalSeconds := frames / framerate;
      var minute := U32(totalSeconds / 60);
      TimeCode(U16(frames - totalSeconds * framerate), U16(totalSeconds - minute * 60), minute)
    else TimeCode(0, 0, 0)
  }

  /** TimeCode(SMPTETimeCode): tens * 10 + units for each field; the hours are dropped. */
  function FromSmpte(tc: SmpteTimeCode.SmpteTimeCode): (t: TimeCode)
    ensures t.Valid()
    ensures t.frame == tc.Frames() && t.second == tc.Seconds() && t.minute == tc.Minutes()
  {
    var f, s, m := tc.Frames(), tc.Seconds(), tc.Minutes();
    U16Small(f); U16Small(s); U16Small(m);
    TimeCode(U16(f), U16(s), U16(m))
  }

  /** A value that fits in 16 bits is kept by the ushort cast. */
  lemma U16Small(x: int)
    requires 0 <= x < Two16
    ensures U16(x) == x
  {
  }

  /** The outcome of the rational-rate constructor: a rate that rounds to 0 makes the non-drop
      path divide by zero, which throws. */
  datatype Construction = Built(tc: TimeCode) | DivideByZero

  /** Drop-frame parameters: frames dropped per minute and frames per ten minutes. */
  function DropParameters(fr: Rational.Rational): (int, int) {
    if Rational.Eq(fr, NtscRate) then (2, 17982)
    else if Rational.Eq(fr, NtscDoubleRate) then (4, 35964)
    else (0, 0)
  }

  /** The drop-frame branch of the rational-rate constructor: renumber the count as if no frame
      numbers were skipped, then split it at the rounded integer rate. */
  function DropFrameSplit(frames: int, dropFrames: int, framesPer10Minutes: int, framerateInteger: int): (t: TimeCode)
    requires IsUlong(frames) && dropFrames > 0 && framesPer10Minutes >= 10 && framerateInteger > 0
    ensures t.Valid()
  {
    SplitAtRate(Renumbered(frames, dropFrames, framesPer10Minutes), framerateInteger)
  }

  /** frames + 9 * dropFrames * D + dropFrames * ((M - dropFrames) / (framesPer10Minutes / 10)),
      in long arithmetic, converted back to ulong. */
  function Renumbered(frames: int, dropFrames: int, framesPer10Minutes: int): (adjusted: int)
    requires IsUlong(frames) && framesPer10Minutes >= 10
    ensures IsUlong(adjusted)
  {
    var d := TDiv(ToLong(frames), framesPer10Minutes);
    var m := TRem(ToLong(frames), framesPer10Minutes);
    U64(frames + U64(9 * dropFrames * d + dropFrames * TDiv(m - dropFrames, framesPer10Minutes / 10)))
  }

  /** The long-valued split of the renumbered count into frame, second and minute fields. */
  function SplitAtRate(adjusted: int, framerateInteger: int): (t: TimeCode)
    requires IsUlong(adjusted) && framerateInteger > 0
    ensures t.Valid()
  {
    TimeCode(U16(TRem(ToLong(adjusted), framerateInteger)),
             U16(TRem(TDiv(ToLong(adjusted), framerateInteger), 60)),
             U32(TDiv(ToLong(adjusted), framerateInteger * 60)))
  }

  /** The drop-frame formulas of TotalFrames: perMinute frames per nominal minute, perSecond per
      second, dropFrames numbers skipped in every minute not divisible by ten. */
  function DropFrameNumber(t: TimeCode, perMinute: int, perSecond: int, dropFrames: int): (n: int)
    requires t.Valid()
    ensures IsUlong(n)
  {
    U64(U32(perMinute * t.minute) + perSecond * t.second + t.frame - U32(dropFrames * (t.minute - t.minute / 10)))
  }

  /** TimeCode(ulong frames, Rational framerate, bool? dropFrame); dropFrame None is the C# null. */
  function FromFrames(frames: int, fr: Rational.Rational, dropFrame: Option<bool>): (c: Construction)
    requires IsUlong(frames) && RateConvertible(fr)
    ensures c.Built? ==> c.tc.Valid()
    ensures fr.IsInfinity() || fr.IsZero() ==> c == Built(TimeCode(0, 0, 0))
    ensures c.DivideByZero? ==> !fr.IsInfinity() && !fr.IsZero() && RoundedRate(fr) == 0
    ensures var drop := if dropFrame.Some? then dropFrame.value else DefaultDropFrame(fr);
            !fr.IsInfinity() && !fr.IsZero() && drop && DropParameters(fr).0 == 0 ==>
              c == Built(TimeCode(0, 0, 0))
  {
    if fr.IsInfinity() || fr.IsZero() then Built(TimeCode(0, 0, 0))
    else
      var drop := if dropFrame.Some? then dropFrame.value else DefaultDropFrame(fr);
      if drop then
        var (dropFrames, framesPer10Minutes) := DropParameters(fr);
        if dropFrames == 0 then Built(TimeCode(0, 0, 0))
        else
          NtscRatesRound();
          Built(DropFrameSplit(frames, dropFrames, framesPer10Minutes, RoundedRate(fr)))
      else
        var framerateInteger := RoundedRate(fr);
        if framerateInteger == 0 then DivideByZero
        else
          var totalSeconds := frames / framerateInteger;
          var minute := U32(totalSeconds / 60);
          Built(TimeCode(U16(frames - totalSeconds * framerateInteger), U16(totalSeconds - minute * 60), minute))
  }

  /** TotalFrames(Rational framerate, bool? dropFrame). The drop-frame formulas mix uint and long
      arithmetic: 1800 * Minute and 2 * (Minute - Minute / 10) wrap modulo 2^32. */
  function TotalFrames(t: TimeCode, fr: Rational.Rational, dropFrame: Option<bool>): (n: int)
    requires t.Valid() && RateConvertible(fr)
    ensures IsUlong(n)
    ensures fr.IsInfinity() || fr.IsZero() ==> n == 0
  {
    if fr.IsInfinity() || fr.IsZero() then 0
    else
      var drop := if dropFrame.Some? then dropFrame.value else DefaultDropFrame(fr);
      if drop && Rational.Eq(fr, NtscRate) then DropFrameNumber(t, 1800, 30, 2)
      else if drop && Rational.Eq(fr, NtscDoubleRate) then DropFrameNumber(t, 3600, 60, 4)
      else
        var framerateInteger := RoundedRate(fr);
        U64(t.frame + t.second * framerateInteger + t.minute * 60 * framerateInteger)
  }

  /** 30000/1001 rounds to 30 and 60000/1001 to 60. */
  lemma {:induction false} NtscRatesRound()
    ensures RoundedRate(NtscRate) == 30 && RoundedRate(NtscDoubleRate) == 60
  {
  }

  /** Splitting a count into frames, seconds and minutes at an integer rate and adding it back up. */
  lemma {:induction false} SplitJoin(x: int, rate: int)
    requires x >= 0 && rate > 0
    ensures (x / rate / 60) * 60 * rate + (x / rate % 60) * rate + x % rate == x
    ensures x / (rate * 60) == x / rate / 60
  {
    var s := x / rate;
    assert x == rate * s + x % rate;
    assert s == 60 * (s / 60) + s % 60;
    assert rate * s == rate * (60 * (s / 60)) + rate * (s % 60);
    DivDiv(x, rate, 60);
  }

  /** With a positive rate that fits the ushort frame field and a minute count that fits a uint,
      the uint-rate constructor splits the count exactly. */
  lemma {:induction false} IntegerRateSplits(frames: int, framerate: int)
    requires IsUlong(frames) && 0 < framerate <= Two16 && frames / framerate / 60 < Two32
    ensures var t := FromFramesAtIntegerRate(frames, framerate);
            t.frame < framerate && t.second < 60
            && (t.minute * 60 + t.second) * framerate + t.frame == frames
  {
    var s := frames / framerate;
    var minute := s / 60;
    assert frames - s * framerate == frames % framerate;
    assert s - minute * 60 == s % 60;
    assert U32(minute) == minute;
    SplitJoin(frames, framerate);
    MulAddMul(minute * 60, s % 60, framerate);
  }

  /** (a + b) * r == a * r + b * r, kept apart so the split proof stays linear. */
  lemma {:induction false} MulAddMul(a: int, b: int, r: int)
    ensures (a + b) * r == a * r + b * r
  {
  }

  /** With drop-frame off, the constructor is the integer-rate split at the rounded rate. */
  lemma {:induction false} NonDropIsIntegerSplit(n: int, fr: Rational.Rational)
    requires IsUlong(n) && RateConvertible(fr) && !fr.IsInfinity() && !fr.IsZero() && RoundedRate(fr) > 0
    ensures FromFrames(n, fr, Some(false)) == Built(FromFramesAtIntegerRate(n, RoundedRate(fr)))
  {
  }

  /** With drop-frame off, TotalFrames adds the fields back up at the rounded rate. */
  lemma {:induction false} NonDropTotal(t: TimeCode, fr: Rational.Rational)
    requires t.Valid() && RateConvertible(fr) && !fr.IsInfinity() && !fr.IsZero()
    ensures TotalFrames(t, fr, Some(false)) == U64(t.frame + t.second * RoundedRate(fr) + t.minute * 60 * RoundedRate(fr))
  {
  }

  /** Non-drop round trip at the rounded integer rate, as long as no field is truncated. */
  lemma {:induction false} NonDropRoundTrip(n: int, fr: Rational.Rational)
    requires IsUlong(n) && RateConvertible(fr) && !fr.IsInfinity() && !fr.IsZero()
    requires 0 < RoundedRate(fr) <= Two16 && n / RoundedRate(fr) / 60 < Two32
    ensures FromFrames(n, fr, Some(false)).Built?
    ensures TotalFrames(FromFrames(n, fr, Some(false)).tc, fr, Some(false)) == n
  {
    var rate := RoundedRate(fr);
    NonDropIsIntegerSplit(n, fr);
    var t := FromFramesAtIntegerRate(n, rate);
    NonDropTotal(t, fr);
    IntegerRateSplits(n, rate);
    var total := t.frame + t.second * rate + t.minute * 60 * rate;
    assert total == (t.minute * 60 + t.second) * rate + t.frame;
  }

  /** Drop-frame round trip at 29.97 fps (2 frame numbers skipped per minute, except every tenth
      minute) for counts whose timecode does not overflow the uint arithmetic. */
  lemma {:induction false} DropRoundTrip2997(n: int)
    requires 0 <= n < 4_000_000_000
    ensures FromFrames(n, NtscRate, None).Built?
    ensures TotalFrames(FromFrames(n, NtscRate, None).tc, NtscRate, None) == n
  {
    NtscRatesRound();
    assert FromFrames(n, NtscRate, None) == Built(DropFrameSplit(n, 2, 17982, 30));
    DropSplitRoundTrip2997(n);
  }

  /** Drop-frame round trip at 59.94 fps (4 frame numbers skipped per minute, except every tenth minute). */
  lemma {:induction false} DropRoundTrip5994(n: int)
    requires 0 <= n < 4_000_000_000
    ensures FromFrames(n, NtscDoubleRate, None).Built?
    ensures TotalFrames(FromFrames(n, NtscDoubleRate, None).tc, NtscDoubleRate, None) == n
  {
    NtscRatesRound();
    assert FromFrames(n, NtscDoubleRate, None) == Built(DropFrameSplit(n, 4, 35964, 60));
    DropSplitRoundTrip5994(n);
  }

  /** The final split of a renumbered count below 2^32 into frame, second and minute fields. */
  lemma {:induction false} SplitAt(adjusted: int, rate: int, minutes: int)
    requires 0 <= adjusted < Two32 && (rate == 30 || rate == 60) && adjusted / (rate * 60) == minutes
    ensures SplitAtRate(adjusted, rate) == TimeCode(adjusted % rate, adjusted / rate % 60, minutes)
    ensures adjusted % rate + rate * (adjusted / rate % 60) + rate * 60 * minutes == adjusted
  {
    SplitJoin(adjusted, rate);
    assert ToLong(adjusted) == adjusted;
    assert TRem(adjusted, rate) == adjusted % rate < Two16;
    assert TDiv(adjusted, rate) == adjusted / rate;
    assert TRem(adjusted / rate, 60) == adjusted / rate % 60 < Two16;
    assert TDiv(adjusted, rate * 60) == minutes <= adjusted < Two32;
  }

  /** The drop-frame formula applied to minute 10 * d + q, whose uint products do not wrap. */
  lemma {:induction false} DropNumberOf(t: TimeCode, perMinute: int, perSecond: int, df: int, d: int, q: int)
    requires (perMinute == 1800 && perSecond == 30 && df == 2) || (perMinute == 3600 && perSecond == 60 && df == 4)
    requires t.Valid() && t.minute == 10 * d + q && d >= 0 && 0 <= q <= 9
    requires perMinute * t.minute < Two32 && t.second < 60
    ensures DropFrameNumber(t, perMinute, perSecond, df) == t.frame + perSecond * t.second + perMinute * t.minute - df * (9 * d + q)
  {
    assert t.minute / 10 == d;
    var skipped := df * (t.minute - t.minute / 10);
    assert skipped == df * (9 * d + q) && 0 <= skipped <= perMinute * t.minute;
    assert U32(perMinute * t.minute) == perMinute * t.minute;
    assert U32(skipped) == skipped;
  }

  /** Inside a ten-minute block, position m falls in minute q once the skipped numbers of the
      minutes before it are added back. */
  lemma {:induction false} MinuteInBlock(m: int, df: int, tenth: int, perMinute: int, per10: int)
    requires (df == 2 && tenth == 1798 && perMinute == 1800 && per10 == 17982)
          || (df == 4 && tenth == 3596 && perMinute == 3600 && per10 == 35964)
    requires 0 <= m < per10
    ensures var q := TDiv(m - df, tenth);
            0 <= q <= 9 && perMinute * q <= m + df * q < perMinute * (q + 1)
  {
    if m - df >= 0 {
      DivModUnique(m - df, tenth, TDiv(m - df, tenth), (m - df) % tenth);
    }
  }

  /** The renumbering of a count below 2^32, in terms of its ten-minute block d and minute q. */
  lemma {:induction false} RenumberedValue(n: int, df: int, per10: int, d: int, q: int)
    requires (df == 2 && per10 == 17982) || (df == 4 && per10 == 35964)
    requires 0 <= n < Two32 && d == n / per10 && q == TDiv(n % per10 - df, per10 / 10) && 0 <= q <= 9
    ensures Renumbered(n, df, per10) == n + 9 * df * d + df * q
  {
    assert ToLong(n) == n;
    assert TDiv(n, per10) == d && TRem(n, per10) == n % per10;
    var extra := WrappedExtra(df, d, q);
    assert U64(n + extra) == n + extra;
  }

  /** The added-back count 9 * df * d + df * q stays far below 2^63 for counts below 2^32. */
  lemma {:induction false} WrappedExtra(df: int, d: int, q: int) returns (extra: int)
    requires (df == 2 || df == 4) && 0 <= d < Two32 && 0 <= q <= 9
    ensures extra == 9 * df * d + df * q && 0 <= extra < 40 * Two32 && U64(extra) == extra
  {
    if df == 2 {
      extra := 18 * d + 2 * q;
    } else {
      extra := 36 * d + 4 * q;
    }
  }

  /** Renumbering at 29.97 fps: the ten-minute blocks and the minute inside the current block. */
  lemma {:induction false} Renumber2997(n: int) returns (d: int, q: int)
    requires 0 <= n < 4_000_000_000
    ensures d == n / 17982 && 0 <= q <= 9
    ensures var adjusted := n + 18 * d + 2 * q;
            adjusted < Two32 && adjusted / 1800 == 10 * d + q
            && DropFrameSplit(n, 2, 17982, 30) == TimeCode(adjusted % 30, adjusted / 30 % 60, adjusted / 1800)
  {
    d := n / 17982;
    var m := n % 17982;
    q := TDiv(m - 2, 1798);
    MinuteInBlock(m, 2, 1798, 1800, 17982);
    var adjusted := n + 18 * d + 2 * q;
    assert adjusted == 1800 * (10 * d + q) + (m + 2 * q - 1800 * q);
    DivModUnique(adjusted, 1800, 10 * d + q, m + 2 * q - 1800 * q);
    RenumberedValue(n, 2, 17982, d, q);
    SplitAt(adjusted, 30, 10 * d + q);
  }

  lemma {:induction false} DropSplitRoundTrip2997(n: int)
    requires 0 <= n < 4_000_000_000
    ensures DropFrameNumber(DropFrameSplit(n, 2, 17982, 30), 1800, 30, 2) == n
  {
    var d, q := Renumber2997(n);
    var adjusted := n + 18 * d + 2 * q;
    SplitAt(adjusted, 30, 10 * d + q);
    DropNumberOf(DropFrameSplit(n, 2, 17982, 30), 1800, 30, 2, d, q);
  }

  /** Renumbering at 59.94 fps: the ten-minute blocks and the minute inside the current block. */
  lemma {:induction false} Renumber5994(n: int) returns (d: int, q: int)
    requires 0 <= n < 4_000_000_000
    ensures d == n / 35964 && 0 <= q <= 9
    ensures var adjusted := n + 36 * d + 4 * q;
            adjusted < Two32 && adjusted / 3600 == 10 * d + q
            && DropFrameSplit(n, 4, 35964, 60) == TimeCode(adjusted % 60, adjusted / 60 % 60, adjusted / 3600)
  {
    d := n / 35964;
    var m := n % 35964;
    q := TDiv(m - 4, 3596);
    MinuteInBlock(m, 4, 3596, 3600, 35964);
    var adjusted := n + 36 * d + 4 * q;
    assert adjusted == 3600 * (10 * d + q) + (m + 4 * q - 3600 * q);
    DivModUnique(adjusted, 3600, 10 * d + q, m + 4 * q - 3600 * q);
    RenumberedValue(n, 4, 35964, d, q);
    SplitAt(adjusted, 60, 10 * d + q);
  }

  lemma {:induction false} DropSplitRoundTrip5994(n: int)
    requires 0 <= n < 4_000_000_000
    ensures DropFrameNumber(DropFrameSplit(n, 4, 35964, 60), 3600, 60, 4) == n
  {
    var d, q := Renumber5994(n);
    var adjusted := n + 36 * d + 4 * q;
    SplitAt(adjusted, 60, 10 * d + q);
    DropNumberOf(DropFrameSplit(n, 4, 35964, 60), 3600, 60, 4, d, q);
  }
}
