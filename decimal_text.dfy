/// Decimal rendering and parsing of unsigned integers, as done by .NET's "D<n>" format
/// and uint.TryParse; shared by the timecode and clip modules.
module DecimalText {

  datatype Option<T> = None | Some(value: T)

  const Uint32Modulus: int := 0x1_0000_0000

  predicate IsDigit(c: char) { '0' <= c <= '9' }

  predicate AllDigits(s: string) { forall i :: 0 <= i < |s| ==> IsDigit(s[i]) }

  function DigitChar(d: int): (c: char)
    requires 0 <= d < 10
    ensures IsDigit(c) && c as int - '0' as int == d
  {
    ('0' as int + d) as char
  }

  /** Shortest decimal rendering, as ToString() gives it. */
  function Digits(n: nat): (s: string)
    ensures |s| >= 1 && AllDigits(s)
    decreases n
  {
    if n < 10 then [DigitChar(n)] else Digits(n / 10) + [DigitChar(n % 10)]
  }

  function Zeros(k: nat): (s: string)
    ensures |s| == k && AllDigits(s)
  {
    seq(k, _ => '0')
  }

  /** ToString("D<width>"): at least width digits, padded on the left with zeros. */
  function ZeroPad(n: nat, width: nat): (s: string)
    ensures AllDigits(s)
    ensures |s| == if |Digits(n)| >= width then |Digits(n)| else width
  {
    var d := Digits(n);
    if |d| >= width then d else Zeros(width - |d|) + d
  }

  /** Value of a digit string, most significant digit first. */
  function Value(s: string): nat
    requires AllDigits(s)
  {
    if s == [] then 0 else 10 * Value(s[..|s| - 1]) + (s[|s| - 1] as int - '0' as int)
  }

  function Pow10(k: nat): (p: nat)
    ensures p >= 1
  {
    if k == 0 then 1 else 10 * Pow10(k - 1)
  }

  /** uint.TryParse restricted to plain ASCII digit strings: fails on the empty string,
      on any other character and on values of 2^32 or more. */
  function ParseUInt(s: string): (r: Option<nat>)
    ensures r.Some? <==> |s| > 0 && AllDigits(s) && Value(s) < Uint32Modulus
    ensures r.Some? ==> r.value == Value(s)
  {
    if |s| > 0 && AllDigits(s) && Value(s) < Uint32Modulus then Some(Value(s)) else None
  }

  lemma {:induction false} ValueOfDigits(n: nat)
    ensures Value(Digits(n)) == n
    decreases n
  {
    if n >= 10 {
      var d := Digits(n);
      assert d[..|d| - 1] == Digits(n / 10);
      ValueOfDigits(n / 10);
    }
  }

  lemma {:induction false} ValueOfLeadingZeros(k: nat, s: string)
    requires AllDigits(s)
    ensures Value(Zeros(k) + s) == Value(s)
    decreases |s|
  {
    if s == [] {
      assert Zeros(k) + s == Zeros(k);
      ZerosValue(k);
    } else {
      var t := Zeros(k) + s;
      assert t[..|t| - 1] == Zeros(k) + s[..|s| - 1];
      ValueOfLeadingZeros(k, s[..|s| - 1]);
    }
  }

  lemma {:induction false} ZerosValue(k: nat)
    ensures Value(Zeros(k)) == 0
  {
    if k > 0 {
      assert Zeros(k)[..k - 1] == Zeros(k - 1);
      ZerosValue(k - 1);
    }
  }

  /** Zero padding does not change the value read back. */
  lemma {:induction false} ZeroPadValue(n: nat, width: nat)
    ensures Value(ZeroPad(n, width)) == n
  {
    ValueOfDigits(n);
    var d := Digits(n);
    if |d| < width {
      ValueOfLeadingZeros(width - |d|, d);
    }
  }

  /** uint.TryParse reads a zero-padded rendering of a 32-bit value back as that value. */
  lemma {:induction false} ParseZeroPad(n: nat, width: nat)
    requires n < Uint32Modulus
    ensures ParseUInt(ZeroPad(n, width)) == Some(n)
  {
    ZeroPadValue(n, width);
  }

  /** "D2" of a number below 100 is two digits that read back as the number. */
  lemma {:induction false} TwoDigitPad(n: nat)
    requires n < 100
    ensures |ZeroPad(n, 2)| == 2 && Value(ZeroPad(n, 2)) == n
  {
    DigitsLength(n, 2);
    ZeroPadValue(n, 2);
  }

  /** A number below 10^k takes at most k digits (k >= 1), so "D<k>" gives exactly k characters. */
  lemma {:induction false} DigitsLength(n: nat, k: nat)
    requires k >= 1 && n < Pow10(k)
    ensures |Digits(n)| <= k
    ensures |ZeroPad(n, k)| == k
    decreases k
  {
    if n >= 10 {
      assert k >= 2;
      assert n / 10 < Pow10(k - 1);
      DigitsLength(n / 10, k - 1);
    }
  }
}
