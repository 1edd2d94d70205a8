/** The part of C#'s System.Decimal that the account uses: a signed integer
    coefficient scaled by a power of ten, addition and subtraction at the
    larger of the two scales, comparison by value, and the default text form
    that string interpolation produces. */
module Decimals {

  datatype Option<T> = None | Some(value: T)

  /** The number units / 10^scale. Like System.Decimal, the scale is kept:
      1.5 and 1.50 are equal in value but print differently. */
  datatype Decimal = Decimal(units: int, scale: nat)

  /** The decimal literal 0 (scale 0), the default value of a decimal field. */
  const Zero: Decimal := Decimal(0, 0)

  function Pow10(n: nat): (p: nat)
    ensures p > 0
  {
    if n == 0 then 1 else 10 * Pow10(n - 1)
  }

  lemma {:induction false} Pow10Add(m: nat, n: nat)
    ensures Pow10(m + n) == Pow10(m) * Pow10(n)
  {
    if n > 0 {
      Pow10Add(m, n - 1);
      assert Pow10(m + n) == 10 * Pow10(m + n - 1);
    }
  }

  function Max(a: nat, b: nat): nat
  {
    if a < b then b else a
  }

  function Abs(i: int): nat
  {
    if i < 0 then -i else i
  }

  /** The mathematical value of a decimal. */
  ghost function Value(d: Decimal): real
  {
    d.units as real / Pow10(d.scale) as real
  }

  /** The coefficient of d once rescaled to the larger scale s. */
  function Rescale(d: Decimal, s: nat): int
    requires d.scale <= s
  {
    d.units * Pow10(s - d.scale)
  }

  lemma CastProduct(u: int, p: int)
    ensures (u * p) as real == u as real * p as real
  {
  }

  lemma CancelFactor(u: real, p: real, q: real)
    requires p > 0.0 && q > 0.0
    ensures (u * p) / (p * q) == u / q
  {
  }

  lemma ScaleDown(x: int, p: nat, q: nat)
    requires p > 0 && q > 0
    ensures (x * p) as real / (p * q) as real == x as real / q as real
  {
    CastProduct(x, p);
    CastProduct(p, q);
    CancelFactor(x as real, p as real, q as real);
  }

  lemma RescaleValue(d: Decimal, s: nat)
    requires d.scale <= s
    ensures Rescale(d, s) as real / Pow10(s) as real == Value(d)
  {
    var p, q := Pow10(s - d.scale), Pow10(d.scale);
    assert Pow10(s) == p * q by {
      Pow10Add(s - d.scale, d.scale);
    }
    ScaleDown(d.units, p, q);
  }

  lemma DivCompare(x: int, y: int, p: nat)
    requires p > 0
    ensures x < y <==> x as real / p as real < y as real / p as real
    ensures x <= y <==> x as real / p as real <= y as real / p as real
  {
  }

  lemma DivAdd(x: int, y: int, p: nat)
    requires p > 0
    ensures (x + y) as real / p as real == x as real / p as real + y as real / p as real
    ensures (x - y) as real / p as real == x as real / p as real - y as real / p as real
  {
  }

  lemma RescaledSum(a: Decimal, b: Decimal, s: nat)
    requires a.scale <= s && b.scale <= s
    ensures Value(Decimal(Rescale(a, s) + Rescale(b, s), s)) == Value(a) + Value(b)
    ensures Value(Decimal(Rescale(a, s) - Rescale(b, s), s)) == Value(a) - Value(b)
  {
    RescaleValue(a, s);
    RescaleValue(b, s);
    DivAdd(Rescale(a, s), Rescale(b, s), Pow10(s));
  }

  /** a + b: both operands are brought to the larger scale and their
      coefficients added. */
  function Add(a: Decimal, b: Decimal): (r: Decimal)
    ensures r.scale == Max(a.scale, b.scale)
    ensures Value(r) == Value(a) + Value(b)
  {
    var s := Max(a.scale, b.scale);
    RescaledSum(a, b, s);
    Decimal(Rescale(a, s) + Rescale(b, s), s)
  }

  /** a - b, at the larger scale. */
  function Sub(a: Decimal, b: Decimal): (r: Decimal)
    ensures r.scale == Max(a.scale, b.scale)
    ensures Value(r) == Value(a) - Value(b)
  {
    var s := Max(a.scale, b.scale);
    RescaledSum(a, b, s);
    Decimal(Rescale(a, s) - Rescale(b, s), s)
  }

  /** a < b, comparing values whatever the scales. */
  function Less(a: Decimal, b: Decimal): (r: bool)
    ensures r <==> Value(a) < Value(b)
  {
    var s := Max(a.scale, b.scale);
    RescaleValue(a, s);
    RescaleValue(b, s);
    DivCompare(Rescale(a, s), Rescale(b, s), Pow10(s));
    Rescale(a, s) < Rescale(b, s)
  }

  /** a <= b, comparing values whatever the scales. */
  function LessOrEqual(a: Decimal, b: Decimal): (r: bool)
    ensures r <==> Value(a) <= Value(b)
  {
    var s := Max(a.scale, b.scale);
    RescaleValue(a, s);
    RescaleValue(b, s);
    DivCompare(Rescale(a, s), Rescale(b, s), Pow10(s));
    Rescale(a, s) <= Rescale(b, s)
  }

  // ---------------------------------------------------------------------
  // Text form: what "{amount}" inserts into an interpolated string.
  // ---------------------------------------------------------------------

  predicate IsDigit(c: char)
  {
    '0' <= c <= '9'
  }

  predicate AllDigits(s: string)
  {
    forall i :: 0 <= i < |s| ==> IsDigit(s[i])
  }

  function DigitChar(d: nat): (c: char)
    requires d < 10
    ensures IsDigit(c)
  {
    ('0' as int + d) as char
  }

  function DigitValue(c: char): (d: nat)
    ensures IsDigit(c) ==> d < 10 && DigitChar(d) == c
  {
    if IsDigit(c) then (c as int - '0' as int) as nat else 0
  }

  /** The decimal digits of n, most significant first, without leading zeros. */
  function Digits(n: nat): (s: string)
    ensures |s| >= 1 && AllDigits(s)
    decreases n
  {
    if n < 10 then [DigitChar(n)] else Digits(n / 10) + [DigitChar(n % 10)]
  }

  /** The number a string of digits denotes; leading zeros are ignored. */
  function ParseDigits(s: string): nat
  {
    if s == [] then 0 else 10 * ParseDigits(s[..|s| - 1]) + DigitValue(s[|s| - 1])
  }

  function Zeros(k: nat): (s: string)
    ensures |s| == k && AllDigits(s)
    ensures forall i :: 0 <= i < k ==> s[i] == '0'
  {
    seq(k, _ => '0')
  }

  /** s preceded by enough zeros to be at least w characters long. */
  function PadLeft(s: string, w: nat): (r: string)
    ensures |r| == Max(|s|, w)
  {
    if |s| < w then Zeros(w - |s|) + s else s
  }

  /** A string of digits with a point before its last scale digits. */
  function PointText(digits: string, scale: nat): string
    requires scale < |digits|
  {
    var split := |digits| - scale;
    if scale == 0 then digits else digits[..split] + "." + digits[split..]
  }

  /** The text of a non-negative decimal with the given coefficient and
      scale: exactly scale digits after the point, at least one before it. */
  function UnsignedText(n: nat, scale: nat): (s: string)
    ensures |s| > scale && IsDigit(s[0])
    ensures 0 < scale ==> s[|s| - scale - 1] == '.'
    ensures forall i :: |s| - scale <= i < |s| ==> IsDigit(s[i])
  {
    var digits := PadLeft(Digits(n), scale + 1);
    PaddedDigits(n, scale + 1);
    PointTextShape(digits, scale);
    PointText(digits, scale)
  }

  /** decimal.ToString() with '.' as separator: "-" for a negative value,
      then the coefficient's digits with a point before the last scale of
      them (so 1.50 prints "1.50" and 0.05 prints "0.05"). */
  function ToString(d: Decimal): (s: string)
    ensures |s| > d.scale && (s[0] == '-' <==> d.units < 0)
    ensures |s| > (if d.units < 0 then 1 else 0) && IsDigit(s[if d.units < 0 then 1 else 0])
    ensures 0 < d.scale ==> s[|s| - d.scale - 1] == '.'
    ensures forall i :: |s| - d.scale <= i < |s| ==> IsDigit(s[i])
  {
    var body := UnsignedText(Abs(d.units), d.scale);
    if d.units < 0 then "-" + body else body
  }

  function IndexOf(s: string, c: char): (r: Option<nat>)
    ensures r.Some? ==> r.value < |s| && s[r.value] == c
  {
    if s == [] then None
    else if s[0] == c then Some(0)
    else match IndexOf(s[1..], c)
      case None => None
      case Some(k) => Some(k + 1)
  }

  function ParseUnsigned(s: string): Option<Decimal>
  {
    match IndexOf(s, '.')
    case None =>
      if s != [] && AllDigits(s) then Some(Decimal(ParseDigits(s), 0)) else None
    case Some(k) =>
      var whole, fraction := s[..k], s[k + 1..];
      if whole != [] && fraction != [] && AllDigits(whole) && AllDigits(fraction)
      then Some(Decimal(ParseDigits(whole + fraction), |fraction|))
      else None
  }

  /** Reads back the text form that ToString writes. */
  function Parse(s: string): Option<Decimal>
  {
    if |s| > 0 && s[0] == '-' then
      match ParseUnsigned(s[1..])
      case None => None
      case Some(d) => Some(Decimal(-d.units, d.scale))
    else ParseUnsigned(s)
  }

  lemma {:induction false} ParseDigitsOfDigits(n: nat)
    ensures ParseDigits(Digits(n)) == n
    decreases n
  {
    if n >= 10 {
      var s := Digits(n);
      assert s[..|s| - 1] == Digits(n / 10);
      ParseDigitsOfDigits(n / 10);
    }
  }

  lemma {:induction false} ParseDigitsOfZeros(k: nat)
    ensures ParseDigits(Zeros(k)) == 0
  {
    if k > 0 {
      assert Zeros(k)[..k - 1] == Zeros(k - 1);
      ParseDigitsOfZeros(k - 1);
    }
  }

  lemma {:induction false} ParseDigitsLeadingZeros(k: nat, s: string)
    requires AllDigits(s)
    ensures AllDigits(Zeros(k) + s)
    ensures ParseDigits(Zeros(k) + s) == ParseDigits(s)
    decreases |s|
  {
    var t := Zeros(k) + s;
    if s == [] {
      assert t == Zeros(k);
      ParseDigitsOfZeros(k);
    } else {
      assert t[..|t| - 1] == Zeros(k) + s[..|s| - 1];
      ParseDigitsLeadingZeros(k, s[..|s| - 1]);
    }
  }

  lemma {:induction false} IndexOfFirst(s: string, c: char, k: nat)
    requires k < |s| && s[k] == c
    requires forall i :: 0 <= i < k ==> s[i] != c
    ensures IndexOf(s, c) == Some(k)
  {
    if k > 0 {
      IndexOfFirst(s[1..], c, k - 1);
    }
  }

  lemma {:induction false} IndexOfAbsent(s: string, c: char)
    requires forall i :: 0 <= i < |s| ==> s[i] != c
    ensures IndexOf(s, c) == None
  {
    if s != [] {
      IndexOfAbsent(s[1..], c);
    }
  }

  lemma PaddedDigits(n: nat, w: nat)
    ensures AllDigits(PadLeft(Digits(n), w))
    ensures ParseDigits(PadLeft(Digits(n), w)) == n
  {
    ParseDigitsOfDigits(n);
    if |Digits(n)| < w {
      ParseDigitsLeadingZeros(w - |Digits(n)|, Digits(n));
    }
  }

  lemma ParseWhole(digits: string)
    requires digits != [] && AllDigits(digits)
    ensures ParseUnsigned(digits) == Some(Decimal(ParseDigits(digits), 0))
  {
    IndexOfAbsent(digits, '.');
  }

  lemma ParseAtPoint(whole: string, fraction: string, digits: string, text: string)
    requires whole != [] && fraction != [] && AllDigits(whole) && AllDigits(fraction)
    requires digits == whole + fraction && AllDigits(digits)
    requires text == whole + "." + fraction
    ensures ParseUnsigned(text) == Some(Decimal(ParseDigits(digits), |fraction|))
  {
    var k := |whole|;
    assert forall i :: 0 <= i < k ==> text[i] == whole[i];
    IndexOfFirst(text, '.', k);
    assert text[..k] == whole;
    assert text[k + 1..] == fraction;
  }

  lemma SplitJoin(s: string, k: nat)
    requires k <= |s|
    ensures s[..k] + s[k..] == s
    ensures AllDigits(s) ==> AllDigits(s[..k]) && AllDigits(s[k..])
  {
  }

  lemma PointTextFraction(digits: string, scale: nat)
    requires AllDigits(digits) && 0 < scale < |digits|
    ensures ParseUnsigned(PointText(digits, scale)) == Some(Decimal(ParseDigits(digits), scale))
  {
    var split := |digits| - scale;
    SplitJoin(digits, split);
    ParseAtPoint(digits[..split], digits[split..], digits, PointText(digits, scale));
  }

  lemma PointTextRoundTrip(digits: string, scale: nat)
    requires AllDigits(digits) && scale < |digits|
    ensures ParseUnsigned(PointText(digits, scale)) == Some(Decimal(ParseDigits(digits), scale))
  {
    if scale == 0 {
      ParseWhole(digits);
    } else {
      PointTextFraction(digits, scale);
    }
  }

  lemma UnsignedTextRoundTrip(n: nat, scale: nat)
    ensures ParseUnsigned(UnsignedText(n, scale)) == Some(Decimal(n, scale))
  {
    PaddedDigits(n, scale + 1);
    PointTextRoundTrip(PadLeft(Digits(n), scale + 1), scale);
  }

  lemma PointTextFirst(digits: string, scale: nat)
    requires scale < |digits|
    ensures |PointText(digits, scale)| > 0 && PointText(digits, scale)[0] == digits[0]
  {
  }

  /** A point text starts with a digit, has its point (when it has one)
      right before its last scale characters, and ends in scale digits. */
  lemma PointTextShape(digits: string, scale: nat)
    requires AllDigits(digits) && scale < |digits|
    ensures |PointText(digits, scale)| > scale && IsDigit(PointText(digits, scale)[0])
    ensures 0 < scale ==> PointText(digits, scale)[|PointText(digits, scale)| - scale - 1] == '.'
    ensures forall i :: |PointText(digits, scale)| - scale <= i < |PointText(digits, scale)| ==>
      IsDigit(PointText(digits, scale)[i])
  {
    var t := PointText(digits, scale);
    if 0 < scale {
      var split := |digits| - scale;
      assert |t| == |digits| + 1;
      assert forall i :: |t| - scale <= i < |t| ==> t[i] == digits[i - 1];
    }
  }

  lemma ParseNegativeText(d: Decimal)
    requires d.units < 0
    ensures Parse(ToString(d)) == Some(d)
  {
    var body := UnsignedText(Abs(d.units), d.scale);
    UnsignedTextRoundTrip(Abs(d.units), d.scale);
    assert ("-" + body)[1..] == body;
  }

  lemma ParseNonNegativeText(d: Decimal)
    requires d.units >= 0
    ensures Parse(ToString(d)) == Some(d)
  {
    var digits := PadLeft(Digits(d.units), d.scale + 1);
    PaddedDigits(d.units, d.scale + 1);
    PointTextFirst(digits, d.scale);
    assert IsDigit(ToString(d)[0]);
    UnsignedTextRoundTrip(d.units, d.scale);
  }

  /** ToString loses nothing: the coefficient and the scale can be read back. */
  lemma ParseToString(d: Decimal)
    ensures Parse(ToString(d)) == Some(d)
  {
    if d.units < 0 {
      ParseNegativeText(d);
    } else {
      ParseNonNegativeText(d);
    }
  }

  /** Two decimals print the same only when they are the same decimal. */
  lemma ToStringInjective(a: Decimal, b: Decimal)
    requires ToString(a) == ToString(b)
    ensures a == b
  {
    ParseToString(a);
    ParseToString(b);
  }
}
