/** Decimal printing and parsing as Python's `str(int)`, `int(str)` and `float(str)` do it
    for plain decimal notation. */
module Numbers {
  import opened Wrappers
  import opened Text

  predicate IsDigit(c: char) {
    '0' <= c <= '9'
  }

  predicate AllDigits(s: string) {
    forall i :: 0 <= i < |s| ==> IsDigit(s[i])
  }

  function DigitChar(d: nat): char
    requires d < 10
  {
    (d + 48) as char
  }

  function DigitValue(c: char): nat
    requires IsDigit(c)
  {
    c as int - 48
  }

  /** `str(n)` for a non-negative integer: no leading zeros. */
  function NatToString(n: nat): (s: string)
    ensures |s| >= 1 && AllDigits(s)
    ensures s[0] == '0' <==> n == 0
  {
    if n < 10 then [DigitChar(n)] else NatToString(n / 10) + [DigitChar(n % 10)]
  }

  /** `str(i)` for any integer. */
  function IntToString(i: int): (s: string)
    ensures |s| >= 1 && AllDigits(s[1..]) && (s[0] == '-' || IsDigit(s[0])) && IsDigit(s[|s| - 1])
    ensures s[0] == '-' <==> i < 0
  {
    if i < 0 then "-" + NatToString(-i) else NatToString(i)
  }

  /** The value of a run of decimal digits, most significant first. */
  function DigitsValue(s: string): nat
    requires AllDigits(s)
  {
    if s == [] then 0 else DigitsValue(s[..|s| - 1]) * 10 + DigitValue(s[|s| - 1])
  }

  /** The value of the digits that follow a decimal point. */
  function FracValue(s: string): real
    requires AllDigits(s)
  {
    if s == [] then 0.0 else (DigitValue(s[0]) as real + FracValue(s[1..])) / 10.0
  }

  /** The text of a minus sign when `negative`. */
  function Sign(negative: bool): string {
    if negative then "-" else ""
  }

  /** The sign that starts a number, and what follows it. */
  function Unsigned(t: string): (r: (bool, string))
  {
    if |t| > 0 && (t[0] == '-' || t[0] == '+') then (t[0] == '-', t[1..]) else (false, t)
  }

  /** `int(s)`: surrounding whitespace, an optional sign, then one or more decimal digits. */
  function ParseInt(s: string): Option<int>
  {
    var (neg, body) := Unsigned(Strip(s));
    if |body| > 0 && AllDigits(body) then
      var v: int := DigitsValue(body);
      Some(if neg then -v else v)
    else None
  }

  /** `float(s)` for decimal notation: surrounding whitespace, an optional sign, then digits
      with at most one '.', and at least one digit. */
  function ParseReal(s: string): Option<real>
  {
    var (neg, body) := Unsigned(Strip(s));
    match UnsignedReal(body)
    case None => None
    case Some(v) => Some(if neg then -v else v)
  }

  /** The value of unsigned decimal notation: digits with at most one '.', at least one digit. */
  function UnsignedReal(body: string): Option<real>
  {
    var dot := IndexOf(body, '.');
    var whole := body[..dot];
    var frac := if dot < |body| then body[dot + 1..] else "";
    if |whole| + |frac| > 0 && AllDigits(whole) && AllDigits(frac) then
      Some(DigitsValue(whole) as real + FracValue(frac))
    else None
  }

  lemma {:induction false} DigitsOfNat(n: nat)
    ensures DigitsValue(NatToString(n)) == n
  {
    if n >= 10 {
      var s := NatToString(n);
      assert s[..|s| - 1] == NatToString(n / 10);
      DigitsOfNat(n / 10);
    }
  }

  lemma DigitsHaveNoSpace(s: string)
    requires AllDigits(s)
    ensures forall i :: 0 <= i < |s| ==> !IsSpace(s[i]) && !IsLineBreak(s[i]) && s[i] != ' ' && s[i] != '.'
  {
  }

  /** `int(str(i)) == i`. */
  lemma ParseIntOfString(i: int)
    ensures ParseInt(IntToString(i)) == Some(i)
  {
    var m: nat := if i < 0 then -i else i;
    var s := IntToString(i);
    SignOrDigitIsNotSpace(s[0]);
    SignOrDigitIsNotSpace(s[|s| - 1]);
    StripUnchanged(s);
    UnsignedOfIntString(i, m);
    DigitsOfNat(m);
  }

  lemma SignOrDigitIsNotSpace(c: char)
    requires c == '-' || IsDigit(c)
    ensures !IsSpace(c)
  {
  }

  lemma UnsignedOfIntString(i: int, m: nat)
    requires m == if i < 0 then -i else i
    ensures Unsigned(IntToString(i)) == (i < 0, NatToString(m))
  {
    if i < 0 {
      assert IntToString(i) == "-" + NatToString(m);
    }
  }

  /** Appending a zero after the last fractional digit does not change the value. */
  lemma {:induction false} FracTrailingZero(s: string)
    requires AllDigits(s)
    ensures AllDigits(s + "0") && FracValue(s + "0") == FracValue(s)
  {
    if s != [] {
      assert (s + "0")[1..] == s[1..] + "0";
      FracTrailingZero(s[1..]);
    }
  }

  /** Dropping trailing zeros from fractional digits does not change their value. */
  lemma {:induction false} FracStripZeros(s: string)
    requires AllDigits(s)
    ensures AllDigits(RStripChar(s, '0')) && FracValue(RStripChar(s, '0')) == FracValue(s)
    decreases |s|
  {
    if |s| > 0 && s[|s| - 1] == '0' {
      var p := s[..|s| - 1];
      assert s == p + "0";
      FracStripZeros(p);
      FracTrailingZero(p);
    }
  }

  /** `float()` of an optional '-', integer digits, '.', and at least one fractional digit. */
  lemma ParseSignedDecimal(negative: bool, whole: string, frac: string, t: real)
    requires AllDigits(whole) && AllDigits(frac) && |frac| > 0
    requires t == if negative then -(DigitsValue(whole) as real + FracValue(frac))
      else DigitsValue(whole) as real + FracValue(frac)
    ensures ParseReal(Sign(negative) + (whole + "." + frac)) == Some(t)
  {
    SignedDecimalText(negative, whole, frac);
    UnsignedRealOf(whole, frac);
  }

  lemma SignedDecimalText(negative: bool, whole: string, frac: string)
    requires AllDigits(whole) && AllDigits(frac) && |frac| > 0
    ensures Strip(Sign(negative) + (whole + "." + frac)) == Sign(negative) + (whole + "." + frac)
    ensures Unsigned(Sign(negative) + (whole + "." + frac)) == (negative, whole + "." + frac)
  {
    var body := whole + "." + frac;
    assert body[0] == '.' || IsDigit(body[0]);
    assert body[|body| - 1] == frac[|frac| - 1];
    UnsignedOfSign(negative, body);
  }

  /** A number text without surrounding whitespace splits into its sign and its body. */
  lemma UnsignedOfSign(negative: bool, body: string)
    requires body != [] && body[0] != '-' && body[0] != '+' && !IsSpace(body[0]) && !IsSpace(body[|body| - 1])
    ensures Strip(Sign(negative) + body) == Sign(negative) + body
    ensures Unsigned(Sign(negative) + body) == (negative, body)
  {
    if negative {
      UnsignedOfMinus(body);
    } else {
      assert Sign(false) + body == body;
      StripUnchanged(body);
    }
  }

  lemma UnsignedOfMinus(body: string)
    requires body != [] && !IsSpace(body[|body| - 1])
    ensures Strip("-" + body) == "-" + body
    ensures Unsigned("-" + body) == (true, body)
  {
    var f := "-" + body;
    SignOrDigitIsNotSpace(f[0]);
    assert f[|f| - 1] == body[|body| - 1];
    assert f[1..] == body;
    StripUnchanged(f);
  }

  lemma UnsignedRealOf(whole: string, frac: string)
    requires AllDigits(whole) && AllDigits(frac) && |frac| > 0
    ensures UnsignedReal(whole + "." + frac) == Some(DigitsValue(whole) as real + FracValue(frac))
  {
    DotParts(whole, frac);
    UnsignedRealAt(whole + "." + frac, |whole|);
  }

  lemma UnsignedRealAt(body: string, dot: nat)
    requires dot < |body| && IndexOf(body, '.') == dot && |body| > 1
    requires AllDigits(body[..dot]) && AllDigits(body[dot + 1..])
    ensures UnsignedReal(body) == Some(DigitsValue(body[..dot]) as real + FracValue(body[dot + 1..]))
  {
  }

  /** Where the point is in digits, a point and more digits, and what lies on either side. */
  lemma DotParts(whole: string, frac: string)
    requires AllDigits(whole)
    ensures var body := whole + "." + frac;
      && IndexOf(body, '.') == |whole| && body[..|whole|] == whole && body[|whole| + 1..] == frac
  {
    var body := whole + "." + frac;
    IndexOfPrefix(whole, '.', frac);
    assert body[..|whole|] == whole;
    assert body[|whole| + 1..] == frac;
  }

  /** `float()` of a run of digits. */
  lemma ParseDigitsAsReal(s: string)
    requires AllDigits(s) && |s| > 0
    ensures ParseReal(s) == Some(DigitsValue(s) as real)
  {
    UnsignedOfSign(false, s);
    assert Sign(false) + s == s;
    UnsignedRealOfDigits(s);
  }

  lemma UnsignedRealOfDigits(s: string)
    requires AllDigits(s) && |s| > 0
    ensures UnsignedReal(s) == Some(DigitsValue(s) as real)
  {
    assert IndexOf(s, '.') == |s|;
    assert s[..|s|] == s;
  }
}
