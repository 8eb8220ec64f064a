/** Decimal number literals: the subset of Python's float() syntax that the
    pipeline relies on, as an exact parser to `real`, together with the
    renderings it round-trips with. */
module Decimal {
  import opened Cells

  predicate IsDigit(c: char) { '0' <= c <= '9' }

  predicate AllDigits(s: string) { forall i :: 0 <= i < |s| ==> IsDigit(s[i]) }

  function DigitValue(c: char): nat
    requires IsDigit(c)
  {
    c as int - '0' as int
  }

  function DigitChar(d: nat): (c: char)
    requires d < 10
    ensures IsDigit(c) && DigitValue(c) == d
  {
    ('0' as int + d) as char
  }

  /** The value of a string of decimal digits, most significant first. */
  function DigitsValue(s: string): nat
    requires AllDigits(s)
  {
    if |s| == 0 then 0 else DigitsValue(s[..|s| - 1]) * 10 + DigitValue(s[|s| - 1])
  }

  function Pow10(n: nat): (p: nat)
    ensures p >= 1
  {
    if n == 0 then 1 else 10 * Pow10(n - 1)
  }

  /** The ASCII characters float() strips around a literal: tab, line feed,
      vertical tab, form feed, carriage return and space. */
  predicate IsSpace(c: char) { c == ' ' || 9 <= c as int <= 13 }

  function TrimLeft(s: string): string
  {
    if |s| > 0 && IsSpace(s[0]) then TrimLeft(s[1..]) else s
  }

  function TrimRight(s: string): string
  {
    if |s| > 0 && IsSpace(s[|s| - 1]) then TrimRight(s[..|s| - 1]) else s
  }

  function Trim(s: string): string { TrimRight(TrimLeft(s)) }

  /** Position of the first `c` in `s`, or |s| when there is none. */
  function IndexOf(s: string, c: char): (i: nat)
    ensures i <= |s|
    ensures i < |s| ==> s[i] == c
    ensures forall j :: 0 <= j < i ==> s[j] != c
  {
    if |s| == 0 || s[0] == c then 0 else 1 + IndexOf(s[1..], c)
  }

  predicate IsExpMark(c: char) { c == 'e' || c == 'E' }

  /** Position of the first exponent mark in `s`, or |s| when there is none. */
  function IndexOfExp(s: string): (i: nat)
    ensures i <= |s|
    ensures i < |s| ==> IsExpMark(s[i])
    ensures forall j :: 0 <= j < i ==> !IsExpMark(s[j])
  {
    if |s| == 0 || IsExpMark(s[0]) then 0 else 1 + IndexOfExp(s[1..])
  }

  /** The value `whole + frac / 10^k` of a literal with `k` digits after the point. */
  function FixedValue(whole: nat, frac: nat, k: nat): real
  {
    whole as real + frac as real / Pow10(k) as real
  }

  /** `digits[.digits]` or `.digits`: at least one digit on either side of the point. */
  function ParseMantissa(s: string): Option<real>
  {
    var d := IndexOf(s, '.');
    var whole := s[..d];
    var frac := if d < |s| then s[d + 1..] else [];
    if AllDigits(whole) && AllDigits(frac) && (|whole| > 0 || |frac| > 0) then
      Some(FixedValue(DigitsValue(whole), DigitsValue(frac), |frac|))
    else
      None
  }

  /** `[+|-]digits`, the part after the exponent mark. */
  function ParseExponent(s: string): Option<int>
  {
    if |s| > 0 && (s[0] == '+' || s[0] == '-') then
      if |s[1..]| > 0 && AllDigits(s[1..]) then
        var v: int := DigitsValue(s[1..]);
        Some(if s[0] == '-' then -v else v)
      else
        None
    else if |s| > 0 && AllDigits(s) then
      Some(DigitsValue(s))
    else
      None
  }

  function ScaleByPow10(m: real, e: int): real
  {
    if e >= 0 then m * Pow10(e) as real else m / Pow10(-e) as real
  }

  /** A literal without a sign: a mantissa and an optional exponent. */
  function ParseUnsigned(s: string): Option<real>
  {
    var e := IndexOfExp(s);
    match ParseMantissa(s[..e])
    case None => None
    case Some(m) =>
      if e == |s| then
        Some(m)
      else
        match ParseExponent(s[e + 1..])
        case None => None
        case Some(k) => Some(ScaleByPow10(m, k))
  }

  /** float(s) on the decimal forms: surrounding whitespace, an optional sign,
      a mantissa and an optional exponent; anything else does not parse. */
  function ParseReal(s: string): Option<real>
  {
    var t := Trim(s);
    if |t| > 0 && (t[0] == '+' || t[0] == '-') then
      match ParseUnsigned(t[1..])
      case None => None
      case Some(v) => Some(if t[0] == '-' then -v else v)
    else
      ParseUnsigned(t)
  }

  // ---------------------------------------------------------------------
  // Renderings, and the round trips with the parser

  /** The shortest decimal rendering of a natural number. */
  function NatToDigits(n: nat): string
  {
    if n < 10 then [DigitChar(n)] else NatToDigits(n / 10) + [DigitChar(n % 10)]
  }

  /** The last `k` decimal digits of `n`, with leading zeros. */
  function PaddedDigits(n: nat, k: nat): string
  {
    if k == 0 then [] else PaddedDigits(n / 10, k - 1) + [DigitChar(n % 10)]
  }

  /** The value `whole + frac / 10^k` written with exactly `k` digits after the point. */
  function RenderFixed(whole: nat, frac: nat, k: nat): string
  {
    NatToDigits(whole) + "." + PaddedDigits(frac, k)
  }

  lemma {:induction false} DigitsValueSnoc(s: string, c: char)
    requires AllDigits(s) && IsDigit(c)
    ensures AllDigits(s + [c])
    ensures DigitsValue(s + [c]) == DigitsValue(s) * 10 + DigitValue(c)
  {
    assert (s + [c])[..|s|] == s;
  }

  lemma {:induction false} NatToDigitsValue(n: nat)
    ensures |NatToDigits(n)| > 0 && AllDigits(NatToDigits(n))
    ensures DigitsValue(NatToDigits(n)) == n
  {
    if n >= 10 {
      NatToDigitsValue(n / 10);
      DigitsValueSnoc(NatToDigits(n / 10), DigitChar(n % 10));
    }
  }

  lemma {:induction false} PaddedDigitsValue(n: nat, k: nat)
    requires n < Pow10(k)
    ensures |PaddedDigits(n, k)| == k && AllDigits(PaddedDigits(n, k))
    ensures DigitsValue(PaddedDigits(n, k)) == n
  {
    if k > 0 {
      PaddedDigitsValue(n / 10, k - 1);
      DigitsValueSnoc(PaddedDigits(n / 10, k - 1), DigitChar(n % 10));
    }
  }

  lemma {:induction false} IndexOfAbsent(s: string, c: char)
    requires forall i :: 0 <= i < |s| ==> s[i] != c
    ensures IndexOf(s, c) == |s|
  {
    if |s| > 0 {
      IndexOfAbsent(s[1..], c);
    }
  }

  lemma {:induction false} IndexOfExpAbsent(s: string)
    requires forall i :: 0 <= i < |s| ==> !IsExpMark(s[i])
    ensures IndexOfExp(s) == |s|
  {
    if |s| > 0 {
      IndexOfExpAbsent(s[1..]);
    }
  }

  lemma {:induction false} IndexOfFirst(a: string, c: char, b: string)
    requires forall i :: 0 <= i < |a| ==> a[i] != c
    ensures IndexOf(a + [c] + b, c) == |a|
  {
    if |a| > 0 {
      assert (a + [c] + b)[1..] == a[1..] + [c] + b;
      IndexOfFirst(a[1..], c, b);
    }
  }

  lemma {:induction false} ParseMantissaAt(s: string, a: string, b: string)
    requires |a| > 0 && AllDigits(a) && AllDigits(b)
    requires IndexOf(s, '.') == |a| < |s| && s[..|a|] == a && s[|a| + 1..] == b
    ensures ParseMantissa(s) == Some(FixedValue(DigitsValue(a), DigitsValue(b), |b|))
  {
    var d := IndexOf(s, '.');
    var whole, frac := s[..d], s[d + 1..];
    assert whole == a && frac == b;
  }

  lemma {:induction false} ParseMantissaFixed(a: string, b: string)
    requires |a| > 0 && AllDigits(a) && AllDigits(b)
    ensures ParseMantissa(a + "." + b) == Some(FixedValue(DigitsValue(a), DigitsValue(b), |b|))
  {
    var s := a + "." + b;
    IndexOfFirst(a, '.', b);
    assert s[..|a|] == a;
    assert s[|a| + 1..] == b;
    ParseMantissaAt(s, a, b);
  }

  lemma {:induction false} FixedWhole(n: nat)
    ensures FixedValue(n, 0, 0) == n as real
  {
    assert Pow10(0) == 1;
  }

  lemma {:induction false} ParseMantissaWhole(s: string)
    requires AllDigits(s) && |s| > 0
    requires IndexOf(s, '.') == |s|
    ensures ParseMantissa(s) == Some(DigitsValue(s) as real)
  {
    var frac: string := [];
    assert s[..|s|] == s;
    assert ParseMantissa(s) == Some(FixedValue(DigitsValue(s), DigitsValue(frac), |frac|));
    FixedWhole(DigitsValue(s));
  }

  lemma {:induction false} ParseUnsignedRenderFixed(whole: nat, frac: nat, k: nat)
    requires frac < Pow10(k)
    ensures ParseUnsigned(RenderFixed(whole, frac, k)) == Some(FixedValue(whole, frac, k))
  {
    var a, b := NatToDigits(whole), PaddedDigits(frac, k);
    NatToDigitsValue(whole);
    PaddedDigitsValue(frac, k);
    var s := a + "." + b;
    assert s == RenderFixed(whole, frac, k);
    forall i | 0 <= i < |s| ensures !IsExpMark(s[i]) {
      if i < |a| { assert s[i] == a[i]; } else if i > |a| { assert s[i] == b[i - |a| - 1]; }
    }
    IndexOfExpAbsent(s);
    assert s[..|s|] == s;
    ParseMantissaFixed(a, b);
  }

  lemma {:induction false} TrimUnpadded(t: string)
    requires |t| > 0 && !IsSpace(t[0]) && !IsSpace(t[|t| - 1])
    ensures Trim(t) == t
  {
    assert TrimLeft(t) == t;
  }

  lemma {:induction false} ParseRealUnsigned(t: string)
    requires Trim(t) == t && (|t| == 0 || (t[0] != '+' && t[0] != '-'))
    ensures ParseReal(t) == ParseUnsigned(t)
  {
  }

  lemma {:induction false} ParseRealNegative(t: string, v: real)
    requires |t| > 0 && t[0] == '-' && Trim(t) == t && ParseUnsigned(t[1..]) == Some(v)
    ensures ParseReal(t) == Some(-v)
  {
  }

  /** The first character of a fixed-point rendering is a digit, the last a digit or the point. */
  lemma {:induction false} RenderFixedEnds(whole: nat, frac: nat, k: nat)
    requires frac < Pow10(k)
    ensures var s := RenderFixed(whole, frac, k); |s| > 0 && IsDigit(s[0]) && !IsSpace(s[|s| - 1])
  {
    NatToDigitsValue(whole);
    PaddedDigitsValue(frac, k);
    var a, b := NatToDigits(whole), PaddedDigits(frac, k);
    var s := a + "." + b;
    assert s[0] == a[0];
    assert s[|s| - 1] == '.' || s[|s| - 1] == b[|b| - 1];
  }

  lemma {:induction false} TrimSigned(s: string)
    requires |s| > 0 && !IsSpace(s[|s| - 1])
    ensures Trim("-" + s) == "-" + s && ("-" + s)[1..] == s
  {
    var t := "-" + s;
    assert t[|t| - 1] == s[|s| - 1];
    TrimUnpadded(t);
  }

  /** `s` is an unsigned literal of value `v` that starts with a digit and
      ends without whitespace, as the renderings of this module do. */
  predicate UnsignedLiteral(s: string, v: real)
  {
    |s| > 0 && IsDigit(s[0]) && !IsSpace(s[|s| - 1]) && ParseUnsigned(s) == Some(v)
  }

  /** An unsigned literal with no surrounding space parses as it is. */
  lemma {:induction false} ParsePlain(s: string, v: real)
    requires UnsignedLiteral(s, v)
    ensures ParseReal(s) == Some(v)
  {
    TrimUnpadded(s);
    ParseRealUnsigned(s);
  }

  /** ... and to its negation behind a minus sign. */
  lemma {:induction false} ParseMinus(s: string, v: real)
    requires UnsignedLiteral(s, v)
    ensures ParseReal("-" + s) == Some(-v)
  {
    TrimSigned(s);
    ParseRealNegative("-" + s, v);
  }

  /** A literal behind an optional minus sign. */
  function Signed(negative: bool, s: string): string
  {
    if negative then "-" + s else s
  }

  /** float() reads an unsigned literal, with or without a minus sign, as its
      value with that sign. */
  lemma {:induction false} ParseSigned(negative: bool, s: string, v: real)
    requires UnsignedLiteral(s, v)
    ensures ParseReal(Signed(negative, s)) == Some(if negative then -v else v)
  {
    if negative {
      ParseMinus(s, v);
    } else {
      ParsePlain(s, v);
    }
  }

  /** Every fixed-point rendering is an unsigned literal of its value. */
  lemma {:induction false} RenderFixedUnsigned(whole: nat, frac: nat, k: nat)
    requires frac < Pow10(k)
    ensures UnsignedLiteral(RenderFixed(whole, frac, k), FixedValue(whole, frac, k))
  {
    RenderFixedEnds(whole, frac, k);
    ParseUnsignedRenderFixed(whole, frac, k);
  }

  /** float() reads back every fixed-point rendering. */
  lemma {:induction false} ParseRenderFixed(whole: nat, frac: nat, k: nat)
    requires frac < Pow10(k)
    ensures ParseReal(RenderFixed(whole, frac, k)) == Some(FixedValue(whole, frac, k))
  {
    RenderFixedUnsigned(whole, frac, k);
    ParsePlain(RenderFixed(whole, frac, k), FixedValue(whole, frac, k));
  }

  // ---------------------------------------------------------------------
  // Exponents

  /** The scientific rendering `m e k` or `m e-k`. */
  function RenderScientific(m: nat, negative: bool, k: nat): string
  {
    NatToDigits(m) + "e" + Signed(negative, NatToDigits(k))
  }

  /** The value `m * 10^k` or `m / 10^k` of such a rendering. */
  function ScientificValue(m: nat, negative: bool, k: nat): real
  {
    if negative then m as real / Pow10(k) as real else m as real * Pow10(k) as real
  }

  lemma {:induction false} IndexOfExpFirst(a: string, b: string)
    requires forall i :: 0 <= i < |a| ==> !IsExpMark(a[i])
    ensures IndexOfExp(a + "e" + b) == |a|
  {
    if |a| > 0 {
      assert (a + "e" + b)[1..] == a[1..] + "e" + b;
      IndexOfExpFirst(a[1..], b);
    }
  }

  /** The part after the exponent mark, `[-]digits`, reads as its signed value. */
  lemma {:induction false} ParseExponentSigned(negative: bool, k: nat)
    ensures ParseExponent(Signed(negative, NatToDigits(k))) == Some(if negative then -(k as int) else k as int)
  {
    NatToDigitsValue(k);
    var b := NatToDigits(k);
    if negative {
      assert ("-" + b)[1..] == b;
    } else {
      assert IsDigit(b[0]);
    }
  }

  /** A mantissa, an exponent mark and an exponent scale the mantissa. */
  lemma {:induction false} ParseUnsignedAt(s: string, a: string, x: string, v: real, e: int)
    requires IndexOfExp(s) == |a| < |s| && s[..|a|] == a && s[|a| + 1..] == x
    requires ParseMantissa(a) == Some(v) && ParseExponent(x) == Some(e)
    ensures ParseUnsigned(s) == Some(ScaleByPow10(v, e))
  {
  }

  lemma {:induction false} ScaleScientific(m: nat, negative: bool, k: nat)
    ensures ScaleByPow10(m as real, if negative then -(k as int) else k as int) == ScientificValue(m, negative, k)
  {
    if negative && k == 0 {
      assert Pow10(0) == 1;
    }
  }

  lemma {:induction false} ParseUnsignedScientific(m: nat, negative: bool, k: nat)
    ensures ParseUnsigned(RenderScientific(m, negative, k)) == Some(ScientificValue(m, negative, k))
  {
    var a, x := NatToDigits(m), Signed(negative, NatToDigits(k));
    var s := a + "e" + x;
    assert s == RenderScientific(m, negative, k);
    NatToDigitsValue(m);
    assert forall i :: 0 <= i < |a| ==> IsDigit(a[i]) && !IsExpMark(a[i]);
    IndexOfExpFirst(a, x);
    assert s[..|a|] == a;
    assert s[|a| + 1..] == x;
    IndexOfAbsent(a, '.');
    ParseMantissaWhole(a);
    ParseExponentSigned(negative, k);
    ParseUnsignedAt(s, a, x, m as real, if negative then -(k as int) else k as int);
    ScaleScientific(m, negative, k);
  }

  /** Every scientific rendering is an unsigned literal of its value. */
  lemma {:induction false} ScientificUnsigned(m: nat, negative: bool, k: nat)
    ensures UnsignedLiteral(RenderScientific(m, negative, k), ScientificValue(m, negative, k))
  {
    ParseUnsignedScientific(m, negative, k);
    NatToDigitsValue(m);
    NatToDigitsValue(k);
    var a, x := NatToDigits(m), Signed(negative, NatToDigits(k));
    var s := a + "e" + x;
    assert s == RenderScientific(m, negative, k);
    assert s[0] == a[0];
    assert s[|s| - 1] == x[|x| - 1] == NatToDigits(k)[|NatToDigits(k)| - 1];
  }

  /** float() reads `m e k` as m * 10^k and `m e-k` as m / 10^k. */
  lemma {:induction false} ParseScientific(m: nat, negative: bool, k: nat)
    ensures ParseReal(RenderScientific(m, negative, k)) == Some(ScientificValue(m, negative, k))
  {
    ScientificUnsigned(m, negative, k);
    ParsePlain(RenderScientific(m, negative, k), ScientificValue(m, negative, k));
  }

  lemma {:induction false} ParseTrimmedWhole(s: string)
    requires |s| > 0 && AllDigits(s)
    requires IndexOfExp(s) == |s| && IndexOf(s, '.') == |s|
    requires Trim(s) == s
    ensures ParseReal(s) == Some(DigitsValue(s) as real)
  {
    assert s[..|s|] == s;
    ParseMantissaWhole(s);
  }

  /** A plain digit string parses to its value. */
  lemma {:induction false} ParseDigits(s: string)
    requires |s| > 0 && AllDigits(s)
    ensures ParseReal(s) == Some(DigitsValue(s) as real)
  {
    assert TrimLeft(s) == s;
    assert TrimRight(s) == s;
    IndexOfExpAbsent(s);
    IndexOfAbsent(s, '.');
    ParseTrimmedWhole(s);
  }

  /** The plain integer rendering parses to the integer. */
  lemma {:induction false} ParseNatToDigits(n: nat)
    ensures ParseReal(NatToDigits(n)) == Some(n as real)
  {
    NatToDigitsValue(n);
    ParseDigits(NatToDigits(n));
  }
}
