/** The part of Python's `float(text)` grammar that financial strings use:
      floatvalue ::= [sign] number [exponent]
      number     ::= [digitpart] "." digitpart | digitpart ["."]
      exponent   ::= ("e" | "E") [sign] digitpart
      digitpart  ::= digit (["_"] digit)*
    with ASCII digits. The result is an exact `real`; `float` would round it. */
module Decimal {
  import opened Wrappers
  import Text

  predicate IsDigit(c: char) {
    '0' <= c <= '9'
  }

  predicate AllDigits(s: string) {
    forall k :: 0 <= k < |s| ==> IsDigit(s[k])
  }

  function DigitValue(c: char): nat
    requires IsDigit(c)
  {
    c as int - '0' as int
  }

  function DigitChar(d: nat): (c: char)
    requires d < 10
    ensures IsDigit(c) && DigitValue(c) == d
  {
    ('0' as int + d) as char
  }

  /** Python's `digitpart`: at least one digit, and an underscore only between two digits. */
  predicate IsDigitPart(s: string) {
    && |s| > 0
    && IsDigit(s[0])
    && IsDigit(s[|s| - 1])
    && forall k :: 0 < k < |s| - 1 ==> (IsDigit(s[k]) || (s[k] == '_' && IsDigit(s[k + 1])))
  }

  /** The number a digit part denotes, underscores ignored. */
  function DigitsValue(s: string): nat {
    if |s| == 0 then 0
    else
      var last := s[|s| - 1];
      if IsDigit(last) then DigitsValue(s[..|s| - 1]) * 10 + DigitValue(last)
      else DigitsValue(s[..|s| - 1])
  }

  /** How many digits (not underscores) a digit part has. */
  function DigitCount(s: string): nat {
    if |s| == 0 then 0
    else DigitCount(s[..|s| - 1]) + (if IsDigit(s[|s| - 1]) then 1 else 0)
  }

  function Pow10(n: nat): (r: real)
    ensures r >= 1.0
  {
    if n == 0 then 1.0 else 10.0 * Pow10(n - 1)
  }

  /** 10 raised to an integer exponent. */
  function Scale(e: int): real {
    if e >= 0 then Pow10(e) else 1.0 / Pow10(-e)
  }

  /** Digits before and after the point, as a real number. */
  function MantissaValue(whole: string, frac: string): real {
    DigitsValue(whole) as real + DigitsValue(frac) as real / Pow10(DigitCount(frac))
  }

  /** The `number` production: digits with at most one decimal point and at least one digit. */
  function ParseMantissa(m: string): Option<real> {
    if '.' !in m then
      if IsDigitPart(m) then Some(DigitsValue(m) as real) else None
    else
      var d := Text.IndexOf(m, '.');
      var whole := m[..d];
      var frac := m[d + 1..];
      if whole == [] && frac == [] then None
      else if (whole == [] || IsDigitPart(whole)) && (frac == [] || IsDigitPart(frac)) then
        Some(MantissaValue(whole, frac))
      else None
  }

  /** The `exponent` production after its `e`/`E`. */
  function ParseExponent(x: string): Option<int> {
    if |x| > 0 && (x[0] == '+' || x[0] == '-') then
      if IsDigitPart(x[1..]) then
        Some(if x[0] == '-' then -(DigitsValue(x[1..]) as int) else DigitsValue(x[1..]))
      else None
    else if IsDigitPart(x) then Some(DigitsValue(x))
    else None
  }

  predicate IsExponentMark(c: char) {
    c == 'e' || c == 'E'
  }

  predicate NoExponentMark(s: string) {
    forall k :: 0 <= k < |s| ==> !IsExponentMark(s[k])
  }

  /** Index of the first `e`/`E`, or `|s|` when there is none. */
  function ExponentIndex(s: string): (i: nat)
    ensures i <= |s|
    ensures i < |s| ==> IsExponentMark(s[i])
    ensures forall k :: 0 <= k < i ==> !IsExponentMark(s[k])
  {
    if |s| == 0 then 0
    else if IsExponentMark(s[0]) then 0
    else 1 + ExponentIndex(s[1..])
  }

  function Signed(negative: bool, v: real): real {
    if negative then -v else v
  }

  /** Python's `float(s)` on an already stripped string: `Some(value)` when `s` is a
      decimal literal, `None` where `float` would raise `ValueError`. */
  function ParseFloat(s: string): Option<real> {
    var negative := |s| > 0 && s[0] == '-';
    var body := if |s| > 0 && (s[0] == '+' || s[0] == '-') then s[1..] else s;
    var e := ExponentIndex(body);
    var mantissa := ParseMantissa(body[..e]);
    var exponent := if e == |body| then Some(0) else ParseExponent(body[e + 1..]);
    if mantissa.None? || exponent.None? then None
    else Some(Signed(negative, mantissa.value * Scale(exponent.value)))
  }

  /** Canonical decimal digits of a natural number, without leading zeros. */
  function NatDigits(n: nat): (s: string)
    ensures |s| > 0 && AllDigits(s)
    decreases n
  {
    if n < 10 then [DigitChar(n)] else NatDigits(n / 10) + [DigitChar(n % 10)]
  }

  /** The text a spreadsheet or quote page would show for a decimal number:
      an optional minus sign, the whole part, and a fractional part after a point. */
  function RenderDecimal(negative: bool, whole: nat, frac: string): string
    requires AllDigits(frac)
  {
    SignText(negative) + (NatDigits(whole) + FractionText(frac))
  }

  function SignText(negative: bool): string {
    if negative then "-" else ""
  }

  /** The fractional part with its point, or nothing when there are no fractional digits. */
  function FractionText(frac: string): string {
    if frac == [] then "" else "." + frac
  }

  lemma {:induction false} AllDigitsValue(s: string)
    requires AllDigits(s)
    ensures |s| > 0 ==> IsDigitPart(s)
    ensures DigitCount(s) == |s|
  {
    if |s| > 0 {
      AllDigitsValue(s[..|s| - 1]);
    }
  }

  lemma {:induction false} NatDigitsValue(n: nat)
    ensures DigitsValue(NatDigits(n)) == n
    decreases n
  {
    if n >= 10 {
      var s := NatDigits(n);
      assert s[..|s| - 1] == NatDigits(n / 10);
      NatDigitsValue(n / 10);
    }
  }

  /** A sign followed by an exponent-free mantissa parses as the signed mantissa. */
  lemma ParseSignedMantissa(negative: bool, m: string)
    requires |m| > 0 && m[0] != '+' && m[0] != '-'
    requires NoExponentMark(m)
    requires ParseMantissa(m).Some?
    ensures ParseFloat(SignText(negative) + m) == Some(Signed(negative, ParseMantissa(m).value))
  {
    var s := SignText(negative) + m;
    if negative {
      assert s[1..] == m;
    } else {
      assert s == m;
    }
    assert ExponentIndex(m) == |m|;
    assert m[..|m|] == m;
  }

  lemma WholeMantissa(w: string)
    requires |w| > 0 && AllDigits(w)
    ensures ParseMantissa(w) == Some(DigitsValue(w) as real)
  {
    AllDigitsValue(w);
  }

  lemma PointMantissa(w: string, f: string)
    requires |w| > 0 && AllDigits(w) && |f| > 0 && AllDigits(f)
    ensures ParseMantissa(w + ("." + f)) == Some(MantissaValue(w, f))
  {
    AllDigitsValue(w);
    AllDigitsValue(f);
    var m := w + ("." + f);
    assert m[|w|] == '.';
    assert m[..|w|] == w;
    assert m[|w| + 1..] == f;
    assert Text.IndexOf(m, '.') == |w|;
  }

  lemma NoMarkConcat(a: string, b: string)
    requires NoExponentMark(a) && NoExponentMark(b)
    ensures NoExponentMark(a + b)
  {
    assert forall k :: |a| <= k < |a + b| ==> (a + b)[k] == b[k - |a|];
  }

  lemma RenderWhole(negative: bool, whole: nat)
    ensures ParseFloat(RenderDecimal(negative, whole, "")) == Some(Signed(negative, whole as real))
  {
    var w := NatDigits(whole);
    NatDigitsValue(whole);
    WholeMantissa(w);
    assert NoExponentMark(w);
    ParseSignedMantissa(negative, w);
    assert w + FractionText("") == w;
  }

  lemma PointParse(negative: bool, w: string, frac: string)
    requires |w| > 0 && AllDigits(w) && |frac| > 0 && AllDigits(frac)
    ensures ParseFloat(SignText(negative) + (w + ("." + frac))) == Some(Signed(negative, MantissaValue(w, frac)))
  {
    var m := w + ("." + frac);
    assert m[0] == w[0];
    PointMantissa(w, frac);
    assert NoExponentMark(w) && NoExponentMark(frac);
    NoMarkConcat(".", frac);
    NoMarkConcat(w, "." + frac);
    ParseSignedMantissa(negative, m);
  }

  /** The number a rendered decimal denotes. */
  function DecimalValue(whole: nat, frac: string): real {
    whole as real + DigitsValue(frac) as real / Pow10(|frac|)
  }

  lemma RenderedValue(whole: nat, frac: string)
    requires AllDigits(frac)
    ensures MantissaValue(NatDigits(whole), frac) == DecimalValue(whole, frac)
  {
    NatDigitsValue(whole);
    AllDigitsValue(frac);
  }

  lemma RenderPoint(negative: bool, whole: nat, frac: string)
    requires |frac| > 0 && AllDigits(frac)
    ensures ParseFloat(RenderDecimal(negative, whole, frac)) == Some(Signed(negative, MantissaValue(NatDigits(whole), frac)))
  {
    var w := NatDigits(whole);
    PointParse(negative, w, frac);
    assert RenderDecimal(negative, whole, frac) == SignText(negative) + (w + ("." + frac));
  }

  /** Round trip: the parser reads a rendered decimal back as the number it denotes. */
  lemma ParseRenderDecimal(negative: bool, whole: nat, frac: string)
    requires AllDigits(frac)
    ensures ParseFloat(RenderDecimal(negative, whole, frac)) == Some(Signed(negative, DecimalValue(whole, frac)))
  {
    if frac == [] {
      RenderWhole(negative, whole);
    } else {
      RenderPoint(negative, whole, frac);
      RenderedValue(whole, frac);
    }
  }

  // ---------------------------------------------------------------------------
  // What `float` rejects

  /** The characters a decimal literal is written with: digits, signs, the point,
      the digit-group underscore and the exponent mark. */
  predicate IsLiteralChar(c: char) {
    IsDigit(c) || c == '+' || c == '-' || c == '.' || c == '_' || IsExponentMark(c)
  }

  predicate LiteralChars(s: string) {
    forall k :: 0 <= k < |s| ==> IsLiteralChar(s[k])
  }

  predicate HasDigit(s: string) {
    exists k :: 0 <= k < |s| && IsDigit(s[k])
  }

  lemma LiteralCharsConcat(a: string, b: string)
    requires LiteralChars(a) && LiteralChars(b)
    ensures LiteralChars(a + b)
  {
    assert forall k :: 0 <= k < |a + b| ==> (a + b)[k] == if k < |a| then a[k] else b[k - |a|];
  }

  lemma DigitPartChars(s: string)
    requires IsDigitPart(s)
    ensures LiteralChars(s) && HasDigit(s)
  {
    assert IsDigit(s[0]);
    forall k | 0 <= k < |s| ensures IsLiteralChar(s[k]) {
      DigitPartChar(s, k);
    }
  }

  /** Every character of a digit part is a digit or an underscore. */
  lemma {:induction false} DigitPartChar(s: string, k: int)
    requires IsDigitPart(s) && 0 <= k < |s|
    ensures IsDigit(s[k]) || s[k] == '_'
  {
    assert IsDigitPart(s);
    if 0 < k < |s| - 1 {
      assert IsDigit(s[k]) || (s[k] == '_' && IsDigit(s[k + 1]));
    }
  }

  /** An accepted `number` is written with digits, underscores and a point, and has a digit. */
  lemma MantissaChars(m: string)
    requires ParseMantissa(m).Some?
    ensures LiteralChars(m) && HasDigit(m)
  {
    if '.' !in m {
      DigitPartChars(m);
    } else {
      var d := Text.IndexOf(m, '.');
      var whole, frac := m[..d], m[d + 1..];
      assert m == whole + ['.'] + frac;
      if whole != [] {
        DigitPartChars(whole);
        var k :| 0 <= k < |whole| && IsDigit(whole[k]);
        assert m[k] == whole[k];
      } else {
        DigitPartChars(frac);
        var k :| 0 <= k < |frac| && IsDigit(frac[k]);
        assert m[d + 1 + k] == frac[k];
      }
      if whole != [] { DigitPartChars(whole); }
      if frac != [] { DigitPartChars(frac); }
      LiteralCharsConcat(whole, ['.']);
      LiteralCharsConcat(whole + ['.'], frac);
    }
  }

  /** An accepted `exponent` after its mark is written with a sign, digits and underscores. */
  lemma ExponentChars(x: string)
    requires ParseExponent(x).Some?
    ensures LiteralChars(x)
  {
    if |x| > 0 && (x[0] == '+' || x[0] == '-') {
      DigitPartChars(x[1..]);
      LiteralCharsConcat(x[..1], x[1..]);
      assert x == x[..1] + x[1..];
    } else {
      DigitPartChars(x);
    }
  }

  /** The unsigned part of an accepted literal: a `number`, then an optional `exponent`. */
  lemma {:induction false} BodyChars(body: string)
    requires ParseMantissa(body[..ExponentIndex(body)]).Some?
    requires ExponentIndex(body) == |body| || ParseExponent(body[ExponentIndex(body) + 1..]).Some?
    ensures LiteralChars(body) && HasDigit(body)
  {
    var e := ExponentIndex(body);
    var m, rest := body[..e], body[e..];
    assert body == m + rest;
    MantissaChars(m);
    if e < |body| {
      var x := body[e + 1..];
      ExponentChars(x);
      assert rest == [body[e]] + x;
      LiteralCharsConcat([body[e]], x);
    }
    LiteralCharsConcat(m, rest);
    HasDigitConcat(m, rest);
  }

  lemma HasDigitConcat(a: string, b: string)
    requires HasDigit(a) || HasDigit(b)
    ensures HasDigit(a + b)
  {
    if HasDigit(a) {
      var k :| 0 <= k < |a| && IsDigit(a[k]);
      assert (a + b)[k] == a[k];
    } else {
      var k :| 0 <= k < |b| && IsDigit(b[k]);
      assert (a + b)[|a| + k] == b[k];
    }
  }

  /** `float` raises on any text with a character outside the literal alphabet, and on
      text without a digit: what it accepts has at least one digit and nothing but
      digits, signs, points, underscores and exponent marks. */
  lemma ParseFloatAlphabet(s: string)
    ensures ParseFloat(s).Some? ==> LiteralChars(s) && HasDigit(s)
  {
    if ParseFloat(s).Some? {
      if |s| > 0 && (s[0] == '+' || s[0] == '-') {
        BodyChars(s[1..]);
        HasDigitConcat(s[..1], s[1..]);
        LiteralCharsConcat(s[..1], s[1..]);
        assert s == s[..1] + s[1..];
      } else {
        BodyChars(s);
      }
    }
  }
}
