/**
 * Models of the two JavaScript built-ins the core relies on to read text:
 * `String.prototype.trim` and `parseFloat`. Numbers are exact reals and a
 * NaN result is `None`.
 */
module JsText {
  import opened Wrappers

  /** ECMAScript WhiteSpace and LineTerminator code points, which `trim` strips
      and which `parseFloat` skips before a number. */
  predicate IsJsSpace(c: char) {
    c == '\t' || c == '\n' || c == '\U{B}' || c == '\U{C}' || c == '\r' || c == ' '
    || c == '\U{A0}' || c == '\U{1680}' || ('\U{2000}' <= c <= '\U{200A}')
    || c == '\U{2028}' || c == '\U{2029}' || c == '\U{202F}' || c == '\U{205F}'
    || c == '\U{3000}' || c == '\U{FEFF}'
  }

  /** `s` with its leading white space removed: a suffix of `s` that does not
      start with white space, everything before it being white space. */
  function TrimStart(s: string): (r: string)
    ensures |r| <= |s| && r == s[|s| - |r|..]
    ensures forall i :: 0 <= i < |s| - |r| ==> IsJsSpace(s[i])
    ensures r == [] || !IsJsSpace(r[0])
  {
    if s != [] && IsJsSpace(s[0]) then
      var r := TrimStart(s[1..]);
      assert s[1..][|s| - 1 - |r|..] == s[|s| - |r|..];
      assert forall i :: 1 <= i < |s| - |r| ==> s[i] == s[1..][i - 1];
      r
    else s
  }

  /** `s` with its trailing white space removed: a prefix of `s` that does not
      end with white space, everything after it being white space. */
  function TrimEnd(s: string): (r: string)
    ensures |r| <= |s| && r == s[..|r|]
    ensures forall i :: |r| <= i < |s| ==> IsJsSpace(s[i])
    ensures r == [] || !IsJsSpace(r[|r| - 1])
  {
    if s != [] && IsJsSpace(s[|s| - 1]) then TrimEnd(s[..|s| - 1]) else s
  }

  /** `String.prototype.trim`: no longer than `s`, neither starting nor ending
      with white space, and empty exactly when `s` is all white space. */
  function Trim(s: string): (r: string)
    ensures |r| <= |s|
    ensures r == [] || (!IsJsSpace(r[0]) && !IsJsSpace(r[|r| - 1]))
    ensures r == [] <==> forall i :: 0 <= i < |s| ==> IsJsSpace(s[i])
  {
    var t := TrimStart(s);
    var r := TrimEnd(t);
    assert t != [] ==> t[0] == s[|s| - |t|] && !IsJsSpace(t[0]);
    assert r != [] ==> r[0] == t[0];
    r
  }

  predicate IsDigit(c: char) {
    '0' <= c <= '9'
  }

  predicate AllDigits(s: string) {
    forall i :: 0 <= i < |s| ==> IsDigit(s[i])
  }

  /** The value of a decimal digit; other characters never reach it. */
  function DigitValue(c: char): (d: nat)
    ensures d < 10
  {
    if IsDigit(c) then (c as int) - ('0' as int) else 0
  }

  function DigitChar(d: nat): (c: char)
    requires d < 10
    ensures IsDigit(c) && DigitValue(c) == d
  {
    ('0' as int + d) as char
  }

  /** The length of the longest run of decimal digits at the start of `s`. */
  function LeadingDigits(s: string): (n: nat)
    ensures n <= |s| && forall i :: 0 <= i < n ==> IsDigit(s[i])
    ensures n < |s| ==> !IsDigit(s[n])
  {
    if s != [] && IsDigit(s[0]) then 1 + LeadingDigits(s[1..]) else 0
  }

  function Pow10(n: nat): (p: nat)
    ensures p >= 1
  {
    if n == 0 then 1 else 10 * Pow10(n - 1)
  }

  /** The value of a decimal digit string, most significant digit first. */
  function DigitsValue(ds: string): (v: nat)
    ensures v < Pow10(|ds|)
  {
    if ds == [] then 0
    else
      var v := DigitsValue(ds[..|ds| - 1]);
      var d := DigitValue(ds[|ds| - 1]);
      assert v <= Pow10(|ds| - 1) - 1;
      assert 10 * v + d < 10 * Pow10(|ds| - 1);
      10 * v + d
  }

  /** The value of the digits after a decimal point. */
  function FractionValue(ds: string): (f: real)
    ensures 0.0 <= f < 1.0
  {
    var v := DigitsValue(ds) as real;
    var p := Pow10(|ds|) as real;
    QuotientBelowOne(v, p);
    v / p
  }

  lemma QuotientBelowOne(v: real, p: real)
    requires 0.0 <= v < p
    ensures 0.0 <= v / p < 1.0
  {
  }

  /** The value of `whole` '.' `frac`. */
  function DecimalValue(whole: string, frac: string): (x: real)
    ensures x >= 0.0
  {
    DigitsValue(whole) as real + FractionValue(frac)
  }

  /** The digits after a leading decimal point of `rest`, if it has one. */
  function FractionDigits(rest: string): (ds: string)
    ensures |ds| <= |rest|
  {
    if rest != [] && rest[0] == '.' then rest[1..][..LeadingDigits(rest[1..])] else []
  }

  /** An unsigned decimal prefix: digits [ '.' digits ] with at least one
      digit, the rest of the text ignored; `None` (NaN) when there is no digit. */
  function ParseUnsigned(u: string): (r: Option<real>)
  {
    var n := LeadingDigits(u);
    var frac := FractionDigits(u[n..]);
    if n == 0 && frac == [] then None
    else Some(DecimalValue(u[..n], frac))
  }

  function Negate(r: Option<real>): Option<real> {
    if r.Some? then Some(-r.value) else None
  }

  /**
   * `parseFloat` on decimal text: skip leading white space, read an optional
   * sign, then an unsigned decimal prefix. Text without a single decimal
   * digit, such as the empty answer or "abc", is NaN.
   */
  function ParseFloat(s: string): (r: Option<real>)
    ensures (forall i :: 0 <= i < |s| ==> !IsDigit(s[i])) ==> r == None
  {
    var t := TrimStart(s);
    var signed := t != [] && (t[0] == '-' || t[0] == '+');
    var u := if signed then t[1..] else t;
    assert u == s[|s| - |u|..];
    NoDigitSuffix(s, u);
    var r := ParseUnsigned(u);
    if signed && t[0] == '-' then Negate(r) else r
  }

  lemma NoDigitSuffix(s: string, u: string)
    requires |u| <= |s| && u == s[|s| - |u|..]
    ensures (forall i :: 0 <= i < |s| ==> !IsDigit(s[i])) ==> ParseUnsigned(u) == None
  {
    if forall i :: 0 <= i < |s| ==> !IsDigit(s[i]) {
      assert forall i :: 0 <= i < |u| ==> u[i] == s[|s| - |u| + i];
      NoDigitUnsigned(u);
    }
  }

  /** Decimal rendering of a natural number, without leading zeros. */
  function NatText(n: nat): (s: string)
    ensures s != [] && AllDigits(s)
  {
    if n < 10 then [DigitChar(n)] else NatText(n / 10) + [DigitChar(n % 10)]
  }

  lemma {:induction false} NatTextValue(n: nat)
    ensures DigitsValue(NatText(n)) == n
  {
    if n >= 10 {
      var s := NatText(n);
      assert s[..|s| - 1] == NatText(n / 10);
      NatTextValue(n / 10);
    }
  }

  /** Text that starts with a digit or a decimal point is read unsigned. */
  lemma ParsePlain(s: string)
    requires s != [] && (IsDigit(s[0]) || s[0] == '.')
    ensures ParseFloat(s) == ParseUnsigned(s)
  {
    assert TrimStart(s) == s;
  }

  /** `parseFloat` reads back every natural number it would print. */
  lemma ParseNatText(n: nat)
    ensures ParseFloat(NatText(n)) == Some(n as real)
  {
    var s := NatText(n);
    ParsePlain(s);
    ParseDigitsOnly(s);
    NatTextValue(n);
  }

  /** A plain digit string is read as its value. */
  lemma ParseDigitsOnly(s: string)
    requires s != [] && AllDigits(s)
    ensures ParseUnsigned(s) == Some(DigitsValue(s) as real)
  {
    LeadingDigitsAll(s);
    assert s[..|s|] == s;
    assert FractionDigits(s[|s|..]) == [];
  }

  lemma {:induction false} LeadingDigitsAll(s: string)
    requires AllDigits(s)
    ensures LeadingDigits(s) == |s|
  {
    if s != [] {
      LeadingDigitsAll(s[1..]);
    }
  }

  lemma NoDigitUnsigned(u: string)
    requires forall i :: 0 <= i < |u| ==> !IsDigit(u[i])
    ensures ParseUnsigned(u) == None
  {
    if u != [] { assert !IsDigit(u[0]); }
    if |u| > 1 && u[0] == '.' { assert u[1..][0] == u[1]; }
  }

  /** Text of the form digits '.' digits, with at least one digit before the
      point, is read as the whole part plus the fraction: `x` is that value. */
  lemma ParseDecimal(s: string, w: string, f: string, x: real)
    requires s == w + "." + f
    requires w != [] && AllDigits(w) && AllDigits(f)
    requires x == DigitsValue(w) as real + DigitsValue(f) as real / Pow10(|f|) as real
    ensures ParseFloat(s) == Some(x)
  {
    assert s[0] == w[0];
    ParsePlain(s);
    UnsignedDecimal(w, f, x);
  }

  lemma UnsignedDecimal(w: string, f: string, x: real)
    requires w != [] && AllDigits(w) && AllDigits(f)
    requires x == DecimalValue(w, f)
    ensures ParseUnsigned(w + "." + f) == Some(x)
  {
    var s := w + "." + f;
    var tail := "." + f;
    assert s == w + tail;
    LeadingDigitsPrefix(w, tail);
    assert s[..|w|] == w && s[|w|..] == tail;
    FractionOf(f);
    UnsignedParts(s, |w|, f, x);
  }

  /** `ParseUnsigned` in terms of where its digit run ends and which fraction
      digits follow. */
  lemma UnsignedParts(u: string, n: nat, frac: string, x: real)
    requires 0 < n <= |u| && LeadingDigits(u) == n && FractionDigits(u[n..]) == frac
    requires x == DecimalValue(u[..n], frac)
    ensures ParseUnsigned(u) == Some(x)
  {
  }

  lemma {:induction false} LeadingDigitsPrefix(ds: string, tail: string)
    requires AllDigits(ds) && (tail == [] || !IsDigit(tail[0]))
    ensures LeadingDigits(ds + tail) == |ds|
  {
    if ds != [] {
      assert (ds + tail)[1..] == ds[1..] + tail;
      LeadingDigitsPrefix(ds[1..], tail);
    }
  }

  lemma FractionOf(f: string)
    requires AllDigits(f)
    ensures FractionDigits("." + f) == f
  {
    assert ("." + f)[1..] == f;
    LeadingDigitsAll(f);
    assert f[..|f|] == f;
  }

  /** Leading white space does not change what `parseFloat` reads. */
  lemma ParseSkipsSpace(c: char, s: string)
    requires IsJsSpace(c)
    ensures ParseFloat([c] + s) == ParseFloat(s)
  {
    assert ([c] + s)[1..] == s;
    assert TrimStart([c] + s) == TrimStart(s);
  }
}
