/** Numeric literal syntax: which tokens Python's `int(...)` and `float(...)` accept, as the
    parser uses them to classify a leaf (b_lab/lab.py:43-52 and 64-71).

    Only ASCII digits are modelled; Python also accepts other Unicode decimal digits. */
module Literals {

  predicate IsDigit(c: char) {
    '0' <= c <= '9'
  }

  predicate IsSign(c: char) {
    c == '+' || c == '-'
  }

  /** Python's `digitpart`: digits, optionally separated by single underscores. */
  predicate DigitPart(s: string) {
    && |s| > 0
    && IsDigit(s[0])
    && IsDigit(s[|s| - 1])
    && (forall i :: 0 <= i < |s| ==> IsDigit(s[i]) || s[i] == '_')
    && (forall i :: 0 <= i < |s| - 1 ==> s[i] == '_' ==> s[i + 1] != '_')
  }

  /** The number a digit string denotes; underscores are ignored. */
  function DigitsValue(s: string): nat {
    if |s| == 0 then 0
    else if IsDigit(s[|s| - 1]) then DigitsValue(s[..|s| - 1]) * 10 + (s[|s| - 1] - '0') as nat
    else DigitsValue(s[..|s| - 1])
  }

  /** A token `int(token)` accepts: an optional sign and a digit part. */
  predicate IsIntLiteral(s: string) {
    if |s| > 0 && IsSign(s[0]) then DigitPart(s[1..]) else DigitPart(s)
  }

  function IntLiteralValue(s: string): int
    requires IsIntLiteral(s)
  {
    if s[0] == '-' then -(DigitsValue(s[1..]) as int)
    else if s[0] == '+' then DigitsValue(s[1..])
    else DigitsValue(s)
  }

  /** First position holding a '.' (or |s| when there is none). */
  function FindChar(s: string, c: char): (i: nat)
    ensures i <= |s|
    ensures forall j :: 0 <= j < i ==> s[j] != c
    ensures i < |s| ==> s[i] == c
  {
    if |s| == 0 || s[0] == c then 0 else 1 + FindChar(s[1..], c)
  }

  /** First position holding an exponent marker 'e' or 'E' (or |s|). */
  function FindExponent(s: string): (i: nat)
    ensures i <= |s|
    ensures i < |s| ==> s[i] == 'e' || s[i] == 'E'
  {
    if |s| == 0 || s[0] == 'e' || s[0] == 'E' then 0 else 1 + FindExponent(s[1..])
  }

  /** `[digitpart] "." digitpart | digitpart ["."]` */
  predicate Mantissa(m: string) {
    var i := FindChar(m, '.');
    if i == |m| then DigitPart(m)
    else
      var whole, frac := m[..i], m[i + 1..];
      (whole == "" || DigitPart(whole)) && (frac == "" || DigitPart(frac)) && (whole != "" || frac != "")
  }

  /** `["+" | "-"] digitpart` after the exponent marker. */
  predicate ExponentDigits(x: string) {
    if |x| > 0 && IsSign(x[0]) then DigitPart(x[1..]) else DigitPart(x)
  }

  /** A token `float(token)` accepts, among those containing a '.', which are the only ones
      the parser hands to `float`; "inf" and "nan" never contain one. */
  predicate IsFloatLiteral(s: string) {
    var body := if |s| > 0 && IsSign(s[0]) then s[1..] else s;
    var e := FindExponent(body);
    Mantissa(body[..e]) && (e == |body| || ExponentDigits(body[e + 1..]))
  }

  /** Digits, a '.', then digits: a float literal. */
  lemma DecimalIsFloat(whole: string, frac: string)
    requires |whole| > 0 && |frac| > 0
    requires forall k :: 0 <= k < |whole| ==> IsDigit(whole[k])
    requires forall k :: 0 <= k < |frac| ==> IsDigit(frac[k])
    ensures '.' in whole + "." + frac && IsFloatLiteral(whole + "." + frac)
  {
    var t := whole + "." + frac;
    DecimalLayout(whole, frac);
    assert FindExponent(t) == |t|;
    assert t[..|t|] == t;
    assert FindChar(t, '.') == |whole|;
  }

  lemma DecimalLayout(whole: string, frac: string)
    requires forall k :: 0 <= k < |whole| ==> IsDigit(whole[k])
    requires forall k :: 0 <= k < |frac| ==> IsDigit(frac[k])
    ensures var t := whole + "." + frac;
      && t[|whole|] == '.' && t[..|whole|] == whole && t[|whole| + 1..] == frac
      && (forall k :: 0 <= k < |t| ==> IsDigit(t[k]) || t[k] == '.')
  {
    var t := whole + "." + frac;
    forall k | 0 <= k < |t| ensures IsDigit(t[k]) || t[k] == '.' {
      if k < |whole| { assert t[k] == whole[k]; }
      else if k > |whole| { assert t[k] == frac[k - |whole| - 1]; }
    }
  }

  // ---------------------------------------------------------------------------
  // Writing integers back out

  function DigitChar(d: nat): char
    requires d < 10
  {
    ('0' as int + d) as char
  }

  function ShowNat(n: nat): (s: string)
    ensures |s| > 0
    ensures forall i :: 0 <= i < |s| ==> IsDigit(s[i])
  {
    if n < 10 then [DigitChar(n)] else ShowNat(n / 10) + [DigitChar(n % 10)]
  }

  /** Decimal notation of an integer, as `str(i)` writes it. */
  function ShowInt(i: int): (s: string)
    ensures |s| > 0
    ensures forall k :: 0 <= k < |s| ==> IsDigit(s[k]) || s[k] == '-'
  {
    if i < 0 then "-" + ShowNat(-i) else ShowNat(i)
  }

  lemma {:induction false} ShowNatValue(n: nat)
    ensures DigitsValue(ShowNat(n)) == n
  {
    if n >= 10 {
      ShowNatValue(n / 10);
      var s := ShowNat(n);
      assert s[..|s| - 1] == ShowNat(n / 10);
    }
  }

  /** `int(str(i)) == i`, and the text has no '.', so the parser reads it back as an int. */
  lemma ShowIntRoundTrip(i: int)
    ensures '.' !in ShowInt(i)
    ensures IsIntLiteral(ShowInt(i))
    ensures IntLiteralValue(ShowInt(i)) == i
  {
    var s := ShowInt(i);
    if i < 0 {
      ShowNatValue(-i);
      assert s[1..] == ShowNat(-i);
    } else {
      ShowNatValue(i);
    }
  }
}
