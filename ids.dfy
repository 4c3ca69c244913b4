/** Item identifiers as text: Python `str(n)` for an int (the key under
    which a cooldown stamp is stored), and Python `int(s)` for a str. */
module Ids {
  import opened Wrappers
  import Text

  predicate IsDigit(c: char) {
    '0' <= c <= '9'
  }

  predicate AllDigits(s: string) {
    forall i | 0 <= i < |s| :: IsDigit(s[i])
  }

  /** Python `s.isdigit()` over ASCII: non-empty and digits only. */
  predicate IsDigitString(s: string) {
    |s| > 0 && AllDigits(s)
  }

  function DigitChar(d: nat): (c: char)
    requires d < 10
    ensures IsDigit(c) && DigitValue(c) == d
  {
    ('0' as int + d) as char
  }

  function DigitValue(c: char): (d: nat)
    requires IsDigit(c)
    ensures d < 10
  {
    c as int - '0' as int
  }

  /** The decimal digits of `n`, most significant first, without leading zeros. */
  function NatToDigits(n: nat): (s: string)
    ensures IsDigitString(s)
    ensures |s| > 1 ==> s[0] != '0'
  {
    if n < 10 then [DigitChar(n)] else NatToDigits(n / 10) + [DigitChar(n % 10)]
  }

  /** The number a string of decimal digits denotes. */
  function DigitsValue(s: string): nat
    requires AllDigits(s)
  {
    if s == [] then 0 else DigitsValue(s[..|s| - 1]) * 10 + DigitValue(s[|s| - 1])
  }

  lemma {:induction false} DigitsRoundTrip(n: nat)
    ensures DigitsValue(NatToDigits(n)) == n
  {
    if n >= 10 {
      DigitsRoundTrip(n / 10);
      var s := NatToDigits(n);
      assert s[..|s| - 1] == NatToDigits(n / 10);
    }
  }

  /** Python `str(n)`: the key under which an item's cooldown stamp is recorded. */
  function IdKey(n: int): (s: string)
    ensures |s| > 0
    ensures n < 0 <==> s[0] == '-'
  {
    if n < 0 then "-" + NatToDigits(-n) else NatToDigits(n)
  }

  /** Reads back a key in the form `IdKey` writes. */
  function ParseIdKey(s: string): Option<int> {
    if |s| > 0 && s[0] == '-' then
      if IsDigitString(s[1..]) then var v: int := DigitsValue(s[1..]); Some(-v) else None
    else if IsDigitString(s) then Some(DigitsValue(s)) else None
  }

  lemma IdKeyRoundTrip(n: int)
    ensures ParseIdKey(IdKey(n)) == Some(n)
  {
    if n < 0 {
      assert IdKey(n)[1..] == NatToDigits(-n);
      DigitsRoundTrip(-n);
    } else {
      DigitsRoundTrip(n);
    }
  }

  /** Distinct ids never share a cooldown key. */
  lemma IdKeyInjective(a: int, b: int)
    ensures IdKey(a) == IdKey(b) <==> a == b
  {
    if IdKey(a) == IdKey(b) {
      IdKeyRoundTrip(a);
      IdKeyRoundTrip(b);
    }
  }

  // ---- Python int() on a str ----

  /** Digits with single underscores between them, as `int()` accepts. */
  predicate IsDecimalBody(b: string) {
    && |b| > 0 && IsDigit(b[0]) && IsDigit(b[|b| - 1])
    && (forall i | 0 <= i < |b| :: IsDigit(b[i]) || b[i] == '_')
    && (forall i | 0 <= i < |b| - 1 :: !(b[i] == '_' && b[i + 1] == '_'))
  }

  /** The digits of `b` with the underscores taken out. */
  function DropUnderscores(b: string): (d: string)
    requires forall i | 0 <= i < |b| :: IsDigit(b[i]) || b[i] == '_'
    ensures AllDigits(d) && |d| <= |b|
    ensures AllDigits(b) ==> d == b
  {
    if b == [] then []
    else (if b[0] == '_' then [] else [b[0]]) + DropUnderscores(b[1..])
  }

  /** `int()` on text that has already been stripped: one optional sign, then
      digits with single underscores; `None` where Python raises ValueError. */
  function ParseSignedBody(t: string): Option<int> {
    if |t| > 0 && (t[0] == '-' || t[0] == '+') then
      if IsDecimalBody(t[1..]) then
        var v: int := DigitsValue(DropUnderscores(t[1..]));
        Some(if t[0] == '-' then -v else v)
      else None
    else if IsDecimalBody(t) then Some(DigitsValue(DropUnderscores(t)))
    else None
  }

  /** Python `int(s)` for a str: surrounding whitespace is ignored. */
  function ParseIntLiteral(s: string): Option<int> {
    ParseSignedBody(Text.Strip(s))
  }

  /** Python `s.lstrip("-")`. */
  function LStripMinus(s: string): (r: string)
    ensures |r| <= |s| && r == s[|s| - |r|..]
    ensures forall i | 0 <= i < |s| - |r| :: s[i] == '-'
    ensures r != [] ==> r[0] != '-'
  {
    if s != [] && s[0] == '-' then LStripMinus(s[1..]) else s
  }

  /** A plain digit string is a valid `int()` body and has no underscores to drop. */
  lemma DigitStringIsBody(d: string)
    requires IsDigitString(d)
    ensures IsDecimalBody(d) && DropUnderscores(d) == d
  {
  }

  /** A string of minus signs and digits, with no whitespace, is unchanged by `strip()`. */
  lemma StripPlain(s: string)
    requires forall i | 0 <= i < |s| :: IsDigit(s[i]) || s[i] == '-'
    ensures Text.Strip(s) == s
  {
    if s != [] {
      assert !Text.IsSpace(s[0]) && !Text.IsSpace(s[|s| - 1]);
      assert Text.LStrip(s) == s;
      assert Text.RStrip(s) == s;
    }
  }

  /** What the `str(x).lstrip("-").isdigit()` filter admits: minus signs, then digits. */
  lemma {:induction false} FilteredIsPlain(s: string)
    requires IsDigitString(LStripMinus(s))
    ensures forall i | 0 <= i < |s| :: IsDigit(s[i]) || s[i] == '-'
  {
    if s != [] && s[0] == '-' {
      FilteredIsPlain(s[1..]);
      forall i | 0 <= i < |s| ensures IsDigit(s[i]) || s[i] == '-' {
        if i > 0 { assert s[i] == s[1..][i - 1]; }
      }
    }
  }

  lemma SignedBodyOfDigits(d: string)
    requires IsDigitString(d)
    ensures ParseSignedBody(d) == Some(DigitsValue(d))
    ensures ParseSignedBody("-" + d) == Some(-(DigitsValue(d) as int))
  {
    DigitStringIsBody(d);
    assert ("-" + d)[1..] == d;
  }

  lemma SignedBodyOfDoubleMinus(s: string)
    requires |s| >= 2 && s[0] == '-' && s[1] == '-'
    ensures ParseSignedBody(s) == None
  {
    assert s[1..][0] == '-';
  }

  /** A string that the `str(x).lstrip("-").isdigit()` filter admits parses
      through `int()` exactly when it has at most one leading minus sign. */
  lemma {:induction false} ParseFilteredLiteral(s: string)
    requires IsDigitString(LStripMinus(s))
    ensures var digits := LStripMinus(s); var minus := |s| - |digits|;
      ParseIntLiteral(s) ==
        if minus == 0 then Some(DigitsValue(digits))
        else if minus == 1 then Some(-(DigitsValue(digits) as int))
        else None
  {
    FilteredIsPlain(s);
    StripPlain(s);
    SignedFiltered(s);
  }

  lemma SignedFiltered(s: string)
    requires IsDigitString(LStripMinus(s))
    ensures var digits := LStripMinus(s); var minus := |s| - |digits|;
      ParseSignedBody(s) ==
        if minus == 0 then Some(DigitsValue(digits))
        else if minus == 1 then Some(-(DigitsValue(digits) as int))
        else None
  {
    var d := LStripMinus(s);
    if |s| == |d| {
      assert s == d;
      SignedBodyOfDigits(d);
    } else if |s| == |d| + 1 {
      SignedBodyOfDigits(d);
      assert s == "-" + d;
    } else {
      SignedBodyOfDoubleMinus(s);
    }
  }
}
