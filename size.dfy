/**
 * The size-string conversion `parse_size` of scrape-archive_download.py:
 * strip surrounding whitespace, upper-case, look at the last character only
 * (G, M or K select a power of 1024), convert the rest with Python's
 * `float()`, and fall back to 0 when that conversion raises `ValueError`.
 */
module SizeParsing {
  import opened Wrappers

  const KiB: real := 1024.0        // 1024
  const MiB: real := 1048576.0     // 1024^2
  const GiB: real := 1073741824.0  // 1024^3

  // ---------------------------------------------------------------------
  // Characters

  /** Python's `str.isspace()`: the characters `str.strip()` removes. */
  predicate IsSpace(c: char) {
    || ('\t' <= c <= '\r')
    || ('\U{1C}' <= c <= '\U{1F}')
    || c == ' ' || c == '\U{85}' || c == '\U{A0}' || c == '\U{1680}'
    || ('\U{2000}' <= c <= '\U{200A}')
    || c == '\U{2028}' || c == '\U{2029}' || c == '\U{202F}' || c == '\U{205F}' || c == '\U{3000}'
  }

  /** The information separators U+001C to U+001F: `str.isspace()` accepts them, `float()` does not. */
  predicate IsInfoSeparator(c: char) { '\U{1C}' <= c <= '\U{1F}' }

  /**
   * The whitespace `float()` skips around a number. CPython first turns every
   * non-ASCII `isspace()` character into a space and leaves ASCII text as it
   * is, then skips the C-locale spaces (tab to carriage return, and space):
   * `IsSpace` without the information separators.
   */
  predicate IsFloatSpace(c: char) { IsSpace(c) && !IsInfoSeparator(c) }

  predicate IsDigit(c: char) { '0' <= c <= '9' }

  /** `str.upper()` on one character, for the ASCII letters. */
  function UpperChar(c: char): char {
    if 'a' <= c <= 'z' then (c as int - 32) as char else c
  }

  // ---------------------------------------------------------------------
  // str.strip() and str.upper()

  function Upper(s: string): (r: string)
    ensures |r| == |s|
    ensures forall i :: 0 <= i < |s| ==> r[i] == UpperChar(s[i])
  {
    if s == [] then [] else [UpperChar(s[0])] + Upper(s[1..])
  }

  /** Drops the leading characters in `sp`: what remains is a suffix of `s` that does not start with one. */
  function StripLeft(s: string, sp: char -> bool): (r: string)
    ensures |r| <= |s| && r == s[|s| - |r|..]
    ensures forall i :: 0 <= i < |s| - |r| ==> sp(s[i])
    ensures r == [] || !sp(r[0])
  {
    if s != [] && sp(s[0]) then
      var r := StripLeft(s[1..], sp);
      assert s[1..][|s| - 1 - |r|..] == s[|s| - |r|..];
      r
    else s
  }

  /** Drops the trailing characters in `sp`: what remains is a prefix of `s` that does not end with one. */
  function StripRight(s: string, sp: char -> bool): (r: string)
    ensures |r| <= |s| && r == s[..|r|]
    ensures forall i :: |r| <= i < |s| ==> sp(s[i])
    ensures r == [] || !sp(r[|r| - 1])
  {
    if s != [] && sp(s[|s| - 1]) then StripRight(s[..|s| - 1], sp) else s
  }

  /** Drops the characters in `sp` from both ends; `Strip(s, IsSpace)` is `s.strip()`. */
  function Strip(s: string, sp: char -> bool): string {
    StripRight(StripLeft(s, sp), sp)
  }

  /** `size_str.strip().upper()` */
  function Normalize(s: string): string {
    Upper(Strip(s, IsSpace))
  }

  // ---------------------------------------------------------------------
  // float(): the decimal subset  [sign] digits [. digits] [(E|e) [sign] digits]

  predicate AllDigits(s: string) {
    forall i :: 0 <= i < |s| ==> IsDigit(s[i])
  }

  function DigitValue(c: char): nat
    requires IsDigit(c)
  {
    c as int - '0' as int
  }

  /** The value of a decimal numeral, most significant digit first. */
  function DigitsValue(s: string): nat
    requires AllDigits(s)
  {
    if s == [] then 0 else DigitsValue(s[..|s| - 1]) * 10 + DigitValue(s[|s| - 1])
  }

  function Pow10(n: nat): (r: nat)
    ensures r >= 1
  {
    if n == 0 then 1 else 10 * Pow10(n - 1)
  }

  predicate IsPoint(c: char) { c == '.' }

  predicate IsExponentMark(c: char) { c == 'E' || c == 'e' }

  predicate IsSign(c: char) { c == '+' || c == '-' }

  /** The index of the first character of `s` that satisfies `p`, or `|s|` when there is none. */
  function Find(s: string, p: char -> bool): (k: nat)
    ensures k <= |s|
    ensures k < |s| ==> p(s[k])
    ensures forall i :: 0 <= i < k ==> !p(s[i])
  {
    if s == [] || p(s[0]) then 0 else 1 + Find(s[1..], p)
  }

  /** Optional sign then at least one digit. */
  function ParseExponent(s: string): Option<int> {
    if s != [] && IsSign(s[0]) then
      if s[1..] != [] && AllDigits(s[1..]) then
        var n: int := DigitsValue(s[1..]);
        Some(if s[0] == '-' then -n else n)
      else None
    else if s != [] && AllDigits(s) then Some(DigitsValue(s))
    else None
  }

  /** `x` times ten to the power `k`, one factor of ten at a time. */
  function Shift(x: real, k: int): real
    decreases if k >= 0 then k else -k
  {
    if k == 0 then x
    else if k > 0 then Shift(x, k - 1) * 10.0
    else Shift(x, k + 1) / 10.0
  }

  /** Digits, optionally one point and more digits; at least one digit in all. */
  function ParseMantissa(s: string): Option<real> {
    var k := Find(s, IsPoint);
    var whole := s[..k];
    var frac := if k < |s| then s[k + 1..] else [];
    if AllDigits(whole) && AllDigits(frac) && |whole| + |frac| > 0 then
      Some(Shift(DigitsValue(whole + frac) as real, -|frac|))
    else None
  }

  function ParseUnsigned(s: string): Option<real> {
    var k := Find(s, IsExponentMark);
    match ParseMantissa(s[..k])
    case None => None
    case Some(m) =>
      if k == |s| then Some(m)
      else
        match ParseExponent(s[k + 1..])
        case None => None
        case Some(e) => Some(Shift(m, e))
  }

  /**
   * Python's `float(text)` on the decimal subset: surrounding `IsFloatSpace`
   * whitespace is ignored; `None` is the `ValueError` raised for anything else.
   */
  function ParseFloat(text: string): Option<real> {
    ParseStripped(Strip(text, IsFloatSpace))
  }

  /** `float()` once the surrounding whitespace is gone: an optional sign, then an unsigned number. */
  function ParseStripped(t: string): Option<real> {
    if t != [] && IsSign(t[0]) then
      match ParseUnsigned(t[1..])
      case None => None
      case Some(v) => Some(if t[0] == '-' then -v else v)
    else ParseUnsigned(t)
  }

  // ---------------------------------------------------------------------
  // parse_size

  /** The unit letters `parse_size` recognises at the end of the upper-cased text. */
  predicate IsUnitLetter(c: char) { c == 'G' || c == 'M' || c == 'K' }

  /** The `except ValueError: return 0` fallback. */
  function OrZero(v: Option<real>): real {
    match v
    case Some(x) => x
    case None => 0.0
  }

  function ParseSize(sizeText: string): real {
    SizeOfNormalized(Normalize(sizeText))
  }

  /**
   * The suffix dispatch of `parse_size`, on text already stripped and
   * upper-cased: only the last character is looked at, G before M before K.
   */
  function SizeOfNormalized(t: string): real {
    if t != [] && t[|t| - 1] == 'G' then OrZero(ParseFloat(t[..|t| - 1])) * GiB
    else if t != [] && t[|t| - 1] == 'M' then OrZero(ParseFloat(t[..|t| - 1])) * MiB
    else if t != [] && t[|t| - 1] == 'K' then OrZero(ParseFloat(t[..|t| - 1])) * KiB
    else OrZero(ParseFloat(t))
  }

  // ---------------------------------------------------------------------
  // Properties of parse_size

  /** A plain listing numeral: `whole` digits, then `.` and `frac` digits when `frac` is not empty. */
  function DecimalText(whole: string, frac: string): string {
    if frac == [] then whole else whole + "." + frac
  }

  /** The value a decimal numeral denotes. */
  function DecimalValue(whole: string, frac: string): real
    requires AllDigits(whole) && AllDigits(frac)
  {
    DigitsValue(whole) as real + DigitsValue(frac) as real / Pow10(|frac|) as real
  }

  predicate IsNumeralChar(c: char) { IsDigit(c) || IsPoint(c) }

  predicate IsNumeral(x: string) {
    forall i :: 0 <= i < |x| ==> IsNumeralChar(x[i])
  }

  lemma DecimalIsNumeral(whole: string, frac: string)
    requires AllDigits(whole) && AllDigits(frac) && |whole| + |frac| > 0
    ensures DecimalText(whole, frac) != [] && IsNumeral(DecimalText(whole, frac))
  {
  }

  lemma NoSpaceStrip(s: string, sp: char -> bool)
    requires forall i :: 0 <= i < |s| ==> !sp(s[i])
    ensures Strip(s, sp) == s
  {
  }

  /** The arithmetic step of `DigitsAppend`, kept apart from the sequences. */
  lemma ShiftInDigit(x: int, p: int, y: int, d: int)
    ensures (x * p + y) * 10 + d == x * (p * 10) + (y * 10 + d)
  {
  }

  lemma {:induction false} DigitsAppend(a: string, b: string)
    requires AllDigits(a) && AllDigits(b)
    ensures AllDigits(a + b)
    ensures DigitsValue(a + b) == DigitsValue(a) * Pow10(|b|) + DigitsValue(b)
  {
    if b != [] {
      var b' := b[..|b| - 1];
      assert (a + b)[..|a + b| - 1] == a + b';
      assert (a + b)[|a + b| - 1] == b[|b| - 1];
      DigitsAppend(a, b');
      var d := DigitValue(b[|b| - 1]);
      assert DigitsValue(a + b) == DigitsValue(a + b') * 10 + d;
      assert DigitsValue(b) == DigitsValue(b') * 10 + d;
      assert Pow10(|b|) == Pow10(|b'|) * 10;
      ShiftInDigit(DigitsValue(a), Pow10(|b'|), DigitsValue(b'), d);
    } else {
      assert a + b == a;
    }
  }

  lemma {:induction false} ShiftDown(x: real, k: nat)
    ensures Shift(x, -(k as int)) == x / Pow10(k) as real
  {
    if k > 0 {
      ShiftDown(x, k - 1);
      var p := Pow10(k - 1) as real;
      assert p > 0.0;
      assert Pow10(k) as real == p * 10.0;
      calc {
        Shift(x, -(k as int));
        Shift(x, -(k as int) + 1) / 10.0;
        (x / p) / 10.0;
        { DivideTwice(x, p, 10.0); }
        x / (p * 10.0);
      }
    }
  }

  lemma DivideTwice(x: real, p: real, q: real)
    requires p > 0.0 && q > 0.0
    ensures (x / p) / q == x / (p * q)
  {
    var y := x / p;
    var z := y / q;
    assert x == y * p;
    assert y == z * q;
    assert x == z * (p * q);
  }

  /** If n = w*p + f with p > 0, then n/p = w + f/p. */
  lemma AffineQuotient(n: int, w: int, f: int, p: int)
    requires p > 0 && n == w * p + f
    ensures n as real / p as real == w as real + f as real / p as real
  {
    assert n as real == (w as real) * (p as real) + f as real;
  }

  /** The mantissa grammar's shift of all the digits agrees with whole part plus fraction. */
  lemma MantissaValue(whole: string, frac: string)
    requires AllDigits(whole) && AllDigits(frac)
    ensures AllDigits(whole + frac)
    ensures Shift(DigitsValue(whole + frac) as real, -|frac|) == DecimalValue(whole, frac)
  {
    DigitsAppend(whole, frac);
    ShiftDown(DigitsValue(whole + frac) as real, |frac|);
    AffineQuotient(DigitsValue(whole + frac), DigitsValue(whole), DigitsValue(frac), Pow10(|frac|));
  }

  lemma MantissaOfDecimal(whole: string, frac: string)
    requires AllDigits(whole) && AllDigits(frac) && |whole| + |frac| > 0
    ensures ParseMantissa(DecimalText(whole, frac)) == Some(DecimalValue(whole, frac))
  {
    var x := DecimalText(whole, frac);
    var p := Find(x, IsPoint);
    MantissaValue(whole, frac);
    if frac == [] {
      assert p == |x|;
      assert x[..p] == whole;
    } else {
      assert x[|whole|] == '.';
      assert forall i :: 0 <= i < |whole| ==> !IsPoint(x[i]) by {
        assert forall i :: 0 <= i < |whole| ==> x[i] == whole[i];
      }
      assert p == |whole|;
      assert x[..p] == whole;
      assert x[p + 1..] == frac;
    }
  }

  /** On digits and points alone, `float()` is the mantissa grammar. */
  lemma PlainNumeral(x: string)
    requires IsNumeral(x)
    ensures ParseFloat(x) == ParseMantissa(x)
  {
    NoSpaceStrip(x, IsFloatSpace);
    assert x[..Find(x, IsExponentMark)] == x;
  }

  /** `float()` reads a plain decimal numeral as the number it denotes. */
  lemma DecimalParses(whole: string, frac: string)
    requires AllDigits(whole) && AllDigits(frac) && |whole| + |frac| > 0
    ensures ParseFloat(DecimalText(whole, frac)) == Some(DecimalValue(whole, frac))
  {
    DecimalIsNumeral(whole, frac);
    PlainNumeral(DecimalText(whole, frac));
    MantissaOfDecimal(whole, frac);
  }

  lemma UpperNumeral(x: string)
    requires IsNumeral(x)
    ensures Upper(x) == x
  {
    assert forall i :: 0 <= i < |x| ==> UpperChar(x[i]) == x[i];
  }

  lemma UpperSnoc(x: string, u: char)
    ensures Upper(x + [u]) == Upper(x) + [UpperChar(u)]
  {
  }

  lemma NumeralHasNoSpace(x: string)
    requires IsNumeral(x)
    ensures forall i :: 0 <= i < |x| ==> !IsSpace(x[i])
  {
  }

  lemma NoSpaceSnoc(x: string, u: char)
    requires forall i :: 0 <= i < |x| ==> !IsSpace(x[i])
    requires IsUnitLetter(UpperChar(u))
    ensures Strip(x + [u], IsSpace) == x + [u]
  {
    assert forall i :: 0 <= i < |x + [u]| ==> !IsSpace((x + [u])[i]);
    NoSpaceStrip(x + [u], IsSpace);
  }

  lemma NormalizeNumeral(x: string, u: char)
    requires IsNumeral(x)
    requires IsUnitLetter(UpperChar(u))
    ensures Normalize(x) == x
    ensures Normalize(x + [u]) == x + [UpperChar(u)]
  {
    NumeralHasNoSpace(x);
    NoSpaceStrip(x, IsSpace);
    NoSpaceSnoc(x, u);
    UpperNumeral(x);
    UpperSnoc(x, u);
  }

  /** The unit letter at the end selects the factor; the text before it goes to `float()`. */
  lemma UnitDispatch(x: string, c: char)
    requires IsUnitLetter(c)
    ensures c == 'G' ==> SizeOfNormalized(x + [c]) == OrZero(ParseFloat(x)) * GiB
    ensures c == 'M' ==> SizeOfNormalized(x + [c]) == OrZero(ParseFloat(x)) * MiB
    ensures c == 'K' ==> SizeOfNormalized(x + [c]) == OrZero(ParseFloat(x)) * KiB
  {
    var t := x + [c];
    assert t[..|t| - 1] == x;
  }

  /** Without a unit letter at the end, the whole text goes to `float()`. */
  lemma PlainDispatch(x: string)
    requires x == [] || !IsUnitLetter(x[|x| - 1])
    ensures SizeOfNormalized(x) == OrZero(ParseFloat(x))
  {
  }

  /**
   * A numeral followed by G, M or K, in either case, is the numeral's value
   * times 1024^3, 1024^2 or 1024.
   */
  lemma SuffixScales(whole: string, frac: string, u: char)
    requires AllDigits(whole) && AllDigits(frac) && |whole| + |frac| > 0
    requires IsUnitLetter(UpperChar(u))
    ensures UpperChar(u) == 'G' ==> ParseSize(DecimalText(whole, frac) + [u]) == DecimalValue(whole, frac) * GiB
    ensures UpperChar(u) == 'M' ==> ParseSize(DecimalText(whole, frac) + [u]) == DecimalValue(whole, frac) * MiB
    ensures UpperChar(u) == 'K' ==> ParseSize(DecimalText(whole, frac) + [u]) == DecimalValue(whole, frac) * KiB
  {
    var x := DecimalText(whole, frac);
    DecimalIsNumeral(whole, frac);
    NormalizeNumeral(x, u);
    UnitDispatch(x, UpperChar(u));
    DecimalParses(whole, frac);
  }

  /** A numeral without a unit letter is taken as a byte count as it stands. */
  lemma NoSuffixIsBytes(whole: string, frac: string)
    requires AllDigits(whole) && AllDigits(frac) && |whole| + |frac| > 0
    ensures ParseSize(DecimalText(whole, frac)) == DecimalValue(whole, frac)
  {
    var x := DecimalText(whole, frac);
    DecimalIsNumeral(whole, frac);
    NormalizeNumeral(x, 'G');
    assert IsNumeralChar(x[|x| - 1]);
    PlainDispatch(x);
    DecimalParses(whole, frac);
  }

  predicate AllSpace(s: string, sp: char -> bool) {
    forall i :: 0 <= i < |s| ==> sp(s[i])
  }

  lemma {:induction false} StripLeftSpaces(ws: string, s: string, sp: char -> bool)
    requires AllSpace(ws, sp)
    ensures StripLeft(ws + s, sp) == StripLeft(s, sp)
  {
    if ws != [] {
      assert (ws + s)[0] == ws[0];
      assert (ws + s)[1..] == ws[1..] + s;
      StripLeftSpaces(ws[1..], s, sp);
      assert StripLeft(ws + s, sp) == StripLeft(ws[1..] + s, sp);
    } else {
      assert ws + s == s;
    }
  }

  lemma {:induction false} StripRightSpaces(s: string, ws: string, sp: char -> bool)
    requires AllSpace(ws, sp)
    ensures StripRight(s + ws, sp) == StripRight(s, sp)
  {
    if ws != [] {
      assert (s + ws)[|s + ws| - 1] == ws[|ws| - 1];
      assert (s + ws)[..|s + ws| - 1] == s + ws[..|ws| - 1];
      StripRightSpaces(s, ws[..|ws| - 1], sp);
      assert StripRight(s + ws, sp) == StripRight(s + ws[..|ws| - 1], sp);
    } else {
      assert s + ws == s;
    }
  }

  lemma {:induction false} StripLeftThenSpaces(s: string, ws: string, sp: char -> bool)
    requires AllSpace(ws, sp)
    ensures StripLeft(s + ws, sp) == if StripLeft(s, sp) == [] then [] else StripLeft(s, sp) + ws
  {
    if s == [] {
      assert s + ws == ws + [];
      StripLeftSpaces(ws, [], sp);
    } else {
      assert (s + ws)[0] == s[0];
      if sp(s[0]) {
        assert (s + ws)[1..] == s[1..] + ws;
        StripLeftThenSpaces(s[1..], ws, sp);
        assert StripLeft(s + ws, sp) == StripLeft(s[1..] + ws, sp);
      }
    }
  }

  /** Characters of the stripped set added on either side are stripped again. */
  lemma StripIgnoresSurroundingSpace(ws1: string, s: string, ws2: string, sp: char -> bool)
    requires AllSpace(ws1, sp) && AllSpace(ws2, sp)
    ensures Strip(ws1 + s + ws2, sp) == Strip(s, sp)
  {
    StripLeftThenSpaces(ws1 + s, ws2, sp);
    StripLeftSpaces(ws1, s, sp);
    if StripLeft(s, sp) != [] {
      StripRightSpaces(StripLeft(s, sp), ws2, sp);
    }
  }

  /** Whitespace around the size text is ignored. */
  lemma SurroundingSpaceIgnored(ws1: string, s: string, ws2: string)
    requires AllSpace(ws1, IsSpace) && AllSpace(ws2, IsSpace)
    ensures ParseSize(ws1 + s + ws2) == ParseSize(s)
  {
    StripIgnoresSurroundingSpace(ws1, s, ws2, IsSpace);
  }

  /**
   * `float()` ignores the whitespace `IsFloatSpace` accepts around a number;
   * unlike `str.strip()`, it keeps the separators U+001C to U+001F.
   */
  lemma FloatIgnoresSurroundingSpace(ws1: string, s: string, ws2: string)
    requires AllSpace(ws1, IsFloatSpace) && AllSpace(ws2, IsFloatSpace)
    ensures ParseFloat(ws1 + s + ws2) == ParseFloat(s)
  {
    StripIgnoresSurroundingSpace(ws1, s, ws2, IsFloatSpace);
  }

  lemma {:induction false} UpperPrefix(s: string, n: nat)
    requires n <= |s|
    ensures Upper(s)[..n] == Upper(s[..n])
  {
    if n > 0 {
      var t := s[1..];
      UpperPrefix(t, n - 1);
      assert Upper(s) == [UpperChar(s[0])] + Upper(t);
      assert s[..n][1..] == t[..n - 1];
      assert Upper(s[..n]) == [UpperChar(s[0])] + Upper(t[..n - 1]);
    }
  }

  lemma UpperIdempotent(s: string)
    ensures Upper(Upper(s)) == Upper(s)
  {
  }

  lemma UpperKeepsSpace(c: char)
    ensures IsSpace(UpperChar(c)) == IsSpace(c)
  {
  }

  lemma {:induction false} StripLeftUpper(s: string)
    ensures StripLeft(Upper(s), IsSpace) == Upper(StripLeft(s, IsSpace))
  {
    if s != [] {
      var u := Upper(s);
      UpperKeepsSpace(s[0]);
      assert u[0] == UpperChar(s[0]);
      if IsSpace(s[0]) {
        assert u[1..] == Upper(s[1..]);
        StripLeftUpper(s[1..]);
        assert StripLeft(u, IsSpace) == StripLeft(u[1..], IsSpace);
      }
    }
  }

  lemma {:induction false} StripRightUpper(s: string)
    ensures StripRight(Upper(s), IsSpace) == Upper(StripRight(s, IsSpace))
  {
    if s != [] {
      var u := Upper(s);
      UpperKeepsSpace(s[|s| - 1]);
      assert u[|u| - 1] == UpperChar(s[|s| - 1]);
      if IsSpace(s[|s| - 1]) {
        UpperPrefix(s, |s| - 1);
        assert u[..|u| - 1] == Upper(s[..|s| - 1]);
        StripRightUpper(s[..|s| - 1]);
        assert StripRight(u, IsSpace) == StripRight(u[..|u| - 1], IsSpace);
      }
    }
  }

  /** The text is upper-cased before anything is read from it, so letter case never matters. */
  lemma CaseInsensitive(s: string)
    ensures ParseSize(Upper(s)) == ParseSize(s)
  {
    StripLeftUpper(s);
    StripRightUpper(StripLeft(s, IsSpace));
    UpperIdempotent(Strip(s, IsSpace));
    assert Normalize(Upper(s)) == Normalize(s);
  }

  predicate NoDigit(s: string) {
    forall i :: 0 <= i < |s| ==> !IsDigit(s[i])
  }

  lemma NoDigitSlice(s: string, i: nat, j: nat)
    requires NoDigit(s) && i <= j <= |s|
    ensures NoDigit(s[i..j])
  {
    forall k | 0 <= k < j - i
      ensures !IsDigit(s[i..j][k])
    {
      assert s[i..j][k] == s[i + k];
    }
  }

  lemma StripNoDigit(s: string, sp: char -> bool)
    requires NoDigit(s)
    ensures NoDigit(Strip(s, sp))
  {
    var l := StripLeft(s, sp);
    NoDigitSlice(s, |s| - |l|, |s|);
    var r := StripRight(l, sp);
    NoDigitSlice(l, 0, |r|);
  }

  lemma UpperNoDigit(s: string)
    requires NoDigit(s)
    ensures NoDigit(Upper(s))
  {
  }

  lemma NoDigitMantissa(s: string)
    requires NoDigit(s)
    ensures ParseMantissa(s) == None
  {
    var k := Find(s, IsPoint);
    if k < |s| && k + 1 < |s| {
      assert s[k + 1..][0] == s[k + 1];
    }
    if k > 0 {
      assert s[..k][0] == s[0];
    }
  }

  /** Within the decimal subset, `float()` raises on any text without a digit. */
  lemma NoDigitNoNumber(x: string)
    requires NoDigit(x)
    ensures ParseFloat(x) == None
  {
    StripNoDigit(x, IsFloatSpace);
    var t := Strip(x, IsFloatSpace);
    var u := if t != [] && IsSign(t[0]) then t[1..] else t;
    assert NoDigit(u);
    var m := u[..Find(u, IsExponentMark)];
    assert NoDigit(m);
    NoDigitMantissa(m);
  }

  /** Text with no digit at all, such as "", "G" or "garbage", is worth 0. */
  lemma NoDigitIsZero(s: string)
    requires NoDigit(s)
    ensures ParseSize(s) == 0.0
  {
    StripNoDigit(s, IsSpace);
    UpperNoDigit(Strip(s, IsSpace));
    var t := Normalize(s);
    if t != [] {
      assert NoDigit(t[..|t| - 1]);
      NoDigitNoNumber(t[..|t| - 1]);
    }
    NoDigitNoNumber(t);
  }

  /** Every accepted mantissa ends in a digit or a point. */
  lemma MantissaEnd(m: string)
    requires ParseMantissa(m).Some?
    ensures m != [] && IsNumeralChar(m[|m| - 1])
  {
    var p := Find(m, IsPoint);
    if p == |m| {
      assert m[..p] == m;
    } else if p + 1 < |m| {
      assert m[p + 1..][|m| - p - 2] == m[|m| - 1];
    }
  }

  /** Every accepted exponent ends in a digit. */
  lemma ExponentEnd(e: string)
    requires ParseExponent(e).Some?
    ensures e != [] && IsDigit(e[|e| - 1])
  {
    if IsSign(e[0]) {
      assert e[1..][|e| - 2] == e[|e| - 1];
    }
  }

  lemma UnsignedEnd(u: string)
    requires ParseUnsigned(u).Some?
    ensures u != [] && IsNumeralChar(u[|u| - 1])
  {
    var k := Find(u, IsExponentMark);
    MantissaEnd(u[..k]);
    if k < |u| {
      ExponentEnd(u[k + 1..]);
      assert u[k + 1..][|u| - k - 2] == u[|u| - 1];
    } else {
      assert u[..k] == u;
    }
  }

  /**
   * Within the modelled decimal subset (`inf` and `nan` are left out), a
   * number that `float()` accepts ends, once its whitespace is skipped, in a
   * digit or a point.
   */
  lemma NumberEnd(x: string)
    requires ParseFloat(x).Some?
    ensures var t := Strip(x, IsFloatSpace); t != [] && IsNumeralChar(t[|t| - 1])
  {
    var t := Strip(x, IsFloatSpace);
    if t != [] && IsSign(t[0]) {
      UnsignedEnd(t[1..]);
      assert t[1..][|t| - 2] == t[|t| - 1];
    } else {
      UnsignedEnd(t);
    }
  }

  lemma StripKeepsLast(s: string, sp: char -> bool)
    requires s != [] && !sp(s[|s| - 1])
    ensures var t := Strip(s, sp); t != [] && t[|t| - 1] == s[|s| - 1]
  {
    var l := StripLeft(s, sp);
    assert l != [] && l[|l| - 1] == s[|s| - 1];
  }

  /**
   * Within the modelled decimal subset (`inf` and `nan` are left out): when
   * the character before the unit letter is neither part of a numeral nor
   * whitespace `float()` skips, the remaining text is no number and the
   * result is 0.
   */
  lemma StrayBeforeUnitIsZero(s: string)
    requires var t := Normalize(s); |t| >= 2 && IsUnitLetter(t[|t| - 1])
    requires var t := Normalize(s); !IsNumeralChar(t[|t| - 2]) && !IsFloatSpace(t[|t| - 2])
    ensures ParseSize(s) == 0.0
  {
    var t := Normalize(s);
    var y := t[..|t| - 1];
    assert y[|y| - 1] == t[|t| - 2];
    StripKeepsLast(y, IsFloatSpace);
    if ParseFloat(y).Some? {
      NumberEnd(y);
      assert false;
    }
  }

  /**
   * Only one trailing letter is removed, so a text such as "1KK" or "2gm",
   * whose last two characters are both unit letters, is worth 0.
   */
  lemma DoubleSuffixIsZero(s: string)
    requires var t := Normalize(s); |t| >= 2 && IsUnitLetter(t[|t| - 1]) && IsUnitLetter(t[|t| - 2])
    ensures ParseSize(s) == 0.0
  {
    StrayBeforeUnitIsZero(s);
  }

  /**
   * `str.strip()` removes the separators U+001C to U+001F only at the ends of
   * the size text; one left between the number and the unit letter reaches
   * `float()`, which rejects it, so the text is worth 0.
   */
  lemma SeparatorBeforeUnitIsZero(s: string)
    requires var t := Normalize(s); |t| >= 2 && IsUnitLetter(t[|t| - 1]) && IsInfoSeparator(t[|t| - 2])
    ensures ParseSize(s) == 0.0
  {
    StrayBeforeUnitIsZero(s);
  }

  /** Worked sizes of the kind an archive.org listing shows. */
  lemma ExampleFractionalGiga()
    ensures ParseSize("1.5G") == 1.5 * GiB
  {
    assert DecimalValue("1", "5") == 1.5;
    assert DecimalText("1", "5") + "G" == "1.5G";
    SuffixScales("1", "5", 'G');
  }

  lemma ExampleMega()
    ensures ParseSize("300M") == 300.0 * MiB
  {
    assert DigitsValue("30") == 30;
    assert DigitsValue("300") == 300;
    assert DecimalValue("300", "") == 300.0;
    assert DecimalText("300", "") + "M" == "300M";
    SuffixScales("300", "", 'M');
  }

  lemma ExampleKilo()
    ensures ParseSize("100K") == 100.0 * KiB
  {
    assert DigitsValue("10") == 10;
    assert DigitsValue("100") == 100;
    assert DecimalValue("100", "") == 100.0;
    assert DecimalText("100", "") + "K" == "100K";
    SuffixScales("100", "", 'K');
  }

  lemma ExampleBytes()
    ensures ParseSize("2048") == 2048.0
  {
    assert DigitsValue("20") == 20;
    assert DigitsValue("204") == 204;
    assert "2048"[..3] == "204";
    assert DecimalValue("2048", "") == 2048.0;
    NoSuffixIsBytes("2048", "");
  }

  lemma ExampleLowerCase()
    ensures ParseSize("2g") == 2.0 * GiB
  {
    assert DecimalValue("2", "") == 2.0;
    assert DecimalText("2", "") + "g" == "2g";
    SuffixScales("2", "", 'g');
  }

  lemma ExampleSpacedLowerCase()
    ensures ParseSize(" 2g ") == 2.0 * GiB
  {
    var ws, t := " ", "2g";
    assert ws + t + ws == " 2g ";
    assert AllSpace(ws, IsSpace);
    SurroundingSpaceIgnored(ws, t, ws);
    ExampleLowerCase();
  }

  lemma ExampleGarbage()
    ensures ParseSize("garbage") == 0.0
  {
    assert NoDigit("garbage");
    NoDigitIsZero("garbage");
  }

  lemma ExampleEmpty()
    ensures ParseSize("") == 0.0
  {
    NoDigitIsZero("");
  }

  lemma ExampleBareUnit()
    ensures ParseSize("G") == 0.0
  {
    NoDigitIsZero("G");
  }

  lemma ExampleDoubleUnit()
    ensures ParseSize("1KK") == 0.0
  {
    assert Normalize("1KK") == "1KK";
    DoubleSuffixIsZero("1KK");
  }

  lemma ExampleSeparatorBeforeUnit()
    ensures ParseSize("1\U{1C}G") == 0.0
  {
    assert Normalize("1\U{1C}G") == "1\U{1C}G";
    SeparatorBeforeUnitIsZero("1\U{1C}G");
  }
}
