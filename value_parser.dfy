/**
 * The cell value parser `_parse_float` (accounts/utils.py): a cell is
 * numeric when, once trimmed, stripped of one trailing '%' and of every ',',
 * it is a decimal literal that Python's `float()` accepts.
 */
module ValueParser {
  import opened Results
  import opened Text

  predicate IsDigit(c: char) {
    '0' <= c <= '9'
  }

  predicate AllDigits(s: string) {
    forall i :: 0 <= i < |s| ==> IsDigit(s[i])
  }

  /** The whitespace `float()` trims from a text: space and \t \n \v \f \r.
      It is `str.strip()`'s ASCII whitespace without the separators. */
  predicate FloatSpace(c: char) {
    c == ' ' || (9 <= c as int <= 13)
  }

  /** The ASCII information separators \x1c-\x1f, which `str.strip()`
      removes but `float()` does not. */
  predicate IsSeparator(c: char) {
    28 <= c as int <= 31
  }

  predicate HasSeparator(s: string) {
    exists c :: c in s && IsSeparator(c)
  }

  /** The characters that can occur in a literal `float()` accepts here. */
  predicate LiteralChar(c: char) {
    FloatSpace(c) || IsDigit(c) || c == '+' || c == '-' || c == '.'
  }

  function Pow10(k: nat): (p: nat)
    ensures p >= 1
  {
    if k == 0 then 1 else 10 * Pow10(k - 1)
  }

  /** `n` divided by ten `k` times: the value of `k` fractional digits. */
  function Scaled(n: int, k: nat): (v: real)
  {
    if k == 0 then n as real else Scaled(n, k - 1) / 10.0
  }

  /** The value of a string of decimal digits, most significant first. */
  function DigitsValue(d: string): (v: int)
  {
    if d == [] then 0 else DigitsValue(d[..|d| - 1]) * 10 + (d[|d| - 1] as int - '0' as int)
  }

  /** The value of "whole.frac" for digit strings `whole` and `frac`. */
  function DecimalValue(whole: string, frac: string): (v: real)
  {
    DigitsValue(whole) as real + Scaled(DigitsValue(frac), |frac|)
  }

  /** Length of the run of digits that starts `s`. */
  function LeadingDigits(s: string): (k: nat)
    ensures k <= |s|
  {
    if s != [] && IsDigit(s[0]) then 1 + LeadingDigits(s[1..]) else 0
  }

  /** The leading run is all digits and is followed by a non-digit. */
  lemma {:induction false} LeadingDigitsRun(s: string)
    ensures AllDigits(s[..LeadingDigits(s)])
    ensures LeadingDigits(s) < |s| ==> !IsDigit(s[LeadingDigits(s)])
  {
    if s != [] && IsDigit(s[0]) {
      LeadingDigitsRun(s[1..]);
      var k := LeadingDigits(s);
      assert forall i :: 1 <= i < k ==> s[..k][i] == s[1..][..k - 1][i - 1];
    }
  }

  /** The leading run of digits is determined by its two properties. */
  lemma {:induction false} LeadingDigitsUnique(s: string, k: nat)
    requires k <= |s|
    requires AllDigits(s[..k])
    requires k < |s| ==> !IsDigit(s[k])
    ensures LeadingDigits(s) == k
  {
    if k > 0 {
      assert s[..k][0] == s[0];
      assert s[1..][..k - 1] == s[..k][1..];
      LeadingDigitsUnique(s[1..], k - 1);
    }
  }

  /** An unsigned decimal: digits, optionally a '.' and more digits, with at
      least one digit in all ("5", "5.", ".5", "5.25"). */
  function ParseUnsigned(u: string): (r: Option<real>)
  {
    var k := LeadingDigits(u);
    if k == |u| then
      if k > 0 then Some(DigitsValue(u) as real) else None
    else if u[k] == '.' && AllDigits(u[k + 1..]) && (k > 0 || k + 1 < |u|) then
      Some(DecimalValue(u[..k], u[k + 1..]))
    else None
  }

  /** A sign, then an unsigned decimal. */
  function ParseSigned(u: string): (r: Option<real>)
  {
    if u != [] && (u[0] == '-' || u[0] == '+') then
      match ParseUnsigned(u[1..])
      case Some(x) => Some(if u[0] == '-' then -x else x)
      case None => None
    else ParseUnsigned(u)
  }

  /** Python's `float()` on the decimal subset: an optional sign, then an
      unsigned decimal, with space, \t \n \v \f \r around it. Apart from
      the separators, that whitespace is what `Strip` removes. A separator
      is never accepted: at either end `float()` does not trim it, and
      inside it is not part of a literal. */
  function ParseFloatLiteral(t: string): (r: Option<real>)
  {
    if HasSeparator(t) then None else ParseSigned(Strip(t))
  }

  /** `float()` reads the literal between its own whitespace. */
  lemma FloatTrims(a: string, t: string, b: string)
    requires forall i :: 0 <= i < |a| ==> FloatSpace(a[i])
    requires forall i :: 0 <= i < |b| ==> FloatSpace(b[i])
    requires Trimmed(t) && !HasSeparator(t)
    ensures ParseFloatLiteral(a + t + b) == ParseSigned(t)
  {
    var w := a + t + b;
    forall c | c in w
      ensures !IsSeparator(c)
    {
      var j :| 0 <= j < |w| && w[j] == c;
      if j < |a| {
        assert w[j] == a[j];
      } else if j < |a| + |t| {
        assert w[j] == t[j - |a|] && t[j - |a|] in t;
      } else {
        assert w[j] == b[j - |a| - |t|];
      }
    }
    StripOfPadded(a, t, b);
  }

  lemma UnsignedChars(u: string)
    requires ParseUnsigned(u).Some?
    ensures u != [] && forall i :: 0 <= i < |u| ==> IsDigit(u[i]) || u[i] == '.'
  {
    var k := LeadingDigits(u);
    LeadingDigitsRun(u);
    assert forall i :: 0 <= i < k ==> u[i] == u[..k][i];
    if k < |u| {
      assert forall i :: k + 1 <= i < |u| ==> u[i] == u[k + 1..][i - (k + 1)];
    }
  }

  /** Every character of a text `float()` accepts here is whitespace, a
      digit, a sign or the decimal point; anything else (a '%', a letter)
      makes it fail. */
  lemma SignedChars(u: string)
    requires ParseSigned(u).Some?
    ensures forall i :: 0 <= i < |u| ==> LiteralChar(u[i])
  {
    if u != [] && (u[0] == '-' || u[0] == '+') {
      UnsignedChars(u[1..]);
      assert forall i :: 1 <= i < |u| ==> u[i] == u[1..][i - 1];
    } else {
      UnsignedChars(u);
    }
  }

  /** Stripping only removes whitespace, which is a literal character. */
  lemma LiteralCharsOfStripped(t: string)
    requires !HasSeparator(t)
    requires forall i :: 0 <= i < |Strip(t)| ==> LiteralChar(Strip(t)[i])
    ensures forall i :: 0 <= i < |t| ==> LiteralChar(t[i])
  {
    StripSlice(t);
    LeadingRunAllSpace(t);
    TrailingRestAllSpace(t);
    var i, u := LeadingSpaces(t), Strip(t);
    var a, c := t[..i], t[i + |u|..];
    forall j | 0 <= j < |t|
      ensures LiteralChar(t[j])
    {
      assert t[j] in t;
      if j < i {
        assert t[j] == a[j];
      } else if j < i + |u| {
        assert t[j] == u[j - i];
      } else {
        assert t[j] == c[j - i - |u|];
      }
    }
  }

  lemma LiteralChars(t: string)
    ensures ParseFloatLiteral(t).Some? ==> forall i :: 0 <= i < |t| ==> LiteralChar(t[i])
  {
    if ParseFloatLiteral(t).Some? {
      SignedChars(Strip(t));
      LiteralCharsOfStripped(t);
    }
  }

  /** Python's `text.replace(",", "")`. */
  function RemoveCommas(s: string): (r: string)
    ensures |r| <= |s|
  {
    if s == [] then [] else (if s[0] == ',' then [] else [s[0]]) + RemoveCommas(s[1..])
  }

  /** No comma is left. */
  lemma {:induction false} RemoveCommasRemovesAll(s: string)
    ensures ',' !in RemoveCommas(s)
  {
    if s != [] {
      RemoveCommasRemovesAll(s[1..]);
    }
  }

  /** Removing commas keeps every other character. */
  lemma {:induction false} RemoveCommasKeeps(s: string, c: char)
    requires c != ','
    ensures c in RemoveCommas(s) <==> c in s
  {
    if s != [] {
      RemoveCommasKeeps(s[1..], c);
      assert s == [s[0]] + s[1..];
    }
  }

  /** The `if text.endswith("%"): text = text[:-1]` step: one trailing '%'. */
  function DropTrailingPercent(s: string): (r: string)
    ensures s != [] && s[|s| - 1] == '%' ==> s == r + "%"
    ensures (s == [] || s[|s| - 1] != '%') ==> r == s
  {
    if s != [] && s[|s| - 1] == '%' then s[..|s| - 1] else s
  }

  /** `_parse_float(value)`. A `None` cell and a blank cell are not numeric;
      no input makes it fail. */
  function ParseValue(value: Option<string>): (r: Option<real>)
    ensures value == None ==> r == None
    ensures value.Some? && IsBlank(value.value) ==> r == None
  {
    match value
    case None => None
    case Some(s) =>
      var text := Strip(s);
      if text == [] then None
      else
        ParseFloatLiteral(RemoveCommas(DropTrailingPercent(text)))
  }

  /** A '%' that reaches `float()` makes the text non-numeric. */
  lemma PercentIsNotLiteral(t: string)
    requires '%' in t
    ensures ParseFloatLiteral(RemoveCommas(t)) == None
  {
    RemoveCommasKeeps(t, '%');
    var u := RemoveCommas(t);
    var j :| 0 <= j < |u| && u[j] == '%';
    assert !LiteralChar(u[j]);
    LiteralChars(u);
  }

  /** Stripping keeps two trailing percent signs. */
  lemma StripOfDoublePercent(s: string)
    ensures |Strip(s + "%%")| >= 2
    ensures Strip(s + "%%")[|Strip(s + "%%")| - 1] == '%' && Strip(s + "%%")[|Strip(s + "%%")| - 2] == '%'
  {
    var w := s + "%%";
    StripNonSpaceEnd(w);
    LeadingSpacesRun(w);
    assert w[|w| - 2] == '%' && !IsSpace(w[|w| - 2]);
  }

  /** Whatever precedes them, two trailing percent signs make a cell
      non-numeric: only one is removed and the other reaches `float()`. */
  lemma DoublePercentIsNotNumeric(s: string)
    ensures ParseValue(Some(s + "%%")) == None
  {
    var text := Strip(s + "%%");
    StripOfDoublePercent(s);
    var dropped := DropTrailingPercent(text);
    assert dropped[|dropped| - 1] == '%';
    PercentIsNotLiteral(dropped);
  }

  /** Stripping a text that ends in a non-space removes only its leading
      whitespace. */
  lemma StripBeforePercent(s: string)
    requires !AllSpace(s)
    ensures Strip(s + "%") == s[LeadingSpaces(s)..] + "%"
  {
    var w := s + "%";
    StripNonSpaceEnd(w);
    LeadingSpacesAppend(s, "%");
    assert w[LeadingSpaces(s)..] == s[LeadingSpaces(s)..] + "%";
  }

  /** After its leading whitespace, a text is its stripped form followed by
      whitespace only. */
  lemma StrippedThenSpace(s: string)
    ensures var i := LeadingSpaces(s);
      i + |Strip(s)| <= |s| && AllSpace(s[i + |Strip(s)|..]) &&
      s[i..] == Strip(s) + s[i + |Strip(s)|..]
  {
    StripSplit(s);
    var i := LeadingSpaces(s);
    assert s[i..] == (s[..i] + Strip(s) + s[i + |Strip(s)|..])[i..];
  }

  /** A text without '%' does not end in '%' once stripped. */
  lemma StripKeepsNoPercent(s: string)
    requires '%' !in s && !AllSpace(s)
    ensures Strip(s) != [] && DropTrailingPercent(Strip(s)) == Strip(s)
  {
    BlankIffAllSpace(s);
    StripDecomposition(s);
    var i := LeadingSpaces(s);
    var t := Strip(s);
    assert t[|t| - 1] == s[i + |t| - 1];
  }

  lemma RemoveCommasOfPadded(t: string, b: string)
    requires AllSpace(b)
    ensures RemoveCommas(t + b) == RemoveCommas(t) + b
  {
    RemoveCommasAppend(t, b);
    RemoveCommasOfSpace(b);
  }

  /** With one trailing '%', the cell is read after its leading whitespace
      and that sign are removed. */
  lemma ParseValueBeforePercent(s: string)
    requires !AllSpace(s)
    ensures ParseValue(Some(s + "%")) == ParseFloatLiteral(RemoveCommas(s[LeadingSpaces(s)..]))
  {
    var i := LeadingSpaces(s);
    StripBeforePercent(s);
    assert DropTrailingPercent(s[i..] + "%") == s[i..];
  }

  /** Trailing whitespace survives comma removal and is then stripped. */
  lemma StripRemoveCommasAppendSpace(t: string, b: string)
    requires AllSpace(b)
    ensures Strip(RemoveCommas(t + b)) == Strip(RemoveCommas(t))
  {
    RemoveCommasOfPadded(t, b);
    StripAppendSpace(RemoveCommas(t), b);
  }

  /** Whitespace left before the '%' does not reach the value: `float()`
      strips the same text either way. */
  lemma StripOfCommaFreeTail(s: string)
    ensures Strip(RemoveCommas(s[LeadingSpaces(s)..])) == Strip(RemoveCommas(Strip(s)))
  {
    var i := LeadingSpaces(s);
    var t := Strip(s);
    StrippedThenSpace(s);
    StripRemoveCommasAppendSpace(t, s[i + |t|..]);
  }

  /** Removing commas keeps every separator and adds none. */
  lemma RemoveCommasSeparators(x: string)
    ensures HasSeparator(RemoveCommas(x)) <==> HasSeparator(x)
  {
    if HasSeparator(x) {
      var c :| c in x && IsSeparator(c);
      RemoveCommasKeeps(x, c);
    }
    if HasSeparator(RemoveCommas(x)) {
      var c :| c in RemoveCommas(x) && IsSeparator(c);
      RemoveCommasKeeps(x, c);
    }
  }

  /** What Strip keeps after the leading whitespace holds no separator when
      the text after that whitespace holds none. */
  lemma StripWithoutSeparator(s: string)
    requires !HasSeparator(s[LeadingSpaces(s)..])
    ensures !HasSeparator(Strip(s))
  {
    StripSlice(s);
    var i := LeadingSpaces(s);
    forall c | c in Strip(s)
      ensures !IsSeparator(c)
    {
      var j :| 0 <= j < |Strip(s)| && Strip(s)[j] == c;
      assert s[i..][j] == c;
    }
  }

  /** A trailing percent sign does not change the value of a cell that has
      no other percent sign: "12.5%" and "12.5" are the same number. The
      one exception is a separator after the leading whitespace: `strip()`
      no longer removes it once the '%' follows it, so it reaches `float()`,
      which rejects it. */
  lemma PercentSuffixIgnored(s: string)
    requires '%' !in s
    ensures ParseValue(Some(s + "%")) ==
      if HasSeparator(s[LeadingSpaces(s)..]) then None else ParseValue(Some(s))
  {
    BlankIffAllSpace(s);
    if AllSpace(s) {
      var w := s + "%";
      LeadingSpacesUnique(w, |s|);
      LeadingSpacesUnique(s, |s|);
      StripNonSpaceEnd(w);
      assert Strip(w) == "%";
      assert DropTrailingPercent("%") == [];
      assert Strip([]) == [];
      assert s[|s|..] == [];
    } else {
      var i := LeadingSpaces(s);
      ParseValueBeforePercent(s);
      RemoveCommasSeparators(s[i..]);
      if !HasSeparator(s[i..]) {
        StripOfCommaFreeTail(s);
        StripKeepsNoPercent(s);
        StripWithoutSeparator(s);
        RemoveCommasSeparators(Strip(s));
      }
    }
  }

  /** The cell "5\x1f" is 5, but "5\x1f%" is not a number: once the '%' is
      removed, the separator ends the text that reaches `float()`. */
  lemma SeparatorBeforePercent(s: string)
    requires s == "5\U{1F}"
    ensures ParseValue(Some(s)) == Some(5.0)
    ensures ParseValue(Some(s + "%")) == None
  {
    TrailingSeparatorStripped(s);
    assert HasSeparator(s[LeadingSpaces(s)..]) by {
      assert LeadingSpaces(s) == 0;
      assert s[1] in s;
    }
    PercentSuffixIgnored(s);
  }

  /** At the end of a cell, `strip()` removes the separator. */
  lemma TrailingSeparatorStripped(s: string)
    requires s == "5\U{1F}"
    ensures ParseValue(Some(s)) == Some(5.0)
  {
    assert Strip(s) == "5" by {
      StripOfPadded([], "5", [s[1]]);
      assert [] + "5" + [s[1]] == s;
    }
    assert ParseValue(Some(s)) == ParseFloatLiteral(RemoveCommas("5"));
    RemoveCommasOfDigits("5");
    ParseDigits("5");
    assert DigitsValue("5") == 5 by {
      assert "5"[..0] == [];
    }
  }

  lemma {:induction false} RemoveCommasAppend(a: string, b: string)
    ensures RemoveCommas(a + b) == RemoveCommas(a) + RemoveCommas(b)
  {
    if a == [] {
      assert a + b == b;
    } else {
      assert (a + b)[1..] == a[1..] + b;
      RemoveCommasAppend(a[1..], b);
    }
  }

  lemma {:induction false} RemoveCommasOfSpace(b: string)
    requires AllSpace(b)
    ensures RemoveCommas(b) == b
  {
    if b != [] {
      RemoveCommasOfSpace(b[1..]);
      assert b == [b[0]] + b[1..];
    }
  }

  function DigitChar(d: nat): (c: char)
    requires d < 10
    ensures IsDigit(c) && c as int - '0' as int == d
  {
    (48 + d) as char
  }

  lemma {:induction false} DigitsValueAppend(a: string, b: string)
    requires AllDigits(a) && AllDigits(b)
    ensures AllDigits(a + b)
    ensures DigitsValue(a + b) == DigitsValue(a) * Pow10(|b|) + DigitsValue(b)
  {
    if b == [] {
      assert a + b == a;
    } else {
      var b' := b[..|b| - 1];
      assert (a + b)[..|a + b| - 1] == a + b';
      DigitsValueAppend(a, b');
    }
  }

  function DigitValue(c: char): (d: int) {
    c as int - '0' as int
  }

  lemma DigitsValueOfThree(s: string)
    requires |s| == 3 && AllDigits(s)
    ensures DigitsValue(s) == DigitValue(s[0]) * 100 + DigitValue(s[1]) * 10 + DigitValue(s[2])
  {
    var p := s[..2];
    assert p[..1] == s[..1];
    assert DigitsValue(s[..1]) == DigitValue(s[0]) by {
      assert s[..1][..0] == [];
    }
    assert DigitsValue(p) == DigitValue(s[0]) * 10 + DigitValue(s[1]);
  }

  lemma DigitsValueOfTwo(s: string)
    requires |s| == 2 && AllDigits(s)
    ensures DigitsValue(s) == DigitValue(s[0]) * 10 + DigitValue(s[1])
  {
    assert DigitsValue(s[..1]) == DigitValue(s[0]) by {
      assert s[..1][..0] == [];
    }
  }

  /** The decimal digits of a number below 1000. */
  lemma DecimalDigitsOf(n: nat)
    requires n < 1000
    ensures n == (n / 100) * 100 + (n / 10 % 10) * 10 + n % 10
    ensures n < 100 ==> n == (n / 10) * 10 + n % 10
  {
  }

  /** The digits of `n < 1000`, without leading zeros. */
  function SmallDigits(n: nat): (s: string)
    requires n < 1000
    ensures 1 <= |s| <= 3 && AllDigits(s) && DigitsValue(s) == n
  {
    DecimalDigitsOf(n);
    if n < 10 then
      var s := [DigitChar(n)];
      assert s[..0] == [];
      s
    else if n < 100 then
      var s := [DigitChar(n / 10), DigitChar(n % 10)];
      DigitsValueOfTwo(s);
      s
    else
      var s := [DigitChar(n / 100), DigitChar(n / 10 % 10), DigitChar(n % 10)];
      DigitsValueOfThree(s);
      s
  }

  /** Three digits, leading zeros kept: one group after a comma. */
  function GroupDigits(m: nat): (s: string)
    requires m < 1000
    ensures |s| == 3 && AllDigits(s) && DigitsValue(s) == m
  {
    var s := [DigitChar(m / 100), DigitChar(m / 10 % 10), DigitChar(m % 10)];
    DigitsValueOfThree(s);
    s
  }

  /** Decimal digits of `n` with a comma between every group of three, as a
      spreadsheet shows "1,234,567". */
  function Thousands(n: nat): (s: string)
    ensures s != [] && IsDigit(s[0]) && IsDigit(s[|s| - 1])
    ensures forall i :: 0 <= i < |s| ==> IsDigit(s[i]) || s[i] == ','
  {
    if n < 1000 then SmallDigits(n)
    else Thousands(n / 1000) + "," + GroupDigits(n % 1000)
  }

  lemma {:induction false} ThousandsValue(n: nat)
    ensures AllDigits(RemoveCommas(Thousands(n))) && DigitsValue(RemoveCommas(Thousands(n))) == n
  {
    if n < 1000 {
      RemoveCommasOfDigits(SmallDigits(n));
    } else {
      var g, t := Thousands(n / 1000), GroupDigits(n % 1000);
      ThousandsValue(n / 1000);
      RemoveCommasAppend(g + ",", t);
      RemoveCommasAppend(g, ",");
      RemoveCommasOfDigits(t);
      assert RemoveCommas(",") == [];
      assert RemoveCommas(g) + [] == RemoveCommas(g);
      DigitsValueAppend(RemoveCommas(g), t);
      assert Pow10(3) == 1000;
    }
  }

  lemma {:induction false} RemoveCommasOfDigits(d: string)
    requires AllDigits(d)
    ensures RemoveCommas(d) == d
  {
    if d != [] {
      RemoveCommasOfDigits(d[1..]);
      assert d == [d[0]] + d[1..];
    }
  }

  /** How a spreadsheet displays an integer: an optional minus sign, then the
      grouped digits. */
  function Render(n: int): (s: string)
    ensures s != [] && !IsSpace(s[0]) && IsDigit(s[|s| - 1])
    ensures forall i :: 0 <= i < |s| ==> IsDigit(s[i]) || s[i] == ',' || s[i] == '-'
  {
    if n < 0 then "-" + Thousands(-n) else Thousands(n)
  }

  lemma AllDigitsLeading(d: string)
    requires AllDigits(d)
    ensures LeadingDigits(d) == |d|
  {
    LeadingDigitsUnique(d, |d|);
  }

  lemma ParseUnsignedDigits(d: string)
    requires d != [] && AllDigits(d)
    ensures ParseUnsigned(d) == Some(DigitsValue(d) as real)
  {
    AllDigitsLeading(d);
  }

  lemma StripOfTrimmed(t: string)
    requires Trimmed(t)
    ensures Strip(t) == t
  {
    StripOfPadded([], t, []);
    assert [] + t + [] == t;
  }

  /** `float()` reads a digit string as its value. */
  lemma ParseDigits(d: string)
    requires d != [] && AllDigits(d)
    ensures ParseFloatLiteral(d) == Some(DigitsValue(d) as real)
  {
    ParseUnsignedDigits(d);
    StripOfTrimmed(d);
    assert ParseSigned(d) == ParseUnsigned(d);
  }

  /** `float()` reads a minus sign and a digit string as minus its value. */
  lemma ParseNegatedDigits(d: string)
    requires d != [] && AllDigits(d)
    ensures ParseFloatLiteral("-" + d) == Some(-(DigitsValue(d) as real))
  {
    ParseUnsignedDigits(d);
    var m := "-" + d;
    StripOfTrimmed(m);
    assert m[1..] == d;
    assert ParseSigned(m) == Some(-(DigitsValue(d) as real));
  }

  /** On a trimmed text with no trailing '%', `_parse_float` is `float()`
      of the text without commas. */
  lemma ParseValueOfTrimmed(s: string)
    requires Trimmed(s) && s != [] && s[|s| - 1] != '%'
    ensures ParseValue(Some(s)) == ParseFloatLiteral(RemoveCommas(s))
  {
    StripOfTrimmed(s);
  }

  lemma RenderTrimmed(n: int)
    ensures Trimmed(Render(n))
  {
  }

  lemma ThousandsNotEmptyWithoutCommas(m: nat)
    ensures RemoveCommas(Thousands(m)) != []
  {
    RemoveCommasKeeps(Thousands(m), Thousands(m)[0]);
    assert Thousands(m)[0] in Thousands(m);
  }

  lemma RenderWithoutCommas(n: int)
    ensures RemoveCommas(Render(n)) == if n < 0 then "-" + RemoveCommas(Thousands(-n)) else RemoveCommas(Thousands(n))
  {
    if n < 0 {
      RemoveCommasAppend("-", Thousands(-n));
      assert RemoveCommas("-") == "-";
    }
  }

  /** Without its commas a rendered integer is a sign and plain digits. */
  lemma RenderDigits(n: int)
    ensures var d := RemoveCommas(Thousands(if n < 0 then -n else n));
      d != [] && AllDigits(d) && DigitsValue(d) == (if n < 0 then -n else n) &&
      RemoveCommas(Render(n)) == (if n < 0 then "-" + d else d)
  {
    var m := if n < 0 then -n else n;
    ThousandsValue(m);
    ThousandsNotEmptyWithoutCommas(m);
    RenderWithoutCommas(n);
  }

  lemma RenderParses(n: int)
    ensures ParseValue(Some(Render(n))) == Some(n as real)
  {
    var r := Render(n);
    var m := if n < 0 then -n else n;
    var d := RemoveCommas(Thousands(m));
    RenderDigits(n);
    calc {
      ParseValue(Some(r));
    == { RenderTrimmed(n); ParseValueOfTrimmed(r); }
      ParseFloatLiteral(RemoveCommas(r));
    == { if n < 0 { ParseNegatedDigits(d); } else { ParseDigits(d); } }
      Some(n as real);
    }
  }

  /** Parsing undoes rendering, with or without a trailing percent sign:
      "1,234" and "-1,234%" are read back as 1234 and -1234. */
  lemma RenderRoundTrip(n: int)
    ensures ParseValue(Some(Render(n))) == Some(n as real)
    ensures ParseValue(Some(Render(n) + "%")) == Some(n as real)
  {
    RenderParses(n);
    var r := Render(n);
    assert '%' !in r;
    assert LeadingSpaces(r) == 0 && r[0..] == r;
    assert !HasSeparator(r);
    PercentSuffixIgnored(r);
  }

  lemma {:induction false} RemoveCommasWithoutCommas(s: string)
    requires ',' !in s
    ensures RemoveCommas(s) == s
  {
    if s != [] {
      RemoveCommasWithoutCommas(s[1..]);
      assert s == [s[0]] + s[1..];
    }
  }

  /** The branch of ParseUnsigned that reads a decimal point. */
  lemma ParseUnsignedPoint(u: string, k: nat)
    requires k < |u| && LeadingDigits(u) == k && u[k] == '.'
    requires AllDigits(u[k + 1..]) && (k > 0 || k + 1 < |u|)
    ensures ParseUnsigned(u) == Some(DecimalValue(u[..k], u[k + 1..]))
  {
  }

  /** Without surrounding whitespace or a sign, `float()` reads the unsigned
      decimal. */
  lemma ParseFloatOfUnsigned(u: string)
    requires u != [] && Trimmed(u) && IsDigit(u[0]) && !HasSeparator(u)
    ensures ParseFloatLiteral(u) == ParseUnsigned(u)
  {
    StripOfTrimmed(u);
  }

  /** In "whole.frac" the leading digits are exactly the whole part. */
  lemma PointSplit(a: string, b: string)
    requires AllDigits(a)
    ensures (a + "." + b)[..|a|] == a && (a + "." + b)[|a| + 1..] == b
    ensures (a + "." + b)[|a|] == '.' && LeadingDigits(a + "." + b) == |a|
  {
    var u := a + "." + b;
    assert u[..|a|] == a && u[|a| + 1..] == b;
    LeadingDigitsUnique(u, |a|);
  }

  lemma ParseUnsignedFraction(a: string, b: string)
    requires a != [] && AllDigits(a) && AllDigits(b)
    ensures ParseUnsigned(a + "." + b) == Some(DecimalValue(a, b))
  {
    PointSplit(a, b);
    ParseUnsignedPoint(a + "." + b, |a|);
  }

  /** `float()` reads "digits.digits" as the whole part plus the fraction. */
  lemma ParseFraction(a: string, b: string)
    requires a != [] && AllDigits(a) && AllDigits(b)
    ensures ParseFloatLiteral(a + "." + b) == Some(DecimalValue(a, b))
  {
    ParseUnsignedFraction(a, b);
    assert !HasSeparator(a + "." + b) by {
      forall c | c in a + "." + b
        ensures !IsSeparator(c)
      {
        if c in a {
          var j :| 0 <= j < |a| && a[j] == c;
        } else if c in b {
          var j :| 0 <= j < |b| && b[j] == c;
        }
      }
    }
    ParseFloatOfUnsigned(a + "." + b);
  }

  /** The cell "-3" is -3. */
  lemma ParseValueMinusExample(cell: string)
    requires cell == "-3"
    ensures ParseValue(Some(cell)) == Some(-3.0)
  {
    RenderParses(-3);
    assert SmallDigits(3) == "3";
    assert Render(-3) == cell;
  }

  /** The cell "abc" is not a number. */
  lemma ParseValueWordExample(cell: string)
    requires cell == "abc"
    ensures ParseValue(Some(cell)) == None
  {
    ParseValueOfTrimmed(cell);
    RemoveCommasWithoutCommas(cell);
    assert !LiteralChar(cell[0]);
    LiteralChars(cell);
  }

  /** A doubled percent sign and blank cells are not numeric. */
  lemma ParseValueBlankExamples(doubled: string, empty: string, spaces: string)
    requires doubled == "5%%" && empty == "" && spaces == "  "
    ensures ParseValue(Some(doubled)) == None
    ensures ParseValue(Some(empty)) == None && ParseValue(Some(spaces)) == None
  {
    assert doubled == "5" + "%%";
    assert AllSpace(empty) && AllSpace(spaces);
    DoublePercentIsNotNumeric("5");
    BlankIffAllSpace(spaces);
    BlankIffAllSpace(empty);
  }
}
