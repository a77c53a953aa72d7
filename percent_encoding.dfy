/**
 * `urllib.parse.quote(text, safe="")` as the URL builders use it: the text
 * is encoded as UTF-8 and every byte outside the unreserved set of section
 * 2.3 of RFC 3986 (ALPHA, DIGIT, '-', '.', '_', '~') is written as '%'
 * followed by two upper-case hexadecimal digits (section 2.1 of RFC 3986).
 */
module PercentEncoding {
  import opened Results

  type Byte = x: int | 0 <= x < 256

  /** The unreserved characters of section 2.3 of RFC 3986. */
  predicate Unreserved(c: char) {
    ('A' <= c <= 'Z') || ('a' <= c <= 'z') || ('0' <= c <= '9') || c == '-' || c == '.' || c == '_' || c == '~'
  }

  predicate UpperHexDigit(c: char) {
    ('0' <= c <= '9') || ('A' <= c <= 'F')
  }

  /** The upper-case hexadecimal digit for `d`. */
  function HexDigit(d: nat): (c: char)
    requires d < 16
    ensures UpperHexDigit(c)
  {
    if d < 10 then (48 + d) as char else (55 + d) as char
  }

  /** The value of a hexadecimal digit of either case. */
  function HexValue(c: char): (r: Option<nat>)
    ensures r.Some? ==> r.value < 16
  {
    if '0' <= c <= '9' then Some(c as int - 48)
    else if 'A' <= c <= 'F' then Some(c as int - 55)
    else if 'a' <= c <= 'f' then Some(c as int - 87)
    else None
  }

  /** Reading back a digit written by HexDigit. */
  lemma HexValueOfDigit(d: nat)
    requires d < 16
    ensures HexValue(HexDigit(d)) == Some(d)
  {
  }

  /** The UTF-8 encoding of one Unicode scalar value (section 3 of RFC 3629). */
  function Utf8Char(c: char): (r: seq<Byte>)
    ensures 1 <= |r| <= 4
    ensures (c as int < 0x80) <==> |r| == 1
    ensures |r| == 1 ==> r[0] == c as int
    ensures forall i :: 1 <= i < |r| ==> 0x80 <= r[i] < 0xC0
  {
    var n := c as int;
    var n1 := n / 64;
    var n2 := n1 / 64;
    if n < 0x80 then [n]
    else if n < 0x800 then [0xC0 + n1, 0x80 + n % 64]
    else if n < 0x10000 then [0xE0 + n2, 0x80 + n1 % 64, 0x80 + n % 64]
    else [0xF0 + n2 / 64, 0x80 + n2 % 64, 0x80 + n1 % 64, 0x80 + n % 64]
  }

  /** `text.encode("utf-8")`. */
  function Utf8(s: string): (r: seq<Byte>)
    ensures |r| >= |s|
  {
    if s == [] then [] else Utf8Char(s[0]) + Utf8(s[1..])
  }

  /** An ASCII text encodes to its own code points. */
  lemma {:induction false} Utf8OfAscii(s: string)
    requires forall i :: 0 <= i < |s| ==> s[i] as int < 0x80
    ensures |Utf8(s)| == |s|
    ensures forall i :: 0 <= i < |s| ==> Utf8(s)[i] == s[i] as int
  {
    if s != [] {
      Utf8OfAscii(s[1..]);
    }
  }

  /** How one byte is written: itself when it is an unreserved ASCII
      character, otherwise as "%XY". */
  function QuoteByte(b: Byte): (r: string)
    ensures (b < 0x80 && Unreserved(b as char)) ==> r == [b as char]
    ensures !(b < 0x80 && Unreserved(b as char)) ==> |r| == 3 && r[0] == '%'
  {
    if b < 0x80 && Unreserved(b as char) then [b as char]
    else ['%', HexDigit(b / 16), HexDigit(b % 16)]
  }

  function QuoteBytes(bs: seq<Byte>): (t: string)
  {
    if bs == [] then [] else QuoteByte(bs[0]) + QuoteBytes(bs[1..])
  }

  /** `quote(text, safe="")`. */
  function Quote(s: string): (t: string)
  {
    QuoteBytes(Utf8(s))
  }

  /** The strict inverse of QuoteBytes: unreserved characters stand for
      themselves and '%' must be followed by two hexadecimal digits of
      either case; anything else is rejected. */
  function PercentDecode(t: string): (r: Option<seq<Byte>>)
  {
    if t == [] then Some([])
    else if t[0] == '%' then
      if |t| < 3 then None
      else match (HexValue(t[1]), HexValue(t[2]))
        case (Some(hi), Some(lo)) =>
          (match PercentDecode(t[3..])
           case Some(rest) => Some([hi * 16 + lo] + rest)
           case None => None)
        case _ => None
    else if Unreserved(t[0]) then
      match PercentDecode(t[1..])
      case Some(rest) => Some([t[0] as int] + rest)
      case None => None
    else None
  }

  lemma DecodeQuotedByte(b: Byte, rest: string)
    ensures PercentDecode(QuoteByte(b) + rest) ==
      match PercentDecode(rest)
      case Some(r) => Some([b] + r)
      case None => None
  {
    var q := QuoteByte(b) + rest;
    if b < 0x80 && Unreserved(b as char) {
      assert q[0] == b as char && q[1..] == rest;
    } else {
      assert q[0] == '%' && q[1] == HexDigit(b / 16) && q[2] == HexDigit(b % 16) && q[3..] == rest;
      HexValueOfDigit(b / 16);
      HexValueOfDigit(b % 16);
      assert !Unreserved('%');
    }
  }

  /** Decoding undoes encoding, byte for byte. */
  lemma {:induction false} DecodeQuoteBytes(bs: seq<Byte>)
    ensures PercentDecode(QuoteBytes(bs)) == Some(bs)
  {
    if bs != [] {
      DecodeQuoteBytes(bs[1..]);
      DecodeQuotedByte(bs[0], QuoteBytes(bs[1..]));
      assert [bs[0]] + bs[1..] == bs;
    }
  }

  /** Percent-decoding the quoted text gives back the UTF-8 bytes of the
      original text exactly. */
  lemma QuoteRoundTrip(s: string)
    ensures PercentDecode(Quote(s)) == Some(Utf8(s))
  {
    DecodeQuoteBytes(Utf8(s));
  }

  /** The characters a quoted text may contain. */
  predicate QuotedChar(c: char) {
    Unreserved(c) || c == '%'
  }

  lemma {:induction false} QuoteBytesChars(bs: seq<Byte>)
    ensures forall i :: 0 <= i < |QuoteBytes(bs)| ==> QuotedChar(QuoteBytes(bs)[i])
  {
    if bs != [] {
      QuoteBytesChars(bs[1..]);
      var q := QuoteByte(bs[0]);
      assert forall i :: 0 <= i < |q| ==> QuotedChar(q[i]);
      assert forall i :: |q| <= i < |QuoteBytes(bs)| ==> QuoteBytes(bs)[i] == QuoteBytes(bs[1..])[i - |q|];
    }
  }

  /** A quoted text holds only unreserved characters and '%': no '/', '?',
      '&', '=' or '#' of the text can reach the URL. */
  lemma QuoteChars(s: string)
    ensures forall i :: 0 <= i < |Quote(s)| ==> QuotedChar(Quote(s)[i])
  {
    QuoteBytesChars(Utf8(s));
  }

  /** A text of unreserved characters is left unchanged. */
  lemma {:induction false} QuoteUnreserved(s: string)
    requires forall i :: 0 <= i < |s| ==> Unreserved(s[i])
    ensures Quote(s) == s
  {
    if s != [] {
      QuoteUnreserved(s[1..]);
      assert Utf8(s) == [s[0] as int] + Utf8(s[1..]);
      assert Utf8(s)[1..] == Utf8(s[1..]);
      assert [s[0]] + s[1..] == s;
    }
  }

  /** The number of bytes of a UTF-8 sequence, read from its first byte. */
  function SequenceLength(lead: Byte): (n: nat)
  {
    if lead < 0x80 then 1 else if lead < 0xE0 then 2 else if lead < 0xF0 then 3 else 4
  }

  lemma Utf8CharLead(c: char)
    ensures SequenceLength(Utf8Char(c)[0]) == |Utf8Char(c)|
  {
  }

  /** A number is determined by its quotient and remainder by 64. */
  lemma Radix64Digits(n: nat, m: nat)
    requires n / 64 == m / 64 && n % 64 == m % 64
    ensures n == m
  {
  }

  /** Two characters with the same encoding are the same character. */
  lemma Utf8CharInjective(c: char, d: char)
    requires Utf8Char(c) == Utf8Char(d)
    ensures c == d
  {
    var n, m := c as int, d as int;
    var r := Utf8Char(c);
    if |r| == 2 {
      Radix64Digits(n, m);
    } else if |r| == 3 {
      Radix64Digits(n / 64, m / 64);
      Radix64Digits(n, m);
    } else if |r| == 4 {
      Radix64Digits(n / 64 / 64, m / 64 / 64);
      Radix64Digits(n / 64, m / 64);
      Radix64Digits(n, m);
    }
  }

  /** UTF-8 is a prefix-free code: distinct texts have distinct encodings. */
  lemma {:induction false} Utf8Injective(s: string, t: string)
    requires Utf8(s) == Utf8(t)
    ensures s == t
  {
    if s != [] && t != [] {
      var a, b := Utf8Char(s[0]), Utf8Char(t[0]);
      Utf8CharLead(s[0]);
      Utf8CharLead(t[0]);
      assert a[0] == Utf8(s)[0] && b[0] == Utf8(t)[0];
      assert |a| == |b|;
      assert a == Utf8(s)[..|a|] && b == Utf8(t)[..|b|];
      Utf8CharInjective(s[0], t[0]);
      assert Utf8(s[1..]) == Utf8(s)[|a|..] && Utf8(t[1..]) == Utf8(t)[|b|..];
      Utf8Injective(s[1..], t[1..]);
      assert s == [s[0]] + s[1..] && t == [t[0]] + t[1..];
    }
  }

  /** Distinct texts are quoted differently: two sheet names never share a
      URL. */
  lemma QuoteInjective(s: string, t: string)
    requires Quote(s) == Quote(t)
    ensures s == t
  {
    QuoteRoundTrip(s);
    QuoteRoundTrip(t);
    Utf8Injective(s, t);
  }

  /** A space becomes "%20" and a '/' becomes "%2F". */
  lemma QuoteExamples()
    ensures Quote(" ") == "%20"
    ensures Quote("/") == "%2F"
  {
    assert Utf8(" ") == [32];
    assert Utf8("/") == [47];
  }
}
