/**
 * The string primitives the data-wrangling module relies on: Python's
 * `str.strip()`, `str.lower()` and code-point ordering of strings,
 * restricted to ASCII.
 */
module Text {

  /** Python's `str.isspace()` on ASCII: space, \t \n \v \f \r and the
      separators \x1c-\x1f. */
  predicate IsSpace(c: char) {
    c == ' ' || (9 <= c as int <= 13) || (28 <= c as int <= 31)
  }

  predicate AllSpace(s: string) {
    forall i :: 0 <= i < |s| ==> IsSpace(s[i])
  }

  /** A string with no whitespace at either end. */
  predicate Trimmed(s: string) {
    s == [] || (!IsSpace(s[0]) && !IsSpace(s[|s| - 1]))
  }

  /** The number of whitespace characters that start `s`. */
  function LeadingSpaces(s: string): (k: nat)
    ensures k <= |s|
  {
    if s != [] && IsSpace(s[0]) then 1 + LeadingSpaces(s[1..]) else 0
  }

  /** The leading run is all whitespace and is followed by a non-space. */
  lemma {:induction false} LeadingSpacesRun(s: string)
    ensures forall i :: 0 <= i < LeadingSpaces(s) ==> IsSpace(s[i])
    ensures LeadingSpaces(s) < |s| ==> !IsSpace(s[LeadingSpaces(s)])
  {
    if s != [] && IsSpace(s[0]) {
      LeadingSpacesRun(s[1..]);
      assert forall i :: 1 <= i < |s| ==> s[i] == s[1..][i - 1];
    }
  }

  /** The number of whitespace characters that end `s`. */
  function TrailingSpaces(s: string): (k: nat)
    ensures k <= |s|
  {
    if s != [] && IsSpace(s[|s| - 1]) then 1 + TrailingSpaces(s[..|s| - 1]) else 0
  }

  /** The trailing run is all whitespace and is preceded by a non-space. */
  lemma {:induction false} TrailingSpacesRun(s: string)
    ensures forall i :: |s| - TrailingSpaces(s) <= i < |s| ==> IsSpace(s[i])
    ensures TrailingSpaces(s) < |s| ==> !IsSpace(s[|s| - TrailingSpaces(s) - 1])
  {
    if s != [] && IsSpace(s[|s| - 1]) {
      TrailingSpacesRun(s[..|s| - 1]);
    }
  }

  /** The leading run of whitespace is determined by its two properties. */
  lemma {:induction false} LeadingSpacesUnique(s: string, k: nat)
    requires k <= |s|
    requires forall i :: 0 <= i < k ==> IsSpace(s[i])
    requires k < |s| ==> !IsSpace(s[k])
    ensures LeadingSpaces(s) == k
  {
    if k > 0 {
      assert forall i :: 0 <= i < k - 1 ==> s[1..][i] == s[i + 1];
      LeadingSpacesUnique(s[1..], k - 1);
    }
  }

  lemma {:induction false} TrailingSpacesUnique(s: string, k: nat)
    requires k <= |s|
    requires forall i :: |s| - k <= i < |s| ==> IsSpace(s[i])
    requires k < |s| ==> !IsSpace(s[|s| - k - 1])
    ensures TrailingSpaces(s) == k
  {
    if k > 0 {
      TrailingSpacesUnique(s[..|s| - 1], k - 1);
    }
  }

  /** Python's `s.strip()`: `s` without its leading and trailing whitespace. */
  function Strip(s: string): (r: string)
    ensures |r| <= |s|
  {
    var l := s[LeadingSpaces(s)..];
    l[..|l| - TrailingSpaces(l)]
  }

  /** What Strip keeps is the part of `s` that starts after the leading
      whitespace. */
  lemma StripSlice(s: string)
    ensures |Strip(s)| <= |s| - LeadingSpaces(s)
    ensures Strip(s) == s[LeadingSpaces(s)..LeadingSpaces(s) + |Strip(s)|]
  {
    var l := s[LeadingSpaces(s)..];
    assert Strip(s) == l[..|l| - TrailingSpaces(l)];
  }

  /** What Strip keeps has no whitespace at either end. */
  lemma StripTrimmed(s: string)
    ensures Trimmed(Strip(s))
  {
    var k := LeadingSpaces(s);
    var l := s[k..];
    var r := Strip(s);
    if r != [] {
      LeadingSpacesRun(s);
      TrailingSpacesRun(l);
      assert r[0] == l[0] == s[k];
      assert r[|r| - 1] == l[|l| - TrailingSpaces(l) - 1];
    }
  }

  /** Only whitespace follows what Strip keeps. */
  lemma StripTail(s: string)
    ensures forall i :: LeadingSpaces(s) + |Strip(s)| <= i < |s| ==> IsSpace(s[i])
  {
    var k := LeadingSpaces(s);
    var l := s[k..];
    TrailingSpacesRun(l);
    assert |Strip(s)| == |l| - TrailingSpaces(l);
    assert forall i :: k + |Strip(s)| <= i < |s| ==> s[i] == l[i - k];
  }

  /** What Strip keeps has no whitespace at either end; it is a contiguous
      part of `s` that starts after the leading whitespace and is followed
      only by whitespace. */
  lemma StripDecomposition(s: string)
    ensures Trimmed(Strip(s))
    ensures |Strip(s)| <= |s| - LeadingSpaces(s)
    ensures Strip(s) == s[LeadingSpaces(s)..LeadingSpaces(s) + |Strip(s)|]
    ensures forall i :: LeadingSpaces(s) + |Strip(s)| <= i < |s| ==> IsSpace(s[i])
  {
    StripSlice(s);
    StripTrimmed(s);
    StripTail(s);
  }

  /** Whatever whitespace surrounds a trimmed text, stripping recovers
      exactly that text. */
  lemma StripOfPadded(a: string, t: string, b: string)
    requires AllSpace(a) && AllSpace(b) && Trimmed(t)
    ensures Strip(a + t + b) == t
  {
    var s := a + t + b;
    if t == [] {
      LeadingSpacesUnique(s, |s|);
    } else {
      LeadingSpacesUnique(s, |a|);
      var l := s[|a|..];
      assert l == t + b;
      TrailingSpacesUnique(l, |b|);
    }
  }

  /** Stripping is idempotent. */
  lemma StripIdempotent(s: string)
    ensures Strip(Strip(s)) == Strip(s)
  {
    StripTrimmed(s);
    StripOfPadded([], Strip(s), []);
    assert [] + Strip(s) + [] == Strip(s);
  }

  /** Python's `not s.strip()`: the text is empty once stripped exactly when
      every character is whitespace. */
  predicate IsBlank(s: string) {
    Strip(s) == []
  }

  lemma BlankIffAllSpace(s: string)
    ensures IsBlank(s) <==> AllSpace(s)
  {
    if AllSpace(s) {
      LeadingSpacesUnique(s, |s|);
    } else {
      LeadingSpacesRun(s);
      StripDecomposition(s);
    }
  }

  lemma AllSpaceConcat(a: string, b: string)
    requires AllSpace(a) && AllSpace(b)
    ensures AllSpace(a + b)
  {
  }

  lemma LeadingRunAllSpace(x: string)
    ensures AllSpace(x[..LeadingSpaces(x)])
  {
    LeadingSpacesRun(x);
    var a := x[..LeadingSpaces(x)];
    assert forall m :: 0 <= m < |a| ==> a[m] == x[m];
  }

  lemma TrailingRestAllSpace(x: string)
    ensures LeadingSpaces(x) + |Strip(x)| <= |x|
    ensures AllSpace(x[LeadingSpaces(x) + |Strip(x)|..])
  {
    StripSlice(x);
    StripTail(x);
    var j := LeadingSpaces(x) + |Strip(x)|;
    var c := x[j..];
    assert forall m :: 0 <= m < |c| ==> c[m] == x[j + m];
  }

  lemma StripConcat(x: string)
    ensures LeadingSpaces(x) + |Strip(x)| <= |x|
    ensures x == x[..LeadingSpaces(x)] + Strip(x) + x[LeadingSpaces(x) + |Strip(x)|..]
  {
    StripSlice(x);
    var i := LeadingSpaces(x);
    var j := i + |Strip(x)|;
    assert x[..i] + x[i..j] == x[..j];
    assert x[..j] + x[j..] == x;
  }

  /** A text is its leading whitespace, its stripped form and then
      whitespace only. */
  lemma StripSplit(x: string)
    ensures var i := LeadingSpaces(x); var t := Strip(x);
      i + |t| <= |x| &&
      x == x[..i] + t + x[i + |t|..] && AllSpace(x[..i]) && AllSpace(x[i + |t|..])
  {
    LeadingRunAllSpace(x);
    TrailingRestAllSpace(x);
    StripConcat(x);
  }

  /** Trailing whitespace never survives stripping. */
  lemma StripAppendSpace(x: string, b: string)
    requires AllSpace(b)
    ensures Strip(x + b) == Strip(x)
  {
    StripSplit(x);
    StripTrimmed(x);
    var i := LeadingSpaces(x);
    var t := Strip(x);
    var a, c := x[..i], x[i + |t|..];
    AllSpaceConcat(c, b);
    assert x + b == a + t + (c + b);
    StripOfPadded(a, t, c + b);
  }

  /** When the last character is not whitespace, stripping removes only the
      leading run. */
  lemma StripNonSpaceEnd(w: string)
    requires w != [] && !IsSpace(w[|w| - 1])
    ensures Strip(w) == w[LeadingSpaces(w)..] && LeadingSpaces(w) < |w|
  {
    LeadingSpacesRun(w);
    var l := w[LeadingSpaces(w)..];
    TrailingSpacesUnique(l, 0);
  }

  /** Appending text that starts with a non-space keeps the leading run. */
  lemma LeadingSpacesAppend(x: string, y: string)
    requires y != [] && !IsSpace(y[0])
    ensures LeadingSpaces(x + y) == LeadingSpaces(x)
  {
    var k := LeadingSpaces(x);
    LeadingSpacesRun(x);
    assert forall i :: 0 <= i < k ==> (x + y)[i] == x[i];
    LeadingSpacesUnique(x + y, k);
  }

  /** Python's `str.lower()` on one ASCII character. */
  function LowerChar(c: char): (r: char)
    ensures 'A' <= c <= 'Z' ==> r as int == c as int + 32
    ensures !('A' <= c <= 'Z') ==> r == c
  {
    if 'A' <= c <= 'Z' then (c as int + 32) as char else c
  }

  function Lower(s: string): (r: string)
    ensures |r| == |s|
    ensures forall i :: 0 <= i < |s| ==> r[i] == LowerChar(s[i])
  {
    seq(|s|, i requires 0 <= i < |s| => LowerChar(s[i]))
  }

  /** Python's `a <= b` on strings: lexicographic by code point. */
  predicate LexLe(a: string, b: string) {
    a == [] || (b != [] && (a[0] < b[0] || (a[0] == b[0] && LexLe(a[1..], b[1..]))))
  }

  lemma {:induction false} LexLeTotal(a: string, b: string)
    ensures LexLe(a, b) || LexLe(b, a)
  {
    if a != [] && b != [] && a[0] == b[0] {
      LexLeTotal(a[1..], b[1..]);
    }
  }

  lemma {:induction false} LexLeTransitive(a: string, b: string, c: string)
    requires LexLe(a, b) && LexLe(b, c)
    ensures LexLe(a, c)
  {
    if a != [] && b != [] && c != [] && a[0] == b[0] == c[0] {
      LexLeTransitive(a[1..], b[1..], c[1..]);
    }
  }

  lemma {:induction false} LexLeAntisymmetric(a: string, b: string)
    requires LexLe(a, b) && LexLe(b, a)
    ensures a == b
  {
    if a != [] && b != [] {
      LexLeAntisymmetric(a[1..], b[1..]);
      assert a == [a[0]] + a[1..];
      assert b == [b[0]] + b[1..];
    }
  }
}
