/**
 * The few java.lang.String operations the coupon domain relies on, with the
 * JDK's meaning: isBlank (Character.isWhitespace), trim (characters up to
 * U+0020) and toUpperCase (restricted here to the ASCII letters).
 */
module Text {

  /** Character.isWhitespace, for every Unicode scalar value. */
  predicate IsWhitespace(c: char)
  {
    || ('\t' <= c <= '\r')
    || ('\U{1C}' <= c <= ' ')
    || c == '\U{1680}'
    || ('\U{2000}' <= c <= '\U{2006}')
    || ('\U{2008}' <= c <= '\U{200A}')
    || c == '\U{2028}' || c == '\U{2029}' || c == '\U{205F}' || c == '\U{3000}'
  }

  /** String.isBlank: empty, or white space only. */
  predicate IsBlank(s: string)
  {
    forall i | 0 <= i < |s| :: IsWhitespace(s[i])
  }

  /** What String.trim removes from either end: any character up to U+0020. */
  predicate IsTrimmed(c: char)
  {
    c <= ' '
  }

  /** Drops the leading characters String.trim removes; what remains is a suffix of s. */
  function TrimStart(s: string): (r: string)
    ensures |r| <= |s| && r == s[|s| - |r|..]
    ensures forall k | 0 <= k < |s| - |r| :: IsTrimmed(s[k])
    ensures r == [] || !IsTrimmed(r[0])
  {
    if s != [] && IsTrimmed(s[0]) then
      var r := TrimStart(s[1..]);
      assert forall k | 1 <= k < |s| - |r| :: s[k] == s[1..][k - 1];
      r
    else
      s
  }

  /** Drops the trailing characters String.trim removes; what remains is a prefix of s. */
  function TrimEnd(s: string): (r: string)
    ensures |r| <= |s| && r == s[..|r|]
    ensures forall k | |r| <= k < |s| :: IsTrimmed(s[k])
    ensures r == [] || !IsTrimmed(r[|r| - 1])
  {
    if s != [] && IsTrimmed(s[|s| - 1]) then
      var r := TrimEnd(s[..|s| - 1]);
      assert forall k | |r| <= k < |s| - 1 :: s[k] == s[..|s| - 1][k];
      r
    else
      s
  }

  /** String.trim */
  function Trim(s: string): (r: string)
    ensures r == [] || (!IsTrimmed(r[0]) && !IsTrimmed(r[|r| - 1]))
  {
    TrimEnd(TrimStart(s))
  }

  /**
   * trim keeps every character above U+0020, and the trimmed string is the
   * piece of s between the first and the last such character.
   */
  lemma {:induction false} TrimKeepsVisible(s: string, k: nat)
    requires k < |s| && !IsTrimmed(s[k])
    ensures var i := |s| - |TrimStart(s)|;
      i <= k < i + |Trim(s)| && Trim(s)[k - i] == s[k]
  {
    var t := TrimStart(s);
    var i := |s| - |t|;
    assert t[k - i] == s[k];
    var r := TrimEnd(t);
    assert r[k - i] == t[k - i];
  }

  /** trim yields the empty string exactly when every character is at most U+0020. */
  lemma {:induction false} TrimEmptyIff(s: string)
    ensures Trim(s) == [] <==> forall k | 0 <= k < |s| :: IsTrimmed(s[k])
  {
    if exists k | 0 <= k < |s| :: !IsTrimmed(s[k]) {
      var k :| 0 <= k < |s| && !IsTrimmed(s[k]);
      TrimKeepsVisible(s, k);
    }
  }

  /**
   * isBlank and trim disagree. A string passes isBlank's test yet trims to
   * "" exactly when all its characters are at most U+0020 and one of them
   * is not white space.
   */
  lemma {:induction false} BlankVersusTrim(s: string)
    ensures !IsBlank(s) && Trim(s) == [] <==>
      && (forall k | 0 <= k < |s| :: IsTrimmed(s[k]))
      && (exists k | 0 <= k < |s| :: !IsWhitespace(s[k]))
  {
    TrimEmptyIff(s);
  }

  /** U+0001 is not white space, so it is not blank, yet trim drops it. */
  lemma {:induction false} ControlCharTrimsAway()
    ensures !IsBlank("\U{0001}") && Trim("\U{0001}") == []
  {
    var c := "\U{0001}";
    assert !IsWhitespace(c[0]);
    TrimEmptyIff(c);
  }

  /** U+2000 (en quad) is white space, so it is blank, yet trim keeps it. */
  lemma {:induction false} EnQuadSurvivesTrim()
    ensures IsBlank("\U{2000}") && Trim("\U{2000}") == "\U{2000}"
  {
    var w := "\U{2000}";
    assert !IsTrimmed(w[0]);
    assert TrimStart(w) == w;
  }

  /** trim is idempotent. */
  lemma {:induction false} TrimIdempotent(s: string)
    ensures Trim(Trim(s)) == Trim(s)
  {
    var r := Trim(s);
    if r != [] {
      assert TrimStart(r) == r;
      assert TrimEnd(r) == r;
    }
  }

  /** String.toUpperCase on one character, for the ASCII letters. */
  function UpperAscii(c: char): char
  {
    if 'a' <= c <= 'z' then (c as int - 32) as char else c
  }

  /** String.toUpperCase, for the ASCII letters; every other character is kept. */
  function ToUpperAscii(s: string): (r: string)
    ensures |r| == |s|
  {
    seq(|s|, i requires 0 <= i < |s| => UpperAscii(s[i]))
  }

  /** Upper-casing twice is upper-casing once. */
  lemma ToUpperAsciiIdempotent(s: string)
    ensures ToUpperAscii(ToUpperAscii(s)) == ToUpperAscii(s)
  {
  }

  /** Upper-casing never turns a character into white space or out of it. */
  lemma ToUpperAsciiKeepsBlankness(s: string)
    ensures IsBlank(ToUpperAscii(s)) <==> IsBlank(s)
  {
    assert forall i | 0 <= i < |s| :: IsWhitespace(ToUpperAscii(s)[i]) == IsWhitespace(s[i]);
  }
}
