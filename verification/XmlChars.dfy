/** Character classes and C-string primitives of the XML engine (tinyxml2.h, XMLUtil).

    A byte is a `char`. The byte strings are the strings of characters up to 255, so what holds of all strings
    holds of all byte strings; whatever the model itself writes is made of such characters. */
module XmlChars {
  const NUL := '\0'
  const LF := '\n'
  const CR := '\r'

  /** What `*(s + i)` reads from a NUL-terminated buffer that holds `s`. */
  function At(s: string, i: nat): char {
    if i < |s| then s[i] else NUL
  }

  predicate IsWhiteSpace(c: char) {
    c == ' ' || 9 <= c as int <= 13
  }

  predicate IsAlpha(c: char) {
    'a' <= c <= 'z' || 'A' <= c <= 'Z'
  }

  predicate IsNameStartChar(c: char) {
    c as int >= 128 || IsAlpha(c) || c == ':' || c == '_'
  }

  predicate IsNameChar(c: char) {
    IsNameStartChar(c) || '0' <= c <= '9' || c == '.' || c == '-'
  }

  predicate AllWhite(s: string) {
    forall i :: 0 <= i < |s| ==> IsWhiteSpace(s[i])
  }

  /** True when `t` is what the next |t| bytes of `s` spell, the test `strncmp(s, t, |t|) == 0`. */
  predicate StartsWith(s: string, t: string) {
    |t| <= |s| && s[..|t|] == t
  }

  /** One differing byte settles the comparison. */
  lemma PrefixDiffers(s: string, t: string, n: nat)
    requires n < |t| && At(s, n) != t[n]
    ensures !StartsWith(s, t)
  {
    assert |t| <= |s| ==> s[..|t|][n] == s[n];
  }

  predicate NulFree(s: string) {
    NUL !in s
  }

  /** The C string held by a buffer: everything before the first NUL. */
  function CString(s: string): (r: string)
    ensures NulFree(r)
    ensures r <= s
    ensures NulFree(s) ==> r == s
    ensures |r| < |s| ==> s[|r|] == NUL
  {
    if s == "" || s[0] == NUL then "" else [s[0]] + CString(s[1..])
  }

  /** How many white bytes lead the input. */
  function WhiteLead(s: string): (n: nat)
    ensures n <= |s|
    ensures forall i :: 0 <= i < n ==> IsWhiteSpace(s[i])
    ensures n < |s| ==> !IsWhiteSpace(s[n])
  {
    if s != "" && IsWhiteSpace(s[0]) then 1 + WhiteLead(s[1..]) else 0
  }

  /** The rest of the input after leading white space. */
  function SkipWhite(s: string): string {
    s[WhiteLead(s)..]
  }

  /** White space in front of a byte that is not white is exactly what is skipped. */
  lemma WhiteLeadIs(s: string, n: nat)
    requires n <= |s| && AllWhite(s[..n]) && (n < |s| ==> !IsWhiteSpace(s[n]))
    ensures WhiteLead(s) == n && SkipWhite(s) == s[n..]
  {
    forall i | 0 <= i < n
      ensures IsWhiteSpace(s[i])
    {
      assert s[i] == s[..n][i];
    }
  }

  lemma SkipWhiteGap(gap: string, rest: string)
    requires AllWhite(gap)
    requires rest != "" ==> !IsWhiteSpace(rest[0])
    ensures SkipWhite(gap + rest) == rest
  {
    assert (gap + rest)[..|gap|] == gap;
    WhiteLeadIs(gap + rest, |gap|);
  }

  function CountLf(s: string): nat {
    if s == "" then 0 else (if s[0] == LF then 1 else 0) + CountLf(s[1..])
  }

  lemma {:induction false} CountLfConcat(a: string, b: string)
    ensures CountLf(a + b) == CountLf(a) + CountLf(b)
  {
    if a == "" {
      assert a + b == b;
    } else {
      assert (a + b)[1..] == a[1..] + b;
      CountLfConcat(a[1..], b);
    }
  }
}
