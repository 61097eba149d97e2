/** The two character-level string operations the core uses. */
module Ascii {

  /** `char::to_ascii_lowercase`: 'A'..'Z' become 'a'..'z', every other character is kept. */
  function AsciiLower(c: char): char {
    if 'A' <= c <= 'Z' then (c as int + 32) as char else c
  }

  /** `str::eq_ignore_ascii_case`, read per character. */
  predicate EqIgnoreAsciiCase(a: string, b: string)
    ensures a == b ==> EqIgnoreAsciiCase(a, b)
  {
    |a| == |b| && forall i :: 0 <= i < |a| ==> AsciiLower(a[i]) == AsciiLower(b[i])
  }

  /** Folding never maps a non-ASCII-letter onto a character that is not an ASCII letter. */
  lemma AsciiLowerFixesNonLetters(c: char, d: char)
    requires !('A' <= d <= 'Z') && !('a' <= d <= 'z')
    ensures AsciiLower(c) == d <==> c == d
  {
  }

  /**
    Against a string without ASCII letters, the case-insensitive comparison
    is plain equality.
   */
  lemma EqIgnoreAsciiCaseWithoutLetters(a: string, b: string)
    requires forall i :: 0 <= i < |b| ==> !('A' <= b[i] <= 'Z') && !('a' <= b[i] <= 'z')
    ensures EqIgnoreAsciiCase(a, b) <==> a == b
  {
    if EqIgnoreAsciiCase(a, b) {
      forall i | 0 <= i < |a|
        ensures a[i] == b[i]
      {
        AsciiLowerFixesNonLetters(a[i], b[i]);
      }
    }
  }

  /** `str::replace` of a single character by another: every occurrence is replaced. */
  function ReplaceChar(s: string, from: char, to: char): (r: string)
    ensures |r| == |s|
    ensures forall i :: 0 <= i < |s| ==> r[i] == (if s[i] == from then to else s[i])
  {
    if s == [] then [] else [if s[0] == from then to else s[0]] + ReplaceChar(s[1..], from, to)
  }

  /** Replacing `from` by a character that does not occur undoes itself. */
  lemma ReplaceCharRoundTrip(s: string, from: char, to: char)
    requires to !in s
    ensures ReplaceChar(ReplaceChar(s, from, to), to, from) == s
  {
  }
}
