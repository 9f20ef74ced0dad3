/** C strings and character classes, shared by the other modules. */
module CStrings {
  import opened Wrappers

  const NUL: char := '\0'

  // A C string or the contents of a text file: no NUL bytes.
  predicate NulFree(s: string) {
    forall i :: 0 <= i < |s| ==> s[i] != NUL
  }

  // A C string that is neither NULL nor empty.
  predicate Usable(s: Option<string>) {
    s.Some? && s.value != []
  }

  // am_strdup: an empty string becomes NULL.
  function NonEmpty(s: Option<string>): Option<string> {
    if Usable(s) then s else None
  }

  // isspace on ASCII.
  predicate IsSpace(c: char) {
    c == ' ' || '\t' <= c <= '\r'
  }

  /** Space, tab, newline, vertical tab, form feed, carriage return. */
  lemma SpaceIs(c: char)
    ensures IsSpace(c) <==> c as int == 32 || c as int in {9, 10, 11, 12, 13}
  {
  }

  predicate AllSpace(s: string) {
    forall i :: 0 <= i < |s| ==> IsSpace(s[i])
  }

  function Unlike(c: char): char -> bool {
    x => x != c
  }

  // How many leading characters of s satisfy p.
  function Span(p: char -> bool, s: string): (n: nat)
    ensures n <= |s|
    ensures forall i :: 0 <= i < n ==> p(s[i])
    ensures n < |s| ==> !p(s[n])
  {
    if s == [] || !p(s[0]) then 0 else 1 + Span(p, s[1..])
  }

  // A buffer read as a C string.
  function CString(bytes: string): string {
    bytes[..Span(Unlike(NUL), bytes)]
  }

  lemma {:induction false} SpanOf(p: char -> bool, t: string, s: string)
    requires forall i :: 0 <= i < |t| ==> p(t[i])
    requires s != [] ==> !p(s[0])
    ensures Span(p, t + s) == |t|
  {
    if t == [] {
      assert t + s == s;
    } else {
      assert (t + s)[1..] == t[1..] + s;
      SpanOf(p, t[1..], s);
    }
  }

  /** A buffer is read up to its first NUL. */
  lemma CStringEnds(s: string, rest: string)
    requires forall i :: 0 <= i < |s| ==> s[i] as int != 0
    ensures CString(s) == s && CString(s + ['\0'] + rest) == s
  {
    SpanOf(Unlike(NUL), s, []);
    assert s + [] == s;
    SpanOf(Unlike(NUL), s, ['\0'] + rest);
    assert s + ['\0'] + rest == s + (['\0'] + rest);
  }

  // White space in front is all that is skipped.
  lemma SkippedIsSpace(s: string) returns (w: string)
    ensures AllSpace(w) && s == w + SkipWs(s)
  {
    w := s[..Span(IsSpace, s)];
  }

  // A span that has been walked to position n is |s| - n shorter from there.
  lemma {:induction false} SpanFrom(p: char -> bool, s: string, n: nat)
    requires n <= |s| && forall i :: 0 <= i < n ==> p(s[i])
    ensures Span(p, s) == n + Span(p, s[n..])
  {
    if n == 0 {
      assert s[0..] == s;
    } else {
      assert s[1..][n - 1..] == s[n..];
      SpanFrom(p, s[1..], n - 1);
    }
  }

  function SkipWs(s: string): (r: string)
    ensures |r| <= |s| && (r != [] ==> !IsSpace(r[0]))
  {
    s[Span(IsSpace, s)..]
  }

  // The first position from start on whose character does not satisfy p.
  method Advance(p: char -> bool, line: string, start: nat) returns (pos: nat)
    requires start <= |line|
    ensures pos == start + Span(p, line[start..])
  {
    pos := start;
    while pos < |line| && p(line[pos])
      invariant start <= pos <= |line|
      invariant forall i :: start <= i < pos ==> p(line[i])
    {
      pos := pos + 1;
    }
    SpanFrom(p, line[start..], pos - start);
    assert line[start..][pos - start..] == line[pos..];
  }
}
