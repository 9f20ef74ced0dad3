/** String replacement and stripping (am_replace_str and am_strstrip of src/utils.c). */
module StringUtils {
  import opened CStrings
  import opened Wrappers

  const SIZE_T: nat := 0x1_0000_0000_0000_0000

  // p stands at the start of s.
  predicate MatchesAt(s: string, p: string) {
    p <= s
  }

  // p stands somewhere in s.
  predicate Occurs(s: string, p: string) {
    MatchesAt(s, p) || (s != [] && Occurs(s[1..], p))
  }

  /** To occur is to be a part of the string. */
  lemma {:induction false} OccursIs(s: string, p: string)
    ensures Occurs(s, p) <==> exists i :: 0 <= i <= |s| && p <= s[i..]
  {
    assert s[0..] == s;
    if !MatchesAt(s, p) && s != [] {
      var t := s[1..];
      OccursIs(t, p);
      assert forall i :: 0 <= i <= |t| ==> t[i..] == s[i + 1..];
      forall i | 0 <= i <= |s| && p <= s[i..] ensures Occurs(t, p) {
        assert i > 0 && t[i - 1..] == s[i..];
      }
    }
  }

  /** Every leftmost, non-overlapping occurrence of p replaced by t. */
  function Replace(s: string, p: string, t: string): string
    requires p != []
  {
    if s == [] then []
    else if MatchesAt(s, p) then t + Replace(s[|p|..], p, t)
    else [s[0]] + Replace(s[1..], p, t)
  }

  function Count(s: string, p: string): nat
    requires p != []
  {
    if s == [] then 0
    else if MatchesAt(s, p) then 1 + Count(s[|p|..], p)
    else Count(s[1..], p)
  }

  // ---- what Replace means ----

  lemma {:induction false} NothingToReplace(s: string, p: string, t: string)
    requires p != [] && !Occurs(s, p)
    ensures Replace(s, p, t) == s
  {
    if s != [] {
      NothingToReplace(s[1..], p, t);
      assert s == [s[0]] + s[1..];
    }
  }

  /** The first occurrence is replaced, and the text after it is treated alike. */
  lemma {:induction false} FirstIsReplaced(u: string, v: string, p: string, t: string)
    requires p != []
    requires forall i :: 0 <= i < |u| ==> !MatchesAt((u + p + v)[i..], p)
    ensures Replace(u + p + v, p, t) == u + t + Replace(v, p, t)
  {
    var s := u + p + v;
    if u == [] {
      assert s[|p|..] == v;
    } else {
      assert s[0..] == s;
      assert s[1..] == u[1..] + p + v;
      forall i | 0 <= i < |u[1..]| ensures !MatchesAt((u[1..] + p + v)[i..], p) {
        assert (u[1..] + p + v)[i..] == s[i + 1..];
      }
      FirstIsReplaced(u[1..], v, p, t);
    }
  }

  lemma OneMore(c: nat, d: int)
    ensures (1 + c) * d == d + c * d
  {
  }

  lemma {:induction false} ReplaceLength(s: string, p: string, t: string)
    requires p != []
    ensures |Replace(s, p, t)| == |s| + Count(s, p) * (|t| - |p|)
  {
    if s == [] {
    } else if MatchesAt(s, p) {
      ReplaceLength(s[|p|..], p, t);
      OneMore(Count(s[|p|..], p), |t| - |p|);
    } else {
      ReplaceLength(s[1..], p, t);
    }
  }

  lemma {:induction false} LongerNeverOccurs(s: string, p: string)
    requires |p| > |s|
    ensures !Occurs(s, p)
  {
    if s != [] { LongerNeverOccurs(s[1..], p); }
  }

  // ---- am_replace_str ----

  // A malloc'ed C string: the text, a terminator, and nothing else.
  predicate Holds(a: array?<char>, text: string)
    reads if a == null then {} else {a}
  {
    a != null && a.Length == |text| + 1 && a[..|text|] == text && a[|text|] == '\0'
  }

  method StrDup(s: string) returns (out: array<char>)
    ensures fresh(out) && Holds(out, s)
  {
    out := new char[|s| + 1](i => '\0');
    forall i | 0 <= i < |s| {
      out[i] := s[i];
    }
  }

  method Strstr(s: string, p: string) returns (found: bool)
    ensures found == Occurs(s, p)
  {
    var i := 0;
    assert s[0..] == s;
    while i < |s| && !(p <= s[i..])
      invariant 0 <= i <= |s| && Occurs(s, p) == Occurs(s[i..], p)
    {
      assert s[i..][1..] == s[i + 1..];
      i := i + 1;
    }
    found := p <= s[i..];
  }

  // The counting pass: how many matches, and where it ends.
  method CountMatches(s: string, p: string) returns (count: nat, end: nat)
    requires p != []
    ensures count == Count(s, p) && end == |s|
  {
    count, end := 0, 0;
    assert s[0..] == s;
    while end < |s|
      invariant 0 <= end <= |s|
      invariant count + Count(s[end..], p) == Count(s, p)
      decreases |s| - end
    {
      assert s[end..][1..] == s[end + 1..];
      if p <= s[end..] {
        assert s[end..][|p|..] == s[end + |p|..];
        count := count + 1;
        end := end + (|p| - 1);
      }
      end := end + 1;
    }
  }

  // i + 1 + count * (substlen - patternlen), in size_t.
  function AllocSize(len: nat, count: nat, substlen: nat, patternlen: nat): nat {
    (len + 1 + count * ((substlen - patternlen) % SIZE_T)) % SIZE_T
  }

  lemma DropMultiples(x: nat, k: nat)
    requires x < SIZE_T
    ensures (x + k * SIZE_T) % SIZE_T == x
  {
    if k > 0 {
      DropMultiples(x, k - 1);
      assert x + k * SIZE_T == (x + (k - 1) * SIZE_T) + SIZE_T;
      AddOne(x + (k - 1) * SIZE_T);
    }
  }

  lemma WrapsOnce(d: int)
    requires 0 - SIZE_T < d < 0
    ensures d % SIZE_T == d + SIZE_T
  {
  }

  lemma Distribute(c: nat, d: int, m: int)
    ensures c * (d + m) == c * d + c * m
  {
  }

  lemma AddOne(y: nat)
    ensures (y + SIZE_T) % SIZE_T == y % SIZE_T
  {
  }

  /** Although substlen - patternlen wraps around when the substitute is shorter, the
      size computed is the length of the result and its terminator. */
  lemma SizeIsExact(s: string, p: string, t: string)
    requires p != [] && |p| < SIZE_T && |t| < SIZE_T && |Replace(s, p, t)| + 1 < SIZE_T
    ensures AllocSize(|s|, Count(s, p), |t|, |p|) == |Replace(s, p, t)| + 1
  {
    hide Replace, Count;
    ReplaceLength(s, p, t);
    var c, d := Count(s, p), |t| - |p|;
    if d >= 0 {
      assert d % SIZE_T == d;
    } else {
      WrapsOnce(d);
      assert c * (d % SIZE_T) == c * d + c * SIZE_T by { Distribute(c, d, SIZE_T); }
      DropMultiples(|s| + 1 + c * d, c);
    }
  }

  // A text and its terminator, put at position i.
  method Strcpy(ret: array<char>, i: nat, t: string)
    requires i + |t| + 1 <= ret.Length
    modifies ret
    ensures ret[..i + |t|] == old(ret[..i]) + t
  {
    for k := 0 to |t|
      invariant ret[..i] == old(ret[..i])
      invariant ret[i..i + k] == t[..k]
    {
      ret[i + k] := t[k];
    }
    ret[i + |t|] := '\0';
    assert ret[..i + |t|] == ret[..i] + ret[i..i + |t|];
  }

  /** am_replace_str. The result is exactly the replaced text; writing it uses every byte
      allocated and no other. */
  method ReplaceStr(s: Option<string>, pattern: Option<string>, subst: Option<string>) returns (ret: array?<char>)
    requires s.Some? && pattern.Some? && subst.Some? && pattern.value != [] ==>
               |pattern.value| < SIZE_T && |subst.value| < SIZE_T
               && |Replace(s.value, pattern.value, subst.value)| + 1 < SIZE_T
    ensures ret == null <==> s.None? || s.value == [] || pattern.None? || pattern.value == [] || subst.None?
    ensures ret != null ==> fresh(ret) && Holds(ret, Replace(s.value, pattern.value, subst.value))
  {
    if s.None? || s.value == [] || pattern.None? || pattern.value == [] || subst.None? {
      return null;
    }
    var p := pattern.value;
    if |p| > |s.value| {
      LongerNeverOccurs(s.value, p);
      NothingToReplace(s.value, p, subst.value);
      ret := StrDup(s.value);
      return;
    }
    var found := Strstr(s.value, p);
    if !found {
      NothingToReplace(s.value, p, subst.value);
      ret := StrDup(s.value);
      return;
    }
    var count, end := CountMatches(s.value, p);
    SizeIsExact(s.value, p, subst.value);
    ret := new char[AllocSize(end, count, |subst.value|, |p|)];
    WritePass(s.value, p, subst.value, ret);
  }

  method WritePass(s: string, p: string, t: string, ret: array<char>)
    requires p != [] && ret.Length == |Replace(s, p, t)| + 1
    modifies ret
    ensures Holds(ret, Replace(s, p, t))
  {
    hide Replace;
    ghost var whole := Replace(s, p, t);
    var pos, i := 0, 0;
    assert s[0..] == s;
    while pos < |s|
      invariant 0 <= pos <= |s| && 0 <= i < ret.Length
      invariant ret[..i] + Replace(s[pos..], p, t) == whole
      decreases |s| - pos
    {
      ReplaceStep(s, pos, p, t);
      if p <= s[pos..] {
        assert i + |t| <= |whole|;
        Strcpy(ret, i, t);
        i := i + |t|;
        pos := pos + |p|;
      } else {
        assert i + 1 <= |whole|;
        ret[i] := s[pos];
        i := i + 1;
        pos := pos + 1;
      }
    }
    assert s[pos..] == [];
    ReplaceNothing(p, t);
    ret[i] := '\0';
  }

  lemma ReplaceStep(s: string, pos: nat, p: string, t: string)
    requires p != [] && pos < |s|
    ensures p <= s[pos..] ==> pos + |p| <= |s| && Replace(s[pos..], p, t) == t + Replace(s[pos + |p|..], p, t)
    ensures !(p <= s[pos..]) ==> Replace(s[pos..], p, t) == [s[pos]] + Replace(s[pos + 1..], p, t)
  {
    assert s[pos..][1..] == s[pos + 1..];
    if p <= s[pos..] { assert s[pos..][|p|..] == s[pos + |p|..]; }
  }

  lemma ReplaceNothing(p: string, t: string)
    requires p != []
    ensures Replace([], p, t) == []
  {
  }

  // ---- am_strstrip ----

  // The length of s without the white space at its end.
  function DarkLength(s: string): (n: nat)
    ensures n <= |s|
    ensures n > 0 ==> !IsSpace(s[n - 1])
  {
    if s == [] || !IsSpace(s[|s| - 1]) then |s| else DarkLength(s[..|s| - 1])
  }

  function Strip(s: string): string {
    SkipWs(s[..DarkLength(s)])
  }

  lemma {:induction false} DarkLengthOf(t: string, b: string)
    requires AllSpace(b) && (t != [] ==> !IsSpace(t[|t| - 1]))
    ensures DarkLength(t + b) == |t|
  {
    if b == [] {
      assert t + b == t;
    } else {
      assert (t + b)[..|t + b| - 1] == t + b[..|b| - 1];
      DarkLengthOf(t, b[..|b| - 1]);
    }
  }

  /** Stripping removes exactly the white space around a text. */
  lemma StripRemovesSpace(a: string, x: string, b: string)
    requires AllSpace(a) && AllSpace(b)
    requires x != [] ==> !IsSpace(x[0]) && !IsSpace(x[|x| - 1])
    ensures Strip(a + x + b) == x
  {
    if x == [] {
      assert a + x + b == [] + (a + b);
      DarkLengthOf([], a + b);
    } else {
      DarkLengthOf(a + x, b);
      assert (a + x + b)[..|a + x|] == a + x;
      SpanOf(IsSpace, a, x);
      assert (a + x)[|a|..] == x;
    }
  }

  /** am_strstrip, in place: str holds a C string of length n. */
  method StripInPlace(str: array<char>, n: nat) returns (len: nat)
    requires n < str.Length && str[n] == '\0'
    modifies str
    ensures len <= n && str[len] == '\0'
    ensures str[..len] == Strip(old(str[..n]))
  {
    hide Span, DarkLength;
    len := TailStart(str, n);
    ghost var t := str[..len];
    assert t == str[..n][..len];
    var pos := 0;
    while pos < len && IsSpace(str[pos])
      invariant 0 <= pos <= len
      invariant forall i :: 0 <= i < pos ==> IsSpace(t[i])
    {
      pos := pos + 1;
    }
    SpanOf(IsSpace, t[..pos], t[pos..]);
    assert t == t[..pos] + t[pos..];
    len := len - pos;
    Memmove(str, pos, len);
    str[len] := '\0';
    assert str[..len] == t[pos..];
  }

  // How much is left when the white space at the end is gone.
  method TailStart(str: array<char>, n: nat) returns (len: nat)
    requires n <= str.Length
    ensures len == DarkLength(str[..n])
  {
    ghost var s := str[..n];
    len := n;
    assert s[..n] == s;
    while len > 0 && IsSpace(str[len - 1])
      invariant 0 <= len <= n
      invariant DarkLength(s[..len]) == DarkLength(s)
    {
      assert s[..len][..len - 1] == s[..len - 1];
      len := len - 1;
    }
    assert len > 0 ==> s[..len][len - 1] == str[len - 1];
  }

  method Memmove(str: array<char>, pos: nat, len: nat)
    requires pos + len < str.Length
    modifies str
    ensures str[..len] == old(str[pos..pos + len])
  {
    for k := 0 to len
      invariant str[..k] == old(str[pos..pos + k])
      invariant forall j :: k <= j < str.Length ==> str[j] == old(str[j])
    {
      str[k] := str[pos + k];
      assert str[..k + 1] == str[..k] + [str[k]];
    }
  }
}
