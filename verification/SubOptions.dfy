/**
 Splitting a braced parameter into sub-options, with quoted values continued over
 several lines (parseMultiOption, parseSubOption and trim of src/config_parser.c).
 */
module SubOptions {
  import opened CStrings
  import opened Wrappers
  import opened ConfigLexer

  // ---- trim ----

  // The last position from e downwards that is no white space, or 0.
  function LastDark(s: string, e: nat): (r: nat)
    requires e < |s|
    ensures r <= e
  {
    if e > 0 && IsSpace(s[e]) then LastDark(s, e - 1) else e
  }

  function TrimRight(t: string): string
    requires t != []
  {
    var e := LastDark(t, |t| - 1);
    t[..if IsQuote(t[e]) then e else e + 1]
  }

  /** trim: white space off both ends, and one quote off each end. */
  function Trim(str: string): Option<string> {
    var s := SkipWs(str);
    if s == [] then None
    else
      var t := if IsQuote(s[0]) then s[1..] else s;
      if t == [] then None else Some(TrimRight(t))
  }

  lemma LightIsSkipped(t: string, b: string)
    requires t != [] && !IsSpace(t[|t| - 1]) && AllSpace(b)
    ensures LastDark(t + b, |t + b| - 1) == |t| - 1
  {
    LastDarkSkips(t + b, |t| - 1, |t + b| - 1);
  }

  lemma {:induction false} LastDarkSkips(s: string, d: nat, e: nat)
    requires d <= e < |s|
    requires d == 0 || !IsSpace(s[d])
    requires forall i :: d < i <= e ==> IsSpace(s[i])
    ensures LastDark(s, e) == d
    decreases e
  {
    if d < e { LastDarkSkips(s, d, e - 1); }
  }

  /** Of a text that is dark at both ends, with white space around it, one quote is dropped
      at each end that has one. */
  lemma TrimKeepsMiddle(a: string, v: string, b: string)
    requires AllSpace(a) && AllSpace(b) && v != [] && !IsSpace(v[0]) && !IsSpace(v[|v| - 1])
    requires v != "\"" && v != "'"
    ensures var lo := if v[0] == '"' || v[0] == '\'' then 1 else 0;
            var hi := if v[|v| - 1] == '"' || v[|v| - 1] == '\'' then |v| - 1 else |v|;
            lo <= hi && Trim(a + (v + b)) == Some(v[lo..hi])
  {
    hide Span, LastDark;
    SpanOf(IsSpace, a, v + b);
    assert (a + (v + b))[|a|..] == v + b;
    var lo := if IsQuote(v[0]) then 1 else 0;
    assert (v + b)[lo..] == v[lo..] + b;
    LightIsSkipped(v[lo..], b);
    var hi := if IsQuote(v[|v| - 1]) then |v| - 1 else |v|;
    assert (v[lo..] + b)[..hi - lo] == v[lo..hi];
  }

  /** Nothing is left of white space, nor of a quote at the end; of a quote in front of white
      space one white space character is. */
  lemma TrimLeavesNothing(a: string, q: char, b: string)
    requires AllSpace(a) && AllSpace(b) && (q == '"' || q == '\'')
    ensures Trim(a) == None && Trim(a + [q]) == None
    ensures b != [] ==> Trim(a + ([q] + b)) == Some(b[..1])
  {
    hide Span, LastDark;
    SpanOf(IsSpace, a, []);
    assert a + [] == a;
    SpanOf(IsSpace, a, [q]);
    assert (a + [q])[|a|..] == [q];
    SpanOf(IsSpace, a, [q] + b);
    assert (a + ([q] + b))[|a|..] == [q] + b && ([q] + b)[1..] == b;
    if b != [] { LastDarkSkips(b, 0, |b| - 1); }
  }

  /** Text without quotes and white space at its ends is kept whole. */
  lemma TrimPlain(a: string, v: string, b: string)
    requires AllSpace(a) && AllSpace(b) && v != []
    requires !IsSpace(v[0]) && v[0] != '"' && v[0] != '\''
    requires var z := v[|v| - 1]; !IsSpace(z) && z != '"' && z != '\''
    ensures Trim(a + (v + b)) == Some(v)
  {
    hide Trim;
    TrimKeepsMiddle(a, v, b);
    assert v[0..|v|] == v;
  }

  /** What stands between quotes of either kind is kept whole, white space included. */
  lemma TrimQuoted(a: string, q: char, v: string, b: string)
    requires AllSpace(a) && AllSpace(b) && (q == '"' || q == '\'')
    ensures Trim(a + ([q] + v + [q] + b)) == Some(v)
  {
    hide Trim;
    var w := [q] + v + [q];
    TrimKeepsMiddle(a, w, b);
    assert w[1..|w| - 1] == v;
  }

  method TrimString(str: string) returns (r: Option<string>)
    ensures r == Trim(str)
  {
    hide SkipWs, TrimRight;
    if str == [] {
      NoSpaceToSkip(str);
      return None;
    }
    assert str[0..] == str;
    var start := SkipWhitespace(str, 0);
    if start == |str| {
      return None;
    }
    assert str[start..][1..] == str[start + 1..];
    if IsQuote(str[start]) {
      start := start + 1;
    }
    if start == |str| {
      return None;   // the backward scan would yield length -1, and am_strndup then NULL
    }
    var t := TrimEnd(str, start);
    r := Some(t);
  }

  method TrimEnd(str: string, start: nat) returns (r: string)
    requires start < |str|
    ensures r == TrimRight(str[start..])
  {
    ghost var t := str[start..];
    var end := |str| - 1;
    while end > start && IsSpace(str[end])
      invariant start <= end < |str|
      invariant LastDark(t, end - start) == LastDark(t, |t| - 1)
    {
      end := end - 1;
    }
    var len := if IsQuote(str[end]) then end - start else end - start + 1;
    r := str[start..start + len];
    assert r == t[..len];
  }

  // ---- parseSubOption ----

  datatype SubOption = SubOption(option: string, value: string)

  // The position of the first "=>", or |s|.
  function ArrowAt(s: string): (i: nat)
    ensures i <= |s|
    ensures i < |s| ==> i + 1 < |s| && s[i] == '=' && s[i + 1] == '>'
    ensures forall j :: 0 <= j < i && j + 1 < |s| ==> !(s[j] == '=' && s[j + 1] == '>')
  {
    if |s| < 2 then |s|
    else if s[0] == '=' && s[1] == '>' then 0
    else 1 + ArrowAt(s[1..])
  }

  /** "name => value": the name without the character before the arrow. */
  function ParseSub(line: string): Option<SubOption> {
    var i := ArrowAt(line);
    if i == |line| || i <= 1 then None
    else
      match Trim(line[i + 2..])
      case None => None
      case Some(value) => Some(SubOption(line[..i - 1], value))
  }

  // The source asserts that the line is not empty.
  method ParseSubOption(line: string) returns (r: Option<SubOption>)
    requires line != []
    ensures r == ParseSub(line)
  {
    hide ArrowAt, Trim;
    var i := 0;
    while i < |line|
      invariant 0 <= i <= |line|
      invariant forall j :: 0 <= j < i && j + 1 < |line| ==> !(line[j] == '=' && line[j + 1] == '>')
    {
      if line[i] == '=' && i + 1 < |line| && line[i + 1] == '>' {
        ArrowIsFirst(line, i);
        if i > 1 {
          var param := TrimString(line[i + 2..]);
          return match param case None => None case Some(v) => Some(SubOption(line[..i - 1], v));
        }
        return None;
      }
      i := i + 1;
    }
    NoArrowFound(line);
    return None;
  }

  lemma NoArrowFound(s: string)
    requires forall j :: 0 <= j && j + 1 < |s| ==> !(s[j] == '=' && s[j + 1] == '>')
    ensures ArrowAt(s) == |s|
  {
  }

  lemma ArrowIsFirst(s: string, i: nat)
    requires i + 1 < |s| && s[i] == '=' && s[i + 1] == '>'
    requires forall j :: 0 <= j < i ==> !(s[j] == '=' && s[j + 1] == '>')
    ensures ArrowAt(s) == i
  {
  }

  // A line with its first arrow: the name, one character, "=>", the rest.
  predicate HasArrow(line: string, name: string, c: char, rest: string) {
    && line == name + [c] + "=>" + rest
    && forall j :: 0 <= j < |name| ==> line[j] != '=' || line[j + 1] != '>'
  }

  /** A sub-option is read exactly from a name that is not empty, one character that is
      dropped, the first arrow of the line, and a value that trim leaves. */
  lemma ParsedExactly(line: string, name: string, value: string)
    ensures ParseSub(line) == Some(SubOption(name, value)) <==>
            exists c, rest :: name != [] && HasArrow(line, name, c, rest) && Trim(rest) == Some(value)
  {
    hide ArrowAt, Trim;
    var i := ArrowAt(line);
    if ParseSub(line) == Some(SubOption(name, value)) {
      assert line == line[..i - 1] + [line[i - 1]] + "=>" + line[i + 2..];
      assert HasArrow(line, name, line[i - 1], line[i + 2..]);
    }
    forall c, rest | name != [] && HasArrow(line, name, c, rest) && Trim(rest) == Some(value)
      ensures ParseSub(line) == Some(SubOption(name, value))
    {
      ArrowIsRead(line, name, c, rest);
    }
  }

  lemma ArrowIsRead(line: string, name: string, c: char, rest: string)
    requires name != [] && HasArrow(line, name, c, rest)
    ensures var v := Trim(rest);
            ParseSub(line) == match v case None => None case Some(value) => Some(SubOption(name, value))
  {
    hide ArrowAt, Trim;
    ArrowIsFirst(line, |name| + 1);
    assert line[..|name|] == name && line[|name| + 3..] == rest;
  }

  // ---- parseMultiOption ----

  const NO_QUOTE: int := -1

  // One sub-option has been scanned: the buffer and where the scan stopped; or the
  // line after a continuation mark does not start with a quote.
  datatype Scanned = Complete(tmp: string, pos: nat) | Broken

  predicate Continues(str: string, pos: nat) {
    0 < pos <= |str| && (str[pos - 1] == '\\' || str[pos - 1] == '+')
  }

  // The inner loop at position pos, with tmp copied so far and the last double quote
  // at index lastq of tmp.
  function Scan(str: string, pos: nat, tmp: string, lastq: int): (r: Scanned)
    requires pos <= |str| && NO_QUOTE <= lastq < |tmp|
    ensures r.Complete? ==> pos <= r.pos <= |str|
    ensures r.Complete? ==> |r.tmp| <= |tmp| + (|str| - pos)
    ensures r.Complete? && pos < |str| && str[pos] != '\n' ==> r.pos > pos
    decreases |str| - pos
  {
    if pos == |str| then Complete(tmp, pos)
    else if str[pos] == '"' then Scan(str, pos + 1, tmp + ['"'], |tmp|)
    else if str[pos] != '\n' then Scan(str, pos + 1, tmp + [str[pos]], lastq)
    else if !Continues(str, pos) then Complete(tmp, pos)
    else
      var next := pos + 1 + Span(IsSpace, str[pos + 1..]);
      if next < |str| && str[next] == '"' && lastq != NO_QUOTE then Resume(str, next + 1, tmp[..lastq], lastq)
      else Broken
  }

  // Joining: the buffer is cut back to before its last quote, and the character after
  // the new opening quote is copied whatever it is, the terminating NUL included.
  function Resume(str: string, pos: nat, tmp: string, lastq: nat): (r: Scanned)
    requires pos <= |str| && lastq == |tmp|
    ensures r.Complete? ==> pos <= r.pos <= |str|
    ensures r.Complete? ==> |r.tmp| <= |tmp| + 1 + (|str| - pos)
    decreases |str| - pos, 1
  {
    if pos == |str| then Complete(tmp + ['\0'], pos) else Scan(str, pos + 1, tmp + [str[pos]], lastq)
  }

  // The buffer is not empty, but begins with a NUL.
  predicate EmptyLine(tmp: string) {
    tmp != [] && tmp[0] == '\0'
  }

  /** All sub-options of a parameter; the list is built at its head. None if parseSubOption
      is given an empty line, on which its assertion ends the program. */
  function Multi(str: string, pos: nat, options: seq<SubOption>): Option<seq<SubOption>>
    requires pos <= |str|
    decreases |str| - pos
  {
    if pos == |str| then Some(options)
    else
      var start := pos + Span(IsSpace, str[pos..]);
      if start == |str| then Some(options)
      else
        match Scan(str, start, [], NO_QUOTE)
        case Broken => Some(options)
        case Complete(tmp, next) => if EmptyLine(tmp) then None else Multi(str, next, WithOption(tmp, options))
  }

  function WithOption(tmp: string, options: seq<SubOption>): seq<SubOption> {
    if tmp == [] then options
    else
      match ParseSub(CString(tmp))
      case None => options
      case Some(o) => [o] + options
  }

  // ---- when the assertion fails ----

  /** After the quote that opened a sub-option there is no other quote up to the end of the
      parameter, except those that open a continued line (and what directly follows one),
      and the last of these ends the parameter. */
  predicate Dangles(str: string, pos: nat)
    requires pos <= |str|
    decreases |str| - pos
  {
    if pos == |str| || str[pos] == '"' then false
    else if str[pos] != '\n' then Dangles(str, pos + 1)
    else
      var next := pos + 1 + Span(IsSpace, str[pos + 1..]);
      Continues(str, pos) && next < |str| && str[next] == '"' && (next + 1 == |str| || Dangles(str, next + 2))
  }

  // A first character in front of the remembered quote stays.
  lemma {:induction false} FirstStays(str: string, pos: nat, tmp: string, lastq: int)
    requires pos <= |str| && NO_QUOTE <= lastq < |tmp| && tmp != [] && lastq != 0
    ensures var r := Scan(str, pos, tmp, lastq);
            r.Complete? ==> r.tmp != [] && r.tmp[0] == tmp[0]
    decreases |str| - pos
  {
    hide Span;
    if pos == |str| {
    } else if str[pos] == '"' {
      FirstStays(str, pos + 1, tmp + ['"'], |tmp|);
    } else if str[pos] != '\n' {
      FirstStays(str, pos + 1, tmp + [str[pos]], lastq);
    } else {
      var next := pos + 1 + Span(IsSpace, str[pos + 1..]);
      if Continues(str, pos) && next + 1 < |str| && str[next] == '"' && lastq != NO_QUOTE {
        FirstStays(str, next + 2, tmp[..lastq] + [str[next + 1]], lastq);
      }
    }
  }

  lemma {:induction false} DanglesExactly(str: string, pos: nat, tmp: string)
    requires pos <= |str| && NulFree(str) && tmp != [] && tmp[0] != '\0'
    ensures var r := Scan(str, pos, tmp, 0);
            r.Complete? && EmptyLine(r.tmp) <==> Dangles(str, pos)
    decreases |str| - pos
  {
    hide Span;
    if pos == |str| {
    } else if str[pos] == '"' {
      FirstStays(str, pos + 1, tmp + ['"'], |tmp|);
    } else if str[pos] != '\n' {
      DanglesExactly(str, pos + 1, tmp + [str[pos]]);
    } else {
      var next := pos + 1 + Span(IsSpace, str[pos + 1..]);
      if Continues(str, pos) && next + 1 < |str| && str[next] == '"' {
        DanglesExactly(str, next + 2, tmp[..0] + [str[next + 1]]);
      }
    }
  }

  /** A sub-option reaches parseSubOption as an empty line exactly when it opens with a
      quote that is left dangling. */
  lemma AbortsExactly(str: string, start: nat)
    requires start < |str| && NulFree(str) && str[start] != '\n'
    ensures var r := Scan(str, start, [], NO_QUOTE);
            r.Complete? && EmptyLine(r.tmp) <==> str[start] == '"' && Dangles(str, start + 1)
  {
    if str[start] == '"' {
      DanglesExactly(str, start + 1, [] + ['"']);
    } else {
      FirstStays(str, start + 1, [] + [str[start]], NO_QUOTE);
    }
  }

  // Where the inner loop stops, None for a broken continuation. Of the buffer it matters
  // only whether a quote has been seen.
  function StopAt(str: string, pos: nat, quoted: bool): (r: Option<nat>)
    requires pos <= |str|
    ensures r.Some? ==> pos <= r.value <= |str|
    decreases |str| - pos
  {
    if pos == |str| then Some(pos)
    else if str[pos] == '"' then StopAt(str, pos + 1, true)
    else if str[pos] != '\n' then StopAt(str, pos + 1, quoted)
    else if !Continues(str, pos) then Some(pos)
    else
      var next := pos + 1 + Span(IsSpace, str[pos + 1..]);
      if next < |str| && str[next] == '"' && quoted then
        if next + 1 == |str| then Some(|str|) else StopAt(str, next + 2, quoted)
      else None
  }

  lemma {:induction false} ScanStops(str: string, pos: nat, tmp: string, lastq: int)
    requires pos <= |str| && NO_QUOTE <= lastq < |tmp|
    ensures var r := Scan(str, pos, tmp, lastq);
            StopAt(str, pos, lastq != NO_QUOTE) == if r.Complete? then Some(r.pos) else None
    decreases |str| - pos
  {
    hide Span;
    if pos == |str| {
    } else if str[pos] == '"' {
      ScanStops(str, pos + 1, tmp + ['"'], |tmp|);
    } else if str[pos] != '\n' {
      ScanStops(str, pos + 1, tmp + [str[pos]], lastq);
    } else {
      var next := pos + 1 + Span(IsSpace, str[pos + 1..]);
      if Continues(str, pos) && next + 1 < |str| && str[next] == '"' && lastq != NO_QUOTE {
        ScanStops(str, next + 2, tmp[..lastq] + [str[next + 1]], lastq);
      }
    }
  }

  /** Some sub-option from pos on, before any broken continuation, opens with a quote that
      is left dangling. */
  predicate LeftDangling(str: string, pos: nat)
    requires pos <= |str|
    decreases |str| - pos
  {
    var start := pos + Span(IsSpace, str[pos..]);
    start < |str| &&
    if str[start] == '"' && Dangles(str, start + 1) then true
    else
      var stop := StopAt(str, start, false);
      stop.Some? && stop.value > pos && LeftDangling(str, stop.value)
  }

  /** A parameter ends the program exactly when one of its sub-options is left dangling. */
  lemma {:induction false} ParameterAbortsExactly(str: string, pos: nat, options: seq<SubOption>)
    requires pos <= |str| && NulFree(str)
    ensures Multi(str, pos, options).None? <==> LeftDangling(str, pos)
    decreases |str| - pos
  {
    hide Scan, StopAt, Dangles, Span, EmptyLine, WithOption;
    var start := pos + Span(IsSpace, str[pos..]);
    if start < |str| {
      assert !IsSpace(str[start]);
      AbortsExactly(str, start);
      ScanStops(str, start, [], NO_QUOTE);
      var r := Scan(str, start, [], NO_QUOTE);
      if r.Complete? && !EmptyLine(r.tmp) {
        ParameterAbortsExactly(str, r.pos, WithOption(r.tmp, options));
      }
    }
  }

  /** The shortest such parameter: a quote, a plus, a newline, a quote. */
  lemma LoneQuotesAbort()
    ensures Multi("\"+\n\"", 0, []) == None
  {
    var str := "\"+\n\"";
    assert str[0] == '"' && str[1] == '+' && str[2] == '\n' && str[3] == '"';
    SpanOf(IsSpace, "", str);
    assert "" + str == str[0..];
    SpanOf(IsSpace, "", "\"");
    assert str[3..] == "" + "\"";
    assert Dangles(str, 2);
    assert Dangles(str, 1);
    AbortsExactly(str, 0);
  }

  lemma LineIsThere(tmp: string)
    ensures CString(tmp) == [] <==> tmp == [] || EmptyLine(tmp)
  {
  }

  method ParseMultiOption(str: string) returns (options: seq<SubOption>, aborted: bool)
    requires |str| < MAX_PARAM_LEN
    ensures Multi(str, 0, []) == if aborted then None else Some(options)
  {
    options, aborted := [], false;
    var tmp := new char[MAX_PARAM_LEN];
    var pos := 0;
    while pos < |str|
      invariant 0 <= pos <= |str|
      invariant Multi(str, pos, options) == Multi(str, 0, [])
      decreases |str| - pos
    {
      pos := SkipWhitespaceAt(str, pos);
      if pos == |str| {
        break;
      }
      var ok, len, next := ScanOption(str, pos, tmp);
      if !ok {
        return;
      }
      if len != 0 {
        var line := ReadCString(tmp, len);
        LineIsThere(tmp[..len]);
        if line == [] {
          return [], true;   // assert(line && *line)
        }
        var o := ParseSubOption(line);
        if o.Some? {
          options := [o.value] + options;
        }
      }
      pos := next;
    }
  }

  method SkipWhitespaceAt(str: string, start: nat) returns (pos: nat)
    requires start <= |str|
    ensures pos == start + Span(IsSpace, str[start..])
    ensures pos < |str| ==> !IsSpace(str[pos])
  {
    pos := Advance(IsSpace, str, start);
  }

  method ReadCString(tmp: array<char>, len: nat) returns (line: string)
    requires len < tmp.Length
    ensures line == CString(tmp[..len])
  {
    line := [];
    while |line| < len && tmp[|line|] != '\0'
      invariant |line| <= len && line == tmp[..|line|]
      invariant forall i :: 0 <= i < |line| ==> line[i] != '\0'
    {
      line := line + [tmp[|line|]];
    }
    SpanFrom(Unlike('\0'), tmp[..len], |line|);
  }

  lemma ScanStep(str: string, pos: nat, tmp: string, lastq: int)
    requires pos < |str| && NO_QUOTE <= lastq < |tmp|
    ensures str[pos] == '"' ==> Scan(str, pos, tmp, lastq) == Scan(str, pos + 1, tmp + ['"'], |tmp|)
    ensures str[pos] != '"' && str[pos] != '\n' ==>
              Scan(str, pos, tmp, lastq) == Scan(str, pos + 1, tmp + [str[pos]], lastq)
    ensures str[pos] == '\n' && Continues(str, pos) ==>
              var next := pos + 1 + Span(IsSpace, str[pos + 1..]);
              Scan(str, pos, tmp, lastq) ==
              if next < |str| && str[next] == '"' && lastq != NO_QUOTE then Resume(str, next + 1, tmp[..lastq], lastq)
              else Broken
  {
    hide Span, Resume;
  }

  lemma ScanEnd(str: string, pos: nat, tmp: string, lastq: int)
    requires pos <= |str| && NO_QUOTE <= lastq < |tmp|
    requires pos < |str| ==> str[pos] == '\n' && !Continues(str, pos)
    ensures Scan(str, pos, tmp, lastq) == Complete(tmp, pos)
  {
  }

  // Up to the end of a line everything is copied; it matters whether there was a quote.
  lemma {:induction false} ScanLine(str: string, pos: nat, tmp: string, lastq: int, t: string, rest: string)
    returns (q: int)
    requires pos <= |str| && NO_QUOTE <= lastq < |tmp|
    requires str[pos..] == t + rest && '\n' !in t
    ensures pos + |t| <= |str| && str[pos + |t|..] == rest
    ensures NO_QUOTE <= q < |tmp + t| && (q == NO_QUOTE <==> lastq == NO_QUOTE && '"' !in t)
    ensures Scan(str, pos, tmp, lastq) == Scan(str, pos + |t|, tmp + t, q)
    decreases |t|
  {
    assert |str[pos..]| == |t| + |rest|;
    if t == [] {
      assert tmp + t == tmp;
      q := lastq;
    } else {
      assert str[pos] == str[pos..][0] == t[0];
      assert str[pos + 1..] == str[pos..][1..] == t[1..] + rest;
      q := ScanLine(str, pos + 1, tmp + [t[0]], if t[0] == '"' then |tmp| else lastq, t[1..], rest);
      assert tmp + [t[0]] + t[1..] == tmp + t;
    }
  }

  /** After a continuation mark the next line must start with a quote, and there must have
      been one before; otherwise the scan is broken. */
  lemma BrokenExactly(str: string, start: nat, line: string, mark: char, indent: string, rest: string)
    requires start <= |str| && str[start..] == line + [mark] + ("\n" + (indent + rest))
    requires '\n' !in line && (mark == '+' || mark == '\\')
    requires AllSpace(indent) && (rest != [] ==> !IsSpace(rest[0]))
    requires rest == [] || rest[0] != '"' || '"' !in line
    ensures Scan(str, start, [], NO_QUOTE) == Broken
  {
    hide Scan, Resume, Span, IsSpace;
    var t := line + [mark];
    var q := ScanLine(str, start, [], NO_QUOTE, t, "\n" + (indent + rest));
    var nl := start + |t|;
    assert str[nl] == str[nl..][0] && str[nl - 1] == str[start..][|t| - 1] == mark;
    assert str[nl + 1..] == str[nl..][1..] == indent + rest;
    SpanOf(IsSpace, indent, rest);
    assert str[nl + 1 + |indent|..] == rest by { assert (indent + rest)[|indent|..] == rest; }
    assert |str[nl + 1..]| == |indent| + |rest|;
    assert rest != [] ==> str[nl + 1 + |indent|] == rest[0];
    ScanStep(str, nl, [] + t, q);
  }

  // One character more in the buffer.
  method Push(tmp: array<char>, n: nat, c: char)
    requires n < tmp.Length
    modifies tmp
    ensures tmp[..n + 1] == old(tmp[..n]) + [c]
  {
    tmp[n] := c;
  }

  /** The inner loop, on the fixed buffer: tmp_pos never passes line_pos, so every write
      stays inside. */
  method ScanOption(str: string, start: nat, tmp: array<char>) returns (ok: bool, tmpPos: nat, pos: nat)
    requires start < |str| < MAX_PARAM_LEN == tmp.Length
    requires str[start] != '\n'
    modifies tmp
    ensures tmpPos <= pos <= |str| || (!ok && tmpPos <= |str|)
    ensures var r := Scan(str, start, [], NO_QUOTE);
            if ok then tmpPos < tmp.Length && r == Complete(tmp[..tmpPos], pos) else r.Broken?
  {
    hide Span, IsSpace, Scan;
    pos, tmpPos := start, 0;
    var lastq: int := NO_QUOTE;
    assert tmp[..0] == [];
    while pos < |str|
      invariant start <= pos <= |str|
      invariant tmpPos <= pos && NO_QUOTE <= lastq < tmpPos
      invariant pos == start ==> tmpPos == 0
      invariant Scan(str, pos, tmp[..tmpPos], lastq) == Scan(str, start, [], NO_QUOTE)
      decreases |str| - pos
    {
      ScanStep(str, pos, tmp[..tmpPos], lastq);
      if str[pos] == '"' {
        lastq := tmpPos;
      } else if str[pos] == '\n' {
        if str[pos - 1] == '\\' || str[pos - 1] == '+' {
          pos := SkipWhitespaceAt(str, pos + 1);
          if pos < |str| && str[pos] == '"' && lastq != NO_QUOTE {
            assert tmp[..tmpPos][..lastq] == tmp[..lastq];
            tmpPos := lastq;
            pos := pos + 1;
            if pos == |str| {
              Push(tmp, tmpPos, '\0');
              return true, tmpPos + 1, pos;
            }
          } else {
            return false, tmpPos, pos;
          }
        } else {
          break;
        }
      }
      Push(tmp, tmpPos, str[pos]);
      tmpPos := tmpPos + 1;
      pos := pos + 1;
    }
    ScanEnd(str, pos, tmp[..tmpPos], lastq);
    return true, tmpPos, pos;
  }
}
