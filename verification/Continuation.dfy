/**
 Splitting a quoted sub-option value over several lines changes nothing: the proof
 that the line joining of parseMultiOption preserves meaning.
 */
module Continuation {
  import opened CStrings
  import opened Wrappers
  import opened SubOptions

  // The end of one line and the start of the next: a quote, anything, a mark, the
  // newline, white space, a quote.
  datatype Splice = Splice(gap: string, mark: char, indent: string)

  datatype Piece = Piece(join: Splice, text: string)

  // A sub-option as written: a quoted value in one or more pieces, or no quotes at all.
  datatype SubText = Quoted(head: string, first: string, more: seq<Piece>, tail: string) | Plain(text: string)

  // Sub-options with the white space in front of each.
  datatype Item = Item(lead: string, sub: SubText)

  predicate Calm(s: string) {
    forall i :: 0 <= i < |s| ==> s[i] != '"' && s[i] != '\n'
  }

  predicate IsMark(c: char) {
    c == '+' || c == '\\'
  }

  predicate PieceOK(p: Piece) {
    Calm(p.join.gap) && IsMark(p.join.mark) && Calm(p.text) &&
    forall i :: 0 <= i < |p.join.indent| ==> IsSpace(p.join.indent[i])
  }

  // The text up to the end of a sub-option must not itself end in a mark.
  predicate EndsUnmarked(s: string) {
    s != [] ==> !IsMark(s[|s| - 1])
  }

  predicate SubTextOK(t: SubText) {
    match t
    case Quoted(head, first, more, tail) =>
      && Calm(head) && Calm(first) && Calm(tail) && EndsUnmarked(tail)
      && (head != [] ==> !IsSpace(head[0]))
      && forall i :: 0 <= i < |more| ==> PieceOK(more[i])
    case Plain(text) => text != [] && Calm(text) && !IsSpace(text[0]) && EndsUnmarked(text)
  }

  function Opening(s: Splice): string {
    "\"" + (s.gap + ([s.mark] + ("\n" + (s.indent + "\""))))
  }

  function Spread(more: seq<Piece>): string {
    if more == [] then "\"" else Opening(more[0].join) + (more[0].text + Spread(more[1..]))
  }

  function Gathered(more: seq<Piece>): string {
    if more == [] then "" else more[0].text + Gathered(more[1..])
  }

  // The sub-option as written, and what it stands for on one line.
  function Written(t: SubText): string {
    match t
    case Quoted(head, first, more, tail) => head + ("\"" + (first + (Spread(more) + tail)))
    case Plain(text) => text
  }

  function OneLine(t: SubText): string {
    match t
    case Quoted(head, first, more, tail) => head + "\"" + (first + Gathered(more)) + "\"" + tail
    case Plain(text) => text
  }

  lemma {:induction false} ScanCalm(str: string, pos: nat, tmp: string, lastq: int, t: string, rest: string)
    requires pos <= |str| && NO_QUOTE <= lastq < |tmp|
    requires str[pos..] == t + rest && Calm(t)
    ensures pos + |t| <= |str| && str[pos + |t|..] == rest
    ensures Scan(str, pos, tmp, lastq) == Scan(str, pos + |t|, tmp + t, lastq)
    decreases |t|
  {
    assert |str[pos..]| == |t| + |rest|;
    if t == [] {
      assert tmp + t == tmp;
    } else {
      assert str[pos] == str[pos..][0] == t[0];
      assert str[pos + 1..] == str[pos..][1..] == t[1..] + rest;
      ScanCalm(str, pos + 1, tmp + [t[0]], lastq, t[1..], rest);
      assert tmp + [t[0]] + t[1..] == tmp + t;
      assert pos + 1 + |t[1..]| == pos + |t|;
    }
  }

  lemma ScanQuote(str: string, pos: nat, tmp: string, lastq: int, rest: string)
    requires pos <= |str| && NO_QUOTE <= lastq < |tmp|
    requires str[pos..] == "\"" + rest
    ensures pos < |str| && str[pos + 1..] == rest
    ensures Scan(str, pos, tmp, lastq) == Scan(str, pos + 1, tmp + "\"", |tmp|)
  {
    assert str[pos] == str[pos..][0] == '"';
    assert str[pos + 1..] == str[pos..][1..] == rest;
  }

  // Copying the first character after a joint unseen makes no difference: if it is a
  // quote, it goes exactly where the remembered one was.
  lemma ResumeCopies(str: string, pos: nat, tmp: string, t: string, rest: string) returns (q: int)
    requires pos <= |str| && str[pos..] == t + ("\"" + rest) && Calm(t)
    ensures pos + |t| < |str| && str[pos + |t|..] == "\"" + rest
    ensures NO_QUOTE <= q < |tmp + t| && Resume(str, pos, tmp, |tmp|) == Scan(str, pos + |t|, tmp + t, q)
  {
    assert |str[pos..]| == |t| + 1 + |rest|;
    assert str[pos] == str[pos..][0];
    if t == [] {
      assert tmp + t == tmp;
      assert str[pos..] == "\"" + rest;
      ScanQuote(str, pos, tmp, NO_QUOTE, rest);
      q := NO_QUOTE;
    } else {
      assert str[pos + 1..] == str[pos..][1..] == t[1..] + ("\"" + rest);
      ScanCalm(str, pos + 1, tmp + [t[0]], |tmp|, t[1..], "\"" + rest);
      assert tmp + [t[0]] + t[1..] == tmp + t;
      assert pos + 1 + |t[1..]| == pos + |t|;
      q := |tmp|;
    }
  }

  lemma ScanNewline(str: string, nl: nat, tmp: string, lastq: int, indent: string, rest: string)
    requires nl <= |str| && 0 <= lastq < |tmp|
    requires str[nl..] == "\n" + (indent + ("\"" + rest))
    requires nl > 0 && IsMark(str[nl - 1]) && forall i :: 0 <= i < |indent| ==> IsSpace(indent[i])
    ensures nl + |indent| + 2 <= |str| && str[nl + |indent| + 2..] == rest
    ensures Scan(str, nl, tmp, lastq) == Resume(str, nl + |indent| + 2, tmp[..lastq], lastq)
  {
    hide Resume;
    var after := indent + ("\"" + rest);
    assert |str[nl..]| == |indent| + 2 + |rest|;
    assert str[nl] == str[nl..][0] == '\n';
    assert str[nl + 1..] == str[nl..][1..] == after;
    SpanOf(IsSpace, indent, "\"" + rest);
    var next := nl + 1 + |indent|;
    assert str[next] == str[nl + 1..][|indent|] == '"';
    assert str[next + 1..] == str[nl + 1..][|indent| + 1..] == rest;
  }

  // From an opened line end to the text of the next line.
  lemma ScanJoint(str: string, pos: nat, tmp: string, lastq: int, j: Splice, rest: string)
    requires pos <= |str| && NO_QUOTE <= lastq < |tmp|
    requires str[pos..] == Opening(j) + rest
    requires Calm(j.gap) && IsMark(j.mark) && forall i :: 0 <= i < |j.indent| ==> IsSpace(j.indent[i])
    ensures pos + |Opening(j)| <= |str| && str[pos + |Opening(j)|..] == rest
    ensures Scan(str, pos, tmp, lastq) == Resume(str, pos + |Opening(j)|, tmp, |tmp|)
  {
    hide Scan, Resume;
    var after := "\n" + (j.indent + ("\"" + rest));
    var line := j.gap + [j.mark];
    assert Opening(j) + rest == "\"" + (line + after);
    ScanQuote(str, pos, tmp, lastq, line + after);
    ScanCalm(str, pos + 1, tmp + "\"", |tmp|, line, after);
    var nl := pos + 1 + |line|;
    assert str[nl - 1] == str[pos + 1..][|line| - 1] == j.mark;
    ScanNewline(str, nl, tmp + "\"" + line, |tmp|, j.indent, rest);
    assert (tmp + "\"" + line)[..|tmp|] == tmp;
    assert pos + |Opening(j)| == nl + |j.indent| + 2;
  }

  // One line end and the piece after it: the piece is appended to the buffer.
  lemma ScanPiece(str: string, pos: nat, tmp: string, lastq: int, p: Piece, rest: string) returns (q: int)
    requires pos <= |str| && NO_QUOTE <= lastq < |tmp|
    requires str[pos..] == Opening(p.join) + (p.text + ("\"" + rest)) && PieceOK(p)
    ensures pos + |Opening(p.join)| + |p.text| <= |str|
    ensures str[pos + |Opening(p.join)| + |p.text|..] == "\"" + rest
    ensures NO_QUOTE <= q < |tmp + p.text|
    ensures Scan(str, pos, tmp, lastq) == Scan(str, pos + |Opening(p.join)| + |p.text|, tmp + p.text, q)
  {
    hide Opening, Scan, Resume;
    ScanJoint(str, pos, tmp, lastq, p.join, p.text + ("\"" + rest));
    q := ResumeCopies(str, pos + |Opening(p.join)|, tmp, p.text, rest);
  }

  // What follows the opening quote of a spread value, up to and including its last quote.
  lemma {:induction false} ScanSpread(str: string, pos: nat, tmp: string, lastq: int, more: seq<Piece>, rest: string)
    requires pos <= |str| && NO_QUOTE <= lastq < |tmp|
    requires str[pos..] == Spread(more) + rest
    requires forall i :: 0 <= i < |more| ==> PieceOK(more[i])
    ensures pos + |Spread(more)| <= |str| && str[pos + |Spread(more)|..] == rest
    ensures Scan(str, pos, tmp, lastq) ==
            Scan(str, pos + |Spread(more)|, tmp + Gathered(more) + "\"", |tmp + Gathered(more)|)
    decreases |more|
  {
    hide Opening, Scan, Spread, Gathered;
    if more == [] {
      NoPieces();
      ScanQuote(str, pos, tmp, lastq, rest);
      assert tmp + Gathered(more) == tmp;
    } else {
      var q, next := ScanFirst(str, pos, tmp, lastq, more, rest);
      ScanSpread(str, next, tmp + more[0].text, q, more[1..], rest);
      GatheredParts(tmp, more);
    }
  }

  // The first of several pieces.
  lemma ScanFirst(str: string, pos: nat, tmp: string, lastq: int, more: seq<Piece>, rest: string)
    returns (q: int, next: nat)
    requires pos <= |str| && NO_QUOTE <= lastq < |tmp|
    requires more != [] && str[pos..] == Spread(more) + rest && PieceOK(more[0])
    ensures next <= |str| && str[next..] == Spread(more[1..]) + rest
    ensures next + |Spread(more[1..])| == pos + |Spread(more)|
    ensures NO_QUOTE <= q < |tmp + more[0].text|
    ensures Scan(str, pos, tmp, lastq) == Scan(str, next, tmp + more[0].text, q)
  {
    hide Opening, Scan, Spread, SpreadAfter, PieceOK;
    SpreadParts(more, rest);
    q := ScanPiece(str, pos, tmp, lastq, more[0], SpreadAfter(more[1..]) + rest);
    next := pos + |Opening(more[0].join)| + |more[0].text|;
  }

  lemma NoPieces()
    ensures Spread([]) == "\"" && Gathered([]) == ""
  {
  }

  lemma SpreadParts(more: seq<Piece>, rest: string)
    requires more != []
    ensures var rest1 := SpreadAfter(more[1..]) + rest;
            && Spread(more) + rest == Opening(more[0].join) + (more[0].text + ("\"" + rest1))
            && Spread(more[1..]) + rest == "\"" + rest1
    ensures |Spread(more)| == |Opening(more[0].join)| + |more[0].text| + |Spread(more[1..])|
  {
    hide Opening, SpreadAfter;
    SpreadStarts(more[1..]);
    assert Spread(more) == Opening(more[0].join) + (more[0].text + ("\"" + SpreadAfter(more[1..])));
    Regroup(Opening(more[0].join), more[0].text, SpreadAfter(more[1..]), rest);
  }

  lemma GatheredParts(tmp: string, more: seq<Piece>)
    requires more != []
    ensures tmp + more[0].text + Gathered(more[1..]) == tmp + Gathered(more)
  {
  }

  lemma Regroup(o: string, x: string, a: string, rest: string)
    ensures o + (x + ("\"" + a)) + rest == o + (x + ("\"" + (a + rest)))
  {
  }

  // A spread value starts with the quote that ends its first line.
  function SpreadAfter(more: seq<Piece>): string {
    if more == [] then "" else Opening(more[0].join)[1..] + (more[0].text + Spread(more[1..]))
  }

  lemma SpreadStarts(more: seq<Piece>)
    ensures Spread(more) == "\"" + SpreadAfter(more)
  {
  }

  lemma LastOfConcat(s: string, t: string)
    requires t != []
    ensures (s + t)[|s + t| - 1] == t[|t| - 1]
  {
  }

  lemma WrittenShape(t: SubText)
    requires SubTextOK(t)
    ensures Written(t) != [] && !IsSpace(Written(t)[0]) && EndsUnmarked(Written(t))
  {
    if t.Quoted? {
      hide Spread, Calm, PieceOK;
      SpreadEnds(t.more);
      var front := t.head + ("\"" + t.first);
      assert Written(t) == front + (Spread(t.more) + t.tail);
      LastOfConcat(front, Spread(t.more) + t.tail);
      if t.tail == [] {
        assert Spread(t.more) + t.tail == Spread(t.more);
      } else {
        LastOfConcat(Spread(t.more), t.tail);
      }
      assert Written(t)[0] == if t.head == [] then '"' else t.head[0];
    }
  }

  lemma {:induction false} SpreadEnds(more: seq<Piece>)
    ensures Spread(more) != [] && Spread(more)[|Spread(more)| - 1] == '"'
  {
    if more != [] {
      SpreadEnds(more[1..]);
      LastOfConcat(Opening(more[0].join) + more[0].text, Spread(more[1..]));
      assert Spread(more) == Opening(more[0].join) + more[0].text + Spread(more[1..]);
    }
  }

  // The name part, the opening quote and the first piece.
  lemma ScanOpening(str: string, pos: nat, head: string, first: string, rest: string)
    requires pos <= |str| && str[pos..] == head + ("\"" + (first + rest))
    requires Calm(head) && Calm(first)
    ensures pos + |head| + 1 + |first| <= |str| && str[pos + |head| + 1 + |first|..] == rest
    ensures Scan(str, pos, [], NO_QUOTE) == Scan(str, pos + |head| + 1 + |first|, head + "\"" + first, |head|)
  {
    hide Scan;
    ScanCalm(str, pos, [], NO_QUOTE, head, "\"" + (first + rest));
    assert [] + head == head;
    ScanQuote(str, pos + |head|, head, NO_QUOTE, first + rest);
    ScanCalm(str, pos + |head| + 1, head + "\"", |head|, first, rest);
  }

  // The rest of the value, its closing quote, and what follows on that line.
  lemma ScanClosing(str: string, pos: nat, tmp: string, lastq: int, more: seq<Piece>, tail: string, rest: string)
    returns (q: int)
    requires pos <= |str| && NO_QUOTE <= lastq < |tmp|
    requires str[pos..] == Spread(more) + (tail + rest)
    requires Calm(tail) && forall i :: 0 <= i < |more| ==> PieceOK(more[i])
    ensures pos + |Spread(more)| + |tail| <= |str| && str[pos + |Spread(more)| + |tail|..] == rest
    ensures NO_QUOTE <= q < |tmp + Gathered(more) + "\"" + tail|
    ensures Scan(str, pos, tmp, lastq) ==
            Scan(str, pos + |Spread(more)| + |tail|, tmp + Gathered(more) + "\"" + tail, q)
  {
    hide Scan, Spread, Gathered, PieceOK;
    ScanSpread(str, pos, tmp, lastq, more, tail + rest);
    q := |tmp + Gathered(more)|;
    ScanCalm(str, pos + |Spread(more)|, tmp + Gathered(more) + "\"", q, tail, rest);
  }

  lemma ScanWhole(str: string, pos: nat, t: SubText, rest: string) returns (q: int)
    requires SubTextOK(t) && pos <= |str| && str[pos..] == Written(t) + rest
    ensures pos + |Written(t)| <= |str| && str[pos + |Written(t)|..] == rest
    ensures NO_QUOTE <= q < |OneLine(t)|
    ensures Scan(str, pos, [], NO_QUOTE) == Scan(str, pos + |Written(t)|, OneLine(t), q)
  {
    hide Scan, Spread, Gathered, Written, OneLine, Calm, PieceOK, EndsUnmarked;
    if t.Plain? {
      PlainParts(t);
      q := ScanPlain(str, pos, t.text, rest);
    } else {
      WrittenParts(t, rest);
      q := ScanQuoted(str, pos, t.head, t.first, t.more, t.tail, rest);
    }
  }

  lemma PlainParts(t: SubText)
    requires t.Plain?
    ensures Written(t) == t.text && OneLine(t) == t.text
  {
  }

  lemma ScanPlain(str: string, pos: nat, text: string, rest: string) returns (q: int)
    requires Calm(text) && pos <= |str| && str[pos..] == text + rest
    ensures pos + |text| <= |str| && str[pos + |text|..] == rest
    ensures q == NO_QUOTE && Scan(str, pos, [], NO_QUOTE) == Scan(str, pos + |text|, text, q)
  {
    hide Scan, Calm;
    ScanCalm(str, pos, [], NO_QUOTE, text, rest);
    assert [] + text == text;
    q := NO_QUOTE;
  }

  lemma ScanQuoted(str: string, pos: nat, head: string, first: string, more: seq<Piece>, tail: string, rest: string)
    returns (q: int)
    requires Calm(head) && Calm(first) && Calm(tail) && forall i :: 0 <= i < |more| ==> PieceOK(more[i])
    requires pos <= |str| && str[pos..] == head + ("\"" + (first + (Spread(more) + (tail + rest))))
    ensures var n := |head| + 1 + |first| + |Spread(more)| + |tail|;
            var line := head + "\"" + first + Gathered(more) + "\"" + tail;
            && pos + n <= |str| && str[pos + n..] == rest
            && NO_QUOTE <= q < |line|
            && Scan(str, pos, [], NO_QUOTE) == Scan(str, pos + n, line, q)
  {
    hide Scan, Spread, Gathered, Calm, PieceOK;
    var tmp := head + "\"" + first;
    var next := pos + |head| + 1 + |first|;
    ScanOpening(str, pos, head, first, Spread(more) + (tail + rest));
    q := ScanClosing(str, next, tmp, |head|, more, tail, rest);
  }

  lemma WrittenParts(t: SubText, rest: string)
    requires t.Quoted?
    ensures Written(t) + rest == t.head + ("\"" + (t.first + (Spread(t.more) + (t.tail + rest))))
    ensures |Written(t)| == |t.head| + 1 + |t.first| + |Spread(t.more)| + |t.tail|
    ensures OneLine(t) == t.head + "\"" + t.first + Gathered(t.more) + "\"" + t.tail
  {
    hide Spread, Gathered;
  }

  lemma ScanSubText(str: string, pos: nat, t: SubText, rest: string)
    requires SubTextOK(t) && pos <= |str| && str[pos..] == Written(t) + rest
    requires rest != [] ==> rest[0] == '\n'
    ensures pos + |Written(t)| <= |str| && str[pos + |Written(t)|..] == rest
    ensures Scan(str, pos, [], NO_QUOTE) == Complete(OneLine(t), pos + |Written(t)|)
  {
    hide Scan, Written, OneLine;
    var q := ScanWhole(str, pos, t, rest);
    WrittenShape(t);
    var end := pos + |Written(t)|;
    assert str[end - 1] == str[pos..][|Written(t)| - 1];
    assert end < |str| ==> str[end] == str[end..][0];
    ScanEnd(str, end, OneLine(t), q);
  }

  // ---- whole parameters ----

  predicate ItemOK(i: Item) {
    SubTextOK(i.sub) && AllSpace(i.lead) && NulFree(Written(i.sub))
  }

  // A sub-option ends at a newline.
  predicate StartsNewLine(s: string) {
    s != [] && s[0] == '\n'
  }

  predicate ItemsOK(items: seq<Item>) {
    forall i :: 0 <= i < |items| ==> ItemOK(items[i]) && (i > 0 ==> StartsNewLine(items[i].lead))
  }

  function PrintItems(items: seq<Item>, end: string): string {
    if items == [] then end else items[0].lead + (Written(items[0].sub) + PrintItems(items[1..], end))
  }

  /** What the splitter should deliver: each sub-option as if written on one line. */
  function Delivered(items: seq<Item>, options: seq<SubOption>): seq<SubOption> {
    if items == [] then options else Delivered(items[1..], WithOption(OneLine(items[0].sub), options))
  }

  lemma SkipLead(str: string, pos: nat, lead: string, rest: string)
    requires pos <= |str| && str[pos..] == lead + rest && AllSpace(lead)
    requires rest != [] ==> !IsSpace(rest[0])
    ensures pos + |lead| <= |str| && str[pos + |lead|..] == rest
    ensures Span(IsSpace, str[pos..]) == |lead|
  {
    assert |str[pos..]| == |lead| + |rest|;
    SpanOf(IsSpace, lead, rest);
    assert str[pos + |lead|..] == str[pos..][|lead|..];
  }

  // After the items the splitter stands at what follows them.
  lemma {:induction false} MultiRuns(str: string, pos: nat, items: seq<Item>, end: string, options: seq<SubOption>)
    returns (next: nat)
    requires ItemsOK(items) && (items != [] && end != [] ==> StartsNewLine(end))
    requires pos <= |str| && str[pos..] == PrintItems(items, end)
    ensures next <= |str| && str[next..] == end
    ensures Multi(str, pos, options) == Multi(str, next, Delivered(items, options))
    decreases |items|
  {
    hide Written, OneLine, SubTextOK, WithOption, Span, Multi;
    if items == [] {
      next := pos;
    } else {
      var i := items[0];
      var rest := PrintItems(items[1..], end);
      assert ItemOK(i);
      assert items[1..] != [] ==> items[1..][0] == items[1];
      MultiStep(str, pos, i, rest, options);
      assert forall j :: 0 <= j < |items[1..]| ==> items[1..][j] == items[j + 1];
      next := MultiRuns(str, pos + |i.lead| + |Written(i.sub)|, items[1..], end, WithOption(OneLine(i.sub), options));
    }
  }

  lemma MultiDelivers(str: string, items: seq<Item>, end: string)
    requires ItemsOK(items) && AllSpace(end) && (items != [] && end != [] ==> StartsNewLine(end))
    requires str == PrintItems(items, end)
    ensures Multi(str, 0, []) == Some(Delivered(items, []))
  {
    hide Multi, PrintItems, Delivered;
    assert str[0..] == str;
    var next := MultiRuns(str, 0, items, end, []);
    MultiEnds(str, next, end, Delivered(items, []));
  }

  /** A broken continuation ends the list: the sub-options before it are delivered, it and
      everything after it is not. */
  lemma BreakKeepsEarlier(items: seq<Item>, lead: string, line: string, mark: char, indent: string, rest: string)
    requires ItemsOK(items) && AllSpace(lead) && (items != [] ==> StartsNewLine(lead))
    requires '\n' !in line && (line != [] ==> !IsSpace(line[0])) && (mark == '+' || mark == '\\')
    requires AllSpace(indent) && (rest != [] ==> !IsSpace(rest[0]))
    requires rest == [] || rest[0] != '"' || '"' !in line
    ensures var str := PrintItems(items, lead + (line + [mark] + ("\n" + (indent + rest))));
            Multi(str, 0, []) == Some(Delivered(items, []))
  {
    hide Multi, PrintItems, Delivered, Scan, Span;
    var bad := line + [mark] + ("\n" + (indent + rest));
    var str := PrintItems(items, lead + bad);
    assert str[0..] == str;
    var next := MultiRuns(str, 0, items, lead + bad, []);
    SkipLead(str, next, lead, bad);
    BrokenExactly(str, next + |lead|, line, mark, indent, rest);
    MultiBreaks(str, next, next + |lead|, Delivered(items, []));
  }

  lemma MultiBreaks(str: string, pos: nat, start: nat, options: seq<SubOption>)
    requires pos <= |str| && start == pos + Span(IsSpace, str[pos..]) && start < |str|
    requires Scan(str, start, [], NO_QUOTE) == Broken
    ensures Multi(str, pos, options) == Some(options)
  {
    hide Span, Scan;
  }

  lemma MultiEnds(str: string, pos: nat, end: string, options: seq<SubOption>)
    requires pos <= |str| && str[pos..] == end && AllSpace(end)
    ensures Multi(str, pos, options) == Some(options)
  {
    assert str[pos..] == end + "";
    SkipLead(str, pos, end, "");
  }

  // One turn of the outer loop, on a sub-option that is scanned to its end.
  lemma MultiUnfolds(str: string, pos: nat, start: nat, tmp: string, next: nat, options: seq<SubOption>)
    requires pos <= |str| && start == pos + Span(IsSpace, str[pos..]) && start < |str|
    requires Scan(str, start, [], NO_QUOTE) == Complete(tmp, next) && !EmptyLine(tmp)
    ensures next <= |str| && Multi(str, pos, options) == Multi(str, next, WithOption(tmp, options))
  {
    hide Span, Scan, WithOption;
  }

  lemma FirstIsKept(t: SubText)
    requires SubTextOK(t) && NulFree(Written(t))
    ensures !EmptyLine(OneLine(t))
  {
    hide Spread, Gathered, Calm, PieceOK, EndsUnmarked;
    WrittenShape(t);
    assert Written(t)[0] == OneLine(t)[0];
  }

  lemma MultiStep(str: string, pos: nat, i: Item, rest: string, options: seq<SubOption>)
    requires ItemOK(i) && (rest != [] ==> rest[0] == '\n')
    requires pos <= |str| && str[pos..] == i.lead + (Written(i.sub) + rest)
    ensures var next := pos + |i.lead| + |Written(i.sub)|;
            && next <= |str| && str[next..] == rest
            && Multi(str, pos, options) == Multi(str, next, WithOption(OneLine(i.sub), options))
  {
    hide Scan, Written, OneLine, SubTextOK, WithOption, Span, Multi;
    WrittenShape(i.sub);
    SkipLead(str, pos, i.lead, Written(i.sub) + rest);
    var start := pos + |i.lead|;
    assert |str[start..]| == |Written(i.sub)| + |rest|;
    ScanSubText(str, start, i.sub, rest);
    FirstIsKept(i.sub);
    MultiUnfolds(str, pos, start, OneLine(i.sub), start + |Written(i.sub)|, options);
  }

  /** A parameter written with continuation lines parses to the same sub-options as the
      parameter with every value on one line. */
  lemma JoiningPreservesMeaning(items: seq<Item>, items': seq<Item>, end: string, end': string)
    requires ItemsOK(items) && AllSpace(end) && (items != [] && end != [] ==> StartsNewLine(end))
    requires ItemsOK(items') && AllSpace(end') && (items' != [] && end' != [] ==> StartsNewLine(end'))
    requires |items| == |items'| && forall i :: 0 <= i < |items| ==> OneLine(items[i].sub) == OneLine(items'[i].sub)
    ensures Multi(PrintItems(items, end), 0, []) == Multi(PrintItems(items', end'), 0, []) == Some(Delivered(items, []))
  {
    var s, s' := PrintItems(items, end), PrintItems(items', end');
    MultiDelivers(s, items, end);
    MultiDelivers(s', items', end');
    SameDelivery(items, items', []);
  }

  lemma {:induction false} SameDelivery(items: seq<Item>, items': seq<Item>, options: seq<SubOption>)
    requires |items| == |items'| && forall i :: 0 <= i < |items| ==> OneLine(items[i].sub) == OneLine(items'[i].sub)
    ensures Delivered(items, options) == Delivered(items', options)
  {
    if items != [] {
      assert OneLine(items[0].sub) == OneLine(items'[0].sub);
      SameDelivery(items[1..], items'[1..], WithOption(OneLine(items[0].sub), options));
    }
  }

  // ---- down to names and values ----

  // The usual way to write one: name => "piece" + "piece" ...
  function Named(name: string, first: string, more: seq<Piece>): SubText {
    Quoted(name + " => ", first, more, "")
  }

  predicate NoArrow(name: string) {
    forall i :: 0 <= i < |name| - 1 ==> !(name[i] == '=' && name[i + 1] == '>')
  }

  /** Such a sub-option is delivered as its name and the pieces joined together. */
  lemma NamedIsParsed(name: string, first: string, more: seq<Piece>)
    requires SubTextOK(Named(name, first, more))
    requires name != [] && NoArrow(name)
    ensures ParseSub(OneLine(Named(name, first, more))) == Some(SubOption(name, first + Gathered(more)))
  {
    hide Gathered, Trim, ArrowAt;
    var v := first + Gathered(more);
    var line := name + (" =>" + (" \"" + (v + "\"")));
    assert OneLine(Named(name, first, more)) == line;
    ArrowAfterName(name, " \"" + (v + "\""));
    assert " \"" + (v + "\"") == " " + (['"'] + v + ['"'] + "");
    TrimQuoted(" ", '"', v, "");
  }

  lemma ArrowAfterName(name: string, rest: string)
    requires NoArrow(name)
    ensures var line := name + (" =>" + rest);
            ArrowAt(line) == |name| + 1 && line[|name| + 3..] == rest && line[..|name|] == name
  {
    var line := name + (" =>" + rest);
    var n := |name| + 1;
    forall j | 0 <= j < n ensures !(line[j] == '=' && line[j + 1] == '>') {
      if j < |name| - 1 { assert line[j] == name[j] && line[j + 1] == name[j + 1]; }
    }
    ArrowIsFirst(line, n);
  }

  // The same without quotes, with white space around the value.
  function Raw(name: string, gap: string, text: string, tail: string): string {
    name + (" =>" + (gap + (text + tail)))
  }

  predicate RawOK(gap: string, text: string, tail: string) {
    && AllSpace(gap) && AllSpace(tail) && text != []
    && !IsSpace(text[0]) && text[0] != '"' && text[0] != '\''
    && var z := text[|text| - 1]; !IsSpace(z) && z != '"' && z != '\''
  }

  /** A value without quotes is delivered without the white space around it. */
  lemma RawIsParsed(name: string, gap: string, text: string, tail: string)
    requires name != [] && NoArrow(name) && RawOK(gap, text, tail)
    ensures ParseSub(Raw(name, gap, text, tail)) == Some(SubOption(name, text))
  {
    hide Trim, ArrowAt;
    ArrowAfterName(name, gap + (text + tail));
    TrimPlain(gap, text, tail);
  }

  // A list of named sub-options, quoted and with each value broken somewhere, or not quoted.
  datatype Opt =
    | InPieces(lead: string, name: string, first: string, more: seq<Piece>)
    | Unquoted(lead: string, name: string, gap: string, text: string, tail: string)

  function SubOf(o: Opt): SubText {
    match o
    case InPieces(_, name, first, more) => Named(name, first, more)
    case Unquoted(_, name, gap, text, tail) => Plain(Raw(name, gap, text, tail))
  }

  function ValueOf(o: Opt): string {
    match o
    case InPieces(_, _, first, more) => first + Gathered(more)
    case Unquoted(_, _, _, text, _) => text
  }

  function ItemOf(o: Opt): Item {
    Item(o.lead, SubOf(o))
  }

  predicate OptOK(o: Opt) {
    && o.name != [] && NoArrow(o.name) && ItemOK(ItemOf(o)) && NulFree(OneLine(SubOf(o)))
    && (o.Unquoted? ==> RawOK(o.gap, o.text, o.tail))
  }

  lemma OptIsParsed(o: Opt)
    requires OptOK(o)
    ensures ParseSub(OneLine(SubOf(o))) == Some(SubOption(o.name, ValueOf(o)))
  {
    hide ParseSub, Gathered, NoArrow, RawOK;
    match o
    case InPieces(_, name, first, more) => NamedIsParsed(name, first, more);
    case Unquoted(_, name, gap, text, tail) => RawIsParsed(name, gap, text, tail);
  }

  /** Pieces are joined in the order written. */
  lemma {:induction false} GatheredGrows(more: seq<Piece>, p: Piece)
    ensures Gathered([]) == "" && Gathered(more + [p]) == Gathered(more) + p.text
  {
    if more != [] {
      assert (more + [p])[1..] == more[1..] + [p];
      GatheredGrows(more[1..], p);
    } else {
      assert [p][1..] == [];
    }
  }

  function ItemsOf(os: seq<Opt>): seq<Item> {
    if os == [] then [] else [ItemOf(os[0])] + ItemsOf(os[1..])
  }

  // The option list is built at its head, so the last one written comes first.
  function NewestFirst(os: seq<Opt>, options: seq<SubOption>): seq<SubOption> {
    if os == [] then options
    else NewestFirst(os[1..], [SubOption(os[0].name, ValueOf(os[0]))] + options)
  }

  lemma {:induction false} NewestFirstAt(os: seq<Opt>, options: seq<SubOption>)
    ensures var all := NewestFirst(os, options);
            && |all| == |os| + |options| && all[|os|..] == options
            && forall i :: 0 <= i < |os| ==> all[|os| - 1 - i] == SubOption(os[i].name, ValueOf(os[i]))
  {
    hide ValueOf;
    if os != [] {
      var o := SubOption(os[0].name, ValueOf(os[0]));
      NewestFirstAt(os[1..], [o] + options);
      var all := NewestFirst(os, options);
      assert all[|os[1..]|..] == [o] + options;
      assert all[|os| - 1] == all[|os[1..]|..][0];
      assert all[|os|..] == all[|os[1..]|..][1..];
      forall i | 0 < i < |os| ensures all[|os| - 1 - i] == SubOption(os[i].name, ValueOf(os[i])) {
        assert os[i] == os[1..][i - 1];
      }
    }
  }

  // Each on a line of its own.
  predicate OptsOK(os: seq<Opt>) {
    forall i :: 0 <= i < |os| ==> OptOK(os[i]) && (i > 0 ==> StartsNewLine(os[i].lead))
  }

  lemma {:induction false} ItemsOfAt(os: seq<Opt>)
    ensures |ItemsOf(os)| == |os| && forall i :: 0 <= i < |os| ==> ItemsOf(os)[i] == ItemOf(os[i])
  {
    if os != [] { ItemsOfAt(os[1..]); }
  }

  /** Every named sub-option of a parameter is delivered once, with its whole value, newest
      first. */
  lemma NamedAreDelivered(os: seq<Opt>, end: string) returns (all: seq<SubOption>)
    requires OptsOK(os) && AllSpace(end) && (os != [] && end != [] ==> StartsNewLine(end))
    ensures Multi(PrintItems(ItemsOf(os), end), 0, []) == Some(all) && |all| == |os|
    ensures forall i :: 0 <= i < |os| ==> all[|os| - 1 - i] == SubOption(os[i].name, ValueOf(os[i]))
  {
    hide Multi, PrintItems, Delivered, ValueOf, ItemOK, SubOf, ItemsOf, StartsNewLine;
    ItemsOfAt(os);
    assert ItemsOK(ItemsOf(os)) by {
      forall i | 0 <= i < |os| ensures ItemOK(ItemsOf(os)[i]) { assert OptOK(os[i]); }
      assert forall i :: 0 < i < |os| ==> StartsNewLine(os[i].lead) && ItemsOf(os)[i].lead == os[i].lead;
    }
    MultiDelivers(PrintItems(ItemsOf(os), end), ItemsOf(os), end);
    all := Delivered(ItemsOf(os), []);
    DeliveredNewestFirst(os, []);
    NewestFirstAt(os, []);
  }

  lemma {:induction false} DeliveredNewestFirst(os: seq<Opt>, options: seq<SubOption>)
    requires forall i :: 0 <= i < |os| ==> OptOK(os[i])
    ensures Delivered(ItemsOf(os), options) == NewestFirst(os, options)
  {
    hide OneLine, ParseSub, SubOf, ValueOf;
    if os != [] {
      var o := os[0];
      assert OptOK(o);
      OptIsStored(o, options);
      assert ItemsOf(os)[1..] == ItemsOf(os[1..]);
      DeliveredNewestFirst(os[1..], [SubOption(o.name, ValueOf(o))] + options);
    }
  }

  lemma OptIsStored(o: Opt, options: seq<SubOption>)
    requires OptOK(o)
    ensures WithOption(OneLine(SubOf(o)), options) == [SubOption(o.name, ValueOf(o))] + options
  {
    hide OneLine, ParseSub, SubOf, ValueOf;
    var line := OneLine(SubOf(o));
    OptIsParsed(o);
    CStringEnds(line, "");
    assert line != [] by { ParseOfNothing(); }
  }

  lemma ParseOfNothing()
    ensures ParseSub("") == None
  {
  }

  // ---- two sub-options as one would write them ----

  predicate Word(s: string) {
    s != [] && forall i :: 0 <= i < |s| ==> 'a' <= s[i] <= 'z' || '0' <= s[i] <= '9'
  }

  // What may stand between double quotes.
  predicate Quotable(s: string) {
    forall i :: 0 <= i < |s| ==> s[i] != '"' && s[i] != '\n' && s[i] != '\0'
  }

  lemma NulFreeJoin(s: string, t: string)
    requires NulFree(s) && NulFree(t)
    ensures NulFree(s + t)
  {
  }

  // name => "a" +
  //  "b"
  lemma TwoLines(lead: string, name: string, a: string, mark: char, b: string) returns (o: Opt)
    requires Word(name) && Quotable(a) && Quotable(b) && (mark == '+' || mark == '\\') && AllSpace(lead)
    ensures OptOK(o) && o.lead == lead && o.name == name && ValueOf(o) == a + b
    ensures Written(SubOf(o)) == name + " => \"" + a + ("\" " + [mark] + "\n \"") + b + "\""
  {
    hide NulFree, NoArrow, SubTextOK;
    var join := Splice(" ", mark, " ");
    o := InPieces(lead, name, a, [Piece(join, b)]);
    OnePiece(join, b);
    var t := SubOf(o);
    assert Opening(join) == "\" " + [mark] + "\n \"";
    hide Opening, Spread, Gathered, Quotable, Calm;
    assert Written(t) == name + " => \"" + a + Opening(join) + b + "\"";
    assert OneLine(t) == name + " => \"" + a + b + "\"";
    TwoLinesOK(name, a, join, b);
    QuotableIsNulFree(name, a, b, Opening(join));
    NulFreeJoin(name, " => \"");
    NulFreeJoin(name + " => \"", a);
    NulFreeJoin(name + " => \"" + a, b);
    NulFreeJoin(name + " => \"" + a + b, "\"");
    NulFreeJoin(name + " => \"" + a, Opening(join));
    NulFreeJoin(name + " => \"" + a + Opening(join), b);
    NulFreeJoin(name + " => \"" + a + Opening(join) + b, "\"");
  }

  lemma OnePiece(join: Splice, b: string)
    ensures Spread([Piece(join, b)]) == Opening(join) + (b + "\"")
    ensures Gathered([Piece(join, b)]) == b
  {
    assert [Piece(join, b)][1..] == [];
    assert Spread([]) == "\"" && Gathered([]) == "";
  }

  lemma TwoLinesOK(name: string, a: string, join: Splice, b: string)
    requires Word(name) && Quotable(a) && Quotable(b)
    requires join.gap == " " && join.indent == " " && (join.mark == '+' || join.mark == '\\')
    ensures SubTextOK(Named(name, a, [Piece(join, b)])) && NoArrow(name)
  {
  }

  lemma QuotableIsNulFree(name: string, a: string, b: string, mid: string)
    requires Word(name) && Quotable(a) && Quotable(b)
    requires exists mark :: (mark == '+' || mark == '\\') && mid == "\" " + [mark] + "\n \""
    ensures NulFree(name) && NulFree(a) && NulFree(b) && NulFree(" => \"") && NulFree("\"") && NulFree(mid)
  {
  }

  // name => value
  lemma OneWord(lead: string, name: string, value: string) returns (o: Opt)
    requires Word(name) && Word(value) && AllSpace(lead)
    ensures OptOK(o) && o.lead == lead && o.name == name && ValueOf(o) == value
    ensures Written(SubOf(o)) == name + " => " + value
  {
    o := Unquoted(lead, name, " ", value, "");
    assert Written(SubOf(o)) == name + " => " + value;
  }

  /** A value broken over two lines by either mark, and a value without quotes. */
  lemma TwoOptions(name: string, a: string, mark: char, b: string, name': string, value: string)
    requires Word(name) && Quotable(a) && Quotable(b) && (mark == '+' || mark == '\\')
    requires Word(name') && Word(value)
    ensures var first := name + " => \"" + a + ("\" " + [mark] + "\n \"") + b + "\"";
            var second := name' + " => " + value;
            Multi(first + "\n  " + second, 0, []) == Some([SubOption(name', value), SubOption(name, a + b)])
  {
    hide Multi, OptOK, ValueOf, Word, Quotable, Written, SubOf;
    var o := TwoLines("", name, a, mark, b);
    var o' := OneWord("\n  ", name', value);
    var os := [o, o'];
    TwoPrinted(o, o');
    var all := NamedAreDelivered(os, "");
    assert all[|os| - 1 - 0] == SubOption(os[0].name, ValueOf(os[0])) == SubOption(name, a + b);
    assert all[|os| - 1 - 1] == SubOption(os[1].name, ValueOf(os[1])) == SubOption(name', value);
    assert all == [SubOption(name', value), SubOption(name, a + b)];
  }

  lemma TwoPrinted(o: Opt, o': Opt)
    requires o.lead == ""
    ensures PrintItems(ItemsOf([o, o']), "") == Written(SubOf(o)) + o'.lead + Written(SubOf(o'))
  {
    hide Written, SubOf;
    assert [o, o'][1..] == [o'] && [o'][1..] == [];
    assert ItemsOf([o']) == [ItemOf(o')];
    assert ItemsOf([o, o']) == [ItemOf(o), ItemOf(o')];
    assert [ItemOf(o), ItemOf(o')][1..] == [ItemOf(o')] && [ItemOf(o')][1..] == [];
    assert PrintItems([], "") == "";
    assert PrintItems([ItemOf(o')], "") == o'.lead + (Written(SubOf(o')) + "");
  }
}
