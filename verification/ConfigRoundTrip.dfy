/**
 Printing configuration files in the format of src/automatic.conf-sample, and the
 proof that the tokenizer inverts the printer.
 */
module ConfigRoundTrip {
  import opened CStrings
  import opened ConfigLexer
  import opened Wrappers

  datatype Value = Quoted(quote: char, text: string) | Braced(text: string) | Bare(text: string)

  // What may stand between entries: white space and whole-line comments.
  datatype Junk = Space(c: char) | Remark(text: string)

  datatype Entry = Entry(name: string, gap1: string, gap2: string, value: Value, after: seq<Junk>)

  predicate AllNot(c: char, s: string) {
    forall i :: 0 <= i < |s| ==> s[i] != c
  }

  predicate JunkOK(j: Junk) {
    match j
    case Space(c) => IsSpace(c)
    case Remark(text) => AllNot('\n', text)
  }

  predicate ValueOK(v: Value) {
    && |v.text| < MAX_PARAM_LEN
    && match v
       case Quoted(q, text) => IsQuote(q) && AllNot(q, text) && AllNot('\n', text)
       case Braced(text) => AllNot('}', text)
       case Bare(text) =>
         && text != [] && !IsQuote(text[0]) && text[0] != '{'
         && forall i :: 0 <= i < |text| ==> IsBareChar(text[i])
  }

  predicate EntryOK(e: Entry) {
    && 0 < |e.name| < MAX_OPT_LEN
    && (forall i :: 0 <= i < |e.name| ==> IsNameChar(e.name[i]))
    && AllSpace(e.gap1) && AllSpace(e.gap2)
    && ValueOK(e.value)
    && forall i :: 0 <= i < |e.after| ==> JunkOK(e.after[i])
  }

  // Only a bare token needs something after it, unless it ends the file.
  predicate EntriesOK(es: seq<Entry>) {
    forall i :: 0 <= i < |es| ==>
      EntryOK(es[i]) && (es[i].value.Bare? && es[i].after == [] ==> i == |es| - 1)
  }

  function PrintJunk(js: seq<Junk>): string {
    if js == [] then []
    else (match js[0] case Space(c) => [c] case Remark(text) => "#" + text + "\n") + PrintJunk(js[1..])
  }

  function PrintValue(v: Value): string {
    match v
    case Quoted(q, text) => [q] + text + [q]
    case Braced(text) => "{" + text + "}"
    case Bare(text) => text
  }

  function PrintHead(e: Entry): string {
    e.name + (e.gap1 + ("=" + (e.gap2 + PrintValue(e.value))))
  }

  function PrintEntries(es: seq<Entry>): string {
    if es == [] then [] else PrintHead(es[0]) + (PrintJunk(es[0].after) + PrintEntries(es[1..]))
  }

  /** A whole file: leading white space and comments, then the entries. */
  function PrintFile(lead: seq<Junk>, es: seq<Entry>): string {
    PrintJunk(lead) + PrintEntries(es)
  }

  function KindOf(v: Value): Kind {
    match v
    case Quoted(_, _) => CONF_STRING
    case Braced(_) => CONF_STRINGLIST
    case Bare(_) => CONF_INT
  }

  function CallFor(e: Entry): Call {
    Call(e.name, e.value.text, KindOf(e.value))
  }

  /** One call for each entry in order, up to the first that set_option rejects. */
  function Expected(es: seq<Entry>, calls: seq<Call>, accept: seq<Call> -> bool): Parse {
    if es == [] then Parse(calls, Done)
    else
      var now := calls + [CallFor(es[0])];
      if accept(now) then Expected(es[1..], now, accept) else Parse(now, Failed)
  }

  lemma SpaceBefore(w: string, s: string)
    requires AllSpace(w) && (s != [] ==> !IsSpace(s[0]))
    ensures SkipWs(w + s) == s
  {
    SpanOf(IsSpace, w, s);
    assert (w + s)[|w|..] == s;
  }

  lemma SpaceInFront(c: char, s: string)
    requires IsSpace(c)
    ensures SkipWs([c] + s) == SkipWs(s)
  {
    assert ([c] + s)[1..] == s;
    SpanFrom(IsSpace, [c] + s, 1);
    assert ([c] + s)[1 + Span(IsSpace, s)..] == s[Span(IsSpace, s)..];
  }

  lemma RemarkInFront(text: string, s: string)
    requires AllNot('\n', text)
    ensures NextToken("#" + text + "\n" + s) == Comment(s)
  {
    var all := "#" + text + "\n" + s;
    assert all == ("#" + text) + ("\n" + s);
    NoSpaceToSkip(all);
    SpanOf(Unlike('\n'), "#" + text, "\n" + s);
    assert all[|text| + 2..] == s;
  }

  lemma {:induction false} JunkIsSkipped(js: seq<Junk>, s: string, calls: seq<Call>, accept: seq<Call> -> bool)
    requires forall i :: 0 <= i < |js| ==> JunkOK(js[i])
    ensures ParseText(PrintJunk(js) + s, calls, accept) == ParseText(s, calls, accept)
  {
    hide ReadSetting, SkipWs, Span;
    if js == [] {
      assert PrintJunk(js) + s == s;
    } else {
      var t := PrintJunk(js[1..]) + s;
      JunkIsSkipped(js[1..], s, calls, accept);
      assert JunkOK(js[0]);
      match js[0]
      case Space(c) =>
        assert PrintJunk(js) + s == [c] + t;
        SpaceInFront(c, t);
        SkippedSpaceIsIrrelevant([c] + t, calls, accept);
        SkippedSpaceIsIrrelevant(t, calls, accept);
      case Remark(text) =>
        assert PrintJunk(js) + s == "#" + text + "\n" + t;
        RemarkInFront(text, t);
    }
  }

  lemma ClosedIsRead(p: char -> bool, close: char, kind: Kind, text: string, s: string)
    requires forall i :: 0 <= i < |text| ==> p(text[i])
    requires !p(close) && |text| < MAX_PARAM_LEN
    ensures ReadClosed(p, close, kind, text + ([close] + s)) == GoodParam(text, kind, s)
  {
    SpanOf(p, text, [close] + s);
    var body := text + ([close] + s);
    assert body[..|text|] == text && body[|text| + 1..] == s;
  }

  lemma BareIsRead(text: string, s: string)
    requires forall i :: 0 <= i < |text| ==> IsBareChar(text[i])
    requires |text| < MAX_PARAM_LEN && (s != [] ==> !IsBareChar(s[0]))
    ensures ReadBare(text + s) == GoodParam(text, CONF_INT, s)
  {
    hide Span;
    SpanOf(IsBareChar, text, s);
    assert (text + s)[..|text|] == text && (text + s)[|text|..] == s;
  }

  lemma ValueIsRead(v: Value, s: string)
    requires ValueOK(v)
    requires v.Bare? && s != [] ==> !IsBareChar(s[0])
    ensures PrintValue(v) != []
    ensures ReadParam(PrintValue(v) + s) == GoodParam(v.text, KindOf(v), s)
  {
    hide ReadClosed, ReadBare;
    match v
    case Quoted(q, text) =>
      assert (PrintValue(v) + s)[1..] == text + ([q] + s);
      ClosedIsRead(Within(q), q, CONF_STRING, text, s);
    case Braced(text) =>
      assert (PrintValue(v) + s)[1..] == text + (['}'] + s);
      ClosedIsRead(Unlike('}'), '}', CONF_STRINGLIST, text, s);
    case Bare(text) =>
      BareIsRead(text, s);
  }

  lemma GapBeforeEquals(name: string, gap: string, s: string)
    requires (forall i :: 0 <= i < |name| ==> IsNameChar(name[i])) && AllSpace(gap)
    requires name != []
    ensures var all := name + (gap + ("=" + s));
            && Span(IsNameChar, all) == |name| && all[..|name|] == name
            && SkipWs(all[|name|..]) == "=" + s
            && NextToken(all) == ReadSetting(all)
  {
    var rest := gap + ("=" + s);
    var all := name + rest;
    assert !IsNameChar(rest[0]) by { if gap != [] { assert IsSpace(gap[0]); } }
    SpanOf(IsNameChar, name, rest);
    assert all[|name|..] == rest;
    SpaceBefore(gap, "=" + s);
    assert IsNameChar(all[0]);
    NoSpaceToSkip(all);
  }

  lemma EntryIsRead(e: Entry, s: string)
    requires EntryOK(e)
    requires e.value.Bare? && s != [] ==> !IsBareChar(s[0])
    ensures NextToken(PrintHead(e) + s) == Setting(CallFor(e), s)
  {
    hide SkipWs, Span, ReadParam;
    var v := PrintValue(e.value) + s;
    ValueIsRead(e.value, s);
    assert !IsSpace(v[0]) by { ValueStartsDark(e.value); }
    assert PrintHead(e) + s == e.name + (e.gap1 + ("=" + (e.gap2 + v)));
    GapBeforeEquals(e.name, e.gap1, e.gap2 + v);
    SpaceBefore(e.gap2, v);
    assert ("=" + (e.gap2 + v))[1..] == e.gap2 + v;
  }

  lemma ValueStartsDark(v: Value)
    requires ValueOK(v)
    ensures PrintValue(v) != [] && !IsSpace(PrintValue(v)[0])
  {
  }

  lemma JunkStartsLight(js: seq<Junk>)
    requires forall i :: 0 <= i < |js| ==> JunkOK(js[i])
    requires js != []
    ensures PrintJunk(js) != [] && !IsBareChar(PrintJunk(js)[0])
  {
    assert JunkOK(js[0]);
  }

  lemma {:induction false} EntriesAreRead(es: seq<Entry>, calls: seq<Call>, accept: seq<Call> -> bool)
    requires EntriesOK(es)
    ensures ParseText(PrintEntries(es), calls, accept) == Expected(es, calls, accept)
  {
    hide ReadSetting, SkipWs, PrintHead, PrintJunk, EntryOK;
    if es == [] {
      NoSpaceToSkip([]);
    } else {
      var e := es[0];
      assert EntryOK(e);
      EntryParts(e);
      var tail := PrintEntries(es[1..]);
      var s := PrintJunk(e.after) + tail;
      if e.value.Bare? {
        if e.after == [] {
          assert |es| == 1;
          NoJunk();
        } else {
          JunkStartsLight(e.after);
        }
      }
      EntryIsRead(e, s);
      var now := calls + [CallFor(e)];
      JunkIsSkipped(e.after, tail, now, accept);
      assert forall i :: 0 <= i < |es[1..]| ==> es[1..][i] == es[i + 1];
      EntriesAreRead(es[1..], now, accept);
    }
  }

  lemma EntryParts(e: Entry)
    requires EntryOK(e)
    ensures forall i :: 0 <= i < |e.after| ==> JunkOK(e.after[i])
  {
  }

  lemma NoJunk()
    ensures PrintJunk([]) == []
  {
  }

  /** The parser inverts the printer: whatever white space and comments stand between
      the entries, set_option gets exactly the printed name/value pairs, in order. */
  lemma ParsePrinted(lead: seq<Junk>, es: seq<Entry>, accept: seq<Call> -> bool)
    requires EntriesOK(es) && forall i :: 0 <= i < |lead| ==> JunkOK(lead[i])
    requires lead != [] || es != []
    ensures ParseFile(PrintFile(lead, es), accept) == Expected(es, [], accept)
  {
    JunkIsSkipped(lead, PrintEntries(es), [], accept);
    EntriesAreRead(es, [], accept);
    assert PrintFile(lead, es) != [] by {
      if es != [] { assert EntryOK(es[0]); }
      if lead != [] { JunkStartsLight(lead); }
    }
  }

  lemma {:induction false} AllAccepted(es: seq<Entry>, calls: seq<Call>, accept: seq<Call> -> bool)
    requires forall s :: accept(s)
    ensures var p := Expected(es, calls, accept);
            && p.ending == Done
            && |p.calls| == |calls| + |es|
            && forall i :: 0 <= i < |es| ==> p.calls[|calls| + i] == CallFor(es[i])
    ensures Expected(es, calls, accept).calls[..|calls|] == calls
  {
    if es != [] {
      var now := calls + [CallFor(es[0])];
      AllAccepted(es[1..], now, accept);
      var p := Expected(es, calls, accept);
      assert p.calls[..|now|] == now;
      assert p.calls[|calls|] == now[|calls|];
      forall i | 0 < i < |es| ensures p.calls[|calls| + i] == CallFor(es[i]) {
        assert es[i] == es[1..][i - 1];
      }
    }
  }

  /** Two files with the same entries are the same to set_option, however they differ in
      layout, quoting style aside. */
  lemma LayoutIsIrrelevant(lead: seq<Junk>, lead': seq<Junk>,
                            es: seq<Entry>, es': seq<Entry>, accept: seq<Call> -> bool)
    requires EntriesOK(es) && EntriesOK(es')
    requires (forall i :: 0 <= i < |lead| ==> JunkOK(lead[i])) && forall i :: 0 <= i < |lead'| ==> JunkOK(lead'[i])
    requires (lead != [] || es != []) && (lead' != [] || es' != [])
    requires |es| == |es'| && forall i :: 0 <= i < |es| ==> CallFor(es[i]) == CallFor(es'[i])
    ensures ParseFile(PrintFile(lead, es), accept) == ParseFile(PrintFile(lead', es'), accept)
  {
    ParsePrinted(lead, es, accept);
    ParsePrinted(lead', es', accept);
    SameCalls(es, es', [], accept);
  }

  lemma {:induction false} SameCalls(es: seq<Entry>, es': seq<Entry>, calls: seq<Call>, accept: seq<Call> -> bool)
    requires |es| == |es'| && forall i :: 0 <= i < |es| ==> CallFor(es[i]) == CallFor(es'[i])
    ensures Expected(es, calls, accept) == Expected(es', calls, accept)
  {
    if es != [] {
      assert CallFor(es[0]) == CallFor(es'[0]);
      SameCalls(es[1..], es'[1..], calls + [CallFor(es[0])], accept);
    }
  }

  // ---- the other way round: only what is written like that is read ----

  // What is shown of a parameter, in front of the text that follows it.
  predicate Shows(shown: string, param: string, kind: Kind, rest: string) {
    && |param| < 20000
    && match kind
       case CONF_STRING =>
         && (shown == "\"" + param + "\"" || shown == "'" + param + "'")
         && shown[0] !in param && '\n' !in param
       case CONF_STRINGLIST => shown == "{" + param + "}" && '}' !in param
       case CONF_INT =>
         && shown == param && shown + rest != []
         && (forall i :: 0 <= i < |param| ==> IsBareChar(param[i]))
         && (rest != [] ==> !IsBareChar(rest[0]))
         && var first := (shown + rest)[0];
            !IsSpace(first) && !IsQuote(first) && first != '{'
  }

  predicate NameOK(name: string) {
    1 <= |name| <= 49 && forall i :: 0 <= i < |name| ==> IsNameChar(name[i])
  }

  lemma ClosedIsShown(p: char -> bool, close: char, kind: Kind, body: string)
    requires !p(close)
    ensures var r := ReadClosed(p, close, kind, body);
            r.GoodParam? ==>
              && body == r.text + [close] + r.rest && r.kind == kind && |r.text| < 20000
              && forall i :: 0 <= i < |r.text| ==> p(r.text[i])
  {
  }

  lemma QuotedIsShown(s: string) returns (shown: string)
    requires s != [] && IsQuote(s[0])
    ensures var r := ReadParam(s);
            r.GoodParam? ==> s == shown + r.rest && Shows(shown, r.text, r.kind, r.rest)
  {
    hide ReadClosed, Span;
    var r := ReadParam(s);
    assert s == [s[0]] + s[1..];
    ClosedIsShown(Within(s[0]), s[0], CONF_STRING, s[1..]);
    shown := if r.GoodParam? then [s[0]] + r.text + [s[0]] else [];
  }

  lemma BracedIsShown(s: string) returns (shown: string)
    requires s != [] && s[0] == '{'
    ensures var r := ReadParam(s);
            r.GoodParam? ==> s == shown + r.rest && Shows(shown, r.text, r.kind, r.rest)
  {
    hide ReadClosed, Span;
    var r := ReadParam(s);
    assert s == [s[0]] + s[1..];
    ClosedIsShown(Unlike('}'), '}', CONF_STRINGLIST, s[1..]);
    shown := if r.GoodParam? then "{" + r.text + "}" else [];
  }

  lemma BareIsShown(s: string)
    requires s != [] && !IsSpace(s[0]) && !IsQuote(s[0]) && s[0] != '{'
    ensures var r := ReadParam(s);
            r.GoodParam? ==> s == r.text + r.rest && Shows(r.text, r.text, r.kind, r.rest)
  {
    var r := ReadParam(s);
    if r.GoodParam? { assert s == r.text + r.rest; }
  }

  lemma ParamIsShown(s: string) returns (shown: string)
    requires s != [] && !IsSpace(s[0])
    ensures var r := ReadParam(s);
            r.GoodParam? ==> s == shown + r.rest && Shows(shown, r.text, r.kind, r.rest)
  {
    hide ReadParam, Shows;
    if IsQuote(s[0]) {
      shown := QuotedIsShown(s);
    } else if s[0] == '{' {
      shown := BracedIsShown(s);
    } else {
      BareIsShown(s);
      var r := ReadParam(s);
      shown := if r.GoodParam? then r.text else [];
    }
  }

  // The three stops of a setting: after the name, at the parameter, after the parameter.
  lemma SettingParts(s: string, call: Call, rest: string) returns (s2: string, s3: string)
    requires ReadSetting(s) == Setting(call, rest)
    ensures NameOK(call.name) && |call.name| <= |s| && s == call.name + s[|call.name|..]
    ensures s2 == SkipWs(s[|call.name|..]) && s2 != [] && s2 == "=" + s2[1..]
    ensures s3 == SkipWs(s2[1..]) && s3 != [] && ReadParam(s3) == GoodParam(call.param, call.kind, rest)
  {
    hide Span, ReadParam, SkipWs;
    var n := Span(IsNameChar, s);
    s2 := SkipWs(s[n..]);
    s3 := SkipWs(s2[1..]);
  }

  /** Every setting the parser delivers is written as a name, an equals sign and a
      parameter in one of its three forms, within the limits. */
  lemma SettingIsWritten(s: string, call: Call, rest: string) returns (gap1: string, gap2: string, shown: string)
    requires ReadSetting(s) == Setting(call, rest)
    ensures s == call.name + (gap1 + ("=" + (gap2 + (shown + rest))))
    ensures NameOK(call.name) && AllSpace(gap1) && AllSpace(gap2)
    ensures Shows(shown, call.param, call.kind, rest)
  {
    hide *;
    var s2, s3 := SettingParts(s, call, rest);
    gap1 := SkippedIsSpace(s[|call.name|..]);
    gap2 := SkippedIsSpace(s2[1..]);
    shown := ParamIsShown(s3);
  }

  /** And everything written like that is delivered. */
  lemma WrittenIsSetting(s: string, call: Call, rest: string, gap1: string, gap2: string, shown: string)
    requires s == call.name + (gap1 + ("=" + (gap2 + (shown + rest))))
    requires NameOK(call.name) && AllSpace(gap1) && AllSpace(gap2)
    requires Shows(shown, call.param, call.kind, rest)
    ensures ReadSetting(s) == Setting(call, rest) && NextToken(s) == ReadSetting(s)
  {
    hide ReadParam, Shows;
    ShownIsRead(shown, call.param, call.kind, rest);
    GapBeforeEquals(call.name, gap1, gap2 + (shown + rest));
    SpaceBefore(gap2, shown + rest);
    var s2 := SkipWs(s[|call.name|..]);
    assert s2[1..] == gap2 + (shown + rest);
  }

  lemma ShownIsRead(shown: string, param: string, kind: Kind, rest: string)
    requires Shows(shown, param, kind, rest)
    ensures shown + rest != [] && !IsSpace((shown + rest)[0])
    ensures ReadParam(shown + rest) == GoodParam(param, kind, rest)
  {
    hide ReadClosed, ReadBare;
    var s := shown + rest;
    match kind {
      case CONF_STRING =>
        assert s[1..] == param + ([shown[0]] + rest);
        ClosedIsRead(Within(shown[0]), shown[0], kind, param, rest);
      case CONF_STRINGLIST =>
        assert s[1..] == param + (['}'] + rest);
        ClosedIsRead(Unlike('}'), '}', kind, param, rest);
      case CONF_INT =>
        BareIsRead(param, rest);
    }
  }

  // A setting that the end of the file cuts off.
  predicate Unfinished(s: string, name: string, gap1: string, gap2: Option<string>) {
    && NameOK(name) && AllSpace(gap1)
    && match gap2
       case None => s == name + gap1
       case Some(gap) => AllSpace(gap) && s == name + (gap1 + ("=" + gap))
  }

  /** The parser stops without an error inside a setting exactly when the file ends after
      a name, or after its equals sign. */
  lemma EndIsUnfinished(s: string)
    ensures ReadSetting(s) == End <==> exists name, gap1, gap2 :: Unfinished(s, name, gap1, gap2)
  {
    hide ReadSetting, Unfinished;
    if ReadSetting(s) == End {
      var name, gap1, gap2 := EndShows(s);
    }
    forall name, gap1, gap2 | Unfinished(s, name, gap1, gap2) ensures ReadSetting(s) == End {
      UnfinishedEnds(s, name, gap1, gap2);
    }
  }

  lemma EndShows(s: string) returns (name: string, gap1: string, gap2: Option<string>)
    requires ReadSetting(s) == End
    ensures Unfinished(s, name, gap1, gap2)
  {
    hide Span, ReadParam, SkipWs;
    var n := Span(IsNameChar, s);
    name := s[..n];
    gap1 := SkippedIsSpace(s[n..]);
    assert s == name + s[n..];
    var s2 := SkipWs(s[n..]);
    if s2 == [] {
      gap2 := None;
    } else {
      var gap := SkippedIsSpace(s2[1..]);
      gap2 := Some(gap);
      assert s2 == "=" + gap;
    }
  }

  lemma UnfinishedEnds(s: string, name: string, gap1: string, gap2: Option<string>)
    requires Unfinished(s, name, gap1, gap2)
    ensures ReadSetting(s) == End
  {
    hide ReadParam, SkipWs, Span, IsNameChar;
    match gap2
    case None =>
      NameEnds(name, gap1);
    case Some(gap) =>
      GapBeforeEquals(name, gap1, gap);
      assert ("=" + gap)[1..] == gap + "";
      SpaceBefore(gap, "");
  }

  lemma NameEnds(name: string, gap: string)
    requires NameOK(name) && AllSpace(gap)
    ensures Span(IsNameChar, name + gap) == |name| && SkipWs((name + gap)[|name|..]) == []
  {
    hide Span, SkipWs;
    SpanOf(IsNameChar, name, gap);
    assert (name + gap)[|name|..] == gap + "";
    SpaceBefore(gap, "");
  }

  /** A comment is what starts with # and ends with its line; one that the file does not end
      makes the source read on. */
  lemma CommentIs(s: string, rest: string)
    requires s != [] && s[0] == '#'
    ensures NextToken(s) == Comment(rest) <==> exists text :: '\n' !in text && s == text + "\n" + rest
    ensures NextToken(s) == Runaway <==> '\n' !in s
  {
    NoSpaceToSkip(s);
    var n := Span(Unlike('\n'), s);
    if n < |s| { assert s == s[..n] + "\n" + s[n + 1..]; }
    if text :| '\n' !in text && s == text + "\n" + rest {
      assert s == text + ("\n" + rest);
      SpanOf(Unlike('\n'), text, "\n" + rest);
      assert s[|text| + 1..] == rest;
    }
  }

  /** The parser stops at the first setting that set_option rejects, with an error. */
  lemma {:induction false} RejectionStops(es: seq<Entry>, calls: seq<Call>, accept: seq<Call> -> bool, k: nat)
    requires k < |es| && !accept(calls + CallsFor(es[..k + 1]))
    requires forall j :: 0 < j <= k ==> accept(calls + CallsFor(es[..j]))
    ensures Expected(es, calls, accept) == Parse(calls + CallsFor(es[..k + 1]), Failed)
  {
    assert es[..1] == [es[0]] && [es[0]][1..] == [] && CallsFor([es[0]]) == [CallFor(es[0])];
    if k > 0 {
      var now := calls + [CallFor(es[0])];
      forall j | 0 <= j <= k ensures now + CallsFor(es[1..][..j]) == calls + CallsFor(es[..j + 1]) {
        assert es[..j + 1][1..] == es[1..][..j];
      }
      RejectionStops(es[1..], now, accept, k - 1);
    }
  }

  function CallsFor(es: seq<Entry>): seq<Call> {
    if es == [] then [] else [CallFor(es[0])] + CallsFor(es[1..])
  }

  /** The smallest files of each ending. */
  lemma SmallFiles(accept: seq<Call> -> bool)
    ensures ParseFile("", accept) == Parse([], Failed)
    ensures ParseFile("=", accept) == Parse([], Failed)
    ensures ParseFile("#", accept) == Parse([], Overrun)
    ensures ParseFile("a", accept) == Parse([], Done)
  {
    NoSpaceToSkip("=");
    NoSpaceToSkip("#");
    NoSpaceToSkip("a");
    CommentIs("#", "");
    UnfinishedEnds("a", "a", "", None);
  }

  /** One setting, as one would write it. */
  lemma SmallSetting(accept: seq<Call> -> bool)
    requires forall s :: accept(s)
    ensures ParseFile("port = 80", accept) == Parse([Call("port", "80", CONF_INT)], Done)
  {
    hide NextToken, ReadSetting;
    var call := Call("port", "80", CONF_INT);
    PortIsSetting(call);
    EmptyEnds();
    assert [] + [call] == [call];
    assert ParseText("", [call], accept) == Parse([call], Done);
  }

  lemma PortIsSetting(call: Call)
    requires call == Call("port", "80", CONF_INT)
    ensures NextToken("port = 80") == Setting(call, "")
  {
    hide NextToken, ReadSetting;
    var s := "port = 80";
    assert s == "port" + (" " + ("=" + (" " + ("80" + ""))));
    WrittenIsSetting(s, call, "", " ", " ", "80");
  }

  lemma EmptyEnds()
    ensures NextToken("") == End
  {
    NoSpaceToSkip("");
  }
}
