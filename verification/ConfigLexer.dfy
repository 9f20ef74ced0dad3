/** The tokenizer of the configuration file (parse_config_file of src/config_parser.c). */
module ConfigLexer {
  import opened CStrings

  const MAX_OPT_LEN: nat := 50
  const MAX_PARAM_LEN: nat := 20000

  // isprint on ASCII.
  predicate IsPrint(c: char) {
    ' ' <= c <= '~'
  }

  predicate IsNameChar(c: char) {
    IsPrint(c) && c != ' ' && c != '#' && c != '='
  }

  predicate IsBareChar(c: char) {
    IsPrint(c) && !IsSpace(c) && c != '#'
  }

  predicate IsQuote(c: char) {
    c == '"' || c == '\''
  }

  /** Names and bare tokens are printable ASCII without space and #, names also without =. */
  lemma CharactersAre(c: char)
    ensures IsNameChar(c) <==> 33 <= c as int <= 126 && c != '#' && c != '='
    ensures IsBareChar(c) <==> 33 <= c as int <= 126 && c != '#'
    ensures IsQuote(c) <==> c as int == 34 || c as int == 39
  {
  }

  // What may stand between two quotes c, before a closing brace, or in a comment.
  function Within(c: char): char -> bool {
    x => x != c && x != '\n'
  }

  datatype Kind = CONF_STRING | CONF_STRINGLIST | CONF_INT

  // One call of set_option.
  datatype Call = Call(name: string, param: string, kind: Kind)

  datatype Param = BadParam | GoodParam(text: string, kind: Kind, rest: string)

  // Text up to a closing character, which is skipped.
  function ReadClosed(p: char -> bool, close: char, kind: Kind, body: string): (r: Param)
    ensures r.GoodParam? ==> |r.rest| <= |body|
  {
    var n := Span(p, body);
    if n < MAX_PARAM_LEN && n < |body| && body[n] == close then GoodParam(body[..n], kind, body[n + 1..]) else BadParam
  }

  function ReadBare(s: string): (r: Param)
    ensures r.GoodParam? ==> |r.rest| <= |s|
  {
    var n := Span(IsBareChar, s);
    if n < MAX_PARAM_LEN then GoodParam(s[..n], CONF_INT, s[n..]) else BadParam
  }

  // The three forms of a parameter, at the first character after "= ".
  function ReadParam(s: string): (r: Param)
    requires s != []
    ensures r.GoodParam? ==> |r.rest| <= |s|
  {
    if IsQuote(s[0]) then ReadClosed(Within(s[0]), s[0], CONF_STRING, s[1..])
    else if s[0] == '{' then ReadClosed(Unlike('}'), '}', CONF_STRINGLIST, s[1..])
    else ReadBare(s)
  }

  // What one turn of the main loop finds. Runaway: a comment that the file does not end.
  datatype Token = End | Bad | Runaway | Comment(rest: string) | Setting(call: Call, rest: string)

  // An option name, '=', and a parameter.
  function ReadSetting(s: string): (t: Token)
    ensures !t.Runaway? && !t.Comment?
    ensures t.Setting? ==> |t.rest| < |s|
  {
    var n := Span(IsNameChar, s);
    if n == 0 || n >= MAX_OPT_LEN then Bad
    else
      var s2 := SkipWs(s[n..]);
      if s2 == [] then End
      else if s2[0] != '=' then Bad
      else
        var s3 := SkipWs(s2[1..]);
        if s3 == [] then End
        else
          match ReadParam(s3)
          case BadParam => Bad
          case GoodParam(param, kind, rest) => Setting(Call(s[..n], param, kind), rest)
  }

  function NextToken(text: string): (t: Token)
    ensures t.Comment? || t.Setting? ==> |t.rest| < |text|
  {
    var s := SkipWs(text);
    if s == [] then End
    else if s[0] == '#' then
      var n := Span(Unlike('\n'), s);
      if n == |s| then Runaway else Comment(s[n + 1..])
    else ReadSetting(s)
  }

  datatype Ending = Done | Failed | Overrun

  datatype Parse = Parse(calls: seq<Call>, ending: Ending)

  /** The calls of set_option a file leads to. `accept` is the answer of set_option to
      the last of the calls made so far. */
  function ParseText(text: string, calls: seq<Call>, accept: seq<Call> -> bool): Parse
    decreases |text|
  {
    match NextToken(text)
    case End => Parse(calls, Done)
    case Bad => Parse(calls, Failed)
    case Runaway => Parse(calls, Overrun)
    case Comment(rest) => ParseText(rest, calls, accept)
    case Setting(call, rest) =>
      if accept(calls + [call]) then ParseText(rest, calls + [call], accept) else Parse(calls + [call], Failed)
  }

  function ParseFile(text: string, accept: seq<Call> -> bool): Parse {
    if text == [] then Parse([], Failed) else ParseText(text, [], accept)
  }

  // ---- the parser, as index loops over the text ----

  method SkipWhitespace(line: string, start: nat) returns (pos: nat)
    requires start <= |line|
    ensures start <= pos <= |line| && line[pos..] == SkipWs(line[start..])
  {
    pos := Advance(IsSpace, line, start);
    assert line[pos..] == line[start..][pos - start..];
  }

  // Copy characters while they satisfy p, at most `limit` of them.
  method Collect(p: char -> bool, line: string, start: nat, limit: nat) returns (text: string, pos: nat)
    requires start <= |line|
    ensures var n := Span(p, line[start..]);
            pos == start + if n < limit then n else limit
    ensures pos <= |line| && text == line[start..pos]
  {
    pos, text := start, [];
    while |text| < limit && pos < |line| && p(line[pos])
      invariant start <= pos <= |line| && text == line[start..pos] && |text| <= limit
      invariant forall i :: start <= i < pos ==> p(line[i])
    {
      text := text + [line[pos]];
      pos := pos + 1;
    }
    SpanFrom(p, line[start..], pos - start);
    assert line[start..][pos - start..] == line[pos..];
  }

  method ReadUntil(p: char -> bool, close: char, kind: Kind, line: string, start: nat) returns (r: Param, pos: nat)
    requires start <= |line|
    ensures start <= pos <= |line|
    ensures r == ReadClosed(p, close, kind, line[start..])
    ensures r.GoodParam? ==> r.rest == line[pos..]
  {
    var param: string;
    param, pos := Collect(p, line, start, MAX_PARAM_LEN);
    if pos - start < MAX_PARAM_LEN && pos < |line| && line[pos] == close {
      pos := pos + 1;
      assert line[start..][..|param|] == param && line[start..][|param| + 1..] == line[pos..];
      return GoodParam(param, kind, line[pos..]), pos;
    }
    return BadParam, pos;
  }

  method ReadParameter(line: string, start: nat) returns (r: Param, pos: nat)
    requires start < |line|
    ensures start <= pos <= |line|
    ensures r == ReadParam(line[start..])
    ensures r.GoodParam? ==> r.rest == line[pos..]
  {
    hide ReadClosed;
    assert line[start..][1..] == line[start + 1..];
    if IsQuote(line[start]) {
      r, pos := ReadUntil(Within(line[start]), line[start], CONF_STRING, line, start + 1);
    } else if line[start] == '{' {
      r, pos := ReadUntil(Unlike('}'), '}', CONF_STRINGLIST, line, start + 1);
    } else {
      var param: string;
      param, pos := Collect(IsBareChar, line, start, MAX_PARAM_LEN);
      assert line[start..][..|param|] == param && line[start..][|param|..] == line[pos..];
      r := if |param| < MAX_PARAM_LEN then GoodParam(param, CONF_INT, line[pos..]) else BadParam;
    }
  }

  // The part of the main loop that reads one option.
  method ReadOption(line: string, start: nat) returns (t: Token, pos: nat)
    requires start < |line|
    ensures start <= pos <= |line|
    ensures t == ReadSetting(line[start..])
    ensures t.Setting? ==> t.rest == line[pos..]
  {
    hide ReadParam, SkipWs;
    ghost var s := line[start..];
    pos := Advance(IsNameChar, line, start);
    var opt := line[start..pos];
    assert opt == s[..pos - start] && s[pos - start..] == line[pos..];
    if |opt| == 0 || |opt| >= MAX_OPT_LEN {
      return Bad, pos;
    }
    pos := SkipWhitespace(line, pos);
    if pos >= |line| {
      return End, pos;
    }
    if line[pos] != '=' {
      return Bad, pos;
    }
    assert line[pos..][1..] == line[pos + 1..];
    pos := SkipWhitespace(line, pos + 1);
    if pos >= |line| {
      return End, pos;
    }
    var param, next := ReadParameter(line, pos);
    if param.BadParam? {
      return Bad, pos;
    }
    pos := next;
    t := Setting(Call(opt, param.text, param.kind), param.rest);
  }

  /** parse_config_file, with the file already read. */
  method ParseConfig(line: string, accept: seq<Call> -> bool) returns (calls: seq<Call>, ending: Ending)
    ensures Parse(calls, ending) == ParseFile(line, accept)
  {
    hide ReadSetting, Span, SkipWs, IsSpace;
    calls := [];
    if line == [] {
      return calls, Failed;
    }
    var pos := 0;
    assert line[0..] == line;
    while pos != |line|
      invariant 0 <= pos <= |line|
      invariant ParseText(line[pos..], calls, accept) == ParseFile(line, accept)
      decreases |line| - pos
    {
      SkippedSpaceIsIrrelevant(line[pos..], calls, accept);
      pos := SkipWhitespace(line, pos);
      if pos >= |line| {
        break;
      }
      NoSpaceToSkip(line[pos..]);
      if line[pos] == '#' {
        var eol := Advance(Unlike('\n'), line, pos);
        if eol == |line| {
          return calls, Overrun;
        }
        assert line[pos..][eol - pos + 1..] == line[eol + 1..];
        pos := eol + 1;
        continue;
      }
      var token, next := ReadOption(line, pos);
      if token.End? {
        return calls, Done;
      }
      if token.Bad? {
        return calls, Failed;
      }
      calls := calls + [token.call];
      if !accept(calls) {
        return calls, Failed;
      }
      SkippedSpaceIsIrrelevant(line[next..], calls, accept);
      pos := SkipWhitespace(line, next);
    }
    assert line[pos..] == [];
    NoSpaceToSkip([]);
    return calls, Done;
  }

  lemma NoSpaceToSkip(s: string)
    requires s != [] ==> !IsSpace(s[0])
    ensures SkipWs(s) == s
  {
  }

  lemma SkippedSpaceIsIrrelevant(text: string, calls: seq<Call>, accept: seq<Call> -> bool)
    ensures ParseText(SkipWs(text), calls, accept) == ParseText(text, calls, accept)
  {
    hide ReadSetting, SkipWs, Span;
    NoSpaceToSkip(SkipWs(text));
    assert NextToken(SkipWs(text)) == NextToken(text);
  }
}
