/**
 Expanding placeholders in a substitution template (performRegexReplace of
 src/regex.c). The regular expression match is an oracle: the captured groups, the
 whole match being group 0.
 */
module RegexReplace {
  import opened CStrings
  import opened Wrappers

  const MAX_SUBST_LEN: nat := 1024
  const MAX_DIGITS: nat := 4         // MAX_IDX_LEN - 1

  predicate IsDigit(c: char) {
    '0' <= c <= '9'
  }

  // atoi of a string of digits
  function Value(ds: string): nat
    requires forall i :: 0 <= i < |ds| ==> IsDigit(ds[i])
  {
    if ds == [] then 0
    else
      assert IsDigit(ds[|ds| - 1]);
      10 * Value(ds[..|ds| - 1]) + (ds[|ds| - 1] as int - '0' as int)
  }

  // The number of a reference, at its first digit.
  function RefDigits(s: string): (n: nat)
    ensures n <= |s|
  {
    Span(IsDigit, s)
  }

  function Number(s: string, n: nat): nat
    requires n <= RefDigits(s)
  {
    Value(s[..n])
  }

  predicate InRange(num: nat) {
    1 <= num <= 99
  }

  function Then(head: string, tail: Option<string>): Option<string> {
    match tail case None => None case Some(t) => Some(head + t)
  }

  /** What a template is documented to mean: \n stands for group n, any other escape for
      itself; None if a reference has more than four digits, lies outside 1..99, or names
      a group that was not captured. */
  function Expand(t: string, groups: seq<string>): Option<string>
    decreases |t|
  {
    if t == [] then Some("")
    else if t[0] != '\\' then Then([t[0]], Expand(t[1..], groups))
    else if |t| == 1 then Some("\\")
    else if !IsDigit(t[1]) then Then([t[0], t[1]], Expand(t[2..], groups))
    else
      var n := RefDigits(t[1..]);
      if n > MAX_DIGITS then None
      else
        var num := Number(t[1..], n);
        if InRange(num) && num < |groups| then Then(groups[num], Expand(t[1 + n..], groups)) else None
  }

  /** What the code makes of it: after a reference, the next character is copied as it
      is, even if it is a backslash. */
  function CodeExpand(t: string, groups: seq<string>): Option<string>
    decreases |t|
  {
    if t == [] then Some("")
    else if t[0] != '\\' then Then([t[0]], CodeExpand(t[1..], groups))
    else if |t| == 1 then Some("\\")
    else if !IsDigit(t[1]) then Then([t[0], t[1]], CodeExpand(t[2..], groups))
    else
      var n := RefDigits(t[1..]);
      if n > MAX_DIGITS then None
      else
        var num := Number(t[1..], n);
        if !InRange(num) || num >= |groups| then None
        else if t[1 + n..] == [] then Some(groups[num])
        else Then(groups[num] + [t[1 + n]], CodeExpand(t[2 + n..], groups))
  }

  // ---- when the two agree ----

  // A run of backslashes with a digit right after it.
  predicate RunEndsInDigit(s: string) {
    s != [] && (IsDigit(s[0]) || (s[0] == '\\' && RunEndsInDigit(s[1..])))
  }

  /** No reference is immediately followed by backslashes and then a digit. */
  predicate Settled(t: string)
    decreases |t|
  {
    if t == [] || t == "\\" then true
    else if t[0] != '\\' then Settled(t[1..])
    else if !IsDigit(t[1]) then Settled(t[2..])
    else
      var after := t[1 + RefDigits(t[1..])..];
      after == [] || ((after[0] == '\\' ==> !RunEndsInDigit(after[1..])) && Settled(after[1..]))
  }

  // A backslash before text that does not turn into a reference stands for itself.
  lemma {:induction false} LoneBackslash(s: string, groups: seq<string>)
    requires !RunEndsInDigit(s)
    ensures Expand("\\" + s, groups) == Then("\\", Expand(s, groups))
    decreases |s|
  {
    var t := "\\" + s;
    if s == [] {
      assert t == "\\";
    } else {
      assert t[2..] == s[1..];
      if s[0] == '\\' {
        LoneBackslash(s[1..], groups);
        assert s == "\\" + s[1..];
        ThenThen("\\", "\\", Expand(s[1..], groups));
        assert [t[0], t[1]] == "\\" + "\\";
      } else {
        ThenThen("\\", [s[0]], Expand(s[1..], groups));
        assert [t[0], t[1]] == "\\" + [s[0]];
      }
    }
  }

  lemma ThenThen(a: string, b: string, t: Option<string>)
    ensures Then(a, Then(b, t)) == Then(a + b, t)
  {
    if t.Some? { assert a + (b + t.value) == a + b + t.value; }
  }

  // The text after a reference, read character by character.
  lemma AfterReference(after: string, groups: seq<string>)
    requires after != []
    requires after[0] == '\\' ==> !RunEndsInDigit(after[1..])
    ensures Expand(after, groups) == Then([after[0]], Expand(after[1..], groups))
  {
    if after[0] == '\\' {
      assert after == "\\" + after[1..];
      LoneBackslash(after[1..], groups);
    }
  }

  lemma {:induction false} SettledAgrees(t: string, groups: seq<string>)
    requires Settled(t)
    ensures CodeExpand(t, groups) == Expand(t, groups)
    decreases |t|
  {
    if t == [] || t == "\\" {
    } else if t[0] != '\\' {
      SettledAgrees(t[1..], groups);
    } else if !IsDigit(t[1]) {
      SettledAgrees(t[2..], groups);
    } else {
      var n := RefDigits(t[1..]);
      var after := t[1 + n..];
      if after != [] {
        assert after[1..] == t[2 + n..] && after[0] == t[1 + n];
        SettledAgrees(after[1..], groups);
        AfterReference(after, groups);
        if n <= MAX_DIGITS && InRange(Number(t[1..], n)) && Number(t[1..], n) < |groups| {
          ThenThen(groups[Number(t[1..], n)], [after[0]], Expand(after[1..], groups));
        }
      } else if n <= MAX_DIGITS && InRange(Number(t[1..], n)) && Number(t[1..], n) < |groups| {
        assert groups[Number(t[1..], n)] + "" == groups[Number(t[1..], n)];
      }
    }
  }

  // Captures that tell every reference from a backslash.
  const PROBE: seq<string> := seq(100, _ => "X")

  predicate Differ(a: Option<string>, b: Option<string>) {
    a.Some? && b.Some? ==> a != b
  }

  lemma DifferBehind(head: string, a: Option<string>, b: Option<string>)
    requires Differ(a, b)
    ensures Differ(Then(head, a), Then(head, b))
  {
    if a.Some? && b.Some? {
      assert (head + a.value)[|head|..] == a.value;
      assert (head + b.value)[|head|..] == b.value;
    }
  }

  // A reference shows up as the X of the probe.
  lemma ReferenceShows(s: string)
    requires s != [] && IsDigit(s[0])
    ensures var e := Expand("\\" + s, PROBE); e.Some? ==> e.value != [] && e.value[0] == 'X'
    ensures var c := CodeExpand("\\" + s, PROBE); c.Some? ==> c.value != [] && c.value[0] == 'X'
  {
    var t := "\\" + s;
    assert t[1..] == s;
    var n := RefDigits(s);
    assert n <= MAX_DIGITS && InRange(Number(s, n)) ==> PROBE[Number(s, n)] == "X";
  }

  // Backslashes and then a digit: a reader that has consumed one backslash more, or one
  // less, sees a reference where the other sees none.
  lemma {:induction false} ReadersPart(s: string)
    requires RunEndsInDigit(s)
    ensures Differ(Expand("\\" + s, PROBE), Then("\\", CodeExpand(s, PROBE)))
    ensures Differ(CodeExpand("\\" + s, PROBE), Then("\\", Expand(s, PROBE)))
    decreases |s|
  {
    if IsDigit(s[0]) {
      ReferenceShows(s);
    } else {
      var r := s[1..];
      ReadersPart(r);
      assert s == "\\" + r;
      var t := "\\" + s;
      assert t[2..] == r;
      ThenThen("\\", "\\", Expand(r, PROBE));
      ThenThen("\\", "\\", CodeExpand(r, PROBE));
      DifferBehind("\\", Then("\\", Expand(r, PROBE)), CodeExpand(s, PROBE));
      DifferBehind("\\", Then("\\", CodeExpand(r, PROBE)), Expand(s, PROBE));
      assert [t[0], t[1]] == "\\" + "\\";
    }
  }

  lemma {:induction false} UnsettledDiffers(t: string)
    requires !Settled(t)
    ensures Differ(CodeExpand(t, PROBE), Expand(t, PROBE))
    decreases |t|
  {
    if t[0] != '\\' {
      UnsettledDiffers(t[1..]);
      DifferBehind([t[0]], CodeExpand(t[1..], PROBE), Expand(t[1..], PROBE));
    } else if !IsDigit(t[1]) {
      UnsettledDiffers(t[2..]);
      DifferBehind([t[0], t[1]], CodeExpand(t[2..], PROBE), Expand(t[2..], PROBE));
    } else {
      var n := RefDigits(t[1..]);
      var after := t[1 + n..];
      var rest := after[1..];
      assert rest == t[2 + n..];
      UnsettledAfterReference(after);
      if n <= MAX_DIGITS && InRange(Number(t[1..], n)) {
        DifferBehind("X", Then([after[0]], CodeExpand(rest, PROBE)), Expand(after, PROBE));
        ThenThen("X", [after[0]], CodeExpand(rest, PROBE));
        assert PROBE[Number(t[1..], n)] == "X";
      }
    }
  }

  lemma UnsettledAfterReference(after: string)
    requires after != []
    requires !((after[0] == '\\' ==> !RunEndsInDigit(after[1..])) && Settled(after[1..]))
    ensures Differ(Then([after[0]], CodeExpand(after[1..], PROBE)), Expand(after, PROBE))
    decreases |after|, 0
  {
    var rest := after[1..];
    if after[0] == '\\' && RunEndsInDigit(rest) {
      assert after == "\\" + rest;
      ReadersPart(rest);
    } else {
      AfterReference(after, PROBE);
      UnsettledDiffers(rest);
      DifferBehind([after[0]], CodeExpand(rest, PROBE), Expand(rest, PROBE));
    }
  }

  /** Every reference has at most four digits and lies in 1..99, as documented. */
  predicate GoodReferences(t: string)
    decreases |t|
  {
    if t == [] || t == "\\" then true
    else if t[0] != '\\' then GoodReferences(t[1..])
    else if !IsDigit(t[1]) then GoodReferences(t[2..])
    else
      var n := RefDigits(t[1..]);
      n <= MAX_DIGITS && InRange(Number(t[1..], n)) && GoodReferences(t[1 + n..])
  }

  /** The same of the references the code gets to see. */
  predicate GoodReferencesSeen(t: string)
    decreases |t|
  {
    if t == [] || t == "\\" then true
    else if t[0] != '\\' then GoodReferencesSeen(t[1..])
    else if !IsDigit(t[1]) then GoodReferencesSeen(t[2..])
    else
      var n := RefDigits(t[1..]);
      && n <= MAX_DIGITS && InRange(Number(t[1..], n))
      && (t[1 + n..] == [] || GoodReferencesSeen(t[2 + n..]))
  }

  lemma {:induction false} BadReferencesFail(t: string, groups: seq<string>)
    ensures !GoodReferences(t) ==> Expand(t, groups).None?
    ensures GoodReferences(t) ==> Expand(t, PROBE).Some?
    decreases |t|
  {
    if t == [] || t == "\\" {
    } else if t[0] != '\\' {
      BadReferencesFail(t[1..], groups);
    } else if !IsDigit(t[1]) {
      BadReferencesFail(t[2..], groups);
    } else {
      BadReferencesFail(t[1 + RefDigits(t[1..])..], groups);
    }
  }

  lemma {:induction false} BadReferencesSeenFail(t: string, groups: seq<string>)
    ensures !GoodReferencesSeen(t) ==> CodeExpand(t, groups).None?
    ensures GoodReferencesSeen(t) ==> CodeExpand(t, PROBE).Some?
    decreases |t|
  {
    if t == [] || t == "\\" {
    } else if t[0] != '\\' {
      BadReferencesSeenFail(t[1..], groups);
    } else if !IsDigit(t[1]) {
      BadReferencesSeenFail(t[2..], groups);
    } else {
      var n := RefDigits(t[1..]);
      if t[1 + n..] != [] { BadReferencesSeenFail(t[2 + n..], groups); }
    }
  }

  /** For every template: the code gives the documented expansion, or the documented
      failure, for all captures exactly when no reference is immediately followed by
      backslashes and a digit, or the template has a bad reference in both readings. */
  lemma AgreesExactlyWhenSettled(t: string)
    ensures (forall groups :: CodeExpand(t, groups) == Expand(t, groups))
            <==> Settled(t) || (!GoodReferences(t) && !GoodReferencesSeen(t))
  {
    hide Expand, CodeExpand, Settled, GoodReferences, GoodReferencesSeen;
    if Settled(t) {
      forall groups ensures CodeExpand(t, groups) == Expand(t, groups) {
        SettledAgrees(t, groups);
      }
    } else {
      UnsettledDiffers(t);
      forall groups
        ensures !GoodReferences(t) ==> Expand(t, groups).None?
        ensures !GoodReferencesSeen(t) ==> CodeExpand(t, groups).None?
      {
        BadReferencesFail(t, groups);
        BadReferencesSeenFail(t, groups);
      }
      BadReferencesFail(t, PROBE);
      BadReferencesSeenFail(t, PROBE);
    }
  }

  /** A bad reference right after another is not noticed: the documented result is NULL,
      the code returns text. */
  lemma BadReferenceOverlooked()
    ensures var groups := ["ab", "a"];
            && Expand("\\1\\0", groups) == None && CodeExpand("\\1\\0", groups) == Some("a\\0")
  {
    var groups := ["ab", "a"];
    OneReference('1', "\\0", groups);
    assert ['\\', '1'] + "\\0" == "\\1\\0" && "\\0"[1..] == "0" && "0"[1..] == "";
    assert "0" == ['0'] + "" && ['0'] + [] == ['0'];
    SpanOf(IsDigit, "0", "");
    assert "0"[..1] == "0" && "0"[..0] == "" && Value("") == 0 && Value("0") == 0;
    assert CodeExpand("", groups) == Some("") && ['0'] + "" == "0";
    assert CodeExpand("0", groups) == Then(['0'], CodeExpand("0"[1..], groups));
    assert "a" + ['\\'] + "0" == "a\\0";
  }

  /** Two references in a row: the second is not expanded. */
  lemma AdjacentReferencesFail()
    ensures var groups := ["ab", "a", "b"];
            && CodeExpand("\\1\\2", groups) == Some("a\\2")
            && Expand("\\1\\2", groups) == Some("ab")
  {
    var groups := ["ab", "a", "b"];
    OneReference('1', "\\2", groups);
    OneReference('2', "", groups);
    assert ['\\', '1'] + "\\2" == "\\1\\2" && ['\\', '2'] + "" == "\\2";
    assert "\\2"[1..] == "2" && "2"[1..] == "";
    assert Expand("", groups) == Some("") && CodeExpand("", groups) == Some("");
    assert "b" + "" == "b" && ['2'] + "" == "2";
    assert CodeExpand("2", groups) == Then(['2'], CodeExpand("2"[1..], groups));
    assert "a" + "b" == "ab" && "a" + ['\\'] + "2" == "a\\2";
  }

  // ---- both readings, piece by piece ----

  /** Digits stand for their number in decimal. */
  lemma NumberIs(ds: string, d: char)
    requires (forall i :: 0 <= i < |ds| ==> 48 <= ds[i] as int <= 57) && 48 <= d as int <= 57
    ensures IsDigit(d) && forall i :: 0 <= i < |ds| ==> IsDigit(ds[i])
    ensures Value("") == 0 && Value([d]) == d as int - 48 && Value(ds + [d]) == 10 * Value(ds) + (d as int - 48)
  {
    assert (ds + [d])[..|ds|] == ds && [d][..0] == "";
  }

  /** Text without backslashes is copied. */
  lemma {:induction false} PlainIsCopied(s: string, rest: string, groups: seq<string>)
    requires '\\' !in s
    ensures Expand(s + rest, groups) == Then(s, Expand(rest, groups))
    ensures CodeExpand(s + rest, groups) == Then(s, CodeExpand(rest, groups))
  {
    var e, c := Expand(rest, groups), CodeExpand(rest, groups);
    if s == "" {
      assert "" + rest == rest;
      assert (e.Some? ==> "" + e.value == e.value) && (c.Some? ==> "" + c.value == c.value);
    } else {
      assert (s + rest)[1..] == s[1..] + rest;
      PlainIsCopied(s[1..], rest, groups);
      ThenThen([s[0]], s[1..], e);
      ThenThen([s[0]], s[1..], c);
      assert [s[0]] + s[1..] == s;
    }
  }

  /** So is a backslash with a character that is no digit, and one at the end. */
  lemma EscapeIsCopied(c: char, rest: string, groups: seq<string>)
    requires !(48 <= c as int <= 57)
    ensures Expand(['\\', c] + rest, groups) == Then(['\\', c], Expand(rest, groups))
    ensures CodeExpand(['\\', c] + rest, groups) == Then(['\\', c], CodeExpand(rest, groups))
    ensures Expand("\\", groups) == CodeExpand("\\", groups) == Some("\\")
    ensures Expand("", groups) == CodeExpand("", groups) == Some("")
  {
    assert (['\\', c] + rest)[2..] == rest;
  }

  /** A reference of at most four digits, between 1 and 99, stands for its group, if there is
      one; in the code, the next character goes with it. */
  lemma ReferenceIs(ds: string, rest: string, groups: seq<string>)
    requires ds != [] && (forall i :: 0 <= i < |ds| ==> IsDigit(ds[i])) && (rest != [] ==> !IsDigit(rest[0]))
    ensures var num := Value(ds);
            var good := |ds| <= 4 && 1 <= num <= 99 && num < |groups|;
            && Expand("\\" + ds + rest, groups) == (if good then Then(groups[num], Expand(rest, groups)) else None)
            && CodeExpand("\\" + ds + rest, groups) ==
               (if !good then None else if rest == [] then Some(groups[num])
                else Then(groups[num] + [rest[0]], CodeExpand(rest[1..], groups)))
  {
    hide Span, Value;
    var t := "\\" + ds + rest;
    assert t[1..] == ds + rest;
    SpanOf(IsDigit, ds, rest);
    assert (ds + rest)[..|ds|] == ds && t[1 + |ds|..] == rest;
    assert rest != [] ==> t[2 + |ds|..] == rest[1..];
  }

  lemma OneReference(d: char, rest: string, groups: seq<string>)
    requires '1' <= d <= '9' && (rest != [] ==> !IsDigit(rest[0])) && d as int - '0' as int < |groups|
    ensures var t := ['\\', d] + rest;
            var group := groups[d as int - '0' as int];
            && Expand(t, groups) == Then(group, Expand(rest, groups))
            && CodeExpand(t, groups) == if rest == [] then Some(group)
                else Then(group + [rest[0]], CodeExpand(rest[1..], groups))
  {
    hide Expand, CodeExpand;
    NumberIs("", d);
    ReferenceIs([d], rest, groups);
    assert "\\" + [d] + rest == ['\\', d] + rest;
  }

  /** Two digits name one group: \10 is the tenth, not the first and a zero. */
  lemma TenthGroup(groups: seq<string>)
    requires |groups| > 10
    ensures Expand("\\10", groups) == CodeExpand("\\10", groups) == Some(groups[10])
    ensures Expand("\\100", groups) == CodeExpand("\\100", groups) == None
  {
    hide Expand, CodeExpand, Value;
    NumberIs("", '1');
    NumberIs("1", '0');
    NumberIs("10", '0');
    assert ['1'] == "1" && "1" + ['0'] == "10" && "10" + ['0'] == "100";
    ReferenceIs("10", "", groups);
    ReferenceIs("100", "", groups);
    assert "\\" + "10" + "" == "\\10" && "\\" + "100" + "" == "\\100";
    EscapeIsCopied('n', "", groups);
    assert groups[10] + "" == groups[10];
  }

  // ---- the routine, on its buffers ----

  // Everything written to the substitution buffer, and whether no reference was bad. A
  // fifth digit is noticed without stopping: the first four count as the reference.
  datatype Output = Output(bytes: string, fine: bool)

  function CharAt(t: string, i: nat): char {
    if i < |t| then t[i] else NUL
  }

  function Prefixed(head: string, o: Output): Output {
    Output(head + o.bytes, o.fine)
  }

  function RefLength(s: string): (k: nat)
    ensures k <= RefDigits(s) && k <= MAX_DIGITS
  {
    if RefDigits(s) <= MAX_DIGITS then RefDigits(s) else MAX_DIGITS
  }

  // The main loop from position pos on.
  function Written(t: string, pos: nat, groups: seq<string>): Output
    decreases |t| - pos
  {
    if pos >= |t| then Output([], true)
    else if t[pos] != '\\' then Prefixed([t[pos]], Written(t, pos + 1, groups))
    else if !IsDigit(CharAt(t, pos + 1)) then Prefixed([t[pos], CharAt(t, pos + 1)], Written(t, pos + 2, groups))
    else
      var k := RefLength(t[pos + 1..]);
      var num := Number(t[pos + 1..], k);
      if !InRange(num) || num >= |groups| then Output([], false)
      else
        var o := Prefixed(groups[num] + [CharAt(t, pos + 1 + k)], Written(t, pos + 2 + k, groups));
        if RefDigits(t[pos + 1..]) > MAX_DIGITS then o.(fine := false) else o
  }

  lemma CStringOf(text: string, bytes: string)
    requires NulFree(text) && (bytes == text || bytes == text + [NUL])
    ensures CString(bytes) == text
  {
    if bytes == text {
      SpanOf(Unlike(NUL), text, []);
      assert text + [] == text;
    } else {
      SpanOf(Unlike(NUL), text, [NUL]);
    }
  }

  // The buffer spells the expansion, with at most one NUL after it.
  predicate Spells(o: Output, e: Option<string>) {
    && (o.fine <==> e.Some?)
    && (e.Some? ==> NulFree(e.value) && (o.bytes == e.value || o.bytes == e.value + [NUL]))
  }

  lemma SpellsBehind(head: string, o: Output, e: Option<string>)
    requires Spells(o, e) && NulFree(head)
    ensures Spells(Prefixed(head, o), Then(head, e))
  {
    if e.Some? { assert head + (e.value + [NUL]) == head + e.value + [NUL]; }
  }

  lemma {:induction false} WrittenSpells(t: string, pos: nat, groups: seq<string>)
    requires pos <= |t| && NulFree(t) && forall g :: 0 <= g < |groups| ==> NulFree(groups[g])
    ensures Spells(Written(t, pos, groups), CodeExpand(t[pos..], groups))
    decreases |t| - pos
  {
    hide RefDigits, Number, Spells;
    var s := t[pos..];
    if pos == |t| {
      SpellsEnd([], []);
    } else if t[pos] != '\\' {
      assert s[1..] == t[pos + 1..];
      WrittenSpells(t, pos + 1, groups);
      SpellsBehind([t[pos]], Written(t, pos + 1, groups), CodeExpand(t[pos + 1..], groups));
    } else if |s| == 1 {
      assert Written(t, pos, groups).bytes == "\\" + [NUL];
      SpellsEnd("\\", [NUL]);
    } else if !IsDigit(s[1]) {
      assert s[2..] == t[pos + 2..];
      WrittenSpells(t, pos + 2, groups);
      SpellsBehind([t[pos], t[pos + 1]], Written(t, pos + 2, groups), CodeExpand(t[pos + 2..], groups));
    } else {
      assert s[1..] == t[pos + 1..];
      ReferenceSpells(t, pos, groups);
    }
  }

  lemma SpellsEnd(text: string, last: string)
    requires NulFree(text) && (last == [] || last == [NUL])
    ensures Spells(Output(text + last, true), Some(text))
  {
    if last == [] { assert text + last == text; }
  }

  lemma SpellsNone(o: Output)
    requires !o.fine
    ensures Spells(o, None)
  {
  }

  lemma ReferenceSpells(t: string, pos: nat, groups: seq<string>)
    requires pos + 1 < |t| && t[pos] == '\\' && IsDigit(t[pos + 1])
    requires NulFree(t) && forall g :: 0 <= g < |groups| ==> NulFree(groups[g])
    ensures Spells(Written(t, pos, groups), CodeExpand(t[pos..], groups))
    decreases |t| - pos, 0
  {
    hide RefDigits, Number, Spells;
    var s := t[pos..];
    assert s[1..] == t[pos + 1..];
    var n := RefDigits(s[1..]);
    if n > MAX_DIGITS {
      SpellsNone(Written(t, pos, groups));
    } else {
      var num := Number(s[1..], n);
      if !InRange(num) || num >= |groups| {
        SpellsNone(Written(t, pos, groups));
      } else if pos + 1 + n == |t| {
        assert s[1 + n..] == [];
        assert Written(t, pos, groups).bytes == groups[num] + [NUL];
        SpellsEnd(groups[num], [NUL]);
      } else {
        assert s[2 + n..] == t[pos + 2 + n..] && s[1 + n] == t[pos + 1 + n];
        assert s[1 + n..] != [];
        WrittenSpells(t, pos + 2 + n, groups);
        SpellsBehind(groups[num] + [t[pos + 1 + n]], Written(t, pos + 2 + n, groups),
                     CodeExpand(t[pos + 2 + n..], groups));
      }
    }
  }

  // Appending to the substitution buffer.
  method Append(buf: array<char>, si: nat, text: string) returns (n: nat)
    requires si + |text| <= buf.Length
    modifies buf
    ensures n == si + |text| && buf[..n] == old(buf[..si]) + text
  {
    for k := 0 to |text|
      invariant buf[..si] == old(buf[..si])
      invariant buf[si..si + k] == text[..k]
    {
      buf[si + k] := text[k];
    }
    n := si + |text|;
    assert buf[..n] == buf[..si] + buf[si..n];
  }

  method Atoi(index: array<char>, ic: nat) returns (num: nat)
    requires ic <= index.Length && forall i :: 0 <= i < ic ==> IsDigit(index[i])
    ensures num == Value(index[..ic])
  {
    num := 0;
    for k := 0 to ic
      invariant num == Value(index[..k])
    {
      assert index[..k + 1][..k] == index[..k];
      num := 10 * num + (index[k] as int - '0' as int);
    }
  }

  // The digits after a backslash, at most four of them, as a number.
  method ReadReference(t: string, start: nat, index: array<char>) returns (num: nat, pos: nat, tooLong: bool)
    requires start <= |t| && index.Length == MAX_DIGITS + 1
    modifies index
    ensures pos == start + RefLength(t[start..]) && pos <= |t|
    ensures tooLong == (RefDigits(t[start..]) > MAX_DIGITS)
    ensures num == Number(t[start..], RefLength(t[start..]))
  {
    hide Span;
    var ic := 0;
    pos := start;
    tooLong := false;
    ghost var s := t[start..];
    while pos < |t| && IsDigit(t[pos])
      invariant start <= pos <= |t| && ic == pos - start <= MAX_DIGITS
      invariant forall i :: 0 <= i < ic ==> IsDigit(s[i])
      invariant index[..ic] == s[..ic]
    {
      if ic > MAX_DIGITS - 1 {
        tooLong := true;
        break;
      }
      index[ic] := t[pos];
      ic := ic + 1;
      pos := pos + 1;
      assert index[..ic] == index[..ic - 1] + [t[pos - 1]];
    }
    DigitsEnd(s, ic);
    forall i | 0 <= i < ic ensures IsDigit(index[i]) { assert index[..ic][i] == s[i]; }
    index[ic] := NUL;
    assert index[..ic] == s[..ic];
    num := Atoi(index, ic);
  }

  lemma DigitsEnd(s: string, ic: nat)
    requires ic <= |s| && forall i :: 0 <= i < ic ==> IsDigit(s[i])
    ensures ic < |s| && IsDigit(s[ic]) ==> RefDigits(s) > ic
    ensures ic == |s| || !IsDigit(s[ic]) ==> RefDigits(s) == ic
  {
    SpanFrom(IsDigit, s, ic);
  }

  /** performRegexReplace, given the groups that matched; fewer than two groups stand for
      a failed match or a pattern without groups. */
  method PerformRegexReplace(str: Option<string>, pattern: Option<string>, replace: Option<string>, groups: seq<string>)
    returns (result: Option<string>)
    requires forall g :: 0 <= g < |groups| ==> NulFree(groups[g])
    requires replace.Some? ==> NulFree(replace.value) && |Written(replace.value, 0, groups).bytes| < MAX_SUBST_LEN
    ensures result == if Usable(str) && Usable(pattern) && Usable(replace) && |groups| > 1
                      then NonEmpty(CodeExpand(replace.value, groups)) else None
  {
    if str.None? || str.value == [] { return None; }
    if pattern.None? || pattern.value == [] { return None; }
    if replace.None? || replace.value == [] { return None; }
    if |groups| <= 1 {
      return None;
    }
    var substitute := new char[MAX_SUBST_LEN](_ => NUL);
    var si, fail := FillSubstitute(replace.value, groups, substitute);
    WrittenSpells(replace.value, 0, groups);
    assert replace.value[0..] == replace.value;
    if fail {
      return None;
    }
    CStringOf(CodeExpand(replace.value, groups).value, substitute[..si]);
    var text := CString(substitute[..si]);
    return if text == [] then None else Some(text);   // am_strdup
  }

  // One placeholder: `stop` if it is out of range or names no group, otherwise its group
  // and the character after it are copied.
  method FillReference(t: string, pos: nat, groups: seq<string>, substitute: array<char>, si: nat, index: array<char>)
    returns (stop: bool, tooLong: bool, n: nat, next: nat)
    requires pos < |t| && t[pos] == '\\' && IsDigit(CharAt(t, pos + 1))
    requires index != substitute && index.Length == MAX_DIGITS + 1
    requires si + |Written(t, pos, groups).bytes| <= substitute.Length
    modifies substitute, index
    ensures si <= n <= substitute.Length && next > pos
    ensures stop ==>
              && Written(t, pos, groups) == Output([], false) && n == si
              && substitute[..si] == old(substitute[..si])
    ensures !stop ==>
              && substitute[..n] + Written(t, next, groups).bytes ==
                 old(substitute[..si]) + Written(t, pos, groups).bytes
              && Written(t, pos, groups).fine == (!tooLong && Written(t, next, groups).fine)
  {
    hide Written, RefDigits, RefLength, Number, InRange, IsDigit;
    WrittenStep(t, pos, groups);
    var num: nat;
    num, next, tooLong := ReadReference(t, pos + 1, index);
    n := si;
    stop := !InRange(num) || num >= |groups|;
    if stop {
      next := pos + 1;
    } else {
      n := Append(substitute, si, groups[num] + [CharAt(t, next)]);
      next := next + 1;
    }
  }

  // One step of the main loop.
  method WriteStep(t: string, pos: nat, groups: seq<string>, substitute: array<char>, si: nat, index: array<char>)
    returns (stop: bool, tooLong: bool, n: nat, next: nat)
    requires pos < |t| && index != substitute && index.Length == MAX_DIGITS + 1
    requires si + |Written(t, pos, groups).bytes| <= substitute.Length
    modifies substitute, index
    ensures si <= n <= substitute.Length && next > pos
    ensures stop ==>
              && Written(t, pos, groups) == Output([], false) && n == si
              && substitute[..si] == old(substitute[..si])
    ensures !stop ==>
              && substitute[..n] + Written(t, next, groups).bytes ==
                 old(substitute[..si]) + Written(t, pos, groups).bytes
              && Written(t, pos, groups).fine == (!tooLong && Written(t, next, groups).fine)
  {
    hide Written, RefDigits, RefLength, Number, InRange, IsDigit;
    if t[pos] == '\\' && IsDigit(CharAt(t, pos + 1)) {
      stop, tooLong, n, next := FillReference(t, pos, groups, substitute, si, index);
      return;
    }
    WrittenStep(t, pos, groups);
    stop, tooLong := false, false;
    if t[pos] == '\\' {
      n := Append(substitute, si, [t[pos], CharAt(t, pos + 1)]);
      next := pos + 2;
    } else {
      n := Append(substitute, si, [t[pos]]);
      next := pos + 1;
    }
  }

  method FillSubstitute(t: string, groups: seq<string>, substitute: array<char>) returns (si: nat, fail: bool)
    requires substitute.Length == MAX_SUBST_LEN && |Written(t, 0, groups).bytes| < MAX_SUBST_LEN
    modifies substitute
    ensures si < MAX_SUBST_LEN && substitute[si] == NUL
    ensures fail == !Written(t, 0, groups).fine
    ensures !fail ==> substitute[..si] == Written(t, 0, groups).bytes
  {
    hide Written;
    var index := new char[MAX_DIGITS + 1];
    var pos := 0;
    ghost var goal := Written(t, 0, groups);
    si, fail := 0, false;
    while pos < |t|
      invariant 0 <= si < MAX_SUBST_LEN
      invariant substitute[..si] + Written(t, pos, groups).bytes == goal.bytes
      invariant (!fail && Written(t, pos, groups).fine) == goal.fine
      decreases |t| - pos
    {
      var stop, tooLong: bool;
      stop, tooLong, si, pos := WriteStep(t, pos, groups, substitute, si, index);
      if tooLong { fail := true; }
      if stop {
        substitute[si] := NUL;
        return si, true;
      }
    }
    WrittenEnd(t, pos, groups);
    substitute[si] := NUL;
  }

  lemma WrittenEnd(t: string, pos: nat, groups: seq<string>)
    requires pos >= |t|
    ensures Written(t, pos, groups) == Output([], true)
  {
  }

  lemma WrittenStep(t: string, pos: nat, groups: seq<string>)
    requires pos < |t|
    ensures t[pos] != '\\' ==> Written(t, pos, groups) == Prefixed([t[pos]], Written(t, pos + 1, groups))
    ensures t[pos] == '\\' && !IsDigit(CharAt(t, pos + 1)) ==>
              Written(t, pos, groups) == Prefixed([t[pos], CharAt(t, pos + 1)], Written(t, pos + 2, groups))
    ensures t[pos] == '\\' && IsDigit(CharAt(t, pos + 1)) ==>
              var k := RefLength(t[pos + 1..]);
              var num := Number(t[pos + 1..], k);
              if !InRange(num) || num >= |groups| then Written(t, pos, groups) == Output([], false)
              else
                && Written(t, pos, groups).bytes ==
                   groups[num] + [CharAt(t, pos + 1 + k)] + Written(t, pos + 2 + k, groups).bytes
                && Written(t, pos, groups).fine ==
                   (RefDigits(t[pos + 1..]) <= MAX_DIGITS && Written(t, pos + 2 + k, groups).fine)
  {
    hide RefDigits, RefLength, Number;
  }
}
