/** Saving and loading the download history (src/state.c). */
module StateFile {
  import opened CStrings
  import opened Wrappers
  import opened LinkedList

  const MAX_LINE_LEN: nat := 2048

  /** One line for each entry. */
  function Serialize(h: seq<string>): string {
    if h == [] then [] else h[0] + "\n" + Serialize(h[1..])
  }

  // How many bytes one call of fgets takes from a non-empty file with a buffer of
  // `room` + 1 bytes: up to and including the first newline.
  function TakenBy(file: string, room: nat): (n: nat)
    ensures n <= |file| && n <= room
    ensures file != [] && room > 0 ==> n > 0
    ensures forall i :: 0 <= i < n - 1 ==> file[i] != '\n'
    ensures n < |file| && n < room ==> n > 0 && file[n - 1] == '\n'
  {
    if file == [] || room == 0 then 0
    else if file[0] == '\n' then 1
    else 1 + TakenBy(file[1..], room - 1)
  }

  // What one chunk of fgets adds: its text up to the first NUL without the last character,
  // and nothing if it begins with a NUL (am_strndup then returns NULL).
  function Loaded(chunk: string): seq<string> {
    var line := CString(chunk);
    if line == [] then [] else [line[..|line| - 1]]
  }

  /** The entries load_state reads, chunk by chunk. */
  function Entries(file: string): seq<string>
    decreases |file|
  {
    if file == [] then []
    else
      var n := TakenBy(file, MAX_LINE_LEN - 1);
      Loaded(file[..n]) + Entries(file[n..])
  }

  // The next line, or as much of it as the line buffer takes.
  method Fgets(file: string, pos: nat) returns (line: string)
    requires pos < |file|
    ensures line == file[pos..pos + TakenBy(file[pos..], MAX_LINE_LEN - 1)]
    ensures 0 < |line| <= 2047 && '\n' !in line[..|line| - 1]
    ensures |line| == 2047 || line[|line| - 1] == '\n' || pos + |line| == |file|
  {
    line := [];
    ghost var total := TakenBy(file[pos..], MAX_LINE_LEN - 1);
    while pos + |line| < |file| && |line| < MAX_LINE_LEN - 1
      invariant |line| <= total && pos + |line| <= |file| && |line| <= MAX_LINE_LEN - 1
      invariant line == file[pos..pos + |line|]
      invariant TakenBy(file[pos + |line|..], MAX_LINE_LEN - 1 - |line|) == total - |line|
      decreases MAX_LINE_LEN - |line|
    {
      var c := file[pos + |line|];
      assert file[pos + |line|..][0] == c;
      assert file[pos + |line|..][1..] == file[pos + |line| + 1..];
      line := line + [c];
      if c == '\n' {
        return;
      }
    }
  }

  /** Each entry is followed by a newline. */
  lemma {:induction false} SerializeIs(h: seq<string>, s: string)
    ensures Serialize([]) == "" && Serialize(h + [s]) == Serialize(h) + s + "\n"
  {
    if h == [] {
      assert [s][1..] == [] && h + [s] == [s];
    } else {
      SerializeIs(h[1..], s);
      assert (h + [s])[1..] == h[1..] + [s];
    }
  }

  /** save_state, with every write succeeding: the new contents of the state file. */
  method SaveState(downloads: SimpleList) returns (file: string)
    requires downloads.Valid()
    ensures file == Serialize(downloads.Contents())
  {
    file := [];
    var current := downloads.head;
    ghost var all := downloads.Contents();
    ghost var i := 0;
    while current != null
      invariant 0 <= i <= |all| && current == Nth(downloads.spine, i)
      invariant file + Serialize(all[i..]) == Serialize(all)
      decreases |all| - i
    {
      assert all[i..][1..] == all[i + 1..];
      file := file + current.data;
      file := file + "\n";
      current := current.next;
      i := i + 1;
    }
  }

  lemma NextEntry(file: string, pos: nat)
    requires pos < |file|
    ensures var n := TakenBy(file[pos..], MAX_LINE_LEN - 1);
            && 0 < n <= |file| - pos
            && Entries(file[pos..]) == Loaded(file[pos..pos + n]) + Entries(file[pos + n..])
  {
    var n := TakenBy(file[pos..], MAX_LINE_LEN - 1);
    assert file[pos..][n..] == file[pos + n..];
    assert file[pos..][..n] == file[pos..pos + n];
  }

  lemma NoEntries()
    ensures Entries([]) == []
  {
  }

  // The body of the loop in load_state.
  method LoadLine(line: string, list: SimpleList)
    requires list.Valid()
    modifies list, list.spine
    ensures list.Valid() && list.Contents() == old(list.Contents()) + Loaded(line)
    ensures old(list.spine) <= list.spine && forall k :: |old(list.spine)| <= k < |list.spine| ==> fresh(list.spine[k])
  {
    hide Spine, Values, CString;
    var text := CString(line);   // len = strlen(line)
    var data := if text == [] then None else Some(text[..|text| - 1]);
    var _ := list.AddToTail(data);
  }

  /** load_state: append the entries of the file to the list. */
  method LoadState(file: string, list: SimpleList)
    requires list.Valid()
    modifies list, list.spine
    ensures list.Valid()
    ensures list.Contents() == old(list.Contents()) + Entries(file)
  {
    hide Spine, Values, Entries, TakenBy, Loaded;
    ghost var before := list.Contents();
    ghost var nodes := list.spine;
    var pos := 0;
    while pos < |file|
      invariant 0 <= pos <= |file|
      invariant list.Valid()
      invariant list.Contents() + Entries(file[pos..]) == before + Entries(file)
      invariant nodes <= list.spine && forall k :: |nodes| <= k < |list.spine| ==> fresh(list.spine[k])
      decreases |file| - pos
    {
      var line := Fgets(file, pos);
      NextEntry(file, pos);
      LoadLine(line, list);
      pos := pos + |line|;
    }
    assert file[pos..] == [];
    NoEntries();
  }

  // ---- saving and loading again ----

  predicate NewlineFree(s: string) {
    forall i :: 0 <= i < |s| ==> s[i] != '\n'
  }

  // Entries the file format can carry: a C string of one line, short enough for the line
  // buffer.
  predicate Storable(s: string) {
    NulFree(s) && NewlineFree(s) && |s| <= MAX_LINE_LEN - 2
  }

  predicate AllStorable(h: seq<string>) {
    forall i :: 0 <= i < |h| ==> Storable(h[i])
  }

  lemma {:induction false} TakenLine(s: string, rest: string, room: nat)
    requires NewlineFree(s) && |s| < room
    ensures TakenBy(s + "\n" + rest, room) == |s| + 1
  {
    if s != [] {
      assert (s + "\n" + rest)[1..] == s[1..] + "\n" + rest;
      TakenLine(s[1..], rest, room - 1);
    }
  }

  lemma LoadedLine(s: string)
    requires NulFree(s)
    ensures Loaded(s + "\n") == [s]
  {
    SpanOf(Unlike('\0'), s + "\n", []);
    assert s + "\n" + [] == s + "\n";
  }

  // One line of the file, with its newline.
  lemma LineIsOneChunk(line: string, rest: string)
    requires NewlineFree(line) && |line| <= 2046
    ensures Entries(line + "\n" + rest) == Loaded(line + "\n") + Entries(rest)
  {
    hide TakenBy, Loaded;
    var file := line + "\n" + rest;
    TakenLine(line, rest, MAX_LINE_LEN - 1);
    assert file[..|line| + 1] == line + "\n" && file[|line| + 1..] == rest;
  }

  /** A NUL cuts its line, and the last character before it; a line that begins with one
      adds nothing. */
  lemma NulCutsLine(s: string, t: string, rest: string)
    requires NewlineFree(s + "\0" + t) && NulFree(s) && |s + "\0" + t| <= 2046
    ensures var file := s + "\0" + t + "\n" + rest;
            Entries(file) == (if s == "" then [] else [s[..|s| - 1]]) + Entries(rest)
  {
    hide Entries;
    var line := s + "\0" + t;
    LineIsOneChunk(line, rest);
    assert line + "\n" == s + ['\0'] + (t + "\n");
    CStringEnds(s, t + "\n");
  }

  lemma {:induction false} TakenFull(s: string, rest: string, room: nat)
    requires NewlineFree(s) && (|s| == room || (|s| < room && rest == []))
    ensures TakenBy(s + rest, room) == |s|
  {
    if s == [] {
      assert s + rest == rest;
    } else {
      assert (s + rest)[1..] == s[1..] + rest;
      TakenFull(s[1..], rest, room - 1);
    }
  }

  /** What does not end with a newline loses its last character: the end of the file, and
      each full line buffer of a longer line. */
  lemma UnendedLineIsCut(s: string, rest: string)
    requires NewlineFree(s) && NulFree(s) && s != [] && (|s| == 2047 || (|s| < 2047 && rest == []))
    ensures Entries(s + rest) == [s[..|s| - 1]] + Entries(rest)
  {
    hide TakenBy;
    TakenFull(s, rest, MAX_LINE_LEN - 1);
    assert (s + rest)[..|s|] == s && (s + rest)[|s|..] == rest;
    CStringEnds(s, "");
  }

  lemma {:induction false} LoadAfterSave(h: seq<string>)
    requires AllStorable(h)
    ensures Entries(Serialize(h)) == h
  {
    hide Entries, Loaded;
    if h == [] {
      NoEntries();
    } else {
      assert Storable(h[0]);
      LineIsOneChunk(h[0], Serialize(h[1..]));
      LoadedLine(h[0]);
      LoadAfterSave(h[1..]);
    }
  }

  // Where a line ends, chunking ends too: what follows it is read on its own.
  lemma {:induction false} TakenWithin(s: string, rest: string, room: nat)
    ensures TakenBy(s + "\n" + rest, room) == TakenBy(s + "\n", room)
    ensures TakenBy(s + "\n", room) <= |s| + 1
  {
    if s == [] {
      assert s + "\n" == "\n" && s + "\n" + rest == "\n" + rest;
    } else if room > 0 {
      assert (s + "\n" + rest)[1..] == s[1..] + "\n" + rest;
      assert (s + "\n")[1..] == s[1..] + "\n";
      TakenWithin(s[1..], rest, room - 1);
    }
  }

  lemma {:induction false} EntriesSplit(s: string, rest: string)
    ensures Entries(s + "\n" + rest) == Entries(s + "\n") + Entries(rest)
    decreases |s|
  {
    hide TakenBy, Loaded;
    var file, line := s + "\n" + rest, s + "\n";
    var n := TakenBy(line, MAX_LINE_LEN - 1);
    TakenWithin(s, rest, MAX_LINE_LEN - 1);
    assert file[..n] == line[..n];
    if n == |line| {
      assert line[n..] == [] && file[n..] == rest;
      NoEntries();
    } else {
      assert line[n..] == s[n..] + "\n" && file[n..] == s[n..] + "\n" + rest;
      EntriesSplit(s[n..], rest);
    }
  }

  /** A newline in an entry splits it: two lines are read back for one. */
  lemma NewlineSplitsEntry()
    ensures Entries(Serialize(["a\nb"])) == ["a", "b"]
    ensures Entries("a\nb\n") == ["a", "b"]
  {
    var two := ["a", "b"];
    assert two[1..] == ["b"] && ["b"][1..] == [] && ["a\nb"][1..] == [];
    assert Serialize([]) == [];
    assert Serialize(["b"]) == "b" + "\n" + [] == "b\n";
    assert Serialize(two) == "a" + "\n" + "b\n" == "a\nb\n";
    assert Serialize(["a\nb"]) == "a\nb" + "\n" + [] == "a\nb\n";
    assert Storable("a") && Storable("b");
    LoadAfterSave(two);
  }

  lemma LoadedPiece(chunk: string)
    requires |chunk| < MAX_LINE_LEN && forall i :: 0 <= i < |chunk| - 1 ==> chunk[i] != '\n'
    ensures AllStorable(Loaded(chunk))
  {
    hide Span;
    var line := CString(chunk);
    if line != [] { assert Storable(line[..|line| - 1]); }
  }

  // Whatever is loaded can be saved and loaded again.
  lemma {:induction false} LoadedIsStorable(file: string)
    ensures AllStorable(Entries(file))
    decreases |file|
  {
    if file != [] {
      var n := TakenBy(file, MAX_LINE_LEN - 1);
      LoadedIsStorable(file[n..]);
      LoadedPiece(file[..n]);
    }
  }

  /** Loading what was saved gives the history back exactly when every entry is one
      line of at most 2046 bytes. */
  lemma RoundTripExactly(h: seq<string>)
    ensures Entries(Serialize(h)) == h <==> AllStorable(h)
    ensures AllStorable(h) <==> forall s :: s in h ==> |s| <= 2046 && '\n' !in s && '\0' !in s
  {
    if AllStorable(h) {
      LoadAfterSave(h);
    } else {
      LoadedIsStorable(Serialize(h));
    }
  }
}
