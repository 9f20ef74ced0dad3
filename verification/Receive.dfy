/**
 Receiving over HTTP (src/web.c): the buffer that the transfer callbacks fill, and the
 upload that is repeated once when the server answers with a new session id.

 The transfer itself is an oracle: an exchange is the run of callbacks the library makes,
 its result, and the response code.
 */
module Receive {
  import opened CStrings
  import opened Wrappers
  import opened StringUtils

  const DATA_BUFFER_SIZE: nat := 1024 * 100
  const INT_MAX: nat := 0x7fff_ffff
  const MAXLEN: nat := 200
  const TRIES: nat := 2
  const CONFLICT: int := 409
  const SESSION_KEY: string := "X-Transmission-Session-Id: "

  /** A header line: its text, and what the regular expressions capture in it, the
      announced length (after atoi) and the file name. */
  datatype Line = Line(text: string, length: Option<int>, filename: Option<string>)

  // One call of the header callback or of the data callback.
  datatype Event = Header(line: Line) | Chunk(bytes: string)

  datatype Exchange = Exchange(events: seq<Event>, failed: bool, code: int)

  datatype HTTPResponse = HTTPResponse(data: Option<string>, filename: Option<string>, size: nat, responseCode: int)

  // ---- header lines ----

  predicate IsLocation(l: Line) {
    "Location:" <= l.text
  }

  predicate IsLength(l: Line) {
    "Content-Length:" <= l.text
  }

  function Lower(c: char): char {
    if 'A' <= c <= 'Z' then (c as int + 32) as char else c
  }

  // The only name that is compared without regard to case.
  predicate IsDisposition(l: Line) {
    var name := "content-disposition:";
    |name| <= |l.text| && forall i :: 0 <= i < |name| ==> Lower(l.text[i]) == name[i]
  }

  predicate IsBlank(l: Line) {
    "\r\n" <= l.text
  }

  predicate IsSession(l: Line) {
    SESSION_KEY <= l.text
  }

  predicate NotSpace(c: char) {
    !IsSpace(c)
  }

  function SessionOf(l: Line): string
    requires IsSession(l)
  {
    var rest := l.text[|SESSION_KEY|..];
    rest[..Span(NotSpace, rest)]
  }

  // The code's own limits: the length fits an int with room for the terminator, a session
  // id ends before the line does and fits the buffer it is sent from.
  predicate Acceptable(l: Line) {
    && (l.length.Some? ==> l.length.value < INT_MAX)
    && (IsSession(l) ==>
          && |SessionOf(l)| < |l.text| - |SESSION_KEY|
          && NulFree(SessionOf(l)) && |SESSION_KEY| + |SessionOf(l)| < MAXLEN)
  }

  // A line that announces a length.
  predicate Announces(l: Line) {
    IsLength(l) && l.length.Some? && l.length.value > 0
  }

  // Whether a redirect is in progress after a line. Uploads to Transmission do not look.
  function NextMoving(moving: bool, e: Event): bool {
    if e.Header? then IsLocation(e.line) || (moving && !IsBlank(e.line)) else moving
  }

  // After `arrived` bytes: no redirect, and no length below what has arrived, unless it is
  // not believed because a redirect is in progress.
  predicate Harmless(l: Line, arrived: nat, moving: bool, transmission: bool) {
    if transmission then Announces(l) ==> l.length.value >= arrived
    else
      && (IsLocation(l) ==> arrived == 0)
      && (Announces(l) && !moving ==> l.length.value >= arrived)
  }

  /** A run of callbacks in which no header line comes too late: bodies of redirects are not
      delivered, and a length that follows body bytes covers them. */
  predicate Orderly(events: seq<Event>, arrived: nat, moving: bool, transmission: bool) {
    events == [] ||
    (match events[0]
     case Header(l) =>
       && Acceptable(l) && Harmless(l, arrived, moving, transmission)
       && Orderly(events[1..], arrived, NextMoving(moving, events[0]), transmission)
     case Chunk(c) => Orderly(events[1..], arrived + |c|, moving, transmission))
  }

  /** What the chunks of a run add up to. */
  function Body(events: seq<Event>): string {
    if events == [] then [] else Bytes(events[0]) + Body(events[1..])
  }

  function Bytes(e: Event): string {
    match e case Header(_) => [] case Chunk(c) => c
  }

  // The two things remembered from header lines.
  function NextSession(session: Option<string>, e: Event): Option<string> {
    if e.Header? && IsSession(e.line) then Some(SessionOf(e.line)) else session
  }

  function NextFilename(name: Option<string>, e: Event): Option<string> {
    if e.Header? && IsDisposition(e.line) && e.line.filename.Some? then e.line.filename else name
  }

  // The session id after a run of callbacks: that of the last session line.
  function SessionAfter(session: Option<string>, events: seq<Event>): Option<string>
    decreases |events|
  {
    if events == [] then session else SessionAfter(NextSession(session, events[0]), events[1..])
  }

  function MovingAfter(moving: bool, events: seq<Event>): bool
    decreases |events|
  {
    if events == [] then moving else MovingAfter(NextMoving(moving, events[0]), events[1..])
  }

  function FilenameAfter(name: Option<string>, events: seq<Event>): Option<string>
    decreases |events|
  {
    if events == [] then name else FilenameAfter(NextFilename(name, events[0]), events[1..])
  }

  // The run from position i on, one callback at a time.
  lemma EventsStep(events: seq<Event>, i: nat, arrived: nat, moving: bool, transmission: bool)
    requires i < |events|
    ensures var e := events[i];
            && (Orderly(events[i..], arrived, moving, transmission) ==>
                  && (e.Header? ==> Acceptable(e.line) && Harmless(e.line, arrived, moving, transmission))
                  && Orderly(events[i + 1..], arrived + |Bytes(e)|, NextMoving(moving, e), transmission))
            && Body(events[i..]) == Bytes(e) + Body(events[i + 1..])
            && MovingAfter(moving, events[i..]) == MovingAfter(NextMoving(moving, e), events[i + 1..])
  {
    hide Acceptable, Harmless;
    assert events[i..][1..] == events[i + 1..] && events[i..][0] == events[i];
  }

  lemma MemoryStep(events: seq<Event>, i: nat, session: Option<string>, name: Option<string>)
    requires i < |events|
    ensures SessionAfter(session, events[i..]) == SessionAfter(NextSession(session, events[i]), events[i + 1..])
    ensures FilenameAfter(name, events[i..]) == FilenameAfter(NextFilename(name, events[i]), events[i + 1..])
  {
    hide NextSession, NextFilename;
    assert events[i..][1..] == events[i + 1..] && events[i..][0] == events[i];
  }

  lemma EventsEnd(session: Option<string>, name: Option<string>, moving: bool)
    ensures Body([]) == [] && MovingAfter(moving, []) == moving
    ensures SessionAfter(session, []) == session && FilenameAfter(name, []) == name
  {
  }

  // Uploads to Transmission do not look at the redirect flag.
  lemma MovingIsIdle(e: Event, arrived: nat, moving: bool, moving': bool)
    ensures e.Header? ==> (Harmless(e.line, arrived, moving, true) <==> Harmless(e.line, arrived, moving', true))
  {
  }

  lemma KindsAreDisjoint(l: Line)
    ensures !(IsLocation(l) && IsLength(l))
    ensures IsDisposition(l) ==> !IsLocation(l) && !IsLength(l)
    ensures IsBlank(l) ==> !IsLocation(l) && !IsLength(l) && !IsDisposition(l)
    ensures IsSession(l) ==> !IsLength(l)
  {
    if IsDisposition(l) {
      assert Lower(l.text[0]) == 'c' && Lower(l.text[8]) == 'd';
    }
    if IsLength(l) {
      assert l.text[0] == "Content-Length:"[0] && l.text[8] == "Content-Length:"[8];
    }
    if IsLocation(l) { assert l.text[0] == "Location:"[0]; }
    if IsBlank(l) { assert l.text[0] == "\r\n"[0]; }
    if IsSession(l) { assert l.text[0] == SESSION_KEY[0]; }
  }

  lemma BeginsWith(key: string, s: string)
    ensures key <= s <==> |key| <= |s| && s[..|key|] == key
  {
  }

  /** The lines that count, by how they begin; a length counts if it is positive. */
  lemma LineKinds(l: Line)
    ensures IsLocation(l) <==> |l.text| >= 9 && l.text[..9] == "Location:"
    ensures IsLength(l) <==> |l.text| >= 15 && l.text[..15] == "Content-Length:"
    ensures IsBlank(l) <==> |l.text| >= 2 && l.text[..2] == "\r\n"
    ensures IsSession(l) <==> |l.text| >= 27 && l.text[..27] == "X-Transmission-Session-Id: "
    ensures Announces(l) <==> IsLength(l) && exists n :: l.length == Some(n) && n >= 1
  {
    BeginsWith("Location:", l.text);
    BeginsWith("Content-Length:", l.text);
    BeginsWith("\r\n", l.text);
    BeginsWith("X-Transmission-Session-Id: ", l.text);
  }

  /** Only this one in any case. */
  lemma DispositionIs(l: Line)
    ensures IsDisposition(l) <==>
              && |l.text| >= 20
              && forall i :: 0 <= i < 20 ==>
                   var c, d := l.text[i], "content-disposition:"[i];
                   c == d || ('a' <= d <= 'z' && c as int == d as int - 32)
  {
  }

  /** A session line names the text up to the next white space. */
  lemma SessionIs(l: Line, id: string, rest: string)
    requires l.text == "X-Transmission-Session-Id: " + (id + rest)
    requires (forall i :: 0 <= i < |id| ==> !IsSpace(id[i])) && (rest != [] ==> IsSpace(rest[0]))
    ensures IsSession(l) && SessionOf(l) == id
  {
    assert l.text[27..] == id + rest;
    SpanOf(NotSpace, id, rest);
    assert (id + rest)[..|id|] == id;
  }

  /** A chunk adds its bytes, a line none. */
  lemma {:induction false} BodyGrows(es: seq<Event>, e: Event)
    ensures Body(es + [e]) == match e case Header(_) => Body(es) case Chunk(c) => Body(es) + c
  {
    if es == [] {
      assert es + [e] == [e] && [e][1..] == [] && Body([]) == [];
    } else {
      assert (es + [e])[1..] == es[1..] + [e];
      BodyGrows(es[1..], e);
    }
  }

  /** The last session line, the last file name, and the last redirect or end of headers are
      what is remembered. */
  lemma {:induction false} LastCounts(es: seq<Event>, e: Event, session: Option<string>, name: Option<string>,
                                        moving: bool)
    ensures SessionAfter(session, es + [e]) ==
            if e.Header? && IsSession(e.line) then Some(SessionOf(e.line)) else SessionAfter(session, es)
    ensures FilenameAfter(name, es + [e]) ==
            if e.Header? && IsDisposition(e.line) && e.line.filename.Some? then e.line.filename
            else FilenameAfter(name, es)
    ensures MovingAfter(moving, es + [e]) ==
            if e.Header? then IsLocation(e.line) || (MovingAfter(moving, es) && !IsBlank(e.line))
            else MovingAfter(moving, es)
  {
    hide IsSession, IsDisposition, IsLocation, IsBlank, SessionOf;
    if es == [] {
      assert es + [e] == [e] && [e][1..] == [];
      EventsEnd(NextSession(session, e), NextFilename(name, e), NextMoving(moving, e));
    } else {
      hide NextSession, NextFilename, NextMoving;
      assert (es + [e])[1..] == es[1..] + [e];
      LastCounts(es[1..], e, NextSession(session, es[0]), NextFilename(name, es[0]), NextMoving(moving, es[0]));
    }
  }

  // ---- the doubling buffer ----

  /** The size doubled until it suffices. */
  function Grown(size: nat, need: nat): (r: nat)
    requires size > 0
    decreases need - size
  {
    if size >= need then size else Grown(2 * size, need)
  }

  /** Doubling stops, at a size that suffices and is less than twice what is needed. */
  lemma {:induction false} GrownSuffices(size: nat, need: nat)
    requires size > 0
    ensures Grown(size, need) >= need
    ensures if size >= need then Grown(size, need) == size else size < Grown(size, need) < 2 * need
    decreases need - size
  {
    if size < need { GrownSuffices(2 * size, need); }
  }

  function TwoTo(k: nat): nat {
    if k == 0 then 1 else 2 * TwoTo(k - 1)
  }

  /** It is the smallest doubling that suffices. */
  lemma {:induction false} GrownIsDoubled(size: nat, need: nat) returns (k: nat)
    requires size > 0
    ensures Grown(size, need) == size * TwoTo(k) && (k == 0 || size * TwoTo(k - 1) < need)
    decreases need - size
  {
    if size >= need {
      k := 0;
    } else {
      var j := GrownIsDoubled(2 * size, need);
      k := j + 1;
      DoubleFirst(size, j);
      if j > 0 { DoubleFirst(size, j - 1); }
    }
  }

  lemma DoubleFirst(size: nat, j: nat)
    ensures 2 * size * TwoTo(j) == size * TwoTo(j + 1)
  {
    assert 2 * size * TwoTo(j) == size * (2 * TwoTo(j));
  }

  // am_strndup(data, n), data holding body and possibly more.
  predicate CopyOf(copy: Option<string>, body: string) {
    if body == [] then copy.None? || copy == Some([])
    else copy == if body[0] == NUL then None else Some(body)
  }

  // realloc: the bytes that fit are kept.
  method Realloc(p: array?<char>, size: nat) returns (q: array<char>)
    ensures fresh(q) && q.Length == size
    ensures p != null ==> forall i :: 0 <= i < p.Length && i < size ==> q[i] == p[i]
  {
    q := new char[size];
    if p != null {
      forall i | 0 <= i < p.Length && i < size {
        q[i] := p[i];
      }
    }
  }

  // memcpy of a chunk, and a terminator.
  method PutString(p: array<char>, at: nat, chunk: string)
    requires at + |chunk| < p.Length
    modifies p
    ensures p[..at + |chunk|] == old(p[..at]) + chunk && p[at + |chunk|] == NUL
  {
    forall k | 0 <= k < |chunk| {
      p[at + k] := chunk[k];
    }
    p[at + |chunk|] := NUL;
  }

  class HTTPData {
    var data: array?<char>
    var bufferSize: nat
    var bufferPos: nat

    constructor ()
      ensures Valid() && data == null && bufferSize == 0
    {
      data, bufferSize, bufferPos := null, 0, 0;
    }

    ghost predicate Valid()
      reads this, data
    {
      if data == null then bufferPos == 0
      else
        && data.Length == bufferSize > bufferPos
        && (bufferPos > 0 ==> data[bufferPos] == NUL)
    }

    /** The bytes received so far. */
    ghost function Received(): string
      reads this, data
      requires Valid()
    {
      if data == null then [] else data[..bufferPos]
    }

    // The redirect branch of write_header_callback. The position stays where it is.
    method Discard()
      requires Valid()
      modifies this
      ensures data == null && bufferPos == old(bufferPos)
      ensures bufferSize == if old(data) == null then old(bufferSize) else 0
    {
      if data != null {
        data := null;
        bufferSize := 0;
      }
    }

    /** The Content-Length branch: content and terminator are kept exactly when the length
        covers what has arrived. */
    method Announce(length: nat)
      requires Valid()
      modifies this
      ensures data != null && fresh(data) && bufferPos == old(bufferPos)
      ensures bufferSize == length + 1 == data.Length
      ensures Valid() <==> length >= old(bufferPos)
      ensures Valid() ==> Received() == old(Received())
    {
      ghost var before := Received();
      bufferSize := length + 1;
      data := Realloc(data, bufferSize);
      assert length >= bufferPos ==> data[..bufferPos] == before;
    }

    // The doubling loop: do ... while(buffer_size < need).
    method Grow(need: nat)
      requires bufferSize > 0
      modifies this`bufferSize
      ensures bufferSize == Grown(old(bufferSize), need)
    {
      if need > bufferSize {
        bufferSize := bufferSize * 2;
        while bufferSize < need
          invariant bufferSize > 0 && Grown(bufferSize, need) == Grown(old(bufferSize), need)
          decreases if bufferSize < need then need - bufferSize else 0
        {
          bufferSize := bufferSize * 2;
        }
      }
    }

    /** write_data_callback: the chunk is appended and terminated inside the buffer, which
        is doubled until it fits. */
    method Write(chunk: string)
      requires Valid()
      modifies this, data
      ensures Valid() && data != null && (data == old(data) || fresh(data))
      ensures bufferPos == old(bufferPos) + |chunk|
      ensures Received() == old(Received()) + chunk
      ensures bufferPos < bufferSize == data.Length && data[bufferPos] == NUL
      ensures bufferSize == Grown(if old(data) == null then DATA_BUFFER_SIZE else old(bufferSize),
                                  old(bufferPos) + |chunk| + 1)
      ensures old(data) == null && |chunk| < 102400 ==> bufferSize == 102400
    {
      hide Grown;
      GrownSuffices(if data == null then DATA_BUFFER_SIZE else bufferSize, bufferPos + |chunk| + 1);
      MakeRoom(|chunk|);
      PutString(data, bufferPos, chunk);
      bufferPos := bufferPos + |chunk|;
    }

    method MakeRoom(length: nat)
      requires Valid()
      modifies this`data, this`bufferSize
      ensures data != null && (data == old(data) || fresh(data))
      ensures bufferSize == Grown(if old(data) == null then DATA_BUFFER_SIZE else old(bufferSize),
                                  bufferPos + length + 1)
      ensures data.Length == bufferSize > bufferPos + length
      ensures data[..bufferPos] == old(Received())
    {
      hide Grown;
      if data == null {
        bufferSize := DATA_BUFFER_SIZE;
        data := Realloc(null, bufferSize);
      }
      GrownSuffices(bufferSize, bufferPos + length + 1);
      if bufferPos + length + 1 > bufferSize {
        Grow(bufferPos + length + 1);
        data := Realloc(data, bufferSize);
      }
    }

    // The receiving half of WebData_clear.
    method Clear()
      modifies this
      ensures Valid() && data == null && bufferSize == 0
    {
      data, bufferSize, bufferPos := null, 0, 0;
    }

    // am_strndup(data, buffer_pos), if there is data.
    method Copy() returns (copy: Option<string>, size: nat)
      requires Valid()
      ensures size == |Received()| && CopyOf(copy, Received())
      ensures size > 0 && Received()[0] != '\0' ==> copy == Some(Received())
      ensures size > 0 && Received()[0] == '\0' ==> copy == None
    {
      if data == null { return None, 0; }
      size := bufferPos;
      copy := if data[0] == NUL then None else Some(data[..size]);
    }
  }

  class WebData {
    const url: string
    const response: HTTPData
    var contentFilename: Option<string>

    constructor (url: string)
      ensures this.url == url && contentFilename == None
      ensures fresh(response) && response.Valid() && response.data == null
    {
      this.url := url;
      response := new HTTPData();
      contentFilename := None;
    }
  }

  // ---- uploads ----

  datatype Attempt = Attempt(sent: Option<string>, reply: Exchange)

  /** A server: its side of the exchange, for the number of tries left and the session
      header it is sent. */
  type Server = (nat, Option<string>) -> Exchange

  predicate Conflict(e: Exchange) {
    !e.failed && e.code == CONFLICT
  }

  function SessionHeader(session: Option<string>): Option<string> {
    match session case None => None case Some(id) => Some(SESSION_KEY + id)
  }

  /** The attempts of one upload. Only a Transmission URL takes part in sessions. */
  function Attempts(server: Server, tries: nat, session: Option<string>, transmission: bool): seq<Attempt> {
    if tries == 0 then []
    else
      var sent := if transmission then SessionHeader(session) else None;
      var reply := server(tries - 1, sent);
      [Attempt(sent, reply)] +
      if !Conflict(reply) then []
      else Attempts(server, tries - 1, if transmission then SessionAfter(session, reply.events) else session,
                    transmission)
  }

  function Last(a: seq<Attempt>): Attempt
    requires a != []
  {
    a[|a| - 1]
  }

  /** Every reply that the attempts get is orderly. */
  predicate OrderlyReplies(server: Server, tries: nat, session: Option<string>, moving: bool, transmission: bool) {
    tries > 0 ==>
      var reply := server(tries - 1, if transmission then SessionHeader(session) else None);
      && Orderly(reply.events, 0, moving, transmission)
      && (Conflict(reply) ==>
            if transmission
              then OrderlyReplies(server, tries - 1, SessionAfter(session, reply.events), moving, transmission)
            else OrderlyReplies(server, tries - 1, session, MovingAfter(moving, reply.events), transmission))
  }

  // The session id remembered after the attempts.
  function SessionAfterAll(session: Option<string>, attempts: seq<Attempt>, transmission: bool): Option<string> {
    if attempts == [] || !transmission then session
    else SessionAfter(SessionAfterAll(session, attempts[..|attempts| - 1], transmission), Last(attempts).reply.events)
  }

  lemma NextAttempt(server: Server, tries: nat, session: Option<string>, transmission: bool,
                      start: Option<string>, done: seq<Attempt>)
    requires session == SessionAfterAll(start, done, transmission)
    ensures var sent := if transmission then SessionHeader(session) else None;
            var reply := server(tries, sent);
            var next := if transmission then SessionAfter(session, reply.events) else session;
            && next == SessionAfterAll(start, done + [Attempt(sent, reply)], transmission)
            && Attempts(server, tries + 1, session, transmission) ==
               [Attempt(sent, reply)] + if Conflict(reply) then Attempts(server, tries, next, transmission) else []
  {
    var sent := if transmission then SessionHeader(session) else None;
    var reply := server(tries, sent);
    assert (done + [Attempt(sent, reply)])[..|done|] == done;
  }

  lemma NoAttempts(server: Server, session: Option<string>, transmission: bool)
    ensures Attempts(server, 0, session, transmission) == [] && SessionAfterAll(session, [], transmission) == session
  {
  }

  /** A response that carries the bytes, the code and the file name of an exchange. */
  predicate Answers(resp: HTTPResponse, e: Exchange, name: Option<string>) {
    && resp.size == |Body(e.events)| && CopyOf(resp.data, Body(e.events))
    && resp.responseCode == e.code && resp.filename == NonEmpty(name)
  }

  lemma {:induction false} TriesBoundAttempts(server: Server, tries: nat, session: Option<string>, transmission: bool)
    ensures |Attempts(server, tries, session, transmission)| <= tries
    ensures tries > 0 ==> Attempts(server, tries, session, transmission) != []
  {
    if tries > 0 {
      var sent := if transmission then SessionHeader(session) else None;
      var reply := server(tries - 1, sent);
      TriesBoundAttempts(server, tries - 1, if transmission then SessionAfter(session, reply.events) else session,
                         transmission);
    }
  }

  /** The header that carries a session id. */
  lemma SessionHeaderIs(id: string)
    ensures SessionHeader(None) == None && SessionHeader(Some(id)) == Some("X-Transmission-Session-Id: " + id)
  {
  }

  /** There is a second attempt exactly after a 409, it is the last, and for a Transmission
      URL it carries the session id the 409 brought (else the one known before). */
  lemma SecondCarriesTheNewId(server: Server, session: Option<string>, transmission: bool)
    ensures var a := Attempts(server, TRIES, session, transmission);
            && 1 <= |a| <= 2
            && (|a| == 2 <==> !a[0].reply.failed && a[0].reply.code == 409)
            && a[0].sent == (if transmission then SessionHeader(session) else None)
            && a[0].reply == server(1, a[0].sent)
            && (|a| == 2 ==>
                  && a[1].reply == server(0, a[1].sent)
                  && a[1].sent ==
                     if transmission then SessionHeader(SessionAfter(session, a[0].reply.events)) else None)
  {
    var sent := if transmission then SessionHeader(session) else None;
    var reply := server(1, sent);
    var next := if transmission then SessionAfter(session, reply.events) else session;
    TriesBoundAttempts(server, 1, next, transmission);
    assert Attempts(server, 2, session, transmission) ==
           [Attempt(sent, reply)] + if !Conflict(reply) then [] else Attempts(server, 1, next, transmission);
  }

  /** What is remembered in the end is what the attempts brought, one after the other. */
  lemma SessionIsRemembered(session: Option<string>, first: Attempt, second: Attempt)
    ensures var next := SessionAfter(session, first.reply.events);
            && SessionAfterAll(session, [first], true) == next
            && SessionAfterAll(session, [first, second], true) == SessionAfter(next, second.reply.events)
    ensures SessionAfterAll(session, [first], false) == SessionAfterAll(session, [first, second], false) == session
  {
    hide SessionAfter;
    assert [first, second][..1] == [first] && [first][..0] == [];
  }

  /** A Transmission endpoint: it answers 409 and names its session id unless the request
      carries it. */
  ghost predicate Guards(server: Server, id: string) {
    && (forall k, sent :: sent == SessionHeader(Some(id)) ==> !Conflict(server(k, sent)))
    && (forall k, sent :: sent != SessionHeader(Some(id)) ==> Conflict(server(k, sent)))
    && (forall k, sent, session ::
          sent != SessionHeader(Some(id)) ==> SessionAfter(session, server(k, sent).events) == Some(id))
  }

  /** Whatever session id is remembered, right, stale or none, an upload to such an endpoint
      gets past the guard, and at most one attempt is spent on it. */
  lemma GuardIsPassed(server: Server, id: string, session: Option<string>)
    requires Guards(server, id)
    ensures var a := Attempts(server, TRIES, session, true);
            && a != [] && Last(a).sent == SessionHeader(Some(id)) && !Conflict(Last(a).reply)
            && (|a| == 1 <==> session == Some(id))
  {
    SecondCarriesTheNewId(server, session, true);
    var a := Attempts(server, TRIES, session, true);
    if session.Some? && session != Some(id) {
      assert (SESSION_KEY + session.value)[|SESSION_KEY|..] == session.value;
      assert (SESSION_KEY + id)[|SESSION_KEY|..] == id;
    }
    var sent := SessionHeader(session);
    var reply := server(1, sent);
    assert a[0] == Attempt(sent, reply);
    if Conflict(reply) {
      var next := SessionAfter(session, reply.events);
      assert next == Some(id);
      TriesBoundAttempts(server, 1, next, true);
      assert a == [Attempt(sent, reply)] + Attempts(server, 1, next, true);
      assert a[1] == Attempt(SessionHeader(next), server(0, SessionHeader(next)));
    } else {
      assert sent == SessionHeader(Some(id));
      assert Last(a) == a[0];
    }
  }

  // ---- the callbacks and the two transfers, on the static variables of web.c ----

  class Web {
    var isMoveHeader: bool
    var gSessionID: Option<string>

    constructor ()
      ensures !isMoveHeader && gSessionID == None
    {
      isMoveHeader, gSessionID := false, None;
    }

    // A remembered session id fits the buffer it is sent from.
    ghost predicate Valid()
      reads this
    {
      gSessionID.Some? ==> NulFree(gSessionID.value) && |SESSION_KEY| + |gSessionID.value| < MAXLEN
    }

    /** write_header_callback. The length is believed unless a redirect is in progress. What
        has been received, terminator included, survives a header line exactly when it is
        neither a redirect after body bytes nor a believed length that does not cover them. */
    method WriteHeader(mem: WebData, l: Line)
      requires mem.response.Valid() && Acceptable(l)
      modifies this`isMoveHeader, mem, mem.response
      ensures mem.response.bufferPos == old(mem.response.bufferPos)
      ensures mem.response.Valid() <==>
                && (IsLocation(l) ==> old(mem.response.bufferPos) == 0)
                && (Announces(l) && !old(isMoveHeader) ==> l.length.value >= old(mem.response.bufferPos))
      ensures mem.response.Valid() ==> mem.response.Received() == old(mem.response.Received())
      ensures mem.response.data == old(mem.response.data) || mem.response.data == null || fresh(mem.response.data)
      ensures mem.contentFilename == NextFilename(old(mem.contentFilename), Header(l))
      ensures isMoveHeader == (IsLocation(l) || (old(isMoveHeader) && !IsBlank(l)))
      ensures if IsLocation(l) then mem.response.data == null
              else if Announces(l) && !old(isMoveHeader) then
                mem.response.data != null && mem.response.bufferSize == l.length.value + 1
              else mem.response.data == old(mem.response.data)
                   && mem.response.bufferSize == old(mem.response.bufferSize)
    {
      KindsAreDisjoint(l);
      hide IsDisposition, IsBlank, IsLocation, IsLength;
      if IsLocation(l) {
        isMoveHeader := true;
        mem.response.Discard();
      } else if IsLength(l) {
        if l.length.Some? && l.length.value > 0 && !isMoveHeader {
          mem.response.Announce(l.length.value);
        }
      } else if IsDisposition(l) {
        if l.filename.Some? {
          mem.contentFilename := l.filename;
        }
      } else if IsBlank(l) {
        isMoveHeader := false;
      }
    }

    method ParseTransmission(mem: WebData, l: Line)
      requires Valid() && mem.response.Valid() && Acceptable(l)
      modifies this`gSessionID, mem.response
      ensures Valid() && gSessionID == NextSession(old(gSessionID), Header(l))
      ensures mem.response.bufferPos == old(mem.response.bufferPos)
      ensures mem.response.Valid() <==> (Announces(l) ==> l.length.value >= old(mem.response.bufferPos))
      ensures mem.response.Valid() ==> mem.response.Received() == old(mem.response.Received())
      ensures mem.response.data == old(mem.response.data) || fresh(mem.response.data)
      ensures if Announces(l) then mem.response.data != null && mem.response.bufferSize == l.length.value + 1
              else mem.response.data == old(mem.response.data)
                   && mem.response.bufferSize == old(mem.response.bufferSize)
    {
      KindsAreDisjoint(l);
      if IsSession(l) {
        TakeSession(l);
      } else if IsLength(l) {
        if l.length.Some? && l.length.value > 0 {
          mem.response.Announce(l.length.value);
        }
      }
    }

    // The session line: the text up to the next white space.
    method TakeSession(l: Line)
      requires IsSession(l) && Acceptable(l)
      modifies this`gSessionID
      ensures Valid() && gSessionID == Some(SessionOf(l))
    {
      var begin := |SESSION_KEY|;
      var end := Advance(NotSpace, l.text, begin);
      assert l.text[begin..end] == SessionOf(l);
      gSessionID := Some(l.text[begin..end]);
    }

    // One callback.
    method Callback(mem: WebData, e: Event, transmission: bool)
      requires Valid() && mem.response.Valid()
      requires e.Header? ==> Acceptable(e.line) && Harmless(e.line, mem.response.bufferPos, isMoveHeader, transmission)
      modifies this, mem, mem.response, mem.response.data
      ensures Valid() && mem.response.Valid()
      ensures mem.response.data == old(mem.response.data) || mem.response.data == null || fresh(mem.response.data)
      ensures mem.response.bufferPos == old(mem.response.bufferPos) + |Bytes(e)|
      ensures mem.response.Received() == old(mem.response.Received()) + Bytes(e)
      ensures isMoveHeader == if transmission then old(isMoveHeader) else NextMoving(old(isMoveHeader), e)
      ensures gSessionID == if transmission then NextSession(old(gSessionID), e) else old(gSessionID)
      ensures mem.contentFilename ==
              if transmission then old(mem.contentFilename) else NextFilename(old(mem.contentFilename), e)
    {
      hide Acceptable, Announces, IsSession, IsDisposition, IsLocation, IsLength, IsBlank;
      match e {
        case Header(l) =>
          if transmission {
            ParseTransmission(mem, l);
          } else {
            WriteHeader(mem, l);
          }
        case Chunk(c) =>
          mem.response.Write(c);
      }
    }

    /** curl_easy_perform: every callback of the exchange in turn. What has been received is
        the concatenation of the chunks, whatever the header lines announced. */
    method Perform(mem: WebData, events: seq<Event>, transmission: bool)
      requires Valid() && mem.response.Valid() && mem.response.data == null
      requires Orderly(events, 0, isMoveHeader, transmission)
      modifies this, mem, mem.response
      ensures Valid() && mem.response.Valid() && (mem.response.data == null || fresh(mem.response.data))
      ensures mem.response.Received() == Body(events)
      ensures gSessionID == if transmission then SessionAfter(old(gSessionID), events) else old(gSessionID)
      ensures isMoveHeader == if transmission then old(isMoveHeader) else MovingAfter(old(isMoveHeader), events)
      ensures mem.contentFilename ==
              if transmission then old(mem.contentFilename) else FilenameAfter(old(mem.contentFilename), events)
    {
      hide Acceptable, Harmless, NextSession, NextFilename, NextMoving, NulFree;
      hide Orderly, Body, SessionAfter, FilenameAfter, MovingAfter, Bytes;
      var i := 0;
      ghost var moving := isMoveHeader;
      assert events[0..] == events;
      while i < |events|
        invariant 0 <= i <= |events| && Valid() && mem.response.Valid()
        invariant Orderly(events[i..], mem.response.bufferPos, moving, transmission)
        invariant mem.response.data == null || fresh(mem.response.data)
        invariant mem.response.Received() + Body(events[i..]) == Body(events)
        invariant MovingAfter(moving, events[i..]) == MovingAfter(old(isMoveHeader), events)
        invariant transmission ==> SessionAfter(gSessionID, events[i..]) == SessionAfter(old(gSessionID), events)
        invariant transmission ==> isMoveHeader == old(isMoveHeader) && mem.contentFilename == old(mem.contentFilename)
        invariant !transmission ==> gSessionID == old(gSessionID) && isMoveHeader == moving
        invariant !transmission ==>
                    FilenameAfter(mem.contentFilename, events[i..]) == FilenameAfter(old(mem.contentFilename), events)
      {
        EventsStep(events, i, mem.response.bufferPos, moving, transmission);
        MemoryStep(events, i, gSessionID, mem.contentFilename);
        MovingIsIdle(events[i], mem.response.bufferPos, moving, isMoveHeader);
        Callback(mem, events[i], transmission);
        moving := NextMoving(moving, events[i]);
        i := i + 1;
      }
      assert events[i..] == [];
      EventsEnd(gSessionID, mem.contentFilename, moving);
    }

    method Respond(mem: WebData, code: int) returns (resp: HTTPResponse)
      requires mem.response.Valid()
      ensures resp.responseCode == code && resp.filename == NonEmpty(mem.contentFilename)
      ensures resp.size == |mem.response.Received()| && CopyOf(resp.data, mem.response.Received())
    {
      var copy, size := mem.response.Copy();
      resp := HTTPResponse(copy, NonEmpty(mem.contentFilename), size, code);
    }

    /** getHTTPData: one exchange, whatever its code; NULL if the transfer failed. */
    method GetHTTPData(url: Option<string>, reply: Exchange) returns (resp: Option<HTTPResponse>)
      requires Valid() && Orderly(reply.events, 0, isMoveHeader, false)
      modifies this
      ensures Valid() && gSessionID == old(gSessionID)
      ensures resp.Some? <==> url.Some? && !reply.failed
      ensures resp.Some? ==> Answers(resp.value, reply, FilenameAfter(None, reply.events))
      ensures resp.Some? ==>
                var body := Body(reply.events);
                && resp.value.responseCode == reply.code && resp.value.size == |body|
                && (body != [] && body[0] != '\0' ==> resp.value.data == Some(body))
                && var name := FilenameAfter(None, reply.events);
                   resp.value.filename == if name == Some("") then None else name
    {
      if url.None? { return None; }
      var mem := new WebData(url.value);
      Perform(mem, reply.events, false);
      if reply.failed { return None; }
      var r := Respond(mem, reply.code);
      resp := Some(r);
    }

    // One attempt of sendHTTPData, on a cleared buffer.
    method Try(mem: WebData, reply: Exchange, transmission: bool) returns (resp: Option<HTTPResponse>)
      requires Valid() && Orderly(reply.events, 0, isMoveHeader, transmission)
      modifies this, mem, mem.response
      ensures Valid()
      ensures gSessionID == if transmission then SessionAfter(old(gSessionID), reply.events) else old(gSessionID)
      ensures isMoveHeader == if transmission then old(isMoveHeader) else MovingAfter(old(isMoveHeader), reply.events)
      ensures resp.Some? <==> !reply.failed && reply.code != CONFLICT
      ensures resp.Some? ==> resp.value.responseCode == reply.code && resp.value.size == |Body(reply.events)|
      ensures resp.Some? ==> Answers(resp.value, reply,
                                     if transmission then None else FilenameAfter(None, reply.events))
    {
      hide Orderly, Body, SessionAfter, FilenameAfter, MovingAfter, CopyOf, NulFree;
      mem.contentFilename := None;
      mem.response.Clear();
      Perform(mem, reply.events, transmission);
      if reply.failed || reply.code == CONFLICT { return None; }
      var r := Respond(mem, reply.code);
      resp := Some(r);
    }

    /** sendHTTPData: the outcome is that of the last attempt, a transfer failure or a second
        409 giving NULL; only the bytes of that attempt are returned. */
    method SendHTTPData(url: Option<string>, hasData: bool, server: Server) returns (resp: Option<HTTPResponse>)
      requires Valid() && (url.Some? ==> url.value != [])
      requires url.Some? && hasData ==>
                 OrderlyReplies(server, TRIES, gSessionID, isMoveHeader, Occurs(url.value, "transmission"))
      modifies this
      ensures Valid()
      ensures url.None? || !hasData ==> resp == None && gSessionID == old(gSessionID)
      ensures url.Some? && hasData ==>
                var transmission := Occurs(url.value, "transmission");
                var attempts := Attempts(server, TRIES, old(gSessionID), transmission);
                && attempts != []
                && gSessionID == SessionAfterAll(old(gSessionID), attempts, transmission)
                && var last := attempts[|attempts| - 1].reply;
                   && (resp.Some? <==> !last.failed && last.code != 409)
                   && (resp.Some? ==>
                         && resp.value.responseCode == last.code && resp.value.size == |Body(last.events)|
                         && Answers(resp.value, last, if transmission then None else FilenameAfter(None, last.events)))
    {
      hide Attempts, SessionAfterAll, Answers, Orderly, SessionAfter, FilenameAfter, MovingAfter, NulFree, Occurs;
      if url.None? || !hasData { return None; }
      var mem := new WebData(url.value);
      var tries := TRIES;
      var transmission := Strstr(mem.url, "transmission");
      resp := None;
      ghost var all := Attempts(server, TRIES, gSessionID, transmission);
      ghost var done: seq<Attempt> := [];
      NoAttempts(server, gSessionID, transmission);
      while tries > 0
        invariant 0 <= tries <= TRIES && Valid() && resp == None
        invariant OrderlyReplies(server, tries, gSessionID, isMoveHeader, transmission)
        invariant all == done + Attempts(server, tries, gSessionID, transmission)
        invariant gSessionID == SessionAfterAll(old(gSessionID), done, transmission)
        invariant tries < TRIES ==> done != [] && Conflict(Last(done).reply)
      {
        tries := tries - 1;
        var sent := if transmission then SessionHeader(gSessionID) else None;
        var reply := server(tries, sent);
        NextAttempt(server, tries, gSessionID, transmission, old(gSessionID), done);
        resp := Try(mem, reply, transmission);
        done := done + [Attempt(sent, reply)];
        if reply.failed || reply.code != CONFLICT {
          assert all == done;
          return;
        }
      }
      NoAttempts(server, gSessionID, transmission);
      assert all == done;
    }
  }

  /** A redirect after two body bytes: they are gone, and the position is not reset. */
  method LateRedirectLosesBytes() returns (kept: bool, pos: nat)
    ensures !kept && pos == 2
  {
    var web := new Web();
    var mem := new WebData("u");
    mem.response.Write("ab");
    web.WriteHeader(mem, Line("Location:", None, None));
    kept, pos := mem.response.data != null, mem.response.bufferPos;
  }
}
