/**
 The daemon's main loop and its signal handler (src/automatic.c). A signal may be
 handled between any two steps of the loop; each handler call runs to its end.
 */
module Daemon {

  type Handle = nat            // an auto_handle pointer
  const NO_SESSION: Handle := 0

  // What parse_config_file makes of the configuration file when it is read.
  datatype Config = Unreadable | Parsed(feeds: nat, filters: nat)

  // Where the main loop is.
  datatype Point =
    | Top          // while(!closing)
    | Starting     // isRunning = true
    | Capturing    // current = mySession->feeds
    | Passing      // the loop over the feeds
    | Finishing    // if(once) break
    | Resting      // isRunning = false
    | CheckingHup  // if(seenHUP)
    | CallingHup   // signal_handler(SIGHUP)
    | Sleeping     // sleep(mySession->check_interval * 60)
    | Leaving      // shutdown_daemon(mySession)

  datatype Signal = HUP | TERM

  datatype Event = Main(cfg: Config) | Caught(sig: Signal, cfg: Config)

  /** The globals of the program, and what has happened so far. */
  datatype State = State(
    point: Point, mySession: Handle, isRunning: bool, seenHUP: bool, closing: bool,
    feeds: map<Handle, nat>, filters: map<Handle, nat>,
    created: nat,            // session_init calls: their handles are 1..created
    freed: seq<Handle>,      // session_free calls, in order
    passOf: Handle, feedsLeft: nat,
    hups: nat,               // SIGHUPs received
    answered: nat)           // how many of them had arrived at the last reload attempt

  // setupSession(s): install s unless it lacks feeds or filters.
  function SetupSession(d: State, s: Handle): (State, bool) {
    if s == NO_SESSION || s !in d.feeds || s !in d.filters || d.feeds[s] == 0 || d.filters[s] == 0 then (d, false)
    else
      var d1 := if d.mySession != NO_SESSION then d.(freed := d.freed + [d.mySession]) else d;
      (d1.(mySession := s), true)
  }

  // A session read from the configuration: installed, or freed if setupSession rejects it.
  function Installed(d: State, s: Handle): State {
    var (d1, ok) := SetupSession(d, s);
    if ok || s == NO_SESSION then d1 else d1.(freed := d1.freed + [s])
  }

  // The reload branch of signal_handler.
  function Reload(d: State, cfg: Config): State {
    var s := d.created + 1;
    var d0 := d.(created := s, answered := d.hups);
    var d1 := match cfg
      case Unreadable => d0.(freed := d0.freed + [s])
      case Parsed(fe, fi) =>
        Installed(d0.(feeds := d0.feeds[s := fe], filters := d0.filters[s := fi]), s);
    d1.(seenHUP := false)
  }

  function HandleHup(d: State, cfg: Config): State {
    if d.isRunning || d.mySession == NO_SESSION then d.(seenHUP := true) else Reload(d, cfg)
  }

  function MainStep(d: State, once: bool, cfg: Config): State {
    match d.point
    case Top => d.(point := if d.closing then Leaving else Starting)
    case Starting => d.(isRunning := true, point := Capturing)
    case Capturing =>
      d.(passOf := d.mySession, point := Passing,
         feedsLeft := if d.mySession in d.feeds then d.feeds[d.mySession] else 0)
    case Passing =>
      if d.feedsLeft > 0 then d.(feedsLeft := d.feedsLeft - 1) else d.(point := Finishing)
    case Finishing => d.(point := if once then Leaving else Resting)
    case Resting => d.(isRunning := false, point := CheckingHup)
    case CheckingHup => d.(point := if d.seenHUP then CallingHup else Sleeping)
    case CallingHup => HandleHup(d, cfg).(point := Sleeping)
    case Sleeping => d.(point := Top)
    case Leaving => d
  }

  function Step(d: State, once: bool, e: Event): State {
    match e
    case Main(cfg) => MainStep(d, once, cfg)
    case Caught(TERM, _) => d.(closing := true)
    case Caught(HUP, cfg) => HandleHup(d.(hups := d.hups + 1), cfg)
  }

  /** The program's globals, and its routines as they update them. */
  class Program {
    var point: Point
    var mySession: Handle
    var isRunning: bool
    var seenHUP: bool
    var closing: bool
    var feeds: map<Handle, nat>
    var filters: map<Handle, nat>
    var created: nat
    var freed: seq<Handle>
    var passOf: Handle
    var feedsLeft: nat
    const once: bool
    ghost var hups: nat
    ghost var answered: nat

    ghost function View(): State
      reads this
    {
      State(point, mySession, isRunning, seenHUP, closing, feeds, filters,
            created, freed, passOf, feedsLeft, hups, answered)
    }

    /** main, up to its loop, with a usable configuration. */
    constructor (feedCount: nat, filterCount: nat, once: bool)
      requires feedCount > 0 && filterCount > 0
      ensures View() == Initial(feedCount, filterCount) && this.once == once
      ensures point.Top? && mySession == 1 == created && !isRunning && !seenHUP && !closing && freed == []
      ensures passOf == 0 == feedsLeft
      ensures feeds == map[1 := feedCount] && filters == map[1 := filterCount]
    {
      point, mySession, isRunning, seenHUP, closing := Top, 1, false, false, false;
      feeds, filters := map[1 := feedCount], map[1 := filterCount];
      created, freed, passOf, feedsLeft, hups, answered := 1, [], NO_SESSION, 0, 0, 0;
      this.once := once;
    }

    method SessionInit() returns (s: Handle)
      modifies `created
      ensures s == created == old(created) + 1
    {
      created := created + 1;
      s := created;
    }

    method SessionFree(s: Handle)
      modifies `freed
      ensures freed == if s != NO_SESSION then old(freed) + [s] else old(freed)
    {
      if s != NO_SESSION {
        freed := freed + [s];
      }
    }

    method Setup(s: Handle) returns (sessionOk: bool)
      modifies `mySession, `freed
      ensures (View(), sessionOk) == SetupSession(old(View()), s)
      ensures sessionOk <==> s != 0 && s in feeds && feeds[s] > 0 && s in filters && filters[s] > 0
      ensures !sessionOk ==> View() == old(View())
      ensures sessionOk ==> mySession == s && freed == old(freed) + if old(mySession) != 0 then [old(mySession)] else []
    {
      sessionOk := true;
      if s != NO_SESSION {
        if s !in feeds || feeds[s] == 0 { sessionOk := false; }
        if s !in filters || filters[s] == 0 { sessionOk := false; }
        if sessionOk {
          if mySession != NO_SESSION {
            SessionFree(mySession);
          }
          mySession := s;
        }
      } else {
        sessionOk := false;
      }
    }

    method SignalHandler(sig: Signal, cfg: Config)
      modifies this
      ensures View() == if sig == TERM then old(View()).(closing := true) else HandleHup(old(View()), cfg)
      ensures point == old(point) && closing == (old(closing) || sig == TERM)
      ensures sig == HUP && (old(isRunning) || old(mySession) == 0) ==> View() == old(View()).(seenHUP := true)
      ensures sig == HUP && !old(isRunning) && old(mySession) != 0 ==> created == old(created) + 1 && !seenHUP
    {
      hide Reload;
      match sig
      case TERM => closing := true;
      case HUP =>
        if isRunning || mySession == NO_SESSION {
          seenHUP := true;
        } else {
          ReloadConfig(cfg);
        }
    }

    // setupSession, and session_free of a session it rejects.
    method Install(s: Handle)
      modifies `mySession, `freed
      ensures View() == Installed(old(View()), s)
    {
      hide SetupSession;
      var ok := Setup(s);
      if !ok {
        ghost var d := View();
        SessionFree(s);
        assert s != NO_SESSION ==> View() == d.(freed := d.freed + [s]);
        assert s == NO_SESSION ==> View() == d;
      }
    }

    // The reload branch of signal_handler.
    method ReloadConfig(cfg: Config)
      modifies this
      ensures View() == Reload(old(View()), cfg)
      ensures point == old(point) && closing == old(closing) && created == old(created) + 1 && !seenHUP
    {
      hide Installed;
      ghost var d := View();
      var s := SessionInit();
      answered := hups;
      ghost var d0 := d.(created := s, answered := d.hups);
      assert View() == d0;
      if cfg.Parsed? {
        feeds, filters := feeds[s := cfg.feeds], filters[s := cfg.filters];
        assert View() == d0.(feeds := d0.feeds[s := cfg.feeds], filters := d0.filters[s := cfg.filters]);
        Install(s);
      } else {
        SessionFree(s);
        assert View() == d0.(freed := d0.freed + [s]);
      }
      ghost var d3 := View();
      seenHUP := false;
      assert View() == d3.(seenHUP := false);
    }

    // signal_handler(SIGHUP), called by the main loop.
    method AnswerHup(cfg: Config)
      modifies this
      ensures View() == HandleHup(old(View()), cfg).(point := Sleeping) && closing == old(closing)
    {
      hide HandleHup;
      SignalHandler(HUP, cfg);
      ghost var d := View();
      point := Sleeping;
      assert View() == d.(point := Sleeping);
    }

    // From isRunning = true to the end of the loop over the feeds.
    method AdvancePass()
      requires point.Starting? || point.Capturing? || point.Passing?
      modifies this
      ensures View() == MainStep(old(View()), once, Unreadable)
    {
      hide HandleHup;
      match point
      case Starting => isRunning := true; point := Capturing;
      case Capturing =>
        passOf := mySession;
        feedsLeft := if mySession in feeds then feeds[mySession] else 0;
        point := Passing;
      case Passing =>
        if feedsLeft > 0 { feedsLeft := feedsLeft - 1; } else { point := Finishing; }
    }

    method Advance(cfg: Config)
      modifies this
      ensures View() == MainStep(old(View()), once, cfg)
      ensures old(point).Top? ==> point == if closing then Leaving else Starting
      ensures old(point).Finishing? ==> point == if once then Leaving else Resting
      ensures closing == old(closing) && (point.Leaving? ==> once || closing || old(point).Leaving?)
    {
      hide HandleHup;
      match point
      case Top => if closing { point := Leaving; } else { point := Starting; }
      case Starting | Capturing | Passing => AdvancePass();
      case Finishing => if once { point := Leaving; } else { point := Resting; }
      case Resting => isRunning := false; point := CheckingHup;
      case CheckingHup => if seenHUP { point := CallingHup; } else { point := Sleeping; }
      case CallingHup => AnswerHup(cfg);
      case Sleeping => point := Top;
      case Leaving =>
    }

    /** Any interleaving of the main loop with signals. */
    method Run(es: seq<Event>)
      modifies this
      ensures View() == Behaviour(old(View()), once, es)
      ensures !once && point.Leaving? && !old(point).Leaving? ==> closing
    {
      hide MainStep, HandleHup;
      if !once && !point.Leaving? { RunStays(View(), once, es); }
      var i := 0;
      while i < |es|
        invariant 0 <= i <= |es| && View() == Behaviour(old(View()), once, es[..i])
      {
        assert es[..i + 1][..i] == es[..i];
        match es[i] {
          case Main(cfg) => Advance(cfg);
          case Caught(sig, cfg) =>
            if sig == HUP { hups := hups + 1; }
            SignalHandler(sig, cfg);
        }
        i := i + 1;
      }
      assert es[..i] == es;
    }
  }

  function Initial(feedCount: nat, filterCount: nat): State {
    State(Top, 1, false, false, false, map[1 := feedCount], map[1 := filterCount], 1, [], NO_SESSION, 0, 0, 0)
  }

  function Behaviour(d: State, once: bool, es: seq<Event>): State {
    if es == [] then d else Step(Behaviour(d, once, es[..|es| - 1]), once, es[|es| - 1])
  }

  // Points at which a pass is under way.
  predicate InPass(p: Point) {
    p.Capturing? || p.Passing? || p.Finishing?
  }

  // Of the handles 1..created, all but the installed one have been freed, each once.
  ghost predicate FreedOnce(freed: seq<Handle>, created: nat, installed: Handle) {
    && (forall s :: s in freed <==> 1 <= s <= created && s != installed)
    && (forall i, j :: 0 <= i < j < |freed| ==> freed[i] != freed[j])
  }

  /** What holds after every step of every run. */
  ghost predicate Sound(d: State) {
    // the installed session exists and is usable
    && 1 <= d.mySession <= d.created
    && d.mySession in d.feeds && d.feeds[d.mySession] > 0
    && d.mySession in d.filters && d.filters[d.mySession] > 0
    // every other session ever created has been freed, once
    && FreedOnce(d.freed, d.created, d.mySession)
    // a pass runs with the flag set, on the installed session
    && (InPass(d.point) ==> d.isRunning)
    && (d.point.Passing? || d.point.Finishing? ==> d.passOf == d.mySession)
    && (d.isRunning ==> InPass(d.point) || d.point.Resting? || d.point.Leaving?)
    // an unanswered SIGHUP is remembered, and is answered before the loop sleeps
    && d.answered <= d.hups
    && (d.answered < d.hups ==> d.seenHUP)
    && (d.seenHUP ==> d.isRunning || d.point.CheckingHup? || d.point.CallingHup?)
  }

  lemma ReloadIsSound(d: State, cfg: Config)
    requires 1 <= d.mySession <= d.created
    requires d.mySession in d.feeds && d.feeds[d.mySession] > 0
    requires d.mySession in d.filters && d.filters[d.mySession] > 0
    requires FreedOnce(d.freed, d.created, d.mySession)
    requires !d.isRunning && !InPass(d.point) && d.answered <= d.hups
    ensures Sound(Reload(d, cfg))
    ensures Reload(d, cfg).answered == d.hups && !Reload(d, cfg).isRunning && !Reload(d, cfg).seenHUP
    ensures Reload(d, cfg).point == d.point
  {
    hide FreedOnce;
    FreeOneMore(d.freed, d.created, d.mySession);
  }

  // A new session is created, and either it or the installed one is freed.
  lemma FreeOneMore(freed: seq<Handle>, created: nat, installed: Handle)
    requires FreedOnce(freed, created, installed) && 1 <= installed <= created
    ensures FreedOnce(freed + [installed], created + 1, created + 1)
    ensures FreedOnce(freed + [created + 1], created + 1, installed)
  {
    assert forall i :: 0 <= i < |freed| ==> freed[i] in freed;
  }

  lemma StepIsSound(d: State, once: bool, e: Event)
    requires Sound(d)
    ensures Sound(Step(d, once, e))
  {
    match e
    case Main(cfg) => LoopIsSound(d, once, cfg);
    case Caught(sig, cfg) => SignalIsSound(d, sig, cfg);
  }

  lemma LoopIsSound(d: State, once: bool, cfg: Config)
    requires Sound(d)
    ensures Sound(MainStep(d, once, cfg))
  {
    hide Reload, FreedOnce;
    if d.point.CallingHup? {
      ReloadIsSound(d, cfg);
      SoundElsewhere(Reload(d, cfg));
    }
  }

  lemma SignalIsSound(d: State, sig: Signal, cfg: Config)
    requires Sound(d)
    ensures Sound(Step(d, true, Caught(sig, cfg))) && Sound(Step(d, false, Caught(sig, cfg)))
  {
    hide Reload, FreedOnce;
    if sig == HUP && !d.isRunning {
      ReloadIsSound(d.(hups := d.hups + 1), cfg);
    }
  }

  // A sound state with nothing pending and no pass under way may go to sleep.
  lemma SoundElsewhere(d: State)
    requires Sound(d) && !d.isRunning && !d.seenHUP
    ensures Sound(d.(point := Sleeping))
  {
  }

  /** Every run is sound. */
  lemma {:induction false} RunIsSound(feedCount: nat, filterCount: nat, once: bool, es: seq<Event>)
    requires feedCount > 0 && filterCount > 0
    ensures Sound(Behaviour(Initial(feedCount, filterCount), once, es))
  {
    if es != [] {
      RunIsSound(feedCount, filterCount, once, es[..|es| - 1]);
      StepIsSound(Behaviour(Initial(feedCount, filterCount), once, es[..|es| - 1]), once, es[|es| - 1]);
    }
  }

  lemma InstalledIsNotFreed(d: State)
    requires Sound(d)
    ensures d.mySession !in d.freed
  {
  }

  lemma HupWhileRunning(d: State, cfg: Config)
    requires d.isRunning
    ensures HandleHup(d, cfg) == d.(seenHUP := true)
  {
    hide Reload;
  }

  lemma RunningStepKeepsSession(d: State, once: bool, e: Event)
    requires d.isRunning
    ensures var f := Step(d, once, e);
            f.mySession == d.mySession && f.freed == d.freed && f.feeds == d.feeds && f.filters == d.filters
  {
    hide HandleHup;
    match e
    case Main(cfg) => HupWhileRunning(d, cfg);
    case Caught(TERM, _) =>
    case Caught(HUP, cfg) => HupWhileRunning(d.(hups := d.hups + 1), cfg);
  }

  // The loop stays within one pass while these events happen.
  ghost predicate StaysInPass(d: State, once: bool, es: seq<Event>) {
    forall n :: 0 <= n <= |es| ==> Behaviour(d, once, es[..n]).isRunning
  }

  /** From isRunning = true to isRunning = false, whatever signals arrive: the session is
      the same, its lists are untouched and nothing is freed. */
  lemma {:induction false} PassIsUndisturbed(d: State, once: bool, es: seq<Event>)
    requires StaysInPass(d, once, es) && Sound(d)
    ensures var f := Behaviour(d, once, es);
            && f.mySession == d.mySession && f.freed == d.freed
            && f.feeds == d.feeds && f.filters == d.filters
            && f.mySession !in f.freed && Sound(f)
  {
    hide Sound, Step;
    InstalledIsNotFreed(d);
    if es == [] {
    } else {
      var n := |es| - 1;
      forall k | 0 <= k <= n ensures Behaviour(d, once, es[..n][..k]).isRunning {
        assert es[..n][..k] == es[..k];
      }
      PassIsUndisturbed(d, once, es[..n]);
      StepIsSound(Behaviour(d, once, es[..n]), once, es[n]);
      assert es[..n] == es[..n][..n];
      RunningStepKeepsSession(Behaviour(d, once, es[..n]), once, es[n]);
    }
  }

  /** Whenever the loop goes to sleep, every SIGHUP received so far has been followed by
      a reload attempt. */
  lemma HupsAnsweredBeforeSleep(feedCount: nat, filterCount: nat, once: bool, es: seq<Event>)
    requires feedCount > 0 && filterCount > 0
    requires Behaviour(Initial(feedCount, filterCount), once, es).point.Sleeping?
    ensures var d := Behaviour(Initial(feedCount, filterCount), once, es);
            d.answered == d.hups && !d.seenHUP
  {
    RunIsSound(feedCount, filterCount, once, es);
  }

  /** A SIGHUP outside a pass reads the configuration into a new session. If that cannot be
      used, the installed session and its lists stay as they were, and the new one is freed;
      otherwise it is installed, and the old one freed. */
  lemma ReloadFreesOne(d: State, once: bool, cfg: Config)
    requires Sound(d) && !d.isRunning
    ensures var r := Step(d, once, Caught(HUP, cfg));
            var ok := cfg.Parsed? && cfg.feeds > 0 && cfg.filters > 0;
            && r.created == d.created + 1 && r.mySession == (if ok then r.created else d.mySession)
            && r.freed == d.freed + [if ok then d.mySession else r.created]
            && r.feeds[d.mySession] == d.feeds[d.mySession] && r.filters[d.mySession] == d.filters[d.mySession]
            && (ok ==> r.feeds[r.created] == cfg.feeds && r.filters[r.created] == cfg.filters)
            && !r.seenHUP && r.point == d.point && r.closing == d.closing
  {
  }

  // ---- when the loop ends ----

  predicate IsTerm(e: Event) {
    e.Caught? && e.sig.TERM?
  }

  lemma HupKeepsPlace(d: State, cfg: Config)
    ensures var r := HandleHup(d, cfg);
            r.point == d.point && r.closing == d.closing && r.isRunning == d.isRunning
            && r.passOf == d.passOf && r.feedsLeft == d.feedsLeft
  {
  }

  lemma ClosingStep(d: State, once: bool, e: Event)
    ensures Step(d, once, e).closing <==> d.closing || IsTerm(e)
  {
    hide HandleHup;
    match e
    case Main(cfg) => HupKeepsPlace(d, cfg);
    case Caught(TERM, _) =>
    case Caught(HUP, cfg) => HupKeepsPlace(d.(hups := d.hups + 1), cfg);
  }

  /** The program is closing exactly when it has been told to. */
  lemma {:induction false} ClosingExactly(feedCount: nat, filterCount: nat, once: bool, es: seq<Event>)
    ensures Behaviour(Initial(feedCount, filterCount), once, es).closing <==> exists e :: e in es && IsTerm(e)
  {
    hide Step, IsTerm;
    if es != [] {
      var n := |es| - 1;
      ClosingExactly(feedCount, filterCount, once, es[..n]);
      ClosingStep(Behaviour(Initial(feedCount, filterCount), once, es[..n]), once, es[n]);
      assert es == es[..n] + [es[n]];
    }
  }

  // The loop is left for a reason, and never rests if it runs only once.
  predicate StaysFor(d: State, once: bool) {
    && (d.point.Leaving? ==> once || d.closing)
    && (once ==> !d.point.Resting? && !d.point.CheckingHup? && !d.point.CallingHup? && !d.point.Sleeping?)
  }

  lemma StepStays(d: State, once: bool, e: Event)
    requires StaysFor(d, once)
    ensures StaysFor(Step(d, once, e), once)
  {
    hide HandleHup;
    match e
    case Main(cfg) =>
      if d.point.CallingHup? { HupKeepsPlace(d, cfg); }
    case Caught(TERM, _) =>
    case Caught(HUP, cfg) => HupKeepsPlace(d.(hups := d.hups + 1), cfg);
  }

  /** Unless it is to run only once, the program leaves only when it has been told to close;
      if it is, it never rests. */
  lemma LeavesOnlyWhenTold(feedCount: nat, filterCount: nat, once: bool, es: seq<Event>)
    ensures var d := Behaviour(Initial(feedCount, filterCount), once, es);
            && (d.point.Leaving? ==> once || exists e :: e in es && IsTerm(e))
            && (once ==> !d.point.Resting? && !d.point.CheckingHup? && !d.point.CallingHup? && !d.point.Sleeping?)
  {
    hide Step, IsTerm, Behaviour;
    RunStays(Initial(feedCount, filterCount), once, es);
    ClosingExactly(feedCount, filterCount, once, es);
  }

  lemma {:induction false} RunStays(d: State, once: bool, es: seq<Event>)
    requires StaysFor(d, once)
    ensures StaysFor(Behaviour(d, once, es), once)
  {
    hide Step;
    if es != [] {
      var n := |es| - 1;
      RunStays(d, once, es[..n]);
      StepStays(Behaviour(d, once, es[..n]), once, es[n]);
    }
  }

  /** Once told to close, the loop starts no further pass: at its top it leaves, and what has
      left does not come back. */
  lemma {:induction false} ClosingEndsTheLoop(d: State, once: bool, es: seq<Event>)
    requires d.closing && (d.point.Top? || d.point.Leaving?)
    ensures var f := Behaviour(d, once, es);
            && f.closing && (f.point.Top? || f.point.Leaving?)
            && ((exists e :: e in es && e.Main?) ==> f.point.Leaving?)
  {
    hide HandleHup;
    if es != [] {
      var n := |es| - 1;
      var f := Behaviour(d, once, es[..n]);
      ClosingEndsTheLoop(d, once, es[..n]);
      assert es == es[..n] + [es[n]];
      if es[n] == Caught(HUP, es[n].cfg) { HupKeepsPlace(f.(hups := f.hups + 1), es[n].cfg); }
    }
  }

  // ---- one turn of the loop ----

  predicate AllMain(es: seq<Event>) {
    forall i :: 0 <= i < |es| ==> es[i].Main?
  }

  // How many of these events are steps of the main loop.
  function Turns(es: seq<Event>): nat {
    if es == [] then 0 else Turns(es[..|es| - 1]) + if es[|es| - 1].Main? then 1 else 0
  }

  // A pass over n feeds of session s after some turns.
  ghost predicate Reached(f: State, turns: nat, n: nat, s: Handle) {
    && f.isRunning && f.mySession == s
    && f.point == (if turns == 0 then Capturing else if turns <= n + 1 then Passing else Finishing)
    && (1 <= turns <= n + 1 ==> f.passOf == s && f.feedsLeft == n + 1 - turns)
  }

  lemma PassStep(f: State, once: bool, e: Event, turns: nat, n: nat)
    requires f.mySession in f.feeds && f.feeds[f.mySession] == n
    requires turns + (if e.Main? then 1 else 0) <= n + 2
    requires Reached(f, turns, n, f.mySession)
    ensures var r := Step(f, once, e);
            && Reached(r, turns + (if e.Main? then 1 else 0), n, f.mySession) && r.feeds == f.feeds
            && (e.Main? ==> r.seenHUP == f.seenHUP && r.closing == f.closing)
  {
    hide HandleHup;
    match e
    case Main(cfg) =>
    case Caught(TERM, _) =>
    case Caught(HUP, cfg) => HupWhileRunning(f.(hups := f.hups + 1), cfg);
  }

  /** A pass takes the feeds of its session one by one, and all of them, whatever signals
      arrive meanwhile. */
  lemma {:induction false} PassTakesAllFeeds(d: State, once: bool, es: seq<Event>)
    requires Sound(d) && d.point.Capturing?
    requires Turns(es) <= d.feeds[d.mySession] + 2
    ensures var f := Behaviour(d, once, es);
            && Sound(f) && Reached(f, Turns(es), d.feeds[d.mySession], d.mySession) && f.feeds == d.feeds
            && (AllMain(es) ==> f.seenHUP == d.seenHUP && f.closing == d.closing)
  {
    hide Step, FreedOnce, Reached;
    if es == [] {
      NothingReached(d);
    } else {
      var k := |es| - 1;
      var f := Behaviour(d, once, es[..k]);
      PassTakesAllFeeds(d, once, es[..k]);
      StepIsSound(f, once, es[k]);
      ReachedSession(f, Turns(es[..k]), d.feeds[d.mySession], d.mySession);
      PassStep(f, once, es[k], Turns(es[..k]), d.feeds[d.mySession]);
    }
  }

  lemma NothingReached(d: State)
    requires d.point.Capturing? && d.isRunning && d.mySession in d.feeds
    ensures Reached(d, 0, d.feeds[d.mySession], d.mySession)
  {
  }

  lemma ReachedSession(f: State, turns: nat, n: nat, s: Handle)
    requires Reached(f, turns, n, s)
    ensures f.mySession == s
  {
  }

  lemma {:induction false} TurnsOfMain(es: seq<Event>)
    requires AllMain(es)
    ensures Turns(es) == |es|
  {
    if es != [] { TurnsOfMain(es[..|es| - 1]); }
  }

  // The last event of a run, taken on its own.
  lemma LastStep(d: State, once: bool, es: seq<Event>, n: nat) returns (f: State)
    requires n < |es| && es[n].Main?
    ensures f == Behaviour(d, once, es[..n])
    ensures Behaviour(d, once, es[..n + 1]) == MainStep(f, once, es[n].cfg)
  {
    hide MainStep;
    assert es[..n + 1][..n] == es[..n];
    f := Behaviour(d, once, es[..n]);
  }

  /** At its top, a loop that is not closing sets the flag and begins a pass. */
  lemma PassBegins(d: State, once: bool, es: seq<Event>)
    requires d.point.Top? && !d.closing && AllMain(es) && |es| == 2
    ensures Behaviour(d, once, es) == d.(isRunning := true, point := Capturing)
  {
    hide HandleHup;
    var d0 := LastStep(d, once, es, 0);
    var d1 := LastStep(d, once, es, 1);
    assert es[..2] == es;
  }

  // isRunning = false
  lemma PassRests(d: State, es: seq<Event>)
    requires d.point.Finishing? && AllMain(es) && |es| >= 2
    ensures Behaviour(d, false, es[..2]) == d.(isRunning := false, point := CheckingHup)
  {
    hide HandleHup;
    var d0 := LastStep(d, false, es, 0);
    var d1 := LastStep(d, false, es, 1);
  }

  /** After a pass the flag is cleared and a SIGHUP that came during it is answered, by a new
      session; then the loop sleeps, and is back at its top. */
  lemma PassEnds(d: State, es: seq<Event>)
    requires Sound(d) && d.point.Finishing? && AllMain(es) && |es| == if d.seenHUP then 5 else 4
    ensures var f := Behaviour(d, false, es);
            && f.point.Top? && !f.isRunning && !f.seenHUP && f.closing == d.closing
            && f.created == d.created + (if d.seenHUP then 1 else 0)
            && (!d.seenHUP ==> f == d.(isRunning := false, point := Top))
    ensures Behaviour(d, false, es[..2]).point.CheckingHup? && !Behaviour(d, false, es[..2]).isRunning
    ensures Behaviour(d, false, es[..|es| - 1]).point.Sleeping?
  {
    hide HandleHup, Sound, Behaviour;
    PassRests(d, es);
    var d2 := LastStep(d, false, es, 2);
    var d3 := LastStep(d, false, es, 3);
    assert es[..|es|] == es;
    if d.seenHUP {
      HupOutside(d, es[3].cfg);
      var d4 := LastStep(d, false, es, 4);
    }
  }

  lemma HupOutside(d: State, cfg: Config)
    requires Sound(d)
    ensures var r := HandleHup(d.(isRunning := false, point := CallingHup), cfg);
            r.created == d.created + 1 && !r.seenHUP && r.closing == d.closing && !r.isRunning
  {
  }

  lemma {:induction false} BehaviourJoins(d: State, once: bool, es: seq<Event>, fs: seq<Event>)
    ensures Behaviour(d, once, es + fs) == Behaviour(Behaviour(d, once, es), once, fs)
  {
    hide Step;
    if fs == [] {
      assert es + fs == es;
    } else {
      BehaviourJoins(d, once, es, fs[..|fs| - 1]);
      assert (es + fs)[..|es + fs| - 1] == es + fs[..|fs| - 1];
    }
  }

  /** Left alone, the loop goes round: two steps to begin a pass, one for each feed and two
      around them, four to rest and sleep. */
  lemma TurnOfTheLoop(d: State, begin: seq<Event>, pass: seq<Event>, rest: seq<Event>)
    requires Sound(d) && d.point.Top? && !d.closing
    requires AllMain(begin) && |begin| == 2 && AllMain(rest) && |rest| == 4
    requires AllMain(pass) && |pass| == d.feeds[d.mySession] + 2
    ensures Behaviour(d, false, begin + pass).point.Finishing?
    ensures var f := Behaviour(d, false, begin + pass + rest);
            f.point.Top? && !f.isRunning && !f.seenHUP && f.mySession == d.mySession && f.passOf == d.mySession
  {
    hide Step, Behaviour, FreedOnce;
    PassBegins(d, false, begin);
    var d1 := Behaviour(d, false, begin);
    BehaviourJoins(d, false, begin, pass);
    TurnsOfMain(pass);
    PassTakesAllFeeds(d1, false, pass);
    var d2 := Behaviour(d1, false, pass);
    BehaviourJoins(d, false, begin + pass, rest);
    PassEnds(d2, rest);
  }

  /** A SIGHUP has been followed by a new session before the loop sleeps. */
  lemma {:induction false} HupsAreReloaded(feedCount: nat, filterCount: nat, once: bool, es: seq<Event>, k: nat)
    returns (j: nat)
    requires feedCount > 0 && filterCount > 0
    requires k < |es| && es[k].Caught? && es[k].sig.HUP?
    ensures var start := Initial(feedCount, filterCount);
            var d := Behaviour(start, once, es);
            || (k <= j < |es|
                && Behaviour(start, once, es[..j + 1]).created == Behaviour(start, once, es[..j]).created + 1)
            || (d.seenHUP && !d.point.Sleeping?)
  {
    hide Step, HandleHup, FreedOnce;
    var start := Initial(feedCount, filterCount);
    var n := |es| - 1;
    var before := Behaviour(start, once, es[..n]);
    assert es[..n + 1] == es;
    RunIsSound(feedCount, filterCount, once, es[..n]);
    RunIsSound(feedCount, filterCount, once, es);
    j := n;
    if k == n {
      HupIsTaken(before, once, es[n].cfg);
    } else {
      var i := HupsAreReloaded(feedCount, filterCount, once, es[..n], k);
      if before.seenHUP {
        SeenHupStays(before, once, es[n]);
      } else {
        j := i;
        assert es[..n][..j] == es[..j] && es[..n][..j + 1] == es[..j + 1];
      }
    }
  }

  lemma HupIsTaken(d: State, once: bool, cfg: Config)
    requires d.mySession != NO_SESSION
    ensures var r := Step(d, once, Caught(HUP, cfg)); r.created == d.created + 1 || r.seenHUP
  {
  }

  lemma SeenHupStays(d: State, once: bool, e: Event)
    requires Sound(d) && d.seenHUP
    ensures var r := Step(d, once, e); r.created == d.created + 1 || r.seenHUP
  {
    hide FreedOnce;
  }
}
