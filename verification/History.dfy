/**
 Feed passes and the download history they keep (src/automatic.c). Matching,
 downloading and uploading are oracles: an attempt carries their answers.
 */
module History {
  import opened CStrings
  import opened Wrappers
  import opened LinkedList
  import opened Bucket
  import opened StateFile

  const DEFAULT_MAXBUCKET: nat := 30

  // struct feed_item, as far as the history is concerned.
  datatype Item = Item(guid: Option<string>, url: Option<string>)

  // One item of a pass: does a filter match it, and what did submitting it return.
  datatype Attempt = Attempt(item: Item, matched: bool, result: int)

  // An item goes by its guid, or by its URL if the feed gives none.
  function Identifier(item: Item): Option<string> {
    if item.guid.Some? then item.guid else item.url
  }

  predicate AlreadyDownloaded(bucket: seq<string>, item: Item) {
    HasGuid(item.guid, bucket) || HasGuid(item.url, bucket)
  }

  // A successful submission: what was recorded (None if it had no usable identifier)
  // and the bucket size in force.
  datatype Submission = Submission(id: Option<string>, limit: nat)

  /** What a session, its state file and its past amount to. */
  datatype Ledger = Ledger(downloads: seq<string>, maxItems: nat, changed: bool, disk: string,
                           matchOnly: bool, log: seq<Submission>)

  predicate Submits(l: Ledger, a: Attempt) {
    a.matched && !l.matchOnly && !AlreadyDownloaded(l.downloads, a.item) && a.result >= 0
  }

  function AfterItem(l: Ledger, a: Attempt): Ledger {
    if !Submits(l, a) then l
    else
      var d := Added(Identifier(a.item), l.downloads, l.maxItems);
      l.(downloads := d, changed := true, disk := Serialize(d),
         log := l.log + [Submission(NonEmpty(Identifier(a.item)), l.maxItems)])
  }

  // The item is in the bucket under its guid or its URL.
  predicate Seen(bucket: seq<string>, item: Item) {
    exists x :: x in bucket && x != "" && (item.guid == Some(x) || item.url == Some(x))
  }

  // What is recorded of an item: its guid, or its URL if it has none; nothing if that is empty.
  function Recorded(item: Item): (id: Option<string>)
    ensures item.guid.None? && item.url.None? ==> id == None
    ensures item.guid.None? && item.url.Some? ==> id == if item.url.value == "" then None else item.url
    ensures item.guid.Some? ==> id == if item.guid.value == "" then None else item.guid
  {
    NonEmpty(Identifier(item))
  }

  /** A failed, unmatched or known item leaves everything as it was, and so does every item in
      match-only mode. Any other is logged and saved, as the newest entry. */
  lemma ItemIs(l: Ledger, a: Attempt)
    ensures Submits(l, a) <==> a.result >= 0 && a.matched && !l.matchOnly && !Seen(l.downloads, a.item)
    ensures var m := AfterItem(l, a);
            var id := Recorded(a.item);
            && (a.result < 0 || !a.matched || l.matchOnly || Seen(l.downloads, a.item) ==> m == l)
            && (a.result >= 0 && a.matched && !l.matchOnly && !Seen(l.downloads, a.item) ==>
                  && m.log == l.log + [Submission(id, l.maxItems)] && m.changed && !m.matchOnly
                  && m.maxItems == l.maxItems && m.disk == Serialize(m.downloads)
                  && m.downloads ==
                     (match id case None => [] case Some(x) => [x])
                     + if 0 < l.maxItems < |l.downloads| + (if id.Some? then 1 else 0) && l.downloads != []
                       then l.downloads[..|l.downloads| - 1] else l.downloads)
  {
    hide Serialize, Added;
    BucketIs(Identifier(a.item), l.downloads, l.maxItems);
    BucketIs(a.item.guid, l.downloads, 0);
    BucketIs(a.item.url, l.downloads, 0);
  }

  function AfterItems(l: Ledger, items: seq<Attempt>): Ledger
    decreases |items|
  {
    if items == [] then l else AfterItems(AfterItem(l, items[0]), items[1..])
  }

  lemma AfterFirst(l: Ledger, items: seq<Attempt>)
    requires items != []
    ensures AfterItems(l, items) == AfterItems(AfterItem(l, items[0]), items[1..])
  {
    hide AfterItem;
  }

  lemma AfterNone(l: Ledger)
    ensures AfterItems(l, []) == l
  {
  }

  /** What a pass over a list of items can change, and when it changes nothing. */
  lemma {:induction false} PassIs(l: Ledger, items: seq<Attempt>)
    ensures var m := AfterItems(l, items);
            && m.maxItems == l.maxItems && m.matchOnly == l.matchOnly && l.log <= m.log
            && (|m.log| == |l.log| ==> m == l)
            && (|m.log| > |l.log| ==> m.changed && m.disk == Serialize(m.downloads))
            && (l.matchOnly || (forall a :: a in items ==> a.result < 0 || !a.matched) ==> m == l)
    decreases |items|
  {
    hide AfterItem, Serialize, Seen, Recorded;
    if items != [] {
      ItemIs(l, items[0]);
      PassIs(AfterItem(l, items[0]), items[1..]);
    }
  }

  // Items are taken one after the other, from the first to the last.
  lemma {:induction false} ItemsInOrder(l: Ledger, items: seq<Attempt>, a: Attempt)
    ensures AfterItems(l, items + [a]) == AfterItem(AfterItems(l, items), a)
    decreases |items|
  {
    hide AfterItem;
    if items == [] {
      assert [a][1..] == [] && items + [a] == [a];
    } else {
      assert (items + [a])[1..] == items[1..] + [a];
      ItemsInOrder(AfterItem(l, items[0]), items[1..], a);
    }
  }

  /** auto_handle, with the file its statefile names. */
  class Session {
    const downloads: SimpleList
    var maxBucketItems: nat
    var bucketChanged: bool
    var matchOnly: bool
    var disk: string
    ghost var log: seq<Submission>

    ghost predicate Valid()
      reads this, downloads, downloads.spine
    {
      downloads.Valid()
    }

    ghost function View(): Ledger
      reads this, downloads, downloads.spine
    {
      Ledger(downloads.Contents(), maxBucketItems, bucketChanged, disk, matchOnly, log)
    }

    /** session_init followed by the load_state of setupSession. */
    constructor (disk: string, matchOnly: bool)
      ensures Valid() && fresh(downloads)
      ensures View() == Started(disk, matchOnly, [])
      ensures downloads.Contents() == Entries(disk) && maxBucketItems == 30 && !bucketChanged
    {
      downloads := new SimpleList();
      maxBucketItems, bucketChanged := DEFAULT_MAXBUCKET, false;
      this.disk, this.matchOnly, log := disk, matchOnly, [];
      new;
      LoadState(disk, downloads);
    }

    /** processRSSList: the download history after a list of items. */
    method ProcessRSSList(items: seq<Attempt>)
      requires Valid()
      modifies this, downloads, downloads.spine
      ensures Valid() && View() == AfterItems(old(View()), items) == After(old(View()), Tries(items))
      ensures maxBucketItems == old(maxBucketItems) && matchOnly == old(matchOnly) && old(log) <= log
      ensures |log| == |old(log)| ==> View() == old(View())
      ensures |log| > |old(log)| ==> bucketChanged && disk == Serialize(downloads.Contents())
      ensures old(matchOnly) || (forall a :: a in items ==> a.result < 0 || !a.matched) ==> View() == old(View())
    {
      hide Spine, Values, Serialize, Added, HasGuid, AfterItem, After, AfterItems;
      ghost var before := View();
      PassIs(before, items);
      PassIsRun(before, items);
      var current := 0;
      while current < |items|
        invariant 0 <= current <= |items|
        invariant Valid()
        invariant AfterItems(View(), items[current..]) == AfterItems(before, items)
        invariant forall k :: 0 <= k < |downloads.spine| ==>
                    downloads.spine[k] in old(downloads.spine) || fresh(downloads.spine[k])
      {
        AfterFirst(View(), items[current..]);
        assert items[current..][1..] == items[current + 1..];
        ProcessItem(items[current]);
        current := current + 1;
      }
      assert items[current..] == [];
      AfterNone(View());
    }

    // One turn of the loop in processRSSList.
    method ProcessItem(a: Attempt)
      requires Valid()
      modifies this, downloads, downloads.spine
      ensures Valid() && View() == AfterItem(old(View()), a)
      ensures a.result < 0 || !a.matched || old(matchOnly) || old(Seen(downloads.Contents(), a.item)) ==>
                View() == old(View())
      ensures a.result >= 0 && a.matched && !old(matchOnly) && !old(Seen(downloads.Contents(), a.item)) ==>
                && log == old(log) + [Submission(Recorded(a.item), old(maxBucketItems))]
                && bucketChanged && disk == Serialize(downloads.Contents())
                && (Recorded(a.item).Some? ==> Recorded(a.item).value in downloads.Contents())
      ensures forall k :: 0 <= k < |downloads.spine| ==>
                downloads.spine[k] in old(downloads.spine) || fresh(downloads.spine[k])
    {
      hide Spine, Values, AfterItem, HasGuid, Seen, Recorded, Serialize;
      ItemIs(View(), a);
      if a.matched {
        if !matchOnly {
          var known := FindGuid(a.item.guid, downloads);
          if !known {
            known := FindGuid(a.item.url, downloads);
          }
          if !known && a.result >= 0 {
            Record(a);
          }
        }
      }
    }

    // A successful submission: remembered, and saved.
    method Record(a: Attempt)
      requires Valid() && Submits(View(), a)
      modifies this, downloads, downloads.spine
      ensures Valid() && View() == AfterItem(old(View()), a)
      ensures forall k :: 0 <= k < |downloads.spine| ==>
                downloads.spine[k] in old(downloads.spine) || fresh(downloads.spine[k])
    {
      hide Spine, Values, Serialize, Added, HasGuid;
      var result := AddToBucket(Identifier(a.item), downloads, maxBucketItems);
      if result == 0 {
        bucketChanged := true;
        disk := SaveState(downloads);
      }
      log := log + [Submission(NonEmpty(Identifier(a.item)), maxBucketItems)];
    }

    /** processFeed on a feed that answered: the first run of a session enlarges the bucket. */
    method ProcessFeed(itemCount: nat, items: seq<Attempt>, firstRun: bool)
      requires Valid()
      modifies this, downloads, downloads.spine
      ensures Valid()
      ensures View() == AfterItems(if firstRun then Enlarged(old(View()), itemCount) else old(View()), items)
      ensures maxBucketItems == old(maxBucketItems) + (if firstRun then itemCount else 0)
      ensures matchOnly == old(matchOnly) && old(log) <= log
      ensures |log| == |old(log)| ==>
                && disk == old(disk) && bucketChanged == old(bucketChanged)
                && downloads.Contents() == old(downloads.Contents())
      ensures |log| > |old(log)| ==> bucketChanged && disk == Serialize(downloads.Contents())
      ensures old(matchOnly) || (forall a :: a in items ==> a.result < 0 || !a.matched) ==> log == old(log)
    {
      hide Spine, Values, AfterItems, After, Serialize;
      if firstRun {
        maxBucketItems := maxBucketItems + itemCount;
      }
      ProcessRSSList(items);
    }
  }

  function Enlarged(l: Ledger, itemCount: nat): Ledger {
    l.(maxItems := l.maxItems + itemCount)
  }

  // A session that has just loaded its state file; the past is carried along.
  function Started(disk: string, matchOnly: bool, log: seq<Submission>): Ledger {
    Ledger(Entries(disk), DEFAULT_MAXBUCKET, false, disk, matchOnly, log)
  }

  // ---- whole runs ----

  // Reload is a successful setupSession with the same state file: it saves a changed
  // history first. Restart is a crash between two items, then a fresh start.
  datatype Event = FirstRun(itemCount: nat) | Try(a: Attempt) | Reload | Restart

  function Next(l: Ledger, e: Event): Ledger {
    match e
    case FirstRun(n) => Enlarged(l, n)
    case Try(a) => AfterItem(l, a)
    case Reload => Started(if l.changed then Serialize(l.downloads) else l.disk, l.matchOnly, l.log)
    case Restart => Started(l.disk, l.matchOnly, l.log)
  }

  function After(l: Ledger, es: seq<Event>): Ledger {
    if es == [] then l else Next(After(l, es[..|es| - 1]), es[|es| - 1])
  }

  function Tries(items: seq<Attempt>): (es: seq<Event>)
    ensures |es| == |items| && forall i :: 0 <= i < |es| ==> es[i] == Try(items[i])
  {
    seq(|items|, i requires 0 <= i < |items| => Try(items[i]))
  }

  /** A pass is the run that tries each item in turn. */
  lemma {:induction false} PassIsRun(l: Ledger, items: seq<Attempt>)
    ensures AfterItems(l, items) == After(l, Tries(items))
    decreases |items|
  {
    hide AfterItem;
    if items != [] {
      var before := items[..|items| - 1];
      PassIsRun(l, before);
      ItemsInOrder(l, before, items[|items| - 1]);
      assert before + [items[|items| - 1]] == items;
      assert Tries(items)[..|before|] == Tries(before);
    }
  }

  /** A reload saves a changed history, and both reload and restart begin anew from the state
      file with room for thirty entries; the first run makes room for its items. */
  lemma BeginningsAre(l: Ledger, n: nat)
    ensures var m := Next(l, Reload);
            && m.disk == (if l.changed then Serialize(l.downloads) else l.disk) && m.downloads == Entries(m.disk)
            && m.maxItems == 30 && !m.changed && m.matchOnly == l.matchOnly && m.log == l.log
    ensures Next(l, Restart) == Ledger(Entries(l.disk), 30, false, l.disk, l.matchOnly, l.log)
    ensures Next(l, FirstRun(n)) == Ledger(l.downloads, l.maxItems + n, l.changed, l.disk, l.matchOnly, l.log)
  {
    hide Entries, Serialize;
  }

  lemma EventLogs(l: Ledger, e: Event)
    ensures Next(l, e).log ==
            l.log + if e.Try? && Submits(l, e.a) then [Submission(Recorded(e.a.item), l.maxItems)] else []
    ensures e.Try? && Submits(l, e.a) ==> e.a.matched && e.a.result >= 0
  {
    hide Submits, Recorded, Seen, Serialize, Entries, AfterItem;
    if e.Try? { ItemIs(l, e.a); } else { BeginningsAre(l, if e.FirstRun? then e.itemCount else 0); }
  }

  // Entry s of a log was written for event k of the run.
  ghost predicate LoggedFor(l: Ledger, es: seq<Event>, k: nat, s: Submission) {
    && k < |es| && es[k].Try? && es[k].a.matched && es[k].a.result >= 0
    && s == Submission(Recorded(es[k].a.item), After(l, es[..k]).maxItems)
  }

  lemma StillLogged(l: Ledger, es: seq<Event>, k: nat, s: Submission)
    requires es != [] && LoggedFor(l, es[..|es| - 1], k, s)
    ensures LoggedFor(l, es, k, s) && k < |es| - 1
  {
    hide After, Recorded;
    assert es[..|es| - 1][..k] == es[..k];
  }

  lemma NowLogged(l: Ledger, es: seq<Event>)
    requires es != [] && es[|es| - 1].Try? && Submits(After(l, es[..|es| - 1]), es[|es| - 1].a)
    ensures var s := Submission(Recorded(es[|es| - 1].a.item), After(l, es[..|es| - 1]).maxItems);
            LoggedFor(l, es, |es| - 1, s)
  {
    hide After, Recorded;
  }

  /** Every entry of the log comes from its own item, one that was matched and not refused;
      every such item that was not in the history is logged, in order. */
  lemma {:induction false} RunLogs(l: Ledger, es: seq<Event>) returns (src: seq<nat>)
    ensures var m := After(l, es);
            && l.log <= m.log && |m.log| == |l.log| + |src|
            && forall i :: 0 <= i < |src| ==> LoggedFor(l, es, src[i], m.log[|l.log| + i])
    ensures forall i, j :: 0 <= i < j < |src| ==> src[i] < src[j]
    ensures forall k :: 0 <= k < |es| ==>
              (k in src <==> es[k].Try? && Submits(After(l, es[..k]), es[k].a))
  {
    hide Submits, Recorded, Next, LoggedFor;
    if es == [] {
      src := [];
    } else {
      var n := |es| - 1;
      src := RunLogs(l, es[..n]);
      var was := After(l, es[..n]);
      assert forall k :: 0 <= k < n ==> es[..n][..k] == es[..k] && es[..n][k] == es[k];
      forall i | 0 <= i < |src| ensures LoggedFor(l, es, src[i], was.log[|l.log| + i]) && src[i] < n {
        StillLogged(l, es, src[i], was.log[|l.log| + i]);
      }
      EventLogs(was, es[n]);
      if es[n].Try? && Submits(was, es[n].a) {
        src := src + [n];
        NowLogged(l, es);
      }
    }
  }

  // The state file would bring back exactly the history in memory.
  predicate Durable(l: Ledger) {
    Entries(l.disk) == l.downloads
  }

  predicate CleanId(a: Attempt) {
    var id := NonEmpty(Identifier(a.item));
    id.Some? ==> Storable(id.value)
  }

  // An item that is submitted now has a clean identifier.
  predicate Clean(l: Ledger, e: Event) {
    e.Try? && Submits(l, e.a) ==> CleanId(e.a)
  }

  /** Everything submitted in the course of a run has a clean identifier. */
  ghost predicate RunClean(disk: string, matchOnly: bool, es: seq<Event>) {
    forall k :: 0 <= k < |es| ==> Clean(After(Started(disk, matchOnly, []), es[..k]), es[k])
  }

  predicate NeverReloads(es: seq<Event>) {
    forall k :: 0 <= k < |es| ==> !es[k].Reload? && !es[k].Restart?
  }

  lemma RunCleanBefore(disk: string, matchOnly: bool, es: seq<Event>)
    requires es != []
    ensures RunClean(disk, matchOnly, es) ==>
              && RunClean(disk, matchOnly, es[..|es| - 1])
              && Clean(After(Started(disk, matchOnly, []), es[..|es| - 1]), es[|es| - 1])
    ensures NeverReloads(es) ==> NeverReloads(es[..|es| - 1])
  {
    hide After, Clean, Started;
    var before := es[..|es| - 1];
    assert forall k :: 0 <= k < |before| ==> before[..k] == es[..k] && before[k] == es[k];
  }

  /** Recording an item keeps the state file in step exactly when its identifier is one
      short line. */
  lemma SubmissionIsDurable(l: Ledger, a: Attempt)
    requires Durable(l) && Submits(l, a)
    ensures Durable(AfterItem(l, a)) <==> CleanId(a)
  {
    hide Entries, Serialize, Storable;
    LoadedIsStorable(l.disk);
    var d := AfterItem(l, a).downloads;
    RoundTripExactly(d);
    if !CleanId(a) { assert !Storable(d[0]); }
  }

  lemma NextIsDurable(l: Ledger, e: Event)
    requires Durable(l) && Clean(l, e)
    ensures Durable(Next(l, e))
  {
    hide Entries, Serialize, Storable;
    LoadedIsStorable(l.disk);
    if e.Try? && Submits(l, e.a) {
      SubmissionIsDurable(l, e.a);
    } else if e.Reload? {
      RoundTripExactly(l.downloads);
    }
  }

  /** Crash consistency: stop after any event, and a restart has the same history. */
  lemma {:induction false} CrashConsistent(disk: string, matchOnly: bool, es: seq<Event>)
    requires RunClean(disk, matchOnly, es)
    ensures var l := After(Started(disk, matchOnly, []), es);
            Durable(l) && Next(l, Restart).downloads == l.downloads && Next(l, Reload).downloads == l.downloads
  {
    hide RunClean, Entries, Serialize, Storable, AfterItem;
    if es == [] {
    } else {
      RunCleanBefore(disk, matchOnly, es);
      CrashConsistent(disk, matchOnly, es[..|es| - 1]);
      NextIsDurable(After(Started(disk, matchOnly, []), es[..|es| - 1]), es[|es| - 1]);
    }
    var l := After(Started(disk, matchOnly, []), es);
    NextIsDurable(l, Reload);
    LoadedIsStorable(l.disk);
    RoundTripExactly(l.downloads);
  }

  /** And only then: the state file is in step after every event of a run exactly when
      everything submitted in it has a clean identifier. */
  lemma CrashConsistentExactly(disk: string, matchOnly: bool, es: seq<Event>)
    ensures (forall n :: 0 <= n <= |es| ==> Durable(After(Started(disk, matchOnly, []), es[..n])))
            <==> RunClean(disk, matchOnly, es)
  {
    var start := Started(disk, matchOnly, []);
    if RunClean(disk, matchOnly, es) {
      forall n | 0 <= n <= |es| ensures Durable(After(start, es[..n])) {
        assert forall k :: 0 <= k < n ==> es[..n][..k] == es[..k];
        CrashConsistent(disk, matchOnly, es[..n]);
      }
    } else {
      var k :| 0 <= k < |es| && !Clean(After(start, es[..k]), es[k]);
      UncleanIsLost(After(start, es[..k]), es[k].a);
      assert es[..k + 1][..k] == es[..k] && es[..k + 1][k] == es[k];
      assert After(start, es[..k + 1]) == AfterItem(After(start, es[..k]), es[k].a);
    }
  }

  lemma UncleanIsLost(l: Ledger, a: Attempt)
    requires Submits(l, a) && !CleanId(a)
    ensures Durable(l) ==> !Durable(AfterItem(l, a))
  {
    if Durable(l) { SubmissionIsDurable(l, a); }
  }

  // ---- spacing ----

  ghost predicate NoRepeats(s: seq<string>) {
    forall i, j :: 0 <= i < j < |s| ==> s[i] != s[j]
  }

  // Some submission after the i-th could already have pushed it out of the bucket.
  ghost predicate PushedOut(log: seq<Submission>, i: int, j: int) {
    exists k :: i < k < j && k < |log| && 0 <= i && 1 <= log[k].limit <= k - i
  }

  // The i-th submission is still in the history, no deeper than what followed it.
  ghost predicate Remembered(l: Ledger, i: int)
    requires 0 <= i < |l.log|
  {
    l.log[i].id.Some? ==>
      PushedOut(l.log, i, |l.log|)
      || exists p :: 0 <= p < |l.downloads| && p <= |l.log| - 1 - i && l.downloads[p] == l.log[i].id.value
  }

  ghost predicate Spaced(l: Ledger) {
    && (forall i :: 0 <= i < |l.log| ==> Remembered(l, i))
    && (forall i, j :: 0 <= i < j < |l.log| && l.log[i].id.Some? && l.log[i].id == l.log[j].id ==>
            PushedOut(l.log, i, j))
  }

  lemma PushedOutStays(log: seq<Submission>, x: Submission, i: int, j: int)
    requires PushedOut(log, i, j)
    ensures PushedOut(log + [x], i, j)
  {
    var k :| i < k < j && k < |log| && 0 <= i && 1 <= log[k].limit <= k - i;
    assert (log + [x])[k] == log[k];
  }

  lemma ItemKeepsMemory(l: Ledger, a: Attempt, i: int)
    requires Submits(l, a) && 0 <= i < |l.log| && Remembered(l, i)
    ensures Remembered(AfterItem(l, a), i)
  {
    var m := AfterItem(l, a);
    var n := |l.log|;
    assert m.log[i] == l.log[i] && m.log[n].limit == l.maxItems;
    if l.log[i].id.Some? {
      if PushedOut(l.log, i, n) {
        var k :| i < k < n && 1 <= l.log[k].limit <= k - i;
        assert m.log[k] == l.log[k];
        assert PushedOut(m.log, i, n + 1);
      } else {
        var p :| 0 <= p < |l.downloads| && p <= n - 1 - i && l.downloads[p] == l.log[i].id.value;
        var b := WithNewest(Identifier(a.item), l.downloads);
        var q := p + |b| - |l.downloads|;
        assert b[q] == l.downloads[p];
        if q < |m.downloads| {
          assert m.downloads[q] == l.log[i].id.value;
        } else {
          assert 1 <= m.log[n].limit <= n - i;
          assert PushedOut(m.log, i, n + 1);
        }
      }
    }
  }

  lemma ItemIsSpaced(l: Ledger, a: Attempt)
    requires Spaced(l)
    ensures Spaced(AfterItem(l, a))
  {
    if Submits(l, a) {
      var m := AfterItem(l, a);
      var n := |l.log|;
      forall i | 0 <= i < |m.log| ensures Remembered(m, i) {
        if i < n {
          ItemKeepsMemory(l, a, i);
        } else if m.log[n].id.Some? {
          assert m.downloads[0] == m.log[n].id.value;
        }
      }
      forall i, j | 0 <= i < j < |m.log| && m.log[i].id.Some? && m.log[i].id == m.log[j].id
        ensures PushedOut(m.log, i, j)
      {
        if j < n {
          PushedOutStays(l.log, m.log[n], i, j);
        } else {
          assert Remembered(l, i);
          assert m.log[n].id.value !in l.downloads;
          PushedOutStays(l.log, m.log[n], i, n);
        }
      }
    }
  }

  lemma NextIsSpaced(l: Ledger, e: Event)
    requires Spaced(l)
    requires e.Reload? || e.Restart? ==> Next(l, e).downloads == l.downloads
    ensures Spaced(Next(l, e))
  {
    if e.Try? {
      ItemIsSpaced(l, e.a);
    } else {
      var m := Next(l, e);
      forall i | 0 <= i < |m.log| ensures Remembered(m, i) {
        assert Remembered(l, i);
      }
    }
  }

  /** Over any run, two successful submissions of one identifier have in between them a
      submission by which the first could have left the bucket: at least as many
      submissions lie between as the bucket size then in force. */
  lemma {:induction false} RepeatsAreSpaced(disk: string, matchOnly: bool, es: seq<Event>, i: nat, j: nat)
    requires RunClean(disk, matchOnly, es) || NeverReloads(es)
    requires var log := After(Started(disk, matchOnly, []), es).log;
             i < j < |log| && log[i].id.Some? && log[i].id == log[j].id
    ensures PushedOut(After(Started(disk, matchOnly, []), es).log, i, j)
  {
    RunIsSpaced(disk, matchOnly, es);
  }

  lemma {:induction false} RunIsSpaced(disk: string, matchOnly: bool, es: seq<Event>)
    requires RunClean(disk, matchOnly, es) || NeverReloads(es)
    ensures Spaced(After(Started(disk, matchOnly, []), es))
  {
    if es != [] {
      var n := |es| - 1;
      RunCleanBefore(disk, matchOnly, es);
      RunIsSpaced(disk, matchOnly, es[..n]);
      if es[n].Reload? || es[n].Restart? {
        CrashConsistent(disk, matchOnly, es[..n]);
      }
      NextIsSpaced(After(Started(disk, matchOnly, []), es[..n]), es[n]);
    }
  }

  lemma {:induction false} LimitsOnlyGrow(disk: string, matchOnly: bool, es: seq<Event>)
    ensures var l := After(Started(disk, matchOnly, []), es);
            l.maxItems >= 30 && forall k :: 0 <= k < |l.log| ==> l.log[k].limit >= 30
  {
    if es != [] { LimitsOnlyGrow(disk, matchOnly, es[..|es| - 1]); }
  }

  /** With the program's default bucket size: no identifier is submitted again until at
      least thirty other submissions have succeeded. */
  lemma NoRepeatWithinDefaultBucket(disk: string, matchOnly: bool, es: seq<Event>, i: nat, j: nat)
    requires RunClean(disk, matchOnly, es) || NeverReloads(es)
    requires var log := After(Started(disk, matchOnly, []), es).log;
             i < j < |log| && log[i].id.Some? && log[i].id == log[j].id
    ensures j - i - 1 >= 30
  {
    RepeatsAreSpaced(disk, matchOnly, es, i, j);
    LimitsOnlyGrow(disk, matchOnly, es);
  }

  /** A history without repeated entries stays that way through an item, and through a
      reload or restart while the state file is in step. */
  lemma NextHasNoRepeats(l: Ledger, e: Event)
    requires NoRepeats(l.downloads)
    requires e.Reload? || e.Restart? ==> Durable(l)
    ensures NoRepeats(Next(l, e).downloads)
  {
    if e.Reload? {
      LoadedIsStorable(l.disk);
      RoundTripExactly(l.downloads);
    }
  }

  /** Over the same runs, a history that starts with distinct entries keeps them distinct. */
  lemma {:induction false} RunHasNoRepeats(disk: string, matchOnly: bool, es: seq<Event>)
    requires NoRepeats(Entries(disk))
    requires RunClean(disk, matchOnly, es) || NeverReloads(es)
    ensures NoRepeats(After(Started(disk, matchOnly, []), es).downloads)
  {
    if es != [] {
      var before := es[..|es| - 1];
      RunCleanBefore(disk, matchOnly, es);
      RunHasNoRepeats(disk, matchOnly, before);
      if RunClean(disk, matchOnly, before) {
        CrashConsistent(disk, matchOnly, before);
      }
      NextHasNoRepeats(After(Started(disk, matchOnly, []), before), es[|es| - 1]);
    }
  }

  // What the state file brings back once an item with this identifier has been recorded.
  lemma RecordedEntries(l: Ledger, a: Attempt)
    requires Durable(l) && Submits(l, a) && NonEmpty(Identifier(a.item)).Some?
    ensures var id := Identifier(a.item).value;
            var m := AfterItem(l, a);
            && m.downloads != [] && m.downloads[0] == id && m.downloads[1..] <= l.downloads
            && Entries(m.disk) == Entries(id + "\n") + m.downloads[1..]
  {
    hide Entries, Storable, TakenBy;
    var id := Identifier(a.item).value;
    var d := AfterItem(l, a).downloads;
    assert d[0] == id && d[1..] <= l.downloads;
    LoadedIsStorable(l.disk);
    LoadAfterSave(d[1..]);
    EntriesSplit(id, Serialize(d[1..]));
  }

  /** After a restart, an item that was just submitted is submitted again exactly when it
      has no usable identifier, or one that is not one short line and whose pieces, as the
      state file brings them back, do not include the item's URL. */
  lemma ResubmittedAfterRestart(l: Ledger, a: Attempt)
    requires Durable(l) && Submits(l, a)
    ensures var id := NonEmpty(Identifier(a.item));
            Submits(Next(AfterItem(l, a), Restart), a)
            <==> id.None? || (!CleanId(a) && !HasGuid(a.item.url, Entries(id.value + "\n")))
  {
    hide Entries, Serialize, Storable;
    var m := AfterItem(l, a);
    var id := NonEmpty(Identifier(a.item));
    SubmissionIsDurable(l, a);
    if id.None? {
      assert m.downloads == Added(Identifier(a.item), l.downloads, l.maxItems);
    } else if CleanId(a) {
      assert m.downloads[0] == id.value;
    } else {
      RecordedEntries(l, a);
      LoadedIsStorable(m.disk);
      assert !Storable(id.value) && id.value !in Entries(m.disk);
      assert forall x :: x in m.downloads[1..] ==> x in l.downloads;
    }
  }

  /** A guid of two lines: submitted again after a restart, unless the item's URL is one of
      the lines. */
  lemma TwoLineGuid(url: Option<string>)
    requires NonEmpty(url) != Some("a\nb")
    ensures var l := Started("", false, []);
            var a := Attempt(Item(Some("a\nb"), url), true, 1);
            && Submits(l, a) && !CleanId(a)
            && (Submits(Next(AfterItem(l, a), Restart), a) <==> url != Some("a") && url != Some("b"))
  {
    var l := Started("", false, []);
    var a := Attempt(Item(Some("a\nb"), url), true, 1);
    assert "a\nb"[1] == '\n';
    assert "a\nb" + "\n" == "a\nb\n";
    NewlineSplitsEntry();
    ResubmittedAfterRestart(l, a);
  }

  /** An item without a usable identifier is submitted in every pass: nothing of it is
      recorded. With an identifier, it is never submitted twice in a row. */
  lemma ForgottenExactlyWithoutIdentifier(l: Ledger, a: Attempt)
    requires Submits(l, a)
    ensures Submits(AfterItem(l, a), a) <==> NonEmpty(Identifier(a.item)).None?
  {
    var m := AfterItem(l, a);
    if NonEmpty(Identifier(a.item)).Some? {
      assert m.downloads[0] == Identifier(a.item).value;
    }
  }
}
