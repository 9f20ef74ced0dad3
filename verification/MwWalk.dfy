/**
 Walking a chain whose links may be damaged: what the integrity check and the
 self-repair of src/memwatch.c rely on.
 */
module MwWalk {
  import opened MwChain
  import opened Wrappers

  /** What mwIsHeapOK decides. An empty head is accepted whatever the tail says. */
  ghost predicate HeapOK(m: Memory, head: Addr, tail: Addr, mw: Addr) {
    if head == NULL then mw == NULL
    else exists c :: Chained(m, head, tail, c) && (mw == NULL || mw in c)
  }

  // The tests mwIsHeapOK makes on one block.
  predicate BlockPasses(m: Memory, head: Addr, tail: Addr, cur: Addr) {
    && Safe(m, cur)
    && (m[cur].prev != NULL ==> Safe(m, m[cur].prev) && cur != head && m[m[cur].prev].next == cur)
    && (if m[cur].next != NULL then Safe(m, m[cur].next) && cur != tail && m[m[cur].next].prev == cur
        else cur == tail)
  }

  lemma {:induction false} PathFollowsChain(m: Memory, head: Addr, tail: Addr, v: seq<Addr>, c: seq<Addr>)
    requires Path(m, head, v) && Chained(m, head, tail, c)
    ensures v <= c && m[v[|v| - 1]].next == At(c, |v|)
  {
    if |v| == 1 {
      assert c != [];
      assert LinkOK(m, c, 0);
    } else {
      var w := v[..|v| - 1];
      assert Path(m, head, w) by {
        forall i | 0 <= i < |w| - 1 ensures Step(m, w, i) { assert Step(m, v, i); }
      }
      PathFollowsChain(m, head, tail, w, c);
      assert Step(m, v, |v| - 2);
      assert LinkOK(m, c, |v| - 1);
      assert v == w + [v[|v| - 1]];
    }
  }

  lemma ChainBlockPasses(m: Memory, head: Addr, tail: Addr, c: seq<Addr>, i: nat)
    requires Chained(m, head, tail, c) && i < |c|
    ensures BlockPasses(m, head, tail, c[i])
  {
    assert LinkOK(m, c, i);
    assert c[i] in c;
    if i > 0 { assert LinkOK(m, c, i - 1); assert c[i - 1] in c; }
    if i + 1 < |c| { assert LinkOK(m, c, i + 1); assert c[i + 1] in c; }
  }

  // A failing block on the way from the head refutes every chain.
  lemma FailingBlockRefutes(m: Memory, head: Addr, tail: Addr, v: seq<Addr>, cur: Addr, mw: Addr)
    requires cur != NULL && head != NULL && !BlockPasses(m, head, tail, cur)
    requires if v == [] then cur == head else Path(m, head, v) && m[v[|v| - 1]].next == cur
    ensures !HeapOK(m, head, tail, mw)
  {
    forall c | Chained(m, head, tail, c) ensures false {
      if v != [] { PathFollowsChain(m, head, tail, v, c); }
      ChainBlockPasses(m, head, tail, c, |v|);
    }
  }

  // Passing blocks extend the walk.
  lemma PassingBlockExtends(m: Memory, head: Addr, tail: Addr, v: seq<Addr>, cur: Addr)
    requires cur != NULL && BlockPasses(m, head, tail, cur)
    requires v == [] ==> cur == head
    requires v != [] ==>
               && Path(m, head, v) && m[head].prev == NULL
               && m[v[|v| - 1]].next == cur && m[cur].prev == v[|v| - 1]
    ensures Path(m, head, v + [cur]) && m[head].prev == NULL
  {
    var w := v + [cur];
    if v != [] {
      forall i | 0 <= i < |w| - 1 ensures Step(m, w, i) {
        if i < |v| - 1 { assert Step(m, v, i); }
      }
    }
  }

  lemma FinishedPathIsChain(m: Memory, head: Addr, tail: Addr, v: seq<Addr>)
    requires Path(m, head, v) && m[head].prev == NULL && NULL != head
    requires v[|v| - 1] == tail && m[tail].next == NULL
    ensures Chained(m, head, tail, v)
  {
    PathIsShort(m, head, v);
    forall i | 0 <= i < |v| ensures LinkOK(m, v, i) {
      if i > 0 { assert Step(m, v, i - 1); }
      if i < |v| - 1 { assert Step(m, v, i); }
    }
  }

  // ---- the two searches of mwRelink ----

  // What the search sees at its last block: the damaged block itself, a block it may
  // step to, the end of the chain, or a broken link.
  datatype Sight = Target | StepTo(next: Addr) | End | Broken

  function Look(m: Memory, mw: Addr, cur: Addr): Sight
    requires cur in m
  {
    var n := m[cur].next;
    if n == mw then Target
    else if n == NULL then End
    else if !Safe(m, n) || m[n].prev != cur then Broken
    else StepTo(n)
  }

  /** Where the search is after n steps, if it has not ended by then. */
  function WalkAt(m: Memory, mw: Addr, a: Addr, n: nat): (r: Option<Addr>)
    ensures r.Some? ==> Safe(m, r.value)
  {
    if n == 0 then if Safe(m, a) then Some(a) else None
    else
      var before := WalkAt(m, mw, a, n - 1);
      if before.Some? && Look(m, mw, before.value).StepTo? then Some(Look(m, mw, before.value).next) else None
  }

  /** The search comes back to where it started: a lies on a cycle of confirmed links that
      avoids mw. */
  ghost predicate Circles(m: Memory, mw: Addr, a: Addr) {
    exists k: nat :: k > 0 && WalkAt(m, mw, a, k) == Some(a)
  }

  lemma WalkStep(m: Memory, mw: Addr, a: Addr, n: nat)
    requires WalkAt(m, mw, a, n + 1).Some?
    ensures WalkAt(m, mw, a, n).Some?
    ensures m[WalkAt(m, mw, a, n + 1).value].prev == WalkAt(m, mw, a, n).value
    ensures m[WalkAt(m, mw, a, n).value].next == WalkAt(m, mw, a, n + 1).value
  {
  }

  lemma {:induction false} WalkShifts(m: Memory, mw: Addr, a: Addr, k: nat, n: nat)
    requires WalkAt(m, mw, a, k) == Some(a)
    ensures WalkAt(m, mw, a, k + n) == WalkAt(m, mw, a, n)
  {
    if n > 0 { WalkShifts(m, mw, a, k, n - 1); }
  }

  // Two visits to one block, traced back link by link, are a return to the start.
  lemma {:induction false} RevisitCircles(m: Memory, mw: Addr, a: Addr, i: nat, j: nat)
    requires i < j && WalkAt(m, mw, a, j).Some? && WalkAt(m, mw, a, i) == WalkAt(m, mw, a, j)
    ensures Circles(m, mw, a)
  {
    if i == 0 {
      assert WalkAt(m, mw, a, j) == Some(a);
    } else {
      WalkStep(m, mw, a, i - 1);
      WalkStep(m, mw, a, j - 1);
      RevisitCircles(m, mw, a, i - 1, j - 1);
    }
  }

  lemma {:induction false} CirclingGoesOn(m: Memory, mw: Addr, a: Addr, k: nat, n: nat)
    requires k > 0 && WalkAt(m, mw, a, k) == Some(a)
    ensures WalkAt(m, mw, a, n).Some?
    decreases n
  {
    if n >= k {
      CirclingGoesOn(m, mw, a, k, n - k);
      WalkShifts(m, mw, a, k, n - k);
    } else {
      EarlierIsThere(m, mw, a, n, k);
    }
  }

  lemma {:induction false} EarlierIsThere(m: Memory, mw: Addr, a: Addr, n: nat, k: nat)
    requires n <= k && WalkAt(m, mw, a, k).Some?
    ensures WalkAt(m, mw, a, n).Some?
  {
    if n < k { EarlierIsThere(m, mw, a, n, k - 1); }
  }

  // The blocks visited in the first steps.
  ghost predicate Walked(m: Memory, mw: Addr, a: Addr, v: seq<Addr>) {
    forall i :: 0 <= i < |v| ==> WalkAt(m, mw, a, i) == Some(v[i])
  }

  lemma WalkedIsShort(m: Memory, mw: Addr, a: Addr, v: seq<Addr>)
    requires Walked(m, mw, a, v) && !Circles(m, mw, a)
    ensures Distinct(v) && |v| <= |m|
  {
    forall i, j | 0 <= i < j < |v| ensures v[i] != v[j] {
      if v[i] == v[j] { RevisitCircles(m, mw, a, i, j); }
    }
    forall x | x in v ensures x in m.Keys {
      var i :| 0 <= i < |v| && v[i] == x;
      assert WalkAt(m, mw, a, i) == Some(v[i]);
    }
    DistinctFits(v, m.Keys);
  }

  // The search never ends.
  ghost predicate GoesOn(m: Memory, mw: Addr, a: Addr) {
    forall n: nat :: WalkAt(m, mw, a, n).Some?
  }

  /** The search goes on for ever exactly when its start lies on such a cycle. */
  lemma WalkNeverEndsExactly(m: Memory, mw: Addr, a: Addr)
    ensures GoesOn(m, mw, a) <==> Circles(m, mw, a)
  {
    if Circles(m, mw, a) {
      var k: nat :| k > 0 && WalkAt(m, mw, a, k) == Some(a);
      forall n: nat ensures WalkAt(m, mw, a, n).Some? {
        CirclingGoesOn(m, mw, a, k, n);
      }
    } else if GoesOn(m, mw, a) {
      var v := seq(|m| + 1, i requires 0 <= i => WalkAt(m, mw, a, i).value);
      WalkedIsShort(m, mw, a, v);
      assert false;
    }
  }

  /** A head that leads to itself both ways is such a start. */
  lemma SelfLinkCircles(m: Memory, mw: Addr, h: Addr)
    requires Safe(m, h) && h != mw && m[h].next == h && m[h].prev == h
    ensures Circles(m, mw, h)
  {
    assert WalkAt(m, mw, h, 0) == Some(h);
    assert WalkAt(m, mw, h, 1) == Some(h);
  }

  /** It ends when nothing precedes the start. */
  lemma NothingBeforeEnds(m: Memory, mw: Addr, a: Addr)
    requires NULL !in m && (Safe(m, a) ==> m[a].prev == NULL)
    ensures !Circles(m, mw, a)
  {
    if Circles(m, mw, a) {
      var k: nat :| k > 0 && WalkAt(m, mw, a, k) == Some(a);
      WalkStep(m, mw, a, k - 1);
    }
  }

  // What the block under repair holds does not matter to the search.
  lemma {:induction false} WalkIgnoresTarget(m: Memory, m': Memory, mw: Addr, a: Addr, n: nat)
    requires m'.Keys == m.Keys && a != mw && forall x :: x in m && x != mw ==> m'[x] == m[x]
    ensures WalkAt(m', mw, a, n) == WalkAt(m, mw, a, n) && WalkAt(m, mw, a, n) != Some(mw)
  {
    if n > 0 { WalkIgnoresTarget(m, m', mw, a, n - 1); }
  }

  lemma CirclesIgnoresTarget(m: Memory, m': Memory, mw: Addr, a: Addr)
    requires m'.Keys == m.Keys && a != mw && forall x :: x in m && x != mw ==> m'[x] == m[x]
    ensures Circles(m', mw, a) <==> Circles(m, mw, a)
  {
    forall n: nat ensures WalkAt(m', mw, a, n) == WalkAt(m, mw, a, n) {
      WalkIgnoresTarget(m, m', mw, a, n);
    }
  }

  lemma StepExtendsPath(m: Memory, head: Addr, v: seq<Addr>, mw: Addr)
    requires Path(m, head, v) && Walked(m, mw, head, v) && !Circles(m, mw, head)
    requires Look(m, mw, v[|v| - 1]).StepTo?
    ensures var w := v + [m[v[|v| - 1]].next];
            Path(m, head, w) && Walked(m, mw, head, w)
    ensures |v| < |m|
  {
    var w := v + [m[v[|v| - 1]].next];
    forall i | 0 <= i < |w| - 1 ensures Step(m, w, i) {
      if i < |v| - 1 { assert Step(m, v, i); }
    }
    assert WalkAt(m, mw, head, |v| - 1) == Some(v[|v| - 1]);
    assert WalkAt(m, mw, head, |v|) == Some(w[|v|]);
    WalkedIsShort(m, mw, head, w);
  }

  // With a single damaged block, the search from the head meets only intact links
  // until it looks straight at the damaged one, from its true predecessor.
  lemma {:induction false} SearchFindsDamage(m: Memory, head: Addr, tail: Addr, c: seq<Addr>, mw: Addr, v: seq<Addr>)
    requires DamagedAt(m, head, tail, c, mw) && NULL !in m
    requires Path(m, head, v) && mw !in v
    ensures |v| <= Position(c, mw) && v == c[..|v|]
    ensures |v| == Position(c, mw) ==> Look(m, mw, v[|v| - 1]) == Target
    ensures |v| < Position(c, mw) ==> Look(m, mw, v[|v| - 1]) == StepTo(c[|v|])
  {
    var k := Position(c, mw);
    var n := |v| - 1;
    if n > 0 {
      var w := v[..n];
      assert Path(m, head, w) by {
        forall i | 0 <= i < |w| - 1 ensures Step(m, w, i) { assert Step(m, v, i); }
      }
      SearchFindsDamage(m, head, tail, c, mw, w);
      assert Step(m, v, n - 1);
      assert v == w + [v[n]];
      assert v[n] in v;
    }
    assert v[n] == c[n] && n < k;
    SightAt(m, head, tail, c, mw, n);
  }

  // The view from a block before the damaged one.
  lemma SightAt(m: Memory, head: Addr, tail: Addr, c: seq<Addr>, mw: Addr, n: nat)
    requires DamagedAt(m, head, tail, c, mw) && NULL !in m && n < Position(c, mw)
    ensures c[n] in m
    ensures Look(m, mw, c[n]) == if n + 1 == Position(c, mw) then Target else StepTo(c[n + 1])
  {
    assert LinkOK(m, c, n);
    assert c[n + 1] in c;
    if n + 1 < Position(c, mw) { assert LinkOK(m, c, n + 1); }
  }

  function Reverse(c: seq<Addr>): (r: seq<Addr>)
    ensures |r| == |c|
    ensures forall i :: 0 <= i < |c| ==> r[i] == c[|c| - 1 - i]
  {
    seq(|c|, i requires 0 <= i < |c| => c[|c| - 1 - i])
  }

  lemma MirrorDamage(m: Memory, head: Addr, tail: Addr, c: seq<Addr>, mw: Addr)
    requires DamagedAt(m, head, tail, c, mw)
    ensures DamagedAt(Mirror(m), tail, head, Reverse(c), mw)
    ensures Position(Reverse(c), mw) == |c| - 1 - Position(c, mw)
  {
    var r := Reverse(c);
    var k := Position(c, mw);
    assert r[|c| - 1 - k] == mw;
    forall i | 0 <= i < |r| ensures r[i] != NULL { assert c[|c| - 1 - i] in c; }
    forall i | 0 <= i < |r| && r[i] != mw ensures LinkOK(Mirror(m), r, i) {
      assert LinkOK(m, c, |c| - 1 - i);
    }
  }

  // The same search, from the tail along `prev`.
  ghost predicate BackPath(m: Memory, tail: Addr, v: seq<Addr>) {
    Path(Mirror(m), tail, v)
  }

  function LookBack(m: Memory, mw: Addr, cur: Addr): Sight
    requires cur in m
  {
    var p := m[cur].prev;
    if p == mw then Target
    else if p == NULL then End
    else if !Safe(m, p) || m[p].next != cur then Broken
    else StepTo(p)
  }

  lemma StartBackPath(m: Memory, tail: Addr, mw: Addr)
    requires Safe(m, tail)
    ensures BackPath(m, tail, [tail]) && Walked(Mirror(m), mw, tail, [tail])
  {
  }

  ghost predicate CirclesBack(m: Memory, mw: Addr, tail: Addr) {
    Circles(Mirror(m), mw, tail)
  }

  lemma CirclesBackIgnoresTarget(m: Memory, m': Memory, mw: Addr, a: Addr)
    requires m'.Keys == m.Keys && a != mw && forall x :: x in m && x != mw ==> m'[x] == m[x]
    ensures CirclesBack(m', mw, a) <==> CirclesBack(m, mw, a)
  {
    assert Mirror(m).Keys == m.Keys == Mirror(m').Keys;
    CirclesIgnoresTarget(Mirror(m), Mirror(m'), mw, a);
  }

  lemma StepExtendsBackPath(m: Memory, tail: Addr, v: seq<Addr>, mw: Addr)
    requires v != [] && v[|v| - 1] in m && tail in m
    requires BackPath(m, tail, v) && Walked(Mirror(m), mw, tail, v) && !CirclesBack(m, mw, tail)
    requires LookBack(m, mw, v[|v| - 1]).StepTo?
    ensures var w := v + [m[v[|v| - 1]].prev];
            BackPath(m, tail, w) && Walked(Mirror(m), mw, tail, w)
    ensures |v| < |m|
  {
    LookMirrored(m, mw, v[|v| - 1]);
    StepExtendsPath(Mirror(m), tail, v, mw);
    assert Mirror(m).Keys == m.Keys;
    assert |Mirror(m)| == |m|;
  }

  lemma LookMirrored(m: Memory, mw: Addr, cur: Addr)
    requires cur in m
    ensures LookBack(m, mw, cur) == Look(Mirror(m), mw, cur)
  {
  }

  lemma BackSearchMirrored(m: Memory, head: Addr, tail: Addr, c: seq<Addr>, mw: Addr, v: seq<Addr>)
    requires DamagedAt(m, head, tail, c, mw) && NULL !in m
    requires BackPath(m, tail, v) && mw !in v
    ensures v != [] && v[|v| - 1] in Mirror(m)
    ensures |v| <= |c| - 1 - Position(c, mw) && v[|v| - 1] == c[|c| - |v|]
    ensures var sight := Look(Mirror(m), mw, v[|v| - 1]);
            if |v| == |c| - 1 - Position(c, mw) then sight == Target else sight.StepTo?
  {
    MirrorDamage(m, head, tail, c, mw);
    SearchFindsDamage(Mirror(m), tail, head, Reverse(c), mw, v);
    hide DamagedAt, Look, Position;
    assert v[|v| - 1] == Reverse(c)[|v| - 1];
  }

  lemma BackSearchFindsDamage(m: Memory, head: Addr, tail: Addr, c: seq<Addr>, mw: Addr, v: seq<Addr>)
    requires DamagedAt(m, head, tail, c, mw) && NULL !in m
    requires BackPath(m, tail, v) && mw !in v
    ensures v != [] && v[|v| - 1] in m
    ensures LookBack(m, mw, v[|v| - 1]).Target? || LookBack(m, mw, v[|v| - 1]).StepTo?
    ensures LookBack(m, mw, v[|v| - 1]).Target? ==> v[|v| - 1] == At(c, Position(c, mw) + 1)
  {
    hide Path, Look, LookBack, Position;
    BackSearchMirrored(m, head, tail, c, mw, v);
    LookMirrored(m, mw, v[|v| - 1]);
  }
}
