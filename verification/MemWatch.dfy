/**
 The allocation tracker of src/memwatch.c: allocation, reallocation and release
 of tracked blocks, and the integrity check and self-repair of their chain.
 */
module MemWatch {
  import opened MwChain
  import opened MwStats
  import opened MwWalk
  import opened Wrappers

  const HDR: int := 64          // mwDataSize + mwOverflowZoneSize on a 64-bit build
  const ZONE: int := 8          // mwOverflowZoneSize
  const LONG_MAX: int := 0x7FFF_FFFF_FFFF_FFFF
  const FREE_LIST: int := 64
  const VAL_NEW: Byte := 0xFE
  const VAL_NML: Byte := 0xFC

  // Outcome of mwRelink: returns 1, returns 0, enters the emergency branch, or aborts.
  datatype Relinking = Repaired | Partial | Emergency | Aborted

  datatype Search = Found | Missing | Fragmented

  // Answer of mwIsOwned; Lost when a repair it started left the modelled paths.
  datatype Ownership = Owned | Foreign | Lost

  datatype Outcome = Released | NullFree | DoubleFree | WildFree | Unknown

  datatype Freed = Freed(p: Addr, file: Label, line: int)

  function Fill(v: Byte, n: nat): (r: seq<Byte>)
    ensures |r| == n && forall i :: 0 <= i < n ==> r[i] == v
  {
    seq(n, _ => v)
  }

  function Max(a: int, b: int): int {
    if a < b then b else a
  }

  // (long) size
  function LongOf(size: nat): int {
    if size > LONG_MAX then size - WORD else size
  }

  // Block header, user bytes and two overflow zones, in size_t arithmetic.
  function Needed(size: nat): nat {
    (HDR + ZONE + size) % WORD
  }

  predicate Sealed(b: Block) {
    b.check == ChkVal(b.count, b.size, b.line) && |b.data| == b.size
  }

  // The memory holds exactly the blocks of the chain, all with a correct checksum.
  ghost predicate Intact(m: Memory, head: Addr, tail: Addr, c: seq<Addr>) {
    && NULL !in m
    && Chained(m, head, tail, c)
    && (forall a :: a in m <==> a in c)
    && (forall a :: a in m ==> Sealed(m[a]))
  }

  // The counters agree with what is allocated.
  ghost predicate Balanced(s: seq<Alloc>, numCur: int, statCur: int, statMax: int, nmlNum: int, nmlCur: int) {
    && numCur == Total(LiveCount, s)
    && statCur == Total(LiveBytes, s)
    && nmlNum == Total(NmlCount, s)
    && nmlCur == Total(NmlBytes, s)
    && statCur <= statMax
  }

  function IndexOf(s: seq<Alloc>, a: Addr): (k: nat)
    ensures k <= |s|
    ensures k < |s| ==> s[k].addr == a
    ensures forall i :: 0 <= i < k ==> s[i].addr != a
  {
    if s == [] || s[0].addr == a then 0 else 1 + IndexOf(s[1..], a)
  }

  // mwStatFree for allocation a.
  function AfterRelease(stats: seq<Stat>, level: int, a: Alloc): seq<Stat> {
    AfterFree(stats, level, a.size, a.file, a.line)
  }

  predicate IsLive(s: seq<Alloc>, a: Addr) {
    var k := IndexOf(s, a);
    k < |s| && !s[k].nml
  }

  // Releasing allocation k: kept as no-man's-land, or removed.
  function Retired(s: seq<Alloc>, k: nat, nmlMode: int): seq<Alloc>
    requires k < |s|
  {
    if nmlMode != 0 then s[k := s[k].(nml := true, data := Fill(VAL_NML, s[k].size))] else RemoveAt(s, k)
  }

  // A size_t request the C library can serve: no allocator serves more than LONG_MAX
  // bytes, and larger requests reach it only if the sum above did not wrap.
  predicate Fits(size: nat) {
    size < WORD && (size <= LONG_MAX || Needed(size) < size)
  }

  // Bytes written at the start of allocation k.
  function Overwritten(s: seq<Alloc>, k: nat, bytes: seq<Byte>): seq<Alloc>
    requires k < |s| && |bytes| <= |s[k].data|
  {
    s[k := s[k].(data := bytes + s[k].data[|bytes|..])]
  }

  // Reallocation of s[k] to a new block: the common prefix of the bytes is kept.
  function Moved(s: seq<Alloc>, k: nat, mw: Addr, file: Label, count: int, size: nat, line: int, nmlMode: int
    ): seq<Alloc>
    requires k < |s|
  {
    var n := if size < |s[k].data| then size else |s[k].data|;
    var a := Alloc(mw, file, count, size, line, false, s[k].data[..n] + Fill(VAL_NEW, size - n));
    Retired([a] + s, k + 1, nmlMode)
  }

  lemma BytesDoNotCount(s: seq<Alloc>, k: nat, bytes: seq<Byte>,
                          numCur: int, statCur: int, statMax: int, nmlNum: int, nmlCur: int)
    requires Balanced(s, numCur, statCur, statMax, nmlNum, nmlCur) && k < |s| && |bytes| <= |s[k].data|
    ensures Balanced(Overwritten(s, k, bytes), numCur, statCur, statMax, nmlNum, nmlCur)
  {
    var a := Overwritten(s, k, bytes)[k];
    TotalOfUpdate(LiveCount, s, k, a);
    TotalOfUpdate(LiveBytes, s, k, a);
    TotalOfUpdate(NmlCount, s, k, a);
    TotalOfUpdate(NmlBytes, s, k, a);
  }

  lemma BytesDoNotMatter(stats: seq<Stat>, s: seq<Alloc>, k: nat, bytes: seq<Byte>, level: int)
    requires Agree(stats, s, level) && k < |s| && |bytes| <= |s[k].data|
    ensures Agree(stats, Overwritten(s, k, bytes), level)
  {
    var t := Overwritten(s, k, bytes);
    forall f, l ensures CurrOf(stats, f, l) == Expected(level, f, l, t) {
      TotalOfUpdate(FileBytes(f), s, k, t[k]);
      TotalOfUpdate(SiteBytes(f, l), s, k, t[k]);
      assert CurrOf(stats, f, l) == Expected(level, f, l, s);
    }
  }

  lemma PushBalances(s: seq<Alloc>, a: Alloc, numCur: int, statCur: int, statMax: int, nmlNum: int, nmlCur: int)
    requires Balanced(s, numCur, statCur, statMax, nmlNum, nmlCur) && !a.nml
    ensures Balanced([a] + s, numCur + 1, statCur + a.size, Max(statMax, statCur + a.size), nmlNum, nmlCur)
  {
    TotalOfConcat(LiveCount, [a], s);
    TotalOfConcat(LiveBytes, [a], s);
    TotalOfConcat(NmlCount, [a], s);
    TotalOfConcat(NmlBytes, [a], s);
  }

  lemma RetiredTotal(w: Weight, s: seq<Alloc>, k: nat, nmlMode: int)
    requires k < |s|
    ensures Total(w, Retired(s, k, nmlMode)) ==
            Total(w, s) - Weigh(w, s[k]) + if nmlMode != 0 then Weigh(w, s[k].(nml := true)) else 0
  {
    if nmlMode != 0 {
      TotalOfUpdate(w, s, k, Retired(s, k, nmlMode)[k]);
    } else {
      TotalOfRemoval(w, s, k);
    }
  }

  lemma RetireBalances(s: seq<Alloc>, k: nat, nmlMode: int,
                         numCur: int, statCur: int, statMax: int, nmlNum: int, nmlCur: int)
    requires Balanced(s, numCur, statCur, statMax, nmlNum, nmlCur) && k < |s| && !s[k].nml
    ensures Balanced(Retired(s, k, nmlMode), numCur - 1, statCur - s[k].size, statMax,
                     if nmlMode != 0 then nmlNum + 1 else nmlNum, if nmlMode != 0 then nmlCur + s[k].size else nmlCur)
  {
    RetiredTotal(LiveCount, s, k, nmlMode);
    RetiredTotal(LiveBytes, s, k, nmlMode);
    RetiredTotal(NmlCount, s, k, nmlMode);
    RetiredTotal(NmlBytes, s, k, nmlMode);
  }

  lemma RetireAgrees(stats: seq<Stat>, s: seq<Alloc>, k: nat, nmlMode: int, level: int)
    requires Agree(stats, s, level) && level != 0 && k < |s| && !s[k].nml
    ensures Agree(AfterFree(stats, level, s[k].size, s[k].file, s[k].line), Retired(s, k, nmlMode), level)
  {
    var t := Retired(s, k, nmlMode);
    forall w: Weight | !w.NmlCount? && !w.NmlBytes? && !w.AllBytes?
      ensures Total(w, t) == Total(w, s) - Weigh(w, s[k])
    {
      RetiredTotal(w, s, k, nmlMode);
    }
    forall i | 0 <= i < |t| ensures exists j :: 0 <= j < |s| && s[j].file == t[i].file {
      var j := if nmlMode != 0 || i < k then i else i + 1;
      assert s[j].file == t[i].file;
    }
    FreeKeepsAgreement(stats, s, t, level, s[k]);
  }

  // ---- blocks behind a list of allocations ----

  function Lookup(s: seq<Alloc>, a: Addr): Option<Alloc> {
    var k := IndexOf(s, a);
    if k < |s| then Some(s[k]) else None
  }

  ghost predicate AddrsDistinct(s: seq<Alloc>) {
    forall i, j :: 0 <= i < j < |s| ==> s[i].addr != s[j].addr
  }

  // m holds exactly the blocks of s.
  ghost predicate Reflects(m: Memory, s: seq<Alloc>) {
    && AddrsDistinct(s)
    && (forall a :: a in m <==> Lookup(s, a).Some?)
    && (forall a :: a in m ==> Lookup(s, a) == Some(Info(a, m[a])) && Sealed(m[a]))
  }

  lemma LookupAt(s: seq<Alloc>, k: nat)
    requires AddrsDistinct(s) && k < |s|
    ensures Lookup(s, s[k].addr) == Some(s[k])
  {
  }

  lemma LookupPush(x: Alloc, s: seq<Alloc>, a: Addr)
    ensures Lookup([x] + s, a) == if x.addr == a then Some(x) else Lookup(s, a)
  {
    assert ([x] + s)[1..] == s;
  }

  lemma LookupRetired(s: seq<Alloc>, k: nat, nmlMode: int, a: Addr)
    requires AddrsDistinct(s) && k < |s|
    ensures AddrsDistinct(Retired(s, k, nmlMode))
    ensures Lookup(Retired(s, k, nmlMode), a) ==
            if a != s[k].addr then Lookup(s, a)
            else if nmlMode == 0 then None else Some(s[k].(nml := true, data := Fill(VAL_NML, s[k].size)))
  {
    LookupAt(s, k);
    if nmlMode == 0 { LookupRemoved(s, k, a); } else { LookupChanged(s, k, Retired(s, k, nmlMode)[k], a); }
  }

  lemma LookupChanged(s: seq<Alloc>, k: nat, x: Alloc, a: Addr)
    requires AddrsDistinct(s) && k < |s| && x.addr == s[k].addr
    ensures AddrsDistinct(s[k := x]) && Lookup(s[k := x], a) == if a == x.addr then Some(x) else Lookup(s, a)
  {
    var i := IndexOf(s, a);
    if i < |s| { LookupAt(s[k := x], i); }
  }

  lemma LookupRemoved(s: seq<Alloc>, k: nat, a: Addr)
    requires AddrsDistinct(s) && k < |s|
    ensures AddrsDistinct(RemoveAt(s, k))
    ensures Lookup(RemoveAt(s, k), a) == if a == s[k].addr then None else Lookup(s, a)
  {
    var t := RemoveAt(s, k);
    assert forall j :: 0 <= j < |t| ==> t[j] == s[if j < k then j else j + 1];
    var i := IndexOf(s, a);
    if i < |s| && a != s[k].addr {
      LookupAt(t, if i < k then i else i - 1);
    }
  }

  // What stays of a block when its links are left aside.
  lemma SameInfo(a: Addr, x: Block, y: Block)
    requires Info(a, x) == Info(a, y) && Sealed(x) && Sealed(y)
    ensures y == x.(prev := y.prev, next := y.next)
  {
  }

  lemma PushedBlocks(m: Memory, s: seq<Alloc>, m': Memory, x: Alloc)
    requires Reflects(m, s) && Reflects(m', [x] + s) && x.addr !in m
    requires !x.nml && x.data == Fill(VAL_NEW, x.size)
    ensures x.addr in m' && IsNewBlock(m'[x.addr], x.file, x.line, x.count, x.size)
    ensures OthersKept(m, m', x.addr)
  {
    hide Lookup, Sealed;
    forall a ensures Lookup([x] + s, a) == if x.addr == a then Some(x) else Lookup(s, a) {
      LookupPush(x, s, a);
    }
    forall a | a in m ensures m'[a] == m[a].(prev := m'[a].prev, next := m'[a].next) {
      SameInfo(a, m[a], m'[a]);
    }
  }

  lemma RetiredBlocks(m: Memory, s: seq<Alloc>, m': Memory, k: nat, nmlMode: int)
    requires Reflects(m, s) && k < |s| && Reflects(m', Retired(s, k, nmlMode))
    ensures var gone := s[k].addr;
            && gone in m && (gone in m' <==> nmlMode != 0)
            && (gone in m' ==> IsNmlOf(m'[gone], m[gone]))
            && OthersKept(m, m', gone)
  {
    hide Sealed, Retired, IsNmlOf;
    LookupAt(s, k);
    forall a ensures Lookup(Retired(s, k, nmlMode), a) ==
            if a != s[k].addr then Lookup(s, a)
            else if nmlMode == 0 then None else Some(s[k].(nml := true, data := Fill(VAL_NML, s[k].size)))
    {
      LookupRetired(s, k, nmlMode, a);
    }
    hide Lookup;
    if nmlMode != 0 { NmlBlock(s[k].addr, m[s[k].addr], m'[s[k].addr]); }
    forall a | a in m && a != s[k].addr ensures m'[a] == m[a].(prev := m'[a].prev, next := m'[a].next) {
      SameInfo(a, m[a], m'[a]);
    }
  }

  // y is what no-man's-land keeps of x.
  predicate IsNmlOf(y: Block, x: Block) {
    && y == x.(prev := y.prev, next := y.next, nml := true, data := y.data)
    && |y.data| == x.size && forall b :: b in y.data ==> b == VAL_NML
  }

  lemma NmlBlock(a: Addr, x: Block, y: Block)
    requires Sealed(x) && Sealed(y) && Info(a, y) == Info(a, x).(nml := true, data := Fill(VAL_NML, x.size))
    ensures IsNmlOf(y, x)
  {
  }

  /** Such a block is flagged and filled with 0xFC, and otherwise the same. */
  lemma NmlIsFlaggedAndFilled(y: Block, x: Block)
    ensures IsNmlOf(y, x) <==>
              && y.nml && |y.data| == x.size && (forall i :: 0 <= i < |y.data| ==> y.data[i] == 0xFC)
              && y.file == x.file && y.count == x.count && y.check == x.check && y.size == x.size && y.line == x.line
  {
    assert forall i :: 0 <= i < |y.data| ==> y.data[i] in y.data;
  }

  // Apart from one address, the blocks are the same, but for their links.
  ghost predicate OthersKept(m: Memory, m': Memory, except: Addr) {
    && (forall a :: a != except ==> (a in m' <==> a in m))
    && forall a :: a in m && a != except ==> m'[a] == m[a].(prev := m'[a].prev, next := m'[a].next)
  }

  /** Their sites, numbers, sizes, flags, checksums and bytes, that is. */
  lemma OthersKeptMeans(m: Memory, m': Memory, except: Addr)
    ensures OthersKept(m, m', except) <==>
              && (forall a :: a != except ==> (a in m' <==> a in m))
              && forall a :: a in m && a in m' && a != except ==>
                   && m'[a].file == m[a].file && m'[a].count == m[a].count && m'[a].check == m[a].check
                   && m'[a].size == m[a].size && m'[a].line == m[a].line && m'[a].nml == m[a].nml
                   && m'[a].data == m[a].data
  {
  }

  lemma KeptBlock(m: Memory, m': Memory, except: Addr, a: Addr)
    requires OthersKept(m, m', except) && a in m && a != except
    ensures a in m' && m'[a].data == m[a].data
  {
  }

  predicate IsNewBlock(b: Block, file: Label, line: int, count: int, size: nat) {
    && b.file == file && b.line == line && b.count == count && !b.nml && b.size == size == |b.data|
    && forall x :: x in b.data ==> x == VAL_NEW
  }

  /** A new block has its size in bytes, all 0xFE, and remembers its site and number. */
  lemma NewBlockIsFilled(b: Block, file: Label, line: int, count: int, size: nat)
    ensures IsNewBlock(b, file, line, count, size) <==>
              && b.file == file && b.line == line && b.count == count && !b.nml && b.size == size && |b.data| == size
              && forall i :: 0 <= i < |b.data| ==> b.data[i] == 0xFE
  {
    assert forall i :: 0 <= i < |b.data| ==> b.data[i] in b.data;
  }

  lemma DistinctOfIntact(m: Memory, head: Addr, tail: Addr, c: seq<Addr>)
    requires Intact(m, head, tail, c)
    ensures AddrsDistinct(Allocs(m, c))
  {
    DistinctOfChained(m, head, tail, c);
  }

  lemma SealedOfIntact(m: Memory, head: Addr, tail: Addr, c: seq<Addr>, a: Addr)
    requires Intact(m, head, tail, c) && a in m
    ensures Sealed(m[a])
  {
  }

  // A reallocated block: the bytes both sizes have room for are those of the old one.
  predicate CarriesOver(b: Block, old': Block) {
    && |b.data| == b.size
    && forall i :: 0 <= i < |b.data| ==> b.data[i] == if i < |old'.data| then old'.data[i] else VAL_NEW
  }

  // Reallocation, block by block.
  lemma MovedBlocks(m: Memory, s: seq<Alloc>, m': Memory, k: nat, mw: Addr, file: Label, count: int, size: nat,
                    line: int, nmlMode: int)
    requires Reflects(m, s) && k < |s| && s[k].addr in m && mw !in m && s[k] == Info(s[k].addr, m[s[k].addr])
    requires Reflects(m', Moved(s, k, mw, file, count, size, line, nmlMode))
    ensures mw in m' && CarriesOver(m'[mw], m[s[k].addr])
    ensures var b := m'[mw]; b.file == file && b.line == line && b.count == count && !b.nml && b.size == size
    ensures s[k].addr in m' <==> nmlMode != 0
    ensures OthersKept(m - {s[k].addr}, m' - {s[k].addr}, mw)
  {
    hide Lookup, Retired;
    var n := if size < |s[k].data| then size else |s[k].data|;
    var x := Alloc(mw, file, count, size, line, false, s[k].data[..n] + Fill(VAL_NEW, size - n));
    var t := [x] + s;
    assert t[k + 1] == s[k];
    forall a ensures Lookup(t, a) == if mw == a then Some(x) else Lookup(s, a) {
      LookupPush(x, s, a);
    }
    assert AddrsDistinct(t) by {
      forall i | 0 <= i < |s| ensures s[i].addr != mw { LookupAt(s, i); }
    }
    forall a ensures Lookup(Retired(t, k + 1, nmlMode), a) ==
            if a != s[k].addr then Lookup(t, a)
            else if nmlMode == 0 then None else Some(s[k].(nml := true, data := Fill(VAL_NML, s[k].size)))
    {
      LookupRetired(t, k + 1, nmlMode, a);
    }
    assert Lookup(Retired(t, k + 1, nmlMode), mw) == Some(x);
    forall a | a in m && a != s[k].addr ensures a in m' && m'[a] == m[a].(prev := m'[a].prev, next := m'[a].next) {
      assert Lookup(Retired(t, k + 1, nmlMode), a) == Lookup(s, a);
      SameInfo(a, m[a], m'[a]);
    }
    assert Info(mw, m'[mw]) == x;
  }

  /** The sum wraps around exactly when the request and its 72 bytes of overhead do not fit
      64 bits. */
  lemma NeededWraps(size: nat)
    requires size < 0x1_0000_0000_0000_0000
    ensures Needed(size) < size <==> size + 72 >= 0x1_0000_0000_0000_0000
  {
  }

  /** The cast to a signed word keeps the value modulo 2^64. */
  lemma LongIsSigned(size: nat)
    requires size < 0x1_0000_0000_0000_0000
    ensures -0x8000_0000_0000_0000 <= LongOf(size) < 0x8000_0000_0000_0000
    ensures LongOf(size) == size || LongOf(size) == size - 0x1_0000_0000_0000_0000
  {
  }

  lemma NoRecords(stats: seq<Stat>, size: nat, file: Label, line: int)
    ensures AfterAlloc(stats, 0, size, file, line) == stats == AfterFree(stats, 0, size, file, line)
  {
  }

  // One call a program makes. A size requested is one the C library can serve, and a
  // release names its source file (a NULL file stands for untracked memory).
  datatype Op =
    | OpMalloc(size: nat, file: Label, line: int)
    | OpRealloc(p: Addr, size: nat, file: Label, line: int)
    | OpFree(p: Addr, file: Label, line: int)
    | OpLimit(lim: int)
    | OpNml(mode: int)
    | OpWrite(p: Addr, bytes: seq<Byte>)
  {
    predicate Fitting() {
      && (OpMalloc? ==> Fits(size))
      && (OpRealloc? ==> Fits(size) && (p == NULL || file.File?))
      && (OpFree? ==> file.File?)
    }
  }

  lemma FreshAddress(keys: set<Addr>) returns (a: Addr)
    ensures a > NULL && forall x :: x in keys ==> x < a
    decreases keys
  {
    a := 1;
    if y :| y in keys {
      var b := FreshAddress(keys - {y});
      a := if y < b then b else y + 1;
      assert forall x :: x in keys ==> x == y || x in keys - {y};
    }
  }

  /** The tracker's static variables. */
  class Tracker {
    var blocks: Memory
    var head: Addr
    var tail: Addr
    var counter: int
    var errors: int
    var numCurAlloc: int
    var statCurAlloc: int
    var statTotAlloc: int
    var statMaxAlloc: int
    var statNumAlloc: int
    var nmlNumAlloc: int
    var nmlCurAlloc: int
    var useLimit: bool
    var allocLimit: int
    var nmlMode: int
    var statLevel: int
    var stats: seq<Stat>
    const lastFree: array<Freed>
    var lfCur: int

    // The blocks that are, or were before some damage, linked from head to tail.
    ghost var chain: seq<Addr>
    // Everything released so far, oldest first.
    ghost var released: seq<Freed>

    constructor (level: int, mode: int)
      requires level >= 0
      ensures Valid() && fresh(lastFree)
      ensures chain == [] && released == [] && statLevel == level && nmlMode == mode && !useLimit
    {
      blocks, head, tail, chain := map[], NULL, NULL, [];
      counter, errors, numCurAlloc, statCurAlloc, statTotAlloc := 0, 0, 0, 0, 0;
      statMaxAlloc, statNumAlloc, nmlNumAlloc, nmlCurAlloc := 0, 0, 0, 0;
      useLimit, allocLimit, nmlMode, statLevel, stats := false, 0, mode, level, [];
      lastFree := new Freed[FREE_LIST](_ => Freed(NULL, NoFile, 0));
      lfCur, released := 0, [];
    }

    // The last FREE_LIST releases are in the ring; unused slots hold NULL.
    ghost predicate RingOK()
      reads `lfCur, `released, lastFree
    {
      && lastFree.Length == FREE_LIST
      && lfCur == |released| % FREE_LIST
      && (forall i :: 0 <= i < |released| && i >= |released| - FREE_LIST ==> lastFree[i % FREE_LIST] == released[i])
      && (forall j :: |released| <= j < FREE_LIST ==> lastFree[j].p == NULL)
    }

    ghost predicate Linked()
      reads `blocks, `head, `tail, `chain
    {
      Intact(blocks, head, tail, chain)
    }

    ghost function Contents(): (s: seq<Alloc>)
      requires Linked()
      reads `blocks, `head, `tail, `chain
    {
      Allocs(blocks, chain)
    }

    ghost predicate Valid()
      reads this, lastFree
    {
      && Linked()
      && Balanced(Contents(), numCurAlloc, statCurAlloc, statMaxAlloc, nmlNumAlloc, nmlCurAlloc)
      && statLevel >= 0
      && (statLevel != 0 ==> Agree(stats, Contents(), statLevel) && Tallied(stats, statTotAlloc, statNumAlloc))
      && RingOK()
    }

    /** mwIsHeapOK, on any graph of links, cyclic ones included. */
    method IsHeapOK(mw: Addr) returns (ok: bool)
      requires NULL !in blocks
      ensures ok <==> HeapOK(blocks, head, tail, mw)
    {
      var found := false;
      var cur := head;
      ghost var v: seq<Addr> := [];
      while cur != NULL
        invariant v == [] ==> cur == head
        invariant v != [] ==>
                    && Path(blocks, head, v) && blocks[head].prev == NULL
                    && blocks[v[|v| - 1]].next == cur
                    && (if cur != NULL then Safe(blocks, cur) && blocks[cur].prev == v[|v| - 1] else v[|v| - 1] == tail)
        invariant head == NULL ==> v == []
        invariant |v| <= |blocks|
        invariant mw != NULL ==> (found <==> mw in v)
        decreases |blocks| - |v|
      {
        if mw == cur { found := true; }
        if !BlockPasses(blocks, head, tail, cur) {
          FailingBlockRefutes(blocks, head, tail, v, cur, mw);
          return false;
        }
        PassingBlockExtends(blocks, head, tail, v, cur);
        PathIsShort(blocks, head, v + [cur]);
        v := v + [cur];
        cur := blocks[cur].next;
      }
      if head != NULL {
        FinishedPathIsChain(blocks, head, tail, v);
        forall c | Chained(blocks, head, tail, c) ensures c == v {
          ChainUnique(blocks, head, tail, tail, c, v);
        }
      }
      return mw == NULL || found;
    }

    // The two searches of mwRelink come to an end.
    ghost predicate SearchesEnd(mw: Addr)
      reads this
    {
      && (head != mw ==> !Circles(blocks, mw, head))
      && (tail != mw ==> !CirclesBack(blocks, mw, tail))
    }

    // They do if nothing precedes the head and nothing follows the tail.
    lemma AnchoredSearchesEnd(mw: Addr)
      requires NULL !in blocks
      requires head != mw && Safe(blocks, head) ==> blocks[head].prev == NULL
      requires tail != mw && Safe(blocks, tail) ==> blocks[tail].next == NULL
      ensures SearchesEnd(mw)
    {
      if head != mw { NothingBeforeEnds(blocks, mw, head); }
      if tail != mw { NothingBeforeEnds(Mirror(blocks), mw, tail); }
    }

    ghost predicate Damaged(mw: Addr)
      reads this
    {
      NULL !in blocks && DamagedAt(blocks, head, tail, chain, mw)
    }

    lemma DamagedSearchesEnd(mw: Addr)
      requires Damaged(mw)
      ensures SearchesEnd(mw)
    {
      assert head != mw ==> LinkOK(blocks, chain, 0);
      assert tail != mw ==> LinkOK(blocks, chain, |chain| - 1);
      AnchoredSearchesEnd(mw);
    }

    // "Repair from head": find the block whose next is mw.
    method RepairFromHead(mw: Addr) returns (r: Search)
      requires NULL !in blocks && Safe(blocks, mw) && head != mw && !Circles(blocks, mw, head)
      modifies `blocks
      ensures !r.Found? ==> blocks == old(blocks)
      ensures blocks.Keys == old(blocks.Keys)
      ensures exists p :: blocks == old(blocks)[mw := old(blocks[mw].(prev := p))]
      ensures old(Damaged(mw)) ==>
                r.Found? && blocks == old(blocks)[mw := old(blocks[mw].(prev := At(chain, Position(chain, mw) - 1)))]
    {
      assert blocks == blocks[mw := blocks[mw].(prev := blocks[mw].prev)];
      if !Safe(blocks, head) {
        return Fragmented;
      }
      var mw1 := head;
      ghost var v := [head];
      while mw1 != NULL
        invariant blocks == old(blocks)
        invariant mw1 != NULL ==> Path(blocks, head, v) && Walked(blocks, mw, head, v) && v[|v| - 1] == mw1 && mw !in v
        invariant mw1 == NULL ==> !Damaged(mw)
        decreases mw1 != NULL, |blocks| - |v|
      {
        if Damaged(mw) { SearchFindsDamage(blocks, head, tail, chain, mw, v); }
        if blocks[mw1].next == mw {
          blocks := blocks[mw := blocks[mw].(prev := mw1)];
          return Found;
        }
        if blocks[mw1].next != NULL && (!Safe(blocks, blocks[mw1].next) || blocks[blocks[mw1].next].prev != mw1) {
          return Fragmented;
        }
        if blocks[mw1].next != NULL {
          StepExtendsPath(blocks, head, v, mw);
          v := v + [blocks[mw1].next];
        }
        mw1 := blocks[mw1].next;
      }
      return Missing;
    }

    // "Repair from tail": find the block whose prev is mw.
    method RepairFromTail(mw: Addr) returns (r: Search)
      requires NULL !in blocks && Safe(blocks, mw) && tail != mw && !CirclesBack(blocks, mw, tail)
      modifies `blocks
      ensures !r.Found? ==> blocks == old(blocks)
      ensures blocks.Keys == old(blocks.Keys)
      ensures exists n :: blocks == old(blocks)[mw := old(blocks[mw].(next := n))]
      ensures old(Damaged(mw)) ==>
                r.Found? && blocks == old(blocks)[mw := old(blocks[mw].(next := At(chain, Position(chain, mw) + 1)))]
    {
      assert blocks == blocks[mw := blocks[mw].(next := blocks[mw].next)];
      hide DamagedAt, BackPath, Position, Walked, CirclesBack, Mirror;
      if !Safe(blocks, tail) {
        return Fragmented;
      }
      var mw1 := tail;
      ghost var v := [tail];
      StartBackPath(blocks, tail, mw);
      while mw1 != NULL
        invariant blocks == old(blocks)
        invariant mw1 != NULL ==> BackPath(blocks, tail, v) && Walked(Mirror(blocks), mw, tail, v)
        invariant mw1 != NULL ==> v != [] && v[|v| - 1] == mw1 && mw1 in blocks && mw !in v
        invariant mw1 == NULL ==> !Damaged(mw)
        decreases mw1 != NULL, |blocks| - |v|
      {
        if Damaged(mw) { BackSearchFindsDamage(blocks, head, tail, chain, mw, v); }
        if blocks[mw1].prev == mw {
          blocks := blocks[mw := blocks[mw].(next := mw1)];
          return Found;
        }
        if blocks[mw1].prev != NULL && (!Safe(blocks, blocks[mw1].prev) || blocks[blocks[mw1].prev].next != mw1) {
          return Fragmented;
        }
        if blocks[mw1].prev != NULL {
          StepExtendsBackPath(blocks, tail, v, mw);
          v := v + [blocks[mw1].prev];
        }
        mw1 := blocks[mw1].prev;
      }
      return Missing;
    }

    // The closing loop of mwRelink: how many blocks are linked, and their total size.
    method Measure(ghost c: seq<Addr>) returns (count: int, size: int)
      requires Chained(blocks, head, tail, c)
      requires forall a :: a in c ==> a in blocks
      ensures count == |c| && size == Total(AllBytes, Allocs(blocks, c))
    {
      count, size := 0, 0;
      var mw1 := head;
      ghost var s := Allocs(blocks, c);
      forall i | 0 <= i < |c| ensures c[i] != NULL { assert c[i] in c; }
      while mw1 != NULL
        invariant 0 <= count <= |c| && mw1 == At(c, count)
        invariant size + Total(AllBytes, s[count..]) == Total(AllBytes, s)
        decreases |c| - count
      {
        assert LinkOK(blocks, c, count);
        assert s[count..][1..] == s[count + 1..];
        count := count + 1;
        size := size + blocks[mw1].size;
        mw1 := blocks[mw1].next;
      }
    }

    // Every block except mw is as it was in `before`, and so is mw apart from the named fields.
    ghost predicate OnlyTouched(before: Memory, mw: Addr)
      reads this
    {
      blocks.Keys == before.Keys && forall a :: a in before && a != mw ==> blocks[a] == before[a]
    }

    // Both link searches of mwRelink. The number of failed searches, or None for an emergency.
    method RepairLinks(mw: Addr) returns (fails: int)
      requires NULL !in blocks && Safe(blocks, mw) && SearchesEnd(mw)
      modifies `blocks
      ensures OnlyTouched(old(blocks), mw)
      ensures -1 <= fails <= 2
      ensures old(Damaged(mw)) ==>
                && fails == 0
                && blocks == old(blocks)[mw := old(blocks)[mw].(prev := At(chain, Position(chain, mw) - 1),
                                                                next := At(chain, Position(chain, mw) + 1))]
    {
      hide Chained, LinkOK, Circles, CirclesBack;
      ghost var before := blocks;
      ghost var damaged := Damaged(mw);
      fails := 0;
      if head != mw {
        var s := RepairFromHead(mw);
        if s.Fragmented? { return -1; }
        if s.Missing? { fails := fails + 1; }
      } else if blocks[mw].prev != NULL {
        blocks := blocks[mw := blocks[mw].(prev := NULL)];
      }
      if damaged {
        assert head == mw ==> Position(chain, mw) == 0;
        assert blocks == before[mw := before[mw].(prev := At(chain, Position(chain, mw) - 1))];
        DamageSurvives(before, blocks, head, tail, chain, mw);
      }
      if tail != mw {
        CirclesBackIgnoresTarget(before, blocks, mw, tail);
        var s := RepairFromTail(mw);
        if s.Fragmented? { return -1; }
        if s.Missing? { fails := fails + 1; }
      } else if blocks[mw].next != NULL {
        blocks := blocks[mw := blocks[mw].(next := NULL)];
      }
      assert damaged && tail == mw ==> Position(chain, mw) == |chain| - 1;
    }

    // "Restore MW info where possible": the file label and the checksum.
    method RestoreInfo(mw: Addr)
      requires mw in blocks
      modifies `blocks
      ensures blocks == old(blocks)[mw := old(blocks)[mw].(
                          file := Relabelled(old(blocks)[mw].file, Known(stats, old(blocks)[mw].file)),
                          check := ChkVal(old(blocks)[mw].count, old(blocks)[mw].size, old(blocks)[mw].line))]
    {
      if blocks[mw].file.File? {
        var ms := Find(stats, blocks[mw].file, MODULE);
        if ms == |stats| {
          blocks := blocks[mw := blocks[mw].(file := File("<relinked>"))];
        }
      }
      blocks := blocks[mw := blocks[mw].(check := ChkVal(blocks[mw].count, blocks[mw].size, blocks[mw].line))];
    }

    // What the closing loop of mwRelink makes of a heap whose blocks are c.
    ghost predicate AsCounted(before: Memory, mw: Addr, c: seq<Addr>, r: Relinking)
      reads this
      requires mw in before && forall a :: a in c ==> a in before
    {
      && r == (if |c| == numCurAlloc then Repaired else Partial)
      && blocks == if r.Repaired? && Total(AllBytes, Allocs(before, c)) != statCurAlloc
                   then before[mw := before[mw].(size := 0)] else before
    }

    // "verifyok": check the heap and compare its blocks with the counters.
    method VerifyRepair(mw: Addr) returns (r: Relinking)
      requires NULL !in blocks && mw in blocks
      modifies `blocks
      ensures OnlyTouched(old(blocks), mw)
      ensures !r.Emergency?
      ensures r.Aborted? <==> old(!HeapOK(blocks, head, tail, NULL))
      ensures forall c :: old(Chained(blocks, head, tail, c)) && (forall a :: a in c ==> a in old(blocks)) ==>
                AsCounted(old(blocks), mw, c, r)
    {
      hide Total;
      var ok := IsHeapOK(NULL);
      if !ok {
        assert head != NULL && forall c :: !Chained(blocks, head, tail, c);
        return Aborted;
      }
      var count, size := 0, 0;
      if head != NULL {
        ghost var c :| Chained(blocks, head, tail, c);
        ChainedInMemory(blocks, head, tail, c);
        count, size := Measure(c);
        forall d | Chained(blocks, head, tail, d) ensures d == c { ChainUnique(blocks, head, tail, tail, c, d); }
      } else {
        NoBlocksNoBytes(blocks);
        forall d | Chained(blocks, head, tail, d) ensures d == [] { EmptyChain(blocks, tail, d); }
      }
      if count != numCurAlloc {
        return Partial;
      }
      if size != statCurAlloc {
        blocks := blocks[mw := blocks[mw].(size := 0)];
      }
      return Repaired;
    }

    // What mwRelink compares at its end: if the chain has as many blocks as are live,
    // the sizes add up too.
    ghost predicate SizesAgree()
      reads this
    {
      && (forall a :: a in chain ==> a in blocks)
      && (|chain| == numCurAlloc ==> Total(AllBytes, Allocs(blocks, chain)) == statCurAlloc)
    }

    /** mwRelink up to its emergency branch: repair block mw from its neighbours. */
    method Relink(mw: Addr) returns (r: Relinking)
      requires NULL !in blocks && SearchesEnd(mw)
      modifies `blocks
      ensures OnlyTouched(old(blocks), mw)
      ensures old(Damaged(mw) && SizesAgree()) ==>
                && blocks == HealedAt(old(blocks), chain, mw, stats)
                && Chained(blocks, head, tail, chain)
                && r == if |chain| == numCurAlloc then Repaired else Partial
    {
      hide Chained, ChkVal, Allocs, Total, HeapOK, LinkOK, Distinct, At, Find;
      ghost var before := blocks;
      if mw == NULL || !Safe(blocks, mw) {
        return Emergency;
      }
      ghost var healed := HealedAt(blocks, chain, mw, stats);
      ghost var damaged := Damaged(mw) && SizesAgree();
      if damaged { HealedHeap(before, head, tail, chain, mw, stats); }
      var fails := RepairLinks(mw);
      if fails < 0 {
        return Emergency;
      }
      if fails <= 1 {
        RestoreInfo(mw);
      }
      assert damaged ==> blocks == healed;
      r := VerifyRepair(mw);
    }

    // A heap in which nothing but the two links of mw has been overwritten.
    ghost predicate LinksTrashed(mw: Addr)
      reads this
    {
      && Damaged(mw) && SizesAgree()
      && (forall a :: a in blocks ==> a in chain)
      && blocks[mw].check == ChkVal(blocks[mw].count, blocks[mw].size, blocks[mw].line)
    }

    /** mwIsOwned: is mw the control block of an allocation? May start a repair. When the
        links of mw alone were overwritten, the chain is repaired before the answer, with
        one exception: a block that points to itself both ways is taken as it is. */
    method IsOwned(mw: Addr) returns (r: Ownership)
      requires NULL !in blocks && SearchesEnd(mw)
      modifies `blocks, `errors
      ensures OnlyTouched(old(blocks), mw)
      ensures old(Linked()) ==>
                blocks == old(blocks) && errors == old(errors) && r == if mw in blocks then Owned else Foreign
      ensures old(LinksTrashed(mw)) ==>
                && (old(LinksAccepted(blocks, chain, mw)) ==> blocks == old(blocks) && r == Owned)
                && (!old(LinksAccepted(blocks, chain, mw)) ==>
                      && blocks == HealedAt(old(blocks), chain, mw, stats)
                      && r == if old(UnsafeLink(blocks, mw)) || |chain| == numCurAlloc then Owned else Foreign)
                && errors == old(errors) + if r == Owned then 0 else 1
    {
      hide Chained, ChkVal, HeapOK, DamagedAt, Find, Total, HealedAt, LinksAccepted, UnsafeLink, Circles, CirclesBack;
      ghost var linked := Linked();
      ghost var trashed := LinksTrashed(mw);
      if trashed { DamagedHasHead(blocks, head, tail, chain, mw); }
      if !Safe(blocks, mw) {
        return Foreign;
      }
      if linked { OwnBlockPasses(blocks, head, tail, chain, mw); }
      if head == NULL && tail == NULL && statCurAlloc == 0 {
        return Foreign;
      }
      if blocks[mw].check != ChkVal(blocks[mw].count, blocks[mw].size, blocks[mw].line) {
        var inHeap := IsHeapOK(mw);
        if inHeap {
          errors := errors + 1;
          Reseal(mw);
          return Owned;
        }
        return Foreign;
      }
      r := IsLinkedIn(mw);
    }

    // mwIsOwned, once address and checksum have passed.
    method IsLinkedIn(mw: Addr) returns (r: Ownership)
      requires NULL !in blocks && SearchesEnd(mw) && mw in blocks
      requires blocks[mw].check == ChkVal(blocks[mw].count, blocks[mw].size, blocks[mw].line)
      modifies `blocks, `errors
      ensures OnlyTouched(old(blocks), mw)
      ensures old(Linked()) ==> blocks == old(blocks) && errors == old(errors) && r == Owned
      ensures old(LinksTrashed(mw)) ==>
                && (old(LinksAccepted(blocks, chain, mw)) ==> blocks == old(blocks) && r == Owned)
                && (!old(LinksAccepted(blocks, chain, mw)) ==>
                      && blocks == HealedAt(old(blocks), chain, mw, stats)
                      && r == if old(UnsafeLink(blocks, mw)) || |chain| == numCurAlloc then Owned else Foreign)
                && errors == old(errors) + if r == Owned then 0 else 1
    {
      hide Chained, ChkVal, HeapOK, DamagedAt, Find, Total, HealedAt, LinksAccepted, Circles, CirclesBack,
           PrevConfirmed, NextConfirmed, UnsafeLink;
      if LinksTrashed(mw) { AcceptedExactly(blocks, head, tail, chain, mw); }
      if Linked() { OwnBlockPasses(blocks, head, tail, chain, mw); }
      var lost := RepairWildLinks(mw);
      if lost { return Lost; }
      var retv := CountLinks(mw);
      if retv > 2 {
        return Owned;
      }
      var ok := IsHeapOK(mw);
      if !ok {
        var repair := Relink(mw);
        if repair.Emergency? || repair.Aborted? { return Lost; }
        if repair.Repaired? { return Owned; }
      }
      errors := errors + 1;
      return Foreign;
    }

    // "Check that the non-NULL pointers are safe."
    method RepairWildLinks(mw: Addr) returns (lost: bool)
      requires NULL !in blocks && SearchesEnd(mw) && mw in blocks
      modifies `blocks
      ensures OnlyTouched(old(blocks), mw) && SearchesEnd(mw)
      ensures old(!UnsafeLink(blocks, mw)) ==> blocks == old(blocks) && !lost
      ensures old(UnsafeLink(blocks, mw) && Damaged(mw) && SizesAgree()) ==>
                && !lost && blocks == HealedAt(old(blocks), chain, mw, stats)
                && PrevConfirmed(blocks, head, mw) && NextConfirmed(blocks, tail, mw)
                && blocks[mw].check == ChkVal(blocks[mw].count, blocks[mw].size, blocks[mw].line)
    {
      hide Chained, ChkVal, HeapOK, DamagedAt, Find, Total, HealedAt, Circles, CirclesBack,
           PrevConfirmed, NextConfirmed;
      ghost var before := blocks;
      ghost var damaged := Damaged(mw) && SizesAgree();
      if damaged { DamagedHasHead(blocks, head, tail, chain, mw); }
      if blocks[mw].prev != NULL && !Safe(blocks, blocks[mw].prev) {
        var repair := Relink(mw);
        SearchesStillEnd(before, mw);
        if damaged { HealedIsConfirmed(before, mw); }
        if repair.Emergency? || repair.Aborted? { return true; }
      }
      if blocks[mw].next != NULL && !Safe(blocks, blocks[mw].next) {
        var repair := Relink(mw);
        SearchesStillEnd(before, mw);
        if damaged { HealedIsConfirmed(before, mw); }
        if repair.Emergency? || repair.Aborted? { return true; }
      }
      return false;
    }

    lemma HealedIsConfirmed(before: Memory, mw: Addr)
      requires mw in before && blocks == HealedAt(before, chain, mw, stats) && mw in chain
      requires Chained(blocks, head, tail, chain)
      ensures mw in blocks && PrevConfirmed(blocks, head, mw) && NextConfirmed(blocks, tail, mw)
      && !UnsafeLink(blocks, mw)
      ensures blocks[mw].check == ChkVal(blocks[mw].count, blocks[mw].size, blocks[mw].line)
    {
      hide ChkVal, Chained;
      OwnBlockPasses(blocks, head, tail, chain, mw);
    }

    // A block of the heap with a bad checksum: its size is given up, and its file label
    // unless a module record knows it.
    method Reseal(mw: Addr)
      requires mw in blocks
      modifies `blocks
      ensures var b := old(blocks)[mw];
              var file := if b.file.NoFile? then File("<unknown>") else Relabelled(b.file, Known(stats, b.file));
              blocks == old(blocks)[mw := b.(file := file, size := 0, check := ChkVal(b.count, 0, b.line))]
    {
      hide ChkVal;
      var known := Find(stats, blocks[mw].file, MODULE) < |stats|;
      var file := if blocks[mw].file.NoFile? then File("<unknown>") else Relabelled(blocks[mw].file, known);
      blocks := blocks[mw := blocks[mw].(file := file, size := 0)];
      blocks := blocks[mw := blocks[mw].(check := ChkVal(blocks[mw].count, blocks[mw].size, blocks[mw].line))];
    }

    // One point for each link that the block it leads to, or the head or tail, confirms,
    // and one for the checksum.
    method CountLinks(mw: Addr) returns (retv: int)
      requires mw in blocks
      ensures retv == (if PrevConfirmed(blocks, head, mw) then 1 else 0)
                      + (if NextConfirmed(blocks, tail, mw) then 1 else 0)
                      + if blocks[mw].check == ChkVal(blocks[mw].count, blocks[mw].size, blocks[mw].line) then 1 else 0
    {
      hide ChkVal;
      retv := 0;
      if blocks[mw].prev != NULL {
        if Safe(blocks, blocks[mw].prev) && blocks[blocks[mw].prev].next == mw { retv := retv + 1; }
      } else {
        if head == mw { retv := retv + 1; }
      }
      if blocks[mw].next != NULL {
        if Safe(blocks, blocks[mw].next) && blocks[blocks[mw].next].prev == mw { retv := retv + 1; }
      } else {
        if tail == mw { retv := retv + 1; }
      }
      if blocks[mw].check == ChkVal(blocks[mw].count, blocks[mw].size, blocks[mw].line) { retv := retv + 1; }
    }

    lemma SearchesStillEnd(before: Memory, mw: Addr)
      requires OnlyTouched(before, mw)
      requires head != mw ==> !Circles(before, mw, head)
      requires tail != mw ==> !CirclesBack(before, mw, tail)
      ensures SearchesEnd(mw)
    {
      hide Circles, CirclesBack;
      if head != mw { CirclesIgnoresTarget(before, blocks, mw, head); }
      if tail != mw { CirclesBackIgnoresTarget(before, blocks, mw, tail); }
    }

    lemma LinkedSearchesEnd(mw: Addr)
      requires Linked()
      ensures NULL !in blocks && SearchesEnd(mw)
    {
      if |chain| > 0 {
        assert LinkOK(blocks, chain, 0) && LinkOK(blocks, chain, |chain| - 1);
      }
      AnchoredSearchesEnd(mw);
    }

    /** mwUnlink, with its own checks of the neighbours. */
    method Unlink(mw: Addr)
      requires mw in blocks && NULL !in blocks
      requires blocks[mw].prev != NULL ==> blocks[mw].prev in blocks
      requires blocks[mw].next != NULL ==> blocks[mw].next in blocks
      modifies `blocks, `head, `tail
      ensures blocks == old(BridgeNext(BridgePrev(blocks, mw), mw))
      ensures head == old(if blocks[mw].prev == NULL then blocks[mw].next else head)
      ensures old(blocks[mw].prev != mw && blocks[mw].next != mw) ==>
                tail == old(if blocks[mw].next == NULL then blocks[mw].prev else tail)
    {
      if blocks[mw].prev == NULL {
        head := blocks[mw].next;
      } else {
        var p := blocks[mw].prev;
        if blocks[p].next == mw {
          blocks := blocks[p := blocks[p].(next := blocks[mw].next)];
        }
      }
      if blocks[mw].next == NULL {
        tail := blocks[mw].prev;
      } else {
        var n := blocks[mw].next;
        if blocks[n].prev == mw {
          blocks := blocks[n := blocks[n].(prev := blocks[mw].prev)];
        }
      }
    }

    // malloc of the C library: any address not in use.
    method SysMalloc() returns (a: Addr)
      ensures a > NULL && a !in blocks
    {
      ghost var x := FreshAddress(blocks.Keys);
      assert x > NULL && x !in blocks;
      a :| a > NULL && a !in blocks;
    }

    /** mwStatGet: walk the record list, comparing keys as the source does. */
    method StatGet(file: Label, askedLine: int, makenew: bool) returns (ms: nat)
      modifies `stats
      ensures var line := if statLevel < 2 then MODULE else askedLine;
              && ms == Find(stats, file, line)
              && stats == if makenew then WithRecord(old(stats), file, line) else old(stats)
    {
      var line := if statLevel < 2 then MODULE else askedLine;
      ms := 0;
      while ms < |stats|
        invariant ms <= Find(stats, file, line)
      {
        if stats[ms].line == line {
          if file == NoFile {
            if stats[ms].file == NoFile { break; }
          } else if stats[ms].file != NoFile && stats[ms].file.name == file.name {
            break;
          }
        }
        ms := ms + 1;
      }
      if ms < |stats| || !makenew {
        return;
      }
      stats := [Stat(file, line, 0, 0, 0, 0)] + stats;
      ms := 0;
    }

    method StatAlloc(size: nat, file: Label, line: int)
      requires statLevel > 0
      modifies `stats
      ensures stats == AfterAlloc(old(stats), statLevel, size, file, line)
    {
      var ms := StatGet(file, MODULE, true);
      WithRecordHas(old(stats), file, MODULE);
      stats := stats[ms := Charged(stats[ms], size)];
      if statLevel > 1 && line != MODULE && file != NoFile {
        WithRecordHas(stats, file, line);
        ms := StatGet(file, line, true);
        stats := stats[ms := Charged(stats[ms], size)];
      }
    }

    method StatFree(size: nat, file: Label, line: int)
      requires statLevel > 0
      modifies `stats
      ensures stats == AfterFree(old(stats), statLevel, size, file, line)
    {
      var ms := StatGet(file, MODULE, true);
      WithRecordHas(old(stats), file, MODULE);
      stats := stats[ms := Discharged(stats[ms], size)];
      if statLevel > 1 && line != MODULE && file != NoFile {
        WithRecordHas(stats, file, line);
        ms := StatGet(file, line, true);
        stats := stats[ms := Discharged(stats[ms], size)];
      }
    }

    // The settings no allocation routine may change.
    ghost predicate Settings(limit: int, mode: int, level: int)
      reads `allocLimit, `nmlMode, `statLevel
    {
      allocLimit == limit && nmlMode == mode && statLevel == level
    }

    /** mwMalloc, when the C library's malloc succeeds. */
    method Malloc(size: nat, file: Label, line: int) returns (p: Addr)
      requires Valid()
      requires Fits(size)
      modifies this
      ensures Valid() && Settings(old(allocLimit), old(nmlMode), old(statLevel))
      ensures useLimit == old(useLimit) && released == old(released) && lfCur == old(lfCur)
      ensures counter == old(counter) + 1
      ensures p == NULL <==> Needed(size) < size || (useLimit && LongOf(size) + old(statCurAlloc) > allocLimit)
      ensures p == NULL ==>
                && Contents() == old(Contents()) && chain == old(chain) && stats == old(stats)
                && statMaxAlloc == old(statMaxAlloc) && statCurAlloc == old(statCurAlloc)
                && statTotAlloc == old(statTotAlloc) && statNumAlloc == old(statNumAlloc)
                && errors == old(errors) + if Needed(size) < size then 0 else 1
      ensures p != NULL ==>
                && p - HDR > NULL && p - HDR !in old(blocks)
                && Contents() == [Alloc(p - HDR, file, counter, size, line, false, Fill(VAL_NEW, size))]
                                   + old(Contents())
                && chain == [p - HDR] + old(chain)
                && statMaxAlloc == Max(old(statMaxAlloc), statCurAlloc)
                && statCurAlloc == old(statCurAlloc) + size
                && statTotAlloc == old(statTotAlloc) + size && statNumAlloc == old(statNumAlloc) + 1
                && stats == AfterAlloc(old(stats), statLevel, size, file, line) && errors == old(errors)
      ensures p != NULL && useLimit ==> statCurAlloc <= allocLimit
      ensures p == NULL ==> blocks == old(blocks)
      ensures p != NULL ==>
                && numCurAlloc == old(numCurAlloc) + 1
                && nmlNumAlloc == old(nmlNumAlloc) && nmlCurAlloc == old(nmlCurAlloc)
      ensures p != NULL ==>
                && p - HDR in blocks && IsNewBlock(blocks[p - HDR], file, line, counter, size)
                && OthersKept(old(blocks), blocks, p - HDR)
    {
      hide Intact, Contents, Agree, Tallied, Balanced, Needed, RingOK, Fill, Max, AfterAlloc, OthersKept, IsNewBlock;
      counter := counter + 1;
      if Needed(size) < size {
        return NULL;
      }
      if useLimit && LongOf(size) + statCurAlloc > allocLimit {
        errors := errors + 1;
        return NULL;
      }
      p := Obtain(size, file, line);
    }

    // mwMalloc past its checks: a block from the C library, linked in and counted.
    method Obtain(size: nat, file: Label, line: int) returns (p: Addr)
      requires Valid()
      modifies `blocks, `head, `tail, `chain, `numCurAlloc, `statCurAlloc, `statTotAlloc,
               `statMaxAlloc, `statNumAlloc, `stats
      ensures Valid()
      ensures p - HDR > NULL && p - HDR !in old(blocks)
      ensures Contents() == [Alloc(p - HDR, file, counter, size, line, false, Fill(VAL_NEW, size))] + old(Contents())
      ensures chain == [p - HDR] + old(chain)
      ensures statMaxAlloc == Max(old(statMaxAlloc), statCurAlloc)
      ensures statCurAlloc == old(statCurAlloc) + size && numCurAlloc == old(numCurAlloc) + 1
      ensures statTotAlloc == old(statTotAlloc) + size && statNumAlloc == old(statNumAlloc) + 1
      ensures stats == AfterAlloc(old(stats), statLevel, size, file, line)
      ensures p - HDR in blocks && IsNewBlock(blocks[p - HDR], file, line, counter, size)
      ensures OthersKept(old(blocks), blocks, p - HDR)
    {
      hide Intact, Contents, Agree, Tallied, Balanced, RingOK, Fill, Max, AfterAlloc, OthersKept, IsNewBlock, Reflects;
      var mw := SysMalloc();
      ghost var before, s := blocks, Contents();
      ReflectsNow();
      LinkNew(mw, size, file, line);
      ghost var a := Alloc(mw, file, counter, size, line, false, Fill(VAL_NEW, size));
      CountAllocation(s, a, size, file, line);
      ReflectsNow();
      PushedBlocks(before, s, blocks, a);
      p := mw + HDR;
    }

    // The counters and statistics of a successful mwMalloc.
    method CountAllocation(ghost s: seq<Alloc>, ghost a: Alloc, size: nat, file: Label, line: int)
      requires Balanced(s, numCurAlloc, statCurAlloc, statMaxAlloc, nmlNumAlloc, nmlCurAlloc)
      requires statLevel >= 0
      requires statLevel != 0 ==> Agree(stats, s, statLevel) && Tallied(stats, statTotAlloc, statNumAlloc)
      requires !a.nml && a.size == size && a.file == file && a.line == line
      modifies `numCurAlloc, `statCurAlloc, `statTotAlloc, `statMaxAlloc, `statNumAlloc, `stats
      ensures Balanced([a] + s, numCurAlloc, statCurAlloc, statMaxAlloc, nmlNumAlloc, nmlCurAlloc)
      ensures statLevel != 0 ==> Agree(stats, [a] + s, statLevel) && Tallied(stats, statTotAlloc, statNumAlloc)
      ensures statCurAlloc == old(statCurAlloc) + size && numCurAlloc == old(numCurAlloc) + 1
      ensures statMaxAlloc == Max(old(statMaxAlloc), statCurAlloc)
      ensures statTotAlloc == old(statTotAlloc) + size && statNumAlloc == old(statNumAlloc) + 1
      ensures stats == AfterAlloc(old(stats), statLevel, size, file, line)
    {
      hide Agree, Tallied, AfterAlloc;
      PushBalances(s, a, numCurAlloc, statCurAlloc, statMaxAlloc, nmlNumAlloc, nmlCurAlloc);
      numCurAlloc := numCurAlloc + 1;
      statCurAlloc := statCurAlloc + size;
      statTotAlloc := statTotAlloc + size;
      if statCurAlloc > statMaxAlloc {
        statMaxAlloc := statCurAlloc;
      }
      statNumAlloc := statNumAlloc + 1;
      if statLevel != 0 {
        AllocKeepsAgreement(stats, s, statLevel, a);
        TallyMoves(stats, statLevel, size, file, line, old(statTotAlloc), old(statNumAlloc));
        StatAlloc(size, file, line);
      } else {
        NoRecords(stats, size, file, line);
      }
    }

    // The pointer writes of mwMalloc: fill in the new block and make it the head.
    method LinkNew(mw: Addr, size: nat, file: Label, line: int)
      requires mw !in blocks && mw != NULL && Linked()
      modifies `blocks, `head, `tail, `chain
      ensures Linked() && chain == [mw] + old(chain)
      ensures Contents() == [Alloc(mw, file, counter, size, line, false, Fill(VAL_NEW, size))] + old(Contents())
    {
      hide Intact, Allocs, Fill, ChkVal;
      ghost var b := Block(NULL, head, file, counter, ChkVal(counter, size, line),
                           size, line, false, Fill(VAL_NEW, size));
      PrependKeepsIntact(blocks, head, tail, chain, mw, b);
      ghost var m := Prepended(blocks, head, mw, b);
      blocks := blocks[mw := Block(NULL, head, file, counter, 0, size, line, false, Fill(VAL_NEW, size))];
      blocks := blocks[mw := blocks[mw].(check := ChkVal(blocks[mw].count, blocks[mw].size, blocks[mw].line))];
      if head != NULL {
        blocks := blocks[head := blocks[head].(prev := mw)];
      }
      assert blocks == m;
      head := mw;
      if tail == NULL {
        tail := mw;
      }
      chain := [mw] + chain;
    }

    // The search of mwLastFree.
    method FindFreed(p: Addr) returns (found: bool)
      requires RingOK()
      ensures found <==> exists j :: 0 <= j < FREE_LIST && lastFree[j].p == p
    {
      var i := 0;
      while i < FREE_LIST
        invariant 0 <= i <= FREE_LIST
        invariant forall j :: 0 <= j < i ==> lastFree[j].p != p
      {
        if lastFree[i].p == p {
          return true;
        }
        i := i + 1;
      }
      return false;
    }

    // The ring reports exactly the pointers among the last FREE_LIST releases.
    ghost predicate RecentlyFreed(p: Addr)
      reads `released
    {
      exists i :: 0 <= i < |released| && i >= |released| - FREE_LIST && released[i].p == p
    }

    lemma RingReportsRecent(p: Addr)
      requires RingOK() && p != NULL
      ensures (exists j :: 0 <= j < FREE_LIST && lastFree[j].p == p) <==> RecentlyFreed(p)
      ensures RecentlyFreed(p) <==> exists i :: |released| - 64 <= i < |released| && 0 <= i && released[i].p == p
    {
      var n := |released|;
      if i :| 0 <= i < n && i >= n - FREE_LIST && released[i].p == p {
        assert lastFree[i % FREE_LIST].p == p;
      }
      if j :| 0 <= j < FREE_LIST && lastFree[j].p == p {
        assert j < n;
        var i := NewestInSlot(n, j);
        assert released[i] == lastFree[i % FREE_LIST];
      }
    }

    method RememberFreed(p: Addr, file: Label, line: int)
      requires RingOK()
      modifies lastFree, `lfCur, `released
      ensures RingOK() && released == old(released) + [Freed(p, file, line)]
    {
      ghost var n := |released|;
      NextSlot(n);
      lastFree[lfCur] := Freed(p, file, line);
      lfCur := lfCur + 1;
      if lfCur == FREE_LIST {
        lfCur := 0;
      }
      released := released + [Freed(p, file, line)];
    }

    // With no-man's-land on, mwFree keeps the block, flagged and filled.
    method KeepAsNml(mw: Addr, ghost k: nat)
      requires Linked() && k < |chain| && chain[k] == mw && nmlMode != 0
      modifies `blocks, `nmlNumAlloc, `nmlCurAlloc
      ensures Linked() && Contents() == Retired(old(Contents()), k, nmlMode)
      ensures nmlNumAlloc == old(nmlNumAlloc) + 1
      ensures nmlCurAlloc == old(nmlCurAlloc + Contents()[k].size)
    {
      hide Chained, LinkOK;
      ghost var m := blocks;
      assert chain[k] in chain;
      assert forall i, j :: 0 <= i < j < |chain| ==> chain[i] != chain[j]
      by { DistinctOfChained(m, head, tail, chain); }
      blocks := blocks[mw := blocks[mw].(nml := true)];
      nmlNumAlloc := nmlNumAlloc + 1;
      nmlCurAlloc := nmlCurAlloc + blocks[mw].size;
      blocks := blocks[mw := blocks[mw].(data := Fill(VAL_NML, blocks[mw].size))];
      SameLinksKeepChain(m, blocks, head, tail, chain);
      assert Contents() == Retired(old(Contents()), k, nmlMode);
    }

    // Without it, the block leaves the chain and the memory.
    method Discard(mw: Addr, ghost k: nat)
      requires Linked() && k < |chain| && chain[k] == mw && nmlMode == 0
      modifies `blocks, `head, `tail, `chain
      ensures Linked() && Contents() == Retired(old(Contents()), k, nmlMode)
      ensures chain == RemoveAt(old(chain), k)
    {
      hide Intact, BridgePrev, BridgeNext, Allocs, Retired, RemoveAt;
      UnlinkKeepsIntact(blocks, head, tail, chain, k);
      Unlink(mw);
      blocks := blocks - {mw};
      chain := RemoveAt(chain, k);
    }

    /** mwFree of a pointer with a known call site. */
    method Free(p: Addr, file: Label, line: int) returns (r: Outcome)
      requires Valid() && file.File?
      modifies this, lastFree
      ensures Valid() && Settings(old(allocLimit), old(nmlMode), old(statLevel))
      ensures useLimit == old(useLimit) && statMaxAlloc == old(statMaxAlloc)
      ensures statTotAlloc == old(statTotAlloc) && statNumAlloc == old(statNumAlloc)
      ensures counter == old(counter) + 1
      ensures errors == old(errors) + if r == DoubleFree || r == WildFree then 1 else 0
      ensures r == NullFree <==> p == NULL
      ensures r == Released <==> p != NULL && IsLive(old(Contents()), p - HDR)
      ensures r == Released ==>
                && Contents() == Retired(old(Contents()), IndexOf(old(Contents()), p - HDR), nmlMode)
                && statCurAlloc == old(statCurAlloc) - old(Contents())[IndexOf(old(Contents()), p - HDR)].size
                && stats == AfterRelease(old(stats), statLevel, old(Contents())[IndexOf(old(Contents()), p - HDR)])
                && released == old(released) + [Freed(p, file, line)]
      ensures r != Released ==>
                && Contents() == old(Contents()) && chain == old(chain) && stats == old(stats)
                && released == old(released)
                && numCurAlloc == old(numCurAlloc) && statCurAlloc == old(statCurAlloc)
                && nmlNumAlloc == old(nmlNumAlloc) && nmlCurAlloc == old(nmlCurAlloc)
      ensures p != NULL && r != Released ==> r == if RecentlyFreed(p) then DoubleFree else WildFree
      ensures r == Released <==> p != NULL && p - HDR in old(blocks) && !old(blocks)[p - HDR].nml
      ensures r != Released ==> blocks == old(blocks)
      ensures r == Released ==>
                && var b := old(blocks)[p - HDR];
                && numCurAlloc == old(numCurAlloc) - 1 && statCurAlloc == old(statCurAlloc) - b.size
                && nmlNumAlloc == old(nmlNumAlloc) + (if nmlMode != 0 then 1 else 0)
                && nmlCurAlloc == old(nmlCurAlloc) + (if nmlMode != 0 then b.size else 0)
                && (p - HDR in blocks <==> nmlMode != 0)
                && (nmlMode != 0 ==> IsNmlOf(blocks[p - HDR], b))
                && OthersKept(old(blocks), blocks, p - HDR)
    {
      hide Intact, Contents, Agree, Tallied, Balanced, RingOK, RecentlyFreed, Retired, AfterRelease, IsLive, IndexOf,
           OthersKept, IsNmlOf;
      counter := counter + 1;
      if p == NULL {
        return NullFree;
      }
      IndexOfBlock(p - HDR);
      LiveBlock(p - HDR);
      var live := IsLiveBlock(p - HDR);
      if live {
        ReleaseBlock(p, file, line);
        return Released;
      }
      r := Refuse(p);
    }

    // mwFree of a live block.
    method ReleaseBlock(p: Addr, file: Label, line: int)
      requires Valid() && IsLive(Contents(), p - HDR)
      modifies this, lastFree
      ensures Valid() && Settings(old(allocLimit), old(nmlMode), old(statLevel))
      ensures useLimit == old(useLimit) && statMaxAlloc == old(statMaxAlloc) && counter == old(counter)
      ensures statTotAlloc == old(statTotAlloc) && statNumAlloc == old(statNumAlloc) && errors == old(errors)
      ensures Contents() == Retired(old(Contents()), IndexOf(old(Contents()), p - HDR), nmlMode)
      ensures statCurAlloc == old(statCurAlloc) - old(Contents())[IndexOf(old(Contents()), p - HDR)].size
      ensures stats == AfterRelease(old(stats), statLevel, old(Contents())[IndexOf(old(Contents()), p - HDR)])
      ensures released == old(released) + [Freed(p, file, line)]
      ensures p - HDR in old(blocks)
      ensures var b := old(blocks)[p - HDR];
              && numCurAlloc == old(numCurAlloc) - 1 && statCurAlloc == old(statCurAlloc) - b.size
              && nmlNumAlloc == old(nmlNumAlloc) + (if nmlMode != 0 then 1 else 0)
              && nmlCurAlloc == old(nmlCurAlloc) + (if nmlMode != 0 then b.size else 0)
              && (p - HDR in blocks <==> nmlMode != 0)
              && (nmlMode != 0 ==> IsNmlOf(blocks[p - HDR], b))
              && OthersKept(old(blocks), blocks, p - HDR)
    {
      hide Intact, Contents, Agree, Tallied, Balanced, RingOK, Retired, AfterRelease, IndexOf, Reflects, IsNmlOf,
           OthersKept;
      IndexOfBlock(p - HDR);
      ghost var before, s := blocks, Contents();
      ghost var k := IndexOf(s, p - HDR);
      ReflectsNow();
      Release(p - HDR, k, p, file, line);
      ReflectsNow();
      RetiredBlocks(before, s, blocks, k, nmlMode);
    }

    lemma ReflectsNow()
      requires Linked()
      ensures Reflects(blocks, Contents())
    {
      hide Intact;
      DistinctOfIntact(blocks, head, tail, chain);
      forall a ensures a in blocks <==> Lookup(Contents(), a).Some? { IndexOfBlock(a); }
      forall a | a in blocks ensures Lookup(Contents(), a) == Some(Info(a, blocks[a])) && Sealed(blocks[a]) {
        IndexOfBlock(a);
        SealedOfIntact(blocks, head, tail, chain, a);
      }
    }

    lemma LiveBlock(mw: Addr)
      requires Linked()
      ensures IsLive(Contents(), mw) <==> mw in blocks && !blocks[mw].nml
    {
      hide Intact, Contents;
      IndexOfBlock(mw);
    }

    // The quick ownership test, and the test for no-man's-land.
    method IsLiveBlock(mw: Addr) returns (live: bool)
      requires Linked()
      modifies `blocks, `errors
      ensures blocks == old(blocks) && errors == old(errors)
      ensures live <==> IsLive(Contents(), mw)
    {
      hide Intact, Contents;
      LinkedSearchesEnd(mw);
      LiveBlock(mw);
      var owned := IsOwned(mw);
      live := owned == Owned && !blocks[mw].nml;
    }

    // mwFree of a pointer it does not own: an error, told apart by the ring.
    method Refuse(p: Addr) returns (r: Outcome)
      requires RingOK() && p != NULL
      modifies `errors
      ensures r == (if RecentlyFreed(p) then DoubleFree else WildFree) && errors == old(errors) + 1
    {
      hide RingOK, RecentlyFreed;
      RingReportsRecent(p);
      errors := errors + 1;
      var found := FindFreed(p);
      r := if found then DoubleFree else WildFree;
    }

    // The owned branch of mwFree: counters, then the block, then the ring.
    method Release(mw: Addr, ghost k: nat, p: Addr, file: Label, line: int)
      requires Valid() && k < |chain| && chain[k] == mw && mw in blocks && !blocks[mw].nml
      requires k < |Contents()| && Contents()[k] == Info(mw, blocks[mw])
      modifies `blocks, `head, `tail, `chain, `numCurAlloc, `statCurAlloc, `nmlNumAlloc, `nmlCurAlloc, `stats
      modifies lastFree, `lfCur, `released
      ensures Valid()
      ensures Contents() == Retired(old(Contents()), k, nmlMode)
      ensures statCurAlloc == old(statCurAlloc) - old(blocks)[mw].size && numCurAlloc == old(numCurAlloc) - 1
      ensures nmlNumAlloc == old(nmlNumAlloc) + if nmlMode != 0 then 1 else 0
      ensures nmlCurAlloc == old(nmlCurAlloc) + if nmlMode != 0 then old(blocks)[mw].size else 0
      ensures stats == AfterRelease(old(stats), statLevel, Info(mw, old(blocks)[mw]))
      ensures released == old(released) + [Freed(p, file, line)]
    {
      hide Intact, Contents, Agree, Tallied, Balanced, RingOK, Retired, AfterFree;
      UncountAllocation(Contents(), k, blocks[mw].size, blocks[mw].file, blocks[mw].line);
      Retire(mw, k);
      RememberFreed(p, file, line);
    }

    // What becomes of the block itself.
    method Retire(mw: Addr, ghost k: nat)
      requires Linked() && k < |chain| && chain[k] == mw && k < |Contents()|
      modifies `blocks, `head, `tail, `chain, `nmlNumAlloc, `nmlCurAlloc
      ensures Linked() && Contents() == Retired(old(Contents()), k, nmlMode)
      ensures nmlNumAlloc == old(nmlNumAlloc) + if nmlMode != 0 then 1 else 0
      ensures nmlCurAlloc == old(nmlCurAlloc) + if nmlMode != 0 then old(Contents()[k].size) else 0
    {
      hide Intact, Contents, Retired;
      if nmlMode != 0 {
        KeepAsNml(mw, k);
      } else {
        Discard(mw, k);
      }
    }

    lemma IndexOfBlock(mw: Addr)
      requires Linked()
      ensures var k := IndexOf(Contents(), mw);
              && (mw in blocks <==> k < |chain|)
              && |Contents()| == |chain|
              && (mw in blocks ==> chain[k] == mw && Contents()[k] == Info(mw, blocks[mw]))
    {
    }

    // The counters and statistics of a successful mwFree.
    method UncountAllocation(ghost s: seq<Alloc>, ghost k: nat, size: nat, file: Label, line: int)
      requires Balanced(s, numCurAlloc, statCurAlloc, statMaxAlloc, nmlNumAlloc, nmlCurAlloc)
      requires statLevel >= 0
      requires statLevel != 0 ==> Agree(stats, s, statLevel) && Tallied(stats, statTotAlloc, statNumAlloc)
      requires k < |s| && !s[k].nml && s[k].size == size && s[k].file == file && s[k].line == line
      modifies `numCurAlloc, `statCurAlloc, `stats
      ensures statCurAlloc == old(statCurAlloc) - size && numCurAlloc == old(numCurAlloc) - 1
      ensures Balanced(Retired(s, k, nmlMode), numCurAlloc, statCurAlloc, statMaxAlloc,
                       nmlNumAlloc + if nmlMode != 0 then 1 else 0,
                       nmlCurAlloc + if nmlMode != 0 then size else 0)
      ensures statLevel != 0 ==>
                Agree(stats, Retired(s, k, nmlMode), statLevel) && Tallied(stats, statTotAlloc, statNumAlloc)
      ensures stats == AfterFree(old(stats), statLevel, size, file, line)
    {
      hide Agree, Tallied, AfterFree, Retired;
      RetireBalances(s, k, nmlMode, numCurAlloc, statCurAlloc, statMaxAlloc, nmlNumAlloc, nmlCurAlloc);
      numCurAlloc := numCurAlloc - 1;
      statCurAlloc := statCurAlloc - size;
      if statLevel != 0 {
        RetireAgrees(stats, s, k, nmlMode, statLevel);
        TallyMoves(stats, statLevel, size, file, line, statTotAlloc, statNumAlloc);
        StatFree(size, file, line);
      } else {
        NoRecords(stats, size, file, line);
      }
    }

    // The bytes of a user's block change: memcpy in mwRealloc, or a write by its owner.
    method WriteBytes(mw: Addr, ghost k: nat, bytes: seq<Byte>)
      requires Valid() && k < |chain| && chain[k] == mw && mw in blocks && |bytes| <= blocks[mw].size
      requires |blocks[mw].data| == blocks[mw].size
      modifies `blocks
      ensures Valid()
      ensures Contents() == Overwritten(old(Contents()), k, bytes)
    {
      hide Chained, Agree, Tallied, Balanced, RingOK;
      ghost var m := blocks;
      DistinctOfChained(m, head, tail, chain);
      assert forall i :: 0 <= i < |chain| && i != k ==> chain[i] != mw;
      blocks := blocks[mw := blocks[mw].(data := bytes + blocks[mw].data[|bytes|..])];
      SameLinksKeepChain(m, blocks, head, tail, chain);
      assert Contents() == Overwritten(old(Contents()), k, bytes);
      BytesDoNotCount(old(Contents()), k, bytes, numCurAlloc, statCurAlloc, statMaxAlloc, nmlNumAlloc, nmlCurAlloc);
      if statLevel != 0 { BytesDoNotMatter(stats, old(Contents()), k, bytes, statLevel); }
    }

    /** mwRealloc, when the C library's malloc succeeds. */
    method Realloc(p: Addr, size: nat, file: Label, line: int) returns (q: Addr)
      requires Valid() && Fits(size) && (p == NULL || file.File?)
      modifies this, lastFree
      ensures Valid() && Settings(old(allocLimit), old(nmlMode), old(statLevel))
      ensures useLimit == old(useLimit)
      ensures p == NULL && q != NULL ==>
                Contents() == [Alloc(q - HDR, file, counter, size, line, false, Fill(VAL_NEW, size))] + old(Contents())
      ensures p == NULL && q == NULL ==> Contents() == old(Contents())
      ensures p == NULL ==>
                (q == NULL <==> Needed(size) < size || (useLimit && LongOf(size) + old(statCurAlloc) > allocLimit))
      ensures p != NULL && size == 0 ==>
                && q == NULL
                && Contents() == if IsLive(old(Contents()), p - HDR)
                                 then Retired(old(Contents()), IndexOf(old(Contents()), p - HDR), nmlMode)
                                 else old(Contents())
      ensures p != NULL && size != 0 && q != NULL ==>
                && IsLive(old(Contents()), p - HDR)
                && Contents() == Moved(old(Contents()), IndexOf(old(Contents()), p - HDR), q - HDR,
                                       file, counter - 1, size, line, nmlMode)
                && statMaxAlloc == Max(old(statMaxAlloc), old(statCurAlloc) + size)
      ensures p != NULL && size != 0 && q == NULL ==> Contents() == old(Contents())
      ensures p != NULL && size != 0 && IsLive(old(Contents()), p - HDR) ==>
                (q == NULL <==>
                  || Needed(size) < size
                  || (useLimit && LongOf(size) + old(statCurAlloc)
                                  - old(Contents())[IndexOf(old(Contents()), p - HDR)].size > allocLimit))
      ensures p != NULL && !IsLive(old(Contents()), p - HDR) ==> q == NULL
      ensures q != NULL && useLimit ==> statCurAlloc <= allocLimit
      ensures p != NULL && size != 0 && q == NULL ==> blocks == old(blocks)
      ensures p != NULL && size != 0 && q != NULL ==>
                && p - HDR in old(blocks) && !old(blocks)[p - HDR].nml && q - HDR !in old(blocks) && q - HDR in blocks
                && var o, b := old(blocks)[p - HDR], blocks[q - HDR];
                   && b.file == file && b.line == line && !b.nml && b.size == size == |b.data| && o.size == |o.data|
                   && (forall i :: 0 <= i < size && i < o.size ==> b.data[i] == o.data[i])
                   && (forall i :: o.size <= i < size ==> b.data[i] == 0xFE)
                   && statCurAlloc == old(statCurAlloc) + size - o.size
      ensures p != NULL && size != 0 && q != NULL ==>
                && (p - HDR in blocks <==> nmlMode != 0)
                && OthersKept(old(blocks) - {p - HDR}, blocks - {p - HDR}, q - HDR)
    {
      hide Intact, Contents, Agree, Tallied, Balanced, RingOK, RecentlyFreed, Retired, Needed, Moved, IndexOf;
      hide OthersKept, IsNewBlock, IsNmlOf, IsLive;
      if p == NULL {
        q := Malloc(size, file, line);
        return;
      }
      if size == 0 {
        var _ := Free(p, file, line);
        return NULL;
      }
      var mw := p - HDR;
      LinkedSearchesEnd(mw);
      IndexOfBlock(mw);
      var owned := IsOwned(mw);
      LiveBlock(mw);
      if owned == Owned && !blocks[mw].nml {
        q := Move(p, size, file, line);
        return;
      }
      errors := errors + if owned == Owned then 2 else 1;
      return NULL;
    }

    // mwRealloc of a live block.
    method Move(p: Addr, size: nat, file: Label, line: int) returns (q: Addr)
      requires Valid() && Fits(size) && p != NULL && file.File? && IsLive(Contents(), p - HDR)
      modifies this, lastFree
      ensures Valid() && Settings(old(allocLimit), old(nmlMode), old(statLevel)) && useLimit == old(useLimit)
      ensures q != NULL ==>
                && Contents() == Moved(old(Contents()), IndexOf(old(Contents()), p - HDR), q - HDR,
                                       file, counter - 1, size, line, nmlMode)
                && statMaxAlloc == Max(old(statMaxAlloc), old(statCurAlloc) + size)
      ensures q == NULL ==> Contents() == old(Contents())
      ensures q == NULL <==>
                || Needed(size) < size
                || (useLimit && LongOf(size) + old(statCurAlloc)
                                  - old(Contents())[IndexOf(old(Contents()), p - HDR)].size > allocLimit)
      ensures q != NULL && useLimit ==> statCurAlloc <= allocLimit
      ensures q == NULL ==> blocks == old(blocks)
      ensures q != NULL ==>
                && p - HDR in old(blocks) && !old(blocks)[p - HDR].nml && q - HDR !in old(blocks) && q - HDR in blocks
                && var o, b := old(blocks)[p - HDR], blocks[q - HDR];
                   && b.file == file && b.line == line && !b.nml && b.size == size == |b.data| && o.size == |o.data|
                   && (forall i :: 0 <= i < size && i < o.size ==> b.data[i] == o.data[i])
                   && (forall i :: o.size <= i < size ==> b.data[i] == 0xFE)
                   && statCurAlloc == old(statCurAlloc) + size - o.size
      ensures q != NULL ==>
                && (p - HDR in blocks <==> nmlMode != 0)
                && OthersKept(old(blocks) - {p - HDR}, blocks - {p - HDR}, q - HDR)
    {
      hide Intact, Contents, Agree, Tallied, Balanced, RingOK, RecentlyFreed, Retired, Needed, Moved, IndexOf;
      hide OthersKept, Reflects;
      var mw := p - HDR;
      IndexOfBlock(mw);
      BytesFillBlocks(mw);
      ghost var k := IndexOf(Contents(), mw);
      ghost var before, s := blocks, Contents();
      ReflectsNow();
      if useLimit && LongOf(size) + statCurAlloc - blocks[mw].size > allocLimit {
        counter := counter + 1;
        errors := errors + 1;
        return NULL;
      }
      var oldUseLimit := useLimit;
      useLimit := false;
      q := Replace(p, k, size, file, line);
      if q != NULL {
        ReflectsNow();
        MovedBlocks(before, s, blocks, k, q - HDR, file, counter - 1, size, line, nmlMode);
      }
      useLimit := oldUseLimit;
    }

    // The "fake realloc operation" of mwRealloc, with the limit switched off.
    method Replace(p: Addr, ghost k: nat, size: nat, file: Label, line: int) returns (q: Addr)
      requires Valid() && Fits(size) && !useLimit && p != NULL && file.File?
      requires k == IndexOf(Contents(), p - HDR) < |Contents()| && !Contents()[k].nml
      requires k < |chain| && chain[k] == p - HDR && p - HDR in blocks
               && Contents()[k] == Info(p - HDR, blocks[p - HDR])
      modifies this, lastFree
      ensures Valid() && Settings(old(allocLimit), old(nmlMode), old(statLevel)) && !useLimit
      ensures q == NULL <==> Needed(size) < size
      ensures q == NULL ==>
                Contents() == old(Contents()) && statCurAlloc == old(statCurAlloc) && blocks == old(blocks)
      ensures q != NULL ==>
                && q - HDR !in old(blocks)
                && Contents() == Moved(old(Contents()), k, q - HDR, file, counter - 1, size, line, nmlMode)
                && statCurAlloc == old(statCurAlloc) + size - old(Contents())[k].size
                && statMaxAlloc == Max(old(statMaxAlloc), old(statCurAlloc) + size)
    {
      hide Intact, Contents, Agree, Tallied, Balanced, RingOK, RecentlyFreed, Needed, RemoveAt, Find, IndexOf, Retired,
           OthersKept, IsNewBlock, IsNmlOf;
      ghost var s := Contents();
      ghost var data := blocks[p - HDR].data;
      BytesFillBlocks(p - HDR);
      q := Malloc(size, file, line);
      if q != NULL {
        KeptBlock(old(blocks), blocks, q - HDR, p - HDR);
        CopyBytes(p - HDR, q - HDR, s, file, counter, size, line);
        ghost var t := Contents();
        IndexAfterPush(t[0], s, p - HDR);
        assert t[k + 1] == s[k];
        var r := Free(p, file, line);
        assert Contents() == Retired(t, k + 1, nmlMode);
      }
    }

    // memcpy from one block to a new one.
    method CopyBytes(mw: Addr, target: Addr, ghost s: seq<Alloc>, file: Label, ghost count: int, size: nat, line: int)
      requires Valid() && chain != [] && chain[0] == target && mw in blocks && mw != target
      requires Contents() == [Alloc(target, file, count, size, line, false, Fill(VAL_NEW, size))] + s
      modifies `blocks
      ensures Valid() && mw in old(blocks)
      ensures var n := if size < |old(blocks)[mw].data| then size else |old(blocks)[mw].data|;
              Contents() == [Alloc(target, file, count, size, line, false,
                                   old(blocks)[mw].data[..n] + Fill(VAL_NEW, size - n))] + s
    {
      hide Intact, Contents, Agree, Tallied, Balanced, RingOK;
      BlockAt(0);
      BytesFillBlocks(mw);
      BytesFillBlocks(target);
      var n := if size < blocks[mw].size then size else blocks[mw].size;
      ghost var t := Overwritten(Contents(), 0, blocks[mw].data[..n]);
      WriteBytes(target, 0, blocks[mw].data[..n]);
      assert Fill(VAL_NEW, size)[n..] == Fill(VAL_NEW, size - n);
      assert t == [t[0]] + s;
    }

    lemma BlockAt(k: nat)
      requires Linked() && k < |chain|
      ensures chain[k] in blocks && Contents()[k] == Info(chain[k], blocks[chain[k]])
    {
      assert chain[k] in chain;
    }

    lemma BytesFillBlocks(mw: Addr)
      requires Linked() && mw in blocks
      ensures |blocks[mw].data| == blocks[mw].size
    {
      assert Sealed(blocks[mw]);
    }

    /** mwLimit: zero switches the limit off. */
    method Limit(lim: int)
      modifies `useLimit, `allocLimit
      ensures allocLimit == lim && useLimit == (lim != 0)
    {
      useLimit := lim != 0;
      allocLimit := lim;
    }

    /** Any program using the tracker: every reachable state is valid. */
    method Run(ops: seq<Op>)
      requires Valid()
      requires forall i :: 0 <= i < |ops| ==> ops[i].Fitting()
      modifies this, lastFree
      ensures Valid() && statLevel == old(statLevel)
    {
      hide Intact, Contents, Agree, Tallied, Balanced, RingOK, RecentlyFreed, Retired, Needed, Moved;
      var i := 0;
      while i < |ops|
        invariant 0 <= i <= |ops|
        invariant Valid() && statLevel == old(statLevel)
      {
        assert ops[i].Fitting();
        match ops[i] {
          case OpMalloc(size, file, line) =>
            var _ := Malloc(size, file, line);
          case OpRealloc(p, size, file, line) =>
            var _ := Realloc(p, size, file, line);
          case OpFree(p, file, line) =>
            var _ := Free(p, file, line);
          case OpLimit(lim) =>
            Limit(lim);
          case OpNml(mode) =>
            nmlMode := mode;
          case OpWrite(p, bytes) =>
            IndexOfBlock(p - HDR);
            if p - HDR in blocks && |bytes| <= blocks[p - HDR].size {
              BytesFillBlocks(p - HDR);
              ghost var k := IndexOf(Contents(), p - HDR);
              WriteBytes(p - HDR, k, bytes);
            }
        }
        i := i + 1;
      }
    }

    /** What every valid state satisfies: the counters are conserved, and the report adds up. */
    lemma ConservationLaws(f: Label)
      requires Valid()
      ensures numCurAlloc == Total(LiveCount, Contents()) && nmlNumAlloc == Total(NmlCount, Contents())
      ensures statCurAlloc == Total(LiveBytes, Contents()) && nmlCurAlloc == Total(NmlBytes, Contents())
      ensures |chain| == numCurAlloc + nmlNumAlloc
      ensures statCurAlloc + nmlCurAlloc == Total(AllBytes, Contents())
      ensures 0 <= numCurAlloc && 0 <= nmlNumAlloc && 0 <= nmlCurAlloc && 0 <= statCurAlloc <= statMaxAlloc
      ensures statLevel >= 1 ==>
                && KeysUnique(stats)
                && ModuleSum(stats) == statCurAlloc
                && TotalBytes(stats) == statTotAlloc && TotalNumber(stats) == statNumAlloc
                && CurrOf(stats, f, MODULE) == Total(FileBytes(f), Contents())
      ensures statLevel >= 2 && f.File? ==>
                && LineSum(stats, f) == CurrOf(stats, f, MODULE) - Total(SiteBytes(f, MODULE), Contents())
                && forall l :: l != MODULE ==> CurrOf(stats, f, l) == Total(SiteBytes(f, l), Contents())
    {
      hide Intact;
      CountsCoverChain(Contents());
      BytesCoverChain(Contents());
      if statLevel >= 1 {
        assert CurrOf(stats, f, MODULE) == Expected(statLevel, f, MODULE, Contents());
        ReportAddsUp(stats, Contents(), statLevel, f);
        assert forall l :: CurrOf(stats, f, l) == Expected(statLevel, f, l, Contents());
      }
    }

    /** A wild write over the links and checksum of one block, followed by mwRelink.
        The heap is as before, up to the file label, which survives once statistics
        are kept per module. The repair reports success exactly when no block is
        no-man's-land. */
    method TrashAndRelink(mw: Addr, prev: Addr, next: Addr, check: int) returns (r: Relinking)
      requires Valid() && mw in chain
      modifies `blocks
      ensures mw in old(blocks) && blocks == Relabel(old(blocks), mw, stats)
      ensures Linked() && chain == old(chain)
      ensures statLevel >= 1 ==> blocks == old(blocks) && Valid()
      ensures r == if nmlNumAlloc == 0 then Repaired else Partial
    {
      hide Chained, DamagedAt, Agree, Tallied, RingOK, HealedAt;
      ghost var before := blocks;
      CountsCoverChain(Contents());
      BytesCoverChain(Contents());
      blocks := blocks[mw := blocks[mw].(prev := prev, next := next, check := check)];
      TrashedHeap(before, head, tail, chain, mw, blocks[mw], stats);
      if statLevel >= 1 { FilesAreKnown(stats, Allocs(before, chain), statLevel, Position(chain, mw)); }
      DamagedSearchesEnd(mw);
      r := Relink(mw);
    }

    /** A wild write over the two links of one block, followed by mwIsOwned, as in mwFree
        and mwRealloc. A block made to point to itself both ways is accepted with its links
        as they are. In every other case the heap is as before, up to the file label; but
        the block is disowned if its links still lead to blocks, or nowhere, and some block
        is no-man's-land. */
    method TrashAndAsk(mw: Addr, prev: Addr, next: Addr) returns (r: Ownership)
      requires Valid() && mw in chain
      modifies `blocks, `errors
      ensures mw in old(blocks)
      ensures var b := old(blocks)[mw];
              && (prev == mw && next == mw ==>
                    blocks == old(blocks)[mw := b.(prev := prev, next := next)] && r == Owned)
              && (prev == b.prev && next == b.next ==> blocks == old(blocks) && r == Owned)
              && (!(prev == mw && next == mw) && !(prev == b.prev && next == b.next) ==>
                    && Linked() && blocks == Relabel(old(blocks), mw, stats)
                    && r == if Wild(old(blocks), prev) || Wild(old(blocks), next) || nmlNumAlloc == 0
                         then Owned else Foreign)
    {
      hide Chained, DamagedAt, Agree, Tallied, RingOK, HealedAt, ChkVal, Relabel, LinksAccepted,
           UnsafeLink, Wild, Circles, CirclesBack;
      ghost var before := blocks;
      CountsCoverChain(Contents());
      BytesCoverChain(Contents());
      TrashedLinks(before, head, tail, chain, mw, prev, next, stats);
      hide Total, Intact;
      blocks := blocks[mw := blocks[mw].(prev := prev, next := next)];
      DamagedSearchesEnd(mw);
      r := IsOwned(mw);
    }
  }

  /** With no-man's-land on, one release is enough for a complete repair to be reported as
      partial. */
  method RepairReportedAsPartial(file: Label, line: int) returns (r: Relinking)
    requires file.File?
    ensures r == Partial
  {
    hide Intact, Agree, Tallied, Allocs, Fill, HealedAt, Tracker.RingOK, Tracker.RecentlyFreed;
    var t := new Tracker(0, 1);
    assert t.Contents() == [];
    var p := t.Malloc(8, file, line);
    ghost var s := t.Contents();
    assert s[0].addr == p - HDR;
    var _ := t.Free(p, file, line);
    assert t.Contents() == [s[0].(nml := true, data := Fill(VAL_NML, 8))];
    assert t.nmlNumAlloc == Total(NmlCount, t.Contents()) == 1;
    t.BlockAt(0);
    r := t.TrashAndRelink(p - HDR, NULL, NULL, 0);
  }

  // mwIsSafeAddr says no to a link that is not NULL.
  predicate Wild(m: Memory, a: Addr) {
    a != NULL && !Safe(m, a)
  }

  // The only trace a repair may leave: the file label of the block.
  function Relabel(m: Memory, mw: Addr, stats: seq<Stat>): Memory
    requires mw in m
  {
    m[mw := m[mw].(file := Relabelled(m[mw].file, Known(stats, m[mw].file)))]
  }

  /** The label is kept if it is missing or a module record has it, and else says so. */
  lemma RelabelMeans(m: Memory, mw: Addr, stats: seq<Stat>)
    requires mw in m
    ensures var known := exists i :: 0 <= i < |stats| && stats[i].file == m[mw].file && stats[i].line == -1;
            Relabel(m, mw, stats) ==
            if m[mw].file == NoFile || known then m else m[mw := m[mw].(file := File("<relinked>"))]
  {
  }

  // One block's links and checksum overwritten: the rest is intact, no size is lost,
  // and healing it gives back the heap.
  lemma TrashedHeap(m: Memory, head: Addr, tail: Addr, c: seq<Addr>, mw: Addr, b: Block, stats: seq<Stat>)
    requires Intact(m, head, tail, c) && mw in m
    requires b == m[mw].(prev := b.prev, next := b.next, check := b.check)
    ensures var m1 := m[mw := b];
            && DamagedAt(m1, head, tail, c, mw)
            && (forall a :: a in c ==> a in m1)
            && Total(AllBytes, Allocs(m1, c)) == Total(AllBytes, Allocs(m, c))
            && HealedAt(m1, c, mw, stats) == Relabel(m, mw, stats)
    ensures Intact(Relabel(m, mw, stats), head, tail, c)
  {
    hide Intact, Chained, DamagedAt, Distinct;
    IntactParts(m, head, tail, c, mw);
    TrashDamages(m, head, tail, c, mw, b);
    SameSizes(m, m[mw := b], c);
    RelabelKeepsIntact(m, head, tail, c, mw, stats);
  }

  // Its two links overwritten: the checksum is still right, and the links are accepted
  // exactly when they are as before, or both lead to the block itself.
  lemma TrashedLinks(m: Memory, head: Addr, tail: Addr, c: seq<Addr>, mw: Addr,
                       prev: Addr, next: Addr, stats: seq<Stat>)
    requires Intact(m, head, tail, c) && mw in c
    ensures mw in m && NULL !in m
    ensures var b := m[mw].(prev := prev, next := next);
            var m1 := m[mw := b];
            && DamagedAt(m1, head, tail, c, mw)
            && (forall a :: a in m1 <==> a in c)
            && Total(AllBytes, Allocs(m1, c)) == Total(AllBytes, Allocs(m, c))
            && b.check == ChkVal(b.count, b.size, b.line)
            && HealedAt(m1, c, mw, stats) == Relabel(m, mw, stats)
            && (LinksAccepted(m1, c, mw) <==> (prev == m[mw].prev && next == m[mw].next) || (prev == mw && next == mw))
            && (UnsafeLink(m1, mw) <==> Wild(m, prev) || Wild(m, next))
            && (prev == m[mw].prev && next == m[mw].next ==> m1 == m)
    ensures Intact(Relabel(m, mw, stats), head, tail, c)
  {
    hide Chained, DamagedAt, HealedAt, ChkVal, Total, Relabel;
    IntactParts(m, head, tail, c, mw);
    TrashedHeap(m, head, tail, c, mw, m[mw].(prev := prev, next := next), stats);
  }

  lemma IntactParts(m: Memory, head: Addr, tail: Addr, c: seq<Addr>, mw: Addr)
    requires Intact(m, head, tail, c) && mw in m
    ensures Chained(m, head, tail, c) && mw in c && Sealed(m[mw])
    ensures m[mw].prev == At(c, Position(c, mw) - 1) && m[mw].next == At(c, Position(c, mw) + 1)
    ensures forall a :: a in c ==> a in m
  {
    assert LinkOK(m, c, Position(c, mw));
  }

  lemma RelabelKeepsIntact(m: Memory, head: Addr, tail: Addr, c: seq<Addr>, mw: Addr, stats: seq<Stat>)
    requires Intact(m, head, tail, c) && mw in m
    ensures Intact(Relabel(m, mw, stats), head, tail, c)
  {
    hide Chained;
    SameLinksKeepChain(m, Relabel(m, mw, stats), head, tail, c);
  }

  ghost function HealedAt(m: Memory, c: seq<Addr>, mw: Addr, stats: seq<Stat>): Memory
    requires mw in m
  {
    if mw in c then
      m[mw := Healed(m[mw], At(c, Position(c, mw) - 1), At(c, Position(c, mw) + 1), Known(stats, m[mw].file))]
    else m
  }

  lemma HealedHeap(m: Memory, head: Addr, tail: Addr, c: seq<Addr>, mw: Addr, stats: seq<Stat>)
    requires DamagedAt(m, head, tail, c, mw)
    requires forall a :: a in c ==> a in m
    ensures var m' := HealedAt(m, c, mw, stats);
            && m'.Keys == m.Keys
            && Chained(m', head, tail, c)
            && Total(AllBytes, Allocs(m', c)) == Total(AllBytes, Allocs(m, c))
  {
    var m' := HealedAt(m, c, mw, stats);
    HealingRestoresChain(m, head, tail, c, mw, m'[mw]);
    SameSizes(m, m', c);
  }

  lemma {:induction false} SameSizes(m: Memory, m': Memory, c: seq<Addr>)
    requires forall a :: a in c ==> a in m && a in m' && m'[a].size == m[a].size
    ensures Total(AllBytes, Allocs(m', c)) == Total(AllBytes, Allocs(m, c))
  {
    if c != [] {
      assert Allocs(m, c)[1..] == Allocs(m, c[1..]);
      assert Allocs(m', c)[1..] == Allocs(m', c[1..]);
      SameSizes(m, m', c[1..]);
    }
  }

  lemma NoBlocksNoBytes(m: Memory)
    ensures Allocs(m, []) == [] && Total(AllBytes, []) == 0
  {
  }

  lemma HeadOfChain(m: Memory, head: Addr, tail: Addr, c: seq<Addr>)
    requires Chained(m, head, tail, c) && c != []
    ensures head != NULL
  {
    assert c[0] in c;
  }

  lemma EmptyChain(m: Memory, tail: Addr, c: seq<Addr>)
    requires Chained(m, NULL, tail, c)
    ensures c == []
  {
    if c != [] { HeadOfChain(m, NULL, tail, c); }
  }

  predicate PrevConfirmed(m: Memory, head: Addr, mw: Addr)
    requires mw in m
  {
    if m[mw].prev != NULL then Safe(m, m[mw].prev) && m[m[mw].prev].next == mw else head == mw
  }

  predicate NextConfirmed(m: Memory, tail: Addr, mw: Addr)
    requires mw in m
  {
    if m[mw].next != NULL then Safe(m, m[mw].next) && m[m[mw].next].prev == mw else tail == mw
  }

  predicate UnsafeLink(m: Memory, mw: Addr)
    requires mw in m
  {
    Wild(m, m[mw].prev) || Wild(m, m[mw].next)
  }

  // The links of mw are the true ones, or both lead to mw itself.
  ghost predicate LinksAccepted(m: Memory, c: seq<Addr>, mw: Addr)
    requires mw in m && mw in c
  {
    || (m[mw].prev == At(c, Position(c, mw) - 1) && m[mw].next == At(c, Position(c, mw) + 1))
    || (m[mw].prev == mw && m[mw].next == mw)
  }

  lemma DamagedHasHead(m: Memory, head: Addr, tail: Addr, c: seq<Addr>, mw: Addr)
    requires DamagedAt(m, head, tail, c, mw)
    ensures head != NULL && mw in m && mw in c
  {
    assert c[0] in c;
  }

  // Where only the links of mw were overwritten, they are confirmed exactly when they are
  // the true ones, or both lead to mw itself; otherwise mwIsHeapOK notices.
  lemma AcceptedExactly(m: Memory, head: Addr, tail: Addr, c: seq<Addr>, mw: Addr)
    requires DamagedAt(m, head, tail, c, mw) && NULL !in m
    requires forall a :: a in m ==> a in c
    ensures PrevConfirmed(m, head, mw) && NextConfirmed(m, tail, mw) <==> LinksAccepted(m, c, mw)
    ensures LinksAccepted(m, c, mw) ==> !UnsafeLink(m, mw)
    ensures !LinksAccepted(m, c, mw) ==> !HeapOK(m, head, tail, mw)
  {
    hide HeapOK, Chained;
    var k := Position(c, mw);
    PrevConfirmedExactly(m, head, tail, c, mw);
    NextConfirmedExactly(m, head, tail, c, mw);
    forall d | Chained(m, head, tail, d) && mw in d
      ensures PrevConfirmed(m, head, mw) && NextConfirmed(m, tail, mw)
    {
      OwnBlockPasses(m, head, tail, d, mw);
    }
    DamagedHasHead(m, head, tail, c, mw);
    HeapOKNeedsChain(m, head, tail, mw);
  }

  lemma HeapOKNeedsChain(m: Memory, head: Addr, tail: Addr, mw: Addr)
    requires head != NULL && mw != NULL
    ensures HeapOK(m, head, tail, mw) ==> exists d :: Chained(m, head, tail, d) && mw in d
  {
  }

  lemma PrevConfirmedExactly(m: Memory, head: Addr, tail: Addr, c: seq<Addr>, mw: Addr)
    requires DamagedAt(m, head, tail, c, mw) && NULL !in m
    requires forall a :: a in m ==> a in c
    ensures PrevConfirmed(m, head, mw) <==>
              || m[mw].prev == At(c, Position(c, mw) - 1)
              || (m[mw].prev == mw && m[mw].next == mw)
  {
    var k := Position(c, mw);
    var p := m[mw].prev;
    if k > 0 { assert LinkOK(m, c, k - 1); }
    if Safe(m, p) && p != mw {
      var i := Position(c, p);
      assert LinkOK(m, c, i);
      assert c[i] in c;
    }
    assert mw in c;
  }

  lemma NextConfirmedExactly(m: Memory, head: Addr, tail: Addr, c: seq<Addr>, mw: Addr)
    requires DamagedAt(m, head, tail, c, mw) && NULL !in m
    requires forall a :: a in m ==> a in c
    ensures NextConfirmed(m, tail, mw) <==>
              || m[mw].next == At(c, Position(c, mw) + 1)
              || (m[mw].prev == mw && m[mw].next == mw)
  {
    var k := Position(c, mw);
    var n := m[mw].next;
    if k + 1 < |c| { assert LinkOK(m, c, k + 1); }
    if Safe(m, n) && n != mw {
      var i := Position(c, n);
      assert LinkOK(m, c, i);
      assert c[i] in c;
    }
    assert mw in c;
  }

  // In an intact chain every test mwIsOwned makes on a block succeeds.
  lemma OwnBlockPasses(m: Memory, head: Addr, tail: Addr, c: seq<Addr>, mw: Addr)
    requires Chained(m, head, tail, c) && mw in c
    ensures BlockPasses(m, head, tail, mw)
    ensures PrevConfirmed(m, head, mw) && NextConfirmed(m, tail, mw) && !UnsafeLink(m, mw)
    ensures head != NULL
  {
    var k := Position(c, mw);
    ChainBlockPasses(m, head, tail, c, k);
    assert LinkOK(m, c, k);
    if k > 0 { assert c[k - 1] in c; }
  }

  lemma PrependKeepsIntact(m: Memory, head: Addr, tail: Addr, c: seq<Addr>, a: Addr, b: Block)
    requires Intact(m, head, tail, c)
    requires a != NULL && a !in m && b.prev == NULL && b.next == head && Sealed(b)
    ensures head != NULL ==> head in m
    ensures head == NULL ==> head !in m
    ensures var m' := Prepended(m, head, a, b);
            && Intact(m', a, if tail == NULL then a else tail, [a] + c)
            && Allocs(m', [a] + c) == [Info(a, b)] + Allocs(m, c)
  {
    hide LinkOK, Distinct;
    PrependKeepsChain(m, head, tail, c, a, b);
    if head != NULL { assert c[0] in c; }
  }

  lemma DistinctOfChained(m: Memory, head: Addr, tail: Addr, c: seq<Addr>)
    requires Chained(m, head, tail, c)
    ensures Distinct(c)
  {
  }

  lemma NeighboursInMemory(m: Memory, head: Addr, tail: Addr, c: seq<Addr>, k: nat)
    requires Chained(m, head, tail, c) && k < |c|
    ensures c[k] in m
    ensures m[c[k]].prev != NULL ==> m[c[k]].prev in m
    ensures m[c[k]].next != NULL ==> m[c[k]].next in m
    ensures m[c[k]].prev != c[k] && m[c[k]].next != c[k]
  {
    ChainBlockPasses(m, head, tail, c, k);
    assert LinkOK(m, c, k);
    assert c[k] in c;
  }

  lemma UnlinkKeepsIntact(m: Memory, head: Addr, tail: Addr, c: seq<Addr>, k: nat)
    requires Intact(m, head, tail, c) && k < |c|
    ensures NULL !in m && c[k] in m && m[c[k]].prev != c[k] && m[c[k]].next != c[k]
    ensures m[c[k]].prev != NULL ==> m[c[k]].prev in m
    ensures m[c[k]].next != NULL ==> m[c[k]].next in m
    ensures var m' := Unlinked(m, c[k]);
            var head' := if m[c[k]].prev == NULL then m[c[k]].next else head;
            var tail' := if m[c[k]].next == NULL then m[c[k]].prev else tail;
            && Intact(m', head', tail', RemoveAt(c, k))
            && Allocs(m', RemoveAt(c, k)) == Retired(Allocs(m, c), k, 0)
  {
    hide Chained, Unlinked, Distinct;
    DistinctOfChained(m, head, tail, c);
    NeighboursInMemory(m, head, tail, c, k);
    UnlinkKeepsChain(m, head, tail, c, k);
    UnlinkedBlocks(m, c[k]);
    RemoveKeepsDistinct(c, k);
    UnlinkedKeys(m, c[k]);
    UnlinkKeepsAllocs(m, head, tail, c, k);
  }

  // The newest of n releases that went into ring slot j.
  lemma NewestInSlot(n: nat, j: nat) returns (i: nat)
    requires j < FREE_LIST && j < n
    ensures i < n && i >= n - FREE_LIST && i % FREE_LIST == j
  {
    var back := (n - 1 - j) % FREE_LIST;
    i := n - 1 - back;
    var q := (n - 1 - j) / FREE_LIST;
    assert i == j + FREE_LIST * q;
  }

  // The slot of release n, the one after it, and the slots of the releases it keeps.
  lemma NextSlot(n: nat)
    ensures n < FREE_LIST ==> n % FREE_LIST == n
    ensures (n + 1) % FREE_LIST == if n % FREE_LIST == FREE_LIST - 1 then 0 else n % FREE_LIST + 1
    ensures forall i :: 0 <= i < n && i > n - FREE_LIST ==> i % FREE_LIST != n % FREE_LIST
  {
    forall i | 0 <= i < n && i > n - FREE_LIST ensures i % FREE_LIST != n % FREE_LIST {
      assert i == FREE_LIST * (i / FREE_LIST) + i % FREE_LIST;
      assert n == FREE_LIST * (n / FREE_LIST) + n % FREE_LIST;
    }
  }

  lemma IndexAfterPush(a: Alloc, s: seq<Alloc>, x: Addr)
    requires a.addr != x
    ensures IndexOf([a] + s, x) == 1 + IndexOf(s, x)
  {
    assert ([a] + s)[1..] == s;
  }

  lemma FilesAreKnown(stats: seq<Stat>, s: seq<Alloc>, level: int, k: nat)
    requires Agree(stats, s, level) && k < |s|
    ensures Known(stats, s[k].file)
  {
  }

  lemma TrashDamages(m: Memory, head: Addr, tail: Addr, c: seq<Addr>, mw: Addr, b: Block)
    requires Chained(m, head, tail, c) && mw in c && mw in m
    ensures DamagedAt(m[mw := b], head, tail, c, mw)
  {
    forall i | 0 <= i < |c| && c[i] != mw ensures LinkOK(m[mw := b], c, i) {
      assert LinkOK(m, c, i);
    }
  }
}
