/**
 Per-module and per-line allocation statistics (mwStatGet, mwStatAlloc and
 mwStatFree of src/memwatch.c). The record list only ever grows at its front,
 so it is a sequence here, newest record first.
 */
module MwStats {
  import opened MwChain

  datatype Stat = Stat(file: Label, line: int, total: int, num: int, max: int, curr: int)

  // The line number under which a module record is filed.
  const MODULE: int := -1

  /** What one allocation contributes to each quantity the tracker keeps. */
  datatype Weight =
    | LiveCount
    | NmlCount
    | LiveBytes
    | NmlBytes
    | AllBytes
    | FileBytes(file: Label)
    | SiteBytes(file: Label, line: int)
    | LinedBytes(file: Label)

  function Weigh(w: Weight, a: Alloc): nat {
    match w
    case LiveCount => if a.nml then 0 else 1
    case NmlCount => if a.nml then 1 else 0
    case LiveBytes => if a.nml then 0 else a.size
    case NmlBytes => if a.nml then a.size else 0
    case AllBytes => a.size
    case FileBytes(f) => if !a.nml && a.file == f then a.size else 0
    case SiteBytes(f, l) => if !a.nml && a.file == f && a.line == l then a.size else 0
    case LinedBytes(f) => if !a.nml && a.file == f && a.line != MODULE then a.size else 0
  }

  function Total(w: Weight, s: seq<Alloc>): nat {
    if s == [] then 0 else Weigh(w, s[0]) + Total(w, s[1..])
  }

  lemma {:induction false} TotalOfConcat(w: Weight, s: seq<Alloc>, t: seq<Alloc>)
    ensures Total(w, s + t) == Total(w, s) + Total(w, t)
  {
    if s == [] {
      assert s + t == t;
    } else {
      assert (s + t)[1..] == s[1..] + t;
      TotalOfConcat(w, s[1..], t);
    }
  }

  lemma TotalOfRemoval(w: Weight, s: seq<Alloc>, k: nat)
    requires k < |s|
    ensures Total(w, RemoveAt(s, k)) == Total(w, s) - Weigh(w, s[k])
  {
    assert s == s[..k] + ([s[k]] + s[k + 1..]);
    TotalOfConcat(w, s[..k], [s[k]] + s[k + 1..]);
    TotalOfConcat(w, [s[k]], s[k + 1..]);
    TotalOfConcat(w, s[..k], s[k + 1..]);
  }

  lemma TotalOfUpdate(w: Weight, s: seq<Alloc>, k: nat, a: Alloc)
    requires k < |s|
    ensures Total(w, s[k := a]) == Total(w, s) - Weigh(w, s[k]) + Weigh(w, a)
  {
    TotalOfRemoval(w, s, k);
    TotalOfRemoval(w, s[k := a], k);
    assert RemoveAt(s, k) == RemoveAt(s[k := a], k);
  }

  lemma {:induction false} CountsCoverChain(s: seq<Alloc>)
    ensures Total(LiveCount, s) + Total(NmlCount, s) == |s|
  {
    if s != [] { CountsCoverChain(s[1..]); }
  }

  lemma {:induction false} BytesCoverChain(s: seq<Alloc>)
    ensures Total(LiveBytes, s) + Total(NmlBytes, s) == Total(AllBytes, s)
    ensures Total(NmlCount, s) == 0 ==> Total(NmlBytes, s) == 0
  {
    if s != [] { BytesCoverChain(s[1..]); }
  }

  // The walk of mwStatGet: the first record with this key, or |stats|.
  function Find(stats: seq<Stat>, file: Label, line: int): (i: nat)
    ensures i <= |stats|
    ensures i < |stats| ==> stats[i].file == file && stats[i].line == line
    ensures forall j :: 0 <= j < i ==> stats[j].file != file || stats[j].line != line
  {
    if stats == [] then 0
    else if stats[0].file == file && stats[0].line == line then 0
    else 1 + Find(stats[1..], file, line)
  }

  function CurrOf(stats: seq<Stat>, file: Label, line: int): int {
    var i := Find(stats, file, line);
    if i < |stats| then stats[i].curr else 0
  }

  ghost predicate KeysUnique(stats: seq<Stat>) {
    forall i, j :: 0 <= i < j < |stats| ==> stats[i].file != stats[j].file || stats[i].line != stats[j].line
  }

  ghost predicate PeaksOK(stats: seq<Stat>) {
    forall i :: 0 <= i < |stats| ==> stats[i].curr <= stats[i].max
  }

  // What the record with this key should hold for the given allocations.
  ghost function Expected(level: int, file: Label, line: int, s: seq<Alloc>): nat {
    if line == MODULE then Total(FileBytes(file), s)
    else if level >= 2 && file.File? then Total(SiteBytes(file, line), s)
    else 0
  }

  /** Every record holds exactly the live bytes of its file, or of its source line. */
  ghost predicate Agree(stats: seq<Stat>, s: seq<Alloc>, level: int) {
    && KeysUnique(stats)
    && PeaksOK(stats)
    && (forall f, l :: CurrOf(stats, f, l) == Expected(level, f, l, s))
    && (forall i :: 0 <= i < |s| ==> Known(stats, s[i].file))
  }

  // mwStatGet(file, -1, 0) finds a module record.
  predicate Known(stats: seq<Stat>, file: Label) {
    Find(stats, file, MODULE) < |stats|
  }

  // mwStatGet(file, line, 1): make the record if it is missing.
  function WithRecord(stats: seq<Stat>, file: Label, line: int): seq<Stat> {
    if Find(stats, file, line) < |stats| then stats else [Stat(file, line, 0, 0, 0, 0)] + stats
  }

  function Charged(r: Stat, size: nat): Stat {
    var c := r.curr + size;
    r.(total := r.total + size, num := r.num + 1, curr := c, max := if c > r.max then c else r.max)
  }

  function Discharged(r: Stat, size: nat): Stat {
    r.(curr := r.curr - size)
  }

  lemma WithRecordHas(stats: seq<Stat>, file: Label, line: int)
    ensures var r := WithRecord(stats, file, line);
            && Find(r, file, line) < |r|
            && (forall f, l :: CurrOf(r, f, l) == CurrOf(stats, f, l))
            && (forall f :: Known(stats, f) ==> Known(r, f))
  {
    var r := WithRecord(stats, file, line);
    if r != stats {
      assert r[1..] == stats;
    }
  }

  // Replacing the first record with a key by another with the same key moves no record.
  lemma {:induction false} FindAfterUpdate(stats: seq<Stat>, k: nat, x: Stat, f: Label, l: int)
    requires k < |stats| && x.file == stats[k].file && x.line == stats[k].line
    ensures Find(stats[k := x], f, l) == Find(stats, f, l)
  {
    if k == 0 {
      assert stats[k := x][1..] == stats[1..];
    } else {
      assert stats[k := x][1..] == stats[1..][k - 1 := x];
      FindAfterUpdate(stats[1..], k - 1, x, f, l);
    }
  }

  lemma CurrAfterUpdate(stats: seq<Stat>, file: Label, line: int, x: Stat, f: Label, l: int)
    requires Find(stats, file, line) < |stats|
    requires x.file == file && x.line == line
    ensures CurrOf(stats[Find(stats, file, line) := x], f, l) ==
            if f == file && l == line then x.curr else CurrOf(stats, f, l)
  {
    FindAfterUpdate(stats, Find(stats, file, line), x, f, l);
  }

  function Charge(stats: seq<Stat>, file: Label, line: int, size: nat): seq<Stat> {
    var r := WithRecord(stats, file, line);
    WithRecordHas(stats, file, line);
    var i := Find(r, file, line);
    r[i := Charged(r[i], size)]
  }

  function Discharge(stats: seq<Stat>, file: Label, line: int, size: nat): seq<Stat> {
    var r := WithRecord(stats, file, line);
    WithRecordHas(stats, file, line);
    var i := Find(r, file, line);
    r[i := Discharged(r[i], size)]
  }

  lemma ChargeEffect(stats: seq<Stat>, file: Label, line: int, size: nat)
    requires KeysUnique(stats) && PeaksOK(stats)
    ensures var r := Charge(stats, file, line, size);
            && KeysUnique(r) && PeaksOK(r)
            && (forall f, l :: CurrOf(r, f, l) == CurrOf(stats, f, l) + if f == file && l == line then size else 0)
            && (forall f :: Known(stats, f) ==> Known(r, f))
            && Find(r, file, line) < |r|
  {
    var w := WithRecord(stats, file, line);
    WithRecordHas(stats, file, line);
    var i := Find(w, file, line);
    var r := Charge(stats, file, line, size);
    forall f, l
      ensures CurrOf(r, f, l) == CurrOf(stats, f, l) + if f == file && l == line then size else 0
    {
      CurrAfterUpdate(w, file, line, Charged(w[i], size), f, l);
    }
    forall f, l ensures Find(r, f, l) == Find(w, f, l) {
      FindAfterUpdate(w, i, Charged(w[i], size), f, l);
    }
  }

  lemma DischargeEffect(stats: seq<Stat>, file: Label, line: int, size: nat)
    requires KeysUnique(stats) && PeaksOK(stats)
    ensures var r := Discharge(stats, file, line, size);
            && KeysUnique(r) && PeaksOK(r)
            && (forall f, l :: CurrOf(r, f, l) == CurrOf(stats, f, l) - if f == file && l == line then size else 0)
            && (forall f :: Known(stats, f) ==> Known(r, f))
            && Find(r, file, line) < |r|
  {
    var w := WithRecord(stats, file, line);
    WithRecordHas(stats, file, line);
    var i := Find(w, file, line);
    var r := Discharge(stats, file, line, size);
    forall f, l
      ensures CurrOf(r, f, l) == CurrOf(stats, f, l) - if f == file && l == line then size else 0
    {
      CurrAfterUpdate(w, file, line, Discharged(w[i], size), f, l);
    }
    forall f, l ensures Find(r, f, l) == Find(w, f, l) {
      FindAfterUpdate(w, i, Discharged(w[i], size), f, l);
    }
  }

  predicate HasLineRecord(level: int, file: Label, line: int) {
    level > 1 && line != MODULE && file.File?
  }

  // mwStatAlloc and mwStatFree; the caller tests the level first.
  function AfterAlloc(stats: seq<Stat>, level: int, size: nat, file: Label, line: int): seq<Stat> {
    if level == 0 then stats else
    var s1 := Charge(stats, file, MODULE, size);
    if HasLineRecord(level, file, line) then Charge(s1, file, line, size) else s1
  }

  function AfterFree(stats: seq<Stat>, level: int, size: nat, file: Label, line: int): seq<Stat> {
    if level == 0 then stats else
    var s1 := Discharge(stats, file, MODULE, size);
    if HasLineRecord(level, file, line) then Discharge(s1, file, line, size) else s1
  }

  // The keys whose records an operation on one allocation site touches.
  predicate Touches(level: int, file: Label, line: int, f: Label, l: int) {
    f == file && (l == MODULE || (HasLineRecord(level, file, line) && l == line))
  }

  lemma AfterAllocEffect(stats: seq<Stat>, level: int, size: nat, file: Label, line: int)
    requires KeysUnique(stats) && PeaksOK(stats) && level != 0
    ensures var r := AfterAlloc(stats, level, size, file, line);
            && KeysUnique(r) && PeaksOK(r) && Known(r, file)
            && (forall f, l :: CurrOf(r, f, l) == CurrOf(stats, f, l)
                  + if Touches(level, file, line, f, l) then size else 0)
            && (forall f :: Known(stats, f) ==> Known(r, f))
  {
    var s1 := Charge(stats, file, MODULE, size);
    ChargeEffect(stats, file, MODULE, size);
    if HasLineRecord(level, file, line) {
      ChargeEffect(s1, file, line, size);
    }
  }

  lemma AfterFreeEffect(stats: seq<Stat>, level: int, size: nat, file: Label, line: int)
    requires KeysUnique(stats) && PeaksOK(stats) && level != 0
    ensures var r := AfterFree(stats, level, size, file, line);
            && KeysUnique(r) && PeaksOK(r) && Known(r, file)
            && (forall f, l :: CurrOf(r, f, l) == CurrOf(stats, f, l)
                  - if Touches(level, file, line, f, l) then size else 0)
            && (forall f :: Known(stats, f) ==> Known(r, f))
  {
    var s1 := Discharge(stats, file, MODULE, size);
    DischargeEffect(stats, file, MODULE, size);
    if HasLineRecord(level, file, line) {
      DischargeEffect(s1, file, line, size);
    }
  }

  // Adding or dropping a live allocation moves exactly the expectations it touches.
  lemma ExpectedMoves(level: int, s: seq<Alloc>, t: seq<Alloc>, a: Alloc, f: Label, l: int)
    requires !a.nml
    requires Total(FileBytes(f), t) == Total(FileBytes(f), s) + Weigh(FileBytes(f), a)
    requires Total(SiteBytes(f, l), t) == Total(SiteBytes(f, l), s) + Weigh(SiteBytes(f, l), a)
    ensures Expected(level, f, l, t) ==
            Expected(level, f, l, s) + if Touches(level, a.file, a.line, f, l) then a.size else 0
  {
  }

  lemma AllocKeepsAgreement(stats: seq<Stat>, s: seq<Alloc>, level: int, a: Alloc)
    requires Agree(stats, s, level) && level != 0 && !a.nml
    ensures Agree(AfterAlloc(stats, level, a.size, a.file, a.line), [a] + s, level)
  {
    var r := AfterAlloc(stats, level, a.size, a.file, a.line);
    AfterAllocEffect(stats, level, a.size, a.file, a.line);
    forall f, l ensures CurrOf(r, f, l) == Expected(level, f, l, [a] + s) {
      TotalOfConcat(FileBytes(f), [a], s);
      TotalOfConcat(SiteBytes(f, l), [a], s);
      ExpectedMoves(level, s, [a] + s, a, f, l);
    }
  }

  // t is s without the live allocation a: removed, or kept only as no-man's-land.
  lemma FreeKeepsAgreement(stats: seq<Stat>, s: seq<Alloc>, t: seq<Alloc>, level: int, a: Alloc)
    requires Agree(stats, s, level) && level != 0 && !a.nml
    requires forall w: Weight :: !w.NmlCount? && !w.NmlBytes? && !w.AllBytes? ==>
               Total(w, t) == Total(w, s) - Weigh(w, a)
    requires forall i :: 0 <= i < |t| ==> exists j :: 0 <= j < |s| && s[j].file == t[i].file
    ensures Agree(AfterFree(stats, level, a.size, a.file, a.line), t, level)
  {
    var r := AfterFree(stats, level, a.size, a.file, a.line);
    AfterFreeEffect(stats, level, a.size, a.file, a.line);
    forall f, l ensures CurrOf(r, f, l) == Expected(level, f, l, t) {
      ExpectedMoves(level, t, s, a, f, l);
    }
    forall i | 0 <= i < |t| ensures Known(r, t[i].file) {
      var j :| 0 <= j < |s| && s[j].file == t[i].file;
      assert Known(stats, s[j].file);
    }
  }

  // ---- what one call does to the records ----

  // The record with a key, all zero if there is none.
  function Record(stats: seq<Stat>, f: Label, l: int): Stat {
    var i := Find(stats, f, l);
    if i < |stats| then stats[i] else Stat(f, l, 0, 0, 0, 0)
  }

  lemma RecordAfterUpdate(stats: seq<Stat>, k: nat, x: Stat, f: Label, l: int)
    requires k < |stats| && Find(stats, stats[k].file, stats[k].line) == k
    requires x.file == stats[k].file && x.line == stats[k].line
    ensures Record(stats[k := x], f, l) == if f == x.file && l == x.line then x else Record(stats, f, l)
  {
    FindAfterUpdate(stats, k, x, f, l);
  }

  lemma RecordOfWith(stats: seq<Stat>, file: Label, line: int, f: Label, l: int)
    ensures Record(WithRecord(stats, file, line), f, l) == Record(stats, f, l)
  {
    var r := WithRecord(stats, file, line);
    if r != stats { assert r[1..] == stats; }
  }

  /** An allocation adds its size to the total and the current bytes of the module record,
      and one to its count, and raises its maximum if need be; at line level it does the
      same to the record of its line. Every other record stays. */
  lemma RecordsAfterAlloc(stats: seq<Stat>, level: int, size: nat, file: Label, line: int, f: Label, l: int)
    requires level >= 1
    ensures var old' := Record(stats, f, l);
            var now := Record(AfterAlloc(stats, level, size, file, line), f, l);
            if f == file && (l == -1 || (level >= 2 && file != NoFile && l == line)) then
              && now.total == old'.total + size && now.num == old'.num + 1 && now.curr == old'.curr + size
              && now.max == if old'.max < old'.curr + size then old'.curr + size else old'.max
            else now == old'
  {
    ChargedRecord(stats, file, MODULE, size, f, l);
    ChargedRecord(Charge(stats, file, MODULE, size), file, line, size, f, l);
  }

  lemma ChargedRecord(stats: seq<Stat>, file: Label, line: int, size: nat, f: Label, l: int)
    ensures Record(Charge(stats, file, line, size), f, l) ==
            if f == file && l == line then Charged(Record(stats, f, l), size) else Record(stats, f, l)
  {
    WithRecordHas(stats, file, line);
    RecordOfWith(stats, file, line, f, l);
    var r := WithRecord(stats, file, line);
    var i := Find(r, file, line);
    RecordAfterUpdate(r, i, Charged(r[i], size), f, l);
  }

  /** A release takes its size off the current bytes of the same records and changes
      nothing else. */
  lemma RecordsAfterFree(stats: seq<Stat>, level: int, size: nat, file: Label, line: int, f: Label, l: int)
    requires level >= 1
    ensures var old' := Record(stats, f, l);
            Record(AfterFree(stats, level, size, file, line), f, l) ==
            if f == file && (l == -1 || (level >= 2 && file != NoFile && l == line))
            then old'.(curr := old'.curr - size) else old'
  {
    DischargedRecord(stats, file, MODULE, size, f, l);
    DischargedRecord(Discharge(stats, file, MODULE, size), file, line, size, f, l);
  }

  lemma DischargedRecord(stats: seq<Stat>, file: Label, line: int, size: nat, f: Label, l: int)
    ensures Record(Discharge(stats, file, line, size), f, l) ==
            if f == file && l == line then Discharged(Record(stats, f, l), size) else Record(stats, f, l)
  {
    WithRecordHas(stats, file, line);
    RecordOfWith(stats, file, line, f, l);
    var r := WithRecord(stats, file, line);
    var i := Find(r, file, line);
    RecordAfterUpdate(r, i, Discharged(r[i], size), f, l);
  }

  // What the module records say of all allocations ever made: bytes and number.
  function TotalBytes(stats: seq<Stat>): int {
    if stats == [] then 0 else (if stats[0].line == -1 then stats[0].total else 0) + TotalBytes(stats[1..])
  }

  function TotalNumber(stats: seq<Stat>): int {
    if stats == [] then 0 else (if stats[0].line == -1 then stats[0].num else 0) + TotalNumber(stats[1..])
  }

  ghost predicate Tallied(stats: seq<Stat>, tot: int, num: int) {
    TotalBytes(stats) == tot && TotalNumber(stats) == num
  }

  lemma {:induction false} TallyAfterUpdate(stats: seq<Stat>, k: nat, x: Stat)
    requires k < |stats| && x.line == stats[k].line
    ensures var counts := x.line == -1;
            && TotalBytes(stats[k := x]) == TotalBytes(stats) + (if counts then x.total - stats[k].total else 0)
            && TotalNumber(stats[k := x]) == TotalNumber(stats) + if counts then x.num - stats[k].num else 0
  {
    if k == 0 {
      assert stats[k := x][1..] == stats[1..];
    } else {
      assert stats[k := x][1..] == stats[1..][k - 1 := x];
      TallyAfterUpdate(stats[1..], k - 1, x);
    }
  }

  lemma TallyOfWith(stats: seq<Stat>, file: Label, line: int)
    ensures TotalBytes(WithRecord(stats, file, line)) == TotalBytes(stats)
    ensures TotalNumber(WithRecord(stats, file, line)) == TotalNumber(stats)
  {
    var r := WithRecord(stats, file, line);
    if r != stats { assert r[1..] == stats; }
  }

  lemma TallyOfCharge(stats: seq<Stat>, file: Label, line: int, size: nat)
    ensures var r := Charge(stats, file, line, size);
            && TotalBytes(r) == TotalBytes(stats) + (if line == -1 then size else 0)
            && TotalNumber(r) == TotalNumber(stats) + if line == -1 then 1 else 0
    ensures var r := Discharge(stats, file, line, size);
            TotalBytes(r) == TotalBytes(stats) && TotalNumber(r) == TotalNumber(stats)
  {
    WithRecordHas(stats, file, line);
    TallyOfWith(stats, file, line);
    var r := WithRecord(stats, file, line);
    var i := Find(r, file, line);
    TallyAfterUpdate(r, i, Charged(r[i], size));
    TallyAfterUpdate(r, i, Discharged(r[i], size));
  }

  /** The tally of all allocations ever made goes up with an allocation, and only then. */
  lemma TallyMoves(stats: seq<Stat>, level: int, size: nat, file: Label, line: int, tot: int, num: int)
    requires level >= 1 && Tallied(stats, tot, num)
    ensures Tallied(AfterAlloc(stats, level, size, file, line), tot + size, num + 1)
    ensures Tallied(AfterFree(stats, level, size, file, line), tot, num)
  {
    hide Charge, Discharge, TotalBytes, TotalNumber;
    TallyOfCharge(stats, file, MODULE, size);
    TallyOfCharge(Charge(stats, file, MODULE, size), file, line, size);
    TallyOfCharge(Discharge(stats, file, MODULE, size), file, line, size);
  }

  // ---- what the report adds up ----

  function ModuleSum(stats: seq<Stat>): int {
    if stats == [] then 0 else (if stats[0].line == MODULE then stats[0].curr else 0) + ModuleSum(stats[1..])
  }

  function LineSum(stats: seq<Stat>, file: Label): int {
    if stats == [] then 0
    else (if stats[0].line != MODULE && stats[0].file == file then stats[0].curr else 0) + LineSum(stats[1..], file)
  }

  // The weight a record stands for, when it is selected by the sum over `only`
  // (all module records, or the line records of one file).
  datatype Only = Modules | LinesOf(file: Label)

  predicate Selected(o: Only, r: Stat) {
    match o
    case Modules => r.line == MODULE
    case LinesOf(f) => r.line != MODULE && r.file == f
  }

  function RecordWeight(r: Stat): Weight {
    if r.line == MODULE then FileBytes(r.file) else SiteBytes(r.file, r.line)
  }

  ghost function WeightSum(o: Only, stats: seq<Stat>, s: seq<Alloc>): nat {
    if stats == [] then 0
    else (if Selected(o, stats[0]) then Total(RecordWeight(stats[0]), s) else 0) + WeightSum(o, stats[1..], s)
  }

  ghost function WeightOfOne(o: Only, stats: seq<Stat>, a: Alloc): nat {
    if stats == [] then 0
    else (if Selected(o, stats[0]) then Weigh(RecordWeight(stats[0]), a) else 0) + WeightOfOne(o, stats[1..], a)
  }

  lemma {:induction false} WeightSumSplits(o: Only, stats: seq<Stat>, s: seq<Alloc>)
    requires s != []
    ensures WeightSum(o, stats, s) == WeightOfOne(o, stats, s[0]) + WeightSum(o, stats, s[1..])
  {
    if stats != [] { WeightSumSplits(o, stats[1..], s); }
  }

  function KeyLine(o: Only, a: Alloc): int {
    if o.Modules? then MODULE else a.line
  }

  // With unique keys, an allocation is counted by exactly the record of its own key.
  lemma {:induction false} CountedOnce(o: Only, stats: seq<Stat>, a: Alloc)
    requires KeysUnique(stats) && !a.nml
    requires o.LinesOf? ==> a.file == o.file && a.line != MODULE
    ensures WeightOfOne(o, stats, a) == if Find(stats, a.file, KeyLine(o, a)) < |stats| then a.size else 0
  {
    if stats != [] {
      CountedOnce(o, stats[1..], a);
      if stats[0].file == a.file && stats[0].line == KeyLine(o, a) {
        assert forall j :: 0 <= j < |stats[1..]| ==> stats[1..][j] == stats[j + 1];
      }
    }
  }

  lemma {:induction false} NotCounted(o: Only, stats: seq<Stat>, a: Alloc)
    requires a.nml || (o.LinesOf? && (a.file != o.file || a.line == MODULE))
    ensures WeightOfOne(o, stats, a) == 0
  {
    if stats != [] { NotCounted(o, stats[1..], a); }
  }

  function OnlyWeight(o: Only): Weight {
    match o
    case Modules => LiveBytes
    case LinesOf(f) => LinedBytes(f)
  }

  ghost predicate Recorded(o: Only, stats: seq<Stat>, a: Alloc) {
    Weigh(OnlyWeight(o), a) > 0 ==> Find(stats, a.file, KeyLine(o, a)) < |stats|
  }

  lemma {:induction false} EmptyWeightSum(o: Only, stats: seq<Stat>)
    ensures WeightSum(o, stats, []) == 0
  {
    if stats != [] { EmptyWeightSum(o, stats[1..]); }
  }

  lemma {:induction false} WeightSumIsTotal(o: Only, stats: seq<Stat>, s: seq<Alloc>)
    requires KeysUnique(stats)
    requires forall i :: 0 <= i < |s| ==> Recorded(o, stats, s[i])
    ensures WeightSum(o, stats, s) == Total(OnlyWeight(o), s)
  {
    if s == [] {
      EmptyWeightSum(o, stats);
    } else {
      WeightSumSplits(o, stats, s);
      WeightSumIsTotal(o, stats, s[1..]);
      assert Recorded(o, stats, s[0]);
      if s[0].nml || (o.LinesOf? && (s[0].file != o.file || s[0].line == MODULE)) {
        NotCounted(o, stats, s[0]);
      } else {
        CountedOnce(o, stats, s[0]);
      }
    }
  }

  lemma {:induction false} SumsOfRecords(stats: seq<Stat>, s: seq<Alloc>, f: Label)
    requires forall i :: 0 <= i < |stats| && (stats[i].line == MODULE || stats[i].file == f) ==>
               stats[i].curr == Total(RecordWeight(stats[i]), s)
    ensures ModuleSum(stats) == WeightSum(Modules, stats, s)
    ensures LineSum(stats, f) == WeightSum(LinesOf(f), stats, s)
  {
    if stats != [] {
      assert forall i :: 0 <= i < |stats[1..]| ==> stats[1..][i] == stats[i + 1];
      SumsOfRecords(stats[1..], s, f);
    }
  }

  lemma {:induction false} MemberWithinTotal(w: Weight, s: seq<Alloc>, i: nat)
    requires i < |s|
    ensures Weigh(w, s[i]) <= Total(w, s)
  {
    if i > 0 { MemberWithinTotal(w, s[1..], i - 1); }
  }

  lemma UniqueKeyIsFound(stats: seq<Stat>, i: nat)
    requires KeysUnique(stats) && i < |stats|
    ensures Find(stats, stats[i].file, stats[i].line) == i
  {
  }

  /** The module records add up to all live bytes, and at line level the line
      records of a file add up to its module record less the bytes that were
      allocated without a line number. */
  lemma ReportAddsUp(stats: seq<Stat>, s: seq<Alloc>, level: int, f: Label)
    requires Agree(stats, s, level)
    ensures ModuleSum(stats) == Total(LiveBytes, s)
    ensures level >= 2 && f.File? ==>
              LineSum(stats, f) == CurrOf(stats, f, MODULE) - Total(SiteBytes(f, MODULE), s)
  {
    forall i | 0 <= i < |s| ensures Recorded(Modules, stats, s[i]) {
      MemberWithinTotal(FileBytes(s[i].file), s, i);
      assert CurrOf(stats, s[i].file, MODULE) == Expected(level, s[i].file, MODULE, s);
    }
    WeightSumIsTotal(Modules, stats, s);
    var g := if level >= 2 && f.File? then f else NoFile;
    forall i | 0 <= i < |stats| && (stats[i].line == MODULE || (stats[i].file == g && g.File?))
      ensures stats[i].curr == Total(RecordWeight(stats[i]), s)
    {
      UniqueKeyIsFound(stats, i);
      assert CurrOf(stats, stats[i].file, stats[i].line) == Expected(level, stats[i].file, stats[i].line, s);
    }
    if level >= 2 && f.File? {
      SumsOfRecords(stats, s, f);
      LinesAddUp(stats, s, level, f);
      FileSplitsByLine(s, f);
      assert CurrOf(stats, f, MODULE) == Expected(level, f, MODULE, s);
    } else {
      ModuleSumOnly(stats, s);
    }
  }

  lemma LinesAddUp(stats: seq<Stat>, s: seq<Alloc>, level: int, f: Label)
    requires Agree(stats, s, level) && level >= 2 && f.File?
    ensures WeightSum(LinesOf(f), stats, s) == Total(LinedBytes(f), s)
  {
    forall i | 0 <= i < |s| ensures Recorded(LinesOf(f), stats, s[i]) {
      MemberWithinTotal(SiteBytes(f, s[i].line), s, i);
      assert CurrOf(stats, f, s[i].line) == Expected(level, f, s[i].line, s);
    }
    WeightSumIsTotal(LinesOf(f), stats, s);
  }

  lemma {:induction false} ModuleSumOnly(stats: seq<Stat>, s: seq<Alloc>)
    requires forall i :: 0 <= i < |stats| && stats[i].line == MODULE ==>
               stats[i].curr == Total(RecordWeight(stats[i]), s)
    ensures ModuleSum(stats) == WeightSum(Modules, stats, s)
  {
    if stats != [] {
      assert forall i :: 0 <= i < |stats[1..]| ==> stats[1..][i] == stats[i + 1];
      ModuleSumOnly(stats[1..], s);
    }
  }

  lemma {:induction false} FileSplitsByLine(s: seq<Alloc>, f: Label)
    ensures Total(FileBytes(f), s) == Total(LinedBytes(f), s) + Total(SiteBytes(f, MODULE), s)
  {
    if s != [] { FileSplitsByLine(s[1..], f); }
  }
}
