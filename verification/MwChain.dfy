/**
 The doubly linked chain of control blocks kept by the allocation tracker
 (src/memwatch.c). Memory is a map from addresses to control blocks; an address
 is safe to touch exactly when it is a key of that map.
 */
module MwChain {
  import opened Wrappers

  type Addr = int

  const NULL: Addr := 0

  // A `const char *` naming a source file: possibly NULL, compared by content.
  datatype Label = NoFile | File(name: string)

  // struct mwData_, with the user's bytes that follow it in memory.
  datatype Block = Block(prev: Addr, next: Addr, file: Label, count: int, check: int,
                         size: nat, line: int, nml: bool, data: seq<Byte>)

  type Memory = map<Addr, Block>

  // What the tracker records of one allocation, independently of how blocks are linked.
  datatype Alloc = Alloc(addr: Addr, file: Label, count: int, size: nat, line: int, nml: bool, data: seq<Byte>)

  function Info(a: Addr, b: Block): Alloc {
    Alloc(a, b.file, b.count, b.size, b.line, b.nml, b.data)
  }

  const WORD: int := 0x1_0000_0000_0000_0000

  function Xor(a: nat, b: nat): nat
    decreases a + b
  {
    if a == 0 && b == 0 then 0
    else (if a % 2 != b % 2 then 1 else 0) + 2 * Xor(a / 2, b / 2)
  }

  // CHKVAL: the exclusive or of three 64-bit words and a constant.
  function ChkVal(count: int, size: nat, line: int): int {
    Xor(Xor(Xor(0xFE0180, count % WORD), size % WORD), line % WORD)
  }

  function Bit(a: nat, i: nat): nat {
    if i == 0 then a % 2 else Bit(a / 2, i - 1)
  }

  lemma XorHalves(a: nat, b: nat)
    ensures Xor(a, b) % 2 == (a % 2 + b % 2) % 2
    ensures Xor(a, b) / 2 == Xor(a / 2, b / 2)
  {
    XorStep(a, b);
    hide Xor;
    LowBit(if a % 2 != b % 2 then 1 else 0, Xor(a / 2, b / 2));
  }

  lemma XorStep(a: nat, b: nat)
    ensures Xor(a, b) == (if a % 2 != b % 2 then 1 else 0) + 2 * Xor(a / 2, b / 2)
  {
  }

  lemma LowBit(p: nat, x: nat)
    requires p < 2
    ensures (p + 2 * x) % 2 == p && (p + 2 * x) / 2 == x
  {
  }

  lemma {:induction false} XorIsBitwise(a: nat, b: nat, i: nat)
    ensures Bit(Xor(a, b), i) == (Bit(a, i) + Bit(b, i)) % 2
    decreases i
  {
    hide Xor;
    XorHalves(a, b);
    if i > 0 { XorIsBitwise(a / 2, b / 2, i - 1); }
  }

  lemma {:induction false} XorIsInjective(a: nat, a': nat, b: nat)
    requires Xor(a, b) == Xor(a', b)
    ensures a == a'
    decreases a + a' + b
  {
    if a != 0 || a' != 0 || b != 0 { XorIsInjective(a / 2, a' / 2, b / 2); }
  }

  lemma {:induction false} XorIsSymmetric(a: nat, b: nat)
    ensures Xor(a, b) == Xor(b, a)
    decreases a + b
  {
    if a != 0 || b != 0 { XorIsSymmetric(a / 2, b / 2); }
  }

  /** The checksum is the bitwise sum of its three words and the constant. */
  lemma ChecksumIsBitwise(count: int, size: nat, line: int, i: nat)
    ensures Bit(ChkVal(count, size, line), i) ==
            (Bit(0xFE0180, i) + Bit(count % 0x1_0000_0000_0000_0000, i)
             + Bit(size % 0x1_0000_0000_0000_0000, i) + Bit(line % 0x1_0000_0000_0000_0000, i)) % 2
  {
    hide Xor, Bit;
    var c, s, l := count % WORD, size % WORD, line % WORD;
    var x := Xor(0xFE0180, c);
    XorIsBitwise(0xFE0180, c, i);
    XorIsBitwise(x, s, i);
    XorIsBitwise(Xor(x, s), l, i);
    Parity(Bit(0xFE0180, i), Bit(c, i), Bit(s, i), Bit(l, i));
  }

  lemma Parity(a: nat, b: nat, c: nat, d: nat)
    ensures (((a + b) % 2 + c) % 2 + d) % 2 == (a + b + c + d) % 2
  {
  }

  /** Damage to any one of its words changes the checksum. */
  lemma ChecksumDetects(count: int, size: nat, line: int, count': int, size': nat, line': int)
    ensures count % WORD != count' % WORD ==> ChkVal(count', size, line) != ChkVal(count, size, line)
    ensures size % WORD != size' % WORD ==> ChkVal(count, size', line) != ChkVal(count, size, line)
    ensures line % WORD != line' % WORD ==> ChkVal(count, size, line') != ChkVal(count, size, line)
  {
    hide Xor;
    var c, c', s, l := count % WORD, count' % WORD, size % WORD, line % WORD;
    XorIsSymmetric(0xFE0180, c);
    XorIsSymmetric(0xFE0180, c');
    if ChkVal(count', size, line) == ChkVal(count, size, line) {
      XorIsInjective(Xor(Xor(0xFE0180, c'), s), Xor(Xor(0xFE0180, c), s), l);
      XorIsInjective(Xor(0xFE0180, c'), Xor(0xFE0180, c), s);
      XorIsInjective(c', c, 0xFE0180);
    }
    var x := Xor(0xFE0180, c);
    XorIsSymmetric(x, s);
    XorIsSymmetric(x, size' % WORD);
    if ChkVal(count, size', line) == ChkVal(count, size, line) {
      XorIsInjective(Xor(x, size' % WORD), Xor(x, s), l);
      XorIsInjective(size' % WORD, s, x);
    }
    var y := Xor(x, s);
    XorIsSymmetric(y, l);
    XorIsSymmetric(y, line' % WORD);
    if ChkVal(count, size, line') == ChkVal(count, size, line) {
      XorIsInjective(line' % WORD, l, y);
    }
  }

  predicate Safe(m: Memory, a: Addr) {
    a != NULL && a in m
  }

  function At(c: seq<Addr>, i: int): Addr {
    if 0 <= i < |c| then c[i] else NULL
  }

  ghost predicate Distinct(c: seq<Addr>) {
    forall i, j :: 0 <= i < j < |c| ==> c[i] != c[j]
  }

  // Block i of the chain points to its two neighbours, NULL standing for "none".
  ghost predicate LinkOK(m: Memory, c: seq<Addr>, i: int)
    requires 0 <= i < |c|
  {
    c[i] in m && m[c[i]].prev == At(c, i - 1) && m[c[i]].next == At(c, i + 1)
  }

  // The blocks c, in this order, form the doubly linked list from head to tail.
  ghost predicate Chained(m: Memory, head: Addr, tail: Addr, c: seq<Addr>) {
    && Distinct(c)
    && NULL !in c
    && head == At(c, 0)
    && tail == At(c, |c| - 1)
    && forall i :: 0 <= i < |c| ==> LinkOK(m, c, i)
  }

  ghost function Allocs(m: Memory, c: seq<Addr>): (s: seq<Alloc>)
    requires forall a :: a in c ==> a in m
    ensures |s| == |c|
    ensures forall i :: 0 <= i < |c| ==> s[i] == Info(c[i], m[c[i]])
  {
    seq(|c|, i requires 0 <= i < |c| => Info(c[i], m[c[i]]))
  }

  function RemoveAt<T>(s: seq<T>, k: nat): (r: seq<T>)
    requires k < |s|
    ensures |r| == |s| - 1
    ensures forall i :: 0 <= i < k ==> r[i] == s[i]
    ensures forall i :: k <= i < |r| ==> r[i] == s[i + 1]
  {
    s[..k] + s[k + 1..]
  }

  lemma ChainedInMemory(m: Memory, head: Addr, tail: Addr, c: seq<Addr>)
    requires Chained(m, head, tail, c)
    ensures forall a :: a in c ==> a in m
  {
    forall a | a in c ensures a in m {
      var i :| 0 <= i < |c| && c[i] == a;
      assert LinkOK(m, c, i);
    }
  }

  // A graph holds at most one chain from its head.
  lemma {:induction false} ChainUnique(m: Memory, head: Addr, tail: Addr, tail': Addr, c: seq<Addr>, d: seq<Addr>)
    requires Chained(m, head, tail, c) && Chained(m, head, tail', d)
    ensures c == d
  {
    forall j | 0 <= j < |c| ensures c[j] != NULL { assert c[j] in c; }
    forall j | 0 <= j < |d| ensures d[j] != NULL { assert d[j] in d; }
    var i := 0;
    while i < |c| && i < |d|
      invariant 0 <= i <= |c| && i <= |d|
      invariant c[..i] == d[..i]
      invariant At(c, i) == At(d, i)
    {
      assert LinkOK(m, c, i) && LinkOK(m, d, i);
      i := i + 1;
    }
    assert c == c[..i] && d == d[..i];
  }

  lemma {:induction false} DistinctFits(c: seq<Addr>, keys: set<Addr>)
    requires Distinct(c)
    requires forall a :: a in c ==> a in keys
    ensures |c| <= |keys|
  {
    if |c| > 0 {
      var n := |c| - 1;
      assert c[n] in c && c[n] in keys;
      forall a | a in c[..n] ensures a in keys - {c[n]} {
        assert a in c;
      }
      DistinctFits(c[..n], keys - {c[n]});
    }
  }

  // Linking a new block in front of the chain.
  function Prepended(m: Memory, head: Addr, a: Addr, b: Block): Memory {
    (if head in m then m[head := m[head].(prev := a)] else m)[a := b]
  }

  lemma PrependKeepsChain(m: Memory, head: Addr, tail: Addr, c: seq<Addr>, a: Addr, b: Block)
    requires Chained(m, head, tail, c)
    requires a != NULL && a !in m && NULL !in m
    requires b.prev == NULL && b.next == head
    ensures var m' := Prepended(m, head, a, b);
            && Chained(m', a, if tail == NULL then a else tail, [a] + c)
            && (forall x :: x in [a] + c ==> x in m')
            && (forall x :: x in c ==> x in m)
            && Allocs(m', [a] + c) == [Info(a, b)] + Allocs(m, c)
  {
    var m' := Prepended(m, head, a, b);
    var d := [a] + c;
    ChainedInMemory(m, head, tail, c);
    assert a !in c;
    forall i | 0 <= i < |d| ensures LinkOK(m', d, i) {
      if i > 0 {
        assert LinkOK(m, c, i - 1);
        assert d[i] == c[i - 1];
        assert i > 1 ==> c[i - 1] != c[0];
      }
    }
    assert NULL !in d;
    assert Distinct(d);
    if |c| > 0 { assert c[|c| - 1] in c; }
    assert Chained(m', a, if tail == NULL then a else tail, d);
    ChainedInMemory(m', a, if tail == NULL then a else tail, d);
  }

  // mwUnlink, on values: what the four assignments of the source leave behind.
  function BridgePrev(m: Memory, mw: Addr): Memory
    requires mw in m
  {
    var p := m[mw].prev;
    if p in m && m[p].next == mw then m[p := m[p].(next := m[mw].next)] else m
  }

  function BridgeNext(m: Memory, mw: Addr): Memory
    requires mw in m
  {
    var n := m[mw].next;
    if n in m && m[n].prev == mw then m[n := m[n].(prev := m[mw].prev)] else m
  }

  function Unlinked(m: Memory, mw: Addr): Memory
    requires mw in m
  {
    BridgeNext(BridgePrev(m, mw), mw) - {mw}
  }

  lemma UnlinkedKeys(m: Memory, mw: Addr)
    requires mw in m && NULL !in m
    ensures Unlinked(m, mw).Keys == m.Keys - {mw}
  {
  }

  lemma UnlinkedBlocks(m: Memory, mw: Addr)
    requires mw in m && NULL !in m
    ensures forall a :: a in m && a != mw ==>
              a in Unlinked(m, mw)
              && Unlinked(m, mw)[a] == m[a].(prev := Unlinked(m, mw)[a].prev, next := Unlinked(m, mw)[a].next)
  {
  }

  lemma RemoveKeepsDistinct(c: seq<Addr>, k: nat)
    requires Distinct(c) && k < |c|
    ensures Distinct(RemoveAt(c, k))
    ensures forall x :: x in RemoveAt(c, k) <==> x in c && x != c[k]
  {
    var d := RemoveAt(c, k);
    forall x | x in c && x != c[k] ensures x in d {
      var j :| 0 <= j < |c| && c[j] == x;
      assert d[if j < k then j else j - 1] == x;
    }
  }

  lemma UnlinkKeepsChain(m: Memory, head: Addr, tail: Addr, c: seq<Addr>, k: nat)
    requires Chained(m, head, tail, c) && k < |c| && NULL !in m
    requires c[k] in m
    ensures var head' := if m[c[k]].prev == NULL then m[c[k]].next else head;
            var tail' := if m[c[k]].next == NULL then m[c[k]].prev else tail;
            Chained(Unlinked(m, c[k]), head', tail', RemoveAt(c, k))
  {
    var m' := Unlinked(m, c[k]);
    var d := RemoveAt(c, k);
    RemoveKeepsDistinct(c, k);
    forall i | 0 <= i < |d| ensures LinkOK(m', d, i) {
      var j := if i < k then i else i + 1;
      UnlinkNeighbours(m, c, k, j);
    }
    assert LinkOK(m, c, k);
    if k > 0 { assert c[k - 1] in c; }
    if k + 1 < |c| { assert c[k + 1] in c; }
  }

  lemma UnlinkKeepsAllocs(m: Memory, head: Addr, tail: Addr, c: seq<Addr>, k: nat)
    requires Chained(m, head, tail, c) && k < |c| && NULL !in m
    requires forall a :: a in c ==> a in m
    requires forall a :: a in RemoveAt(c, k) ==> a in Unlinked(m, c[k])
    ensures Allocs(Unlinked(m, c[k]), RemoveAt(c, k)) == RemoveAt(Allocs(m, c), k)
  {
    var d := RemoveAt(c, k);
    var m' := Unlinked(m, c[k]);
    forall i | 0 <= i < |d| ensures Allocs(m', d)[i] == RemoveAt(Allocs(m, c), k)[i] {
      var j := if i < k then i else i + 1;
      assert d[i] in d;
      UnlinkNeighbours(m, c, k, j);
    }
  }

  // Where one block of the chain points after another has been unlinked.
  lemma UnlinkNeighbours(m: Memory, c: seq<Addr>, k: nat, j: nat)
    requires Distinct(c) && NULL !in c && NULL !in m
    requires k < |c| && j < |c| && j != k
    requires forall i :: 0 <= i < |c| ==> LinkOK(m, c, i)
    requires c[k] in m
    ensures var m' := BridgeNext(BridgePrev(m, c[k]), c[k]);
            && c[j] in m' && c[j] != c[k]
            && m'[c[j]] == m[c[j]].(prev := At(c, if j == k + 1 then k - 1 else j - 1),
                                    next := At(c, if j == k - 1 then k + 1 else j + 1))
  {
    assert LinkOK(m, c, k) && LinkOK(m, c, j);
    if k > 0 { assert LinkOK(m, c, k - 1); assert c[k - 1] in c; }
    if k + 1 < |c| { assert LinkOK(m, c, k + 1); assert c[k + 1] in c; }
    assert BridgePrev(m, c[k])[c[k]] == m[c[k]];
  }

  // Rewriting blocks without touching any link keeps the chain.
  lemma SameLinksKeepChain(m: Memory, m': Memory, head: Addr, tail: Addr, c: seq<Addr>)
    requires Chained(m, head, tail, c)
    requires m.Keys == m'.Keys
    requires forall a :: a in m ==> m'[a].prev == m[a].prev && m'[a].next == m[a].next
    ensures Chained(m', head, tail, c)
  {
    forall i | 0 <= i < |c| ensures LinkOK(m', c, i) {
      assert LinkOK(m, c, i);
    }
  }

  // The chain c is intact except for the links and checksum that block mw itself holds.
  ghost predicate DamagedAt(m: Memory, head: Addr, tail: Addr, c: seq<Addr>, mw: Addr) {
    && Distinct(c)
    && NULL !in c
    && head == At(c, 0)
    && tail == At(c, |c| - 1)
    && mw in c && mw in m
    && forall i :: 0 <= i < |c| && c[i] != mw ==> LinkOK(m, c, i)
  }

  // Damage to mw stays damage to mw alone while only mw is rewritten.
  lemma DamageSurvives(m: Memory, m': Memory, head: Addr, tail: Addr, c: seq<Addr>, mw: Addr)
    requires DamagedAt(m, head, tail, c, mw)
    requires m'.Keys == m.Keys && forall a :: a in m && a != mw ==> m'[a] == m[a]
    ensures DamagedAt(m', head, tail, c, mw)
  {
    forall i | 0 <= i < |c| && c[i] != mw ensures LinkOK(m', c, i) {
      assert LinkOK(m, c, i);
    }
  }

  function Relabelled(f: Label, known: bool): Label {
    if f.File? && !known then File("<relinked>") else f
  }

  function Healed(b: Block, prev: Addr, next: Addr, known: bool): Block {
    b.(prev := prev, next := next, file := Relabelled(b.file, known), check := ChkVal(b.count, b.size, b.line))
  }

  ghost function Position(c: seq<Addr>, mw: Addr): (k: nat)
    requires mw in c
    ensures k < |c| && c[k] == mw
  {
    var k :| 0 <= k < |c| && c[k] == mw;
    k
  }

  lemma HealingRestoresChain(m: Memory, head: Addr, tail: Addr, c: seq<Addr>, mw: Addr, b: Block)
    requires DamagedAt(m, head, tail, c, mw)
    requires b.prev == At(c, Position(c, mw) - 1) && b.next == At(c, Position(c, mw) + 1)
    ensures Chained(m[mw := b], head, tail, c)
  {
    var m' := m[mw := b];
    forall i | 0 <= i < |c| ensures LinkOK(m', c, i) {
      if c[i] != mw {
        assert LinkOK(m, c, i);
      } else {
        assert i == Position(c, mw);
      }
    }
  }

  // A walk from the head along `next`, each step confirmed by the `prev` it leads to.
  ghost predicate Path(m: Memory, head: Addr, v: seq<Addr>) {
    && |v| > 0 && v[0] == head
    && (forall i :: 0 <= i < |v| ==> Safe(m, v[i]))
    && forall i :: 0 <= i < |v| - 1 ==> Step(m, v, i)
  }

  ghost predicate Step(m: Memory, v: seq<Addr>, i: int)
    requires 0 <= i < |v| - 1
    requires v[i] in m && v[i + 1] in m
  {
    m[v[i]].next == v[i + 1] && m[v[i + 1]].prev == v[i]
  }

  // Because every step is confirmed backwards, such a walk visits no block twice
  // as long as nothing precedes the head, so it is no longer than the memory.
  lemma {:induction false} PathIsShort(m: Memory, head: Addr, v: seq<Addr>)
    requires Path(m, head, v) && m[head].prev == NULL
    ensures Distinct(v)
    ensures |v| <= |m|
  {
    forall i, j | 0 <= i < j < |v| ensures v[i] != v[j] {
      PathDistinct(m, head, v, i, j);
    }
    DistinctFits(v, m.Keys);
  }

  lemma {:induction false} PathDistinct(m: Memory, head: Addr, v: seq<Addr>, i: nat, j: nat)
    requires Path(m, head, v) && m[head].prev == NULL
    requires i < j < |v|
    ensures v[i] != v[j]
  {
    assert Step(m, v, j - 1);
    if i > 0 {
      assert Step(m, v, i - 1);
      PathDistinct(m, head, v, i - 1, j - 1);
    }
  }

  // Flipping every link turns the walk from the tail into a walk from the head.
  function Mirror(m: Memory): Memory {
    map a | a in m :: m[a].(prev := m[a].next, next := m[a].prev)
  }
}
