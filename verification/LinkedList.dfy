/**
 The generic singly linked list of src/list.c, with strings as data, and the
 bounded bucket list of src/downloads.c built on it.
 */
module LinkedList {
  import opened Wrappers

  // struct NODE. `live` is false once the node has been given back to free().
  class Node {
    var next: Node?
    var data: string
    ghost var live: bool

    constructor (data: string)
      ensures this.data == data && next == null && live
    {
      this.data, next, live := data, null, true;
    }
  }

  function ReverseSeq<T>(s: seq<T>): (r: seq<T>)
    ensures |r| == |s|
  {
    if s == [] then [] else ReverseSeq(s[1..]) + [s[0]]
  }

  lemma {:induction false} ReverseAt<T>(s: seq<T>, i: nat)
    requires i < |s|
    ensures ReverseSeq(s)[i] == s[|s| - 1 - i]
  {
    if |s| > 1 && i < |s| - 1 { ReverseAt(s[1..], i); }
  }

  lemma ReverseShape<T>(s: seq<T>)
    ensures |ReverseSeq(s)| == |s|
    ensures forall i :: 0 <= i < |s| ==> ReverseSeq(s)[i] == s[|s| - 1 - i]
  {
    forall i | 0 <= i < |s| ensures ReverseSeq(s)[i] == s[|s| - 1 - i] {
      ReverseAt(s, i);
    }
  }

  lemma ReverseTwice<T>(s: seq<T>)
    ensures ReverseSeq(ReverseSeq(s)) == s
  {
    forall i | 0 <= i < |s| ensures ReverseSeq(ReverseSeq(s))[i] == s[i] {
      ReverseAt(ReverseSeq(s), i);
      ReverseAt(s, |s| - 1 - i);
    }
  }

  // The nodes c, in order, are all live and run from `head` to NULL.
  ghost predicate Spine(head: Node?, c: seq<Node>)
    reads c
  {
    && Distinct(c)
    && head == Nth(c, 0)
    && (forall i :: 0 <= i < |c| ==> c[i].live)
    && (forall i {:trigger c[i].next} :: 0 <= i < |c| ==> c[i].next == Nth(c, i + 1))
  }

  ghost function Nth(c: seq<Node>, i: int): Node? {
    if 0 <= i < |c| then c[i] else null
  }

  ghost function Values(c: seq<Node>): (s: seq<string>)
    reads c
    ensures |s| == |c|
    ensures forall i :: 0 <= i < |c| ==> s[i] == c[i].data
  {
    seq(|c|, i requires 0 <= i < |c| reads c => c[i].data)
  }

  ghost predicate Distinct(c: seq<Node>) {
    forall i, j :: 0 <= i < j < |c| ==> c[i] != c[j]
  }

  // A node before the list.
  lemma SpineBefore(n: Node, head: Node?, c: seq<Node>)
    requires Spine(head, c) && n !in c && n.live && n.next == head
    ensures Spine(n, [n] + c) && Values([n] + c) == [n.data] + Values(c)
  {
    hide Values;
    var d := [n] + c;
    forall i | 0 <= i < |d| ensures d[i].live && d[i].next == Nth(d, i + 1) {
      if i > 0 { assert d[i] == c[i - 1]; }
    }
    ValuesBefore(n, c);
  }

  lemma ValuesBefore(n: Node, c: seq<Node>)
    ensures Values([n] + c) == [n.data] + Values(c)
  {
  }

  lemma ValuesAfter(c: seq<Node>, n: Node)
    ensures Values(c + [n]) == Values(c) + [n.data]
  {
  }

  // A node after the list, once the last link points at it.
  lemma SpineAfter(c: seq<Node>, n: Node)
    requires Distinct(c) && n !in c && n.live && n.next == null
    requires forall i :: 0 <= i < |c| ==> c[i].live
    requires forall i {:trigger c[i].next} :: 0 <= i < |c| ==> c[i].next == Nth(c + [n], i + 1)
    ensures Spine(Nth(c + [n], 0), c + [n])
  {
    var d := c + [n];
    forall i | 0 <= i < |d| ensures d[i].live && d[i].next == Nth(d, i + 1) {
      if i < |c| { assert d[i] == c[i]; }
    }
  }

  // All but the last node, once the last link but one is cut.
  lemma SpineWithoutLast(c: seq<Node>)
    requires Distinct(c) && |c| >= 2
    requires forall i :: 0 <= i < |c| - 1 ==> c[i].live
    requires forall i {:trigger c[i].next} :: 0 <= i < |c| - 2 ==> c[i].next == c[i + 1]
    requires c[|c| - 2].next == null
    ensures Spine(c[0], c[..|c| - 1])
  {
    var d := c[..|c| - 1];
    forall i | 0 <= i < |d| ensures d[i].live && d[i].next == Nth(d, i + 1) {
      assert d[i] == c[i];
    }
  }

  // Once every link points backwards, the reversed sequence is the list.
  lemma ReversedSpine(c: seq<Node>)
    requires Distinct(c)
    requires forall i :: 0 <= i < |c| ==> c[i].live
    requires forall i {:trigger c[i].next} :: 0 <= i < |c| ==> c[i].next == Nth(c, i - 1)
    ensures Spine(Nth(c, |c| - 1), ReverseSeq(c))
    ensures Values(ReverseSeq(c)) == ReverseSeq(Values(c))
  {
    hide ReverseSeq, Values;
    var r := ReverseSeq(c);
    ReverseShape(c);
    forall i, j | 0 <= i < j < |r| ensures r[i] != r[j] {
      assert r[i] == c[|c| - 1 - i] && r[j] == c[|c| - 1 - j];
    }
    forall i | 0 <= i < |r| ensures r[i].next == Nth(r, i + 1) && r[i].live {
      assert r[i] == c[|c| - 1 - i];
    }
    ReversedValues(c);
  }

  lemma ReversedValues(c: seq<Node>)
    ensures Values(ReverseSeq(c)) == ReverseSeq(Values(c))
  {
    hide ReverseSeq;
    ReverseShape(c);
    ReverseShape(Values(c));
  }

  // Releasing the string and the node itself.
  ghost method Discard(n: Node)
    modifies n`live
    ensures !n.live
  {
    n.live := false;
  }

  /** A `simple_list` variable: the caller's head pointer. */
  class SimpleList {
    var head: Node?
    ghost var spine: seq<Node>

    ghost predicate Valid()
      reads this, spine
    {
      Spine(head, spine)
    }

    ghost function Contents(): seq<string>
      reads this, spine
    {
      Values(spine)
    }

    constructor ()
      ensures Valid() && spine == [] && Contents() == []
    {
      head, spine := null, [];
    }

    method ListCount() returns (n: nat)
      requires Valid()
      ensures n == |Contents()|
    {
      n := 0;
      var current := head;
      while current != null
        invariant n <= |spine| && current == Nth(spine, n)
        decreases |spine| - n
      {
        n := n + 1;
        current := current.next;
      }
    }

    // NULL data is rejected, as in the source.
    method AddToHead(elem: Option<string>) returns (result: int)
      requires Valid()
      modifies this
      ensures Valid()
      ensures result == if elem.None? then -1 else 0
      ensures elem.None? ==> spine == old(spine) && Contents() == old(Contents())
      ensures elem.Some? ==>
                && Contents() == [elem.value] + old(Contents())
                && |spine| > 0 && fresh(spine[0]) && spine[1..] == old(spine)
    {
      if elem.None? {
        return -1;
      }
      assert head == null <==> spine == [];
      hide Spine, Values;
      var newnode := new Node(elem.value);
      if head == null {
        head := newnode;
        newnode.next := null;
      } else {
        newnode.next := head;
        head := newnode;
      }
      SpineBefore(newnode, old(head), spine);
      spine := [newnode] + spine;
      return 0;
    }

    // The walk of addToTail.
    method LastNode() returns (current: Node)
      requires Valid() && head != null
      ensures spine != [] && current == spine[|spine| - 1]
    {
      current := head;
      ghost var i := 0;
      while current.next != null
        invariant 0 <= i < |spine| && current == spine[i]
        decreases |spine| - i
      {
        current := current.next;
        i := i + 1;
      }
    }

    // The new node becomes the successor of the last one.
    method LinkLast(newnode: Node)
      requires Valid() && spine != [] && newnode !in spine && newnode.live && newnode.next == null
      modifies spine
      ensures Spine(head, spine + [newnode]) && Values(spine) == old(Values(spine))
    {
      hide Values;
      var current := LastNode();
      ghost var d := spine + [newnode];
      forall j | 0 <= j < |spine| - 1 ensures spine[j].next == Nth(d, j + 1) && spine[j] != current {
        assert Nth(spine, j + 1) == Nth(d, j + 1);
      }
      current.next := newnode;
      SpineAfter(spine, newnode);
      assert Nth(d, 0) == head;
    }

    method AddToTail(elem: Option<string>) returns (result: int)
      requires Valid()
      modifies this, spine
      ensures Valid()
      ensures result == if elem.None? then -1 else 0
      ensures elem.None? ==> spine == old(spine) && Contents() == old(Contents())
      ensures elem.Some? ==>
                && Contents() == old(Contents()) + [elem.value]
                && |spine| > 0 && fresh(spine[|spine| - 1]) && spine[..|spine| - 1] == old(spine)
    {
      if elem.None? {
        return -1;
      }
      assert head == null <==> spine == [];
      hide Values;
      var newnode := new Node(elem.value);
      if head == null {
        head := newnode;
        newnode.next := null;
      } else {
        LinkLast(newnode);
      }
      ValuesAfter(spine, newnode);
      assert Values(spine) == old(Contents());
      spine := spine + [newnode];
      return 0;
    }

    method RemoveFirst()
      requires Valid()
      modifies this, spine
      ensures Valid()
      ensures old(spine) == [] ==> spine == []
      ensures old(spine) != [] ==>
                spine == old(spine)[1..] && Contents() == old(Contents())[1..] && !old(spine)[0].live
    {
      if head != null {
        var p := head;
        head := p.next;
        Discard(p);
        spine := spine[1..];
      }
    }

    /** removeLast gets the head pointer by value. From two nodes on it drops the last
        one; a list of exactly one node is left pointing at a node that is gone. */
    method RemoveLast()
      requires Valid()
      modifies this, spine
      ensures head == old(head)
      ensures |old(spine)| >= 2 ==>
                && Valid()
                && spine == old(spine)[..|old(spine)| - 1]
                && Contents() == old(Contents())[..|old(Contents())| - 1]
                && !old(spine)[|old(spine)| - 1].live
      ensures |old(spine)| == 1 ==> head != null && !head.live && !Valid()
      ensures old(spine) == [] ==> Valid() && spine == []
    {
      hide Values;
      var p := head;
      var prev: Node? := null;
      ghost var i := 0;
      while p != null && p.next != null
        invariant p == Nth(spine, i) && 0 <= i <= |spine|
        invariant spine != [] ==> i < |spine|
        invariant prev == if i == 0 then null else spine[i - 1]
        decreases |spine| - i
      {
        prev := p;
        p := p.next;
        i := i + 1;
      }
      if prev != null {
        prev.next := null;
      }
      if p != null { Discard(p); }
      if |spine| >= 2 {
        assert i == |spine| - 1;
        SpineWithoutLast(spine);
        spine := spine[..|spine| - 1];
      }
    }

    method FreeList()
      requires Valid()
      modifies this, spine
      ensures Valid() && spine == [] && head == null
      ensures forall n :: n in old(spine) ==> !n.live
    {
      ghost var all := spine;
      ghost var i := 0;
      while head != null
        invariant 0 <= i <= |all| && spine == all[i..] && Valid()
        invariant forall j :: 0 <= j < i ==> !all[j].live
        decreases |all| - i
      {
        var node := head;
        head := node.next;
        Discard(node);
        spine := spine[1..];
        i := i + 1;
      }
    }

    /** reverseList, in place: the same nodes in the opposite order. */
    method ReverseList()
      requires Valid()
      modifies this, spine
      ensures Valid()
      ensures spine == ReverseSeq(old(spine))
      ensures Contents() == ReverseSeq(old(Contents()))
    {
      hide ReverseSeq, Values;
      var current := head;
      var result: Node? := null;
      ghost var all := spine;
      ghost var i := 0;
      while current != null
        invariant 0 <= i <= |all|
        invariant current == Nth(all, i)
        invariant result == Nth(all, i - 1)
        invariant forall j {:trigger all[j].next} :: 0 <= j < i ==> all[j].next == Nth(all, j - 1)
        invariant forall j {:trigger all[j].next} :: i <= j < |all| ==> all[j].next == Nth(all, j + 1)
        invariant forall j :: 0 <= j < |all| ==> all[j].live && all[j].data == old(all[j].data)
        decreases |all| - i
      {
        var nextnode := current.next;
        current.next := result;
        result := current;
        current := nextnode;
        i := i + 1;
      }
      head := result;
      ReversedSpine(all);
      assert Values(all) == old(Contents());
      spine := ReverseSeq(all);
    }
  }
}
