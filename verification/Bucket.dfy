/** The download history: a bounded list of identifiers, newest first (src/downloads.c). */
module Bucket {
  import opened CStrings
  import opened Wrappers
  import opened LinkedList

  predicate HasGuid(guid: Option<string>, bucket: seq<string>) {
    NonEmpty(guid).Some? && guid.value in bucket
  }

  function WithNewest(guid: Option<string>, bucket: seq<string>): seq<string> {
    if NonEmpty(guid).Some? then [guid.value] + bucket else bucket
  }

  /** The history after recording guid: at most one entry is dropped, the oldest. */
  function Added(guid: Option<string>, bucket: seq<string>, maxItems: nat): seq<string> {
    var b := WithNewest(guid, bucket);
    if maxItems > 0 && |b| > maxItems then b[..|b| - 1] else b
  }

  /** Only an identifier that is neither NULL nor empty is looked for and recorded; the bucket
      never grows past its size, and never by more than one. */
  lemma BucketIs(guid: Option<string>, bucket: seq<string>, maxItems: nat)
    ensures HasGuid(guid, bucket) <==> exists x :: x in bucket && x != "" && guid == Some(x)
    ensures guid == None || guid == Some("") ==>
              Added(guid, bucket, maxItems) ==
              if 0 < maxItems < |bucket| then bucket[..|bucket| - 1] else bucket
    ensures guid.Some? && guid.value != "" ==>
              Added(guid, bucket, maxItems) ==
              [guid.value] + if 0 < maxItems < |bucket| + 1 && bucket != [] then bucket[..|bucket| - 1] else bucket
    ensures 0 < maxItems && |bucket| <= maxItems ==> |Added(guid, bucket, maxItems)| <= maxItems
    ensures maxItems == 0 ==> |Added(guid, bucket, maxItems)| >= |bucket|
  {
    if NonEmpty(guid).Some? && bucket != [] {
      assert ([guid.value] + bucket)[..|bucket|] == [guid.value] + bucket[..|bucket| - 1];
    }
  }

  // bucket_hasGUID
  method FindGuid(guid: Option<string>, list: SimpleList) returns (found: bool)
    requires list.Valid()
    ensures found <==> HasGuid(guid, list.Contents())
    ensures found <==> guid.Some? && guid.value != "" && guid.value in list.Contents()
  {
    hide Values;
    if guid.Some? && guid.value != "" {
      var p := list.head;
      ghost var i := 0;
      while p != null
        invariant 0 <= i <= |list.spine| && p == Nth(list.spine, i)
        invariant forall k :: 0 <= k < i ==> list.spine[k].data != guid.value
        decreases |list.spine| - i
      {
        if p.data == guid.value {
          assert list.Contents()[i] == guid.value;
          return true;
        }
        p := p.next;
        i := i + 1;
      }
    }
    return false;
  }

  /** addToBucket, on the heap: removeLast only ever meets a list of two or more nodes. */
  method AddToBucket(guid: Option<string>, list: SimpleList, maxItems: nat) returns (result: int)
    requires list.Valid()
    modifies list, list.spine
    ensures list.Valid() && result == 0
    ensures list.Contents() == Added(guid, old(list.Contents()), maxItems)
    ensures forall k :: 0 <= k < |list.spine| ==> list.spine[k] in old(list.spine) || fresh(list.spine[k])
  {
    hide Spine, Values;
    var _ := list.AddToHead(NonEmpty(guid));
    var count := list.ListCount();
    if maxItems > 0 && count > maxItems {
      list.RemoveLast();
    }
    return 0;
  }
}
