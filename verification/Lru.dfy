/** The page cache's recency list. */
module Lru {
  import opened Seqs

  /** The first place of `k`, or the length if it is not there. */
  function Position(order: seq<nat>, k: nat): (i: nat)
    ensures i <= |order|
    ensures forall j :: 0 <= j < i ==> order[j] != k
    ensures i < |order| ==> order[i] == k
  {
    if order == [] || order[0] == k then 0
    else
      var r := Position(order[1..], k);
      assert forall j :: 0 < j < r + 1 ==> order[j] == order[1..][j - 1];
      r + 1
  }

  function Dropped(order: seq<nat>, k: nat): seq<nat>
  {
    var i := Position(order, k);
    if i < |order| then order[..i] + order[i + 1..] else order
  }

  /** `k` becomes the most recently used page. */
  function Touched(order: seq<nat>, k: nat): seq<nat>
  {
    Dropped(order, k) + [k]
  }

  /** Room for one more: the oldest page goes if the cache is full. */
  function Evicted(order: seq<nat>, capacity: nat): seq<nat>
  {
    if |order| >= capacity && order != [] then order[1..] else order
  }

  /** The list after an access: a cached page moves to the back; a new one may push out the oldest. */
  function NextOrder(order: seq<nat>, k: nat, capacity: nat): seq<nat>
  {
    if k in order then Touched(order, k) else Evicted(order, capacity) + [k]
  }

  lemma DroppedFacts(order: seq<nat>, k: nat)
    requires NoRepeats(order)
    ensures NoRepeats(Dropped(order, k)) && k !in Dropped(order, k)
    ensures forall x :: x in Dropped(order, k) <==> x in order && x != k
    ensures |Dropped(order, k)| == if k in order then |order| - 1 else |order|
  {
    var i := Position(order, k);
    var d := Dropped(order, k);
    if i < |order| {
      assert forall j :: 0 <= j < |d| ==> d[j] == order[if j < i then j else j + 1];
      forall x | x in order && x != k ensures x in d {
        var j :| 0 <= j < |order| && order[j] == x;
        assert d[if j < i then j else j - 1] == x;
      }
    }
  }

  lemma NextOrderFacts(order: seq<nat>, k: nat, capacity: nat)
    requires NoRepeats(order) && |order| <= capacity && 0 < capacity
    ensures NoRepeats(NextOrder(order, k, capacity)) && |NextOrder(order, k, capacity)| <= capacity
    ensures k in NextOrder(order, k, capacity)
    ensures forall x :: x in NextOrder(order, k, capacity) ==> x in order || x == k
  {
    DroppedFacts(order, k);
  }

  // ----- runs -----

  function OrderAfter(uses: seq<nat>, capacity: nat): seq<nat>
  {
    if uses == [] then [] else NextOrder(OrderAfter(uses[..|uses| - 1], capacity), uses[|uses| - 1], capacity)
  }

  /** The time of the last use of `k`, counted from 1; 0 if never used. */
  function LastUse(uses: seq<nat>, k: nat): (t: nat)
    ensures t <= |uses|
  {
    if uses == [] then 0
    else if uses[|uses| - 1] == k then |uses|
    else LastUse(uses[..|uses| - 1], k)
  }

  /** Later in `order` means used later. */
  ghost predicate ByUse(order: seq<nat>, uses: seq<nat>)
  {
    && (forall i :: 0 <= i < |order| ==> LastUse(uses, order[i]) > 0)
    && (forall i, j :: 0 <= i < j < |order| ==> LastUse(uses, order[i]) < LastUse(uses, order[j]))
  }

  /** Whatever is not in `order` was used before everything there, and `order` is then full. */
  ghost predicate NewestKept(order: seq<nat>, uses: seq<nat>, capacity: nat)
    requires 0 < capacity
  {
    forall k :: LastUse(uses, k) > 0 && k !in order ==>
        |order| == capacity && LastUse(uses, k) < LastUse(uses, order[0])
  }

  lemma LastUseStep(uses: seq<nat>, k: nat)
    ensures forall x :: LastUse(uses + [k], x) == if x == k then |uses| + 1 else LastUse(uses, x)
  {
    assert (uses + [k])[..|uses|] == uses;
  }

  /** After accesses alone the cache holds the most recently used distinct pages, oldest first. */
  lemma {:induction false} KeepsMostRecent(uses: seq<nat>, capacity: nat)
    requires 0 < capacity
    ensures var order := OrderAfter(uses, capacity);
            NoRepeats(order) && |order| <= capacity && ByUse(order, uses) && NewestKept(order, uses, capacity)
  {
    if uses != [] {
      var before, k := uses[..|uses| - 1], uses[|uses| - 1];
      KeepsMostRecent(before, capacity);
      assert uses == before + [k];
      StepByUse(OrderAfter(before, capacity), before, k, capacity);
      StepNewestKept(OrderAfter(before, capacity), before, k, capacity);
    }
  }

  lemma DroppedByUse(order: seq<nat>, k: nat, uses: seq<nat>)
    requires ByUse(order, uses)
    ensures ByUse(Dropped(order, k), uses)
  {
    var i, d := Position(order, k), Dropped(order, k);
    if i < |order| {
      assert forall j :: 0 <= j < |d| ==> d[j] == order[if j < i then j else j + 1];
    }
  }

  lemma AppendByUse(d: seq<nat>, k: nat, uses: seq<nat>)
    requires ByUse(d, uses) && k !in d
    ensures ByUse(d + [k], uses + [k])
  {
    LastUseStep(uses, k);
    assert forall j :: 0 <= j < |d| ==> d[j] != k && (d + [k])[j] == d[j];
  }

  lemma StepByUse(order: seq<nat>, uses: seq<nat>, k: nat, capacity: nat)
    requires 0 < capacity && NoRepeats(order) && |order| <= capacity && ByUse(order, uses)
    ensures var next := NextOrder(order, k, capacity);
            NoRepeats(next) && |next| <= capacity && ByUse(next, uses + [k])
  {
    NextOrderFacts(order, k, capacity);
    if k in order {
      DroppedFacts(order, k);
      DroppedByUse(order, k, uses);
      AppendByUse(Dropped(order, k), k, uses);
    } else {
      AppendByUse(Evicted(order, capacity), k, uses);
    }
  }

  lemma StepNewestKept(order: seq<nat>, uses: seq<nat>, k: nat, capacity: nat)
    requires 0 < capacity && NoRepeats(order) && |order| <= capacity && ByUse(order, uses)
        && NewestKept(order, uses, capacity)
    ensures NewestKept(NextOrder(order, k, capacity), uses + [k], capacity)
  {
    LastUseStep(uses, k);
    DroppedFacts(order, k);
    var next := NextOrder(order, k, capacity);
    forall x | LastUse(uses + [k], x) > 0 && x !in next
      ensures |next| == capacity && LastUse(uses + [k], x) < LastUse(uses + [k], next[0])
    {
      assert next[|next| - 1] == k;
      if k in order {
        assert x !in order;
        assert next == Dropped(order, k) + [k];
        if next[0] != k {
          assert next[0] == order[0] || next[0] == order[1];
        }
      } else if x in order {
        assert x == order[0];
      }
    }
  }
}
