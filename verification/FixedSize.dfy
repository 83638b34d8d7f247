/** Which insertions keep every page in bounds: always with entries of one size, not always otherwise. */
module FixedSize {
  import opened Bytes
  import opened Entries
  import opened Layout
  import opened Seqs
  import opened TreeModel
  import opened TreeInsert
  import opened TreeLaws

  ghost predicate FixedEntries(es: seq<Entry>, kl: nat, vl: nat)
  {
    forall i :: 0 <= i < |es| ==> |es[i].key| == kl && |es[i].value| == vl
  }

  ghost predicate FixedKeys(keys: seq<Key>, kl: nat)
  {
    forall i :: 0 <= i < |keys| ==> |keys[i]| == kl
  }

  /** All keys have length `kl` and all values length `vl`. */
  ghost predicate Fixed(t: Tree, kl: nat, vl: nat)
  {
    match t
    case Leaf(_, es) => FixedEntries(es, kl, vl)
    case Node(_, keys, kids) => FixedKeys(keys, kl) && forall i :: 0 <= i < |kids| ==> Fixed(kids[i], kl, vl)
  }

  ghost predicate GrownFixed(g: Grown, kl: nat, vl: nat)
  {
    match g
    case One(t) => Fixed(t, kl, vl)
    case Two(l, sep, r) => Fixed(l, kl, vl) && |sep| == kl && Fixed(r, kl, vl)
  }

  lemma FewerFit(c: nat, m: nat, n: nat)
    requires m <= n
    ensures c * m <= c * n
  {
    assert c * (n - m) >= 0;
  }

  /** Half of one entry too many is no more than what already fitted. */
  lemma FixedLeafTakes(es: seq<Entry>, k: Key, v: Value)
    requires LeafFits(es) && FixedEntries(es, |k|, |v|)
    requires |k| <= MAX_KEY_SIZE && |v| <= MAX_VALUE_SIZE
    ensures LeafTakes(es, k, v)
    ensures FixedEntries(Upserted(es, k, v), |k|, |v|)
  {
    var all, c := Upserted(es, k, v), LEAF_SLOT_SIZE + |k| + |v|;
    LeafDataFixed(es, |k|, |v|);
    LeafDataFixed(all, |k|, |v|);
    if !Found(es, k) && !LeafCanFit(es, |k|, |v|) {
      FullLeafSplits(es, k, v);
      var mid := |all| / 2;
      LeafDataFixed(all[..mid], |k|, |v|);
      LeafDataFixed(all[mid..], |k|, |v|);
      FewerFit(c, mid, |es|);
      FewerFit(c, |all| - mid, |es|);
    }
  }

  lemma FixedNodeTakes(keys: seq<Key>, i: nat, sep: Key)
    requires InternalFits(keys) && i <= |keys| && FixedKeys(keys, |sep|) && |sep| <= MAX_KEY_SIZE
    ensures NodeTakes(keys, i, Some(sep))
    ensures FixedKeys(InsertAt(keys, i, sep), |sep|)
  {
    hide KeyData;
    var all, c := InsertAt(keys, i, sep), INTERNAL_SLOT_SIZE + |sep|;
    KeyDataFixed(keys, |sep|);
    if !InternalCanFit(keys, |sep|) {
      assert keys != [];
      var mid := |all| / 2;
      KeyDataFixed(all[..mid], |sep|);
      KeyDataFixed(all[mid + 1..], |sep|);
      FewerFit(c, mid, |keys|);
      FewerFit(c, |all| - mid - 1, |keys|);
    }
  }

  lemma CutFixed(t: Tree, newId: nat, kl: nat, vl: nat)
    requires t.Node? && |t.kids| == |t.keys| + 1 && t.keys != [] && Fixed(t, kl, vl)
    ensures GrownFixed(Cut(t, newId), kl, vl)
  {
  }

  lemma RegrowFixed(t: Tree, i: nat, g: Grown, newId: nat, kl: nat, vl: nat)
    requires t.Node? && i < |t.kids| == |t.keys| + 1 && InternalFits(t.keys)
    requires Fixed(t, kl, vl) && GrownFixed(g, kl, vl) && kl <= MAX_KEY_SIZE
    ensures GrownFixed(Regrow(t, i, g, newId), kl, vl) && NodeTakes(t.keys, i, GrownSep(g))
  {
    match g
    case One(_) =>
    case Two(l, sep, r) =>
      FixedNodeTakes(t.keys, i, sep);
      ReplaceIndex(t.kids, i, l, r);
      CutFixed(Splice(t, i, l, sep, r), newId, kl, vl);
  }

  lemma {:induction false} InsFixed(t: Tree, k: Key, v: Value, ids: seq<nat>)
    requires Balanced(t) && PagesFit(t) && |ids| > Height(t) && Fixed(t, |k|, |v|)
    requires |k| <= MAX_KEY_SIZE && |v| <= MAX_VALUE_SIZE
    ensures InsertFits(t, k, v) && GrownFixed(Ins(t, k, v, ids), |k|, |v|)
    decreases t
  {
    if t.Leaf? {
      FixedLeafTakes(t.entries, k, v);
    } else {
      var i := ChildIndex(t.keys, k);
      InsFixed(t.kids[i], k, v, ids);
      InsFits(t.kids[i], k, v, ids);
      RegrowFixed(t, i, Ins(t.kids[i], k, v, ids), ids[Height(t)], |k|, |v|);
    }
  }

  /** With entries of one size no insertion ever makes a page overflow. */
  lemma FixedInsertFits(t: Tree, k: Key, v: Value, ids: seq<nat>)
    requires WellFormed(t) && |ids| > Height(t) + 1 && Fixed(t, |k|, |v|)
    requires |k| <= MAX_KEY_SIZE && |v| <= MAX_VALUE_SIZE
    ensures InsertFits(t, k, v) && Fixed(Insert(t, k, v, ids), |k|, |v|)
  {
    InsFixed(t, k, v, ids);
  }

  lemma {:induction false} DeleteFixed(t: Tree, k: Key, kl: nat, vl: nat)
    requires Balanced(t) && Fixed(t, kl, vl)
    ensures Fixed(Delete(t, k), kl, vl)
    decreases t
  {
    if t.Node? {
      DeleteFixed(t.kids[ChildIndex(t.keys, k)], k, kl, vl);
    }
  }

  // ----- overwriting -----

  lemma {:induction false} LeafForFits(t: Tree, k: Key)
    requires Balanced(t) && PagesFit(t)
    ensures LeafFits(LeafFor(t, k))
    decreases t
  {
    if t.Node? {
      LeafForFits(t.kids[ChildIndex(t.keys, k)], k);
    }
  }

  /** Replacing a value fits exactly when it grows by no more than the leaf's free space, and never splits. */
  lemma {:induction false} OverwriteFits(t: Tree, k: Key, v: Value)
    requires Balanced(t) && PagesFit(t) && Lookup(LeafFor(t, k), k).Some?
    ensures LeafFits(LeafFor(t, k)) && Pushed(t, k, v) == None
    ensures InsertFits(t, k, v) <==> |v| <= |Lookup(LeafFor(t, k), k).value| + LeafFreeSpace(LeafFor(t, k))
    decreases t
  {
    LeafForFits(t, k);
    if t.Leaf? {
      LeafDataUpdate(t.entries, LowerBound(t.entries, k), Entry(k, v));
    } else {
      OverwriteFits(t.kids[ChildIndex(t.keys, k)], k, v);
    }
  }

  // ----- runs -----

  datatype Op = Put(key: Key, value: Value) | Remove(key: Key)

  predicate OpSized(op: Op, kl: nat, vl: nat)
  {
    |op.key| == kl && (op.Put? ==> |op.value| == vl)
  }

  /** The sorted map after a run. */
  function RunEntries(es: seq<Entry>, ops: seq<Op>): seq<Entry>
  {
    if ops == [] then es
    else
      var es' := RunEntries(es, ops[..|ops| - 1]);
      match ops[|ops| - 1]
      case Put(k, v) => Upserted(es', k, v)
      case Remove(k) => Removed(es', k)
  }

  ghost predicate Reached(t: Tree, next: nat, kl: nat, vl: nat)
  {
    WellFormed(t) && Fixed(t, kl, vl) && forall x :: x in Ids(t) ==> x < next
  }

  /** The tree after a run, with pages numbered from `next`; every step finds its page room. */
  ghost function RunTree(t: Tree, next: nat, ops: seq<Op>, kl: nat, vl: nat): (r: (Tree, nat))
    requires Reached(t, next, kl, vl) && kl <= MAX_KEY_SIZE && vl <= MAX_VALUE_SIZE
    requires forall i :: 0 <= i < |ops| ==> OpSized(ops[i], kl, vl)
    ensures Reached(r.0, r.1, kl, vl)
    ensures Flatten(r.0) == RunEntries(Flatten(t), ops)
    decreases ops
  {
    if ops == [] then (t, next)
    else
      var (t', next') := RunTree(t, next, ops[..|ops| - 1], kl, vl);
      StepReached(t', next', ops[|ops| - 1], kl, vl);
      StepTree(t', next', ops[|ops| - 1])
  }

  ghost function FreshIds(t: Tree, next: nat): seq<nat>
  {
    seq(Height(t) + 2, j => next + j)
  }

  ghost function StepTree(t: Tree, next: nat, op: Op): (Tree, nat)
    requires WellFormed(t)
  {
    match op
    case Put(k, v) => (Insert(t, k, v, FreshIds(t, next)), next + Height(t) + 2)
    case Remove(k) => (Delete(t, k), next)
  }

  lemma StepReached(t: Tree, next: nat, op: Op, kl: nat, vl: nat)
    requires Reached(t, next, kl, vl) && OpSized(op, kl, vl) && kl <= MAX_KEY_SIZE && vl <= MAX_VALUE_SIZE
    ensures var (t', next') := StepTree(t, next, op);
            && Reached(t', next', kl, vl)
            && Flatten(t') == match op case Put(k, v) => Upserted(Flatten(t), k, v)
                case Remove(k) => Removed(Flatten(t), k)
  {
    hide Ids, Flatten, Fixed, Insert, Delete, Balanced, PagesFit, Legal, Ordered, Separate, Upserted, Removed,
        InsertFits;
    match op
    case Put(k, v) =>
      var ids := FreshIds(t, next);
      FixedInsertFits(t, k, v, ids);
      InsertCorrect(t, k, v, ids);
      FirstIdsMember(ids, Height(t) + 2);
    case Remove(k) =>
      DeleteCorrect(t, k);
      DeleteFixed(t, k, kl, vl);
  }

  /** Any run of one-size insertions and deletions leaves a tree whose lookups and scans answer as the sorted map. */
  lemma RunRefinesMap(t: Tree, next: nat, ops: seq<Op>, kl: nat, vl: nat, k: Key, start: Key, end: Key)
    requires Reached(t, next, kl, vl) && kl <= MAX_KEY_SIZE && vl <= MAX_VALUE_SIZE
    requires forall i :: 0 <= i < |ops| ==> OpSized(ops[i], kl, vl)
    ensures var t' := RunTree(t, next, ops, kl, vl).0;
            && PagesFit(t')
            && Lookup(LeafFor(t', k), k) == Lookup(RunEntries(Flatten(t), ops), k)
            && Scan(t', start, end) == Within(RunEntries(Flatten(t), ops), start, end)
  {
    var t' := RunTree(t, next, ops, kl, vl).0;
    LookupCorrect(t', k, None, None);
    ScanCorrect(t', start, end, None, None);
  }

  // ----- mixed sizes -----

  function Filled(n: nat, b: byte): seq<byte>
  {
    seq(n, _ => b)
  }

  /** Two of the largest entries and four small ones. */
  function CrowdedLeaf(): seq<Entry>
  {
    [ Entry(Filled(1000, 2), Filled(1000, 0)), Entry(Filled(1000, 3), Filled(1000, 0)),
      Entry([4], []), Entry([5], []), Entry([6], []), Entry([7], []) ]
  }

  lemma CrowdedLeafSorted()
    ensures LegalEntries(CrowdedLeaf()) && Sorted(CrowdedLeaf())
  {
    var es := CrowdedLeaf();
    assert forall i, j :: 0 <= i < j < |es| ==> es[i].key[0] < es[j].key[0];
  }

  lemma CrowdedLeafLegal()
    ensures LeafFits(CrowdedLeaf()) && LegalEntries(CrowdedLeaf()) && Sorted(CrowdedLeaf())
    ensures LeafData(CrowdedLeaf()) == 4004
  {
    hide LeafData, Sorted;
    CrowdedLeafSorted();
    var es := CrowdedLeaf();
    TakeDrop(es, 2);
    LeafDataConcat(es[..2], es[2..]);
    assert es[2..] == [es[2], es[3], es[4], es[5]];
    LeafDataFixed(es[2..], 1, 0);
    LeafDataFixed(es[..2], 1000, 1000);
  }

  predicate Largest(e: Entry)
  {
    |e.key| == MAX_KEY_SIZE && |e.value| == MAX_VALUE_SIZE
  }

  /** A third entry of the largest size in front of two others lands in their half. */
  lemma ThirdLargest(es: seq<Entry>, k: Key, v: Value)
    requires |es| == 6 && LeafFits(es) && LeafData(es) >= 4000
    requires Largest(es[0]) && Largest(es[1]) && Largest(Entry(k, v))
    requires LowerBound(es, k) == 0 && !Found(es, k)
    ensures !LeafTakes(es, k, v)
  {
    var all := Upserted(es, k, v);
    assert all[..3] == [Entry(k, v), es[0], es[1]];
    LeafDataFixed(all[..3], 1000, 1000);
  }

  /** Splits go by entry count: a legal insertion into a legal leaf can leave a half too big for its page. */
  lemma SplitCanOverflow()
    ensures var t := Leaf(2, CrowdedLeaf());
            var k, v := Filled(1000, 1), Filled(1000, 0);
            && WellFormed(t) && |k| <= MAX_KEY_SIZE && |v| <= MAX_VALUE_SIZE
            && !InsertFits(t, k, v)
  {
    var es, k, v := CrowdedLeaf(), Filled(1000, 1), Filled(1000, 0);
    CrowdedLeafLegal();
    LowerBoundUnique(es, k, 0);
    assert es[0].key[0] == 2 && k[0] == 1;
    ThirdLargest(es, k, v);
  }

  /** Overwriting writes the page without a space check: a longer value can overflow it. */
  lemma OverwriteCanOverflow()
    ensures var t := Leaf(2, CrowdedLeaf());
            WellFormed(t) && Found(CrowdedLeaf(), [4]) && !InsertFits(t, [4], Filled(1000, 0))
  {
    var es := CrowdedLeaf();
    CrowdedLeafLegal();
    LowerBoundUnique(es, [4], 2);
    LeafDataUpdate(es, 2, Entry([4], Filled(1000, 0)));
  }
}
