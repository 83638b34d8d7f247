/** What whole operations do: a well-formed tree behaves as a sorted map. */
module TreeLaws {
  import opened Bytes
  import opened Entries
  import opened Layout
  import opened Seqs
  import opened TreeModel
  import opened TreeInsert

  // ----- insertion -----

  /** Through leaf split, internal splits and new root, insertion keeps the tree well formed and sets just `k`. */
  lemma InsertCorrect(t: Tree, k: Key, v: Value, ids: seq<nat>)
    requires WellFormed(t) && |ids| > Height(t) + 1
    requires NoRepeats(ids) && forall j :: 0 <= j < |ids| ==> ids[j] !in Ids(t)
    requires |k| <= MAX_KEY_SIZE && |v| <= MAX_VALUE_SIZE
    requires InsertFits(t, k, v)
    ensures WellFormed(Insert(t, k, v, ids))
    ensures Flatten(Insert(t, k, v, ids)) == Upserted(Flatten(t), k, v)
    ensures Ids(Insert(t, k, v, ids)) <= Ids(t) + FirstIds(ids, Height(t) + 2)
    ensures Height(t) <= Height(Insert(t, k, v, ids)) <= Height(t) + 1
  {
    hide Ins, Pushed, InsertFits, Flatten, Ids, Ordered, Balanced, PagesFit, Legal, Separate;
    var h := Height(t);
    InsOrdered(t, k, v, ids, None, None);
    InsBalanced(t, k, v, ids);
    InsFits(t, k, v, ids);
    InsLegal(t, k, v, ids);
    InsSeparate(t, k, v, ids);
    NextIdApart(ids, h + 1, Ids(t));
    assert FirstIds(ids, h + 2) == FirstIds(ids, h + 1) + {ids[h + 1]};
    RootedCorrect(Ins(t, k, v, ids), ids[h + 1], h);
  }

  lemma NodeIds(id: nat, keys: seq<Key>, kids: seq<Tree>, i: nat)
    requires i < |kids|
    ensures Ids(kids[i]) <= Ids(Node(id, keys, kids))
  {
  }

  lemma SameKidPages(t: Tree, i: nat, kid: Tree)
    requires t.Node? && i < |t.kids| && Ids(kid) == Ids(t.kids[i])
    ensures Ids(Node(t.id, t.keys, t.kids[i := kid])) == Ids(t)
  {
    var kids := t.kids[i := kid];
    forall x | x in Ids(t) ensures x in Ids(Node(t.id, t.keys, kids)) {
      if x != t.id {
        var j :| 0 <= j < |t.kids| && x in Ids(t.kids[j]);
        assert x in Ids(kids[j]);
      }
    }
  }

  /** The leaf that `k` goes to has the key, or has room for a new entry. */
  ghost predicate StaysInLeaf(t: Tree, k: Key, v: Value)
    requires Balanced(t)
  {
    Found(LeafFor(t, k), k) || (LeafFits(LeafFor(t, k)) && LeafCanFit(LeafFor(t, k), |k|, |v|))
  }

  /** An insertion into a leaf with room, or at a key it has, is made in place. */
  lemma {:induction false} InsInPlace(t: Tree, k: Key, v: Value, ids: seq<nat>)
    requires Balanced(t) && PagesFit(t) && |ids| > Height(t)
    requires StaysInLeaf(t, k, v)
    ensures Ins(t, k, v, ids).One? && Ids(Ins(t, k, v, ids).tree) == Ids(t)
    decreases t
  {
    hide LeafCanFit, InternalFits, LeafFits, Upserted, Found;
    if t.Node? {
      var i := ChildIndex(t.keys, k);
      InsInPlace(t.kids[i], k, v, ids);
      SameKidPages(t, i, Ins(t.kids[i], k, v, ids).tree);
    }
  }

  /** Any other takes a page for the second half of the leaf. */
  lemma {:induction false} InsTakesPage(t: Tree, k: Key, v: Value, ids: seq<nat>)
    requires Balanced(t) && PagesFit(t) && |ids| > Height(t)
    requires !StaysInLeaf(t, k, v)
    ensures ids[0] in GrownIds(Ins(t, k, v, ids))
    decreases t
  {
    hide LeafCanFit, InternalFits, LeafFits, Upserted, Found, Regrow, GrownIds;
    if t.Node? {
      var i := ChildIndex(t.keys, k);
      InsTakesPage(t.kids[i], k, v, ids);
      RegrowKeeps(t, i, Ins(t.kids[i], k, v, ids), ids[Height(t)], ids[0]);
    } else {
      assert GrownIds(Ins(t, k, v, ids)) == {t.id} + {ids[0]} by { LeafTwo(t.id, t.entries, k, v, ids[0]); }
    }
  }

  lemma LeafTwo(id: nat, es: seq<Entry>, k: Key, v: Value, newId: nat)
    requires LeafFits(es) && !Found(es, k) && !LeafCanFit(es, |k|, |v|)
    ensures GrownIds(LeafIns(id, es, k, v, newId)) == {id} + {newId}
  {
    hide LeafCanFit, Upserted;
  }

  lemma RegrowKeeps(t: Tree, i: nat, g: Grown, newId: nat, x: nat)
    requires t.Node? && i < |t.kids| == |t.keys| + 1 && InternalFits(t.keys) && x in GrownIds(g)
    ensures x in GrownIds(Regrow(t, i, g, newId))
  {
    hide InternalFits, InternalCanFit, Cut;
    match g
    case One(kid) => NodeIds(t.id, t.keys, t.kids[i := kid], i);
    case Two(l, sep, r) =>
      var whole := Splice(t, i, l, sep, r);
      ReplaceIndex(t.kids, i, l, r);
      NodeIds(whole.id, whole.keys, whole.kids, i);
      NodeIds(whole.id, whole.keys, whole.kids, i + 1);
      CutKeeps(whole, newId, x);
  }

  lemma CutKeeps(t: Tree, newId: nat, x: nat)
    requires t.Node? && |t.kids| == |t.keys| + 1 && t.keys != [] && x in Ids(t)
    ensures x in GrownIds(Cut(t, newId))
  {
    var mid := |t.keys| / 2;
    if x != t.id {
      var j :| 0 <= j < |t.kids| && x in Ids(t.kids[j]);
      if j <= mid {
        NodeIds(t.id, t.keys[..mid], t.kids[..mid + 1], j);
      } else {
        NodeIds(newId, t.keys[mid + 1..], t.kids[mid + 1..], j - mid - 1);
      }
    }
  }

  /** An insertion uses new pages exactly when the leaf it goes to has no room for the entries it then has. */
  lemma PagesTakenExactly(t: Tree, k: Key, v: Value, ids: seq<nat>)
    requires WellFormed(t) && |ids| > Height(t) + 1 && InsertFits(t, k, v)
    requires ids[0] !in Ids(t)
    ensures Ids(Insert(t, k, v, ids)) == Ids(t) <==> LeafFits(Upserted(LeafFor(t, k), k, v))
  {
    hide Ins, InsertFits, LeafFits, Upserted, LeafFor, GrownIds, StaysInLeaf;
    LeafRoom(t, k, v);
    if StaysInLeaf(t, k, v) {
      InsInPlace(t, k, v, ids);
    } else {
      InsTakesPage(t, k, v, ids);
      RootedKeeps(Ins(t, k, v, ids), ids[Height(t) + 1], ids[0]);
    }
  }

  lemma RootedKeeps(g: Grown, id: nat, x: nat)
    requires x in GrownIds(g)
    ensures x in Ids(Rooted(g, id))
  {
    if g.Two? {
      NodeIds(id, [g.sep], [g.left, g.right], 0);
      NodeIds(id, [g.sep], [g.left, g.right], 1);
    }
  }

  lemma {:induction false} LeafRoom(t: Tree, k: Key, v: Value)
    requires Balanced(t) && PagesFit(t) && InsertFits(t, k, v)
    ensures LeafFits(Upserted(LeafFor(t, k), k, v)) <==> StaysInLeaf(t, k, v)
    decreases t
  {
    if t.Leaf? {
      hide LeafFits, LeafCanFit;
      LeafCanFitExact(t.entries, LowerBound(t.entries, k), Entry(k, v));
    } else {
      LeafRoom(t.kids[ChildIndex(t.keys, k)], k, v);
    }
  }

  lemma RootedCorrect(g: Grown, id: nat, h: nat)
    requires GrownOrdered(g, None, None) && GrownBalanced(g, h) && GrownFit(g) && GrownLegal(g) && GrownSeparate(g)
    requires id !in GrownIds(g)
    ensures WellFormed(Rooted(g, id)) && h <= Height(Rooted(g, id)) <= h + 1
    ensures Flatten(Rooted(g, id)) == GrownEntries(g) && Ids(Rooted(g, id)) <= GrownIds(g) + {id}
  {
    match g
    case One(_) =>
    case Two(l, sep, r) =>
      FlattenPair(l, r);
      UniformBalanced(id, [sep], [l, r], h);
      NewRootOrdered(id, l, sep, r);
      NodeSeparate(id, [sep], [l, r], Ids(l) + Ids(r));
      NewRootFits(id, l, sep, r);
  }

  lemma NewRootOrdered(id: nat, l: Tree, sep: Key, r: Tree)
    requires GrownOrdered(Two(l, sep, r), None, None)
    ensures Ordered(Node(id, [sep], [l, r]), None, None)
  {
  }

  lemma NewRootFits(id: nat, l: Tree, sep: Key, r: Tree)
    requires PagesFit(l) && PagesFit(r) && |sep| <= MAX_KEY_SIZE
    ensures PagesFit(Node(id, [sep], [l, r]))
  {
    assert KeyData([sep]) == |sep|;
  }

  /** The condition is exact: when it fails some page of the result overflows, whatever pages are taken. */
  lemma InsertFitsExact(t: Tree, k: Key, v: Value, ids: seq<nat>)
    requires WellFormed(t) && |ids| > Height(t) + 1
    requires |k| <= MAX_KEY_SIZE && |v| <= MAX_VALUE_SIZE
    ensures InsertFits(t, k, v) <==> PagesFit(Insert(t, k, v, ids))
  {
    InsFits(t, k, v, ids);
    InsLegal(t, k, v, ids);
    match Ins(t, k, v, ids)
    case One(_) =>
    case Two(l, sep, r) =>
      var root := Node(ids[Height(t) + 1], [sep], [l, r]);
      assert root.kids[0] == l && root.kids[1] == r;
      if PagesFit(l) && PagesFit(r) {
        NewRootFits(root.id, l, sep, r);
      }
  }

  // ----- deletion -----

  lemma {:induction false} LeafDataRemoved(es: seq<Entry>, k: Key)
    requires LeafFits(es)
    ensures LeafFits(Removed(es, k))
  {
    if Found(es, k) {
      var i := LowerBound(es, k);
      TakeDrop(es, i);
      LeafDataConcat(es[..i], es[i..]);
      LeafDataConcat(es[..i], es[i + 1..]);
      assert es[i..][1..] == es[i + 1..];
    }
  }

  lemma {:induction false} DeleteShape(t: Tree, k: Key)
    requires Balanced(t) && PagesFit(t) && Legal(t)
    ensures var t' := Delete(t, k); Balanced(t') && Height(t') == Height(t) && PagesFit(t') && Legal(t')
    decreases t
  {
    if t.Leaf? {
      LeafDataRemoved(t.entries, k);
    } else {
      var i := ChildIndex(t.keys, k);
      DeleteShape(t.kids[i], k);
      UniformBalanced(t.id, t.keys, t.kids[i := Delete(t.kids[i], k)], Height(t) - 1);
    }
  }

  lemma SameKidIds(t: Tree, i: nat, kid: Tree)
    requires t.Node? && i < |t.kids| && Ids(kid) == Ids(t.kids[i])
    ensures Ids(Node(t.id, t.keys, t.kids[i := kid])) == Ids(t)
  {
    assert forall j :: 0 <= j < |t.kids| ==> Ids(t.kids[i := kid][j]) == Ids(t.kids[j]);
  }

  lemma {:induction false} DeletePages(t: Tree, k: Key)
    requires Balanced(t) && Separate(t)
    ensures Separate(Delete(t, k)) && Ids(Delete(t, k)) == Ids(t) && Delete(t, k).id == t.id
    decreases t
  {
    if t.Node? {
      var i := ChildIndex(t.keys, k);
      var kid := Delete(t.kids[i], k);
      DeletePages(t.kids[i], k);
      ReplaceKidSeparate(t, i, kid, {});
      SameKidIds(t, i, kid);
    }
  }

  /** Deletion below any node takes out `k` and nothing else. */
  lemma {:induction false} DeleteOrdered(t: Tree, k: Key, lo: Option<Key>, hi: Option<Key>)
    requires Balanced(t) && Ordered(t, lo, hi)
    ensures Ordered(Delete(t, k), lo, hi)
    ensures Flatten(Delete(t, k)) == Removed(Flatten(t), k)
    decreases t
  {
    if t.Leaf? {
      RemovedSorted(t.entries, k);
    } else {
      var i := ChildIndex(t.keys, k);
      DeleteOrdered(t.kids[i], k, LoOf(t.keys, lo, i), HiOf(t.keys, hi, i));
      ReplaceKidOrdered(t, i, Delete(t.kids[i], k), lo, hi);
      AroundChild(t, lo, hi, k);
      RemovedMiddle(FlattenAll(t.kids[..i]), Flatten(t.kids[i]), FlattenAll(t.kids[i + 1..]), k);
    }
  }

  lemma DeleteCorrect(t: Tree, k: Key)
    requires WellFormed(t)
    ensures WellFormed(Delete(t, k)) && Ids(Delete(t, k)) == Ids(t) && Height(Delete(t, k)) == Height(t)
    ensures Flatten(Delete(t, k)) == Removed(Flatten(t), k)
  {
    DeleteShape(t, k);
    DeletePages(t, k);
    DeleteOrdered(t, k, None, None);
  }

  // ----- lookup -----

  /** The leaf that `k` leads to. */
  function LeafOf(t: Tree, k: Key): (leaf: Tree)
    requires Balanced(t)
    ensures leaf.Leaf?
    decreases t
  {
    match t
    case Leaf(_, _) => t
    case Node(_, keys, kids) => LeafOf(kids[ChildIndex(keys, k)], k)
  }

  function LeafFor(t: Tree, k: Key): seq<Entry>
    requires Balanced(t)
  {
    LeafOf(t, k).entries
  }

  /** One leaf decides what the whole tree holds for `k`. */
  lemma {:induction false} LookupCorrect(t: Tree, k: Key, lo: Option<Key>, hi: Option<Key>)
    requires Balanced(t) && Ordered(t, lo, hi)
    ensures Lookup(LeafFor(t, k), k) == Lookup(Flatten(t), k)
    decreases t
  {
    if t.Node? {
      var i := ChildIndex(t.keys, k);
      LookupCorrect(t.kids[i], k, LoOf(t.keys, lo, i), HiOf(t.keys, hi, i));
      AroundChild(t, lo, hi, k);
      LookupMiddle(FlattenAll(t.kids[..i]), Flatten(t.kids[i]), FlattenAll(t.kids[i + 1..]), k);
    }
  }

  // ----- range scan -----

  /** The scan with its pruning: skip a kid all below `start`, stop after the kid that passes `end`. */
  function Scan(t: Tree, start: Key, end: Key): seq<Entry>
    requires Balanced(t)
    decreases t, if t.Node? then |t.kids| + 1 else 0
  {
    match t
    case Leaf(_, es) => Within(es, start, end)
    case Node(_, _, _) => ScanKids(t, 0, start, end)
  }

  function ScanKids(t: Tree, i: nat, start: Key, end: Key): seq<Entry>
    requires Balanced(t) && t.Node? && i < |t.kids|
    decreases t, |t.kids| - i
  {
    if i == |t.keys| then Scan(t.kids[i], start, end)
    else
      (if Less(start, t.keys[i]) then Scan(t.kids[i], start, end) else []) +
      (if Less(end, t.keys[i]) then [] else ScanKids(t, i + 1, start, end))
  }

  /** Pruning loses nothing: the scan is the full contents filtered by the range. */
  lemma {:induction false} ScanCorrect(t: Tree, start: Key, end: Key, lo: Option<Key>, hi: Option<Key>)
    requires Balanced(t) && Ordered(t, lo, hi)
    ensures Scan(t, start, end) == Within(Flatten(t), start, end)
    decreases t, if t.Node? then |t.kids| + 1 else 0
  {
    if t.Node? {
      ScanKidsCorrect(t, 0, start, end, lo, hi);
    }
  }

  lemma {:induction false} ScanKidsCorrect(t: Tree, i: nat, start: Key, end: Key, lo: Option<Key>, hi: Option<Key>)
    requires Balanced(t) && t.Node? && Ordered(t, lo, hi) && i < |t.kids|
    ensures ScanKids(t, i, start, end) == Within(FlattenAll(t.kids[i..]), start, end)
    decreases t, |t.kids| - i
  {
    hide Within, Less;
    WithinNothing(start, end);
    var kid := t.kids[i];
    ScanCorrect(kid, start, end, LoOf(t.keys, lo, i), HiOf(t.keys, hi, i));
    assert t.kids[i..][0] == kid && t.kids[i..][1..] == t.kids[i + 1..];
    WithinConcat(Flatten(kid), FlattenAll(t.kids[i + 1..]), start, end);
    if i < |t.keys| {
      SkippedKid(t, i, start, end, lo, hi);
      if Less(end, t.keys[i]) {
        StoppedKids(t, i, start, end, lo, hi);
      } else {
        ScanKidsCorrect(t, i + 1, start, end, lo, hi);
      }
    }
  }

  lemma WithinNothing(start: Key, end: Key)
    ensures Within([], start, end) == []
  {
  }

  lemma SkippedKid(t: Tree, i: nat, start: Key, end: Key, lo: Option<Key>, hi: Option<Key>)
    requires t.Node? && Ordered(t, lo, hi) && i < |t.keys|
    ensures !Less(start, t.keys[i]) ==> Within(Flatten(t.kids[i]), start, end) == []
  {
    Order();
    var es := Flatten(t.kids[i]);
    OrderedEntries(t.kids[i], LoOf(t.keys, lo, i), HiOf(t.keys, hi, i));
    if !Less(start, t.keys[i]) {
      forall j | 0 <= j < |es| ensures Less(es[j].key, start) {
        assert es[j] in es;
      }
      WithinNone(es, start, end);
    }
  }

  lemma StoppedKids(t: Tree, i: nat, start: Key, end: Key, lo: Option<Key>, hi: Option<Key>)
    requires t.Node? && Ordered(t, lo, hi) && i < |t.keys| && Less(end, t.keys[i])
    ensures Within(FlattenAll(t.kids[i + 1..]), start, end) == []
  {
    Order();
    var es := FlattenAll(t.kids[i + 1..]);
    forall n | 0 <= n < |es| ensures Less(end, es[n].key) {
      var j := FlattenMember(t.kids[i + 1..], es[n]);
      j := i + 1 + j;
      OrderedEntries(t.kids[j], LoOf(t.keys, lo, j), HiOf(t.keys, hi, j));
      assert AtMost(t.keys[j - 1], es[n].key);
    }
    WithinNone(es, start, end);
  }
}
