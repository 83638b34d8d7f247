/** Trees whose entries differ in size by no more than a factor of two: new keys never make a page overflow. */
module SimilarSizes {
  import opened Entries
  import opened Layout
  import opened Seqs
  import opened TreeModel
  import opened TreeInsert
  import opened TreeLaws
  import opened FixedSize

  /** The bytes an entry takes in a leaf, with its slot, and a key in an internal node. */
  function EntryCost(e: Entry): nat
  {
    LEAF_SLOT_SIZE + |e.key| + |e.value|
  }

  function KeyCost(k: Key): nat
  {
    INTERNAL_SLOT_SIZE + |k|
  }

  /** An entry costs from `c` to `2 * c` bytes, and its key, as a separator, from `d` to `2 * d`. */
  predicate SimilarEntry(e: Entry, c: nat, d: nat)
  {
    c <= EntryCost(e) <= 2 * c && SimilarKey(e.key, d)
  }

  predicate SimilarKey(k: Key, d: nat)
  {
    d <= KeyCost(k) <= 2 * d
  }

  ghost predicate SimilarEntries(es: seq<Entry>, c: nat, d: nat)
  {
    forall i :: 0 <= i < |es| ==> SimilarEntry(es[i], c, d)
  }

  ghost predicate SimilarKeys(keys: seq<Key>, d: nat)
  {
    forall i :: 0 <= i < |keys| ==> SimilarKey(keys[i], d)
  }

  ghost predicate Similar(t: Tree, c: nat, d: nat)
  {
    match t
    case Leaf(_, es) => SimilarEntries(es, c, d)
    case Node(_, keys, kids) => SimilarKeys(keys, d) && forall i :: 0 <= i < |kids| ==> Similar(kids[i], c, d)
  }

  ghost predicate GrownSimilar(g: Grown, c: nat, d: nat)
  {
    match g
    case One(t) => Similar(t, c, d)
    case Two(l, sep, r) => Similar(l, c, d) && SimilarKey(sep, d) && Similar(r, c, d)
  }

  // ----- leaves -----

  lemma {:induction false} LeafCostAtLeast(es: seq<Entry>, c: nat)
    requires forall i :: 0 <= i < |es| ==> EntryCost(es[i]) >= c
    ensures LeafCost(es) >= c * |es|
  {
    if es != [] {
      LeafCostAtLeast(es[1..], c);
      assert c * |es| == c * |es[1..]| + c;
    }
  }

  lemma {:induction false} LegalLeafCost(es: seq<Entry>)
    requires LegalEntries(es)
    ensures LeafCost(es) <= 2006 * |es|
  {
    if es != [] {
      LegalLeafCost(es[1..]);
    }
  }

  lemma TwoLegalFit(es: seq<Entry>)
    requires LegalEntries(es) && |es| <= 2
    ensures LeafFits(es)
  {
    LegalLeafCost(es);
  }

  lemma OneEntryCost(e: Entry)
    ensures LeafCost([e]) == EntryCost(e)
  {
    LeafDataOne(e);
  }

  lemma AllLegal(es: seq<Entry>, i: nat, e: Entry, c: nat)
    requires i <= |es| && LegalEntries(es + [e])
    requires (forall j :: 0 <= j < |es| ==> EntryCost(es[j]) >= c) && EntryCost(e) >= c
    ensures var all := es[..i] + [e] + es[i..];
            LegalEntries(all) && forall j :: 0 <= j < |all| ==> EntryCost(all[j]) >= c
  {
    InsertAtIndex(es, i, e);
    assert (es + [e])[|es|] == e && forall j :: 0 <= j < |es| ==> (es + [e])[j] == es[j];
  }

  /** Half of an overflowing leaf fits: two entries always do, and more leave at least two for the other half. */
  lemma HalvesFit(es: seq<Entry>, i: nat, e: Entry, mid: nat, c: nat)
    requires LeafFits(es) && i <= |es| && EntryCost(e) <= 2 * c
    requires var all := es[..i] + [e] + es[i..];
             && mid == |all| / 2 && LegalEntries(all) && forall j :: 0 <= j < |all| ==> EntryCost(all[j]) >= c
    ensures var all := es[..i] + [e] + es[i..]; LeafFits(all[..mid]) && LeafFits(all[mid..])
  {
    hide LeafCost, LeafFits, EntryCost;
    var all := es[..i] + [e] + es[i..];
    LeafSplitFits(es, i, e, mid);
    OneEntryCost(e);
    LeafCostAtLeast(all[..mid], c);
    LeafCostAtLeast(all[mid..], c);
    FitsByOther(es, i, e, mid, c);
    if mid <= 2 {
      TwoLegalFit(all[..mid]);
    }
    if |all| - mid <= 2 {
      TwoLegalFit(all[mid..]);
    }
  }

  lemma FitsByOther(es: seq<Entry>, i: nat, e: Entry, mid: nat, c: nat)
    requires LeafFits(es) && i <= |es| && mid <= |es| && EntryCost(e) <= 2 * c
    requires var all := es[..i] + [e] + es[i..];
             LeafCost(all[..mid]) >= c * mid && LeafCost(all[mid..]) >= c * (|all| - mid)
    ensures var all := es[..i] + [e] + es[i..];
            (|all| - mid >= 2 ==> LeafFits(all[..mid])) && (mid >= 2 ==> LeafFits(all[mid..]))
  {
    hide LeafCost, LeafFits, EntryCost;
    var all := es[..i] + [e] + es[i..];
    LeafSplitFits(es, i, e, mid);
    OneEntryCost(e);
    FitsWithin(es);
    if mid >= 2 {
      FewerFit(c, 2, mid);
    }
    if |all| - mid >= 2 {
      FewerFit(c, 2, |all| - mid);
    }
  }

  lemma FitsWithin(es: seq<Entry>)
    requires LeafFits(es)
    ensures LEAF_SLOTS_OFFSET + LeafCost(es) <= PAGE_SIZE
  {
  }

  lemma SimilarLeafTakes(es: seq<Entry>, k: Key, v: Value, c: nat, d: nat)
    requires LeafFits(es) && SimilarEntries(es, c, d) && SimilarEntry(Entry(k, v), c, d) && LegalEntries(es)
    requires |k| <= MAX_KEY_SIZE && |v| <= MAX_VALUE_SIZE && !Found(es, k)
    ensures LeafTakes(es, k, v)
  {
    hide LeafFits, LeafCanFit;
    var i, e := LowerBound(es, k), Entry(k, v);
    AllLegal(es, i, e, c);
    var all := es[..i] + [e] + es[i..];
    if es != [] {
      HalvesFit(es, i, e, |all| / 2, c);
    } else {
      TwoLegalFit(all[..0]);
      TwoLegalFit(all[0..]);
    }
  }

  // ----- internal nodes -----

  lemma {:induction false} KeyCostAtLeast(keys: seq<Key>, d: nat)
    requires forall i :: 0 <= i < |keys| ==> KeyCost(keys[i]) >= d
    ensures InternalCost(keys) >= d * |keys|
  {
    if keys != [] {
      KeyCostAtLeast(keys[1..], d);
      assert d * |keys| == d * |keys[1..]| + d;
    }
  }

  lemma KeyDataOne(k: Key)
    ensures KeyData([k]) == |k|
  {
    assert [k][1..] == [];
  }

  lemma NoKeysFit(k: Key)
    requires |k| <= MAX_KEY_SIZE
    ensures InternalCanFit([], |k|)
  {
  }

  lemma OneLegalKey(keys: seq<Key>)
    requires |keys| <= 1 && forall i :: 0 <= i < |keys| ==> |keys[i]| <= MAX_KEY_SIZE
    ensures InternalFits(keys)
  {
  }

  lemma SimilarNodeTakes(keys: seq<Key>, i: nat, sep: Key, d: nat)
    requires InternalFits(keys) && i <= |keys| && SimilarKeys(keys, d) && SimilarKey(sep, d)
    requires LegalKeys(keys) && |sep| <= MAX_KEY_SIZE
    ensures NodeTakes(keys, i, Some(sep))
    ensures SimilarKeys(InsertAt(keys, i, sep), d)
  {
    hide KeyData;
    var all := InsertAt(keys, i, sep);
    InsertAtIndex(keys, i, sep);
    if !InternalCanFit(keys, |sep|) {
      var mid := |all| / 2;
      KeyDataOne(sep);
      if mid <= |keys| {
        InternalSplitFits(keys, i, sep, mid);
        KeyCostAtLeast(all[mid..], d);
        KeyCostAtLeast(all[..mid + 1], d);
        NoKeysFit(sep);
        FewerFit(d, 2, mid + 1);
        if |all| - mid >= 2 {
          FewerFit(d, 2, |all| - mid);
        } else {
          OneLegalKey(all[..mid]);
        }
      }
    }
  }

  lemma CutSimilar(t: Tree, newId: nat, c: nat, d: nat)
    requires t.Node? && |t.kids| == |t.keys| + 1 && t.keys != [] && Similar(t, c, d)
    ensures GrownSimilar(Cut(t, newId), c, d)
  {
  }

  ghost predicate SepLegal(g: Grown)
  {
    g.Two? ==> |g.sep| <= MAX_KEY_SIZE
  }

  lemma RegrowSimilar(t: Tree, i: nat, g: Grown, newId: nat, c: nat, d: nat)
    requires t.Node? && i < |t.kids| == |t.keys| + 1 && InternalFits(t.keys) && LegalKeys(t.keys) && SepLegal(g)
    requires Similar(t, c, d) && GrownSimilar(g, c, d)
    ensures GrownSimilar(Regrow(t, i, g, newId), c, d) && NodeTakes(t.keys, i, GrownSep(g))
  {
    match g
    case One(_) =>
    case Two(l, sep, r) =>
      SimilarNodeTakes(t.keys, i, sep, d);
      ReplaceIndex(t.kids, i, l, r);
      CutSimilar(Splice(t, i, l, sep, r), newId, c, d);
  }

  // ----- trees -----

  /** A value that replaces another grows by no more than the leaf's free space. */
  ghost predicate ReplacesWithin(t: Tree, k: Key, v: Value)
    requires Balanced(t)
  {
    var es := LeafFor(t, k);
    Lookup(es, k).Some? && LeafFits(es) ==> |v| <= |Lookup(es, k).value| + LeafFreeSpace(es)
  }

  lemma UpsertedSimilar(es: seq<Entry>, k: Key, v: Value, c: nat, d: nat)
    requires SimilarEntries(es, c, d) && SimilarEntry(Entry(k, v), c, d)
    ensures SimilarEntries(Upserted(es, k, v), c, d)
  {
    hide SimilarEntry;
    InsertAtIndex(es, LowerBound(es, k), Entry(k, v));
  }

  lemma LeafInsSimilar(id: nat, es: seq<Entry>, k: Key, v: Value, newId: nat, c: nat, d: nat)
    requires LeafFits(es) && SimilarEntries(es, c, d) && SimilarEntry(Entry(k, v), c, d) && LegalEntries(es)
    requires |k| <= MAX_KEY_SIZE && |v| <= MAX_VALUE_SIZE
    ensures GrownSimilar(LeafIns(id, es, k, v, newId), c, d)
  {
    UpsertedSimilar(es, k, v, c, d);
    if !Found(es, k) && !LeafCanFit(es, |k|, |v|) {
      FullLeafSplits(es, k, v);
    }
  }

  lemma {:induction false} InsSimilar(t: Tree, k: Key, v: Value, ids: seq<nat>, c: nat, d: nat)
    requires Balanced(t) && PagesFit(t) && Legal(t) && |ids| > Height(t)
    requires Similar(t, c, d) && SimilarEntry(Entry(k, v), c, d) && ReplacesWithin(t, k, v)
    requires |k| <= MAX_KEY_SIZE && |v| <= MAX_VALUE_SIZE
    ensures InsertFits(t, k, v) && GrownSimilar(Ins(t, k, v, ids), c, d)
    decreases t
  {
    if t.Leaf? {
      LeafInsSimilar(t.id, t.entries, k, v, ids[0], c, d);
      if Found(t.entries, k) {
        OverwriteFits(t, k, v);
      } else {
        SimilarLeafTakes(t.entries, k, v, c, d);
      }
    } else {
      var i := ChildIndex(t.keys, k);
      InsSimilar(t.kids[i], k, v, ids, c, d);
      InsFits(t.kids[i], k, v, ids);
      InsLegal(t.kids[i], k, v, ids);
      RegrowSimilar(t, i, Ins(t.kids[i], k, v, ids), ids[Height(t)], c, d);
    }
  }

  /** With entries of similar size no new key ever makes a page overflow, however deep the splits go; and a replaced
      value fits exactly when the leaf has room for its growth. */
  lemma SimilarInsertFits(t: Tree, k: Key, v: Value, ids: seq<nat>, c: nat, d: nat)
    requires WellFormed(t) && |ids| > Height(t) + 1 && Similar(t, c, d) && SimilarEntry(Entry(k, v), c, d)
    requires |k| <= MAX_KEY_SIZE && |v| <= MAX_VALUE_SIZE
    ensures InsertFits(t, k, v) <==> ReplacesWithin(t, k, v)
    ensures InsertFits(t, k, v) ==> Similar(Insert(t, k, v, ids), c, d)
  {
    if ReplacesWithin(t, k, v) {
      InsSimilar(t, k, v, ids, c, d);
    } else {
      OverwriteFits(t, k, v);
    }
  }

  lemma {:induction false} DeleteSimilar(t: Tree, k: Key, c: nat, d: nat)
    requires Balanced(t) && Similar(t, c, d)
    ensures Similar(Delete(t, k), c, d)
    decreases t
  {
    if t.Node? {
      DeleteSimilar(t.kids[ChildIndex(t.keys, k)], k, c, d);
    }
  }
}
