/** Insertion keeps the tree well formed and sets exactly one key. */
module TreeInsert {
  import opened Bytes
  import opened Entries
  import opened Layout
  import opened Seqs
  import opened TreeModel

  ghost predicate GrownOrdered(g: Grown, lo: Option<Key>, hi: Option<Key>)
  {
    match g
    case One(t) => Ordered(t, lo, hi)
    case Two(l, sep, r) =>
      Over(lo, sep) && Under(sep, hi) && Ordered(l, lo, Some(sep)) && Ordered(r, Some(sep), hi)
  }

  function GrownEntries(g: Grown): seq<Entry>
  {
    match g
    case One(t) => Flatten(t)
    case Two(l, _, r) => Flatten(l) + Flatten(r)
  }

  // ----- search order and contents -----

  lemma UpsertedInside(es: seq<Entry>, k: Key, v: Value, lo: Option<Key>, hi: Option<Key>)
    requires EntriesOrdered(es, lo, hi) && Inside(k, lo, hi)
    ensures EntriesOrdered(Upserted(es, k, v), lo, hi)
  {
    UpsertedSorted(es, k, v);
  }

  lemma LeafCutOrdered(es: seq<Entry>, mid: nat, lo: Option<Key>, hi: Option<Key>)
    requires EntriesOrdered(es, lo, hi) && 0 < mid < |es|
    ensures Over(lo, es[mid].key) && Under(es[mid].key, hi)
    ensures EntriesOrdered(es[..mid], lo, Some(es[mid].key))
    ensures EntriesOrdered(es[mid..], Some(es[mid].key), hi)
  {
    Order();
    assert Less(es[0].key, es[mid].key);
  }

  /** A leaf with no room for an entry of legal size is not empty, so both halves of its cut have entries. */
  lemma FullLeafSplits(es: seq<Entry>, k: Key, v: Value)
    requires LeafFits(es) && !LeafCanFit(es, |k|, |v|) && !Found(es, k)
    requires |k| <= MAX_KEY_SIZE && |v| <= MAX_VALUE_SIZE
    ensures |Upserted(es, k, v)| >= 2
  {
    assert es != [];
  }

  lemma LeafInsOrdered(id: nat, es: seq<Entry>, k: Key, v: Value, newId: nat, lo: Option<Key>, hi: Option<Key>)
    requires LeafFits(es) && EntriesOrdered(es, lo, hi) && Inside(k, lo, hi)
    requires |k| <= MAX_KEY_SIZE && |v| <= MAX_VALUE_SIZE
    ensures GrownOrdered(LeafIns(id, es, k, v, newId), lo, hi)
    ensures GrownEntries(LeafIns(id, es, k, v, newId)) == Upserted(es, k, v)
  {
    hide Less, LowerBound, Found, LeafCanFit, EntriesOrdered, Upserted;
    var all := Upserted(es, k, v);
    UpsertedInside(es, k, v, lo, hi);
    if LeafIns(id, es, k, v, newId).Two? {
      FullLeafSplits(es, k, v);
      LeafCutOrdered(all, |all| / 2, lo, hi);
      TakeDrop(all, |all| / 2);
    }
  }

  lemma SpliceKeys(keys: seq<Key>, i: nat, sep: Key, lo: Option<Key>, hi: Option<Key>)
    requires KeysSorted(keys) && KeysInside(keys, lo, hi) && i <= |keys|
    requires Over(LoOf(keys, lo, i), sep) && Under(sep, HiOf(keys, hi, i))
    ensures KeysSorted(InsertAt(keys, i, sep)) && KeysInside(InsertAt(keys, i, sep), lo, hi)
  {
    Order();
    var all := InsertAt(keys, i, sep);
    forall a | 0 <= a < i ensures Less(keys[a], sep) {
      assert a < i - 1 ==> Less(keys[a], keys[i - 1]);
    }
    forall b | i <= b < |keys| ensures Less(sep, keys[b]) {
      assert b > i ==> Less(keys[i], keys[b]);
    }
    assert forall j :: 0 <= j < |all| ==> all[j] == if j < i then keys[j] else if j == i then sep else keys[j - 1];
  }

  /** Replacing kid `i` by two kids around a new separator. */
  lemma SpliceOrdered(t: Tree, i: nat, l: Tree, sep: Key, r: Tree, lo: Option<Key>, hi: Option<Key>)
    requires t.Node? && Ordered(t, lo, hi) && i < |t.kids|
    requires GrownOrdered(Two(l, sep, r), LoOf(t.keys, lo, i), HiOf(t.keys, hi, i))
    ensures Ordered(Splice(t, i, l, sep, r), lo, hi)
  {
    hide Less;
    var keys, kids := InsertAt(t.keys, i, sep), ReplaceByTwo(t.kids, i, l, r);
    SpliceKeys(t.keys, i, sep, lo, hi);
    InsertAtIndex(t.keys, i, sep);
    ReplaceIndex(t.kids, i, l, r);
    forall j | 0 <= j < |kids| ensures Ordered(kids[j], LoOf(keys, lo, j), HiOf(keys, hi, j)) {
      if j < i {
        assert Ordered(t.kids[j], LoOf(t.keys, lo, j), HiOf(t.keys, hi, j));
      } else if j > i + 1 {
        assert Ordered(t.kids[j - 1], LoOf(t.keys, lo, j - 1), HiOf(t.keys, hi, j - 1));
      }
    }
  }

  lemma SpliceEntries(a: seq<Tree>, l: Tree, r: Tree, c: seq<Tree>)
    ensures FlattenAll(a + [l, r] + c) == FlattenAll(a) + (Flatten(l) + Flatten(r)) + FlattenAll(c)
  {
    FlattenConcat(a + [l, r], c);
    FlattenConcat(a, [l, r]);
    FlattenPair(l, r);
  }

  lemma PrefixOrdered(t: Tree, m: nat, lo: Option<Key>, hi: Option<Key>)
    requires t.Node? && Ordered(t, lo, hi) && m < |t.keys|
    ensures Ordered(Node(t.id, t.keys[..m], t.kids[..m + 1]), lo, Some(t.keys[m]))
  {
    var l := Node(t.id, t.keys[..m], t.kids[..m + 1]);
    forall j | 0 <= j < |l.kids| ensures Ordered(l.kids[j], LoOf(l.keys, lo, j), HiOf(l.keys, Some(t.keys[m]), j)) {
      assert l.kids[j] == t.kids[j];
    }
  }

  lemma SuffixOrdered(t: Tree, m: nat, newId: nat, lo: Option<Key>, hi: Option<Key>)
    requires t.Node? && Ordered(t, lo, hi) && m < |t.keys|
    ensures Ordered(Node(newId, t.keys[m + 1..], t.kids[m + 1..]), Some(t.keys[m]), hi)
  {
    var r := Node(newId, t.keys[m + 1..], t.kids[m + 1..]);
    forall j | 0 <= j < |r.kids| ensures Ordered(r.kids[j], LoOf(r.keys, Some(t.keys[m]), j), HiOf(r.keys, hi, j)) {
      assert r.kids[j] == t.kids[m + 1 + j];
    }
  }

  /** Cutting an ordered node at its middle key. */
  lemma CutOrdered(t: Tree, newId: nat, lo: Option<Key>, hi: Option<Key>)
    requires t.Node? && Ordered(t, lo, hi) && t.keys != []
    ensures GrownOrdered(Cut(t, newId), lo, hi)
    ensures GrownEntries(Cut(t, newId)) == Flatten(t)
  {
    var mid := |t.keys| / 2;
    PrefixOrdered(t, mid, lo, hi);
    SuffixOrdered(t, mid, newId, lo, hi);
    TakeDrop(t.kids, mid + 1);
    FlattenConcat(t.kids[..mid + 1], t.kids[mid + 1..]);
  }

  lemma AbsorbOrdered(t: Tree, i: nat, l: Tree, sep: Key, r: Tree, newId: nat, lo: Option<Key>, hi: Option<Key>)
    requires t.Node? && Ordered(t, lo, hi) && i < |t.kids| == |t.keys| + 1 && InternalFits(t.keys)
    requires GrownOrdered(Two(l, sep, r), LoOf(t.keys, lo, i), HiOf(t.keys, hi, i))
    ensures GrownOrdered(Absorb(t, i, l, sep, r, newId), lo, hi)
    ensures GrownEntries(Absorb(t, i, l, sep, r, newId))
         == FlattenAll(t.kids[..i]) + (Flatten(l) + Flatten(r)) + FlattenAll(t.kids[i + 1..])
  {
    hide Less, Ordered, FlattenAll, Cut;
    SpliceOrdered(t, i, l, sep, r, lo, hi);
    SpliceEntries(t.kids[..i], l, r, t.kids[i + 1..]);
    if !InternalCanFit(t.keys, |sep|) {
      CutOrdered(Splice(t, i, l, sep, r), newId, lo, hi);
    }
  }

  lemma ReplaceKidOrdered(t: Tree, i: nat, kid: Tree, lo: Option<Key>, hi: Option<Key>)
    requires t.Node? && Ordered(t, lo, hi) && i < |t.kids|
    requires Ordered(kid, LoOf(t.keys, lo, i), HiOf(t.keys, hi, i))
    ensures Ordered(Node(t.id, t.keys, t.kids[i := kid]), lo, hi)
    ensures FlattenAll(t.kids[i := kid]) == FlattenAll(t.kids[..i]) + Flatten(kid) + FlattenAll(t.kids[i + 1..])
  {
    FlattenAround(t.kids[i := kid], i);
    assert t.kids[i := kid][..i] == t.kids[..i] && t.kids[i := kid][i + 1..] == t.kids[i + 1..];
  }

  /** Insertion below any node keeps the search order and sets one key. */
  lemma {:induction false} InsOrdered(t: Tree, k: Key, v: Value, ids: seq<nat>, lo: Option<Key>, hi: Option<Key>)
    requires Balanced(t) && PagesFit(t) && |ids| > Height(t) && Ordered(t, lo, hi) && Inside(k, lo, hi)
    requires |k| <= MAX_KEY_SIZE && |v| <= MAX_VALUE_SIZE
    ensures GrownOrdered(Ins(t, k, v, ids), lo, hi)
    ensures GrownEntries(Ins(t, k, v, ids)) == Upserted(Flatten(t), k, v)
    decreases t
  {
    if t.Leaf? {
      LeafInsOrdered(t.id, t.entries, k, v, ids[0], lo, hi);
    } else {
      var i := ChildIndex(t.keys, k);
      ChildInside(t.keys, lo, hi, k);
      InsOrdered(t.kids[i], k, v, ids, LoOf(t.keys, lo, i), HiOf(t.keys, hi, i));
      AroundChild(t, lo, hi, k);
      UpsertedMiddle(FlattenAll(t.kids[..i]), Flatten(t.kids[i]), FlattenAll(t.kids[i + 1..]), k, v);
      match Ins(t.kids[i], k, v, ids)
      case One(kid) => ReplaceKidOrdered(t, i, kid, lo, hi);
      case Two(l, sep, r) => AbsorbOrdered(t, i, l, sep, r, ids[Height(t)], lo, hi);
    }
  }

  // ----- depth -----

  ghost predicate GrownBalanced(g: Grown, h: nat)
  {
    match g
    case One(t) => Balanced(t) && Height(t) == h
    case Two(l, _, r) => Balanced(l) && Height(l) == h && Balanced(r) && Height(r) == h
  }

  lemma UniformBalanced(id: nat, keys: seq<Key>, kids: seq<Tree>, h: nat)
    requires |kids| == |keys| + 1
    requires forall i :: 0 <= i < |kids| ==> Balanced(kids[i]) && Height(kids[i]) == h
    ensures Balanced(Node(id, keys, kids)) && Height(Node(id, keys, kids)) == h + 1
  {
  }

  lemma SpliceBalanced(t: Tree, i: nat, l: Tree, sep: Key, r: Tree)
    requires t.Node? && Balanced(t) && i < |t.kids|
    requires GrownBalanced(Two(l, sep, r), Height(t) - 1)
    ensures GrownBalanced(One(Splice(t, i, l, sep, r)), Height(t))
  {
    ReplaceIndex(t.kids, i, l, r);
    UniformBalanced(t.id, InsertAt(t.keys, i, sep), ReplaceByTwo(t.kids, i, l, r), Height(t) - 1);
  }

  lemma KidsBalanced(t: Tree)
    requires t.Node? && Balanced(t)
    ensures |t.kids| == |t.keys| + 1 && Height(t) > 0
    ensures forall i :: 0 <= i < |t.kids| ==> Balanced(t.kids[i]) && Height(t.kids[i]) == Height(t) - 1
  {
  }

  lemma CutBalanced(t: Tree, newId: nat)
    requires t.Node? && Balanced(t) && t.keys != []
    ensures GrownBalanced(Cut(t, newId), Height(t))
  {
    hide Balanced, Height;
    KidsBalanced(t);
    var mid := |t.keys| / 2;
    UniformBalanced(t.id, t.keys[..mid], t.kids[..mid + 1], Height(t) - 1);
    UniformBalanced(newId, t.keys[mid + 1..], t.kids[mid + 1..], Height(t) - 1);
  }

  lemma {:induction false} InsBalanced(t: Tree, k: Key, v: Value, ids: seq<nat>)
    requires Balanced(t) && PagesFit(t) && |ids| > Height(t)
    ensures GrownBalanced(Ins(t, k, v, ids), Height(t))
    decreases t
  {
    if t.Node? {
      var i := ChildIndex(t.keys, k);
      InsBalanced(t.kids[i], k, v, ids);
      match Ins(t.kids[i], k, v, ids)
      case One(kid) => UniformBalanced(t.id, t.keys, t.kids[i := kid], Height(t) - 1);
      case Two(l, sep, r) =>
        SpliceBalanced(t, i, l, sep, r);
        CutBalanced(Splice(t, i, l, sep, r), ids[Height(t)]);
    }
  }

  // ----- page space -----

  ghost predicate GrownFit(g: Grown)
  {
    match g
    case One(t) => PagesFit(t)
    case Two(l, _, r) => PagesFit(l) && PagesFit(r)
  }

  /** `InsertFits` is the exact condition for every page of the result to fit. */
  lemma {:induction false} InsFits(t: Tree, k: Key, v: Value, ids: seq<nat>)
    requires Balanced(t) && PagesFit(t) && |ids| > Height(t)
    ensures InsertFits(t, k, v) <==> GrownFit(Ins(t, k, v, ids))
    ensures Pushed(t, k, v) == GrownSep(Ins(t, k, v, ids))
    decreases t
  {
    if t.Leaf? {
      LeafInsFits(t.id, t.entries, k, v, ids[0]);
    } else {
      var i := ChildIndex(t.keys, k);
      InsFits(t.kids[i], k, v, ids);
      RegrowFits(t, i, Ins(t.kids[i], k, v, ids), ids[Height(t)]);
    }
  }

  function GrownSep(g: Grown): Option<Key>
  {
    if g.Two? then Some(g.sep) else None
  }

  lemma RegrowFits(t: Tree, i: nat, g: Grown, newId: nat)
    requires t.Node? && i < |t.kids| == |t.keys| + 1 && PagesFit(t)
    ensures GrownFit(Regrow(t, i, g, newId)) <==> GrownFit(g) && NodeTakes(t.keys, i, GrownSep(g))
    ensures GrownSep(Regrow(t, i, g, newId)) == NodePushed(t.keys, i, GrownSep(g))
  {
    match g
    case One(kid) => UpdateFits(t, i, kid);
    case Two(l, sep, r) => AbsorbFits(t, i, l, sep, r, newId);
  }

  ghost predicate AllFit(ts: seq<Tree>)
  {
    forall i :: 0 <= i < |ts| ==> PagesFit(ts[i])
  }

  lemma AllFitConcat(a: seq<Tree>, c: seq<Tree>)
    ensures AllFit(a + c) <==> AllFit(a) && AllFit(c)
  {
    if AllFit(a + c) {
      assert forall i :: 0 <= i < |a| ==> a[i] == (a + c)[i];
      assert forall i :: 0 <= i < |c| ==> c[i] == (a + c)[|a| + i];
    }
  }

  lemma UpdateFits(t: Tree, i: nat, kid: Tree)
    requires t.Node? && PagesFit(t) && i < |t.kids|
    ensures PagesFit(Node(t.id, t.keys, t.kids[i := kid])) <==> PagesFit(kid)
  {
    assert t.kids[i := kid][i] == kid;
  }

  lemma LeafInsFits(id: nat, es: seq<Entry>, k: Key, v: Value, newId: nat)
    requires LeafFits(es)
    ensures LeafTakes(es, k, v) <==> GrownFit(LeafIns(id, es, k, v, newId))
    ensures LeafPushed(es, k, v) == GrownSep(LeafIns(id, es, k, v, newId))
  {
    LeafCanFitExact(es, LowerBound(es, k), Entry(k, v));
  }

  lemma SpliceFits(t: Tree, i: nat, l: Tree, sep: Key, r: Tree)
    requires t.Node? && i < |t.kids| == |t.keys| + 1 && PagesFit(t)
    ensures AllFit(Splice(t, i, l, sep, r).kids) <==> PagesFit(l) && PagesFit(r)
  {
    var kids := ReplaceByTwo(t.kids, i, l, r);
    ReplaceIndex(t.kids, i, l, r);
    assert kids[i] == l && kids[i + 1] == r;
  }

  lemma CutFits(t: Tree, newId: nat)
    requires t.Node? && |t.kids| == |t.keys| + 1 && t.keys != []
    ensures GrownFit(Cut(t, newId)) <==>
            && AllFit(t.kids)
            && InternalFits(t.keys[..|t.keys| / 2]) && InternalFits(t.keys[|t.keys| / 2 + 1..])
  {
    var mid := |t.keys| / 2;
    TakeDrop(t.kids, mid + 1);
    AllFitConcat(t.kids[..mid + 1], t.kids[mid + 1..]);
  }

  lemma AbsorbFits(t: Tree, i: nat, l: Tree, sep: Key, r: Tree, newId: nat)
    requires t.Node? && i < |t.kids| == |t.keys| + 1 && PagesFit(t)
    ensures GrownFit(Absorb(t, i, l, sep, r, newId)) <==>
              PagesFit(l) && PagesFit(r) && NodeTakes(t.keys, i, Some(sep))
  {
    var whole := Splice(t, i, l, sep, r);
    InternalCanFitExact(t.keys, i, sep);
    SpliceFits(t, i, l, sep, r);
    CutFits(whole, newId);
    assert PagesFit(whole) <==> InternalFits(whole.keys) && AllFit(whole.kids);
    hide AllFit, PagesFit, Cut, InternalFits, Splice;
  }

  ghost predicate GrownLegal(g: Grown)
  {
    match g
    case One(t) => Legal(t)
    case Two(l, sep, r) => Legal(l) && |sep| <= MAX_KEY_SIZE && Legal(r)
  }

  lemma {:induction false} InsLegal(t: Tree, k: Key, v: Value, ids: seq<nat>)
    requires Balanced(t) && PagesFit(t) && Legal(t) && |ids| > Height(t)
    requires |k| <= MAX_KEY_SIZE && |v| <= MAX_VALUE_SIZE
    ensures GrownLegal(Ins(t, k, v, ids))
    decreases t
  {
    if t.Leaf? {
      assert LegalEntries(Upserted(t.entries, k, v));
    } else {
      var i := ChildIndex(t.keys, k);
      InsLegal(t.kids[i], k, v, ids);
      match Ins(t.kids[i], k, v, ids)
      case One(kid) =>
      case Two(l, sep, r) => AbsorbLegal(t, i, l, sep, r, ids[Height(t)]);
    }
  }

  lemma AbsorbLegal(t: Tree, i: nat, l: Tree, sep: Key, r: Tree, newId: nat)
    requires t.Node? && i < |t.kids| == |t.keys| + 1 && InternalFits(t.keys) && Legal(t)
    requires GrownLegal(Two(l, sep, r))
    ensures GrownLegal(Absorb(t, i, l, sep, r, newId))
  {
    InsertAtIndex(t.keys, i, sep);
    ReplaceIndex(t.kids, i, l, r);
    CutLegal(Splice(t, i, l, sep, r), newId);
  }

  lemma CutLegal(t: Tree, newId: nat)
    requires t.Node? && |t.kids| == |t.keys| + 1 && t.keys != [] && Legal(t)
    ensures GrownLegal(Cut(t, newId))
  {
  }

  // ----- pages -----

  ghost function GrownIds(g: Grown): set<nat>
  {
    match g
    case One(t) => Ids(t)
    case Two(l, _, r) => Ids(l) + Ids(r)
  }

  ghost predicate GrownSeparate(g: Grown)
  {
    match g
    case One(t) => Separate(t)
    case Two(l, _, r) => Separate(l) && Separate(r) && Ids(l) !! Ids(r)
  }

  /** The first `n` of `ids`. */
  ghost function FirstIds(ids: seq<nat>, n: nat): set<nat>
    requires n <= |ids|
  {
    if n == 0 then {} else FirstIds(ids, n - 1) + {ids[n - 1]}
  }

  lemma KidsDisjoint(t: Tree, i: nat, j: nat)
    requires Separate(t) && t.Node? && i < |t.kids| && j < |t.kids| && i != j
    ensures Ids(t.kids[i]) !! Ids(t.kids[j])
  {
  }

  lemma {:induction false} FirstIdsMember(ids: seq<nat>, n: nat)
    requires n <= |ids|
    ensures forall x :: x in FirstIds(ids, n) <==> exists j :: 0 <= j < n && ids[j] == x
  {
    if n > 0 {
      FirstIdsMember(ids, n - 1);
      assert ids[n - 1] in FirstIds(ids, n);
    }
  }

  lemma NextIdApart(ids: seq<nat>, n: nat, base: set<nat>)
    requires NoRepeats(ids) && n < |ids| && forall j :: 0 <= j < |ids| ==> ids[j] !in base
    ensures FirstIds(ids, n) !! base && ids[n] !in FirstIds(ids, n) + base
  {
    FirstIdsMember(ids, n);
  }

  lemma LeafInsSeparate(id: nat, es: seq<Entry>, k: Key, v: Value, newId: nat)
    requires LeafFits(es) && newId != id
    ensures GrownSeparate(LeafIns(id, es, k, v, newId))
    ensures GrownIds(LeafIns(id, es, k, v, newId)) <= {id, newId}
  {
  }

  /** The result's pages are the old ones and the ones taken from `ids`, none used twice. */
  lemma {:induction false} InsSeparate(t: Tree, k: Key, v: Value, ids: seq<nat>)
    requires Balanced(t) && PagesFit(t) && |ids| > Height(t) && Separate(t)
    requires NoRepeats(ids) && forall j :: 0 <= j < |ids| ==> ids[j] !in Ids(t)
    ensures GrownSeparate(Ins(t, k, v, ids))
    ensures GrownIds(Ins(t, k, v, ids)) <= Ids(t) + FirstIds(ids, Height(t) + 1)
    decreases t
  {
    hide LeafFits, InternalFits, LeafIns, Regrow, GrownSeparate, NoRepeats, Separate, GrownIds;
    if t.Leaf? {
      LeafInsSeparate(t.id, t.entries, k, v, ids[0]);
      assert FirstIds(ids, 1) == {ids[0]} && ids[0] !in Ids(t);
    } else {
      var i, h := ChildIndex(t.keys, k), Height(t);
      KidIds(t, i);
      InsSeparate(t.kids[i], k, v, ids);
      NextIdApart(ids, h, Ids(t));
      RegrowSeparate(t, i, Ins(t.kids[i], k, v, ids), ids[h], FirstIds(ids, h));
    }
  }

  lemma RegrowSeparate(t: Tree, i: nat, g: Grown, newId: nat, taken: set<nat>)
    requires t.Node? && Separate(t) && i < |t.kids| == |t.keys| + 1 && InternalFits(t.keys)
    requires taken !! Ids(t) && newId !in Ids(t) + taken
    requires GrownSeparate(g) && GrownIds(g) <= Ids(t.kids[i]) + taken
    ensures GrownSeparate(Regrow(t, i, g, newId))
    ensures GrownIds(Regrow(t, i, g, newId)) <= Ids(t) + taken + {newId}
  {
    match g
    case One(kid) => ReplaceKidSeparate(t, i, kid, taken);
    case Two(l, sep, r) => AbsorbSeparate(t, i, l, sep, r, newId, taken);
  }

  lemma ReplaceKidSeparate(t: Tree, i: nat, kid: Tree, taken: set<nat>)
    requires t.Node? && Separate(t) && i < |t.kids| && taken !! Ids(t)
    requires Separate(kid) && Ids(kid) <= Ids(t.kids[i]) + taken
    ensures Separate(Node(t.id, t.keys, t.kids[i := kid]))
    ensures Ids(Node(t.id, t.keys, t.kids[i := kid])) <= Ids(t) + taken
  {
    var kids := t.kids[i := kid];
    forall a, b | 0 <= a < b < |kids| ensures Ids(kids[a]) !! Ids(kids[b]) {
      KidsDisjoint(t, a, b);
      assert Ids(t.kids[a]) <= Ids(t) && Ids(t.kids[b]) <= Ids(t);
    }
  }

  lemma KidIds(t: Tree, i: nat)
    requires t.Node? && Separate(t) && i < |t.kids|
    ensures Separate(t.kids[i]) && Ids(t.kids[i]) <= Ids(t) - {t.id}
  {
  }

  /** The kids of a node after one was replaced by two. */
  lemma SplicedKids(t: Tree, i: nat, l: Tree, sep: Key, r: Tree, taken: set<nat>)
    requires t.Node? && Separate(t) && i < |t.kids|
    requires taken !! Ids(t)
    requires GrownSeparate(Two(l, sep, r)) && Ids(l) + Ids(r) <= Ids(t.kids[i]) + taken
    ensures var kids := ReplaceByTwo(t.kids, i, l, r);
            && (forall a :: 0 <= a < |kids| ==> Separate(kids[a]) && Ids(kids[a]) <= Ids(t) - {t.id} + taken)
            && (forall a, b :: 0 <= a < b < |kids| ==> Ids(kids[a]) !! Ids(kids[b]))
  {
    hide Ids, Separate;
    var kids := ReplaceByTwo(t.kids, i, l, r);
    ReplaceIndex(t.kids, i, l, r);
    forall a | 0 <= a < |kids| ensures Separate(kids[a]) && Ids(kids[a]) <= Ids(t) - {t.id} + taken {
      KidIds(t, if a <= i then a else a - 1);
      KidIds(t, i);
    }
    forall a, b | 0 <= a < b < |kids| ensures Ids(kids[a]) !! Ids(kids[b]) {
      var a', b' := if a <= i then a else a - 1, if b <= i then b else b - 1;
      if a' != b' {
        KidIds(t, a');
        KidIds(t, b');
        KidsDisjoint(t, a', b');
      }
    }
  }

  /** A node built from some of these kids. */
  lemma NodeSeparate(id: nat, keys: seq<Key>, kids: seq<Tree>, from: set<nat>)
    requires forall a :: 0 <= a < |kids| ==> Separate(kids[a]) && Ids(kids[a]) <= from
    requires forall a, b :: 0 <= a < b < |kids| ==> Ids(kids[a]) !! Ids(kids[b])
    requires id !in from
    ensures Separate(Node(id, keys, kids)) && Ids(Node(id, keys, kids)) <= from + {id}
  {
  }

  lemma OwnPage(t: Tree)
    ensures t.id in Ids(t)
  {
  }

  /** A node with the kids of `t` from `from` up to `to`. */
  lemma PartSeparate(t: Tree, from: nat, to: nat, part: Tree)
    requires t.Node? && Separate(t) && from <= to <= |t.kids| && part.Node? && part.id !in Ids(t) - {t.id}
    requires part.kids == t.kids[from..to]
    ensures Separate(part) && Ids(part) <= Ids(t) - {t.id} + {part.id}
  {
    hide Ids, Separate;
    var kids := part.kids;
    forall a | 0 <= a < |kids| ensures Separate(kids[a]) && Ids(kids[a]) <= Ids(t) - {t.id} {
      KidIds(t, from + a);
    }
    forall a, b | 0 <= a < b < |kids| ensures Ids(kids[a]) !! Ids(kids[b]) {
      KidsDisjoint(t, from + a, from + b);
    }
    NodeSeparate(part.id, part.keys, kids, Ids(t) - {t.id});
  }

  lemma CutSeparate(t: Tree, newId: nat)
    requires t.Node? && |t.kids| == |t.keys| + 1 && t.keys != [] && Separate(t) && newId !in Ids(t)
    ensures GrownSeparate(Cut(t, newId)) && GrownIds(Cut(t, newId)) <= Ids(t) + {newId}
  {
    hide Ids, Separate, InternalFits;
    OwnPage(t);
    var mid := |t.keys| / 2;
    var l, r := Cut(t, newId).left, Cut(t, newId).right;
    PartSeparate(t, 0, mid + 1, l);
    PartSeparate(t, mid + 1, |t.kids|, r);
    forall a | 0 <= a < |t.kids| ensures Ids(t.kids[a]) <= Ids(t) - {t.id} {
      KidIds(t, a);
    }
    forall a, b | 0 <= a < |l.kids| && 0 <= b < |r.kids| ensures Ids(l.kids[a]) !! Ids(r.kids[b]) {
      KidsDisjoint(t, a, mid + 1 + b);
    }
    HalvesDisjoint(l, r);
  }

  lemma HalvesDisjoint(l: Tree, r: Tree)
    requires l.Node? && r.Node? && l.id != r.id
    requires forall a :: 0 <= a < |l.kids| ==> r.id !in Ids(l.kids[a])
    requires forall b :: 0 <= b < |r.kids| ==> l.id !in Ids(r.kids[b])
    requires forall a, b :: 0 <= a < |l.kids| && 0 <= b < |r.kids| ==> Ids(l.kids[a]) !! Ids(r.kids[b])
    ensures Ids(l) !! Ids(r)
  {
  }

  lemma AbsorbSeparate(t: Tree, i: nat, l: Tree, sep: Key, r: Tree, newId: nat, taken: set<nat>)
    requires t.Node? && Separate(t) && i < |t.kids| == |t.keys| + 1 && InternalFits(t.keys)
    requires taken !! Ids(t) && newId !in Ids(t) + taken
    requires GrownSeparate(Two(l, sep, r)) && Ids(l) + Ids(r) <= Ids(t.kids[i]) + taken
    ensures GrownSeparate(Absorb(t, i, l, sep, r, newId))
    ensures GrownIds(Absorb(t, i, l, sep, r, newId)) <= Ids(t) + taken + {newId}
  {
    assert t.id in Ids(t);
    hide Ids, Separate, Cut;
    var whole := Splice(t, i, l, sep, r);
    SplicedKids(t, i, l, sep, r, taken);
    NodeSeparate(t.id, whole.keys, whole.kids, Ids(t) - {t.id} + taken);
    CutSeparate(whole, newId);
  }
}
