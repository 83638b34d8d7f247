/** How an insertion climbs from a split leaf towards the root: what each step needs and what it leaves. */
module Ascents {
  import opened Bytes
  import opened Entries
  import opened Layout
  import opened TreeModel
  import opened TreeInsert
  import opened TreeLaws
  import opened Pages
  import opened NodePages
  import opened Pagers
  import opened MetaPages
  import opened TreeStore

  // ----- page numbers taken on the way -----

  /** `n` page numbers were taken. */
  ghost predicate Taken(freelist: seq<u32>, meta: Meta, freelist': seq<u32>, meta': Meta, n: nat)
  {
    && (forall j: nat :: NthFree(freelist', meta'.nextPageId, j) == NthFree(freelist, meta.nextPageId, n + j))
    && meta.nextPageId <= meta'.nextPageId <= meta.nextPageId + n && meta' == meta.(nextPageId := meta'.nextPageId)
    && |freelist'| <= |freelist|
  }

  /** At most `n` page numbers were taken, and nothing else of the meta changed. */
  ghost predicate Spent(freelist: seq<u32>, meta: Meta, freelist': seq<u32>, meta': Meta, n: nat)
  {
    && meta' == meta.(nextPageId := meta'.nextPageId) && |freelist'| <= |freelist|
    && meta.nextPageId <= meta'.nextPageId <= meta.nextPageId + n
  }

  lemma TakenMore(fl: seq<u32>, m: Meta, fl': seq<u32>, m': Meta, fl'': seq<u32>, m'': Meta, n: nat)
    requires Taken(fl, m, fl', m', n) && Taken(fl', m', fl'', m'', 1)
    ensures Taken(fl, m, fl'', m'', n + 1)
  {
    hide NthFree;
    forall j: nat ensures NthFree(fl'', m''.nextPageId, j) == NthFree(fl, m.nextPageId, n + 1 + j) {
      assert NthFree(fl'', m''.nextPageId, j) == NthFree(fl', m'.nextPageId, 1 + j);
    }
  }

  /** The next page number after `n` were taken. */
  lemma TakenNext(fl: seq<u32>, m: Meta, fl': seq<u32>, m': Meta, n: nat, total: nat)
    requires Taken(fl, m, fl', m', n) && n < total
    ensures NthFree(fl', m'.nextPageId, 0) == Upcoming(fl, m.nextPageId, total)[n]
  {
  }

  // ----- climbing -----

  /** The subtree `s` at place `n` of the trail has grown into `g`, which lies in the file; nothing else of
      the old file changed. */
  ghost predicate Climbed(t: Tree, k: Key, v: Value, ids: seq<nat>, n: nat, s: Tree, g: Grown,
                          f0: seq<Page>, live0: set<nat>, f: seq<Page>, live: set<nat>)
  {
    && Balanced(t) && n <= Height(t) && s == Trail(t, k)[n]
    && Balanced(s) && PagesFit(s) && |ids| > Height(s) && g == Ins(s, k, v, ids)
    && GrownStored(f, g) && live0 <= live && GrownIds(g) <= Ids(s) + (live - live0)
    && SameExcept(f0, f, Ids(s) + (live - live0))
  }

  /** What stays true of the tree as it was all the way up. */
  ghost predicate Start(t: Tree, k: Key, v: Value, ids: seq<nat>, f0: seq<Page>, live0: set<nat>)
  {
    Ready(t, k, v, None, None) && Stored(f0, t) && Ids(t) <= live0 && |ids| > Height(t) + 1
  }

  /** `p` is the node above `s` on the trail. */
  ghost predicate Parent(t: Tree, k: Key, n: nat, s: Tree, p: Tree)
  {
    && Balanced(t) && 0 < n <= Height(t) && p == Trail(t, k)[n - 1] && Height(p) == Height(s) + 1
    && p.Node? && |p.kids| == |p.keys| + 1 && s == p.kids[ChildIndex(p.keys, k)] && Balanced(p) && PagesFit(p)
  }

  lemma OwnId(t: Tree)
    ensures t.id in Ids(t)
  {
  }

  lemma KidOf(t: Tree, i: nat)
    requires t.Node? && i < |t.kids|
    ensures Ids(t.kids[i]) <= Ids(t)
  {
  }

  lemma SameExceptMore(f: seq<Page>, g: seq<Page>, a: set<nat>, b: set<nat>)
    requires SameExcept(f, g, a) && a <= b
    ensures SameExcept(f, g, b)
  {
  }

  /** A separator that comes up lands at the place the descent took, and the parent can take it. */
  lemma SeparatorLands(p: Tree, k: Key, v: Value, ids: seq<nat>, lo: Option<Key>, hi: Option<Key>)
    requires Ready(p, k, v, lo, hi) && p.Node? && |ids| > Height(p)
    ensures var i := ChildIndex(p.keys, k);
            && i < |p.kids| == |p.keys| + 1 && InternalFits(p.keys) && Balanced(p.kids[i]) && PagesFit(p.kids[i])
            && |ids| > Height(p.kids[i])
            && var g := Ins(p.kids[i], k, v, ids);
               g.Two? ==> KeyPosition(p.keys, g.sep) == i && NodeTakes(p.keys, i, Some(g.sep))
  {
    var i := ChildIndex(p.keys, k);
    ReadyKid(p, k, v, lo, hi);
    hide Ids, Separate, Less, LeafTakes, KeyPosition, NodeTakes, InternalFits;
    InsOrdered(p.kids[i], k, v, ids, LoOf(p.keys, lo, i), HiOf(p.keys, hi, i));
    InsFits(p.kids[i], k, v, ids);
    var g := Ins(p.kids[i], k, v, ids);
    if g.Two? {
      SeparatorPosition(p.keys, i, g.sep, lo, hi);
    }
  }

  lemma ParentOf(t: Tree, k: Key, v: Value, ids: seq<nat>, n: nat, s: Tree, f0: seq<Page>, live0: set<nat>)
    returns (p: Tree, lo: Option<Key>, hi: Option<Key>)
    requires Start(t, k, v, ids, f0, live0) && Balanced(t) && 0 < n <= Height(t) && s == Trail(t, k)[n]
    ensures Parent(t, k, n, s, p) && Ready(p, k, v, lo, hi) && Stored(f0, p) && Ids(p) <= live0 && |ids| > Height(p)
    ensures Separate(p)
  {
    hide Stored, Ids, Separate, PagesFit, Legal, Ordered;
    lo, hi := TrailReady(t, k, v, None, None, n - 1);
    TrailStored(t, k, f0, n - 1);
    TrailStored(t, k, f0, n);
    p := Trail(t, k)[n - 1];
    ReadyBalanced(p, k, v, lo, hi);
  }

  /** Everything the parent of a split node needs to take in the two halves. */
  lemma ParentReady(t: Tree, k: Key, v: Value, ids: seq<nat>, n: nat, s: Tree, g: Grown,
                    f0: seq<Page>, live0: set<nat>, f: seq<Page>, live: set<nat>) returns (p: Tree)
    requires Start(t, k, v, ids, f0, live0) && 0 < n && Climbed(t, k, v, ids, n, s, g, f0, live0, f, live) && g.Two?
    ensures Parent(t, k, n, s, p) && InternalFits(p.keys) && p.id in live && NodeAt(f, p)
    ensures var i := ChildIndex(p.keys, k);
            && KeyPosition(p.keys, g.sep) == i && NodeTakes(p.keys, i, Some(g.sep))
            && KidsStored(f, Splice(p, i, g.left, g.sep, g.right).kids, live, p.id)
  {
    hide Start, Ready, NodeAt, Stored, Ids, Separate, Ins, KeyPosition, NodeTakes, InternalFits, Splice, SameExcept,
        KidsStored;
    var lo, hi;
    p, lo, hi := ParentOf(t, k, v, ids, n, s, f0, live0);
    SeparatorLands(p, k, v, ids, lo, hi);
    OwnId(p);
    SplicedStored(f0, f, p, ChildIndex(p.keys, k), g.left, g.sep, g.right, Ids(s) + (live - live0), live0, live);
  }

  lemma AbsorbIds(t: Tree, i: nat, l: Tree, sep: Key, r: Tree, newId: nat)
    requires t.Node? && i < |t.kids| == |t.keys| + 1 && InternalFits(t.keys)
    ensures var g := Absorb(t, i, l, sep, r, newId);
            GrownIds(g) <= Ids(t) + Ids(l) + Ids(r) + (if g.One? then {} else {newId})
  {
    hide InternalFits, InternalCanFit;
    var s := Splice(t, i, l, sep, r);
    assert Ids(s) <= Ids(t) + Ids(l) + Ids(r);
    if s.keys != [] {
      assert GrownIds(Cut(s, newId)) <= Ids(s) + {newId};
    }
  }

  /** One step up, once the parent has taken in the halves. */
  lemma ClimbedUp(t: Tree, k: Key, v: Value, ids: seq<nat>, n: nat, s: Tree, g: Grown, p: Tree, g': Grown,
                  f0: seq<Page>, live0: set<nat>, f: seq<Page>, live: set<nat>, f': seq<Page>, live': set<nat>)
    requires Climbed(t, k, v, ids, n, s, g, f0, live0, f, live) && g.Two? && Parent(t, k, n, s, p)
    requires InternalFits(p.keys) && |ids| > Height(p)
    requires g' == Absorb(p, ChildIndex(p.keys, k), g.left, g.sep, g.right, ids[Height(p)]) && GrownStored(f', g')
    requires live' == live + (if g'.One? then {} else {ids[Height(p)]}) && (g'.Two? ==> ids[Height(p)] !in live)
    requires SameExcept(f, f', {p.id} + (live' - live))
    ensures Climbed(t, k, v, ids, n - 1, p, g', f0, live0, f', live')
  {
    hide InternalFits, SameExcept, Absorb, Ids, GrownStored, Trail;
    var i := ChildIndex(p.keys, k);
    AbsorbIds(p, i, g.left, g.sep, g.right, ids[Height(p)]);
    OwnId(p);
    KidOf(p, i);
    var a, c := Ids(s) + (live - live0), {p.id} + (live' - live);
    SameExceptTrans(f0, f, f', a, c);
    SameExceptMore(f0, f', a + c, Ids(p) + (live' - live0));
  }

  /** The tree after the insertion lies in the file, on the old tree's pages and new ones. */
  ghost predicate Placed(t: Tree, t': Tree, f0: seq<Page>, live0: set<nat>, f: seq<Page>, live: set<nat>)
  {
    && Stored(f, t') && live0 <= live
    && Ids(t') <= Ids(t) + (live - live0)
    && SameExcept(f0, f, Ids(t) + (live - live0))
  }

  /** A node that took everything in without splitting: the whole tree is in place. */
  lemma ClimbedOne(t: Tree, k: Key, v: Value, ids: seq<nat>, n: nat, s: Tree, g: Grown,
                   f0: seq<Page>, live0: set<nat>, f: seq<Page>, live: set<nat>)
    requires Start(t, k, v, ids, f0, live0) && Climbed(t, k, v, ids, n, s, g, f0, live0, f, live) && g.One?
    requires Balanced(t) && PagesFit(t) && |ids| > Height(t) + 1
    ensures Placed(t, Insert(t, k, v, ids), f0, live0, f, live) && Insert(t, k, v, ids).id == t.id
  {
    hide NodeAt, Ins, SameExcept, Ids, Separate, Stored, PagesFit;
    OneKeepsId(t, k, v, ids);
    assert Separate(t) by { ReadyBalanced(t, k, v, None, None); }
    TrailStored(t, k, f0, n);
    var changed := Ids(s) + (live - live0);
    assert changed * Ids(t) <= Ids(s);
    LiftOne(t, k, v, ids, n, f0, f, changed);
    SameExceptMore(f0, f, changed, Ids(t) + (live - live0));
  }

  lemma ClimbedTop(t: Tree, k: Key, v: Value, ids: seq<nat>, s: Tree, g: Grown,
                   f0: seq<Page>, live0: set<nat>, f: seq<Page>, live: set<nat>)
    requires Climbed(t, k, v, ids, 0, s, g, f0, live0, f, live)
    ensures s == t
  {
  }

  /** A root that split, under a new root. */
  lemma ClimbedRoot(t: Tree, k: Key, v: Value, ids: seq<nat>, g: Grown, rootId: nat,
                    f0: seq<Page>, live0: set<nat>, f: seq<Page>, live: set<nat>, f': seq<Page>)
    requires Climbed(t, k, v, ids, 0, t, g, f0, live0, f, live) && g.Two?
    requires Balanced(t) && PagesFit(t) && |ids| > Height(t) + 1 && rootId == ids[Height(t) + 1]
    requires SameExcept(f, f', {rootId}) && rootId !in live && Start(t, k, v, ids, f0, live0)
    requires NodeAt(f', Node(rootId, [g.sep], [g.left, g.right]))
    ensures Insert(t, k, v, ids) == Node(rootId, [g.sep], [g.left, g.right])
    ensures Placed(t, Insert(t, k, v, ids), f0, live0, f', live + {rootId})
  {
    hide NodeAt, Ins, SameExcept, PagesFit;
    StoredKept(f, f', g.left, {rootId});
    StoredKept(f, f', g.right, {rootId});
    var a := Ids(t) + (live - live0);
    SameExceptTrans(f0, f, f', a, {rootId});
    assert a + {rootId} == Ids(t) + (live + {rootId} - live0);
  }

  /** `t'` is `t` after the insertion: the same map with just that key set. */
  ghost predicate Inserted(t: Tree, k: Key, v: Value, t': Tree, ids: seq<nat>)
  {
    && Balanced(t) && PagesFit(t) && |ids| > Height(t) + 1 && t' == Insert(t, k, v, ids)
    && Flatten(t') == Upserted(Flatten(t), k, v) && Height(t) <= Height(t') <= Height(t) + 1
  }

  // ----- at the leaf -----

  /** What the descent finds: the leaf, whole on its page, able to take the entry. */
  lemma LeafFound(t: Tree, k: Key, v: Value, ids: seq<nat>, f: seq<Page>, live: set<nat>) returns (leaf: Tree)
    requires Start(t, k, v, ids, f, live)
    ensures Balanced(t) && |Trail(t, k)| == Height(t) + 1 && leaf == Trail(t, k)[Height(t)] && leaf.Leaf?
        && Height(leaf) == 0
    ensures PathOf(Trail(t, k), k)[Height(t)].0 == leaf.id && NodeAt(f, leaf) && leaf.id in live && |ids| > 1
    ensures Sorted(leaf.entries) && LeafFits(leaf.entries) && LeafTakes(leaf.entries, k, v)
    ensures Ids(leaf) == {leaf.id}
  {
    hide NodeAt, LeafTakes, LeafFits;
    var lo, hi := TrailReady(t, k, v, None, None, Height(t));
    TrailStored(t, k, f, Height(t));
    leaf := Trail(t, k)[Height(t)];
    OwnId(leaf);
  }

  /** The leaf rewritten on its own page. */
  lemma LeafRewritten(t: Tree, k: Key, v: Value, ids: seq<nat>, leaf: Tree, f0: seq<Page>, live0: set<nat>,
                      f: seq<Page>)
    requires Start(t, k, v, ids, f0, live0) && Balanced(t) && PagesFit(t) && |ids| > Height(t) + 1
    requires leaf == Trail(t, k)[Height(t)] && leaf.Leaf? && LeafFits(leaf.entries)
    requires Found(leaf.entries, k) || LeafCanFit(leaf.entries, |k|, |v|)
    requires SameExcept(f0, f, {leaf.id}) && Stored(f, Leaf(leaf.id, Upserted(leaf.entries, k, v)))
    ensures Placed(t, Insert(t, k, v, ids), f0, live0, f, live0) && Insert(t, k, v, ids).id == t.id
  {
    hide Start, Stored, Upserted, Found, LeafCanFit, SameExcept, Placed, Insert;
    var g := Ins(leaf, k, v, ids);
    assert Ids(leaf) + (live0 - live0) == {leaf.id};
    ClimbedOne(t, k, v, ids, Height(t), leaf, g, f0, live0, f, live0);
  }

  /** The leaf split over its own page and a new one. */
  lemma LeafSplit(t: Tree, k: Key, v: Value, ids: seq<nat>, leaf: Tree, newId: nat, f0: seq<Page>, live0: set<nat>,
                  f1: seq<Page>, f: seq<Page>)
    returns (g: Grown)
    requires Balanced(t) && PagesFit(t) && |ids| > Height(t) + 1 && newId == ids[0] && newId !in live0
        && leaf.id in live0
    requires leaf == Trail(t, k)[Height(t)] && leaf.Leaf? && LeafFits(leaf.entries)
    requires !Found(leaf.entries, k) && !LeafCanFit(leaf.entries, |k|, |v|) && Upserted(leaf.entries, k, v) != []
    requires var all := Upserted(leaf.entries, k, v);
             && Stored(f1, Leaf(leaf.id, all[..|all| / 2])) && SameExcept(f0, f1, {leaf.id})
             && Stored(f, Leaf(newId, all[|all| / 2..])) && SameExcept(f1, f, {newId})
    ensures Climbed(t, k, v, ids, Height(t), leaf, g, f0, live0, f, live0 + {newId})
    ensures var all := Upserted(leaf.entries, k, v);
            g.Two? && g.sep == all[|all| / 2].key && g.left.id == leaf.id && g.right.id == newId
  {
    hide Upserted, Found, LeafCanFit, LeafFits, NodeAt, SameExcept;
    g := Ins(leaf, k, v, ids);
    StoredKept(f1, f, g.left, {newId});
    SameExceptTrans(f0, f1, f, {leaf.id}, {newId});
    assert {leaf.id} + (live0 + {newId} - live0) == {leaf.id} + {newId};
  }

  /** The page numbers ahead are fresh, so the insertion has its effect on the map and nothing else. */
  lemma InsertOutcome(t: Tree, k: Key, v: Value, freelist: seq<u32>, next: nat, live: set<nat>, chain: set<nat>)
    requires WellFormed(t) && Ids(t) <= live && Accounted(next, freelist, live, chain)
    requires |k| <= MAX_KEY_SIZE && |v| <= MAX_VALUE_SIZE && InsertFits(t, k, v)
    ensures var t' := Insert(t, k, v, Upcoming(freelist, next, Height(t) + 2));
            && WellFormed(t') && Flatten(t') == Upserted(Flatten(t), k, v) && Height(t) <= Height(t') <= Height(t) + 1
  {
    hide Accounted, InsertFits, Flatten, Upserted, Ids;
    UpcomingFresh(freelist, next, live, chain, Height(t) + 2);
    InsertCorrect(t, k, v, Upcoming(freelist, next, Height(t) + 2));
  }
}
