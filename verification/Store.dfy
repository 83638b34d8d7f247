/** Many trees in one page file: no two share a page, and a catalog tree lists their roots. */
module Stores {
  import opened Bytes
  import opened Entries
  import opened TreeModel
  import opened FixedSize
  import opened Pages
  import opened Pagers
  import opened TreeStore
  import opened Ascents

  // ----- disjoint trees -----

  /** All these trees lie in the file, and no two share a page. */
  ghost predicate Forest(file: seq<Page>, live: set<nat>, ts: map<int, Tree>)
  {
    && (forall i :: i in ts ==> TreeIn(file, live, ts[i]))
    && (forall i, j :: i in ts && j in ts && i != j ==> Ids(ts[i]) !! Ids(ts[j]))
  }

  /** Writing one tree, on its old pages or new ones, leaves every other tree as it was. */
  lemma ForestStep(file: seq<Page>, live: set<nat>, ts: map<int, Tree>, file': seq<Page>, live': set<nat>, i: int,
                   t': Tree)
    requires Forest(file, live, ts) && live <= live' && TreeIn(file', live', t')
    requires var base := if i in ts then Ids(ts[i]) else {};
             SameExcept(file, file', base + (live' - live)) && Ids(t') <= base + (live' - live)
    ensures Forest(file', live', ts[i := t'])
  {
    hide WellFormed, Stored, SameExcept;
    var base := if i in ts then Ids(ts[i]) else {};
    var ts' := ts[i := t'];
    forall j | j in ts && j != i ensures TreeIn(file', live', ts[j]) && Ids(ts[j]) !! Ids(t') {
      assert Ids(ts[j]) !! base + (live' - live);
      StoredKept(file, file', ts[j], base + (live' - live));
    }
    forall a, b | a in ts' && b in ts' && a != b ensures Ids(ts'[a]) !! Ids(ts'[b]) {
      if a != i && b != i {
        assert Ids(ts[a]) !! Ids(ts[b]);
      }
    }
  }

  // ----- the catalog -----

  /** The catalog maps each tree's id to its root page, both as four little-endian bytes, and nothing else. */
  ghost predicate Lists(m: map<Key, Value>, trees: map<u32, Tree>)
  {
    && (forall k :: k in m <==> |k| == 4 && FromLE(k) in trees)
    && (forall k :: k in m ==> m[k] == LE(trees[FromLE(k)].id, 4))
  }

  lemma IdOf(id: u32)
    ensures FromLE(LE(id, 4)) == id
    ensures forall k :: |k| == 4 && FromLE(k) == id ==> k == LE(id, 4)
  {
    Widths();
    LERoundTrip(id, 4);
    forall k | |k| == 4 && FromLE(k) == id ensures k == LE(id, 4) {
      LEInverse(k);
    }
  }

  lemma ListsSet(m: map<Key, Value>, trees: map<u32, Tree>, id: u32, t: Tree)
    requires Lists(m, trees)
    ensures Lists(m[LE(id, 4) := LE(t.id, 4)], trees[id := t])
  {
    hide LE, FromLE;
    IdOf(id);
    var listed := m[LE(id, 4) := LE(t.id, 4)];
    forall k ensures k in listed <==> |k| == 4 && FromLE(k) in trees[id := t] {
      if k == LE(id, 4) {
        assert FromLE(k) == id;
      }
    }
  }

  lemma ListsSame(m: map<Key, Value>, trees: map<u32, Tree>, id: u32, t: Tree)
    requires Lists(m, trees) && id in trees && t.id == trees[id].id
    ensures Lists(m, trees[id := t])
  {
    hide LE, FromLE;
  }

  /** Looking a tree up in the catalog finds its root page, or that there is no such tree. */
  lemma ListsLookup(es: seq<Entry>, trees: map<u32, Tree>, id: u32)
    requires Sorted(es) && Lists(MapOf(es), trees)
    ensures Lookup(es, LE(id, 4)) == if id in trees then Some(LE(trees[id].id, 4)) else None
  {
    hide LE, FromLE, Lookup, MapOf;
    IdOf(id);
    LookupMap(es, LE(id, 4));
  }

  /** Catalog and user trees in one forest; the catalog sits at -1. */
  function All(cat: Tree, trees: map<u32, Tree>): map<int, Tree>
  {
    (map i: int | i in trees.Keys :: trees[i])[-1 := cat]
  }

  ghost predicate CatalogOk(cat: Tree, trees: map<u32, Tree>)
  {
    Fixed(cat, 4, 4) && Lists(MapOf(Flatten(cat)), trees)
  }

  /** The whole store: disjoint trees, and a catalog that lists exactly the user trees' roots. */
  ghost predicate StoreOk(file: seq<Page>, live: set<nat>, cat: Tree, trees: map<u32, Tree>)
  {
    Forest(file, live, All(cat, trees)) && CatalogOk(cat, trees)
  }

  lemma StoreTrees(file: seq<Page>, live: set<nat>, cat: Tree, trees: map<u32, Tree>)
    requires Forest(file, live, All(cat, trees))
    ensures TreeIn(file, live, cat)
    ensures forall id :: id in trees ==> TreeIn(file, live, trees[id])
  {
    hide TreeIn;
    var all := All(cat, trees);
    assert -1 in all;
    forall id | id in trees ensures TreeIn(file, live, trees[id]) {
      assert id in all && all[id] == trees[id];
    }
  }

  lemma AllSetTree(cat: Tree, trees: map<u32, Tree>, id: u32, t: Tree)
    ensures All(cat, trees)[id := t] == All(cat, trees[id := t])
    ensures id in All(cat, trees) <==> id in trees
    ensures id in trees ==> All(cat, trees)[id] == trees[id]
  {
  }

  lemma AllSetCatalog(cat: Tree, trees: map<u32, Tree>, cat': Tree)
    ensures All(cat, trees)[-1 := cat'] == All(cat', trees) && -1 in All(cat, trees) && All(cat, trees)[-1] == cat
  {
  }

  /** A user tree written in place or split leaves the rest of the forest alone. */
  lemma ForestTree(file: seq<Page>, live: set<nat>, cat: Tree, trees: map<u32, Tree>, file': seq<Page>,
                   live': set<nat>, id: u32, t': Tree)
    requires Forest(file, live, All(cat, trees)) && live <= live' && TreeIn(file', live', t')
    requires var base := if id in trees then Ids(trees[id]) else {};
             SameExcept(file, file', base + (live' - live)) && Ids(t') <= base + (live' - live)
    ensures Forest(file', live', All(cat, trees[id := t']))
  {
    hide Forest, TreeIn, SameExcept, Ids;
    AllSetTree(cat, trees, id, t');
    ForestStep(file, live, All(cat, trees), file', live', id, t');
  }

  /** So does the catalog. */
  lemma ForestCatalog(file: seq<Page>, live: set<nat>, cat: Tree, trees: map<u32, Tree>, file': seq<Page>,
                      live': set<nat>, cat': Tree)
    requires Forest(file, live, All(cat, trees)) && live <= live' && TreeIn(file', live', cat')
    requires SameExcept(file, file', Ids(cat) + (live' - live)) && Ids(cat') <= Ids(cat) + (live' - live)
    ensures Forest(file', live', All(cat', trees))
  {
    hide Forest, TreeIn, SameExcept, Ids;
    AllSetCatalog(cat, trees, cat');
    ForestStep(file, live, All(cat, trees), file', live', -1, cat');
  }

  /** A user tree was written; as long as its root stayed, the catalog is right as it is. */
  lemma TreeWritten(file: seq<Page>, live: set<nat>, cat: Tree, trees: map<u32, Tree>, file': seq<Page>,
                    live': set<nat>, id: u32, t': Tree)
    requires StoreOk(file, live, cat, trees) && id in trees
    requires Placed(trees[id], t', file, live, file', live') && TreeIn(file', live', t')
    ensures Forest(file', live', All(cat, trees[id := t'])) && CatalogOk(cat, trees) && TreeIn(file', live', cat)
    ensures t'.id == trees[id].id ==> StoreOk(file', live', cat, trees[id := t'])
  {
    hide Forest, TreeIn, SameExcept, Ids, Fixed, Lists, Flatten, MapOf, Stored;
    ForestTree(file, live, cat, trees, file', live', id, t');
    StoreTrees(file', live', cat, trees[id := t']);
    if t'.id == trees[id].id {
      ListsSame(MapOf(Flatten(cat)), trees, id, t');
    }
  }

  /** The catalog was written to list the forest as it is. */
  lemma CatalogWritten(file: seq<Page>, live: set<nat>, cat: Tree, trees: map<u32, Tree>, file': seq<Page>,
                       live': set<nat>, cat': Tree)
    requires Forest(file, live, All(cat, trees)) && Placed(cat, cat', file, live, file', live')
        && TreeIn(file', live', cat')
    requires CatalogOk(cat', trees)
    ensures StoreOk(file', live', cat', trees)
  {
    hide Forest, TreeIn, SameExcept, Ids, Fixed, Lists, Flatten, MapOf, Stored;
    ForestCatalog(file, live, cat, trees, file', live', cat');
  }

  /** A new tree on fresh pages joins the forest. */
  lemma TreeAdded(file: seq<Page>, live: set<nat>, cat: Tree, trees: map<u32, Tree>, file': seq<Page>, live': set<nat>,
                  id: u32, t': Tree)
    requires StoreOk(file, live, cat, trees) && id !in trees
    requires live <= live' && TreeIn(file', live', t') && SameExcept(file, file', live' - live)
        && Ids(t') <= live' - live
    ensures Forest(file', live', All(cat, trees[id := t'])) && CatalogOk(cat, trees) && TreeIn(file', live', cat)
  {
    hide Forest, TreeIn, Ids, Fixed, Lists, Flatten, MapOf;
    assert {} + (live' - live) == live' - live;
    ForestTree(file, live, cat, trees, file', live', id, t');
    StoreTrees(file', live', cat, trees[id := t']);
  }

  /** Writes off the live pages leave the store as it is. */
  lemma StoreKept(file: seq<Page>, live: set<nat>, cat: Tree, trees: map<u32, Tree>, file': seq<Page>,
                  changed: set<nat>)
    requires StoreOk(file, live, cat, trees) && SameExcept(file, file', changed) && changed !! live
    ensures StoreOk(file', live, cat, trees)
  {
    hide WellFormed, Stored, SameExcept, CatalogOk, Ids;
    var all := All(cat, trees);
    forall i | i in all ensures TreeIn(file', live, all[i]) {
      StoredKept(file, file', all[i], changed);
    }
  }

  // ----- four-byte keys -----

  lemma {:induction false} BytewiseAtMost(a: seq<byte>, c: seq<byte>, i: nat)
    requires |a| == |c| && forall j :: 0 <= j < |a| ==> a[j] <= c[j]
    ensures !LessFrom(c, a, i)
    decreases |a| - i
  {
    if i < |a| {
      BytewiseAtMost(a, c, i + 1);
    }
  }

  lemma {:induction false} Extremes(n: nat, i: nat)
    requires i < n
    ensures Pow256(n) >= 1 && LE(0, n)[i] == 0 && LE(Pow256(n) - 1, n)[i] == 255
    decreases n
  {
    var v := Pow256(n) - 1;
    assert v == 256 * (Pow256(n - 1) - 1) + 255;
    assert v % 256 == 255 && v / 256 == Pow256(n - 1) - 1;
    if i > 0 {
      Extremes(n - 1, i - 1);
    }
  }

  /** Every four-byte key lies between the encodings of 0 and the largest id, though not in numeric order. */
  lemma FourBytesInRange(k: Key)
    requires |k| == 4
    ensures AtMost(LE(0, 4), k) && AtMost(k, LE(U32 - 1, 4))
  {
    Widths();
    forall i | 0 <= i < 4 ensures LE(0, 4)[i] == 0 && LE(U32 - 1, 4)[i] == 255 {
      Extremes(4, i);
    }
    hide LE;
    BytewiseAtMost(LE(0, 4), k, 0);
    BytewiseAtMost(k, LE(U32 - 1, 4), 0);
  }

  lemma {:induction false} WithinAll(es: seq<Entry>, lo: Key, hi: Key)
    requires forall i :: 0 <= i < |es| ==> AtMost(lo, es[i].key) && AtMost(es[i].key, hi)
    ensures Within(es, lo, hi) == es
  {
    hide Less;
    if es != [] {
      WithinAll(es[1..], lo, hi);
      assert es == [es[0]] + es[1..];
    }
  }

  lemma {:induction false} FixedFlat(t: Tree, kl: nat, vl: nat)
    requires Fixed(t, kl, vl)
    ensures FixedEntries(Flatten(t), kl, vl)
    decreases t, 1
  {
    if t.Node? {
      FixedFlatAll(t.kids, kl, vl);
    }
  }

  lemma {:induction false} FixedFlatAll(ts: seq<Tree>, kl: nat, vl: nat)
    requires forall i :: 0 <= i < |ts| ==> Fixed(ts[i], kl, vl)
    ensures FixedEntries(FlattenAll(ts), kl, vl)
    decreases ts, 0
  {
    if ts != [] {
      FixedFlat(ts[0], kl, vl);
      FixedFlatAll(ts[1..], kl, vl);
    }
  }
}
