/** The catalog tree: from tree id to root page. */
module Catalogs {
  import opened Bytes
  import opened Entries
  import opened Layout
  import opened TreeModel
  import opened FixedSize
  import opened Pagers
  import opened Results
  import opened TreeStore
  import opened Ascents
  import opened BTrees
  import opened Stores

  lemma CatalogFacts(cat: Tree, trees: map<u32, Tree>)
    requires WellFormed(cat) && CatalogOk(cat, trees)
    ensures Sorted(Flatten(cat)) && Lists(MapOf(Flatten(cat)), trees) && FixedEntries(Flatten(cat), 4, 4)
  {
    OrderedEntries(cat, None, None);
    FixedFlat(cat, 4, 4);
  }

  /** The root page of a tree, if the catalog knows it. */
  method CatalogGet(pager: Pager, catalogRoot: nat, treeId: u32, ghost cat: Tree, ghost trees: map<u32, Tree>)
    returns (r: Result<Option<nat>>)
    requires pager.Valid() && TreeOk(pager, cat) && CatalogOk(cat, trees) && catalogRoot == cat.id
    requires treeId in trees ==> trees[treeId].id < U32
    modifies pager`cache, pager`lruOrder
    ensures pager.Valid() && r == Ok(if treeId in trees then Some(trees[treeId].id) else None)
  {
    CatalogFacts(cat, trees);
    ListsLookup(Flatten(cat), trees, treeId);
    hide Pager.Valid, WellFormed, CatalogOk, Lookup, LE, FromLE;
    var tree := new BTree.Open(pager, catalogRoot, cat);
    var key := LE(treeId, 4);
    var found := tree.Get(key);
    match found.value {
      case Some(val) =>
        IdOf(trees[treeId].id);
        return Ok(Some(FromLE(val)));
      case None =>
        return Ok(None);
    }
  }

  /** The catalog always takes another id: its entries are all of one size. */
  lemma CatalogTakes(pager: Pager, cat: Tree, trees: map<u32, Tree>, key: Key, val: Value)
    requires TreeOk(pager, cat) && CatalogOk(cat, trees) && |key| == 4 && |val| == 4
    ensures WellFormed(cat) && InsertFits(cat, key, val)
  {
    hide InsertFits, Insert;
    FixedInsertFits(cat, key, val, seq(Height(cat) + 2, i => i));
  }

  /** Putting one id into the catalog. */
  lemma CatalogPut(cat: Tree, trees: map<u32, Tree>, id: u32, t: Tree, ids: seq<nat>, cat': Tree)
    requires WellFormed(cat) && CatalogOk(cat, trees) && Inserted(cat, LE(id, 4), LE(t.id, 4), cat', ids)
    ensures CatalogOk(cat', trees[id := t]) && Height(cat') <= Height(cat) + 1
  {
    hide InsertFits, LE, FromLE, Flatten, Insert, MapOf;
    CatalogFacts(cat, trees);
    FixedInsertFits(cat, LE(id, 4), LE(t.id, 4), ids);
    UpsertedMap(Flatten(cat), LE(id, 4), LE(t.id, 4));
    ListsSet(MapOf(Flatten(cat)), trees, id, t);
  }

  /** Opens the tree at `root`, inserts, and tells the root it has afterwards. */
  method OpenAndInsert(pager: Pager, root: nat, key: Key, value: Value, ghost t: Tree)
    returns (r: Result<()>, newRoot: nat, ghost t': Tree)
    requires pager.Valid() && TreeOk(pager, t) && root == t.id
    requires WellFormed(t)
    requires |key| <= MAX_KEY_SIZE && |value| <= MAX_VALUE_SIZE ==>
               InsertFits(t, key, value) && pager.meta.nextPageId + Height(t) + 2 < U32
    modifies pager`file, pager`cache, pager`lruOrder, pager`meta, pager`freelist, pager`live
    ensures pager.Valid() && newRoot == t'.id && TreeOk(pager, t')
    ensures r == if |key| > MAX_KEY_SIZE then Err(KeyTooLarge(|key|))
                 else if |value| > MAX_VALUE_SIZE then Err(ValueTooLarge(|value|)) else Ok(())
    ensures r.Err? ==> t' == t && pager.file == old(pager.file) && pager.live == old(pager.live)
                       && pager.meta == old(pager.meta) && pager.freelist == old(pager.freelist)
    ensures r.Ok? ==> Inserted(t, key, value, t',
        Upcoming(old(pager.freelist), old(pager.meta.nextPageId), Height(t) + 2))
    ensures Placed(t, t', old(pager.file), old(pager.live), pager.file, pager.live)
    ensures Spent(old(pager.freelist), old(pager.meta), pager.freelist, pager.meta, Height(t) + 2)
  {
    hide Pager.Valid, TreeOk, Placed, Spent, Inserted, InsertFits, Upcoming, Height, WellFormed;
    var tree := new BTree.Open(pager, root, t);
    r := tree.Insert(key, value);
    newRoot, t' := tree.root, tree.tree;
  }

  /** Points a tree id at a root page; the catalog itself may get a new root. */
  method CatalogSet(pager: Pager, catalogRoot: nat, treeId: u32, root: nat, ghost cat: Tree,
                    ghost trees: map<u32, Tree>, ghost t: Tree)
    returns (r: Result<nat>, ghost cat': Tree)
    requires pager.Valid() && TreeOk(pager, cat) && CatalogOk(cat, trees) && catalogRoot == cat.id && root == t.id < U32
    requires pager.meta.nextPageId + Height(cat) + 2 < U32
    modifies pager`file, pager`cache, pager`lruOrder, pager`meta, pager`freelist, pager`live
    ensures pager.Valid() && r == Ok(cat'.id) && TreeOk(pager, cat') && CatalogOk(cat', trees[treeId := t])
    ensures Placed(cat, cat', old(pager.file), old(pager.live), pager.file, pager.live)
    ensures Height(cat') <= Height(cat) + 1
    ensures Spent(old(pager.freelist), old(pager.meta), pager.freelist, pager.meta, Height(cat) + 2)
  {
    hide Pager.Valid, TreeOk, CatalogOk, Placed, Spent, InsertFits, LE, Insert, Upcoming;
    ghost var ids := Upcoming(pager.freelist, pager.meta.nextPageId, Height(cat) + 2);
    var key, val := LE(treeId, 4), LE(root, 4);
    CatalogTakes(pager, cat, trees, key, val);
    var done, newRoot;
    done, newRoot, cat' := OpenAndInsert(pager, catalogRoot, key, val, cat);
    CatalogPut(cat, trees, treeId, t, ids, cat');
    return Ok(newRoot), cat';
  }

  /** Every tree once, with its root page, in the byte order of the ids' little-endian keys. */
  ghost predicate ListsAll(list: seq<(u32, u32)>, trees: map<u32, Tree>)
  {
    && (forall i :: 0 <= i < |list| ==> list[i].0 in trees && list[i].1 == trees[list[i].0].id)
    && (forall i, j :: 0 <= i < j < |list| ==> Less(LE(list[i].0, 4), LE(list[j].0, 4)))
    && (forall id :: id in trees ==> exists i :: 0 <= i < |list| && list[i].0 == id)
  }

  function PairOf(e: Entry): (u32, u32)
    requires |e.key| == 4 && |e.value| == 4
  {
    Widths();
    LEInverse(e.key);
    LEInverse(e.value);
    (FromLE(e.key), FromLE(e.value))
  }

  lemma PairsList(es: seq<Entry>, list: seq<(u32, u32)>, trees: map<u32, Tree>)
    requires Sorted(es) && FixedEntries(es, 4, 4) && Lists(MapOf(es), trees)
    requires forall id :: id in trees ==> trees[id].id < U32
    requires |list| == |es| && forall i :: 0 <= i < |es| ==> list[i] == PairOf(es[i])
    ensures ListsAll(list, trees)
  {
    hide LE, FromLE, MapOf, Less;
    Order();
    forall i | 0 <= i < |list| ensures list[i].0 in trees && list[i].1 == trees[list[i].0].id {
      MapOfMember(es, es[i].key);
      IdOf(trees[list[i].0].id);
    }
    forall i, j | 0 <= i < j < |list| ensures Less(LE(list[i].0, 4), LE(list[j].0, 4)) {
      LEInverse(es[i].key);
      LEInverse(es[j].key);
    }
    forall id | id in trees ensures exists i :: 0 <= i < |list| && list[i].0 == id {
      IdOf(id);
      MapOfMember(es, LE(id, 4));
      var i :| 0 <= i < |es| && es[i].key == LE(id, 4);
      assert list[i].0 == id;
    }
  }

  method Pairs(es: seq<Entry>) returns (list: seq<(u32, u32)>)
    requires FixedEntries(es, 4, 4)
    ensures |list| == |es| && forall i :: 0 <= i < |es| ==> list[i] == PairOf(es[i])
  {
    hide FromLE;
    list := [];
    for i := 0 to |es|
      invariant |list| == i && forall j :: 0 <= j < i ==> list[j] == PairOf(es[j])
    {
      list := list + [PairOf(es[i])];
    }
  }

  /** All trees with their roots, by a scan over the whole key range. */
  method CatalogList(pager: Pager, catalogRoot: nat, ghost cat: Tree, ghost trees: map<u32, Tree>)
    returns (r: Result<seq<(u32, u32)>>)
    requires pager.Valid() && TreeOk(pager, cat) && CatalogOk(cat, trees) && catalogRoot == cat.id
    requires forall id :: id in trees ==> trees[id].id < U32
    modifies pager`cache, pager`lruOrder
    ensures pager.Valid() && r.Ok? && ListsAll(r.value, trees)
  {
    CatalogFacts(cat, trees);
    hide Pager.Valid, WellFormed, CatalogOk, LE, FromLE, Flatten, Stored, Less, Lists, ListsAll, Sorted;
    var tree := new BTree.Open(pager, catalogRoot, cat);
    var entries := tree.Range(LE(0, 4), LE(U32 - 1, 4));
    forall i | 0 <= i < |Flatten(cat)|
      ensures AtMost(LE(0, 4), Flatten(cat)[i].key) && AtMost(Flatten(cat)[i].key, LE(U32 - 1, 4)) {
      FourBytesInRange(Flatten(cat)[i].key);
    }
    WithinAll(Flatten(cat), LE(0, 4), LE(U32 - 1, 4));
    var list := Pairs(entries.value);
    PairsList(Flatten(cat), list, trees);
    return Ok(list);
  }

  /** One more than the largest id in use; 1 for the first tree. */
  method CatalogNextTreeId(pager: Pager, catalogRoot: nat, ghost cat: Tree, ghost trees: map<u32, Tree>)
    returns (r: Result<u32>)
    requires pager.Valid() && TreeOk(pager, cat) && CatalogOk(cat, trees) && catalogRoot == cat.id
    requires forall id :: id in trees ==> trees[id].id < U32 && id + 1 < U32
    modifies pager`cache, pager`lruOrder
    ensures pager.Valid() && r.Ok? && r.value !in trees
    ensures forall id :: id in trees ==> id < r.value
    ensures r.value == 1 || r.value - 1 in trees
  {
    hide Pager.Valid, WellFormed, CatalogOk, Stored;
    var list := CatalogList(pager, catalogRoot, cat, trees);
    var entries := list.value;
    var maxId: u32 := 0;
    for i := 0 to |entries|
      invariant forall j :: 0 <= j < i ==> entries[j].0 <= maxId
      invariant maxId == 0 || exists j :: 0 <= j < i && entries[j].0 == maxId
      invariant pager.Valid()
    {
      if entries[i].0 > maxId {
        maxId := entries[i].0;
      }
    }
    if |entries| == 0 {
      return Ok(1);
    }
    assert maxId == 0 ==> entries[0].0 == 0;
    return Ok(maxId + 1);
  }
}
