/** Creating a graph database, with five trees, a magic marker and two id counters, and opening one. */
module GraphDbs {
  import opened Bytes
  import opened Entries
  import opened Layout
  import opened Results
  import opened TreeModel
  import opened MetaPages
  import opened Ascents
  import opened Txns
  import opened GraphKeys
  import opened Graphs
  import opened GraphIndexes
  import opened GraphTxns

  function EmptyGraph(): Graph
  {
    Graph(map[], map[], 1, 1)
  }

  /** A leaf with room for an entry takes it without splitting. */
  ghost predicate SmallLeaf(t: Tree, n: nat)
  {
    t.Leaf? && |t.entries| <= n && LeafData(t.entries) <= 100 * n
  }

  lemma SmallLeafTakes(t: Tree, k: Key, v: Value, n: nat)
    requires WellFormed(t) && SmallLeaf(t, n) && n <= 3 && |k| <= 20 && |v| <= 20 && !Found(t.entries, k)
    ensures InsertFitsIn(t, k, v)
    ensures forall t', ids :: Inserted(t, k, v, t', ids) ==> SmallLeaf(t', n + 1)
  {
    hide LowerBound;
    LeafDataInsert(t.entries, LowerBound(t.entries, k), Entry(k, v));
  }

  lemma NewViewKeys(trees: map<u32, Tree>, id: u32, k: Key)
    requires id in trees && WellFormed(trees[id]) && k !in ViewOf(trees)[id] && trees[id].Leaf?
    ensures !Found(trees[id].entries, k)
  {
    LookupView(trees, id, k);
  }

  /** The view of a database just created. */
  function FreshView(): View
  {
    map[META := map[MAGIC_KEY := MAGIC_VALUE, NEXT_NODE_ID := LE(1, 8), NEXT_EDGE_ID := LE(1, 8)],
        NODES := map[], EDGES := map[], ADJACENCY := map[], LABELS := map[]]
  }

  lemma FreshEncoded(c: Codec)
    ensures Encoded(FreshView(), EmptyGraph(), c) && GraphOk(EmptyGraph())
  {
    hide LE, DecodeAdj, DecodeLabel;
    assert NEXT_NODE_ID[5] != NEXT_EDGE_ID[5] && |MAGIC_KEY| != |NEXT_NODE_ID|;
  }

  method PutMeta(wtx: WriteTxn, key: Key, value: Value, ghost n: nat)
    requires wtx.Valid() && META in wtx.trees && SmallLeaf(wtx.trees[META], n) && n <= 3 && |key| <= 20 && |value| <= 20
    requires key !in wtx.View()[META] && wtx.RoomLeft(1)
    modifies wtx, wtx.db.pager
    ensures wtx.Valid() && META in wtx.trees && SmallLeaf(wtx.trees[META], n + 1)
    ensures wtx.trees == old(wtx.trees)[META := wtx.trees[META]]
        && wtx.View() == PutIn(old(wtx.View()), META, key, value)
    ensures RoomStep(old(wtx.db.pager.meta.nextPageId), old(wtx.catalog), old(wtx.trees), wtx.db.pager.meta.nextPageId,
        wtx.catalog, wtx.trees)
  {
    hide WriteTxn.Valid, ViewOf, InsertFitsIn, Inserted, SmallLeaf, Room, RoomStep, Found;
    TreeWhole(wtx, META);
    assert wtx.trees[META].Leaf? by { LeafSmall(wtx.trees[META], n); }
    NewViewKeys(wtx.trees, META, key);
    SmallLeafTakes(wtx.trees[META], key, value, n);
    var r := wtx.Insert(META, key, value);
  }

  lemma LeafSmall(t: Tree, n: nat)
    requires SmallLeaf(t, n)
    ensures t.Leaf?
  {
  }

  lemma FreshRoom()
    ensures Room(2, None, map[], 8)
  {
    assert Low(None, map[], 0);
  }

  ghost predicate EmptyLeaf(t: Tree)
  {
    t.Leaf? && t.entries == []
  }

  /** The trees get the ids 1 to 5 in this order. */
  method MakeTrees(wtx: WriteTxn)
    requires wtx.Valid() && wtx.trees == map[] && wtx.RoomLeft(8)
    modifies wtx, wtx.db.pager
    ensures wtx.Valid() && HasTrees(wtx.trees.Keys) && forall id :: id in wtx.trees ==> EmptyLeaf(wtx.trees[id])
    ensures wtx.View() == map[META := map[], NODES := map[], EDGES := map[], ADJACENCY := map[], LABELS := map[]]
    ensures wtx.RoomLeft(3)
  {
    hide WriteTxn.Valid, ViewOf, Room;
    assert wtx.View() == map[] by { ViewKeys(wtx.trees); }
    RoomForFewer(wtx.db.pager.meta.nextPageId, wtx.catalog, wtx.trees, 8, 1);
    var metaTree := wtx.CreateTree();
    RoomForFewer(wtx.db.pager.meta.nextPageId, wtx.catalog, wtx.trees, 7, 1);
    var nodesTree := wtx.CreateTree();
    RoomForFewer(wtx.db.pager.meta.nextPageId, wtx.catalog, wtx.trees, 6, 1);
    var edgesTree := wtx.CreateTree();
    RoomForFewer(wtx.db.pager.meta.nextPageId, wtx.catalog, wtx.trees, 5, 1);
    var adjacencyTree := wtx.CreateTree();
    RoomForFewer(wtx.db.pager.meta.nextPageId, wtx.catalog, wtx.trees, 4, 1);
    var labelIndexTree := wtx.CreateTree();
  }

  /** Makes the five trees in order and the meta entries, and commits. */
  method Create(crc: Checksum, capacity: nat, codec: Codec) returns (db: Database)
    requires capacity > 0 && Lossless(codec)
    ensures fresh(db) && Holds(db, codec, Graph(map[], map[], 1, 1))
  {
    hide Database.Valid, WriteTxn.Valid, ViewOf, Room, Lossless, Encoded, GraphOk;
    db := new Database.Create(crc, capacity);
    var wtx := new WriteTxn(db);
    FreshRoom();
    MakeTrees(wtx);
    FillMeta(wtx);
    FreshEncoded(codec);
    wtx.Commit();
  }

  /** The marker and the counters. */
  method FillMeta(wtx: WriteTxn)
    requires wtx.Valid() && HasTrees(wtx.trees.Keys) && wtx.RoomLeft(3)
    requires forall id :: id in wtx.trees ==> EmptyLeaf(wtx.trees[id])
    requires wtx.View() == map[META := map[], NODES := map[], EDGES := map[], ADJACENCY := map[], LABELS := map[]]
    modifies wtx, wtx.db.pager
    ensures wtx.Valid() && HasTrees(wtx.trees.Keys) && wtx.View() == FreshView()
    ensures EmptyLeaf(wtx.trees[ADJACENCY]) && EmptyLeaf(wtx.trees[LABELS])
  {
    hide WriteTxn.Valid, ViewOf, Room, LE;
    RoomForFewer(wtx.db.pager.meta.nextPageId, wtx.catalog, wtx.trees, 3, 1);
    PutMeta(wtx, MAGIC_KEY, MAGIC_VALUE, 0);
    RoomForFewer(wtx.db.pager.meta.nextPageId, wtx.catalog, wtx.trees, 2, 1);
    assert |MAGIC_KEY| != |NEXT_NODE_ID| && |MAGIC_KEY| != |NEXT_EDGE_ID| && NEXT_NODE_ID[5] != NEXT_EDGE_ID[5];
    PutMeta(wtx, NEXT_NODE_ID, LE(1, 8), 1);
    RoomForFewer(wtx.db.pager.meta.nextPageId, wtx.catalog, wtx.trees, 1, 1);
    PutMeta(wtx, NEXT_EDGE_ID, LE(1, 8), 2);
  }

  /** Whether the marker is there. */
  predicate Marked(view: View)
  {
    META in view && MAGIC_KEY in view[META] && view[META][MAGIC_KEY] == MAGIC_VALUE
  }

  /** Refuses a database without the marker, or whose marker's tree is missing. */
  method CheckMarker(db: Database) returns (r: Result<()>)
    requires db.Valid()
    modifies db.pager`cache, db.pager`lruOrder
    ensures db.Valid() && db.View() == old(db.View())
    ensures if META !in db.View() then r == Err(TreeNotFound(META))
            else if !Marked(db.View()) then r == Err(InvalidDatabase) else r == Ok(())
  {
    hide Database.Valid, ViewOf;
    var rtx := new ReadTxn(db);
    var magic :- rtx.Get(META, MAGIC_KEY);
    if magic != Some(MAGIC_VALUE) {
      return Err(InvalidDatabase);
    }
    return Ok(());
  }

  /** Takes an opened database as a graph database if it has the marker. */
  method Open(db: Database) returns (r: Result<Database>)
    requires db.Valid()
    modifies db.pager`cache, db.pager`lruOrder
    ensures db.Valid() && db.View() == old(db.View())
    ensures if META !in db.View() then r == Err(TreeNotFound(META))
            else if !Marked(db.View()) then r == Err(InvalidDatabase) else r == Ok(db)
  {
    hide Database.Valid, ViewOf, Marked;
    var _ :- CheckMarker(db);
    return Ok(db);
  }

  /** Opening the files of a graph database at rest gives a database that holds the same graph. */
  method Reopen(db: Database, capacity: nat, codec: Codec, ghost g: Graph) returns (r: Result<Database>)
    requires Holds(db, codec, g) && capacity > 0 && db.wal.offset < U64
    ensures r.Ok? && fresh(r.value) && Holds(r.value, codec, g)
  {
    hide Database.Valid, ViewOf, Encoded, GraphOk, Lossless, Marked;
    HoldsMarker(db.View(), codec, g);
    var found := Txns.Reopen(db, capacity);
    r := Open(found);
  }

  lemma HoldsMarker(view: View, c: Codec, g: Graph)
    requires Encoded(view, g, c)
    ensures META in view && Marked(view)
  {
  }
}
