/** Graph write transactions: five trees kept in step with one property graph. */
module GraphTxns {
  import opened Bytes
  import opened Entries
  import opened Layout
  import opened TreeModel
  import opened TreeLaws
  import opened FixedSize
  import opened Results
  import opened Ascents
  import opened Txns
  import opened GraphKeys
  import opened Graphs
  import opened GraphIndexes

  // ----- which insertions fit -----

  lemma OneSizeFits(t: Tree, k: Key, v: Value)
    requires WellFormed(t) && Fixed(t, |k|, |v|) && |k| <= MAX_KEY_SIZE && |v| <= MAX_VALUE_SIZE
    ensures InsertFitsIn(t, k, v)
    ensures forall t', ids :: Inserted(t, k, v, t', ids) ==> Fixed(t', |k|, |v|)
  {
    hide InsertFits;
    FixedInsertFits(t, k, v, seq(Height(t) + 2, i => i));
    forall t', ids | Inserted(t, k, v, t', ids) ensures Fixed(t', |k|, |v|) {
      FixedInsertFits(t, k, v, ids);
    }
  }

  lemma SameSizeFits(trees: map<u32, Tree>, id: u32, k: Key, v: Value)
    requires id in trees && WellFormed(trees[id]) && k in ViewOf(trees)[id] && |ViewOf(trees)[id][k]| == |v|
    ensures InsertFitsIn(trees[id], k, v)
  {
    hide InsertFits, MapOf, Flatten;
    LookupView(trees, id, k);
    LookupCorrect(trees[id], k, None, None);
    OverwriteFits(trees[id], k, v);
  }

  lemma TreeWhole(txn: WriteTxn, id: u32)
    requires txn.Valid() && id in txn.trees
    ensures WellFormed(txn.trees[id])
  {
    hide StateOk, CacheAgrees;
    StateTree(txn.db.pager, txn.catalogRoot, txn.catalog, txn.trees, id);
  }

  /** A database at rest that holds this graph. */
  ghost predicate Holds(db: Database, c: Codec, g: Graph)
    reads db, db.pager, db.wal
  {
    && db.Valid() && HasTrees(db.trees.Keys) && Lossless(c)
    && Fixed(db.trees[ADJACENCY], ADJ_KEY_LEN, 0) && Fixed(db.trees[LABELS], LABEL_KEY_LEN, 0)
    && Encoded(db.View(), g, c) && GraphOk(g)
  }

  // ----- writing -----

  class GraphWriteTxn {
    const txn: WriteTxn
    const codec: Codec
    /** The graph as this transaction has made it. */
    ghost var graph: Graph

    /** The five trees are there, and the index trees hold entries of one size. */
    ghost predicate Shaped()
      reads txn, txn.db, txn.db.pager, txn.db.wal
    {
      && txn.Valid() && HasTrees(txn.trees.Keys) && Lossless(codec)
      && Fixed(txn.trees[ADJACENCY], ADJ_KEY_LEN, 0) && Fixed(txn.trees[LABELS], LABEL_KEY_LEN, 0)
    }

    ghost predicate Valid()
      reads this, txn, txn.db, txn.db.pager, txn.db.wal
    {
      Shaped() && Encoded(txn.View(), graph, codec) && GraphOk(graph)
    }

    constructor (db: Database, codec: Codec, ghost g: Graph)
      requires Holds(db, codec, g)
      ensures Valid() && graph == g && txn.db == db && this.codec == codec && fresh(txn)
    {
      hide Database.Valid, WriteTxn.Valid, Encoded, GraphOk, Fixed, Lossless;
      var t := new WriteTxn(db);
      txn, this.codec, graph := t, codec, g;
    }

    /** The record, if its size is legal, fits in the leaf it goes to. */
    ghost predicate Takes(treeId: u32, id: u64, data: Value)
      reads this, txn
    {
      treeId in txn.trees && (|data| <= MAX_VALUE_SIZE ==> InsertFitsIn(txn.trees[treeId], BE(id, 8), data))
    }

    /** Writes one entry to one of the five trees. */
    method Put(treeId: u32, key: Key, value: Value) returns (r: Result<()>)
      requires Shaped() && treeId in txn.trees && |key| <= MAX_KEY_SIZE && txn.RoomLeft(1)
      requires |value| <= MAX_VALUE_SIZE ==> InsertFitsIn(txn.trees[treeId], key, value)
      requires treeId == ADJACENCY ==> |key| == ADJ_KEY_LEN && value == []
      requires treeId == LABELS ==> |key| == LABEL_KEY_LEN && value == []
      modifies txn, txn.db.pager
      ensures Shaped()
      ensures r == if |value| > MAX_VALUE_SIZE then Err(ValueTooLarge(|value|)) else Ok(())
      ensures r.Ok? ==> treeId in txn.trees && txn.trees == old(txn.trees)[treeId := txn.trees[treeId]]
      ensures r.Ok? ==> txn.View() == PutIn(old(txn.View()), treeId, key, value)
      ensures r.Err? ==> txn.trees == old(txn.trees)
      ensures RoomStep(old(txn.db.pager.meta.nextPageId), old(txn.catalog), old(txn.trees),
          txn.db.pager.meta.nextPageId, txn.catalog, txn.trees)
    {
      hide WriteTxn.Valid, InsertFitsIn, Inserted, ViewOf, Room, RoomStep, Fixed, Lossless;
      if treeId == ADJACENCY || treeId == LABELS {
        TreeWhole(txn, treeId);
        OneSizeFits(txn.trees[treeId], key, value);
      }
      r := txn.Insert(treeId, key, value);
    }

    /** Reads a counter and writes it back one higher. */
    method NextId(counter: Key, ghost was: u64) returns (id: u64)
      requires Shaped() && txn.RoomLeft(1) && |counter| <= MAX_KEY_SIZE && was + 1 < U64
      requires counter in txn.View()[META] && txn.View()[META][counter] == LE(was, 8)
      modifies txn, txn.db.pager
      ensures Shaped() && id == was && txn.View() == PutIn(old(txn.View()), META, counter, LE(was + 1, 8))
      ensures META in txn.trees && txn.trees == old(txn.trees)[META := txn.trees[META]]
      ensures RoomStep(old(txn.db.pager.meta.nextPageId), old(txn.catalog), old(txn.trees),
          txn.db.pager.meta.nextPageId, txn.catalog, txn.trees)
    {
      hide WriteTxn.Valid, InsertFitsIn, ViewOf, Room, RoomStep, Fixed, Lossless, LE, FromLE, PutIn;
      TreeWhole(txn, META);
      ViewKeys(txn.trees);
      CounterValue(was);
      var raw := txn.Get(META, counter);
      id := FromLE(raw.value.value);
      var next := LE(id + 1, 8);
      SameSizeFits(txn.trees, META, counter, next);
      var put := Put(META, counter, next);
    }

    method AllocNodeId() returns (id: u64)
      requires Valid() && txn.RoomLeft(1) && graph.nextNode + 1 < U64
      modifies txn, txn.db.pager, this`graph
      ensures Valid() && id == old(graph.nextNode) && graph == NodeIdTaken(old(graph)) && NodeIdSpent(old(graph), graph)
      ensures META in txn.trees && txn.trees == old(txn.trees)[META := txn.trees[META]]
      ensures RoomStep(old(txn.db.pager.meta.nextPageId), old(txn.catalog), old(txn.trees),
          txn.db.pager.meta.nextPageId, txn.catalog, txn.trees)
    {
      hide Shaped, Room, ViewOf, Encoded, GraphOk, LE, PutIn;
      CounterValues(txn.View(), graph, codec);
      CounterEncoded(txn.View(), graph, codec);
      IdsKeepOk(graph);
      id := NextId(NEXT_NODE_ID, graph.nextNode);
      graph := NodeIdTaken(graph);
    }

    method AllocEdgeId() returns (id: u64)
      requires Valid() && txn.RoomLeft(1) && graph.nextEdge + 1 < U64
      modifies txn, txn.db.pager, this`graph
      ensures Valid() && id == old(graph.nextEdge) && graph == EdgeIdTaken(old(graph)) && EdgeIdSpent(old(graph), graph)
      ensures META in txn.trees && txn.trees == old(txn.trees)[META := txn.trees[META]]
      ensures RoomStep(old(txn.db.pager.meta.nextPageId), old(txn.catalog), old(txn.trees),
          txn.db.pager.meta.nextPageId, txn.catalog, txn.trees)
    {
      hide Shaped, Room, ViewOf, Encoded, GraphOk, LE, PutIn;
      CounterValues(txn.View(), graph, codec);
      CounterEncoded(txn.View(), graph, codec);
      IdsKeepOk(graph);
      id := NextId(NEXT_EDGE_ID, graph.nextEdge);
      graph := EdgeIdTaken(graph);
    }

    /** A new node with its label entry. A record too large to store leaves the graph as it was, its id spent. */
    method CreateNode(labelName: string, props: Props) returns (r: Result<u64>)
      requires Valid() && graph.nextNode + 1 < U64 && txn.RoomLeft(3)
      requires Takes(NODES, graph.nextNode, codec.nodeBytes(NodeRecord(labelName, props)))
      modifies txn, txn.db.pager, this`graph
      ensures Valid()
      ensures var rec := NodeRecord(labelName, props);
              var size := |codec.nodeBytes(rec)|;
              if size > MAX_VALUE_SIZE then r == Err(ValueTooLarge(size)) && NodeIdSpent(old(graph), graph)
              else r == Ok(old(graph.nextNode)) && NodeAdded(old(graph), graph, rec)
    {
      hide WriteTxn.Valid, Encoded, InsertFitsIn, ViewOf, Room, Fixed, PutIn, BE, EncodeLabel, GraphOk, Lossless,
          NodeAdded, NodeIdSpent, NodeIdTaken;
      ViewKeys(txn.trees);
      OperationsMean(graph, NodeRecord(labelName, props), EdgeRecord(0, 0, "", map[]));
      RoomForFewer(txn.db.pager.meta.nextPageId, txn.catalog, txn.trees, 3, 1);
      var id := AllocNodeId();
      var rec := NodeRecord(labelName, props);
      var data := codec.nodeBytes(rec);
      ghost var g, view := graph, txn.View();
      RoomForFewer(txn.db.pager.meta.nextPageId, txn.catalog, txn.trees, 2, 1);
      var put := Put(NODES, BE(id, 8), data);
      if put.Err? {
        return Err(put.error);
      }
      var labelHash := codec.hash(labelName);
      var labelKey := EncodeLabelKey(labelHash, id);
      RoomForFewer(txn.db.pager.meta.nextPageId, txn.catalog, txn.trees, 1, 1);
      LabelTakes(txn, labelKey);
      put := Put(LABELS, labelKey, []);
      NewNode(old(graph), codec, rec);
      NodeEncoded(view, g, codec, id, data, rec);
      graph := WithNode(old(graph), rec);
      return Ok(id);
    }

    method HasNode(id: u64) returns (found: bool)
      requires Valid()
      modifies txn.db.pager`cache, txn.db.pager`lruOrder
      ensures Valid() && found == (id in graph.nodes)
    {
      hide WriteTxn.Valid, Encoded, ViewOf, Fixed, BE, GraphOk, Lossless;
      ViewKeys(txn.trees);
      RecordValues(txn.View(), graph, codec, id);
      var data := txn.Get(NODES, BE(id, 8));
      return data.value.Some?;
    }

    /** A new edge with its two adjacency entries, between nodes that exist. */
    method CreateEdge(src: u64, dst: u64, edgeType: string, props: Props) returns (r: Result<u64>)
      requires Valid() && graph.nextEdge + 1 < U64 && txn.RoomLeft(4)
      requires src in graph.nodes && dst in graph.nodes ==>
          Takes(EDGES, graph.nextEdge, codec.edgeBytes(EdgeRecord(src, dst, edgeType, props)))
      modifies txn, txn.db.pager, this`graph
      ensures Valid()
      ensures var rec := EdgeRecord(src, dst, edgeType, props);
              var size := |codec.edgeBytes(rec)|;
              if src !in old(graph).nodes then r == Err(NodeNotFound(src)) && graph == old(graph)
              else if dst !in old(graph).nodes then r == Err(NodeNotFound(dst)) && graph == old(graph)
              else if size > MAX_VALUE_SIZE then r == Err(ValueTooLarge(size)) && EdgeIdSpent(old(graph), graph)
              else r == Ok(old(graph.nextEdge)) && EdgeAdded(old(graph), graph, rec)
    {
      hide WriteTxn.Valid, Encoded, InsertFitsIn, ViewOf, Room, Fixed, PutIn, BE, AdjBytes, GraphOk, Lossless,
          EdgeAdded, EdgeIdSpent, EdgeIdTaken;
      OperationsMean(graph, NodeRecord("", map[]), EdgeRecord(src, dst, edgeType, props));
      var found := HasNode(src);
      if !found {
        return Err(NodeNotFound(src));
      }
      found := HasNode(dst);
      if !found {
        return Err(NodeNotFound(dst));
      }
      ViewKeys(txn.trees);
      RoomForFewer(txn.db.pager.meta.nextPageId, txn.catalog, txn.trees, 4, 1);
      var id := AllocEdgeId();
      var rec := EdgeRecord(src, dst, edgeType, props);
      var data := codec.edgeBytes(rec);
      ghost var g, view := graph, txn.View();
      RoomForFewer(txn.db.pager.meta.nextPageId, txn.catalog, txn.trees, 3, 1);
      var put := Put(EDGES, BE(id, 8), data);
      if put.Err? {
        return Err(put.error);
      }
      FileEdge(rec, id);
      BothEntries(rec, id, codec.hash);
      NewEdge(old(graph), codec, rec);
      EdgeEncoded(view, g, codec, id, data, rec);
      graph := WithEdge(old(graph), rec);
      return Ok(id);
    }

    /** Files an edge under both its ends. */
    method FileEdge(rec: EdgeRecord, id: u64)
      requires Shaped() && txn.RoomLeft(2)
      modifies txn, txn.db.pager
      ensures Shaped()
      ensures var typeHash := codec.hash(rec.edgeType);
              txn.View() == PutIn(
                PutIn(old(txn.View()), ADJACENCY, EncodeAdj(AdjKey(rec.src, Out, typeHash, rec.dst, id)), []),
                ADJACENCY, EncodeAdj(AdjKey(rec.dst, In, typeHash, rec.src, id)), [])
    {
      hide WriteTxn.Valid, InsertFitsIn, ViewOf, Room, Fixed, PutIn, EncodeAdj;
      ViewKeys(txn.trees);
      var typeHash := codec.hash(rec.edgeType);
      RoomForFewer(txn.db.pager.meta.nextPageId, txn.catalog, txn.trees, 2, 1);
      var outKey := EncodeAdjacencyKey(rec.src, Out, typeHash, rec.dst, id);
      AdjacencyTakes(txn, outKey);
      var put := Put(ADJACENCY, outKey, []);
      var inKey := EncodeAdjacencyKey(rec.dst, In, typeHash, rec.src, id);
      AdjacencyTakes(txn, inKey);
      put := Put(ADJACENCY, inKey, []);
    }

    /** Sets one property of a node; its label, and so its label entry, stay. */
    method SetNodeProperty(id: u64, key: string, value: PropValue) returns (r: Result<()>)
      requires Valid() && txn.RoomLeft(1)
      requires id in graph.nodes ==>
          Takes(NODES, id, codec.nodeBytes(graph.nodes[id].(props := graph.nodes[id].props[key := value])))
      modifies txn, txn.db.pager, this`graph
      ensures Valid()
      ensures if id !in old(graph).nodes then r == Err(NodeNotFound(id)) && graph == old(graph)
              else var was := old(graph.nodes)[id];
                   var size := |codec.nodeBytes(was.(props := was.props[key := value]))|;
                   if size > MAX_VALUE_SIZE then r == Err(ValueTooLarge(size)) && graph == old(graph)
                   else r == Ok(()) && PropertySet(old(graph), graph, id, key, value)
    {
      hide WriteTxn.Valid, Encoded, InsertFitsIn, ViewOf, Room, Fixed, PutIn, BE, PropertySet;
      ViewKeys(txn.trees);
      RecordValues(txn.View(), graph, codec, id);
      var nodeKey := BE(id, 8);
      var data := txn.Get(NODES, nodeKey);
      if data.value.None? {
        return Err(NodeNotFound(id));
      }
      var rec := codec.nodeOf(data.value.value).value;
      rec := rec.(props := rec.props[key := value]);
      var newData := codec.nodeBytes(rec);
      ghost var view := txn.View();
      var put := Put(NODES, nodeKey, newData);
      if put.Err? {
        return put;
      }
      PropertyEncoded(view, graph, codec, id, newData, rec);
      PropertySetExact(graph, WithProperty(graph, id, key, value), id, key, value);
      graph := WithProperty(graph, id, key, value);
      return Ok(());
    }

    /** Deletes one entry of one of the five trees. */
    method Remove(treeId: u32, key: Key)
      requires Shaped() && treeId in txn.trees && |key| <= MAX_KEY_SIZE
      modifies txn, txn.db.pager
      ensures Shaped() && treeId in old(txn.View()) && txn.View() == DropIn(old(txn.View()), treeId, key)
      ensures txn.trees.Keys == old(txn.trees.Keys)
    {
      hide WriteTxn.Valid, ViewOf, Fixed, Lossless, Balanced, TreeModel.Delete;
      ViewKeys(txn.trees);
      ghost var trees := txn.trees;
      var existed := txn.Delete(treeId, key);
      if treeId == ADJACENCY {
        DeleteFixed(trees[ADJACENCY], key, ADJ_KEY_LEN, 0);
      }
      if treeId == LABELS {
        DeleteFixed(trees[LABELS], key, LABEL_KEY_LEN, 0);
      }
    }

    method DeleteEdge(id: u64) returns (r: Result<bool>)
      requires Valid()
      modifies txn, txn.db.pager, this`graph
      ensures Valid() && r == Ok(id in old(graph).edges) && EdgeGone(old(graph), graph, id)
    {
      hide WriteTxn.Valid, Encoded, GraphOk, ViewOf, Fixed, BE, EncodeAdj, DropIn;
      ViewKeys(txn.trees);
      RecordValues(txn.View(), graph, codec, id);
      EdgeRemoved(txn.View(), graph, codec, id);
      var key := BE(id, 8);
      var data := txn.Get(EDGES, key);
      if data.value.None? {
        return Ok(false);
      }
      var rec := codec.edgeOf(data.value.value).value;
      var typeHash := codec.hash(rec.edgeType);
      var outKey := EncodeAdjacencyKey(rec.src, Out, typeHash, rec.dst, id);
      Remove(ADJACENCY, outKey);
      var inKey := EncodeAdjacencyKey(rec.dst, In, typeHash, rec.src, id);
      Remove(ADJACENCY, inKey);
      Remove(EDGES, key);
      graph := WithoutEdge(graph, id);
      return Ok(true);
    }

    /** Removes every edge filed under `id` in one direction, with both its entries. */
    method Detach(id: u64, dir: Direction, ghost edges: map<u64, EdgeRecord>)
      requires Shaped() && EdgesIn(txn.View(), edges, codec)
      modifies txn, txn.db.pager
      ensures Shaped() && EdgesIn(txn.View(), Detached(edges, id, dir), codec)
      ensures txn.View() - {EDGES, ADJACENCY} == old(txn.View()) - {EDGES, ADJACENCY}
    {
      hide WriteTxn.Valid, ViewOf, Fixed, EdgesIn, Scanned, EncodeAdj, DecodeAdj, Listing, EdgesOf, AdjBytes,
          AdjacencyIn;
      ViewKeys(txn.trees);
      var start, end := AdjDirStart(id, dir), AdjDirEnd(id, dir);
      var entries := txn.Range(ADJACENCY, start, end);
      var es := entries.value;
      AdjacencyPart(txn.View(), edges, codec);
      ScanExact(es, txn.View()[ADJACENCY], edges, id, dir, None, codec.hash);
      ScannedLengths(es, edges, id, dir, None, codec.hash);
      AllScanned(es, edges, id, dir, codec.hash);
      for i := 0 to |es|
        invariant Shaped() && EdgesIn(txn.View(), edges - EdgesOf(es, i), codec)
        invariant txn.View() - {EDGES, ADJACENCY} == old(txn.View()) - {EDGES, ADJACENCY}
      {
        NextScanned(es, edges, id, dir, codec.hash, i);
        RemoveScanned(es[i].key, id, dir, edges - EdgesOf(es, i));
      }
    }

    /** Removes the edge that a scanned adjacency entry names. */
    method RemoveScanned(adjKey: Key, id: u64, dir: Direction, ghost edges: map<u64, EdgeRecord>)
      requires Shaped() && EdgesIn(txn.View(), edges, codec) && |adjKey| == ADJ_KEY_LEN
      requires var a := DecodeAdj(adjKey);
               && a.edge in edges && adjKey == AdjBytes(edges[a.edge], a.edge, dir, codec.hash)
               && EncodeAdj(AdjKey(a.dst, Opposite(dir), a.hash, id, a.edge))
                   == AdjBytes(edges[a.edge], a.edge, Opposite(dir), codec.hash)
      modifies txn, txn.db.pager
      ensures Shaped() && EdgesIn(txn.View(), edges - {DecodeAdj(adjKey).edge}, codec)
      ensures txn.View() - {EDGES, ADJACENCY} == old(txn.View()) - {EDGES, ADJACENCY}
    {
      hide WriteTxn.Valid, ViewOf, Fixed, EdgesIn, EncodeAdj, DecodeAdj, BE, AdjBytes;
      ViewKeys(txn.trees);
      assert HasTrees(txn.trees.Keys);
      hide Shaped, Lossless;
      var a := DecodeAdj(adjKey);
      EdgeDetached(txn.View(), edges, codec, a.edge, dir);
      var otherKey := EncodeAdjacencyKey(a.dst, Opposite(dir), a.hash, id, a.edge);
      Remove(ADJACENCY, otherKey);
      Remove(EDGES, BE(a.edge, 8));
      Remove(ADJACENCY, adjKey);
    }

    /** Deletes a node with its label entry and every edge at either end of it. */
    method DeleteNode(id: u64) returns (r: Result<bool>)
      requires Valid()
      modifies txn, txn.db.pager, this`graph
      ensures Valid() && r == Ok(id in old(graph).nodes) && NodeGone(old(graph), graph, id)
    {
      hide WriteTxn.Valid, Encoded, GraphOk, ViewOf, Fixed, BE, EncodeAdj, EncodeLabel, EdgesIn, Detached, DropIn;
      ViewKeys(txn.trees);
      ghost var view := txn.View();
      RecordValues(view, graph, codec, id);
      var key := BE(id, 8);
      var data := txn.Get(NODES, key);
      if data.value.None? {
        NothingAt(graph, id);
        return Ok(false);
      }
      var rec := codec.nodeOf(data.value.value).value;
      var labelHash := codec.hash(rec.labelName);
      var labelKey := EncodeLabelKey(labelHash, id);
      Remove(LABELS, labelKey);
      EdgesKept(view, graph, codec, labelKey);
      Detach(id, Out, graph.edges);
      Detach(id, In, Detached(graph.edges, id, Out));
      ghost var before := txn.View();
      Remove(NODES, key);
      NodeRemoved(view, before, graph, codec, id);
      graph := WithoutNode(graph, id);
      return Ok(true);
    }

    /** Commits; from then on the database holds this graph. */
    method Commit()
      requires Valid() && txn.db.currentTxnId + 1 < U64 && txn.db.wal.offset + 17 < U64
      modifies txn`committed, txn.db, txn.db.pager, txn.db.wal`file, txn.db.wal`offset, txn.db.wal`log
      ensures Holds(txn.db, codec, graph) && graph == old(graph)
    {
      hide WriteTxn.Valid, Database.Valid, Encoded, GraphOk, Fixed, Lossless;
      txn.Commit();
    }
  }

  /** The next edge id is unused, an edge between nodes that exist may take it, and its record reads back. */
  lemma NewEdge(g: Graph, c: Codec, rec: EdgeRecord)
    requires GraphOk(g) && Lossless(c) && g.nextEdge + 1 < U64 && rec.src in g.nodes && rec.dst in g.nodes
    ensures g.nextEdge !in g.edges && GraphOk(WithEdge(g, rec)) && c.edgeOf(c.edgeBytes(rec)) == Some(rec)
  {
  }

  lemma NewNode(g: Graph, c: Codec, rec: NodeRecord)
    requires GraphOk(g) && Lossless(c) && g.nextNode + 1 < U64
    ensures g.nextNode !in g.nodes && GraphOk(WithNode(g, rec)) && c.nodeOf(c.nodeBytes(rec)) == Some(rec)
  {
  }

  lemma BothEntries(rec: EdgeRecord, id: u64, hash: string -> u32)
    ensures AdjBytes(rec, id, Out, hash) == EncodeAdj(AdjKey(rec.src, Out, hash(rec.edgeType), rec.dst, id))
    ensures AdjBytes(rec, id, In, hash) == EncodeAdj(AdjKey(rec.dst, In, hash(rec.edgeType), rec.src, id))
  {
  }

  /** A node that is not there has no edges. */
  lemma NothingAt(g: Graph, id: u64)
    requires GraphOk(g) && id !in g.nodes
    ensures WithoutNode(g, id) == g
  {
    assert g.nodes - {id} == g.nodes;
    assert WithoutNode(g, id).edges == g.edges;
  }

  lemma EdgesKept(view: View, g: Graph, c: Codec, key: Key)
    requires Encoded(view, g, c)
    ensures EdgesIn(DropIn(view, LABELS, key), g.edges, c)
  {
    hide Records, AdjacencyIn;
  }

  lemma ViewKept(view: View, other: View)
    requires HasTrees(other.Keys) && view - {EDGES, ADJACENCY} == other - {EDGES, ADJACENCY}
    ensures META in view && NODES in view && LABELS in view
    ensures view[META] == other[META] && view[NODES] == other[NODES] && view[LABELS] == other[LABELS]
  {
    var rest, rest' := view - {EDGES, ADJACENCY}, other - {EDGES, ADJACENCY};
    assert META in rest' && NODES in rest' && LABELS in rest';
    assert rest[META] == rest'[META] && rest[NODES] == rest'[NODES] && rest[LABELS] == rest'[LABELS];
  }

  lemma IncidentGone(g: Graph, id: u64)
    requires GraphOk(g)
    ensures GraphOk(WithoutNode(g, id))
  {
  }

  /** After the label entry, the edges both ways and the record are gone, the node is. */
  lemma NodeRemoved(view: View, before: View, g: Graph, c: Codec, id: u64)
    requires Encoded(view, g, c) && GraphOk(g) && id in g.nodes
    requires EdgesIn(before, Detached(Detached(g.edges, id, Out), id, In), c)
    requires before - {EDGES, ADJACENCY}
          == DropIn(view, LABELS, LabelBytes(g.nodes[id], id, c.hash)) - {EDGES, ADJACENCY}
    ensures NODES in before && Encoded(DropIn(before, NODES, BE(id, 8)), WithoutNode(g, id), c)
        && GraphOk(WithoutNode(g, id))
  {
    hide Records, AdjacencyIn, LabelsIn, CountersIn, BE, LabelBytes, Detached;
    IncidentGone(g, id);
    DetachedTwice(g, id);
    ViewKept(before, DropIn(view, LABELS, LabelBytes(g.nodes[id], id, c.hash)));
    RecordsDrop(view[NODES], g.nodes, c.nodeOf, id);
    LabelsDrop(view[LABELS], g.nodes, id, c.hash);
  }

  lemma AdjacencyPart(view: View, edges: map<u64, EdgeRecord>, c: Codec)
    requires EdgesIn(view, edges, c)
    ensures ADJACENCY in view && AdjacencyIn(view[ADJACENCY], edges, c.hash)
  {
  }

  lemma LabelTakes(txn: WriteTxn, key: Key)
    requires txn.Valid() && LABELS in txn.trees && Fixed(txn.trees[LABELS], LABEL_KEY_LEN, 0) && |key| == LABEL_KEY_LEN
    ensures InsertFitsIn(txn.trees[LABELS], key, [])
  {
    TreeWhole(txn, LABELS);
    OneSizeFits(txn.trees[LABELS], key, []);
  }

  lemma AdjacencyTakes(txn: WriteTxn, key: Key)
    requires txn.Valid() && ADJACENCY in txn.trees && Fixed(txn.trees[ADJACENCY], ADJ_KEY_LEN, 0)
        && |key| == ADJ_KEY_LEN
    ensures InsertFitsIn(txn.trees[ADJACENCY], key, [])
  {
    TreeWhole(txn, ADJACENCY);
    OneSizeFits(txn.trees[ADJACENCY], key, []);
  }

  lemma CounterValue(n: u64)
    ensures FromLE(LE(n, 8)) == n
  {
    Widths();
    LERoundTrip(n, 8);
  }

  lemma ViewKeys(trees: map<u32, Tree>)
    ensures ViewOf(trees).Keys == trees.Keys
  {
  }
}
