/** Graph read transactions. */
module GraphReads {
  import opened Bytes
  import opened Entries
  import opened FixedSize
  import opened Results
  import opened Txns
  import opened GraphKeys
  import opened Graphs
  import opened GraphIndexes
  import opened GraphTxns

  datatype Node = Node(id: u64, labelName: string, properties: Props)
  datatype Edge = Edge(id: u64, src: u64, dst: u64, edgeType: string, properties: Props)

  /** Order by type hash, then far end, then edge id. */
  predicate Before(a: (u64, u64), c: (u64, u64), edges: map<u64, EdgeRecord>, hash: string -> u32)
    requires a.0 in edges && c.0 in edges
  {
    var h, h' := hash(edges[a.0].edgeType), hash(edges[c.0].edgeType);
    h < h' || (h == h' && (a.1 < c.1 || (a.1 == c.1 && a.0 < c.0)))
  }

  /** What a neighbour query returns: exactly the edges that leave the node (for `In`: that enter it), of the given type
      hash if there is one, each with its other end, once and in order. */
  ghost predicate NeighborList(rs: seq<(u64, u64)>, edges: map<u64, EdgeRecord>, node: u64, dir: Direction,
                               t: Option<u32>, hash: string -> u32)
  {
    && (forall e, far :: (e, far) in rs <==>
        && e in edges && (t.Some? ==> hash(edges[e].edgeType) == t.value)
        && if dir.Out? then edges[e].src == node && edges[e].dst == far
           else edges[e].dst == node && edges[e].src == far)
    && (forall i :: 0 <= i < |rs| ==> rs[i].0 in edges)
    && (forall i, j :: 0 <= i < j < |rs| ==> Before(rs[i], rs[j], edges, hash))
  }

  lemma NeighborsScanned(es: seq<Entry>, rs: seq<(u64, u64)>, edges: map<u64, EdgeRecord>, node: u64, dir: Direction,
                         t: Option<u32>, hash: string -> u32)
    requires Scanned(es, edges, node, dir, t, hash) && |rs| == |es|
    requires forall i :: 0 <= i < |es| ==>
        |es[i].key| == ADJ_KEY_LEN && rs[i] == (DecodeAdj(es[i].key).edge, DecodeAdj(es[i].key).dst)
    ensures NeighborList(rs, edges, node, dir, t, hash)
  {
    hide DecodeAdj, AdjBytes;
    forall i | 0 <= i < |rs| ensures rs[i].0 in edges && Selected(edges[rs[i].0], node, dir, t, hash)
                                     && KeyOf(edges[rs[i].0], rs[i].0, dir, hash) == DecodeAdj(es[i].key) {
      assert EntryNames(es[i].key, edges, dir, hash);
    }
    forall e, far ensures (e, far) in rs <==>
        e in edges && Selected(edges[e], node, dir, t, hash) && Far(edges[e], dir) == far {
      if e in edges && Selected(edges[e], node, dir, t, hash) && Far(edges[e], dir) == far {
        var i :| 0 <= i < |es| && DecodeAdj(es[i].key).edge == e;
        assert rs[i] == (e, far);
      }
    }
  }

  /** No edge is listed twice. */
  lemma NeighborsDistinct(rs: seq<(u64, u64)>, edges: map<u64, EdgeRecord>, node: u64, dir: Direction, t: Option<u32>,
                          hash: string -> u32)
    requires NeighborList(rs, edges, node, dir, t, hash)
    ensures forall i, j :: 0 <= i < j < |rs| ==> rs[i] != rs[j]
  {
  }

  class GraphReadTxn {
    const txn: ReadTxn
    const codec: Codec
    ghost const graph: Graph

    ghost predicate Valid()
      reads txn, txn.db, txn.db.pager, txn.db.wal
    {
      txn.Valid() && Holds(txn.db, codec, graph)
    }

    constructor (db: Database, codec: Codec, ghost g: Graph)
      requires Holds(db, codec, g)
      ensures Valid() && txn.db == db && this.codec == codec && graph == g
    {
      hide Database.Valid, Encoded, GraphOk, Fixed, Lossless;
      var t := new ReadTxn(db);
      txn, this.codec, graph := t, codec, g;
    }

    method GetNode(id: u64) returns (r: Result<Option<Node>>)
      requires Valid()
      modifies txn.db.pager`cache, txn.db.pager`lruOrder
      ensures Valid()
      ensures r == Ok(if id in graph.nodes then Some(Node.Node(id, graph.nodes[id].labelName, graph.nodes[id].props))
          else None)
    {
      hide Database.Valid, Encoded, GraphOk, Fixed, Lossless, ViewOf, BE;
      ViewKeys(txn.db.trees);
      RecordValues(txn.db.View(), graph, codec, id);
      HasNodes(txn.db.View(), graph, codec);
      var data := txn.Get(NODES, BE(id, 8));
      if data.value.None? {
        return Ok(None);
      }
      var rec := codec.nodeOf(data.value.value).value;
      return Ok(Some(Node.Node(id, rec.labelName, rec.props)));
    }

    method GetEdge(id: u64) returns (r: Result<Option<Edge>>)
      requires Valid()
      modifies txn.db.pager`cache, txn.db.pager`lruOrder
      ensures Valid()
      ensures r == Ok(if id in graph.edges
                      then var e := graph.edges[id]; Some(Edge(id, e.src, e.dst, e.edgeType, e.props)) else None)
    {
      hide Database.Valid, Encoded, GraphOk, Fixed, Lossless, ViewOf, BE;
      ViewKeys(txn.db.trees);
      RecordValues(txn.db.View(), graph, codec, id);
      HasNodes(txn.db.View(), graph, codec);
      var data := txn.Get(EDGES, BE(id, 8));
      if data.value.None? {
        return Ok(None);
      }
      var rec := codec.edgeOf(data.value.value).value;
      return Ok(Some(Edge(id, rec.src, rec.dst, rec.edgeType, rec.props)));
    }

    /** The edges at one end of a node, by one scan of the adjacency index. */
    method Neighbors(nodeId: u64, direction: Direction, edgeType: Option<string>) returns (r: Result<seq<(u64, u64)>>)
      requires Valid()
      modifies txn.db.pager`cache, txn.db.pager`lruOrder
      ensures Valid() && r.Ok?
      ensures NeighborList(r.value, graph.edges, nodeId, direction,
                           if edgeType.Some? then Some(codec.hash(edgeType.value)) else None, codec.hash)
    {
      hide Database.Valid, Encoded, GraphOk, Fixed, Lossless, ViewOf, EncodeAdj, DecodeAdj, Listing, Scanned,
          NeighborList, AdjacencyIn;
      ViewKeys(txn.db.trees);
      HasNodes(txn.db.View(), graph, codec);
      var h: Option<u32> := if edgeType.Some? then Some(codec.hash(edgeType.value)) else None;
      var start, end := AdjStart(nodeId, direction, h), AdjEnd(nodeId, direction, h);
      var found := txn.Range(ADJACENCY, start, end);
      var entries := found.value;
      ScanExact(entries, txn.db.View()[ADJACENCY], graph.edges, nodeId, direction, h, codec.hash);
      ScannedLengths(entries, graph.edges, nodeId, direction, h, codec.hash);
      var results := EdgeEnds(entries);
      NeighborsScanned(entries, results, graph.edges, nodeId, direction, h, codec.hash);
      return Ok(results);
    }

    /** Decodes scanned entries, in a loop over them. */
    static method EdgeEnds(entries: seq<Entry>) returns (results: seq<(u64, u64)>)
      requires forall i :: 0 <= i < |entries| ==> |entries[i].key| == ADJ_KEY_LEN
      ensures |results| == |entries|
      ensures forall i :: 0 <= i < |entries| ==>
          results[i] == (DecodeAdj(entries[i].key).edge, DecodeAdj(entries[i].key).dst)
    {
      hide DecodeAdj;
      results := [];
      for i := 0 to |entries|
        invariant |results| == i
        invariant forall j :: 0 <= j < i ==>
            results[j] == (DecodeAdj(entries[j].key).edge, DecodeAdj(entries[j].key).dst)
      {
        var a := DecodeAdj(entries[i].key);
        results := results + [(a.edge, a.dst)];
      }
    }

    /** The nodes whose label has the given label's hash, by one scan of the label index. */
    method NodesByLabel(labelName: string) returns (r: Result<seq<u64>>)
      requires Valid()
      modifies txn.db.pager`cache, txn.db.pager`lruOrder
      ensures Valid() && r.Ok? && LabelList(r.value, graph.nodes, codec.hash(labelName), codec.hash)
    {
      hide Database.Valid, Encoded, GraphOk, Fixed, Lossless, ViewOf, EncodeLabel, DecodeLabel, LabelList, LabelsIn;
      ViewKeys(txn.db.trees);
      HasNodes(txn.db.View(), graph, codec);
      var h := codec.hash(labelName);
      var found := txn.Range(LABELS, LabelPrefixStart(h), LabelPrefixEnd(h));
      var entries := found.value;
      LabelLengths(entries, txn.db.View()[LABELS], graph.nodes, codec.hash, LabelPrefixStart(h), LabelPrefixEnd(h));
      var results := NodeIds(entries);
      LabelScanExact(entries, txn.db.View()[LABELS], graph.nodes, h, codec.hash, results);
      return Ok(results);
    }

    static method NodeIds(entries: seq<Entry>) returns (results: seq<u64>)
      requires forall i :: 0 <= i < |entries| ==> |entries[i].key| == LABEL_KEY_LEN
      ensures |results| == |entries| && forall i :: 0 <= i < |entries| ==>
          results[i] == DecodeLabel(entries[i].key).node
    {
      hide DecodeLabel;
      results := [];
      for i := 0 to |entries|
        invariant |results| == i && forall j :: 0 <= j < i ==> results[j] == DecodeLabel(entries[j].key).node
      {
        results := results + [DecodeLabel(entries[i].key).node];
      }
    }

    method GetNodeProperty(id: u64, key: string) returns (r: Result<Option<PropValue>>)
      requires Valid()
      modifies txn.db.pager`cache, txn.db.pager`lruOrder
      ensures Valid()
      ensures r == Ok(if id in graph.nodes && key in graph.nodes[id].props then Some(graph.nodes[id].props[key])
          else None)
    {
      hide Valid;
      var node := GetNode(id);
      if node.value.None? {
        return Ok(None);
      }
      var props := node.value.value.properties;
      return Ok(if key in props then Some(props[key]) else None);
    }
  }

  lemma HasNodes(view: View, g: Graph, c: Codec)
    requires Encoded(view, g, c)
    ensures HasTrees(view.Keys) && AdjacencyIn(view[ADJACENCY], g.edges, c.hash)
        && LabelsIn(view[LABELS], g.nodes, c.hash)
  {
  }

  lemma LabelLengths(es: seq<Entry>, m: map<Key, Value>, nodes: map<u64, NodeRecord>, hash: string -> u32, start: Key,
                     end: Key)
    requires LabelsIn(m, nodes, hash) && Listing(es, m, start, end)
    ensures forall i :: 0 <= i < |es| ==> |es[i].key| == LABEL_KEY_LEN
  {
    hide DecodeLabel, Less;
    forall i | 0 <= i < |es| ensures |es[i].key| == LABEL_KEY_LEN {
      assert IsLabelEntry(es[i].key, nodes, hash);
    }
  }
}
