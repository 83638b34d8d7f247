/** How a property graph lies in the five maps of a database, and what scans of its indexes list. */
module GraphIndexes {
  import opened Bytes
  import opened Entries
  import opened Txns
  import opened GraphKeys
  import opened Graphs

  /** The trees in the order the database creates them. */
  const META: u32 := 1
  const NODES: u32 := 2
  const EDGES: u32 := 3
  const ADJACENCY: u32 := 4
  const LABELS: u32 := 5

  /** The ASCII bytes of `next_node_id` and `next_edge_id`. */
  const NEXT_NODE_ID: Key := [110, 101, 120, 116, 95, 110, 111, 100, 101, 95, 105, 100]
  const NEXT_EDGE_ID: Key := [110, 101, 120, 116, 95, 101, 100, 103, 101, 95, 105, 100]

  /** The ASCII bytes of `magic` and `gemgraph_v1`. */
  const MAGIC_KEY: Key := [109, 97, 103, 105, 99]
  const MAGIC_VALUE: Value := [103, 101, 109, 103, 114, 97, 112, 104, 95, 118, 49]

  type View = map<u32, map<Key, Value>>

  ghost predicate HasTrees(trees: set<u32>)
  {
    META in trees && NODES in trees && EDGES in trees && ADJACENCY in trees && LABELS in trees
  }

  /** The five maps hold exactly this graph: records, both index entries of every edge, one label entry of every
      node, the id counters and the marker. */
  ghost predicate Encoded(view: View, g: Graph, c: Codec)
  {
    && HasTrees(view.Keys)
    && CountersIn(view[META], g.nextNode, g.nextEdge)
    && Records(view[NODES], g.nodes, c.nodeOf) && LabelsIn(view[LABELS], g.nodes, c.hash)
    && EdgesIn(view, g.edges, c)
  }

  ghost predicate EdgesIn(view: View, edges: map<u64, EdgeRecord>, c: Codec)
  {
    && EDGES in view && ADJACENCY in view
    && Records(view[EDGES], edges, c.edgeOf) && AdjacencyIn(view[ADJACENCY], edges, c.hash)
  }

  ghost predicate CountersIn(m: map<Key, Value>, nextNode: u64, nextEdge: u64)
  {
    && NEXT_NODE_ID in m && m[NEXT_NODE_ID] == LE(nextNode, 8)
    && NEXT_EDGE_ID in m && m[NEXT_EDGE_ID] == LE(nextEdge, 8)
    && MAGIC_KEY in m && m[MAGIC_KEY] == MAGIC_VALUE
  }

  function PutIn(view: View, t: u32, k: Key, v: Value): View
    requires t in view
  {
    view[t := view[t][k := v]]
  }

  function DropIn(view: View, t: u32, k: Key): View
    requires t in view
  {
    view[t := view[t] - {k}]
  }

  lemma CounterValues(view: View, g: Graph, c: Codec)
    requires Encoded(view, g, c)
    ensures HasTrees(view.Keys) && CountersIn(view[META], g.nextNode, g.nextEdge)
  {
  }

  lemma IdsKeepOk(g: Graph)
    requires GraphOk(g)
    ensures g.nextNode + 1 < U64 ==> GraphOk(NodeIdTaken(g))
    ensures g.nextEdge + 1 < U64 ==> GraphOk(EdgeIdTaken(g))
  {
  }

  /** Taking an id bumps its counter and nothing else. */
  lemma CounterEncoded(view: View, g: Graph, c: Codec)
    requires Encoded(view, g, c)
    ensures g.nextNode + 1 < U64 ==> Encoded(PutIn(view, META, NEXT_NODE_ID, LE(g.nextNode + 1, 8)), NodeIdTaken(g), c)
    ensures g.nextEdge + 1 < U64 ==> Encoded(PutIn(view, META, NEXT_EDGE_ID, LE(g.nextEdge + 1, 8)), EdgeIdTaken(g), c)
  {
    hide LE, Records, AdjacencyIn, LabelsIn;
    assert NEXT_NODE_ID[5] != NEXT_EDGE_ID[5] && |MAGIC_KEY| != |NEXT_NODE_ID| && |MAGIC_KEY| != |NEXT_EDGE_ID|;
  }

  /** A record and its label entry make a node. */
  lemma NodeEncoded(view: View, g: Graph, c: Codec, id: u64, data: Value, rec: NodeRecord)
    requires Encoded(view, g, c) && id !in g.nodes && c.nodeOf(data) == Some(rec)
    ensures Encoded(PutIn(PutIn(view, NODES, BE(id, 8), data), LABELS, LabelBytes(rec, id, c.hash), []),
        g.(nodes := g.nodes[id := rec]), c)
  {
    hide CountersIn, Records, AdjacencyIn, LabelsIn, LabelBytes, BE;
    RecordsSet(view[NODES], g.nodes, c.nodeOf, id, data, rec);
    LabelsAdd(view[LABELS], g.nodes, id, rec, c.hash, []);
  }

  /** A record and its two adjacency entries make an edge. */
  lemma EdgeEncoded(view: View, g: Graph, c: Codec, id: u64, data: Value, rec: EdgeRecord)
    requires Encoded(view, g, c) && id !in g.edges && c.edgeOf(data) == Some(rec)
    ensures Encoded(PutIn(PutIn(PutIn(view, EDGES, BE(id, 8), data), ADJACENCY, AdjBytes(rec, id, Out, c.hash), []),
                          ADJACENCY, AdjBytes(rec, id, In, c.hash), []), g.(edges := g.edges[id := rec]), c)
  {
    hide CountersIn, Records, AdjacencyIn, LabelsIn, AdjBytes, BE;
    RecordsSet(view[EDGES], g.edges, c.edgeOf, id, data, rec);
    AdjacencyAdd(view[ADJACENCY], g.edges, id, rec, c.hash, [], []);
  }

  lemma PropertyEncoded(view: View, g: Graph, c: Codec, id: u64, data: Value, rec: NodeRecord)
    requires Encoded(view, g, c) && id in g.nodes && c.nodeOf(data) == Some(rec)
        && rec.labelName == g.nodes[id].labelName
    ensures Encoded(PutIn(view, NODES, BE(id, 8), data), g.(nodes := g.nodes[id := rec]), c)
  {
    hide CountersIn, Records, AdjacencyIn, LabelsIn, BE;
    RecordsSet(view[NODES], g.nodes, c.nodeOf, id, data, rec);
    LabelsSame(view[LABELS], g.nodes, id, rec, c.hash);
  }

  lemma RecordValues(view: View, g: Graph, c: Codec, id: u64)
    requires Encoded(view, g, c)
    ensures BE(id, 8) in view[NODES] <==> id in g.nodes
    ensures id in g.nodes ==> c.nodeOf(view[NODES][BE(id, 8)]) == Some(g.nodes[id])
    ensures BE(id, 8) in view[EDGES] <==> id in g.edges
    ensures id in g.edges ==> c.edgeOf(view[EDGES][BE(id, 8)]) == Some(g.edges[id])
  {
    hide CountersIn, AdjacencyIn, LabelsIn, Records, BE;
    RecordsGet(view[NODES], g.nodes, c.nodeOf, id);
    RecordsGet(view[EDGES], g.edges, c.edgeOf, id);
  }

  /** Dropping an edge's two entries and its record drops the edge. */
  lemma EdgeDropped(view: View, edges: map<u64, EdgeRecord>, c: Codec, id: u64)
    requires EdgesIn(view, edges, c) && id in edges
    ensures EdgesIn(DropIn(DropIn(DropIn(view, ADJACENCY, AdjBytes(edges[id], id, Out, c.hash)),
                                  ADJACENCY, AdjBytes(edges[id], id, In, c.hash)), EDGES, BE(id, 8)), edges - {id}, c)
  {
    hide Records, AdjacencyIn, AdjBytes, BE;
    RecordsDrop(view[EDGES], edges, c.edgeOf, id);
    AdjacencyDrop(view[ADJACENCY], edges, id, c.hash);
  }

  /** As the deletion loops do it: the far entry, the record, then the entry that was scanned. */
  lemma EdgeDetached(view: View, edges: map<u64, EdgeRecord>, c: Codec, id: u64, dir: Direction)
    requires EdgesIn(view, edges, c) && id in edges
    ensures EdgesIn(DropIn(DropIn(DropIn(view, ADJACENCY, AdjBytes(edges[id], id, Opposite(dir), c.hash)),
                                  EDGES, BE(id, 8)),
                           ADJACENCY, AdjBytes(edges[id], id, dir, c.hash)), edges - {id}, c)
  {
    hide Records, AdjacencyIn, AdjBytes, BE, DropIn;
    EdgeDropped(view, edges, c, id);
    DropOrder(view, AdjBytes(edges[id], id, Opposite(dir), c.hash), AdjBytes(edges[id], id, dir, c.hash), BE(id, 8));
  }

  lemma EdgeRemoved(view: View, g: Graph, c: Codec, id: u64)
    requires Encoded(view, g, c) && GraphOk(g)
    ensures GraphOk(WithoutEdge(g, id))
    ensures if id in g.edges
            then Encoded(DropIn(DropIn(DropIn(view, ADJACENCY, AdjBytes(g.edges[id], id, Out, c.hash)),
                                       ADJACENCY, AdjBytes(g.edges[id], id, In, c.hash)), EDGES, BE(id, 8)),
                         WithoutEdge(g, id), c)
            else WithoutEdge(g, id) == g
  {
    hide EdgesIn, Records, LabelsIn, CountersIn, AdjBytes, BE;
    if id in g.edges {
      EdgeDropped(view, g.edges, c, id);
    } else {
      assert g.edges - {id} == g.edges;
    }
  }

  /** The order of the three deletions does not matter. */
  lemma DropOrder(view: View, a: Key, b: Key, e: Key)
    requires ADJACENCY in view && EDGES in view
    ensures DropIn(DropIn(DropIn(view, ADJACENCY, a), EDGES, e), ADJACENCY, b)
         == DropIn(DropIn(DropIn(view, ADJACENCY, b), ADJACENCY, a), EDGES, e)
         == DropIn(DropIn(DropIn(view, ADJACENCY, a), ADJACENCY, b), EDGES, e)
  {
    assert view[ADJACENCY] - {a} - {b} == view[ADJACENCY] - {b} - {a};
  }

  // ----- index scans -----

  /** The edges a neighbour query selects: by end, direction and, if given, type hash. */
  ghost predicate Selected(e: EdgeRecord, node: u64, dir: Direction, typeHash: Option<u32>, hash: string -> u32)
  {
    Near(e, dir) == node && (typeHash.Some? ==> hash(e.edgeType) == typeHash.value)
  }

  function AdjStart(node: u64, dir: Direction, typeHash: Option<u32>): Key
  {
    if typeHash.Some? then AdjPrefixStart(node, dir, typeHash.value) else AdjDirStart(node, dir)
  }

  function AdjEnd(node: u64, dir: Direction, typeHash: Option<u32>): Key
  {
    if typeHash.Some? then AdjPrefixEnd(node, dir, typeHash.value) else AdjDirEnd(node, dir)
  }

  /** What one scanned adjacency entry says. */
  ghost predicate EntryNames(key: Key, edges: map<u64, EdgeRecord>, dir: Direction, hash: string -> u32)
  {
    && |key| == ADJ_KEY_LEN && DecodeAdj(key).edge in edges
    && DecodeAdj(key) == KeyOf(edges[DecodeAdj(key).edge], DecodeAdj(key).edge, dir, hash)
    && key == AdjBytes(edges[DecodeAdj(key).edge], DecodeAdj(key).edge, dir, hash)
  }

  lemma ScannedEntry(key: Key, m: map<Key, Value>, edges: map<u64, EdgeRecord>, node: u64, dir: Direction,
                     t: Option<u32>, hash: string -> u32)
    requires AdjacencyIn(m, edges, hash) && key in m && AtMost(AdjStart(node, dir, t), key)
        && AtMost(key, AdjEnd(node, dir, t))
    ensures EntryNames(key, edges, dir, hash) && Selected(edges[DecodeAdj(key).edge], node, dir, t, hash)
  {
    hide DecodeAdj, EncodeAdj, Less;
    assert IsAdjEntry(key, edges, hash);
    var a := DecodeAdj(key);
    AdjRoundTrip(a, key);
    AdjDirRange(node, dir, a);
    if t.Some? {
      AdjPrefixRange(node, dir, t.value, a);
    }
  }

  lemma SelectedInRange(e: u64, m: map<Key, Value>, edges: map<u64, EdgeRecord>, node: u64, dir: Direction,
                        t: Option<u32>, hash: string -> u32)
    requires AdjacencyIn(m, edges, hash) && e in edges && Selected(edges[e], node, dir, t, hash)
    ensures var k := AdjBytes(edges[e], e, dir, hash);
            k in m && AtMost(AdjStart(node, dir, t), k) && AtMost(k, AdjEnd(node, dir, t)) && |k| == ADJ_KEY_LEN
                && DecodeAdj(k).edge == e
  {
    var k := AdjBytes(edges[e], e, dir, hash);
    EntryOfEdge(k, edges, hash, e);
    hide DecodeAdj, EncodeAdj, Less;
    var a := KeyOf(edges[e], e, dir, hash);
    AdjRoundTrip(a, k);
    AdjDirRange(node, dir, a);
    if t.Some? {
      AdjPrefixRange(node, dir, t.value, a);
    }
  }

  /** A scan of the adjacency index meets every selected edge once, in tuple order. */
  ghost predicate Scanned(es: seq<Entry>, edges: map<u64, EdgeRecord>, node: u64, dir: Direction, t: Option<u32>,
                          hash: string -> u32)
  {
    && (forall i :: 0 <= i < |es| ==>
        EntryNames(es[i].key, edges, dir, hash) && Selected(edges[DecodeAdj(es[i].key).edge], node, dir, t, hash))
    && (forall i, j :: 0 <= i < j < |es| ==> AdjLess(DecodeAdj(es[i].key), DecodeAdj(es[j].key)))
    && (forall e :: e in edges && Selected(edges[e], node, dir, t, hash) ==>
        exists i :: 0 <= i < |es| && DecodeAdj(es[i].key).edge == e)
  }

  lemma ScanExact(es: seq<Entry>, m: map<Key, Value>, edges: map<u64, EdgeRecord>, node: u64, dir: Direction,
                  t: Option<u32>, hash: string -> u32)
    requires AdjacencyIn(m, edges, hash) && Listing(es, m, AdjStart(node, dir, t), AdjEnd(node, dir, t))
    ensures Scanned(es, edges, node, dir, t, hash)
  {
    hide DecodeAdj, EncodeAdj, Less, AdjStart, AdjEnd, AdjacencyIn, AdjLess, Selected;
    forall i | 0 <= i < |es|
      ensures EntryNames(es[i].key, edges, dir, hash)
          && Selected(edges[DecodeAdj(es[i].key).edge], node, dir, t, hash) {
      ScannedEntry(es[i].key, m, edges, node, dir, t, hash);
    }
    forall i, j | 0 <= i < j < |es| ensures AdjLess(DecodeAdj(es[i].key), DecodeAdj(es[j].key)) {
      AdjOrder(DecodeAdj(es[i].key), DecodeAdj(es[j].key));
    }
    forall e | e in edges && Selected(edges[e], node, dir, t, hash)
      ensures exists i :: 0 <= i < |es| && DecodeAdj(es[i].key).edge == e {
      SelectedInRange(e, m, edges, node, dir, t, hash);
      var i :| 0 <= i < |es| && es[i].key == AdjBytes(edges[e], e, dir, hash);
    }
  }

  ghost function EdgesOf(es: seq<Entry>, n: nat): set<u64>
    requires n <= |es| && forall i :: 0 <= i < |es| ==> |es[i].key| == ADJ_KEY_LEN
  {
    set i | 0 <= i < n :: DecodeAdj(es[i].key).edge
  }

  lemma ScannedLengths(es: seq<Entry>, edges: map<u64, EdgeRecord>, node: u64, dir: Direction, t: Option<u32>,
                       hash: string -> u32)
    requires Scanned(es, edges, node, dir, t, hash)
    ensures forall i :: 0 <= i < |es| ==> |es[i].key| == ADJ_KEY_LEN
  {
    hide DecodeAdj, AdjLess, KeyOf, AdjBytes;
  }

  /** The next scanned entry is of an edge not met yet, and its far entry can be worked out from it. */
  lemma NextScanned(es: seq<Entry>, edges: map<u64, EdgeRecord>, node: u64, dir: Direction, hash: string -> u32, i: nat)
    requires Scanned(es, edges, node, dir, None, hash) && i < |es|
    requires forall j :: 0 <= j < |es| ==> |es[j].key| == ADJ_KEY_LEN
    ensures var a := DecodeAdj(es[i].key);
            && a.edge in edges - EdgesOf(es, i) && edges - EdgesOf(es, i + 1) == edges - EdgesOf(es, i) - {a.edge}
            && es[i].key == AdjBytes(edges[a.edge], a.edge, dir, hash)
            && EncodeAdj(AdjKey(a.dst, Opposite(dir), a.hash, node, a.edge))
                == AdjBytes(edges[a.edge], a.edge, Opposite(dir), hash)
  {
    hide DecodeAdj, EncodeAdj;
    var a := DecodeAdj(es[i].key);
    assert EntryNames(es[i].key, edges, dir, hash);
    forall j | 0 <= j < i ensures DecodeAdj(es[j].key).edge != a.edge {
      assert EntryNames(es[j].key, edges, dir, hash);
      assert AdjLess(DecodeAdj(es[j].key), a);
    }
    assert EdgesOf(es, i + 1) == EdgesOf(es, i) + {a.edge};
  }

  lemma AllScanned(es: seq<Entry>, edges: map<u64, EdgeRecord>, node: u64, dir: Direction, hash: string -> u32)
    requires Scanned(es, edges, node, dir, None, hash)
    requires forall j :: 0 <= j < |es| ==> |es[j].key| == ADJ_KEY_LEN
    ensures edges - EdgesOf(es, 0) == edges && edges - EdgesOf(es, |es|) == Detached(edges, node, dir)
  {
    hide DecodeAdj, EncodeAdj, AdjLess, KeyOf, AdjBytes;
  }

  /** The label scan: every node whose label has this hash, once, by increasing id. */
  ghost predicate LabelList(ids: seq<u64>, nodes: map<u64, NodeRecord>, labelHash: u32, hash: string -> u32)
  {
    && (forall i :: 0 <= i < |ids| ==> ids[i] in nodes && hash(nodes[ids[i]].labelName) == labelHash)
    && (forall i, j :: 0 <= i < j < |ids| ==> ids[i] < ids[j])
    && (forall n :: n in nodes && hash(nodes[n].labelName) == labelHash ==> n in ids)
  }

  lemma LabelScanExact(es: seq<Entry>, m: map<Key, Value>, nodes: map<u64, NodeRecord>, labelHash: u32,
                       hash: string -> u32, ids: seq<u64>)
    requires LabelsIn(m, nodes, hash) && Listing(es, m, LabelPrefixStart(labelHash), LabelPrefixEnd(labelHash))
    requires |ids| == |es| && forall i :: 0 <= i < |es| ==>
        |es[i].key| == LABEL_KEY_LEN && ids[i] == DecodeLabel(es[i].key).node
    ensures LabelList(ids, nodes, labelHash, hash)
  {
    hide DecodeLabel, EncodeLabel, Less, LabelPrefixStart, LabelPrefixEnd;
    forall i | 0 <= i < |es|
      ensures ids[i] in nodes && hash(nodes[ids[i]].labelName) == labelHash
          && DecodeLabel(es[i].key).hash == labelHash {
      var k := es[i].key;
      assert IsLabelEntry(k, nodes, hash);
      LabelRoundTrip(DecodeLabel(k), k);
      LabelPrefixRange(labelHash, DecodeLabel(k));
    }
    forall i, j | 0 <= i < j < |ids| ensures ids[i] < ids[j] {
      LabelRoundTrip(DecodeLabel(es[i].key), es[i].key);
      LabelRoundTrip(DecodeLabel(es[j].key), es[j].key);
      LabelOrder(DecodeLabel(es[i].key), DecodeLabel(es[j].key));
    }
    forall n | n in nodes && hash(nodes[n].labelName) == labelHash ensures n in ids {
      var k := LabelBytes(nodes[n], n, hash);
      EntryOfNode(k, nodes, hash, n);
      LabelPrefixRange(labelHash, LabelKey(labelHash, n));
      var i :| 0 <= i < |es| && es[i].key == k;
      assert ids[i] == n;
    }
  }
}
