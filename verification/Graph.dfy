/** The property graph as a value, and how its parts lie in five key/value maps. */
module Graphs {
  import opened Bytes
  import opened Entries
  import opened GraphKeys

  /** Floats are kept as their bit pattern. */
  datatype PropValue = Null | Bool(truth: bool) | Int(number: int) | Float(bits: u64) | Str(text: string)

  type Props = map<string, PropValue>

  datatype NodeRecord = NodeRecord(labelName: string, props: Props)
  datatype EdgeRecord = EdgeRecord(src: u64, dst: u64, edgeType: string, props: Props)

  datatype Graph = Graph(nodes: map<u64, NodeRecord>, edges: map<u64, EdgeRecord>, nextNode: u64, nextEdge: u64)

  /** Record serialization and name hashing are not part of this model: they are functions given from outside. */
  datatype Codec = Codec(
    nodeBytes: NodeRecord -> seq<byte>, nodeOf: seq<byte> -> Option<NodeRecord>,
    edgeBytes: EdgeRecord -> seq<byte>, edgeOf: seq<byte> -> Option<EdgeRecord>,
    hash: string -> u32)

  ghost predicate Lossless(c: Codec)
  {
    && (forall r :: c.nodeOf(c.nodeBytes(r)) == Some(r))
    && (forall r :: c.edgeOf(c.edgeBytes(r)) == Some(r))
  }

  /** Every edge's ends exist, and every id is below its counter. */
  ghost predicate GraphOk(g: Graph)
  {
    && (forall e :: e in g.edges ==> g.edges[e].src in g.nodes && g.edges[e].dst in g.nodes && e < g.nextEdge)
    && (forall n :: n in g.nodes ==> n < g.nextNode)
  }

  // ----- operations on the graph -----

  function NodeIdTaken(g: Graph): Graph
    requires g.nextNode + 1 < U64
  {
    g.(nextNode := g.nextNode + 1)
  }

  function EdgeIdTaken(g: Graph): Graph
    requires g.nextEdge + 1 < U64
  {
    g.(nextEdge := g.nextEdge + 1)
  }

  function WithNode(g: Graph, rec: NodeRecord): Graph
    requires g.nextNode + 1 < U64
  {
    NodeIdTaken(g).(nodes := g.nodes[g.nextNode := rec])
  }

  function WithEdge(g: Graph, rec: EdgeRecord): Graph
    requires g.nextEdge + 1 < U64
  {
    EdgeIdTaken(g).(edges := g.edges[g.nextEdge := rec])
  }

  /** The end of an edge that its adjacency entry in direction `dir` is filed under. */
  function Near(e: EdgeRecord, dir: Direction): u64
  {
    if dir.Out? then e.src else e.dst
  }

  function Far(e: EdgeRecord, dir: Direction): u64
  {
    if dir.Out? then e.dst else e.src
  }

  function Opposite(dir: Direction): Direction
  {
    if dir.Out? then In else Out
  }

  /** The edges that do not leave (or enter) node `id`. */
  function Detached(edges: map<u64, EdgeRecord>, id: u64, dir: Direction): map<u64, EdgeRecord>
  {
    map e | e in edges && Near(edges[e], dir) != id :: edges[e]
  }

  /** The node and precisely its incident edges are gone. */
  function WithoutNode(g: Graph, id: u64): Graph
  {
    g.(nodes := g.nodes - {id},
       edges := map e | e in g.edges && g.edges[e].src != id && g.edges[e].dst != id :: g.edges[e])
  }

  function WithoutEdge(g: Graph, id: u64): Graph
  {
    g.(edges := g.edges - {id})
  }

  function WithProperty(g: Graph, id: u64, key: string, value: PropValue): Graph
    requires id in g.nodes
  {
    g.(nodes := g.nodes[id := g.nodes[id].(props := g.nodes[id].props[key := value])])
  }

  /** Reading after setting: property `key` of node `id` is there and is `value`, every other property of every node is
      there exactly if it was, with the value it had, and labels, nodes, edges and counters are as before. */
  ghost predicate PropertySet(g: Graph, g': Graph, id: u64, key: string, value: PropValue)
  {
    && id in g.nodes && g'.nodes.Keys == g.nodes.Keys
    && (forall n :: n in g.nodes ==> g'.nodes[n].labelName == g.nodes[n].labelName)
    && (forall n, k :: n in g.nodes ==>
          (k in g'.nodes[n].props <==> k in g.nodes[n].props || (n == id && k == key)))
    && (forall n, k :: n in g.nodes && k in g'.nodes[n].props ==>
          g'.nodes[n].props[k] == if n == id && k == key then value else g.nodes[n].props[k])
    && g'.edges == g.edges && g'.nextNode == g.nextNode && g'.nextEdge == g.nextEdge
  }

  /** Setting a property is exactly that change. */
  lemma PropertySetExact(g: Graph, g': Graph, id: u64, key: string, value: PropValue)
    requires id in g.nodes
    ensures PropertySet(g, g', id, key, value) <==> g' == WithProperty(g, id, key, value)
  {
    if PropertySet(g, g', id, key, value) {
      var h := WithProperty(g, id, key, value);
      forall n | n in g.nodes ensures g'.nodes[n] == h.nodes[n] {
        assert g'.nodes[n].props == h.nodes[n].props;
      }
      assert g'.nodes == h.nodes;
    }
  }

  /** A node under the next node id, an edge under the next edge id, or just the id spent; all else is as before. */
  ghost predicate NodeAdded(g: Graph, g': Graph, rec: NodeRecord)
  {
    && g'.nodes == g.nodes[g.nextNode := rec] && g'.edges == g.edges
    && g'.nextNode == g.nextNode + 1 && g'.nextEdge == g.nextEdge
  }

  ghost predicate EdgeAdded(g: Graph, g': Graph, rec: EdgeRecord)
  {
    && g'.nodes == g.nodes && g'.edges == g.edges[g.nextEdge := rec]
    && g'.nextNode == g.nextNode && g'.nextEdge == g.nextEdge + 1
  }

  ghost predicate NodeIdSpent(g: Graph, g': Graph)
  {
    g'.nodes == g.nodes && g'.edges == g.edges && g'.nextNode == g.nextNode + 1 && g'.nextEdge == g.nextEdge
  }

  ghost predicate EdgeIdSpent(g: Graph, g': Graph)
  {
    g'.nodes == g.nodes && g'.edges == g.edges && g'.nextNode == g.nextNode && g'.nextEdge == g.nextEdge + 1
  }

  /** The operations are those changes. */
  lemma OperationsMean(g: Graph, n: NodeRecord, e: EdgeRecord)
    ensures g.nextNode + 1 < U64 ==> NodeAdded(g, WithNode(g, n), n) && NodeIdSpent(g, NodeIdTaken(g))
    ensures g.nextEdge + 1 < U64 ==> EdgeAdded(g, WithEdge(g, e), e) && EdgeIdSpent(g, EdgeIdTaken(g))
  {
  }

  /** An edge is gone, if it was there; all else is as before. */
  ghost predicate EdgeGone(g: Graph, g': Graph, id: u64)
  {
    && g'.nodes == g.nodes && g'.edges == g.edges - {id}
    && g'.nextNode == g.nextNode && g'.nextEdge == g.nextEdge
  }

  /** The node is gone and so is each edge at either end of it; all else is as before. */
  ghost predicate NodeGone(g: Graph, g': Graph, id: u64)
  {
    && g'.nodes == g.nodes - {id} && g'.nextNode == g.nextNode && g'.nextEdge == g.nextEdge
    && (forall e :: e in g'.edges <==> e in g.edges && g.edges[e].src != id && g.edges[e].dst != id)
    && (forall e :: e in g'.edges ==> g'.edges[e] == g.edges[e])
  }

  /** Every operation keeps the graph sound. */
  lemma OperationsKeepOk(g: Graph, n: NodeRecord, e: EdgeRecord, id: u64, key: string, value: PropValue)
    requires GraphOk(g)
    ensures g.nextNode + 1 < U64 ==> GraphOk(WithNode(g, n))
    ensures g.nextEdge + 1 < U64 && e.src in g.nodes && e.dst in g.nodes ==> GraphOk(WithEdge(g, e))
    ensures GraphOk(WithoutNode(g, id)) && GraphOk(WithoutEdge(g, id))
    ensures id in g.nodes ==> GraphOk(WithProperty(g, id, key, value))
    ensures g.nextNode + 1 < U64 ==> GraphOk(NodeIdTaken(g))
    ensures g.nextEdge + 1 < U64 ==> GraphOk(EdgeIdTaken(g))
  {
  }

  /** Deleting a node is detaching it in both directions, in either order. */
  lemma DetachedTwice(g: Graph, id: u64)
    ensures Detached(Detached(g.edges, id, Out), id, In) == WithoutNode(g, id).edges
  {
  }

  // ----- records by id -----

  /** The map holds one record per id, under the id's eight big-endian bytes. */
  ghost predicate Records<R>(m: map<Key, Value>, rs: map<u64, R>, of: Value -> Option<R>)
  {
    && (forall k :: k in m <==> |k| == 8 && FromBE(k) in rs)
    && (forall k :: k in m ==> of(m[k]) == Some(rs[FromBE(k)]))
  }

  lemma IdKey(id: u64)
    ensures FromBE(BE(id, 8)) == id
    ensures forall k :: |k| == 8 && FromBE(k) == id ==> k == BE(id, 8)
  {
    Widths();
    BERoundTrip(id, 8);
    forall k | |k| == 8 && FromBE(k) == id ensures k == BE(id, 8) {
      BEInverse(k);
    }
  }

  lemma RecordsGet<R>(m: map<Key, Value>, rs: map<u64, R>, of: Value -> Option<R>, id: u64)
    requires Records(m, rs, of)
    ensures BE(id, 8) in m <==> id in rs
    ensures id in rs ==> of(m[BE(id, 8)]) == Some(rs[id])
  {
    hide BE, FromBE;
    IdKey(id);
  }

  lemma RecordsSet<R>(m: map<Key, Value>, rs: map<u64, R>, of: Value -> Option<R>, id: u64, data: Value, r: R)
    requires Records(m, rs, of) && of(data) == Some(r)
    ensures Records(m[BE(id, 8) := data], rs[id := r], of)
  {
    hide BE, FromBE;
    IdKey(id);
  }

  lemma RecordsDrop<R>(m: map<Key, Value>, rs: map<u64, R>, of: Value -> Option<R>, id: u64)
    requires Records(m, rs, of)
    ensures Records(m - {BE(id, 8)}, rs - {id}, of)
  {
    hide BE, FromBE;
    IdKey(id);
  }

  // ----- the adjacency index -----

  /** The adjacency key of edge `id` in one direction. */
  function KeyOf(e: EdgeRecord, id: u64, dir: Direction, hash: string -> u32): AdjKey
  {
    AdjKey(Near(e, dir), dir, hash(e.edgeType), Far(e, dir), id)
  }

  ghost predicate IsAdjEntry(k: Key, edges: map<u64, EdgeRecord>, hash: string -> u32)
  {
    && |k| == ADJ_KEY_LEN && k[8] <= 1 && DecodeAdj(k).edge in edges
    && DecodeAdj(k) == KeyOf(edges[DecodeAdj(k).edge], DecodeAdj(k).edge, DecodeAdj(k).dir, hash)
  }

  /** Exactly the Out entry and the In entry of every edge. */
  ghost predicate AdjacencyIn(m: map<Key, Value>, edges: map<u64, EdgeRecord>, hash: string -> u32)
  {
    forall k :: k in m <==> IsAdjEntry(k, edges, hash)
  }

  function AdjBytes(e: EdgeRecord, id: u64, dir: Direction, hash: string -> u32): Key
  {
    EncodeAdj(KeyOf(e, id, dir, hash))
  }

  /** An entry that names edge `id` is one of that edge's two. */
  lemma EntryOfEdge(k: Key, edges: map<u64, EdgeRecord>, hash: string -> u32, id: u64)
    requires id in edges
    ensures IsAdjEntry(k, edges, hash) && DecodeAdj(k).edge == id <==>
              k == AdjBytes(edges[id], id, Out, hash) || k == AdjBytes(edges[id], id, In, hash)
  {
    AdjRoundTrip(KeyOf(edges[id], id, Out, hash), k);
    AdjRoundTrip(KeyOf(edges[id], id, In, hash), k);
    AdjSlices(KeyOf(edges[id], id, Out, hash));
    AdjSlices(KeyOf(edges[id], id, In, hash));
    hide EncodeAdj, U64At, U32At, BE;
  }

  lemma EntryOther(k: Key, edges: map<u64, EdgeRecord>, edges': map<u64, EdgeRecord>, hash: string -> u32, id: u64)
    requires forall e :: e != id ==> (e in edges <==> e in edges') && (e in edges ==> edges[e] == edges'[e])
    requires |k| == ADJ_KEY_LEN ==> DecodeAdj(k).edge != id
    ensures IsAdjEntry(k, edges, hash) <==> IsAdjEntry(k, edges', hash)
  {
    hide DecodeAdj;
  }

  lemma AdjacencyAdd(m: map<Key, Value>, edges: map<u64, EdgeRecord>, id: u64, e: EdgeRecord, hash: string -> u32,
                     v: Value, w: Value)
    requires AdjacencyIn(m, edges, hash) && id !in edges
    ensures AdjacencyIn(m[AdjBytes(e, id, Out, hash) := v][AdjBytes(e, id, In, hash) := w], edges[id := e], hash)
  {
    hide DecodeAdj, AdjBytes;
    var m' := m[AdjBytes(e, id, Out, hash) := v][AdjBytes(e, id, In, hash) := w];
    forall k ensures k in m' <==> IsAdjEntry(k, edges[id := e], hash) {
      EntryOfEdge(k, edges[id := e], hash, id);
      if |k| == ADJ_KEY_LEN && DecodeAdj(k).edge != id {
        EntryOther(k, edges, edges[id := e], hash, id);
      }
    }
  }

  lemma AdjacencyDrop(m: map<Key, Value>, edges: map<u64, EdgeRecord>, id: u64, hash: string -> u32)
    requires AdjacencyIn(m, edges, hash) && id in edges
    ensures AdjacencyIn(m - {AdjBytes(edges[id], id, Out, hash)} - {AdjBytes(edges[id], id, In, hash)}, edges - {id},
        hash)
  {
    hide DecodeAdj, AdjBytes;
    var m' := m - {AdjBytes(edges[id], id, Out, hash)} - {AdjBytes(edges[id], id, In, hash)};
    forall k ensures k in m' <==> IsAdjEntry(k, edges - {id}, hash) {
      EntryOfEdge(k, edges, hash, id);
      if |k| == ADJ_KEY_LEN && DecodeAdj(k).edge != id {
        EntryOther(k, edges, edges - {id}, hash, id);
      }
    }
  }

  lemma OutIsNotIn(e: EdgeRecord, id: u64, hash: string -> u32)
    ensures AdjBytes(e, id, Out, hash) != AdjBytes(e, id, In, hash)
  {
    AdjSlices(KeyOf(e, id, Out, hash));
    AdjSlices(KeyOf(e, id, In, hash));
    hide EncodeAdj, BE;
  }

  /** Two entries for each edge, no more. */
  lemma {:induction false} AdjacencyCount(m: map<Key, Value>, edges: map<u64, EdgeRecord>, hash: string -> u32)
    requires AdjacencyIn(m, edges, hash)
    ensures |m| == 2 * |edges|
    decreases |edges|
  {
    if edges == map[] {
      assert m == map[] by {
        if k :| k in m {
          assert IsAdjEntry(k, edges, hash);
        }
      }
    } else {
      var id :| id in edges;
      var a, b := AdjBytes(edges[id], id, Out, hash), AdjBytes(edges[id], id, In, hash);
      hide AdjBytes, DecodeAdj;
      AdjacencyDrop(m, edges, id, hash);
      EntryOfEdge(a, edges, hash, id);
      EntryOfEdge(b, edges, hash, id);
      OutIsNotIn(edges[id], id, hash);
      assert a in m && b in m - {a};
      DropCount(m, a);
      DropCount(m - {a}, b);
      DropCount(edges, id);
      AdjacencyCount(m - {a} - {b}, edges - {id}, hash);
    }
  }

  lemma DropCount<K, V>(m: map<K, V>, k: K)
    requires k in m
    ensures |m - {k}| == |m| - 1
  {
    assert (m - {k}).Keys == m.Keys - {k};
    assert |(m - {k}).Keys| == |m - {k}| && |m.Keys| == |m|;
  }

  // ----- the label index -----

  ghost predicate IsLabelEntry(k: Key, nodes: map<u64, NodeRecord>, hash: string -> u32)
  {
    && |k| == LABEL_KEY_LEN && DecodeLabel(k).node in nodes
    && DecodeLabel(k).hash == hash(nodes[DecodeLabel(k).node].labelName)
  }

  /** Exactly one entry for every node. */
  ghost predicate LabelsIn(m: map<Key, Value>, nodes: map<u64, NodeRecord>, hash: string -> u32)
  {
    forall k :: k in m <==> IsLabelEntry(k, nodes, hash)
  }

  function LabelBytes(r: NodeRecord, id: u64, hash: string -> u32): Key
  {
    EncodeLabel(LabelKey(hash(r.labelName), id))
  }

  lemma EntryOfNode(k: Key, nodes: map<u64, NodeRecord>, hash: string -> u32, id: u64)
    requires id in nodes
    ensures IsLabelEntry(k, nodes, hash) && DecodeLabel(k).node == id <==> k == LabelBytes(nodes[id], id, hash)
  {
    LabelRoundTrip(LabelKey(hash(nodes[id].labelName), id), k);
    hide EncodeLabel, U64At, U32At;
  }

  lemma LabelsAdd(m: map<Key, Value>, nodes: map<u64, NodeRecord>, id: u64, r: NodeRecord, hash: string -> u32,
                  v: Value)
    requires LabelsIn(m, nodes, hash) && id !in nodes
    ensures LabelsIn(m[LabelBytes(r, id, hash) := v], nodes[id := r], hash)
  {
    hide DecodeLabel, LabelBytes;
    var m', nodes' := m[LabelBytes(r, id, hash) := v], nodes[id := r];
    forall k ensures k in m' <==> IsLabelEntry(k, nodes', hash) {
      EntryOfNode(k, nodes[id := r], hash, id);
    }
  }

  lemma LabelsDrop(m: map<Key, Value>, nodes: map<u64, NodeRecord>, id: u64, hash: string -> u32)
    requires LabelsIn(m, nodes, hash) && id in nodes
    ensures LabelsIn(m - {LabelBytes(nodes[id], id, hash)}, nodes - {id}, hash)
  {
    hide DecodeLabel, LabelBytes;
    var m', nodes' := m - {LabelBytes(nodes[id], id, hash)}, nodes - {id};
    forall k ensures k in m' <==> IsLabelEntry(k, nodes', hash) {
      EntryOfNode(k, nodes, hash, id);
    }
  }

  lemma LabelsSame(m: map<Key, Value>, nodes: map<u64, NodeRecord>, id: u64, r: NodeRecord, hash: string -> u32)
    requires LabelsIn(m, nodes, hash) && id in nodes && r.labelName == nodes[id].labelName
    ensures LabelsIn(m, nodes[id := r], hash)
  {
    hide DecodeLabel;
  }

  lemma {:induction false} LabelsCount(m: map<Key, Value>, nodes: map<u64, NodeRecord>, hash: string -> u32)
    requires LabelsIn(m, nodes, hash)
    ensures |m| == |nodes|
    decreases |nodes|
  {
    if nodes == map[] {
      assert m == map[] by {
        if k :| k in m {
          assert IsLabelEntry(k, nodes, hash);
        }
      }
    } else {
      var id :| id in nodes;
      LabelsDrop(m, nodes, id, hash);
      EntryOfNode(LabelBytes(nodes[id], id, hash), nodes, hash, id);
      DropCount(m, LabelBytes(nodes[id], id, hash));
      DropCount(nodes, id);
      LabelsCount(m - {LabelBytes(nodes[id], id, hash)}, nodes - {id}, hash);
    }
  }
}
