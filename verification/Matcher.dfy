/** Pattern expansion: one binding for each walk of the graph that matches a path pattern. */
module Matchers {
  import opened Bytes
  import opened Entries
  import opened Results
  import opened Seqs
  import opened GraphKeys
  import opened Graphs
  import opened GraphIndexes
  import opened GraphReads
  import opened CypherAst
  import opened Queries

  // ----- nodes against node patterns -----

  /** Equality involving floats is not part of this model. */
  datatype Floats = Floats(eq: (u64, u64) -> bool, eqInt: (int, u64) -> bool)

  function LiteralToValue(v: LiteralValue): PropValue
  {
    match v
    case IntValue(n) => Int(n)
    case FloatValue(bits) => Float(bits)
    case StringValue(s) => Str(s)
    case BoolValue(b) => Bool(b)
    case NullValue => Null
  }

  predicate ValuesEqual(a: PropValue, c: PropValue, fl: Floats)
  {
    match (a, c)
    case (Int(x), Int(y)) => x == y
    case (Float(x), Float(y)) => fl.eq(x, y)
    case (Int(x), Float(y)) => fl.eqInt(x, y)
    case (Float(x), Int(y)) => fl.eqInt(y, x)
    case (Str(x), Str(y)) => x == y
    case (Bool(x), Bool(y)) => x == y
    case (Null, Null) => true
    case _ => false
  }

  /** A pattern property is a literal that the node's property equals. */
  predicate PropMatches(key: string, e: Expr, props: Props, fl: Floats)
  {
    e.Literal? && key in props && ValuesEqual(props[key], LiteralToValue(e.value), fl)
  }

  /** When a property has the value of a literal: integers, strings and truth values when they are the same, null only
      when it is null, and numbers of different kinds when they compare equal as floats. */
  predicate HasLiteral(p: PropValue, l: LiteralValue, fl: Floats)
  {
    match l
    case IntValue(n) => p == Int(n) || (p.Float? && fl.eqInt(n, p.bits))
    case FloatValue(bits) => (p.Float? && fl.eq(p.bits, bits)) || (p.Int? && fl.eqInt(p.number, bits))
    case StringValue(s) => p == Str(s)
    case BoolValue(b) => p == Bool(b)
    case NullValue => p == Null
  }

  /** The label, if the pattern gives one, and every property it gives, by name and value. */
  ghost predicate Fits(np: NodePattern, labelName: string, props: Props, fl: Floats)
  {
    && (np.labelName.Some? ==> labelName == np.labelName.value)
    && (forall k :: k in np.properties ==>
          np.properties[k].Literal? && k in props && HasLiteral(props[k], np.properties[k].value, fl))
  }

  lemma PropExact(key: string, e: Expr, props: Props, fl: Floats)
    ensures PropMatches(key, e, props, fl) <==> e.Literal? && key in props && HasLiteral(props[key], e.value, fl)
  {
  }

  /** Goes through the pattern's properties in any order. */
  method NodeMatches(np: NodePattern, node: GraphReads.Node, fl: Floats) returns (b: bool)
    ensures b == Fits(np, node.labelName, node.properties, fl)
  {
    hide PropMatches, HasLiteral;
    forall k | k in np.properties
      ensures PropMatches(k, np.properties[k], node.properties, fl) <==>
                np.properties[k].Literal? && k in node.properties
                && HasLiteral(node.properties[k], np.properties[k].value, fl)
    {
      PropExact(k, np.properties[k], node.properties, fl);
    }
    if np.labelName.Some? && node.labelName != np.labelName.value {
      return false;
    }
    var keys := np.properties.Keys;
    while keys != {}
      invariant keys <= np.properties.Keys
      invariant forall k :: k in np.properties && k !in keys ==> PropMatches(k, np.properties[k], node.properties, fl)
    {
      var k :| k in keys;
      if !PropMatches(k, np.properties[k], node.properties, fl) {
        return false;
      }
      keys := keys - {k};
    }
    return true;
  }

  // ----- walks -----

  datatype Step = Step(dir: Direction, edge: u64, node: u64)

  /** A walk of the graph: a node, and steps along edges, each in one of the edge's two directions. */
  datatype Walk = Walk(start: u64, steps: seq<Step>)

  function At(w: Walk, i: nat): u64
    requires i <= |w.steps|
  {
    if i == 0 then w.start else w.steps[i - 1].node
  }

  function Directions(d: EdgeDirection): seq<Direction>
  {
    match d
    case Right => [Out]
    case Left => [In]
    case Both => [Out, In]
  }

  /** The first node is found by the hash of its label; the label itself is compared only when the pattern has
      properties. */
  ghost predicate FirstOk(g: Graph, n: u64, np: NodePattern, hash: string -> u32, fl: Floats)
  {
    && n in g.nodes && np.labelName.Some? && hash(g.nodes[n].labelName) == hash(np.labelName.value)
    && (np.properties != map[] ==> Fits(np, g.nodes[n].labelName, g.nodes[n].props, fl))
  }

  /** One step: an edge in an allowed direction, of the wanted type's hash, to a node that fits. */
  ghost predicate StepOk(g: Graph, from: u64, s: Step, ep: EdgePattern, np: NodePattern, hash: string -> u32,
                         fl: Floats)
  {
    && s.dir in Directions(ep.direction)
    && s.edge in g.edges && Selected(g.edges[s.edge], from, s.dir, TypeHash(ep, hash), hash)
        && s.node == Far(g.edges[s.edge], s.dir)
    && s.node in g.nodes && Fits(np, g.nodes[s.node].labelName, g.nodes[s.node].props, fl)
  }

  /** Going from one node to another along an edge: forwards for a pattern that points right, backwards for one that
      points left, either way for an undirected one. */
  predicate Leads(e: EdgeRecord, d: EdgeDirection, dir: Direction, from: u64, to: u64)
  {
    match d
    case Right => dir.Out? && e.src == from && e.dst == to
    case Left => dir.In? && e.dst == from && e.src == to
    case Both => if dir.Out? then e.src == from && e.dst == to else e.dst == from && e.src == to
  }

  /** What a step is, by the edge's two ends. */
  lemma StepLeads(g: Graph, from: u64, s: Step, ep: EdgePattern, np: NodePattern, hash: string -> u32, fl: Floats)
    ensures StepOk(g, from, s, ep, np, hash, fl) <==>
              && s.edge in g.edges && Leads(g.edges[s.edge], ep.direction, s.dir, from, s.node)
              && (ep.edgeType.Some? ==> hash(g.edges[s.edge].edgeType) == hash(ep.edgeType.value))
              && s.node in g.nodes && Fits(np, g.nodes[s.node].labelName, g.nodes[s.node].props, fl)
  {
    hide Fits;
  }

  function TypeHash(ep: EdgePattern, hash: string -> u32): Option<u32>
  {
    if ep.edgeType.Some? then Some(hash(ep.edgeType.value)) else None
  }

  /** The `m`-th node pattern of a path, from 0, and the `m`-th edge pattern. */
  function NodeOf(p: Pattern, m: nat): NodePattern
    requires PathShape(p) && 2 * m < |p|
  {
    p[2 * m].node
  }

  function EdgeOf(p: Pattern, m: nat): EdgePattern
    requires PathShape(p) && 2 * m + 1 < |p|
  {
    p[2 * m + 1].edge
  }

  /** The walk matches the first `m` steps of the pattern. */
  ghost predicate WalkOk(g: Graph, w: Walk, p: Pattern, m: nat, hash: string -> u32, fl: Floats)
    requires PathShape(p) && 2 * m < |p|
  {
    && |w.steps| == m && FirstOk(g, w.start, NodeOf(p, 0), hash, fl)
    && forall i :: 0 <= i < m ==> StepOk(g, At(w, i), w.steps[i], EdgeOf(p, i), NodeOf(p, i + 1), hash, fl)
  }

  /** Steps from one node in the order they are taken: forwards before backwards, then by type hash, far end and
      edge. */
  predicate StepBefore(a: Step, b: Step, edges: map<u64, EdgeRecord>, hash: string -> u32)
  {
    && a.edge in edges && b.edge in edges
    && ((a.dir.Out? && b.dir.In?) || (a.dir == b.dir && Before((a.edge, a.node), (b.edge, b.node), edges, hash)))
  }

  ghost predicate StepsInOrder(ss: seq<Step>, edges: map<u64, EdgeRecord>, hash: string -> u32)
  {
    forall i, j :: 0 <= i < j < |ss| ==> StepBefore(ss[i], ss[j], edges, hash)
  }

  /** The walks part at step `i`. */
  ghost predicate PartAt(v: Walk, w: Walk, i: nat, edges: map<u64, EdgeRecord>, hash: string -> u32)
  {
    && i < |v.steps| && i < |w.steps| && v.steps[..i] == w.steps[..i]
    && StepBefore(v.steps[i], w.steps[i], edges, hash)
  }

  /** Walks by their first node's id, then by the first step in which they differ. */
  ghost predicate WalkBefore(v: Walk, w: Walk, edges: map<u64, EdgeRecord>, hash: string -> u32)
  {
    v.start < w.start || (v.start == w.start && exists i :: PartAt(v, w, i, edges, hash))
  }

  ghost predicate WalksInOrder(ws: seq<Walk>, edges: map<u64, EdgeRecord>, hash: string -> u32)
  {
    forall i, j :: 0 <= i < j < |ws| ==> WalkBefore(ws[i], ws[j], edges, hash)
  }

  /** Every matching walk, once, and in order. */
  ghost predicate AllWalks(ws: seq<Walk>, g: Graph, p: Pattern, m: nat, hash: string -> u32, fl: Floats)
    requires PathShape(p) && 2 * m < |p|
  {
    && NoRepeats(ws) && WalksInOrder(ws, g.edges, hash)
    && (forall w :: w in ws <==> WalkOk(g, w, p, m, hash, fl))
  }

  // ----- bindings -----

  datatype Binding = BoundNode(node: u64) | BoundEdge(edge: u64)

  type Env = map<string, Binding>

  const LAST_NODE_KEY := "__last_node__"

  function Bind(env: Env, name: Option<string>, b: Binding): Env
  {
    if name.Some? then env[name.value := b] else env
  }

  function FirstEnv(np: NodePattern, n: u64): Env
  {
    Bind(map[], np.variable, BoundNode(n))[LAST_NODE_KEY := BoundNode(n)]
  }

  function Extend(env: Env, ep: EdgePattern, np: NodePattern, s: Step): Env
  {
    Bind(Bind(env, ep.variable, BoundEdge(s.edge)), np.variable, BoundNode(s.node))[LAST_NODE_KEY := BoundNode(s.node)]
  }

  /** The binding a walk gives, with the key that remembers its last node. */
  function EnvOf(p: Pattern, w: Walk, m: nat): Env
    requires PathShape(p) && 2 * m < |p| && m <= |w.steps|
  {
    if m == 0 then FirstEnv(NodeOf(p, 0), w.start)
    else Extend(EnvOf(p, w, m - 1), EdgeOf(p, m - 1), NodeOf(p, m), w.steps[m - 1])
  }

  ghost predicate EnvsOf(envs: seq<Env>, ws: seq<Walk>, p: Pattern, m: nat)
    requires PathShape(p) && 2 * m < |p|
  {
    |envs| == |ws| && forall i :: 0 <= i < |ws| ==> m <= |ws[i].steps| && envs[i] == EnvOf(p, ws[i], m)
  }

  lemma LastBound(p: Pattern, w: Walk, m: nat)
    requires PathShape(p) && 2 * m < |p| && m <= |w.steps|
    ensures LAST_NODE_KEY in EnvOf(p, w, m) && EnvOf(p, w, m)[LAST_NODE_KEY] == BoundNode(At(w, m))
  {
  }

  // ----- one step -----

  /** The neighbours that fit, as steps. */
  ghost function Picked(rs: seq<(u64, u64)>, n: nat, g: Graph, dir: Direction, np: NodePattern, fl: Floats): seq<Step>
    requires n <= |rs|
  {
    if n == 0 then []
    else
      var r := rs[n - 1];
      Picked(rs, n - 1, g, dir, np, fl)
      + if r.1 in g.nodes && Fits(np, g.nodes[r.1].labelName, g.nodes[r.1].props, fl) then [Step(dir, r.0, r.1)] else []
  }

  ghost predicate StepsExact(ss: seq<Step>, g: Graph, from: u64, dirs: seq<Direction>, ep: EdgePattern,
                             np: NodePattern, hash: string -> u32, fl: Floats)
  {
    && NoRepeats(ss) && StepsInOrder(ss, g.edges, hash)
    && (forall s :: s in ss <==> s.dir in dirs && StepOk(g, from, s, ep.(direction := Both), np, hash, fl))
  }

  lemma {:induction false} PickedMembers(rs: seq<(u64, u64)>, n: nat, g: Graph, dir: Direction, np: NodePattern,
                                         fl: Floats, s: Step)
    requires n <= |rs|
    ensures s in Picked(rs, n, g, dir, np, fl) <==>
              s.dir == dir && s.node in g.nodes && Fits(np, g.nodes[s.node].labelName, g.nodes[s.node].props, fl)
              && exists j :: 0 <= j < n && rs[j] == (s.edge, s.node)
  {
    hide Fits;
    if n > 0 {
      PickedMembers(rs, n - 1, g, dir, np, fl, s);
    }
  }

  lemma {:induction false} PickedDistinct(rs: seq<(u64, u64)>, n: nat, g: Graph, dir: Direction, np: NodePattern,
                                          fl: Floats)
    requires n <= |rs| && NoRepeats(rs)
    ensures NoRepeats(Picked(rs, n, g, dir, np, fl))
  {
    hide Fits;
    if n > 0 {
      PickedDistinct(rs, n - 1, g, dir, np, fl);
      var before, x := Picked(rs, n - 1, g, dir, np, fl), Step(dir, rs[n - 1].0, rs[n - 1].1);
      forall i | 0 <= i < |before| ensures before[i] != x {
        PickedMembers(rs, n - 1, g, dir, np, fl, before[i]);
        assert before[i] in before && rs[n - 1] == (x.edge, x.node);
      }
    }
  }

  lemma {:induction false} PickedInOrder(rs: seq<(u64, u64)>, n: nat, g: Graph, dir: Direction, np: NodePattern,
                                         fl: Floats, hash: string -> u32)
    requires n <= |rs| && forall i :: 0 <= i < |rs| ==> rs[i].0 in g.edges
    requires forall i, j :: 0 <= i < j < |rs| ==> Before(rs[i], rs[j], g.edges, hash)
    ensures StepsInOrder(Picked(rs, n, g, dir, np, fl), g.edges, hash)
  {
    hide Fits, Before;
    if n > 0 {
      PickedInOrder(rs, n - 1, g, dir, np, fl, hash);
      var before, x := Picked(rs, n - 1, g, dir, np, fl), Step(dir, rs[n - 1].0, rs[n - 1].1);
      forall i | 0 <= i < |before| ensures StepBefore(before[i], x, g.edges, hash) {
        PickedMembers(rs, n - 1, g, dir, np, fl, before[i]);
        assert before[i] in before;
        var j :| 0 <= j < n - 1 && rs[j] == (before[i].edge, before[i].node);
        assert Before(rs[j], rs[n - 1], g.edges, hash);
      }
    }
  }

  lemma PickedExact(rs: seq<(u64, u64)>, g: Graph, from: u64, dir: Direction, ep: EdgePattern, np: NodePattern,
                    hash: string -> u32, fl: Floats)
    requires NeighborList(rs, g.edges, from, dir, TypeHash(ep, hash), hash)
    ensures StepsExact(Picked(rs, |rs|, g, dir, np, fl), g, from, [dir], ep, np, hash, fl)
  {
    hide Fits, Picked, Before;
    var ss := Picked(rs, |rs|, g, dir, np, fl);
    NeighborsDistinct(rs, g.edges, from, dir, TypeHash(ep, hash), hash);
    PickedDistinct(rs, |rs|, g, dir, np, fl);
    PickedInOrder(rs, |rs|, g, dir, np, fl, hash);
    forall s ensures s in ss <==> s.dir in [dir] && StepOk(g, from, s, ep.(direction := Both), np, hash, fl) {
      PickedMembers(rs, |rs|, g, dir, np, fl, s);
      assert (s.edge, s.node) in rs <==> exists j :: 0 <= j < |rs| && rs[j] == (s.edge, s.node);
    }
  }

  lemma StepAlong(g: Graph, from: u64, s: Step, ep: EdgePattern, np: NodePattern, hash: string -> u32, fl: Floats)
    requires StepOk(g, from, s, ep, np, hash, fl)
    ensures s.edge in g.edges
  {
  }

  /** Forwards comes first where both directions are tried. */
  lemma ForwardsFirst(d: EdgeDirection, i: nat)
    requires i < |Directions(d)|
    ensures Directions(d)[..i] == [] || (Directions(d)[..i] == [Out] && Directions(d)[i] == In)
  {
  }

  /** Both directions: a step never counts for both, though a self-loop is stepped along in each. */
  lemma StepsJoined(a: seq<Step>, c: seq<Step>, g: Graph, from: u64, dirs: seq<Direction>, dir: Direction,
                    ep: EdgePattern, np: NodePattern,
                    hash: string -> u32, fl: Floats)
    requires StepsExact(a, g, from, dirs, ep, np, hash, fl) && StepsExact(c, g, from, [dir], ep, np, hash, fl)
        && (dirs == [] || (dirs == [Out] && dir == In))
    ensures StepsExact(a + c, g, from, dirs + [dir], ep, np, hash, fl)
  {
    hide StepOk, Before;
    forall i, j | 0 <= i < |a| && 0 <= j < |c| ensures a[i] != c[j] && StepBefore(a[i], c[j], g.edges, hash) {
      assert a[i] in a && c[j] in c;
      StepAlong(g, from, a[i], ep.(direction := Both), np, hash, fl);
      StepAlong(g, from, c[j], ep.(direction := Both), np, hash, fl);
    }
  }

  /** Follows the edges of one node in one direction. */
  method ExpandDirection(txn: GraphReadTxn, env: Env, from: u64, dir: Direction, ep: EdgePattern, np: NodePattern,
                         fl: Floats)
    returns (envs: seq<Env>, ghost ss: seq<Step>)
    requires txn.Valid()
    modifies txn.txn.db.pager`cache, txn.txn.db.pager`lruOrder
    ensures txn.Valid() && StepsExact(ss, txn.graph, from, [dir], ep, np, txn.codec.hash, fl)
    ensures |envs| == |ss| && forall i :: 0 <= i < |ss| ==> envs[i] == Extend(env, ep, np, ss[i])
  {
    hide GraphReadTxn.Valid, NeighborList, Fits, Extend, StepsExact;
    var neighbors := txn.Neighbors(from, dir, ep.edgeType);
    var rs := neighbors.value;
    PickedExact(rs, txn.graph, from, dir, ep, np, txn.codec.hash, fl);
    envs, ss := [], [];
    for i := 0 to |rs|
      invariant txn.Valid() && ss == Picked(rs, i, txn.graph, dir, np, fl)
      invariant |envs| == |ss| && forall j :: 0 <= j < |ss| ==> envs[j] == Extend(env, ep, np, ss[j])
    {
      var found := txn.GetNode(rs[i].1);
      if found.value.Some? {
        var fits := NodeMatches(np, found.value.value, fl);
        if fits {
          ghost var s := Step(dir, rs[i].0, rs[i].1);
          ExtendByHand(env, ep, np, s);
          var newEnv := env;
          if ep.variable.Some? {
            newEnv := newEnv[ep.variable.value := BoundEdge(rs[i].0)];
          }
          if np.variable.Some? {
            newEnv := newEnv[np.variable.value := BoundNode(rs[i].1)];
          }
          newEnv := newEnv[LAST_NODE_KEY := BoundNode(rs[i].1)];
          envs, ss := envs + [newEnv], ss + [s];
        }
      }
    }
  }

  lemma ExtendByHand(env: Env, ep: EdgePattern, np: NodePattern, s: Step)
    ensures var e1 := if ep.variable.Some? then env[ep.variable.value := BoundEdge(s.edge)] else env;
            var e2 := if np.variable.Some? then e1[np.variable.value := BoundNode(s.node)] else e1;
            Extend(env, ep, np, s) == e2[LAST_NODE_KEY := BoundNode(s.node)]
  {
  }

  /** Follows the edges of one node in every direction the pattern allows. */
  method ExpandEnv(txn: GraphReadTxn, env: Env, from: u64, ep: EdgePattern, np: NodePattern, fl: Floats)
    returns (envs: seq<Env>, ghost ss: seq<Step>)
    requires txn.Valid()
    modifies txn.txn.db.pager`cache, txn.txn.db.pager`lruOrder
    ensures txn.Valid() && StepsExact(ss, txn.graph, from, Directions(ep.direction), ep, np, txn.codec.hash, fl)
    ensures |envs| == |ss| && forall i :: 0 <= i < |ss| ==> envs[i] == Extend(env, ep, np, ss[i])
  {
    hide GraphReadTxn.Valid, StepOk, Extend;
    var directions := Directions(ep.direction);
    envs, ss := [], [];
    for i := 0 to |directions|
      invariant txn.Valid() && StepsExact(ss, txn.graph, from, directions[..i], ep, np, txn.codec.hash, fl)
      invariant |envs| == |ss| && forall j :: 0 <= j < |ss| ==> envs[j] == Extend(env, ep, np, ss[j])
    {
      hide StepsExact;
      var more;
      ghost var steps;
      more, steps := ExpandDirection(txn, env, from, directions[i], ep, np, fl);
      ForwardsFirst(ep.direction, i);
      StepsJoined(ss, steps, txn.graph, from, directions[..i], directions[i], ep, np, txn.codec.hash, fl);
      TakeOneMore(directions, i);
      envs, ss := envs + more, ss + steps;
    }
    assert directions[..|directions|] == directions;
  }

  // ----- all walks, one step longer -----

  function Grow(w: Walk, ss: seq<Step>): seq<Walk>
  {
    seq(|ss|, i requires 0 <= i < |ss| => Walk(w.start, w.steps + [ss[i]]))
  }

  function Front(w: Walk): Walk
    requires w.steps != []
  {
    Walk(w.start, w.steps[..|w.steps| - 1])
  }

  /** The walks so far: those whose front is among the first `n`, each with every last step it can take. */
  ghost predicate GrownTo(ws': seq<Walk>, ws: seq<Walk>, n: nat, g: Graph, m: nat, ep: EdgePattern, np: NodePattern,
                          hash: string -> u32, fl: Floats)
    requires n <= |ws|
  {
    && NoRepeats(ws') && WalksInOrder(ws', g.edges, hash)
    && (forall w :: w in ws' <==> GrownWalk(w, ws, n, g, m, ep, np, hash, fl))
  }

  ghost predicate GrownWalk(w: Walk, ws: seq<Walk>, n: nat, g: Graph, m: nat, ep: EdgePattern, np: NodePattern,
                            hash: string -> u32, fl: Floats)
    requires n <= |ws|
  {
    |w.steps| == m + 1 && Front(w) in ws[..n] && StepOk(g, At(w, m), w.steps[m], ep, np, hash, fl)
  }

  lemma GrowMembers(v: Walk, ss: seq<Step>, w: Walk)
    ensures w in Grow(v, ss) <==> w.steps != [] && Front(w) == v && w.steps[|w.steps| - 1] in ss
  {
    if w.steps != [] && Front(w) == v && w.steps[|w.steps| - 1] in ss {
      var i :| 0 <= i < |ss| && ss[i] == w.steps[|w.steps| - 1];
      assert w.steps == v.steps + [ss[i]];
      assert Grow(v, ss)[i] == w;
    }
    if w in Grow(v, ss) {
      var i :| 0 <= i < |ss| && Grow(v, ss)[i] == w;
      assert w.steps[..|w.steps| - 1] == v.steps;
    }
  }

  lemma GrownStep(ws': seq<Walk>, ws: seq<Walk>, n: nat, g: Graph, m: nat, ep: EdgePattern, np: NodePattern,
                  hash: string -> u32, fl: Floats, ss: seq<Step>)
    requires n < |ws| && GrownTo(ws', ws, n, g, m, ep, np, hash, fl) && |ws[n].steps| == m
    requires NoRepeats(ws) && WalksInOrder(ws, g.edges, hash)
    requires StepsExact(ss, g, At(ws[n], m), Directions(ep.direction), ep, np, hash, fl)
    ensures GrownTo(ws' + Grow(ws[n], ss), ws, n + 1, g, m, ep, np, hash, fl)
  {
    hide Grow, Selected, Fits, StepsInOrder, WalksInOrder;
    var more := Grow(ws[n], ss);
    GrownInOrder(ws', ws, n, g, m, ep, np, hash, fl, ss);
    TakeOneMore(ws, n);
    forall w ensures w in more <==>
        |w.steps| == m + 1 && Front(w) == ws[n] && StepOk(g, At(w, m), w.steps[m], ep, np, hash, fl) {
      GrowMembers(ws[n], ss, w);
      if |w.steps| == m + 1 && Front(w) == ws[n] {
        FrontAt(w, ws[n], m);
      }
    }
    GrowDistinct(ws[n], ss);
    forall i, j | 0 <= i < |ws'| && 0 <= j < |more| ensures ws'[i] != more[j] {
      assert ws'[i] in ws' && more[j] in more;
    }
    forall w ensures w in ws' + more <==> GrownWalk(w, ws, n + 1, g, m, ep, np, hash, fl) {
    }
  }

  /** Walks that part go on parting. */
  lemma StillBefore(v: Walk, w: Walk, edges: map<u64, EdgeRecord>, hash: string -> u32)
    requires v.steps != [] && w.steps != [] && WalkBefore(Front(v), Front(w), edges, hash)
    ensures WalkBefore(v, w, edges, hash)
  {
    hide StepBefore;
    if v.start == w.start {
      var i: nat :| PartAt(Front(v), Front(w), i, edges, hash);
      assert v.steps[..i] == Front(v).steps[..i] && w.steps[..i] == Front(w).steps[..i];
      assert PartAt(v, w, i, edges, hash);
    }
  }

  lemma GrowInOrder(v: Walk, ss: seq<Step>, edges: map<u64, EdgeRecord>, hash: string -> u32)
    requires StepsInOrder(ss, edges, hash)
    ensures WalksInOrder(Grow(v, ss), edges, hash)
  {
    hide StepBefore;
    var more, n := Grow(v, ss), |v.steps|;
    forall i, j | 0 <= i < j < |more| ensures WalkBefore(more[i], more[j], edges, hash) {
      assert more[i].steps[n] == ss[i] && more[j].steps[n] == ss[j];
      assert more[i].steps[..n] == v.steps && more[j].steps[..n] == v.steps;
      assert PartAt(more[i], more[j], n, edges, hash);
    }
  }

  lemma GrownInOrder(ws': seq<Walk>, ws: seq<Walk>, n: nat, g: Graph, m: nat, ep: EdgePattern, np: NodePattern,
                     hash: string -> u32, fl: Floats, ss: seq<Step>)
    requires n < |ws| && WalksInOrder(ws, g.edges, hash) && StepsInOrder(ss, g.edges, hash)
    requires WalksInOrder(ws', g.edges, hash)
    requires forall w :: w in ws' <==> GrownWalk(w, ws, n, g, m, ep, np, hash, fl)
    ensures WalksInOrder(ws' + Grow(ws[n], ss), g.edges, hash)
  {
    hide StepOk, WalkBefore, Grow;
    var more := Grow(ws[n], ss);
    GrowInOrder(ws[n], ss, g.edges, hash);
    forall i, j | 0 <= i < |ws'| && 0 <= j < |more| ensures WalkBefore(ws'[i], more[j], g.edges, hash) {
      assert ws'[i] in ws' && more[j] in more;
      GrowMembers(ws[n], ss, more[j]);
      var k :| 0 <= k < n && ws[k] == Front(ws'[i]);
      StillBefore(ws'[i], more[j], g.edges, hash);
    }
  }

  lemma FrontAt(w: Walk, v: Walk, m: nat)
    requires |w.steps| == m + 1 && Front(w) == v
    ensures At(w, m) == At(v, m)
  {
  }

  lemma GrowDistinct(v: Walk, ss: seq<Step>)
    requires NoRepeats(ss)
    ensures |Grow(v, ss)| == |ss| && NoRepeats(Grow(v, ss))
  {
    var more := Grow(v, ss);
    forall i, j | 0 <= i < j < |more| ensures more[i] != more[j] {
      assert more[i].steps[|v.steps|] == ss[i] && more[j].steps[|v.steps|] == ss[j];
    }
  }

  lemma GrownAll(ws': seq<Walk>, ws: seq<Walk>, g: Graph, p: Pattern, m: nat, hash: string -> u32, fl: Floats)
    requires PathShape(p) && 2 * (m + 1) < |p| && AllWalks(ws, g, p, m, hash, fl)
    requires GrownTo(ws', ws, |ws|, g, m, EdgeOf(p, m), NodeOf(p, m + 1), hash, fl)
    ensures AllWalks(ws', g, p, m + 1, hash, fl)
  {
    hide StepOk, FirstOk;
    assert ws[..|ws|] == ws;
    forall w ensures w in ws' <==> WalkOk(g, w, p, m + 1, hash, fl) {
      assert w in ws' <==> GrownWalk(w, ws, |ws|, g, m, EdgeOf(p, m), NodeOf(p, m + 1), hash, fl);
      if |w.steps| == m + 1 {
        FrontOk(g, w, p, m, hash, fl);
      }
    }
  }

  lemma FrontOk(g: Graph, w: Walk, p: Pattern, m: nat, hash: string -> u32, fl: Floats)
    requires PathShape(p) && 2 * (m + 1) < |p| && |w.steps| == m + 1
    ensures WalkOk(g, w, p, m + 1, hash, fl) <==>
              WalkOk(g, Front(w), p, m, hash, fl)
                  && StepOk(g, At(w, m), w.steps[m], EdgeOf(p, m), NodeOf(p, m + 1), hash, fl)
  {
    hide StepOk, FirstOk, PathShape;
    var f := Front(w);
    forall i | 0 <= i <= m ensures At(f, i) == At(w, i) {
    }
    assert forall i :: 0 <= i < m ==> f.steps[i] == w.steps[i];
    hide At, Front;
  }

  // ----- the whole pattern -----

  method LastNodeId(env: Env) returns (r: Result<u64>)
    ensures r == if LAST_NODE_KEY in env && env[LAST_NODE_KEY].BoundNode? then Ok(env[LAST_NODE_KEY].node)
        else Err(ExecutionError)
  {
    if LAST_NODE_KEY in env && env[LAST_NODE_KEY].BoundNode? {
      return Ok(env[LAST_NODE_KEY].node);
    }
    return Err(ExecutionError);
  }

  /** The bindings correspond to all walks of length 0; without a label there is nothing to start from. */
  ghost predicate Started(r: Result<seq<Env>>, ws: seq<Walk>, g: Graph, p: Pattern, hash: string -> u32, fl: Floats)
    requires PathShape(p)
  {
    if NodeOf(p, 0).labelName.None? then r == Err(ExecutionError)
    else r.Ok? && AllWalks(ws, g, p, 0, hash, fl) && EnvsOf(r.value, ws, p, 0)
  }

  /** The bindings correspond, one to one, to the walks that match the whole pattern. */
  ghost predicate Expanded(r: Result<seq<Env>>, ws: seq<Walk>, g: Graph, p: Pattern, hash: string -> u32, fl: Floats)
    requires PathShape(p)
  {
    if NodeOf(p, 0).labelName.None? then r == Err(ExecutionError)
    else
      && r.Ok? && AllWalks(ws, g, p, |p| / 2, hash, fl) && |r.value| == |ws|
      && forall i :: 0 <= i < |ws| ==>
          |ws[i].steps| == |p| / 2 && r.value[i] == EnvOf(p, ws[i], |p| / 2) - {LAST_NODE_KEY}
  }

  /** The nodes the first pattern selects, each with a binding of its own. */
  method ExpandFirst(txn: GraphReadTxn, p: Pattern, fl: Floats) returns (r: Result<seq<Env>>, ghost ws: seq<Walk>)
    requires txn.Valid() && PathShape(p)
    modifies txn.txn.db.pager`cache, txn.txn.db.pager`lruOrder
    ensures txn.Valid() && Started(r, ws, txn.graph, p, txn.codec.hash, fl)
  {
    hide GraphReadTxn.Valid, Fits, LabelList, PathShape, FirstOk, AllWalks, EnvsOf, Starts, FirstEnv, NodeOf;
    PathStarts(p);
    var np := NodeOf(p, 0);
    if np.labelName.None? {
      return Err(ExecutionError), [];
    }
    var candidates := txn.NodesByLabel(np.labelName.value);
    var ids := candidates.value;
    var hasPropFilter := np.properties != map[];
    var result: seq<Env> := [];
    ghost var kept: seq<u64> := [];
    for i := 0 to |ids|
      invariant txn.Valid() && kept == Kept(ids, i, txn.graph, np, fl)
      invariant |result| == |kept| && forall j :: 0 <= j < |kept| ==> result[j] == FirstEnv(np, kept[j])
    {
      var fits := true;
      if hasPropFilter {
        var found := txn.GetNode(ids[i]);
        if found.value.Some? {
          fits := NodeMatches(np, found.value.value, fl);
        } else {
          fits := false;
        }
      }
      if fits {
        FirstByHand(np, ids[i]);
        var env: Env := map[];
        if np.variable.Some? {
          env := env[np.variable.value := BoundNode(ids[i])];
        }
        env := env[LAST_NODE_KEY := BoundNode(ids[i])];
        result, kept := result + [env], kept + [ids[i]];
      }
    }
    KeptExact(ids, txn.graph, np, txn.codec.hash, fl);
    ws := Starts(kept);
    StartsExact(kept, txn.graph, p, txn.codec.hash, fl);
    StartEnvs(result, kept, p);
    return Ok(result), ws;
  }

  lemma PathStarts(p: Pattern)
    requires PathShape(p)
    ensures |p| > 0
  {
  }

  lemma FirstByHand(np: NodePattern, n: u64)
    ensures var e1: Env := if np.variable.Some? then map[np.variable.value := BoundNode(n)] else map[];
            FirstEnv(np, n) == e1[LAST_NODE_KEY := BoundNode(n)]
  {
  }

  /** The candidates that pass the property filter, if there is one. */
  ghost function Kept(ids: seq<u64>, n: nat, g: Graph, np: NodePattern, fl: Floats): seq<u64>
    requires n <= |ids|
  {
    if n == 0 then []
    else
      var id := ids[n - 1];
      Kept(ids, n - 1, g, np, fl)
      + if np.properties != map[] ==> id in g.nodes && Fits(np, g.nodes[id].labelName, g.nodes[id].props, fl) then [id]
          else []
  }

  lemma {:induction false} KeptMembers(ids: seq<u64>, n: nat, g: Graph, np: NodePattern, fl: Floats, id: u64)
    requires n <= |ids|
    ensures id in Kept(ids, n, g, np, fl) <==>
              id in ids[..n] && (np.properties != map[] ==>
                  id in g.nodes && Fits(np, g.nodes[id].labelName, g.nodes[id].props, fl))
  {
    hide Fits;
    if n > 0 {
      KeptMembers(ids, n - 1, g, np, fl, id);
      TakeOneMore(ids, n - 1);
    }
  }

  lemma {:induction false} KeptDistinct(ids: seq<u64>, n: nat, g: Graph, np: NodePattern, fl: Floats)
    requires n <= |ids| && NoRepeats(ids)
    ensures NoRepeats(Kept(ids, n, g, np, fl))
  {
    hide Fits;
    if n > 0 {
      KeptDistinct(ids, n - 1, g, np, fl);
      var before := Kept(ids, n - 1, g, np, fl);
      forall i | 0 <= i < |before| ensures before[i] != ids[n - 1] {
        KeptMembers(ids, n - 1, g, np, fl, before[i]);
        assert before[i] in before;
      }
    }
  }

  ghost predicate Ascending(ids: seq<u64>)
  {
    forall i, j :: 0 <= i < j < |ids| ==> ids[i] < ids[j]
  }

  lemma {:induction false} KeptAscending(ids: seq<u64>, n: nat, g: Graph, np: NodePattern, fl: Floats)
    requires n <= |ids| && Ascending(ids)
    ensures Ascending(Kept(ids, n, g, np, fl))
  {
    hide Fits;
    if n > 0 {
      KeptAscending(ids, n - 1, g, np, fl);
      var before := Kept(ids, n - 1, g, np, fl);
      forall i | 0 <= i < |before| ensures before[i] < ids[n - 1] {
        KeptMembers(ids, n - 1, g, np, fl, before[i]);
        assert before[i] in before;
      }
    }
  }

  lemma KeptExact(ids: seq<u64>, g: Graph, np: NodePattern, hash: string -> u32, fl: Floats)
    requires np.labelName.Some? && LabelList(ids, g.nodes, hash(np.labelName.value), hash)
    ensures NoRepeats(Kept(ids, |ids|, g, np, fl)) && Ascending(Kept(ids, |ids|, g, np, fl))
    ensures forall n: u64 :: n in Kept(ids, |ids|, g, np, fl) <==> FirstOk(g, n, np, hash, fl)
  {
    hide Fits, Kept;
    KeptDistinct(ids, |ids|, g, np, fl);
    KeptAscending(ids, |ids|, g, np, fl);
    assert ids[..|ids|] == ids;
    forall n: u64 ensures n in Kept(ids, |ids|, g, np, fl) <==> FirstOk(g, n, np, hash, fl) {
      KeptMembers(ids, |ids|, g, np, fl, n);
    }
  }

  function Starts(ids: seq<u64>): seq<Walk>
  {
    seq(|ids|, i requires 0 <= i < |ids| => Walk(ids[i], []))
  }

  lemma StartsExact(ids: seq<u64>, g: Graph, p: Pattern, hash: string -> u32, fl: Floats)
    requires PathShape(p) && NoRepeats(ids) && Ascending(ids)
    requires forall n: u64 :: n in ids <==> FirstOk(g, n, NodeOf(p, 0), hash, fl)
    ensures AllWalks(Starts(ids), g, p, 0, hash, fl)
  {
    hide FirstOk;
    var ws := Starts(ids);
    forall w ensures w in ws <==> WalkOk(g, w, p, 0, hash, fl) {
      if WalkOk(g, w, p, 0, hash, fl) {
        var i :| 0 <= i < |ids| && ids[i] == w.start;
        assert ws[i] == w;
      }
      if w in ws {
        var i :| 0 <= i < |ws| && ws[i] == w;
        assert ids[i] in ids;
      }
    }
  }

  lemma StartEnvs(envs: seq<Env>, ids: seq<u64>, p: Pattern)
    requires PathShape(p) && |envs| == |ids| && forall i :: 0 <= i < |ids| ==> envs[i] == FirstEnv(NodeOf(p, 0), ids[i])
    ensures EnvsOf(envs, Starts(ids), p, 0)
  {
  }

  /** Follows one edge pattern from every binding so far. */
  method ExpandEdge(txn: GraphReadTxn, p: Pattern, m: nat, envs: seq<Env>, fl: Floats, ghost ws: seq<Walk>)
    returns (r: seq<Env>, ghost ws': seq<Walk>)
    requires txn.Valid() && PathShape(p) && 2 * (m + 1) < |p|
    requires AllWalks(ws, txn.graph, p, m, txn.codec.hash, fl) && EnvsOf(envs, ws, p, m)
    modifies txn.txn.db.pager`cache, txn.txn.db.pager`lruOrder
    ensures txn.Valid() && AllWalks(ws', txn.graph, p, m + 1, txn.codec.hash, fl) && EnvsOf(r, ws', p, m + 1)
  {
    hide GraphReadTxn.Valid, PathShape, EnvsOf, AllWalks, StepsExact, GrownTo, Extend, Grow, At, EdgeOf, NodeOf,
        NoRepeats, WalksInOrder;
    var ep, np := EdgeOf(p, m), NodeOf(p, m + 1);
    WalksLong(ws, txn.graph, p, m, txn.codec.hash, fl);
    EnvsLength(envs, ws, p, m);
    r, ws' := [], [];
    NothingGrown(ws, txn.graph, m, ep, np, txn.codec.hash, fl);
    NoEnvs(p, m + 1);
    for i := 0 to |envs|
      invariant txn.Valid() && GrownTo(ws', ws, i, txn.graph, m, ep, np, txn.codec.hash, fl) && EnvsOf(r, ws', p, m + 1)
    {
      LastBoundAt(envs, ws, p, m, i);
      var srcId := LastNodeId(envs[i]);
      var more;
      ghost var ss;
      more, ss := ExpandEnv(txn, envs[i], srcId.value, ep, np, fl);
      GrownStep(ws', ws, i, txn.graph, m, ep, np, txn.codec.hash, fl, ss);
      EnvsGrow(envs, ws, p, m, i, r, ws', more, ss);
      r, ws' := r + more, ws' + Grow(ws[i], ss);
    }
    GrownAll(ws', ws, txn.graph, p, m, txn.codec.hash, fl);
  }

  lemma WalksLong(ws: seq<Walk>, g: Graph, p: Pattern, m: nat, hash: string -> u32, fl: Floats)
    requires PathShape(p) && 2 * m < |p| && AllWalks(ws, g, p, m, hash, fl)
    ensures NoRepeats(ws) && WalksInOrder(ws, g.edges, hash) && forall i :: 0 <= i < |ws| ==> |ws[i].steps| == m
  {
    hide StepOk, FirstOk;
    forall i | 0 <= i < |ws| ensures |ws[i].steps| == m {
      assert ws[i] in ws;
    }
  }

  lemma NothingGrown(ws: seq<Walk>, g: Graph, m: nat, ep: EdgePattern, np: NodePattern, hash: string -> u32, fl: Floats)
    ensures GrownTo([], ws, 0, g, m, ep, np, hash, fl)
  {
  }

  lemma EnvsLength(envs: seq<Env>, ws: seq<Walk>, p: Pattern, m: nat)
    requires PathShape(p) && 2 * m < |p| && EnvsOf(envs, ws, p, m)
    ensures |envs| == |ws|
  {
  }

  lemma NoEnvs(p: Pattern, m: nat)
    requires PathShape(p) && 2 * m < |p|
    ensures EnvsOf([], [], p, m)
  {
  }

  lemma LastBoundAt(envs: seq<Env>, ws: seq<Walk>, p: Pattern, m: nat, i: nat)
    requires PathShape(p) && 2 * m < |p| && EnvsOf(envs, ws, p, m) && i < |envs|
    ensures |envs| == |ws| && m <= |ws[i].steps| && LAST_NODE_KEY in envs[i]
        && envs[i][LAST_NODE_KEY] == BoundNode(At(ws[i], m))
  {
    LastBound(p, ws[i], m);
  }

  lemma {:induction false} EnvOfFront(p: Pattern, w: Walk, s: Step, m: nat)
    requires PathShape(p) && 2 * m < |p| && m <= |w.steps|
    ensures EnvOf(p, Walk(w.start, w.steps + [s]), m) == EnvOf(p, w, m)
    decreases m
  {
    if m > 0 {
      EnvOfFront(p, w, s, m - 1);
    }
  }

  lemma EnvsGrow(envs: seq<Env>, ws: seq<Walk>, p: Pattern, m: nat, i: nat, r: seq<Env>, ws': seq<Walk>,
                 more: seq<Env>, ss: seq<Step>)
    requires PathShape(p) && 2 * (m + 1) < |p| && EnvsOf(envs, ws, p, m) && i < |envs| && EnvsOf(r, ws', p, m + 1)
    requires i < |ws| && |ws[i].steps| == m && |more| == |ss|
    requires forall j :: 0 <= j < |ss| ==> more[j] == Extend(envs[i], EdgeOf(p, m), NodeOf(p, m + 1), ss[j])
    ensures EnvsOf(r + more, ws' + Grow(ws[i], ss), p, m + 1)
  {
    hide Extend, PathShape;
    forall j | 0 <= j < |ss| ensures more[j] == EnvOf(p, Grow(ws[i], ss)[j], m + 1) {
      EnvOfFront(p, ws[i], ss[j], m);
    }
  }

  /** One binding for each walk that matches the pattern, none missing and none repeated. */
  method ExpandPattern(txn: GraphReadTxn, p: Pattern, fl: Floats) returns (r: Result<seq<Env>>, ghost ws: seq<Walk>)
    requires txn.Valid() && PathShape(p)
    modifies txn.txn.db.pager`cache, txn.txn.db.pager`lruOrder
    ensures txn.Valid() && Expanded(r, ws, txn.graph, p, txn.codec.hash, fl)
  {
    hide GraphReadTxn.Valid, AllWalks, EnvsOf;
    var first;
    first, ws := ExpandFirst(txn, p, fl);
    if first.Err? {
      return first, ws;
    }
    var envs := first.value;
    var i := 1;
    while i < |p|
      invariant 1 <= i <= |p| && i % 2 == 1 && txn.Valid()
      invariant AllWalks(ws, txn.graph, p, i / 2, txn.codec.hash, fl) && EnvsOf(envs, ws, p, i / 2)
    {
      envs, ws := ExpandEdge(txn, p, i / 2, envs, fl, ws);
      i := i + 2;
    }
    WalksLong(ws, txn.graph, p, |p| / 2, txn.codec.hash, fl);
    var cleaned := Cleaned(envs);
    CleanedEnvs(envs, ws, p, cleaned);
    return Ok(cleaned), ws;
  }

  method Cleaned(envs: seq<Env>) returns (r: seq<Env>)
    ensures |r| == |envs| && forall i :: 0 <= i < |envs| ==> r[i] == envs[i] - {LAST_NODE_KEY}
  {
    r := [];
    for i := 0 to |envs|
      invariant |r| == i && forall j :: 0 <= j < i ==> r[j] == envs[j] - {LAST_NODE_KEY}
    {
      r := r + [envs[i] - {LAST_NODE_KEY}];
    }
  }

  lemma CleanedEnvs(envs: seq<Env>, ws: seq<Walk>, p: Pattern, r: seq<Env>)
    requires PathShape(p) && EnvsOf(envs, ws, p, |p| / 2)
    requires |r| == |envs| && forall i :: 0 <= i < |envs| ==> r[i] == envs[i] - {LAST_NODE_KEY}
    ensures |r| == |ws| && forall i :: 0 <= i < |ws| ==>
        |p| / 2 <= |ws[i].steps| && r[i] == EnvOf(p, ws[i], |p| / 2) - {LAST_NODE_KEY}
  {
  }
}
