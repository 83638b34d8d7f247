/** Walks by names instead of hashes: when matching by hash is matching by name, and what expansion then gives. */
module NamedWalks {
  import opened Bytes
  import opened Entries
  import opened Results
  import opened Seqs
  import opened GraphKeys
  import opened Graphs
  import opened CypherAst
  import opened Queries
  import opened Matchers
  import opened Bindings
  import opened NameHashes

  // ----- matching by name -----

  /** The node has the pattern's label and properties. */
  ghost predicate FirstNamed(g: Graph, n: u64, np: NodePattern, fl: Floats)
  {
    n in g.nodes && Fits(np, g.nodes[n].labelName, g.nodes[n].props, fl)
  }

  /** An edge of the pattern's type that leads, in the pattern's direction, from here to a node with the pattern's label
      and properties. */
  ghost predicate StepNamed(g: Graph, from: u64, s: Step, ep: EdgePattern, np: NodePattern, fl: Floats)
  {
    && s.edge in g.edges && Leads(g.edges[s.edge], ep.direction, s.dir, from, s.node)
    && (ep.edgeType.Some? ==> g.edges[s.edge].edgeType == ep.edgeType.value)
    && s.node in g.nodes && Fits(np, g.nodes[s.node].labelName, g.nodes[s.node].props, fl)
  }

  /** The walk matches the first `m` steps of the pattern by labels, types, directions and properties. */
  ghost predicate NamedWalk(g: Graph, w: Walk, p: Pattern, m: nat, fl: Floats)
    requires PathShape(p) && 2 * m < |p|
  {
    && |w.steps| == m && FirstNamed(g, w.start, NodeOf(p, 0), fl)
    && forall i :: 0 <= i < m ==> StepNamed(g, At(w, i), w.steps[i], EdgeOf(p, i), NodeOf(p, i + 1), fl)
  }

  // ----- when hashes do as names -----

  /** No other name in use shares the hash. */
  ghost predicate Apart(hash: string -> u32, name: string, used: set<string>)
  {
    forall u :: u in used && hash(u) == hash(name) ==> u == name
  }

  ghost function LabelsUsed(g: Graph): set<string>
  {
    set n | n in g.nodes :: g.nodes[n].labelName
  }

  ghost function TypesUsed(g: Graph): set<string>
  {
    set e | e in g.edges :: g.edges[e].edgeType
  }

  /** The label is compared again when there are properties to compare; otherwise no other label may share its hash. */
  ghost predicate LabelApart(g: Graph, np: NodePattern, hash: string -> u32)
    requires np.labelName.Some?
  {
    np.properties != map[] || Apart(hash, np.labelName.value, LabelsUsed(g))
  }

  /** The first node is found by name exactly when there are properties or no other label in use shares the hash. */
  lemma FirstExact(g: Graph, np: NodePattern, hash: string -> u32, fl: Floats)
    requires np.labelName.Some?
    ensures (forall n: u64 :: FirstOk(g, n, np, hash, fl) <==> FirstNamed(g, n, np, fl)) <==> LabelApart(g, np, hash)
  {
    hide PropMatches;
    if LabelApart(g, np, hash) {
      forall n: u64 ensures FirstOk(g, n, np, hash, fl) <==> FirstNamed(g, n, np, fl) {
        assert n in g.nodes ==> g.nodes[n].labelName in LabelsUsed(g);
      }
    } else {
      var u :| u in LabelsUsed(g) && hash(u) == hash(np.labelName.value) && u != np.labelName.value;
      var n :| n in g.nodes && g.nodes[n].labelName == u;
      assert FirstOk(g, n, np, hash, fl) && !FirstNamed(g, n, np, fl);
    }
  }

  /** This edge would be stepped along in this direction, but for the name of its type. */
  ghost predicate Steppable(g: Graph, e: u64, dir: Direction, ep: EdgePattern, np: NodePattern, fl: Floats)
    requires e in g.edges
  {
    var r := g.edges[e];
    var from, far := if dir.Out? then r.src else r.dst, if dir.Out? then r.dst else r.src;
    && Leads(r, ep.direction, dir, from, far)
    && far in g.nodes && Fits(np, g.nodes[far].labelName, g.nodes[far].props, fl)
  }

  /** No edge that could otherwise be stepped along has another type of the same hash. */
  ghost predicate TypeApart(g: Graph, ep: EdgePattern, np: NodePattern, hash: string -> u32, fl: Floats)
  {
    forall e, dir :: e in g.edges && ep.edgeType.Some? && Steppable(g, e, dir, ep, np, fl) ==>
      hash(g.edges[e].edgeType) == hash(ep.edgeType.value) ==> g.edges[e].edgeType == ep.edgeType.value
  }

  /** Steps are taken by name exactly when no edge to a matching node has another type of the same hash. */
  lemma StepExact(g: Graph, ep: EdgePattern, np: NodePattern, hash: string -> u32, fl: Floats)
    ensures (forall from, s :: StepOk(g, from, s, ep, np, hash, fl) <==> StepNamed(g, from, s, ep, np, fl))
       <==> TypeApart(g, ep, np, hash, fl)
  {
    hide Fits;
    if TypeApart(g, ep, np, hash, fl) {
      forall from, s: Step ensures StepOk(g, from, s, ep, np, hash, fl) <==> StepNamed(g, from, s, ep, np, fl) {
        if StepOk(g, from, s, ep, np, hash, fl) {
          assert Steppable(g, s.edge, s.dir, ep, np, fl);
        }
      }
    } else {
      var e, dir :| e in g.edges && ep.edgeType.Some? && Steppable(g, e, dir, ep, np, fl)
                    && hash(g.edges[e].edgeType) == hash(ep.edgeType.value) && g.edges[e].edgeType != ep.edgeType.value;
      var s := Step(dir, e, Far(g.edges[e], dir));
      assert StepOk(g, Near(g.edges[e], dir), s, ep, np, hash, fl)
          && !StepNamed(g, Near(g.edges[e], dir), s, ep, np, fl);
    }
  }

  /** In particular when no type in use shares the hash. */
  lemma ApartSuffices(g: Graph, ep: EdgePattern, np: NodePattern, hash: string -> u32, fl: Floats)
    requires ep.edgeType.Some? ==> Apart(hash, ep.edgeType.value, TypesUsed(g))
    ensures TypeApart(g, ep, np, hash, fl)
  {
    hide Steppable;
    forall e | e in g.edges ensures g.edges[e].edgeType in TypesUsed(g) {
    }
  }

  // ----- whole walks -----

  /** No collision meets the pattern's first label or the types of its first `m` edges. */
  ghost predicate PatternApart(g: Graph, p: Pattern, m: nat, hash: string -> u32, fl: Floats)
    requires PathShape(p) && 2 * m < |p|
  {
    && NodeOf(p, 0).labelName.Some? && LabelApart(g, NodeOf(p, 0), hash)
    && forall i :: 0 <= i < m ==> TypeApart(g, EdgeOf(p, i), NodeOf(p, i + 1), hash, fl)
  }

  /** Without such collisions a walk matches by hash exactly when it matches by name. */
  lemma WalkExact(g: Graph, w: Walk, p: Pattern, m: nat, hash: string -> u32, fl: Floats)
    requires PathShape(p) && 2 * m < |p| && PatternApart(g, p, m, hash, fl)
    ensures WalkOk(g, w, p, m, hash, fl) <==> NamedWalk(g, w, p, m, fl)
  {
    hide PathShape, FirstOk, FirstNamed, StepOk, StepNamed, LabelApart, TypeApart;
    FirstExact(g, NodeOf(p, 0), hash, fl);
    forall i | 0 <= i < m && |w.steps| == m
      ensures StepOk(g, At(w, i), w.steps[i], EdgeOf(p, i), NodeOf(p, i + 1), hash, fl)
         <==> StepNamed(g, At(w, i), w.steps[i], EdgeOf(p, i), NodeOf(p, i + 1), fl)
    {
      StepExact(g, EdgeOf(p, i), NodeOf(p, i + 1), hash, fl);
    }
  }

  /** The binding names exactly what the walk has at the pattern's places. */
  ghost predicate RecordsWalk(env: Env, p: Pattern, w: Walk)
    requires |p| / 2 <= |w.steps|
  {
    && (forall i :: 0 <= i < |p| && NameAt(p, i).Some? ==>
        NameAt(p, i).value in env && env[NameAt(p, i).value] == BoundAt(w, i))
    && (forall k :: k in env ==> exists i :: 0 <= i < |p| && NameAt(p, i) == Some(k))
  }

  /** What expanding a pattern promises: one binding for each walk that matches by name, and each binding faithful. */
  ghost predicate ListsWalks(envs: seq<Env>, ws: seq<Walk>, g: Graph, p: Pattern, fl: Floats)
    requires PathShape(p)
  {
    && NoRepeats(ws) && |envs| == |ws|
    && (forall w :: w in ws <==> NamedWalk(g, w, p, |p| / 2, fl))
    && (forall i :: 0 <= i < |ws| ==> |ws[i].steps| == |p| / 2 && RecordsWalk(envs[i], p, ws[i]))
  }

  lemma KeysAreNames(p: Pattern, w: Walk, k: string)
    requires PathShape(p) && |p| / 2 <= |w.steps| && k in EnvOf(p, w, |p| / 2) && k != LAST_NODE_KEY
    ensures exists i :: 0 <= i < |p| && NameAt(p, i) == Some(k)
  {
    hide EnvOf, NameAt;
    NameBound(p, w, |p| / 2, k);
    var i: nat :| LastNamed(p, k, i, 2 * (|p| / 2));
  }

  lemma FaithfulRecords(p: Pattern, w: Walk)
    requires PathShape(p) && |p| / 2 <= |w.steps| && DistinctNames(p, |p| - 1)
    ensures RecordsWalk(EnvOf(p, w, |p| / 2) - {LAST_NODE_KEY}, p, w)
  {
    hide EnvOf, NameAt, BoundAt, DistinctNames;
    assert 2 * (|p| / 2) == |p| - 1;
    FaithfulAlways(p, |p| / 2);
    assert Faithful(p, w, |p| / 2);
    forall k | k in EnvOf(p, w, |p| / 2) - {LAST_NODE_KEY} ensures exists i :: 0 <= i < |p| && NameAt(p, i) == Some(k) {
      KeysAreNames(p, w, k);
    }
  }

  /** The matcher on a path with a labelled first node, distinct names and no collisions. */
  lemma ExpandedByName(r: Result<seq<Env>>, ws: seq<Walk>, g: Graph, p: Pattern, hash: string -> u32, fl: Floats)
    requires PathShape(p) && Expanded(r, ws, g, p, hash, fl)
    requires PatternApart(g, p, |p| / 2, hash, fl) && DistinctNames(p, |p| - 1)
    ensures r.Ok? && ListsWalks(r.value, ws, g, p, fl)
  {
    hide EnvOf, PathShape, DistinctNames, RecordsWalk, WalkOk, NamedWalk, LabelApart, TypeApart;
    HalfPath(p);
    forall w: Walk ensures WalkOk(g, w, p, |p| / 2, hash, fl) <==> NamedWalk(g, w, p, |p| / 2, fl) {
      WalkExact(g, w, p, |p| / 2, hash, fl);
    }
    forall i | 0 <= i < |ws| ensures RecordsWalk(r.value[i], p, ws[i]) {
      FaithfulRecords(p, ws[i]);
    }
  }

  // ----- self-loops -----

  /** From one node, an edge is stepped along twice exactly when it is a self-loop and the pattern undirected. */
  lemma SteppedTwice(g: Graph, from: u64, s: Step, ep: EdgePattern, np: NodePattern, hash: string -> u32, fl: Floats)
    requires StepOk(g, from, s, ep, np, hash, fl)
    ensures (exists t :: t != s && t.edge == s.edge && StepOk(g, from, t, ep, np, hash, fl)) <==>
              g.edges[s.edge].src == g.edges[s.edge].dst && ep.direction == Both
  {
    hide Fits;
    var t := Step(Opposite(s.dir), s.edge, s.node);
    if g.edges[s.edge].src == g.edges[s.edge].dst && ep.direction == Both {
      assert StepOk(g, from, t, ep, np, hash, fl) && t != s;
    }
  }

  /** When every place has a name, two walks with one binding differ only in the direction they take along
      self-loops of undirected edge patterns. */
  lemma SameBinding(env: Env, g: Graph, p: Pattern, v: Walk, w: Walk, fl: Floats)
    requires PathShape(p) && NamedWalk(g, v, p, |p| / 2, fl) && NamedWalk(g, w, p, |p| / 2, fl)
    requires RecordsWalk(env, p, v) && RecordsWalk(env, p, w) && forall i :: 0 <= i < |p| ==> NameAt(p, i).Some?
    ensures v.start == w.start
    ensures forall i :: 0 <= i < |p| / 2 ==>
              && v.steps[i].edge == w.steps[i].edge && v.steps[i].node == w.steps[i].node
              && (v.steps[i].dir == w.steps[i].dir ||
                  (EdgeOf(p, i).direction == Both && v.steps[i].edge in g.edges
                   && g.edges[v.steps[i].edge].src == g.edges[v.steps[i].edge].dst))
  {
    hide NameAt, PathShape, BoundAt, StepNamed;
    HalfPath(p);
    forall i | 0 <= i < |p| ensures BoundAt(v, i) == BoundAt(w, i) {
      assert NameAt(p, i).Some?;
    }
    SamePlaces(v, w, 0);
    forall i | 0 <= i < |p| / 2
      ensures v.steps[i].edge == w.steps[i].edge && v.steps[i].node == w.steps[i].node
      ensures v.steps[i].dir == w.steps[i].dir ||
              (EdgeOf(p, i).direction == Both && v.steps[i].edge in g.edges
               && g.edges[v.steps[i].edge].src == g.edges[v.steps[i].edge].dst)
    {
      assert BoundAt(v, 2 * i) == BoundAt(w, 2 * i) && BoundAt(v, 2 * i + 1) == BoundAt(w, 2 * i + 1);
      assert BoundAt(v, 2 * (i + 1)) == BoundAt(w, 2 * (i + 1));
      SamePlaces(v, w, i);
      SamePlaces(v, w, i + 1);
      SameStep(g, At(v, i), v.steps[i], w.steps[i], EdgeOf(p, i), NodeOf(p, i + 1), fl);
    }
  }

  lemma HalfPath(p: Pattern)
    requires PathShape(p)
    ensures 2 * (|p| / 2) == |p| - 1
  {
  }

  lemma SamePlaces(v: Walk, w: Walk, i: nat)
    requires i <= |v.steps| && i <= |w.steps| && BoundAt(v, 2 * i) == BoundAt(w, 2 * i)
    requires i < |v.steps| && i < |w.steps| ==> BoundAt(v, 2 * i + 1) == BoundAt(w, 2 * i + 1)
    ensures At(v, i) == At(w, i) && (i < |v.steps| && i < |w.steps| ==> v.steps[i].edge == w.steps[i].edge)
  {
  }

  lemma SameStep(g: Graph, from: u64, s: Step, t: Step, ep: EdgePattern, np: NodePattern, fl: Floats)
    requires StepNamed(g, from, s, ep, np, fl) && StepNamed(g, from, t, ep, np, fl) && s.edge == t.edge
    ensures s.dir == t.dir || (ep.direction == Both && s.edge in g.edges && g.edges[s.edge].src == g.edges[s.edge].dst)
  {
    hide Fits;
  }

  // ----- collisions -----

  /** A path of one node. */
  function OneNode(labelName: string): Pattern
  {
    [NodeElement(NodePattern(Some("n"), Some(labelName), map[]))]
  }

  /** A path of one step. */
  function OneStep(labelName: string, edgeType: string): Pattern
  {
    [ NodeElement(NodePattern(Some("n"), Some(labelName), map[])),
        EdgeElement(EdgePattern(Some("e"), Some(edgeType), Right)),
      NodeElement(NodePattern(Some("m"), None, map[])) ]
  }

  /** Whenever two labels share a hash, a node with the one is matched by a pattern that asks for the other. */
  lemma LabelCollision(hash: string -> u32, a: string, b: string, fl: Floats)
    requires a != b && hash(a) == hash(b)
    ensures var g, p, w := TwoNodes(a, "T"), OneNode(b), Walk(1, []);
            GraphOk(g) && PathShape(p) && WalkOk(g, w, p, 0, hash, fl) && !NamedWalk(g, w, p, 0, fl)
  {
  }

  /** The same for two edge types. */
  lemma TypeCollision(hash: string -> u32, a: string, b: string, fl: Floats)
    requires a != b && hash(a) == hash(b)
    ensures var g, p, w := TwoNodes("L", a), OneStep("L", b), Walk(1, [Step(Out, 1, 2)]);
            GraphOk(g) && PathShape(p) && WalkOk(g, w, p, 1, hash, fl) && !NamedWalk(g, w, p, 1, fl)
  {
    var g, p, s := TwoNodes("L", a), OneStep("L", b), Step(Out, 1, 2);
    assert StepOk(g, 1, s, EdgeOf(p, 0), NodeOf(p, 1), hash, fl);
    assert !StepNamed(g, 1, s, EdgeOf(p, 0), NodeOf(p, 1), fl);
    assert FirstOk(g, 1, NodeOf(p, 0), hash, fl);
  }

  /** The code's own hash on ASCII names. */
  ghost predicate HashesNames(hash: string -> u32)
  {
    forall s: string :: IsAscii(s) ==> hash(s) == HashOf(AsciiBytes(s))
  }

  lemma NameHashed(hash: string -> u32, s: string)
    requires HashesNames(hash) && IsAscii(s)
    ensures hash(s) == HashOf(AsciiBytes(s))
  {
    hide HashOf, AsciiBytes;
  }

  lemma SameHash(hash: string -> u32)
    requires HashesNames(hash)
    ensures hash("liquid") == hash("costarring")
  {
    hide HashOf, AsciiBytes, HashesNames;
    NamesCollide();
    NameHashed(hash, "liquid");
    NameHashed(hash, "costarring");
  }

  /** With the code's hash, a node labelled `liquid` is found as a `costarring` node. */
  lemma HashedNamesCollide(hash: string -> u32, fl: Floats)
    requires HashesNames(hash)
    ensures var g, p, w := TwoNodes("liquid", "T"), OneNode("costarring"), Walk(1, []);
            GraphOk(g) && PathShape(p) && WalkOk(g, w, p, 0, hash, fl) && !NamedWalk(g, w, p, 0, fl)
  {
    hide HashesNames, PathShape, WalkOk, NamedWalk, GraphOk;
    SameHash(hash);
    LabelCollision(hash, "liquid", "costarring", fl);
  }
}
