/** What the bindings of a pattern mean: which names stand for what a walk has at their places. */
module Bindings {
  import opened Bytes
  import opened Entries
  import opened GraphKeys
  import opened Graphs
  import opened CypherAst
  import opened Queries
  import opened Matchers

  // ----- names -----

  function NameAt(p: Pattern, i: nat): Option<string>
    requires i < |p|
  {
    match p[i]
    case NodeElement(n) => n.variable
    case EdgeElement(e) => e.variable
  }

  /** What the walk has at place `i` of the pattern. */
  function BoundAt(w: Walk, i: nat): Binding
    requires (i + 1) / 2 <= |w.steps|
  {
    if i % 2 == 0 then BoundNode(At(w, i / 2)) else BoundEdge(w.steps[i / 2].edge)
  }

  /** Place `i` is the last one up to `n` that has this name. */
  ghost predicate LastNamed(p: Pattern, k: string, i: nat, n: nat)
    requires n < |p|
  {
    i <= n && NameAt(p, i) == Some(k) && forall j :: i < j <= n ==> NameAt(p, j) != Some(k)
  }

  lemma LastNamedMore(p: Pattern, k: string, i: nat, n: nat)
    requires n + 1 < |p|
    ensures LastNamed(p, k, i, n + 1) <==>
              if NameAt(p, n + 1) == Some(k) then i == n + 1 else LastNamed(p, k, i, n)
  {
    hide NameAt;
  }

  /** A name is bound exactly when some place up to `n` has it, and then to what the walk has at the last of them. */
  ghost predicate BoundUpTo(env: Env, p: Pattern, w: Walk, k: string, n: nat)
    requires n < |p| && (n + 1) / 2 <= |w.steps|
  {
    && (k in env <==> exists i :: LastNamed(p, k, i, n))
    && (forall i :: LastNamed(p, k, i, n) ==> k in env && env[k] == BoundAt(w, i))
  }

  lemma {:induction false} NameBound(p: Pattern, w: Walk, m: nat, k: string)
    requires PathShape(p) && 2 * m < |p| && m <= |w.steps| && k != LAST_NODE_KEY
    ensures BoundUpTo(EnvOf(p, w, m), p, w, k, 2 * m)
    decreases m
  {
    hide PathShape, BoundUpTo;
    if m == 0 {
      FirstNames(p, w, k);
    } else {
      NameBound(p, w, m - 1, k);
      StepNames(p, w, m, k, EnvOf(p, w, m - 1));
    }
  }

  lemma FirstNames(p: Pattern, w: Walk, k: string)
    requires PathShape(p) && k != LAST_NODE_KEY
    ensures |p| > 0 && BoundUpTo(EnvOf(p, w, 0), p, w, k, 0)
  {
    assert p[0].NodeElement?;
    assert NameAt(p, 0) == Some(k) ==> LastNamed(p, k, 0, 0);
  }

  /** Binding place `n` after those before it. */
  lemma OneMoreName(p: Pattern, w: Walk, n: nat, k: string, env: Env, b: Binding)
    requires 0 < n < |p| && (n + 1) / 2 <= |w.steps| && BoundUpTo(env, p, w, k, n - 1) && b == BoundAt(w, n)
    ensures BoundUpTo(Bind(env, NameAt(p, n), b), p, w, k, n)
  {
    hide NameAt, BoundAt;
    var before := n - 1;
    forall i: nat ensures LastNamed(p, k, i, n) <==> if NameAt(p, n) == Some(k) then i == n
        else LastNamed(p, k, i, before) {
      LastNamedMore(p, k, i, before);
    }
    if NameAt(p, n) == Some(k) {
      assert LastNamed(p, k, n, n);
    } else if i: nat :| LastNamed(p, k, i, before) {
      assert LastNamed(p, k, i, n);
    }
  }

  lemma StepNames(p: Pattern, w: Walk, m: nat, k: string, env: Env)
    requires PathShape(p) && 0 < m && 2 * m < |p| && m <= |w.steps| && k != LAST_NODE_KEY
    requires BoundUpTo(env, p, w, k, 2 * m - 2)
    ensures BoundUpTo(Extend(env, EdgeOf(p, m - 1), NodeOf(p, m), w.steps[m - 1]), p, w, k, 2 * m)
  {
    hide BoundUpTo, LastNamed;
    var n := 2 * m - 1;
    assert p[n].EdgeElement? && p[n + 1].NodeElement?;
    var e1 := Bind(env, NameAt(p, n), BoundAt(w, n));
    OneMoreName(p, w, n, k, env, BoundAt(w, n));
    OneMoreName(p, w, n + 1, k, e1, BoundAt(w, n + 1));
    OtherKey(Bind(e1, NameAt(p, n + 1), BoundAt(w, n + 1)), p, w, k, n + 1, BoundNode(w.steps[m - 1].node));
  }

  /** The key that remembers the last node does not matter to the names. */
  lemma OtherKey(env: Env, p: Pattern, w: Walk, k: string, n: nat, b: Binding)
    requires n < |p| && (n + 1) / 2 <= |w.steps| && BoundUpTo(env, p, w, k, n) && k != LAST_NODE_KEY
    ensures BoundUpTo(env[LAST_NODE_KEY := b], p, w, k, n)
  {
    hide LastNamed, BoundAt;
  }

  lemma {:induction false} SomeLast(p: Pattern, k: string, i: nat, n: nat) returns (j: nat)
    requires i <= n < |p| && NameAt(p, i) == Some(k)
    ensures i <= j && LastNamed(p, k, j, n)
    decreases n
  {
    hide NameAt;
    if i == n || NameAt(p, n) == Some(k) {
      j := n;
    } else {
      j := SomeLast(p, k, i, n - 1);
      LastNamedMore(p, k, j, n - 1);
    }
  }

  /** In the binding handed out, every name stands for what the walk has at each place that carries it. */
  ghost predicate Faithful(p: Pattern, w: Walk, m: nat)
    requires PathShape(p) && 2 * m < |p| && m <= |w.steps|
  {
    var env := EnvOf(p, w, m) - {LAST_NODE_KEY};
    forall i :: 0 <= i <= 2 * m && NameAt(p, i).Some? ==>
      NameAt(p, i).value in env && env[NameAt(p, i).value] == BoundAt(w, i)
  }

  /** No place up to `n` uses the name that remembers the last node. */
  ghost predicate NoneReserved(p: Pattern, n: nat)
    requires n < |p|
  {
    forall i :: 0 <= i <= n ==> NameAt(p, i) != Some(LAST_NODE_KEY)
  }

  /** Places up to `n` that share a name hold the same thing in this walk. */
  ghost predicate SameUnderName(p: Pattern, w: Walk, n: nat)
    requires n < |p| && (n + 1) / 2 <= |w.steps|
  {
    forall i, j :: 0 <= i < j <= n && NameAt(p, i).Some? && NameAt(p, i) == NameAt(p, j) ==>
        BoundAt(w, i) == BoundAt(w, j)
  }

  /** For one walk: a binding is faithful exactly when places that share a name agree and the reserved name is not
      used. */
  lemma FaithfulExactly(p: Pattern, w: Walk, m: nat)
    requires PathShape(p) && 2 * m < |p| && m <= |w.steps|
    ensures Faithful(p, w, m) <==> NoneReserved(p, 2 * m) && SameUnderName(p, w, 2 * m)
  {
    hide NameAt, EnvOf, BoundAt, PathShape, LastNamed;
    if NoneReserved(p, 2 * m) && SameUnderName(p, w, 2 * m) {
      forall i | 0 <= i <= 2 * m && NameAt(p, i).Some?
        ensures NameAt(p, i).value in EnvOf(p, w, m) && EnvOf(p, w, m)[NameAt(p, i).value] == BoundAt(w, i)
      {
        var k := NameAt(p, i).value;
        var j := SomeLast(p, k, i, 2 * m);
        NamedThere(p, k, j, 2 * m);
        NameBound(p, w, m, k);
      }
    }
  }

  lemma NamedThere(p: Pattern, k: string, i: nat, n: nat)
    requires n < |p| && LastNamed(p, k, i, n)
    ensures i <= n && NameAt(p, i) == Some(k)
  {
  }

  /** The names of the pattern up to place `n` are distinct, and none is the reserved one. */
  ghost predicate DistinctNames(p: Pattern, n: nat)
    requires n < |p|
  {
    NoneReserved(p, n) && forall i, j :: 0 <= i < j <= n && NameAt(p, i).Some? ==> NameAt(p, i) != NameAt(p, j)
  }

  /** A walk of `m` steps in which only place `i` differs from the rest. */
  function Marked(m: nat, i: nat): Walk
  {
    Walk(if i == 0 then 1 else 0,
         seq(m, s => Step(Out, if i == 2 * s + 1 then 1 else 0, if i == 2 * s + 2 then 1 else 0)))
  }

  lemma MarkedDiffers(m: nat, i: nat, j: nat)
    requires i < j <= 2 * m
    ensures (j + 1) / 2 <= |Marked(m, i).steps| && BoundAt(Marked(m, i), i) != BoundAt(Marked(m, i), j)
  {
  }

  /** For all walks: the binding is faithful exactly when the pattern's names are distinct and not reserved. The code
      lets a repeated name's later place overwrite the earlier one. */
  lemma FaithfulAlways(p: Pattern, m: nat)
    requires PathShape(p) && 2 * m < |p|
    ensures (forall w: Walk | m <= |w.steps| :: Faithful(p, w, m)) <==> DistinctNames(p, 2 * m)
  {
    hide Faithful, NameAt, PathShape, BoundAt;
    if DistinctNames(p, 2 * m) {
      forall w: Walk | m <= |w.steps| ensures Faithful(p, w, m) {
        FaithfulExactly(p, w, m);
      }
    } else if !NoneReserved(p, 2 * m) {
      FaithfulExactly(p, Marked(m, 0), m);
    } else {
      var i, j :| 0 <= i < j <= 2 * m && NameAt(p, i).Some? && NameAt(p, i) == NameAt(p, j);
      MarkedDiffers(m, i, j);
      FaithfulExactly(p, Marked(m, i), m);
    }
  }

  /** Two nodes and an edge between them. */
  function TwoNodes(firstLabel: string, edgeType: string): Graph
  {
    Graph(map[1 := NodeRecord(firstLabel, map[]), 2 := NodeRecord("M", map[])],
          map[1 := EdgeRecord(1, 2, edgeType, map[])], 3, 2)
  }

  /** The path from an `L` to any node, both named `a`. */
  function TwiceNamed(): Pattern
  {
    [ NodeElement(NodePattern(Some("a"), Some("L"), map[])), EdgeElement(EdgePattern(None, None, Right)),
      NodeElement(NodePattern(Some("a"), None, map[])) ]
  }

  lemma TwiceNamedMatches(hash: string -> u32, fl: Floats)
    ensures var g, p := TwoNodes("L", "T"), TwiceNamed();
            GraphOk(g) && PathShape(p) && WalkOk(g, Walk(1, [Step(Out, 1, 2)]), p, 1, hash, fl)
  {
    var g, p := TwoNodes("L", "T"), TwiceNamed();
    assert FirstOk(g, 1, NodeOf(p, 0), hash, fl);
    assert StepOk(g, 1, Step(Out, 1, 2), EdgeOf(p, 0), NodeOf(p, 1), hash, fl);
  }

  /** In that graph the path has a walk from node 1 to node 2, and its binding names node 2 only. */
  lemma RepeatedNameOverwrites(hash: string -> u32, fl: Floats)
    ensures var g, p, w := TwoNodes("L", "T"), TwiceNamed(), Walk(1, [Step(Out, 1, 2)]);
            && GraphOk(g) && PathShape(p) && WalkOk(g, w, p, 1, hash, fl)
            && !Faithful(p, w, 1) && EnvOf(p, w, 1) - {LAST_NODE_KEY} == map["a" := BoundNode(2)]
  {
    hide WalkOk, GraphOk;
    TwiceNamedMatches(hash, fl);
    var p, w := TwiceNamed(), Walk(1, [Step(Out, 1, 2)]);
    assert EnvOf(p, w, 0) == map["a" := BoundNode(1), LAST_NODE_KEY := BoundNode(1)];
    assert EnvOf(p, w, 1) == map["a" := BoundNode(2), LAST_NODE_KEY := BoundNode(2)];
    assert NameAt(p, 0) == Some("a") && BoundAt(w, 0) == BoundNode(1);
  }
}
