/** Which tokens form which property map, node, edge, path and statement, and the proof that the parser accepts exactly
    those: with redundant parentheses and braces, and an undirected edge with or without its closing dash. */
module Sentences {
  import opened CypherAst
  import opened Derivations
  import opened Entries
  import opened Grammar
  import opened Queries
  import opened Seqs

  // ----- what the tokens form -----

  ghost predicate PairForm(ts: seq<Token>, kv: (string, Expr))
  {
    |ts| >= 2 && ts[0] == Ident(kv.0) && ts[1] == Colon && Derives(ts[2..], kv.1, 0)
  }

  predicate AfterComma(ts: seq<Token>, a: seq<Token>, b: seq<Token>)
  {
    ts == [Comma] + (a + b)
  }

  /** Each pair behind a comma. */
  ghost predicate MoreForm(ts: seq<Token>, pairs: seq<(string, Expr)>)
    decreases |pairs|
  {
    if pairs == [] then ts == []
    else exists a, b :: AfterComma(ts, a, b) && PairForm(a, pairs[0]) && MoreForm(b, pairs[1..])
  }

  predicate Braced(ts: seq<Token>, a: seq<Token>, b: seq<Token>)
  {
    ts == [LBrace] + (a + (b + [RBrace]))
  }

  /** No braces, empty braces, or pairs in braces, of which a repeated key takes its last value. */
  ghost predicate PropertiesForm(ts: seq<Token>, props: map<string, Expr>)
  {
    || (ts == [] && props == map[])
    || (ts == [LBrace, RBrace] && props == map[])
    || exists a, b, kv, more ::
         Braced(ts, a, b) && PairForm(a, kv) && MoreForm(b, more) && props == Collect(map[kv.0 := kv.1], more)
  }

  predicate NodeAround(ts: seq<Token>, n: NodePattern, c: seq<Token>)
  {
    ts == [LParen] + (PrintName(n.variable) + (PrintTag(n.labelName) + (c + [RParen])))
  }

  ghost predicate NodeForm(ts: seq<Token>, n: NodePattern)
  {
    exists c :: NodeAround(ts, n, c) && PropertiesForm(c, n.properties)
  }

  /** The brackets may be left out when there is nothing in them. */
  predicate BodyForm(b: seq<Token>, variable: Option<string>, edgeType: Option<string>)
  {
    || (b == [] && variable.None? && edgeType.None?)
    || b == [LBracket] + (PrintName(variable) + (PrintTag(edgeType) + [RBracket]))
  }

  predicate EdgeAround(ts: seq<Token>, direction: EdgeDirection, b: seq<Token>)
  {
    match direction
    case Left => ts == [Lt] + ([Dash] + (b + [Dash]))
    case Right => ts == [Dash] + (b + [Arrow])
    case Both => ts == [Dash] + (b + [Dash]) || ts == [Dash] + b
  }

  ghost predicate EdgeForm(ts: seq<Token>, e: EdgePattern)
  {
    exists b :: EdgeAround(ts, e.direction, b) && BodyForm(b, e.variable, e.edgeType)
  }

  predicate Joined(ts: seq<Token>, a: seq<Token>, b: seq<Token>, c: seq<Token>)
  {
    ts == a + (b + c)
  }

  /** A node, then edges and nodes in turn. */
  ghost predicate PathForm(ts: seq<Token>, p: Pattern)
    decreases |p|
  {
    if |p| <= 1 then |p| == 1 && p[0].NodeElement? && NodeForm(ts, p[0].node)
    else
      && p[|p| - 2].EdgeElement? && p[|p| - 1].NodeElement?
      && exists a, b, c ::
           && Joined(ts, a, b, c) && PathForm(a, p[..|p| - 2])
           && EdgeForm(b, p[|p| - 2].edge) && NodeForm(c, p[|p| - 1].node)
  }

  ghost predicate WhereForm(ts: seq<Token>, condition: Option<Expr>)
  {
    if condition.None? then ts == [] else ts != [] && ts[0] == KwWhere && Derives(ts[1..], condition.value, 0)
  }

  predicate EndingForm(ts: seq<Token>, e: Ending, meaning: (Option<ReturnClause>, Option<seq<string>>))
  {
    PrintableEnding(e) && EndingMeaning(e) == meaning && ts == PrintEnding(e)
  }

  ghost predicate StatementForm(ts: seq<Token>, s: Statement)
  {
    match s
    case MatchStatement(p, condition, clause, names) =>
      exists a, b, c, e :: Joined(ts, [KwMatch] + a, b, c) && PathForm(a, p) && WhereForm(b, condition)
                           && EndingForm(c, e, (clause, names))
    case CreateStatement(p) => ts != [] && ts[0] == KwCreate && PathForm(ts[1..], p)
    case MergeStatement(n) => ts != [] && ts[0] == KwMerge && NodeForm(ts[1..], n)
  }

  // ----- what forms a thing is read as that thing -----

  lemma PairParses(ts: seq<Token>, kv: (string, Expr), rest: seq<Token>)
    requires PairForm(ts, kv) && NoOperator(rest)
    ensures ParsePair(ts + rest) == Done(kv, rest) && Peek(ts + rest).Ident?
  {
    hide ParseOr, Derives;
    DerivedParses(ts[2..], kv.1, 0, rest);
    var r1 := ts[2..] + rest;
    assert ts + rest == [Ident(kv.0)] + ([Colon] + r1);
    Heads(Ident(kv.0), [Colon] + r1);
    Heads(Colon, r1);
  }

  lemma {:induction false} MoreParse(
      ts: seq<Token>, pairs: seq<(string, Expr)>, props: map<string, Expr>, rest: seq<Token>)
    requires MoreForm(ts, pairs) && Peek(rest).RBrace?
    ensures PairsTail(props, ts + rest) == Done(Collect(props, pairs), rest) && NoOperator(ts + rest)
    decreases |pairs|
  {
    hide ParsePair, PairForm, PairsTail, NoOperator;
    if pairs == [] {
      assert ts + rest == rest;
      PairsEnd(props, rest);
    } else {
      var a, b :| AfterComma(ts, a, b) && PairForm(a, pairs[0]) && MoreForm(b, pairs[1..]);
      MoreParse(b, pairs[1..], props[pairs[0].0 := pairs[0].1], rest);
      PairParses(a, pairs[0], b + rest);
      assert ts + rest == [Comma] + (a + (b + rest));
      PairsStep(props, a + (b + rest), pairs[0], b + rest);
    }
  }

  lemma PairsEnd(props: map<string, Expr>, ts: seq<Token>)
    requires Peek(ts).RBrace?
    ensures PairsTail(props, ts) == Done(props, ts) && NoOperator(ts)
  {
  }

  lemma PairsStep(props: map<string, Expr>, ts: seq<Token>, kv: (string, Expr), rest: seq<Token>)
    requires ParsePair(ts) == Done(kv, rest)
    ensures PairsTail(props, [Comma] + ts) == PairsTail(props[kv.0 := kv.1], rest) && NoOperator([Comma] + ts)
  {
    hide ParsePair;
    Heads(Comma, ts);
  }

  lemma PropertiesParse(ts: seq<Token>, props: map<string, Expr>, rest: seq<Token>)
    requires PropertiesForm(ts, props) && Peek(rest).RParen?
    ensures OptionalProperties(ts + rest) == Done(props, rest)
    ensures Peek(ts + rest).LBrace? || Peek(ts + rest).RParen?
  {
    hide ParsePair, PairForm, MoreForm, PairsTail, Collect;
    if ts == [] {
      assert ts + rest == rest;
    } else if ts == [LBrace, RBrace] && props == map[] {
      assert ts + rest == [LBrace] + ([RBrace] + rest);
      Heads(LBrace, [RBrace] + rest);
      Heads(RBrace, rest);
    } else {
      var a, b, kv, more :|
        Braced(ts, a, b) && PairForm(a, kv) && MoreForm(b, more) && props == Collect(map[kv.0 := kv.1], more);
      var closing := [RBrace] + rest;
      Heads(RBrace, rest);
      MoreParse(b, more, map[kv.0 := kv.1], closing);
      PairParses(a, kv, b + closing);
      assert ts + rest == [LBrace] + (a + (b + closing));
      BracesParse(a + (b + closing), kv, props, b + closing, rest);
      Heads(LBrace, a + (b + closing));
    }
  }

  lemma NodeFormParses(ts: seq<Token>, n: NodePattern, rest: seq<Token>)
    requires NodeForm(ts, n)
    ensures ParseNodePattern(ts + rest) == Done(n, rest) && Peek(ts + rest).LParen?
  {
    hide OptionalProperties, OptionalTag, PrintTag, OptionalIdent, PrintName, ParseNodePattern, PropertiesForm;
    var c :| NodeAround(ts, n, c) && PropertiesForm(c, n.properties);
    var r4 := [RParen] + rest;
    var r3 := c + r4;
    var r2 := PrintTag(n.labelName) + r3;
    var r1 := PrintName(n.variable) + r2;
    assert ts + rest == [LParen] + r1;
    Heads(LParen, r1);
    Heads(RParen, rest);
    PropertiesParse(c, n.properties, r4);
    TagRoundTrip(n.labelName, r3);
    NameRoundTrip(n.variable, r2);
    NodeParses(n.variable, n.labelName, n.properties, r1, r2, r3, rest);
  }

  lemma BodyParses(b: seq<Token>, variable: Option<string>, edgeType: Option<string>, rest: seq<Token>)
    requires BodyForm(b, variable, edgeType) && !Peek(rest).LBracket?
    ensures EdgeBody(b + rest) == Done((variable, edgeType), rest)
  {
    hide OptionalTag, PrintTag, OptionalIdent, PrintName;
    if b == [] {
      assert b + rest == rest;
    } else {
      hide EdgeBody;
      var r3 := [RBracket] + rest;
      var r2 := PrintTag(edgeType) + r3;
      var r1 := PrintName(variable) + r2;
      assert b + rest == [LBracket] + r1;
      Heads(RBracket, rest);
      TagRoundTrip(edgeType, r3);
      NameRoundTrip(variable, r2);
      BracketsParse(variable, edgeType, r1, r2, rest);
    }
  }

  /** What follows an edge is a node. */
  lemma EdgeFormParses(ts: seq<Token>, e: EdgePattern, rest: seq<Token>)
    requires EdgeForm(ts, e) && Peek(rest).LParen?
    ensures ParseEdgePattern(ts + rest) == Done(e, rest) && (Peek(ts + rest).Dash? || Peek(ts + rest).Lt?)
  {
    hide ParseEdgePattern, EdgeBody, BodyForm;
    var b :| EdgeAround(ts, e.direction, b) && BodyForm(b, e.variable, e.edgeType);
    if ts == [Dash] + b && e.direction == Both {
      assert ts + rest == [Dash] + (b + rest);
      BodyParses(b, e.variable, e.edgeType, rest);
      OpenEdge(b + rest, e, rest);
    } else {
      var t := if e.direction.Right? then Arrow else Dash;
      var r1 := b + ([t] + rest);
      assert ts + rest == if e.direction.Left? then [Lt] + ([Dash] + r1) else [Dash] + r1;
      Heads(t, rest);
      BodyParses(b, e.variable, e.edgeType, [t] + rest);
      ClosedEdge(r1, e, rest);
    }
  }

  lemma OpenEdge(r1: seq<Token>, e: EdgePattern, rest: seq<Token>)
    requires e.direction == Both && EdgeBody(r1) == Done((e.variable, e.edgeType), rest)
    requires !Peek(rest).Dash? && !Peek(rest).Arrow?
    ensures ParseEdgePattern([Dash] + r1) == Done(e, rest) && Peek([Dash] + r1) == Dash
  {
    hide EdgeBody;
    Heads(Dash, r1);
  }

  lemma ClosedEdge(r1: seq<Token>, e: EdgePattern, rest: seq<Token>)
    requires EdgeBody(r1) == Done((e.variable, e.edgeType), [if e.direction.Right? then Arrow else Dash] + rest)
    ensures var ts := if e.direction.Left? then [Lt] + ([Dash] + r1) else [Dash] + r1;
            ParseEdgePattern(ts) == Done(e, rest) && (Peek(ts) == Dash || Peek(ts) == Lt)
  {
    hide EdgeBody;
    Heads(Dash, r1);
    Heads(Lt, [Dash] + r1);
    Heads(if e.direction.Right? then Arrow else Dash, rest);
  }

  /** After the tokens of a path the parser goes on with the edges that follow. */
  lemma {:induction false} PathFormParses(ts: seq<Token>, p: Pattern, rest: seq<Token>)
    requires PathForm(ts, p)
    ensures ParsePattern(ts + rest) == PatternTail(p, rest)
    decreases |p|
  {
    hide NodeForm, EdgeForm, ParseNodePattern, ParseEdgePattern;
    if |p| <= 1 {
      NodeFormParses(ts, p[0].node, rest);
      assert p == [NodeElement(p[0].node)];
    } else {
      var n := |p|;
      var a, b, c :| Joined(ts, a, b, c) && PathForm(a, p[..n - 2])
                     && EdgeForm(b, p[n - 2].edge) && NodeForm(c, p[n - 1].node);
      PathFormParses(a, p[..n - 2], b + (c + rest));
      NodeFormParses(c, p[n - 1].node, rest);
      EdgeFormParses(b, p[n - 2].edge, c + rest);
      assert ts + rest == a + (b + (c + rest));
      assert p == p[..n - 2] + [EdgeElement(p[n - 2].edge), NodeElement(p[n - 1].node)];
    }
  }

  lemma WhereFormParses(ts: seq<Token>, condition: Option<Expr>, rest: seq<Token>)
    requires WhereForm(ts, condition) && NoOperator(rest)
    requires !Peek(rest).KwWhere? && !Peek(rest).Dash? && !Peek(rest).Lt?
    ensures ParseWhere(ts + rest) == Done(condition, rest) && !Peek(ts + rest).Dash? && !Peek(ts + rest).Lt?
  {
    hide ParseOr, Derives;
    if condition.Some? {
      assert ts + rest == [KwWhere] + (ts[1..] + rest);
      Heads(KwWhere, ts[1..] + rest);
      DerivedParses(ts[1..], condition.value, 0, rest);
    } else {
      assert ts + rest == rest;
    }
  }

  lemma MatchFormParses(ts: seq<Token>, s: Statement, rest: seq<Token>)
    requires s.MatchStatement? && StatementForm(ts, s) && Peek(rest).Eof?
    ensures ParseMatch(ts + rest) == Done(s, rest) && Peek(ts + rest).KwMatch?
  {
    hide PathForm, WhereForm, ParsePattern, ParseWhere, ParseEnding, PrintEnding, PrintableEnding;
    var a, b, c, e :| Joined(ts, [KwMatch] + a, b, c) && PathForm(a, s.pattern) && WhereForm(b, s.whereClause)
                      && EndingForm(c, e, (s.returnClause, s.deleteClause));
    var r3 := c + rest;
    var r2 := b + r3;
    var r1 := a + r2;
    assert ts + rest == [KwMatch] + r1;
    Heads(KwMatch, r1);
    EndingRoundTrip(e, rest);
    WhereFormParses(b, s.whereClause, r3);
    PathFormParses(a, s.pattern, r2);
  }

  /** Tokens that form a statement parse to it, at the end of the input or before an `Eof`. */
  lemma StatementFormParses(ts: seq<Token>, s: Statement, rest: seq<Token>)
    requires StatementForm(ts, s) && Peek(rest).Eof?
    ensures ParseStatement(ts + rest) == Done(s, Next(rest))
  {
    hide ParseMatch, ParsePattern, ParseNodePattern, PathForm, NodeForm;
    if s.MatchStatement? {
      MatchFormParses(ts, s, rest);
    } else {
      assert ts + rest == [ts[0]] + (ts[1..] + rest);
      Heads(ts[0], ts[1..] + rest);
      if s.CreateStatement? {
        PathFormParses(ts[1..], s.pattern, rest);
      } else {
        NodeFormParses(ts[1..], s.node, rest);
      }
    }
  }

  // ----- what is read was formed -----

  lemma ExprTaken(ts: seq<Token>) returns (used: seq<Token>)
    requires ParseExpr(ts).Done?
    ensures ts == used + ParseExpr(ts).rest && Derives(used, ParseExpr(ts).value, 0)
  {
    hide ParseOr, Derives;
    ExprDerived(ts);
    used := ts[..|ts| - |ParseExpr(ts).rest|];
  }

  lemma PairTaken(ts: seq<Token>) returns (used: seq<Token>)
    requires ParsePair(ts).Done?
    ensures ts == used + ParsePair(ts).rest && PairForm(used, ParsePair(ts).value)
  {
    hide ParseExpr, Derives;
    var u := ExprTaken(Next(Next(ts)));
    used := [ts[0], Colon] + u;
    assert used[2..] == u && Next(Next(ts)) == ts[2..] && ts == [ts[0], Colon] + ts[2..];
  }

  lemma {:induction false} MoreTaken(props: map<string, Expr>, ts: seq<Token>)
    returns (used: seq<Token>, pairs: seq<(string, Expr)>)
    requires PairsTail(props, ts).Done?
    ensures ts == used + PairsTail(props, ts).rest
    ensures MoreForm(used, pairs) && PairsTail(props, ts).value == Collect(props, pairs)
    decreases |ts|
  {
    hide ParsePair, PairForm, PairsTail;
    if Peek(ts).Comma? {
      PairsOnward(props, ts);
      var a := PairTaken(Next(ts));
      var kv := ParsePair(Next(ts)).value;
      var b, more := MoreTaken(props[kv.0 := kv.1], ParsePair(Next(ts)).rest);
      used, pairs := [Comma] + (a + b), [kv] + more;
      assert pairs[1..] == more && AfterComma(used, a, b);
      assert ts == [Comma] + Next(ts);
    } else {
      PairsOver(props, ts);
      used, pairs := [], [];
    }
  }

  lemma PropertiesTaken(ts: seq<Token>) returns (used: seq<Token>)
    requires OptionalProperties(ts).Done?
    ensures ts == used + OptionalProperties(ts).rest && PropertiesForm(used, OptionalProperties(ts).value)
  {
    hide ParsePair, PairsTail, PairForm, MoreForm, Collect;
    if !Peek(ts).LBrace? {
      used := [];
    } else if Peek(Next(ts)).RBrace? {
      used := [LBrace, RBrace];
    } else {
      var kv := ParsePair(Next(ts)).value;
      var r := ParsePair(Next(ts)).rest;
      var a := PairTaken(Next(ts));
      var b, more := MoreTaken(map[kv.0 := kv.1], r);
      used := [LBrace] + (a + (b + [RBrace]));
      assert Braced(used, a, b);
      var after := PairsTail(map[kv.0 := kv.1], r).rest;
      assert ts == [LBrace] + Next(ts) && after == [RBrace] + Next(after);
    }
  }

  lemma NameTaken(ts: seq<Token>)
    ensures ts == PrintName(OptionalIdent(ts).value) + OptionalIdent(ts).rest
  {
  }

  lemma TagTaken(ts: seq<Token>)
    requires OptionalTag(ts).Done?
    ensures ts == PrintTag(OptionalTag(ts).value) + OptionalTag(ts).rest
  {
    if Peek(ts).Colon? {
      assert ts == [Colon, Next(ts)[0]] + Next(Next(ts));
    }
  }

  lemma NodeTaken(ts: seq<Token>) returns (used: seq<Token>)
    requires ParseNodePattern(ts).Done?
    ensures ts == used + ParseNodePattern(ts).rest && NodeForm(used, ParseNodePattern(ts).value)
  {
    hide OptionalIdent, OptionalTag, OptionalProperties, PrintName, PrintTag, PropertiesForm;
    var r1 := Next(ts);
    var r2 := OptionalIdent(r1).rest;
    var r3 := OptionalTag(r2).rest;
    NameTaken(r1);
    TagTaken(r2);
    var c := PropertiesTaken(r3);
    var r4 := OptionalProperties(r3).rest;
    var n := ParseNodePattern(ts).value;
    used := [LParen] + (PrintName(n.variable) + (PrintTag(n.labelName) + (c + [RParen])));
    assert NodeAround(used, n, c);
    assert ts == [LParen] + r1 && r4 == [RParen] + Next(r4);
  }

  lemma BodyTaken(ts: seq<Token>) returns (used: seq<Token>)
    requires EdgeBody(ts).Done?
    ensures ts == used + EdgeBody(ts).rest && BodyForm(used, EdgeBody(ts).value.0, EdgeBody(ts).value.1)
  {
    hide OptionalIdent, OptionalTag, PrintName, PrintTag;
    if Peek(ts).LBracket? {
      var r1 := Next(ts);
      var r2 := OptionalIdent(r1).rest;
      NameTaken(r1);
      TagTaken(r2);
      var r3 := OptionalTag(r2).rest;
      used := [LBracket] + (PrintName(OptionalIdent(r1).value) + (PrintTag(OptionalTag(r2).value) + [RBracket]));
      assert ts == [LBracket] + r1 && r3 == [RBracket] + Next(r3);
    } else {
      used := [];
    }
  }

  lemma FirstOf(ts: seq<Token>)
    requires Peek(ts) != Eof
    ensures ts == [Peek(ts)] + Next(ts)
  {
  }

  lemma EdgeTaken(ts: seq<Token>) returns (used: seq<Token>)
    requires ParseEdgePattern(ts).Done?
    ensures ts == used + ParseEdgePattern(ts).rest && EdgeForm(used, ParseEdgePattern(ts).value)
  {
    if Peek(ts).Lt? {
      used := LeftEdgeTaken(ts);
    } else {
      used := OtherEdgeTaken(ts);
    }
  }

  lemma ParsedLeft(ts: seq<Token>)
    requires ParseEdgePattern(ts).Done? && Peek(ts).Lt?
    ensures Peek(Next(ts)) == Dash
    ensures var body := EdgeBody(Next(Next(ts)));
            && body.Done? && Peek(body.rest) == Dash
            && ParseEdgePattern(ts) == Done(EdgePattern(body.value.0, body.value.1, Left), Next(body.rest))
  {
    hide EdgeBody;
  }

  lemma ParsedOther(ts: seq<Token>)
    requires ParseEdgePattern(ts).Done? && !Peek(ts).Lt?
    ensures Peek(ts) == Dash
    ensures var body := EdgeBody(Next(ts));
            && body.Done?
            && var direction := if Peek(body.rest).Arrow? then Right else Both;
               var rest := if Peek(body.rest).Arrow? || Peek(body.rest).Dash? then Next(body.rest) else body.rest;
               ParseEdgePattern(ts) == Done(EdgePattern(body.value.0, body.value.1, direction), rest)
  {
    hide EdgeBody;
  }

  lemma EdgeRegroup(t: Token, b: seq<Token>, last: Token, rest: seq<Token>)
    ensures [Dash] + (b + ([last] + rest)) == [Dash] + (b + [last]) + rest
    ensures [t] + ([Dash] + (b + ([last] + rest))) == [t] + ([Dash] + (b + [last])) + rest
  {
  }

  lemma LeftEdgeTaken(ts: seq<Token>) returns (used: seq<Token>)
    requires ParseEdgePattern(ts).Done? && Peek(ts).Lt?
    ensures ts == used + ParseEdgePattern(ts).rest && EdgeForm(used, ParseEdgePattern(ts).value)
  {
    hide EdgeBody, BodyForm, ParseEdgePattern;
    ParsedLeft(ts);
    var b := BodyTaken(Next(Next(ts)));
    var r2 := EdgeBody(Next(Next(ts))).rest;
    FirstOf(ts);
    FirstOf(Next(ts));
    FirstOf(r2);
    used := [Lt] + ([Dash] + (b + [Dash]));
    assert EdgeAround(used, Left, b);
    EdgeRegroup(Lt, b, Dash, Next(r2));
  }

  lemma OtherEdgeTaken(ts: seq<Token>) returns (used: seq<Token>)
    requires ParseEdgePattern(ts).Done? && !Peek(ts).Lt?
    ensures ts == used + ParseEdgePattern(ts).rest && EdgeForm(used, ParseEdgePattern(ts).value)
  {
    hide EdgeBody, BodyForm, ParseEdgePattern;
    ParsedOther(ts);
    var e := ParseEdgePattern(ts).value;
    var b := BodyTaken(Next(ts));
    var r2 := EdgeBody(Next(ts)).rest;
    FirstOf(ts);
    if Peek(r2).Arrow? || Peek(r2).Dash? {
      FirstOf(r2);
      used := [Dash] + (b + [Peek(r2)]);
      EdgeRegroup(Lt, b, Peek(r2), Next(r2));
    } else {
      used := [Dash] + b;
      assert [Dash] + (b + r2) == used + r2;
    }
    assert EdgeAround(used, e.direction, b);
  }

  lemma {:induction false} TailTaken(p: Pattern, before: seq<Token>, ts: seq<Token>) returns (used: seq<Token>)
    requires p != [] && PathForm(before, p) && PatternTail(p, ts).Done?
    ensures ts == used + PatternTail(p, ts).rest && PathForm(before + used, PatternTail(p, ts).value)
    decreases |ts|
  {
    hide ParseEdgePattern, ParseNodePattern, EdgeForm, NodeForm, PathForm, PatternTail;
    if Peek(ts).Dash? || Peek(ts).Lt? {
      PatternOnward(p, ts);
      var edge := ParseEdgePattern(ts);
      var b := EdgeTaken(ts);
      var node := ParseNodePattern(edge.rest);
      var c := NodeTaken(edge.rest);
      var p' := p + [EdgeElement(edge.value)] + [NodeElement(node.value)];
      PathExtends(before, p, b, edge.value, c, node.value);
      var more := TailTaken(p', before + (b + c), node.rest);
      used := b + (c + more);
      StepRegroup(before, b, c, more, PatternTail(p, ts).rest);
    } else {
      PatternOver(p, ts);
      used := [];
      assert before + used == before;
    }
  }

  lemma StepRegroup(a: seq<Token>, b: seq<Token>, c: seq<Token>, more: seq<Token>, rest: seq<Token>)
    ensures a + (b + c) + more == a + (b + (c + more)) && b + (c + (more + rest)) == b + (c + more) + rest
  {
  }

  lemma PathExtends(a: seq<Token>, p: Pattern, b: seq<Token>, edge: EdgePattern, c: seq<Token>, node: NodePattern)
    requires p != [] && PathForm(a, p) && EdgeForm(b, edge) && NodeForm(c, node)
    ensures PathForm(a + (b + c), p + [EdgeElement(edge)] + [NodeElement(node)])
  {
    hide EdgeForm, NodeForm;
    var p' := p + [EdgeElement(edge)] + [NodeElement(node)];
    assert p'[..|p'| - 2] == p && Joined(a + (b + c), a, b, c);
  }

  lemma PatternTaken(ts: seq<Token>) returns (used: seq<Token>)
    requires ParsePattern(ts).Done?
    ensures ts == used + ParsePattern(ts).rest && PathForm(used, ParsePattern(ts).value)
  {
    hide ParseNodePattern, NodeForm, PatternTail;
    var node := ParseNodePattern(ts);
    var a := NodeTaken(ts);
    var more := TailTaken([NodeElement(node.value)], a, node.rest);
    used := a + more;
  }

  lemma WhereTaken(ts: seq<Token>) returns (used: seq<Token>)
    requires ParseWhere(ts).Done?
    ensures ts == used + ParseWhere(ts).rest && WhereForm(used, ParseWhere(ts).value)
  {
    hide ParseExpr, Derives;
    if Peek(ts).KwWhere? {
      var u := ExprTaken(Next(ts));
      used := [KwWhere] + u;
      FirstOf(ts);
      assert used[1..] == u;
    } else {
      used := [];
    }
  }

  // ----- clauses have one form each -----

  lemma AtomItemTaken(ts: seq<Token>)
    requires ParseItemAtom(ts).Done?
    ensures AtomItem(ParseItemAtom(ts).value)
    ensures ts == PrintAtomItem(ParseItemAtom(ts).value) + ParseItemAtom(ts).rest
  {
    FirstOf(ts);
    var r := Next(ts);
    if Peek(r).Dot? {
      FirstOf(r);
      FirstOf(Next(r));
    }
  }

  lemma ParsedCount(ts: seq<Token>)
    requires ParseCounted(ts).Done?
    ensures if Peek(ts).KwCount? then
              var p := ParseItemAtom(Next(Next(ts)));
              && Peek(Next(ts)) == LParen && p.Done? && Peek(p.rest) == RParen
              && ParseCounted(ts) == Done(FunctionCall("count", p.value), Next(p.rest))
            else ParseCounted(ts) == ParseItemAtom(ts)
  {
    hide ParseItemAtom;
  }

  lemma CountRegroup(a: seq<Token>, rest: seq<Token>)
    ensures [KwCount] + ([LParen] + (a + ([RParen] + rest))) == [KwCount, LParen] + a + [RParen] + rest
  {
  }

  lemma CountedTaken(ts: seq<Token>)
    requires ParseCounted(ts).Done?
    ensures CountedItem(ParseCounted(ts).value)
    ensures ts == PrintCounted(ParseCounted(ts).value) + ParseCounted(ts).rest
  {
    hide ParseItemAtom, PrintAtomItem, AtomItem, ParseCounted;
    ParsedCount(ts);
    if Peek(ts).KwCount? {
      var r1 := Next(Next(ts));
      AtomItemTaken(r1);
      FirstOf(ts);
      FirstOf(Next(ts));
      FirstOf(ParseItemAtom(r1).rest);
      CountRegroup(PrintAtomItem(ParseItemAtom(r1).value), Next(ParseItemAtom(r1).rest));
    } else {
      AtomItemTaken(ts);
      AtomIsNoCall(ParseItemAtom(ts).value);
    }
  }

  lemma AtomIsNoCall(i: ReturnItem)
    requires AtomItem(i)
    ensures !i.FunctionCall? && !i.Alias?
  {
  }

  lemma CountedIsNoAlias(i: ReturnItem)
    requires CountedItem(i)
    ensures !i.Alias?
  {
  }

  lemma ItemTaken(ts: seq<Token>)
    requires ParseReturnItem(ts).Done?
    ensures PrintableItem(ParseReturnItem(ts).value)
    ensures ts == PrintItem(ParseReturnItem(ts).value) + ParseReturnItem(ts).rest
  {
    hide ParseCounted, PrintCounted, CountedItem;
    CountedTaken(ts);
    CountedIsNoAlias(ParseCounted(ts).value);
    var r := ParseCounted(ts).rest;
    if Peek(r).KwAs? {
      FirstOf(r);
      FirstOf(Next(r));
      assert r == [KwAs, Peek(Next(r))] + Next(Next(r));
    }
  }

  lemma {:induction false} ItemsTaken(items: seq<ReturnItem>, ts: seq<Token>) returns (more: seq<ReturnItem>)
    requires ItemsTail(items, ts).Done?
    ensures forall i :: 0 <= i < |more| ==> PrintableItem(more[i])
    ensures ItemsTail(items, ts).value == items + more && ts == PrintMoreItems(more) + ItemsTail(items, ts).rest
    decreases |ts|
  {
    hide ParseReturnItem, PrintItem, PrintableItem, ItemsTail;
    if Peek(ts).Comma? {
      ItemsOnward(items, ts);
      var item := ParseReturnItem(Next(ts));
      ItemTaken(Next(ts));
      FirstOf(ts);
      var others := ItemsTaken(items + [item.value], item.rest);
      more := [item.value] + others;
      assert more[1..] == others && items + [item.value] + others == items + more;
    } else {
      ItemsOver(items, ts);
      more := [];
    }
  }

  lemma LimitTaken(ts: seq<Token>)
    requires ParseLimit(ts).Done?
    ensures ts == PrintLimit(ParseLimit(ts).value) + ParseLimit(ts).rest
  {
    if Peek(ts).KwLimit? {
      FirstOf(ts);
      FirstOf(Next(ts));
      assert ts == [KwLimit, Peek(Next(ts))] + Next(Next(ts));
    }
  }

  lemma ReturnTaken(ts: seq<Token>)
    requires ParseReturn(ts).Done?
    ensures PrintableClause(ParseReturn(ts).value) && ts == PrintReturn(ParseReturn(ts).value) + ParseReturn(ts).rest
  {
    hide ParseReturnItem, ItemsTail, ParseLimit, PrintItem, PrintMoreItems, PrintLimit, PrintableItem;
    var first := ParseReturnItem(Next(ts));
    ItemTaken(Next(ts));
    var more := ItemsTaken([first.value], first.rest);
    LimitTaken(ItemsTail([first.value], first.rest).rest);
    FirstOf(ts);
    var c := ParseReturn(ts).value;
    assert c.items == [first.value] + more && c.items[1..] == more;
  }

  lemma NamesPrinted(name: string, others: seq<string>, rest: seq<Token>)
    ensures PrintMoreNames([name] + others) + rest == [Comma] + ([Ident(name)] + (PrintMoreNames(others) + rest))
  {
    assert ([name] + others)[1..] == others;
    assert PrintMoreNames([name] + others) == [Comma, Ident(name)] + PrintMoreNames(others);
  }

  lemma {:induction false} NamesTaken(names: seq<string>, ts: seq<Token>) returns (more: seq<string>)
    requires NamesTail(names, ts).Done?
    ensures NamesTail(names, ts).value == names + more && ts == PrintMoreNames(more) + NamesTail(names, ts).rest
    decreases |ts|
  {
    hide NamesTail, PrintMoreNames;
    if Peek(ts).Comma? {
      NamesOnward(names, ts);
      var name := Peek(Next(ts)).name;
      FirstOf(ts);
      FirstOf(Next(ts));
      var others := NamesTaken(names + [name], Next(Next(ts)));
      more := [name] + others;
      NamesPrinted(name, others, NamesTail(names, ts).rest);
      AppendOne(names, name, others);
    } else {
      NamesOver(names, ts);
      more := [];
      NoneNamed(ts);
    }
  }

  lemma NoneNamed(ts: seq<Token>)
    ensures PrintMoreNames([]) + ts == ts && forall s: seq<string> :: s + [] == s
  {
  }

  lemma DeleteTaken(ts: seq<Token>) returns (names: seq<string>)
    requires ParseDelete(ts).Done?
    ensures names != [] && ParseDelete(ts).value == names
    ensures ts == [KwDelete, Ident(names[0])] + PrintMoreNames(names[1..]) + ParseDelete(ts).rest
  {
    hide NamesTail, PrintMoreNames;
    var r1 := Next(ts);
    var more := NamesTaken([Peek(r1).name], Next(r1));
    names := [Peek(r1).name] + more;
    FirstOf(ts);
    FirstOf(r1);
    assert names[1..] == more && ts == [KwDelete, Ident(names[0])] + Next(r1);
  }

  lemma EndingTaken(ts: seq<Token>) returns (e: Ending)
    requires ParseEnding(ts).Done?
    ensures PrintableEnding(e) && EndingMeaning(e) == ParseEnding(ts).value
    ensures ts == PrintEnding(e) + ParseEnding(ts).rest
  {
    hide ParseReturn, ParseDelete, PrintReturn, PrintMoreNames, PrintableClause;
    if Peek(ts).KwReturn? {
      ReturnTaken(ts);
      e := ReturnEnding(ParseReturn(ts).value);
    } else if Peek(ts).KwDelete? {
      var names := DeleteTaken(ts);
      e := DeleteEnding(names);
    } else {
      e := NoEnding;
    }
  }

  lemma MatchRegroup(a: seq<Token>, b: seq<Token>, c: seq<Token>, rest: seq<Token>)
    ensures [KwMatch] + (a + (b + (c + rest))) == ([KwMatch] + a) + (b + c) + rest
  {
  }

  lemma MatchTaken(ts: seq<Token>) returns (used: seq<Token>)
    requires ParseMatch(ts).Done?
    ensures ts == used + ParseMatch(ts).rest && StatementForm(used, ParseMatch(ts).value)
  {
    hide ParsePattern, ParseWhere, ParseEnding, PathForm, WhereForm, PrintEnding, PrintableEnding, EndingMeaning;
    var pattern := ParsePattern(Next(ts));
    var a := PatternTaken(Next(ts));
    var condition := ParseWhere(pattern.rest);
    var b := WhereTaken(pattern.rest);
    var ending := ParseEnding(condition.rest);
    var e := EndingTaken(condition.rest);
    var c := PrintEnding(e);
    FirstOf(ts);
    used := ([KwMatch] + a) + (b + c);
    assert Joined(used, [KwMatch] + a, b, c) && EndingForm(c, e, ending.value);
    MatchRegroup(a, b, c, ending.rest);
  }

  lemma CreateTaken(ts: seq<Token>) returns (used: seq<Token>)
    requires ParseCreate(ts).Done?
    ensures ts == used + ParseCreate(ts).rest && StatementForm(used, ParseCreate(ts).value)
  {
    hide ParsePattern, PathForm;
    var a := PatternTaken(Next(ts));
    FirstOf(ts);
    used := [KwCreate] + a;
    assert used[1..] == a;
  }

  lemma MergeTaken(ts: seq<Token>) returns (used: seq<Token>)
    requires ParseMerge(ts).Done?
    ensures ts == used + ParseMerge(ts).rest && StatementForm(used, ParseMerge(ts).value)
  {
    hide ParseNodePattern, NodeForm;
    var a := NodeTaken(Next(ts));
    FirstOf(ts);
    used := [KwMerge] + a;
    assert used[1..] == a;
  }

  lemma StatementTaken(ts: seq<Token>) returns (used: seq<Token>, after: seq<Token>)
    requires ParseStatement(ts).Done?
    ensures ts == used + after && Peek(after).Eof? && ParseStatement(ts).rest == Next(after)
    ensures StatementForm(used, ParseStatement(ts).value)
  {
    hide ParseMatch, ParseCreate, ParseMerge, StatementForm;
    if Peek(ts).KwMatch? {
      used := MatchTaken(ts);
      after := ParseMatch(ts).rest;
    } else if Peek(ts).KwCreate? {
      used := CreateTaken(ts);
      after := ParseCreate(ts).rest;
    } else {
      used := MergeTaken(ts);
      after := ParseMerge(ts).rest;
    }
  }

  // ----- both together -----

  /** The parser returns a node pattern and the tokens after it exactly when the tokens before them form it. */
  lemma NodeExact(ts: seq<Token>, n: NodePattern, rest: seq<Token>)
    ensures ParseNodePattern(ts) == Done(n, rest) <==> exists used :: ts == used + rest && NodeForm(used, n)
  {
    hide ParseNodePattern, NodeForm;
    if ParseNodePattern(ts) == Done(n, rest) {
      var used := NodeTaken(ts);
    }
    if used :| ts == used + rest && NodeForm(used, n) {
      NodeFormParses(used, n, rest);
    }
  }

  /** An edge likewise, in front of a node. */
  lemma EdgeExact(ts: seq<Token>, e: EdgePattern, rest: seq<Token>)
    requires Peek(rest).LParen?
    ensures ParseEdgePattern(ts) == Done(e, rest) <==> exists used :: ts == used + rest && EdgeForm(used, e)
  {
    hide ParseEdgePattern, EdgeForm;
    if ParseEdgePattern(ts) == Done(e, rest) {
      var used := EdgeTaken(ts);
    }
    if used :| ts == used + rest && EdgeForm(used, e) {
      EdgeFormParses(used, e, rest);
    }
  }

  /** A path likewise, up to where no edge follows. */
  lemma PathExact(ts: seq<Token>, p: Pattern, rest: seq<Token>)
    ensures ParsePattern(ts) == Done(p, rest) <==>
              !Peek(rest).Dash? && !Peek(rest).Lt? && exists used :: ts == used + rest && PathForm(used, p)
  {
    hide ParsePattern, PathForm, PatternTail;
    if ParsePattern(ts) == Done(p, rest) {
      var used := PatternTaken(ts);
      PatternStops(ts);
    }
    if used :| ts == used + rest && PathForm(used, p) {
      PathFormParses(used, p, rest);
      if !Peek(rest).Dash? && !Peek(rest).Lt? {
        TailStops(p, rest);
      }
    }
  }

  lemma {:induction false} TailStops(p: Pattern, ts: seq<Token>)
    ensures var r := PatternTail(p, ts); r.Done? ==> !Peek(r.rest).Dash? && !Peek(r.rest).Lt?
    ensures !Peek(ts).Dash? && !Peek(ts).Lt? ==> PatternTail(p, ts) == Done(p, ts)
    decreases |ts|
  {
    hide ParseEdgePattern, ParseNodePattern;
    if Peek(ts).Dash? || Peek(ts).Lt? {
      var edge := ParseEdgePattern(ts);
      if edge.Done? && ParseNodePattern(edge.rest).Done? {
        var node := ParseNodePattern(edge.rest);
        TailStops(p + [EdgeElement(edge.value), NodeElement(node.value)], node.rest);
      }
    }
  }

  lemma PatternStops(ts: seq<Token>)
    ensures var r := ParsePattern(ts); r.Done? ==> !Peek(r.rest).Dash? && !Peek(r.rest).Lt?
  {
    hide ParseNodePattern, PatternTail;
    var node := ParseNodePattern(ts);
    if node.Done? {
      TailStops([NodeElement(node.value)], node.rest);
    }
  }

  /** The parser accepts exactly the token lists that start with tokens which form a statement, followed by `Eof` or
      the end, and returns that statement. */
  lemma StatementExact(ts: seq<Token>, s: Statement)
    ensures ParseStatement(ts).Done? && ParseStatement(ts).value == s <==>
              exists used, after :: ts == used + after && Peek(after).Eof? && StatementForm(used, s)
  {
    hide ParseStatement, StatementForm;
    if ParseStatement(ts).Done? && ParseStatement(ts).value == s {
      var used, after := StatementTaken(ts);
    }
    if used, after :| ts == used + after && Peek(after).Eof? && StatementForm(used, s) {
      StatementFormParses(used, s, after);
    }
  }

  /** Tokens form at most one statement. */
  lemma OneStatement(ts: seq<Token>, s: Statement, s': Statement)
    requires StatementForm(ts, s) && StatementForm(ts, s')
    ensures s == s'
  {
    hide ParseStatement, StatementForm;
    StatementFormParses(ts, s, []);
    StatementFormParses(ts, s', []);
  }

  // ----- no end marker inside -----

  ghost predicate NoEof(ts: seq<Token>)
  {
    forall i :: 0 <= i < |ts| ==> !ts[i].Eof?
  }

  lemma {:induction false} ExprNoEof(ts: seq<Token>, e: Expr, level: nat)
    requires level <= 4 && Derives(ts, e, level)
    ensures NoEof(ts)
    decreases |ts|, 4 - level
  {
    if level < 4 && Derives(ts, e, level + 1) {
      ExprNoEof(ts, e, level + 1);
    } else if level == 0 {
      var i: nat :| OrAt(ts, i, e.left, e.right);
      ExprNoEof(ts[..i], e.left, 0);
      ExprNoEof(ts[i + 1..], e.right, 1);
      AroundNoEof(ts, i);
    } else if level == 1 {
      var i: nat :| AndAt(ts, i, e.left, e.right);
      ExprNoEof(ts[..i], e.left, 1);
      ExprNoEof(ts[i + 1..], e.right, 2);
      AroundNoEof(ts, i);
    } else if level == 2 {
      ExprNoEof(ts[1..], e.inner, 2);
      AroundNoEof(ts, 0);
    } else if level == 3 {
      var i: nat :| ComparedAt(ts, i, e.left, e.op, e.right);
      ExprNoEof(ts[..i], e.left, 4);
      ExprNoEof(ts[i + 1..], e.right, 4);
      AroundNoEof(ts, i);
    } else if !AtomText(ts, e) {
      var inside := ts[1..|ts| - 1];
      ExprNoEof(inside, e, 0);
      assert ts == [LParen] + inside + [RParen];
    }
  }

  lemma AroundNoEof(ts: seq<Token>, i: nat)
    requires i < |ts| && !ts[i].Eof? && NoEof(ts[..i]) && NoEof(ts[i + 1..])
    ensures NoEof(ts)
  {
    assert ts == ts[..i] + [ts[i]] + ts[i + 1..];
  }

  lemma PairNoEof(ts: seq<Token>, kv: (string, Expr))
    requires PairForm(ts, kv)
    ensures NoEof(ts)
  {
    hide Derives;
    ExprNoEof(ts[2..], kv.1, 0);
    assert ts == [ts[0], ts[1]] + ts[2..];
  }

  lemma {:induction false} MoreNoEof(ts: seq<Token>, pairs: seq<(string, Expr)>)
    requires MoreForm(ts, pairs)
    ensures NoEof(ts)
    decreases |pairs|
  {
    hide PairForm;
    if pairs != [] {
      var a, b :| AfterComma(ts, a, b) && PairForm(a, pairs[0]) && MoreForm(b, pairs[1..]);
      PairNoEof(a, pairs[0]);
      MoreNoEof(b, pairs[1..]);
    }
  }

  lemma PropertiesNoEof(ts: seq<Token>, props: map<string, Expr>)
    requires PropertiesForm(ts, props)
    ensures NoEof(ts)
  {
    hide PairForm, MoreForm, Collect;
    if !(ts == [] && props == map[]) && !(ts == [LBrace, RBrace] && props == map[]) {
      var a, b, kv, more :|
        Braced(ts, a, b) && PairForm(a, kv) && MoreForm(b, more) && props == Collect(map[kv.0 := kv.1], more);
      PairNoEof(a, kv);
      MoreNoEof(b, more);
    }
  }

  lemma NodeNoEof(ts: seq<Token>, n: NodePattern)
    requires NodeForm(ts, n)
    ensures NoEof(ts)
  {
    hide PropertiesForm;
    var c :| NodeAround(ts, n, c) && PropertiesForm(c, n.properties);
    PropertiesNoEof(c, n.properties);
  }

  lemma EdgeNoEof(ts: seq<Token>, e: EdgePattern)
    requires EdgeForm(ts, e)
    ensures NoEof(ts)
  {
    var b :| EdgeAround(ts, e.direction, b) && BodyForm(b, e.variable, e.edgeType);
    assert NoEof(b);
  }

  lemma {:induction false} PathNoEof(ts: seq<Token>, p: Pattern)
    requires PathForm(ts, p)
    ensures NoEof(ts)
    decreases |p|
  {
    hide NodeForm, EdgeForm;
    if |p| <= 1 {
      NodeNoEof(ts, p[0].node);
    } else {
      var n := |p|;
      var a, b, c :| Joined(ts, a, b, c) && PathForm(a, p[..n - 2])
                     && EdgeForm(b, p[n - 2].edge) && NodeForm(c, p[n - 1].node);
      PathNoEof(a, p[..n - 2]);
      EdgeNoEof(b, p[n - 2].edge);
      NodeNoEof(c, p[n - 1].node);
    }
  }

  lemma WhereNoEof(ts: seq<Token>, condition: Option<Expr>)
    requires WhereForm(ts, condition)
    ensures NoEof(ts)
  {
    hide Derives;
    if condition.Some? {
      ExprNoEof(ts[1..], condition.value, 0);
      assert ts == [ts[0]] + ts[1..];
    }
  }

  lemma ItemNoEof(i: ReturnItem)
    requires PrintableItem(i)
    ensures NoEof(PrintItem(i))
  {
  }

  lemma {:induction false} MoreItemsNoEof(items: seq<ReturnItem>)
    requires forall i :: 0 <= i < |items| ==> PrintableItem(items[i])
    ensures NoEof(PrintMoreItems(items))
  {
    hide PrintItem, PrintableItem;
    if items != [] {
      ItemNoEof(items[0]);
      MoreItemsNoEof(items[1..]);
    }
  }

  lemma {:induction false} MoreNamesNoEof(names: seq<string>)
    ensures NoEof(PrintMoreNames(names))
  {
    if names != [] {
      MoreNamesNoEof(names[1..]);
    }
  }

  lemma EndingNoEof(e: Ending)
    requires PrintableEnding(e)
    ensures NoEof(PrintEnding(e))
  {
    hide PrintItem, PrintMoreItems, PrintMoreNames;
    if e.ReturnEnding? {
      ItemNoEof(e.clause.items[0]);
      MoreItemsNoEof(e.clause.items[1..]);
    } else if e.DeleteEnding? {
      MoreNamesNoEof(e.names[1..]);
    }
  }

  /** No end marker is among the tokens of a statement. */
  lemma StatementNoEof(ts: seq<Token>, s: Statement)
    requires StatementForm(ts, s)
    ensures NoEof(ts)
  {
    hide PathForm, WhereForm, NodeForm, PrintEnding, PrintableEnding;
    match s
    case MatchStatement(p, condition, clause, names) =>
      var a, b, c, e :| Joined(ts, [KwMatch] + a, b, c) && PathForm(a, p) && WhereForm(b, condition)
                        && EndingForm(c, e, (clause, names));
      PathNoEof(a, p);
      WhereNoEof(b, condition);
      EndingNoEof(e);
    case CreateStatement(p) =>
      PathNoEof(ts[1..], p);
      assert ts == [ts[0]] + ts[1..];
    case MergeStatement(n) =>
      NodeNoEof(ts[1..], n);
      assert ts == [ts[0]] + ts[1..];
  }
}
