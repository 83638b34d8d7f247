/** Printing patterns and whole statements, and the proof that parsing undoes it. */
module Queries {
  import opened Bytes
  import opened Entries
  import opened Seqs
  import opened CypherAst
  import opened Grammar
  import opened Derivations
  import opened Printer

  // ----- texts: what was written down, with properties in the order they were written -----

  datatype NodeText = NodeText(variable: Option<string>, labelName: Option<string>, pairs: seq<(string, Expr)>)
  datatype StepText = StepText(edge: EdgePattern, node: NodeText)
  datatype PathText = PathText(first: NodeText, steps: seq<StepText>)
  datatype Ending = NoEnding | ReturnEnding(clause: ReturnClause) | DeleteEnding(names: seq<string>)
  datatype StatementText =
    | MatchText(path: PathText, condition: Option<Expr>, ending: Ending)
    | CreateText(path: PathText)
    | MergeText(node: NodeText)

  /** The property map: a repeated key takes its last value. */
  function Collect(props: map<string, Expr>, pairs: seq<(string, Expr)>): map<string, Expr>
    decreases |pairs|
  {
    if pairs == [] then props else Collect(props[pairs[0].0 := pairs[0].1], pairs[1..])
  }

  function NodeMeaning(t: NodeText): NodePattern
  {
    NodePattern(t.variable, t.labelName, Collect(map[], t.pairs))
  }

  function StepsMeaning(elements: Pattern, steps: seq<StepText>): Pattern
    decreases |steps|
  {
    if steps == [] then elements
    else StepsMeaning(elements + [EdgeElement(steps[0].edge), NodeElement(NodeMeaning(steps[0].node))], steps[1..])
  }

  function PathMeaning(t: PathText): Pattern
  {
    StepsMeaning([NodeElement(NodeMeaning(t.first))], t.steps)
  }

  function EndingMeaning(e: Ending): (Option<ReturnClause>, Option<seq<string>>)
  {
    (if e.ReturnEnding? then Some(e.clause) else None, if e.DeleteEnding? then Some(e.names) else None)
  }

  function StatementMeaning(t: StatementText): Statement
  {
    match t
    case MatchText(path, condition, ending) =>
      MatchStatement(PathMeaning(path), condition, EndingMeaning(ending).0, EndingMeaning(ending).1)
    case CreateText(path) => CreateStatement(PathMeaning(path))
    case MergeText(node) => MergeStatement(NodeMeaning(node))
  }

  // ----- printing -----

  function PrintPair(kv: (string, Expr)): seq<Token>
  {
    [Ident(kv.0), Colon] + Print(kv.1, 0)
  }

  function PrintMorePairs(pairs: seq<(string, Expr)>): seq<Token>
  {
    if pairs == [] then [] else [Comma] + PrintPair(pairs[0]) + PrintMorePairs(pairs[1..])
  }

  function PrintProperties(pairs: seq<(string, Expr)>): seq<Token>
  {
    if pairs == [] then [] else [LBrace] + PrintPair(pairs[0]) + PrintMorePairs(pairs[1..]) + [RBrace]
  }

  function PrintName(name: Option<string>): seq<Token>
  {
    if name.Some? then [Ident(name.value)] else []
  }

  function PrintTag(tag: Option<string>): seq<Token>
  {
    if tag.Some? then [Colon, Ident(tag.value)] else []
  }

  function PrintNode(t: NodeText): seq<Token>
  {
    [LParen] + PrintName(t.variable) + PrintTag(t.labelName) + PrintProperties(t.pairs) + [RParen]
  }

  function PrintEdgeBody(e: EdgePattern): seq<Token>
  {
    if e.variable.None? && e.edgeType.None? then []
    else [LBracket] + PrintName(e.variable) + PrintTag(e.edgeType) + [RBracket]
  }

  function PrintEdge(e: EdgePattern): seq<Token>
  {
    match e.direction
    case Left => [Lt, Dash] + PrintEdgeBody(e) + [Dash]
    case Right => [Dash] + PrintEdgeBody(e) + [Arrow]
    case Both => [Dash] + PrintEdgeBody(e) + [Dash]
  }

  function PrintSteps(steps: seq<StepText>): seq<Token>
  {
    if steps == [] then [] else PrintEdge(steps[0].edge) + PrintNode(steps[0].node) + PrintSteps(steps[1..])
  }

  function PrintPath(t: PathText): seq<Token>
  {
    PrintNode(t.first) + PrintSteps(t.steps)
  }

  predicate AtomItem(i: ReturnItem)
  {
    i.Variable? || i.PropertyItem?
  }

  predicate CountedItem(i: ReturnItem)
  {
    AtomItem(i) || (i.FunctionCall? && i.callee == "count" && AtomItem(i.argument))
  }

  /** The items the grammar can express: an access, a count of one, or either under an alias. */
  predicate PrintableItem(i: ReturnItem)
  {
    CountedItem(i) || (i.Alias? && CountedItem(i.item))
  }

  function PrintAtomItem(i: ReturnItem): seq<Token>
    requires AtomItem(i)
  {
    match i
    case Variable(name) => [Ident(name)]
    case PropertyItem(name, prop) => [Ident(name), Dot, Ident(prop)]
  }

  function PrintCounted(i: ReturnItem): seq<Token>
    requires CountedItem(i)
  {
    if i.FunctionCall? then [KwCount, LParen] + PrintAtomItem(i.argument) + [RParen] else PrintAtomItem(i)
  }

  function PrintItem(i: ReturnItem): seq<Token>
    requires PrintableItem(i)
  {
    if i.Alias? then PrintCounted(i.item) + [KwAs, Ident(i.name)] else PrintCounted(i)
  }

  function PrintMoreItems(items: seq<ReturnItem>): seq<Token>
    requires forall i :: 0 <= i < |items| ==> PrintableItem(items[i])
  {
    if items == [] then [] else [Comma] + PrintItem(items[0]) + PrintMoreItems(items[1..])
  }

  /** The number to write so that the wrapping cast gives the limit. */
  function LimitNumber(n: u64): i64
  {
    if n < 0x8000_0000_0000_0000 then n else n - U64
  }

  function PrintLimit(limit: Option<u64>): seq<Token>
  {
    if limit.Some? then [KwLimit, IntLit(LimitNumber(limit.value))] else []
  }

  predicate PrintableClause(c: ReturnClause)
  {
    c.items != [] && forall i :: 0 <= i < |c.items| ==> PrintableItem(c.items[i])
  }

  function PrintReturn(c: ReturnClause): seq<Token>
    requires PrintableClause(c)
  {
    [KwReturn] + PrintItem(c.items[0]) + PrintMoreItems(c.items[1..]) + PrintLimit(c.limit)
  }

  function PrintMoreNames(names: seq<string>): seq<Token>
  {
    if names == [] then [] else [Comma, Ident(names[0])] + PrintMoreNames(names[1..])
  }

  predicate PrintableEnding(e: Ending)
  {
    match e
    case NoEnding => true
    case ReturnEnding(clause) => PrintableClause(clause)
    case DeleteEnding(names) => names != []
  }

  function PrintEnding(e: Ending): seq<Token>
    requires PrintableEnding(e)
  {
    match e
    case NoEnding => []
    case ReturnEnding(clause) => PrintReturn(clause)
    case DeleteEnding(names) => [KwDelete, Ident(names[0])] + PrintMoreNames(names[1..])
  }

  function PrintWhere(condition: Option<Expr>): seq<Token>
  {
    if condition.Some? then [KwWhere] + Print(condition.value, 0) else []
  }

  predicate Printable(t: StatementText)
  {
    t.MatchText? ==> PrintableEnding(t.ending)
  }

  function PrintStatement(t: StatementText): seq<Token>
    requires Printable(t)
  {
    match t
    case MatchText(path, condition, ending) => [KwMatch] + PrintPath(path) + PrintWhere(condition) + PrintEnding(ending)
    case CreateText(path) => [KwCreate] + PrintPath(path)
    case MergeText(node) => [KwMerge] + PrintNode(node)
  }

  // ----- node patterns -----

  lemma PairRoundTrip(kv: (string, Expr), rest: seq<Token>)
    requires NoOperator(rest)
    ensures ParsePair(PrintPair(kv) + rest) == Done(kv, rest)
  {
    hide ParseExpr, Print;
    var r1 := Print(kv.1, 0) + rest;
    assert PrintPair(kv) + rest == [Ident(kv.0)] + ([Colon] + r1);
    Heads(Ident(kv.0), [Colon] + r1);
    Heads(Colon, r1);
    ExprRoundTrip(kv.1, rest);
  }

  lemma {:induction false} MorePairsRoundTrip(props: map<string, Expr>, pairs: seq<(string, Expr)>, rest: seq<Token>)
    requires Peek(rest).RBrace?
    ensures PairsTail(props, PrintMorePairs(pairs) + rest) == Done(Collect(props, pairs), rest)
    decreases |pairs|
  {
    hide ParsePair, PrintPair;
    if pairs == [] {
      assert PrintMorePairs(pairs) + rest == rest;
    } else {
      var after := PrintMorePairs(pairs[1..]) + rest;
      assert PrintMorePairs(pairs) + rest == [Comma] + (PrintPair(pairs[0]) + after);
      Heads(Comma, PrintPair(pairs[0]) + after);
      MorePairsHead(pairs[1..], rest);
      PairRoundTrip(pairs[0], after);
      MorePairsRoundTrip(props[pairs[0].0 := pairs[0].1], pairs[1..], rest);
    }
  }

  lemma MorePairsHead(pairs: seq<(string, Expr)>, rest: seq<Token>)
    requires Peek(rest).RBrace?
    ensures NoOperator(PrintMorePairs(pairs) + rest)
  {
    if pairs == [] {
      assert PrintMorePairs(pairs) + rest == rest;
    } else {
      assert Peek(PrintMorePairs(pairs) + rest) == Comma;
    }
  }

  lemma BracesParse(inside: seq<Token>, kv: (string, Expr), props: map<string, Expr>, after: seq<Token>,
                    rest: seq<Token>)
    requires Peek(inside).Ident? && ParsePair(inside) == Done(kv, after)
    requires PairsTail(map[kv.0 := kv.1], after) == Done(props, [RBrace] + rest)
    ensures OptionalProperties([LBrace] + inside) == Done(props, rest)
  {
    hide ParsePair, PairsTail;
    Heads(LBrace, inside);
    Heads(RBrace, rest);
  }

  lemma PropertiesRoundTrip(pairs: seq<(string, Expr)>, rest: seq<Token>)
    requires Peek(rest).RParen?
    ensures OptionalProperties(PrintProperties(pairs) + rest) == Done(Collect(map[], pairs), rest)
  {
    if pairs == [] {
      assert PrintProperties(pairs) + rest == rest;
    } else {
      hide ParsePair, PrintPair, PrintMorePairs, PairsTail, OptionalProperties;
      var closing := [RBrace] + rest;
      var after := PrintMorePairs(pairs[1..]) + closing;
      Regroup5([LBrace], PrintPair(pairs[0]), PrintMorePairs(pairs[1..]), [RBrace], rest);
      assert PrintProperties(pairs) + rest == [LBrace] + (PrintPair(pairs[0]) + after);
      PairStarts(pairs[0], after);
      MorePairsHead(pairs[1..], closing);
      PairRoundTrip(pairs[0], after);
      MorePairsRoundTrip(map[pairs[0].0 := pairs[0].1], pairs[1..], closing);
      BracesParse(PrintPair(pairs[0]) + after, pairs[0], Collect(map[], pairs), after, rest);
    }
  }

  lemma PairStarts(kv: (string, Expr), rest: seq<Token>)
    ensures Peek(PrintPair(kv) + rest).Ident?
  {
  }

  lemma NameRoundTrip(name: Option<string>, rest: seq<Token>)
    requires !Peek(rest).Ident?
    ensures OptionalIdent(PrintName(name) + rest) == Done(name, rest)
  {
    if name.Some? {
      Heads(Ident(name.value), rest);
    } else {
      assert PrintName(name) + rest == rest;
    }
  }

  lemma TagRoundTrip(tag: Option<string>, rest: seq<Token>)
    requires !Peek(rest).Colon?
    ensures OptionalTag(PrintTag(tag) + rest) == Done(tag, rest)
    ensures tag.Some? ==> Peek(PrintTag(tag) + rest) == Colon
    ensures tag.None? ==> PrintTag(tag) + rest == rest
  {
    if tag.Some? {
      assert PrintTag(tag) + rest == [Colon] + ([Ident(tag.value)] + rest);
      Heads(Colon, [Ident(tag.value)] + rest);
      Heads(Ident(tag.value), rest);
    } else {
      assert PrintTag(tag) + rest == rest;
    }
  }

  lemma NodeParses(v: Option<string>, tag: Option<string>, props: map<string, Expr>,
                   r1: seq<Token>, r2: seq<Token>, r3: seq<Token>, rest: seq<Token>)
    requires OptionalIdent(r1) == Done(v, r2) && OptionalTag(r2) == Done(tag, r3)
    requires OptionalProperties(r3) == Done(props, [RParen] + rest)
    ensures ParseNodePattern([LParen] + r1) == Done(NodePattern(v, tag, props), rest)
  {
    hide OptionalProperties, OptionalTag, OptionalIdent;
    Heads(LParen, r1);
    Heads(RParen, rest);
  }

  lemma NodeRoundTrip(t: NodeText, rest: seq<Token>)
    ensures ParseNodePattern(PrintNode(t) + rest) == Done(NodeMeaning(t), rest)
  {
    hide OptionalProperties, PrintProperties, OptionalTag, PrintTag, OptionalIdent, PrintName, Collect,
        ParseNodePattern;
    var r4 := [RParen] + rest;
    var r3 := PrintProperties(t.pairs) + r4;
    var r2 := PrintTag(t.labelName) + r3;
    var r1 := PrintName(t.variable) + r2;
    Regroup6([LParen], PrintName(t.variable), PrintTag(t.labelName), PrintProperties(t.pairs), [RParen], rest);
    Heads(RParen, rest);
    PropertiesStart(t.pairs, r4);
    PropertiesRoundTrip(t.pairs, r4);
    TagRoundTrip(t.labelName, r3);
    NameRoundTrip(t.variable, r2);
    NodeParses(t.variable, t.labelName, Collect(map[], t.pairs), r1, r2, r3, rest);
  }

  lemma PropertiesStart(pairs: seq<(string, Expr)>, rest: seq<Token>)
    ensures pairs != [] ==> Peek(PrintProperties(pairs) + rest) == LBrace
    ensures pairs == [] ==> PrintProperties(pairs) + rest == rest
  {
  }

  // ----- edges and paths -----

  lemma BracketsParse(v: Option<string>, tag: Option<string>, r1: seq<Token>, r2: seq<Token>, rest: seq<Token>)
    requires OptionalIdent(r1) == Done(v, r2) && OptionalTag(r2) == Done(tag, [RBracket] + rest)
    ensures EdgeBody([LBracket] + r1) == Done((v, tag), rest)
  {
    hide OptionalTag, OptionalIdent;
    Heads(LBracket, r1);
    Heads(RBracket, rest);
  }

  lemma EdgeBodyRoundTrip(e: EdgePattern, rest: seq<Token>)
    requires !Peek(rest).LBracket?
    ensures EdgeBody(PrintEdgeBody(e) + rest) == Done((e.variable, e.edgeType), rest)
  {
    if e.variable.None? && e.edgeType.None? {
      assert PrintEdgeBody(e) + rest == rest;
    } else {
      hide OptionalTag, PrintTag, OptionalIdent, PrintName, EdgeBody;
      var r3 := [RBracket] + rest;
      var r2 := PrintTag(e.edgeType) + r3;
      var r1 := PrintName(e.variable) + r2;
      Regroup5([LBracket], PrintName(e.variable), PrintTag(e.edgeType), [RBracket], rest);
      Heads(RBracket, rest);
      TagRoundTrip(e.edgeType, r3);
      NameRoundTrip(e.variable, r2);
      BracketsParse(e.variable, e.edgeType, r1, r2, rest);
    }
  }

  lemma EdgeRoundTrip(e: EdgePattern, rest: seq<Token>)
    ensures ParseEdgePattern(PrintEdge(e) + rest) == Done(e, rest)
    ensures Peek(PrintEdge(e) + rest) == if e.direction.Left? then Lt else Dash
  {
    hide EdgeBody, PrintEdgeBody;
    var closing := [if e.direction.Right? then Arrow else Dash] + rest;
    Heads(closing[0], rest);
    var r1 := PrintEdgeBody(e) + closing;
    EdgeBodyRoundTrip(e, closing);
    Heads(Dash, r1);
    if e.direction.Left? {
      assert PrintEdge(e) + rest == [Lt] + ([Dash] + r1);
      Heads(Lt, [Dash] + r1);
    } else {
      assert PrintEdge(e) + rest == [Dash] + r1;
    }
  }

  lemma {:induction false} StepsRoundTrip(elements: Pattern, steps: seq<StepText>, rest: seq<Token>)
    requires !Peek(rest).Dash? && !Peek(rest).Lt?
    ensures PatternTail(elements, PrintSteps(steps) + rest) == Done(StepsMeaning(elements, steps), rest)
    decreases |steps|
  {
    hide ParseEdgePattern, ParseNodePattern, PrintEdge, PrintNode, NodeMeaning;
    if steps == [] {
      assert PrintSteps(steps) + rest == rest;
    } else {
      var after := PrintSteps(steps[1..]) + rest;
      var r1 := PrintNode(steps[0].node) + after;
      assert PrintSteps(steps) + rest == PrintEdge(steps[0].edge) + r1;
      EdgeRoundTrip(steps[0].edge, r1);
      NodeRoundTrip(steps[0].node, after);
      StepsRoundTrip(elements + [EdgeElement(steps[0].edge), NodeElement(NodeMeaning(steps[0].node))], steps[1..],
          rest);
    }
  }

  /** Printing a path pattern and parsing it gives the same pattern and consumes exactly those tokens. */
  lemma PathRoundTrip(t: PathText, rest: seq<Token>)
    requires !Peek(rest).Dash? && !Peek(rest).Lt?
    ensures ParsePattern(PrintPath(t) + rest) == Done(PathMeaning(t), rest)
  {
    hide ParseNodePattern, PatternTail, PrintNode, PrintSteps, NodeMeaning, StepsMeaning;
    assert PrintPath(t) + rest == PrintNode(t.first) + (PrintSteps(t.steps) + rest);
    NodeRoundTrip(t.first, PrintSteps(t.steps) + rest);
    StepsRoundTrip([NodeElement(NodeMeaning(t.first))], t.steps, rest);
  }

  // ----- clauses -----

  lemma AtomItemRoundTrip(i: ReturnItem, rest: seq<Token>)
    requires AtomItem(i) && !Peek(rest).Dot?
    ensures ParseItemAtom(PrintAtomItem(i) + rest) == Done(i, rest)
    ensures Peek(PrintAtomItem(i) + rest).Ident?
  {
    match i
    case Variable(name) =>
      Heads(Ident(name), rest);
    case PropertyItem(name, prop) =>
      var r1 := [Ident(prop)] + rest;
      assert PrintAtomItem(i) + rest == [Ident(name)] + ([Dot] + r1);
      Heads(Ident(name), [Dot] + r1);
      Heads(Dot, r1);
      Heads(Ident(prop), rest);
  }

  lemma CountedRoundTrip(i: ReturnItem, rest: seq<Token>)
    requires CountedItem(i) && !Peek(rest).Dot?
    ensures ParseCounted(PrintCounted(i) + rest) == Done(i, rest)
  {
    hide ParseItemAtom, PrintAtomItem;
    if i.FunctionCall? {
      var closing := [RParen] + rest;
      var r1 := PrintAtomItem(i.argument) + closing;
      assert PrintCounted(i) + rest == [KwCount] + ([LParen] + r1);
      Heads(KwCount, [LParen] + r1);
      Heads(LParen, r1);
      Heads(RParen, rest);
      AtomItemRoundTrip(i.argument, closing);
    } else {
      AtomItemRoundTrip(i, rest);
    }
  }

  lemma ItemRoundTrip(i: ReturnItem, rest: seq<Token>)
    requires PrintableItem(i) && !Peek(rest).Dot? && !Peek(rest).KwAs?
    ensures ParseReturnItem(PrintItem(i) + rest) == Done(i, rest)
  {
    hide ParseCounted, PrintCounted;
    if i.Alias? {
      var r1 := [Ident(i.name)] + rest;
      assert PrintItem(i) + rest == PrintCounted(i.item) + ([KwAs] + r1);
      Heads(KwAs, r1);
      Heads(Ident(i.name), rest);
      CountedRoundTrip(i.item, [KwAs] + r1);
    } else {
      CountedRoundTrip(i, rest);
    }
  }

  /** What may follow the items of a RETURN clause. */
  predicate AfterItems(rest: seq<Token>)
  {
    Peek(rest).KwLimit? || Peek(rest).Eof?
  }

  lemma {:induction false} MoreItemsRoundTrip(done: seq<ReturnItem>, items: seq<ReturnItem>, rest: seq<Token>)
    requires (forall i :: 0 <= i < |items| ==> PrintableItem(items[i])) && AfterItems(rest)
    ensures ItemsTail(done, PrintMoreItems(items) + rest) == Done(done + items, rest)
    decreases |items|
  {
    hide ParseReturnItem, PrintItem, PrintableItem;
    if items == [] {
      assert PrintMoreItems(items) + rest == rest && done + items == done;
    } else {
      var after := PrintMoreItems(items[1..]) + rest;
      assert PrintMoreItems(items) + rest == [Comma] + (PrintItem(items[0]) + after);
      Heads(Comma, PrintItem(items[0]) + after);
      MoreItemsHead(items[1..], rest);
      ItemRoundTrip(items[0], after);
      MoreItemsRoundTrip(done + [items[0]], items[1..], rest);
      assert done + [items[0]] + items[1..] == done + items;
    }
  }

  lemma MoreItemsHead(items: seq<ReturnItem>, rest: seq<Token>)
    requires (forall i :: 0 <= i < |items| ==> PrintableItem(items[i])) && AfterItems(rest)
    ensures !Peek(PrintMoreItems(items) + rest).Dot? && !Peek(PrintMoreItems(items) + rest).KwAs?
  {
    hide PrintableItem, PrintItem;
    if items == [] {
      assert PrintMoreItems(items) + rest == rest;
    } else {
      assert Peek(PrintMoreItems(items) + rest) == Comma;
    }
  }

  lemma LimitRoundTrip(limit: Option<u64>, rest: seq<Token>)
    requires Peek(rest).Eof?
    ensures ParseLimit(PrintLimit(limit) + rest) == Done(limit, rest) && AfterItems(PrintLimit(limit) + rest)
  {
    if limit.Some? {
      var r1 := [IntLit(LimitNumber(limit.value))] + rest;
      assert PrintLimit(limit) + rest == [KwLimit] + r1;
      Heads(KwLimit, r1);
      Heads(IntLit(LimitNumber(limit.value)), rest);
    } else {
      assert PrintLimit(limit) + rest == rest;
    }
  }

  lemma ReturnRoundTrip(c: ReturnClause, rest: seq<Token>)
    requires PrintableClause(c) && Peek(rest).Eof?
    ensures ParseReturn(PrintReturn(c) + rest) == Done(c, rest)
  {
    hide ParseReturnItem, PrintItem, PrintableItem, PrintMoreItems, ItemsTail, ParseLimit, PrintLimit;
    var r3 := PrintLimit(c.limit) + rest;
    var r2 := PrintMoreItems(c.items[1..]) + r3;
    var r1 := PrintItem(c.items[0]) + r2;
    assert PrintReturn(c) + rest == [KwReturn] + r1;
    Heads(KwReturn, r1);
    LimitRoundTrip(c.limit, rest);
    MoreItemsHead(c.items[1..], r3);
    ItemRoundTrip(c.items[0], r2);
    MoreItemsRoundTrip([c.items[0]], c.items[1..], r3);
    assert [c.items[0]] + c.items[1..] == c.items;
  }

  lemma NamesStep(done: seq<string>, name: string, after: seq<Token>)
    ensures NamesTail(done, [Comma] + ([Ident(name)] + after)) == NamesTail(done + [name], after)
  {
    Heads(Comma, [Ident(name)] + after);
    Heads(Ident(name), after);
    hide Next, Peek;
  }

  lemma {:induction false} MoreNamesRoundTrip(done: seq<string>, names: seq<string>, rest: seq<Token>)
    requires !Peek(rest).Comma?
    ensures NamesTail(done, PrintMoreNames(names) + rest) == Done(done + names, rest)
    decreases |names|
  {
    if names == [] {
      assert PrintMoreNames(names) + rest == rest && done + names == done;
    } else {
      hide NamesTail;
      var after := PrintMoreNames(names[1..]) + rest;
      assert [Comma, Ident(names[0])] == [Comma] + [Ident(names[0])];
      Regroup4([Comma], [Ident(names[0])], PrintMoreNames(names[1..]), rest);
      NamesStep(done, names[0], after);
      MoreNamesRoundTrip(done + [names[0]], names[1..], rest);
      Regroup3(done, [names[0]], names[1..]);
      assert [names[0]] + names[1..] == names;
    }
  }

  lemma DeleteRoundTrip(names: seq<string>, rest: seq<Token>)
    requires names != [] && Peek(rest).Eof?
    ensures ParseDelete([KwDelete, Ident(names[0])] + PrintMoreNames(names[1..]) + rest) == Done(names, rest)
  {
    hide PrintMoreNames, NamesTail;
    var r2 := PrintMoreNames(names[1..]) + rest;
    var r1 := [Ident(names[0])] + r2;
    assert [KwDelete, Ident(names[0])] + PrintMoreNames(names[1..]) + rest == [KwDelete] + r1;
    Heads(KwDelete, r1);
    Heads(Ident(names[0]), r2);
    MoreNamesRoundTrip([names[0]], names[1..], rest);
    assert [names[0]] + names[1..] == names;
  }

  lemma EndingRoundTrip(e: Ending, rest: seq<Token>)
    requires PrintableEnding(e) && Peek(rest).Eof?
    ensures ParseEnding(PrintEnding(e) + rest) == Done(EndingMeaning(e), rest)
    ensures Peek(PrintEnding(e) + rest) == if e.ReturnEnding? then KwReturn else if e.DeleteEnding? then KwDelete
        else Eof
  {
    hide ParseReturn, ParseDelete, PrintMoreNames, PrintItem, PrintMoreItems, PrintLimit, PrintableItem;
    match e
    case NoEnding =>
      assert PrintEnding(e) + rest == rest;
    case ReturnEnding(clause) =>
      ReturnRoundTrip(clause, rest);
    case DeleteEnding(names) =>
      DeleteRoundTrip(names, rest);
  }

  lemma WhereRoundTrip(condition: Option<Expr>, rest: seq<Token>)
    requires NoOperator(rest) && !Peek(rest).KwWhere?
    ensures ParseWhere(PrintWhere(condition) + rest) == Done(condition, rest)
    ensures condition.Some? ==> Peek(PrintWhere(condition) + rest) == KwWhere
    ensures condition.None? ==> PrintWhere(condition) + rest == rest
  {
    hide ParseExpr, Print;
    if condition.Some? {
      assert PrintWhere(condition) + rest == [KwWhere] + (Print(condition.value, 0) + rest);
      Heads(KwWhere, Print(condition.value, 0) + rest);
      ExprRoundTrip(condition.value, rest);
    } else {
      assert PrintWhere(condition) + rest == rest;
    }
  }

  lemma MatchRoundTrip(t: StatementText, rest: seq<Token>)
    requires t.MatchText? && Printable(t) && Peek(rest).Eof?
    ensures ParseMatch(PrintStatement(t) + rest) == Done(StatementMeaning(t), rest)
  {
    hide ParsePattern, PrintPath, PathMeaning, ParseWhere, PrintWhere, ParseEnding, PrintEnding, PrintableEnding;
    var r3 := PrintEnding(t.ending) + rest;
    var r2 := PrintWhere(t.condition) + r3;
    var r1 := PrintPath(t.path) + r2;
    assert PrintStatement(t) + rest == [KwMatch] + r1;
    Heads(KwMatch, r1);
    EndingRoundTrip(t.ending, rest);
    WhereRoundTrip(t.condition, r3);
    PathRoundTrip(t.path, r2);
  }

  /** Printing a whole statement and parsing it gives the same statement and consumes all the tokens. */
  lemma StatementRoundTrip(t: StatementText)
    requires Printable(t)
    ensures ParseStatement(PrintStatement(t) + [Eof]) == Done(StatementMeaning(t), [])
  {
    hide ParsePattern, PrintPath, PathMeaning, ParseMatch, ParseNodePattern, PrintNode, NodeMeaning, PrintWhere,
        PrintEnding;
    match t
    case MatchText(path, condition, ending) =>
      MatchRoundTrip(t, [Eof]);
    case CreateText(path) =>
      assert PrintStatement(t) + [Eof] == [KwCreate] + (PrintPath(path) + [Eof]);
      Heads(KwCreate, PrintPath(path) + [Eof]);
      PathRoundTrip(path, [Eof]);
    case MergeText(node) =>
      assert PrintStatement(t) + [Eof] == [KwMerge] + (PrintNode(node) + [Eof]);
      Heads(KwMerge, PrintNode(node) + [Eof]);
      NodeRoundTrip(node, [Eof]);
  }

  // ----- every tree has a text -----

  /** Node, edge, node, and so on, as the parser builds paths. */
  predicate PathShape(p: Pattern)
  {
    |p| % 2 == 1 && forall i :: 0 <= i < |p| ==> if i % 2 == 0 then p[i].NodeElement? else p[i].EdgeElement?
  }

  lemma {:induction false} CollectPrefix(props: map<string, Expr>, pairs: seq<(string, Expr)>, kv: (string, Expr))
    ensures Collect(props, pairs + [kv]) == Collect(props, pairs)[kv.0 := kv.1]
    decreases |pairs|
  {
    if pairs == [] {
      assert pairs + [kv] == [kv] && [kv][1..] == [];
    } else {
      assert (pairs + [kv])[1..] == pairs[1..] + [kv];
      CollectPrefix(props[pairs[0].0 := pairs[0].1], pairs[1..], kv);
    }
  }

  lemma {:induction false} PropertiesText(props: map<string, Expr>) returns (pairs: seq<(string, Expr)>)
    ensures Collect(map[], pairs) == props
    decreases |props|
  {
    if props == map[] {
      pairs := [];
    } else {
      var k :| k in props;
      var smaller := props - {k};
      assert smaller.Keys == props.Keys - {k};
      pairs := PropertiesText(smaller);
      CollectPrefix(map[], pairs, (k, props[k]));
      pairs := pairs + [(k, props[k])];
      assert smaller[k := props[k]] == props;
    }
  }

  lemma NodeTextOf(n: NodePattern) returns (t: NodeText)
    ensures NodeMeaning(t) == n
  {
    var pairs := PropertiesText(n.properties);
    t := NodeText(n.variable, n.labelName, pairs);
  }

  lemma {:induction false} StepsText(elements: Pattern, tail: Pattern) returns (steps: seq<StepText>)
    requires |tail| % 2 == 0 && forall i :: 0 <= i < |tail| ==> if i % 2 == 0 then tail[i].EdgeElement?
        else tail[i].NodeElement?
    ensures StepsMeaning(elements, steps) == elements + tail
    decreases |tail|
  {
    if tail == [] {
      steps := [];
      assert elements + tail == elements;
    } else {
      var node := NodeTextOf(tail[1].node);
      var more := StepsText(elements + [tail[0], tail[1]], tail[2..]);
      steps := [StepText(tail[0].edge, node)] + more;
      assert steps[1..] == more;
      assert elements + [tail[0], tail[1]] + tail[2..] == elements + tail;
    }
  }

  /** So the round trip covers every path pattern, with properties written in any order. */
  lemma PathTextOf(p: Pattern) returns (t: PathText)
    requires PathShape(p)
    ensures PathMeaning(t) == p
  {
    var first := NodeTextOf(p[0].node);
    var steps := StepsText([p[0]], p[1..]);
    t := PathText(first, steps);
    assert [p[0]] + p[1..] == p;
  }

  lemma {:induction false} TailShape(elements: Pattern, ts: seq<Token>)
    requires PathShape(elements)
    ensures PatternTail(elements, ts).Done? ==> PathShape(PatternTail(elements, ts).value)
    decreases |ts|
  {
    hide ParseEdgePattern, ParseNodePattern;
    if Peek(ts).Dash? || Peek(ts).Lt? {
      match ParseEdgePattern(ts)
      case Fail =>
      case Done(edge, r1) =>
        match ParseNodePattern(r1)
        case Fail =>
        case Done(node, r2) => TailShape(elements + [EdgeElement(edge), NodeElement(node)], r2);
    }
  }

  /** Every path the parser returns has that shape, whatever the tokens. */
  lemma ParsedShape(ts: seq<Token>)
    ensures ParsePattern(ts).Done? ==> PathShape(ParsePattern(ts).value)
  {
    hide ParseNodePattern;
    match ParseNodePattern(ts)
    case Fail =>
    case Done(node, rest) => TailShape([NodeElement(node)], rest);
  }

  lemma CountedPrintable(ts: seq<Token>)
    ensures ParseCounted(ts).Done? ==> CountedItem(ParseCounted(ts).value)
  {
  }

  lemma ItemPrintable(ts: seq<Token>)
    ensures ParseReturnItem(ts).Done? ==> PrintableItem(ParseReturnItem(ts).value)
  {
    hide ParseCounted, CountedItem;
    CountedPrintable(ts);
  }

  lemma {:induction false} ItemsPrintable(items: seq<ReturnItem>, ts: seq<Token>)
    requires items != [] && forall i :: 0 <= i < |items| ==> PrintableItem(items[i])
    ensures ItemsTail(items, ts).Done? ==> PrintableClause(ReturnClause(ItemsTail(items, ts).value, None))
    decreases |ts|
  {
    hide ParseReturnItem, PrintableItem;
    if Peek(ts).Comma? {
      ItemPrintable(Next(ts));
      match ParseReturnItem(Next(ts))
      case Fail =>
      case Done(item, rest) => ItemsPrintable(items + [item], rest);
    }
  }

  lemma ReturnPrintable(ts: seq<Token>)
    ensures ParseReturn(ts).Done? ==> PrintableClause(ParseReturn(ts).value)
  {
    hide ParseReturnItem, ItemsTail, ParseLimit, PrintableItem;
    ItemPrintable(Next(ts));
    match ParseReturnItem(Next(ts))
    case Fail =>
    case Done(first, rest) => ItemsPrintable([first], rest);
  }

  lemma {:induction false} NamesKept(names: seq<string>, ts: seq<Token>)
    ensures NamesTail(names, ts).Done? ==> |NamesTail(names, ts).value| >= |names|
    decreases |ts|
  {
    if Peek(ts).Comma? && Peek(Next(ts)).Ident? {
      NamesKept(names + [Peek(Next(ts)).name], Next(Next(ts)));
    }
  }

  lemma DeletePrintable(ts: seq<Token>)
    ensures ParseDelete(ts).Done? ==> ParseDelete(ts).value != []
  {
    hide NamesTail;
    if Peek(Next(ts)).Ident? {
      NamesKept([Peek(Next(ts)).name], Next(Next(ts)));
    }
  }

  lemma EndingTextOf(ts: seq<Token>) returns (e: Ending)
    requires ParseEnding(ts).Done?
    ensures PrintableEnding(e) && EndingMeaning(e) == ParseEnding(ts).value
  {
    hide ParseReturn, ParseDelete, PrintableClause;
    if Peek(ts).KwReturn? {
      ReturnPrintable(ts);
      e := ReturnEnding(ParseReturn(ts).value);
    } else if Peek(ts).KwDelete? {
      DeletePrintable(ts);
      e := DeleteEnding(ParseDelete(ts).value);
    } else {
      e := NoEnding;
    }
  }

  lemma MatchTextOf(ts: seq<Token>) returns (t: StatementText)
    requires ParseMatch(ts).Done?
    ensures Printable(t) && StatementMeaning(t) == ParseMatch(ts).value
  {
    hide ParsePattern, ParseWhere, ParseEnding, PathShape, PathMeaning, EndingMeaning, PrintableEnding;
    ParsedShape(Next(ts));
    var pattern := ParsePattern(Next(ts));
    var condition := ParseWhere(pattern.rest);
    var path := PathTextOf(pattern.value);
    var ending := EndingTextOf(condition.rest);
    t := MatchText(path, condition.value, ending);
  }

  /** Every statement the parser returns, from whatever tokens, is what some printable text means; so printing that
      text gives tokens that parse to the same statement. */
  lemma StatementTextOf(ts: seq<Token>) returns (t: StatementText)
    requires ParseStatement(ts).Done?
    ensures Printable(t) && StatementMeaning(t) == ParseStatement(ts).value
    ensures ParseStatement(PrintStatement(t) + [Eof]) == Done(ParseStatement(ts).value, [])
  {
    hide ParseMatch, ParsePattern, ParseNodePattern, PathShape, PathMeaning, NodeMeaning, PrintStatement;
    if Peek(ts).KwMatch? {
      t := MatchTextOf(ts);
    } else if Peek(ts).KwCreate? {
      ParsedShape(Next(ts));
      var path := PathTextOf(ParsePattern(Next(ts)).value);
      t := CreateText(path);
    } else {
      var node := NodeTextOf(ParseNodePattern(Next(ts)).value);
      t := MergeText(node);
    }
    StatementRoundTrip(t);
  }
}
