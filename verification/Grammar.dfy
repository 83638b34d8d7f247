/** What the parser computes, as functions from the tokens still ahead. */
module Grammar {
  import opened Bytes
  import opened Entries
  import opened CypherAst

  /** A parsed value and the tokens after it. */
  datatype Parsed<+T> = Done(value: T, rest: seq<Token>) | Fail

  function Peek(ts: seq<Token>): Token
  {
    if ts == [] then Eof else ts[0]
  }

  function Next(ts: seq<Token>): (rest: seq<Token>)
    ensures |rest| <= |ts|
  {
    if ts == [] then [] else ts[1..]
  }

  /** Consumes one token of the expected kind; only kinds without contents are expected. */
  function Expect(ts: seq<Token>, expected: Token): (p: Parsed<()>)
    ensures p.Done? ==> p.rest == Next(ts) && Peek(ts) == expected
  {
    if Peek(ts) == expected then Done((), Next(ts)) else Fail
  }

  function ExpectIdent(ts: seq<Token>): (p: Parsed<string>)
    ensures p.Done? ==> p.rest == Next(ts) && |p.rest| < |ts|
  {
    if Peek(ts).Ident? then Done(Peek(ts).name, Next(ts)) else Fail
  }

  // ----- expressions -----

  function ParseExpr(ts: seq<Token>): (p: Parsed<Expr>)
    ensures p.Done? ==> |p.rest| < |ts|
    decreases |ts|, 5
  {
    ParseOr(ts)
  }

  function ParseOr(ts: seq<Token>): (p: Parsed<Expr>)
    ensures p.Done? ==> |p.rest| < |ts|
    decreases |ts|, 4
  {
    match ParseAnd(ts)
    case Fail => Fail
    case Done(left, rest) => OrTail(left, rest)
  }

  function OrTail(left: Expr, ts: seq<Token>): (p: Parsed<Expr>)
    ensures p.Done? ==> |p.rest| <= |ts|
    decreases |ts|, 0
  {
    if !Peek(ts).KwOr? then Done(left, ts)
    else
      match ParseAnd(Next(ts))
      case Fail => Fail
      case Done(right, rest) => OrTail(Or(left, right), rest)
  }

  function ParseAnd(ts: seq<Token>): (p: Parsed<Expr>)
    ensures p.Done? ==> |p.rest| < |ts|
    decreases |ts|, 3
  {
    match ParseNot(ts)
    case Fail => Fail
    case Done(left, rest) => AndTail(left, rest)
  }

  function AndTail(left: Expr, ts: seq<Token>): (p: Parsed<Expr>)
    ensures p.Done? ==> |p.rest| <= |ts|
    decreases |ts|, 0
  {
    if !Peek(ts).KwAnd? then Done(left, ts)
    else
      match ParseNot(Next(ts))
      case Fail => Fail
      case Done(right, rest) => AndTail(And(left, right), rest)
  }

  function ParseNot(ts: seq<Token>): (p: Parsed<Expr>)
    ensures p.Done? ==> |p.rest| < |ts|
    decreases |ts|, 2
  {
    if Peek(ts).KwNot? then
      match ParseNot(Next(ts))
      case Fail => Fail
      case Done(inner, rest) => Done(Not(inner), rest)
    else ParseComparison(ts)
  }

  function ComparisonOp(t: Token): Option<CmpOp>
  {
    match t
    case Eq => Some(OpEq)
    case Neq => Some(OpNeq)
    case Lt => Some(OpLt)
    case Gt => Some(OpGt)
    case Lte => Some(OpLte)
    case Gte => Some(OpGte)
    case _ => None
  }

  function ParseComparison(ts: seq<Token>): (p: Parsed<Expr>)
    ensures p.Done? ==> |p.rest| < |ts|
    decreases |ts|, 1
  {
    match ParseAtom(ts)
    case Fail => Fail
    case Done(left, rest) =>
      match ComparisonOp(Peek(rest))
      case None => Done(left, rest)
      case Some(op) =>
        match ParseAtom(Next(rest))
        case Fail => Fail
        case Done(right, rest') => Done(Comparison(left, op, right), rest')
  }

  /** A literal, a property access, or a parenthesized expression; a bare identifier is refused. */
  function ParseAtom(ts: seq<Token>): (p: Parsed<Expr>)
    ensures p.Done? ==> |p.rest| < |ts|
    decreases |ts|, 0
  {
    match Peek(ts)
    case IntLit(n) => Done(Literal(IntValue(n)), Next(ts))
    case FloatLit(f) => Done(Literal(FloatValue(f)), Next(ts))
    case StringLit(s) => Done(Literal(StringValue(s)), Next(ts))
    case KwTrue => Done(Literal(BoolValue(true)), Next(ts))
    case KwFalse => Done(Literal(BoolValue(false)), Next(ts))
    case KwNull => Done(Literal(NullValue), Next(ts))
    case Ident(name) => ParseAccess(name, Next(ts))
    case LParen => ParseParenthesized(Next(ts))
    case _ => Fail
  }

  function ParseAccess(name: string, ts: seq<Token>): (p: Parsed<Expr>)
    ensures p.Done? ==> |p.rest| < |ts|
  {
    if !Peek(ts).Dot? then Fail
    else
      match ExpectIdent(Next(ts))
      case Fail => Fail
      case Done(prop, rest) => Done(Property(name, prop), rest)
  }

  function ParseParenthesized(ts: seq<Token>): (p: Parsed<Expr>)
    ensures p.Done? ==> |p.rest| < |ts|
    decreases |ts|, 6
  {
    match ParseExpr(ts)
    case Fail => Fail
    case Done(inner, rest) =>
      match Expect(rest, RParen)
      case Fail => Fail
      case Done(_, rest') => Done(inner, rest')
  }

  // ----- patterns -----

  function ParsePair(ts: seq<Token>): (p: Parsed<(string, Expr)>)
    ensures p.Done? ==> |p.rest| < |ts|
  {
    match ExpectIdent(ts)
    case Fail => Fail
    case Done(key, rest) =>
      match Expect(rest, Colon)
      case Fail => Fail
      case Done(_, rest') =>
        match ParseExpr(rest')
        case Fail => Fail
        case Done(value, rest'') => Done((key, value), rest'')
  }

  /** `, key: value` as often as it comes; a repeated key takes its last value. */
  function PairsTail(props: map<string, Expr>, ts: seq<Token>): (p: Parsed<map<string, Expr>>)
    ensures p.Done? ==> |p.rest| <= |ts|
    decreases |ts|
  {
    if !Peek(ts).Comma? then Done(props, ts)
    else
      match ParsePair(Next(ts))
      case Fail => Fail
      case Done(kv, rest) => PairsTail(props[kv.0 := kv.1], rest)
  }

  /** The inside of the braces, which may be empty. */
  function ParsePairs(ts: seq<Token>): (p: Parsed<map<string, Expr>>)
    ensures p.Done? ==> |p.rest| <= |ts|
  {
    if Peek(ts).RBrace? then Done(map[], ts)
    else
      match ParsePair(ts)
      case Fail => Fail
      case Done(kv, rest) => PairsTail(map[kv.0 := kv.1], rest)
  }

  function ParseProperties(ts: seq<Token>): (p: Parsed<map<string, Expr>>)
    ensures p.Done? ==> |p.rest| < |ts|
  {
    match Expect(ts, LBrace)
    case Fail => Fail
    case Done(_, r1) =>
      match ParsePairs(r1)
      case Fail => Fail
      case Done(props, r2) =>
        match Expect(r2, RBrace)
        case Fail => Fail
        case Done(_, r3) => Done(props, r3)
  }

  function OptionalIdent(ts: seq<Token>): (p: Parsed<Option<string>>)
    ensures p.Done? && |p.rest| <= |ts|
  {
    if Peek(ts).Ident? then Done(Some(Peek(ts).name), Next(ts)) else Done(None, ts)
  }

  /** A colon and a name, or nothing. */
  function OptionalTag(ts: seq<Token>): (p: Parsed<Option<string>>)
    ensures p.Done? ==> |p.rest| <= |ts|
  {
    if !Peek(ts).Colon? then Done(None, ts)
    else
      match ExpectIdent(Next(ts))
      case Fail => Fail
      case Done(name, rest) => Done(Some(name), rest)
  }

  function OptionalProperties(ts: seq<Token>): (p: Parsed<map<string, Expr>>)
    ensures p.Done? ==> |p.rest| <= |ts|
  {
    if Peek(ts).LBrace? then ParseProperties(ts) else Done(map[], ts)
  }

  function ParseNodePattern(ts: seq<Token>): (p: Parsed<NodePattern>)
    ensures p.Done? ==> |p.rest| < |ts|
  {
    match Expect(ts, LParen)
    case Fail => Fail
    case Done(_, r1) =>
      var v := OptionalIdent(r1);
      match OptionalTag(v.rest)
      case Fail => Fail
      case Done(tag, r2) =>
        match OptionalProperties(r2)
        case Fail => Fail
        case Done(props, r3) =>
          match Expect(r3, RParen)
          case Fail => Fail
          case Done(_, r4) => Done(NodePattern(v.value, tag, props), r4)
  }

  /** The bracketed middle of an edge, if it has one. */
  function EdgeBody(ts: seq<Token>): (p: Parsed<(Option<string>, Option<string>)>)
    ensures p.Done? ==> |p.rest| <= |ts|
  {
    if !Peek(ts).LBracket? then Done((None, None), ts)
    else
      var v := OptionalIdent(Next(ts));
      match OptionalTag(v.rest)
      case Fail => Fail
      case Done(tag, rest) =>
        match Expect(rest, RBracket)
        case Fail => Fail
        case Done(_, rest') => Done((v.value, tag), rest')
  }

  /** The closing of an edge that did not start with `<`: an arrow, a dash, or nothing. */
  function EdgeEnd(ts: seq<Token>): (p: Parsed<EdgeDirection>)
    ensures p.Done? && |p.rest| <= |ts|
  {
    if Peek(ts).Arrow? then Done(Right, Next(ts))
    else if Peek(ts).Dash? then Done(Both, Next(ts))
    else Done(Both, ts)
  }

  function ParseEdgePattern(ts: seq<Token>): (p: Parsed<EdgePattern>)
    ensures p.Done? ==> |p.rest| < |ts|
  {
    var leftArrow := Peek(ts).Lt?;
    match Expect(if leftArrow then Next(ts) else ts, Dash)
    case Fail => Fail
    case Done(_, r1) =>
      match EdgeBody(r1)
      case Fail => Fail
      case Done(body, r2) =>
        if leftArrow then
          match Expect(r2, Dash)
          case Fail => Fail
          case Done(_, r3) => Done(EdgePattern(body.0, body.1, Left), r3)
        else
          var e := EdgeEnd(r2);
          Done(EdgePattern(body.0, body.1, e.value), e.rest)
  }

  function PatternTail(elements: Pattern, ts: seq<Token>): (p: Parsed<Pattern>)
    ensures p.Done? ==> |p.rest| <= |ts|
    decreases |ts|
  {
    if !Peek(ts).Dash? && !Peek(ts).Lt? then Done(elements, ts)
    else
      match ParseEdgePattern(ts)
      case Fail => Fail
      case Done(edge, r1) =>
        match ParseNodePattern(r1)
        case Fail => Fail
        case Done(node, r2) => PatternTail(elements + [EdgeElement(edge), NodeElement(node)], r2)
  }

  function ParsePattern(ts: seq<Token>): (p: Parsed<Pattern>)
    ensures p.Done? ==> |p.rest| < |ts|
  {
    match ParseNodePattern(ts)
    case Fail => Fail
    case Done(node, rest) => PatternTail([NodeElement(node)], rest)
  }

  // ----- clauses -----

  function ParseItemAtom(ts: seq<Token>): (p: Parsed<ReturnItem>)
    ensures p.Done? ==> |p.rest| < |ts|
  {
    match ExpectIdent(ts)
    case Fail => Fail
    case Done(name, rest) =>
      if !Peek(rest).Dot? then Done(Variable(name), rest)
      else
        match ExpectIdent(Next(rest))
        case Fail => Fail
        case Done(prop, rest') => Done(PropertyItem(name, prop), rest')
  }

  function ParseCounted(ts: seq<Token>): (p: Parsed<ReturnItem>)
    ensures p.Done? ==> |p.rest| < |ts|
  {
    if !Peek(ts).KwCount? then ParseItemAtom(ts)
    else
      match Expect(Next(ts), LParen)
      case Fail => Fail
      case Done(_, r1) =>
        match ParseItemAtom(r1)
        case Fail => Fail
        case Done(inner, r2) =>
          match Expect(r2, RParen)
          case Fail => Fail
          case Done(_, r3) => Done(FunctionCall("count", inner), r3)
  }

  function ParseReturnItem(ts: seq<Token>): (p: Parsed<ReturnItem>)
    ensures p.Done? ==> |p.rest| < |ts|
  {
    match ParseCounted(ts)
    case Fail => Fail
    case Done(item, rest) =>
      if !Peek(rest).KwAs? then Done(item, rest)
      else
        match ExpectIdent(Next(rest))
        case Fail => Fail
        case Done(alias, rest') => Done(Alias(item, alias), rest')
  }

  function ItemsTail(items: seq<ReturnItem>, ts: seq<Token>): (p: Parsed<seq<ReturnItem>>)
    ensures p.Done? ==> |p.rest| <= |ts|
    decreases |ts|
  {
    if !Peek(ts).Comma? then Done(items, ts)
    else
      match ParseReturnItem(Next(ts))
      case Fail => Fail
      case Done(item, rest) => ItemsTail(items + [item], rest)
  }

  /** The cast of the limit to an unsigned 64-bit number wraps. */
  function AsU64(n: i64): u64
  {
    if n < 0 then n + U64 else n
  }

  function ParseLimit(ts: seq<Token>): (p: Parsed<Option<u64>>)
    ensures p.Done? ==> |p.rest| <= |ts|
  {
    if !Peek(ts).KwLimit? then Done(None, ts)
    else if Peek(Next(ts)).IntLit? then Done(Some(AsU64(Peek(Next(ts)).number)), Next(Next(ts)))
    else Fail
  }

  function ParseReturn(ts: seq<Token>): (p: Parsed<ReturnClause>)
    ensures p.Done? ==> |p.rest| < |ts|
  {
    match Expect(ts, KwReturn)
    case Fail => Fail
    case Done(_, r1) =>
      match ParseReturnItem(r1)
      case Fail => Fail
      case Done(first, r2) =>
        match ItemsTail([first], r2)
        case Fail => Fail
        case Done(items, r3) =>
          match ParseLimit(r3)
          case Fail => Fail
          case Done(limit, r4) => Done(ReturnClause(items, limit), r4)
  }

  function NamesTail(names: seq<string>, ts: seq<Token>): (p: Parsed<seq<string>>)
    ensures p.Done? ==> |p.rest| <= |ts|
    decreases |ts|
  {
    if !Peek(ts).Comma? then Done(names, ts)
    else
      match ExpectIdent(Next(ts))
      case Fail => Fail
      case Done(name, rest) => NamesTail(names + [name], rest)
  }

  function ParseDelete(ts: seq<Token>): (p: Parsed<seq<string>>)
    ensures p.Done? ==> |p.rest| < |ts|
  {
    match Expect(ts, KwDelete)
    case Fail => Fail
    case Done(_, r1) =>
      match ExpectIdent(r1)
      case Fail => Fail
      case Done(first, r2) => NamesTail([first], r2)
  }

  function ParseWhere(ts: seq<Token>): (p: Parsed<Option<Expr>>)
    ensures p.Done? ==> |p.rest| <= |ts|
  {
    if !Peek(ts).KwWhere? then Done(None, ts)
    else
      match ParseExpr(Next(ts))
      case Fail => Fail
      case Done(e, rest) => Done(Some(e), rest)
  }

  /** A RETURN clause, a DELETE clause, or neither. */
  function ParseEnding(ts: seq<Token>): (p: Parsed<(Option<ReturnClause>, Option<seq<string>>)>)
    ensures p.Done? ==> |p.rest| <= |ts|
  {
    if Peek(ts).KwReturn? then
      match ParseReturn(ts)
      case Fail => Fail
      case Done(clause, rest) => Done((Some(clause), None), rest)
    else if Peek(ts).KwDelete? then
      match ParseDelete(ts)
      case Fail => Fail
      case Done(names, rest) => Done((None, Some(names)), rest)
    else Done((None, None), ts)
  }

  function ParseMatch(ts: seq<Token>): Parsed<Statement>
  {
    match Expect(ts, KwMatch)
    case Fail => Fail
    case Done(_, r1) =>
      match ParsePattern(r1)
      case Fail => Fail
      case Done(pattern, r2) =>
        match ParseWhere(r2)
        case Fail => Fail
        case Done(condition, r3) =>
          match ParseEnding(r3)
          case Fail => Fail
          case Done(ending, r4) => Done(MatchStatement(pattern, condition, ending.0, ending.1), r4)
  }

  function ParseCreate(ts: seq<Token>): Parsed<Statement>
  {
    match Expect(ts, KwCreate)
    case Fail => Fail
    case Done(_, r1) =>
      match ParsePattern(r1)
      case Fail => Fail
      case Done(pattern, r2) => Done(CreateStatement(pattern), r2)
  }

  function ParseMerge(ts: seq<Token>): Parsed<Statement>
  {
    match Expect(ts, KwMerge)
    case Fail => Fail
    case Done(_, r1) =>
      match ParseNodePattern(r1)
      case Fail => Fail
      case Done(node, r2) => Done(MergeStatement(node), r2)
  }

  function ParseStatement(ts: seq<Token>): Parsed<Statement>
  {
    var p :=
      if Peek(ts).KwMatch? then ParseMatch(ts)
      else if Peek(ts).KwCreate? then ParseCreate(ts)
      else if Peek(ts).KwMerge? then ParseMerge(ts)
      else Fail;
    match p
    case Fail => Fail
    case Done(s, rest) =>
      match Expect(rest, Eof)
      case Fail => Fail
      case Done(_, rest') => Done(s, rest')
  }

  // ----- each loop, one round at a time -----

  lemma PatternOver(elements: Pattern, ts: seq<Token>)
    requires !Peek(ts).Dash? && !Peek(ts).Lt?
    ensures PatternTail(elements, ts) == Done(elements, ts)
  {
  }

  /** One more edge and node of a path. */
  lemma PatternOnward(elements: Pattern, ts: seq<Token>)
    requires Peek(ts).Dash? || Peek(ts).Lt?
    ensures var p := ParseEdgePattern(ts);
            if p.Fail? then PatternTail(elements, ts) == Fail
            else
              var q := ParseNodePattern(p.rest);
              if q.Fail? then PatternTail(elements, ts) == Fail
              else
                && |q.rest| < |ts|
                && PatternTail(elements, ts)
                   == PatternTail(elements + [EdgeElement(p.value)] + [NodeElement(q.value)], q.rest)
  {
    hide ParseEdgePattern, ParseNodePattern;
    var p := ParseEdgePattern(ts);
    if p.Done? {
      var q := ParseNodePattern(p.rest);
      if q.Done? {
        assert elements + [EdgeElement(p.value)] + [NodeElement(q.value)]
            == elements + [EdgeElement(p.value), NodeElement(q.value)];
      }
    }
  }

  lemma ItemsOver(items: seq<ReturnItem>, ts: seq<Token>)
    requires !Peek(ts).Comma?
    ensures ItemsTail(items, ts) == Done(items, ts)
  {
  }

  /** One more return item. */
  lemma ItemsOnward(items: seq<ReturnItem>, ts: seq<Token>)
    requires Peek(ts).Comma?
    ensures var p := ParseReturnItem(Next(ts));
            if p.Fail? then ItemsTail(items, ts) == Fail
            else |p.rest| < |ts| && ItemsTail(items, ts) == ItemsTail(items + [p.value], p.rest)
  {
    hide ParseReturnItem;
  }

  lemma NamesOver(names: seq<string>, ts: seq<Token>)
    requires !Peek(ts).Comma?
    ensures NamesTail(names, ts) == Done(names, ts)
  {
  }

  /** One more name. */
  lemma NamesOnward(names: seq<string>, ts: seq<Token>)
    requires Peek(ts).Comma?
    ensures if !Peek(Next(ts)).Ident? then NamesTail(names, ts) == Fail
            else
              && |Next(Next(ts))| < |ts|
              && NamesTail(names, ts) == NamesTail(names + [Peek(Next(ts)).name], Next(Next(ts)))
  {
  }

  lemma PairsOver(props: map<string, Expr>, ts: seq<Token>)
    requires !Peek(ts).Comma?
    ensures PairsTail(props, ts) == Done(props, ts)
  {
  }

  /** One more pair. */
  lemma PairsOnward(props: map<string, Expr>, ts: seq<Token>)
    requires Peek(ts).Comma?
    ensures var p := ParsePair(Next(ts));
            if p.Fail? then PairsTail(props, ts) == Fail
            else |p.rest| < |ts| && PairsTail(props, ts) == PairsTail(props[p.value.0 := p.value.1], p.rest)
  {
    hide ParsePair;
  }
}
