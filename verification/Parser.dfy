/** The recursive-descent parser, each method proved against its grammar function. */
module Parsers {
  import opened Bytes
  import opened Entries
  import opened Results
  import opened CypherAst
  import opened Grammar

  /** A method's result and the tokens left agree with the grammar. */
  ghost predicate Agrees<T>(p: Parsed<T>, r: Result<T>, rest: seq<Token>)
  {
    match p
    case Done(v, rest') => r == Ok(v) && rest == rest'
    case Fail => r.Err?
  }

  class Parser {
    const tokens: seq<Token>
    var pos: nat

    constructor (tokens: seq<Token>)
      ensures this.tokens == tokens && pos == 0 && Rest() == tokens
    {
      this.tokens, pos := tokens, 0;
    }

    ghost function Rest(): seq<Token>
      reads this
    {
      if pos <= |tokens| then tokens[pos..] else []
    }

    // ----- helpers -----

    /** The token ahead; past the end it is `Eof`. */
    function PeekToken(): (t: Token)
      reads this
      ensures t == Peek(Rest())
    {
      if pos < |tokens| then tokens[pos] else Eof
    }

    method Advance() returns (tok: Token)
      modifies this`pos
      ensures tok == Peek(old(Rest())) && Rest() == Next(old(Rest()))
    {
      tok := PeekToken();
      pos := pos + 1;
    }

    method ExpectToken(expected: Token) returns (r: Result<()>)
      modifies this`pos
      ensures Agrees(Expect(old(Rest()), expected), r, Rest()) && Rest() == Next(old(Rest()))
    {
      var tok := Advance();
      if tok == expected {
        return Ok(());
      }
      return Err(ParseError(pos));
    }

    method ExpectName() returns (r: Result<string>)
      modifies this`pos
      ensures Agrees(ExpectIdent(old(Rest())), r, Rest()) && Rest() == Next(old(Rest()))
    {
      var tok := Advance();
      if tok.Ident? {
        return Ok(tok.name);
      }
      return Err(ParseError(pos));
    }

    // ----- expressions -----

    method ParseExpression() returns (r: Result<Expr>)
      modifies this`pos
      ensures Agrees(ParseExpr(old(Rest())), r, Rest())
      decreases |Rest()|, 5
    {
      r := ParseOrExpr();
    }

    method ParseOrExpr() returns (r: Result<Expr>)
      modifies this`pos
      ensures Agrees(ParseOr(old(Rest())), r, Rest())
      decreases |Rest()|, 4
    {
      var left :- ParseAndExpr();
      while PeekToken().KwOr?
        invariant ParseOr(old(Rest())) == OrTail(left, Rest()) && |Rest()| < |old(Rest())|
        decreases |Rest()|
      {
        var _ := Advance();
        var right :- ParseAndExpr();
        left := Or(left, right);
      }
      return Ok(left);
    }

    method ParseAndExpr() returns (r: Result<Expr>)
      modifies this`pos
      ensures Agrees(ParseAnd(old(Rest())), r, Rest())
      decreases |Rest()|, 3
    {
      var left :- ParseNotExpr();
      while PeekToken().KwAnd?
        invariant ParseAnd(old(Rest())) == AndTail(left, Rest()) && |Rest()| < |old(Rest())|
        decreases |Rest()|
      {
        var _ := Advance();
        var right :- ParseNotExpr();
        left := And(left, right);
      }
      return Ok(left);
    }

    method ParseNotExpr() returns (r: Result<Expr>)
      modifies this`pos
      ensures Agrees(ParseNot(old(Rest())), r, Rest())
      decreases |Rest()|, 2
    {
      if PeekToken().KwNot? {
        var _ := Advance();
        var inner :- ParseNotExpr();
        return Ok(Not(inner));
      }
      r := ParseComparisonExpr();
    }

    method ParseComparisonExpr() returns (r: Result<Expr>)
      modifies this`pos
      ensures Agrees(ParseComparison(old(Rest())), r, Rest())
      decreases |Rest()|, 1
    {
      var left :- ParseAtomExpr();
      var op := ComparisonOp(PeekToken());
      if op.Some? {
        var _ := Advance();
        var right :- ParseAtomExpr();
        return Ok(Comparison(left, op.value, right));
      }
      return Ok(left);
    }

    method ParseAtomExpr() returns (r: Result<Expr>)
      modifies this`pos
      ensures Agrees(ParseAtom(old(Rest())), r, Rest())
      decreases |Rest()|, 0
    {
      match PeekToken() {
        case IntLit(n) =>
          var _ := Advance();
          return Ok(Literal(IntValue(n)));
        case FloatLit(f) =>
          var _ := Advance();
          return Ok(Literal(FloatValue(f)));
        case StringLit(s) =>
          var _ := Advance();
          return Ok(Literal(StringValue(s)));
        case KwTrue =>
          var _ := Advance();
          return Ok(Literal(BoolValue(true)));
        case KwFalse =>
          var _ := Advance();
          return Ok(Literal(BoolValue(false)));
        case KwNull =>
          var _ := Advance();
          return Ok(Literal(NullValue));
        case Ident(name) =>
          var _ := Advance();
          if PeekToken().Dot? {
            var _ := Advance();
            var prop :- ExpectName();
            return Ok(Property(name, prop));
          }
          return Err(ParseError(pos));
        case LParen =>
          var _ := Advance();
          var inner :- ParseExpression();
          var _ :- ExpectToken(RParen);
          return Ok(inner);
        case _ =>
          return Err(ParseError(pos));
      }
    }

    // ----- patterns -----

    /** `key: value`. */
    method TakePair() returns (r: Result<(string, Expr)>)
      modifies this`pos
      ensures Agrees(ParsePair(old(Rest())), r, Rest())
    {
      hide ParseExpr;
      var key :- ExpectName();
      var _ :- ExpectToken(Colon);
      var value :- ParseExpression();
      return Ok((key, value));
    }

    method ParsePropertyMap() returns (r: Result<map<string, Expr>>)
      modifies this`pos
      ensures Agrees(ParseProperties(old(Rest())), r, Rest())
    {
      hide ParsePair;
      var _ :- ExpectToken(LBrace);
      ghost var inside := Rest();
      var props: map<string, Expr> := map[];
      if !PeekToken().RBrace? {
        var pair :- TakePair();
        props := props[pair.0 := pair.1];
        while PeekToken().Comma?
          invariant ParsePairs(inside) == PairsTail(props, Rest())
          decreases |Rest()|
        {
          var _ := Advance();
          pair :- TakePair();
          props := props[pair.0 := pair.1];
        }
      }
      assert ParsePairs(inside) == Done(props, Rest());
      hide ParsePairs;
      var _ :- ExpectToken(RBrace);
      return Ok(props);
    }

    /** The optional variable of a node or an edge. */
    method TakeName() returns (name: Option<string>)
      modifies this`pos
      ensures OptionalIdent(old(Rest())) == Done(name, Rest())
    {
      if PeekToken().Ident? {
        var tok := Advance();
        return Some(tok.name);
      }
      return None;
    }

    /** The optional label of a node, or type of an edge. */
    method TakeTag() returns (r: Result<Option<string>>)
      modifies this`pos
      ensures Agrees(OptionalTag(old(Rest())), r, Rest())
    {
      if PeekToken().Colon? {
        var _ := Advance();
        var name :- ExpectName();
        return Ok(Some(name));
      }
      return Ok(None);
    }

    method ParseNode() returns (r: Result<NodePattern>)
      modifies this`pos
      ensures Agrees(ParseNodePattern(old(Rest())), r, Rest())
    {
      hide ParseProperties, OptionalTag, OptionalIdent;
      var _ :- ExpectToken(LParen);
      var variable := TakeName();
      var labelName :- TakeTag();
      ghost var beforeMap := Rest();
      var properties: map<string, Expr> := map[];
      if PeekToken().LBrace? {
        properties :- ParsePropertyMap();
      }
      assert OptionalProperties(beforeMap) == Done(properties, Rest());
      hide OptionalProperties;
      var _ :- ExpectToken(RParen);
      return Ok(NodePattern(variable, labelName, properties));
    }

    /** The bracketed part of an edge. */
    method TakeBody() returns (r: Result<(Option<string>, Option<string>)>)
      modifies this`pos
      ensures Agrees(EdgeBody(old(Rest())), r, Rest())
    {
      hide OptionalTag, OptionalIdent;
      var variable: Option<string> := None;
      var edgeType: Option<string> := None;
      if PeekToken().LBracket? {
        var _ := Advance();
        variable := TakeName();
        edgeType :- TakeTag();
        var _ :- ExpectToken(RBracket);
      }
      return Ok((variable, edgeType));
    }

    method ParseEdge() returns (r: Result<EdgePattern>)
      modifies this`pos
      ensures Agrees(ParseEdgePattern(old(Rest())), r, Rest())
    {
      hide EdgeBody;
      var leftArrow := false;
      if PeekToken().Lt? {
        var _ := Advance();
        leftArrow := true;
      }
      var _ :- ExpectToken(Dash);
      var body :- TakeBody();
      var direction := Both;
      if leftArrow {
        var _ :- ExpectToken(Dash);
        direction := Left;
      } else if PeekToken().Arrow? {
        var _ := Advance();
        direction := Right;
      } else if PeekToken().Dash? {
        var _ := Advance();
      }
      return Ok(EdgePattern(body.0, body.1, direction));
    }

    method ParsePath() returns (r: Result<Pattern>)
      modifies this`pos
      ensures Agrees(ParsePattern(old(Rest())), r, Rest())
    {
      hide ParseNodePattern, ParseEdgePattern, PatternTail;
      var node :- ParseNode();
      var elements: Pattern := [NodeElement(node)];
      while PeekToken().Dash? || PeekToken().Lt?
        invariant ParsePattern(old(Rest())) == PatternTail(elements, Rest())
        decreases |Rest()|
      {
        PatternOnward(elements, Rest());
        var edge :- ParseEdge();
        elements := elements + [EdgeElement(edge)];
        node :- ParseNode();
        elements := elements + [NodeElement(node)];
      }
      PatternOver(elements, Rest());
      return Ok(elements);
    }

    // ----- clauses -----

    method ParseAtomItem() returns (r: Result<ReturnItem>)
      modifies this`pos
      ensures Agrees(ParseItemAtom(old(Rest())), r, Rest())
    {
      var name :- ExpectName();
      if PeekToken().Dot? {
        var _ := Advance();
        var prop :- ExpectName();
        return Ok(PropertyItem(name, prop));
      }
      return Ok(Variable(name));
    }

    method ParseItem() returns (r: Result<ReturnItem>)
      modifies this`pos
      ensures Agrees(ParseReturnItem(old(Rest())), r, Rest())
    {
      hide ParseItemAtom;
      var item;
      ghost var start := Rest();
      if PeekToken().KwCount? {
        var _ := Advance();
        var _ :- ExpectToken(LParen);
        var inner :- ParseAtomItem();
        var _ :- ExpectToken(RParen);
        item := FunctionCall("count", inner);
      } else {
        item :- ParseAtomItem();
      }
      assert ParseCounted(start) == Done(item, Rest());
      hide ParseCounted;
      if PeekToken().KwAs? {
        var _ := Advance();
        var alias :- ExpectName();
        return Ok(Alias(item, alias));
      }
      return Ok(item);
    }

    method ParseReturnClause() returns (r: Result<ReturnClause>)
      modifies this`pos
      ensures Agrees(ParseReturn(old(Rest())), r, Rest())
    {
      hide ParseReturnItem, ItemsTail;
      var _ :- ExpectToken(KwReturn);
      var first :- ParseItem();
      var items := [first];
      ghost var tail := Rest();
      while PeekToken().Comma?
        invariant ItemsTail([first], tail) == ItemsTail(items, Rest())
        decreases |Rest()|
      {
        ItemsOnward(items, Rest());
        var _ := Advance();
        var item :- ParseItem();
        items := items + [item];
      }
      ItemsOver(items, Rest());
      var limit: Option<u64> := None;
      if PeekToken().KwLimit? {
        var _ := Advance();
        var tok := Advance();
        if !tok.IntLit? {
          return Err(ParseError(pos));
        }
        limit := Some(AsU64(tok.number));
      }
      return Ok(ReturnClause(items, limit));
    }

    method ParseDeleteClause() returns (r: Result<seq<string>>)
      modifies this`pos
      ensures Agrees(ParseDelete(old(Rest())), r, Rest())
    {
      var _ :- ExpectToken(KwDelete);
      var first :- ExpectName();
      var names := [first];
      ghost var tail := Rest();
      while PeekToken().Comma?
        invariant NamesTail([first], tail) == NamesTail(names, Rest())
        decreases |Rest()|
      {
        var _ := Advance();
        var name :- ExpectName();
        names := names + [name];
      }
      return Ok(names);
    }

    method TakeWhere() returns (r: Result<Option<Expr>>)
      modifies this`pos
      ensures Agrees(ParseWhere(old(Rest())), r, Rest())
    {
      hide ParseExpr;
      if PeekToken().KwWhere? {
        var _ := Advance();
        var e :- ParseExpression();
        return Ok(Some(e));
      }
      return Ok(None);
    }

    method TakeEnding() returns (r: Result<(Option<ReturnClause>, Option<seq<string>>)>)
      modifies this`pos
      ensures Agrees(ParseEnding(old(Rest())), r, Rest())
    {
      hide ParseReturn, ParseDelete;
      match PeekToken() {
        case KwReturn =>
          var clause :- ParseReturnClause();
          return Ok((Some(clause), None));
        case KwDelete =>
          var names :- ParseDeleteClause();
          return Ok((None, Some(names)));
        case _ =>
          return Ok((None, None));
      }
    }

    method ParseMatchStatement() returns (r: Result<Statement>)
      modifies this`pos
      ensures Agrees(ParseMatch(old(Rest())), r, Rest())
    {
      hide ParsePattern, ParseWhere, ParseEnding;
      var _ :- ExpectToken(KwMatch);
      var pattern :- ParsePath();
      var whereClause :- TakeWhere();
      var ending :- TakeEnding();
      return Ok(MatchStatement(pattern, whereClause, ending.0, ending.1));
    }

    method ParseCreateStatement() returns (r: Result<Statement>)
      modifies this`pos
      ensures Agrees(ParseCreate(old(Rest())), r, Rest())
    {
      hide ParsePattern;
      var _ :- ExpectToken(KwCreate);
      var pattern :- ParsePath();
      return Ok(CreateStatement(pattern));
    }

    method ParseMergeStatement() returns (r: Result<Statement>)
      modifies this`pos
      ensures Agrees(ParseMerge(old(Rest())), r, Rest())
    {
      hide ParseNodePattern;
      var _ :- ExpectToken(KwMerge);
      var node :- ParseNode();
      return Ok(MergeStatement(node));
    }

    /** A whole statement, up to the end of the tokens. */
    method Parse() returns (r: Result<Statement>)
      modifies this`pos
      ensures Agrees(ParseStatement(old(Rest())), r, Rest())
    {
      hide ParseMatch, ParseCreate, ParseMerge;
      var stmt;
      match PeekToken() {
        case KwMatch =>
          stmt :- ParseMatchStatement();
        case KwCreate =>
          stmt :- ParseCreateStatement();
        case KwMerge =>
          stmt :- ParseMergeStatement();
        case _ =>
          return Err(ParseError(pos));
      }
      var _ :- ExpectToken(Eof);
      return Ok(stmt);
    }
  }
}
