/** Printing syntax trees to tokens with only the parentheses that precedence needs, and the proof that
    parsing undoes it. */
module Printer {
  import opened CypherAst
  import opened Grammar
  import opened Derivations

  /** How tightly an expression binds: 0 for OR up to 4 for atoms. */
  function Level(e: Expr): nat
  {
    match e
    case Or(_, _) => 0
    case And(_, _) => 1
    case Not(_) => 2
    case Comparison(_, _, _) => 3
    case _ => 4
  }

  /** The tokens of `e` where something binding at `level` is wanted. */
  function Print(e: Expr, level: nat): seq<Token>
    decreases e, 1
  {
    if Level(e) < level then [LParen] + Body(e) + [RParen] else Body(e)
  }

  function Body(e: Expr): seq<Token>
    decreases e, 0
  {
    match e
    case Or(l, r) => Print(l, 0) + [KwOr] + Print(r, 1)
    case And(l, r) => Print(l, 1) + [KwAnd] + Print(r, 2)
    case Not(i) => [KwNot] + Print(i, 2)
    case Comparison(l, op, r) => Print(l, 4) + [OpToken(op)] + Print(r, 4)
    case Literal(v) => [LiteralToken(v)]
    case Property(v, p) => [Ident(v), Dot, Ident(p)]
  }

  lemma {:induction false} DerivesLooser(ts: seq<Token>, e: Expr, from: nat, level: nat)
    requires level <= from <= 4 && Derives(ts, e, from)
    ensures Derives(ts, e, level)
    decreases from
  {
    if level < from {
      DerivesLooser(ts, e, from - 1, level);
    }
  }

  lemma Infix(a: seq<Token>, t: Token, b: seq<Token>)
    ensures var ts := a + [t] + b; ts[..|a|] == a && ts[|a|] == t && ts[|a| + 1..] == b
  {
  }

  /** The printed form derives the expression. */
  lemma {:induction false} PrintDerives(e: Expr, level: nat)
    requires level <= 4
    ensures Derives(Print(e, level), e, level)
    decreases e, 1
  {
    hide Derives, Body;
    BodyDerives(e);
    if Level(e) < level {
      DerivesLooser(Body(e), e, Level(e), 0);
      assert ([LParen] + Body(e) + [RParen])[1..|Body(e)| + 1] == Body(e);
      Enclosed([LParen] + Body(e) + [RParen], e);
      DerivesLooser(Print(e, level), e, 4, level);
    } else {
      DerivesLooser(Body(e), e, Level(e), level);
    }
  }

  lemma {:induction false} BodyDerives(e: Expr)
    ensures Level(e) <= 4 && Derives(Body(e), e, Level(e))
    decreases e, 0
  {
    hide Print;
    match e
    case Or(l, r) =>
      Infix(Print(l, 0), KwOr, Print(r, 1));
      PrintDerives(l, 0);
      PrintDerives(r, 1);
      assert OrAt(Body(e), |Print(l, 0)|, l, r);
    case And(l, r) =>
      Infix(Print(l, 1), KwAnd, Print(r, 2));
      PrintDerives(l, 1);
      PrintDerives(r, 2);
      assert AndAt(Body(e), |Print(l, 1)|, l, r);
    case Not(i) =>
      PrintDerives(i, 2);
      assert Body(e)[1..] == Print(i, 2);
    case Comparison(l, op, r) =>
      Infix(Print(l, 4), OpToken(op), Print(r, 4));
      PrintDerives(l, 4);
      PrintDerives(r, 4);
      assert ComparedAt(Body(e), |Print(l, 4)|, l, op, r);
    case Literal(v) =>
    case Property(_, _) =>
  }

  /** Parsing what was printed gives the expression back, then goes on with the operators that follow. */
  lemma PrintParses(e: Expr, level: nat, rest: seq<Token>)
    requires level <= 4 && NoTighter(rest, level)
    ensures ParseAt(Print(e, level) + rest, level) == Continue(e, rest, level)
  {
    hide Derives, Print, ParseAt, Continue;
    PrintDerives(e, level);
    DerivedParses(Print(e, level), e, level, rest);
  }

  /** Printing an expression and parsing it gives the same tree and consumes exactly those tokens. */
  lemma ExprRoundTrip(e: Expr, rest: seq<Token>)
    requires NoOperator(rest)
    ensures ParseExpr(Print(e, 0) + rest) == Done(e, rest)
  {
    PrintParses(e, 0, rest);
  }
}
