/** Which tokens derive which expression, redundant parentheses allowed, and the proof that the parser reads
    exactly the expressions that are derived. */
module Derivations {
  import opened CypherAst
  import opened Grammar
  import opened Entries

  function OpToken(op: CmpOp): Token
  {
    match op
    case OpEq => Eq
    case OpNeq => Neq
    case OpLt => Lt
    case OpGt => Gt
    case OpLte => Lte
    case OpGte => Gte
  }

  function LiteralToken(v: LiteralValue): Token
  {
    match v
    case IntValue(n) => IntLit(n)
    case FloatValue(f) => FloatLit(f)
    case StringValue(s) => StringLit(s)
    case BoolValue(b) => if b then KwTrue else KwFalse
    case NullValue => KwNull
  }

  predicate AtomText(ts: seq<Token>, e: Expr)
  {
    || (e.Literal? && ts == [LiteralToken(e.value)])
    || (e.Property? && ts == [Ident(e.variable), Dot, Ident(e.property)])
  }

  /** The tokens derive the expression where something binding at `level` is wanted: 0 for OR, 1 for AND, 2 for NOT,
      3 for a comparison, 4 for an atom. OR and AND associate to the left, a comparison compares two atoms, and
      parentheses go around anything. */
  ghost predicate Derives(ts: seq<Token>, e: Expr, level: nat)
    requires level <= 4
    decreases |ts|, 4 - level
  {
    if level == 0 then Derives(ts, e, 1) || (e.Or? && exists i :: OrAt(ts, i, e.left, e.right))
    else if level == 1 then Derives(ts, e, 2) || (e.And? && exists i :: AndAt(ts, i, e.left, e.right))
    else if level == 2 then Derives(ts, e, 3) || (e.Not? && ts != [] && ts[0] == KwNot && Derives(ts[1..], e.inner, 2))
    else if level == 3 then Derives(ts, e, 4) || (e.Comparison? && exists i :: ComparedAt(ts, i, e.left, e.op, e.right))
    else AtomText(ts, e) || (|ts| >= 2 && ts[0] == LParen && ts[|ts| - 1] == RParen && Derives(ts[1..|ts| - 1], e, 0))
  }

  ghost predicate OrAt(ts: seq<Token>, i: nat, l: Expr, r: Expr)
    decreases |ts|, 0
  {
    i < |ts| && ts[i] == KwOr && Derives(ts[..i], l, 0) && Derives(ts[i + 1..], r, 1)
  }

  ghost predicate AndAt(ts: seq<Token>, i: nat, l: Expr, r: Expr)
    decreases |ts|, 0
  {
    i < |ts| && ts[i] == KwAnd && Derives(ts[..i], l, 1) && Derives(ts[i + 1..], r, 2)
  }

  ghost predicate ComparedAt(ts: seq<Token>, i: nat, l: Expr, op: CmpOp, r: Expr)
    decreases |ts|, 0
  {
    i < |ts| && ts[i] == OpToken(op) && Derives(ts[..i], l, 4) && Derives(ts[i + 1..], r, 4)
  }

  /** `rest` is what is left of `ts` after tokens that derive `e`. */
  ghost predicate Reads(ts: seq<Token>, e: Expr, rest: seq<Token>, level: nat)
    requires level <= 4
  {
    |rest| <= |ts| && rest == ts[|ts| - |rest|..] && Derives(ts[..|ts| - |rest|], e, level)
  }

  function ParseAt(ts: seq<Token>, level: nat): Parsed<Expr>
  {
    match level
    case 0 => ParseOr(ts)
    case 1 => ParseAnd(ts)
    case 2 => ParseNot(ts)
    case 3 => ParseComparison(ts)
    case _ => ParseAtom(ts)
  }

  // ----- what is read was derived -----

  lemma Position(ts: seq<Token>, e: Expr, rest: seq<Token>, level: nat)
    requires level <= 4 && Reads(ts, e, rest, level)
    ensures |rest| <= |ts| && rest == ts[|ts| - |rest|..] && Derives(ts[..|ts| - |rest|], e, level)
  {
  }

  lemma NothingMore(ts: seq<Token>, n: nat, e: Expr, level: nat)
    requires level <= 4 && n <= |ts| && Derives(ts[..n], e, level)
    ensures Reads(ts, e, ts[n..], level)
  {
  }

  lemma ReadsLooser(ts: seq<Token>, e: Expr, rest: seq<Token>, level: nat)
    requires level < 4 && Reads(ts, e, rest, level + 1)
    ensures Reads(ts, e, rest, level)
  {
  }

  /** Joining what was read before place `n` and what is read after it. */
  lemma Split(ts: seq<Token>, n: nat, rest: seq<Token>)
    requires n < |ts| && |rest| <= |ts| - n - 1 && rest == ts[n + 1..][|ts| - n - 1 - |rest|..]
    ensures rest == ts[|ts| - |rest|..]
    ensures var used := ts[..|ts| - |rest|];
            used[..n] == ts[..n] && used[n] == ts[n] && used[n + 1..] == ts[n + 1..][..|ts| - n - 1 - |rest|]
  {
  }

  lemma {:induction false} OrReads(ts: seq<Token>)
    ensures var p := ParseOr(ts); p.Done? ==> Reads(ts, p.value, p.rest, 0)
    decreases |ts|, 9
  {
    hide Derives, ParseAnd, OrTail;
    AndReads(ts);
    var p := ParseAnd(ts);
    if p.Done? {
      ReadsLooser(ts, p.value, p.rest, 0);
      OrTailReads(ts, |ts| - |p.rest|, p.value);
    }
  }

  lemma {:induction false} OrTailReads(ts: seq<Token>, n: nat, left: Expr)
    requires n <= |ts| && Derives(ts[..n], left, 0)
    ensures var p := OrTail(left, ts[n..]); p.Done? ==> Reads(ts, p.value, p.rest, 0)
    decreases |ts|, 8, |ts| - n
  {
    hide Derives, ParseAnd, Reads;
    if Peek(ts[n..]).KwOr? {
      assert Next(ts[n..]) == ts[n + 1..];
      AndReads(ts[n + 1..]);
      var p := ParseAnd(ts[n + 1..]);
      if p.Done? {
        OrJoined(ts, n, left, p.value, p.rest);
        Position(ts, Or(left, p.value), p.rest, 0);
        OrTailReads(ts, |ts| - |p.rest|, Or(left, p.value));
      }
    } else {
      NothingMore(ts, n, left, 0);
    }
  }

  lemma OrJoined(ts: seq<Token>, n: nat, left: Expr, right: Expr, rest: seq<Token>)
    requires n < |ts| && ts[n] == KwOr && Derives(ts[..n], left, 0) && Reads(ts[n + 1..], right, rest, 1)
    ensures Reads(ts, Or(left, right), rest, 0)
  {
    Split(ts, n, rest);
    assert OrAt(ts[..|ts| - |rest|], n, left, right);
  }

  lemma {:induction false} AndReads(ts: seq<Token>)
    ensures var p := ParseAnd(ts); p.Done? ==> Reads(ts, p.value, p.rest, 1)
    decreases |ts|, 7
  {
    hide Derives, ParseNot, AndTail;
    NotReads(ts);
    var p := ParseNot(ts);
    if p.Done? {
      ReadsLooser(ts, p.value, p.rest, 1);
      AndTailReads(ts, |ts| - |p.rest|, p.value);
    }
  }

  lemma {:induction false} AndTailReads(ts: seq<Token>, n: nat, left: Expr)
    requires n <= |ts| && Derives(ts[..n], left, 1)
    ensures var p := AndTail(left, ts[n..]); p.Done? ==> Reads(ts, p.value, p.rest, 1)
    decreases |ts|, 6, |ts| - n
  {
    hide Derives, ParseNot, Reads;
    if Peek(ts[n..]).KwAnd? {
      assert Next(ts[n..]) == ts[n + 1..];
      NotReads(ts[n + 1..]);
      var p := ParseNot(ts[n + 1..]);
      if p.Done? {
        AndJoined(ts, n, left, p.value, p.rest);
        Position(ts, And(left, p.value), p.rest, 1);
        AndTailReads(ts, |ts| - |p.rest|, And(left, p.value));
      }
    } else {
      NothingMore(ts, n, left, 1);
    }
  }

  lemma AndJoined(ts: seq<Token>, n: nat, left: Expr, right: Expr, rest: seq<Token>)
    requires n < |ts| && ts[n] == KwAnd && Derives(ts[..n], left, 1) && Reads(ts[n + 1..], right, rest, 2)
    ensures Reads(ts, And(left, right), rest, 1)
  {
    Split(ts, n, rest);
    assert AndAt(ts[..|ts| - |rest|], n, left, right);
  }

  lemma {:induction false} NotReads(ts: seq<Token>)
    ensures var p := ParseNot(ts); p.Done? ==> Reads(ts, p.value, p.rest, 2)
    decreases |ts|, 5
  {
    hide Derives, ParseComparison;
    if Peek(ts).KwNot? {
      NotReads(ts[1..]);
      var p := ParseNot(ts[1..]);
      if p.Done? {
        NotJoined(ts, p.value, p.rest);
      }
    } else {
      ComparisonReads(ts);
      if ParseComparison(ts).Done? {
        ReadsLooser(ts, ParseComparison(ts).value, ParseComparison(ts).rest, 2);
      }
    }
  }

  lemma NotJoined(ts: seq<Token>, inner: Expr, rest: seq<Token>)
    requires ts != [] && ts[0] == KwNot && Reads(ts[1..], inner, rest, 2)
    ensures Reads(ts, Not(inner), rest, 2)
  {
    Split(ts, 0, rest);
  }

  lemma {:induction false} ComparisonReads(ts: seq<Token>)
    ensures var p := ParseComparison(ts); p.Done? ==> Reads(ts, p.value, p.rest, 3)
    decreases |ts|, 4
  {
    hide Derives, ParseAtom;
    AtomReads(ts);
    var p := ParseAtom(ts);
    if p.Done? {
      ReadsLooser(ts, p.value, p.rest, 3);
      var op := ComparisonOp(Peek(p.rest));
      if op.Some? {
        var n := |ts| - |p.rest|;
        OpOfToken(Peek(p.rest));
        assert Next(p.rest) == ts[n + 1..];
        AtomReads(ts[n + 1..]);
        var q := ParseAtom(ts[n + 1..]);
        if q.Done? {
          ComparisonJoined(ts, n, p.value, op.value, q.value, q.rest);
        }
      }
    }
  }

  lemma OpOfToken(t: Token)
    ensures ComparisonOp(t).Some? ==> OpToken(ComparisonOp(t).value) == t && t != Eof
  {
  }

  lemma ComparisonJoined(ts: seq<Token>, n: nat, left: Expr, op: CmpOp, right: Expr, rest: seq<Token>)
    requires n < |ts| && ts[n] == OpToken(op) && Derives(ts[..n], left, 4) && Reads(ts[n + 1..], right, rest, 4)
    ensures Reads(ts, Comparison(left, op, right), rest, 3)
  {
    Split(ts, n, rest);
    assert ComparedAt(ts[..|ts| - |rest|], n, left, op, right);
  }

  lemma {:induction false} AtomReads(ts: seq<Token>)
    ensures var p := ParseAtom(ts); p.Done? ==> Reads(ts, p.value, p.rest, 4)
    decreases |ts|, 3
  {
    hide ParseOr;
    if Peek(ts).LParen? {
      OrReads(ts[1..]);
      var p := ParseOr(ts[1..]);
      if p.Done? && Peek(p.rest).RParen? {
        ParenthesesJoined(ts, p.value, p.rest);
      }
      InParentheses(ts);
    } else if Peek(ts).Ident? {
      PropertyReads(ts);
    } else {
      LiteralReads(ts);
    }
  }

  lemma InParentheses(ts: seq<Token>)
    requires Peek(ts).LParen?
    ensures var p := ParseOr(ts[1..]);
            ParseAtom(ts) == if p.Done? && Peek(p.rest).RParen? then Done(p.value, p.rest[1..]) else Fail
  {
    hide ParseOr;
    assert Next(ts) == ts[1..];
    assert ParseAtom(ts) == ParseParenthesized(ts[1..]);
    assert ParseExpr(ts[1..]) == ParseOr(ts[1..]);
  }

  lemma ParenthesesJoined(ts: seq<Token>, e: Expr, after: seq<Token>)
    requires ts != [] && ts[0] == LParen && Reads(ts[1..], e, after, 0) && after != [] && after[0] == RParen
    ensures Reads(ts, e, after[1..], 4)
  {
    hide Derives;
    Split(ts, 0, after);
    var n := |ts| - |after|;
    var used := ts[..n + 1];
    assert ts[n] == RParen && after[1..] == ts[n + 1..];
    assert used[1..|used| - 1] == ts[..n][1..];
    Enclosed(used, e);
  }

  lemma Enclosed(ts: seq<Token>, e: Expr)
    requires |ts| >= 2 && ts[0] == LParen && ts[|ts| - 1] == RParen && Derives(ts[1..|ts| - 1], e, 0)
    ensures Derives(ts, e, 4)
  {
  }

  lemma PropertyReads(ts: seq<Token>)
    requires Peek(ts).Ident?
    ensures var p := ParseAtom(ts); p.Done? ==> Reads(ts, p.value, p.rest, 4)
  {
    var p := ParseAtom(ts);
    if p.Done? {
      assert ts[..3] == [Ident(ts[0].name), Dot, Ident(ts[2].name)] && AtomText(ts[..3], p.value);
      assert p.rest == ts[3..];
    }
  }

  lemma LiteralReads(ts: seq<Token>)
    requires !Peek(ts).Ident? && !Peek(ts).LParen?
    ensures var p := ParseAtom(ts); p.Done? ==> Reads(ts, p.value, p.rest, 4)
  {
    var p := ParseAtom(ts);
    if p.Done? {
      assert ts[..1] == [ts[0]] && p.value.Literal? && ts[0] == LiteralToken(p.value.value);
      assert AtomText(ts[..1], p.value) && p.rest == ts[1..];
    }
  }

  // ----- what is derived is read -----

  /** What the parser at `level` goes on to do after having read `e`. */
  function Continue(e: Expr, rest: seq<Token>, level: nat): Parsed<Expr>
  {
    match level
    case 0 => OrTail(e, rest)
    case 1 => AndTail(e, rest)
    case _ => Done(e, rest)
  }

  /** The token ahead is no operator that binds tighter than `level`. */
  predicate NoTighter(rest: seq<Token>, level: nat)
  {
    && (level <= 3 ==> ComparisonOp(Peek(rest)).None?)
    && (level == 0 ==> !Peek(rest).KwAnd?)
  }

  lemma Heads(t: Token, a: seq<Token>)
    ensures Peek([t] + a) == t && Next([t] + a) == a
  {
  }

  /** Parsing at a level tighter than needed and then continuing is parsing at the level. */
  lemma Loosen(ts: seq<Token>, e: Expr, rest: seq<Token>, level: nat)
    requires level < 4 && NoTighter(rest, level)
    requires ParseAt(ts, level + 1) == Continue(e, rest, level + 1)
    requires level == 2 ==> !Peek(ts).KwNot?
    ensures ParseAt(ts, level) == Continue(e, rest, level)
  {
  }

  lemma {:induction false} FirstToken(ts: seq<Token>, e: Expr, level: nat)
    requires level <= 4 && Derives(ts, e, level)
    ensures ts != [] && (level >= 3 ==> ts[0] != KwNot)
    decreases 4 - level
  {
    if level < 4 && Derives(ts, e, level + 1) {
      FirstToken(ts, e, level + 1);
    } else if level == 3 {
      var i: nat :| ComparedAt(ts, i, e.left, e.op, e.right);
      FirstToken(ts[..i], e.left, 4);
    }
  }

  /** Around an operator at place `i`. */
  lemma AroundToken(ts: seq<Token>, i: nat, rest: seq<Token>)
    requires i < |ts|
    ensures ts + rest == ts[..i] + ([ts[i]] + (ts[i + 1..] + rest))
  {
  }

  /** Parsing derived tokens gives the expression, then goes on with the operators that follow. */
  lemma {:induction false} DerivedParses(ts: seq<Token>, e: Expr, level: nat, rest: seq<Token>)
    requires level <= 4 && Derives(ts, e, level) && NoTighter(rest, level)
    ensures ParseAt(ts + rest, level) == Continue(e, rest, level)
    decreases |ts|, 4 - level
  {
    hide ParseAt, Continue, ParseOr, ParseAnd, ParseNot, ParseComparison, ParseAtom;
    if level < 4 && Derives(ts, e, level + 1) {
      DerivedParses(ts, e, level + 1, rest);
      FirstToken(ts, e, level + 1);
      Loosen(ts + rest, e, rest, level);
    } else if level == 0 {
      var i: nat :| OrAt(ts, i, e.left, e.right);
      AroundToken(ts, i, rest);
      DerivedParses(ts[..i], e.left, 0, [KwOr] + (ts[i + 1..] + rest));
      DerivedParses(ts[i + 1..], e.right, 1, rest);
      OrContinues(ts + rest, e.left, e.right, ts[i + 1..] + rest, rest);
    } else if level == 1 {
      var i: nat :| AndAt(ts, i, e.left, e.right);
      AroundToken(ts, i, rest);
      DerivedParses(ts[..i], e.left, 1, [KwAnd] + (ts[i + 1..] + rest));
      DerivedParses(ts[i + 1..], e.right, 2, rest);
      AndContinues(ts + rest, e.left, e.right, ts[i + 1..] + rest, rest);
    } else if level == 2 {
      AroundToken(ts, 0, rest);
      DerivedParses(ts[1..], e.inner, 2, rest);
      assert ts + rest == [KwNot] + (ts[1..] + rest);
      NotContinues(ts[1..] + rest, e.inner, rest);
    } else if level == 3 {
      var i: nat :| ComparedAt(ts, i, e.left, e.op, e.right);
      AroundToken(ts, i, rest);
      DerivedParses(ts[..i], e.left, 4, [OpToken(e.op)] + (ts[i + 1..] + rest));
      DerivedParses(ts[i + 1..], e.right, 4, rest);
      ComparisonContinues(ts + rest, e.left, e.op, e.right, ts[i + 1..] + rest, rest);
    } else if AtomText(ts, e) {
      AtomContinues(ts, e, rest);
    } else {
      var inside := ts[1..|ts| - 1];
      DerivedParses(inside, e, 0, [RParen] + rest);
      assert ts + rest == [LParen] + (inside + ([RParen] + rest));
      ParenthesesContinue(inside + ([RParen] + rest), e, rest);
    }
  }

  lemma OrContinues(ts: seq<Token>, l: Expr, r: Expr, after: seq<Token>, rest: seq<Token>)
    requires ParseAt(ts, 0) == Continue(l, [KwOr] + after, 0) && ParseAt(after, 1) == Continue(r, rest, 1)
        && NoTighter(rest, 0)
    ensures ParseAt(ts, 0) == Continue(Or(l, r), rest, 0)
  {
    hide ParseAnd, ParseOr;
    Heads(KwOr, after);
  }

  lemma AndContinues(ts: seq<Token>, l: Expr, r: Expr, after: seq<Token>, rest: seq<Token>)
    requires ParseAt(ts, 1) == Continue(l, [KwAnd] + after, 1) && ParseAt(after, 2) == Continue(r, rest, 2)
    ensures ParseAt(ts, 1) == Continue(And(l, r), rest, 1)
  {
    hide ParseAnd, ParseNot;
    Heads(KwAnd, after);
  }

  lemma NotContinues(after: seq<Token>, inner: Expr, rest: seq<Token>)
    requires ParseAt(after, 2) == Continue(inner, rest, 2)
    ensures ParseAt([KwNot] + after, 2) == Continue(Not(inner), rest, 2)
  {
    Heads(KwNot, after);
  }

  lemma ComparisonContinues(ts: seq<Token>, l: Expr, op: CmpOp, r: Expr, after: seq<Token>, rest: seq<Token>)
    requires ParseAt(ts, 4) == Continue(l, [OpToken(op)] + after, 4) && ParseAt(after, 4) == Continue(r, rest, 4)
    ensures ParseAt(ts, 3) == Continue(Comparison(l, op, r), rest, 3)
  {
    hide ParseAtom;
    Heads(OpToken(op), after);
  }

  lemma ParenthesesContinue(ts: seq<Token>, e: Expr, rest: seq<Token>)
    requires ParseAt(ts, 0) == Continue(e, [RParen] + rest, 0)
    ensures ParseAt([LParen] + ts, 4) == Continue(e, rest, 4)
  {
    hide ParseOr;
    Heads(LParen, ts);
    Heads(RParen, rest);
    InParentheses([LParen] + ts);
    assert ([LParen] + ts)[1..] == ts && ([RParen] + rest)[1..] == rest;
  }

  lemma AtomContinues(ts: seq<Token>, e: Expr, rest: seq<Token>)
    requires AtomText(ts, e)
    ensures ParseAt(ts + rest, 4) == Continue(e, rest, 4)
  {
    hide ParseParenthesized;
    if e.Property? {
      var all := ts + rest;
      assert all[0] == Ident(e.variable) && all[1..][0] == Dot && all[1..][1..][0] == Ident(e.property);
      assert all[1..][1..][1..] == rest;
    } else {
      Heads(LiteralToken(e.value), rest);
    }
  }

  // ----- both together -----

  /** No operator that would continue an expression is ahead. */
  predicate NoOperator(rest: seq<Token>)
  {
    !Peek(rest).KwOr? && NoTighter(rest, 0)
  }

  /** Before a token that continues nothing, the parser reads exactly the expressions the tokens derive. */
  lemma ExprExact(ts: seq<Token>, e: Expr, rest: seq<Token>)
    requires NoOperator(rest)
    ensures ParseExpr(ts) == Done(e, rest) <==> Reads(ts, e, rest, 0)
  {
    hide Derives, ParseOr;
    OrReads(ts);
    if Reads(ts, e, rest, 0) {
      var used := ts[..|ts| - |rest|];
      DerivedParses(used, e, 0, rest);
      assert used + rest == ts;
    }
  }

  /** Whatever follows, what the parser reads was derived. */
  lemma ExprDerived(ts: seq<Token>)
    ensures ParseExpr(ts).Done? ==> Reads(ts, ParseExpr(ts).value, ParseExpr(ts).rest, 0)
  {
    hide ParseOr, Reads;
    OrReads(ts);
  }

  /** Tokens derive at most one expression. */
  lemma Unambiguous(ts: seq<Token>, e: Expr, f: Expr)
    requires Derives(ts, e, 0) && Derives(ts, f, 0)
    ensures e == f
  {
    hide Derives, ParseOr;
    DerivedParses(ts, e, 0, []);
    DerivedParses(ts, f, 0, []);
  }
}
