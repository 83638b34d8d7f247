/** From query text to statement. */
module Cypher {
  import opened Entries
  import opened Results
  import opened CypherAst
  import opened Grammar
  import opened Lexers
  import opened Parsers
  import opened Readings
  import opened Spelling
  import opened Queries
  import opened Derivations
  import opened Sentences

  /** The statement a query text stands for, if it lexes and parses. */
  function Meaning(query: string, cs: Classes): Option<Statement>
  {
    match Tokens(query, cs)
    case None => None
    case Some(ts) =>
      match ParseStatement(ts)
      case Fail => None
      case Done(stmt, _) => Some(stmt)
  }

  /** Lexes and parses; ends on every text. */
  method ParseQuery(query: string, cs: Classes) returns (r: Result<Statement>)
    ensures match Meaning(query, cs)
            case Some(stmt) => r == Ok(stmt)
            case None => r.Err?
  {
    hide Tokens, ParseStatement;
    var lexer := new Lexer(query, cs);
    var tokens :- lexer.Tokenize();
    var parser := new Parser(tokens);
    r := parser.Parse();
  }

  /** A text stands for a statement exactly when it is a text of tokens that form the statement: keywords in any case,
      any blanks, redundant parentheses and braces. Every other text is rejected. */
  lemma QueryExact(query: string, s: Statement, cs: Classes)
    requires Sane(cs)
    ensures Meaning(query, cs) == Some(s) <==> exists ts :: TextOf(query, ts, cs) && StatementForm(ts, s)
  {
    hide Tokens, ParseStatement, TextOf, StatementForm, Sane, NoEof;
    if Meaning(query, cs) == Some(s) {
      var ts := TextTaken(query, cs);
      StatementExact(ts + [Eof], s);
      var used, after :| ts + [Eof] == used + after && Peek(after).Eof? && StatementForm(used, s);
      StatementNoEof(used, s);
      TextNoEof(query, ts, cs);
      BeforeEof(ts, used, after);
    }
    if ts :| TextOf(query, ts, cs) && StatementForm(ts, s) {
      TextReads(query, ts, cs);
      StatementFormParses(ts, s, [Eof]);
    }
  }

  lemma BeforeEof(ts: seq<Token>, used: seq<Token>, after: seq<Token>)
    requires ts + [Eof] == used + after && Peek(after).Eof? && NoEof(used) && NoEof(ts)
    ensures used == ts
  {
    var all := used + after;
    assert all[|ts|] == Eof && forall i :: 0 <= i < |ts| ==> all[i] == ts[i];
    assert forall i :: 0 <= i < |used| ==> all[i] == used[i];
    assert after != [] ==> all[|used|] == after[0];
    assert used == (used + after)[..|used|] && ts == (ts + [Eof])[..|ts|];
  }

  lemma {:induction false} TextNoEof(s: string, ts: seq<Token>, cs: Classes)
    requires TextOf(s, ts, cs)
    ensures NoEof(ts)
    decreases |ts|
  {
    hide Spells, MayFollow, AllBlank;
    if ts != [] {
      var gap, piece, rest :|
        && Laid(s, gap, piece, rest) && AllBlank(gap, cs) && Spells(piece, ts[0], cs)
        && MayFollow(ts[0], rest, cs) && TextOf(rest, ts[1..], cs);
      EofUnspelled(piece, cs);
      TextNoEof(rest, ts[1..], cs);
      assert ts == [ts[0]] + ts[1..];
    }
  }

  lemma EofUnspelled(piece: string, cs: Classes)
    ensures !Spells(piece, Eof, cs)
  {
  }

  /** Operators and literals in the query text. */
  lemma OperatorTexts()
    ensures SymbolText(OpToken(OpEq)) == "=" && SymbolText(OpToken(OpNeq)) == "<>"
    ensures SymbolText(OpToken(OpLt)) == "<" && SymbolText(OpToken(OpGt)) == ">"
    ensures SymbolText(OpToken(OpLte)) == "<=" && SymbolText(OpToken(OpGte)) == ">="
    ensures KeywordText(LiteralToken(BoolValue(true))) == "TRUE"
    ensures KeywordText(LiteralToken(BoolValue(false))) == "FALSE" && KeywordText(LiteralToken(NullValue)) == "NULL"
  {
  }

  /** A statement printed to tokens and spelled out reads back as itself. */
  lemma QueryRoundTrip(t: StatementText, cs: Classes)
    requires Printable(t) && Sane(cs) && forall i :: 0 <= i < |PrintStatement(t)| ==>
        Spellable(PrintStatement(t)[i], cs)
    ensures Meaning(Text(PrintStatement(t)), cs) == Some(StatementMeaning(t))
  {
    hide Tokens, ParseStatement, Text, PrintStatement, StatementMeaning, Sane, Spellable;
    LexRoundTrip(PrintStatement(t), cs);
    StatementRoundTrip(t);
  }

  /** Every pattern of a parsed statement is a path, so matching never meets the errors for other shapes. */
  lemma ParsedPatternsArePaths(ts: seq<Token>)
    ensures match ParseStatement(ts)
            case Done(MatchStatement(p, _, _, _), _) => PathShape(p)
            case Done(CreateStatement(p), _) => PathShape(p)
            case _ => true
  {
    hide ParsePattern, ParseWhere, ParseEnding, ParseNodePattern, PathShape;
    if Peek(ts).KwMatch? || Peek(ts).KwCreate? {
      ParsedShape(Next(ts));
    }
  }
}
