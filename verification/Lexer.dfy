/** The lexer, and the proof that lexing spelled-out tokens gives them back. */
module Lexers {
  import opened Bytes
  import opened Entries
  import opened Results
  import opened Seqs
  import opened CypherAst

  /** Unicode's character classes, upper-casing and float parsing are not part of this model: they are functions
      given from outside. */
  datatype Classes = Classes(
    space: char -> bool, alphabetic: char -> bool, numeric: char -> bool,
    upper: string -> string, floatBits: string -> Option<u64>)

  predicate IsDigit(c: char)
  {
    '0' <= c <= '9'
  }

  predicate StartsWord(c: char, cs: Classes)
  {
    cs.alphabetic(c) || c == '_'
  }

  predicate InWord(c: char, cs: Classes)
  {
    cs.alphabetic(c) || cs.numeric(c) || c == '_'
  }

  // ----- what the lexer computes, from the characters still ahead -----

  datatype Lexed = Got(token: Token, rest: string) | Bad

  function SkipSpace(s: string, cs: Classes): (r: string)
    ensures |r| <= |s| && (r != [] ==> !cs.space(r[0]))
  {
    if s != [] && cs.space(s[0]) then SkipSpace(s[1..], cs) else s
  }

  /** Up to the closing quote; a backslash takes the next character as it is. */
  function StringFrom(s: string, quote: char, text: string): (l: Lexed)
    ensures l.Got? ==> |l.rest| < |s|
    decreases |s|
  {
    if s == [] then Bad
    else if s[0] == quote then Got(StringLit(text), s[1..])
    else if s[0] == '\\' then
      if |s| < 2 then Bad else StringFrom(s[2..], quote, text + [s[1]])
    else StringFrom(s[1..], quote, text + [s[0]])
  }

  /** Digits with at most one point among them: the length, and whether there is a point. */
  function NumberSpan(s: string, isFloat: bool): (n: (nat, bool))
    ensures n.0 <= |s|
    decreases |s|
  {
    if s == [] then (0, isFloat)
    else if IsDigit(s[0]) then var n := NumberSpan(s[1..], isFloat); (n.0 + 1, n.1)
    else if s[0] == '.' && !isFloat then var n := NumberSpan(s[1..], true); (n.0 + 1, n.1)
    else (0, isFloat)
  }

  function DigitValue(c: char): nat
    requires IsDigit(c)
  {
    (c as int) - ('0' as int)
  }

  function Decimal(s: string): nat
    requires forall i :: 0 <= i < |s| ==> IsDigit(s[i])
  {
    if s == [] then 0 else 10 * Decimal(s[..|s| - 1]) + DigitValue(s[|s| - 1])
  }

  lemma SpanStep(s: string, isFloat: bool)
    ensures if s == [] || !(IsDigit(s[0]) || (s[0] == '.' && !isFloat)) then NumberSpan(s, isFloat) == (0, isFloat)
            else var n := NumberSpan(s[1..], isFloat || s[0] == '.'); NumberSpan(s, isFloat) == (n.0 + 1, n.1)
  {
  }

  /** A signed 64-bit number, or failure when it is out of range. */
  function NumberToken(text: string, isFloat: bool, cs: Classes): Option<Token>
  {
    if isFloat then
      match cs.floatBits(text)
      case Some(bits) => Some(FloatLit(bits))
      case None => None
    else if (forall i :: 0 <= i < |text| ==> IsDigit(text[i])) && Decimal(text) < 0x8000_0000_0000_0000
        then Some(IntLit(Decimal(text)))
    else None
  }

  function WordSpan(s: string, cs: Classes): (n: nat)
    ensures n <= |s| && forall i :: 0 <= i < n ==> InWord(s[i], cs)
    ensures n < |s| ==> !InWord(s[n], cs)
  {
    if s == [] || !InWord(s[0], cs) then 0
    else
      var n := WordSpan(s[1..], cs);
      assert forall i :: 0 < i < n + 1 ==> s[i] == s[1..][i - 1];
      n + 1
  }

  function Keyword(upper: string): Option<Token>
  {
    if upper == "MATCH" then Some(KwMatch)
    else if upper == "RETURN" then Some(KwReturn)
    else if upper == "WHERE" then Some(KwWhere)
    else if upper == "CREATE" then Some(KwCreate)
    else if upper == "DELETE" then Some(KwDelete)
    else if upper == "MERGE" then Some(KwMerge)
    else if upper == "LIMIT" then Some(KwLimit)
    else if upper == "AND" then Some(KwAnd)
    else if upper == "OR" then Some(KwOr)
    else if upper == "NOT" then Some(KwNot)
    else if upper == "COUNT" then Some(KwCount)
    else if upper == "AS" then Some(KwAs)
    else if upper == "TRUE" then Some(KwTrue)
    else if upper == "FALSE" then Some(KwFalse)
    else if upper == "NULL" then Some(KwNull)
    else None
  }

  function WordToken(word: string, cs: Classes): Token
  {
    match Keyword(cs.upper(word))
    case Some(t) => t
    case None => Ident(word)
  }

  /** The tokens of one character. */
  function Single(c: char): Option<Token>
  {
    match c
    case '(' => Some(LParen)
    case ')' => Some(RParen)
    case '[' => Some(LBracket)
    case ']' => Some(RBracket)
    case '{' => Some(LBrace)
    case '}' => Some(RBrace)
    case ':' => Some(Colon)
    case ',' => Some(Comma)
    case '.' => Some(Dot)
    case '=' => Some(Eq)
    case _ => None
  }

  /** A character that may begin a longer symbol: the token, and how many characters it takes. */
  function Symbol(s: string): Option<(Token, nat)>
    requires s != []
  {
    var after := if |s| > 1 then s[1] else ' ';
    match s[0]
    case '-' => Some(if after == '>' then (Arrow, 2) else (Dash, 1))
    case '>' => Some(if after == '=' then (Gte, 2) else (Gt, 1))
    case '<' => Some(if after == '=' then (Lte, 2) else if after == '>' then (Neq, 2) else (Lt, 1))
    case _ => None
  }

  /** One token from a character that is not white space. */
  function TokenFrom(s: string, cs: Classes): (l: Lexed)
    requires s != []
    ensures l.Got? ==> |l.rest| < |s|
  {
    if Single(s[0]).Some? then Got(Single(s[0]).value, s[1..])
    else if Symbol(s).Some? then Got(Symbol(s).value.0, if |s| >= 2 then s[Symbol(s).value.1..] else [])
    else if s[0] == '\'' || s[0] == '"' then StringFrom(s[1..], s[0], [])
    else if IsDigit(s[0]) then
      var n := NumberSpan(s, false);
      match NumberToken(s[..n.0], n.1, cs)
      case Some(t) => Got(t, s[n.0..])
      case None => Bad
    else if StartsWord(s[0], cs) then
      Got(WordToken(s[..WordSpan(s, cs)], cs), s[WordSpan(s, cs)..])
    else Bad
  }

  function NextToken(s: string, cs: Classes): (l: Lexed)
    ensures l.Got? ==> |l.rest| < |s| || (l.rest == [] && l.token == Eof)
  {
    var t := SkipSpace(s, cs);
    if t == [] then Got(Eof, []) else TokenFrom(t, cs)
  }

  /** All tokens up to and including `Eof`. */
  function Tokens(s: string, cs: Classes): Option<seq<Token>>
    decreases |s|
  {
    match NextToken(s, cs)
    case Bad => None
    case Got(t, rest) =>
      if t.Eof? then Some([Eof])
      else
        match Tokens(rest, cs)
        case None => None
        case Some(ts) => Some([t] + ts)
  }

  // ----- the lexer -----

  class Lexer {
    const input: string
    const cs: Classes
    var pos: nat

    ghost predicate Valid()
      reads this
    {
      pos <= |input|
    }

    ghost function Rest(): string
      reads this
      requires Valid()
    {
      input[pos..]
    }

    constructor (input: string, cs: Classes)
      ensures Valid() && this.input == input && this.cs == cs && Rest() == input
    {
      this.input, this.cs, pos := input, cs, 0;
    }

    function PeekChar(): (c: Option<char>)
      reads this
      requires Valid()
      ensures c == if Rest() == [] then None else Some(Rest()[0])
    {
      if pos < |input| then Some(input[pos]) else None
    }

    method Advance() returns (c: Option<char>)
      requires Valid()
      modifies this`pos
      ensures Valid() && c == (if old(Rest()) == [] then None else Some(old(Rest())[0]))
      ensures Rest() == if old(Rest()) == [] then [] else old(Rest())[1..]
    {
      c := PeekChar();
      if c.Some? {
        pos := pos + 1;
      }
    }

    method SkipWhitespace()
      requires Valid()
      modifies this`pos
      ensures Valid() && Rest() == SkipSpace(old(Rest()), cs)
    {
      while PeekChar().Some? && cs.space(PeekChar().value)
        invariant Valid() && SkipSpace(Rest(), cs) == SkipSpace(old(Rest()), cs)
        decreases |input| - pos
      {
        var _ := Advance();
      }
    }

    /** The rest of a string opened by either kind of quote, up to the same quote again. */
    method ReadString(quote: char) returns (r: Result<Token>)
      requires Valid() && Rest() != []
      modifies this`pos
      ensures Valid() && Agrees(StringFrom(old(Rest())[1..], quote, []), r, Rest())
    {
      var _ := Advance();
      ghost var start := Rest();
      var s: string := [];
      while true
        invariant Valid() && StringFrom(Rest(), quote, s) == StringFrom(start, quote, [])
        decreases |input| - pos
      {
        var c := Advance();
        if c.None? {
          return Err(LexError(pos));
        }
        if c.value == quote {
          return Ok(StringLit(s));
        }
        if c.value == '\\' {
          var e := Advance();
          if e.None? {
            return Err(LexError(pos));
          }
          s := s + [e.value];
        } else {
          s := s + [c.value];
        }
      }
      assert false;
    }

    method ReadNumber() returns (r: Result<Token>)
      requires Valid() && Rest() != [] && IsDigit(Rest()[0])
      modifies this`pos
      ensures Valid()
      ensures var s, n := old(Rest()), NumberSpan(old(Rest()), false);
              match NumberToken(s[..n.0], n.1, cs)
              case Some(t) => r == Ok(t) && Rest() == s[n.0..]
              case None => r.Err?
    {
      hide NumberToken, NumberSpan;
      ghost var start := Rest();
      var s: string := [];
      var isFloat := false;
      while PeekChar().Some? && (IsDigit(PeekChar().value) || (PeekChar().value == '.' && !isFloat))
        invariant Valid() && |s| <= |start| && s == start[..|s|] && Rest() == start[|s|..]
        invariant NumberSpan(start, false) == (|s| + NumberSpan(Rest(), isFloat).0, NumberSpan(Rest(), isFloat).1)
        decreases |input| - pos
      {
        SpanStep(Rest(), isFloat);
        var c := Advance();
        if c.value == '.' {
          isFloat := true;
        }
        TakeOneMore(start, |s|);
        s := s + [c.value];
      }
      SpanStep(Rest(), isFloat);
      var t := NumberToken(s, isFloat, cs);
      if t.None? {
        return Err(LexError(pos));
      }
      return Ok(t.value);
    }

    method ReadIdentOrKeyword() returns (t: Token)
      requires Valid()
      modifies this`pos
      ensures Valid() && t == WordToken(old(Rest())[..WordSpan(old(Rest()), cs)], cs)
      ensures Rest() == old(Rest())[WordSpan(old(Rest()), cs)..]
    {
      ghost var start := Rest();
      var s: string := [];
      while PeekChar().Some? && InWord(PeekChar().value, cs)
        invariant Valid() && |s| <= |start| && s == start[..|s|] && Rest() == start[|s|..]
        invariant WordSpan(start, cs) == |s| + WordSpan(Rest(), cs)
        decreases |input| - pos
      {
        var c := Advance();
        TakeOneMore(start, |s|);
        s := s + [c.value];
      }
      return WordToken(s, cs);
    }

    /** The next token, after white space. */
    method Next() returns (r: Result<Token>)
      requires Valid()
      modifies this`pos
      ensures Valid() && Agrees(NextToken(old(Rest()), cs), r, Rest())
    {
      hide StringFrom, NumberToken, WordToken;
      SkipWhitespace();
      var ch := PeekChar();
      if ch.None? {
        return Ok(Eof);
      }
      var c := ch.value;
      if Single(c).Some? {
        var _ := Advance();
        return Ok(Single(c).value);
      }
      if c == '-' || c == '>' || c == '<' {
        var t := ReadSymbol();
        return Ok(t);
      }
      if c == '\'' || c == '"' {
        r := ReadString(c);
        return;
      }
      if IsDigit(c) {
        r := ReadNumber();
        return;
      }
      if StartsWord(c, cs) {
        var t := ReadIdentOrKeyword();
        return Ok(t);
      }
      return Err(LexError(pos));
    }

    /** The symbols that one more character may lengthen. */
    method ReadSymbol() returns (t: Token)
      requires Valid() && Rest() != [] && Symbol(Rest()).Some?
      modifies this`pos
      ensures Valid() && t == Symbol(old(Rest())).value.0
      ensures Rest() == if |old(Rest())| >= 2 then old(Rest())[Symbol(old(Rest())).value.1..] else []
    {
      var first := Advance();
      var second := PeekChar();
      match first.value {
        case '-' =>
          t := Dash;
          if second == Some('>') {
            var _ := Advance();
            t := Arrow;
          }
        case '>' =>
          t := Gt;
          if second == Some('=') {
            var _ := Advance();
            t := Gte;
          }
        case _ =>
          t := Lt;
          if second == Some('=') {
            var _ := Advance();
            t := Lte;
          } else if second == Some('>') {
            var _ := Advance();
            t := Neq;
          }
      }
    }

    /** All tokens up to and including `Eof`; it ends on every input. */
    method Tokenize() returns (r: Result<seq<Token>>)
      requires Valid()
      modifies this`pos
      ensures match Tokens(old(Rest()), cs)
              case Some(ts) => r == Ok(ts)
              case None => r.Err?
    {
      var tokens: seq<Token> := [];
      ghost var all := Tokens(Rest(), cs);
      PrefixNone(all);
      while true
        invariant Valid() && all == Prefixed(tokens, Tokens(Rest(), cs))
        decreases |input| - pos
      {
        hide NextToken;
        ghost var rest := Rest();
        TokensStep(tokens, rest, cs);
        var tok :- Next();
        tokens := tokens + [tok];
        if tok.Eof? {
          return Ok(tokens);
        }
      }
      assert false;
    }
  }

  ghost predicate Agrees(l: Lexed, r: Result<Token>, rest: string)
  {
    match l
    case Got(t, rest') => r == Ok(t) && rest == rest'
    case Bad => r.Err?
  }

  function Prefixed(before: seq<Token>, after: Option<seq<Token>>): Option<seq<Token>>
  {
    match after
    case None => None
    case Some(ts) => Some(before + ts)
  }

  lemma PrefixNone(after: Option<seq<Token>>)
    ensures Prefixed([], after) == after
  {
    if after.Some? {
      assert [] + after.value == after.value;
    }
  }

  lemma TokensStep(before: seq<Token>, s: string, cs: Classes)
    ensures match NextToken(s, cs)
            case Bad => Prefixed(before, Tokens(s, cs)) == None
            case Got(t, rest) =>
              Prefixed(before, Tokens(s, cs)) == if t.Eof? then Some(before + [t])
                  else Prefixed(before + [t], Tokens(rest, cs))
    ensures NextToken(s, cs).Got? && !NextToken(s, cs).token.Eof? ==> |NextToken(s, cs).rest| < |s|
  {
    match NextToken(s, cs)
    case Bad =>
    case Got(t, rest) =>
      if !t.Eof? && Tokens(rest, cs).Some? {
        assert before + ([t] + Tokens(rest, cs).value) == (before + [t]) + Tokens(rest, cs).value;
      }
  }
}
