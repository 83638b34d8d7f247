/** Which text a token may have, what may follow it, and the proof that the lexer takes exactly such texts: keywords in
    any case, strings in either kind of quote, numbers with or without a point, and blanks only where needed. */
module Readings {
  import opened Entries
  import opened Seqs
  import opened CypherAst
  import opened Lexers

  // ----- what texts a token has -----

  /** What the proofs use of Unicode: blanks, symbols, digits and letters are told apart, and the keywords are
      letters in upper case. */
  ghost predicate Sane(cs: Classes)
  {
    && cs.space(' ') && !InWord(' ', cs)
    && (forall c :: Reserved(c) || IsDigit(c) || StartsWord(c, cs) ==> !cs.space(c))
    && (forall c :: StartsWord(c, cs) ==> !Reserved(c) && !IsDigit(c))
    && (forall c :: 'A' <= c <= 'Z' ==> cs.alphabetic(c))
    && (forall t :: KeywordText(t) != "" ==> cs.upper(KeywordText(t)) == KeywordText(t))
  }

  predicate Reserved(c: char)
  {
    c in "()[]{}:,.=-><'\""
  }

  function KeywordText(t: Token): string
  {
    match t
    case KwMatch => "MATCH"
    case KwReturn => "RETURN"
    case KwWhere => "WHERE"
    case KwCreate => "CREATE"
    case KwDelete => "DELETE"
    case KwMerge => "MERGE"
    case KwLimit => "LIMIT"
    case KwAnd => "AND"
    case KwOr => "OR"
    case KwNot => "NOT"
    case KwCount => "COUNT"
    case KwAs => "AS"
    case KwTrue => "TRUE"
    case KwFalse => "FALSE"
    case KwNull => "NULL"
    case _ => ""
  }

  function SymbolText(t: Token): string
  {
    match t
    case LParen => "("
    case RParen => ")"
    case LBracket => "["
    case RBracket => "]"
    case LBrace => "{"
    case RBrace => "}"
    case Colon => ":"
    case Comma => ","
    case Dot => "."
    case Arrow => "->"
    case Dash => "-"
    case Gt => ">"
    case Lt => "<"
    case Gte => ">="
    case Lte => "<="
    case Eq => "="
    case Neq => "<>"
    case _ => ""
  }

  /** Between quotes every character stands for itself or follows a backslash; quotes and backslashes must. */
  predicate Quoted(s: string, quote: char, text: string)
    decreases |s|
  {
    if s == [] then text == []
    else if text == [] then false
    else if s[0] == '\\' then |s| >= 2 && s[1] == text[0] && Quoted(s[2..], quote, text[1..])
    else s[0] != quote && s[0] == text[0] && Quoted(s[1..], quote, text[1..])
  }

  predicate AllDigits(s: string)
  {
    forall i :: 0 <= i < |s| ==> '0' <= s[i] <= '9'
  }

  /** Digits, a point, and more digits, of which there may be none. */
  ghost predicate PointAt(s: string, i: nat)
  {
    0 < i < |s| && s[i] == '.' && AllDigits(s[..i]) && AllDigits(s[i + 1..])
  }

  /** Letters, numerals and underscores go on a word; a word begins with a letter or an underscore. */
  predicate GoesOn(c: char, cs: Classes)
  {
    cs.alphabetic(c) || cs.numeric(c) || c == '_'
  }

  ghost predicate IsWord(s: string, cs: Classes)
  {
    && s != [] && (cs.alphabetic(s[0]) || s[0] == '_')
    && forall i :: 0 <= i < |s| ==> GoesOn(s[i], cs)
  }

  ghost predicate QuotedText(s: string, text: string)
  {
    |s| >= 2 && (s[0] == '\'' || s[0] == '"') && s[|s| - 1] == s[0] && Quoted(s[1..|s| - 1], s[0], text)
  }

  ghost predicate Spells(s: string, t: Token, cs: Classes)
  {
    match t
    case Ident(name) => s == name && IsWord(s, cs) && forall k :: KeywordText(k) != "" ==> cs.upper(s) != KeywordText(k)
    case StringLit(text) => QuotedText(s, text)
    case IntLit(n) => s != [] && AllDigits(s) && Decimal(s) == n
    case FloatLit(bits) => (exists i :: PointAt(s, i)) && cs.floatBits(s) == Some(bits)
    case Eof => false
    case _ =>
      if KeywordText(t) != "" then IsWord(s, cs) && cs.upper(s) == KeywordText(t) else s == SymbolText(t)
  }

  /** What may come right after a token without becoming part of it. */
  predicate MayFollow(t: Token, rest: string, cs: Classes)
  {
    rest == [] ||
    match t
    case Ident(_) => !GoesOn(rest[0], cs)
    case IntLit(_) => !('0' <= rest[0] <= '9') && rest[0] != '.'
    case FloatLit(_) => !('0' <= rest[0] <= '9')
    case Dash => rest[0] != '>'
    case Gt => rest[0] != '='
    case Lt => rest[0] != '=' && rest[0] != '>'
    case _ => KeywordText(t) != "" ==> !GoesOn(rest[0], cs)
  }

  // ----- strings -----

  lemma {:induction false} StringReads(body: string, quote: char, text: string, before: string, rest: string)
    requires Quoted(body, quote, text) && quote != '\\'
    ensures StringFrom(body + ([quote] + rest), quote, before) == Got(StringLit(before + text), rest)
    decreases |body|
  {
    var tail := [quote] + rest;
    if body == [] {
      assert body + tail == tail && tail[1..] == rest && before + text == before;
    } else {
      var n := if body[0] == '\\' then 2 else 1;
      StringReads(body[n..], quote, text[1..], before + [text[0]], rest);
      assert (body + tail)[n..] == body[n..] + tail && (body + tail)[0] == body[0];
      assert body[0] == '\\' ==> (body + tail)[1] == body[1];
      assert before + [text[0]] + text[1..] == before + text;
    }
  }

  lemma {:induction false} StringTaken(s: string, quote: char, before: string) returns (body: string, text: string)
    requires StringFrom(s, quote, before).Got? && quote != '\\'
    ensures var l := StringFrom(s, quote, before);
            s == body + ([quote] + l.rest) && Quoted(body, quote, text) && l.token == StringLit(before + text)
    decreases |s|
  {
    if s[0] == quote {
      body, text := [], [];
      assert s == [quote] + s[1..] && before + text == before;
    } else {
      var n := if s[0] == '\\' then 2 else 1;
      var b, x := StringTaken(s[n..], quote, before + [s[n - 1]]);
      body, text := s[..n] + b, [s[n - 1]] + x;
      assert body[n..] == b && text[1..] == x;
      assert before + text == before + [s[n - 1]] + x;
      Regroup3(s[..n], b, [quote] + StringFrom(s, quote, before).rest);
      assert s == s[..n] + s[n..];
    }
  }

  // ----- numbers -----

  lemma {:induction false} DigitsSpan(s: string, rest: string, isFloat: bool)
    requires AllDigits(s)
    ensures NumberSpan(s + rest, isFloat) == (|s| + NumberSpan(rest, isFloat).0, NumberSpan(rest, isFloat).1)
    decreases |s|
  {
    if s == [] {
      assert s + rest == rest;
    } else {
      assert (s + rest)[1..] == s[1..] + rest && (s + rest)[0] == s[0];
      DigitsSpan(s[1..], rest, isFloat);
    }
  }

  lemma PointSpan(s: string, i: nat, rest: string)
    requires PointAt(s, i) && (rest == [] || !IsDigit(rest[0]))
    ensures NumberSpan(s + rest, false) == (|s|, true)
  {
    hide NumberSpan;
    var a, b := s[..i], s[i + 1..];
    Around(s, i);
    Regroup4(a, ['.'], b, rest);
    DigitsSpan(a, ['.'] + (b + rest), false);
    PointStep(b + rest);
    DigitsSpan(b, rest, true);
    SpanStep(rest, true);
  }

  lemma PointStep(s: string)
    ensures NumberSpan(['.'] + s, false) == (1 + NumberSpan(s, true).0, NumberSpan(s, true).1)
  {
    assert (['.'] + s)[1..] == s;
  }

  /** A digit in front of digits, a point and digits. */
  lemma ShiftedPoint(s: string, i: nat, m: nat)
    requires i < m < |s| && '0' <= s[0] <= '9'
    requires s[1..][i] == '.' && AllDigits(s[1..][..i]) && AllDigits(s[1..][i + 1..m])
    ensures s[i + 1] == '.' && AllDigits(s[..i + 1]) && AllDigits(s[i + 2..m + 1])
  {
    assert s[i + 2..m + 1] == s[1..][i + 1..m];
    forall j | 0 <= j < i + 1 ensures '0' <= s[j] <= '9' {
      assert j > 0 ==> s[j] == s[1..][..i][j - 1];
    }
  }

  /** What a span is: digits and nothing that could go on, with a point among them or not. */
  lemma {:induction false} SpanTaken(s: string, isFloat: bool)
    ensures var n := NumberSpan(s, isFloat);
            && (n.0 < |s| ==> !IsDigit(s[n.0]) && (s[n.0] == '.' ==> n.1))
            && (if n.1 == isFloat then AllDigits(s[..n.0])
                else !isFloat && exists i :: 0 <= i < n.0 && s[i] == '.' && AllDigits(s[..i])
                                             && AllDigits(s[i + 1..n.0]))
    decreases |s|
  {
    hide NumberSpan;
    SpanStep(s, isFloat);
    var n := NumberSpan(s, isFloat);
    if n.0 > 0 {
      SpanTaken(s[1..], isFloat || s[0] == '.');
      var m := NumberSpan(s[1..], isFloat || s[0] == '.').0;
      if s[0] == '.' {
        assert s[1..n.0] == s[1..][..m];
        assert AllDigits(s[..0]);
      } else if n.1 == isFloat {
        assert s[..n.0] == [s[0]] + s[1..][..m];
      } else {
        var i :| 0 <= i < m && s[1..][i] == '.' && AllDigits(s[1..][..i]) && AllDigits(s[1..][i + 1..m]);
        ShiftedPoint(s, i, m);
      }
    }
  }

  // ----- one token -----

  /** A character that begins a number, a word, a string or none of these begins no symbol. */
  lemma NoSymbol(s: string, cs: Classes)
    requires s != [] && (IsDigit(s[0]) || (Sane(cs) && StartsWord(s[0], cs)) || s[0] == '\'' || s[0] == '"')
    ensures Single(s[0]).None? && Symbol(s).None?
    ensures Sane(cs) && StartsWord(s[0], cs) ==> !IsDigit(s[0]) && s[0] != '\'' && s[0] != '"'
  {
    if Sane(cs) && StartsWord(s[0], cs) {
      assert !Reserved(s[0]);
    }
  }

  lemma StringLitReads(piece: string, text: string, rest: string, cs: Classes)
    requires QuotedText(piece, text)
    ensures TokenFrom(piece + rest, cs) == Got(StringLit(text), rest)
  {
    hide StringFrom, Sane, Quoted;
    var q, body := piece[0], piece[1..|piece| - 1];
    var s := piece + rest;
    assert piece == [q] + body + [q];
    Regroup4([q], body, [q], rest);
    assert s[0] == q && s[1..] == body + ([q] + rest);
    StringReads(body, q, text, [], rest);
    NoSymbol(s, cs);
    assert [] + text == text;
  }

  lemma NumberReads(piece: string, t: Token, rest: string, cs: Classes)
    requires (t.IntLit? || t.FloatLit?) && Spells(piece, t, cs) && MayFollow(t, rest, cs)
    ensures TokenFrom(piece + rest, cs) == Got(t, rest)
  {
    hide NumberSpan, Decimal, Sane;
    var s := piece + rest;
    assert s[..|piece|] == piece && s[|piece|..] == rest && s[0] == piece[0];
    if t.IntLit? {
      DigitsSpan(piece, rest, false);
      SpanStep(rest, false);
    } else {
      var i: nat :| PointAt(piece, i);
      assert piece[..i][0] == piece[0];
      PointSpan(piece, i, rest);
    }
    NoSymbol(s, cs);
  }

  lemma {:induction false} WordSpanOf(s: string, rest: string, cs: Classes)
    requires (forall i :: 0 <= i < |s| ==> InWord(s[i], cs)) && (rest == [] || !InWord(rest[0], cs))
    ensures WordSpan(s + rest, cs) == |s|
    decreases |s|
  {
    if s == [] {
      assert s + rest == rest;
    } else {
      assert (s + rest)[1..] == s[1..] + rest && (s + rest)[0] == s[0];
      WordSpanOf(s[1..], rest, cs);
    }
  }

  lemma WordReads(piece: string, rest: string, cs: Classes)
    requires Sane(cs) && IsWord(piece, cs) && (rest == [] || !InWord(rest[0], cs))
    ensures TokenFrom(piece + rest, cs) == Got(WordToken(piece, cs), rest)
  {
    hide WordToken, Sane, StringFrom, NumberSpan;
    var s := piece + rest;
    WordSpanOf(piece, rest, cs);
    assert s[..|piece|] == piece && s[|piece|..] == rest && s[0] == piece[0];
    NoSymbol(s, cs);
  }

  lemma KeywordIs(upper: string, t: Token)
    ensures Keyword(upper) == Some(t) <==> KeywordText(t) != "" && KeywordText(t) == upper
  {
    hide Keyword, KeywordText;
    KeywordHasText(upper);
    TextOfKeyword(t);
  }

  lemma KeywordHasText(upper: string)
    ensures Keyword(upper).Some? ==> KeywordText(Keyword(upper).value) == upper && upper != ""
  {
  }

  lemma TextOfKeyword(t: Token)
    ensures KeywordText(t) != "" ==> Keyword(KeywordText(t)) == Some(t)
  {
  }

  lemma WordMeans(word: string, t: Token, cs: Classes)
    requires t.Ident? || KeywordText(t) != ""
    ensures WordToken(word, cs) == t <==>
              if t.Ident? then t.name == word && forall k :: KeywordText(k) != "" ==> cs.upper(word) != KeywordText(k)
              else cs.upper(word) == KeywordText(t)
  {
    hide Keyword, KeywordText;
    var found := Keyword(cs.upper(word));
    KeywordIs(cs.upper(word), t);
    forall k ensures found == Some(k) <==> KeywordText(k) != "" && KeywordText(k) == cs.upper(word) {
      KeywordIs(cs.upper(word), k);
    }
    if found.Some? {
      KeywordNoIdent(found.value);
    }
  }

  lemma KeywordNoIdent(t: Token)
    ensures KeywordText(t) != "" ==> !t.Ident?
  {
  }

  lemma SymbolReads(t: Token, rest: string, cs: Classes)
    requires SymbolText(t) != "" && MayFollow(t, rest, cs)
    ensures TokenFrom(SymbolText(t) + rest, cs) == Got(t, rest)
  {
    hide StringFrom, NumberSpan, NumberToken, WordSpan, WordToken, Single, Symbol, SymbolText, MayFollow;
    var s := SymbolText(t) + rest;
    assert s[|SymbolText(t)|..] == rest;
    SymbolAhead(t, rest, cs);
  }

  lemma SymbolAhead(t: Token, rest: string, cs: Classes)
    requires SymbolText(t) != "" && MayFollow(t, rest, cs)
    ensures var s, n := SymbolText(t) + rest, |SymbolText(t)|;
            || (n == 1 && Single(s[0]) == Some(t))
            || (n <= 2 && Single(s[0]) == None && Symbol(s) == Some((t, n)))
  {
    var s := SymbolText(t) + rest;
    assert |SymbolText(t)| == 1 && rest != [] ==> s[1] == rest[0];
  }

  lemma SymbolKinds(t: Token)
    ensures SymbolText(t) != "" ==>
              KeywordText(t) == "" && !t.Ident? && !t.StringLit? && !t.IntLit? && !t.FloatLit? && !t.Eof?
    ensures KeywordText(t) == "" && !t.Ident? && !t.StringLit? && !t.IntLit? && !t.FloatLit? && !t.Eof? ==>
              SymbolText(t) != ""
    ensures KeywordText(t) != "" ==> !t.Ident? && !t.StringLit? && !t.IntLit? && !t.FloatLit? && !t.Eof?
  {
  }

  /** A text of a token, before anything that may follow it, is read as that token. */
  lemma TokenReads(piece: string, t: Token, rest: string, cs: Classes)
    requires Sane(cs) && Spells(piece, t, cs) && MayFollow(t, rest, cs)
    ensures piece + rest != [] && TokenFrom(piece + rest, cs) == Got(t, rest)
  {
    hide TokenFrom, KeywordText, SymbolText, IsWord, QuotedText, Sane, WordToken;
    NoBlankAhead(piece, t, cs);
    SymbolKinds(t);
    if t.StringLit? {
      StringLitReads(piece, t.text, rest, cs);
    } else if t.IntLit? || t.FloatLit? {
      NumberReads(piece, t, rest, cs);
    } else if t.Ident? || KeywordText(t) != "" {
      FollowsWord(t, rest, cs);
      WordMeans(piece, t, cs);
      WordReads(piece, rest, cs);
    } else {
      SymbolReads(t, rest, cs);
    }
  }

  lemma FollowsWord(t: Token, rest: string, cs: Classes)
    requires t.Ident? || KeywordText(t) != ""
    ensures MayFollow(t, rest, cs) <==> rest == [] || !InWord(rest[0], cs)
  {
  }

  lemma SymbolTaken(s: string, cs: Classes) returns (piece: string)
    requires s != [] && (Single(s[0]).Some? || Symbol(s).Some?)
    ensures var l := TokenFrom(s, cs);
            && l.Got? && s == piece + l.rest && SymbolText(l.token) != "" && piece == SymbolText(l.token)
            && MayFollow(l.token, l.rest, cs)
  {
    hide StringFrom, NumberSpan, NumberToken, WordSpan, WordToken, Single, Symbol, SymbolText, MayFollow;
    if Single(s[0]).Some? {
      SingleText(s[0], s[1..], cs);
      piece := [s[0]];
    } else {
      LongerText(s, cs);
      piece := s[..Symbol(s).value.1];
      assert |s| == 1 ==> s[1..] == [];
      assert s == piece + s[Symbol(s).value.1..];
    }
  }

  lemma SingleText(c: char, rest: string, cs: Classes)
    ensures Single(c).Some? ==> SymbolText(Single(c).value) == [c] && MayFollow(Single(c).value, rest, cs)
  {
  }

  lemma LongerText(s: string, cs: Classes)
    requires s != [] && Symbol(s).Some?
    ensures var (t, n) := Symbol(s).value;
            0 < n <= |s| && SymbolText(t) == s[..n] && MayFollow(t, s[n..], cs)
  {
  }

  lemma WordTaken(s: string, cs: Classes) returns (piece: string)
    requires Sane(cs) && s != [] && StartsWord(s[0], cs)
    ensures var l := TokenFrom(s, cs);
            l.Got? && s == piece + l.rest && Spells(piece, l.token, cs) && MayFollow(l.token, l.rest, cs)
  {
    hide StringFrom, NumberSpan, Sane, WordToken, Spells, MayFollow;
    NoSymbol(s, cs);
    var n := WordSpan(s, cs);
    piece := s[..n];
    var t := WordToken(piece, cs);
    assert s == piece + s[n..];
    WordKind(piece, cs);
    WordMeans(piece, t, cs);
    FollowsWord(t, s[n..], cs);
    StartsInWord(s[0], cs);
    assert IsWord(piece, cs) && WordToken(piece, cs) == t;
    WordSpells(piece, t, cs);
  }

  lemma StartsInWord(c: char, cs: Classes)
    ensures StartsWord(c, cs) ==> InWord(c, cs)
  {
  }

  lemma WordKind(word: string, cs: Classes)
    ensures WordToken(word, cs).Ident? || KeywordText(WordToken(word, cs)) != ""
  {
  }

  lemma WordSpells(piece: string, t: Token, cs: Classes)
    requires IsWord(piece, cs) && (t.Ident? || KeywordText(t) != "") && WordToken(piece, cs) == t
    ensures Spells(piece, t, cs)
  {
    hide IsWord, WordToken, KeywordText;
    WordMeans(piece, t, cs);
    SymbolKinds(t);
  }

  lemma NumberTaken(s: string, cs: Classes) returns (piece: string)
    requires s != [] && IsDigit(s[0]) && TokenFrom(s, cs).Got?
    ensures var l := TokenFrom(s, cs);
            s == piece + l.rest && Spells(piece, l.token, cs) && MayFollow(l.token, l.rest, cs)
  {
    hide StringFrom, NumberSpan, Sane, Decimal;
    NoSymbol(s, cs);
    SpanTaken(s, false);
    SpanStep(s, false);
    var n := NumberSpan(s, false);
    piece := s[..n.0];
    assert s == piece + s[n.0..];
    if n.1 {
      var i :| 0 <= i < n.0 && s[i] == '.' && AllDigits(s[..i]) && AllDigits(s[i + 1..n.0]);
      assert piece[..i] == s[..i] && piece[i + 1..] == s[i + 1..n.0];
      assert PointAt(piece, i);
    }
  }

  lemma StringLitTaken(s: string, cs: Classes) returns (piece: string)
    requires s != [] && (s[0] == '\'' || s[0] == '"') && TokenFrom(s, cs).Got?
    ensures var l := TokenFrom(s, cs);
            s == piece + l.rest && Spells(piece, l.token, cs) && MayFollow(l.token, l.rest, cs)
  {
    hide StringFrom, Sane, Quoted;
    NoSymbol(s, cs);
    var body, text := StringTaken(s[1..], s[0], []);
    piece := [s[0]] + body + [s[0]];
    var rest := TokenFrom(s, cs).rest;
    Regroup4([s[0]], body, [s[0]], rest);
    assert s == [s[0]] + s[1..] && piece[1..|piece| - 1] == body && [] + text == text;
  }

  /** What the lexer takes is a text of the token it gives, before something that may follow it. */
  lemma TokenTaken(s: string, cs: Classes) returns (piece: string)
    requires Sane(cs) && s != [] && TokenFrom(s, cs).Got?
    ensures var l := TokenFrom(s, cs);
            s == piece + l.rest && Spells(piece, l.token, cs) && MayFollow(l.token, l.rest, cs)
  {
    hide Sane, Spells, MayFollow, SymbolText, Single, Symbol, WordToken, StringFrom, NumberSpan, NumberToken;
    if Single(s[0]).Some? || Symbol(s).Some? {
      piece := SymbolTaken(s, cs);
      SymbolSpells(TokenFrom(s, cs).token, cs);
    } else if s[0] == '\'' || s[0] == '"' {
      piece := StringLitTaken(s, cs);
    } else if IsDigit(s[0]) {
      piece := NumberTaken(s, cs);
    } else {
      piece := WordTaken(s, cs);
    }
  }

  lemma SymbolSpells(t: Token, cs: Classes)
    requires SymbolText(t) != ""
    ensures Spells(SymbolText(t), t, cs)
  {
    hide KeywordText, SymbolText;
    SymbolKinds(t);
  }

  /** The lexer reads a token, and goes on behind it, exactly when a text of that token stands there and what comes next
      may follow it. */
  lemma TokenExact(s: string, t: Token, rest: string, cs: Classes)
    requires Sane(cs) && s != []
    ensures TokenFrom(s, cs) == Got(t, rest) <==>
              exists piece :: s == piece + rest && Spells(piece, t, cs) && MayFollow(t, rest, cs)
  {
    hide TokenFrom, Spells, MayFollow, Sane;
    if TokenFrom(s, cs) == Got(t, rest) {
      var piece := TokenTaken(s, cs);
    }
    if piece :| s == piece + rest && Spells(piece, t, cs) && MayFollow(t, rest, cs) {
      TokenReads(piece, t, rest, cs);
    }
  }

  /** A keyword is known in any case. */
  lemma KeywordReads(t: Token, word: string, rest: string, cs: Classes)
    requires Sane(cs) && KeywordText(t) != "" && IsWord(word, cs) && cs.upper(word) == KeywordText(t)
    requires rest == [] || !GoesOn(rest[0], cs)
    ensures TokenFrom(word + rest, cs) == Got(t, rest)
  {
    hide TokenFrom, WordToken, KeywordText, IsWord, Sane;
    WordMeans(word, t, cs);
    KeywordNoIdent(t);
    WordReads(word, rest, cs);
  }

  // ----- whole texts -----

  predicate AllBlank(s: string, cs: Classes)
  {
    forall i :: 0 <= i < |s| ==> cs.space(s[i])
  }

  predicate Laid(s: string, gap: string, piece: string, rest: string)
  {
    s == gap + (piece + rest)
  }

  /** Texts of the tokens in turn, with any blanks before, between and after them, or none where none are needed. */
  ghost predicate TextOf(s: string, ts: seq<Token>, cs: Classes)
    decreases |ts|
  {
    if ts == [] then AllBlank(s, cs)
    else
      exists gap, piece, rest ::
        && Laid(s, gap, piece, rest) && AllBlank(gap, cs) && Spells(piece, ts[0], cs)
        && MayFollow(ts[0], rest, cs) && TextOf(rest, ts[1..], cs)
  }

  lemma {:induction false} BlanksSkipped(gap: string, s: string, cs: Classes)
    requires AllBlank(gap, cs) && (s == [] || !cs.space(s[0]))
    ensures SkipSpace(gap + s, cs) == s
    decreases |gap|
  {
    if gap == [] {
      assert gap + s == s;
    } else {
      assert (gap + s)[1..] == gap[1..] + s;
      BlanksSkipped(gap[1..], s, cs);
    }
  }

  lemma {:induction false} SkippedBlanks(s: string, cs: Classes) returns (gap: string)
    ensures AllBlank(gap, cs) && s == gap + SkipSpace(s, cs)
  {
    if s != [] && cs.space(s[0]) {
      var g := SkippedBlanks(s[1..], cs);
      gap := [s[0]] + g;
      assert s == [s[0]] + s[1..];
    } else {
      gap := [];
    }
  }

  lemma NoBlankAhead(piece: string, t: Token, cs: Classes)
    requires Sane(cs) && Spells(piece, t, cs)
    ensures piece != [] && !cs.space(piece[0]) && !t.Eof?
  {
    hide KeywordText;
    SymbolKinds(t);
    if t.StringLit? {
      assert Reserved(piece[0]);
    } else if t.FloatLit? {
      var i: nat :| PointAt(piece, i);
      assert IsDigit(piece[..i][0]);
    } else if SymbolText(t) != "" {
      SymbolReserved(t);
    }
  }

  lemma SymbolReserved(t: Token)
    ensures SymbolText(t) != "" ==> Reserved(SymbolText(t)[0])
  {
  }

  /** Every such text is read as its tokens. */
  lemma {:induction false} TextReads(s: string, ts: seq<Token>, cs: Classes)
    requires Sane(cs) && TextOf(s, ts, cs)
    ensures Tokens(s, cs) == Some(ts + [Eof])
    decreases |ts|
  {
    hide TokenFrom, Spells, MayFollow, Sane, SkipSpace, AllBlank;
    if ts == [] {
      assert s + [] == s && ts + [Eof] == [Eof];
      BlanksSkipped(s, [], cs);
    } else {
      var gap, piece, rest :|
        && Laid(s, gap, piece, rest) && AllBlank(gap, cs) && Spells(piece, ts[0], cs)
        && MayFollow(ts[0], rest, cs) && TextOf(rest, ts[1..], cs);
      NoBlankAhead(piece, ts[0], cs);
      BlanksSkipped(gap, piece + rest, cs);
      TokenReads(piece, ts[0], rest, cs);
      TextReads(rest, ts[1..], cs);
      assert ts + [Eof] == [ts[0]] + (ts[1..] + [Eof]);
    }
  }

  /** And whatever is read is such a text. */
  lemma {:induction false} TextTaken(s: string, cs: Classes) returns (ts: seq<Token>)
    requires Sane(cs) && Tokens(s, cs).Some?
    ensures Tokens(s, cs).value == ts + [Eof] && TextOf(s, ts, cs)
    decreases |s|
  {
    hide TokenFrom, Spells, MayFollow, Sane, SkipSpace, AllBlank;
    var gap := SkippedBlanks(s, cs);
    var t := SkipSpace(s, cs);
    if t == [] {
      ts := [];
      assert gap == s;
    } else {
      var l := TokenFrom(t, cs);
      var piece := TokenTaken(t, cs);
      NoBlankAhead(piece, l.token, cs);
      var more := TextTaken(l.rest, cs);
      ts := [l.token] + more;
      assert ts[1..] == more && Laid(s, gap, piece, l.rest);
      assert ts + [Eof] == [l.token] + (more + [Eof]);
    }
  }

  /** The lexer gives a list of tokens exactly for the texts of that list, and fails on all that are a text of none. */
  lemma LexExact(s: string, ts: seq<Token>, cs: Classes)
    requires Sane(cs)
    ensures Tokens(s, cs) == Some(ts + [Eof]) <==> TextOf(s, ts, cs)
    ensures Tokens(s, cs) == None <==> forall us :: !TextOf(s, us, cs)
  {
    hide Tokens, TextOf, Sane;
    if Tokens(s, cs).Some? {
      var us := TextTaken(s, cs);
      if us + [Eof] == ts + [Eof] {
        assert us == (us + [Eof])[..|us|] && ts == (ts + [Eof])[..|ts|];
      }
    }
    forall us | TextOf(s, us, cs) ensures Tokens(s, cs) == Some(us + [Eof]) {
      TextReads(s, us, cs);
    }
  }

  lemma KeywordLetters(t: Token)
    ensures forall i :: 0 <= i < |KeywordText(t)| ==> 'A' <= KeywordText(t)[i] <= 'Z'
  {
  }

  // ----- plain ASCII is such a setting -----

  function UpperAscii(s: string): string
  {
    if s == [] then []
    else [if 'a' <= s[0] <= 'z' then s[0] - 'a' + 'A' else s[0]] + UpperAscii(s[1..])
  }

  lemma {:induction false} AlreadyUpper(s: string)
    requires forall i :: 0 <= i < |s| ==> 'A' <= s[i] <= 'Z'
    ensures UpperAscii(s) == s
  {
    if s != [] {
      AlreadyUpper(s[1..]);
      assert s == [s[0]] + s[1..];
    }
  }

  function Ascii(): Classes
  {
    Classes(c => c == ' ', c => 'a' <= c <= 'z' || 'A' <= c <= 'Z', c => IsDigit(c), UpperAscii, _ => None)
  }

  lemma AsciiIsSane()
    ensures Sane(Ascii())
  {
    forall t | KeywordText(t) != "" ensures Ascii().upper(KeywordText(t)) == KeywordText(t) {
      KeywordLetters(t);
      AlreadyUpper(KeywordText(t));
    }
    hide KeywordText;
  }
}
