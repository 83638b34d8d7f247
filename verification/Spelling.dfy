/** Spelling tokens out, and the proof that lexing undoes it. */
module Spelling {
  import opened Entries
  import opened Seqs
  import opened CypherAst
  import opened Lexers
  import opened Readings

  function Digits(n: nat): (s: string)
    ensures s != [] && forall i :: 0 <= i < |s| ==> IsDigit(s[i])
  {
    if n < 10 then [DigitChar(n)] else Digits(n / 10) + [DigitChar(n % 10)]
  }

  function DigitChar(d: nat): (c: char)
    requires d < 10
    ensures IsDigit(c) && DigitValue(c) == d
  {
    '0' + d as char
  }

  /** Quotes and backslashes get a backslash in front. */
  function Escape(s: string): string
  {
    if s == [] then []
    else (if s[0] == '\'' || s[0] == '\\' then ['\\', s[0]] else [s[0]]) + Escape(s[1..])
  }

  predicate IsName(s: string, cs: Classes)
  {
    s != [] && StartsWord(s[0], cs) && (forall i :: 0 <= i < |s| ==> InWord(s[i], cs)) && Keyword(cs.upper(s)).None?
  }

  /** Names that are not keywords, numbers the lexer can read, no floats, no end marker. */
  predicate Spellable(t: Token, cs: Classes)
  {
    match t
    case Ident(name) => IsName(name, cs)
    case IntLit(n) => n >= 0
    case FloatLit(_) => false
    case Eof => false
    case _ => true
  }

  function Spell(t: Token): string
  {
    match t
    case Ident(name) => name
    case StringLit(text) => "'" + Escape(text) + "'"
    case IntLit(n) => if n >= 0 then Digits(n) else []
    case _ => KeywordText(t) + SymbolText(t)
  }

  /** The tokens with a space between them. */
  function Text(ts: seq<Token>): string
  {
    if ts == [] then []
    else if |ts| == 1 then Spell(ts[0])
    else Spell(ts[0]) + " " + Text(ts[1..])
  }

  /** Nothing, or a space, comes next. */
  predicate Ends(rest: string)
  {
    rest == [] || rest[0] == ' '
  }

  // ----- numbers -----

  lemma {:induction false} DecimalDigits(n: nat)
    ensures Decimal(Digits(n)) == n
  {
    if n < 10 {
      assert Digits(n)[..0] == [];
    } else {
      DecimalDigits(n / 10);
      assert Digits(n)[..|Digits(n)| - 1] == Digits(n / 10);
    }
  }

  lemma NumberLexes(n: i64, rest: string, cs: Classes)
    requires n >= 0 && Ends(rest)
    ensures TokenFrom(Digits(n) + rest, cs) == Got(IntLit(n), rest)
  {
    hide TokenFrom, Digits, Decimal;
    DecimalDigits(n);
    NumberReads(Digits(n), IntLit(n), rest, cs);
  }

  // ----- strings -----

  lemma {:induction false} EscapeQuoted(text: string)
    ensures Quoted(Escape(text), '\'', text)
    decreases |text|
  {
    if text != [] {
      EscapeQuoted(text[1..]);
      var n := if text[0] == '\'' || text[0] == '\\' then 2 else 1;
      assert Escape(text)[n..] == Escape(text[1..]);
    }
  }

  lemma StringLexes(text: string, rest: string, cs: Classes)
    ensures TokenFrom("'" + Escape(text) + "'" + rest, cs) == Got(StringLit(text), rest)
  {
    hide TokenFrom, Escape, Quoted;
    var piece := "'" + Escape(text) + "'";
    EscapeQuoted(text);
    assert piece[1..|piece| - 1] == Escape(text);
    StringLitReads(piece, text, rest, cs);
  }

  // ----- token lists -----

  lemma EndsFollows(t: Token, rest: string, cs: Classes)
    requires Sane(cs) && Ends(rest)
    ensures MayFollow(t, rest, cs)
  {
    hide KeywordText;
  }

  lemma SpellsSpelled(t: Token, cs: Classes)
    requires Sane(cs) && Spellable(t, cs)
    ensures Spells(Spell(t), t, cs)
  {
    hide Digits, Escape, Quoted, Decimal, SymbolText, KeywordText, Keyword;
    SymbolKinds(t);
    if t.Ident? {
      NameSpells(t.name, cs);
    } else if t.StringLit? {
      EscapeQuoted(t.text);
      assert Spell(t)[1..|Spell(t)| - 1] == Escape(t.text);
    } else if t.IntLit? {
      DecimalDigits(t.number);
    } else if KeywordText(t) != "" {
      KeywordSpells(t, cs);
    }
  }

  lemma NameSpells(name: string, cs: Classes)
    requires IsName(name, cs)
    ensures Spells(name, Ident(name), cs)
  {
    hide Keyword, KeywordText;
    forall k | KeywordText(k) != "" ensures cs.upper(name) != KeywordText(k) {
      KeywordIs(cs.upper(name), k);
    }
  }

  lemma KeywordSpells(t: Token, cs: Classes)
    requires Sane(cs) && KeywordText(t) != ""
    ensures Spell(t) == KeywordText(t) && IsWord(KeywordText(t), cs)
  {
    SymbolKinds(t);
    KeywordLetters(t);
    hide KeywordText, SymbolText;
    assert 'A' <= KeywordText(t)[0] <= 'Z';
    forall i | 0 <= i < |KeywordText(t)| ensures InWord(KeywordText(t)[i], cs) {
      assert 'A' <= KeywordText(t)[i] <= 'Z';
    }
  }

  lemma TokenLexes(t: Token, rest: string, cs: Classes)
    requires Sane(cs) && Spellable(t, cs) && Ends(rest)
    ensures Spell(t) != [] && !cs.space(Spell(t)[0]) && TokenFrom(Spell(t) + rest, cs) == Got(t, rest)
  {
    hide TokenFrom, Spell, Spells, MayFollow, Sane, Spellable;
    SpellsSpelled(t, cs);
    NoBlankAhead(Spell(t), t, cs);
    EndsFollows(t, rest, cs);
    TokenReads(Spell(t), t, rest, cs);
  }

  /** The text of a token list is one of that list's texts. */
  lemma {:induction false} TextIsText(ts: seq<Token>, cs: Classes)
    requires Sane(cs) && forall i :: 0 <= i < |ts| ==> Spellable(ts[i], cs)
    ensures TextOf(Text(ts), ts, cs) && TextOf(" " + Text(ts), ts, cs)
    decreases |ts|
  {
    hide Spell, Spells, MayFollow, Sane, Spellable;
    SpaceBlank(cs);
    if ts != [] {
      var rest := if |ts| == 1 then [] else " " + Text(ts[1..]);
      TextIsText(ts[1..], cs);
      assert |ts| == 1 ==> ts[1..] == [];
      assert Text(ts) == Spell(ts[0]) + rest by {
        if |ts| == 1 { assert Spell(ts[0]) + [] == Spell(ts[0]); } else { Regroup3(Spell(ts[0]), " ", Text(ts[1..])); }
      }
      SpellsSpelled(ts[0], cs);
      EndsFollows(ts[0], rest, cs);
      assert Laid(Text(ts), [], Spell(ts[0]), rest) && Laid(" " + Text(ts), " ", Spell(ts[0]), rest);
    }
  }

  lemma SpaceBlank(cs: Classes)
    ensures Sane(cs) ==> AllBlank(" ", cs)
  {
  }

  /** Lexing the text of a token list gives the tokens back. */
  lemma LexRoundTrip(ts: seq<Token>, cs: Classes)
    requires Sane(cs) && forall i :: 0 <= i < |ts| ==> Spellable(ts[i], cs)
    ensures Tokens(Text(ts), cs) == Some(ts + [Eof])
  {
    hide Tokens, TextOf, Sane, Spellable, Text;
    TextIsText(ts, cs);
    LexExact(Text(ts), ts, cs);
  }
}
