/** Tokens and syntax trees of the query language. */
module CypherAst {
  import opened Bytes
  import opened Entries

  type i64 = n: int | -0x8000_0000_0000_0000 <= n < 0x8000_0000_0000_0000

  datatype Token =
    | KwMatch | KwReturn | KwWhere | KwCreate | KwDelete | KwMerge | KwLimit
    | KwAnd | KwOr | KwNot | KwCount | KwAs | KwTrue | KwFalse | KwNull
    | LParen | RParen | LBracket | RBracket | LBrace | RBrace | Colon | Comma | Dot
    | Arrow | Dash
    | Gt | Lt | Gte | Lte | Eq | Neq
    | Ident(name: string) | StringLit(text: string) | IntLit(number: i64) | FloatLit(bits: u64)
    | Eof

  datatype LiteralValue =
    | IntValue(number: i64) | FloatValue(bits: u64) | StringValue(text: string) | BoolValue(truth: bool) | NullValue

  datatype CmpOp = OpEq | OpNeq | OpLt | OpGt | OpLte | OpGte

  datatype Expr =
    | Property(variable: string, property: string)
    | Literal(value: LiteralValue)
    | Comparison(left: Expr, op: CmpOp, right: Expr)
    | And(left: Expr, right: Expr)
    | Or(left: Expr, right: Expr)
    | Not(inner: Expr)

  datatype EdgeDirection = Right | Left | Both

  datatype NodePattern = NodePattern(variable: Option<string>, labelName: Option<string>, properties: map<string, Expr>)
  datatype EdgePattern = EdgePattern(variable: Option<string>, edgeType: Option<string>, direction: EdgeDirection)
  datatype PatternElement = NodeElement(node: NodePattern) | EdgeElement(edge: EdgePattern)

  type Pattern = seq<PatternElement>

  datatype ReturnItem =
    | Variable(name: string)
    | PropertyItem(name: string, property: string)
    | FunctionCall(callee: string, argument: ReturnItem)
    | Alias(item: ReturnItem, name: string)

  datatype ReturnClause = ReturnClause(items: seq<ReturnItem>, limit: Option<u64>)

  datatype Statement =
    | MatchStatement(pattern: Pattern, whereClause: Option<Expr>, returnClause: Option<ReturnClause>,
                     deleteClause: Option<seq<string>>)
    | CreateStatement(pattern: Pattern)
    | MergeStatement(node: NodePattern)
}
