/** NovaQL expressions, without source spans. */
module Ast {
  import opened Base
  import opened Documents

  datatype Literal = NullLit | BoolLit(flag: bool) | IntLit(int64: i64) | FloatLit(bits: u64) | StrLit(text: Text)

  datatype UnaryOp = Not | Negate | Positive

  datatype BinaryOp =
    | Or | And
    | Equal | NotEqual | Less | LessEqual | Greater | GreaterEqual | Contains
    | Add | Subtract | Multiply | Divide | Remainder

  datatype Expr =
    | Lit(literal: Literal)
    | Path(segments: seq<Text>)
    | ArrayExpr(items: seq<Expr>)
    | ObjectExpr(members: seq<Member>)
    | Unary(unaryOp: UnaryOp, operand: Expr)
    | Binary(left: Expr, op: BinaryOp, right: Expr)

  datatype Member = Member(name: Text, value: Expr)

  datatype SortKey = SortKey(path: seq<Text>, descending: bool)
  datatype Assignment = Assignment(path: seq<Text>, value: Expr)

  datatype Stage =
    | Filter(predicate_: Expr)
    | Project(paths: seq<seq<Text>>)
    | Sort(keys: seq<SortKey>)
    | Limit(count: u64)
    | Skip(count: u64)
    | Set(assignments: seq<Assignment>)
}
