/** Tokens and syntax trees of TernaryJS (desktop-metal/src/tjs.rs). */
module TjsSyntax {
  import opened Options

  /** An IEEE double; nothing here depends on which one it is. */
  type Number(==, !new)

  datatype Keyword =
    | Var | Let | Const | If | Else | While | For | Function | Return | True | False | Null

  datatype Tok =
    | Num(n: Number) | Str(s: string) | Ident(name: string) | Kw(k: Keyword)
    | Plus | Minus | Star | Slash | Percent | Assign
    | EqEq | EqEqEq | NotEq | NotEqEq | Lt | Le | Gt | Ge | AndAnd | OrOr | Bang
    | LParen | RParen | LBrace | RBrace | LBrack | RBrack | Comma | Semi | Dot | Eof

  datatype UnOp = Neg | Not

  datatype BinOp = Add | Sub | Mul | Div | Mod | Less | LessEq | Greater | GreaterEq
                 | EqLoose | NeLoose | EqStrict | NeStrict

  datatype LogicOp = And | Or

  datatype Expr =
    | Num(n: Number)
    | Str(s: string)
    | Bool(b: bool)
    | Null
    | Ident(name: string)
    | Array(items: seq<Expr>)
    | Index(base: Expr, idx: Expr)
    | Unary(uop: UnOp, x: Expr)
    | Bin(op: BinOp, l: Expr, r: Expr)
    | Logic(lop: LogicOp, l: Expr, r: Expr)
    | Assign(target: Expr, value: Expr)
    | Call(callee: Expr, args: seq<Expr>)
    | Member(obj: Expr, field: string)

  datatype Stmt =
    | Do(e: Expr)
    | Decl(name: string, init: Option<Expr>)
    | Block(body: seq<Stmt>)
    | If(cond: Expr, thn: Stmt, els: Option<Stmt>)
    | While(cond: Expr, loop: Stmt)
    | For(start: Option<Stmt>, test: Option<Expr>, step: Option<Stmt>, loop: Stmt)
    | Func(name: string, params: seq<string>, body: seq<Stmt>)
    | Return(result: Option<Expr>)
}
