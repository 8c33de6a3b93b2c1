/** Parse trees of MiniDecaf (MiniDecaf.g4); productions that only pass a child through are collapsed. */
module Syntax {
  import opened Wrappers

  datatype UnOp = Not | BitNot | Minus
  datatype BinOp = Or | And | Eq | Ne | Lt | Gt | Le | Ge | Plus | Sub | Times | Div | Rem

  datatype Expr =
    | IntLit(text: string)
    | Ident(name: string)
    | Call(name: string, args: seq<Expr>)
    | Subscript(base: Expr, index: Expr)
    | Unary(uop: UnOp, operand: Expr)
    | Deref(pointer: Expr)
    | AddrOf(place: Expr)
    | Cast(stars: nat, source: Expr)
    | Binary(bop: BinOp, left: Expr, right: Expr)
    | Ternary(cond: Expr, thn: Expr, els: Expr)
    | Assign(lhs: Expr, rhs: Expr)

  datatype Decl =
    | Var(stars: nat, name: string, init: Option<Expr>)
    | Arr(stars: nat, name: string, dims: seq<string>)

  datatype Stmt =
    | Return(result: Expr)
    | ExprStmt(expr: Option<Expr>)
    | If(cond: Expr, thn: Stmt, els: Option<Stmt>)
    | Block(items: seq<Item>)
    | For(decl: Option<Decl>, pre: Option<Expr>, test: Option<Expr>, post: Option<Expr>, body: Stmt)
    | While(cond: Expr, body: Stmt)
    | DoWhile(body: Stmt, cond: Expr)
    | Break
    | Continue

  datatype Item = StmtItem(stmt: Stmt) | DeclItem(decl: Decl)

  datatype Param = Param(stars: nat, name: string)

  datatype TopDecl =
    | GlobalVar(stars: nat, name: string)
    | GlobalArr(stars: nat, name: string, dims: seq<string>)
    | FuncDecl(stars: nat, name: string, params: seq<Param>)
    | FuncDef(stars: nat, name: string, params: seq<Param>, body: seq<Item>)
}
