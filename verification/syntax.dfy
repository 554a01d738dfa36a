/** The parser's output tree (compiler/src/parser/syntax.rs): every
    identifier is still a textual name. Locations are not modelled. */
module Syntax {
  import opened Ints

  datatype SExpr =
    | SLitNum(n: Int32)
    | SLitStr(s: string)
    | SVar(name: string)
    | SCall(callee: string, args: seq<SExpr>)
    | SOp(lhs: SExpr, op: string, rhs: SExpr)

  datatype SStmt =
    | SLet(name: string, value: SExpr)
    | SReturn(value: SExpr)
    | SAssign(target: string, value: SExpr)
    | SWhile(cond: SExpr, body: seq<SStmt>)
    | SInv(inv: SExpr)

  datatype SFun = SFun(name: string, params: seq<string>, body: seq<SStmt>)

  /** No infix operator anywhere in the expression. */
  predicate NoOps(e: SExpr)
  {
    match e
    case SOp(_, _, _) => false
    case SCall(_, args) => forall i :: 0 <= i < |args| ==> NoOps(args[i])
    case _ => true
  }
}
