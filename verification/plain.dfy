/** The renamed tree (compiler/src/renamer/plain.rs): every identifier is
    either a function-local id or a per-function global reference id. */
module PlainIR {
  import opened Ints

  datatype PlainIdent = Local(id: nat) | Global(id: nat)

  datatype PExpr =
    | PLitNum(n: Int32)
    | PLitStr(s: string)
    | PVar(x: PlainIdent)
    | PCall(callee: nat, args: seq<PExpr>)

  datatype PStmt =
    | PLet(x: nat, value: PExpr)
    | PReturn(value: PExpr)
    | PAssign(x: nat, value: PExpr)
    | PWhile(cond: PExpr, body: seq<PStmt>)

  /** A renamed function: parameters, body and the table naming each global
      reference id used in the body. The table is a bijection between ids
      and names whose ids are always 0, 1, 2, ...; it is modelled as the
      sequence of names, the id being the position. */
  datatype PFun = PFun(name: string, params: seq<nat>, body: seq<PStmt>, refs: seq<string>)

  /** Every local id is below `nextLocal` and every global id below `nextGlobal`. */
  predicate ScopedExpr(e: PExpr, nextLocal: nat, nextGlobal: nat)
  {
    match e
    case PVar(Local(i)) => i < nextLocal
    case PVar(Global(g)) => g < nextGlobal
    case PCall(g, args) => g < nextGlobal && forall i :: 0 <= i < |args| ==> ScopedExpr(args[i], nextLocal, nextGlobal)
    case _ => true
  }

  lemma {:induction false} ScopedExprMono(e: PExpr, nl: nat, ng: nat, nl': nat, ng': nat)
    requires ScopedExpr(e, nl, ng) && nl <= nl' && ng <= ng'
    ensures ScopedExpr(e, nl', ng')
  {
    match e
    case PCall(g, args) =>
      forall i | 0 <= i < |args|
        ensures ScopedExpr(args[i], nl', ng')
      {
        ScopedExprMono(args[i], nl, ng, nl', ng');
      }
    case _ =>
  }

  predicate ScopedStmt(s: PStmt, nextLocal: nat, nextGlobal: nat)
  {
    match s
    case PLet(x, v) => x < nextLocal && ScopedExpr(v, nextLocal, nextGlobal)
    case PReturn(v) => ScopedExpr(v, nextLocal, nextGlobal)
    case PAssign(x, v) => x < nextLocal && ScopedExpr(v, nextLocal, nextGlobal)
    case PWhile(c, body) =>
      ScopedExpr(c, nextLocal, nextGlobal) && forall i :: 0 <= i < |body| ==> ScopedStmt(body[i], nextLocal, nextGlobal)
  }

  lemma {:induction false} ScopedStmtMono(s: PStmt, nl: nat, ng: nat, nl': nat, ng': nat)
    requires ScopedStmt(s, nl, ng) && nl <= nl' && ng <= ng'
    ensures ScopedStmt(s, nl', ng')
  {
    match s
    case PLet(x, v) => ScopedExprMono(v, nl, ng, nl', ng');
    case PReturn(v) => ScopedExprMono(v, nl, ng, nl', ng');
    case PAssign(x, v) => ScopedExprMono(v, nl, ng, nl', ng');
    case PWhile(c, body) =>
      ScopedExprMono(c, nl, ng, nl', ng');
      forall i | 0 <= i < |body|
        ensures ScopedStmt(body[i], nl', ng')
      {
        ScopedStmtMono(body[i], nl, ng, nl', ng');
      }
  }
}
