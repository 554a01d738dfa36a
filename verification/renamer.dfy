/** Name resolution (compiler/src/renamer/renamer.rs). Each function gets a
    fresh environment; parameters and `let`s mint dense local ids, every
    other name read in the body (and every callee) is interned as a dense
    global reference id. A duplicate binding aborts renaming.

    The environment's two hash maps and their counters are modelled as two
    sequences of names: the id of a name is its position, and the counter
    is the length. */
module Renamer {
  import opened Wrappers
  import opened Syntax
  import opened PlainIR

  datatype RenameError = DuplicateIdentifier(name: string)

  /** `RenamerEnv`: `locals[i]` is the name of local id `i`, `globals[g]`
      the name of global reference id `g`. */
  datatype Env = Env(locals: seq<string>, globals: seq<string>)

  predicate NoDup<T(==)>(xs: seq<T>)
  {
    forall i, j :: 0 <= i < j < |xs| ==> xs[i] != xs[j]
  }

  /** No name is bound to two ids. */
  predicate Valid(env: Env)
  {
    NoDup(env.locals) && NoDup(env.globals)
  }

  /** The position of `x` in a duplicate-free `xs`. */
  function IndexOf(xs: seq<string>, x: string): (r: nat)
    requires x in xs
    ensures r < |xs| && xs[r] == x
    ensures NoDup(xs) ==> forall i :: 0 <= i < |xs| && xs[i] == x ==> i == r
  {
    if xs[0] == x then 0 else 1 + IndexOf(xs[1..], x)
  }

  lemma NoDupSnoc(xs: seq<string>, x: string)
    requires NoDup(xs) && x !in xs
    ensures NoDup(xs + [x])
  {
    var ys := xs + [x];
    forall i, j | 0 <= i < j < |ys|
      ensures ys[i] != ys[j]
    {
      assert ys[i] == xs[i];
    }
  }

  function NewEnv(): (env: Env)
    ensures Valid(env)
    ensures |env.locals| == 0 && |env.globals| == 0
  {
    Env([], [])
  }

  /** `RenamerEnv::mk_new_local`: fails exactly when the name is already
      bound in this function; otherwise binds it to a fresh id, the current
      counter value, and leaves every other binding alone. */
  function MkNewLocal(env: Env, name: string): (r: Result<(nat, Env), RenameError>)
    requires Valid(env)
    ensures r.Err? <==> name in env.locals
    ensures r.Err? ==> r.error == DuplicateIdentifier(name)
    ensures r.Ok? ==> var (id, env') := r.value;
      && Valid(env')
      && id == |env.locals| && env'.locals == env.locals + [name]
      && env'.globals == env.globals
  {
    if name in env.locals then Err(DuplicateIdentifier(name))
    else
      NoDupSnoc(env.locals, name);
      Ok((|env.locals|, env.(locals := env.locals + [name])))
  }

  /** `RenamerEnv::get_global`: a name already interned keeps its id and the
      environment is unchanged; a new name gets the next id. Either way the
      id names `name` afterwards. */
  function GetGlobal(env: Env, name: string): (r: (nat, Env))
    requires Valid(env)
    ensures Valid(r.1)
    ensures r.0 < |r.1.globals| && r.1.globals[r.0] == name
    ensures name in env.globals ==> r.1 == env
    ensures name !in env.globals ==> r.0 == |env.globals| && r.1.globals == env.globals + [name]
    ensures r.1.locals == env.locals
  {
    if name in env.globals then (IndexOf(env.globals, name), env)
    else
      NoDupSnoc(env.globals, name);
      (|env.globals|, env.(globals := env.globals + [name]))
  }

  /** Interning is idempotent, and two names never share an id. */
  lemma GetGlobalIdempotent(env: Env, name: string)
    requires Valid(env)
    ensures GetGlobal(GetGlobal(env, name).1, name) == GetGlobal(env, name)
  {
  }

  lemma GetGlobalDistinct(env: Env, a: string, b: string)
    requires Valid(env) && a != b
    ensures var (ia, env1) := GetGlobal(env, a);
      GetGlobal(env1, b).0 != ia
  {
  }

  /** `RenamerEnv::resolve`: a locally bound name is the `Local` of its id;
      any other name is interned as a `Global`. */
  function Resolve(env: Env, name: string): (r: (PlainIdent, Env))
    requires Valid(env)
    ensures Valid(r.1)
    ensures r.0.Local? <==> name in env.locals
    ensures r.0.Local? ==> r.0.id < |env.locals| && env.locals[r.0.id] == name && r.1 == env
    ensures r.0.Global? ==> r.0.id < |r.1.globals| && r.1.globals[r.0.id] == name
    ensures r.1.locals == env.locals && env.globals <= r.1.globals
  {
    if name in env.locals then (Local(IndexOf(env.locals, name)), env)
    else
      var (g, env') := GetGlobal(env, name);
      (Global(g), env')
  }

  /** Shared contract of expression renaming: locals untouched and globals
      only extended. */
  predicate ExprStep(env: Env, env': Env)
  {
    Valid(env') && env'.locals == env.locals && env.globals <= env'.globals
  }

  /** `rename_expr`: infix operators are `unimplemented!`, so excluded. The
      result mentions only ids bound in the final environment. */
  function RenameExpr(env: Env, e: SExpr): (r: (PExpr, Env))
    requires Valid(env) && NoOps(e)
    ensures ExprStep(env, r.1)
    ensures ScopedExpr(r.0, |r.1.locals|, |r.1.globals|)
    decreases e
  {
    match e
    case SLitNum(n) => (PLitNum(n), env)
    case SLitStr(s) => (PLitStr(s), env)
    case SVar(name) =>
      var (x, env') := Resolve(env, name);
      (PVar(x), env')
    case SCall(callee, args) =>
      var (g, env1) := GetGlobal(env, callee);
      var (ps, env2) := RenameArgs(env1, args);
      (PCall(g, ps), env2)
  }

  /** The arguments of `rename_fun_call`, renamed left to right. The callee
      itself is interned first, even when a local of the same name exists. */
  function RenameArgs(env: Env, args: seq<SExpr>): (r: (seq<PExpr>, Env))
    requires Valid(env) && forall i :: 0 <= i < |args| ==> NoOps(args[i])
    ensures ExprStep(env, r.1)
    ensures |r.0| == |args|
    ensures forall i :: 0 <= i < |args| ==> ScopedExpr(r.0[i], |r.1.locals|, |r.1.globals|)
    decreases args
  {
    if |args| == 0 then ([], env)
    else
      var (a, env1) := RenameExpr(env, args[0]);
      var (rest, env2) := RenameArgs(env1, args[1..]);
      ScopedExprMono(a, |env1.locals|, |env1.globals|, |env2.locals|, |env2.globals|);
      ([a] + rest, env2)
  }

  // Statements

  /** The renamer handles `let` and `return` only; every other statement
      kind is `unimplemented!`. */
  predicate Renamable(s: SStmt)
  {
    match s
    case SLet(_, v) => NoOps(v)
    case SReturn(v) => NoOps(v)
    case _ => false
  }

  /** The names the statements bind with `let`, in order. */
  function LetNames(ss: seq<SStmt>): seq<string>
  {
    if |ss| == 0 then []
    else (if ss[0].SLet? then [ss[0].name] else []) + LetNames(ss[1..])
  }

  /** The local ids the renamed statements bind with `let`, in order. */
  function LetIds(ps: seq<PStmt>): seq<nat>
  {
    if |ps| == 0 then []
    else (if ps[0].PLet? then [ps[0].x] else []) + LetIds(ps[1..])
  }

  /** Binding the names `ns` after `bound` meets no duplicate. */
  predicate Fresh(ns: seq<string>, bound: seq<string>)
  {
    NoDup(bound + ns)
  }

  lemma FreshCons(n: string, ns: seq<string>, bound: seq<string>)
    ensures Fresh([n] + ns, bound) <==> n !in bound && Fresh(ns, bound + [n])
  {
    assert bound + ([n] + ns) == (bound + [n]) + ns;
    if n in bound {
      var k :| 0 <= k < |bound| && bound[k] == n;
      assert (bound + [n] + ns)[k] == (bound + [n] + ns)[|bound|];
    }
  }

  /** Parameters are bound in order: renaming fails exactly when a name
      repeats (or is already bound), and otherwise appends the names, so
      the i-th parameter gets the i-th next id. */
  function RenameParams(env: Env, ps: seq<string>): (r: Result<(seq<nat>, Env), RenameError>)
    requires Valid(env)
    ensures r.Ok? <==> Fresh(ps, env.locals)
    ensures r.Err? ==> r.error.name in ps
    ensures r.Ok? ==> var (ids, env') := r.value;
      && Valid(env')
      && env'.locals == env.locals + ps
      && |ids| == |ps| && (forall i :: 0 <= i < |ps| ==> ids[i] == |env.locals| + i)
      && env'.globals == env.globals
    decreases |ps|
  {
    if |ps| == 0 then
      assert env.locals + ps == env.locals;
      Ok(([], env))
    else
      FreshCons(ps[0], ps[1..], env.locals);
      assert ps == [ps[0]] + ps[1..];
      match MkNewLocal(env, ps[0])
      case Err(e) => Err(e)
      case Ok((id, env1)) =>
        match RenameParams(env1, ps[1..])
        case Err(e) => Err(e)
        case Ok((ids, env2)) =>
          assert env2.locals == env.locals + ps;
          Ok(([id] + ids, env2))
  }

  /** `rename_fun_statement`: a `let` binds its name BEFORE its value is
      renamed, so the value already sees the new local. */
  function RenameStmt(env: Env, s: SStmt): (r: Result<(PStmt, Env), RenameError>)
    requires Valid(env) && Renamable(s)
    ensures r.Err? <==> s.SLet? && s.name in env.locals
    ensures r.Err? ==> r.error == DuplicateIdentifier(s.name)
    ensures r.Ok? ==> var (p, env') := r.value;
      && Valid(env')
      && env.globals <= env'.globals
      && ScopedStmt(p, |env'.locals|, |env'.globals|)
      && (s.SLet? <==> p.PLet?)
      && (s.SLet? ==> p.x == |env.locals| && env'.locals == env.locals + [s.name])
      && (s.SReturn? ==> env'.locals == env.locals)
  {
    match s
    case SLet(name, v) =>
      (match MkNewLocal(env, name)
       case Err(e) => Err(e)
       case Ok((id, env1)) =>
         var (pv, env2) := RenameExpr(env1, v);
         Ok((PLet(id, pv), env2)))
    case SReturn(v) =>
      var (pv, env1) := RenameExpr(env, v);
      Ok((PReturn(pv), env1))
  }

  /** Statements are renamed in order; the first duplicate `let` aborts.
      Renaming succeeds exactly when the `let` names are fresh, and then
      the `let` names are appended to the locals in order, the i-th `let`
      getting the i-th next id. */
  function RenameStmts(env: Env, ss: seq<SStmt>): (r: Result<(seq<PStmt>, Env), RenameError>)
    requires Valid(env) && forall i :: 0 <= i < |ss| ==> Renamable(ss[i])
    ensures r.Ok? ==> var (ps, env') := r.value;
      && Valid(env')
      && |ps| == |ss|
      && env.globals <= env'.globals
      && env'.locals == env.locals + LetNames(ss)
      && (forall i :: 0 <= i < |ps| ==> ScopedStmt(ps[i], |env'.locals|, |env'.globals|))
    decreases |ss|
  {
    if |ss| == 0 then
      assert env.locals + [] == env.locals;
      Ok(([], env))
    else
      match RenameStmt(env, ss[0])
      case Err(e) => Err(e)
      case Ok((p, env1)) =>
        match RenameStmts(env1, ss[1..])
        case Err(e) => Err(e)
        case Ok((ps, env2)) =>
          StmtsCons(env, ss, p, env1, ps, env2);
          Ok(([p] + ps, env2))
  }

  lemma AppendAssoc<T>(a: seq<T>, b: seq<T>, c: seq<T>)
    ensures (a + b) + c == a + (b + c)
  {
  }

  /** `LetNames` of a non-empty body, one statement at a time. */
  lemma LetNamesCons(ss: seq<SStmt>)
    requires |ss| > 0
    ensures ss[0].SLet? ==> LetNames(ss) == [ss[0].name] + LetNames(ss[1..])
    ensures !ss[0].SLet? ==> LetNames(ss) == LetNames(ss[1..])
  {
    if !ss[0].SLet? {
      assert [] + LetNames(ss[1..]) == LetNames(ss[1..]);
    }
  }

  lemma StmtsCons(env: Env, ss: seq<SStmt>, p: PStmt, env1: Env, ps: seq<PStmt>, env2: Env)
    requires |ss| > 0
    requires ss[0].SLet? ==> env1.locals == env.locals + [ss[0].name]
    requires !ss[0].SLet? ==> env1.locals == env.locals
    requires env.globals <= env1.globals && ScopedStmt(p, |env1.locals|, |env1.globals|)
    requires Valid(env2) && |ps| == |ss| - 1 && env1.globals <= env2.globals
    requires env2.locals == env1.locals + LetNames(ss[1..])
    requires forall i :: 0 <= i < |ps| ==> ScopedStmt(ps[i], |env2.locals|, |env2.globals|)
    ensures env.globals <= env2.globals
    ensures env2.locals == env.locals + LetNames(ss)
    ensures forall i :: 0 <= i < |ps| + 1 ==> ScopedStmt(([p] + ps)[i], |env2.locals|, |env2.globals|)
  {
    LetNamesCons(ss);
    if ss[0].SLet? {
      AppendAssoc(env.locals, [ss[0].name], LetNames(ss[1..]));
    }
    forall i | 0 <= i < |ps| + 1
      ensures ScopedStmt(([p] + ps)[i], |env2.locals|, |env2.globals|)
    {
      if i == 0 {
        ScopedStmtMono(p, |env1.locals|, |env1.globals|, |env2.locals|, |env2.globals|);
      } else {
        assert ([p] + ps)[i] == ps[i - 1];
      }
    }
  }

  /** Renaming a body succeeds exactly when its `let` names are fresh, and
      a failure names one of them. */
  lemma {:induction false} RenameStmtsOkIff(env: Env, ss: seq<SStmt>)
    requires Valid(env) && forall i :: 0 <= i < |ss| ==> Renamable(ss[i])
    ensures RenameStmts(env, ss).Ok? <==> Fresh(LetNames(ss), env.locals)
    ensures RenameStmts(env, ss).Err? ==> RenameStmts(env, ss).error.name in LetNames(ss)
    decreases |ss|
  {
    if |ss| == 0 {
      assert env.locals + [] == env.locals;
    } else {
      LetNamesCons(ss);
      FreshConsIf(ss[0], LetNames(ss[1..]), env.locals);
      match RenameStmt(env, ss[0])
      case Err(e) =>
      case Ok((p, env1)) =>
        RenameStmtsOkIff(env1, ss[1..]);
        assert RenameStmts(env, ss).Ok? == RenameStmts(env1, ss[1..]).Ok?;
    }
  }

  /** The i-th `let` of a renamed body binds the i-th next local id. */
  lemma {:induction false} RenameStmtsLetIds(env: Env, ss: seq<SStmt>)
    requires Valid(env) && forall i :: 0 <= i < |ss| ==> Renamable(ss[i])
    requires RenameStmts(env, ss).Ok?
    ensures var ps := RenameStmts(env, ss).value.0;
      && |LetIds(ps)| == |LetNames(ss)|
      && forall i :: 0 <= i < |LetIds(ps)| ==> LetIds(ps)[i] == |env.locals| + i
    decreases |ss|
  {
    if |ss| > 0 {
      var (p, env1) := RenameStmt(env, ss[0]).value;
      var ps := RenameStmts(env1, ss[1..]).value.0;
      RenameStmtsLetIds(env1, ss[1..]);
      assert LetNames(ss) == (if ss[0].SLet? then [ss[0].name] else []) + LetNames(ss[1..]);
      assert ([p] + ps)[1..] == ps;
    }
  }

  lemma FreshConsIf(s: SStmt, ns: seq<string>, bound: seq<string>)
    ensures s.SLet? ==> (Fresh([s.name] + ns, bound) <==> s.name !in bound && Fresh(ns, bound + [s.name]))
  {
    if s.SLet? {
      FreshCons(s.name, ns, bound);
    }
  }

  /** `rename_function` up to the construction of its result: a fresh
      environment, the parameters, then the body. Renaming succeeds exactly
      when no name is bound twice; then the parameters are locals 0 .. P-1
      and the `let`s follow in order. */
  function RenameFunctionEnv(f: SFun): (r: Result<(seq<nat>, seq<PStmt>, Env), RenameError>)
    requires forall i :: 0 <= i < |f.body| ==> Renamable(f.body[i])
    ensures r.Ok? <==> NoDup(f.params + LetNames(f.body))
    ensures r.Ok? ==> var (params, body, env) := r.value;
      && Valid(env)
      && |params| == |f.params| && |body| == |f.body|
      && (forall i :: 0 <= i < |params| ==> params[i] == i)
      && env.locals == f.params + LetNames(f.body)
      && |LetIds(body)| == |LetNames(f.body)|
      && (forall i :: 0 <= i < |LetIds(body)| ==> LetIds(body)[i] == |f.params| + i)
      && (forall i :: 0 <= i < |body| ==> ScopedStmt(body[i], |env.locals|, |env.globals|))
  {
    var env0 := NewEnv();
    assert env0.locals + f.params == f.params;
    NoDupPrefix(f.params, LetNames(f.body));
    match RenameParams(env0, f.params)
    case Err(e) => Err(e)
    case Ok((params, env1)) =>
      RenameStmtsOkIff(env1, f.body);
      match RenameStmts(env1, f.body)
      case Err(e) => Err(e)
      case Ok((body, env2)) =>
        RenameStmtsLetIds(env1, f.body);
        Ok((params, body, env2))
  }

  lemma NoDupPrefix(a: seq<string>, b: seq<string>)
    ensures NoDup(a + b) ==> NoDup(a)
  {
    if NoDup(a + b) {
      forall i, j | 0 <= i < j < |a|
        ensures a[i] != a[j]
      {
        assert (a + b)[i] == a[i] && (a + b)[j] == a[j];
      }
    }
  }

  /** `rename_function` as written: the global table is built and then
      thrown away, so the declaration's `refs` is always empty. */
  function RenameFunction(f: SFun): (r: Result<PFun, RenameError>)
    requires forall i :: 0 <= i < |f.body| ==> Renamable(f.body[i])
    ensures r.Ok? <==> NoDup(f.params + LetNames(f.body))
    ensures r.Ok? ==> r.value.refs == [] && r.value.name == f.name
    ensures r.Ok? ==> |r.value.params| == |f.params| && forall i :: 0 <= i < |f.params| ==> r.value.params[i] == i
  {
    match RenameFunctionEnv(f)
    case Err(e) => Err(e)
    case Ok((params, body, env)) => Ok(PFun(f.name, params, body, []))
  }

  /** The discrepancy: `fun f() { return g() }` renames to a body that calls
      global 0 while `refs` has no entry for it. */
  lemma RenamedCallHasNoRef()
    ensures var f := SFun("f", [], [SReturn(SCall("g", []))]);
      && RenameFunction(f).Ok?
      && RenameFunction(f).value.body == [PReturn(PCall(0, []))]
      && |RenameFunction(f).value.refs| == 0
  {
    var f := SFun("f", [], [SReturn(SCall("g", []))]);
    assert LetNames(f.body) == [] by {
      assert LetNames(f.body[1..]) == [];
    }
  }

  /** `rename_function` with the evidently intended `refs`: the global
      table, so every global id of the body is named in `refs`, each name
      once, and reading the body back through `refs` gives the source's
      callee and variable names. */
  function RenameFunctionWithRefs(f: SFun): (r: Result<PFun, RenameError>)
    requires forall i :: 0 <= i < |f.body| ==> Renamable(f.body[i])
    ensures r.Ok? <==> NoDup(f.params + LetNames(f.body))
    ensures r.Ok? ==> r.value.name == f.name && NoDup(r.value.refs)
    ensures r.Ok? ==> |r.value.params| == |f.params| && forall i :: 0 <= i < |f.params| ==> r.value.params[i] == i
    ensures r.Ok? ==> forall i :: 0 <= i < |r.value.body| ==>
      ScopedStmt(r.value.body[i], |f.params| + |LetNames(f.body)|, |r.value.refs|)
    ensures r.Ok? ==> UnrenameStmts(r.value.body, f.params + LetNames(f.body), r.value.refs) == f.body
  {
    match RenameFunctionEnv(f)
    case Err(e) => Err(e)
    case Ok((params, body, env)) =>
      RenameFunctionRoundTrip(f);
      Ok(PFun(f.name, params, body, env.globals))
  }

  // Undoing the renaming

  function NameOf(names: seq<string>, i: nat): string
  {
    if i < |names| then names[i] else ""
  }

  /** Replaces every id by the name it stands for in `ln` (locals) and `gn`
      (globals): the inverse of renaming. */
  function UnrenameExpr(p: PExpr, ln: seq<string>, gn: seq<string>): SExpr
    decreases p
  {
    match p
    case PLitNum(n) => SLitNum(n)
    case PLitStr(s) => SLitStr(s)
    case PVar(Local(i)) => SVar(NameOf(ln, i))
    case PVar(Global(g)) => SVar(NameOf(gn, g))
    case PCall(g, args) => SCall(NameOf(gn, g), UnrenameArgs(args, ln, gn))
  }

  function UnrenameArgs(ps: seq<PExpr>, ln: seq<string>, gn: seq<string>): (r: seq<SExpr>)
    ensures |r| == |ps|
    decreases ps
  {
    if |ps| == 0 then [] else [UnrenameExpr(ps[0], ln, gn)] + UnrenameArgs(ps[1..], ln, gn)
  }

  function UnrenameStmt(p: PStmt, ln: seq<string>, gn: seq<string>): SStmt
    decreases p
  {
    match p
    case PLet(x, v) => SLet(NameOf(ln, x), UnrenameExpr(v, ln, gn))
    case PReturn(v) => SReturn(UnrenameExpr(v, ln, gn))
    case PAssign(x, v) => SAssign(NameOf(ln, x), UnrenameExpr(v, ln, gn))
    case PWhile(c, body) => SWhile(UnrenameExpr(c, ln, gn), UnrenameStmts(body, ln, gn))
  }

  function UnrenameStmts(ps: seq<PStmt>, ln: seq<string>, gn: seq<string>): (r: seq<SStmt>)
    ensures |r| == |ps|
    decreases ps
  {
    if |ps| == 0 then [] else [UnrenameStmt(ps[0], ln, gn)] + UnrenameStmts(ps[1..], ln, gn)
  }

  /** Undoing a scoped expression reads only the names of ids in scope, so
      longer tables give the same result. */
  lemma {:induction false} UnrenameExprStable(p: PExpr, ln: seq<string>, gn: seq<string>, ln': seq<string>, gn': seq<string>)
    requires ScopedExpr(p, |ln|, |gn|) && ln <= ln' && gn <= gn'
    ensures UnrenameExpr(p, ln, gn) == UnrenameExpr(p, ln', gn')
    decreases p
  {
    match p
    case PCall(g, args) => UnrenameArgsStable(args, ln, gn, ln', gn');
    case _ =>
  }

  lemma {:induction false} UnrenameArgsStable(ps: seq<PExpr>, ln: seq<string>, gn: seq<string>, ln': seq<string>, gn': seq<string>)
    requires forall i :: 0 <= i < |ps| ==> ScopedExpr(ps[i], |ln|, |gn|)
    requires ln <= ln' && gn <= gn'
    ensures UnrenameArgs(ps, ln, gn) == UnrenameArgs(ps, ln', gn')
    decreases ps
  {
    if |ps| > 0 {
      UnrenameExprStable(ps[0], ln, gn, ln', gn');
      UnrenameArgsStable(ps[1..], ln, gn, ln', gn');
    }
  }

  /** Renaming an expression loses nothing: reading each id back through
      the final environment gives the original expression. */
  lemma {:induction false} RenameExprRoundTrip(env: Env, e: SExpr)
    requires Valid(env) && NoOps(e)
    ensures var (p, env') := RenameExpr(env, e);
      UnrenameExpr(p, env'.locals, env'.globals) == e
    decreases e
  {
    match e
    case SCall(callee, args) =>
      var (g, env1) := GetGlobal(env, callee);
      RenameArgsRoundTrip(env1, args);
    case _ =>
  }

  lemma {:induction false} RenameArgsRoundTrip(env: Env, args: seq<SExpr>)
    requires Valid(env) && forall i :: 0 <= i < |args| ==> NoOps(args[i])
    ensures var (ps, env') := RenameArgs(env, args);
      UnrenameArgs(ps, env'.locals, env'.globals) == args
    decreases args
  {
    if |args| > 0 {
      var (a, env1) := RenameExpr(env, args[0]);
      var (rest, env2) := RenameArgs(env1, args[1..]);
      RenameExprRoundTrip(env, args[0]);
      RenameArgsRoundTrip(env1, args[1..]);
      UnrenameExprStable(a, env1.locals, env1.globals, env2.locals, env2.globals);
      assert args == [args[0]] + args[1..];
    }
  }

  lemma RenameStmtRoundTrip(env: Env, s: SStmt)
    requires Valid(env) && Renamable(s) && RenameStmt(env, s).Ok?
    ensures var (p, env') := RenameStmt(env, s).value;
      UnrenameStmt(p, env'.locals, env'.globals) == s
  {
    match s
    case SLet(name, v) =>
      var (id, env1) := MkNewLocal(env, name).value;
      RenameExprRoundTrip(env1, v);
    case SReturn(v) =>
      RenameExprRoundTrip(env, v);
  }

  /** Renaming a body loses nothing either: every `let` name, variable and
      callee reads back from the final environment. */
  lemma {:induction false} RenameStmtsRoundTrip(env: Env, ss: seq<SStmt>)
    requires Valid(env) && forall i :: 0 <= i < |ss| ==> Renamable(ss[i])
    requires RenameStmts(env, ss).Ok?
    ensures var (ps, env') := RenameStmts(env, ss).value;
      UnrenameStmts(ps, env'.locals, env'.globals) == ss
    decreases |ss|
  {
    if |ss| > 0 {
      var (p, env1) := RenameStmt(env, ss[0]).value;
      var (ps, env2) := RenameStmts(env1, ss[1..]).value;
      RenameStmtRoundTrip(env, ss[0]);
      RenameStmtsRoundTrip(env1, ss[1..]);
      assert env1.locals <= env2.locals;
      UnrenameExprStable(p.value, env1.locals, env1.globals, env2.locals, env2.globals);
      assert UnrenameStmt(p, env1.locals, env1.globals) == UnrenameStmt(p, env2.locals, env2.globals);
      assert ss == [ss[0]] + ss[1..];
    }
  }

  /** A renamed function reads back to the source function: its parameter
      ids name the parameters and its body undoes to the body. */
  lemma RenameFunctionRoundTrip(f: SFun)
    requires forall i :: 0 <= i < |f.body| ==> Renamable(f.body[i])
    requires RenameFunctionEnv(f).Ok?
    ensures var (params, body, env) := RenameFunctionEnv(f).value;
      && (forall i :: 0 <= i < |params| ==> NameOf(env.locals, params[i]) == f.params[i])
      && UnrenameStmts(body, env.locals, env.globals) == f.body
  {
    var env0 := NewEnv();
    assert env0.locals + f.params == f.params;
    var (params, env1) := RenameParams(env0, f.params).value;
    RenameStmtsRoundTrip(env1, f.body);
  }

  /** Splits a module's conditions into its first function's and the
      rest's. */
  lemma ModuleCons(fs: seq<SFun>)
    requires |fs| > 0
    ensures forall k :: 0 <= k < |fs[1..]| ==> fs[1..][k] == fs[k + 1]
    ensures (forall k :: 0 <= k < |fs| ==> NoDup(fs[k].params + LetNames(fs[k].body)))
        <==> NoDup(fs[0].params + LetNames(fs[0].body))
             && forall k :: 0 <= k < |fs[1..]| ==> NoDup(fs[1..][k].params + LetNames(fs[1..][k].body))
  {
    var rest := fs[1..];
    if NoDup(fs[0].params + LetNames(fs[0].body))
       && forall k :: 0 <= k < |rest| ==> NoDup(rest[k].params + LetNames(rest[k].body)) {
      forall k | 0 <= k < |fs| ensures NoDup(fs[k].params + LetNames(fs[k].body)) {
        if k > 0 { assert fs[k] == rest[k - 1]; }
      }
    }
  }

  lemma RenameFunctionCons(fs: seq<SFun>, p: PFun, ps: seq<PFun>)
    requires |fs| > 0 && forall k :: 0 <= k < |fs| ==> forall i :: 0 <= i < |fs[k].body| ==> Renamable(fs[k].body[i])
    requires RenameFunction(fs[0]) == Ok(p)
    requires |ps| == |fs| - 1 && forall k :: 0 <= k < |ps| ==> RenameFunction(fs[1..][k]) == Ok(ps[k])
    ensures forall k :: 0 <= k < |fs| ==> RenameFunction(fs[k]) == Ok(([p] + ps)[k])
  {
    forall k | 0 <= k < |fs| ensures RenameFunction(fs[k]) == Ok(([p] + ps)[k]) {
      if k > 0 {
        assert fs[k] == fs[1..][k - 1] && ([p] + ps)[k] == ps[k - 1];
      }
    }
  }

  lemma RenameFunctionWithRefsCons(fs: seq<SFun>, p: PFun, ps: seq<PFun>)
    requires |fs| > 0 && forall k :: 0 <= k < |fs| ==> forall i :: 0 <= i < |fs[k].body| ==> Renamable(fs[k].body[i])
    requires RenameFunctionWithRefs(fs[0]) == Ok(p)
    requires |ps| == |fs| - 1 && forall k :: 0 <= k < |ps| ==> RenameFunctionWithRefs(fs[1..][k]) == Ok(ps[k])
    ensures forall k :: 0 <= k < |fs| ==> RenameFunctionWithRefs(fs[k]) == Ok(([p] + ps)[k])
  {
    forall k | 0 <= k < |fs| ensures RenameFunctionWithRefs(fs[k]) == Ok(([p] + ps)[k]) {
      if k > 0 {
        assert fs[k] == fs[1..][k - 1] && ([p] + ps)[k] == ps[k - 1];
      }
    }
  }

  /** `rename`: every function of the module through `rename_function`,
      the first failure aborts. As written, so every `refs` is empty. */
  function RenameModule(fs: seq<SFun>): (r: Result<seq<PFun>, RenameError>)
    requires forall k :: 0 <= k < |fs| ==> forall i :: 0 <= i < |fs[k].body| ==> Renamable(fs[k].body[i])
    ensures r.Ok? <==> forall k :: 0 <= k < |fs| ==> NoDup(fs[k].params + LetNames(fs[k].body))
    ensures r.Ok? ==> |r.value| == |fs| && forall k :: 0 <= k < |fs| ==> RenameFunction(fs[k]) == Ok(r.value[k])
  {
    if |fs| == 0 then Ok([])
    else
      var rest := fs[1..];
      ModuleCons(fs);
      match RenameFunction(fs[0])
      case Err(e) => Err(e)
      case Ok(p) =>
        match RenameModule(rest)
        case Err(e) => Err(e)
        case Ok(ps) =>
          RenameFunctionCons(fs, p, ps);
          Ok([p] + ps)
  }

  /** `rename` with the corrected `rename_function`: each function carries
      its global table as `refs`. */
  function RenameModuleWithRefs(fs: seq<SFun>): (r: Result<seq<PFun>, RenameError>)
    requires forall k :: 0 <= k < |fs| ==> forall i :: 0 <= i < |fs[k].body| ==> Renamable(fs[k].body[i])
    ensures r.Ok? <==> forall k :: 0 <= k < |fs| ==> NoDup(fs[k].params + LetNames(fs[k].body))
    ensures r.Ok? ==> |r.value| == |fs| && forall k :: 0 <= k < |fs| ==> RenameFunctionWithRefs(fs[k]) == Ok(r.value[k])
  {
    if |fs| == 0 then Ok([])
    else
      var rest := fs[1..];
      ModuleCons(fs);
      match RenameFunctionWithRefs(fs[0])
      case Err(e) => Err(e)
      case Ok(p) =>
        match RenameModuleWithRefs(rest)
        case Err(e) => Err(e)
        case Ok(ps) =>
          RenameFunctionWithRefsCons(fs, p, ps);
          Ok([p] + ps)
  }

  /** The two modules differ only in `refs`: the code as written renames
      every function exactly as the corrected one does and then drops its
      global table. */
  lemma RenameModuleDropsRefs(fs: seq<SFun>)
    requires forall k :: 0 <= k < |fs| ==> forall i :: 0 <= i < |fs[k].body| ==> Renamable(fs[k].body[i])
    ensures RenameModule(fs).Ok? <==> RenameModuleWithRefs(fs).Ok?
    ensures RenameModule(fs).Ok? ==> forall k :: 0 <= k < |fs| ==>
      RenameModule(fs).value[k] == RenameModuleWithRefs(fs).value[k].(refs := [])
  {
    forall k | 0 <= k < |fs| && RenameModule(fs).Ok?
      ensures RenameFunction(fs[k]).value == RenameFunctionWithRefs(fs[k]).value.(refs := [])
    {
      assert RenameFunction(fs[k]).Ok?;
    }
  }
}
