/** The simplifier (compiler/src/simplifier/simplifier.rs): flattens the
    renamed tree into statements over identifiers. Every intermediate value
    gets a fresh single-use temporary, numbered from 1; every `while` gets a
    fresh loop label, numbered from 1, and becomes
    `Loop { <condition code>; If(c) {} else { Break }; <body> }`.
    The tag table the simplifier fills on the side is modelled on its own in
    `Loc` and is not threaded through here. */
module Simplifier {
  import opened Wrappers
  import opened Ints
  import opened PlainIR
  import opened SimpleIR
  import opened AxPair
  import Peephole

  /** The two counters of `SimplifyFunImplState`. */
  datatype SState = SState(nextSU: nat, nextLabel: nat)

  /** `SimplifyFunImplState::new`: both counters start at 1. */
  function NewState(): (st: SState)
    ensures st.nextSU == 1 && st.nextLabel == 1
  {
    SState(1, 1)
  }

  /** `get_single_use_identifier`: hands out the counter and advances it,
      so no id is handed out twice. */
  function FreshSingleUse(st: SState): (r: (nat, SState))
    ensures r.0 == st.nextSU && r.1.nextSU == r.0 + 1
    ensures r.1.nextLabel == st.nextLabel
  {
    (st.nextSU, st.(nextSU := st.nextSU + 1))
  }

  /** `get_next_label`: likewise for loop labels. */
  function FreshLabel(st: SState): (r: (nat, SState))
    ensures r.0 == st.nextLabel && r.1.nextLabel == r.0 + 1
    ensures r.1.nextSU == st.nextSU
  {
    (st.nextLabel, st.(nextLabel := st.nextLabel + 1))
  }

  // String literals reach the `todo!()` arm of `compile_expr`.

  predicate NoStrings(e: PExpr)
    decreases e
  {
    match e
    case PLitStr(_) => false
    case PCall(_, args) => forall i :: 0 <= i < |args| ==> NoStrings(args[i])
    case _ => true
  }

  predicate StmtNoStrings(s: PStmt)
    decreases s
  {
    match s
    case PLet(_, v) => NoStrings(v)
    case PReturn(v) => NoStrings(v)
    case PAssign(_, v) => NoStrings(v)
    case PWhile(c, body) => NoStrings(c) && forall i :: 0 <= i < |body| ==> StmtNoStrings(body[i])
  }

  predicate BlockNoStrings(ss: seq<PStmt>)
  {
    forall i :: 0 <= i < |ss| ==> StmtNoStrings(ss[i])
  }

  /** Every statement assigns a single-use temporary. */
  predicate TempAssignments(code: seq<Stmt>)
  {
    forall i :: 0 <= i < |code| ==> code[i].Assignment? && code[i].target.SingleUse?
  }

  /** `compile_expr`: the code computing `e`, the identifier holding its
      value, and the advanced state. The temporaries assigned are exactly the
      next ones in order; a variable costs no code; any other expression
      ends in the assignment of the last temporary, which is the result. */
  function CompileExpr(st: SState, e: PExpr): (r: (seq<Stmt>, Ident, SState))
    requires NoStrings(e)
    ensures st.nextSU <= r.2.nextSU && r.2.nextLabel == st.nextLabel
    ensures SUDefs(r.0) == Range(st.nextSU, r.2.nextSU)
    ensures TempAssignments(r.0)
    ensures r.1.Plain? <==> e.PVar?
    ensures e.PVar? ==> r.0 == [] && r.1.x == e.x
    ensures r.1.SingleUse? ==> |r.0| > 0 && r.1.id + 1 == r.2.nextSU && r.0[|r.0| - 1].target == r.1
    ensures e.PLitNum? ==> r.0 == [Assignment(r.1, LitNum(e.n))]
    ensures e.PCall? ==> r.0[|r.0| - 1].value.Call? && r.0[|r.0| - 1].value.fun == e.callee
                         && |r.0[|r.0| - 1].value.args| == |e.args|
    decreases e
  {
    match e
    case PLitNum(n) =>
      var (t, st1) := FreshSingleUse(st);
      ([Assignment(SingleUse(t), LitNum(n))], SingleUse(t), st1)
    case PVar(x) =>
      ([], Plain(x), st)
    case PCall(g, args) =>
      var (code, ids, st1) := CompileArgs(st, args);
      var (t, st2) := FreshSingleUse(st1);
      SUDefsAppend(code, [Assignment(SingleUse(t), Call(g, ids))]);
      RangeSplit(st.nextSU, st1.nextSU, st2.nextSU);
      (code + [Assignment(SingleUse(t), Call(g, ids))], SingleUse(t), st2)
  }

  /** The argument loop of the call case: arguments left to right, each
      one's temporaries after the previous one's. */
  function CompileArgs(st: SState, args: seq<PExpr>): (r: (seq<Stmt>, seq<Ident>, SState))
    requires forall i :: 0 <= i < |args| ==> NoStrings(args[i])
    ensures st.nextSU <= r.2.nextSU && r.2.nextLabel == st.nextLabel
    ensures SUDefs(r.0) == Range(st.nextSU, r.2.nextSU)
    ensures TempAssignments(r.0)
    ensures |r.1| == |args|
    ensures forall i :: 0 <= i < |args| ==> (r.1[i].Plain? <==> args[i].PVar?)
    decreases args
  {
    if |args| == 0 then ([], [], st)
    else
      var (is0, id0, st1) := CompileExpr(st, args[0]);
      var (is1, ids, st2) := CompileArgs(st1, args[1..]);
      SUDefsAppend(is0, is1);
      RangeSplit(st.nextSU, st1.nextSU, st2.nextSU);
      (is0 + is1, [id0] + ids, st2)
  }

  /** One statement of `simplify_block`. */
  function SimplifyStmt(st: SState, s: PStmt): (r: (seq<Stmt>, SState))
    requires StmtNoStrings(s)
    ensures st.nextSU <= r.1.nextSU && st.nextLabel <= r.1.nextLabel
    ensures SUDefs(r.0) == Range(st.nextSU, r.1.nextSU)
    ensures Labels(r.0) == Range(st.nextLabel, r.1.nextLabel)
    ensures BreaksTargetInnermost(r.0, None)
    decreases s, 0
  {
    match s
    case PReturn(v) =>
      var (code, id, st1) := CompileExpr(st, v);
      FlatCodeFacts(code, Return(id));
      (code + [Return(id)], st1)
    case PLet(x, v) =>
      var (code, id, st1) := CompileExpr(st, v);
      FlatCodeFacts(code, Assignment(Plain(Local(x)), Ident(id)));
      (code + [Assignment(Plain(Local(x)), Ident(id))], st1)
    case PAssign(x, v) =>
      var (code, id, st1) := CompileExpr(st, v);
      FlatCodeFacts(code, Assignment(Plain(Local(x)), Ident(id)));
      (code + [Assignment(Plain(Local(x)), Ident(id))], st1)
    case PWhile(c, body) =>
      var (l, st1) := FreshLabel(st);
      var (cis, cid, st2) := CompileExpr(st1, c);
      var exit := If(cid, [], HasElse([Break(l)]));
      var (bis, st3) := SimplifyBlock(st2, body);
      LoopBodyFacts(l, cis, cid, bis);
      RangeSplit(st.nextSU, st2.nextSU, st3.nextSU);
      SingleLoopFacts(l, cis + [exit] + bis);
      RangeSplit(st.nextLabel, st1.nextLabel, st3.nextLabel);
      ([Loop(l, cis + [exit] + bis)], st3)
  }

  /** `simplify_block`: the statements in order, state threaded through. */
  function SimplifyBlock(st: SState, ss: seq<PStmt>): (r: (seq<Stmt>, SState))
    requires BlockNoStrings(ss)
    ensures st.nextSU <= r.1.nextSU && st.nextLabel <= r.1.nextLabel
    ensures SUDefs(r.0) == Range(st.nextSU, r.1.nextSU)
    ensures Labels(r.0) == Range(st.nextLabel, r.1.nextLabel)
    ensures BreaksTargetInnermost(r.0, None)
    decreases ss, 1
  {
    if |ss| == 0 then ([], st)
    else
      var (is0, st1) := SimplifyStmt(st, ss[0]);
      var (is1, st2) := SimplifyBlock(st1, ss[1..]);
      SUDefsAppend(is0, is1);
      LabelsAppend(is0, is1);
      RangeSplit(st.nextSU, st1.nextSU, st2.nextSU);
      RangeSplit(st.nextLabel, st1.nextLabel, st2.nextLabel);
      (is0 + is1, st2)
  }

  /** Lowering a block is lowering its parts in turn: the code of `a + b`
      is the code of `a` followed by the code of `b`, lowered from the state
      `a` leaves. */
  lemma {:induction false} SimplifyBlockAppend(st: SState, a: seq<PStmt>, b: seq<PStmt>)
    requires BlockNoStrings(a) && BlockNoStrings(b)
    ensures BlockNoStrings(a + b)
    ensures SimplifyBlock(st, a + b).0 == SimplifyBlock(st, a).0 + SimplifyBlock(SimplifyBlock(st, a).1, b).0
    ensures SimplifyBlock(st, a + b).1 == SimplifyBlock(SimplifyBlock(st, a).1, b).1
    decreases |a|
  {
    NoStringsAppend(a, b);
    if |a| == 0 {
      assert a + b == b;
    } else {
      var ab := a + b;
      assert ab[0] == a[0] && ab[1..] == a[1..] + b;
      var s0 := SimplifyStmt(st, a[0]);
      SimplifyBlockAppend(s0.1, a[1..], b);
      BlockCons(st, a);
      BlockCons(st, ab);
    }
  }

  lemma NoStringsAppend(a: seq<PStmt>, b: seq<PStmt>)
    requires BlockNoStrings(a) && BlockNoStrings(b)
    ensures BlockNoStrings(a + b) && (|a| > 0 ==> BlockNoStrings(a[1..]))
  {
    var ab := a + b;
    forall i | 0 <= i < |ab| ensures StmtNoStrings(ab[i]) {
      if i < |a| { assert ab[i] == a[i]; } else { assert ab[i] == b[i - |a|]; }
    }
  }

  /** One step of `simplify_block`. */
  lemma BlockCons(st: SState, ss: seq<PStmt>)
    requires BlockNoStrings(ss) && |ss| > 0
    ensures SimplifyBlock(st, ss).0
      == SimplifyStmt(st, ss[0]).0 + SimplifyBlock(SimplifyStmt(st, ss[0]).1, ss[1..]).0
    ensures SimplifyBlock(st, ss).1 == SimplifyBlock(SimplifyStmt(st, ss[0]).1, ss[1..]).1
  {
  }

  /** `return e`, `let x = e` and `x = e` lower to straight-line code that,
      run from any older temporaries, leaves the value of `e` in one
      identifier, followed by one statement: `Return` of that identifier,
      or the assignment of that identifier to the local `x`. */
  lemma StmtLoweringCorrect(st: SState, s: PStmt, env: Env, temps: Temps, call: Calls)
    requires StmtNoStrings(s) && !s.PWhile? && Below(temps, st.nextSU)
    ensures var r := SimplifyStmt(st, s).0;
      && |r| > 0
      && Exec(r[..|r| - 1], env, temps, call).Some?
      && Extends(temps, Exec(r[..|r| - 1], env, temps, call).value)
      && (s.PReturn? ==>
            && r[|r| - 1].Return?
            && Lookup(r[|r| - 1].result, env, Exec(r[..|r| - 1], env, temps, call).value) == Some(EvalExpr(s.value, env, call)))
      && (!s.PReturn? ==>
            && r[|r| - 1].Assignment? && r[|r| - 1].target == Plain(Local(s.x)) && r[|r| - 1].value.Ident?
            && Lookup(r[|r| - 1].value.ident, env, Exec(r[..|r| - 1], env, temps, call).value) == Some(EvalExpr(s.value, env, call)))
  {
    var ce := CompileExpr(st, s.value);
    CompileExprCorrect(st, s.value, env, temps, call);
    var r := SimplifyStmt(st, s).0;
    assert r[..|r| - 1] == ce.0;
  }

  /** `while c { body }` lowers to one `Loop` under the next label: the
      condition's code, which leaves the value of `c` in the tested
      identifier, then `If(c) {} else { Break }` out of that very loop,
      then the body lowered after the condition. */
  lemma WhileLowering(st: SState, c: PExpr, body: seq<PStmt>, env: Env, temps: Temps, call: Calls)
    requires NoStrings(c) && BlockNoStrings(body) && Below(temps, st.nextSU)
    ensures StmtNoStrings(PWhile(c, body))
    ensures var ce := CompileExpr(st.(nextLabel := st.nextLabel + 1), c);
      && SimplifyStmt(st, PWhile(c, body)).0
         == [Loop(st.nextLabel, ce.0 + [If(ce.1, [], HasElse([Break(st.nextLabel)]))] + SimplifyBlock(ce.2, body).0)]
      && Exec(ce.0, env, temps, call).Some?
      && Lookup(ce.1, env, Exec(ce.0, env, temps, call).value) == Some(EvalExpr(c, env, call))
  {
    CompileExprCorrect(st.(nextLabel := st.nextLabel + 1), c, env, temps, call);
  }

  /** The bookkeeping of the `while` case: the lowered loop body defines the
      condition's temporaries and then the body's, holds the body's labels,
      and its only break outside a nested loop is the exit test's. */
  lemma LoopBodyFacts(l: nat, cis: seq<Stmt>, c: Ident, bis: seq<Stmt>)
    requires TempAssignments(cis)
    requires BreaksTargetInnermost(bis, None)
    ensures var exit := If(c, [], HasElse([Break(l)]));
      && SUDefs(cis + [exit] + bis) == SUDefs(cis) + SUDefs(bis)
      && Labels(cis + [exit] + bis) == Labels(bis)
      && BreaksTargetInnermost(cis + [exit] + bis, Some(l))
  {
    var exit := If(c, [], HasElse([Break(l)]));
    ExitFacts(l, c);
    SUDefsAppend(cis + [exit], bis);
    SUDefsAppend(cis, [exit]);
    LabelsAppend(cis + [exit], bis);
    LabelsAppend(cis, [exit]);
    StraightLabels(cis);
    LoopBodyBreaks(l, cis, exit, bis);
  }

  lemma SingleLoopFacts(l: nat, body: seq<Stmt>)
    ensures SUDefs([Loop(l, body)]) == SUDefs(body)
    ensures Labels([Loop(l, body)]) == [l] + Labels(body)
    ensures BreaksTargetInnermost(body, Some(l)) ==> BreaksTargetInnermost([Loop(l, body)], None)
  {
    assert [Loop(l, body)][1..] == [];
  }

  lemma ExitFacts(l: nat, c: Ident)
    ensures SUDefs([If(c, [], HasElse([Break(l)]))]) == []
    ensures Labels([If(c, [], HasElse([Break(l)]))]) == []
    ensures StmtBreaksTargetInnermost(If(c, [], HasElse([Break(l)])), Some(l))
  {
    assert SUDefs([Break(l)]) == [] && Labels([Break(l)]) == [];
    assert [Break(l)][0] == Break(l);
  }

  lemma LoopBodyBreaks(l: nat, cis: seq<Stmt>, exit: Stmt, bis: seq<Stmt>)
    requires TempAssignments(cis)
    requires StmtBreaksTargetInnermost(exit, Some(l))
    requires BreaksTargetInnermost(bis, None)
    ensures BreaksTargetInnermost(cis + [exit] + bis, Some(l))
  {
    BreaksAnyLoop(bis, Some(l));
    var all := cis + [exit] + bis;
    forall i | 0 <= i < |all|
      ensures StmtBreaksTargetInnermost(all[i], Some(l))
    {
      if i < |cis| {
        assert all[i] == cis[i];
      } else if i == |cis| {
        assert all[i] == exit;
      } else {
        assert all[i] == bis[i - |cis| - 1];
      }
    }
  }

  /** The bookkeeping of the other cases: flat code followed by one
      statement that is neither control flow nor a temporary's assignment. */
  lemma FlatCodeFacts(code: seq<Stmt>, last: Stmt)
    requires TempAssignments(code)
    requires last.Return? || (last.Assignment? && last.target.Plain?)
    ensures SUDefs(code + [last]) == SUDefs(code)
    ensures Labels(code + [last]) == []
    ensures BreaksTargetInnermost(code + [last], None)
  {
    SUDefsAppend(code, [last]);
    LabelsAppend(code, [last]);
    StraightLabels(code);
    var all := code + [last];
    forall i | 0 <= i < |all|
      ensures StmtBreaksTargetInnermost(all[i], None)
    {
      if i < |code| {
        assert all[i] == code[i];
      }
    }
  }

  lemma {:induction false} StraightLabels(code: seq<Stmt>)
    requires TempAssignments(code)
    ensures Labels(code) == []
    decreases |code|
  {
    if |code| > 0 {
      StraightLabels(code[1..]);
    }
  }

  /** Code without a break outside its own loops may be placed in any loop. */
  lemma BreaksAnyLoop(ss: seq<Stmt>, inner: Option<nat>)
    requires BreaksTargetInnermost(ss, None)
    ensures BreaksTargetInnermost(ss, inner)
  {
    forall i | 0 <= i < |ss|
      ensures StmtBreaksTargetInnermost(ss[i], inner)
    {
      StmtBreaksAnyLoop(ss[i], inner);
    }
  }

  lemma StmtBreaksAnyLoop(s: Stmt, inner: Option<nat>)
    requires StmtBreaksTargetInnermost(s, None)
    ensures StmtBreaksTargetInnermost(s, inner)
    decreases s
  {
    match s
    case If(_, thn, els) =>
      BreaksAnyLoop(thn, inner);
      if els.HasElse? {
        BreaksAnyLoop(els.body, inner);
      }
    case _ =>
  }

  /** `simply_fun_impl`: a fresh state per function, so temporaries and
      labels restart at 1. */
  function SimplifyFunction(f: PFun): (r: SimpleFun)
    requires BlockNoStrings(f.body)
    ensures r.name == f.name && r.params == f.params && r.refs == f.refs
    ensures exists n: nat :: n >= 1 && SUDefs(r.body) == Range(1, n)
    ensures exists n: nat :: n >= 1 && Labels(r.body) == Range(1, n)
    ensures BreaksTargetInnermost(r.body, None)
  {
    var (body, st) := SimplifyBlock(NewState(), f.body);
    assert SUDefs(body) == Range(1, st.nextSU);
    assert Labels(body) == Range(1, st.nextLabel);
    SimpleFun(f.name, f.params, body, f.refs)
  }

  /** The optimisation pass of one function: the peephole passes on its
      top-level body (the statements' tags play no part here). */
  function OptimizeFunction(f: SimpleFun): (r: SimpleFun)
    ensures r.name == f.name && r.params == f.params && r.refs == f.refs
    ensures forall k :: 0 <= k < |r.body| ==> !r.body[k].Nop?
    ensures |r.body| <= |f.body|
  {
    var tagged := seq(|f.body|, k requires 0 <= k < |f.body| => Ax((), f.body[k]));
    var out := Peephole.Optimize(tagged);
    f.(body := Peephole.Values(out))
  }

  /** `simplifier::run`: every function simplified, then optimised. */
  function SimplifyModule(fs: seq<PFun>): (r: seq<SimpleFun>)
    requires forall k :: 0 <= k < |fs| ==> BlockNoStrings(fs[k].body)
    ensures |r| == |fs|
    ensures forall k :: 0 <= k < |fs| ==> r[k] == OptimizeFunction(SimplifyFunction(fs[k]))
    ensures forall k :: 0 <= k < |fs| ==> r[k].name == fs[k].name && r[k].params == fs[k].params && r[k].refs == fs[k].refs
  {
    seq(|fs|, k requires 0 <= k < |fs| => OptimizeFunction(SimplifyFunction(fs[k])))
  }

  // Meaning of the flattened code: straight-line execution of temporary
  // assignments against a fixed valuation of the plain identifiers and an
  // uninterpreted meaning for calls.

  type Env = PlainIdent -> int
  type Calls = (nat, seq<int>) -> int
  type Temps = map<nat, int>

  function EvalExpr(e: PExpr, env: Env, call: Calls): int
    requires NoStrings(e)
    decreases e
  {
    match e
    case PLitNum(n) => n as int
    case PVar(x) => env(x)
    case PCall(g, args) => call(g, EvalArgs(args, env, call))
  }

  function EvalArgs(args: seq<PExpr>, env: Env, call: Calls): (r: seq<int>)
    requires forall i :: 0 <= i < |args| ==> NoStrings(args[i])
    ensures |r| == |args|
    decreases args
  {
    if |args| == 0 then [] else [EvalExpr(args[0], env, call)] + EvalArgs(args[1..], env, call)
  }

  function Lookup(id: Ident, env: Env, temps: Temps): Option<int>
  {
    match id
    case Plain(x) => Some(env(x))
    case SingleUse(t) => if t in temps then Some(temps[t]) else None
  }

  function LookupAll(ids: seq<Ident>, env: Env, temps: Temps): Option<seq<int>>
    decreases |ids|
  {
    if |ids| == 0 then Some([])
    else
      var v := Lookup(ids[0], env, temps);
      var vs := LookupAll(ids[1..], env, temps);
      if v.Some? && vs.Some? then Some([v.value] + vs.value) else None
  }

  function EvalValue(v: Value, env: Env, temps: Temps, call: Calls): Option<int>
  {
    match v
    case Ident(id) => Lookup(id, env, temps)
    case LitNum(n) => Some(n as int)
    case Call(g, ids) =>
      var vs := LookupAll(ids, env, temps);
      if vs.Some? then Some(call(g, vs.value)) else None
  }

  /** Runs temporary assignments; anything else, or reading an unassigned
      temporary, is stuck (`None`). */
  function Exec(code: seq<Stmt>, env: Env, temps: Temps, call: Calls): Option<Temps>
    decreases |code|
  {
    if |code| == 0 then Some(temps)
    else if !(code[0].Assignment? && code[0].target.SingleUse?) then None
    else
      var v := EvalValue(code[0].value, env, temps, call);
      if v.None? then None else Exec(code[1..], env, temps[code[0].target.id := v.value], call)
  }

  lemma {:induction false} ExecAppend(a: seq<Stmt>, b: seq<Stmt>, env: Env, temps: Temps, call: Calls)
    ensures Exec(a + b, env, temps, call)
         == (if Exec(a, env, temps, call).Some? then Exec(b, env, Exec(a, env, temps, call).value, call) else None)
    decreases |a|
  {
    if |a| > 0 {
      assert (a + b)[0] == a[0];
      assert (a + b)[1..] == a[1..] + b;
      if a[0].Assignment? && a[0].target.SingleUse? {
        var v := EvalValue(a[0].value, env, temps, call);
        if v.Some? {
          ExecAppend(a[1..], b, env, temps[a[0].target.id := v.value], call);
        }
      }
    } else {
      assert a + b == b;
    }
  }

  /** `t'` keeps every entry of `t`. */
  predicate Extends(t: Temps, t': Temps)
  {
    forall k :: k in t ==> k in t' && t'[k] == t[k]
  }

  predicate Below(t: Temps, n: nat)
  {
    forall k :: k in t ==> k < n
  }

  lemma ConsLookup(id: Ident, ids: seq<Ident>, env: Env, t: Temps)
    requires Lookup(id, env, t).Some? && LookupAll(ids, env, t).Some?
    ensures LookupAll([id] + ids, env, t) == Some([Lookup(id, env, t).value] + LookupAll(ids, env, t).value)
  {
    assert ([id] + ids)[1..] == ids;
  }

  /** The flattened code of `e`, run from any temporaries all older than
      the state's counter, never gets stuck, only adds entries, stays below
      the new counter, and leaves the value of `e` in the result identifier. */
  lemma {:induction false} CompileExprCorrect(st: SState, e: PExpr, env: Env, temps: Temps, call: Calls)
    requires NoStrings(e) && Below(temps, st.nextSU)
    ensures var (code, id, st') := CompileExpr(st, e);
      && Exec(code, env, temps, call).Some?
      && Extends(temps, Exec(code, env, temps, call).value)
      && Below(Exec(code, env, temps, call).value, st'.nextSU)
      && Lookup(id, env, Exec(code, env, temps, call).value) == Some(EvalExpr(e, env, call))
    decreases e
  {
    match e
    case PLitNum(n) =>
    case PVar(x) =>
    case PCall(g, args) =>
      var (code, ids, st1) := CompileArgs(st, args);
      CompileArgsCorrect(st, args, env, temps, call);
      var t1 := Exec(code, env, temps, call).value;
      var t := st1.nextSU;
      var a := Assignment(SingleUse(t), Call(g, ids));
      ExecAppend(code, [a], env, temps, call);
      assert EvalValue(a.value, env, t1, call) == Some(call(g, EvalArgs(args, env, call)));
      var t2 := t1[t := call(g, EvalArgs(args, env, call))];
      assert Exec([a], env, t1, call) == Exec([], env, t2, call);
      assert Exec(code + [a], env, temps, call) == Some(t2);
  }

  lemma {:induction false} CompileArgsCorrect(st: SState, args: seq<PExpr>, env: Env, temps: Temps, call: Calls)
    requires (forall i :: 0 <= i < |args| ==> NoStrings(args[i])) && Below(temps, st.nextSU)
    ensures var (code, ids, st') := CompileArgs(st, args);
      && Exec(code, env, temps, call).Some?
      && Extends(temps, Exec(code, env, temps, call).value)
      && Below(Exec(code, env, temps, call).value, st'.nextSU)
      && LookupAll(ids, env, Exec(code, env, temps, call).value) == Some(EvalArgs(args, env, call))
    decreases args
  {
    if |args| > 0 {
      var (is0, id0, st1) := CompileExpr(st, args[0]);
      var (is1, ids1, st2) := CompileArgs(st1, args[1..]);
      CompileExprCorrect(st, args[0], env, temps, call);
      var t1 := Exec(is0, env, temps, call).value;
      CompileArgsCorrect(st1, args[1..], env, t1, call);
      var t2 := Exec(is1, env, t1, call).value;
      ExecAppend(is0, is1, env, temps, call);
      assert Exec(is0 + is1, env, temps, call) == Some(t2);
      assert Lookup(id0, env, t2) == Some(EvalExpr(args[0], env, call)) by {
        if id0.SingleUse? {
          assert id0.id in t1;
        }
      }
      ConsLookup(id0, ids1, env, t2);
    }
  }
}
