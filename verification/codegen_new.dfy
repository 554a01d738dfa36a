/** Code generation of the newer back end (compiler/src/codegen/codegen.rs).
    Slots come from one counter instead of the sum of the table sizes, a
    literal is left unboxed, and `If`, `Loop` and `Break` are not
    supported, so bodies are straight-line. */
module CodegenNew {
  import opened Wrappers
  import opened PlainIR
  import opened SimpleIR
  import W = Wasm
  import Renamer
  import Old = CodegenOld

  /** The slot tables of the older generator plus the counter. */
  datatype NState = NState(slots: Old.Slots, next: nat)

  function NewState(): (st: NState)
    ensures st.next == 0 && Old.Count(st.slots) == 0
  {
    NState(Old.EmptySlots(), 0)
  }

  /** Parameter `p` takes the counter's value, duplicates included. */
  function RegisterParam(st: NState, p: nat): (r: NState)
    ensures r.next == st.next + 1
    ensures Old.SlotOf(r.slots, Plain(Local(p))) == Some(st.next)
  {
    NState(st.slots.(params := st.slots.params[p := st.next]), st.next + 1)
  }

  function RegisterParams(st: NState, ps: seq<nat>): (r: NState)
    ensures r.next == st.next + |ps|
    decreases |ps|
  {
    if |ps| == 0 then st else RegisterParams(RegisterParam(st, ps[0]), ps[1..])
  }

  /** The slot of `id`, handing out the counter's value on first use. */
  function Resolve(st: NState, id: Ident): (r: (nat, NState))
    requires IdentLocal(id)
    ensures Old.SlotOf(r.1.slots, id) == Some(r.0)
    ensures Old.SlotOf(st.slots, id).Some? ==> r.1 == st
    ensures Old.SlotOf(st.slots, id).None? ==> r.0 == st.next && r.1.next == st.next + 1
  {
    match id
    case Plain(Local(x)) =>
      if x in st.slots.params then (st.slots.params[x], st)
      else if x in st.slots.locals then (st.slots.locals[x], st)
      else (st.next, NState(st.slots.(locals := st.slots.locals[x := st.next]), st.next + 1))
    case SingleUse(t) =>
      if t in st.slots.singles then (st.slots.singles[t], st)
      else (st.next, NState(st.slots.(singles := st.slots.singles[t := st.next]), st.next + 1))
  }

  /** With the counter equal to the number of slots handed out, the
      counter-based allocator makes exactly the older allocator's choice,
      and the counter stays equal to the count. */
  lemma ResolveAgrees(st: NState, id: Ident)
    requires IdentLocal(id) && st.next == Old.Count(st.slots)
    ensures var (k, st') := Resolve(st, id);
      (k, st'.slots) == Old.ResolveIdent(st.slots, id) && st'.next == Old.Count(st'.slots)
  {
  }

  function ResolveAll(st: NState, ids: seq<Ident>): (r: (seq<nat>, NState))
    requires forall i :: 0 <= i < |ids| ==> IdentLocal(ids[i])
    ensures |r.0| == |ids|
    decreases |ids|
  {
    if |ids| == 0 then ([], st)
    else
      var (k, st1) := Resolve(st, ids[0]);
      var (ks, st2) := ResolveAll(st1, ids[1..]);
      ([k] + ks, st2)
  }

  lemma {:induction false} ResolveAllAgrees(st: NState, ids: seq<Ident>)
    requires forall i :: 0 <= i < |ids| ==> IdentLocal(ids[i])
    requires st.next == Old.Count(st.slots)
    ensures var (ks, st') := ResolveAll(st, ids);
      (ks, st'.slots) == Old.ResolveAll(st.slots, ids) && st'.next == Old.Count(st'.slots)
    decreases |ids|
  {
    if |ids| > 0 {
      ResolveAgrees(st, ids[0]);
      ResolveAllAgrees(Resolve(st, ids[0]).1, ids[1..]);
    }
  }

  /** The statement forms the newer generator handles. */
  predicate Supported(ss: seq<Stmt>)
  {
    StraightLine(ss) && AllLocal(ss)
  }

  function CodegenValue(st: NState, v: Value): (r: (seq<W.Instr>, NState))
    requires ValueLocal(v)
    ensures v.LitNum? ==> r.0 == [W.I32Const(v.n)] && r.1 == st
    ensures v.Ident? ==> |r.0| == 1 && r.0[0].LocalGet? && Old.SlotOf(r.1.slots, v.ident) == Some(r.0[0].idx)
    ensures v.Call? ==> |r.0| == |v.args| + 1 && r.0[|v.args|] == W.CallRef(v.fun, |v.args|)
  {
    match v
    case LitNum(n) => ([W.I32Const(n)], st)
    case Ident(id) =>
      var (k, st') := Resolve(st, id);
      ([W.LocalGet(k)], st')
    case Call(f, args) =>
      var (ks, st') := ResolveAll(st, args);
      (Old.Gets(ks) + [W.CallRef(f, |args|)], st')
  }

  function CodegenStmt(st: NState, s: Stmt): (r: (seq<W.Instr>, NState))
    requires StmtLocal(s) && !s.If? && !s.Loop? && !s.Break?
  {
    match s
    case Assignment(target, v) =>
      var (vc, st1) := CodegenValue(st, v);
      var (t, st2) := Resolve(st1, target);
      (vc + [W.LocalSet(t)], st2)
    case Return(id) =>
      var (k, st1) := Resolve(st, id);
      ([W.LocalGet(k), W.Return], st1)
    case Nop => ([], st)
  }

  function CodegenBlock(st: NState, ss: seq<Stmt>): (r: (seq<W.Instr>, NState))
    requires Supported(ss)
    decreases |ss|
  {
    if |ss| == 0 then ([], st)
    else
      var (c1, st1) := CodegenStmt(st, ss[0]);
      var (c2, st2) := CodegenBlock(st1, ss[1..]);
      (c1 + c2, st2)
  }

  /** A generated implementation: one `i32` parameter per source
      parameter, and the body. */
  datatype FunImpl = FunImpl(params: nat, body: seq<W.Instr>)

  /** A generated function keeps its name and reference table. */
  datatype Fragment = Fragment(name: string, impl: FunImpl, refs: seq<string>)

  function CodegenFunction(f: SimpleFun): (r: Fragment)
    requires Supported(f.body)
    ensures r.name == f.name && r.refs == f.refs && r.impl.params == |f.params|
    ensures W.Plain(r.impl.body)
  {
    var st := RegisterParams(NewState(), f.params);
    var (code, _) := CodegenBlock(st, f.body);
    BlockPlain(st, f.body);
    Fragment(f.name, FunImpl(|f.params|, code), f.refs)
  }

  lemma {:induction false} BlockPlain(st: NState, ss: seq<Stmt>)
    requires Supported(ss)
    ensures W.Plain(CodegenBlock(st, ss).0)
    decreases |ss|
  {
    if |ss| > 0 {
      BlockPlain(CodegenStmt(st, ss[0]).1, ss[1..]);
    }
  }

  // ---------------------------------------------------------------------
  // Agreement with the older generator

  /** Distinct parameters leave the counter equal to the number of slots,
      with the same tables as the older generator. */
  lemma ParamsAgree(ps: seq<nat>)
    requires Renamer.NoDup(ps)
    ensures Old.RegisterParams(Old.EmptySlots(), ps).Ok?
    ensures RegisterParams(NewState(), ps).slots == Old.RegisterParams(Old.EmptySlots(), ps).value
    ensures RegisterParams(NewState(), ps).next == Old.Count(RegisterParams(NewState(), ps).slots)
  {
    ParamsAgreeFrom(NewState(), ps);
  }

  lemma {:induction false} ParamsAgreeFrom(st: NState, ps: seq<nat>)
    requires Renamer.NoDup(ps) && forall i :: 0 <= i < |ps| ==> ps[i] !in st.slots.params
    requires |st.slots.locals| == 0 && |st.slots.singles| == 0 && st.next == |st.slots.params|
    ensures Old.RegisterParams(st.slots, ps).Ok?
    ensures RegisterParams(st, ps).slots == Old.RegisterParams(st.slots, ps).value
    ensures RegisterParams(st, ps).next == Old.Count(RegisterParams(st, ps).slots)
    decreases |ps|
  {
    if |ps| > 0 {
      var st1 := RegisterParam(st, ps[0]);
      assert st1.slots == Old.RegisterParam(st.slots, ps[0]).value;
      assert forall i :: 0 <= i < |ps| - 1 ==> ps[1..][i] == ps[i + 1];
      ParamsAgreeFrom(st1, ps[1..]);
    }
  }

  /** The older generator's code with the boxing call that follows each
      literal removed. */
  function StripBoxing(code: seq<W.Instr>): (r: seq<W.Instr>)
    decreases |code|
  {
    if |code| == 0 then []
    else if code[0].I32Const? && |code| >= 2 then [code[0]] + StripBoxing(code[2..])
    else [code[0]] + StripBoxing(code[1..])
  }

  lemma {:induction false} StripBoxingAppend(a: seq<W.Instr>, b: seq<W.Instr>)
    requires |a| > 0 ==> !a[|a| - 1].I32Const?
    ensures StripBoxing(a + b) == StripBoxing(a) + StripBoxing(b)
    decreases |a|
  {
    if |a| == 0 {
      assert a + b == b;
    } else if a[0].I32Const? {
      assert (a + b)[2..] == a[2..] + b;
      StripBoxingAppend(a[2..], b);
    } else {
      assert (a + b)[1..] == a[1..] + b;
      StripBoxingAppend(a[1..], b);
    }
  }

  lemma {:induction false} StripNoConst(code: seq<W.Instr>)
    requires forall k :: 0 <= k < |code| ==> !code[k].I32Const?
    ensures StripBoxing(code) == code
    decreases |code|
  {
    if |code| > 0 {
      StripNoConst(code[1..]);
    }
  }

  /** On straight-line bodies, starting from the same tables, the newer
      generator hands out the same slots as the older one and emits the
      older code minus the boxing call after each literal. */
  lemma {:induction false} NewMatchesOld(ost: Old.CgState, depths: seq<nat>, st: NState, ss: seq<Stmt>)
    requires Supported(ss) && st.slots == ost.slots && st.next == Old.Count(st.slots)
    ensures Old.CodegenBlock(ost, depths, ss).Ok?
    ensures var (code, ost') := Old.CodegenBlock(ost, depths, ss).value;
      var (code', st') := CodegenBlock(st, ss);
      code' == StripBoxing(code) && st'.slots == ost'.slots && st'.next == Old.Count(st'.slots)
    decreases |ss|
  {
    if |ss| > 0 {
      StmtMatchesOld(ost, depths, st, ss[0]);
      var (c1, ost1) := Old.CodegenStmt(ost, depths, ss[0]).value;
      var st1 := CodegenStmt(st, ss[0]).1;
      NewMatchesOld(ost1, depths, st1, ss[1..]);
      var (c2, ost2) := Old.CodegenBlock(ost1, depths, ss[1..]).value;
      StripBoxingAppend(c1, c2);
    }
  }

  lemma StmtMatchesOld(ost: Old.CgState, depths: seq<nat>, st: NState, s: Stmt)
    requires StmtLocal(s) && !s.If? && !s.Loop? && !s.Break?
    requires st.slots == ost.slots && st.next == Old.Count(st.slots)
    ensures Old.CodegenStmt(ost, depths, s).Ok?
    ensures var (code, ost') := Old.CodegenStmt(ost, depths, s).value;
      var (code', st') := CodegenStmt(st, s);
      code' == StripBoxing(code) && st'.slots == ost'.slots && st'.next == Old.Count(st'.slots) &&
      (|code| > 0 ==> !code[|code| - 1].I32Const?)
  {
    match s
    case Assignment(target, v) => AssignMatchesOld(ost, st, target, v);
    case Return(id) =>
      ResolveAgrees(st, id);
      var code := Old.CodegenStmt(ost, depths, s).value.0;
      StripNoConst(code);
    case Nop =>
  }

  lemma AssignMatchesOld(ost: Old.CgState, st: NState, target: Ident, v: Value)
    requires IdentLocal(target) && ValueLocal(v)
    requires st.slots == ost.slots && st.next == Old.Count(st.slots)
    ensures var (code, ost') := Old.CodegenAssign(ost, target, v);
      var (code', st') := CodegenStmt(st, Assignment(target, v));
      code' == StripBoxing(code) && st'.slots == ost'.slots && st'.next == Old.Count(st'.slots) &&
      !code[|code| - 1].I32Const?
  {
    var (vc, ost1) := Old.CodegenValue(ost, v);
    var (vc', st1) := CodegenValue(st, v);
    ValueMatchesOld(ost, st, v);
    ResolveAgrees(st1, target);
    var (t, s2) := Old.ResolveIdent(ost1.slots, target);
    var code := vc + [W.LocalSet(t)];
    if v.LitNum? {
      assert code == [vc[0], vc[1], W.LocalSet(t)];
      assert code[2..] == [W.LocalSet(t)];
      assert StripBoxing([W.LocalSet(t)]) == [W.LocalSet(t)];
    } else {
      StripNoConst(code);
    }
  }

  /** The value's code: a literal loses its boxing call, anything else is
      the same, with the same slots. */
  lemma ValueMatchesOld(ost: Old.CgState, st: NState, v: Value)
    requires ValueLocal(v)
    requires st.slots == ost.slots && st.next == Old.Count(st.slots)
    ensures var (vc, ost1) := Old.CodegenValue(ost, v);
      var (vc', st1) := CodegenValue(st, v);
      st1.slots == ost1.slots && st1.next == Old.Count(st1.slots) &&
      (v.LitNum? ==> |vc| == 2 && vc' == [vc[0]]) &&
      (!v.LitNum? ==> vc' == vc && forall k :: 0 <= k < |vc| ==> !vc[k].I32Const?)
  {
    match v
    case LitNum(n) =>
    case Ident(id) => ResolveAgrees(st, id);
    case Call(f, args) => ResolveAllAgrees(st, args);
  }
  /** For a renamed function (distinct parameters) with a straight-line
      body, the newer generator's body is the older one's minus the boxing
      calls, with the same parameter count and name. */
  lemma FunctionMatchesOld(f: SimpleFun)
    requires Supported(f.body) && Renamer.NoDup(f.params)
    ensures Old.CodegenFunction(f).Ok?
    ensures CodegenFunction(f).impl.body == StripBoxing(Old.CodegenFunction(f).value.body)
    ensures CodegenFunction(f).impl.params == |Old.CodegenFunction(f).value.params|
  {
    ParamsAgree(f.params);
    var slots := Old.RegisterParams(Old.EmptySlots(), f.params).value;
    NewMatchesOld(Old.CgState(slots, f.refs), [], RegisterParams(NewState(), f.params), f.body);
  }
}
