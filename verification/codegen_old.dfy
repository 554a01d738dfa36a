/** Code generation of the older back end
    (compiler_old/src/codegen_wasm/codegen.rs): every identifier of a
    simplified function gets a flat local slot, statements become
    WebAssembly instructions with call placeholders, and a stack of
    depths turns each `Break` into a `br` to the exit of its loop. */
module CodegenOld {
  import opened Wrappers
  import opened PlainIR
  import opened SimpleIR
  import W = Wasm
  import Renamer
  import Ints

  /** The slot tables: parameters, plain locals and single-use
      temporaries, each keyed by its id. */
  datatype Slots = Slots(params: map<nat, nat>, locals: map<nat, nat>, singles: map<nat, nat>)

  function EmptySlots(): (s: Slots)
    ensures Count(s) == 0
  {
    Slots(map[], map[], map[])
  }

  /** How many slots have been handed out. */
  function Count(s: Slots): nat
  {
    |s.params| + |s.locals| + |s.singles|
  }

  /** The slot an identifier already has; a parameter shadows a local of
      the same id. Globals never have one. */
  function SlotOf(s: Slots, id: Ident): Option<nat>
  {
    match id
    case Plain(Local(x)) =>
      if x in s.params then Some(s.params[x]) else if x in s.locals then Some(s.locals[x]) else None
    case Plain(Global(_)) => None
    case SingleUse(t) => if t in s.singles then Some(s.singles[t]) else None
  }

  /** Some identifier holds slot `n`. */
  ghost predicate Used(s: Slots, n: nat)
  {
    exists a :: SlotOf(s, a) == Some(n)
  }

  /** Slots are below the count, distinct identifiers have distinct slots,
      and every slot below the count is taken: slots are `0 .. Count - 1`,
      one per identifier. */
  ghost predicate SlotsOk(s: Slots)
  {
    (forall a :: SlotOf(s, a).Some? ==> SlotOf(s, a).value < Count(s)) &&
    (forall a, b :: SlotOf(s, a).Some? && SlotOf(s, a) == SlotOf(s, b) ==> a == b) &&
    (forall n :: 0 <= n < Count(s) ==> Used(s, n))
  }

  /** Every identifier with a slot in `s` keeps it in `s'`. */
  ghost predicate Extends(s: Slots, s': Slots)
  {
    Count(s) <= Count(s') && forall a :: SlotOf(s, a).Some? ==> SlotOf(s', a) == SlotOf(s, a)
  }

  /** Registers parameter `p` under the next parameter slot; fails once a
      local or temporary has a slot. */
  function RegisterParam(s: Slots, p: nat): (r: Result<Slots, string>)
    ensures r.Ok? <==> |s.locals| == 0 && |s.singles| == 0
    ensures r.Ok? ==> SlotOf(r.value, Plain(Local(p))) == Some(|s.params|)
    ensures r.Ok? && p !in s.params ==> Count(r.value) == Count(s) + 1 && Extends(s, r.value)
  {
    if |s.locals| != 0 || |s.singles| != 0 then Err("register_param: locals or single_uses is not empty")
    else Ok(s.(params := s.params[p := |s.params|]))
  }

  /** Registers the parameters in order: fails when there is one to
      register and a local or temporary already has a slot; otherwise
      every parameter has a slot, earlier parameters keep theirs, and no
      local or temporary is added. */
  function RegisterParams(s: Slots, ps: seq<nat>): (r: Result<Slots, string>)
    ensures r.Ok? <==> |ps| == 0 || (|s.locals| == 0 && |s.singles| == 0)
    ensures r.Ok? ==> r.value.locals == s.locals && r.value.singles == s.singles
    ensures r.Ok? ==> forall p :: p in s.params ==> p in r.value.params
    ensures r.Ok? ==> forall i :: 0 <= i < |ps| ==> ps[i] in r.value.params
    decreases |ps|
  {
    if |ps| == 0 then Ok(s)
    else
      match RegisterParam(s, ps[0])
      case Err(e) => Err(e)
      case Ok(s') => RegisterParams(s', ps[1..])
  }

  /** From empty tables, distinct parameters take slots `0 .. |ps| - 1` in
      order and nothing else has a slot. */
  lemma ParamsTakeLeadingSlots(ps: seq<nat>)
    requires Renamer.NoDup(ps)
    ensures RegisterParams(EmptySlots(), ps).Ok?
    ensures var s := RegisterParams(EmptySlots(), ps).value;
      Count(s) == |ps| && |s.locals| == 0 && |s.singles| == 0 && SlotsOk(s) &&
      forall i :: 0 <= i < |ps| ==> SlotOf(s, Plain(Local(ps[i]))) == Some(i)
  {
    ParamsFrom(EmptySlots(), ps);
  }

  lemma {:induction false} ParamsFrom(s: Slots, ps: seq<nat>)
    requires Renamer.NoDup(ps) && forall i :: 0 <= i < |ps| ==> ps[i] !in s.params
    requires |s.locals| == 0 && |s.singles| == 0 && SlotsOk(s)
    ensures RegisterParams(s, ps).Ok?
    ensures var s' := RegisterParams(s, ps).value;
      Count(s') == Count(s) + |ps| && |s'.locals| == 0 && |s'.singles| == 0 && SlotsOk(s') &&
      Extends(s, s') && forall i :: 0 <= i < |ps| ==> SlotOf(s', Plain(Local(ps[i]))) == Some(Count(s) + i)
    decreases |ps|
  {
    if |ps| > 0 {
      var p := ps[0];
      var s1 := RegisterParam(s, p).value;
      AddParamOk(s, p);
      var tail := ps[1..];
      assert Renamer.NoDup(tail) by {
        forall i, j | 0 <= i < j < |tail| ensures tail[i] != tail[j] {
          assert tail[i] == ps[i + 1] && tail[j] == ps[j + 1];
        }
      }
      forall i | 0 <= i < |tail| ensures tail[i] !in s1.params {
        assert tail[i] == ps[i + 1] && ps[i + 1] != ps[0];
      }
      ParamsFrom(s1, tail);
      var s' := RegisterParams(s1, tail).value;
      assert RegisterParams(s, ps) == RegisterParams(s1, tail);
      ExtendsTrans(s, s1, s');
      forall i | 0 <= i < |ps| ensures SlotOf(s', Plain(Local(ps[i]))) == Some(Count(s) + i) {
        if i > 0 {
          assert ps[i] == tail[i - 1];
        }
      }
    }
  }

  lemma AddParamOk(s: Slots, p: nat)
    requires |s.locals| == 0 && |s.singles| == 0 && SlotsOk(s) && p !in s.params
    ensures SlotsOk(RegisterParam(s, p).value)
  {
    var s' := RegisterParam(s, p).value;
    var newId := Plain(Local(p));
    forall a | SlotOf(s, a).Some? ensures SlotOf(s', a) == SlotOf(s, a) {
    }
    forall n | 0 <= n < Count(s') ensures Used(s', n) {
      if n < Count(s) {
        assert Used(s, n);
        var a :| SlotOf(s, a) == Some(n);
        assert SlotOf(s', a) == Some(n);
      } else {
        assert SlotOf(s', newId) == Some(n);
      }
    }
    forall a, b | SlotOf(s', a).Some? && SlotOf(s', a) == SlotOf(s', b) ensures a == b {
      if a != newId && b != newId {
        assert SlotOf(s', a) == SlotOf(s, a) && SlotOf(s', b) == SlotOf(s, b);
      }
    }
  }

  /** The slot of `id`, handing out the next one on first use. */
  function ResolveIdent(s: Slots, id: Ident): (r: (nat, Slots))
    requires IdentLocal(id)
    ensures SlotOf(r.1, id) == Some(r.0)
    ensures SlotOf(s, id).Some? ==> r.1 == s
    ensures SlotOf(s, id).None? ==> r.0 == Count(s) && Count(r.1) == Count(s) + 1
  {
    match id
    case Plain(Local(x)) =>
      if x in s.params then (s.params[x], s)
      else if x in s.locals then (s.locals[x], s)
      else (Count(s), s.(locals := s.locals[x := Count(s)]))
    case SingleUse(t) =>
      if t in s.singles then (s.singles[t], s)
      else (Count(s), s.(singles := s.singles[t := Count(s)]))
  }

  /** Resolving keeps every earlier slot and keeps the tables well formed. */
  lemma ResolveIdentOk(s: Slots, id: Ident)
    requires IdentLocal(id)
    ensures Extends(s, ResolveIdent(s, id).1)
    ensures SlotsOk(s) ==> SlotsOk(ResolveIdent(s, id).1)
  {
    var s' := ResolveIdent(s, id).1;
    if SlotOf(s, id).None? {
      forall a | a != id ensures SlotOf(s', a) == SlotOf(s, a) {
      }
      FreshSlotOk(s, id, s');
    }
  }

  /** Adding `id` under the next slot, leaving every other identifier's
      slot alone, keeps the tables well formed. */
  lemma FreshSlotOk(s: Slots, id: Ident, s': Slots)
    requires SlotOf(s, id).None? && SlotOf(s', id) == Some(Count(s)) && Count(s') == Count(s) + 1
    requires forall a :: a != id ==> SlotOf(s', a) == SlotOf(s, a)
    ensures Extends(s, s')
    ensures SlotsOk(s) ==> SlotsOk(s')
  {
    if SlotsOk(s) {
      forall n | 0 <= n < Count(s') ensures Used(s', n) {
        if n < Count(s) {
          assert Used(s, n);
          var a :| SlotOf(s, a) == Some(n);
          assert SlotOf(s', a) == Some(n);
        } else {
          assert SlotOf(s', id) == Some(n);
        }
      }
      forall a, b | SlotOf(s', a).Some? && SlotOf(s', a) == SlotOf(s', b) ensures a == b {
        if a != id && b != id {
          assert SlotOf(s', a) == SlotOf(s, a) && SlotOf(s', b) == SlotOf(s, b);
        }
      }
    }
  }

  /** The slots of `ids`, resolved left to right. */
  function ResolveAll(s: Slots, ids: seq<Ident>): (r: (seq<nat>, Slots))
    requires forall i :: 0 <= i < |ids| ==> IdentLocal(ids[i])
    ensures |r.0| == |ids|
    ensures forall i :: 0 <= i < |ids| ==> SlotOf(r.1, ids[i]) == Some(r.0[i])
    ensures Extends(s, r.1)
    decreases |ids|
  {
    if |ids| == 0 then ([], s)
    else
      var (k, s1) := ResolveIdent(s, ids[0]);
      ResolveIdentOk(s, ids[0]);
      var (ks, s2) := ResolveAll(s1, ids[1..]);
      assert forall i :: 1 <= i < |ids| ==> ids[i] == ids[1..][i - 1];
      ([k] + ks, s2)
  }

  lemma {:induction false} ResolveAllOk(s: Slots, ids: seq<Ident>)
    requires forall i :: 0 <= i < |ids| ==> IdentLocal(ids[i])
    ensures SlotsOk(s) ==> SlotsOk(ResolveAll(s, ids).1)
    decreases |ids|
  {
    if |ids| > 0 {
      ResolveIdentOk(s, ids[0]);
      ResolveAllOk(ResolveIdent(s, ids[0]).1, ids[1..]);
    }
  }

  /** The first position of `name` in `refs`. */
  function FindRef(refs: seq<string>, name: string): (r: Option<nat>)
    ensures r.Some? ==> r.value < |refs| && refs[r.value] == name
    ensures r.Some? ==> forall j :: 0 <= j < r.value ==> refs[j] != name
    ensures r.None? <==> name !in refs
    decreases |refs|
  {
    if |refs| == 0 then None
    else if refs[|refs| - 1] == name && FindRef(refs[..|refs| - 1], name).None? then Some(|refs| - 1)
    else
      assert forall j :: 0 <= j < |refs| - 1 ==> refs[..|refs| - 1][j] == refs[j];
      FindRef(refs[..|refs| - 1], name)
  }

  /** The global id under which `name` is referenced, adding it at the end
      of the table when it is new. */
  function RegisterCall(refs: seq<string>, name: string): (r: (nat, seq<string>))
    ensures r.0 < |r.1| && r.1[r.0] == name
    ensures refs <= r.1
    ensures name in refs ==> r.1 == refs
    ensures name !in refs ==> r.0 == |refs| && |r.1| == |refs| + 1
  {
    match FindRef(refs, name)
    case Some(i) => (i, refs)
    case None => (|refs|, refs + [name])
  }

  const PackName: string := "__prim_pack_i32"

  datatype CgState = CgState(slots: Slots, refs: seq<string>)

  function Gets(ks: seq<nat>): (r: seq<W.Instr>)
    ensures |r| == |ks| && forall i :: 0 <= i < |ks| ==> r[i] == W.LocalGet(ks[i])
  {
    seq(|ks|, i requires 0 <= i < |ks| => W.LocalGet(ks[i]))
  }

  /** A literal: the constant, then a call of the packing primitive,
      registered as a reference. */
  function CodegenLit(st: CgState, n: Ints.Int32): (r: (seq<W.Instr>, CgState))
    ensures GrowsByPack(st.refs, r.1.refs) && r.1.slots == st.slots
    ensures |r.0| == 2 && r.0[0] == W.I32Const(n) && r.0[1].CallRef? && r.0[1].arity == 1
    ensures r.0[1].fun < |r.1.refs| && r.1.refs[r.0[1].fun] == PackName
  {
    var p := RegisterCall(st.refs, PackName);
    ([W.I32Const(n), W.CallRef(p.0, 1)], st.(refs := p.1))
  }

  /** A call: a `local.get` per argument, then the call placeholder. */
  function CodegenCall(st: CgState, f: nat, args: seq<Ident>): (r: (seq<W.Instr>, CgState))
    requires forall i :: 0 <= i < |args| ==> IdentLocal(args[i])
    ensures r.1.refs == st.refs
    ensures |r.0| == |args| + 1 && r.0[|args|] == W.CallRef(f, |args|)
    ensures forall i :: 0 <= i < |args| ==> r.0[i].LocalGet? && SlotOf(r.1.slots, args[i]) == Some(r.0[i].idx)
  {
    var p := ResolveAll(st.slots, args);
    (Gets(p.0) + [W.CallRef(f, |args|)], st.(slots := p.1))
  }

  /** The instructions that leave `v` on the operand stack. */
  function CodegenValue(st: CgState, v: Value): (r: (seq<W.Instr>, CgState))
    requires ValueLocal(v)
    ensures GrowsByPack(st.refs, r.1.refs)
    ensures v.LitNum? ==>
      |r.0| == 2 && r.0[0] == W.I32Const(v.n) && r.0[1].CallRef? && r.0[1].arity == 1 &&
      r.0[1].fun < |r.1.refs| && r.1.refs[r.0[1].fun] == PackName && r.1.slots == st.slots
    ensures v.Ident? ==> |r.0| == 1 && r.0[0].LocalGet? && SlotOf(r.1.slots, v.ident) == Some(r.0[0].idx)
    ensures v.Call? ==> |r.0| == |v.args| + 1 && r.0[|v.args|] == W.CallRef(v.fun, |v.args|)
    ensures v.Call? ==> forall i :: 0 <= i < |v.args| ==>
      r.0[i].LocalGet? && SlotOf(r.1.slots, v.args[i]) == Some(r.0[i].idx)
    ensures !v.LitNum? ==> r.1.refs == st.refs
  {
    match v
    case LitNum(n) => CodegenLit(st, n)
    case Ident(id) =>
      var p := ResolveIdent(st.slots, id);
      ([W.LocalGet(p.0)], st.(slots := p.1))
    case Call(f, args) => CodegenCall(st, f, args)
  }

  /** The depth stack inside a construct that is not a break target: the
      innermost entry counts one more label. */
  function Bump(depths: seq<nat>): (r: seq<nat>)
    ensures |r| == |depths|
    ensures |depths| > 0 ==> r[|r| - 1] == depths[|depths| - 1] + 1
  {
    if |depths| == 0 then depths else depths[..|depths| - 1] + [depths[|depths| - 1] + 1]
  }

  /** The depth stack inside a loop body: a new break target, opened
      inside the non-target `loop` that sits in the target `block`. */
  function LoopDepths(depths: seq<nat>): (r: seq<nat>)
    ensures |r| > 0 && r[|r| - 1] == 0
  {
    Bump(depths + [0]) + [0]
  }

  /** An assignment: the value, then `local.set` of the target, whose slot
      is resolved after the value's. */
  function CodegenAssign(st: CgState, target: Ident, v: Value): (r: (seq<W.Instr>, CgState))
    requires IdentLocal(target) && ValueLocal(v)
    ensures |r.0| > 0 && r.0[|r.0| - 1].LocalSet? && SlotOf(r.1.slots, target) == Some(r.0[|r.0| - 1].idx)
    ensures r.0[..|r.0| - 1] == CodegenValue(st, v).0
  {
    var val := CodegenValue(st, v);
    var t := ResolveIdent(val.1.slots, target);
    (val.0 + [W.LocalSet(t.0)], val.1.(slots := t.1))
  }

  function CodegenStmt(st: CgState, depths: seq<nat>, s: Stmt): Result<(seq<W.Instr>, CgState), string>
    requires StmtLocal(s)
    decreases s, 1
  {
    match s
    case Assignment(target, v) => Ok(CodegenAssign(st, target, v))
    case Return(id) =>
      var p := ResolveIdent(st.slots, id);
      Ok(([W.LocalGet(p.0), W.Return], st.(slots := p.1)))
    case Nop => Ok(([], st))
    case If(c, thn, els) => CodegenIf(st, depths, c, thn, els)
    case Loop(l, body) => CodegenLoop(st, depths, l, body)
    case Break(_) =>
      if |depths| == 0 then Err("break outside a loop")
      else Ok(([W.Br(depths[|depths| - 1] + 1)], st))
  }

  /** `local.get` of the condition, `if`, the then-branch, `else` and the
      else-branch when there is one, `end`; both branches are one label
      deeper than the statement. */
  function CodegenIf(st: CgState, depths: seq<nat>, c: Ident, thn: seq<Stmt>, els: ElseBranch)
    : Result<(seq<W.Instr>, CgState), string>
    requires StmtLocal(If(c, thn, els))
    decreases If(c, thn, els), 0
  {
    var p := ResolveIdent(st.slots, c);
    var t := CodegenBlock(st.(slots := p.1), Bump(depths), thn);
    if t.Err? then Err(t.error)
    else
      match els
      case NoElse => Ok(([W.LocalGet(p.0), W.If] + t.value.0 + [W.End], t.value.1))
      case HasElse(eb) =>
        var e := CodegenBlock(t.value.1, Bump(depths), eb);
        if e.Err? then Err(e.error)
        else Ok(([W.LocalGet(p.0), W.If] + t.value.0 + [W.Else] + e.value.0 + [W.End], e.value.1))
  }

  /** `block`, `loop`, the body, `br 0` back to the loop head, `end`,
      `end`: a `br` to the block leaves the loop. */
  function CodegenLoop(st: CgState, depths: seq<nat>, l: nat, body: seq<Stmt>)
    : Result<(seq<W.Instr>, CgState), string>
    requires StmtLocal(Loop(l, body))
    decreases Loop(l, body), 0
  {
    var b := CodegenBlock(st, LoopDepths(depths), body);
    if b.Err? then Err(b.error)
    else Ok(([W.Block, W.Loop] + b.value.0 + [W.Br(0), W.End, W.End], b.value.1))
  }

  function CodegenBlock(st: CgState, depths: seq<nat>, ss: seq<Stmt>): Result<(seq<W.Instr>, CgState), string>
    requires AllLocal(ss)
    decreases ss, 2
  {
    if |ss| == 0 then Ok(([], st))
    else
      var h := CodegenStmt(st, depths, ss[0]);
      if h.Err? then Err(h.error)
      else
        var t := CodegenBlock(h.value.1, depths, ss[1..]);
        if t.Err? then Err(t.error)
        else Ok((h.value.0 + t.value.0, t.value.1))
  }

  /** A function ready for linking: its name, whether it is exported, its
      parameter types, its body and its reference table. */
  datatype Fragment = Fragment(name: string, exported: bool, params: seq<W.ValType>, body: seq<W.Instr>, refs: seq<string>)

  /** Registers the parameters, then generates the body from outside any
      loop; every generated function is exported. */
  function CodegenFunction(f: SimpleFun): (r: Result<Fragment, string>)
    requires AllLocal(f.body)
    ensures r.Ok? <==> BreaksInLoops(f.body, false)
    ensures r.Ok? ==> r.value.name == f.name && r.value.exported
    ensures r.Ok? ==> |r.value.params| == |f.params| && forall i :: 0 <= i < |f.params| ==> r.value.params[i] == W.ObjectRef
    ensures r.Ok? ==> GrowsByPack(f.refs, r.value.refs)
  {
    RegisterParamsFromEmpty(f.params);
    var slots := RegisterParams(EmptySlots(), f.params).value;
    match CodegenBlock(CgState(slots, f.refs), [], f.body)
    case Err(e) =>
      CodegenSucceeds(CgState(slots, f.refs), [], f.body);
      Err(e)
    case Ok((code, st)) =>
      CodegenSucceeds(CgState(slots, f.refs), [], f.body);
      CodegenRefs(CgState(slots, f.refs), [], f.body);
      Ok(Fragment(f.name, true, seq(|f.params|, _ => W.ObjectRef), code, st.refs))
  }

  /** Registering parameters into empty tables never fails, duplicates
      included. */
  lemma {:induction false} RegisterParamsFromEmpty(ps: seq<nat>)
    ensures RegisterParams(EmptySlots(), ps).Ok?
  {
    NoLocalsNoFailure(EmptySlots(), ps);
  }

  lemma {:induction false} NoLocalsNoFailure(s: Slots, ps: seq<nat>)
    requires |s.locals| == 0 && |s.singles| == 0
    ensures RegisterParams(s, ps).Ok?
    decreases |ps|
  {
    if |ps| > 0 {
      NoLocalsNoFailure(RegisterParam(s, ps[0]).value, ps[1..]);
    }
  }

  // ---------------------------------------------------------------------
  // Success

  /** Every `Break` sits inside some loop. */
  predicate BreaksInLoops(ss: seq<Stmt>, inLoop: bool)
    decreases ss
  {
    forall i :: 0 <= i < |ss| ==> StmtBreaksInLoops(ss[i], inLoop)
  }

  predicate StmtBreaksInLoops(s: Stmt, inLoop: bool)
    decreases s
  {
    match s
    case Break(_) => inLoop
    case Loop(_, body) => BreaksInLoops(body, true)
    case If(_, thn, HasElse(els)) => BreaksInLoops(thn, inLoop) && BreaksInLoops(els, inLoop)
    case If(_, thn, NoElse) => BreaksInLoops(thn, inLoop)
    case _ => true
  }

  lemma BlockBreaksSplit(ss: seq<Stmt>, inLoop: bool)
    requires |ss| > 0
    ensures BreaksInLoops(ss, inLoop) <==> StmtBreaksInLoops(ss[0], inLoop) && BreaksInLoops(ss[1..], inLoop)
  {
    assert forall i :: 1 <= i < |ss| ==> ss[i] == ss[1..][i - 1];
  }

  /** Generation fails exactly on a `Break` outside every loop. */
  lemma {:induction false} CodegenSucceeds(st: CgState, depths: seq<nat>, ss: seq<Stmt>)
    requires AllLocal(ss)
    ensures CodegenBlock(st, depths, ss).Ok? <==> BreaksInLoops(ss, |depths| > 0)
    decreases ss, 2
  {
    if |ss| > 0 {
      CodegenStmtSucceeds(st, depths, ss[0]);
      var r := CodegenStmt(st, depths, ss[0]);
      if r.Ok? {
        CodegenSucceeds(r.value.1, depths, ss[1..]);
      }
      BlockBreaksSplit(ss, |depths| > 0);
    }
  }

  lemma {:induction false} CodegenStmtSucceeds(st: CgState, depths: seq<nat>, s: Stmt)
    requires StmtLocal(s)
    ensures CodegenStmt(st, depths, s).Ok? <==> StmtBreaksInLoops(s, |depths| > 0)
    decreases s, 1
  {
    match s
    case If(c, thn, els) => IfSucceeds(st, depths, c, thn, els);
    case Loop(l, body) => CodegenSucceeds(st, LoopDepths(depths), body);
    case _ =>
  }

  lemma {:induction false} IfSucceeds(st: CgState, depths: seq<nat>, c: Ident, thn: seq<Stmt>, els: ElseBranch)
    requires StmtLocal(If(c, thn, els))
    ensures CodegenIf(st, depths, c, thn, els).Ok? <==> StmtBreaksInLoops(If(c, thn, els), |depths| > 0)
    decreases If(c, thn, els), 0
  {
    var (k, s1) := ResolveIdent(st.slots, c);
    CodegenSucceeds(st.(slots := s1), Bump(depths), thn);
    var r := CodegenBlock(st.(slots := s1), Bump(depths), thn);
    if r.Ok? && els.HasElse? {
      CodegenSucceeds(r.value.1, Bump(depths), els.body);
    }
  }

  /** The simplifier's guarantee that every `Break` names its innermost
      loop implies the weaker one the generator needs. */
  lemma {:induction false} InnermostImpliesInLoops(ss: seq<Stmt>, inner: Option<nat>)
    requires BreaksTargetInnermost(ss, inner)
    ensures BreaksInLoops(ss, inner.Some?)
    decreases ss, 1
  {
    forall i | 0 <= i < |ss| ensures StmtBreaksInLoops(ss[i], inner.Some?) {
      StmtInnermostImpliesInLoops(ss[i], inner);
    }
  }

  lemma {:induction false} StmtInnermostImpliesInLoops(s: Stmt, inner: Option<nat>)
    requires StmtBreaksTargetInnermost(s, inner)
    ensures StmtBreaksInLoops(s, inner.Some?)
    decreases s, 0
  {
    match s
    case Loop(l, body) => InnermostImpliesInLoops(body, Some(l));
    case If(_, thn, HasElse(els)) =>
      InnermostImpliesInLoops(thn, inner);
      InnermostImpliesInLoops(els, inner);
    case If(_, thn, NoElse) => InnermostImpliesInLoops(thn, inner);
    case _ =>
  }

  // ---------------------------------------------------------------------
  // Structure: balanced labels, branches to loop heads and loop exits

  /** The top of the depth stack counts the labels opened inside the
      innermost loop, and that loop sits directly in a `block`. */
  predicate DepthsAgree(depths: seq<nat>, ctx: seq<W.Opener>)
  {
    |depths| > 0 ==>
      var d := depths[|depths| - 1];
      d + 2 <= |ctx| && W.LastLoop(ctx) == Some(|ctx| - 1 - d) && ctx[|ctx| - 2 - d] == W.InBlock
  }

  lemma LastLoopPush(ctx: seq<W.Opener>, o: W.Opener)
    requires o != W.InLoop
    ensures W.LastLoop(ctx + [o]) == W.LastLoop(ctx)
  {
    assert (ctx + [o])[..|ctx|] == ctx;
  }

  lemma AgreePush(depths: seq<nat>, ctx: seq<W.Opener>, o: W.Opener)
    requires DepthsAgree(depths, ctx) && o != W.InLoop
    ensures DepthsAgree(Bump(depths), ctx + [o])
  {
    LastLoopPush(ctx, o);
  }

  lemma AgreeLoop(depths: seq<nat>, ctx: seq<W.Opener>)
    ensures DepthsAgree(LoopDepths(depths), ctx + [W.InBlock, W.InLoop])
  {
    var c := ctx + [W.InBlock, W.InLoop];
    assert c[|c| - 1] == W.InLoop;
  }

  /** Generated code leaves the label stack as it found it, and every `br`
      it holds either leaves the innermost loop through the `block` around
      it or is that loop's closing back edge. */
  lemma {:induction false} CodegenStructured(st: CgState, depths: seq<nat>, ss: seq<Stmt>, ctx: seq<W.Opener>)
    requires AllLocal(ss) && DepthsAgree(depths, ctx) && W.Live(ctx)
    requires CodegenBlock(st, depths, ss).Ok?
    ensures W.Run(ctx, CodegenBlock(st, depths, ss).value.0, W.LoopExits) == Some(ctx)
    decreases ss, 2
  {
    if |ss| > 0 {
      var (c1, st1) := CodegenStmt(st, depths, ss[0]).value;
      var (c2, st2) := CodegenBlock(st1, depths, ss[1..]).value;
      CodegenStmtStructured(st, depths, ss[0], ctx);
      CodegenStructured(st1, depths, ss[1..], ctx);
      W.RunAppend(ctx, c1, c2, W.LoopExits);
    }
  }

  /** The same per statement; a `Break` is one `br` that leaves the
      innermost loop. */
  lemma {:induction false} CodegenStmtStructured(st: CgState, depths: seq<nat>, s: Stmt, ctx: seq<W.Opener>)
    requires StmtLocal(s) && DepthsAgree(depths, ctx) && W.Live(ctx)
    requires CodegenStmt(st, depths, s).Ok?
    ensures W.Run(ctx, CodegenStmt(st, depths, s).value.0, W.LoopExits) == Some(ctx)
    ensures s.Break? ==>
      var c := CodegenStmt(st, depths, s).value.0;
      |c| == 1 && c[0].Br? && W.ExitsLoop(ctx, c[0].depth)
    decreases s, 1
  {
    match s
    case Assignment(target, v) =>
      ValueNoLabel(st, v);
      W.RunPlain(ctx, CodegenAssign(st, target, v).0, W.LoopExits);
    case Return(id) =>
      W.RunPlain(ctx, CodegenStmt(st, depths, s).value.0, W.LoopExits);
    case Nop =>
    case Break(l) =>
      BreakExits(st, depths, l, ctx);
    case If(c, thn, els) =>
      IfStructured(st, depths, c, thn, els, ctx);
    case Loop(l, body) =>
      LoopStructured(st, depths, l, body, ctx);
  }

  /** Inside a loop, a `Break` is one `br`, to the `block` directly
      around the innermost loop, so it leaves the loop rather than going
      round again; slots and `refs` are untouched. */
  lemma BreakExits(st: CgState, depths: seq<nat>, l: nat, ctx: seq<W.Opener>)
    requires DepthsAgree(depths, ctx) && W.Live(ctx) && |depths| > 0
    ensures CodegenStmt(st, depths, Break(l)).Ok?
    ensures var (c, st') := CodegenStmt(st, depths, Break(l)).value;
      st' == st && |c| == 1 && c[0].Br? && W.ExitsLoop(ctx, c[0].depth) &&
      W.Run(ctx, c, W.LoopExits) == Some(ctx)
  {
    var d := depths[|depths| - 1] + 1;
    assert W.ExitsLoop(ctx, d);
    W.RunOne(ctx, W.Br(d), W.LoopExits);
  }

  lemma ValueNoLabel(st: CgState, v: Value)
    requires ValueLocal(v)
    ensures W.Plain(CodegenValue(st, v).0)
  {
  }

  lemma {:induction false} IfStructured(st: CgState, depths: seq<nat>, c: Ident, thn: seq<Stmt>, els: ElseBranch, ctx: seq<W.Opener>)
    requires StmtLocal(If(c, thn, els)) && DepthsAgree(depths, ctx) && W.Live(ctx)
    requires CodegenIf(st, depths, c, thn, els).Ok?
    ensures W.Run(ctx, CodegenIf(st, depths, c, thn, els).value.0, W.LoopExits) == Some(ctx)
    decreases If(c, thn, els), 0
  {
    var p := ResolveIdent(st.slots, c);
    var st1 := st.(slots := p.1);
    var t := CodegenBlock(st1, Bump(depths), thn).value;
    AgreePush(depths, ctx, W.InIf);
    CodegenStructured(st1, Bump(depths), thn, ctx + [W.InIf]);
    IfFrame(ctx, p.0, t.0);
    match els
    case NoElse =>
      assert CodegenIf(st, depths, c, thn, els).value.0 == [W.LocalGet(p.0), W.If] + t.0 + [W.End];
    case HasElse(eb) =>
      var e := CodegenBlock(t.1, Bump(depths), eb).value;
      AgreePush(depths, ctx, W.InElse);
      CodegenStructured(t.1, Bump(depths), eb, ctx + [W.InElse]);
      ElseStructured(ctx, [W.LocalGet(p.0), W.If] + t.0, e.0);
      assert CodegenIf(st, depths, c, thn, els).value.0 ==
        [W.LocalGet(p.0), W.If] + t.0 + [W.Else] + e.0 + [W.End];
  }

  /** The `if` frame around a balanced then-branch: open after the branch,
      closed after `end`. */
  lemma IfFrame(ctx: seq<W.Opener>, k: nat, tc: seq<W.Instr>)
    requires W.Live(ctx) && W.Run(ctx + [W.InIf], tc, W.LoopExits) == Some(ctx + [W.InIf])
    ensures W.Run(ctx, [W.LocalGet(k), W.If] + tc, W.LoopExits) == Some(ctx + [W.InIf])
    ensures W.Run(ctx, [W.LocalGet(k), W.If] + tc + [W.End], W.LoopExits) == Some(ctx)
  {
    var head := [W.LocalGet(k), W.If];
    var inIf := ctx + [W.InIf];
    W.RunAppend(ctx, head, tc, W.LoopExits);
    assert inIf[..|inIf| - 1] == ctx;
    W.RunAppend(ctx, head + tc, [W.End], W.LoopExits);
  }

  lemma ElseStructured(ctx: seq<W.Opener>, pre: seq<W.Instr>, ec: seq<W.Instr>)
    requires W.Live(ctx) && W.Run(ctx, pre, W.LoopExits) == Some(ctx + [W.InIf])
    requires W.Run(ctx + [W.InElse], ec, W.LoopExits) == Some(ctx + [W.InElse])
    ensures W.Run(ctx, pre + [W.Else] + ec + [W.End], W.LoopExits) == Some(ctx)
  {
    var inIf := ctx + [W.InIf];
    var inElse := ctx + [W.InElse];
    assert inIf[..|inIf| - 1] == ctx && inElse[..|inElse| - 1] == ctx;
    W.RunAppend(ctx, pre, [W.Else], W.LoopExits);
    W.RunAppend(ctx, pre + [W.Else], ec, W.LoopExits);
    W.RunAppend(ctx, pre + [W.Else] + ec, [W.End], W.LoopExits);
  }

  lemma {:induction false} LoopStructured(st: CgState, depths: seq<nat>, l: nat, body: seq<Stmt>, ctx: seq<W.Opener>)
    requires StmtLocal(Loop(l, body)) && DepthsAgree(depths, ctx) && W.Live(ctx)
    requires CodegenLoop(st, depths, l, body).Ok?
    ensures W.Run(ctx, CodegenLoop(st, depths, l, body).value.0, W.LoopExits) == Some(ctx)
    decreases Loop(l, body), 0
  {
    var (bc, st1) := CodegenBlock(st, LoopDepths(depths), body).value;
    var inner := ctx + [W.InBlock, W.InLoop];
    AgreeLoop(depths, ctx);
    CodegenStructured(st, LoopDepths(depths), body, inner);
    LoopFrame(ctx, bc);
  }

  lemma LoopFrame(ctx: seq<W.Opener>, bc: seq<W.Instr>)
    requires W.Live(ctx) && W.Run(ctx + [W.InBlock, W.InLoop], bc, W.LoopExits) == Some(ctx + [W.InBlock, W.InLoop])
    ensures W.Run(ctx, [W.Block, W.Loop] + bc + [W.Br(0), W.End, W.End], W.LoopExits) == Some(ctx)
  {
    var inner := ctx + [W.InBlock, W.InLoop];
    var head := [W.Block, W.Loop];
    assert W.Run(ctx, head, W.LoopExits) == Some(inner) by {
      assert ctx + [W.InBlock] + [W.InLoop] == inner;
    }
    W.RunAppend(ctx, head, bc, W.LoopExits);
    LoopTail(ctx);
    W.RunAppend(ctx, head + bc, [W.Br(0), W.End, W.End], W.LoopExits);
  }

  /** The back edge, then the `end`s of the `loop` and the `block`. */
  lemma LoopTail(ctx: seq<W.Opener>)
    ensures W.Run(ctx + [W.InBlock, W.InLoop], [W.Br(0), W.End, W.End], W.LoopExits) == Some(ctx)
  {
    var inner := ctx + [W.InBlock, W.InLoop];
    var done := ctx + [W.InBlock, W.LoopDone];
    var outer := ctx + [W.InBlock];
    assert W.BackEdge(inner, 0) && inner[..|inner| - 1] + [W.LoopDone] == done;
    assert W.Step(inner, W.Br(0), W.LoopExits) == Some(done);
    assert done[..|done| - 1] == outer && outer[..|outer| - 1] == ctx;
    assert W.Run(outer, [W.End], W.LoopExits) == Some(ctx);
    assert [W.Br(0), W.End, W.End][1..] == [W.End, W.End] && [W.End, W.End][1..] == [W.End];
  }

  /** A whole function body, generated from outside any loop, is balanced
      and valid under the standard's branch rule. */
  lemma FunctionBodyBalanced(f: SimpleFun)
    requires AllLocal(f.body) && CodegenFunction(f).Ok?
    ensures W.Balanced(CodegenFunction(f).value.body)
  {
    RegisterParamsFromEmpty(f.params);
    var slots := RegisterParams(EmptySlots(), f.params).value;
    CodegenStructured(CgState(slots, f.refs), [], f.body, []);
    W.LoopExitsAreValid([], CodegenFunction(f).value.body);
    assert W.Undone([]) == [];
  }

  // ---------------------------------------------------------------------
  // Slots

  /** Every `local.get`/`local.set` names a slot below `n`. */
  predicate SlotsBelow(code: seq<W.Instr>, n: nat)
  {
    forall k :: 0 <= k < |code| ==>
      (code[k].LocalGet? ==> code[k].idx < n) && (code[k].LocalSet? ==> code[k].idx < n)
  }

  lemma SlotsBelowAppend(a: seq<W.Instr>, b: seq<W.Instr>, n: nat)
    requires SlotsBelow(a, n) && SlotsBelow(b, n)
    ensures SlotsBelow(a + b, n)
  {
  }

  lemma SlotsBelowMono(a: seq<W.Instr>, n: nat, n': nat)
    requires SlotsBelow(a, n) && n <= n'
    ensures SlotsBelow(a, n')
  {
  }

  /** Generation keeps every slot already handed out, keeps the tables
      well formed, and every `local.get`/`local.set` it emits names a slot
      that was handed out. */
  lemma {:induction false} CodegenSlots(st: CgState, depths: seq<nat>, ss: seq<Stmt>)
    requires AllLocal(ss) && SlotsOk(st.slots)
    requires CodegenBlock(st, depths, ss).Ok?
    ensures var (code, st') := CodegenBlock(st, depths, ss).value;
      Extends(st.slots, st'.slots) && SlotsOk(st'.slots) && SlotsBelow(code, Count(st'.slots))
    decreases ss, 2
  {
    if |ss| > 0 {
      var (c1, st1) := CodegenStmt(st, depths, ss[0]).value;
      var (c2, st2) := CodegenBlock(st1, depths, ss[1..]).value;
      CodegenStmtSlots(st, depths, ss[0]);
      CodegenSlots(st1, depths, ss[1..]);
      SlotsBelowMono(c1, Count(st1.slots), Count(st2.slots));
      SlotsBelowAppend(c1, c2, Count(st2.slots));
    }
  }

  lemma {:induction false} CodegenStmtSlots(st: CgState, depths: seq<nat>, s: Stmt)
    requires StmtLocal(s) && SlotsOk(st.slots)
    requires CodegenStmt(st, depths, s).Ok?
    ensures var (code, st') := CodegenStmt(st, depths, s).value;
      Extends(st.slots, st'.slots) && SlotsOk(st'.slots) && SlotsBelow(code, Count(st'.slots))
    decreases s, 1
  {
    match s
    case Assignment(target, v) => AssignSlots(st, target, v);
    case Return(id) =>
      ResolveIdentOk(st.slots, id);
    case Nop =>
    case Break(_) =>
    case If(c, thn, els) => IfSlots(st, depths, c, thn, els);
    case Loop(l, body) => CodegenSlots(st, LoopDepths(depths), body);
  }

  lemma ValueSlots(st: CgState, v: Value)
    requires ValueLocal(v) && SlotsOk(st.slots)
    ensures var (code, st') := CodegenValue(st, v);
      Extends(st.slots, st'.slots) && SlotsOk(st'.slots) && SlotsBelow(code, Count(st'.slots))
  {
    match v
    case LitNum(_) =>
    case Ident(id) => ResolveIdentOk(st.slots, id);
    case Call(_, args) => ResolveAllOk(st.slots, args);
  }

  lemma AssignSlots(st: CgState, target: Ident, v: Value)
    requires IdentLocal(target) && ValueLocal(v) && SlotsOk(st.slots)
    ensures var (code, st') := CodegenAssign(st, target, v);
      Extends(st.slots, st'.slots) && SlotsOk(st'.slots) && SlotsBelow(code, Count(st'.slots))
  {
    var (vc, st1) := CodegenValue(st, v);
    ValueSlots(st, v);
    ResolveIdentOk(st1.slots, target);
    var (code, st') := CodegenAssign(st, target, v);
    SlotsBelowMono(vc, Count(st1.slots), Count(st'.slots));
    SlotsBelowAppend(vc, [code[|code| - 1]], Count(st'.slots));
    assert code == vc + [code[|code| - 1]];
  }

  lemma {:induction false} IfSlots(st: CgState, depths: seq<nat>, c: Ident, thn: seq<Stmt>, els: ElseBranch)
    requires StmtLocal(If(c, thn, els)) && SlotsOk(st.slots)
    requires CodegenIf(st, depths, c, thn, els).Ok?
    ensures var (code, st') := CodegenIf(st, depths, c, thn, els).value;
      Extends(st.slots, st'.slots) && SlotsOk(st'.slots) && SlotsBelow(code, Count(st'.slots))
    decreases If(c, thn, els), 0
  {
    var p := ResolveIdent(st.slots, c);
    ResolveIdentOk(st.slots, c);
    var st1 := st.(slots := p.1);
    var t := CodegenBlock(st1, Bump(depths), thn).value;
    CodegenSlots(st1, Bump(depths), thn);
    ExtendsTrans(st.slots, p.1, t.1.slots);
    assert p.0 < Count(p.1);
    match els
    case NoElse =>
      assert CodegenIf(st, depths, c, thn, els).value == ([W.LocalGet(p.0), W.If] + t.0 + [W.End], t.1);
      IfCodeSlots(p.0, t.0, [], Count(t.1.slots));
    case HasElse(eb) =>
      var e := CodegenBlock(t.1, Bump(depths), eb).value;
      CodegenSlots(t.1, Bump(depths), eb);
      ExtendsTrans(st.slots, t.1.slots, e.1.slots);
      SlotsBelowMono(t.0, Count(t.1.slots), Count(e.1.slots));
      assert CodegenIf(st, depths, c, thn, els).value ==
        ([W.LocalGet(p.0), W.If] + t.0 + [W.Else] + e.0 + [W.End], e.1);
      IfCodeSlots(p.0, t.0, e.0, Count(e.1.slots));
  }

  lemma ExtendsTrans(a: Slots, b: Slots, c: Slots)
    requires Extends(a, b) && Extends(b, c)
    ensures Extends(a, c)
  {
  }

  /** The `if` frame adds only the condition's `local.get`. */
  lemma IfCodeSlots(k: nat, tc: seq<W.Instr>, ec: seq<W.Instr>, n: nat)
    requires k < n && SlotsBelow(tc, n) && SlotsBelow(ec, n)
    ensures SlotsBelow([W.LocalGet(k), W.If] + tc + [W.End], n)
    ensures SlotsBelow([W.LocalGet(k), W.If] + tc + [W.Else] + ec + [W.End], n)
  {
    var head := [W.LocalGet(k), W.If];
    SlotsBelowAppend(head, tc, n);
    SlotsBelowAppend(head + tc, [W.End], n);
    SlotsBelowAppend(head + tc, [W.Else], n);
    SlotsBelowAppend(head + tc + [W.Else], ec, n);
    SlotsBelowAppend(head + tc + [W.Else] + ec, [W.End], n);
  }

  // ---------------------------------------------------------------------
  // References

  /** Every call in the statements names a global below `n`. */
  predicate CallsBelow(ss: seq<Stmt>, n: nat)
    decreases ss
  {
    forall i :: 0 <= i < |ss| ==> StmtCallsBelow(ss[i], n)
  }

  predicate StmtCallsBelow(s: Stmt, n: nat)
    decreases s
  {
    match s
    case Assignment(_, Call(f, _)) => f < n
    case Loop(_, body) => CallsBelow(body, n)
    case If(_, thn, HasElse(els)) => CallsBelow(thn, n) && CallsBelow(els, n)
    case If(_, thn, NoElse) => CallsBelow(thn, n)
    case _ => true
  }

  /** Every call placeholder names an entry below `n`. */
  predicate PlaceholdersBelow(code: seq<W.Instr>, n: nat)
  {
    forall k :: 0 <= k < |code| ==> code[k].CallRef? ==> code[k].fun < n
  }

  /** `refs'` is `refs` followed only by entries naming the packing
      primitive. */
  predicate GrowsByPack(refs: seq<string>, refs': seq<string>)
  {
    refs <= refs' && forall k :: |refs| <= k < |refs'| ==> refs'[k] == PackName
  }

  lemma GrowsByPackTrans(a: seq<string>, b: seq<string>, c: seq<string>)
    requires GrowsByPack(a, b) && GrowsByPack(b, c)
    ensures GrowsByPack(a, c)
  {
  }

  /** The reference table only grows, and only by the packing primitive;
      when the statements call only known globals, every placeholder names
      an entry of the final table. */
  lemma {:induction false} CodegenRefs(st: CgState, depths: seq<nat>, ss: seq<Stmt>)
    requires AllLocal(ss)
    requires CodegenBlock(st, depths, ss).Ok?
    ensures var (code, st') := CodegenBlock(st, depths, ss).value;
      GrowsByPack(st.refs, st'.refs) && (CallsBelow(ss, |st.refs|) ==> PlaceholdersBelow(code, |st'.refs|))
    decreases ss, 2
  {
    if |ss| > 0 {
      var (c1, st1) := CodegenStmt(st, depths, ss[0]).value;
      var (c2, st2) := CodegenBlock(st1, depths, ss[1..]).value;
      CodegenStmtRefs(st, depths, ss[0]);
      CodegenRefs(st1, depths, ss[1..]);
      GrowsByPackTrans(st.refs, st1.refs, st2.refs);
      if CallsBelow(ss, |st.refs|) {
        assert StmtCallsBelow(ss[0], |st.refs|);
        CallsBelowMono(ss[1..], |st.refs|, |st1.refs|);
      }
    }
  }

  lemma {:induction false} CodegenStmtRefs(st: CgState, depths: seq<nat>, s: Stmt)
    requires StmtLocal(s)
    requires CodegenStmt(st, depths, s).Ok?
    ensures var r := CodegenStmt(st, depths, s).value;
      GrowsByPack(st.refs, r.1.refs) && (StmtCallsBelow(s, |st.refs|) ==> PlaceholdersBelow(r.0, |r.1.refs|))
    decreases s, 1
  {
    match s
    case Assignment(target, v) => AssignRefs(st, target, v);
    case Return(id) =>
    case Nop =>
    case Break(_) =>
    case If(c, thn, els) => IfRefs(st, depths, c, thn, els);
    case Loop(l, body) => CodegenRefs(st, LoopDepths(depths), body);
  }

  lemma AssignRefs(st: CgState, target: Ident, v: Value)
    requires IdentLocal(target) && ValueLocal(v)
    ensures var r := CodegenAssign(st, target, v);
      GrowsByPack(st.refs, r.1.refs) && (StmtCallsBelow(Assignment(target, v), |st.refs|) ==> PlaceholdersBelow(r.0, |r.1.refs|))
  {
    var code := CodegenAssign(st, target, v).0;
    assert code == CodegenValue(st, v).0 + [code[|code| - 1]];
  }

  lemma {:induction false} IfRefs(st: CgState, depths: seq<nat>, c: Ident, thn: seq<Stmt>, els: ElseBranch)
    requires StmtLocal(If(c, thn, els))
    requires CodegenIf(st, depths, c, thn, els).Ok?
    ensures var (code, st') := CodegenIf(st, depths, c, thn, els).value;
      GrowsByPack(st.refs, st'.refs) && (StmtCallsBelow(If(c, thn, els), |st.refs|) ==> PlaceholdersBelow(code, |st'.refs|))
    decreases If(c, thn, els), 0
  {
    var (k, s1) := ResolveIdent(st.slots, c);
    var (tc, st2) := CodegenBlock(st.(slots := s1), Bump(depths), thn).value;
    CodegenRefs(st.(slots := s1), Bump(depths), thn);
    if els.HasElse? {
      var (ec, st3) := CodegenBlock(st2, Bump(depths), els.body).value;
      CodegenRefs(st2, Bump(depths), els.body);
      GrowsByPackTrans(st.refs, st2.refs, st3.refs);
      if StmtCallsBelow(If(c, thn, els), |st.refs|) {
        CallsBelowMono(els.body, |st.refs|, |st2.refs|);
      }
    }
  }

  lemma {:induction false} CallsBelowMono(ss: seq<Stmt>, n: nat, n': nat)
    requires CallsBelow(ss, n) && n <= n'
    ensures CallsBelow(ss, n')
    decreases ss, 1
  {
    forall i | 0 <= i < |ss| ensures StmtCallsBelow(ss[i], n') {
      StmtCallsBelowMono(ss[i], n, n');
    }
  }

  lemma {:induction false} StmtCallsBelowMono(s: Stmt, n: nat, n': nat)
    requires StmtCallsBelow(s, n) && n <= n'
    ensures StmtCallsBelow(s, n')
    decreases s, 0
  {
    match s
    case Loop(_, body) => CallsBelowMono(body, n, n');
    case If(_, thn, HasElse(els)) =>
      CallsBelowMono(thn, n, n');
      CallsBelowMono(els, n, n');
    case If(_, thn, NoElse) => CallsBelowMono(thn, n, n');
    case _ =>
  }
}
