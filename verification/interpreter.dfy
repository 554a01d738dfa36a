/** The reference interpreter of the older snapshot
    (compiler_old/src/interpreter/interpret.rs): big-step execution of the
    simplified IR with one fuel counter shared by every call. Each
    statement costs one unit of fuel, charged before it runs; once the
    count exceeds the limit, execution stops with `OutOfFuel`. */
module Interpreter {
  import opened Wrappers
  import opened Ints
  import opened PlainIR
  import opened SimpleIR
  import opened Values

  /** Where the interpreter would panic: an unbound identifier, a
      reference id without a name, a call with the wrong number of
      arguments, a statement it leaves `todo!` (`Break`, `Nop`), or a
      function body that ends without `return`. */
  datatype PanicReason = Unbound | MissingRef | WrongArity | Unsupported | NoReturn

  /** Ways a call stops without a value: the source's `OutOfFuel` and
      `Error`, its panics, and `Hung` for a loop with an empty body, which
      repeats forever without charging fuel. */
  datatype Halt = OutOfFuel | Error(msg: string) | Panic(reason: PanicReason) | Hung

  /** `InterpretResult`; `Success` reports the fuel used so far. */
  datatype InterpretResult = Success(value: KediValue, fuelUsed: nat) | Halted(halt: Halt)

  /** A call's own state: its locals, its temporaries and its reference
      table (`FuncState`). */
  datatype Frame = Frame(locals: map<nat, KediValue>, temps: map<nat, KediValue>, refs: seq<string>)

  /** `InterpretStmtResult`, carrying the frame and the fuel counter on. */
  datatype StmtResult = Next(frame: Frame, fuel: nat) | Returned(value: KediValue, fuel: nat) | Stop(halt: Halt)

  /** The functions by name, and the fuel limit. */
  datatype Env = Env(funs: map<string, SimpleFun>, limit: nat)

  // ---------------------------------------------------------------------
  // Function table

  /** `run`'s table: the functions by name, a later one replacing an
      earlier one of the same name. */
  function Functions(prog: seq<SimpleFun>): (r: map<string, SimpleFun>)
    decreases |prog|
  {
    if |prog| == 0 then map[]
    else Functions(prog[..|prog| - 1])[prog[|prog| - 1].name := prog[|prog| - 1]]
  }

  /** A name is in the table exactly when some function has it, and it
      maps to the last such function. */
  lemma {:induction false} FunctionsLookup(prog: seq<SimpleFun>, name: string)
    ensures name in Functions(prog) <==> exists i :: 0 <= i < |prog| && prog[i].name == name
    ensures name in Functions(prog) ==> exists i ::
      0 <= i < |prog| && Functions(prog)[name] == prog[i] && prog[i].name == name &&
      forall j :: i < j < |prog| ==> prog[j].name != name
    decreases |prog|
  {
    if |prog| > 0 {
      var init := prog[..|prog| - 1];
      FunctionsLookup(init, name);
      assert forall i :: 0 <= i < |init| ==> init[i] == prog[i];
      if prog[|prog| - 1].name != name && name in Functions(init) {
        var i :| 0 <= i < |init| && Functions(init)[name] == init[i] &&
          init[i].name == name && forall j :: i < j < |init| ==> init[j].name != name;
        assert Functions(prog)[name] == prog[i];
      }
    }
  }

  // ---------------------------------------------------------------------
  // Identifiers

  /** `resolve`: a temporary or a local of this call; a global is never
      bound (the older IR cannot name one here). */
  function Resolve(fr: Frame, id: Ident): Option<KediValue>
  {
    match id
    case SingleUse(i) => if i in fr.temps then Some(fr.temps[i]) else None
    case Plain(Local(i)) => if i in fr.locals then Some(fr.locals[i]) else None
    case Plain(Global(_)) => None
  }

  /** Resolves the arguments in order; `None` at the first unbound one. */
  function ResolveAll(fr: Frame, ids: seq<Ident>): (r: Option<seq<KediValue>>)
    ensures r.Some? <==> forall i :: 0 <= i < |ids| ==> Resolve(fr, ids[i]).Some?
    ensures r.Some? ==> |r.value| == |ids| && forall i :: 0 <= i < |ids| ==> r.value[i] == Resolve(fr, ids[i]).value
    decreases |ids|
  {
    if |ids| == 0 then Some([])
    else
      match Resolve(fr, ids[0])
      case None => None
      case Some(v) =>
        var rest := ResolveAll(fr, ids[1..]);
        assert forall i :: 1 <= i < |ids| ==> ids[i] == ids[1..][i - 1];
        if rest.None? then None else Some([v] + rest.value)
  }

  /** Stores a value in a temporary or a local; a global target, which the
      older IR cannot express, is treated as unbound. */
  function Write(fr: Frame, id: Ident, v: KediValue): (r: Option<Frame>)
    ensures r.Some? ==> Resolve(r.value, id) == Some(v) && r.value.refs == fr.refs
    ensures r.Some? ==> forall other :: other != id ==> Resolve(r.value, other) == Resolve(fr, other)
    ensures r.None? <==> id.Plain? && id.x.Global?
  {
    match id
    case SingleUse(i) => Some(fr.(temps := fr.temps[i := v]))
    case Plain(Local(i)) => Some(fr.(locals := fr.locals[i := v]))
    case Plain(Global(_)) => None
  }

  /** Binds parameters to arguments in order; a repeated parameter keeps
      the last argument. */
  function Bind(params: seq<nat>, args: seq<KediValue>): (r: map<nat, KediValue>)
    requires |params| == |args|
    ensures r.Keys == set i | 0 <= i < |params| :: params[i]
    decreases |params|
  {
    if |params| == 0 then map[]
    else
      var n := |params| - 1;
      var m := Bind(params[..n], args[..n]);
      assert forall i :: 0 <= i < n ==> params[..n][i] == params[i];
      m[params[n] := args[n]]
  }

  /** A parameter that no later parameter repeats is bound to its own
      argument. */
  lemma {:induction false} BindLast(params: seq<nat>, args: seq<KediValue>, i: nat)
    requires |params| == |args| && i < |params|
    requires forall j :: i < j < |params| ==> params[j] != params[i]
    ensures params[i] in Bind(params, args) && Bind(params, args)[params[i]] == args[i]
    decreases |params|
  {
    var n := |params| - 1;
    if i < n {
      assert params[..n][i] == params[i] && args[..n][i] == args[i];
      assert forall j :: i < j < n ==> params[..n][j] == params[j];
      BindLast(params[..n], args[..n], i);
      assert params[n] != params[i];
    }
  }

  /** With distinct parameters, parameter `i` is bound to argument `i`. */
  lemma BindDistinct(params: seq<nat>, args: seq<KediValue>)
    requires |params| == |args|
    requires forall i, j :: 0 <= i < j < |params| ==> params[i] != params[j]
    ensures forall i :: 0 <= i < |params| ==> Bind(params, args)[params[i]] == args[i]
  {
    forall i | 0 <= i < |params| ensures Bind(params, args)[params[i]] == args[i] {
      BindLast(params, args, i);
    }
  }

  // ---------------------------------------------------------------------
  // Execution

  function BodySize(env: Env, name: string): nat
  {
    if name in env.funs then |env.funs[name].body| else 0
  }

  /** `InterpretEnv::call`: look the function up, bind the arguments,
      run the body in a fresh frame. */
  function Call(env: Env, name: string, args: seq<KediValue>, fuel: nat): (r: InterpretResult)
    requires fuel <= env.limit
    ensures r.Success? ==> fuel < r.fuelUsed <= env.limit
    decreases env.limit - fuel, BodySize(env, name), 2
  {
    if name !in env.funs then Halted(Error("Function " + name + " not found"))
    else
      var f := env.funs[name];
      if |args| != |f.params| then Halted(Panic(WrongArity))
      else
        match Stmts(env, Frame(Bind(f.params, args), map[], f.refs), f.body, fuel)
        case Next(_, _) => Halted(Panic(NoReturn))
        case Returned(v, used) => Success(v, used)
        case Stop(h) => Halted(h)
  }

  /** `interpret_stmts`: runs the statements in order, stopping at the
      first that does not finish normally. */
  function Stmts(env: Env, fr: Frame, ss: seq<Stmt>, fuel: nat): (r: StmtResult)
    requires fuel <= env.limit
    ensures r.Next? ==> fuel <= r.fuel <= env.limit && (|ss| > 0 ==> fuel < r.fuel)
    ensures r.Returned? ==> fuel < r.fuel <= env.limit
    decreases env.limit - fuel, |ss|, 1
  {
    if |ss| == 0 then Next(fr, fuel)
    else
      match Stmt(env, fr, ss[0], fuel)
      case Next(fr', fuel') => Stmts(env, fr', ss[1..], fuel')
      case other => other
  }

  /** A `Loop` with a non-empty body: runs the body again and again until
      it stops other than normally. */
  function Iterate(env: Env, fr: Frame, body: seq<Stmt>, fuel: nat): (r: StmtResult)
    requires fuel <= env.limit && |body| > 0
    ensures !r.Next?
    ensures r.Returned? ==> fuel < r.fuel <= env.limit
    decreases env.limit - fuel, |body|, 2
  {
    match Stmts(env, fr, body, fuel)
    case Next(fr', fuel') => Iterate(env, fr', body, fuel')
    case other => other
  }

  /** `interpret_stmt`: charge one unit of fuel, then run the statement. */
  function Stmt(env: Env, fr: Frame, s: Stmt, fuel: nat): (r: StmtResult)
    requires fuel <= env.limit
    ensures r.Next? ==> fuel < r.fuel <= env.limit
    ensures r.Returned? ==> fuel < r.fuel <= env.limit
    decreases env.limit - fuel, 0, 0
  {
    if fuel + 1 > env.limit then Stop(OutOfFuel)
    else
      var fuel := fuel + 1;
      match s
      case Return(id) =>
        (match Resolve(fr, id)
         case Some(v) => Returned(v, fuel)
         case None => Stop(Panic(Unbound)))
      case Assignment(target, Call(fun, args)) =>
        (match ResolveAll(fr, args)
         case None => Stop(Panic(Unbound))
         case Some(vs) =>
           if fun >= |fr.refs| then Stop(Panic(MissingRef))
           else
             match Call(env, fr.refs[fun], vs, fuel)
             case Success(v, used) => Assign(fr, target, v, used)
             case Halted(h) => Stop(h))
      case Assignment(target, LitNum(n)) => Assign(fr, target, Num(n as int), fuel)
      case Assignment(target, Ident(id)) =>
        (match Resolve(fr, id)
         case Some(v) => Assign(fr, target, v, fuel)
         case None => Stop(Panic(Unbound)))
      case If(c, thn, els) =>
        (match Resolve(fr, c)
         case None => Stop(Panic(Unbound))
         case Some(v) =>
           if IsTruthy(v) then Stmts(env, fr, thn, fuel)
           else if els.HasElse? then Stmts(env, fr, els.body, fuel)
           else Next(fr, fuel))
      case Loop(_, body) => if |body| == 0 then Stop(Hung) else Iterate(env, fr, body, fuel)
      case Break(_) => Stop(Panic(Unsupported))
      case Nop => Stop(Panic(Unsupported))
  }

  /** Finishes an assignment: stores the value and continues. */
  function Assign(fr: Frame, target: Ident, v: KediValue, fuel: nat): (r: StmtResult)
    ensures r.Next? ==> r.fuel == fuel && Resolve(r.frame, target) == Some(v)
    ensures r.Next? || r == Stop(Panic(Unbound))
  {
    match Write(fr, target, v)
    case Some(fr') => Next(fr', fuel)
    case None => Stop(Panic(Unbound))
  }

  /** `run`: the program's functions by name, then a call with the fuel
      counter at zero. */
  function Run(prog: seq<SimpleFun>, name: string, args: seq<KediValue>, limit: nat): (r: InterpretResult)
    ensures r.Success? ==> 0 < r.fuelUsed <= limit
  {
    Call(Env(Functions(prog), limit), name, args, 0)
  }

  // ---------------------------------------------------------------------
  // Properties

  /** Running `a + b` runs `a`, then `b` only when `a` finished normally:
      a `return`, an error, a panic or running out of fuel skips the
      rest. */
  lemma {:induction false} StmtsAppend(env: Env, fr: Frame, a: seq<Stmt>, b: seq<Stmt>, fuel: nat)
    requires fuel <= env.limit
    ensures Stmts(env, fr, a + b, fuel) ==
      match Stmts(env, fr, a, fuel)
      case Next(fr', fuel') => Stmts(env, fr', b, fuel')
      case other => other
    decreases |a|
  {
    if |a| > 0 {
      assert (a + b)[0] == a[0] && (a + b)[1..] == a[1..] + b;
      match Stmt(env, fr, a[0], fuel)
      case Next(fr', fuel') => StmtsAppend(env, fr', a[1..], b, fuel');
      case other =>
    } else {
      assert a + b == b;
    }
  }

  /** A statement list of literal assignments to temporaries or locals
      charges exactly one unit each: with enough fuel it finishes having
      used `|ss|` units, and otherwise it runs out. */
  lemma {:induction false} LiteralsCostOneEach(env: Env, fr: Frame, ss: seq<Stmt>, fuel: nat)
    requires fuel <= env.limit
    requires forall i :: 0 <= i < |ss| ==> ss[i].Assignment? && ss[i].value.LitNum? && !(ss[i].target.Plain? && ss[i].target.x.Global?)
    ensures fuel + |ss| <= env.limit ==> Stmts(env, fr, ss, fuel).Next? && Stmts(env, fr, ss, fuel).fuel == fuel + |ss|
    ensures fuel + |ss| > env.limit ==> Stmts(env, fr, ss, fuel) == Stop(OutOfFuel)
    decreases |ss|
  {
    if |ss| > 0 {
      var r := Stmt(env, fr, ss[0], fuel);
      if fuel + 1 <= env.limit {
        assert r.Next? && r.fuel == fuel + 1;
        LiteralsCostOneEach(env, r.frame, ss[1..], fuel + 1);
      }
    }
  }

  /** A statement that did not run out of fuel does the same under any
      larger limit: the limit only cuts execution off. */
  lemma {:induction false} StmtRaise(env: Env, limit: nat, fr: Frame, s: Stmt, fuel: nat)
    requires fuel <= env.limit <= limit && Stmt(env, fr, s, fuel) != Stop(OutOfFuel)
    ensures Stmt(env.(limit := limit), fr, s, fuel) == Stmt(env, fr, s, fuel)
    decreases env.limit - fuel, 0, 0
  {
    var f := fuel + 1;
    match s
    case Assignment(target, Call(fun, args)) =>
      var vs := ResolveAll(fr, args);
      if vs.Some? && fun < |fr.refs| && Call(env, fr.refs[fun], vs.value, f) != Halted(OutOfFuel) {
        CallRaise(env, limit, fr.refs[fun], vs.value, f);
      }
    case If(c, thn, els) =>
      var v := Resolve(fr, c);
      if v.Some? {
        if IsTruthy(v.value) {
          StmtsRaise(env, limit, fr, thn, f);
        } else if els.HasElse? {
          StmtsRaise(env, limit, fr, els.body, f);
        }
      }
    case Loop(_, body) =>
      if |body| > 0 {
        IterateRaise(env, limit, fr, body, f);
      }
    case _ =>
  }

  lemma {:induction false} StmtsRaise(env: Env, limit: nat, fr: Frame, ss: seq<Stmt>, fuel: nat)
    requires fuel <= env.limit <= limit && Stmts(env, fr, ss, fuel) != Stop(OutOfFuel)
    ensures Stmts(env.(limit := limit), fr, ss, fuel) == Stmts(env, fr, ss, fuel)
    decreases env.limit - fuel, |ss|, 1
  {
    if |ss| > 0 {
      var r := Stmt(env, fr, ss[0], fuel);
      if r.Next? {
        StmtRaise(env, limit, fr, ss[0], fuel);
        StmtsRaise(env, limit, r.frame, ss[1..], r.fuel);
      } else {
        StmtRaise(env, limit, fr, ss[0], fuel);
      }
    }
  }

  lemma {:induction false} IterateRaise(env: Env, limit: nat, fr: Frame, body: seq<Stmt>, fuel: nat)
    requires fuel <= env.limit <= limit && |body| > 0 && Iterate(env, fr, body, fuel) != Stop(OutOfFuel)
    ensures Iterate(env.(limit := limit), fr, body, fuel) == Iterate(env, fr, body, fuel)
    decreases env.limit - fuel, |body|, 2
  {
    var r := Stmts(env, fr, body, fuel);
    StmtsRaise(env, limit, fr, body, fuel);
    if r.Next? {
      IterateRaise(env, limit, r.frame, body, r.fuel);
    }
  }

  lemma {:induction false} CallRaise(env: Env, limit: nat, name: string, args: seq<KediValue>, fuel: nat)
    requires fuel <= env.limit <= limit && Call(env, name, args, fuel) != Halted(OutOfFuel)
    ensures Call(env.(limit := limit), name, args, fuel) == Call(env, name, args, fuel)
    decreases env.limit - fuel, BodySize(env, name), 2
  {
    if name in env.funs {
      var f := env.funs[name];
      if |args| == |f.params| {
        StmtsRaise(env, limit, Frame(Bind(f.params, args), map[], f.refs), f.body, fuel);
      }
    }
  }

  /** A run that finishes under some limit finishes the same way under
      every larger one. */
  lemma RunRaise(prog: seq<SimpleFun>, name: string, args: seq<KediValue>, limit: nat, limit': nat)
    requires limit <= limit' && Run(prog, name, args, limit) != Halted(OutOfFuel)
    ensures Run(prog, name, args, limit') == Run(prog, name, args, limit)
  {
    CallRaise(Env(Functions(prog), limit), limit', name, args, 0);
  }

  /** Calling a name no function has gives the source's error message,
      whatever the fuel. */
  lemma RunUnknown(prog: seq<SimpleFun>, name: string, args: seq<KediValue>, limit: nat)
    requires forall i :: 0 <= i < |prog| ==> prog[i].name != name
    ensures Run(prog, name, args, limit) == Halted(Error("Function " + name + " not found"))
  {
    FunctionsLookup(prog, name);
  }

  /** `while 1 {}` lowered as the newer simplifier lowers a `while`
      (compiler/src/simplifier/simplifier.rs:96-123): test the condition,
      leave the loop when it is zero, otherwise go round again. The older
      pipeline's simplifier is not part of this model; its lowering is
      assumed to have the same shape. */
  const SpinBody: seq<Stmt> := [Assignment(SingleUse(1), LitNum(1)), If(SingleUse(1), [], HasElse([Break(1)]))]
  const InfiniteLoop := SimpleFun("infinite_loop", [], [Loop(1, SpinBody)], [])

  /** The loop's body finishes normally after two units of fuel, or runs
      out; so iterating it always runs out. */
  lemma {:induction false} SpinRunsOut(env: Env, fr: Frame, fuel: nat)
    requires fuel <= env.limit
    ensures Iterate(env, fr, SpinBody, fuel) == Stop(OutOfFuel)
    decreases env.limit - fuel
  {
    var r := Stmts(env, fr, SpinBody, fuel);
    if fuel + 2 <= env.limit {
      var fr' := fr.(temps := fr.temps[1 := Num(1)]);
      assert Stmt(env, fr, SpinBody[0], fuel) == Next(fr', fuel + 1);
      assert Stmt(env, fr', SpinBody[1], fuel + 1) == Next(fr', fuel + 2);
      assert SpinBody[1..][0] == SpinBody[1] && SpinBody[1..][1..] == [];
      assert Stmts(env, fr', SpinBody[1..][1..], fuel + 2) == Next(fr', fuel + 2);
      assert Stmts(env, fr', SpinBody[1..], fuel + 1) == Next(fr', fuel + 2);
      assert r == Next(fr', fuel + 2);
      SpinRunsOut(env, fr', fuel + 2);
    } else if fuel + 1 <= env.limit {
      var fr' := fr.(temps := fr.temps[1 := Num(1)]);
      assert Stmt(env, fr, SpinBody[0], fuel) == Next(fr', fuel + 1);
      assert Stmt(env, fr', SpinBody[1], fuel + 1) == Stop(OutOfFuel);
      assert SpinBody[1..][0] == SpinBody[1];
      assert Stmts(env, fr', SpinBody[1..], fuel + 1) == Stop(OutOfFuel);
    } else {
      assert Stmt(env, fr, SpinBody[0], fuel) == Stop(OutOfFuel);
    }
  }

  /** The interpreter's infinite-loop test: under any limit the run ends
      with `OutOfFuel`. */
  lemma InfiniteLoopRunsOutOfFuel(limit: nat)
    ensures Run([InfiniteLoop], "infinite_loop", [], limit) == Halted(OutOfFuel)
  {
    var env := Env(Functions([InfiniteLoop]), limit);
    assert env.funs["infinite_loop"] == InfiniteLoop;
    var fr := Frame(Bind([], []), map[], []);
    if 1 <= limit {
      SpinRunsOut(env, fr, 1);
    }
    assert Stmt(env, fr, Loop(1, SpinBody), 0) == Stop(OutOfFuel);
    assert Stmts(env, fr, InfiniteLoop.body, 0) == Stop(OutOfFuel);
  }

  /** The identity function returns its argument after one statement. */
  const Id := SimpleFun("id", [0], [Return(Plain(Local(0)))], [])

  lemma IdReturnsArgument(n: int, limit: nat)
    ensures limit >= 1 ==> Run([Id], "id", [Num(n)], limit) == Success(Num(n), 1)
    ensures limit == 0 ==> Run([Id], "id", [Num(n)], limit) == Halted(OutOfFuel)
  {
    var env := Env(Functions([Id]), limit);
    assert env.funs["id"] == Id;
    var fr := Frame(Bind([0], [Num(n)]), map[], []);
    assert Bind([0], [Num(n)]) == map[0 := Num(n)];
    if limit >= 1 {
      assert Stmt(env, fr, Return(Plain(Local(0))), 0) == Returned(Num(n), 1);
      assert Stmts(env, fr, Id.body, 0) == Returned(Num(n), 1);
    } else {
      assert Stmts(env, fr, Id.body, 0) == Stop(OutOfFuel);
    }
  }
}
