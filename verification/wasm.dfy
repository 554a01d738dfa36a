/** The WebAssembly instructions the back end emits, one datatype for both
    snapshots, plus the structured-control discipline of section 2.4.8 of
    the WebAssembly Core Specification 2.0: `block`, `loop` and `if` open a
    label, `else` switches an `if` to its second arm, `end` closes the
    innermost label, and `br d` targets the d-th enclosing label counted
    from the innermost (0). */
module Wasm {
  import opened Wrappers
  import opened Ints

  /** Value types: `i32`, and the non-null reference to the object struct
      type (type index 0) that the older back end boxes values in. */
  datatype ValType = I32 | ObjectRef

  datatype BinOp = I32GtU | I32GeU | I32LtU | I32LeU | I32Eq | I32Add

  datatype Instr =
    | I32Const(n: Int32)
    | LocalGet(idx: nat)
    | LocalSet(idx: nat)
      /** A call placeholder: `fun` is a key of the function's `refs`. */
    | CallRef(fun: nat, arity: nat)
      /** A resolved call by function index (the older linker's output). */
    | Call(idx: nat)
      /** A resolved call by function name (the newer linker's output). */
    | CallNamed(name: string)
    | CallIndirect
    | Return
    | Block
    | Loop
    | If
    | Else
    | End
    | Br(depth: nat)
    | Nop
    | Unreachable
    | Bin(op: BinOp)
    | StructNew(ty: nat)
    | StructGet(ty: nat, field: nat)

  /** The constructs a label can belong to; `InElse` is an `if` past its
      `else`, and `LoopDone` a `loop` whose back edge has been taken, so
      that only its `end` may follow. */
  datatype Opener = InBlock | InLoop | InIf | InElse | LoopDone

  /** Which `br` targets are accepted: any open label (the rule of the
      standard), or only what a structured loop needs: the `block`
      directly around the innermost loop (the exit), and the innermost
      loop's head from directly inside it, as the last instruction before
      the loop's `end` (the back edge). */
  datatype BrRule = AnyLabel | LoopExits

  /** The position of the innermost open `loop`, if any. */
  function LastLoop(st: seq<Opener>): (r: Option<nat>)
    ensures r.Some? ==> r.value < |st| && st[r.value] == InLoop
    ensures r.Some? ==> forall j :: r.value < j < |st| ==> st[j] != InLoop
    ensures r.None? ==> forall j :: 0 <= j < |st| ==> st[j] != InLoop
    decreases |st|
  {
    if |st| == 0 then None
    else if st[|st| - 1] == InLoop then Some(|st| - 1)
    else LastLoop(st[..|st| - 1])
  }

  /** `br d` leaves the innermost loop: its target is the `block` that
      directly encloses that loop. */
  predicate ExitsLoop(st: seq<Opener>, d: nat)
  {
    d < |st| && LastLoop(st).Some? && |st| - d == LastLoop(st).value && st[|st| - 1 - d] == InBlock
  }

  /** `br d` goes back to the head of a loop it sits directly in. */
  predicate BackEdge(st: seq<Opener>, d: nat)
  {
    d == 0 && |st| > 0 && st[|st| - 1] == InLoop
  }

  /** `br d` is acceptable under `rule` with the labels `st` open. */
  predicate BrOk(st: seq<Opener>, d: nat, rule: BrRule)
  {
    d < |st| && (rule == LoopExits ==> ExitsLoop(st, d) || BackEdge(st, d))
  }

  /** The innermost label is not a loop past its back edge. */
  predicate Live(st: seq<Opener>)
  {
    |st| == 0 || st[|st| - 1] != LoopDone
  }

  /** One instruction's effect on the stack of open labels (innermost
      last), or `None` when it is misplaced: anything but `end` after a
      back edge, `else` outside the first arm of an `if`, `end` with
      nothing open, a `br` the rule refuses. */
  function Step(st: seq<Opener>, i: Instr, rule: BrRule): Option<seq<Opener>>
  {
    if !Live(st) && !i.End? then None
    else
      match i
      case Block => Some(st + [InBlock])
      case Loop => Some(st + [InLoop])
      case If => Some(st + [InIf])
      case Else => if |st| > 0 && st[|st| - 1] == InIf then Some(st[..|st| - 1] + [InElse]) else None
      case End => if |st| > 0 then Some(st[..|st| - 1]) else None
      case Br(d) =>
        if !BrOk(st, d, rule) then None
        else if rule == LoopExits && BackEdge(st, d) then Some(st[..|st| - 1] + [LoopDone])
        else Some(st)
      case _ => Some(st)
  }

  /** The label stack after running `code` from `st`. */
  function Run(st: seq<Opener>, code: seq<Instr>, rule: BrRule): Option<seq<Opener>>
    decreases |code|
  {
    if |code| == 0 then Some(st)
    else
      match Step(st, code[0], rule)
      case None => None
      case Some(st') => Run(st', code[1..], rule)
  }

  lemma {:induction false} RunAppend(st: seq<Opener>, a: seq<Instr>, b: seq<Instr>, rule: BrRule)
    ensures Run(st, a + b, rule) ==
      (if Run(st, a, rule).Some? then Run(Run(st, a, rule).value, b, rule) else None)
    decreases |a|
  {
    if |a| == 0 {
      assert a + b == b;
    } else {
      assert (a + b)[0] == a[0] && (a + b)[1..] == a[1..] + b;
      if Step(st, a[0], rule).Some? {
        RunAppend(Step(st, a[0], rule).value, a[1..], b, rule);
      }
    }
  }

  /** Only the innermost label can be a loop past its back edge. */
  predicate DoneOnTop(st: seq<Opener>)
  {
    forall j :: 0 <= j < |st| - 1 ==> st[j] != LoopDone
  }

  /** The labels as the standard sees them: a loop past its back edge is
      still a loop. */
  function Undone(st: seq<Opener>): (r: seq<Opener>)
    ensures |r| == |st|
  {
    if Live(st) then st else st[..|st| - 1] + [InLoop]
  }

  /** One step under the loop discipline is a step under the standard's
      rule on the labels the standard sees. */
  lemma LoopExitsStep(st: seq<Opener>, i: Instr)
    requires DoneOnTop(st) && Step(st, i, LoopExits).Some?
    ensures DoneOnTop(Step(st, i, LoopExits).value)
    ensures Step(Undone(st), i, AnyLabel) == Some(Undone(Step(st, i, LoopExits).value))
  {
    var st' := Step(st, i, LoopExits).value;
    if !Live(st) {
      var low := st[..|st| - 1];
      assert st' == low && Live(low);
      assert Undone(st)[..|st| - 1] == low;
    } else if i.Br? && BackEdge(st, i.depth) {
      assert st'[..|st| - 1] == st[..|st| - 1];
      assert Undone(st') == st;
    } else if i.Else? {
      assert st'[..|st'| - 1] == st[..|st| - 1];
    } else if i.End? {
      assert st' == st[..|st| - 1];
    }
  }

  /** Code that branches only to loop exits and back edges is also valid
      under the standard's rule, with the same effect on the labels. */
  lemma {:induction false} LoopExitsAreValid(st: seq<Opener>, code: seq<Instr>)
    requires DoneOnTop(st) && Run(st, code, LoopExits).Some?
    ensures Run(Undone(st), code, AnyLabel) == Some(Undone(Run(st, code, LoopExits).value))
    decreases |code|
  {
    if |code| > 0 {
      LoopExitsStep(st, code[0]);
      LoopExitsAreValid(Step(st, code[0], LoopExits).value, code[1..]);
    }
  }

  /** Run from outside any label, `code` is well nested, closes every label
      it opens and every branch has a target. */
  predicate Balanced(code: seq<Instr>)
  {
    Run([], code, AnyLabel) == Some([])
  }

  /** Code that touches no label leaves any label stack as it is. */
  predicate Plain(code: seq<Instr>)
  {
    forall k :: 0 <= k < |code| ==> NoLabel(code[k])
  }

  /** The instruction neither opens, switches, closes nor targets a label. */
  predicate NoLabel(i: Instr)
  {
    !i.Block? && !i.Loop? && !i.If? && !i.Else? && !i.End? && !i.Br?
  }

  lemma {:induction false} RunPlain(st: seq<Opener>, code: seq<Instr>, rule: BrRule)
    requires Live(st) && Plain(code)
    ensures Run(st, code, rule) == Some(st)
    decreases |code|
  {
    if |code| > 0 {
      RunPlain(st, code[1..], rule);
    }
  }

  lemma RunOne(st: seq<Opener>, i: Instr, rule: BrRule)
    ensures Run(st, [i], rule) == Step(st, i, rule)
  {
    if Step(st, i, rule).Some? {
      assert Run(Step(st, i, rule).value, [i][1..], rule) == Step(st, i, rule);
    }
  }

  /** A condition, then an `if` whose arms touch no label, is balanced. */
  lemma IfElseBalanced(c: seq<Instr>, t: seq<Instr>, e: seq<Instr>)
    requires Plain(c) && Plain(t) && Plain(e)
    ensures Balanced(c + [If] + t + [Else] + e + [End])
  {
    var r := AnyLabel;
    var s2 := t + ([Else] + (e + [End]));
    var s1 := [If] + s2;
    ThenElseCloses(t, e);
    RunOne([], If, r);
    assert [] + [InIf] == [InIf];
    RunAppend([], [If], s2, r);
    RunPlain([], c, r);
    RunAppend([], c, s1, r);
    assert c + [If] + t + [Else] + e + [End] == c + s1;
  }

  /** Inside an `if`: a plain then-arm, `else`, a plain else-arm and `end`
      close it. */
  lemma ThenElseCloses(t: seq<Instr>, e: seq<Instr>)
    requires Plain(t) && Plain(e)
    ensures Run([InIf], t + ([Else] + (e + [End])), AnyLabel) == Some([])
  {
    var r := AnyLabel;
    var s4 := e + [End];
    ElseCloses(e);
    RunOne([InIf], Else, r);
    assert [InIf][..0] + [InElse] == [InElse];
    RunAppend([InIf], [Else], s4, r);
    RunPlain([InIf], t, r);
    RunAppend([InIf], t, [Else] + s4, r);
  }

  /** Inside an `else`: a plain arm and `end` close it. */
  lemma ElseCloses(e: seq<Instr>)
    requires Plain(e)
    ensures Run([InElse], e + [End], AnyLabel) == Some([])
  {
    var r := AnyLabel;
    RunPlain([InElse], e, r);
    RunOne([InElse], End, r);
    assert [InElse][..0] == [];
    RunAppend([InElse], e, [End], r);
  }

  /** No call placeholder is left. */
  predicate NoPlaceholders(code: seq<Instr>)
  {
    forall k :: 0 <= k < |code| ==> !code[k].CallRef?
  }
}
