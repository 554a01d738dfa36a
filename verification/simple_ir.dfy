/** The simplified IR shared by the simplifier, the peephole passes, both
    code generators and the interpreter (compiler/src/simplifier/simple.rs
    and compiler_old/src/simplifier/simple.rs, which differ only in field
    names). Every operand is an identifier: a renamed `Plain` identifier or
    a compiler temporary that is assigned once (`SingleUse`). */
module SimpleIR {
  import opened Wrappers
  import opened Ints
  import opened PlainIR

  datatype Ident = Plain(x: PlainIdent) | SingleUse(id: nat)

  datatype Value =
    | Ident(ident: Ident)
    | LitNum(n: Int32)
    | Call(fun: nat, args: seq<Ident>)

  datatype Stmt =
    | Assignment(target: Ident, value: Value)
    | Return(result: Ident)
    | Loop(lbl: nat, body: seq<Stmt>)
    | Break(lbl: nat)
    | If(cond: Ident, thn: seq<Stmt>, els: ElseBranch)
    | Nop

  /** An optional else-branch (a dedicated type rather than `Option`, so
      that recursion into it is visibly structural). */
  datatype ElseBranch = NoElse | HasElse(body: seq<Stmt>)

  /** A simplified function: its parameters' local ids, its body, and the
      table naming the global reference ids it calls. */
  datatype SimpleFun = SimpleFun(name: string, params: seq<nat>, body: seq<Stmt>, refs: seq<string>)

  /** The integers `lo, lo + 1, ..., hi - 1`. */
  function Range(lo: nat, hi: nat): (r: seq<nat>)
    requires lo <= hi
    ensures |r| == hi - lo
    ensures forall i :: 0 <= i < |r| ==> r[i] == lo + i
  {
    seq(hi - lo, i requires 0 <= i < hi - lo => lo + i)
  }

  lemma RangeSplit(lo: nat, mid: nat, hi: nat)
    requires lo <= mid <= hi
    ensures Range(lo, mid) + Range(mid, hi) == Range(lo, hi)
  {
  }

  /** A range holds no repeated value. */
  lemma RangeDistinct(lo: nat, hi: nat)
    requires lo <= hi
    ensures forall i, j :: 0 <= i < j < hi - lo ==> Range(lo, hi)[i] < Range(lo, hi)[j]
  {
  }

  /** The temporaries the statements assign, in order, nested bodies
      included (then-branch before else-branch). */
  function SUDefs(ss: seq<Stmt>): seq<nat>
    decreases ss
  {
    if |ss| == 0 then [] else StmtSUDefs(ss[0]) + SUDefs(ss[1..])
  }

  function StmtSUDefs(s: Stmt): seq<nat>
    decreases s
  {
    match s
    case Assignment(SingleUse(t), _) => [t]
    case Loop(_, body) => SUDefs(body)
    case If(_, thn, HasElse(els)) => SUDefs(thn) + SUDefs(els)
    case If(_, thn, NoElse) => SUDefs(thn)
    case _ => []
  }

  lemma {:induction false} SUDefsAppend(a: seq<Stmt>, b: seq<Stmt>)
    ensures SUDefs(a + b) == SUDefs(a) + SUDefs(b)
    decreases |a|
  {
    if |a| == 0 {
      assert a + b == b;
    } else {
      assert (a + b)[1..] == a[1..] + b;
      SUDefsAppend(a[1..], b);
    }
  }

  /** The labels of the loops in the statements, in order, nested loops
      after their enclosing loop. */
  function Labels(ss: seq<Stmt>): seq<nat>
    decreases ss
  {
    if |ss| == 0 then [] else StmtLabels(ss[0]) + Labels(ss[1..])
  }

  function StmtLabels(s: Stmt): seq<nat>
    decreases s
  {
    match s
    case Loop(l, body) => [l] + Labels(body)
    case If(_, thn, HasElse(els)) => Labels(thn) + Labels(els)
    case If(_, thn, NoElse) => Labels(thn)
    case _ => []
  }

  lemma {:induction false} LabelsAppend(a: seq<Stmt>, b: seq<Stmt>)
    ensures Labels(a + b) == Labels(a) + Labels(b)
    decreases |a|
  {
    if |a| == 0 {
      assert a + b == b;
    } else {
      assert (a + b)[1..] == a[1..] + b;
      LabelsAppend(a[1..], b);
    }
  }

  /** Every `Break` names its innermost enclosing loop; `inner` is that
      loop's label, or `None` outside any loop. */
  predicate BreaksTargetInnermost(ss: seq<Stmt>, inner: Option<nat>)
    decreases ss
  {
    forall i :: 0 <= i < |ss| ==> StmtBreaksTargetInnermost(ss[i], inner)
  }

  predicate StmtBreaksTargetInnermost(s: Stmt, inner: Option<nat>)
    decreases s
  {
    match s
    case Break(l) => inner == Some(l)
    case Loop(l, body) => BreaksTargetInnermost(body, Some(l))
    case If(_, thn, HasElse(els)) => BreaksTargetInnermost(thn, inner) && BreaksTargetInnermost(els, inner)
    case If(_, thn, NoElse) => BreaksTargetInnermost(thn, inner)
    case _ => true
  }

  /** The statements contain no `If`, `Loop` or `Break`. */
  predicate StraightLine(ss: seq<Stmt>)
  {
    forall i :: 0 <= i < |ss| ==> !ss[i].If? && !ss[i].Loop? && !ss[i].Break?
  }

  /** Every `Plain` identifier the statements mention is a local. */
  predicate IdentLocal(id: Ident)
  {
    id.Plain? ==> id.x.Local?
  }

  predicate ValueLocal(v: Value)
  {
    match v
    case Ident(id) => IdentLocal(id)
    case LitNum(_) => true
    case Call(_, args) => forall i :: 0 <= i < |args| ==> IdentLocal(args[i])
  }

  predicate AllLocal(ss: seq<Stmt>)
    decreases ss
  {
    forall i :: 0 <= i < |ss| ==> StmtLocal(ss[i])
  }

  predicate StmtLocal(s: Stmt)
    decreases s
  {
    match s
    case Assignment(t, v) => IdentLocal(t) && ValueLocal(v)
    case Return(id) => IdentLocal(id)
    case Loop(_, body) => AllLocal(body)
    case If(c, thn, HasElse(els)) => IdentLocal(c) && AllLocal(thn) && AllLocal(els)
    case If(c, thn, NoElse) => IdentLocal(c) && AllLocal(thn)
    case _ => true
  }
}
