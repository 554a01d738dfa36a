/** The primitive functions the linkers add to every program, as constant
    tables: compiler_old/src/codegen_wasm/prims.rs (boxed values, with
    packing and unpacking) and compiler/src/linker/prims.rs (plain `i32`
    arithmetic). */
module Prims {
  import opened Wrappers
  import opened Ints
  import W = Wasm
  import Old = CodegenOld
  import New = CodegenNew

  /** The type index of the object struct, and the tag of a boxed `i32`
      (compiler_old/src/codegen_wasm/rts.rs). */
  const ObjectTypeId: nat := 0
  const ObjectTagI32: Int32 := 1

  const PrimPrefix: string := "__prim_"

  /** The comparison and arithmetic primitives, in table order. */
  const BinopNames: seq<string> := ["gt?", "gte?", "lt?", "lte?", "eq?", "add"]
  const BinopOps: seq<W.BinOp> := [W.I32GtU, W.I32GeU, W.I32LtU, W.I32LeU, W.I32Eq, W.I32Add]

  function PrimName(name: string): (r: string)
    ensures |r| == |PrimPrefix| + |name| && r[..|PrimPrefix|] == PrimPrefix && r[|PrimPrefix|..] == name
  {
    PrimPrefix + name
  }

  /** Prefixing is injective, so distinct base names give distinct
      primitive names. */
  lemma PrimNameInjective(a: string, b: string)
    requires PrimName(a) == PrimName(b)
    ensures a == b
  {
    assert a == PrimName(a)[|PrimPrefix|..];
  }

  // ---------------------------------------------------------------------
  // Older table

  function MkPrim(name: string, params: seq<W.ValType>, body: seq<W.Instr>, refs: seq<string>): (r: Old.Fragment)
    ensures r.name == PrimName(name) && !r.exported
    ensures r.params == params && r.body == body && r.refs == refs
  {
    Old.Fragment(PrimName(name), false, params, body, refs)
  }

  /** A binary primitive unboxes its first argument through the unpacking
      primitive (reference 0), then applies `op`. */
  function MkBinop(name: string, op: W.BinOp): Old.Fragment
  {
    MkPrim(name, [W.I32, W.I32],
      [W.LocalGet(0), W.CallRef(0, 1), W.LocalGet(1), W.Bin(op)],
      [PrimName("unpack_i32")])
  }

  /** Boxes an `i32` as an object struct with the `i32` tag. */
  function MkPack(): Old.Fragment
  {
    MkPrim("pack_i32", [W.I32], [W.I32Const(ObjectTagI32), W.LocalGet(0), W.StructNew(ObjectTypeId)], [])
  }

  /** Unboxes an object: its payload when the tag is the `i32` tag,
      otherwise a trap. */
  function MkUnpack(): Old.Fragment
  {
    MkPrim("unpack_i32", [W.ObjectRef],
      [W.LocalGet(0), W.StructGet(ObjectTypeId, 0), W.I32Const(ObjectTagI32), W.Bin(W.I32Eq),
       W.If, W.LocalGet(0), W.StructGet(ObjectTypeId, 1),
       W.Else, W.I32Const(0), W.Unreachable,
       W.End],
      [])
  }

  function OldPrims(): (r: seq<Old.Fragment>)
    ensures |r| == 8
  {
    seq(6, i requires 0 <= i < 6 => MkBinop(BinopNames[i], BinopOps[i])) + [MkPack(), MkUnpack()]
  }

  /** The base names of the older table, in order. */
  const OldNames: seq<string> := BinopNames + ["pack_i32", "unpack_i32"]

  /** Every call placeholder of `f` has an entry in its reference table. */
  predicate RefsCover(f: Old.Fragment)
  {
    forall k :: 0 <= k < |f.body| ==> f.body[k].CallRef? ==> f.body[k].fun < |f.refs|
  }

  lemma OldPrimAt(i: nat)
    requires i < 8
    ensures OldPrims()[i] == if i < 6 then MkBinop(BinopNames[i], BinopOps[i]) else if i == 6 then MkPack() else MkUnpack()
  {
  }

  /** The older table: eight primitives in fixed order, each named with
      the prefix and not exported. */
  lemma OldPrimsNamed()
    ensures forall i :: 0 <= i < 8 ==> OldPrims()[i].name == PrimName(OldNames[i]) && !OldPrims()[i].exported
  {
    forall i | 0 <= i < 8 ensures OldPrims()[i].name == PrimName(OldNames[i]) && !OldPrims()[i].exported {
      OldPrimAt(i);
    }
  }

  lemma OldNamesDistinct()
    ensures forall i, j :: 0 <= i < j < 8 ==> OldNames[i] != OldNames[j]
  {
    assert forall i :: 0 <= i < 8 ==> |OldNames[i]| >= 3;
    assert forall i :: 0 <= i < 8 ==> OldNames[i][..3] == ["gt?", "gte", "lt?", "lte", "eq?", "add", "pac", "unp"][i];
  }

  /** The names of the older table are pairwise distinct. */
  lemma OldPrimsDistinct()
    ensures forall i, j :: 0 <= i < j < 8 ==> OldPrims()[i].name != OldPrims()[j].name
  {
    OldPrimsNamed();
    OldNamesDistinct();
    forall i, j | 0 <= i < j < 8 ensures OldPrims()[i].name != OldPrims()[j].name {
      if OldPrims()[i].name == OldPrims()[j].name {
        PrimNameInjective(OldNames[i], OldNames[j]);
      }
    }
  }

  /** Every placeholder of the older table resolves, through its reference
      table, to a primitive of the table other than the caller (the
      unpacking primitive, last in the table). */
  lemma OldPrimsClosed()
    ensures forall i :: 0 <= i < 8 ==> RefsCover(OldPrims()[i])
    ensures forall i, k :: 0 <= i < 8 && 0 <= k < |OldPrims()[i].refs| ==>
      OldPrims()[i].refs[k] == OldPrims()[7].name && i != 7
  {
    forall i | 0 <= i < 8 ensures RefsCover(OldPrims()[i]) && forall k :: 0 <= k < |OldPrims()[i].refs| ==>
      OldPrims()[i].refs[k] == OldPrims()[7].name && i != 7
    {
      OldPrimAt(i);
      OldPrimAt(7);
    }
  }

  /** Packing and unpacking call nothing. */
  lemma BoxingPrimsCallNothing()
    ensures forall i :: 6 <= i < 8 ==> OldPrims()[i].refs == [] && W.NoPlaceholders(OldPrims()[i].body)
  {
    OldPrimAt(6);
    OldPrimAt(7);
  }

  /** Unpacking's `if` ... `else` ... `end` is balanced. */
  lemma UnpackBalanced()
    ensures W.Balanced(MkUnpack().body)
  {
    var c := [W.LocalGet(0), W.StructGet(ObjectTypeId, 0), W.I32Const(ObjectTagI32), W.Bin(W.I32Eq)];
    var t := [W.LocalGet(0), W.StructGet(ObjectTypeId, 1)];
    var e := [W.I32Const(0), W.Unreachable];
    W.IfElseBalanced(c, t, e);
    assert MkUnpack().body == c + [W.If] + t + [W.Else] + e + [W.End];
  }

  // ---------------------------------------------------------------------
  // Newer table

  function MkPrimNew(name: string, params: nat, body: seq<W.Instr>): (r: New.Fragment)
    ensures r.name == PrimName(name) && r.impl.params == params && r.impl.body == body && r.refs == []
  {
    New.Fragment(PrimName(name), New.FunImpl(params, body), [])
  }

  function MkBinopNew(name: string, op: W.BinOp): New.Fragment
  {
    MkPrimNew(name, 2, [W.LocalGet(0), W.LocalGet(1), W.Bin(op)])
  }

  function NewPrims(): (r: seq<New.Fragment>)
    ensures |r| == 6
  {
    seq(6, i requires 0 <= i < 6 => MkBinopNew(BinopNames[i], BinopOps[i]))
  }

  lemma NewPrimAt(i: nat)
    requires i < 6
    ensures NewPrims()[i] == MkBinopNew(BinopNames[i], BinopOps[i])
  {
  }

  /** The newer table: six primitives, named as the first six of the older
      table (so pairwise distinct), with two `i32` parameters, no
      references and no placeholders; each body is the older binary
      primitive's without the unboxing call. */
  lemma NewPrimsFacts()
    ensures forall i :: 0 <= i < 6 ==> NewPrims()[i].name == OldPrims()[i].name
    ensures forall i, j :: 0 <= i < j < 6 ==> NewPrims()[i].name != NewPrims()[j].name
    ensures forall i :: 0 <= i < 6 ==>
      NewPrims()[i].impl.params == |OldPrims()[i].params| && NewPrims()[i].refs == [] &&
      W.NoPlaceholders(NewPrims()[i].impl.body) && W.Plain(NewPrims()[i].impl.body)
    ensures forall i :: 0 <= i < 6 ==>
      NewPrims()[i].impl.body == OldPrims()[i].body[..1] + OldPrims()[i].body[2..]
  {
    OldPrimsDistinct();
    forall i | 0 <= i < 6 ensures
      NewPrims()[i].name == OldPrims()[i].name &&
      NewPrims()[i].impl.params == |OldPrims()[i].params| && NewPrims()[i].refs == [] &&
      W.NoPlaceholders(NewPrims()[i].impl.body) && W.Plain(NewPrims()[i].impl.body) &&
      NewPrims()[i].impl.body == OldPrims()[i].body[..1] + OldPrims()[i].body[2..]
    {
      NewPrimAt(i);
      OldPrimAt(i);
    }
  }
}
