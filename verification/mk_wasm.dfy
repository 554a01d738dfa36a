/** Module assembly for both snapshots (compiler_old/src/codegen_wasm/mk_wasm.rs
    and compiler/src/linker/mk_wasm.rs): the linked functions become the
    type, function, export and code sections of a WebAssembly module,
    kept abstract (section 5.5 of the WebAssembly Core Specification 2.0
    fixes their ids and order; the byte encoding is not modelled). */
module MkWasm {
  import W = Wasm
  import LinkerOld

  /** A linked function, as both snapshots hand it to assembly: name,
      export flag, parameter types and body. */
  type Decl = LinkerOld.Linked

  /** A type section entry: a function type, or a struct type with
      immutable fields. */
  datatype TypeKey = FuncType(params: seq<W.ValType>, results: seq<W.ValType>) | StructType(fields: seq<W.ValType>)

  datatype Export = Export(name: string, fun: nat)

  /** A code section entry: the declared locals and the instructions,
      closing `end` included. */
  datatype Code = Code(locals: seq<W.ValType>, body: seq<W.Instr>)

  /** The module's content, one field per section. */
  datatype Module = Module(types: seq<TypeKey>, funcs: seq<nat>, exports: seq<Export>, codes: seq<Code>)

  datatype Section =
    | TypeSec(types: seq<TypeKey>)
    | FunctionSec(funcs: seq<nat>)
    | ExportSec(exports: seq<Export>)
    | CodeSec(codes: seq<Code>)

  /** Section ids, from section 5.5.2 of the WebAssembly Core
      Specification 2.0. */
  function Id(s: Section): nat
  {
    match s
    case TypeSec(_) => 1
    case FunctionSec(_) => 3
    case ExportSec(_) => 7
    case CodeSec(_) => 10
  }

  /** Sections appear in increasing id order, as a module requires. */
  predicate Ordered(ss: seq<Section>)
  {
    forall i, j :: 0 <= i < j < |ss| ==> Id(ss[i]) < Id(ss[j])
  }

  /** The sections as both snapshots emit them: type, function, export,
      code. */
  function Sections(m: Module): (r: seq<Section>)
    ensures |r| == 4 && Ordered(r)
  {
    [TypeSec(m.types), FunctionSec(m.funcs), ExportSec(m.exports), CodeSec(m.codes)]
  }

  /** The sections agree with each other: every function has a code entry
      and a function type, every export names a function, every code entry
      ends with `end`. */
  predicate WellFormed(m: Module)
  {
    |m.funcs| == |m.codes| &&
    (forall i :: 0 <= i < |m.funcs| ==> m.funcs[i] < |m.types| && m.types[m.funcs[i]].FuncType?) &&
    (forall j :: 0 <= j < |m.exports| ==> m.exports[j].fun < |m.funcs|) &&
    (forall i :: 0 <= i < |m.codes| ==> ClosedByEnd(m.codes[i].body))
  }

  predicate ClosedByEnd(body: seq<W.Instr>)
  {
    |body| > 0 && body[|body| - 1] == W.End
  }

  // ---------------------------------------------------------------------
  // Locals

  /** The largest `local.set` index of `body`, 0 when there is none. */
  function MaxLocalSet(body: seq<W.Instr>): (r: nat)
    ensures forall k :: 0 <= k < |body| && body[k].LocalSet? ==> body[k].idx <= r
    ensures r > 0 ==> exists k :: 0 <= k < |body| && body[k] == W.LocalSet(r)
  {
    if |body| == 0 then 0
    else
      var m := MaxLocalSet(body[1..]);
      assert forall k :: 1 <= k < |body| ==> body[k] == body[1..][k - 1];
      if body[0].LocalSet? && body[0].idx > m then body[0].idx else m
  }

  /** `locals`: one local of type `t` per index up to the largest
      `local.set` target, so at least one. */
  function Locals(body: seq<W.Instr>, t: W.ValType): (r: seq<W.ValType>)
    ensures |r| >= 1 && forall k :: 0 <= k < |r| ==> r[k] == t
  {
    seq(MaxLocalSet(body) + 1, _ => t)
  }

  /** The declared locals cover every `local.set` target, and no more than
      needed: the last one is a target, unless there is no target at all
      and a single local is declared. */
  lemma LocalsExact(body: seq<W.Instr>, t: W.ValType)
    ensures forall k :: 0 <= k < |body| && body[k].LocalSet? ==> body[k].idx < |Locals(body, t)|
    ensures (exists k :: 0 <= k < |body| && body[k] == W.LocalSet(|Locals(body, t)| - 1)) ||
            ((forall k :: 0 <= k < |body| ==> !body[k].LocalSet? || body[k].idx == 0) && |Locals(body, t)| == 1)
  {
  }

  // ---------------------------------------------------------------------
  // Exports, shared by both snapshots

  /** The reference export list of `funs[k..]`: every exported function,
      in order, under its own name and index. */
  function ExportsFrom(funs: seq<Decl>, k: nat): (r: seq<Export>)
    requires k <= |funs|
    ensures |r| <= |funs| - k
    ensures forall j :: 0 <= j < |r| ==> k <= r[j].fun < |funs|
    decreases |funs| - k
  {
    if k == |funs| then []
    else if funs[k].exported then [Export(funs[k].name, k)] + ExportsFrom(funs, k + 1)
    else ExportsFrom(funs, k + 1)
  }

  /** Every entry names an exported function, under its name. */
  lemma {:induction false} ExportsFromNamed(funs: seq<Decl>, k: nat)
    requires k <= |funs|
    ensures forall j :: 0 <= j < |ExportsFrom(funs, k)| ==>
      funs[ExportsFrom(funs, k)[j].fun].exported && ExportsFrom(funs, k)[j].name == funs[ExportsFrom(funs, k)[j].fun].name
    decreases |funs| - k
  {
    if k < |funs| {
      ExportsFromNamed(funs, k + 1);
      var rest := ExportsFrom(funs, k + 1);
      if funs[k].exported {
        var r := ExportsFrom(funs, k);
        assert r == [Export(funs[k].name, k)] + rest;
        assert r[0] == Export(funs[k].name, k);
        assert forall j :: 1 <= j < |r| ==> r[j] == rest[j - 1];
      } else {
        assert ExportsFrom(funs, k) == rest;
      }
    }
  }

  /** The entries' indices strictly increase. */
  lemma {:induction false} ExportsFromIncreasing(funs: seq<Decl>, k: nat)
    requires k <= |funs|
    ensures forall j, j' :: 0 <= j < j' < |ExportsFrom(funs, k)| ==> ExportsFrom(funs, k)[j].fun < ExportsFrom(funs, k)[j'].fun
    decreases |funs| - k
  {
    if k < |funs| {
      ExportsFromIncreasing(funs, k + 1);
      var rest := ExportsFrom(funs, k + 1);
      if funs[k].exported {
        var r := ExportsFrom(funs, k);
        assert r == [Export(funs[k].name, k)] + rest;
        assert r[0] == Export(funs[k].name, k);
        forall j, j' | 0 <= j < j' < |r| ensures r[j].fun < r[j'].fun {
          assert r[j'] == rest[j' - 1];
          if j > 0 {
            assert r[j] == rest[j - 1];
          }
        }
      } else {
        assert ExportsFrom(funs, k) == rest;
      }
    }
  }

  /** Function `i` has an export entry exactly when it is exported. */
  lemma {:induction false} ExportsFromComplete(funs: seq<Decl>, k: nat, i: nat)
    requires k <= i < |funs|
    ensures funs[i].exported <==> Export(funs[i].name, i) in ExportsFrom(funs, k)
    decreases |funs| - k
  {
    if i > k {
      ExportsFromComplete(funs, k + 1, i);
      if funs[k].exported {
        assert ExportsFrom(funs, k) == [Export(funs[k].name, k)] + ExportsFrom(funs, k + 1);
      }
    }
  }

  // ---------------------------------------------------------------------
  // Older assembly: interned types

  /** `MkWasmEnv`: the type interning table and the sections built so
      far. */
  datatype Env = Env(typeMap: map<TypeKey, nat>, types: seq<TypeKey>, funcs: seq<nat>, codes: seq<Code>)

  /** The interning table and the type section agree both ways. */
  ghost predicate Interned(env: Env)
  {
    (forall t :: t in env.typeMap ==> env.typeMap[t] < |env.types| && env.types[env.typeMap[t]] == t) &&
    (forall i :: 0 <= i < |env.types| ==> env.types[i] in env.typeMap && env.typeMap[env.types[i]] == i)
  }

  /** An interned type section holds no type twice. */
  lemma InternedDistinct(env: Env)
    requires Interned(env)
    ensures forall i, j :: 0 <= i < j < |env.types| ==> env.types[i] != env.types[j]
  {
  }

  const EmptyEnv := Env(map[], [], [], [])

  /** The object struct: a tag and a payload, both immutable `i32`s
      (compiler_old/src/codegen_wasm/mk_wasm.rs). */
  const ObjectStruct := StructType([W.I32, W.I32])

  /** `get_type_ix`: the index of `ty`, added at the end of the type
      section when new. */
  function GetTypeIx(env: Env, ty: TypeKey): (r: (nat, Env))
    requires Interned(env)
    ensures Interned(r.1) && r.0 < |r.1.types| && r.1.types[r.0] == ty
    ensures ty in env.typeMap ==> r.1 == env
    ensures ty !in env.typeMap ==> r.0 == |env.types| && r.1.types == env.types + [ty]
    ensures r.1.funcs == env.funcs && r.1.codes == env.codes
  {
    if ty in env.typeMap then (env.typeMap[ty], env)
    else
      var ix := |env.types|;
      (ix, env.(typeMap := env.typeMap[ty := ix], types := env.types + [ty]))
  }

  /** Interning is memoised: asking again for a type gives the same index
      and changes nothing. */
  lemma GetTypeIxTwice(env: Env, ty: TypeKey)
    requires Interned(env)
    ensures GetTypeIx(GetTypeIx(env, ty).1, ty) == GetTypeIx(env, ty)
  {
  }

  /** `add_func`: appends a function entry and its code, closed by `end`,
      and returns the new function's index. */
  function AddFunc(env: Env, typeIx: nat, locals: seq<W.ValType>, body: seq<W.Instr>): (r: (nat, Env))
    ensures r.1.types == env.types && r.1.typeMap == env.typeMap
    ensures |r.1.funcs| == |env.funcs| + 1 && r.0 == |r.1.funcs| - 1
    ensures r.1.funcs[r.0] == typeIx && r.1.codes == env.codes + [Code(locals, body + [W.End])]
  {
    (|env.funcs|, env.(funcs := env.funcs + [typeIx], codes := env.codes + [Code(locals, body + [W.End])]))
  }

  /** The functions added so far are the first ones of `funs`, each with
      its own function type (object results) and its code. */
  ghost predicate Good(env: Env, funs: seq<Decl>)
  {
    Interned(env) && |env.funcs| == |env.codes| <= |funs| &&
    forall i :: 0 <= i < |env.funcs| ==>
      env.funcs[i] < |env.types| && env.types[env.funcs[i]] == FuncType(funs[i].params, [W.ObjectRef]) &&
      env.codes[i] == Code(Locals(funs[i].body, W.ObjectRef), funs[i].body + [W.End])
  }

  /** One step of the older loop: intern the function's type (object
      results) and add the function. It gets the next index, `Good` is
      kept, and the type section only grows. */
  function AddDecl(env: Env, funs: seq<Decl>): (r: (nat, Env))
    requires Good(env, funs) && |env.funcs| < |funs|
    ensures Good(r.1, funs) && r.0 == |env.funcs| && |r.1.funcs| == |env.funcs| + 1 && env.types <= r.1.types
  {
    var f := funs[|env.funcs|];
    var (ti, e1) := GetTypeIx(env, FuncType(f.params, [W.ObjectRef]));
    var (fi, e2) := AddFunc(e1, ti, Locals(f.body, W.ObjectRef), f.body);
    AddedKept(env, e2, funs);
    (fi, e2)
  }

  lemma AddedKept(env: Env, e2: Env, funs: seq<Decl>)
    requires Good(env, funs) && |env.funcs| < |funs| && Interned(e2)
    requires |e2.funcs| == |e2.codes| == |env.funcs| + 1
    requires env.types <= e2.types && e2.funcs[..|env.funcs|] == env.funcs && e2.codes[..|env.funcs|] == env.codes
    requires var i := |env.funcs|;
      e2.funcs[i] < |e2.types| && e2.types[e2.funcs[i]] == FuncType(funs[i].params, [W.ObjectRef]) &&
      e2.codes[i] == Code(Locals(funs[i].body, W.ObjectRef), funs[i].body + [W.End])
    ensures Good(e2, funs)
  {
    forall i | 0 <= i < |env.funcs|
      ensures e2.funcs[i] < |e2.types| && e2.types[e2.funcs[i]] == FuncType(funs[i].params, [W.ObjectRef]) &&
        e2.codes[i] == Code(Locals(funs[i].body, W.ObjectRef), funs[i].body + [W.End])
    {
      assert e2.funcs[i] == env.funcs[i] && e2.codes[i] == env.codes[i];
      assert e2.types[env.funcs[i]] == env.types[env.funcs[i]];
    }
  }

  /** The older loop over the functions from `k` on: add each function,
      export it when flagged. Every function ends up added, the type
      section only grows, and the exports are the reference list. */
  function Build(env: Env, exports: seq<Export>, funs: seq<Decl>, k: nat): (r: (Env, seq<Export>))
    requires Good(env, funs) && |env.funcs| == k
    ensures Good(r.0, funs) && |r.0.funcs| == |funs| && env.types <= r.0.types
    ensures r.1 == exports + ExportsFrom(funs, k)
    decreases |funs| - k
  {
    if k == |funs| then (env, exports)
    else
      var added := AddDecl(env, funs);
      var x := if funs[k].exported then exports + [Export(funs[k].name, added.0)] else exports;
      ExportStep(exports, funs, k);
      Build(added.1, x, funs, k + 1)
  }

  lemma ExportStep(exports: seq<Export>, funs: seq<Decl>, k: nat)
    requires k < |funs|
    ensures exports + ExportsFrom(funs, k) ==
      (if funs[k].exported then exports + [Export(funs[k].name, k)] else exports) + ExportsFrom(funs, k + 1)
  {
    if funs[k].exported {
      assert exports + [Export(funs[k].name, k)] + ExportsFrom(funs, k + 1) ==
        exports + ([Export(funs[k].name, k)] + ExportsFrom(funs, k + 1));
    }
  }

  /** The environment after interning the object struct. */
  function Start(): (r: Env)
    ensures Interned(r) && r.funcs == [] && r.codes == [] && r.types == [ObjectStruct]
  {
    GetTypeIx(EmptyEnv, ObjectStruct).1
  }

  /** `mk_wasm` of the older back end. */
  function MkWasmOld(funs: seq<Decl>): (r: Module)
  {
    var s := Start();
    assert Good(s, funs);
    var b := Build(s, [], funs, 0);
    Module(b.0.types, b.0.funcs, b.1, b.0.codes)
  }

  /** The older module's functions: function `i` has its own function
      type, with an object result, and its code, closed by `end`. */
  lemma MkWasmOldFunctions(funs: seq<Decl>)
    ensures |MkWasmOld(funs).funcs| == |MkWasmOld(funs).codes| == |funs|
    ensures forall i :: 0 <= i < |funs| ==>
      MkWasmOld(funs).funcs[i] < |MkWasmOld(funs).types| &&
      MkWasmOld(funs).types[MkWasmOld(funs).funcs[i]] == FuncType(funs[i].params, [W.ObjectRef]) &&
      MkWasmOld(funs).codes[i] == Code(Locals(funs[i].body, W.ObjectRef), funs[i].body + [W.End])
  {
    assert Good(Start(), funs);
  }

  /** The object struct is interned first, as type 0. */
  lemma MkWasmOldObjectFirst(funs: seq<Decl>)
    ensures |MkWasmOld(funs).types| > 0 && MkWasmOld(funs).types[0] == ObjectStruct
  {
    assert Good(Start(), funs);
    var e := Build(Start(), [], funs, 0).0;
    assert e.types[0] == e.types[..1][0];
  }

  /** The older exports are exactly the exported functions, at their
      indices. */
  lemma MkWasmOldExports(funs: seq<Decl>)
    ensures MkWasmOld(funs).exports == ExportsFrom(funs, 0)
  {
    assert Good(Start(), funs);
  }

  /** The older module is well formed. */
  lemma MkWasmOldWellFormed(funs: seq<Decl>)
    ensures WellFormed(MkWasmOld(funs))
  {
    var m := MkWasmOld(funs);
    MkWasmOldFunctions(funs);
    MkWasmOldExports(funs);
    forall i | 0 <= i < |m.funcs| ensures m.funcs[i] < |m.types| && m.types[m.funcs[i]].FuncType? {
      assert m.types[m.funcs[i]] == FuncType(funs[i].params, [W.ObjectRef]);
    }
    forall i | 0 <= i < |m.codes| ensures ClosedByEnd(m.codes[i].body) {
      assert m.codes[i].body == funs[i].body + [W.End];
    }
    forall j | 0 <= j < |m.exports| ensures m.exports[j].fun < |m.funcs| {
      assert m.exports[j] == ExportsFrom(funs, 0)[j];
    }
  }

  /** Interning: the type section holds no type twice. */
  lemma MkWasmOldDistinctTypes(funs: seq<Decl>)
    ensures var ts := MkWasmOld(funs).types;
      forall i, j :: 0 <= i < j < |ts| ==> ts[i] != ts[j]
  {
    assert Good(Start(), funs);
    InternedDistinct(Build(Start(), [], funs, 0).0);
  }

  /** Equal parameter lists share one interned type. */
  lemma MkWasmOldSharesTypes(funs: seq<Decl>, i: nat, j: nat)
    requires i < |funs| && j < |funs| && funs[i].params == funs[j].params
    ensures |MkWasmOld(funs).funcs| == |funs| && MkWasmOld(funs).funcs[i] == MkWasmOld(funs).funcs[j]
  {
    MkWasmOldFunctions(funs);
    MkWasmOldDistinctTypes(funs);
  }

  // ---------------------------------------------------------------------
  // Newer assembly: one type per function

  /** `mk_wasm` of the newer back end: type `i` is function `i`'s type
      (`i32` result), function `i` uses type `i`. */
  function MkWasmNew(funs: seq<Decl>): (r: Module)
  {
    Module(
      seq(|funs|, i requires 0 <= i < |funs| => FuncType(funs[i].params, [W.I32])),
      seq(|funs|, i => i),
      ExportsFrom(funs, 0),
      seq(|funs|, i requires 0 <= i < |funs| => Code(Locals(funs[i].body, W.I32), funs[i].body + [W.End])))
  }

  /** The newer module's functions: one type per function, function `i`
      using type `i`, with an `i32` result; each code entry is the body
      with its `end` and `i32` locals. */
  lemma MkWasmNewFunctions(funs: seq<Decl>)
    ensures var r := MkWasmNew(funs);
      |r.types| == |r.funcs| == |r.codes| == |funs| &&
      forall i :: 0 <= i < |funs| ==>
        r.funcs[i] == i && r.types[i] == FuncType(funs[i].params, [W.I32]) &&
        r.codes[i] == Code(Locals(funs[i].body, W.I32), funs[i].body + [W.End])
  {
  }

  /** The newer module is well formed. */
  lemma MkWasmNewWellFormed(funs: seq<Decl>)
    ensures WellFormed(MkWasmNew(funs))
  {
    var m := MkWasmNew(funs);
    MkWasmNewFunctions(funs);
    assert forall i :: 0 <= i < |m.codes| ==> ClosedByEnd(m.codes[i].body);
  }

  /** Both snapshots export the same functions under the same indices. */
  lemma SameExports(funs: seq<Decl>)
    ensures MkWasmNew(funs).exports == MkWasmOld(funs).exports
  {
    MkWasmOldExports(funs);
  }

  /** Both snapshots give the same code bodies and the same number of
      locals; they differ only in the local and result types. */
  lemma SameCodeShapes(funs: seq<Decl>)
    ensures |MkWasmOld(funs).codes| == |MkWasmNew(funs).codes| == |funs|
    ensures forall i :: 0 <= i < |funs| ==>
      MkWasmOld(funs).codes[i].body == MkWasmNew(funs).codes[i].body &&
      |MkWasmOld(funs).codes[i].locals| == |MkWasmNew(funs).codes[i].locals|
  {
    MkWasmOldFunctions(funs);
    MkWasmNewFunctions(funs);
  }
}
