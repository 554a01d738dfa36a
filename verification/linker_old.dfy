/** The older linker (compiler_old/src/codegen_wasm/linker.rs): registers
    the primitive and user fragments by name, then resolves every exported
    user function on demand, giving each linked function the next index
    once its body is linked, and rewriting call placeholders into calls by
    index. */
module LinkerOld {
  import opened Wrappers
  import W = Wasm
  import Old = CodegenOld
  import Prims

  /** A linked function: calls are by program-wide index. */
  datatype Linked = Linked(name: string, exported: bool, params: seq<W.ValType>, body: seq<W.Instr>)

  /** The linker's panics: a placeholder whose key is missing from the
      reference table, a name no fragment defines, and a resolution that
      re-enters a name it is still linking (the source recurses without end
      there). */
  datatype LinkError = NoReference(fun: nat) | NoFragment(name: string) | Diverges(name: string)

  type Avail = map<string, Old.Fragment>

  /** The linker's memo: linked functions in index order, and the index of
      each resolved name. */
  datatype LinkState = LinkState(funs: seq<Linked>, ixs: map<string, nat>)

  /** Every available fragment is registered under its own name. */
  ghost predicate Keyed(avail: Avail)
  {
    forall n :: n in avail ==> avail[n].name == n
  }

  /** The fragment a lookup of `n` finds after registering `fs` over
      `avail`: the last of `fs` named `n`, else `avail`'s. */
  function Lookup(avail: Avail, fs: seq<Old.Fragment>, n: string): Option<Old.Fragment>
    decreases |fs|
  {
    if |fs| == 0 then (if n in avail then Some(avail[n]) else None)
    else if fs[|fs| - 1].name == n then Some(fs[|fs| - 1])
    else Lookup(avail, fs[..|fs| - 1], n)
  }

  /** Registers `fs` in order (`register_available_fragment`); a later
      fragment replaces an earlier one of the same name. */
  function Register(avail: Avail, fs: seq<Old.Fragment>): (r: Avail)
    ensures forall n {:trigger Lookup(avail, fs, n)} ::
      (n in r <==> Lookup(avail, fs, n).Some?) && (n in r ==> r[n] == Lookup(avail, fs, n).value)
    decreases |fs|
  {
    if |fs| == 0 then avail
    else
      var last := fs[|fs| - 1];
      Register(avail, fs[..|fs| - 1])[last.name := last]
  }

  lemma {:induction false} LookupKeyed(avail: Avail, fs: seq<Old.Fragment>, n: string)
    requires Keyed(avail)
    ensures Lookup(avail, fs, n).Some? ==> Lookup(avail, fs, n).value.name == n
    decreases |fs|
  {
    if |fs| > 0 && fs[|fs| - 1].name != n {
      LookupKeyed(avail, fs[..|fs| - 1], n);
    }
  }

  /** Registration keys every fragment by its own name. */
  lemma RegisterKeyed(avail: Avail, fs: seq<Old.Fragment>)
    requires Keyed(avail)
    ensures Keyed(Register(avail, fs))
  {
    forall n | n in Register(avail, fs) ensures Register(avail, fs)[n].name == n {
      LookupKeyed(avail, fs, n);
    }
  }

  /** A fragment after which no fragment of its name is registered is the
      one a lookup finds. */
  lemma {:induction false} LastRegisteredWins(avail: Avail, fs: seq<Old.Fragment>, i: nat)
    requires i < |fs| && forall j :: i < j < |fs| ==> fs[j].name != fs[i].name
    ensures Lookup(avail, fs, fs[i].name) == Some(fs[i])
    decreases |fs|
  {
    if i < |fs| - 1 {
      LastRegisteredWins(avail, fs[..|fs| - 1], i);
    }
  }

  /** The fragments available to the linker: the primitives, then the
      user's, so that a user function replaces a primitive of its name. */
  function Available(user: seq<Old.Fragment>): Avail
  {
    Register(Register(map[], Prims.OldPrims()), user)
  }

  /** Everything `st` knew is still known, with the same index and the
      same linked functions. */
  ghost predicate Grows(st: LinkState, st': LinkState)
  {
    st.funs <= st'.funs &&
    forall n :: n in st.ixs ==> n in st'.ixs && st'.ixs[n] == st.ixs[n]
  }

  /** Names still being linked (in `stack`) stay unresolved. */
  ghost predicate KeepsOpen(st: LinkState, st': LinkState, stack: set<string>)
  {
    forall n :: n in stack && n !in st.ixs ==> n !in st'.ixs
  }

  /** Instruction `i` is position `j` of `f` after linking against the
      indices `ixs`: a placeholder becomes a call of its reference's index,
      anything else is copied. */
  ghost predicate LinkedAt(f: Old.Fragment, j: nat, i: W.Instr, ixs: map<string, nat>)
    requires j < |f.body|
  {
    if f.body[j].CallRef? then
      f.body[j].fun < |f.refs| && f.refs[f.body[j].fun] in ixs && i == W.Call(ixs[f.refs[f.body[j].fun]])
    else i == f.body[j]
  }

  /** `l` is `f` linked against `ixs`. */
  ghost predicate LinksVia(f: Old.Fragment, l: Linked, ixs: map<string, nat>)
  {
    l.name == f.name && l.exported == f.exported && l.params == f.params && |l.body| == |f.body| &&
    forall j :: 0 <= j < |f.body| ==> LinkedAt(f, j, l.body[j], ixs)
  }

  /** The index of `name`, linking its fragment first when it has none yet
      (`LinkerEnv::resolve`); `stack` holds the names whose linking is in
      progress. */
  function Resolve(avail: Avail, st: LinkState, name: string, stack: set<string>): (r: Result<(nat, LinkState), LinkError>)
    ensures name in st.ixs ==> r == Ok((st.ixs[name], st))
    ensures name !in st.ixs && name !in avail ==> r == Err(NoFragment(name))
    ensures name !in st.ixs && name in avail && name in stack ==> r == Err(Diverges(name))
    ensures r.Ok? ==> Grows(st, r.value.1) && name in r.value.1.ixs && r.value.1.ixs[name] == r.value.0
    ensures r.Ok? ==> KeepsOpen(st, r.value.1, stack)
    ensures r.Ok? && name !in st.ixs ==> r.value.0 == |r.value.1.funs| - 1
    decreases avail.Keys - stack, 0, 0
  {
    if name in st.ixs then Ok((st.ixs[name], st))
    else if name !in avail then Err(NoFragment(name))
    else if name in stack then Err(Diverges(name))
    else
      assert name in avail.Keys - stack && name !in avail.Keys - (stack + {name});
      var f := avail[name];
      var p :- LinkCode(avail, st, f, 0, stack + {name});
      var ix := |p.1.funs|;
      Ok((ix, LinkState(p.1.funs + [Linked(f.name, f.exported, f.params, p.0)], p.1.ixs[name := ix])))
  }

  /** Links `f.body[k..]` left to right (`link_function`). */
  function LinkCode(avail: Avail, st: LinkState, f: Old.Fragment, k: nat, stack: set<string>): (r: Result<(seq<W.Instr>, LinkState), LinkError>)
    requires k <= |f.body|
    ensures r.Ok? ==> Grows(st, r.value.1) && KeepsOpen(st, r.value.1, stack)
    ensures r.Ok? ==> |r.value.0| == |f.body| - k
    ensures r.Ok? ==> forall j :: 0 <= j < |r.value.0| ==> LinkedAt(f, k + j, r.value.0[j], r.value.1.ixs)
    ensures (exists j :: k <= j < |f.body| && f.body[j].CallRef? && f.body[j].fun >= |f.refs|) ==> r.Err?
    decreases avail.Keys - stack, 1, |f.body| - k
  {
    if k == |f.body| then Ok(([], st))
    else if f.body[k].CallRef? then
      if f.body[k].fun >= |f.refs| then Err(NoReference(f.body[k].fun))
      else
        var p :- Resolve(avail, st, f.refs[f.body[k].fun], stack);
        var q :- LinkCode(avail, p.1, f, k + 1, stack);
        ConsLinked(f, k, W.Call(p.0), q.0, q.1.ixs);
        Ok(([W.Call(p.0)] + q.0, q.1))
    else
      var q :- LinkCode(avail, st, f, k + 1, stack);
      ConsLinked(f, k, f.body[k], q.0, q.1.ixs);
      Ok(([f.body[k]] + q.0, q.1))
  }

  /** Resolves every exported fragment of `user[k..]`, in order. */
  function ResolveRoots(avail: Avail, st: LinkState, user: seq<Old.Fragment>, k: nat): (r: Result<LinkState, LinkError>)
    requires k <= |user|
    ensures r.Ok? ==> Grows(st, r.value)
    ensures r.Ok? ==> forall i :: k <= i < |user| && user[i].exported ==> user[i].name in r.value.ixs
    decreases |user| - k
  {
    if k == |user| then Ok(st)
    else if user[k].exported then
      var p :- Resolve(avail, st, user[k].name, {});
      ResolveRoots(avail, p.1, user, k + 1)
    else ResolveRoots(avail, st, user, k + 1)
  }

  /** The linked program: every function reachable from an exported user
      function, in index order (`run`). */
  function Run(user: seq<Old.Fragment>): (r: Result<LinkState, LinkError>)
    ensures r.Ok? ==> forall i :: 0 <= i < |user| && user[i].exported ==> user[i].name in r.value.ixs
  {
    ResolveRoots(Available(user), LinkState([], map[]), user, 0)
  }

  // ---------------------------------------------------------------------
  // Invariants of the memo

  /** Indices are dense and name the functions at them: `ixs` is a
      bijection from the resolved names onto `0 .. |funs|`. */
  ghost predicate Consistent(st: LinkState)
  {
    (forall n :: n in st.ixs ==> st.ixs[n] < |st.funs| && st.funs[st.ixs[n]].name == n) &&
    (forall i :: 0 <= i < |st.funs| ==> st.funs[i].name in st.ixs && st.ixs[st.funs[i].name] == i)
  }

  /** Every resolved name's function is its available fragment linked
      against the memo. */
  ghost predicate Sound(avail: Avail, st: LinkState)
  {
    forall n :: n in st.ixs ==>
      n in avail && st.ixs[n] < |st.funs| && LinksVia(avail[n], st.funs[st.ixs[n]], st.ixs)
  }

  /** Callees come before their callers. */
  ghost predicate PostOrder(funs: seq<Linked>)
  {
    forall i, j :: 0 <= i < |funs| && 0 <= j < |funs[i].body| && funs[i].body[j].Call? ==>
      funs[i].body[j].idx < i
  }

  /** The fragments call only through placeholders, as the code generator
      emits them. */
  ghost predicate NoDirectCalls(avail: Avail)
  {
    forall n, j :: n in avail && 0 <= j < |avail[n].body| ==> !avail[n].body[j].Call?
  }

  ghost predicate Inv(avail: Avail, st: LinkState)
  {
    Consistent(st) && Sound(avail, st) && PostOrder(st.funs)
  }

  lemma LinkedAtMono(f: Old.Fragment, j: nat, i: W.Instr, ixs: map<string, nat>, ixs': map<string, nat>)
    requires j < |f.body| && LinkedAt(f, j, i, ixs)
    requires forall n :: n in ixs ==> n in ixs' && ixs'[n] == ixs[n]
    ensures LinkedAt(f, j, i, ixs')
  {
  }

  lemma LinksViaMono(f: Old.Fragment, l: Linked, ixs: map<string, nat>, ixs': map<string, nat>)
    requires LinksVia(f, l, ixs)
    requires forall n :: n in ixs ==> n in ixs' && ixs'[n] == ixs[n]
    ensures LinksVia(f, l, ixs')
  {
    forall j | 0 <= j < |f.body| ensures LinkedAt(f, j, l.body[j], ixs') {
      LinkedAtMono(f, j, l.body[j], ixs, ixs');
    }
  }

  /** Linking a fresh function at the end keeps the memo's invariants. */
  lemma AppendInv(avail: Avail, st: LinkState, name: string, l: Linked)
    requires Keyed(avail) && NoDirectCalls(avail) && Inv(avail, st)
    requires name in avail && name !in st.ixs && LinksVia(avail[name], l, st.ixs)
    ensures Inv(avail, LinkState(st.funs + [l], st.ixs[name := |st.funs|]))
  {
    var ix := |st.funs|;
    var st' := LinkState(st.funs + [l], st.ixs[name := ix]);
    assert l.name == name;
    forall n | n in st.ixs
      ensures LinksVia(avail[n], st'.funs[st'.ixs[n]], st'.ixs)
    {
      LinksViaMono(avail[n], st.funs[st.ixs[n]], st.ixs, st'.ixs);
    }
    LinksViaMono(avail[name], l, st.ixs, st'.ixs);
    forall j | 0 <= j < |l.body| && l.body[j].Call? ensures l.body[j].idx < ix {
      assert LinkedAt(avail[name], j, l.body[j], st.ixs);
    }
    assert Consistent(st');
  }

  lemma {:induction false} ResolveInv(avail: Avail, st: LinkState, name: string, stack: set<string>)
    requires Keyed(avail) && NoDirectCalls(avail) && Inv(avail, st)
    ensures Resolve(avail, st, name, stack).Ok? ==> Inv(avail, Resolve(avail, st, name, stack).value.1)
    decreases avail.Keys - stack, 0, 0
  {
    if name !in st.ixs && name in avail && name !in stack {
      assert name in avail.Keys - stack && name !in avail.Keys - (stack + {name});
      var f := avail[name];
      var c := LinkCode(avail, st, f, 0, stack + {name});
      LinkCodeInv(avail, st, f, 0, stack + {name});
      if c.Ok? {
        var l := Linked(f.name, f.exported, f.params, c.value.0);
        assert LinksVia(f, l, c.value.1.ixs);
        AppendInv(avail, c.value.1, name, l);
      }
    }
  }

  lemma {:induction false} LinkCodeInv(avail: Avail, st: LinkState, f: Old.Fragment, k: nat, stack: set<string>)
    requires k <= |f.body|
    requires Keyed(avail) && NoDirectCalls(avail) && Inv(avail, st)
    ensures LinkCode(avail, st, f, k, stack).Ok? ==> Inv(avail, LinkCode(avail, st, f, k, stack).value.1)
    decreases avail.Keys - stack, 1, |f.body| - k
  {
    if k < |f.body| {
      if f.body[k].CallRef? {
        if f.body[k].fun < |f.refs| {
          var p := Resolve(avail, st, f.refs[f.body[k].fun], stack);
          ResolveInv(avail, st, f.refs[f.body[k].fun], stack);
          if p.Ok? {
            LinkCodeInv(avail, p.value.1, f, k + 1, stack);
          }
        }
      } else {
        LinkCodeInv(avail, st, f, k + 1, stack);
      }
    }
  }

  /** A lookup finds one of the registered fragments or the earlier one. */
  lemma {:induction false} LookupFrom(avail: Avail, fs: seq<Old.Fragment>, n: string)
    ensures Lookup(avail, fs, n).Some? ==>
      Lookup(avail, fs, n).value in fs || (n in avail && Lookup(avail, fs, n).value == avail[n])
    decreases |fs|
  {
    if |fs| > 0 && fs[|fs| - 1].name != n {
      LookupFrom(avail, fs[..|fs| - 1], n);
    }
  }

  /** `f` calls only through placeholders. */
  predicate CallsByRef(f: Old.Fragment)
  {
    forall j :: 0 <= j < |f.body| ==> !f.body[j].Call?
  }

  lemma AvailableInv(user: seq<Old.Fragment>)
    requires forall i :: 0 <= i < |user| ==> CallsByRef(user[i])
    ensures Keyed(Available(user)) && NoDirectCalls(Available(user))
  {
    var base := Register(map[], Prims.OldPrims());
    RegisterKeyed(map[], Prims.OldPrims());
    RegisterKeyed(base, user);
    forall n | n in Available(user) ensures CallsByRef(Available(user)[n]) {
      LookupFrom(base, user, n);
      if Available(user)[n] !in user {
        LookupFrom(map[], Prims.OldPrims(), n);
        var k :| 0 <= k < 8 && Prims.OldPrims()[k] == base[n];
        Prims.OldPrimAt(k);
      }
    }
  }

  lemma {:induction false} ResolveRootsInv(avail: Avail, st: LinkState, user: seq<Old.Fragment>, k: nat)
    requires k <= |user|
    requires Keyed(avail) && NoDirectCalls(avail) && Inv(avail, st)
    ensures ResolveRoots(avail, st, user, k).Ok? ==> Inv(avail, ResolveRoots(avail, st, user, k).value)
    decreases |user| - k
  {
    if k < |user| {
      if user[k].exported {
        var p := Resolve(avail, st, user[k].name, {});
        ResolveInv(avail, st, user[k].name, {});
        if p.Ok? {
          ResolveRootsInv(avail, p.value.1, user, k + 1);
        }
      } else {
        ResolveRootsInv(avail, st, user, k + 1);
      }
    }
  }

  /** A linked program has one function per resolved name at dense
      indices, callees before callers, every exported user function among
      them, and each function is the available fragment of its name with
      every placeholder turned into a call of the function its reference
      names. */
  lemma RunLinks(user: seq<Old.Fragment>)
    requires forall i :: 0 <= i < |user| ==> CallsByRef(user[i])
    ensures Run(user).Ok? ==> Consistent(Run(user).value) && PostOrder(Run(user).value.funs)
    ensures Run(user).Ok? ==> Sound(Available(user), Run(user).value)
    ensures Run(user).Ok? ==> forall i :: 0 <= i < |user| && user[i].exported ==> user[i].name in Run(user).value.ixs
  {
    AvailableInv(user);
    ResolveRootsInv(Available(user), LinkState([], map[]), user, 0);
  }

  /** A call in a linked program targets the function its placeholder's
      reference names. */
  lemma CallTargetsNamedFunction(avail: Avail, st: LinkState, n: string, j: nat)
    requires Consistent(st) && Sound(avail, st)
    requires n in st.ixs && j < |avail[n].body| && avail[n].body[j].CallRef?
    ensures st.funs[st.ixs[n]].body[j].Call?
    ensures st.funs[st.funs[st.ixs[n]].body[j].idx].name == avail[n].refs[avail[n].body[j].fun]
  {
    assert LinkedAt(avail[n], j, st.funs[st.ixs[n]].body[j], st.ixs);
  }

  /** Memoisation: resolving a name twice links it once and gives the same
      index both times. */
  lemma ResolveTwice(avail: Avail, st: LinkState, name: string, stack: set<string>)
    requires Resolve(avail, st, name, stack).Ok?
    ensures var p := Resolve(avail, st, name, stack).value;
      Resolve(avail, p.1, name, stack) == Ok(p)
  {
  }

  // ---------------------------------------------------------------------
  // Recursion

  /** A function that calls itself. */
  function SelfCaller(): Old.Fragment
  {
    Old.Fragment("f", true, [], [W.CallRef(0, 0)], ["f"])
  }

  /** As written, a self-recursive function is never given an index: its
      placeholder re-enters the resolution of its own name. */
  lemma SelfCallDiverges()
    ensures Resolve(map["f" := SelfCaller()], LinkState([], map[]), "f", {}) == Err(Diverges("f"))
  {
    var avail := map["f" := SelfCaller()];
    assert Resolve(avail, LinkState([], map[]), "f", {"f"}) == Err(Diverges("f"));
    assert LinkCode(avail, LinkState([], map[]), SelfCaller(), 0, {"f"}) == Err(Diverges("f"));
  }

  /** Every placeholder of `f` has a reference naming an available
      fragment. */
  ghost predicate FragmentClosed(f: Old.Fragment, avail: Avail)
  {
    forall j :: 0 <= j < |f.body| && f.body[j].CallRef? ==>
      f.body[j].fun < |f.refs| && f.refs[f.body[j].fun] in avail
  }

  ghost predicate Closed(avail: Avail)
  {
    forall n {:trigger avail[n]} :: n in avail ==> FragmentClosed(avail[n], avail)
  }

  /** The memo of the corrected linker: an index is reserved for a name
      before its body is linked, so `funs` is filled in out of order. */
  datatype FixState = FixState(funs: map<nat, Linked>, ixs: map<string, nat>, next: nat)

  ghost predicate FixGrows(st: FixState, st': FixState)
  {
    (forall n :: n in st.ixs ==> n in st'.ixs && st'.ixs[n] == st.ixs[n]) &&
    st.funs.Keys <= st'.funs.Keys &&
    st.next <= st'.next
  }

  /** Every name resolved since `st` has its function linked. */
  ghost predicate Filled(st: FixState, st': FixState)
  {
    forall n :: n in st'.ixs && n !in st.ixs ==> st'.ixs[n] in st'.funs
  }

  /** The available names not resolved yet: the corrected resolution's
      termination measure. */
  function Unresolved(avail: Avail, ixs: map<string, nat>): set<string>
  {
    avail.Keys - ixs.Keys
  }

  /** The corrected resolution: reserve the next index for `name`, then
      link its body, so a recursive reference finds the reserved index. */
  function ResolveFixed(avail: Avail, st: FixState, name: string): (r: Result<(nat, FixState), LinkError>)
    ensures name in st.ixs ==> r == Ok((st.ixs[name], st))
    ensures name !in st.ixs && name !in avail ==> r == Err(NoFragment(name))
    ensures r.Ok? ==> FixGrows(st, r.value.1) && name in r.value.1.ixs && r.value.1.ixs[name] == r.value.0
    decreases Unresolved(avail, st.ixs), 0, 0
  {
    if name in st.ixs then Ok((st.ixs[name], st))
    else if name !in avail then Err(NoFragment(name))
    else
      var ix := st.next;
      var st0 := FixState(st.funs, st.ixs[name := ix], st.next + 1);
      assert name in Unresolved(avail, st.ixs) && name !in Unresolved(avail, st0.ixs);
      var f := avail[name];
      var p :- LinkCodeFixed(avail, st0, f, 0);
      Ok((ix, p.1.(funs := p.1.funs[ix := Linked(f.name, f.exported, f.params, p.0)])))
  }

  function LinkCodeFixed(avail: Avail, st: FixState, f: Old.Fragment, k: nat): (r: Result<(seq<W.Instr>, FixState), LinkError>)
    requires k <= |f.body|
    ensures r.Ok? ==> FixGrows(st, r.value.1)
    ensures r.Ok? ==> |r.value.0| == |f.body| - k
    decreases Unresolved(avail, st.ixs), 1, |f.body| - k
  {
    if k == |f.body| then Ok(([], st))
    else if f.body[k].CallRef? then
      if f.body[k].fun >= |f.refs| then Err(NoReference(f.body[k].fun))
      else
        var p :- ResolveFixed(avail, st, f.refs[f.body[k].fun]);
        var q :- LinkCodeFixed(avail, p.1, f, k + 1);
        Ok(([W.Call(p.0)] + q.0, q.1))
    else
      var q :- LinkCodeFixed(avail, st, f, k + 1);
      Ok(([f.body[k]] + q.0, q.1))
  }

  /** The corrected resolution links every name it resolves: the function
      at a newly resolved name's index is its fragment linked against the
      memo. */
  lemma {:induction false} ResolveFixedFills(avail: Avail, st: FixState, name: string)
    ensures var r := ResolveFixed(avail, st, name);
      r.Ok? ==> Filled(st, r.value.1)
    ensures var r := ResolveFixed(avail, st, name);
      r.Ok? && name !in st.ixs ==>
        r.value.0 in r.value.1.funs && LinksVia(avail[name], r.value.1.funs[r.value.0], r.value.1.ixs)
    decreases Unresolved(avail, st.ixs), 0, 0
  {
    if name !in st.ixs && name in avail {
      var st0 := FixState(st.funs, st.ixs[name := st.next], st.next + 1);
      assert name in Unresolved(avail, st.ixs) && name !in Unresolved(avail, st0.ixs);
      LinkCodeFixedFills(avail, st0, avail[name], 0);
    }
  }

  lemma {:induction false} LinkCodeFixedFills(avail: Avail, st: FixState, f: Old.Fragment, k: nat)
    requires k <= |f.body|
    ensures LinkCodeFixed(avail, st, f, k).Ok? ==> Filled(st, LinkCodeFixed(avail, st, f, k).value.1)
    ensures LinkCodeFixed(avail, st, f, k).Ok? ==> forall j :: 0 <= j < |LinkCodeFixed(avail, st, f, k).value.0| ==>
      LinkedAt(f, k + j, LinkCodeFixed(avail, st, f, k).value.0[j], LinkCodeFixed(avail, st, f, k).value.1.ixs)
    decreases Unresolved(avail, st.ixs), 1, |f.body| - k
  {
    var r := LinkCodeFixed(avail, st, f, k);
    if k < |f.body| && r.Ok? {
      if f.body[k].CallRef? {
        var name := f.refs[f.body[k].fun];
        var p := ResolveFixed(avail, st, name).value;
        ResolveFixedFills(avail, st, name);
        var q := LinkCodeFixed(avail, p.1, f, k + 1).value;
        LinkCodeFixedFills(avail, p.1, f, k + 1);
        assert r.value == ([W.Call(p.0)] + q.0, q.1);
        FilledTrans(st, p.1, q.1);
        assert LinkedAt(f, k, W.Call(p.0), q.1.ixs);
        ConsLinked(f, k, W.Call(p.0), q.0, q.1.ixs);
      } else {
        var q := LinkCodeFixed(avail, st, f, k + 1).value;
        LinkCodeFixedFills(avail, st, f, k + 1);
        assert r.value == ([f.body[k]] + q.0, q.1);
        ConsLinked(f, k, f.body[k], q.0, q.1.ixs);
      }
    }
  }

  /** Linked code for position `k`, followed by linked code from `k + 1`. */
  lemma ConsLinked(f: Old.Fragment, k: nat, head: W.Instr, q: seq<W.Instr>, ixs: map<string, nat>)
    requires k + 1 + |q| <= |f.body| && LinkedAt(f, k, head, ixs)
    requires forall j :: 0 <= j < |q| ==> LinkedAt(f, k + 1 + j, q[j], ixs)
    ensures forall j :: 0 <= j < |[head] + q| ==> LinkedAt(f, k + j, ([head] + q)[j], ixs)
  {
    forall j | 0 <= j < |[head] + q| ensures LinkedAt(f, k + j, ([head] + q)[j], ixs) {
      if j > 0 {
        assert ([head] + q)[j] == q[j - 1] && k + j == k + 1 + (j - 1);
      }
    }
  }

  lemma FilledTrans(a: FixState, b: FixState, c: FixState)
    requires Filled(a, b) && Filled(b, c) && FixGrows(b, c)
    ensures Filled(a, c)
  {
  }

  /** With every reference resolvable, the corrected resolution always
      succeeds, whatever the call graph's cycles. */
  lemma {:induction false} ResolveFixedSucceeds(avail: Avail, st: FixState, name: string)
    requires Closed(avail) && name in avail
    ensures ResolveFixed(avail, st, name).Ok?
    decreases Unresolved(avail, st.ixs), 0, 0
  {
    if name !in st.ixs {
      var st0 := FixState(st.funs, st.ixs[name := st.next], st.next + 1);
      assert name in Unresolved(avail, st.ixs) && name !in Unresolved(avail, st0.ixs);
      LinkCodeFixedSucceeds(avail, st0, avail[name], 0);
    }
  }

  lemma {:induction false} LinkCodeFixedSucceeds(avail: Avail, st: FixState, f: Old.Fragment, k: nat)
    requires k <= |f.body|
    requires Closed(avail) && FragmentClosed(f, avail)
    ensures LinkCodeFixed(avail, st, f, k).Ok?
    decreases Unresolved(avail, st.ixs), 1, |f.body| - k
  {
    if k < |f.body| {
      if f.body[k].CallRef? {
        ResolveFixedSucceeds(avail, st, f.refs[f.body[k].fun]);
        var p := ResolveFixed(avail, st, f.refs[f.body[k].fun]);
        LinkCodeFixedSucceeds(avail, p.value.1, f, k + 1);
      } else {
        LinkCodeFixedSucceeds(avail, st, f, k + 1);
      }
    }
  }

  /** The corrected linker links the self-recursive function, its call
      targeting its own index. */
  lemma SelfCallLinksFixed()
    ensures var r := ResolveFixed(map["f" := SelfCaller()], FixState(map[], map[], 0), "f");
      r.Ok? && r.value.1.funs[r.value.0].body == [W.Call(r.value.0)]
  {
    var avail := map["f" := SelfCaller()];
    assert Closed(avail);
    ResolveFixedSucceeds(avail, FixState(map[], map[], 0), "f");
    ResolveFixedFills(avail, FixState(map[], map[], 0), "f");
    var r := ResolveFixed(avail, FixState(map[], map[], 0), "f");
    assert LinkedAt(SelfCaller(), 0, r.value.1.funs[r.value.0].body[0], r.value.1.ixs);
  }

  /** `run` with the corrected resolution: every exported user function
      resolved, in order. */
  function ResolveRootsFixed(avail: Avail, st: FixState, user: seq<Old.Fragment>, k: nat): (r: Result<FixState, LinkError>)
    requires k <= |user|
    ensures r.Ok? ==> FixGrows(st, r.value)
    ensures r.Ok? ==> forall i :: k <= i < |user| && user[i].exported ==> user[i].name in r.value.ixs
    decreases |user| - k
  {
    if k == |user| then Ok(st)
    else if user[k].exported then
      var p :- ResolveFixed(avail, st, user[k].name);
      ResolveRootsFixed(avail, p.1, user, k + 1)
    else ResolveRootsFixed(avail, st, user, k + 1)
  }

  function RunFixed(user: seq<Old.Fragment>): (r: Result<FixState, LinkError>)
    ensures r.Ok? ==> forall i :: 0 <= i < |user| && user[i].exported ==> user[i].name in r.value.ixs
  {
    ResolveRootsFixed(Available(user), FixState(map[], map[], 0), user, 0)
  }

  /** Every registered fragment's name is available. */
  lemma {:induction false} RegisteredNamed(avail: Avail, fs: seq<Old.Fragment>, i: nat)
    requires i < |fs|
    ensures fs[i].name in Register(avail, fs)
    decreases |fs|
  {
    if i < |fs| - 1 && fs[|fs| - 1].name != fs[i].name {
      RegisteredNamed(avail, fs[..|fs| - 1], i);
      assert fs[..|fs| - 1][i] == fs[i];
    }
  }

  lemma {:induction false} ResolveRootsFixedSucceeds(avail: Avail, st: FixState, user: seq<Old.Fragment>, k: nat)
    requires k <= |user| && Closed(avail)
    requires forall i :: k <= i < |user| ==> user[i].name in avail
    ensures ResolveRootsFixed(avail, st, user, k).Ok?
    decreases |user| - k
  {
    if k < |user| {
      if user[k].exported {
        ResolveFixedSucceeds(avail, st, user[k].name);
        ResolveRootsFixedSucceeds(avail, ResolveFixed(avail, st, user[k].name).value.1, user, k + 1);
      } else {
        ResolveRootsFixedSucceeds(avail, st, user, k + 1);
      }
    }
  }

  /** The corrected linker always links a program whose references all
      name available fragments, recursive ones included. */
  lemma RunFixedSucceeds(user: seq<Old.Fragment>)
    requires Closed(Available(user))
    ensures RunFixed(user).Ok?
  {
    forall i | 0 <= i < |user| ensures user[i].name in Available(user) {
      RegisteredNamed(Register(map[], Prims.OldPrims()), user, i);
    }
    ResolveRootsFixedSucceeds(Available(user), FixState(map[], map[], 0), user, 0);
  }

  lemma {:induction false} ResolveRootsFixedFills(avail: Avail, st: FixState, user: seq<Old.Fragment>, k: nat)
    requires k <= |user|
    ensures ResolveRootsFixed(avail, st, user, k).Ok? ==> Filled(st, ResolveRootsFixed(avail, st, user, k).value)
    decreases |user| - k
  {
    if k < |user| && ResolveRootsFixed(avail, st, user, k).Ok? {
      if user[k].exported {
        var p := ResolveFixed(avail, st, user[k].name).value;
        ResolveFixedFills(avail, st, user[k].name);
        ResolveRootsFixedFills(avail, p.1, user, k + 1);
        FilledTrans(st, p.1, ResolveRootsFixed(avail, p.1, user, k + 1).value);
      } else {
        ResolveRootsFixedFills(avail, st, user, k + 1);
      }
    }
  }

  /** Every name the corrected `run` resolves has its linked function at
      its index. */
  lemma RunFixedFills(user: seq<Old.Fragment>)
    ensures RunFixed(user).Ok? ==> forall n :: n in RunFixed(user).value.ixs ==> RunFixed(user).value.ixs[n] in RunFixed(user).value.funs
  {
    ResolveRootsFixedFills(Available(user), FixState(map[], map[], 0), user, 0);
  }
}
