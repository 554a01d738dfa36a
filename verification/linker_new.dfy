/** The newer linker's rewrite (compiler/src/linker/linker.rs): in each
    function body, an `i32.const v` directly followed by `call_indirect`
    becomes `nop` followed by a call of the function that reference `v`
    names. */
module LinkerNew {
  import opened Wrappers
  import opened Ints
  import W = Wasm

  /** The rewrite's panics: a body that is not an inline expression, a
      body too short for the pair scan's bound, and a constant that names
      no reference. */
  datatype LinkError = NotInline | TooShort | UnknownFunction(v: Int32)

  /** A function as the rewrite sees it: `refs[k]` is the name reference
      `k` stands for. */
  datatype Fun = Fun(name: string, inline: bool, body: seq<W.Instr>, refs: seq<string>)

  /** A call pair starts at position `k` of `code`. */
  predicate IsPair(code: seq<W.Instr>, k: nat)
  {
    k + 1 < |code| && code[k].I32Const? && code[k + 1].CallIndirect?
  }

  /** The reference name a pair's constant selects; the constant is read
      as an unsigned 32-bit id. */
  function Target(refs: seq<string>, v: Int32): Option<string>
  {
    if AsU32(v) < |refs| then Some(refs[AsU32(v)]) else None
  }

  /** The rewrite as a left-to-right scan: a pair is replaced and skipped
      as a whole, anything else is kept and the scan moves on by one. */
  function Scan(code: seq<W.Instr>, refs: seq<string>): (r: Result<seq<W.Instr>, LinkError>)
    ensures r.Ok? ==> |r.value| == |code|
    decreases |code|
  {
    if |code| < 2 then Ok(code)
    else if code[0].I32Const? && code[1].CallIndirect? then
      if Target(refs, code[0].n).None? then Err(UnknownFunction(code[0].n))
      else
        var rest :- Scan(code[2..], refs);
        Ok([W.Nop, W.CallNamed(Target(refs, code[0].n).value)] + rest)
    else
      var rest :- Scan(code[1..], refs);
      Ok([code[0]] + rest)
  }

  /** Position `k` of `out` holds the rewrite of a pair of `code` that
      starts there: a `nop`, then a call of the reference the constant
      names. */
  predicate RewrittenAt(code: seq<W.Instr>, out: seq<W.Instr>, refs: seq<string>, k: nat)
  {
    IsPair(code, k) && k + 1 < |out| && Target(refs, code[k].n).Some? &&
    out[k] == W.Nop && out[k + 1] == W.CallNamed(Target(refs, code[k].n).value)
  }

  /** A changed position is one half of a rewritten pair. */
  predicate ChangedAt(code: seq<W.Instr>, out: seq<W.Instr>, refs: seq<string>, k: nat)
  {
    RewrittenAt(code, out, refs, k) || (k > 0 && RewrittenAt(code, out, refs, k - 1))
  }

  /** `out` is `code` with some pairs rewritten: every changed position is
      one half of a pair of `code` whose constant names a reference, now a
      `nop` and a call of that reference. */
  ghost predicate RewritesPairs(code: seq<W.Instr>, out: seq<W.Instr>, refs: seq<string>)
  {
    |out| == |code| &&
    forall k: nat :: k < |code| && out[k] != code[k] ==> ChangedAt(code, out, refs, k)
  }

  /** No call pair is left. */
  predicate NoPairs(code: seq<W.Instr>)
  {
    forall k :: 0 <= k < |code| ==> !IsPair(code, k)
  }

  lemma {:induction false} ScanRewritesPairs(code: seq<W.Instr>, refs: seq<string>)
    ensures Scan(code, refs).Ok? ==> RewritesPairs(code, Scan(code, refs).value, refs)
    decreases |code|
  {
    if |code| >= 2 && Scan(code, refs).Ok? {
      if code[0].I32Const? && code[1].CallIndirect? {
        ScanRewritesPairs(code[2..], refs);
        PairThenRest(code, refs, Scan(code[2..], refs).value);
      } else {
        ScanRewritesPairs(code[1..], refs);
        KeptThenRest(code, refs, Scan(code[1..], refs).value);
      }
    }
  }

  /** A changed position of a suffix is a changed position of the whole,
      `d` further on. */
  lemma ShiftChanged(code: seq<W.Instr>, out: seq<W.Instr>, refs: seq<string>, d: nat, j: nat)
    requires |out| == |code| && d + j < |code|
    requires ChangedAt(code[d..], out[d..], refs, j)
    ensures ChangedAt(code, out, refs, j + d)
  {
    if RewrittenAt(code[d..], out[d..], refs, j) {
      assert code[d..][j] == code[j + d] && code[d..][j + 1] == code[j + d + 1];
      assert out[d..][j] == out[j + d] && out[d..][j + 1] == out[j + d + 1];
      assert RewrittenAt(code, out, refs, j + d);
    } else {
      assert code[d..][j - 1] == code[j + d - 1] && code[d..][j] == code[j + d];
      assert out[d..][j - 1] == out[j + d - 1] && out[d..][j] == out[j + d];
      assert RewrittenAt(code, out, refs, j + d - 1);
    }
  }

  lemma PairThenRest(code: seq<W.Instr>, refs: seq<string>, rest: seq<W.Instr>)
    requires IsPair(code, 0) && Target(refs, code[0].n).Some?
    requires RewritesPairs(code[2..], rest, refs)
    ensures RewritesPairs(code, [W.Nop, W.CallNamed(Target(refs, code[0].n).value)] + rest, refs)
  {
    var out := [W.Nop, W.CallNamed(Target(refs, code[0].n).value)] + rest;
    assert out[2..] == rest;
    assert RewrittenAt(code, out, refs, 0);
    forall k: nat | k < |code| && out[k] != code[k] ensures ChangedAt(code, out, refs, k) {
      if k >= 2 {
        assert out[2..][k - 2] == out[k] && code[2..][k - 2] == code[k];
        ShiftChanged(code, out, refs, 2, k - 2);
      }
    }
  }

  lemma KeptThenRest(code: seq<W.Instr>, refs: seq<string>, rest: seq<W.Instr>)
    requires |code| >= 2 && !IsPair(code, 0)
    requires RewritesPairs(code[1..], rest, refs)
    ensures RewritesPairs(code, [code[0]] + rest, refs)
  {
    var out := [code[0]] + rest;
    assert out[1..] == rest;
    forall k: nat | k < |code| && out[k] != code[k] ensures ChangedAt(code, out, refs, k) {
      assert k >= 1;
      assert out[1..][k - 1] == out[k] && code[1..][k - 1] == code[k];
      ShiftChanged(code, out, refs, 1, k - 1);
    }
  }

  /** Every pair is rewritten: none is left in the output. */
  lemma {:induction false} ScanComplete(code: seq<W.Instr>, refs: seq<string>)
    ensures Scan(code, refs).Ok? ==> NoPairs(Scan(code, refs).value)
    decreases |code|
  {
    if |code| >= 2 {
      var out := Scan(code, refs);
      if code[0].I32Const? && code[1].CallIndirect? {
        ScanComplete(code[2..], refs);
        if out.Ok? {
          var rest := Scan(code[2..], refs).value;
          assert out.value == [W.Nop, W.CallNamed(Target(refs, code[0].n).value)] + rest;
          forall k | 0 <= k < |out.value| ensures !IsPair(out.value, k) {
            if k >= 2 {
              assert !IsPair(rest, k - 2);
            }
          }
        }
      } else {
        ScanComplete(code[1..], refs);
        if out.Ok? {
          var rest := Scan(code[1..], refs).value;
          assert out.value == [code[0]] + rest;
          forall k | 0 <= k < |out.value| ensures !IsPair(out.value, k) {
            if k >= 1 {
              assert !IsPair(rest, k - 1);
            } else if |rest| > 0 {
              ScanHead(code[1..], refs);
            }
          }
        }
      }
    }
  }

  /** The scan's first instruction: a `nop` where a pair starts, else the
      code's own. */
  lemma ScanHead(code: seq<W.Instr>, refs: seq<string>)
    requires |code| > 0 && Scan(code, refs).Ok?
    ensures Scan(code, refs).value[0] == if IsPair(code, 0) then W.Nop else code[0]
  {
  }

  /** Code without pairs is left as it is. */
  lemma {:induction false} ScanNoPairs(code: seq<W.Instr>, refs: seq<string>)
    requires NoPairs(code)
    ensures Scan(code, refs) == Ok(code)
    decreases |code|
  {
    if |code| >= 2 {
      assert !IsPair(code, 0);
      assert NoPairs(code[1..]) by {
        forall k | 0 <= k < |code[1..]| ensures !IsPair(code[1..], k) {
          assert !IsPair(code, k + 1);
        }
      }
      ScanNoPairs(code[1..], refs);
      assert code == [code[0]] + code[1..];
    }
  }

  /** Rewriting twice is rewriting once. */
  lemma ScanIdempotent(code: seq<W.Instr>, refs: seq<string>)
    requires Scan(code, refs).Ok?
    ensures Scan(Scan(code, refs).value, refs) == Scan(code, refs)
  {
    ScanComplete(code, refs);
    ScanNoPairs(Scan(code, refs).value, refs);
  }

  /** The scan fails only on a pair whose constant names no reference,
      and succeeds whenever every pair's does. */
  lemma {:induction false} ScanFails(code: seq<W.Instr>, refs: seq<string>)
    ensures Scan(code, refs).Err? ==>
      exists k: nat :: IsPair(code, k) && Target(refs, code[k].n).None?
    ensures (forall k: nat :: IsPair(code, k) ==> Target(refs, code[k].n).Some?) ==> Scan(code, refs).Ok?
    decreases |code|
  {
    if |code| >= 2 {
      var d := if code[0].I32Const? && code[1].CallIndirect? then 2 else 1;
      if !(code[0].I32Const? && code[1].CallIndirect? && Target(refs, code[0].n).None?) {
        ScanFails(code[d..], refs);
        if Scan(code[d..], refs).Err? {
          var k: nat :| IsPair(code[d..], k) && Target(refs, code[d..][k].n).None?;
          assert IsPair(code, k + d);
        }
        forall k: nat | IsPair(code[d..], k)
          ensures Target(refs, code[d..][k].n).Some? || !(forall j: nat :: IsPair(code, j) ==> Target(refs, code[j].n).Some?)
        {
          assert IsPair(code, k + d);
        }
      } else {
        assert IsPair(code, 0);
      }
    }
  }

  /** Relinks one function as written: the scan's bound `len - 2` is an
      unsigned subtraction, so a body of fewer than two instructions
      panics. */
  function LinkFunctionAsWritten(f: Fun): (r: Result<seq<W.Instr>, LinkError>)
    ensures f.inline && |f.body| >= 2 ==> r.Ok? ==> RewritesPairs(f.body, r.value, f.refs) && NoPairs(r.value)
    ensures r.Ok? <==> f.inline && |f.body| >= 2 && Scan(f.body, f.refs).Ok?
    ensures f.inline && |f.body| < 2 ==> r == Err(TooShort)
  {
    ScanRewritesPairs(f.body, f.refs);
    ScanComplete(f.body, f.refs);
    if !f.inline then Err(NotInline)
    else if |f.body| < 2 then Err(TooShort)
    else Scan(f.body, f.refs)
  }

  /** A one-instruction body has no pair to rewrite, yet the function as
      written rejects it. */
  lemma ShortBodyRejected()
    ensures LinkFunctionAsWritten(Fun("f", true, [W.Return], [])) == Err(TooShort)
    ensures Scan([W.Return], []) == Ok([W.Return])
  {
  }

  /** Relinks one function (`link_function`), scanning its body in place;
      a body shorter than two instructions is left as it is. */
  method LinkFunction(f: Fun) returns (r: Result<seq<W.Instr>, LinkError>)
    ensures !f.inline ==> r == Err(NotInline)
    ensures f.inline ==> r == Scan(f.body, f.refs)
  {
    if !f.inline {
      return Err(NotInline);
    }
    var instrs := f.body;
    var idx := 0;
    assert f.body[idx..] == f.body;
    PrefixedEmpty(Scan(f.body, f.refs));
    while idx + 2 <= |instrs|
      invariant idx <= |instrs| == |f.body|
      invariant instrs[idx..] == f.body[idx..]
      invariant Scan(f.body, f.refs) == Prefixed(instrs[..idx], Scan(f.body[idx..], f.refs))
      decreases |instrs| - idx
    {
      assert instrs[idx] == f.body[idx] && instrs[idx + 1] == f.body[idx + 1];
      if instrs[idx].I32Const? && instrs[idx + 1].CallIndirect? {
        var t := Target(f.refs, instrs[idx].n);
        if t.None? {
          ScanStepFails(f.body, f.refs, instrs, idx);
          return Err(UnknownFunction(instrs[idx].n));
        }
        AdvancePair(f.body, f.refs, instrs, idx, t.value);
        instrs := instrs[idx := W.Nop][idx + 1 := W.CallNamed(t.value)];
        idx := idx + 2;
      } else {
        AdvanceOne(f.body, f.refs, instrs, idx);
        idx := idx + 1;
      }
    }
    assert instrs == instrs[..idx] + instrs[idx..];
    return Ok(instrs);
  }

  lemma ScanStepFails(body: seq<W.Instr>, refs: seq<string>, instrs: seq<W.Instr>, idx: nat)
    requires idx + 2 <= |instrs| == |body| && instrs[idx..] == body[idx..]
    requires Scan(body, refs) == Prefixed(instrs[..idx], Scan(body[idx..], refs))
    requires IsPair(body, idx) && Target(refs, body[idx].n).None?
    ensures Scan(body, refs) == Err(UnknownFunction(body[idx].n))
  {
    var c := body[idx..];
    assert c[0] == body[idx] && c[1] == body[idx + 1];
  }

  lemma AdvancePair(body: seq<W.Instr>, refs: seq<string>, instrs: seq<W.Instr>, idx: nat, t: string)
    requires idx + 2 <= |instrs| == |body| && instrs[idx..] == body[idx..]
    requires Scan(body, refs) == Prefixed(instrs[..idx], Scan(body[idx..], refs))
    requires IsPair(body, idx) && Target(refs, body[idx].n) == Some(t)
    ensures var after := instrs[idx := W.Nop][idx + 1 := W.CallNamed(t)];
      after[idx + 2..] == body[idx + 2..] &&
      Scan(body, refs) == Prefixed(after[..idx + 2], Scan(body[idx + 2..], refs))
  {
    var c := body[idx..];
    assert c[0] == body[idx] && c[1] == body[idx + 1] && c[2..] == body[idx + 2..];
    ScanStep(c, refs);
    var after := instrs[idx := W.Nop][idx + 1 := W.CallNamed(t)];
    assert after[..idx + 2] == instrs[..idx] + [W.Nop, W.CallNamed(t)];
    assert after[idx + 2..] == instrs[idx + 2..] == c[2..];
    PrefixedAppend(instrs[..idx], [W.Nop, W.CallNamed(t)], Scan(body[idx + 2..], refs));
  }

  lemma AdvanceOne(body: seq<W.Instr>, refs: seq<string>, instrs: seq<W.Instr>, idx: nat)
    requires idx + 2 <= |instrs| == |body| && instrs[idx..] == body[idx..]
    requires Scan(body, refs) == Prefixed(instrs[..idx], Scan(body[idx..], refs))
    requires !IsPair(body, idx)
    ensures instrs[idx + 1..] == body[idx + 1..]
    ensures Scan(body, refs) == Prefixed(instrs[..idx + 1], Scan(body[idx + 1..], refs))
  {
    var c := body[idx..];
    assert c[0] == body[idx] && c[1] == body[idx + 1] && c[1..] == body[idx + 1..];
    ScanStep(c, refs);
    assert instrs[..idx + 1] == instrs[..idx] + [body[idx]];
    PrefixedAppend(instrs[..idx], [body[idx]], Scan(body[idx + 1..], refs));
  }

  /** `p` in front of a successful result. */
  function Prefixed(p: seq<W.Instr>, r: Result<seq<W.Instr>, LinkError>): Result<seq<W.Instr>, LinkError>
  {
    if r.Ok? then Ok(p + r.value) else r
  }

  lemma PrefixedEmpty(r: Result<seq<W.Instr>, LinkError>)
    ensures Prefixed([], r) == r
  {
    if r.Ok? {
      assert [] + r.value == r.value;
    }
  }

  lemma PrefixedAppend(p: seq<W.Instr>, q: seq<W.Instr>, r: Result<seq<W.Instr>, LinkError>)
    ensures Prefixed(p, Prefixed(q, r)) == Prefixed(p + q, r)
  {
    if r.Ok? {
      assert p + (q + r.value) == (p + q) + r.value;
    }
  }

  /** One step of the scan, with the rest of the code in front. */
  lemma ScanStep(code: seq<W.Instr>, refs: seq<string>)
    requires |code| >= 2
    ensures code[0].I32Const? && code[1].CallIndirect? && Target(refs, code[0].n).Some? ==>
      Scan(code, refs) == Prefixed([W.Nop, W.CallNamed(Target(refs, code[0].n).value)], Scan(code[2..], refs))
    ensures !(code[0].I32Const? && code[1].CallIndirect?) ==>
      Scan(code, refs) == Prefixed([code[0]], Scan(code[1..], refs))
  {
  }

  /** Relinks every function of a module in order (`link`), stopping at
      the first failure. */
  method Link(funs: seq<Fun>) returns (r: Result<seq<Fun>, LinkError>)
    ensures r.Ok? <==> forall i :: 0 <= i < |funs| ==> funs[i].inline && Scan(funs[i].body, funs[i].refs).Ok?
    ensures r.Ok? ==> |r.value| == |funs|
    ensures r.Ok? ==> forall i :: 0 <= i < |funs| ==> r.value[i] == funs[i].(body := Scan(funs[i].body, funs[i].refs).value)
  {
    var out: seq<Fun> := [];
    var i := 0;
    while i < |funs|
      invariant i <= |funs| && |out| == i
      invariant forall j :: 0 <= j < i ==> funs[j].inline && Scan(funs[j].body, funs[j].refs).Ok?
      invariant forall j :: 0 <= j < i ==> out[j] == funs[j].(body := Scan(funs[j].body, funs[j].refs).value)
    {
      var b := LinkFunction(funs[i]);
      if b.Err? {
        return Err(b.error);
      }
      out := out + [funs[i].(body := b.value)];
      i := i + 1;
    }
    return Ok(out);
  }

  /** `link` as written: every function through `link_function` as
      written, so a body shorter than two instructions (the empty body of
      `fun f() {}`, say) aborts the whole module. */
  function LinkAsWritten(funs: seq<Fun>): (r: Result<seq<Fun>, LinkError>)
    ensures r.Ok? <==> forall i :: 0 <= i < |funs| ==> funs[i].inline && |funs[i].body| >= 2 && Scan(funs[i].body, funs[i].refs).Ok?
    ensures r.Ok? ==> |r.value| == |funs| && forall i :: 0 <= i < |funs| ==> r.value[i] == funs[i].(body := Scan(funs[i].body, funs[i].refs).value)
  {
    if |funs| == 0 then Ok([])
    else
      match LinkFunctionAsWritten(funs[0])
      case Err(e) => Err(e)
      case Ok(b) =>
        match LinkAsWritten(funs[1..])
        case Err(e) => Err(e)
        case Ok(rest) => Ok([funs[0].(body := b)] + rest)
  }

  /** The empty function that `fun f() {}` compiles to stops the module as
      written, while the corrected `link` leaves it unchanged. */
  lemma EmptyBodyStopsLink()
    ensures LinkAsWritten([Fun("f", true, [], [])]) == Err(TooShort)
    ensures Scan([], []) == Ok([])
  {
  }
}
