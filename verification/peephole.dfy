/** The peephole passes run on every simplified function body
    (compiler/src/simplifier/optimizations): one left-to-right scan that
    folds a temporary's assignment into the copy that immediately reads it,
    then a filter dropping the `Nop`s that scan leaves behind. Statements
    carry an attachment (their tag) that both passes keep. */
module Peephole {
  import opened Wrappers
  import opened AxPair
  import opened SimpleIR

  /** `assignment_target_single_use_identifier`. */
  function TargetTemp(s: Stmt): (r: Option<nat>)
    ensures r.Some? <==> s.Assignment? && s.target.SingleUse?
    ensures r.Some? ==> s.target == SingleUse(r.value)
  {
    if s.Assignment? && s.target.SingleUse? then Some(s.target.id) else None
  }

  /** `assignment_value_single_use_identifier`. */
  function ValueTemp(s: Stmt): (r: Option<nat>)
    ensures r.Some? <==> s.Assignment? && s.value.Ident? && s.value.ident.SingleUse?
    ensures r.Some? ==> s.value == Ident(SingleUse(r.value))
  {
    if s.Assignment? && s.value.Ident? && s.value.ident.SingleUse? then Some(s.value.ident.id) else None
  }

  /** The rewrite condition of `prune_single_use`: two assignments, the first
      to a temporary, the second copying exactly that temporary. */
  predicate Fires(cur: Stmt, next: Stmt)
  {
    cur.Assignment? && next.Assignment? && TargetTemp(cur).Some? && TargetTemp(cur) == ValueTemp(next)
  }

  lemma FiresMeans(cur: Stmt, next: Stmt)
    ensures Fires(cur, next) <==>
      cur.Assignment? && next.Assignment? && cur.target.SingleUse? && next.value == Ident(cur.target)
  {
  }

  /** `prune_single_use::run` as a recursive definition: when the pair at
      the front fires, the second statement takes the first one's value and
      keeps its target, the first becomes `Nop`, and the scan goes on from
      the rewritten second statement. */
  function Prune<A>(ss: seq<Ax<A, Stmt>>): (r: seq<Ax<A, Stmt>>)
    decreases |ss|
  {
    if |ss| < 2 then ss
    else if Fires(ss[0].v, ss[1].v) then
      [Ax(ss[0].a, Nop)] + Prune([Ax(ss[1].a, Assignment(ss[1].v.target, ss[0].v.value))] + ss[2..])
    else
      [ss[0]] + Prune(ss[1..])
  }

  /** `prune_single_use::run`: the in-place scan with two adjacent indices. */
  method PruneSingleUse<A>(body: seq<Ax<A, Stmt>>) returns (r: seq<Ax<A, Stmt>>)
    ensures r == Prune(body)
  {
    r := body;
    var cur := 0;
    var next := 1;
    while next < |r|
      invariant next == cur + 1 && cur <= |r|
      invariant |r| == |body|
      invariant r[..cur] + Prune(r[cur..]) == Prune(body)
      decreases |r| - cur
    {
      ghost var r0 := r;
      if Fires(r[cur].v, r[next].v) {
        var moved := Ax(r[next].a, Assignment(r[next].v.target, r[cur].v.value));
        r := r[cur := Ax(r[cur].a, Nop)][next := moved];
        ScanFires(r0, cur);
      } else {
        ScanSkips(r0, cur);
      }
      cur := cur + 1;
      next := next + 1;
    }
    assert r[cur..] == Prune(r[cur..]);
    assert r == r[..cur] + r[cur..];
  }

  /** One step of the scan keeps the loop's invariant: the part already
      scanned followed by the rest, pruned, is the whole result. */
  lemma ScanFires<A>(r: seq<Ax<A, Stmt>>, cur: nat)
    requires cur + 1 < |r| && Fires(r[cur].v, r[cur + 1].v)
    ensures var moved := Ax(r[cur + 1].a, Assignment(r[cur + 1].v.target, r[cur].v.value));
      var r' := r[cur := Ax(r[cur].a, Nop)][cur + 1 := moved];
      r'[..cur + 1] + Prune(r'[cur + 1..]) == r[..cur] + Prune(r[cur..])
  {
    var moved := Ax(r[cur + 1].a, Assignment(r[cur + 1].v.target, r[cur].v.value));
    var r' := r[cur := Ax(r[cur].a, Nop)][cur + 1 := moved];
    var s := r[cur..];
    assert s[0] == r[cur] && s[1] == r[cur + 1] && s[2..] == r[cur + 2..];
    assert Prune(s) == [Ax(r[cur].a, Nop)] + Prune([moved] + r[cur + 2..]);
    assert r'[..cur + 1] == r[..cur] + [Ax(r[cur].a, Nop)];
    assert r'[cur + 1..] == [moved] + r[cur + 2..];
  }

  lemma ScanSkips<A>(r: seq<Ax<A, Stmt>>, cur: nat)
    requires cur + 1 < |r| && !Fires(r[cur].v, r[cur + 1].v)
    ensures r[..cur + 1] + Prune(r[cur + 1..]) == r[..cur] + Prune(r[cur..])
  {
    var s := r[cur..];
    assert s[0] == r[cur] && s[1] == r[cur + 1] && s[1..] == r[cur + 1..];
    assert Prune(s) == [r[cur]] + Prune(r[cur + 1..]);
    assert r[..cur + 1] == r[..cur] + [r[cur]];
  }

  /** The pass fires at `i` exactly when the ORIGINAL statements at `i` and
      `i + 1` match: a rewrite changes only a value, never a target, and the
      statement at `i + 1` is untouched until the scan reaches it. */
  predicate FiresAt<A>(ss: seq<Ax<A, Stmt>>, i: int)
  {
    0 <= i && i + 1 < |ss| && Fires(ss[i].v, ss[i + 1].v)
  }

  /** The value a statement holds when the scan reaches it: its own, or the
      one carried into it along a chain of firings. */
  function Carried<A>(ss: seq<Ax<A, Stmt>>, i: nat): Value
    requires i < |ss| && ss[i].v.Assignment?
    decreases i
  {
    if i > 0 && FiresAt(ss, i - 1) then Carried(ss, i - 1) else ss[i].v.value
  }

  /** The statement the pass leaves at position `i`, stated pointwise in
      terms of the input alone. */
  function PrunedAt<A>(ss: seq<Ax<A, Stmt>>, i: nat): Ax<A, Stmt>
    requires i < |ss|
  {
    if FiresAt(ss, i) then Ax(ss[i].a, Nop)
    else if i > 0 && FiresAt(ss, i - 1) then Ax(ss[i].a, Assignment(ss[i].v.target, Carried(ss, i - 1)))
    else ss[i]
  }

  lemma {:induction false} CarriedShiftFire<A>(ss: seq<Ax<A, Stmt>>, k: nat)
    requires |ss| >= 2 && Fires(ss[0].v, ss[1].v)
    requires k + 1 < |ss| && ss[k + 1].v.Assignment?
    ensures var ss' := [Ax(ss[1].a, Assignment(ss[1].v.target, ss[0].v.value))] + ss[2..];
      Carried(ss', k) == Carried(ss, k + 1)
    decreases k
  {
    var ss' := [Ax(ss[1].a, Assignment(ss[1].v.target, ss[0].v.value))] + ss[2..];
    if k > 0 {
      assert ss'[k] == ss[k + 1];
      if k == 1 {
        assert ss'[0].v.target == ss[1].v.target;
      } else {
        assert ss'[k - 1] == ss[k];
      }
      assert FiresAt(ss', k - 1) == FiresAt(ss, k);
      if FiresAt(ss', k - 1) {
        CarriedShiftFire(ss, k - 1);
      }
    }
  }

  lemma {:induction false} CarriedShiftSkip<A>(ss: seq<Ax<A, Stmt>>, k: nat)
    requires |ss| >= 2 && !Fires(ss[0].v, ss[1].v)
    requires k + 1 < |ss| && ss[k + 1].v.Assignment?
    ensures Carried(ss[1..], k) == Carried(ss, k + 1)
    decreases k
  {
    if k > 0 {
      assert FiresAt(ss[1..], k - 1) == FiresAt(ss, k);
      if FiresAt(ss, k) {
        CarriedShiftSkip(ss, k - 1);
      }
    }
  }

  /** The recursive definition agrees with the pointwise one at every
      position: the pass keeps the length and every tag, turns exactly the
      firing positions into `Nop`, and hands each firing position's carried
      value to the next statement. */
  lemma {:induction false} PrunePointwise<A>(ss: seq<Ax<A, Stmt>>)
    ensures |Prune(ss)| == |ss|
    ensures forall i :: 0 <= i < |ss| ==> Prune(ss)[i] == PrunedAt(ss, i)
    decreases |ss|
  {
    if |ss| >= 2 {
      if Fires(ss[0].v, ss[1].v) {
        var moved := Ax(ss[1].a, Assignment(ss[1].v.target, ss[0].v.value));
        var ss' := [moved] + ss[2..];
        PrunePointwise(ss');
        forall i | 0 <= i < |ss|
          ensures Prune(ss)[i] == PrunedAt(ss, i)
        {
          if i > 0 {
            PointwiseFire(ss, i);
          }
        }
      } else {
        PrunePointwise(ss[1..]);
        forall i | 0 <= i < |ss|
          ensures Prune(ss)[i] == PrunedAt(ss, i)
        {
          if i > 0 {
            PointwiseSkip(ss, i);
          }
        }
      }
    }
  }

  lemma PointwiseFire<A>(ss: seq<Ax<A, Stmt>>, i: nat)
    requires |ss| >= 2 && Fires(ss[0].v, ss[1].v) && 0 < i < |ss|
    requires var ss' := [Ax(ss[1].a, Assignment(ss[1].v.target, ss[0].v.value))] + ss[2..];
      |Prune(ss')| == |ss'| && Prune(ss')[i - 1] == PrunedAt(ss', i - 1)
    ensures Prune(ss)[i] == PrunedAt(ss, i)
  {
    var ss' := [Ax(ss[1].a, Assignment(ss[1].v.target, ss[0].v.value))] + ss[2..];
    assert Prune(ss)[i] == Prune(ss')[i - 1];
    assert ss'[i - 1].a == ss[i].a && ss'[i - 1].v.Assignment? == ss[i].v.Assignment?;
    assert FiresAt(ss', i - 1) == FiresAt(ss, i);
    if i == 1 {
      assert Carried(ss, 0) == ss[0].v.value;
    } else {
      assert ss'[i - 1] == ss[i];
      assert FiresAt(ss', i - 2) == FiresAt(ss, i - 1);
      if FiresAt(ss, i - 1) && !FiresAt(ss, i) {
        CarriedShiftFire(ss, i - 2);
      }
    }
  }

  lemma PointwiseSkip<A>(ss: seq<Ax<A, Stmt>>, i: nat)
    requires |ss| >= 2 && !Fires(ss[0].v, ss[1].v) && 0 < i < |ss|
    requires |Prune(ss[1..])| == |ss| - 1 && Prune(ss[1..])[i - 1] == PrunedAt(ss[1..], i - 1)
    ensures Prune(ss)[i] == PrunedAt(ss, i)
  {
    assert Prune(ss)[i] == Prune(ss[1..])[i - 1];
    assert FiresAt(ss[1..], i - 1) == FiresAt(ss, i);
    if i > 1 {
      assert FiresAt(ss[1..], i - 2) == FiresAt(ss, i - 1);
      if FiresAt(ss, i - 1) && !FiresAt(ss, i) {
        CarriedShiftSkip(ss, i - 2);
      }
    }
  }

  /** Consequences of the pointwise description: same length, same tags,
      statements other than assignments (nested `Loop`/`If` bodies included)
      untouched, non-firing pairs untouched, and after the scan no surviving
      statement still fires with its successor. */
  lemma PruneProperties<A>(ss: seq<Ax<A, Stmt>>)
    ensures |Prune(ss)| == |ss|
    ensures forall i :: 0 <= i < |ss| ==> Prune(ss)[i].a == ss[i].a
    ensures forall i :: 0 <= i < |ss| && !ss[i].v.Assignment? ==> Prune(ss)[i] == ss[i]
    ensures forall i :: 0 <= i < |ss| && !FiresAt(ss, i) && !FiresAt(ss, i - 1) ==> Prune(ss)[i] == ss[i]
    ensures forall i :: 0 <= i < |ss| ==> (Prune(ss)[i].v.Nop? <==> FiresAt(ss, i) || ss[i].v.Nop?)
    ensures forall i :: 0 <= i < |ss| - 1 && !Prune(ss)[i].v.Nop? ==> !Fires(Prune(ss)[i].v, Prune(ss)[i + 1].v)
  {
    PrunePointwise(ss);
    var r := Prune(ss);
    forall i | 0 <= i < |ss| - 1 && !r[i].v.Nop?
      ensures !Fires(r[i].v, r[i + 1].v)
    {
      assert !FiresAt(ss, i);
      if r[i + 1].v.Assignment? {
        assert !FiresAt(ss, i + 1);
        assert r[i + 1] == ss[i + 1];
      }
    }
  }

  // remove_nops

  /** `remove_nops::run` on the tagged statements of the newer IR: keeps
      the statements that are not `Nop`, in order, tags included. */
  function RemoveNops<A>(ss: seq<Ax<A, Stmt>>): (r: seq<Ax<A, Stmt>>)
    ensures forall k :: 0 <= k < |r| ==> !r[k].v.Nop?
    ensures |r| <= |ss|
    decreases |ss|
  {
    if |ss| == 0 then []
    else (if ss[0].v.Nop? then [] else [ss[0]]) + RemoveNops(ss[1..])
  }

  /** The filter keeps exactly the statements that are not `Nop`. */
  lemma {:induction false} RemoveNopsContents<A>(ss: seq<Ax<A, Stmt>>)
    ensures forall k :: 0 <= k < |RemoveNops(ss)| ==> RemoveNops(ss)[k] in ss
    ensures forall k :: 0 <= k < |ss| && !ss[k].v.Nop? ==> ss[k] in RemoveNops(ss)
    decreases |ss|
  {
    if |ss| > 0 {
      RemoveNopsContents(ss[1..]);
      var head := if ss[0].v.Nop? then [] else [ss[0]];
      var tail := RemoveNops(ss[1..]);
      assert RemoveNops(ss) == head + tail;
      forall k | 0 <= k < |ss| && !ss[k].v.Nop? ensures ss[k] in RemoveNops(ss) {
        if k > 0 {
          assert ss[1..][k - 1] == ss[k];
        }
      }
      forall k | 0 <= k < |head + tail| ensures (head + tail)[k] in ss {
        if k >= |head| {
          assert (head + tail)[k] == tail[k - |head|];
        }
      }
    }
  }

  function NopCount<A>(ss: seq<Ax<A, Stmt>>): nat
    decreases |ss|
  {
    if |ss| == 0 then 0 else (if ss[0].v.Nop? then 1 else 0) + NopCount(ss[1..])
  }

  /** Filtering distributes over concatenation, so relative order is kept. */
  lemma {:induction false} RemoveNopsAppend<A>(a: seq<Ax<A, Stmt>>, b: seq<Ax<A, Stmt>>)
    ensures RemoveNops(a + b) == RemoveNops(a) + RemoveNops(b)
    decreases |a|
  {
    if |a| == 0 {
      assert a + b == b;
    } else {
      assert (a + b)[1..] == a[1..] + b;
      RemoveNopsAppend(a[1..], b);
    }
  }

  /** The length drops by exactly the number of `Nop`s. */
  lemma {:induction false} RemoveNopsLength<A>(ss: seq<Ax<A, Stmt>>)
    ensures |RemoveNops(ss)| == |ss| - NopCount(ss)
    decreases |ss|
  {
    if |ss| > 0 {
      RemoveNopsLength(ss[1..]);
    }
  }

  /** A body without `Nop`s is left as it is; hence the pass is idempotent. */
  lemma {:induction false} RemoveNopsNoNops<A>(ss: seq<Ax<A, Stmt>>)
    requires forall k :: 0 <= k < |ss| ==> !ss[k].v.Nop?
    ensures RemoveNops(ss) == ss
    decreases |ss|
  {
    if |ss| > 0 {
      RemoveNopsNoNops(ss[1..]);
      assert ss == [ss[0]] + ss[1..];
    }
  }

  lemma RemoveNopsIdempotent<A>(ss: seq<Ax<A, Stmt>>)
    ensures RemoveNops(RemoveNops(ss)) == RemoveNops(ss)
  {
    RemoveNopsNoNops(RemoveNops(ss));
  }

  /** `remove_nops::run` on the untagged statements of the older IR. */
  function RemoveNopsOld(ss: seq<Stmt>): (r: seq<Stmt>)
    ensures forall k :: 0 <= k < |r| ==> !r[k].Nop?
    decreases |ss|
  {
    if |ss| == 0 then []
    else (if ss[0].Nop? then [] else [ss[0]]) + RemoveNopsOld(ss[1..])
  }

  /** The older filter keeps exactly the statements that are not `Nop`. */
  lemma {:induction false} RemoveNopsOldContents(ss: seq<Stmt>)
    ensures forall k :: 0 <= k < |RemoveNopsOld(ss)| ==> RemoveNopsOld(ss)[k] in ss
    ensures forall k :: 0 <= k < |ss| && !ss[k].Nop? ==> ss[k] in RemoveNopsOld(ss)
    decreases |ss|
  {
    if |ss| > 0 {
      RemoveNopsOldContents(ss[1..]);
      var head := if ss[0].Nop? then [] else [ss[0]];
      var tail := RemoveNopsOld(ss[1..]);
      assert RemoveNopsOld(ss) == head + tail;
      forall k | 0 <= k < |ss| && !ss[k].Nop? ensures ss[k] in RemoveNopsOld(ss) {
        if k > 0 {
          assert ss[1..][k - 1] == ss[k];
        }
      }
      forall k | 0 <= k < |head + tail| ensures (head + tail)[k] in ss {
        if k >= |head| {
          assert (head + tail)[k] == tail[k - |head|];
        }
      }
    }
  }

  function Values<A>(ss: seq<Ax<A, Stmt>>): (r: seq<Stmt>)
    ensures |r| == |ss| && forall k :: 0 <= k < |ss| ==> r[k] == ss[k].v
  {
    seq(|ss|, k requires 0 <= k < |ss| => ss[k].v)
  }

  /** The two filters agree once tags are erased; in particular the older
      one is order-preserving and idempotent too. */
  lemma {:induction false} RemoveNopsOldAgrees<A>(ss: seq<Ax<A, Stmt>>)
    ensures RemoveNopsOld(Values(ss)) == Values(RemoveNops(ss))
    decreases |ss|
  {
    if |ss| > 0 {
      var vs := Values(ss);
      RemoveNopsOldAgrees(ss[1..]);
      assert vs[1..] == Values(ss[1..]);
      var tail := RemoveNops(ss[1..]);
      assert RemoveNopsOld(vs[1..]) == Values(tail);
      if ss[0].v.Nop? {
        assert RemoveNops(ss) == tail;
      } else {
        assert RemoveNops(ss) == [ss[0]] + tail;
        assert Values([ss[0]] + tail) == [ss[0].v] + Values(tail);
      }
    }
  }

  lemma RemoveNopsOldIdempotent(ss: seq<Stmt>)
    ensures RemoveNopsOld(RemoveNopsOld(ss)) == RemoveNopsOld(ss)
  {
    var tagged := seq(|ss|, k requires 0 <= k < |ss| => Ax((), ss[k]));
    assert Values(tagged) == ss;
    RemoveNopsOldAgrees(tagged);
    RemoveNopsIdempotent(tagged);
    RemoveNopsOldAgrees(RemoveNops(tagged));
  }

  /** The per-function optimisation pipeline: the scan, then the filter.
      The result has no `Nop`, and every tag it carries comes from the
      input. */
  function Optimize<A>(body: seq<Ax<A, Stmt>>): (r: seq<Ax<A, Stmt>>)
    ensures forall k :: 0 <= k < |r| ==> !r[k].v.Nop?
    ensures |r| <= |body|
  {
    PrunePointwise(body);
    RemoveNops(Prune(body))
  }

  lemma OptimizeKeepsTags<A>(body: seq<Ax<A, Stmt>>, x: Ax<A, Stmt>)
    requires x in Optimize(body)
    ensures exists i :: 0 <= i < |body| && body[i].a == x.a
  {
    PruneProperties(body);
    var p := Prune(body);
    RemoveNopsContents(p);
    var i :| 0 <= i < |p| && p[i] == x;
    assert body[i].a == x.a;
  }
}
