/** Source locations, span merging and the tag table
    (compiler/src/util/loc.rs). Offsets are byte offsets into the source
    text; a span is the half-open range [start, start + length). */
module Loc {
  import opened Wrappers
  import opened AxPair

  datatype Span = Span(start: nat, length: nat) {
    function End(): nat { start + length }
  }

  function Min(a: nat, b: nat): nat { if a <= b then a else b }
  function Max(a: nat, b: nat): nat { if a >= b then a else b }

  /** `outer` covers every offset `inner` covers. */
  predicate Contains(outer: Span, inner: Span)
  {
    outer.start <= inner.start && inner.End() <= outer.End()
  }

  /** `Span::enclosing`: the interval hull of two spans. */
  function Enclosing(fst: Span, snd: Span): (r: Span)
    ensures r.start == Min(fst.start, snd.start)
    ensures r.End() == Max(fst.End(), snd.End())
    ensures Contains(r, fst) && Contains(r, snd)
  {
    var start := Min(fst.start, snd.start);
    var end := Max(fst.End(), snd.End());
    Span(start, end - start)
  }

  /** The hull is the least span containing both inputs. */
  lemma EnclosingIsLeast(fst: Span, snd: Span, s: Span)
    requires Contains(s, fst) && Contains(s, snd)
    ensures Contains(s, Enclosing(fst, snd))
  {
  }

  lemma EnclosingCommutative(fst: Span, snd: Span)
    ensures Enclosing(fst, snd) == Enclosing(snd, fst)
  {
  }

  lemma EnclosingIdempotent(s: Span)
    ensures Enclosing(s, s) == s
  {
  }

  lemma EnclosingAssociative(a: Span, b: Span, c: Span)
    ensures Enclosing(Enclosing(a, b), c) == Enclosing(a, Enclosing(b, c))
  {
  }

  /** `Span::from_offsets` as written, with overflow checks on (debug and
      test builds): `end - start` is an unsigned subtraction, so an `end`
      before `start` underflows and panics before the `max(.., 0)` that
      follows can clamp it. */
  function FromOffsetsAsWritten(start: nat, end: nat): (r: Option<Span>)
    ensures r.Some? <==> start <= end
    ensures r.Some? ==> r.value.start == start && r.value.End() == end
  {
    if start <= end then Some(Span(start, end - start)) else None
  }

  /** The discrepancy: reversed offsets make `from_offsets` fail although
      its clamp to 0 shows an empty span was meant. */
  lemma FromOffsetsReversedFails()
    ensures FromOffsetsAsWritten(5, 3).None?
    ensures FromOffsets(5, 3) == Span(5, 0)
  {
  }

  /** `Span::from_offsets` with the clamp the code evidently intends: the
      length is `end - start`, or 0 when `end` lies before `start`. */
  function FromOffsets(start: nat, end: nat): (r: Span)
    ensures r.start == start
    ensures start <= end ==> r.End() == end
    ensures end < start ==> r.length == 0
    ensures FromOffsetsAsWritten(start, end).Some? ==> FromOffsetsAsWritten(start, end).value == r
  {
    Span(start, Max(end, start) - start)
  }

  /** `Span::from_offset_len`, and its agreement with `from_offsets`. */
  function FromOffsetLen(start: nat, len: nat): Span
  {
    Span(start, len)
  }

  lemma FromOffsetLenAgrees(start: nat, len: nat)
    ensures FromOffsets(start, start + len) == FromOffsetLen(start, len)
    ensures FromOffsetLen(start, len).End() == start + len
  {
  }

  datatype SrcLoc = Known(span: Span) | Unknown

  /** `SrcLoc::enclosing`: `Unknown` is the identity of the merge. */
  function SrcLocEnclosing(fst: SrcLoc, snd: SrcLoc): (r: SrcLoc)
    ensures fst.Unknown? ==> r == snd
    ensures snd.Unknown? ==> r == fst
    ensures fst.Known? && snd.Known? ==> r == Known(Enclosing(fst.span, snd.span))
  {
    match (fst, snd)
    case (Known(a), Known(b)) => Known(Enclosing(a, b))
    case (Known(a), Unknown) => Known(a)
    case (Unknown, Known(b)) => Known(b)
    case (Unknown, Unknown) => Unknown
  }

  lemma SrcLocEnclosingCommutative(fst: SrcLoc, snd: SrcLoc)
    ensures SrcLocEnclosing(fst, snd) == SrcLocEnclosing(snd, fst)
  {
  }

  /** `SrcLoc::all_enclosing`: a left fold of the merge starting from
      `Unknown`. The result is `Unknown` exactly when every location is;
      otherwise it is the hull of the known spans: it contains each of them,
      and its start and end are each attained by one of them. */
  function AllEnclosing(locs: seq<SrcLoc>): (r: SrcLoc)
    ensures r.Unknown? <==> forall i :: 0 <= i < |locs| ==> locs[i].Unknown?
    ensures r.Known? ==> forall i :: 0 <= i < |locs| && locs[i].Known? ==> Contains(r.span, locs[i].span)
    ensures r.Known? ==> exists i :: 0 <= i < |locs| && locs[i].Known? && locs[i].span.start == r.span.start
    ensures r.Known? ==> exists i :: 0 <= i < |locs| && locs[i].Known? && locs[i].span.End() == r.span.End()
  {
    if |locs| == 0 then Unknown
    else
      var acc := AllEnclosing(locs[..|locs| - 1]);
      var last := locs[|locs| - 1];
      assert forall i :: 0 <= i < |locs| - 1 ==> locs[..|locs| - 1][i] == locs[i];
      SrcLocEnclosing(acc, last)
  }

  /** `SrcLoc::attach` (and `WithLoc::known` / `WithLoc::unknown`): the
      payload is kept and the location becomes its attachment. */
  function Attach<T>(loc: SrcLoc, value: T): (r: Ax<SrcLoc, T>)
    ensures r.v == value
    ensures r.a == loc
  {
    Ax(loc, value)
  }

  function KnownAt<T>(value: T, span: Span): (r: Ax<SrcLoc, T>)
    ensures r == Attach(Known(span), value)
  {
    Ax(Known(span), value)
  }

  function UnknownAt<T>(value: T): (r: Ax<SrcLoc, T>)
    ensures r == Attach(Unknown, value)
  {
    Ax(Unknown, value)
  }

  // Tags

  type Tag = nat

  /** `TagMap`: a counter for fresh tags and the location each issued tag
      stands for. */
  datatype TagMap = TagMap(next: Tag, entries: map<Tag, SrcLoc>)

  /** Only issued tags have entries. */
  predicate Valid(tm: TagMap)
  {
    forall t :: t in tm.entries ==> t < tm.next
  }

  function NewTagMap(): (tm: TagMap)
    ensures Valid(tm) && tm.next == 0
  {
    TagMap(0, map[])
  }

  /** `TagMap::resolve_tag`: a tag never issued resolves to `Unknown`. */
  function ResolveTag(tm: TagMap, t: Tag): SrcLoc
  {
    if t in tm.entries then tm.entries[t] else Unknown
  }

  lemma ResolveUnissued(tm: TagMap, t: Tag)
    requires Valid(tm) && t >= tm.next
    ensures ResolveTag(tm, t) == Unknown
  {
  }

  /** `TagMap::get_tag`: issues the next tag for `loc`. The tag is fresh,
      resolves back to `loc`, and every earlier tag resolves as before. */
  function GetTag(tm: TagMap, loc: SrcLoc): (r: (Tag, TagMap))
    requires Valid(tm)
    ensures Valid(r.1)
    ensures r.0 == tm.next && r.1.next == tm.next + 1
    ensures r.0 !in tm.entries
    ensures ResolveTag(r.1, r.0) == loc
    ensures forall t :: t != r.0 ==> ResolveTag(r.1, t) == ResolveTag(tm, t)
  {
    var tag := tm.next;
    (tag, TagMap(tm.next + 1, tm.entries[tag := loc]))
  }

  /** `WithLoc::to_tagged`: swaps the location for a fresh tag that
      resolves back to it; the payload is untouched. */
  function ToTagged<T>(x: Ax<SrcLoc, T>, tm: TagMap): (r: (Ax<Tag, T>, TagMap))
    requires Valid(tm)
    ensures Valid(r.1)
    ensures r.0.v == x.v
    ensures ResolveTag(r.1, r.0.a) == x.a
    ensures r.0.a == tm.next && r.1.next == tm.next + 1
  {
    var (tag, tm') := GetTag(tm, x.a);
    (Ax(tag, x.v), tm')
  }

  /** Issuing tags for a sequence of locations, one `get_tag` call each. */
  function GetTags(tm: TagMap, locs: seq<SrcLoc>): (r: (seq<Tag>, TagMap))
    requires Valid(tm)
    ensures Valid(r.1)
    ensures r.1.next == tm.next + |locs|
    ensures |r.0| == |locs|
    ensures forall i :: 0 <= i < |locs| ==> r.0[i] == tm.next + i
    ensures forall i :: 0 <= i < |locs| ==> ResolveTag(r.1, r.0[i]) == locs[i]
    ensures forall t: Tag :: t < tm.next ==> ResolveTag(r.1, t) == ResolveTag(tm, t)
    decreases |locs|
  {
    if |locs| == 0 then ([], tm)
    else
      var (t, tm1) := GetTag(tm, locs[0]);
      var (ts, tm2) := GetTags(tm1, locs[1..]);
      ([t] + ts, tm2)
  }

  /** From a fresh table the tags are 0, 1, 2, ... in call order, pairwise
      distinct, and each resolves to the location it was issued for. */
  lemma FreshTagsAreDistinct(locs: seq<SrcLoc>)
    ensures var (ts, tm) := GetTags(NewTagMap(), locs);
      && (forall i :: 0 <= i < |locs| ==> ts[i] == i)
      && (forall i, j :: 0 <= i < j < |locs| ==> ts[i] != ts[j])
      && (forall i :: 0 <= i < |locs| ==> ResolveTag(tm, ts[i]) == locs[i])
  {
  }
}
