/** The parser's located nodes (compiler/src/parser/located.rs). Its `Span`
    and `SrcLoc` have the same shape and the same `enclosing` as those of
    the `Loc` module, which this module reuses. */
module Located {
  import opened AxPair
  import opened Loc

  datatype Located<T> = Located(value: T, location: SrcLoc)

  /** `Located::known`. */
  function Known<T>(value: T, span: Span): (r: Located<T>)
    ensures r.location == SrcLoc.Known(span)
    ensures r.value == value
  {
    Located(value, SrcLoc.Known(span))
  }

  /** `Located::unknown`. */
  function Unknown<T>(value: T): (r: Located<T>)
    ensures r.location == SrcLoc.Unknown
    ensures r.value == value
  {
    Located(value, SrcLoc.Unknown)
  }

  /** `Located::map`: the location is kept, the value goes through `f`. */
  function Map<T, U>(x: Located<T>, f: T -> U): (r: Located<U>)
    ensures r.location == x.location
    ensures r.value == f(x.value)
  {
    Located(f(x.value), x.location)
  }

  /** A located node viewed as the newer `WithLoc` pair. */
  function AsWithLoc<T>(x: Located<T>): Ax<SrcLoc, T>
  {
    Ax(x.location, x.value)
  }

  /** The parser's constructors and `map` agree with their `WithLoc`
      counterparts in `Loc` and `Ax`. */
  lemma AgreesWithWithLoc<T, U>(v: T, s: Span, x: Located<T>, f: T -> U)
    ensures AsWithLoc(Known(v, s)) == KnownAt(v, s)
    ensures AsWithLoc(Unknown(v)) == UnknownAt(v)
    ensures AsWithLoc(Map(x, f)) == AxPair.Map(AsWithLoc(x), f)
  {
  }

  /** `SrcLoc::attach` as written in the parser: it ignores `self` and
      always attaches `Unknown`. */
  function AttachAsWritten<T>(self: SrcLoc, value: T): (r: Located<T>)
    ensures r.location == SrcLoc.Unknown
    ensures r.value == value
  {
    Located(value, SrcLoc.Unknown)
  }

  /** The discrepancy: attaching a known location loses it, whereas the
      newer `Loc.Attach` keeps it. */
  lemma AttachDropsKnownLocation(s: Span, v: int)
    ensures AttachAsWritten(SrcLoc.Known(s), v).location != SrcLoc.Known(s)
    ensures Attach(SrcLoc.Known(s), v).a == SrcLoc.Known(s)
  {
  }
}
