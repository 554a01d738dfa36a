/** An attachment/value pair, the wrapper every tree node of the compiler
    uses to carry a location or a tag next to its payload
    (compiler/src/util/ax.rs). */
module AxPair {
  import opened Wrappers

  datatype Ax<A, V> = Ax(a: A, v: V)

  /** `Ax::map`: rewrites the value, keeps the attachment. */
  function Map<A, V, W>(x: Ax<A, V>, f: V -> W): (r: Ax<A, W>)
    ensures r.a == x.a
    ensures r.v == f(x.v)
  {
    Ax(x.a, f(x.v))
  }

  /** `Ax::map_a`: rewrites the attachment, keeps the value. */
  function MapA<A, B, V>(x: Ax<A, V>, f: A -> B): (r: Ax<B, V>)
    ensures r.a == f(x.a)
    ensures r.v == x.v
  {
    Ax(f(x.a), x.v)
  }

  /** `transpose` for an attached `Result`: the error passes through,
      a success gets the attachment re-attached. */
  function TransposeResult<A, V, E>(x: Ax<A, Result<V, E>>): (r: Result<Ax<A, V>, E>)
    ensures r.Ok? <==> x.v.Ok?
    ensures x.v.Ok? ==> r.value == Ax(x.a, x.v.value)
    ensures x.v.Err? ==> r.error == x.v.error
  {
    match x.v
    case Ok(v) => Ok(Ax(x.a, v))
    case Err(e) => Err(e)
  }

  /** `transpose` for an attached `Option`. */
  function TransposeOption<A, V>(x: Ax<A, Option<V>>): (r: Option<Ax<A, V>>)
    ensures r.Some? <==> x.v.Some?
    ensures x.v.Some? ==> r.value == Ax(x.a, x.v.value)
  {
    match x.v
    case Some(v) => Some(Ax(x.a, v))
    case None => None
  }

  /** `PartialEq for Ax<(), T>`: only the values are compared. */
  predicate UnitEq<T(==)>(x: Ax<(), T>, y: Ax<(), T>)
  {
    x.v == y.v
  }

  /** With a unit attachment, comparing values alone is full equality. */
  lemma UnitEqIsEquality<T>(x: Ax<(), T>, y: Ax<(), T>)
    ensures UnitEq(x, y) <==> x == y
  {
    assert x.a == y.a;
  }

  /** Functor laws of `map` and `map_a`. */
  lemma MapIdentity<A, V>(x: Ax<A, V>)
    ensures Map(x, (v: V) => v) == x
  {
  }

  lemma MapCompose<A, U, V, W>(x: Ax<A, U>, f: U -> V, g: V -> W)
    ensures Map(Map(x, f), g) == Map(x, (u: U) => g(f(u)))
  {
  }

  lemma MapCommutesWithMapA<A, B, V, W>(x: Ax<A, V>, f: V -> W, g: A -> B)
    ensures MapA(Map(x, f), g) == Map(MapA(x, g), f)
  {
  }

  /** Mapping the successful value into `Ok` and transposing gives back
      the pair unchanged: `transpose` inverts `map(Ok)`. */
  lemma TransposeOfMapOk<A, V, E>(x: Ax<A, V>)
    ensures TransposeResult(Map<A, V, Result<V, E>>(x, (v: V) => Ok(v))) == Ok(x)
  {
  }
}
