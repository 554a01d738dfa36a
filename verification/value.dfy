/** The interpreter's values (compiler_old/src/interpreter/value.rs): one
    variant, an unbounded integer. */
module Values {

  datatype KediValue = KediNum(n: int)

  /** `KediValue::num`. */
  function Num(n: int): (r: KediValue)
    ensures r.n == n
  {
    KediNum(n)
  }

  /** `From<T>` for anything convertible to an integer: delegates to
      `num`. */
  function From(n: int): (r: KediValue)
    ensures r.n == n
    ensures IsTruthy(r) <==> n != 0
  {
    Num(n)
  }

  /** `is_truthy`: every number but zero. */
  predicate IsTruthy(v: KediValue)
  {
    match v
    case KediNum(n) => n != 0
  }

  /** Truthiness of a number, both ways; and every value is a number. */
  lemma TruthyIffNonZero(n: int)
    ensures IsTruthy(Num(n)) <==> n != 0
    ensures IsTruthy(From(n)) <==> n != 0
  {
  }

  /** `num` is injective, and every value is `num` of its integer. */
  lemma NumInjective(a: int, b: int, v: KediValue)
    ensures Num(a) == Num(b) <==> a == b
    ensures v == Num(v.n)
  {
  }
}
