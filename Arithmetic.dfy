/** Facts about Euclidean division by a positive period that the solver does not find alone. */
module Arithmetic {

  lemma SmallMultiple(d: int, p: int)
    requires p > 0 && -p < d * p < p
    ensures d == 0
  {
  }

  /** The quotient is the one q whose multiple q * p lies within p below a. */
  lemma DivUnique(a: int, p: int, q: int)
    requires p > 0
    requires q * p <= a < q * p + p
    ensures a / p == q
    ensures a % p == a - q * p
  {
    var q' := a / p;
    assert q' * p <= a < q' * p + p;
    assert (q' - q) * p == q' * p - q * p;
    SmallMultiple(q' - q, p);
  }

  lemma MultipleMod(k: int, p: int)
    requires p > 0
    ensures k * p % p == 0
  {
    DivUnique(k * p, p, k);
  }
}
