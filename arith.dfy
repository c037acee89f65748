/** Integer facts the solver does not find unaided: Euclidean division is unique, and
    the sign of a product with a positive factor. */
module Arith {

  /** Any split n = a * p + b with 0 <= b < p is the Euclidean one. */
  lemma DivModOf(n: int, p: int, a: int, b: int)
    requires p > 0 && n == a * p + b && 0 <= b < p
    ensures n % p == b
  {
    var a', b' := n / p, n % p;
    assert (a - a') * p == b' - b;
    ProductWithin(a - a', p);
  }

  lemma ProductWithin(j: int, p: int)
    requires p > 0 && -p < j * p < p
    ensures j == 0
  {
    ProductSigns(j, p);
  }

  lemma ProductSigns(j: int, p: int)
    ensures p > 0 && j >= 1 ==> j * p >= p
    ensures p > 0 && j <= -1 ==> j * p <= -p
    ensures p > 0 && j >= 0 ==> j * p >= 0
  {
  }
}
