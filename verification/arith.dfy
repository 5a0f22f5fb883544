/** Small facts about products that the offset and range arithmetic needs;
    each is kept apart so that the solver meets one multiplication at a time. */
module Arith {

  /** One more row adds one row's width: `(a + 1) * w == a * w + w`. */
  lemma MulSucc(a: int, w: int)
    ensures (a + 1) * w == a * w + w
  {
  }

  /** Products with a nonnegative factor are monotonic in the other factor. */
  lemma MulMono(a: int, b: int, w: nat)
    requires a <= b
    ensures a * w <= b * w
  {
  }

  /** A strict inequality between products with a positive factor carries over to the other factors. */
  lemma MulCancel(a: int, b: int, w: int)
    requires w > 0 && a * w < b * w
    ensures a < b
  {
  }

  /** Euclidean division by a positive width splits `k` into whole rows and a remainder. */
  lemma DivSplit(k: int, w: int)
    requires 0 <= k && w > 0
    ensures 0 <= k / w && 0 <= k % w < w
    ensures k == (k / w) * w + k % w
    ensures (k / w) * w <= k
  {
  }
}
