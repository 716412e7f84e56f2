/**
 * `Math.random()` and the index the application derives from it. A value of
 * `Math.random()` is modelled as an exact fraction `num / den` in `[0, 1)`;
 * which fraction comes out is the caller's (nondeterministic) choice.
 */
module Chance {

  /** One value returned by `Math.random()`. */
  datatype Random = Random(num: nat, den: nat) {
    predicate Valid() {
      num < den
    }
  }

  /** `Math.floor(Math.random() * n)`: an index into a pool of `n` entries. */
  function ScaledIndex(u: Random, n: nat): (i: nat)
    requires u.Valid()
    ensures n > 0 ==> i < n
    ensures n == 0 ==> i == 0
  {
    ScaledBelow(u, n);
    (u.num * n) / u.den
  }

  lemma ScaledBelow(u: Random, n: nat)
    requires u.Valid()
    ensures n > 0 ==> (u.num * n) / u.den < n
  {
    if n > 0 {
      assert u.num * n < u.den * n;
      DivBelow(u.num * n, u.den, n);
    }
  }

  lemma DivBelow(a: nat, d: nat, n: nat)
    requires d > 0 && a < d * n
    ensures a / d < n
  {
  }

  /** Every index of a non-empty pool can be drawn: the choice is not biased away from any entry. */
  lemma EveryIndexReachable(n: nat, i: nat)
    requires i < n
    ensures Random(i, n).Valid() && ScaledIndex(Random(i, n), n) == i
  {
    MulDivCancel(i, n);
  }

  lemma MulDivCancel(i: nat, n: nat)
    requires n > 0
    ensures (i * n) / n == i
  {
    var q, r := (i * n) / n, (i * n) % n;
    assert i * n == q * n + r && 0 <= r < n;
    MulGap(q, i, n);
    MulGap(i, q, n);
  }

  /** Multiples of a positive `n` at different factors are at least `n` apart. */
  lemma MulGap(a: int, b: int, n: nat)
    requires n > 0
    ensures a < b ==> a * n + n <= b * n
  {
    if a < b {
      var k := b - a - 1;
      assert b * n == (a + 1 + k) * n == a * n + n + k * n;
      assert k * n >= 0;
    }
  }
}
