/** Powers of two, and what the solver does not see about products by itself. */
module Arithmetic {

  lemma MulMono(a: nat, b: nat, c: nat)
    requires a <= b
    ensures a * c <= b * c
  {
  }

  lemma DivModUnique(q: nat, r: nat, d: nat)
    requires r < d
    ensures (q * d + r) / d == q && (q * d + r) % d == r
  {
    var x := q * d + r;
    assert x == (x / d) * d + x % d;
    if x / d < q {
      MulMono(x / d + 1, q, d);
      assert false;
    } else if x / d > q {
      MulMono(q + 1, x / d, d);
      assert false;
    }
  }

  lemma SmallMod(x: nat, d: nat)
    requires x < d
    ensures x % d == x
  {
  }

  function Pow2(n: nat): nat {
    if n == 0 then 1 else 2 * Pow2(n - 1)
  }

  lemma Pow2Positive(n: nat)
    ensures Pow2(n) > 0
  {
  }
}
