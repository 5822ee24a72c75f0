/** The few facts about products and quotients that the solver does not find by itself. */
module Arithmetic {
  lemma MulGe(a: nat, d: nat)
    requires a >= 1
    ensures a * d >= d
  {
  }

  lemma MulLess(a: nat, b: nat, c: nat)
    requires c > 0
    ensures a < b <==> a * c < b * c
  {
  }

  lemma DivUnique(n: nat, d: nat, q: nat, r: nat)
    requires r < d && n == q * d + r
    ensures n / d == q && n % d == r
  {
    var e := n / d;
    assert n == e * d + n % d;
    if e < q {
      MulGe(q - e, d);
    }
    if q < e {
      MulGe(e - q, d);
    }
  }

  lemma DivMultiple(a: nat, d: nat)
    requires d > 0
    ensures (a * d) / d == a && (a * d) % d == 0
  {
    DivUnique(a * d, d, a, 0);
  }

  lemma Distribute(a: nat, b: nat, c: nat)
    ensures (a + b) * c == a * c + b * c
  {
  }
}
