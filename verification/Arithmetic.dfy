/** Facts about products that several models share. */
module Arithmetic {

  lemma {:induction false} MulMono(x: nat, y: nat, f: nat)
    requires x <= y
    ensures x * f <= y * f
    decreases y
  {
    if x < y {
      MulMono(x, y - 1, f);
      assert y * f == (y - 1) * f + f;
    }
  }

  lemma Distribute(x: int, y: int, f: int)
    ensures (x + y) * f == x * f + y * f
  {
  }

  /** x / d is the number q with q * d <= x < q * d + d. */
  lemma DivIs(x: nat, d: nat, q: nat)
    requires d > 0
    ensures x / d == q <==> q * d <= x < q * d + d
  {
    var p := x / d;
    assert x == p * d + x % d;
    Distribute(p, 1, d);
    Distribute(q, 1, d);
    if p < q {
      MulMono(p + 1, q, d);
    } else if q < p {
      MulMono(q + 1, p, d);
    }
  }
}
