/** Facts about quotients and remainders of natural numbers. */
module Division {

  lemma MulMono(x: int, y: int, b: nat)
    requires x <= y
    ensures x * b <= y * b
  {
  }

  /** A number determines its quotient and remainder. */
  lemma DivMod(a: nat, b: nat, q: nat, r: nat)
    requires b > 0 && r < b && a == q * b + r
    ensures a / b == q && a % b == r
  {
    var d := a / b;
    assert a == d * b + a % b;
    if d < q { MulMono(d + 1, q, b); }
    if d > q { MulMono(q + 1, d, b); }
  }
}
