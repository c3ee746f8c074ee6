/** Division by a variable, one step at a time. */
module Division {

  lemma Distribute(a: nat, b: nat, d: nat)
    ensures (a + b) * d == a * d + b * d
    ensures a > 0 ==> a * d >= d
  {
  }

  lemma QuotientUnique(x: nat, d: nat, q: nat, r: nat)
    requires r < d && x == q * d + r
    ensures x / d == q && x % d == r
  {
    var p := x / d;
    assert x == p * d + x % d;
    if p < q {
      Distribute(q - p, p, d);
    } else if q < p {
      Distribute(p - q, q, d);
    }
  }

  lemma DivideOneLess(x: nat, d: nat)
    requires 0 < d <= x
    ensures x / d == 1 + (x - d) / d && x % d == (x - d) % d
  {
    var q, r := (x - d) / d, (x - d) % d;
    assert x - d == q * d + r;
    Distribute(q, 1, d);
    QuotientUnique(x, d, q + 1, r);
  }
}
