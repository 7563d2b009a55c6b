/** Facts about whole quotients and remainders. */
module Division {
  lemma Monotone(a: nat, b: nat, k: nat)
    requires a <= b
    ensures a * k <= b * k
  {
  }

  /** Division by `d` undone. */
  lemma Quotient(q: nat, r: nat, d: nat)
    requires r < d
    ensures (q * d + r) / d == q && (q * d + r) % d == r
  {
    var x := q * d + r;
    assert x == (x / d) * d + x % d;
    if x / d > q {
      Monotone(q + 1, x / d, d);
    } else if x / d < q {
      Monotone(x / d + 1, q, d);
    }
  }
}
