/** Facts about products and remainders that the solver does not find. */
module Arith {
  lemma MulMono(a: nat, b: nat, n: nat)
    requires a <= b
    ensures a * n <= b * n
  {
    assert b * n == a * n + (b - a) * n;
  }

  lemma ModUnique(x: nat, q: nat, r: nat, n: nat)
    requires n > 0 && r < n && x == q * n + r
    ensures x % n == r && x / n == q
  {
    var p := x / n;
    assert x == p * n + x % n;
    if p > q {
      MulMono(q + 1, p, n);
    } else if p < q {
      MulMono(p + 1, q, n);
    }
  }

  predicate Divides(d: nat, x: nat)
    requires d > 0
  {
    x % d == 0
  }

  lemma DividesProduct(d: nat, q: nat)
    requires d > 0
    ensures Divides(d, q * d)
  {
    ModUnique(q * d, q, 0, d);
  }

  lemma DividesTransitive(e: nat, d: nat, x: nat)
    requires e > 0 && d > 0 && Divides(e, d) && Divides(d, x)
    ensures Divides(e, x)
  {
    var p, q := d / e, x / d;
    assert x == (q * p) * e by { assert x == q * d && d == p * e; Assoc(q, p, e); }
    DividesProduct(e, q * p);
  }

  lemma Assoc(a: nat, b: nat, c: nat)
    ensures a * (b * c) == (a * b) * c
  {
  }
}
