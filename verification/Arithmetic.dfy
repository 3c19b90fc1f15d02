/** Facts of arithmetic about products, quotients and remainders. */
module Arithmetic {

  lemma {:induction false} MulGap(z: nat, z': nat, d: nat)
    requires z < z'
    ensures z * d + d <= z' * d
    decreases z'
  {
    if z + 1 < z' {
      MulGap(z, z' - 1, d);
    }
    assert (z' - 1) * d + d == z' * d;
  }

  lemma RoundUp(a: nat, s: nat)
    requires s > 0
    ensures (a + s - 1) / s * s >= a
  {
    var q, r := (a + s - 1) / s, (a + s - 1) % s;
    assert a + s - 1 == q * s + r;
  }

  lemma MulMonotone(x: nat, y: nat, d: nat)
    requires x <= y
    ensures x * d <= y * d
  {
  }

  lemma DivAtLeast(a: nat, d: nat, n: nat)
    requires d > 0 && a >= n * d
    ensures a / d >= n
  {
    var q := a / d;
    assert a == q * d + a % d;
    if q < n {
      MulMonotone(q + 1, n, d);
      assert false;
    }
  }

  lemma DivUnique(n: nat, s: nat, q: nat, r: nat)
    requires s > 0 && n == q * s + r && r < s
    ensures n / s == q && n % s == r
  {
    var q', r' := n / s, n % s;
    assert n == q' * s + r';
    if q' < q {
      MulMonotone(q' + 1, q, s);
      assert false;
    }
    if q < q' {
      MulMonotone(q + 1, q', s);
      assert false;
    }
  }

  lemma SumOfMultiples(a: nat, b: nat, s: nat)
    requires s > 0 && a % s == 0 && b % s == 0
    ensures (a + b) % s == 0
  {
    assert a + b == (a / s + b / s) * s;
    DivUnique(a + b, s, a / s + b / s, 0);
  }

  /** Whole multiples of the modulus drop out. */
  lemma ModDrop(a: nat, k: nat, m: nat)
    requires m > 0
    ensures (a + k * m) % m == a % m
  {
    var q, r := a / m, a % m;
    assert a + k * m == (q + k) * m + r;
    DivUnique(a + k * m, m, q + k, r);
  }
}
