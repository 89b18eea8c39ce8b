/** Facts about remainders that the solver does not find by itself. */
module Residues {

  lemma MulOrder(a: int, b: int, m: nat)
    requires a < b
    ensures a * m + m <= b * m
  {
    assert (b - a - 1) * m >= 0;
    assert (b - a - 1) * m == b * m - a * m - m;
  }

  lemma ModIs(x: int, q: int, r: nat, m: nat)
    requires r < m && x == q * m + r
    ensures x % m == r && x / m == q
  {
    assert x == (x / m) * m + x % m;
    if q < x / m {
      MulOrder(q, x / m, m);
    } else if x / m < q {
      MulOrder(x / m, q, m);
    }
  }

  lemma ModAdd(a: nat, b: nat, m: nat)
    requires m > 0
    ensures ((a + 1) % m + b) % m == (a + 1 + b) % m
  {
    var c := (a + 1) % m + b;
    assert a + 1 + b == ((a + 1) / m) * m + c == ((a + 1) / m) * m + ((c / m) * m + c % m);
    assert ((a + 1) / m + c / m) * m == ((a + 1) / m) * m + (c / m) * m;
    ModIs(a + 1 + b, (a + 1) / m + c / m, c % m, m);
  }

  lemma SameResidue(a: nat, b: nat, m: nat)
    requires m > 0 && a <= b < a + m && a % m == b % m
    ensures a == b
  {
    assert a == (a / m) * m + a % m && b == (b / m) * m + b % m;
    if a / m < b / m {
      MulOrder(a / m, b / m, m);
    } else if b / m < a / m {
      MulOrder(b / m, a / m, m);
    }
  }

  /** Some distance from 1 to m leads from `a` to residue `r`. */
  lemma HitResidue(a: nat, r: nat, m: nat) returns (k: nat)
    requires r < m
    ensures 1 <= k <= m && (a + k) % m == r
  {
    var q, c := a / m, a % m;
    assert a == q * m + c;
    if c < r {
      k := r - c;
      ModIs(a + k, q, r, m);
    } else {
      k := r + m - c;
      assert (q + 1) * m == q * m + m;
      ModIs(a + k, q + 1, r, m);
    }
  }

  lemma MulMonotone(a: nat, b: nat, m: nat)
    requires a <= b
    ensures a * m <= b * m
  {
    assert (b - a) * m >= 0;
  }

  lemma QuotientBelow(v: nat, radix: nat, p: nat)
    requires radix > 0 && v < radix * p
    ensures v / radix < p
  {
    if p <= v / radix {
      MulMonotone(p, v / radix, radix);
    }
  }

  lemma Shrinks(v: nat, radix: nat)
    requires radix >= 2 && v > 0
    ensures 0 <= v / radix < v
  {
    MulMonotone(2, radix, v);
    QuotientBelow(v, radix, v);
  }
}
