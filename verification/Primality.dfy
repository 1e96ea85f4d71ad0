// Divisibility facts behind quadratic probing.
module Primality {
  import opened Common

  predicate Divides(d: nat, n: int)
    requires d > 0
  {
    n % d == 0
  }

  ghost predicate Prime(p: nat) {
    p > 1 && forall d: nat :: 1 < d < p ==> !Divides(d, p)
  }

  // Euclid: a product of two numbers below a prime is no multiple of it.
  lemma {:induction false} NoZeroDivisors(a: int, b: int, p: nat)
    requires Prime(p) && 0 < a < p && 0 < b < p
    ensures !Divides(p, a * b)
    decreases b
  {
    if b == 1 {
      DivModUnique(a, p, 0, a);
    } else {
      var q, r := p / b, p % b;
      assert !Divides(b, p);
      assert a * r == a * p - q * (a * b) by {
        assert p == b * q + r;
        assert a * p == a * (b * q) + a * r;
        assert a * (b * q) == q * (a * b);
      }
      if Divides(p, a * b) {
        var m := a * b / p;
        assert a * b == p * m;
        assert a * r == p * (a - q * m) by {
          assert q * (p * m) == p * (q * m);
          assert p * (a - q * m) == p * a - p * (q * m);
        }
        MultipleOf(a - q * m, p);
        NoZeroDivisors(a, r, p);
      }
    }
  }

  lemma SmallerFactor(n: nat, d: nat, k: nat) returns (f: nat)
    requires 1 < d < n && Divides(d, n) && k * k > n
    ensures 1 < f < k && n % f == 0
  {
    var e := n / d;
    assert d * e == n;
    assert n % e == 0 by {
      MultipleOf(d, e);
    }
    if d < k {
      f := d;
    } else {
      ProductGrows(k, d, e);
      f := e;
    }
  }

  lemma ProductGrows(k: nat, d: nat, e: nat)
    requires d >= k
    ensures e >= k ==> d * e >= k * k
    ensures e <= 1 ==> d * e <= d
  {
    if e >= k {
      ProductNonNegative(d - k, e);
      ProductNonNegative(k, e - k);
    }
  }

  // Trial division up to the square root.
  lemma TrialDivision(n: nat, k: nat)
    requires n > 1 && k * k > n
    requires forall d: nat | 2 <= d < k :: n % d != 0
    ensures Prime(n)
  {
    forall d: nat | 1 < d < n
      ensures !Divides(d, n)
    {
      if Divides(d, n) {
        var f := SmallerFactor(n, d, k);
      }
    }
  }
}
