/** Facts about products, quotients and remainders, kept apart from the terms that would distract the solver. */
module Division {

  lemma Scaled(n: nat, x: int)
    ensures x >= 1 ==> n * x >= n
    ensures x <= -1 ==> n * x <= 0 - n
    ensures x == 0 ==> n * x == 0
  {
  }

  lemma AtLeast(n: nat, k: nat, q: nat)
    requires n >= k
    ensures n * q >= k * q
  {
    assert n * q == k * q + (n - k) * q;
  }

  /** A quotient and a remainder in range are the quotient and the remainder. */
  lemma Unique(x: int, n: nat, q: int, r: int)
    requires n > 0 && x == n * q + r && 0 <= r < n
    ensures x % n == r && x / n == q
  {
    var d := x / n - q;
    assert n * d == r - x % n by {
      assert n * (x / n) - n * q == n * d;
    }
    Scaled(n, d);
  }

  lemma Small(x: int, n: nat)
    requires 0 <= x < n
    ensures x % n == x && x / n == 0
  {
    Unique(x, n, 0, x);
  }

  /** Reducing one term first. */
  lemma AddMod(x: int, y: int, n: nat)
    requires n > 0
    ensures (x % n + y) % n == (x + y) % n
  {
    var q, z := x / n, x % n + y;
    var p := z / n;
    assert x + y == n * (q + p) + z % n by {
      assert x == n * q + x % n && z == n * p + z % n;
      assert n * q + n * p == n * (q + p);
    }
    Unique(x + y, n, q + p, z % n);
  }

  /** Reducing by a multiple first. */
  lemma ModMod(x: int, n: nat, k: nat)
    requires n > 0 && k > 0
    ensures n * k > 0 && x % (n * k) % n == x % n
  {
    Scaled(n, k);
    var m := n * k;
    var q := x / m;
    var r := x % m;
    assert x == n * (k * q) + r by {
      assert x == m * q + r;
      assert m * q == n * (k * q);
    }
    assert x == n * (k * q + r / n) + r % n by {
      assert r == n * (r / n) + r % n;
      assert n * (k * q) + n * (r / n) == n * (k * q + r / n);
    }
    Unique(x, n, k * q + r / n, r % n);
  }

  /** Division by a product, one factor at a time. */
  lemma Split(x: nat, n: nat, k: nat)
    requires n > 0 && k > 0
    ensures n * k > 0 && x % (n * k) == n * (x / n % k) + x % n && x / (n * k) == x / n / k
  {
    Scaled(n, k);
    var q, r := x / n, x % n;
    var d, m := q / k, q % k;
    assert x == n * q + r && q == k * d + m;
    Nested(n, k, d, m, r);
    Unique(x, n * k, d, n * m + r);
  }

  lemma Nested(n: nat, k: nat, d: int, m: nat, r: nat)
    requires r < n && m < k
    ensures n * (k * d + m) + r == n * k * d + (n * m + r) && n * m + r < n * k
  {
    assert n * (k * d + m) == n * (k * d) + n * m;
    assert n * (k * d) == n * k * d;
    Scaled(n, k - m);
    assert n * (k - m) == n * k - n * m;
  }

  /** A common factor comes out of the remainder. */
  lemma Common(x: int, n: nat, k: nat)
    requires n > 0 && k > 0
    ensures n * k > 0 && n * x % (n * k) == n * (x % k)
  {
    Scaled(n, k);
    var q, r := x / k, x % k;
    assert x == k * q + r;
    Nested(n, k, q, r, 0);
    Unique(n * x, n * k, q, n * r);
  }
}
