/** Integer facts shared by the rest of the model: divisibility, primes,
    powers and the laws of the remainder. */
module Arith {

  /** d divides n. */
  ghost predicate Divides(d: int, n: int) {
    exists k: int :: n == d * k
  }

  ghost predicate IsPrime(p: nat) {
    p >= 2 && forall d :: 1 < d < p ==> p % d != 0
  }

  /** b to the power e, as Python's two-argument pow on non-negative values. */
  function Pow(b: nat, e: nat): nat {
    if e == 0 then 1 else b * Pow(b, e - 1)
  }

  lemma DividesRefl(d: int)
    ensures Divides(d, d) && Divides(d, 0)
  {
    assert d == d * 1;
    assert 0 == d * 0;
  }

  lemma DividesMul(d: int, n: int, c: int)
    requires Divides(d, n)
    ensures Divides(d, n * c)
  {
    var k :| n == d * k;
    assert n * c == d * (k * c);
  }

  lemma MulRearrange(a: int, b: int, c: int, d: int)
    ensures (a * b) * (c * d) == (a * c) * (b * d)
  {
  }

  /** A divisor of x and y divides every integer combination of them. */
  lemma DividesLinear(d: int, x: int, y: int, s: int, t: int)
    requires Divides(d, x) && Divides(d, y)
    ensures Divides(d, s * x + t * y)
  {
    var k1 :| x == d * k1;
    var k2 :| y == d * k2;
    assert s * x + t * y == d * (s * k1 + t * k2);
  }

  /** A positive multiple of d is at least d. */
  lemma DividesBound(d: nat, n: int)
    requires n > 0 && Divides(d, n)
    ensures d <= n
  {
    var k :| n == d * k;
    assert k <= 0 ==> d * k <= 0;
    assert d * k >= d * 1;
  }

  /** The only divisors of a prime are 1 and itself. */
  lemma PrimeDivisors(p: nat, d: nat)
    requires IsPrime(p) && Divides(d, p)
    ensures d == 1 || d == p
  {
    DividesBound(d, p);
    if 1 < d < p {
      ModDivides(p, d);
    }
  }

  /** The only multiple of b strictly between -b and b is 0. */
  lemma DividesSmall(b: int, z: int)
    requires b > 0 && Divides(b, z) && -b < z < b
    ensures z == 0
  {
    var k :| z == b * k;
    assert k >= 1 ==> b * k >= b * 1;
    assert k <= -1 ==> b * k <= b * -1;
  }

  /** The only non-negative divisor of 1 is 1. */
  lemma DividesOne(g: nat)
    requires Divides(g, 1)
    ensures g == 1
  {
    DividesBound(g, 1);
    var k :| 1 == g * k;
  }

  /** Quotient and remainder are unique. */
  lemma DivModUnique(m: int, n: int, q: int, r: int)
    requires n > 0 && m == n * q + r && 0 <= r < n
    ensures m / n == q && m % n == r
  {
    var q', r' := m / n, m % n;
    assert m == n * q' + r';
    assert r' - r == n * (q - q');
    DividesSmall(n, r' - r);
    assert n * (q - q') == 0;
  }

  lemma ModDivides(m: int, n: int)
    requires n > 0
    ensures m % n == 0 <==> Divides(n, m)
  {
    if m % n == 0 {
      assert m == n * (m / n);
    }
    if Divides(n, m) {
      var k :| m == n * k;
      DivModUnique(m, n, k, 0);
    }
  }

  /** Adding a multiple of n does not change the remainder. */
  lemma ModAddMultiple(u: int, n: int, k: int)
    requires n > 0
    ensures (u + n * k) % n == u % n
  {
    assert u + n * k == n * (u / n + k) + u % n;
    DivModUnique(u + n * k, n, u / n + k, u % n);
  }

  /** Two numbers have the same remainder exactly when n divides their difference. */
  lemma ModEqDivides(u: int, v: int, n: int)
    requires n > 0
    ensures u % n == v % n <==> Divides(n, u - v)
  {
    assert u == n * (u / n) + u % n;
    assert v == n * (v / n) + v % n;
    if u % n == v % n {
      assert u - v == n * (u / n - v / n);
    }
    if Divides(n, u - v) {
      var k :| u - v == n * k;
      ModAddMultiple(v, n, k);
    }
  }

  /** Reducing the left factor modulo n does not change the product modulo n. */
  lemma MulModLeft(a: int, b: int, n: int)
    requires n > 0
    ensures (a * b) % n == ((a % n) * b) % n
  {
    var qa, ra := a / n, a % n;
    assert a == n * qa + ra;
    assert a * b == ra * b + n * (qa * b);
    ModAddMultiple(ra * b, n, qa * b);
  }

  lemma MulMod(a: int, b: int, n: int)
    requires n > 0
    ensures (a * b) % n == ((a % n) * (b % n)) % n
  {
    MulModLeft(a, b, n);
    MulModLeft(b, a % n, n);
    assert (a % n) * b == b * (a % n);
    assert (b % n) * (a % n) == (a % n) * (b % n);
  }

  lemma {:induction false} PowPositive(b: nat, e: nat)
    requires b > 0
    ensures Pow(b, e) > 0
  {
    if e > 0 {
      PowPositive(b, e - 1);
    }
  }

  lemma {:induction false} PowAdd(b: nat, x: nat, y: nat)
    ensures Pow(b, x + y) == Pow(b, x) * Pow(b, y)
    decreases x
  {
    if x > 0 {
      PowAdd(b, x - 1, y);
      assert Pow(b, x + y) == b * Pow(b, x - 1 + y);
    }
  }

  lemma {:induction false} PowMul(b: nat, x: nat, y: nat)
    ensures Pow(b, x * y) == Pow(Pow(b, x), y)
    decreases y
  {
    if y > 0 {
      PowMul(b, x, y - 1);
      assert x * y == x * (y - 1) + x;
      PowAdd(b, x * (y - 1), x);
    }
  }

  lemma {:induction false} PowMonotone(b: nat, x: nat, y: nat)
    requires b > 0 && x <= y
    ensures Pow(b, x) <= Pow(b, y)
    decreases y
  {
    if x < y {
      PowMonotone(b, x, y - 1);
      PowPositive(b, y - 1);
      assert Pow(b, y) == b * Pow(b, y - 1) >= Pow(b, y - 1);
    }
  }

  /** Reducing the base modulo n does not change the power modulo n. */
  lemma {:induction false} PowModBase(b: nat, e: nat, n: nat)
    requires n > 0
    ensures Pow(b % n, e) % n == Pow(b, e) % n
  {
    if e > 0 {
      var c := b % n;
      PowModBase(b, e - 1, n);
      DivModUnique(c, n, 0, c);
      CongruentProduct(c, b, Pow(c, e - 1), Pow(b, e - 1), n);
    }
  }

  /** Products of congruent factors are congruent. */
  lemma CongruentProduct(a: int, a': int, x: int, x': int, n: int)
    requires n > 0 && a % n == a' % n && x % n == x' % n
    ensures (a * x) % n == (a' * x') % n
  {
    MulMod(a, x, n);
    MulMod(a', x', n);
  }

  /** A factor of at least one does not shrink a natural number. */
  lemma MulAtLeast(a: int, p: int)
    requires a >= 1 && p >= 0
    ensures a * p >= p
  {
    assert a * p == (a - 1) * p + p;
  }
}
