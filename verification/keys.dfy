/** Facts about the key shape that set_params_from_primes builds: the
    modulus p*q and the exponent modulus lam = lcm(p-1, q-1), the lambda(n)
    of section 3.2 of RFC 8017. */
module Keys {
  import opened Arith
  import opened Euclid

  /** The public exponent the search starts from. */
  const StartExponent: nat := 65537

  /** lam = (p-1)*(q-1) // gcd(p-1, q-1). */
  function Lambda(p: nat, q: nat): (lam: nat)
    requires p >= 2 && q >= 2
    ensures lam >= 1
  {
    QuotientByGcd(p - 1, q - 1);
    (p - 1) * (q - 1) / Gcd(p - 1, q - 1)
  }

  /** x * y / gcd(x, y) is a positive common multiple of x and y. */
  lemma QuotientByGcd(x: nat, y: nat)
    requires x >= 1 && y >= 1
    ensures var l := x * y / Gcd(x, y); l >= 1 && Divides(x, l) && Divides(y, l)
  {
    var g := Gcd(x, y);
    GcdDivides(x, y);
    var a :| x == g * a;
    var b :| y == g * b;
    var l := x * y / g;
    assert x * y == g * (x * b) + 0 by {
      MulRearrange(1, x, g, b);
    }
    DivModUnique(x * y, g, x * b, 0);
    assert x * y == g * (a * y) + 0 by {
      MulRearrange(g, a, 1, y);
    }
    DivModUnique(x * y, g, a * y, 0);
    assert l == x * b && l == y * a;
    assert b >= 1 by {
      assert b <= 0 ==> g * b <= 0;
    }
    assert x * b >= x * 1;
    assert Divides(x, l) by {
      assert l == x * b;
    }
    assert Divides(y, l) by {
      assert l == y * a;
    }
  }

  /** lam is a positive common multiple of p-1 and q-1 ... */
  lemma LambdaCommonMultiple(p: nat, q: nat)
    requires p >= 2 && q >= 2
    ensures Divides(p - 1, Lambda(p, q)) && Divides(q - 1, Lambda(p, q))
  {
    QuotientByGcd(p - 1, q - 1);
  }

  /** ... and it divides every common multiple of p-1 and q-1: it is their
      least common multiple. */
  lemma LambdaLeast(p: nat, q: nat, m: int)
    requires p >= 2 && q >= 2
    requires Divides(p - 1, m) && Divides(q - 1, m)
    ensures Divides(Lambda(p, q), m)
  {
    var x, y, g := p - 1, q - 1, Gcd(p - 1, q - 1);
    var (_, s, t) := Egcd(x, y);
    GcdDivides(x, y);
    var a :| x == g * a;
    var b :| y == g * b;
    var lam := g * a * b;
    assert x * y == g * lam + 0;
    DivModUnique(x * y, g, lam, 0);
    var k1 :| m == x * k1;
    var k2 :| m == y * k2;
    LcmStep(x, y, g, s, t, lam, m, k1, k2);
    Cancel(g, m, lam * (s * k2 + t * k1));
  }

  /** g * m == g * lam * (s*k2 + t*k1) when g == x*s + y*t, x*y == g*lam and
      m == x*k1 == y*k2. */
  lemma LcmStep(x: int, y: int, g: int, s: int, t: int, lam: int, m: int, k1: int, k2: int)
    requires x * s + y * t == g && x * y == g * lam
    requires m == x * k1 && m == y * k2
    ensures g * m == g * (lam * (s * k2 + t * k1))
  {
    assert g * m == (x * s) * m + (y * t) * m;
    MulRearrange(x, s, y, k2);
    MulRearrange(y, t, x, k1);
    assert (x * y) * (s * k2) + (y * x) * (t * k1) == (x * y) * (s * k2 + t * k1);
  }

  lemma Cancel(g: int, m: int, z: int)
    requires g > 0 && g * m == (g * z)
    ensures m == z
  {
    assert g * (m - z) == 0;
  }

  /** Consecutive numbers are coprime: gcd(lam - 1, lam) == 1, so both
      search loops of set_params_from_primes stop at lam - 1 at the latest. */
  lemma ConsecutiveCoprime(lam: nat)
    requires lam >= 1
    ensures Gcd(lam - 1, lam) == 1
  {
    var g := Gcd(lam - 1, lam);
    GcdDivides(lam - 1, lam);
    DividesLinear(g, lam, lam - 1, 1, -1);
    DividesOne(g);
  }

  /** A multiple of an even number is even. */
  lemma EvenMultiple(x: nat, lam: nat)
    requires x % 2 == 0 && Divides(x, lam)
    ensures lam % 2 == 0
  {
    var k :| lam == x * k;
    assert lam == 2 * ((x / 2) * k);
    ModDivides(lam, 2);
  }

  /** For primes p and q, lam is never the starting exponent 65537, the one
      value for which the search of set_params_from_primes would not stop:
      lam is even unless p == q == 2, and then it is 1. */
  lemma LambdaNotStart(p: nat, q: nat)
    requires IsPrime(p) && IsPrime(q)
    ensures Lambda(p, q) != StartExponent
  {
    LambdaCommonMultiple(p, q);
    if p != 2 {
      assert p % 2 != 0;
      EvenMultiple(p - 1, Lambda(p, q));
    } else if q != 2 {
      assert q % 2 != 0;
      EvenMultiple(q - 1, Lambda(p, q));
    } else {
      assert Lambda(p, q) == 1;
    }
  }

  /** For distinct primes, lam > 1. */
  lemma LambdaAboveOne(p: nat, q: nat)
    requires IsPrime(p) && IsPrime(q) && p != q
    ensures Lambda(p, q) > 1
  {
    LambdaCommonMultiple(p, q);
    var big := if p > q then p else q;
    assert big >= 3;
    DividesBound(big - 1, Lambda(p, q));
  }
}
