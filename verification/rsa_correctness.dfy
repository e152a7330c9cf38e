/** Why decryption undoes encryption: Fermat's little theorem, proved from
    the binomial theorem, and the Chinese remainder step for n = p * q.
    This is the correctness of RSAEP followed by RSADP (sections 5.1.1 and
    5.1.2 of RFC 8017) for the keys set_params_from_primes builds. */
module RsaCorrectness {
  import opened Arith
  import opened Euclid
  import opened Keys

  /** The binomial coefficient, by Pascal's rule. */
  function Binom(n: nat, k: nat): nat {
    if k == 0 then 1 else if n == 0 then 0 else Binom(n - 1, k - 1) + Binom(n - 1, k)
  }

  /** Binom(n, 0) x^0 + ... + Binom(n, j) x^j. */
  function BinomSum(n: nat, j: nat, x: nat): nat {
    Binom(n, j) * Pow(x, j) + (if j == 0 then 0 else BinomSum(n, j - 1, x))
  }

  lemma {:induction false} BinomAbove(n: nat, k: nat)
    requires k > n
    ensures Binom(n, k) == 0
  {
    if n > 0 {
      BinomAbove(n - 1, k - 1);
      BinomAbove(n - 1, k);
    }
  }

  lemma {:induction false} BinomDiagonal(n: nat)
    ensures Binom(n, n) == 1
  {
    if n > 0 {
      BinomDiagonal(n - 1);
      BinomAbove(n - 1, n);
    }
  }

  /** k * Binom(n, k) == n * Binom(n - 1, k - 1). */
  lemma {:induction false} Absorption(n: nat, k: nat)
    requires 1 <= k && 1 <= n
    ensures k * Binom(n, k) == n * Binom(n - 1, k - 1)
    decreases n
  {
    if n == 1 {
      if k > 1 {
        BinomAbove(1, k);
        BinomAbove(0, k - 1);
      }
    } else if k == 1 {
      Absorption(n - 1, 1);
    } else {
      Absorption(n - 1, k);
      Absorption(n - 1, k - 1);
      AbsorptionStep(n, k, Binom(n - 2, k - 2), Binom(n - 2, k - 1), Binom(n - 1, k - 1),
                     Binom(n - 1, k), Binom(n, k));
    }
  }

  lemma AbsorptionStep(n: int, k: int, a: int, b: int, c: int, b1: int, bn: int)
    requires c == a + b && bn == c + b1
    requires k * b1 == (n - 1) * b && (k - 1) * c == (n - 1) * a
    ensures k * bn == n * c
  {
  }

  /** Pascal's rule lifted to the partial sums. */
  lemma {:induction false} PascalSum(n: nat, j: nat, x: nat)
    requires j >= 1
    ensures BinomSum(n + 1, j, x) == BinomSum(n, j, x) + x * BinomSum(n, j - 1, x)
  {
    if j == 1 {
      assert Pow(x, 1) == x * Pow(x, 0) == x;
      var b := Binom(n, 1);
      assert BinomSum(n, 0, x) == 1 && BinomSum(n + 1, 0, x) == 1;
      assert BinomSum(n + 1, 1, x) == (1 + b) * x + 1;
      assert BinomSum(n, 1, x) == b * x + 1;
    } else {
      PascalSum(n, j - 1, x);
      PascalStep(Binom(n, j - 1), Binom(n, j), Pow(x, j), Pow(x, j - 1), x,
                 BinomSum(n, j - 1, x), BinomSum(n, j - 2, x));
    }
  }

  lemma PascalStep(b0: int, b1: int, pj: int, pj': int, x: int, s1: int, s2: int)
    requires pj == x * pj'
    ensures (b0 + b1) * pj + (s1 + x * s2) == (b1 * pj + s1) + x * (b0 * pj' + s2)
  {
  }

  lemma {:induction false} SumBeyond(n: nat, j: nat, x: nat)
    requires j >= n
    ensures BinomSum(n, j, x) == BinomSum(n, n, x)
  {
    if j > n {
      BinomAbove(n, j);
      SumBeyond(n, j - 1, x);
    }
  }

  /** (x + 1)^n == sum of Binom(n, k) x^k. */
  lemma {:induction false} BinomialTheorem(n: nat, x: nat)
    ensures Pow(x + 1, n) == BinomSum(n, n, x)
  {
    if n > 0 {
      BinomialTheorem(n - 1, x);
      PascalSum(n - 1, n, x);
      SumBeyond(n - 1, n, x);
      var t := BinomSum(n - 1, n - 1, x);
      assert Pow(x + 1, n) == (x + 1) * Pow(x + 1, n - 1);
      Distribute(x, t);
    }
  }

  lemma Distribute(x: int, t: int)
    ensures (x + 1) * t == t + x * t
  {
  }

  /** A prime p divides Binom(p, k) for 0 < k < p. */
  lemma PrimeDividesBinom(p: nat, k: nat)
    requires IsPrime(p) && 0 < k < p
    ensures Divides(p, Binom(p, k))
  {
    Absorption(p, k);
    assert Binom(p, k) * k == p * Binom(p - 1, k - 1);
    CoprimeBelow(p, k);
    EuclidLemma(k, p, Binom(p, k));
  }

  /** A number not divisible by the prime p is coprime to it. */
  lemma CoprimeToPrime(a: nat, p: nat)
    requires IsPrime(p) && !Divides(p, a)
    ensures Gcd(a, p) == 1
  {
    var g := Gcd(a, p);
    GcdDivides(a, p);
    PrimeDivisors(p, g);
  }

  lemma CoprimeBelow(p: nat, k: nat)
    requires IsPrime(p) && 0 < k < p
    ensures Gcd(k, p) == 1
  {
    if Divides(p, k) {
      DividesBound(p, k);
    }
    CoprimeToPrime(k, p);
  }

  /** The middle terms of (x + 1)^p vanish modulo p. */
  lemma {:induction false} MiddleTerms(p: nat, j: nat, x: nat)
    requires IsPrime(p) && j < p
    ensures Divides(p, BinomSum(p, j, x) - 1)
  {
    if j == 0 {
      DividesRefl(p);
    } else {
      MiddleTerms(p, j - 1, x);
      PrimeDividesBinom(p, j);
      DividesLinear(p, Binom(p, j), BinomSum(p, j - 1, x) - 1, Pow(x, j), 1);
    }
  }

  /** (x + 1)^p == x^p + 1 modulo p. */
  lemma FreshmansDream(p: nat, x: nat)
    requires IsPrime(p)
    ensures Divides(p, Pow(x + 1, p) - Pow(x, p) - 1)
  {
    BinomialTheorem(p, x);
    BinomDiagonal(p);
    MiddleTerms(p, p - 1, x);
    assert BinomSum(p, p, x) == Pow(x, p) + BinomSum(p, p - 1, x);
  }

  /** Fermat's little theorem: a^p == a modulo p. */
  lemma {:induction false} FermatLittle(a: nat, p: nat)
    requires IsPrime(p)
    ensures Divides(p, Pow(a, p) - a)
  {
    if a == 0 {
      assert Pow(0, p) == 0 * Pow(0, p - 1) == 0;
      DividesRefl(p);
    } else {
      FermatLittle(a - 1, p);
      FreshmansDream(p, a - 1);
      DividesLinear(p, Pow(a, p) - Pow(a - 1, p) - 1, Pow(a - 1, p) - (a - 1), 1, 1);
    }
  }

  /** a^(p-1) == 1 modulo p when p does not divide a. */
  lemma FermatUnit(a: nat, p: nat)
    requires IsPrime(p) && !Divides(p, a)
    ensures Divides(p, Pow(a, p - 1) - 1)
  {
    FermatLittle(a, p);
    assert (Pow(a, p - 1) - 1) * a == Pow(a, p) - a;
    CoprimeToPrime(a, p);
    EuclidLemma(a, p, Pow(a, p - 1) - 1);
  }

  lemma {:induction false} PowCongruentOne(x: nat, k: nat, p: nat)
    requires Divides(p, x - 1)
    ensures Divides(p, Pow(x, k) - 1)
  {
    if k == 0 {
      DividesRefl(p);
    } else {
      PowCongruentOne(x, k - 1, p);
      assert Pow(x, k) - 1 == x * (Pow(x, k - 1) - 1) + 1 * (x - 1);
      DividesLinear(p, Pow(x, k - 1) - 1, x - 1, x, 1);
    }
  }

  /** m^(1 + k(p-1)) == m modulo p for every m. */
  lemma FermatExponent(m: nat, p: nat, k: nat)
    requires IsPrime(p)
    ensures Divides(p, Pow(m, 1 + k * (p - 1)) - m)
  {
    var big := Pow(m, k * (p - 1));
    PowAdd(m, 1, k * (p - 1));
    assert Pow(m, 1 + k * (p - 1)) - m == (big - 1) * m;
    if Divides(p, m) {
      DividesMul(p, m, big - 1);
    } else {
      FermatUnit(m, p);
      assert k * (p - 1) == (p - 1) * k;
      PowMul(m, p - 1, k);
      PowCongruentOne(Pow(m, p - 1), k, p);
      DividesMul(p, big - 1, m);
    }
  }

  /** Two distinct primes that both divide x: their product divides x. */
  lemma ProductDivides(p: nat, q: nat, x: int)
    requires IsPrime(p) && IsPrime(q) && p != q
    requires Divides(p, x) && Divides(q, x)
    ensures Divides(p * q, x)
  {
    var k :| x == p * k;
    assert Gcd(p, q) == 1 by {
      if Divides(q, p) {
        PrimeDivisors(p, q);
      }
      CoprimeToPrime(p, q);
    }
    assert x == k * p;
    assert Divides(q, k * p);
    EuclidLemma(p, q, k);
    var j :| k == q * j;
    assert x == p * (q * j);
    assert x == (p * q) * j;
  }

  /** e * d == 1 modulo lam gives e * d == 1 + k (p - 1) and 1 + k' (q - 1). */
  lemma ExponentSplit(p: nat, q: nat, e: nat, d: nat) returns (kp: nat, kq: nat)
    requires p >= 2 && q >= 2 && (e * d) % Lambda(p, q) == 1
    ensures e * d == 1 + kp * (p - 1) && e * d == 1 + kq * (q - 1)
  {
    var lam := Lambda(p, q);
    LambdaCommonMultiple(p, q);
    var h: nat := (e * d) / lam;
    assert e * d == lam * h + 1;
    var ap :| lam == (p - 1) * ap;
    var aq :| lam == (q - 1) * aq;
    assert ap >= 0 && aq >= 0 by {
      assert ap < 0 ==> (p - 1) * ap < 0;
      assert aq < 0 ==> (q - 1) * aq < 0;
    }
    kp, kq := h * ap, h * aq;
    MulRearrange(1, p - 1, ap, h);
    MulRearrange(1, q - 1, aq, h);
  }

  /** RSA correctness: for distinct primes p, q, exponents with
      e * d == 1 modulo lcm(p-1, q-1) and a message m < p * q, decrypting
      the ciphertext m^e mod n with d gives m back. */
  lemma RsaRoundTrip(p: nat, q: nat, e: nat, d: nat, m: nat)
    requires IsPrime(p) && IsPrime(q) && p != q
    requires (e * d) % Lambda(p, q) == 1
    requires m < p * q
    ensures Pow(Pow(m, e) % (p * q), d) % (p * q) == m
  {
    var n := p * q;
    var kp, kq := ExponentSplit(p, q, e, d);
    FermatExponent(m, p, kp);
    FermatExponent(m, q, kq);
    ProductDivides(p, q, Pow(m, e * d) - m);
    ModEqDivides(Pow(m, e * d), m, n);
    DivModUnique(m, n, 0, m);
    PowModBase(Pow(m, e), d, n);
    PowMul(m, e, d);
  }
}
