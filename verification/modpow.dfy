/** Python's three-argument pow(b, e, n), used by encrypt and decrypt. */
module ModPow {
  import opened Arith

  /** pow(b, e, n) for a positive modulus, by right-to-left
      square-and-multiply. */
  method PowMod(b: nat, e: nat, n: nat) returns (r: nat)
    requires n > 0
    ensures r == Pow(b, e) % n
    ensures r < n
  {
    var base: nat := b % n;
    var exp: nat := e;
    r := 1 % n;
    PowModBase(b, e, n);
    MulModLeft(1, Pow(base, e), n);
    while exp > 0
      invariant r < n && base < n
      invariant (r * Pow(base, exp)) % n == Pow(b, e) % n
      decreases exp
    {
      SquareStep(r, base, exp, n);
      if exp % 2 == 1 {
        r := (r * base) % n;
      }
      base := (base * base) % n;
      exp := exp / 2;
    }
    DivModUnique(r, n, 0, r);
  }

  /** Halving the exponent and squaring the base, with the odd factor moved
      into the accumulator, keeps the value modulo n. */
  lemma SquareStep(r: nat, base: nat, exp: nat, n: nat)
    requires n > 0 && exp > 0
    ensures var r' := if exp % 2 == 1 then (r * base) % n else r;
            (r' * Pow((base * base) % n, exp / 2)) % n == (r * Pow(base, exp)) % n
  {
    var k := exp / 2;
    var odd := if exp % 2 == 1 then base else 1;
    var r' := if exp % 2 == 1 then (r * base) % n else r;
    var bb := base * base;
    HalveExponent(base, exp);
    PowModBase(bb, k, n);
    assert r' % n == (r * odd) % n by {
      if exp % 2 == 1 {
        DivModUnique(r', n, 0, r');
      }
    }
    CongruentProduct(r', r * odd, Pow(bb % n, k), Pow(bb, k), n);
    assert (r * odd) * Pow(bb, k) == r * (Pow(bb, k) * odd);
  }

  /** b^e == (b b)^(e / 2) times b when e is odd. */
  lemma HalveExponent(base: nat, exp: nat)
    ensures Pow(base, exp) == Pow(base * base, exp / 2) * (if exp % 2 == 1 then base else 1)
  {
    var k := exp / 2;
    assert exp == 2 * k + exp % 2;
    PowAdd(base, 2 * k, exp % 2);
    PowMul(base, 2, k);
    assert Pow(base, 2) == base * base;
    assert Pow(base, exp % 2) == (if exp % 2 == 1 then base else 1);
  }
}
