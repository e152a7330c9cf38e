/** The greatest common divisor, the extended Euclidean algorithm and the
    modular inverse built on it (egcd and modinv in RSA.py, math.gcd in
    the key setup). */
module Euclid {
  import opened Arith
  import opened Outcomes

  /** math.gcd on non-negative arguments, by Euclid's remainder sequence. */
  function Gcd(a: nat, b: nat): (g: nat)
    decreases a
    ensures g == 0 <==> a == 0 && b == 0
  {
    if a == 0 then b else Gcd(b % a, a)
  }

  /** Gcd(a, b) is a common divisor of a and b ... */
  lemma {:induction false} GcdDivides(a: nat, b: nat)
    ensures Divides(Gcd(a, b), a) && Divides(Gcd(a, b), b)
    decreases a
  {
    if a == 0 {
      DividesRefl(b);
    } else {
      GcdDivides(b % a, a);
      assert b == (b / a) * a + 1 * (b % a);
      DividesLinear(Gcd(a, b), a, b % a, b / a, 1);
    }
  }

  /** ... and every common divisor of a and b divides it. */
  lemma {:induction false} GcdGreatest(a: nat, b: nat, d: int)
    requires Divides(d, a) && Divides(d, b)
    ensures Divides(d, Gcd(a, b))
    decreases a
  {
    if a > 0 {
      assert b % a == 1 * b + (-(b / a)) * a;
      DividesLinear(d, b, a, 1, -(b / a));
      GcdGreatest(b % a, a, d);
    }
  }

  /** egcd(a, b): (g, x, y) with a*x + b*y == g == gcd(a, b); the base
      case egcd(0, b) is (b, 0, 1). */
  function Egcd(a: nat, b: nat): (r: (int, int, int))
    decreases a
    ensures r.0 == Gcd(a, b)
    ensures a * r.1 + b * r.2 == r.0
    ensures a == 0 ==> r == (b, 0, 1)
  {
    if a == 0 then (b, 0, 1)
    else
      var (g, x, y) := Egcd(b % a, a);
      EgcdStep(a, b, x, y);
      (g, y - (b / a) * x, x)
  }

  /** One step of the remainder sequence keeps the Bezout identity. */
  lemma EgcdStep(a: nat, b: nat, x: int, y: int)
    requires a > 0
    ensures a * (y - (b / a) * x) + b * x == (b % a) * x + a * y
  {
    var q, r := b / a, b % a;
    assert b == a * q + r;
    calc {
      a * (y - q * x) + b * x;
      a * y - a * q * x + (a * q + r) * x;
      { assert (a * q + r) * x == a * q * x + r * x; }
      a * y + r * x;
    }
  }

  /** modinv(a, b): the x in [0, b) with (x * a) % b == 1 % b. It fails
      when a and b are not coprime; when b == 0 and a == 1 (the one a
      coprime to 0) it divides by zero. */
  function ModInv(a: nat, b: nat): (r: Result<nat>)
    ensures r.Ok? <==> Gcd(a, b) == 1 && b != 0
    ensures Gcd(a, b) != 1 ==> r == Err(NotInvertible)
    ensures Gcd(a, b) == 1 && b == 0 ==> r == Err(ZeroDivision)
    ensures r.Ok? ==> r.value < b && (r.value * a) % b == 1 % b
  {
    var (g, x, _) := Egcd(a, b);
    if g != 1 then Err(NotInvertible)
    else if b == 0 then Err(ZeroDivision)
    else
      ModInvCorrect(a, b, x);
      Ok(x % b)
  }

  lemma ModInvCorrect(a: nat, b: nat, x: int)
    requires b > 0 && a * x + b * Egcd(a, b).2 == 1
    ensures ((x % b) * a) % b == 1 % b
  {
    var y := Egcd(a, b).2;
    MulModLeft(x, a, b);
    assert x * a == 1 + b * (-y);
    ModAddMultiple(1, b, -y);
  }

  /** Euclid's lemma: if b divides c * a and shares no factor with a, then
      b divides c. */
  lemma {:induction false} EuclidLemma(a: nat, b: nat, c: int)
    requires Gcd(a, b) == 1 && Divides(b, c * a)
    ensures Divides(b, c)
  {
    var (_, s, t) := Egcd(a, b);
    assert c == s * (c * a) + (c * t) * b;
    DividesRefl(b);
    DividesLinear(b, c * a, b, s, c * t);
  }

  /** An inverse of a modulo b exists only when a and b are coprime, so
      modinv's NotInvertible failure is raised exactly when there is no
      inverse to return. */
  lemma InverseNeedsCoprime(a: nat, b: nat, x: int)
    requires b > 0 && (x * a) % b == 1 % b
    ensures Gcd(a, b) == 1
  {
    var g := Gcd(a, b);
    GcdDivides(a, b);
    if b == 1 {
      DividesOne(g);
    } else {
      var m := x * a;
      var q := m / b;
      assert m == b * q + m % b;
      assert 1 % b == 1;
      assert 1 == x * a + (-q) * b;
      DividesLinear(g, a, b, x, -q);
      DividesOne(g);
    }
  }

  /** The inverse modulo b is unique in [0, b): modinv returns the one and
      only such value. */
  lemma InverseUnique(a: nat, b: nat, y: int)
    requires b > 0 && 0 <= y < b && (y * a) % b == 1 % b
    ensures ModInv(a, b) == Ok(y)
  {
    InverseNeedsCoprime(a, b, y);
    var x := ModInv(a, b).value;
    ModEqDivides(x * a, y * a, b);
    assert x * a - y * a == (x - y) * a;
    EuclidLemma(a, b, x - y);
    DividesSmall(b, x - y);
  }
}
