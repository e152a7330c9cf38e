/**
 * The two parties of the messenger: a sender that knows its partner's
 * public key (n, e), and a receiver that derives its key triple (n, e, d)
 * from two primes and decrypts what senders encrypt.
 */
module Parties {
  import opened Outcomes
  import opened Arith
  import opened Euclid
  import opened ModPow
  import opened Codec
  import opened Keys
  import opened RsaCorrectness

  /**
   * The public exponent the receiver settles on for lam: below lam and
   * coprime to it; lam - 1 when lam is below 65537; otherwise the first
   * value from 65537 upwards that is coprime to lam.
   */
  ghost predicate ChosenExponent(e: nat, lam: nat) {
    && e < lam && Gcd(e, lam) == 1
    && (lam < StartExponent ==> e == lam - 1)
    && (StartExponent < lam ==>
          StartExponent <= e && forall k :: StartExponent <= k < e ==> Gcd(k, lam) != 1)
  }

  /** 65537 itself is kept whenever lam exceeds it and is coprime to it. */
  lemma StartExponentKept(e: nat, lam: nat)
    requires ChosenExponent(e, lam) && StartExponent < lam && Gcd(StartExponent, lam) == 1
    ensures e == StartExponent
  {
  }

  /** The choice leaves no freedom: lam fixes the exponent. */
  lemma ChosenExponentUnique(e1: nat, e2: nat, lam: nat)
    requires lam != StartExponent
    requires ChosenExponent(e1, lam) && ChosenExponent(e2, lam)
    ensures e1 == e2
  {
    if lam > StartExponent {
      assert e1 < e2 ==> Gcd(e1, lam) != 1;
      assert e2 < e1 ==> Gcd(e2, lam) != 1;
    }
  }

  /** Holds the partner's public key; either component may be missing. */
  class Sender {
    var partnerN: Option<nat>
    var partnerE: Option<nat>

    constructor (partnerN: Option<nat>, partnerE: Option<nat>)
      ensures this.partnerN == partnerN && this.partnerE == partnerE
    {
      this.partnerN := partnerN;
      this.partnerE := partnerE;
    }

    /**
     * Encodes the message as one integer m and returns m^e mod n. A missing
     * key component fails first, then an empty message, then a zero
     * modulus. A message whose integer is n or more is not rejected.
     */
    method Encrypt(message: seq<nat>, unicode: bool) returns (r: Result<nat>)
      ensures partnerN.None? || partnerE.None? ==> r == Err(MissingPublicKey)
      ensures partnerN.Some? && partnerE.Some? && message == [] ==> r == Err(EmptyBinary)
      ensures partnerN == Some(0) && partnerE.Some? && message != [] ==> r == Err(ZeroModulus)
      ensures partnerN.Some? && partnerN.value > 0 && partnerE.Some? && message != [] ==>
        r == Ok(Pow(Encode(message, Width(unicode)).value, partnerE.value) % partnerN.value)
      ensures r.Ok? ==> partnerN.Some? && r.value < partnerN.value
    {
      if partnerN.None? || partnerE.None? {
        return Err(MissingPublicKey);
      }
      var messageNumber := StringToNumber(message, unicode);
      if messageNumber.Err? {
        return Err(messageNumber.error);
      }
      if partnerN.value == 0 {
        return Err(ZeroModulus);
      }
      var c := PowMod(messageNumber.value, partnerE.value, partnerN.value);
      return Ok(c);
    }
  }

  /** Owns a key triple; no method hands out the private exponent:
      GenerateSender copies only n and e. */
  class Receiver {
    var myN: Option<nat>
    var myE: Option<nat>
    var myD: Option<nat>

    /** The key triple derived from p and q, as SetParamsFromPrimes leaves it. */
    ghost predicate KeyFromPrimes(p: nat, q: nat)
      requires p >= 2 && q >= 2
      reads this
    {
      var lam := Lambda(p, q);
      && myN == Some(p * q)
      && myE.Some? && myD.Some?
      && ChosenExponent(myE.value, lam)
      && ModInv(myE.value, lam) == Ok(myD.value)
    }

    /**
     * With all three key components given, or with key generation switched
     * off, the components are stored as they are; otherwise a key is derived
     * from the primes p and q, which stand for the ones the prime source
     * would have picked.
     */
    constructor (p: nat, q: nat, myN: Option<nat>, myE: Option<nat>, myD: Option<nat>,
                 generateKey: bool)
      requires (myN.None? || myE.None? || myD.None?) && generateKey ==>
        p >= 2 && q >= 2 && Lambda(p, q) != StartExponent
      ensures (myN.None? || myE.None? || myD.None?) && generateKey ==> KeyFromPrimes(p, q)
      ensures !((myN.None? || myE.None? || myD.None?) && generateKey) ==>
        this.myN == myN && this.myE == myE && this.myD == myD
    {
      this.myN, this.myE, this.myD := None, None, None;
      new;
      if (myN.None? || myE.None? || myD.None?) && generateKey {
        SetParamsFromPrimes(p, q);
      } else {
        this.myN, this.myE, this.myD := myN, myE, myD;
      }
    }

    /**
     * n = p q; e starts at 65537 and is stepped down, then up, to a value
     * below lam that is coprime to it; d is the inverse of e modulo lam.
     * The loops never end when lam == 65537, which no pair of primes gives
     * (Keys.LambdaNotStart).
     */
    method SetParamsFromPrimes(p: nat, q: nat)
      requires p >= 2 && q >= 2 && Lambda(p, q) != StartExponent
      modifies this
      ensures KeyFromPrimes(p, q)
      ensures myD.value < Lambda(p, q)
      ensures Lambda(p, q) > 1 ==> (myE.value * myD.value) % Lambda(p, q) == 1
    {
      myN := Some(p * q);
      var lam := Lambda(p, q);
      myE := Some(StartExponent);
      if myE.value > lam {
        ConsecutiveCoprime(lam);
        while !(myE.value < lam && Gcd(myE.value, lam) == 1)
          invariant myN == Some(p * q)
          invariant myE.Some? && lam - 1 <= myE.value
          decreases myE.value
        {
          myE := Some(myE.value - 1);
        }
      }
      ghost var start := myE.value;
      ConsecutiveCoprime(lam);
      while !(myE.value < lam && Gcd(myE.value, lam) == 1)
        invariant myN == Some(p * q)
        invariant myE.Some? && start <= myE.value <= lam - 1
        invariant StartExponent < lam ==> start == StartExponent
        invariant lam < StartExponent ==> start == lam - 1
        invariant forall k :: start <= k < myE.value ==> Gcd(k, lam) != 1
        decreases lam - myE.value
      {
        myE := Some(myE.value + 1);
      }
      var d := ModInv(myE.value, lam);
      myD := Some(d.value);
      ExponentsInverse(myE.value, myD.value, lam);
    }

    /**
     * Raises c to d modulo n and decodes the result. Without a private
     * exponent this fails; without a modulus the power is taken in full;
     * a zero modulus fails.
     */
    method Decrypt(c: nat, unicode: bool) returns (r: Result<seq<nat>>)
      ensures myD.None? ==> r == Err(MissingPrivateKey)
      ensures myD.Some? && myN.None? ==> r == Ok(Decode(Pow(c, myD.value), Width(unicode)))
      ensures myD.Some? && myN == Some(0) ==> r == Err(ZeroModulus)
      ensures myD.Some? && myN.Some? && myN.value > 0 ==>
        r == Ok(Decode(Pow(c, myD.value) % myN.value, Width(unicode)))
    {
      if myD.None? {
        return Err(MissingPrivateKey);
      }
      var messageNumber: nat;
      if myN.None? {
        messageNumber := Pow(c, myD.value);
      } else if myN.value == 0 {
        return Err(ZeroModulus);
      } else {
        messageNumber := PowMod(c, myD.value, myN.value);
      }
      var message := NumberToString(messageNumber, unicode);
      return Ok(message);
    }

    /** A sender holding this receiver's public key (n, e). */
    method GenerateSender() returns (s: Sender)
      ensures fresh(s)
      ensures s.partnerN == myN && s.partnerE == myE
    {
      s := new Sender(myN, myE);
    }
  }

  /** d = modinv(e, lam) makes e * d one more than a multiple of lam. */
  lemma ExponentsInverse(e: nat, d: nat, lam: nat)
    requires ModInv(e, lam) == Ok(d)
    ensures lam > 1 ==> (e * d) % lam == 1
  {
    if lam > 1 {
      DivModUnique(1, lam, 0, 1);
      assert e * d == d * e;
    }
  }

  /**
   * Decryption undoes encryption modulo n: whatever m was encoded, the
   * receiver recovers m mod n, so a message whose integer is n or more
   * comes back changed.
   */
  lemma DecryptRecoversResidue(p: nat, q: nat, e: nat, d: nat, m: nat)
    requires IsPrime(p) && IsPrime(q) && p != q
    requires (e * d) % Lambda(p, q) == 1
    ensures Pow(Pow(m, e) % (p * q), d) % (p * q) == m % (p * q)
    ensures m >= p * q ==> Pow(Pow(m, e) % (p * q), d) % (p * q) != m
  {
    var n := p * q;
    PowModBase(m, e, n);
    RsaRoundTrip(p, q, e, d, m % n);
  }

  /**
   * The whole exchange: a receiver generates its key from distinct primes,
   * hands a sender its public key, the sender encrypts a message and the
   * receiver decrypts the ciphertext. The message comes back unchanged when
   * its code points fit the block width, it does not start with chr(0) and
   * its integer is below n.
   */
  method Exchange(p: nat, q: nat, message: seq<nat>, unicode: bool)
    returns (ciphertext: Result<nat>, received: Result<seq<nat>>)
    requires IsPrime(p) && IsPrime(q) && p != q
    requires message != [] && Fits(message, Width(unicode)) && message[0] != 0
    requires Encode(message, Width(unicode)).value < p * q
    ensures ciphertext.Ok? && ciphertext.value < p * q
    ensures received == Ok(message)
  {
    LambdaNotStart(p, q);
    LambdaAboveOne(p, q);
    var receiver := new Receiver(p, q, None, None, None, true);
    var sender := receiver.GenerateSender();
    ciphertext := sender.Encrypt(message, unicode);
    received := receiver.Decrypt(ciphertext.value, unicode);
    var m := Encode(message, Width(unicode)).value;
    var lam := Lambda(p, q);
    ExponentsInverse(receiver.myE.value, receiver.myD.value, lam);
    RsaRoundTrip(p, q, receiver.myE.value, receiver.myD.value, m);
    StringRoundTrip(message, Width(unicode));
  }

  /**
   * The toy key from p = 61, q = 53: lam = 780 lies below 65537, so e is
   * stepped down to 779, which is its own inverse modulo 780.
   */
  method ToyKey() returns (receiver: Receiver)
    ensures receiver.myN == Some(3233)
    ensures receiver.myE == Some(779) && receiver.myD == Some(779)
  {
    assert Gcd(60, 52) == 4 by {
      assert Gcd(60, 52) == Gcd(52, 60) == Gcd(8, 52) == Gcd(4, 8) == Gcd(0, 4);
    }
    assert Lambda(61, 53) == 780;
    receiver := new Receiver(61, 53, None, None, None, true);
    assert receiver.myE == Some(779);
    InverseUnique(779, 780, 779);
    assert ModInv(779, 780) == Ok(779);
    assert receiver.myD == Some(779);
  }
}
