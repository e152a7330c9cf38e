/** The fixed-width bit-block text codec: string_to_number and
    number_to_string in RSA.py. A string is its sequence of code points;
    bin() output is a bit string, most significant bit first. */
module Codec {
  import opened Arith
  import opened Outcomes

  /** A binary rendering, most significant bit first; true stands for '1'. */
  type Bits = seq<bool>

  /** bits_per_block: 18 bits per character with unicode, 7 without. */
  function Width(unicode: bool): nat {
    if unicode then 18 else 7
  }

  function Bit(b: bool): nat {
    if b then 1 else 0
  }

  /** The number a bit string stands for, as int(bits, 2) reads it. */
  function Value(bs: Bits): nat {
    if bs == [] then 0 else 2 * Value(bs[..|bs| - 1]) + Bit(bs[|bs| - 1])
  }

  /** bin(k)[2:]: the shortest binary rendering, "0" for zero. */
  function Bin(k: nat): (bs: Bits)
    decreases k
    ensures |bs| >= 1
    ensures k > 0 ==> bs[0]
  {
    if k < 2 then [k == 1] else Bin(k / 2) + [k % 2 == 1]
  }

  function Zeros(n: nat): Bits {
    seq(n, _ => false)
  }

  /** One character's field: bin(ord(c))[2:] left-padded with zeros to w
      bits; a code point too wide for w bits keeps all its bits. */
  function Field(c: nat, w: nat): Bits {
    var b := Bin(c);
    Zeros(if |b| < w then w - |b| else 0) + b
  }

  /** message_binary: the fields of all characters, first character first. */
  function Fields(s: seq<nat>, w: nat): Bits {
    if s == [] then [] else Field(s[0], w) + Fields(s[1..], w)
  }

  /** int(bits, 2), which rejects the empty string. */
  function ParseBinary(bs: Bits): Result<nat> {
    if bs == [] then Err(EmptyBinary) else Ok(Value(bs))
  }

  /** string_to_number(s) with w bits per character. */
  function Encode(s: seq<nat>, w: nat): (r: Result<nat>)
    ensures r.Err? <==> s == []
    ensures r.Err? ==> r.error == EmptyBinary
  {
    ParseBinary(Fields(s, w))
  }

  /** bin(k)[2:] left-padded with zeros to a multiple of w bits. */
  function Padded(k: nat, w: nat): Bits
    requires w > 0
  {
    var b := Bin(k);
    Zeros((w - |b| % w) % w) + b
  }

  /** The code points of the consecutive w-bit fields of bs; a tail shorter
      than w bits is not read. */
  function Split(bs: Bits, w: nat): seq<nat>
    requires w > 0
    decreases |bs|
  {
    if |bs| < w then [] else [Value(bs[..w])] + Split(bs[w..], w)
  }

  /** number_to_string(k) with w bits per character. */
  function Decode(k: nat, w: nat): seq<nat>
    requires w > 0
  {
    Split(Padded(k, w), w)
  }

  /** Every code point fits in a w-bit field. */
  ghost predicate Fits(s: seq<nat>, w: nat) {
    forall i :: 0 <= i < |s| ==> s[i] < Pow(2, w)
  }

  /** The sum of ord(s[i]) * 2^(w * (|s| - 1 - i)). */
  function Weighted(s: seq<nat>, w: nat): nat {
    if s == [] then 0 else s[0] * Pow(2, w * (|s| - 1)) + Weighted(s[1..], w)
  }

  /** The number of w-bit characters number_to_string makes of L bits. */
  function Ceil(L: nat, w: nat): nat
    requires w > 0
  {
    (L + w - 1) / w
  }

  // ---------------------------------------------------------------------
  // The two operations, as the source writes them.

  /** string_to_number: render every code point as a zero-padded field,
      concatenate, and read the bits as one number. */
  method StringToNumber(s: seq<nat>, unicode: bool) returns (r: Result<nat>)
    ensures r == Encode(s, Width(unicode))
    ensures s == [] <==> r == Err(EmptyBinary)
    ensures s != [] && Fits(s, Width(unicode)) ==>
              r == Ok(Weighted(s, Width(unicode))) && r.value < Pow(2, Width(unicode) * |s|)
  {
    var w := Width(unicode);
    var messageBinary: Bits := [];
    for i := 0 to |s|
      invariant messageBinary == Fields(s[..i], w)
    {
      var cBinary := Bin(s[i]);
      var nZeros := w - |cBinary|;
      cBinary := Zeros(if nZeros > 0 then nZeros else 0) + cBinary;
      FieldsAppend(s[..i], [s[i]], w);
      assert s[..i + 1] == s[..i] + [s[i]];
      messageBinary := messageBinary + cBinary;
    }
    assert s[..|s|] == s;
    r := ParseBinary(messageBinary);
    if s != [] && Fits(s, w) {
      FieldsOfFitting(s, w);
      ValueBound(Fields(s, w));
    }
  }

  /** number_to_string: left-pad bin(k) to a multiple of w bits and read
      each w-bit field as a code point. */
  method NumberToString(k: nat, unicode: bool) returns (s: seq<nat>)
    ensures s == Decode(k, Width(unicode))
    ensures |s| == Ceil(|Bin(k)|, Width(unicode))
    ensures Fits(s, Width(unicode))
    ensures Encode(s, Width(unicode)) == Ok(k)
  {
    var w := Width(unicode);
    var numberBinary := Bin(k);
    var extraZeros := (w - |numberBinary| % w) % w;
    numberBinary := Zeros(extraZeros) + numberBinary;
    var numCharacters := |numberBinary| / w;
    s := [];
    for which := 0 to numCharacters
      invariant which * w <= |numberBinary|
      invariant s + Split(numberBinary[which * w..], w) == Split(numberBinary, w)
    {
      SplitStep(numberBinary, w, which);
      var characterBin := numberBinary[which * w..(which + 1) * w];
      s := s + [Value(characterBin)];
    }
    SplitEnd(numberBinary, w);
    assert s + [] == s;
    assert numberBinary == Padded(k, w);
    assert s == Decode(k, w);
    DecodeShape(k, w);
    NumberRoundTrip(k, w);
  }

  /** One iteration of number_to_string's loop reads the next field. */
  lemma SplitStep(bs: Bits, w: nat, i: nat)
    requires w > 0 && i < |bs| / w
    ensures (i + 1) * w <= |bs|
    ensures Split(bs[i * w..], w) ==
            [Value(bs[i * w..(i + 1) * w])] + Split(bs[(i + 1) * w..], w)
  {
    MulBelowDiv(i + 1, w, |bs|);
    var rest := bs[i * w..];
    assert (i + 1) * w == i * w + w;
    assert rest[..w] == bs[i * w..(i + 1) * w];
    assert rest[w..] == bs[(i + 1) * w..];
  }

  /** After |bs| / w fields, fewer than w bits are left and nothing more is read. */
  lemma SplitEnd(bs: Bits, w: nat)
    requires w > 0
    ensures Split(bs[(|bs| / w) * w..], w) == []
  {
    assert |bs| == w * (|bs| / w) + |bs| % w;
  }

  // ---------------------------------------------------------------------
  // Facts about bit strings.

  lemma MulBelowDiv(a: nat, w: nat, L: nat)
    requires w > 0 && a <= L / w
    ensures a * w <= L
  {
    assert L == w * (L / w) + L % w;
    assert a * w <= (L / w) * w;
  }

  /** Appending bits shifts the value left by their number. */
  lemma {:induction false} ValueAppend(a: Bits, b: Bits)
    ensures Value(a + b) == Value(a) * Pow(2, |b|) + Value(b)
    decreases |b|
  {
    if b == [] {
      assert a + b == a;
    } else {
      var b' := b[..|b| - 1];
      assert (a + b)[..|a + b| - 1] == a + b';
      ValueAppend(a, b');
      var va, vb', p, x := Value(a), Value(b'), Pow(2, |b'|), Bit(b[|b| - 1]);
      assert Pow(2, |b|) == 2 * p;
      assert Value(b) == 2 * vb' + x;
      assert (a + b)[|a + b| - 1] == b[|b| - 1];
      assert Value(a + b) == 2 * Value(a + b') + x;
      ShiftStep(va, vb', p, x);
    }
  }

  lemma ShiftStep(va: int, vb: int, p: int, x: int)
    ensures 2 * (va * p + vb) + x == va * (2 * p) + (2 * vb + x)
  {
  }

  lemma {:induction false} ValueBound(bs: Bits)
    ensures Value(bs) < Pow(2, |bs|)
    decreases |bs|
  {
    if bs != [] {
      ValueBound(bs[..|bs| - 1]);
    }
  }

  lemma {:induction false} ValueZeros(n: nat)
    ensures Value(Zeros(n)) == 0
  {
    if n > 0 {
      assert Zeros(n)[..n - 1] == Zeros(n - 1);
      ValueZeros(n - 1);
    }
  }

  /** Leading zero bits do not change the value. */
  lemma ValueLeadingZeros(n: nat, bs: Bits)
    ensures Value(Zeros(n) + bs) == Value(bs)
  {
    ValueAppend(Zeros(n), bs);
    ValueZeros(n);
  }

  /** bin() and int(..., 2) are inverse: Bin(k) reads back as k. */
  lemma {:induction false} BinValue(k: nat)
    ensures Value(Bin(k)) == k
    decreases k
  {
    if k >= 2 {
      BinValue(k / 2);
      var b := Bin(k);
      assert b[..|b| - 1] == Bin(k / 2);
    }
  }

  /** The leading bit of bin(k) is worth at least 2^(|bin(k)| - 1). */
  lemma {:induction false} BinLowerBound(k: nat)
    requires k > 0
    ensures Pow(2, |Bin(k)| - 1) <= k
    decreases k
  {
    if k >= 2 {
      BinLowerBound(k / 2);
    }
  }

  /** bin(k) has at most n bits exactly when k < 2^n. */
  lemma BinFits(k: nat, n: nat)
    requires n >= 1
    ensures |Bin(k)| <= n <==> k < Pow(2, n)
  {
    BinValue(k);
    ValueBound(Bin(k));
    if |Bin(k)| <= n {
      PowMonotone(2, |Bin(k)|, n);
    } else {
      assert k > 0;
      BinLowerBound(k);
      PowMonotone(2, n, |Bin(k)| - 1);
    }
  }

  /** Two bit strings of one length with one value are equal. */
  lemma {:induction false} ValueInjective(a: Bits, b: Bits)
    requires |a| == |b| && Value(a) == Value(b)
    ensures a == b
    decreases |a|
  {
    if a != [] {
      var n := |a| - 1;
      assert Bit(a[n]) == Bit(b[n]);
      ValueInjective(a[..n], b[..n]);
      assert a == a[..n] + [a[n]];
      assert b == b[..n] + [b[n]];
    }
  }

  /** A field reads back as its code point; it is w bits wide when the code
      point fits and wider when it does not. */
  lemma FieldFacts(c: nat, w: nat)
    requires w >= 1
    ensures Value(Field(c, w)) == c
    ensures c < Pow(2, w) ==> |Field(c, w)| == w
    ensures c >= Pow(2, w) ==> |Field(c, w)| == |Bin(c)| > w
  {
    ValueLeadingZeros(if |Bin(c)| < w then w - |Bin(c)| else 0, Bin(c));
    BinValue(c);
    BinFits(c, w);
  }

  lemma {:induction false} FieldsAppend(a: seq<nat>, b: seq<nat>, w: nat)
    ensures Fields(a + b, w) == Fields(a, w) + Fields(b, w)
    decreases |a|
  {
    if a != [] {
      assert (a + b)[1..] == a[1..] + b;
      FieldsAppend(a[1..], b, w);
    } else {
      assert a + b == b;
    }
  }

  /** When every code point fits, message_binary is w bits per character and
      reads as the weighted sum of the code points. */
  lemma {:induction false} FieldsOfFitting(s: seq<nat>, w: nat)
    requires w >= 1 && Fits(s, w)
    ensures |Fields(s, w)| == w * |s|
    ensures Value(Fields(s, w)) == Weighted(s, w)
    decreases |s|
  {
    if s != [] {
      FieldsOfFitting(s[1..], w);
      FieldFacts(s[0], w);
      ValueAppend(Field(s[0], w), Fields(s[1..], w));
      assert w * |s| == w + w * (|s| - 1);
    }
  }

  /** Splitting the fields of fitting code points gives them back. */
  lemma {:induction false} SplitFields(s: seq<nat>, w: nat)
    requires w >= 1 && Fits(s, w)
    ensures Split(Fields(s, w), w) == s
    decreases |s|
  {
    if s != [] {
      FieldFacts(s[0], w);
      var f := Field(s[0], w);
      var rest := Fields(s[1..], w);
      assert (f + rest)[..w] == f;
      assert (f + rest)[w..] == rest;
      SplitFields(s[1..], w);
    }
  }

  /** Splitting a bit string of m whole fields gives m code points that fit,
      and rendering them again gives the bit string back. */
  lemma {:induction false} FieldsSplit(bs: Bits, w: nat, m: nat)
    requires w >= 1 && |bs| == w * m
    ensures |Split(bs, w)| == m && Fits(Split(bs, w), w)
    ensures Fields(Split(bs, w), w) == bs
    decreases m
  {
    if m > 0 {
      assert w * m == w + w * (m - 1);
      var head, tail := bs[..w], bs[w..];
      var c := Value(head);
      assert Split(bs, w) == [c] + Split(tail, w);
      FieldsSplit(tail, w, m - 1);
      ValueBound(head);
      FieldFacts(c, w);
      ValueInjective(Field(c, w), head);
      assert ([c] + Split(tail, w))[1..] == Split(tail, w);
      assert Fields(Split(bs, w), w) == Field(c, w) + Fields(Split(tail, w), w);
      assert bs == head + tail;
    }
  }

  /** number_to_string pads bin(k) to Ceil(|bin(k)|, w) whole fields. */
  lemma PaddedLength(k: nat, w: nat)
    requires w >= 1
    ensures |Padded(k, w)| == w * Ceil(|Bin(k)|, w)
  {
    var L := |Bin(k)|;
    var q, r := L / w, L % w;
    assert L == w * q + r;
    var extra := (w - r) % w;
    assert |Padded(k, w)| == extra + L;
    if r == 0 {
      DivModUnique(w, w, 1, 0);
      assert extra == 0;
      DivModUnique(L + w - 1, w, q, w - 1);
    } else {
      DivModUnique(w - r, w, 0, w - r);
      assert extra == w - r;
      assert extra + L == w * (q + 1);
      assert L + w - 1 == w * (q + 1) + (r - 1);
      DivModUnique(L + w - 1, w, q + 1, r - 1);
    }
  }

  /** number_to_string(k) has Ceil(|bin(k)|, w) characters, each of which
      fits in w bits; zero decodes to the single character chr(0). */
  lemma DecodeShape(k: nat, w: nat)
    requires w >= 1
    ensures |Decode(k, w)| == Ceil(|Bin(k)|, w)
    ensures Fits(Decode(k, w), w)
    ensures k == 0 ==> Decode(k, w) == [0]
  {
    PaddedLength(k, w);
    FieldsSplit(Padded(k, w), w, Ceil(|Bin(k)|, w));
    if k == 0 {
      DivModUnique(w, w, 1, 0);
      assert Ceil(1, w) == 1;
      var p := Padded(0, w);
      assert p[w..] == [];
      ValueZeros(w);
      assert p[..w] == Zeros(w);
    }
  }

  // ---------------------------------------------------------------------
  // The round trips.

  /** number -> string -> number is the identity on every k >= 0. */
  lemma NumberRoundTrip(k: nat, w: nat)
    requires w >= 1
    ensures Encode(Decode(k, w), w) == Ok(k)
  {
    PaddedLength(k, w);
    FieldsSplit(Padded(k, w), w, Ceil(|Bin(k)|, w));
    ValueLeadingZeros((w - |Bin(k)| % w) % w, Bin(k));
    BinValue(k);
  }

  /** string -> number -> string is the identity on a nonempty string whose
      code points fit and whose first code point is not zero. */
  lemma StringRoundTrip(s: seq<nat>, w: nat)
    requires w >= 1 && s != [] && Fits(s, w) && s[0] != 0
    ensures Decode(Encode(s, w).value, w) == s
  {
    var n := |s|;
    var bits := Fields(s, w);
    FieldsOfFitting(s, w);
    var v := Value(bits);
    var L := |Bin(v)|;
    assert Encode(s, w) == Ok(v);
    BinLengthOfLeadingNonzero(s, w);
    CeilExact(L, w, n);
    PaddedLength(v, w);
    assert |Padded(v, w)| == w * n == |bits|;
    ValueLeadingZeros((w - L % w) % w, Bin(v));
    BinValue(v);
    assert Value(Padded(v, w)) == v;
    ValueInjective(Padded(v, w), bits);
    SplitFields(s, w);
    assert Decode(v, w) == Split(bits, w);
  }

  /** With a nonzero first code point the number has more than w * (|s| - 1)
      and at most w * |s| bits. */
  lemma BinLengthOfLeadingNonzero(s: seq<nat>, w: nat)
    requires w >= 1 && s != [] && Fits(s, w) && s[0] != 0
    ensures w * (|s| - 1) < |Bin(Weighted(s, w))| <= w * |s|
  {
    var n := |s|;
    FieldsOfFitting(s, w);
    var v := Weighted(s, w);
    ValueBound(Fields(s, w));
    var p := Pow(2, w * (n - 1));
    assert v == s[0] * p + Weighted(s[1..], w);
    MulAtLeast(s[0], p);
    MulAtLeast(w, n);
    BinFits(v, w * n);
    if n > 1 {
      MulAtLeast(w, n - 1);
      BinFits(v, w * (n - 1));
    }
  }

  /** Ceil(L, w) == n for w(n-1) < L <= wn. */
  lemma CeilExact(L: nat, w: nat, n: nat)
    requires w >= 1 && n >= 1 && w * (n - 1) < L <= w * n
    ensures Ceil(L, w) == n
  {
    assert w * (n - 1) == w * n - w;
    DivModUnique(L + w - 1, w, n, L + w - 1 - w * n);
  }

  /** A leading chr(0) contributes nothing to the number: "\x00" + s encodes
      exactly as s does. */
  lemma LeadingZeroIgnored(s: seq<nat>, w: nat)
    requires s != []
    ensures Encode([0] + s, w) == Encode(s, w)
  {
    assert ([0] + s)[1..] == s;
    var z := Field(0, w);
    ValueLeadingZeros(if 1 < w then w - 1 else 0, Bin(0));
    ValueAppend(z, Fields(s, w));
  }

  /** Ceil(L, w) <= m for L <= wm. */
  lemma CeilAtMost(L: nat, w: nat, m: nat)
    requires w >= 1 && L <= w * m
    ensures Ceil(L, w) <= m
  {
    var c := Ceil(L, w);
    assert L + w - 1 == w * c + (L + w - 1) % w;
    assert c >= m + 1 ==> w * c >= w * (m + 1);
  }

  /** For a nonempty string of fitting code points, string -> number ->
      string gives the string back exactly when its first code point is
      not zero, or the string is chr(0) alone: leading chr(0) characters
      are lost. */
  lemma StringRoundTripIff(s: seq<nat>, w: nat)
    requires w >= 1 && s != [] && Fits(s, w)
    ensures Decode(Encode(s, w).value, w) == s <==> s[0] != 0 || s == [0]
  {
    if s[0] != 0 {
      StringRoundTrip(s, w);
    } else if s == [0] {
      ZeroRoundTrip(w);
    } else {
      LeadingZeroShortens(s, w);
    }
  }

  /** chr(0) alone encodes as 0, and 0 decodes as chr(0). */
  lemma ZeroRoundTrip(w: nat)
    requires w >= 1
    ensures Encode([0], w) == Ok(0)
    ensures Decode(0, w) == [0]
  {
    FieldFacts(0, w);
    assert Fields([0], w) == Field(0, w) + [] == Field(0, w);
    DecodeShape(0, w);
  }

  /** A string of two or more characters that starts with chr(0) comes back
      shorter. */
  lemma LeadingZeroShortens(s: seq<nat>, w: nat)
    requires w >= 1 && |s| >= 2 && Fits(s, w) && s[0] == 0
    ensures |Decode(Encode(s, w).value, w)| < |s|
  {
    var n := |s|;
    var t := s[1..];
    assert s == [0] + t;
    LeadingZeroIgnored(t, w);
    assert Fits(t, w);
    FieldsOfFitting(t, w);
    var v := Value(Fields(t, w));
    ValueBound(Fields(t, w));
    assert w * (n - 1) >= 1 * 1;
    BinFits(v, w * (n - 1));
    CeilAtMost(|Bin(v)|, w, n - 1);
    DecodeShape(v, w);
  }

  // ---------------------------------------------------------------------
  // Worked examples in the 7-bit alphabet.

  /** "A" encodes as 65 ("1000001") and 65 decodes as "A". */
  lemma ExampleA()
    ensures Encode([65], 7) == Ok(65)
    ensures Decode(65, 7) == [65]
  {
    assert Fits([65], 7);
    FieldsOfFitting([65], 7);
    StringRoundTrip([65], 7);
  }

  /** "\x00A" encodes as 65 too, so it decodes as "A". */
  lemma ExampleLeadingZero()
    ensures Encode([0, 65], 7) == Ok(65)
    ensures Decode(Encode([0, 65], 7).value, 7) == [65]
  {
    assert [0, 65] == [0] + [65];
    LeadingZeroIgnored([65], 7);
    ExampleA();
  }

  /** chr(128) does not fit in 7 bits: its field widens to 8 bits, it
      encodes as 128, and 128 decodes as the two characters chr(1) chr(0). */
  lemma ExampleTooWide()
    ensures |Field(128, 7)| == 8
    ensures Encode([128], 7) == Ok(128)
    ensures Decode(128, 7) == [1, 0]
  {
    WideField();
    FieldFacts(128, 7);
    assert Fields([128], 7) == Field(128, 7) + [] == Field(128, 7);
    WideDecode();
  }

  lemma WideField()
    ensures |Field(128, 7)| == 8
  {
    assert Pow(2, 7) == 128 && Pow(2, 8) == 256;
    FieldFacts(128, 7);
    BinFits(128, 8);
  }

  lemma WideDecode()
    ensures Decode(128, 7) == [1, 0]
  {
    assert Fits([1, 0], 7);
    FieldsOfFitting([1, 0], 7);
    assert Weighted([1, 0], 7) == 128;
    StringRoundTrip([1, 0], 7);
  }
}
