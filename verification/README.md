# RSA messenger, modelled in Dafny

A model of the core of the simple RSA messenger in `RSA.py`. A `receiver` turns two primes into a key triple. The triple is n = p q, a public exponent e and a private exponent d, with d the inverse of e modulo λ = lcm(p − 1, q − 1). The receiver hands (n, e) to a `sender`. The sender encodes a text as one integer and raises it to e modulo n. The receiver raises the ciphertext to d modulo n and decodes the result back into text. The text codec gives every character a field of w bits, with w = 7, or 18 in `unicode` mode, zero-padded on the left. A code point of 2^w or more is not rejected and keeps all its bits, so its field is wider.

Modules, one per file:

- `Outcomes` (`outcomes.dfy`): the exceptions the code raises, as an `Error` datatype, plus `Result` and `Option`. `Option` stands for Python's `None` in key fields.
- `Arith` (`arith.dfy`): divisibility, primality, the power function `Pow`, and modular-arithmetic lemmas.
- `Euclid` (`euclid.dfy`): `math.gcd` as `Gcd`, plus `egcd` and `modinv`. Also Bézout, Euclid's lemma and the uniqueness of the modular inverse.
- `ModPow` (`modpow.dfy`): three-argument `pow`, as a square-and-multiply loop proved equal to `Pow(b, e) % n`.
- `Codec` (`codec.dfy`): `string_to_number` and `number_to_string`.
  - Strings are sequences of code points and binary renderings are bit sequences, most significant bit first.
  - Both are loops proved against the functions `Encode` and `Decode`, and the round trips are proved about those functions.
- `Keys` (`keys.dfy`): λ, and the facts about it that key setup relies on.
- `RsaCorrectness` (`rsa_correctness.dfy`): the binomial theorem, Fermat's little theorem, and RSA correctness.
  - RSA correctness: (m^e mod n)^d mod n == m for m < n.
- `Parties` (`parties.dfy`): the classes `Sender` and `Receiver`.
  - Their key fields are assigned in place.
  - Key setup steps `myE` in place, as the source does.
  - The whole exchange between the two parties is proved to return the message when its code points fit w bits, it does not start with chr(0) and its integer is below n (`Parties.Exchange`).

Behaviour of the code worth knowing:

- `number_to_string(0)` is the one-character string `chr(0)`, not the empty string. `bin(0)` is `'0'`, which pads to one full field (`Codec.DecodeShape`, `Codec.ZeroRoundTrip`).
- For p = 61 and q = 53 the code picks e = 779 and d = 779 (`Parties.ToyKey`).
  - λ = 780 lies below 65537, so the first loop steps e down to 779.
  - 779 is its own inverse modulo 780.
  - The worked example on the Wikipedia RSA page linked at RSA.py:2 uses e = 17 and d = 413 for the same primes; the code never chooses that key.
- Nothing rejects a character that does not fit w bits (`Codec.FieldFacts`, `Codec.ExampleTooWide`). In 7-bit mode chr(128) gets an 8-bit field, so "\x80" encodes as 128 and comes back as chr(1) chr(0).
- `encrypt` does not check that the message integer is below n. The receiver then recovers the integer modulo n, so such a message is lost (`Parties.DecryptRecoversResidue`).

## Model

| member | source | states |
|---|---|---|
| Euclid.Egcd | RSA.py:106-113 | returns (g, x, y) with a·x + b·y == g and g == gcd(a, b); the base case egcd(0, b) is (b, 0, 1) |
| Euclid.GcdGreatest | RSA.py:106-113 | the g that egcd returns is the greatest common divisor: every common divisor of a and b divides it |
| Euclid.ModInv | RSA.py:115-120 | succeeds exactly when gcd(a, b) == 1 and b != 0; gcd != 1 raises NotInvertible; b == 0 with gcd 1 is a division by zero; the result x satisfies 0 ≤ x < b and (x·a) % b == 1 % b |
| Euclid.InverseUnique | RSA.py:115-120 | any y in [0, b) with (y·a) % b == 1 % b is exactly what modinv returns |
| Euclid.InverseNeedsCoprime | RSA.py:115-120 | an inverse modulo b > 0 exists only when gcd(a, b) == 1, so the raise at gcd != 1 rejects no invertible input |
| ModPow.PowMod | RSA.py:24 | three-argument pow: the loop returns b^e mod n, below n |
| Codec.StringToNumber | RSA.py:72-83 | the loop builds Encode(s); the empty string raises; when every code point is below 2^w the result is Σ sᵢ·2^(w·(len−1−i)) and lies below 2^(w·len) |
| Codec.FieldFacts | RSA.py:79-81 | one character's field reads back as its code point; it is exactly w bits when the code point is below 2^w and wider than w bits when it is not |
| Codec.NumberToString | RSA.py:85-101 | the loop builds Decode(k); it yields ⌈len(bin(k)[2:])/w⌉ characters, each below 2^w, and string_to_number of the result is k |
| Codec.DecodeShape | RSA.py:85-101 | decoding k gives ⌈len(bin(k)[2:])/w⌉ characters that all fit w bits, and k = 0 gives the single character chr(0) |
| Codec.NumberRoundTrip | RSA.py:72-101 | string_to_number(number_to_string(k)) == k for every k ≥ 0 |
| Codec.StringRoundTrip | RSA.py:72-101 | number_to_string(string_to_number(s)) == s for nonempty s whose code points fit w bits and whose first code point is nonzero |
| Codec.StringRoundTripIff | RSA.py:72-101 | for nonempty fitting s, the round trip returns s exactly when s starts with a nonzero character or s is chr(0) alone |
| Codec.LeadingZeroIgnored | RSA.py:78-83 | a leading chr(0) does not change the encoded integer |
| Codec.LeadingZeroShortens | RSA.py:72-101 | a fitting string of two or more characters that starts with chr(0) comes back shorter |
| Codec.ExampleA | RSA.py:72-101 | "A" encodes as 65 and 65 decodes as "A" in 7-bit mode |
| Codec.ExampleLeadingZero | RSA.py:72-101 | "\x00A" encodes as 65 and comes back as "A" |
| Codec.ExampleTooWide | RSA.py:79-82 | chr(128) gets an 8-bit field in 7-bit mode; 128 decodes as the two characters chr(1), chr(0) |
| Keys.Lambda | RSA.py:43 | λ = (p−1)(q−1) // gcd(p−1, q−1) is at least 1 for p, q ≥ 2 |
| Keys.LambdaCommonMultiple | RSA.py:43 | λ is divisible by both p−1 and q−1 |
| Keys.LambdaLeast | RSA.py:43 | λ divides every common multiple of p−1 and q−1, so it is their least common multiple |
| Keys.ConsecutiveCoprime | RSA.py:45-47 | gcd(λ−1, λ) == 1, so the downward loop stops at λ−1 |
| Keys.LambdaNotStart | RSA.py:44-49 | for primes p, q, λ is never 65537 (it is even or 1), so the exponent loops end |
| Keys.LambdaAboveOne | RSA.py:43 | for distinct primes λ > 1, so modinv's result is a true inverse |
| Parties.StartExponentKept | RSA.py:44-49 | e stays 65537 when 65537 < λ and gcd(65537, λ) == 1 |
| Parties.ChosenExponentUnique | RSA.py:44-49 | for λ != 65537 the chosen exponent is uniquely determined by λ |
| Parties.ExponentsInverse | RSA.py:50 | d = modinv(e, λ) gives (e·d) % λ == 1 whenever λ > 1 |
| RsaCorrectness.ExponentSplit | RSA.py:50 | e·d ≡ 1 mod λ gives e·d = 1 + k(p−1) and e·d = 1 + k'(q−1) |
| RsaCorrectness.RsaRoundTrip | RSA.py:19-55 | for distinct primes, e·d ≡ 1 mod λ and m < n = pq: pow(pow(m, e, n), d, n) == m |
| Parties.Sender.constructor | RSA.py:14-17 | the partner's n and e are stored as given, either possibly None |
| Parties.Sender.Encrypt | RSA.py:19-25 | a missing n or e raises first; an empty message raises; n = 0 raises; otherwise the result is string_to_number(message)^e mod n, below n, with no check that the message integer is below n |
| Parties.Receiver.constructor | RSA.py:29-35 | with a key component missing and generation on, the key is derived from the primes as set_params_from_primes does; otherwise the three components are stored as given |
| Parties.Receiver.SetParamsFromPrimes | RSA.py:41-50 | n = p·q; e < λ and gcd(e, λ) == 1; e == λ−1 when λ < 65537, otherwise e is the first value from 65537 up that is coprime to λ; d == modinv(e, λ) < λ with (e·d) % λ == 1 when λ > 1 |
| Parties.Receiver.Decrypt | RSA.py:52-55 | a missing d raises; a missing n decodes c^d in full; n = 0 raises; otherwise the result is number_to_string(c^d mod n) |
| Parties.Receiver.GenerateSender | RSA.py:57-58 | a new sender holding this receiver's n and e |
| Parties.DecryptRecoversResidue | RSA.py:19-25 | decrypting the encryption of any message integer m returns m mod n, so a message integer m ≥ n, which encrypt does not reject, is not recovered |
| Parties.Exchange | RSA.py:19-58 | receiver from distinct primes, generate_sender, encrypt, decrypt: the ciphertext is below n and the message comes back unchanged when its code points fit w bits, it does not start with chr(0) and its integer is below n |
| Parties.ToyKey | RSA.py:41-50 | p = 61, q = 53 give n = 3233, e = 779 and d = 779 |

## Left out

- `pick_primes` and `receiver.set_params` (RSA.py:37-39, 61-70): they draw random primes through sympy and widen the range with a floating-point factor. The primes are parameters of `Parties.Receiver.constructor` instead, and `n_bits` is not modelled.
- `sys.setrecursionlimit` (RSA.py:10) is interpreter configuration. The unreachable `return False` (RSA.py:22) has no behaviour.
- Parties.Receiver.SetParamsFromPrimes: requires p, q ≥ 2 and λ != 65537.
  - At λ = 65537 the source's loops never end; `Keys.LambdaNotStart` shows that primes never give it.
  - p or q below 2 is not modelled. In the source these inputs behave as follows:
    - For λ ≤ 0, the loops end at e = λ − 1, because `math.gcd` ignores signs. `modinv` then raises, because `egcd` returns g = −1 for those negative arguments.
    - p = q = 1 divides by zero at RSA.py:43.
    - p = q = 0 gives λ = 1 and a key with n = 0.
- Negative integers are not modelled.
  - This covers negative arguments to egcd, modinv and pow, negative key components, and pow's negative-exponent inverse mode.
  - Every input to a modelled operation is a natural number.
  - Non-integer arguments, which Python would accept until an operation fails, are not modelled either.
- Python strings, `ord`/`chr`, `bin` and `int(…, 2)` are not modelled as such.
  - Text is a sequence of code points; binary text is a sequence of bits.
  - Each Python exception is one constructor of `Error`; messages and exception classes are not kept.
- Arbitrary-precision arithmetic is modelled by Dafny's unbounded integers; running time and memory are not modelled.
