# Verification of the bundled cryptographic and text-detection libraries

The repository bundles three libraries whose code carries real mathematics or real state machines.
This project models their cores in Dafny and proves what they are for.

**ECDSA** (`client/src/external/ecdsa`). Number theory from the extended Euclidean algorithm to modular
square roots for every prime, polynomial arithmetic modulo a polynomial, curve arithmetic with the chord
and tangent formulas, signed-digit scalar multiplication, signing and verifying, fixed-width and DER
encodings, and keys built from and turned into bytes. The theorems run up to `Keys.SignThenVerify`: what
`sign_digest` returns passes `verify_digest`, through either encoding, exactly when the abscissa of the
nonce point is below the order.

**Internationalized domain names** (`client/src/external/idna`). The index of code point ranges, shown to
agree with the list it was made from, and the check of bidirectional labels, shown to decide the Bidi rule.

**Character set detection** (`client/src/external/chardet`). The byte automata and the stateful detectors
that are fed a stream in chunks: which streams they reject, what they count, and that cutting the stream
differently does not matter.

Loops of the source are methods with loop invariants, its updated objects are classes, its expressions are
functions. An exception is a `Result`; a condition that only a caller can meet is a `requires`.

## How the modules fit together

- `Integers`, `Powers`, `Permutations`: remainders, powers and products, one fact at a time.
- `Euclid`, `Primes`, `MillerRabin`, `Factoring`, `Orders`: the integer part of `numbertheory.py`.
- `Reciprocity`, `Jacobi`: the quadratic symbol, defined by counting sign changes, and the function `jacobi`.
- `Polynomials`, `Frobenius`, `SquareRoot`: polynomials mod (f, p), the Frobenius map, and `square_root_mod_prime`.
- `Curve`, `ScalarMul`, `Ecdsa`: `ellipticcurve.py` and `ecdsa.py`.
- `Bytes`, `Der`, `Keys`: `util.py`, `rfc6979.py`, `der.py`, `curves.py` and `keys.py`.
- `SmallCurves`: two curves with their group laws proved, on which the hypotheses hold and the exceptions occur.
- `IntRanges`, `Bidi`: `intranges.py` and `check_bidi`.
- `Streams`, `StateMachines`, `Utf8`, `Distribution`, `MultiByte`, `Big5`, `SingleByte`: the detectors.

## Where the code and its documentation differ

- `order_mod` compares the unreduced argument with 1, so an argument that is 1 modulo m without being 1 gets
  the answer 2 (`Orders.OrderMod`, `Orders.OrderModUnreduced`).
- `Point.__mul__` raises when its run meets a point of order two, although the product exists; points of odd or
  prime order are safe (`ScalarMul.StuckExactly`, `SmallCurves.StuckExample`).
- `sign` does not reduce the abscissa modulo the order, so a signature it returns can be one that `verifies`
  refuses; the exact condition is `Ecdsa.SignedIsAccepted`, an instance `SmallCurves.SignatureRefused`.
- DER integers from 2^1015 on get a one-byte length that is misread, or cannot be written at all
  (`Der.IntegerRoundTripExact`).
- The range index loses a member when it holds 2^32 - 1 and, once, 2^32 - 2 (`IntRanges.IndexAgreesExactly`).
- The UTF-8 automaton rejects U+10000 to U+1FFFF and three control characters (`Utf8.LegalCharactersRejected`).
- The Big5 automaton admits second bytes from 0x80 to 0xA0, whose orders collide with those of other characters
  (`Distribution.Big5OrderCollisions`).
- The confidence of a distribution analysis can fall when it passes three frequent characters
  (`Distribution.ConfidenceGrowsExactly`), and whether a multi-byte encoding is found depends on where chunks end
  (`MultiByte.FoundAtSomeBoundary`).
- `gcd` takes the sign of its first argument, so `order_mod` raises for every negative argument.

## Hypotheses

- `Curve.Associative`: the group law is associative on the curve. Everything else about the group is proved of
  the code's own formulas; the hypothesis is a part of `ScalarMul.Group` and reaches the lemmas through it. On the two curves of `SmallCurves` it is proved.
- `Ecdsa.Generator`: the generator has a prime order, which is its order in the group. The constructor's own
  check of the order holds of every point, because the factor is reduced first.
- `MillerRabin.PrimeTable`: `smallprimes` lists every prime up to its last entry, in order, at least forty of them.
- `Keys.ValidCurve`: the order is at most the field size and the lengths are below a thousand bytes, as for the
  supplied curves.

## Model

| member | source | states |
|---|---|---|
| `Euclid.Gcd2` | client/src/external/ecdsa/numbertheory.py:206-210 | for integers of any sign the loop ends with the greatest common divisor of the absolute values, with the sign of the first argument, or with the second argument itself when the first is 0; what that is, is said by the next two rows |
| `Euclid.GcdMeaning` | client/src/external/ecdsa/numbertheory.py:206-221 | the result divides both numbers, and is 0 only for 0 and 0 |
| `Euclid.GcdGreatest` | client/src/external/ecdsa/numbertheory.py:206-221 | every common divisor divides the result |
| `Euclid.InverseMod` | client/src/external/ecdsa/numbertheory.py:185-203 | for m >= 2 and any integer a: if a and m are coprime the extended Euclidean loop returns the number strictly between 0 and m whose product with a is 1 mod m, otherwise its assertion fires; the range rests on the invariant that the two coefficient columns sum to m |
| `Euclid.InversesAgree` | client/src/external/ecdsa/numbertheory.py:185-203 | at most one number can meet that description |
| `Primes.FermatLittle` | client/src/external/ecdsa/numbertheory.py:389-459 | a^(p-1) = 1 mod p for a prime p that does not divide a: the reason a prime passes a round |
| `Primes.RootsOfOne` | client/src/external/ecdsa/numbertheory.py:448-458 | a prime has no square roots of 1 but 1 and -1: the reason the inner loop may reject when it meets 1 |
| `Primes.InfinitelyManyPrimes` | client/src/external/ecdsa/numbertheory.py:462-468 | above every number there is a prime, which bounds the search of next_prime |
| `MillerRabin.IsPrimeTest` | client/src/external/ecdsa/numbertheory.py:389-459 | table, screen, loop over the bases and rounds decide PassesTest, which is membership up to the last table entry (TestExactInTable) and above it what TestMeaning says of the powers of the bases |
| `MillerRabin.Round` | client/src/external/ecdsa/numbertheory.py:445-458 | the early exits of the squaring loop decide exactly whether some squaring reaches -1 or the power is 1 |
| `MillerRabin.ChooseRounds` | client/src/external/ecdsa/numbertheory.py:420-436 | the loop picks the entry for the number of bits: the last one that is not above it, 40 below the first, always from 2 to 40 |
| `MillerRabin.TestMeaning` | client/src/external/ecdsa/numbertheory.py:389-459 | above the table a number is accepted if and only if it is coprime to 2310 and for every tested base a: a^(n-1) = 1 mod n, and wherever n-1 = 2^j*e with j >= 1 and a^(2e) = 1, a^e is 1 or -1 |
| `MillerRabin.RoundMeaning` | client/src/external/ecdsa/numbertheory.py:440-458 | that is decided by each round for its base, for every n > 2 |
| `MillerRabin.WitnessRejects` | client/src/external/ecdsa/numbertheory.py:445-458 | one tested base with a^(n-1) other than 1, or with a square root of 1 other than 1 and -1 among those powers, rejects n, and n is composite |
| `MillerRabin.PrimePassesTest` | client/src/external/ecdsa/numbertheory.py:389-459 | no prime is ever rejected, whatever the number of rounds up to 40 |
| `MillerRabin.TestExactInTable` | client/src/external/ecdsa/numbertheory.py:410-412 | up to the last table entry the test is exact |
| `MillerRabin.NextPrime` | client/src/external/ecdsa/numbertheory.py:462-468 | the search terminates from every integer; its result is above the start and passes the test, no prime lies strictly between, and from 2 on no odd number strictly between passes the test |
| `Factoring.Factorization` | client/src/external/ecdsa/numbertheory.py:244-291 | for n >= 1 the bases raised to their exponents multiply to n, exponents are positive, bases increase strictly, and every base is prime except possibly one cofactor, with exponent 1 and above the table, that the Miller-Rabin test let through |
| `Factoring.StripSmall` | client/src/external/ecdsa/numbertheory.py:258-266 | the division loop of the first phase removes the whole power of the divisor and counts it |
| `Factoring.StripLarge` | client/src/external/ecdsa/numbertheory.py:280-288 | so does the differently written loop of the second phase |
| `Factoring.StopEarly` | client/src/external/ecdsa/numbertheory.py:256-257 | leaving the first phase early loses no cofactor: what is left is 1 |
| `Factoring.CofactorIsPrime` | client/src/external/ecdsa/numbertheory.py:277-289 | a cofactor without divisors up to its square root is prime |
| `Factoring.ReliableTestGivesPrimes` | client/src/external/ecdsa/numbertheory.py:271-291 | if the primality test accepts only primes, every base is prime |
| `Orders.OrderMod` | client/src/external/ecdsa/numbertheory.py:346-362 | for every x and m: 0 for m <= 1; for m >= 2 an assertion unless x is positive or zero and coprime to m; otherwise it ends with the multiplicative order if and only if x is 1 or x is not 1 mod m, and with 2 in the remaining case |
| `Orders.OrderModUnreduced` | client/src/external/ecdsa/numbertheory.py:357-362 | x = 4, m = 3 shows the failure: the order is 1, not 2 |
| `Orders.SomePowerIsOne` | client/src/external/ecdsa/numbertheory.py:359-361 | by the pigeonhole principle some power of a coprime base is 1, so the loop ends |
| `Orders.LargestFactorRelativelyPrime` | client/src/external/ecdsa/numbertheory.py:365-378 | for every a and b for which it ends: a positive a gives a divisor of a coprime to b that every such divisor divides, any other a is returned as it is |
| `Orders.DivideOutAll` | client/src/external/ecdsa/numbertheory.py:373-377 | the inner loop removes every power of d and keeps all divisors coprime to d |
| `Reciprocity.SymbolMultiplicative` | client/src/external/ecdsa/numbertheory.py:139-142 | the sign that the loop over factors 2 maintains is multiplicative, by folding the multiples of a onto 1..n/2 |
| `Reciprocity.SymbolOfTwo` | client/src/external/ecdsa/numbertheory.py:141-142 | the value at 2 depends on n mod 8 as the code says |
| `Reciprocity.SymbolReciprocity` | client/src/external/ecdsa/numbertheory.py:144-145 | the swap of the recursive call is quadratic reciprocity, for any two odd numbers from 3 on, proved by counting lattice points |
| `Jacobi.Jacobi` | client/src/external/ecdsa/numbertheory.py:124-145 | for every integer a and odd n >= 3 the loop and the recursion end with the quadratic symbol of a modulo n; its meaning is stated by the next rows |
| `Jacobi.SymbolValues` | client/src/external/ecdsa/numbertheory.py:124-145 | the answer is -1, 0 or 1, and 0 exactly when a and n have a common factor |
| `Jacobi.LegendreSymbol` | client/src/external/ecdsa/numbertheory.py:163-164 | modulo an odd prime the answer is 1 for squares, -1 for non-squares and 0 for multiples |
| `Jacobi.SymbolIsPower` | client/src/external/ecdsa/numbertheory.py:163-173 | Euler's criterion: modulo an odd prime p the answer is a^((p-1)/2), for every integer a |
| `Jacobi.JacobiSymbol` | client/src/external/ecdsa/numbertheory.py:124-145 | for a product of odd primes the answer is the product of their Legendre symbols, the definition of the Jacobi symbol |
| `Jacobi.OddPrimeFactors` | client/src/external/ecdsa/numbertheory.py:133-134 | every modulus that the assertions admit is such a product |
| `Polynomials.PolynomialReduceMod` | client/src/external/ecdsa/numbertheory.py:47-67 | fewer coefficients than the monic modulus are left, and the result differs from the input by a multiple of the modulus, mod p |
| `Polynomials.PolynomialMultiplyMod` | client/src/external/ecdsa/numbertheory.py:71-92 | the result is the reduced representative of the product of the two polynomials |
| `Polynomials.PolynomialExpMod` | client/src/external/ecdsa/numbertheory.py:95-120 | square and multiply gives a representative of base^exponent, for every exponent below p |
| `Polynomials.SquareAndMultiply` | client/src/external/ecdsa/numbertheory.py:115-118 | one step keeps: the square run holds base^i, the accumulated product base^t, and t + i*(k - k%2) is the exponent |
| `Polynomials.ReducedUnique` | client/src/external/ecdsa/numbertheory.py:47-67 | two reduced polynomials in the same class have the same coefficients mod p |
| `Frobenius.ConjugateX` | client/src/external/ecdsa/numbertheory.py:177-178 | when b^2-4a is not a square mod p, x^p is the other root b - x modulo x^2 - bx + a |
| `Frobenius.NormOfX` | client/src/external/ecdsa/numbertheory.py:177-180 | hence x^(p+1) is a there: the fact behind the last branch of the square root |
| `SquareRoot.SquareRootModPrime` | client/src/external/ecdsa/numbertheory.py:149-181 | for every prime p and 0 <= a < p: a square gets a root in [0, p), a non-square gets SquareRootError, and neither RuntimeError nor the assertion on ff[1] is ever reached |
| `SquareRoot.RootFiveModEight` | client/src/external/ecdsa/numbertheory.py:169-173 | the branch p % 8 == 5 returns a root in both of its cases, which are the only ones |
| `SquareRoot.RootOneModEight` | client/src/external/ecdsa/numbertheory.py:175-181 | the search for b succeeds and ff[0] is a root |
| `SquareRoot.SomeShiftNotSquare` | client/src/external/ecdsa/numbertheory.py:175-176 | some b from 2 to p-1 makes b^2-4a a non-square |
| `SquareRoot.PowerIsRoot` | client/src/external/ecdsa/numbertheory.py:177-180 | the reduced (p+1)/2-th power of x is a constant that squares to a |
| `Curve.ThirdPointOnCurve` | client/src/external/ecdsa/ellipticcurve.py:104-107 | the chord and tangent formulas end on the curve whenever the line meets it where the slope says |
| `Curve.AddClosed` | client/src/external/ecdsa/ellipticcurve.py:85-107 | adding two points with reduced abscissas never raises and gives such a point or infinity: the assertion of the constructor does not fire |
| `Curve.DoubleClosed` | client/src/external/ecdsa/ellipticcurve.py:149-166 | doubling an affine point succeeds if and only if 2y is not 0 mod p, and then stays on the curve; otherwise the assertion of inverse_mod fires |
| `Curve.SumOnLine` | client/src/external/ecdsa/ellipticcurve.py:85-107 | the chord-and-tangent rule: for points that are not opposite there is a slope such that the line through P with it contains Q and the opposite of the sum R, and meets the curve exactly at the abscissas of P, Q and R, counted as roots |
| `Curve.SumIsInfinity` | client/src/external/ecdsa/ellipticcurve.py:87-97 | infinity is neutral and is the sum exactly of opposite points; points of different curves raise an assertion |
| `Curve.PlusCommutes` | client/src/external/ecdsa/ellipticcurve.py:85-107 | on canonical points, addition as the code computes it is commutative |
| `Curve.PlusNegate` | client/src/external/ecdsa/ellipticcurve.py:93-95 | a point and its negative add up to infinity |
| `Curve.AddIsPlus` | client/src/external/ecdsa/ellipticcurve.py:85-107 | addition respects the residues of the ordinates, which the code leaves unreduced in negative_self |
| `Curve.DoubleIsPlus` | client/src/external/ecdsa/ellipticcurve.py:149-166 | doubling agrees with adding a point to itself |
| `ScalarMul.LeftmostBit` | client/src/external/ecdsa/ellipticcurve.py:112-116 | the result is the power of two with r <= x < 2r |
| `ScalarMul.PrefixStep` | client/src/external/ecdsa/ellipticcurve.py:131-136 | how the difference of the leading bits of 3e and of e changes from one bit to the next |
| `ScalarMul.DigitStep` | client/src/external/ecdsa/ellipticcurve.py:132-136 | one pass of the loop turns (prefix of 3e - prefix of e)*P at bit i into the same at the next bit |
| `ScalarMul.Multiply` | client/src/external/ecdsa/ellipticcurve.py:109-138 | for every point and integer: infinity for infinity or a factor that reduces to 0, an assertion for a negative factor or one whose run doubles a point of order two, and otherwise exactly the e-fold sum of the point, with e reduced by the recorded order |
| `ScalarMul.FactorMeaning` | client/src/external/ecdsa/ellipticcurve.py:118-119 | the factor that is used is the residue modulo the order that the point records, and the given one where it records none |
| `ScalarMul.OddOrderNeverStuck` | client/src/external/ecdsa/ellipticcurve.py:131-138 | a point of odd order is never stuck, for any factor |
| `ScalarMul.PrimeOrderNeverStuck` | client/src/external/ecdsa/ellipticcurve.py:131-138 | nor is a point of prime order for a factor below the order |
| `ScalarMul.StuckExactly` | client/src/external/ecdsa/ellipticcurve.py:131-138 | for a point of least order N the product raises if and only if N is even and some prefix 3e/2i - e/2i that the loop doubles is N/2 modulo N |
| `SmallCurves.StuckExample` | client/src/external/ecdsa/ellipticcurve.py:131-138 | 3*(1,2) on y^2 = x^3 + x + 2 mod 5 is (1,3), but the run doubles (4,0), for which double raises; the group law of this curve is proved, not assumed |
| `ScalarMul.TimesModulo` | client/src/external/ecdsa/ellipticcurve.py:119 | reducing the factor by an order changes nothing |
| `Ecdsa.Verifies` | client/src/external/ecdsa/ecdsa.py:93-111 | refines VerifyOutcome, for every point whose n-fold sum is infinity; what that answers is said by the next rows |
| `Ecdsa.Sign` | client/src/external/ecdsa/ecdsa.py:127-151 | refines Signed, for every integer nonce, secret and hash; what that returns is said by SignedExactly |
| `Ecdsa.SignedExactly` | client/src/external/ecdsa/ecdsa.py:127-151 | a pair is returned if and only if r is the abscissa of k*G and not 0, and s the residue from 1 to n-1 with s*k = hash + d*r mod n; AssertionError exactly for a nonce that is a multiple of n, else RuntimeError |
| `Ecdsa.SignedIsAccepted` | client/src/external/ecdsa/ecdsa.py:93-151 | for a prime order, any hash, secret and nonce: the signature of sign passes under the matching public key if and only if x(kG) < n, which sign does not ensure |
| `Ecdsa.AcceptedMeaning` | client/src/external/ecdsa/ecdsa.py:93-111 | for any two integers r and s: accepted if and only if both are from 1 to n-1 and some nonce explains them, with s*k = hash + d*r mod n and the abscissa of k*G equal to r mod n |
| `Ecdsa.VerificationRaises` | client/src/external/ecdsa/ecdsa.py:104-110 | False for numbers out of range; a TypeError, from infinity having no abscissa, exactly when they are in range and hash + d*r is a multiple of n |
| `Ecdsa.CanonizedAccepted` | client/src/external/ecdsa/util.py:203-216 | replacing s by n - s never changes the verdict, whatever r and s are |
| `SmallCurves.EntryIsValid` | client/src/external/ecdsa/ecdsa.py:76-90 | the hypotheses on generators and curve entries can be met: the generator (2,2) of order 7 on y^2 = x^3 + 6x + 6 mod 11, with the group law proved |
| `SmallCurves.SignatureRefused` | client/src/external/ecdsa/keys.py:103-113 | there, of two signatures that one key makes of one digest, the public key accepts one and refuses the other, whose r is 8 and not below 7 |
| `Bytes.IntToString` | client/src/external/ecdsa/ecdsa.py:155-166 | the loop and the reversal give the shortest big-endian bytes of the number |
| `Bytes.MinBytesValue` | client/src/external/ecdsa/ecdsa.py:155-175 | whose value is the number again |
| `Bytes.StringToInt` | client/src/external/ecdsa/ecdsa.py:169-175 | the loop gives the big-endian value |
| `Bytes.OrderLenIsLength` | client/src/external/ecdsa/curves.py:8-9 | the length from hexadecimal digits is the number of bytes of the order |
| `Bytes.HexDigitsMeaning` | client/src/external/ecdsa/curves.py:8-9 | the number of hexadecimal digits is at most k exactly below 16^k |
| `Bytes.NumberToStringMeaning` | client/src/external/ecdsa/util.py:161-180 | number_to_string succeeds exactly for numbers that fit the width, yields that width, and both readers give the number back; otherwise ValueError for a negative number or an odd number of digits, else an assertion |
| `Bytes.BelowOrderFits` | client/src/external/ecdsa/util.py:161-166 | numbers below the order always fit |
| `Bytes.StringToNumberInverse` | client/src/external/ecdsa/util.py:161-180 | bytes of the right width are the encoding of their value |
| `Bytes.CropMeaning` | client/src/external/ecdsa/util.py:168-172 | the cropping variant agrees with number_to_string on numbers that fit; of longer ones it keeps the first bytes, and it raises ValueError exactly for negative numbers and for longer ones with an odd number of digits |
| `Bytes.SigStringRoundTrip` | client/src/external/ecdsa/util.py:186-224 | decoding undoes encoding of a fixed-width signature |
| `Bytes.SigStringInverse` | client/src/external/ecdsa/util.py:186-224 | encoding undoes decoding: there is one encoding per pair |
| `Bytes.SigStringLayout` | client/src/external/ecdsa/util.py:186-195 | a string is the encoding of r and s exactly when its first half has the value r and its second half the value s, each in the width of the order |
| `Bytes.Bits2IntBound` | client/src/external/ecdsa/rfc6979.py:36-42 | the result of any non-empty data is below 2^qlen |
| `Bytes.Bits2IntMeaning` | client/src/external/ecdsa/rfc6979.py:36-42 | of data with at least qlen bits the leftmost qlen are read: value = result * 2^(bits - qlen) + t with t below 2^(bits - qlen) |
| `Bytes.Bits2IntUnique` | client/src/external/ecdsa/rfc6979.py:36-42 | no other number can be split off so |
| `Bytes.Bits2IntPrefix` | client/src/external/ecdsa/rfc6979.py:36-42 | bytes appended behind the first qlen bits do not matter |
| `Bytes.Bits2IntShort` | client/src/external/ecdsa/rfc6979.py:40-42 | shorter data is read as it is |
| `Bytes.Bits2OctetsMeaning` | client/src/external/ecdsa/rfc6979.py:44-51 | section 2.3.4 of RFC 6979, said of the digest itself: if it is z followed by bits beyond those of the order, or is z and not longer, the result has the width of the order and the value z modulo the order |
| `Der.LengthRoundTrip` | client/src/external/ecdsa/der.py:124-145 | a length is read back, with its size, before any rest if and only if it is below 256^127 |
| `Der.EncodeLengthMeaning` | client/src/external/ecdsa/der.py:124-132 | the encoding is the length itself below 0x80, else 0x80 plus the number of bytes and these without leading zeros |
| `Der.RemoveTaggedMeaning` | client/src/external/ecdsa/der.py:62-77 | a body and a rest come out if and only if the string is a header with that tag and some length, then the body, then the rest, where only at the end of the string the body may be shorter than announced |
| `Der.RemoveTaggedFails` | client/src/external/ecdsa/der.py:62-77 | the errors: IndexError without a tag or a length byte, UnexpectedDER for another tag or a length cut off, ValueError for a long form of no bytes |
| `Der.TaggedRoundTrip` | client/src/external/ecdsa/der.py:27-30 | octet strings, bit strings and sequences give back their body and the exact rest |
| `Der.ConstructedRoundTrip` | client/src/external/ecdsa/der.py:10-60 | a constructed element comes back if and only if its tag is below 32 |
| `Der.IntegerRoundTripExact` | client/src/external/ecdsa/der.py:12-107 | an integer comes back with every rest if and only if it is below 2^1015, because its length is written in one byte |
| `Der.EncodeIntegerMeaning` | client/src/external/ecdsa/der.py:12-25 | the encoding is 2, the number of content bytes, and the shortest big-endian content that starts below 0x80; a negative number raises an assertion |
| `Der.RemoveIntegerMeaning` | client/src/external/ecdsa/der.py:98-107 | any content that starts below 0x80 is read, also with leading zeros; an empty one raises IndexError and one that stands for a negative number an assertion |
| `Der.LargeIntegerLost` | client/src/external/ecdsa/der.py:20-25 | at and above 2^1015 the encoding is never read back as the integer |
| `Der.EncodeNumber` | client/src/external/ecdsa/der.py:41-49 | the loop over digits gives the base-128 bytes with the high bit on all but the last |
| `Der.ReadNumber` | client/src/external/ecdsa/der.py:109-122 | the loop reads them back or fails as the text runs out |
| `Der.NumberRoundTrip` | client/src/external/ecdsa/der.py:41-122 | every number is read back before any rest, with its size |
| `Der.ReadNumberMeaning` | client/src/external/ecdsa/der.py:109-122 | what is read is the value in base 128 of the bytes up to the first without the continuation bit; IndexError when there is none |
| `Der.NumberBytesMeaning` | client/src/external/ecdsa/der.py:41-49 | what is written is the one such string for the number that has no leading zero digit |
| `Der.RemoveObject` | client/src/external/ecdsa/der.py:79-96 | the loop over the body and the split of the first number, with its error cases |
| `Der.ObjectMeaning` | client/src/external/ecdsa/der.py:79-96 | of any encoded numbers, the first n is split into two with 40*a + b = n and b below 40, the others and the rest come out unchanged |
| `Der.OidRoundTrip` | client/src/external/ecdsa/der.py:31-96 | an object identifier comes back number by number, with the exact rest |
| `Der.SigDerRoundTrip` | client/src/external/ecdsa/util.py:197-246 | DER signatures of numbers below 2^1015 decode to what was encoded |
| `Der.SigDerJunk` | client/src/external/ecdsa/util.py:235-246 | bytes behind the second number, or behind the sequence, are refused |
| `Der.TestedLengths` | client/src/external/ecdsa/test_pyecdsa.py:457-464 | the encodings of lengths that the tests list |
| `Der.TestedIntegers` | client/src/external/ecdsa/test_pyecdsa.py:427-431 | the encodings of integers that the tests list |
| `Der.TestedNumbers` | client/src/external/ecdsa/test_pyecdsa.py:444-447 | the base-128 encodings that the tests list |
| `Der.TestedOid` | client/src/external/ecdsa/test_pyecdsa.py:416-417 | the bytes of the identifier of elliptic curve keys |
| `Der.TestedTags` | client/src/external/ecdsa/der.py:10-40 | the first bytes of a sequence, an octet string, a bit string, an object identifier and a constructed element |
| `Keys.EcPublicKeyBytes` | client/src/external/ecdsa/util.py:16-17 | the identifier that keys carry is that of elliptic curve keys, with these bytes |
| `Keys.FindCurveInTable` | client/src/external/ecdsa/curves.py:40-46 | every entry is found by its identifier |
| `Keys.FindCurveMeaning` | client/src/external/ecdsa/curves.py:40-46 | what is found is an entry with that identifier, and UnknownCurveError means that there is none |
| `Keys.NewPublicKey` | client/src/external/ecdsa/ecdsa.py:76-90 | the constructor accepts a point, whatever order it records, exactly when its coordinates are in range and n*P, computed modulo the recorded order, is infinity; when it raises which error |
| `Keys.OrderCheckMeaning` | client/src/external/ecdsa/ecdsa.py:83-90 | of a point that records no order the check asks exactly that the order of the curve takes it to infinity and is above 2; a point that records that order always passes |
| `Keys.PointIsValid` | client/src/external/ecdsa/ecdsa.py:190-204 | true exactly for coordinates in range of a point of the curve whose n-fold sum is infinity, an assertion exactly when that sum gets stuck, false otherwise |
| `Keys.KeyPointMeaning` | client/src/external/ecdsa/ecdsa.py:190-204 | in terms of the group alone: accepted are the points in range that the order takes to infinity, which are the points a verifier may be given, if the order is odd, and none for order two |
| `Keys.VerifyingKeyFromString` | client/src/external/ecdsa/keys.py:32-48 | refines PointFromString for every byte string; what that answers is said by the next row |
| `Keys.PointFromStringMeaning` | client/src/external/ecdsa/keys.py:32-48 | which point is read, and which error is raised for a wrong length, for coordinates off the curve and for coordinates out of range, with and without validation |
| `Keys.ValidationIsOrderCheck` | client/src/external/ecdsa/keys.py:44-48 | what validation adds is exactly the check that the n-fold sum of the point is infinity |
| `Keys.PointRoundTrip` | client/src/external/ecdsa/keys.py:77-84 | from_string undoes to_string for every valid key, and without validation for every point of the curve in range |
| `Keys.PointStringInverse` | client/src/external/ecdsa/keys.py:32-84 | to_string undoes from_string |
| `Keys.VerifyingKeyRoundTrip` | client/src/external/ecdsa/keys.py:54-96 | from_der undoes to_der: the same curve, found by its identifier, and the same point |
| `Keys.VerifyingKeyFromParts` | client/src/external/ecdsa/keys.py:54-75 | from_der on any algorithm, curve identifier, bit string and trailing bytes: which error each defect raises, in the order of the checks, and otherwise the key of the point in the bit string |
| `Keys.SigningKeyFromSecret` | client/src/external/ecdsa/keys.py:131-145 | refines FromSecret for every integer; what that answers is said by the next row |
| `Keys.FromSecretMeaning` | client/src/external/ecdsa/keys.py:131-145 | AssertionError unless 1 <= d < n; else a key with secret d and the coordinates of d*G if both are below n, and RuntimeError if not |
| `Keys.SecretStringInverse` | client/src/external/ecdsa/keys.py:147-203 | a string is read as the key of d exactly when it is what to_string writes for it |
| `Keys.SigningKeyPoint` | client/src/external/ecdsa/keys.py:138-144 | the public point of every signing key is in range, and point_is_valid accepts it if and only if the order is above 2 |
| `Keys.SigningKeyRoundTrip` | client/src/external/ecdsa/keys.py:161-217 | from_der undoes to_der for every signing key: secret, curve and public point; what from_der does not look at is in the next row |
| `Keys.SigningKeyLayout` | client/src/external/ecdsa/keys.py:212-217 | the encoding taken apart: the integer 1, the secret in the width of the order, the curve under tag 0, and under tag 1, as the last part, a bit string of 00 04 and the two coordinates of the public point |
| `Keys.SigningKeyFromParts` | client/src/external/ecdsa/keys.py:161-202 | from_der on any version, secret, tag, identifier and trailing bytes: which error each defect raises, and that a short secret is padded; the part after the curve is ignored |
| `Keys.SignThenVerify` | client/src/external/ecdsa/keys.py:103-113 | end to end, through digest conversion and either signature encoding: what sign_digest returns passes verify_digest under the matching key if and only if the abscissa of nonce*G is below the order, and is otherwise reported as a bad signature |
| `Keys.VerifyDigestMeaning` | client/src/external/ecdsa/keys.py:103-113 | any bytes as signature under d*G: BadDigestError for a digest longer than the order, the decoder's error, True exactly for decoded numbers in range that some nonce explains, TypeError exactly when they are in range and digest + d*r is a multiple of n, BadSignatureError otherwise, in particular out of range |
| `Keys.SignDigestMeaning` | client/src/external/ecdsa/keys.py:257-283 | what sign_digest returns: the encoding of the abscissa of nonce*G and of the one s with s*nonce = digest + secret*r mod n |
| `Keys.SignDigestFails` | client/src/external/ecdsa/keys.py:257-283 | and which error it raises for a digest too long or empty, a nonce out of range, and r or s equal to 0 |
| `IntRanges.SortedMeaning` | client/src/external/idna/intranges.py:18 | what is sorted is an ascending permutation |
| `IntRanges.IntrangesFromList` | client/src/external/idna/intranges.py:10-29 | for every list of integers the loop with last_write yields the words of the runs of the sorted list |
| `IntRanges.RunsCover` | client/src/external/idna/intranges.py:18-29 | every number is covered by exactly as many runs as it occurs in the list |
| `IntRanges.RangesAreMaximalRuns` | client/src/external/idna/intranges.py:10-29 | for a list without repetitions the ranges are exactly its maximal runs |
| `IntRanges.EncodeMeaning` | client/src/external/idna/intranges.py:31-35 | decoding undoes encoding for ends from 0 to below 2^32 and any start; an end of 2^32 is folded into the start |
| `IntRanges.OrBits` | client/src/external/idna/intranges.py:31-32 | the or in the encoding is the bitwise one, of negative numbers too |
| `IntRanges.BisectSeparates` | client/src/external/idna/intranges.py:41 | in an ordered list the bisection separates the smaller words from the others |
| `IntRanges.IntrangesContain` | client/src/external/idna/intranges.py:38-53 | looks at the two words around the bisection point |
| `IntRanges.IndexAgrees` | client/src/external/idna/intranges.py:38-53 | for every list of 32-bit numbers that does not overflow, in particular every list below 2^32 - 1, and every query: found if and only if in the list |
| `IntRanges.IndexAgreesExactly` | client/src/external/idna/intranges.py:10-53 | for lists of 32-bit numbers, repeated or not, index and list agree on all queries if and only if not both 2^32 - 1 occurs and 2^32 - 2 occurs exactly once |
| `IntRanges.OverflowLosesMember` | client/src/external/idna/intranges.py:26-32 | in that case the index denies the member 2^32 - 2 |
| `Bidi.CheckBidi` | client/src/external/idna/core.py:63-121 | True exactly when all categories are known and, if there is an R, AL or AN character or check_ltr is set, the six conditions of section 2 of RFC 5893 hold; an empty label with check_ltr raises IndexError |
| `Bidi.MarksAtTheEnd` | client/src/external/idna/core.py:96-116 | trailing nonspacing marks never change the verdict |
| `Bidi.RightToLeftLabels` | client/src/external/idna/core.py:78-107 | a passing label with right-to-left characters starts with R or AL and has no L |
| `StateMachines.CodingStateMachine.NextState` | client/src/external/chardet/codingstatemachine.py:66-78 | the new state and length by the tables, and the position within the character |
| `StateMachines.ResetReadsLikeNew` | client/src/external/chardet/codingstatemachine.py:63-64 | a reset machine reads like a new one although reset keeps the old length |
| `StateMachines.FinalStatesStay` | client/src/external/chardet/mbcssm.py:540-543 | the error and the its-me state are never left |
| `StateMachines.CharacterLength` | client/src/external/chardet/codingstatemachine.py:66-81 | a machine returns to its start after exactly as many bytes as get_current_charlen says |
| `StateMachines.Utf8Counts` | client/src/external/chardet/mbcssm.py:502-572 | the UTF-8 tables have that property and sticky final states |
| `StateMachines.Big5Counts` | client/src/external/chardet/mbcssm.py:32-79 | so have the Big5 tables |
| `Utf8.UTF8Prober.FeedChunk` | client/src/external/chardet/utf8prober.py:57-74 | feeding a chunk: the new state, count and verdict as a function of the old |
| `Utf8.ChunksDoNotMatter` | client/src/external/chardet/utf8prober.py:57-74 | however a stream is cut, empty chunks included, state, count and verdict are those of one feed |
| `Utf8.RejectsExactly` | client/src/external/chardet/utf8prober.py:57-74 | a new detector rejects a stream if and only if no continuation makes it a sequence of the characters described by byte ranges |
| `Utf8.VerdictOnText` | client/src/external/chardet/utf8prober.py:57-82 | otherwise it has found UTF-8 exactly from the fifth whole multi-byte character on |
| `Utf8.LegalCharactersRejected` | client/src/external/chardet/mbcssm.py:552-555 | of the characters of RFC 3629 exactly U+000E, U+000F, U+001B and U+10000 to U+1FFFF make it give up |
| `Utf8.ConfidentExactly` | client/src/external/chardet/utf8prober.py:76-82 | the confidence passes 0.95 from five multi-byte characters on |
| `Utf8.ConfidenceValues` | client/src/external/chardet/utf8prober.py:76-82 | 0.01 without a multi-byte character, half the doubt with each of the first five, 0.99 from six on |
| `Distribution.CharDistributionAnalysis.Feed` | client/src/external/chardet/chardistribution.py:70-82 | which counters a character raises |
| `Distribution.ConfidenceRange` | client/src/external/chardet/chardistribution.py:84-98 | a confidence is above 0 and at most 0.99, and no division by zero happens |
| `Distribution.ConfidenceMeaning` | client/src/external/chardet/chardistribution.py:84-98 | 0.01 up to three frequent characters, 0.99 if there are no others, else the quotient of the frequent ones and the others times the typical ratio, up to 0.99 |
| `Distribution.ConfidentExactly` | client/src/external/chardet/chardistribution.py:84-98 | when it is above 0.95, as an inequality of the counts |
| `Distribution.ConfidenceGrows` | client/src/external/chardet/chardistribution.py:84-98 | beyond three frequent characters, more of them among as many never lower it |
| `Distribution.ConfidenceGrowsExactly` | client/src/external/chardet/chardistribution.py:84-98 | for equal totals more frequent characters never lower the confidence, except exactly when they bring it past the threshold of three while still fewer than a hundredth of the weighted others |
| `Distribution.ConfidenceFallsAtThreshold` | client/src/external/chardet/chardistribution.py:88-95 | that case occurs with the ratio of Big5: four among ten thousand against three |
| `Distribution.Big5OrderCollisions` | client/src/external/chardet/chardistribution.py:177-189 | two characters that the automaton lets through share an order exactly when they are equal or one has a second byte 0x80 to 0xA0 and the other the byte 0x22 above |
| `Distribution.Big5OrderEnumerates` | client/src/external/chardet/chardistribution.py:177-189 | within Big5 the orders count the characters from lead byte A4 on one after the other, from 0 |
| `Distribution.Big5OrderOfSymbols` | client/src/external/chardet/chardistribution.py:183-189 | and lower lead bytes have none |
| `MultiByte.MultiByteCharSetProber.FeedChunk` | client/src/external/chardet/mbcharsetprober.py:61-88 | feeding a chunk, with the byte remembered across chunks; an empty chunk raises IndexError and changes nothing |
| `MultiByte.ChunksDoNotMatter` | client/src/external/chardet/mbcharsetprober.py:61-88 | for any non-empty chunks the state, the counters, the last byte and giving up are those of one feed |
| `MultiByte.FeedConsistent` | client/src/external/chardet/mbcharsetprober.py:61-88 | a detector has given up exactly when its automaton has failed, has found its encoding when its automaton has, and never counts more frequent characters than characters |
| `MultiByte.FoundAtSomeBoundary` | client/src/external/chardet/mbcharsetprober.py:61-88 | the verdict on a stream in chunks: given up if the automaton has failed, else found if and only if the chunks up to some boundary, fed as one, would have found it |
| `MultiByte.VerdictOfOneFeed` | client/src/external/chardet/mbcharsetprober.py:83-86 | so it is the verdict of one feed exactly when one feed decides or no earlier boundary did |
| `Big5.CountsText` | client/src/external/chardet/big5prober.py:34-39 | fed a Big5 text in any chunks, the counters are the numbers of its two-byte characters with lead byte from 0xA4 on, and of those among them whose rank in the table is below 512 |
| `Big5.RejectsExactly` | client/src/external/chardet/mbcharsetprober.py:61-71 | a stream is rejected if and only if no continuation is a sequence of the described characters |
| `Big5.VerdictOnText` | client/src/external/chardet/mbcharsetprober.py:83-91 | on a text fed whole the encoding is found if and only if there are more than 1024 counted characters, more than three of them frequent, and the others, times the typical ratio and 0.95, fewer than these |
| `Big5.FoundDependsOnChunks` | client/src/external/chardet/mbcharsetprober.py:83-86 | from a new detector, with the ratio, size and first ranks of the Big5 table: a text of 1029 characters is found when a boundary precedes its last character and not when it is fed whole |
| `SingleByte.SingleByteCharSetProber.FeedChunk` | client/src/external/chardet/sbcharsetprober.py:77-122 | feeding a chunk: the new counters and verdict as a function of the old, with the counters kept consistent |
| `SingleByte.Step` | client/src/external/chardet/sbcharsetprober.py:83-105 | every byte keeps: the four counters add up to the pairs, which are fewer than the frequent letters, which are letters |
| `SingleByte.ScanMeaning` | client/src/external/chardet/sbcharsetprober.py:83-105 | from reset counter k is the number of places i where the orders o[i] and o[i+1] are below 64 and cell 64*o[i] + o[i+1] of the table, or 64*o[i+1] + o[i] for a reversed detector, is k; the others count the orders below 64 and below 251 |
| `SingleByte.FeedMeaning` | client/src/external/chardet/sbcharsetprober.py:77-122 | a chunk counts as it is when English letters are kept and filtered otherwise; with more than 1024 pairs the encoding is found above 0.95 of the typical score and ruled out below 0.05 of it |
| `SingleByte.ChunksDoNotMatter` | client/src/external/chardet/sbcharsetprober.py:77-105 | the counters depend only on the filtered bytes, not on the chunks or on verdicts between them |
| `SingleByte.ReversedCounts` | client/src/external/chardet/hebrewprober.py:106-112 | a reversed detector on the reversed text has the same counters as a forward detector on the text |
| `SingleByte.ReversedSimulates` | client/src/external/chardet/hebrewprober.py:106-112 | so it reaches the same confidence and verdict when the filter leaves the text alone |
| `SingleByte.ConfidenceRange` | client/src/external/chardet/sbcharsetprober.py:124-132 | a confidence is at least 0 and below 1, and no division by zero happens |
| `SingleByte.ConfidenceMeaning` | client/src/external/chardet/sbcharsetprober.py:124-132 | 0.01 without pairs, else well-rated pairs times frequent letters over pairs times typical ratio times letters, with 0.99 in place of 1 and above |

## Left out

- Associativity of the group law on the curve: a hypothesis, see above.
- The supplied curve constants and test vectors, and the entries of `smallprimes`: symbolic, with the hypotheses above.
- The number of bits from which the number of Miller-Rabin rounds is chosen, a floating-point logarithm in the source: it is a parameter, and the test is proved for any number of rounds up to 40.
- Composite numbers that pass Miller-Rabin: the test is not exact there and is not claimed to be.
- Orders.LargestFactorRelativelyPrime: not stated for a = 0 with b > 1, where the source does not end.
- Polynomials.PolynomialReduceMod: works on values; the source also overwrites coefficients of its caller's list until the first one is dropped.
- `phi` and `carmichael`, whose meaning rests on the Chinese remainder theorem and on primitive roots, which nothing
  else here needs, and the least common multiples.
- Identity of curve objects: two curves with the same parameters are the same curve here, two objects in the source.
- Keys.SigningKeyFromSecret: hash functions and names of curves are not part of a key here.
- PEM files, base64, `randrange` and the other generators, hashing, and the HMAC loop of `generate_k`; a nonce is a parameter.
- The comparison `s > order / 2` of the canonizing encoders, a floating-point one in Python 3: both choices are shown to be accepted alike.
- IntRanges.IndexAgreesExactly: for elements from 0 to below 2^32, which the words can hold; the functions are modelled on all integers, but their agreement is not characterised there.
- The Unicode database behind the categories of `check_bidi`, and the rest of `idna/core.py`.
- Texts of error messages and logging.
- The 256-entry tables of the automata are given by lookup functions, constant on long stretches; the frequency tables and language models are arbitrary.
- The filter of international words is an arbitrary function on chunks, so chunk independence of the single-byte detectors is stated after filtering.
- MultiByte.ChunksDoNotMatter: leaves out the verdict that the encoding was found, which `MultiByte.FoundAtSomeBoundary` states instead, and the position within an abandoned character.
- The other multi-byte automata and orders, the context analysis of Japanese, the scores of `hebrewprober.py`, group and escape detectors.
- Probabilities are real numbers, not rounded ones.
