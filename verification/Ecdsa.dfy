/** ECDSA signatures over a generator of prime order (`ecdsa.py`). */
module Ecdsa {
  import opened Wrappers
  import opened Integers
  import opened Powers
  import opened Primes
  import opened Curve
  import opened ScalarMul
  import E = Euclid

  datatype Signature = Signature(r: int, s: int)

  /** A generator: an affine point whose recorded order is prime and is its order in the group. */
  ghost predicate Generator(G: Point, c: CurveFp) {
    && Group(c) && G.Affine? && IsPoint(G, c) && Element(Canon(G), c)
    && IsPrime(G.order) && Times(G.order, Canon(G), c) == Infinity
  }

  /** A point that a verifier may be given: the order of the generator times it is infinity, and no
      other order is recorded. */
  ghost predicate OrderedPoint(Q: Point, G: Point, c: CurveFp)
    requires Generator(G, c)
  {
    && IsPoint(Q, c) && Element(Canon(Q), c) && Times(G.order, Canon(Q), c) == Infinity
    && (Q.Affine? ==> Q.order == 0 || Q.order == G.order)
  }

  /** Such a point that stands for d*G. */
  ghost predicate PublicPoint(Q: Point, d: nat, G: Point, c: CurveFp)
    requires Generator(G, c)
  {
    OrderedPoint(Q, G, c) && Canon(Q) == Times(d, Canon(G), c)
  }

  // --- multiples of the generator ---

  /** The multiples below the order are not infinity. */
  lemma GeneratorMultiple(m: nat, G: Point, c: CurveFp)
    requires Generator(G, c) && 0 < m < G.order
    ensures Times(m, Canon(G), c) != Infinity
  {
    hide Plus, Add, Double, Associative;
    var n, g := G.order, Canon(G);
    if Times(m, g, c) == Infinity {
      NotDividesSmall(n, m);
      PrimeCoprime(n, m);
      ModSmall(m, n);
      E.InverseExists(m, n);
      var v :| E.IsInverse(v, m, n);
      TimesTimes(v, m, g, c);
      TimesInfinity(v, c);
      assert v * m == m * v;
      TimesModulo(m * v, n, g, c);
      TimesOne(g, c);
    }
  }

  /** Every multiple of the generator is such a point. */
  lemma MultipleIsPublic(Q: Point, d: nat, G: Point, c: CurveFp)
    requires Generator(G, c) && IsPoint(Q, c) && Element(Canon(Q), c) && Canon(Q) == Times(d, Canon(G), c)
    requires Q.Affine? ==> Q.order == 0 || Q.order == G.order
    ensures PublicPoint(Q, d, G, c)
  {
    hide Plus, Add, Double, Associative;
    var n, g := G.order, Canon(G);
    TimesTimes(n, d, g, c);
    TimesTimes(d, n, g, c);
    assert n * d == d * n;
    TimesInfinity(d, c);
  }

  lemma MultipleOfPublicPoint(u: nat, Q: Point, d: nat, G: Point, c: CurveFp)
    requires Generator(G, c) && PublicPoint(Q, d, G, c)
    ensures u * d >= 0 && Times(u, Canon(Q), c) == Times(u * d, Canon(G), c)
  {
    hide Plus, Add, Double, Associative;
    TimesTimes(u, d, Canon(G), c);
  }

  /** Multiplying such a point by a factor below the order always succeeds. */
  method MultiplyByResidue(Q: Point, u: nat, ghost G: Point, ghost c: CurveFp) returns (R: Point)
    requires Generator(G, c) && OrderedPoint(Q, G, c) && u < G.order
    ensures IsPoint(R, c) && Element(Canon(R), c) && Canon(R) == Times(u, Canon(Q), c)
  {
    hide Plus, Add, Double, Associative, Stuck;
    PrimeOrderNeverStuck(u, Q, G.order, c);
    ModSmall(u, G.order);
    CanonIsElement(Q, c);
    var r := Multiply(Q, u, c);
    R := r.value;
    CanonIsElement(R, c);
  }

  lemma GeneratorIsPublic(G: Point, c: CurveFp)
    requires Generator(G, c)
    ensures PublicPoint(G, 1, G, c)
  {
    hide Plus, Add, Double, Associative;
    TimesOne(Canon(G), c);
  }

  // --- verification ---

  /** The linear combination u1*G + u2*Q that a verifier computes. */
  ghost function Combination(hash: int, sig: Signature, Q: Point, G: Point, c: CurveFp): (T: Point)
    requires Generator(G, c) && OrderedPoint(Q, G, c) && 1 <= sig.s < G.order
    ensures Element(T, c)
  {
    var n := G.order;
    ResidueInverse(sig.s, n);
    var w := E.Inverse(sig.s, n).value;
    DivMod(hash * w, n);
    DivMod(sig.r * w, n);
    Plus(Times((hash * w) % n, Canon(G), c), Times((sig.r * w) % n, Canon(Q), c), c)
  }

  lemma ResidueInverse(s: int, n: int)
    requires IsPrime(n) && 1 <= s < n
    ensures E.Inverse(s, n).Ok?
  {
    NotDividesSmall(n, s);
    PrimeCoprime(n, s);
    ModSmall(s, n);
  }

  /** What a verifier answers: when the combination is infinity it has no abscissa to reduce. */
  ghost function VerifyOutcome(hash: int, sig: Signature, Q: Point, G: Point, c: CurveFp): Result<bool>
    requires Generator(G, c) && OrderedPoint(Q, G, c)
  {
    if !(1 <= sig.r < G.order && 1 <= sig.s < G.order) then Ok(false)
    else
      var T := Combination(hash, sig, Q, G, c);
      if T.Infinity? then Err(TypeError) else Ok(T.x % G.order == sig.r)
  }

  /** `Public_key.verifies`. */
  method Verifies(Q: Point, G: Point, hash: int, sig: Signature, ghost c: CurveFp) returns (r: Result<bool>)
    requires Generator(G, c) && OrderedPoint(Q, G, c)
    ensures r == VerifyOutcome(hash, sig, Q, G, c)
  {
    hide Plus, Add, Double, Associative;
    var n := G.order;
    if sig.r < 1 || sig.r > n - 1 {
      return Ok(false);
    }
    if sig.s < 1 || sig.s > n - 1 {
      return Ok(false);
    }
    ResidueInverse(sig.s, n);
    var inverse := E.InverseMod(sig.s, n);
    var w := inverse.value;
    var u1, u2 := (hash * w) % n, (sig.r * w) % n;
    DivMod(hash * w, n);
    DivMod(sig.r * w, n);
    GeneratorIsPublic(G, c);
    var A := MultiplyByResidue(G, u1, G, c);
    var B := MultiplyByResidue(Q, u2, G, c);
    AddIsPlus(A, B, c);
    var xy := Add(A, B).value;
    if xy.Infinity? {
      return Err(TypeError);
    }
    return Ok(xy.x % n == sig.r);
  }

  // --- signing ---

  /** What `Private_key.sign` computes. */
  ghost function Signed(hash: int, d: int, randomK: int, G: Point, c: CurveFp): Result<Signature>
    requires Generator(G, c)
  {
    var n := G.order;
    var k := randomK % n;
    DivMod(randomK, n);
    if k == 0 then Err(AssertionError)
    else
      GeneratorMultiple(k, G, c);
      ResidueInverse(k, n);
      var r := Times(k, Canon(G), c).x;
      if r == 0 then Err(RuntimeError)
      else
        var s := (E.Inverse(k, n).value * (hash + (d * r) % n)) % n;
        if s == 0 then Err(RuntimeError) else Ok(Signature(r, s))
  }

  method Sign(G: Point, d: int, hash: int, randomK: int, ghost c: CurveFp) returns (sig: Result<Signature>)
    requires Generator(G, c)
    ensures sig == Signed(hash, d, randomK, G, c)
  {
    hide Plus, Add, Double, Associative;
    var n := G.order;
    var k := randomK % n;
    DivMod(randomK, n);
    GeneratorIsPublic(G, c);
    var p1 := MultiplyByResidue(G, k, G, c);
    if p1.Affine? && p1.x == 0 {
      if k > 0 { GeneratorMultiple(k, G, c); }
      return Err(RuntimeError);
    }
    if k > 0 {
      GeneratorMultiple(k, G, c);
      ResidueInverse(k, n);
    } else {
      ZeroNotInvertible(n);
    }
    var inverse :- E.InverseMod(k, n);
    var s := (inverse * (hash + (d * p1.x) % n)) % n;
    if s == 0 {
      return Err(RuntimeError);
    }
    return Ok(Signature(p1.x, s));
  }

  lemma ZeroNotInvertible(n: int)
    requires n >= 2
    ensures E.Inverse(0, n) == Err(AssertionError)
  {
    assert E.Gcd(0, n) == n;
    ModSmall(0, n);
  }

  // --- what verification accepts ---

  /** With the public point d*G, the combination is a single multiple of the generator. */
  lemma CombinationIsMultiple(hash: int, sig: Signature, Q: Point, d: nat, G: Point, c: CurveFp, k: nat)
    requires Generator(G, c) && PublicPoint(Q, d, G, c) && 1 <= sig.s < G.order && k < G.order
    requires (sig.s * k) % G.order == (hash + d * sig.r) % G.order
    ensures Combination(hash, sig, Q, G, c) == Times(k, Canon(G), c)
  {
    hide Plus, Add, Double, Associative;
    var n, g := G.order, Canon(G);
    ResidueInverse(sig.s, n);
    var w := E.Inverse(sig.s, n).value;
    var u1, u2 := (hash * w) % n, (sig.r * w) % n;
    DivMod(hash * w, n);
    DivMod(sig.r * w, n);
    MultipleOfPublicPoint(u2, Q, d, G, c);
    TimesAdd(u1, u2 * d, g, c);
    FactorsAddUp(hash, sig.r, sig.s, w, d, k, n);
    TimesModulo(u1 + u2 * d, n, g, c);
  }

  lemma FactorsAddUp(hash: int, r: int, s: int, w: int, d: int, k: int, n: int)
    requires n >= 2 && (s * w) % n == 1 && 0 <= k < n && (s * k) % n == (hash + d * r) % n
    ensures ((hash * w) % n + ((r * w) % n) * d) % n == k
  {
    var t := hash + d * r;
    ModMod(hash * w, n);
    ModMul(r * w, d, n);
    CongAdd((hash * w) % n, hash * w, ((r * w) % n) * d, (r * w) * d, n);
    CollectFactor(hash, r, w, d);
    CongMul(w, w, t, s * k, n);
    Reassociate(w, s, k);
    ModSmall(1, n);
    CongMul(s * w, 1, k, k, n);
    ModSmall(k, n);
  }

  lemma CollectFactor(h: int, r: int, w: int, d: int)
    ensures h * w + (r * w) * d == w * (h + d * r)
  {
    assert (r * w) * d == w * (d * r);
    Distribute(h, d * r, w);
  }

  lemma Reassociate(w: int, s: int, k: int)
    ensures w * (s * k) == (s * w) * k
  {}

  /** The nonce that a signature pins down. */
  lemma ImpliedNonce(hash: int, sig: Signature, d: int, n: int) returns (k: nat)
    requires IsPrime(n) && 1 <= sig.s < n
    ensures k < n && (sig.s * k) % n == (hash + d * sig.r) % n
  {
    ResidueInverse(sig.s, n);
    var w := E.Inverse(sig.s, n).value;
    var t := hash + d * sig.r;
    k := (w * t) % n;
    DivMod(w * t, n);
    ModMul(sig.s, w * t, n);
    MulAssoc(sig.s, w, t);
    ModSmall(1, n);
    CongMul(sig.s * w, 1, t, t, n);
  }

  /** A nonce that explains a signature: signing with it gives s, and its multiple of G gives r. */
  ghost predicate Explains(k: nat, hash: int, sig: Signature, d: int, G: Point, c: CurveFp)
    requires Generator(G, c)
  {
    && 1 <= k < G.order && (sig.s * k) % G.order == (hash + d * sig.r) % G.order
    && Times(k, Canon(G), c).Affine? && Times(k, Canon(G), c).x % G.order == sig.r
  }

  ghost predicate Accepted(hash: int, sig: Signature, Q: Point, G: Point, c: CurveFp)
    requires Generator(G, c) && OrderedPoint(Q, G, c)
  {
    VerifyOutcome(hash, sig, Q, G, c) == Ok(true)
  }

  lemma AcceptedInRange(hash: int, sig: Signature, Q: Point, d: nat, G: Point, c: CurveFp)
    requires Generator(G, c) && PublicPoint(Q, d, G, c)
    requires 1 <= sig.r < G.order && 1 <= sig.s < G.order
    ensures Accepted(hash, sig, Q, G, c) <==> exists k :: Explains(k, hash, sig, d, G, c)
  {
    hide Plus, Add, Double, Associative, Combination;
    if Accepted(hash, sig, Q, G, c) {
      var k := ImpliedNonce(hash, sig, d, G.order);
      CombinationIsMultiple(hash, sig, Q, d, G, c, k);
      assert Explains(k, hash, sig, d, G, c);
    }
    if k :| Explains(k, hash, sig, d, G, c) {
      CombinationIsMultiple(hash, sig, Q, d, G, c, k);
    }
  }

  /** Verification under d*G accepts exactly the signatures with both numbers in range that some nonce
      explains. */
  lemma AcceptedMeaning(hash: int, sig: Signature, Q: Point, d: nat, G: Point, c: CurveFp)
    requires Generator(G, c) && PublicPoint(Q, d, G, c)
    ensures Accepted(hash, sig, Q, G, c) <==>
            && 1 <= sig.r < G.order && 1 <= sig.s < G.order
            && exists k :: Explains(k, hash, sig, d, G, c)
  {
    hide Plus, Add, Double, Associative, Combination, Explains;
    if 1 <= sig.r < G.order && 1 <= sig.s < G.order {
      AcceptedInRange(hash, sig, Q, d, G, c);
    }
  }

  lemma NonceVanishes(s: int, k: int, t: int, n: int)
    requires IsPrime(n) && 1 <= s < n && 0 <= k < n && (s * k) % n == t % n
    ensures k == 0 <==> t % n == 0
  {
    ModSmall(0, n);
    if t % n == 0 {
      NotDividesSmall(n, s);
      EuclidsLemma(n, s, k);
      ModSmall(k, n);
    }
  }

  /** Verification raises exactly when both numbers are in range and hash + d*r is a multiple of the
      order, which makes the combination infinite; out of range it answers False. */
  lemma VerificationRaises(hash: int, sig: Signature, Q: Point, d: nat, G: Point, c: CurveFp)
    requires Generator(G, c) && PublicPoint(Q, d, G, c)
    ensures VerifyOutcome(hash, sig, Q, G, c).Err? <==>
            1 <= sig.r < G.order && 1 <= sig.s < G.order && (hash + d * sig.r) % G.order == 0
    ensures VerifyOutcome(hash, sig, Q, G, c).Err? ==> VerifyOutcome(hash, sig, Q, G, c) == Err(TypeError)
    ensures !(1 <= sig.r < G.order && 1 <= sig.s < G.order) ==> VerifyOutcome(hash, sig, Q, G, c) == Ok(false)
  {
    hide Plus, Add, Double, Associative, Combination;
    if 1 <= sig.r < G.order && 1 <= sig.s < G.order {
      var k := ImpliedNonce(hash, sig, d, G.order);
      CombinationIsMultiple(hash, sig, Q, d, G, c, k);
      NonceVanishes(sig.s, k, hash + d * sig.r, G.order);
      if k > 0 { GeneratorMultiple(k, G, c); }
    }
  }

  /** A signature made with d verifies under d*G exactly when its r, which `sign` does not reduce
      modulo the order, is below the order. */
  lemma SignedIsAccepted(hash: int, d: nat, randomK: int, Q: Point, G: Point, c: CurveFp)
    requires Generator(G, c) && PublicPoint(Q, d, G, c) && Signed(hash, d, randomK, G, c).Ok?
    ensures var sig := Signed(hash, d, randomK, G, c).value;
      1 <= sig.r && 1 <= sig.s < G.order && (Accepted(hash, sig, Q, G, c) <==> sig.r < G.order)
  {
    hide Plus, Add, Double, Associative, Combination;
    var sig := Signed(hash, d, randomK, G, c).value;
    var n, k := G.order, randomK % G.order;
    DivMod(randomK, n);
    GeneratorMultiple(k, G, c);
    ResidueInverse(k, n);
    var v := E.Inverse(k, n).value;
    DivMod(v * (hash + (d * sig.r) % n), n);
    NonceOfSigned(hash, d, sig.r, k, v, n);
    if sig.r < n {
      ModSmall(sig.r, n);
      CombinationIsMultiple(hash, sig, Q, d, G, c, k);
    }
  }

  lemma NonceOfSigned(hash: int, d: int, r: int, k: int, v: int, n: int)
    requires n >= 2 && (k * v) % n == 1
    ensures (((v * (hash + (d * r) % n)) % n) * k) % n == (hash + d * r) % n
  {
    var t := hash + (d * r) % n;
    ModMul(v * t, k, n);
    assert (v * t) * k == (k * v) * t;
    ModSmall(1, n);
    CongMul(k * v, 1, t, t, n);
    ModAdd(hash, d * r, n);
  }

  lemma SignatureUnique(s: int, s': int, k: int, t: int, n: int)
    requires IsPrime(n) && 1 <= k < n && 0 <= s < n && 0 <= s' < n
    requires (s * k) % n == t % n && (s' * k) % n == t % n
    ensures s == s'
  {
    NotDividesSmall(n, k);
    assert s * k == k * s && s' * k == k * s';
    Cancel(n, k, s, s');
    ModSmall(s, n);
    ModSmall(s', n);
  }

  /** What `sign` returns: r is the abscissa of k*G and s the one residue with s*k = hash + d*r mod n,
      and neither may be 0. It raises an assertion exactly when the nonce is a multiple of n. */
  lemma SignedExactly(hash: int, d: int, randomK: int, sig: Signature, G: Point, c: CurveFp)
    requires Generator(G, c)
    ensures
      var n, k := G.order, randomK % G.order;
      && 0 <= k < n
      && (Signed(hash, d, randomK, G, c) == Ok(sig) <==>
          && k != 0 && Times(k, Canon(G), c).Affine? && sig.r == Times(k, Canon(G), c).x != 0
          && 1 <= sig.s < n && (sig.s * k) % n == (hash + d * sig.r) % n)
      && (Signed(hash, d, randomK, G, c) == Err(AssertionError) <==> k == 0)
      && (Signed(hash, d, randomK, G, c).Err? ==>
          Signed(hash, d, randomK, G, c).error in {AssertionError, RuntimeError})
  {
    hide Plus, Add, Double, Associative, Times, Canon;
    var n, k := G.order, randomK % G.order;
    DivMod(randomK, n);
    if k != 0 {
      GeneratorMultiple(k, G, c);
      ResidueInverse(k, n);
      var r, v := Times(k, Canon(G), c).x, E.Inverse(k, n).value;
      DivMod(v * (hash + (d * r) % n), n);
      NonceOfSigned(hash, d, r, k, v, n);
      ModAdd(hash, d * r, n);
      var s := (v * (hash + (d * r) % n)) % n;
      ModMod(hash + d * r, n);
      if sig.r == r && 1 <= sig.s < n && (sig.s * k) % n == (hash + d * sig.r) % n {
        SignatureUnique(s, sig.s, k, hash + d * r, n);
      }
    }
  }

  // --- (r, s) and (r, n - s) ---

  lemma NegateTimes(m: nat, G: Point, c: CurveFp)
    requires Generator(G, c) && 0 < m < G.order
    ensures Times(G.order - m, Canon(G), c) == Negate(Times(m, Canon(G), c), c)
  {
    hide Plus, Add, Double, Associative, Negate;
    var n, g := G.order, Canon(G);
    var T, U := Times(m, g, c), Times(n - m, g, c);
    TimesAdd(n - m, m, g, c);
    Associate(U, T, Negate(T, c), c);
    PlusNegate(T, c);
    PlusInfinity(U, c);
    PlusInfinity(Negate(T, c), c);
  }

  /** Replacing s by n - s, as the `canonize` encoders do, does not change acceptance. */
  lemma CanonizedAccepted(hash: int, sig: Signature, Q: Point, d: nat, G: Point, c: CurveFp)
    requires Generator(G, c) && PublicPoint(Q, d, G, c)
    ensures Accepted(hash, sig, Q, G, c) <==> Accepted(hash, Signature(sig.r, G.order - sig.s), Q, G, c)
  {
    hide Plus, Add, Double, Associative, Combination, Accepted, Explains;
    var other := Signature(sig.r, G.order - sig.s);
    AcceptedMeaning(hash, sig, Q, d, G, c);
    AcceptedMeaning(hash, other, Q, d, G, c);
    if k :| Explains(k, hash, sig, d, G, c) {
      OppositeNonce(k, hash, sig, d, G, c);
      assert Explains(G.order - k, hash, other, d, G, c);
    }
    if k :| Explains(k, hash, other, d, G, c) {
      OppositeNonce(k, hash, other, d, G, c);
      assert Signature(other.r, G.order - other.s) == sig;
      assert Explains(G.order - k, hash, sig, d, G, c);
    }
  }

  lemma OppositeNonce(k: nat, hash: int, sig: Signature, d: nat, G: Point, c: CurveFp)
    requires Generator(G, c) && Explains(k, hash, sig, d, G, c)
    ensures k < G.order && Explains(G.order - k, hash, Signature(sig.r, G.order - sig.s), d, G, c)
  {
    hide Plus, Add, Double, Associative;
    var n := G.order;
    NegateTimes(k, G, c);
    OppositeProduct(n, sig.s, k);
    CongFromWitness((n - sig.s) * (n - k), sig.s * k, n - sig.s - k, n);
  }

  lemma OppositeProduct(n: int, s: int, k: int)
    ensures (n - s) * (n - k) == s * k + (n - s - k) * n
  {}
}
