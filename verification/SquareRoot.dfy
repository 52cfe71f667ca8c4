/** Modular square roots (`square_root_mod_prime` in `numbertheory.py`): for every odd prime the
    function returns a root of each square and raises SquareRootError for each non-square. */
module SquareRoot {
  import opened Wrappers
  import opened Integers
  import opened Powers
  import opened Permutations
  import opened Primes
  import opened Reciprocity
  import opened Jacobi
  import opened Polynomials
  import F = Frobenius

  method SquareRootModPrime(a: int, p: int) returns (r: Result<int>)
    requires IsPrime(p) && 0 <= a < p
    ensures IsSquare(a, p) ==> r.Ok? && 0 <= r.value < p && IsRoot(r.value, a, p)
    ensures !IsSquare(a, p) ==> r == Err(SquareRootError)
  {
    if a == 0 {
      assert IsRoot(0, 0, p);
      return Ok(0);
    }
    if p == 2 {
      assert IsRoot(a, a, p);
      return Ok(a);
    }
    OddModulusOfPrime(p);
    NotDividesSmall(p, a);
    LegendreSymbol(a, p);
    var jac := Jacobi.Jacobi(a, p);
    if jac == -1 {
      return Err(SquareRootError);
    }
    r := RootOfSquare(a, p);
  }

  /** What follows once the symbol is known not to be -1. */
  method RootOfSquare(a: int, p: int) returns (r: Result<int>)
    requires OddPrimeModulus(p) && 0 < a < p && IsSquare(a, p)
    ensures r.Ok? && 0 <= r.value < p && IsRoot(r.value, a, p)
  {
    NotDividesSmall(p, a);
    SquarePower(a, p);
    if p % 4 == 3 {
      ThreeModFour(p);
      RootFromPower(a, p / 4, p);
      return Ok(PowMod(a, (p + 1) / 4, p));
    }
    if p % 8 == 5 {
      r := RootFiveModEight(a, p);
      return;
    }
    OneModFour(p);
    r := RootOneModEight(a, p);
  }

  lemma ThreeModFour(p: int)
    requires p % 4 == 3
    ensures p / 2 == 2 * (p / 4) + 1 && (p + 1) / 4 == p / 4 + 1
  {}

  lemma FiveModEight(p: int)
    requires p % 8 == 5
    ensures p == 8 * (p / 8) + 5 && p / 2 == 4 * (p / 8) + 2 && (p - 1) / 4 == 2 * (p / 8) + 1
    ensures (p + 3) / 8 == p / 8 + 1 && (p - 5) / 8 == p / 8
  {}

  lemma OneModFour(p: int)
    requires p % 2 == 1 && p % 4 != 3
    ensures p % 4 == 1
  {
    var q, r := p / 4, p % 4;
    DivMod(p, 4);
    if r == 0 { ModUnique(p, 2, 2 * q, 0); }
    if r == 2 { ModUnique(p, 2, 2 * q + 1, 0); }
  }

  lemma OddModulusOfPrime(p: int)
    requires IsPrime(p) && p != 2
    ensures OddPrimeModulus(p)
  {
    assert !Divides(2, p);
  }

  /** Squaring a residue of a^e. */
  lemma SquareOfPower(a: int, e: nat, p: int)
    requires p > 0
    ensures (PowMod(a, e, p) * PowMod(a, e, p)) % p == Pow(a, 2 * e) % p
  {
    PowSquare(a, e);
    ModMul(Pow(a, e), Pow(a, e), p);
  }

  /** When a^(2k+1) == 1, the power a^(k+1) is a root of a. */
  lemma RootFromPower(a: int, k: nat, p: int)
    requires p > 1 && Pow(a, 2 * k + 1) % p == 1
    ensures var r := PowMod(a, k + 1, p); 0 <= r < p && IsRoot(r, a, p)
  {
    DivMod(Pow(a, k + 1), p);
    SquareOfPower(a, k + 1, p);
    TimesOne(a, 2 * k + 1, p);
  }

  lemma TimesOne(a: int, h: nat, p: int)
    requires p > 1 && Pow(a, h) % p == 1
    ensures Pow(a, h + 1) % p == a % p
  {
    ModSmall(1, p);
    CongMul(a, a, Pow(a, h), 1, p);
  }

  // --- p % 8 == 5 ---

  method RootFiveModEight(a: int, p: int) returns (r: Result<int>)
    requires OddPrimeModulus(p) && p % 8 == 5 && Pow(a, p / 2) % p == 1
    ensures r.Ok? && 0 <= r.value < p && IsRoot(r.value, a, p)
  {
    ghost var k := p / 8;
    FiveModEight(p);
    var d := PowMod(a, (p - 1) / 4, p);
    FourthRootOfOne(a, 2 * k + 1, p);
    if d == 1 {
      RootFromPower(a, k, p);
      return Ok(PowMod(a, (p + 3) / 8, p));
    }
    if d == p - 1 {
      RootFiveModEightTwisted(a, k, p);
      return Ok((2 * a * PowMod(4 * a, (p - 5) / 8, p)) % p);
    }
    return Err(RuntimeError);
  }

  lemma FourthRootOfOne(a: int, q: nat, p: int)
    requires IsPrime(p) && Pow(a, 2 * q) % p == 1
    ensures PowMod(a, q, p) == 1 || PowMod(a, q, p) == p - 1
  {
    SquareOfPower(a, q, p);
    RootsOfOne(p, PowMod(a, q, p));
    ModMod(Pow(a, q), p);
  }

  /** Here 2^((p-1)/2) == -1 makes up for a^((p-1)/4) == -1. */
  lemma RootFiveModEightTwisted(a: int, k: nat, p: int)
    requires OddPrimeModulus(p) && p == 8 * k + 5 && PowMod(a, 2 * k + 1, p) == p - 1
    ensures var r := (2 * a * PowMod(4 * a, k, p)) % p; 0 <= r < p && IsRoot(r, a, p)
  {
    var w := PowMod(4 * a, k, p);
    var t := 2 * a * w;
    DivMod(t, p);
    ModMul(t, t, p);
    SquareOfPower(4 * a, k, p);
    CongMul(4 * a * a, 4 * a * a, w * w, Pow(4 * a, 2 * k), p);
    TwistedSquare(a, w, Pow(4 * a, 2 * k));
    PowerOfFourA(a, 2 * k + 1, p);
    CongMul(a, a, Pow(4 * a, 2 * k + 1), 1, p);
  }

  lemma TwistedSquare(a: int, w: int, y: int)
    ensures (2 * a * w) * (2 * a * w) == (4 * a * a) * (w * w)
    ensures (4 * a * a) * y == a * ((4 * a) * y)
  {}

  lemma PowerOfFourA(a: int, q: nat, p: int)
    requires OddPrimeModulus(p) && p % 8 == 5 && p / 2 == 2 * q && PowMod(a, q, p) == p - 1
    ensures Pow(4 * a, q) % p == 1 % p
  {
    NotDividesSmall(p, 2);
    SymbolOfTwo(p);
    SymbolIsPower(2, p);
    PowProduct(4, a, q);
    PowMul(2, 2, q);
    assert Pow(2, 2) == 4;
    ModAddMultiple(-1, 1, p);
    ModSmall(p - 1, p);
    CongMul(Pow(4, q), -1, Pow(a, q), -1, p);
  }

  // --- p % 8 == 1 (all that matters is p % 4 == 1): a power of X in a quadratic extension ---

  method RootOneModEight(a: int, p: int) returns (r: Result<int>)
    requires OddPrimeModulus(p) && p % 4 == 1 && 0 < a < p && IsSquare(a, p)
    ensures r.Ok? && 0 <= r.value < p && IsRoot(r.value, a, p)
  {
    var b := 2;
    while b < p
      invariant 2 <= b <= p
      invariant forall c :: 2 <= c < b ==> Symbol(c * c - 4 * a, p) != -1
      decreases p - b
    {
      var jac := Jacobi.Jacobi(b * b - 4 * a, p);
      if jac == -1 {
        var f := [a, -b, 1];
        var ff := PolynomialExpMod([0, 1], (p + 1) / 2, f, p);
        PowerIsRoot(a, b, ff, p);
        if ff[1] != 0 {
          return Err(AssertionError);
        }
        return Ok(ff[0]);
      }
      b := b + 1;
    }
    SomeShiftNotSquare(a, p);
    return Err(RuntimeError);
  }

  /** The representative of X^((p+1)/2) is a constant, and that constant is a root of a. */
  lemma PowerIsRoot(a: int, b: int, ff: Poly, p: int)
    requires OddPrimeModulus(p) && 0 < a < p && IsSquare(a, p) && Symbol(b * b - 4 * a, p) == -1
    requires |ff| == 2 && Residues(ff, p) && Cong(ff, PolyPow([0, 1], (p + 1) / 2), [a, -b, 1], p)
    ensures ff[1] == 0 && IsRoot(ff[0], a, p)
  {
    var c, d := ff[0], ff[1];
    SquareOfRepresentative(a, b, ff, p);
    if d != 0 {
      DiscriminantIsSquare(a, b, c, d, p);
      LegendreSymbol(b * b - 4 * a, p);
    }
  }

  lemma SquareOfRepresentative(a: int, b: int, ff: Poly, p: int)
    requires OddPrimeModulus(p) && Symbol(b * b - 4 * a, p) == -1
    requires |ff| == 2 && Cong(ff, PolyPow([0, 1], (p + 1) / 2), [a, -b, 1], p)
    ensures var c, d := ff[0], ff[1];
      (c * c - d * d * a) % p == a % p && (2 * c * d + b * d * d) % p == 0
  {
    hide Symbol, PolyPow, Mul, Eval;
    var f, c, d, h := [a, -b, 1], ff[0], ff[1], (p + 1) / 2;
    CongPowers(ff, ff, [0, 1], h, h, f, p);
    F.NormOfX(a, b, p);
    CongTrans(Mul(ff, ff), PolyPow([0, 1], p + 1), [a], f, p);
    var e := [c * c - d * d * a, 2 * c * d + b * d * d];
    forall x ensures Eval(e, x) == Eval(Mul(ff, ff), x) + Eval(f, x) * Eval([-(d * d)], x) + p * Eval([], x) {
      EvalMul(ff, ff, x);
      assert ff == [c, d];
      F.EvalLine(c, d, x);
      F.EvalLine(c * c - d * d * a, 2 * c * d + b * d * d, x);
      F.EvalConst(-(d * d), x);
      EvalNil(x);
      F.EvalQuadratic(a, b, x);
      ReduceSquare(a, b, c, d, x);
    }
    assert IsWitness(e, Mul(ff, ff), [-(d * d)], [], f, p);
    CongTrans(e, Mul(ff, ff), [a], f, p);
    ReducedUnique(e, [a], f, p, 0);
    ReducedUnique(e, [a], f, p, 1);
    ModSmall(0, p);
  }

  lemma ReduceSquare(a: int, b: int, c: int, d: int, x: int)
    ensures c * c - d * d * a + x * (2 * c * d + b * d * d)
         == (c + x * d) * (c + x * d) + (a - b * x + x * x) * (-(d * d))
  {
    var s := d * d;
    assert (c + x * d) * (c + x * d) == c * c + 2 * (c * (x * d)) + (x * x) * s;
    assert (a - b * x + x * x) * (-s) == -(a * s) + (b * x) * s - (x * x) * s;
    assert x * (2 * c * d + b * d * d) == 2 * (c * (x * d)) + (b * x) * s;
  }

  /** A representative that is not constant would make the discriminant a square. */
  lemma DiscriminantIsSquare(a: int, b: int, c: int, d: int, p: int)
    requires OddPrimeModulus(p) && 0 < d < p && IsSquare(a, p)
    requires (c * c - d * d * a) % p == a % p && (2 * c * d + b * d * d) % p == 0
    ensures IsSquare(b * b - 4 * a, p)
  {
    var z :| IsRoot(z, a, p);
    var disc := b * b - 4 * a;
    HalfTrace(b, c, d, p);
    ScaledDiscriminant(a, b, c, d, p);
    CongMul(4, 4, z * z, a, p);
    Double(z);
    DivideSquare(2 * z, d, disc, p);
  }

  lemma Double(z: int)
    ensures (2 * z) * (2 * z) == 4 * (z * z)
  {}

  /** If z^2 == d^2 * x with d invertible, then x is a square. */
  lemma DivideSquare(z: int, d: int, x: int, p: int)
    requires IsPrime(p) && 0 < d < p && (z * z) % p == ((d * d) * x) % p
    ensures IsSquare(x, p)
  {
    var v := PrimeInverse(d, p);
    CongMul(v * v, v * v, z * z, (d * d) * x, p);
    Interleave(z, v, z, v);
    assert (v * v) * ((d * d) * x) == ((d * v) * (d * v)) * x by {
      MulAssoc(v * v, d * d, x);
      Interleave(d, v, d, v);
    }
    ModSmall(1, p);
    CongMul(d * v, 1, d * v, 1, p);
    CongMul((d * v) * (d * v), 1, x, x, p);
    assert (z * v) * (z * v) == (v * v) * (z * z);
    assert IsRoot(z * v, x, p);
  }

  lemma HalfTrace(b: int, c: int, d: int, p: int)
    requires IsPrime(p) && 0 < d < p && (2 * c * d + b * d * d) % p == 0
    ensures (2 * c) % p == (-(b * d)) % p
  {
    NotDividesSmall(p, d);
    assert 2 * c * d + b * d * d == d * (2 * c + b * d);
    EuclidsLemma(p, d, 2 * c + b * d);
    CongDiff(2 * c, -(b * d), p);
  }

  lemma ScaledDiscriminant(a: int, b: int, c: int, d: int, p: int)
    requires p > 0 && (c * c - d * d * a) % p == a % p && (2 * c) % p == (-(b * d)) % p
    ensures (4 * a) % p == ((d * d) * (b * b - 4 * a)) % p
  {
    var s := d * d;
    CongMul(4, 4, c * c - s * a, a, p);
    CongMul(2 * c, -(b * d), 2 * c, -(b * d), p);
    CongAdd((2 * c) * (2 * c), (-(b * d)) * (-(b * d)), 4 * (s * a), 4 * (s * a), p);
    assert (2 * c) * (2 * c) - 4 * (s * a) == 4 * (c * c - s * a);
    assert (-(b * d)) * (-(b * d)) == s * (b * b);
    assert s * (b * b - 4 * a) == s * (b * b) - 4 * (s * a);
  }

  // --- some b*b - 4a is not a square ---

  /** Not every number is a square modulo an odd prime. */
  lemma SomeNonSquare(p: int) returns (t: int)
    requires OddPrimeModulus(p)
    ensures !IsSquare(t, p)
  {
    if forall y :: IsSquare(y, p) {
      var s := seq(p - 1, i requires 0 <= i < p - 1 => SmallRoot(i + 1, p));
      forall i | 0 <= i < |s| ensures 1 <= s[i] <= p / 2 && IsRoot(s[i], i + 1, p) {
        SmallRootFacts(i + 1, p);
      }
      forall i, j | 0 <= i < j < |s| ensures s[i] != s[j] {
        ModSmall(i + 1, p);
        ModSmall(j + 1, p);
      }
      Pigeonhole(s, p / 2);
      t := 0;
    } else {
      t :| !IsSquare(t, p);
    }
  }

  ghost function SmallRoot(y: int, p: int): int
    requires p > 0 && IsSquare(y, p)
  {
    var z :| IsRoot(z, y, p);
    var w := z % p;
    if w <= p / 2 then w else p - w
  }

  lemma SmallRootFacts(y: int, p: int)
    requires OddPrimeModulus(p) && 1 <= y < p && IsSquare(y, p)
    ensures 1 <= SmallRoot(y, p) <= p / 2 && IsRoot(SmallRoot(y, p), y, p)
  {
    var z :| IsRoot(z, y, p) && SmallRoot(y, p) == if z % p <= p / 2 then z % p else p - z % p;
    hide SmallRoot;
    RootResidues(z, y, p);
  }

  /** The residue of a root and its negative are roots, and not 0. */
  lemma RootResidues(z: int, y: int, p: int)
    requires p > 0 && 1 <= y < p && IsRoot(z, y, p)
    ensures 1 <= z % p < p && IsRoot(z % p, y, p) && IsRoot(p - z % p, y, p)
  {
    var w := z % p;
    DivMod(z, p);
    ModMul(z, z, p);
    ModSmall(y, p);
    ModSmall(0, p);
    NegatedSquare(w, p);
  }

  lemma NegatedSquare(w: int, p: int)
    requires p > 0
    ensures ((p - w) * (p - w)) % p == (w * w) % p
  {
    CongFromWitness(p - w, -w, 1, p);
    CongMul(p - w, -w, p - w, -w, p);
    assert (-w) * (-w) == w * w;
  }

  /** If all the shifts were squares, so would be every number. */
  lemma SomeShiftNotSquare(a: int, p: int)
    requires OddPrimeModulus(p) && p % 4 == 1 && 0 < a < p && IsSquare(a, p)
    ensures exists b :: 2 <= b < p && Symbol(b * b - 4 * a, p) == -1
  {
    if forall b :: 2 <= b < p ==> Symbol(b * b - 4 * a, p) != -1 {
      var t := SomeNonSquare(p);
      var k := MultipleOfFourA(a, t, p);
      ShiftsAreSquares(a, k, p);
      SquareCong(-(4 * a) * k, t, p);
    }
  }

  lemma MultipleOfFourA(a: int, t: int, p: int) returns (k: nat)
    requires OddPrimeModulus(p) && 0 < a < p
    ensures (-(4 * a) * k) % p == t % p
  {
    FourTimes(a, p);
    var c := (-(4 * a)) % p;
    DivMod(-(4 * a), p);
    NegativeResidue(4 * a, p);
    k := SolveLinear(c, t, p);
    ModMul(-(4 * a), k, p);
  }

  lemma NegativeResidue(x: int, p: int)
    requires p > 0 && x % p != 0
    ensures (-x) % p != 0
  {
    ModSmall(0, p);
    CongDiff(0, x, p);
  }

  lemma FourTimes(a: int, p: int)
    requires OddPrimeModulus(p) && 0 < a < p
    ensures (4 * a) % p != 0
  {
    NotDividesSmall(p, a);
    NotDividesSmall(p, 2);
    if Divides(p, 4 * a) {
      EuclidsLemma(p, 2, 2 * a);
      EuclidsLemma(p, 2, a);
    }
  }

  lemma SquareCong(x: int, y: int, p: int)
    requires p > 0 && IsSquare(x, p) && x % p == y % p
    ensures IsSquare(y, p)
  {
    var z :| IsRoot(z, x, p);
    assert IsRoot(z, y, p);
  }

  lemma {:induction false} ShiftsAreSquares(a: int, k: nat, p: int)
    requires OddPrimeModulus(p) && p % 4 == 1 && 0 < a < p && IsSquare(a, p)
    requires forall b :: 2 <= b < p ==> Symbol(b * b - 4 * a, p) != -1
    ensures IsSquare(-(4 * a) * k, p)
  {
    if k == 0 {
      assert IsRoot(0, 0, p);
    } else {
      ShiftsAreSquares(a, k - 1, p);
      var z :| IsRoot(z, -(4 * a) * (k - 1), p);
      ShiftOfSquare(a, z, p);
      CongAdd(z * z, -(4 * a) * (k - 1), 4 * a, 4 * a, p);
      assert -(4 * a) * (k - 1) - 4 * a == -(4 * a) * k;
      SquareCong(z * z - 4 * a, -(4 * a) * k, p);
    }
  }

  lemma ShiftOfSquare(a: int, z: int, p: int)
    requires OddPrimeModulus(p) && p % 4 == 1 && 0 < a < p && IsSquare(a, p)
    requires forall b :: 2 <= b < p ==> Symbol(b * b - 4 * a, p) != -1
    ensures IsSquare(z * z - 4 * a, p)
  {
    var w := z % p;
    DivMod(z, p);
    ModMul(z, z, p);
    CongAdd(z * z, w * w, 4 * a, 4 * a, p);
    if w == 0 {
      MinusFourA(a, p);
      SquareCong(-(4 * a), z * z - 4 * a, p);
    } else {
      var b := if w == 1 then p - 1 else w;
      CongFromWitness(p - 1, -1, 1, p);
      CongMul(p - 1, -1, p - 1, -1, p);
      CongAdd(b * b, w * w, 4 * a, 4 * a, p);
      NotMinusOneIsSquare(b * b - 4 * a, p);
      SquareCong(b * b - 4 * a, z * z - 4 * a, p);
    }
  }

  lemma NotMinusOneIsSquare(x: int, p: int)
    requires OddPrimeModulus(p) && Symbol(x, p) != -1
    ensures IsSquare(x, p)
  {
    LegendreSymbol(x, p);
    if Divides(p, x) {
      ModSmall(0, p);
      assert IsRoot(0, x, p);
    }
  }

  lemma MinusFourA(a: int, p: int)
    requires OddPrimeModulus(p) && p % 4 == 1 && IsSquare(a, p)
    ensures IsSquare(-(4 * a), p)
  {
    MinusOneIsSquare(p);
    var w :| IsRoot(w, -1, p);
    var z :| IsRoot(z, a, p);
    var y := 2 * w * z;
    CongMul(w * w, -1, z * z, a, p);
    CongMul(4, 4, (w * w) * (z * z), -1 * a, p);
    assert y * y == 4 * ((w * w) * (z * z));
    assert IsRoot(y, -(4 * a), p);
  }

  lemma MinusOneIsSquare(p: int)
    requires OddPrimeModulus(p) && p % 4 == 1
    ensures IsSquare(-1, p)
  {
    var q := p / 4;
    assert p / 2 == 2 * q;
    PowMul(-1, 2, q);
    PowOne(q);
    assert Pow(-1, 2) == 1;
    ModSmall(1, p);
    if !IsSquare(-1, p) {
      NonSquarePower(-1, p);
      ModAddMultiple(-1, 1, p);
      ModSmall(p - 1, p);
    }
  }
}
