/** The function `jacobi` (`numbertheory.py`) computes the quadratic symbol; modulo a prime that
    symbol tells squares from non-squares. */
module Jacobi {
  import opened Integers
  import opened Powers
  import opened Permutations
  import opened Primes
  import opened Reciprocity
  import E = Euclid

  /** The sign contributed by 2^e. */
  function TwoPart(e: nat, n: int): int {
    if e % 2 == 0 || n % 8 == 1 || n % 8 == 7 then 1 else -1
  }

  method Jacobi(a: int, n: int) returns (r: int)
    requires n >= 3 && n % 2 == 1
    ensures r == Symbol(a, n)
    decreases n
  {
    var x := a % n;
    DivMod(a, n);
    ModMod(a, n);
    SymbolPeriodic(a, x, n);
    if x == 0 {
      return 0;
    }
    if x == 1 {
      SymbolOfOne(n);
      return 1;
    }
    var a1, e := x, 0;
    while a1 % 2 == 0
      invariant 0 < a1 < n && Symbol(x, n) == TwoPart(e, n) * Symbol(a1, n)
      decreases a1
    {
      SymbolMultiplicative(2, a1 / 2, n);
      SymbolOfTwo(n);
      TwoPartStep(e, n, Symbol(a1 / 2, n));
      a1, e := a1 / 2, e + 1;
    }
    var s := if e % 2 == 0 || n % 8 == 1 || n % 8 == 7 then 1 else -1;
    if a1 == 1 {
      SymbolOfOne(n);
      return s;
    }
    SymbolReciprocity(a1, n);
    if n % 4 == 3 && a1 % 4 == 3 {
      s := -s;
    }
    ModMod(n, a1);
    SymbolPeriodic(n % a1, n, a1);
    var t := Jacobi(n % a1, a1);
    return s * t;
  }

  lemma TwoPartStep(e: nat, n: int, y: int)
    requires n % 2 == 1
    ensures TwoPart(e, n) * ((if n % 8 == 1 || n % 8 == 7 then 1 else -1) * y) == TwoPart(e + 1, n) * y
  {
    if n % 8 == 1 || n % 8 == 7 {
      assert TwoPart(e, n) == TwoPart(e + 1, n) == 1;
    } else {
      NextParity(e);
      Negations(1, y);
    }
  }

  lemma NextParity(e: nat)
    ensures e % 2 == 0 <==> (e + 1) % 2 != 0
  {}

  lemma Negations(x: int, y: int)
    ensures (-x) * y == -(x * y) == x * (-y) && (-x) * (-y) == x * y
  {}

  /** The answer is -1, 0 or 1, and it is 0 exactly when the numbers have a common factor. */
  lemma SymbolValues(a: int, n: int)
    requires n >= 3 && n % 2 == 1
    ensures Symbol(a, n) in {-1, 0, 1}
    ensures Symbol(a, n) == 0 <==> E.Gcd(a % n, n) > 1
  {
    E.GcdMeaning(a % n, n);
  }

  // --- the symbol modulo a prime: Euler's criterion ---

  ghost predicate IsRoot(z: int, a: int, p: int)
    requires p > 0
  {
    (z * z) % p == a % p
  }

  ghost predicate IsSquare(a: int, p: int)
    requires p > 0
  {
    exists z :: IsRoot(z, a, p)
  }

  ghost predicate OddPrimeModulus(p: int) {
    IsPrime(p) && p >= 3 && p % 2 == 1
  }

  lemma CongInterleave(x: int, y: int, s: int, f: int, a: int, k: int, e: int, g: int,
                       x': int, y': int, s': int, f': int, p: int)
    requires p > 0 && (x * y) % p == (s * f) % p && (a * k) % p == (e * g) % p
    requires x' == a * x && y' == y * k && s' == s * e && f' == f * g
    ensures (x' * y') % p == (s' * f') % p
  {
    CongMul(x * y, s * f, a * k, e * g, p);
    Interleave(x, y, a, k);
    Interleave(s, f, e, g);
    assert a * x == x * a;
  }

  /** The four products at k from those at k - 1. */
  lemma UnfoldProducts(a: int, k: nat, p: int)
    requires OddModulus(p) && 0 < k <= p / 2
    ensures Pow(a, k) == a * Pow(a, k - 1)
    ensures Product(Iota(k)) == Product(Iota(k - 1)) * k
    ensures Product(Folds(a, p)[..k]) == Product(Folds(a, p)[..k - 1]) * Fold(a, k, p)
    ensures Sign(Flips(a, k, p)) == Sign(Flips(a, k - 1, p)) * FoldSign(a, k, p)
  {
    assert Iota(k)[..k - 1] == Iota(k - 1);
    var s := Folds(a, p);
    assert s[..k][..k - 1] == s[..k - 1] && s[k - 1] == Fold(a, k, p);
    SignSum(Flips(a, k - 1, p), Flip(a, k, p));
    hide Fold;
  }

  lemma {:induction false} ProductOfFolds(a: int, k: nat, p: int)
    requires OddModulus(p) && k <= p / 2
    ensures (Pow(a, k) * Product(Iota(k))) % p == (Sign(Flips(a, k, p)) * Product(Folds(a, p)[..k])) % p
  {
    if k > 0 {
      hide Pow, Product, Iota, Folds, Fold, Sign, Flips, FoldSign;
      UnfoldProducts(a, k, p);
      ProductOfFolds(a, k - 1, p);
      SignedFoldCong(a, k, p);
      CongInterleave(Pow(a, k - 1), Product(Iota(k - 1)), Sign(Flips(a, k - 1, p)), Product(Folds(a, p)[..k - 1]),
                     a, k, FoldSign(a, k, p), Fold(a, k, p),
                     Pow(a, k), Product(Iota(k)), Sign(Flips(a, k, p)), Product(Folds(a, p)[..k]), p);
    }
  }

  lemma SymbolIsPowerOfUnit(a: int, p: int)
    requires OddPrimeModulus(p) && !Divides(p, a)
    ensures Pow(a, p / 2) % p == Symbol(a, p) % p
  {
    ModMod(a, p);
    PrimeCoprime(p, a % p);
    ProductOfFolds(a, p / 2, p);
    FoldsPermute(a, p);
    SameElements(Folds(a, p), Iota(p / 2));
    assert Folds(a, p)[..p / 2] == Folds(a, p);
    FactorialNotDivisible(p, p / 2);
    var f := Product(Iota(p / 2));
    hide Symbol, Pow, Product, Folds, Iota;
    CancelFactorial(p, f, Pow(a, p / 2), Symbol(a, p));
  }

  lemma CancelFactorial(p: int, f: int, x: int, y: int)
    requires IsPrime(p) && !Divides(p, f) && (x * f) % p == (y * f) % p
    ensures x % p == y % p
  {
    assert x * f == f * x && y * f == f * y;
    Cancel(p, f, x, y);
  }

  /** Euler's criterion: the symbol is congruent to a^((p-1)/2), for multiples of p as well. */
  lemma SymbolIsPower(a: int, p: int)
    requires OddPrimeModulus(p)
    ensures Pow(a, p / 2) % p == Symbol(a, p) % p
  {
    if Divides(p, a) {
      DividesProduct(p, a, Pow(a, p / 2 - 1));
      E.GcdMeaning(a % p, p);
      assert E.Gcd(0, p) == p;
    } else {
      SymbolIsPowerOfUnit(a, p);
    }
  }

  /** Every element has a partner, other than itself, with which it multiplies to a. */
  ghost predicate Paired(s: seq<int>, a: int, p: int)
    requires p > 0
  {
    forall x :: x in s ==> HasPartner(x, s, a, p)
  }

  ghost predicate HasPartner(x: int, s: seq<int>, a: int, p: int)
    requires p > 0
  {
    exists y :: y in s && y != x && (x * y) % p == a % p
  }

  lemma PartnerUnique(x: int, y: int, z: int, a: int, p: int)
    requires IsPrime(p) && 1 <= x < p && 1 <= y < p && 1 <= z < p
    requires (x * y) % p == a % p && ((x * z) % p == a % p || (z * x) % p == a % p)
    ensures y == z
  {
    NotDividesSmall(p, x);
    assert z * x == x * z;
    Cancel(p, x, y, z);
    ModSmall(y, p);
    ModSmall(z, p);
  }

  /** What is left of a sequence of distinct elements without its last and its k-th. */
  lemma RestMembers(s: seq<int>, k: nat)
    requires Distinct(s) && k < |s| - 1
    ensures var t := Remove(s[..|s| - 1], k);
      Distinct(t) && forall w :: w in t <==> w in s && w != s[|s| - 1] && w != s[k]
  {
    var n := |s| - 1;
    var t := Remove(s[..n], k);
    forall i, j | 0 <= i < j < |t| ensures t[i] != t[j] {
      assert t[i] == s[if i < k then i else i + 1];
      assert t[j] == s[if j < k then j else j + 1];
    }
    forall w | w in s && w != s[n] && w != s[k] ensures w in t {
      var i :| 0 <= i < |s| && s[i] == w;
      assert t[if i < k then i else i - 1] == w;
    }
  }

  lemma SurvivingPartner(z: int, s: seq<int>, x: int, y: int, a: int, p: int) returns (w: int)
    requires IsPrime(p) && InRange(s, p - 1) && Paired(s, a, p)
    requires x in s && y in s && z in s && z != x && z != y && (x * y) % p == a % p
    ensures w in s && w != z && (z * w) % p == a % p && w != x && w != y
  {
    assert HasPartner(z, s, a, p);
    w :| w in s && w != z && (z * w) % p == a % p;
    if w == x {
      PartnerUnique(x, y, z, a, p);
    } else if w == y {
      assert y * x == x * y;
      PartnerUnique(y, x, z, a, p);
    }
  }

  lemma RemovePair(s: seq<int>, k: nat, a: int, p: int)
    requires IsPrime(p) && Distinct(s) && InRange(s, p - 1) && Paired(s, a, p)
    requires k < |s| - 1 && (s[|s| - 1] * s[k]) % p == a % p
    ensures var t := Remove(s[..|s| - 1], k); Distinct(t) && InRange(t, p - 1) && Paired(t, a, p)
  {
    RestMembers(s, k);
    var t := Remove(s[..|s| - 1], k);
    forall z | z in t ensures HasPartner(z, t, a, p) {
      var w := SurvivingPartner(z, s, s[|s| - 1], s[k], a, p);
      assert w in t;
    }
  }

  lemma {:induction false} PairProduct(s: seq<int>, a: int, p: int)
    requires IsPrime(p) && Distinct(s) && InRange(s, p - 1) && Paired(s, a, p)
    ensures |s| % 2 == 0 && Product(s) % p == Pow(a, |s| / 2) % p
    decreases |s|
  {
    if s != [] {
      var n := |s| - 1;
      var k := PartnerIndex(s, a, p);
      RemovePair(s, k, a, p);
      var t := Remove(s[..n], k);
      ProductRemove(s[..n], k);
      assert Product(s) == Product(s[..n]) * s[n];
      hide Product, Pow, Paired, Distinct, InRange, Remove;
      PairProduct(t, a, p);
      ExtendPairs(Product(t), s[k], s[n], a, |t|, p);
    }
  }

  lemma ExtendPairs(t: int, y: int, x: int, a: int, n: nat, p: int)
    requires p > 0 && n % 2 == 0 && t % p == Pow(a, n / 2) % p && (x * y) % p == a % p
    ensures ((t * y) * x) % p == Pow(a, (n + 2) / 2) % p
  {
    Regroup(t, y, x);
    CongMul(x * y, a, t, Pow(a, n / 2), p);
    assert (n + 2) / 2 == n / 2 + 1;
  }

  lemma PartnerIndex(s: seq<int>, a: int, p: int) returns (k: nat)
    requires p > 0 && s != [] && Paired(s, a, p)
    ensures k < |s| - 1 && (s[|s| - 1] * s[k]) % p == a % p
  {
    var x := s[|s| - 1];
    var y := Partner(x, s, a, p);
    k := IndexOf(y, s);
  }

  lemma Partner(x: int, s: seq<int>, a: int, p: int) returns (y: int)
    requires p > 0 && x in s && Paired(s, a, p)
    ensures y in s && y != x && (x * y) % p == a % p
  {
    assert HasPartner(x, s, a, p);
    y :| y in s && y != x && (x * y) % p == a % p;
  }

  lemma IndexOf(y: int, s: seq<int>) returns (k: nat)
    requires y in s
    ensures k < |s| && s[k] == y
  {
    k :| 0 <= k < |s| && s[k] == y;
  }

  lemma Regroup(t: int, y: int, x: int)
    ensures (t * y) * x == (x * y) * t
  {}

  /** 2, ..., p - 2. */
  function Inner(p: int): (s: seq<int>)
    requires p >= 3
    ensures |s| == p - 3 && forall i :: 0 <= i < |s| ==> s[i] == i + 2
  {
    seq(p - 3, i => i + 2)
  }

  lemma Wilson(p: int)
    requires OddPrimeModulus(p)
    ensures Product(Iota(p - 1)) % p == (-1) % p
  {
    var s := Inner(p);
    forall x | x in s ensures HasPartner(x, s, 1, p) {
      InnerPartner(x, p);
    }
    PairProduct(s, 1, p);
    PowOne(|s| / 2);
    FactorialFromInner(p);
    CongMul(Product(s), 1, p - 1, -1, p) by {
      ModAddMultiple(-1, 1, p);
    }
  }

  lemma FactorialFromInner(p: int)
    requires p >= 3
    ensures Product(Iota(p - 1)) == Product(Inner(p)) * (p - 1)
  {
    var f := Iota(p - 1);
    ProductRemove(f[..p - 2], 0);
    assert Remove(f[..p - 2], 0) == Inner(p);
  }

  lemma InnerPartner(x: int, p: int)
    requires OddPrimeModulus(p) && 2 <= x <= p - 2
    ensures HasPartner(x, Inner(p), 1, p)
  {
    var y := PrimeInverse(x, p);
    ModSmall(1, p);
    ModSmall(x, p);
    if y == x { RootsOfOne(p, x); }
    if y == p - 1 { MinusOneTimes(x, p); }
    assert x * 1 == x;
    assert Inner(p)[y - 2] == y;
    assert y in Inner(p) && (x * y) % p == 1 % p;
  }

  lemma PrimeInverse(x: int, p: int) returns (y: int)
    requires IsPrime(p) && 1 <= x < p
    ensures 1 <= y < p && (x * y) % p == 1
  {
    NotDividesSmall(p, x);
    PrimeCoprime(p, x);
    ModSmall(x, p);
    E.InverseExists(x, p);
    y :| E.IsInverse(y, x, p);
  }

  lemma MinusOneTimes(x: int, p: int)
    requires 1 <= x < p
    ensures (x * (p - 1)) % p == p - x
  {
    ModUnique(x * (p - 1), p, x - 1, p - x);
  }

  /** The power is -1 for a number that is no square. */
  lemma NonSquarePower(a: int, p: int)
    requires OddPrimeModulus(p) && !IsSquare(a, p)
    ensures Pow(a, p / 2) % p == (-1) % p
  {
    var s := Iota(p - 1);
    forall x | x in s ensures HasPartner(x, s, a, p) {
      NonSquarePartner(x, a, p);
    }
    PairProduct(s, a, p);
    Wilson(p);
  }

  lemma NonSquarePartner(x: int, a: int, p: int)
    requires OddPrimeModulus(p) && !IsSquare(a, p) && 1 <= x < p
    ensures HasPartner(x, Iota(p - 1), a, p)
  {
    var y := SolveLinear(x, a, p);
    assert !IsRoot(x, a, p) && !IsRoot(0, a, p);
    assert x * 0 == 0;
    assert Iota(p - 1)[y - 1] == y;
    assert y in Iota(p - 1) && y != x && (x * y) % p == a % p;
  }

  lemma SolveLinear(x: int, a: int, p: int) returns (y: int)
    requires IsPrime(p) && 1 <= x < p
    ensures 0 <= y < p && (x * y) % p == a % p
  {
    var v := PrimeInverse(x, p);
    ModMul(x, v * a, p);
    ModSmall(1, p);
    CongMul(x * v, 1, a, a, p);
    MulAssoc(x, v, a);
    DivMod(v * a, p);
    y := (v * a) % p;
  }

  lemma SquarePower(a: int, p: int)
    requires OddPrimeModulus(p) && IsSquare(a, p) && !Divides(p, a)
    ensures Pow(a, p / 2) % p == 1
  {
    var z :| IsRoot(z, a, p);
    if Divides(p, z) { DividesProduct(p, z, z); }
    FermatLittle(z, p);
    PowCong(a, z * z, p / 2, p);
    PowSquare(z, 1);
    PowMul(z, 2, p / 2);
  }

  /** The Legendre symbol by its definition: it separates multiples of p, squares and non-squares. */
  ghost function Legendre(a: int, p: int): int
    requires p > 0
  {
    if Divides(p, a) then 0 else if IsSquare(a, p) then 1 else -1
  }

  lemma LegendreSymbol(a: int, p: int)
    requires OddPrimeModulus(p)
    ensures Symbol(a, p) == Legendre(a, p)
  {
    SymbolValues(a, p);
    ModSmall(1, p);
    ModAddMultiple(-1, 1, p);
    ModSmall(p - 1, p);
    if Divides(p, a) {
    } else {
      SymbolIsPower(a, p);
      ModSmall(0, p);
      if IsSquare(a, p) { SquarePower(a, p); } else { NonSquarePower(a, p); }
    }
  }

  // --- composite moduli ---

  lemma OddProduct(m: int, n: int)
    requires OddModulus(m) && OddModulus(n)
    ensures OddModulus(m * n) && (m * n % 4 == 3 <==> (m % 4 == 3) != (n % 4 == 3))
  {
    ModMul(m, n, 4);
    ModMul(m, n, 2);
    MulMono(3, m, n);
  }

  lemma OddModulusSplits(a: int, m: int, n: int)
    requires OddModulus(a) && OddModulus(m) && OddModulus(n)
    ensures Symbol(a, m * n) == Symbol(a, m) * Symbol(a, n)
  {
    OddProduct(m, n);
    hide Symbol;
    SymbolReciprocity(a, m * n);
    SymbolReciprocity(a, m);
    SymbolReciprocity(a, n);
    SymbolMultiplicative(m, n, a);
    Negations(Symbol(m, a), Symbol(n, a));
  }

  lemma ResiduesOfFactor(a: int, b: int, m: int, n: int, k: int)
    requires m > 0 && k > 0 && k == m * n && a % k == b % k
    ensures a % m == b % m
  {
    var j := CongWitness(a, b, k);
    assert j * k == (j * n) * m;
    CongFromWitness(a, b, j * n, m);
  }

  /** An odd positive number with the residue of a. */
  lemma OddRepresentative(a: int, k: int) returns (b: int)
    requires OddModulus(k)
    ensures b > 0 && b % 2 == 1 && b % k == a % k
  {
    DivMod(a, k);
    ModMod(a, k);
    b := a % k;
    if b % 2 == 0 {
      ModAddMultiple(b, 1, k);
      b := b + k;
    }
  }

  lemma SameSymbols(a: int, b: int, m: int, n: int, k: int)
    requires m > 0 && n > 0 && k > 0 && k == m * n && a % k == b % k
    ensures Symbol(a, k) == Symbol(b, k) && Symbol(a, m) == Symbol(b, m) && Symbol(a, n) == Symbol(b, n)
  {
    hide Symbol;
    ResiduesOfFactor(a, b, m, n, k);
    ResiduesOfFactor(a, b, n, m, k);
    SymbolPeriodic(a, b, k);
    SymbolPeriodic(a, b, m);
    SymbolPeriodic(a, b, n);
  }

  /** The symbol is multiplicative in its modulus as well. */
  lemma ModulusSplits(a: int, m: int, n: int)
    requires OddModulus(m) && OddModulus(n)
    ensures Symbol(a, m * n) == Symbol(a, m) * Symbol(a, n)
  {
    OddProduct(m, n);
    var b := OddRepresentative(a, m * n);
    hide Symbol;
    SameSymbols(a, b, m, n, m * n);
    if b == 1 {
      SymbolOfOne(m * n);
      SymbolOfOne(m);
      SymbolOfOne(n);
    } else {
      OddModulusSplits(b, m, n);
    }
  }

  ghost predicate OddPrimes(ps: seq<int>) {
    forall i :: 0 <= i < |ps| ==> OddPrimeModulus(ps[i])
  }

  ghost function LegendreProduct(a: int, ps: seq<int>): int
    requires OddPrimes(ps)
  {
    if ps == [] then 1 else LegendreProduct(a, ps[..|ps| - 1]) * Legendre(a, ps[|ps| - 1])
  }

  /** The answer of `jacobi` is the Jacobi symbol by its definition: the product of the Legendre
      symbols over the prime factors of the modulus, each as often as it occurs. */
  lemma {:induction false} JacobiSymbol(a: int, ps: seq<int>)
    requires OddPrimes(ps) && ps != []
    ensures OddModulus(Product(ps)) && Symbol(a, Product(ps)) == LegendreProduct(a, ps)
  {
    hide Symbol, Legendre;
    var k := |ps| - 1;
    LegendreSymbol(a, ps[k]);
    if k == 0 {
      assert Product(ps) == Product([]) * ps[0] == ps[0];
      assert LegendreProduct(a, []) == 1 && ps[..k] == [];
    } else {
      JacobiSymbol(a, ps[..k]);
      OddProduct(Product(ps[..k]), ps[k]);
      ModulusSplits(a, Product(ps[..k]), ps[k]);
    }
  }

  /** Every modulus that `jacobi` accepts is such a product. */
  lemma {:induction false} OddPrimeFactors(n: int) returns (ps: seq<int>)
    requires OddModulus(n)
    ensures OddPrimes(ps) && ps != [] && Product(ps) == n
    decreases n
  {
    var p := PrimeDivisor(n);
    var q := DividesWitness(p, n);
    OddFactors(n, p, q);
    if q == 1 {
      ps := [p];
      assert Product([]) == 1 && ps[..0] == [];
    } else {
      ps := OddPrimeFactors(q);
      var longer := ps + [p];
      assert longer[..|longer| - 1] == ps;
      ps := longer;
    }
  }

  lemma OddFactors(n: int, p: int, q: int)
    requires OddModulus(n) && p >= 2 && n == q * p
    ensures p >= 3 && p % 2 == 1 && q % 2 == 1 && 1 <= q < n
  {
    ModMul(q, p, 2);
    if q <= 0 { MulMono(q, 0, p); }
    MulMono(2, p, q);
  }
}
