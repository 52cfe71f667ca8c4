/** The quadratic symbol of an integer modulo an odd number, defined by counting sign changes
    (Gauss and Schering), and the laws it obeys: multiplicativity, the law for 2 and reciprocity.
    This definition knows nothing of the algorithm in `jacobi`; Jacobi.dfy proves they agree. */
module Reciprocity {
  import opened Integers
  import opened Powers
  import opened Permutations
  import opened E = Euclid

  /** The residue of a*i, folded into 1..n/2 by a change of sign when it is above n/2. */
  function Fold(a: int, i: int, n: int): int
    requires n > 0
  {
    var r := (a * i) % n;
    if r <= n / 2 then r else n - r
  }

  /** 1 when folding changes the sign. */
  function Flip(a: int, i: int, n: int): int
    requires n > 0
  {
    if (a * i) % n <= n / 2 then 0 else 1
  }

  function Flips(a: int, k: nat, n: int): nat
    requires n > 0
  {
    if k == 0 then 0 else Flips(a, k - 1, n) + Flip(a, k, n)
  }

  /** The symbol: 0 when a and n have a common factor, else the parity of the sign changes among
      a, 2a, ..., (n/2)a. */
  function Symbol(a: int, n: int): int
    requires n > 0
  {
    if !Coprime(a % n, n) then 0 else Sign(Flips(a, n / 2, n))
  }

  function Sign(k: int): int {
    if k % 2 == 0 then 1 else -1
  }

  predicate OddModulus(n: int) {
    n >= 3 && n % 2 == 1
  }

  lemma SignSum(j: int, k: int)
    ensures Sign(j + k) == Sign(j) * Sign(k)
  {}

  lemma SignParity(j: int, k: int)
    requires (j - k) % 2 == 0
    ensures Sign(j) == Sign(k)
  {}

  // --- folding permutes 1..n/2 ---

  lemma CoprimeNotDivides(a: int, n: int, i: int)
    requires OddModulus(n) && Coprime(a % n, n) && Divides(n, a * i)
    ensures Divides(n, i)
  {
    ModMul(a, i, n);
    GaussLemma(n, a % n, i);
  }

  lemma FoldRange(a: int, i: int, n: int)
    requires OddModulus(n) && Coprime(a % n, n) && 1 <= i <= n / 2
    ensures 1 <= Fold(a, i, n) <= n / 2
  {
    DivMod(a * i, n);
    if (a * i) % n == 0 {
      CoprimeNotDivides(a, n, i);
      DividesBound(n, i);
    }
  }

  /** a*i is congruent to its folded value, up to the recorded sign. */
  lemma FoldCong(a: int, i: int, n: int)
    requires n > 0
    ensures (a * i) % n == (if Flip(a, i, n) == 0 then Fold(a, i, n) else -Fold(a, i, n)) % n
  {
    var r := (a * i) % n;
    ModMod(a * i, n);
    ModAddMultiple(r - n, 1, n);
  }

  /** Only one of f and -f in 1..n/2 can be congruent to a given number, and only one f. */
  lemma FoldUnique(n: int, f: int, g: int, e: int)
    requires OddModulus(n) && 1 <= f <= n / 2 && 1 <= g <= n / 2 && (e == 1 || e == -1)
    requires f % n == (e * g) % n
    ensures e == 1 && f == g
  {
    CongDiff(f, e * g, n);
    if e == 1 {
      ModSmall(f, n);
      ModSmall(g, n);
    } else {
      DividesBound(n, f + g);
    }
  }

  function Folds(a: int, n: int): (s: seq<int>)
    requires n > 0
    ensures |s| == n / 2 && forall i :: 0 <= i < |s| ==> s[i] == Fold(a, i + 1, n)
  {
    seq(n / 2, i => Fold(a, i + 1, n))
  }

  lemma FoldInjective(a: int, n: int, i: int, j: int)
    requires OddModulus(n) && Coprime(a % n, n) && 1 <= i < j <= n / 2
    ensures Fold(a, i, n) != Fold(a, j, n)
  {
    var f := Fold(a, i, n);
    if f == Fold(a, j, n) {
      FoldCong(a, i, n);
      FoldCong(a, j, n);
      if Flip(a, i, n) == Flip(a, j, n) {
        CongDiff(a * j, a * i, n);
        assert a * j - a * i == a * (j - i);
        CoprimeNotDivides(a, n, j - i);
        DividesBound(n, j - i);
      } else {
        CongAdd(f, f, -f, -f, n);
        var x, y := if Flip(a, i, n) == 0 then i else j, if Flip(a, i, n) == 0 then j else i;
        CongAdd(a * x, f, a * y, -f, n);
        assert a * x + a * y == a * (i + j);
        ModSmall(0, n);
        CoprimeNotDivides(a, n, i + j);
        DividesBound(n, i + j);
      }
    }
  }

  lemma FoldsPermute(a: int, n: int)
    requires OddModulus(n) && Coprime(a % n, n)
    ensures multiset(Folds(a, n)) == multiset(Iota(n / 2))
  {
    var s := Folds(a, n);
    forall i | 0 <= i < |s| ensures 1 <= s[i] <= n / 2 {
      FoldRange(a, i + 1, n);
    }
    forall i, j | 0 <= i < j < |s| ensures s[i] != s[j] {
      FoldInjective(a, n, i + 1, j + 1);
    }
    PermutationOfIota(s, n / 2);
  }

  // --- the symbol depends on the residue only ---

  lemma {:induction false} FlipsPeriodic(a: int, b: int, k: nat, n: int)
    requires n > 0 && a % n == b % n
    ensures Flips(a, k, n) == Flips(b, k, n)
  {
    if k > 0 {
      FlipsPeriodic(a, b, k - 1, n);
      CongMul(a, b, k, k, n);
    }
  }

  lemma SymbolPeriodic(a: int, b: int, n: int)
    requires n > 0 && a % n == b % n
    ensures Symbol(a, n) == Symbol(b, n)
  {
    FlipsPeriodic(a, b, n / 2, n);
  }

  lemma {:induction false} NoFlipsForOne(k: nat, n: int)
    requires OddModulus(n) && k <= n / 2
    ensures Flips(1, k, n) == 0
  {
    if k > 0 {
      NoFlipsForOne(k - 1, n);
      ModSmall(k, n);
    }
  }

  lemma SymbolOfOne(n: int)
    requires OddModulus(n)
    ensures Symbol(1, n) == 1
  {
    ModSmall(1, n);
    NoFlipsForOne(n / 2, n);
    CoprimeOne(n);
  }

  lemma CoprimeOne(n: nat)
    ensures Coprime(1, n)
  {
    assert Gcd(1, n) == Gcd(n % 1, 1) == Gcd(0, 1);
  }

  // --- multiplicativity ---

  /** The sign that folding a*i recorded. */
  function FoldSign(a: int, i: int, n: int): int
    requires n > 0
  {
    if Flip(a, i, n) == 0 then 1 else -1
  }

  lemma FlipOfProduct(a: int, b: int, i: int, n: int)
    requires OddModulus(n) && Coprime(a % n, n) && Coprime(b % n, n) && Coprime((a * b) % n, n) && 1 <= i <= n / 2
    ensures (Flip(a * b, i, n) - (Flip(b, i, n) + Flip(a, Fold(b, i, n), n))) % 2 == 0
  {
    var f := Fold(b, i, n);
    FoldRange(b, i, n);
    FoldRange(a, f, n);
    FoldRange(a * b, i, n);
    var g, h := Fold(a, f, n), Fold(a * b, i, n);
    var eb, ea, eh := FoldSign(b, i, n), FoldSign(a, f, n), FoldSign(a * b, i, n);
    FoldTwice(a, b, i, n);
    CongMul(eh, eh, eh * h, eb * (ea * g), n);
    SignsCollect(eh, eb, ea, h, g);
    FoldUnique(n, h, g, eh * (eb * ea));
    OppositeSigns(eh, eb, ea);
  }

  lemma OppositeSigns(e: int, b: int, a: int)
    requires (e == 1 || e == -1) && (a == 1 || a == -1) && (b == 1 || b == -1) && e * (b * a) == 1
    ensures e == b * a
  {}

  lemma FoldTwice(a: int, b: int, i: int, n: int)
    requires n > 0
    ensures (FoldSign(a * b, i, n) * Fold(a * b, i, n)) % n
         == (FoldSign(b, i, n) * (FoldSign(a, Fold(b, i, n), n) * Fold(a, Fold(b, i, n), n))) % n
  {
    var f, eb := Fold(b, i, n), FoldSign(b, i, n);
    SignedFoldCong(b, i, n);
    SignedFoldCong(a, f, n);
    SignedFoldCong(a * b, i, n);
    CongMul(a, a, b * i, eb * f, n);
    CongMul(eb, eb, a * f, FoldSign(a, f, n) * Fold(a, f, n), n);
    MulAssoc(a, b, i);
    Exchange(a, eb, f);
  }

  lemma Exchange(a: int, e: int, f: int)
    ensures a * (e * f) == e * (a * f)
  {}

  lemma SignedFoldCong(a: int, i: int, n: int)
    requires n > 0
    ensures (a * i) % n == (FoldSign(a, i, n) * Fold(a, i, n)) % n
  {
    FoldCong(a, i, n);
  }

  lemma SignsCollect(e: int, b: int, a: int, h: int, g: int)
    requires (e == 1 || e == -1) && (a == 1 || a == -1) && (b == 1 || b == -1)
    ensures e * (e * h) == h && e * (b * (a * g)) == (e * (b * a)) * g
    ensures e * (b * a) == 1 || e * (b * a) == -1
  {}

  lemma {:induction false} FlipsIsSum(f: int -> int, a: int, k: nat, n: int)
    requires n > 0 && forall i :: f(i) == Flip(a, i, n)
    ensures Flips(a, k, n) == Sum(Map(f, Iota(k)))
  {
    if k > 0 {
      FlipsIsSum(f, a, k - 1, n);
      assert Map(f, Iota(k))[..k - 1] == Map(f, Iota(k - 1));
    }
  }

  lemma {:induction false} ProductFlipsPrefix(f: int -> int, a: int, b: int, k: nat, n: int)
    requires OddModulus(n) && Coprime(a % n, n) && Coprime(b % n, n) && Coprime((a * b) % n, n) && k <= n / 2
    requires forall i :: f(i) == Flip(a, i, n)
    ensures (Flips(a * b, k, n) - (Flips(b, k, n) + Sum(Map(f, Folds(b, n)[..k])))) % 2 == 0
  {
    if k > 0 {
      ProductFlipsPrefix(f, a, b, k - 1, n);
      FlipOfProduct(a, b, k, n);
      assert Map(f, Folds(b, n)[..k])[..k - 1] == Map(f, Folds(b, n)[..k - 1]);
    }
  }

  lemma CoprimeProduct(a: int, b: int, n: int)
    requires n > 0
    ensures Coprime((a * b) % n, n) <==> Coprime(a % n, n) && Coprime(b % n, n)
  {
    var x, y, z := a % n, b % n, (a * b) % n;
    ModMul(a, b, n);
    DivMod(x * y, n);
    var q := (x * y) / n;
    if Coprime(x, n) && Coprime(y, n) {
      forall d | d > 0 && Divides(d, z) && Divides(d, n) ensures d == 1 {
        DividesProduct(d, n, q);
        DividesSum(d, q * n, z);
        CoprimeToDivisor(x, n, d);
        GaussLemma(d, x, y);
        CoprimeNoCommonDivisor(y, n, d);
      }
      CoprimeIntro(z, n);
    }
    if Coprime(z, n) {
      forall d | d > 0 && Divides(d, x) && Divides(d, n) ensures d == 1 {
        CommonFactorOfProduct(d, x, y, z, q, n);
      }
      CoprimeIntro(x, n);
      forall d | d > 0 && Divides(d, y) && Divides(d, n) ensures d == 1 {
        CommonFactorOfProduct(d, y, x, z, q, n);
      }
      CoprimeIntro(y, n);
    }
  }

  lemma CommonFactorOfProduct(d: int, x: int, y: int, z: nat, q: int, n: nat)
    requires d > 0 && Divides(d, x) && Divides(d, n) && x * y == q * n + z && Coprime(z, n)
    ensures d == 1
  {
    DividesProduct(d, x, y);
    DividesProduct(d, n, q);
    DividesSum(d, x * y, q * n);
    CoprimeNoCommonDivisor(z, n, d);
  }

  lemma SymbolMultiplicative(a: int, b: int, n: int)
    requires OddModulus(n)
    ensures Symbol(a * b, n) == Symbol(a, n) * Symbol(b, n)
  {
    CoprimeProduct(a, b, n);
    if Coprime((a * b) % n, n) {
      FlipsOfProduct(a, b, n);
      SignParity(Flips(a * b, n / 2, n), Flips(b, n / 2, n) + Flips(a, n / 2, n));
      SignSum(Flips(b, n / 2, n), Flips(a, n / 2, n));
    }
  }

  lemma FlipsOfProduct(a: int, b: int, n: int)
    requires OddModulus(n) && Coprime(a % n, n) && Coprime(b % n, n) && Coprime((a * b) % n, n)
    ensures Even(Flips(a * b, n / 2, n) - (Flips(b, n / 2, n) + Flips(a, n / 2, n)))
  {
    var f := i => Flip(a, i, n);
    ProductFlipsPrefix(f, a, b, n / 2, n);
    assert Folds(b, n)[..n / 2] == Folds(b, n);
    FoldsPermute(b, n);
    MapSameElements(f, Folds(b, n), Iota(n / 2));
    FlipsIsSum(f, a, n / 2, n);
  }

  // --- counting sign changes by quotients ---

  function Quotients(a: int, k: nat, n: int): int
    requires n > 0
  {
    if k == 0 then 0 else Quotients(a, k - 1, n) + (a * k) / n
  }

  /** The four counts at k from those at k - 1. */
  lemma UnfoldCounts(a: int, k: nat, n: int)
    requires OddModulus(n) && 0 < k <= n / 2
    ensures Flips(a, k, n) == Flips(a, k - 1, n) + Flip(a, k, n)
    ensures Sum(Iota(k)) == Sum(Iota(k - 1)) + k
    ensures Quotients(a, k, n) == Quotients(a, k - 1, n) + (a * k) / n
    ensures Sum(Folds(a, n)[..k]) == Sum(Folds(a, n)[..k - 1]) + Fold(a, k, n)
  {
    assert Iota(k)[..k - 1] == Iota(k - 1);
    var s := Folds(a, n);
    assert s[..k][..k - 1] == s[..k - 1] && s[k - 1] == Fold(a, k, n);
    hide Fold, Flip;
  }

  /** By how much the sign changes exceed what the quotients say, for one multiple and for k of them. */
  function Excess(a: int, k: nat, n: int): int
    requires n > 0
  {
    Flip(a, k, n) - (a * k + (a * k) / n + Fold(a, k, n))
  }

  function TotalExcess(a: int, k: nat, n: int): int
    requires OddModulus(n) && k <= n / 2
  {
    Flips(a, k, n) - (a * Sum(Iota(k)) + Quotients(a, k, n) + Sum(Folds(a, n)[..k]))
  }

  lemma ExcessAddsUp(a: int, k: nat, n: int)
    requires OddModulus(n) && 0 < k <= n / 2
    ensures TotalExcess(a, k, n) == TotalExcess(a, k - 1, n) + Excess(a, k, n)
  {
    hide Sum, Iota, Folds, Fold, Flip, Flips, Quotients;
    UnfoldCounts(a, k, n);
    DistributeLeft(a, Sum(Iota(k - 1)), k);
  }

  lemma {:induction false} FlipsByQuotients(a: int, k: nat, n: int)
    requires OddModulus(n) && k <= n / 2
    ensures Even(TotalExcess(a, k, n))
  {
    if k > 0 {
      FlipStep(a, k, n);
      hide Excess, TotalExcess, Even;
      FlipsByQuotients(a, k - 1, n);
      ExcessAddsUp(a, k, n);
      EvenSum(TotalExcess(a, k - 1, n), Excess(a, k, n));
    }
  }

  predicate Even(x: int) {
    x % 2 == 0
  }

  lemma EvenSum(x: int, y: int)
    requires Even(x) && Even(y)
    ensures Even(x + y)
  {}

  lemma FlipStep(a: int, k: nat, n: int)
    requires OddModulus(n)
    ensures Even(Excess(a, k, n))
  {
    var x := a * k;
    var q, r := x / n, x % n;
    DivMod(x, n);
    OddTimes(q, n);
    EvenExcess(x, q * n, q, r, n);
    hide Even;
  }

  lemma EvenExcess(x: int, w: int, q: int, r: int, n: int)
    requires x == w + r && (w - q) % 2 == 0 && n % 2 == 1
    ensures Even(0 - (x + q + r)) && Even(1 - (x + q + (n - r)))
  {}

  lemma OddTimes(q: int, n: int)
    requires n % 2 == 1
    ensures (q * n - q) % 2 == 0
  {
    assert n == 2 * (n / 2) + 1;
    assert q * n - q == 2 * (q * (n / 2)) by { assert q * n == q * (2 * (n / 2)) + q; }
  }

  lemma {:induction false} SumOfIota(k: nat)
    ensures 2 * Sum(Iota(k)) == k * (k + 1)
  {
    if k > 0 {
      SumOfIota(k - 1);
      assert Iota(k)[..k - 1] == Iota(k - 1);
    }
  }

  /** The parity of the sign changes: (a - 1) times a triangular number, plus the quotients. */
  lemma FlipsParity(a: int, n: int)
    requires OddModulus(n) && Coprime(a % n, n)
    ensures Even(Flips(a, n / 2, n) - ((a - 1) * Sum(Iota(n / 2)) + Quotients(a, n / 2, n)))
  {
    hide Flips, Quotients, Sum, Iota, Coprime, Even;
    FlipsByQuotients(a, n / 2, n);
    FoldsPermute(a, n);
    SameElements(Folds(a, n), Iota(n / 2));
    assert Folds(a, n)[..n / 2] == Folds(a, n);
    DropTwice(Flips(a, n / 2, n), a, Sum(Iota(n / 2)), Quotients(a, n / 2, n));
  }

  lemma DropTwice(f: int, a: int, t: int, q: int)
    requires Even(f - (a * t + q + t))
    ensures Even(f - ((a - 1) * t + q))
  {
    Distribute(a, 1, t);
    EvenSum(f - (a * t + q + t), 2 * t);
  }

  // --- the law for 2 ---

  lemma {:induction false} NoQuotientsForTwo(k: nat, n: int)
    requires OddModulus(n) && k <= n / 2
    ensures Quotients(2, k, n) == 0
  {
    if k > 0 {
      NoQuotientsForTwo(k - 1, n);
      ModUnique(2 * k, n, 0, 2 * k);
    }
  }

  lemma SymbolOfTwo(n: int)
    requires OddModulus(n)
    ensures Symbol(2, n) == if n % 8 == 1 || n % 8 == 7 then 1 else -1
  {
    ModSmall(2, n);
    CoprimeTwo(n);
    FlipsParity(2, n);
    NoQuotientsForTwo(n / 2, n);
    SumOfIota(n / 2);
    TriangularParity(n, n / 2, Sum(Iota(n / 2)));
    SignParity(Flips(2, n / 2, n), Sum(Iota(n / 2)));
  }

  lemma CoprimeTwo(n: nat)
    requires n % 2 == 1
    ensures Coprime(2, n)
  {
    assert Gcd(2, n) == Gcd(n % 2, 2) == Gcd(1, 2) == Gcd(2 % 1, 1) == Gcd(0, 1);
  }

  lemma TriangularParity(n: int, h: int, t: int)
    requires n == 2 * h + 1 && 2 * t == h * (h + 1)
    ensures Even(t) <==> n % 8 == 1 || n % 8 == 7
  {
    var q, r := h / 4, h % 4;
    Triangle(q, r, h);
    var x := if r == 0 then 4 * (q * q) + q else if r == 1 then 4 * (q * q) + 3 * q
             else if r == 2 then 4 * (q * q) + 5 * q + 1 else 4 * (q * q) + 7 * q + 3;
    assert t == 2 * x + (if r == 1 || r == 2 then 1 else 0);
  }

  lemma Triangle(q: int, r: int, h: int)
    requires h == 4 * q + r
    ensures h * (h + 1) == 16 * (q * q) + 8 * (r * q) + r * r + 4 * q + r
  {}

  // --- reciprocity: counting lattice points on either side of a diagonal ---

  /** How many j in 1..k satisfy n*j < a*i. */
  function Row(a: int, n: int, i: int, k: nat): nat {
    if k == 0 then 0 else Row(a, n, i, k - 1) + (if n * k < a * i then 1 else 0)
  }

  function Grid(a: int, n: int, h: nat, k: nat): nat {
    if h == 0 then 0 else Grid(a, n, h - 1, k) + Row(a, n, h, k)
  }

  lemma {:induction false} RowIsQuotient(a: int, n: int, i: int, k: nat)
    requires n > 0 && a * i >= 0 && (a * i) % n != 0
    ensures Row(a, n, i, k) == if (a * i) / n <= k then (a * i) / n else k
  {
    DivMod(a * i, n);
    var q := (a * i) / n;
    QuotientNonNegative(a * i, n);
    if k > 0 {
      RowIsQuotient(a, n, i, k - 1);
      if k <= q { MulMono(k, q, n); } else { MulMono(q + 1, k, n); Distribute(q, 1, n); }
    }
  }

  lemma NoDiagonal(a: int, n: int, i: int)
    requires OddModulus(n) && Coprime(a % n, n) && 1 <= i <= n / 2
    ensures (a * i) % n != 0
  {
    if Divides(n, a * i) {
      CoprimeNotDivides(a, n, i);
      DividesBound(n, i);
    }
  }

  lemma {:induction false} GridIsQuotients(a: int, n: int, h: nat)
    requires OddModulus(n) && OddModulus(a) && Coprime(a % n, n) && h <= n / 2
    ensures Grid(a, n, h, a / 2) == Quotients(a, h, n)
  {
    if h > 0 {
      GridIsQuotients(a, n, h - 1);
      NoDiagonal(a, n, h);
      MulMono(0, a, h);
      RowIsQuotient(a, n, h, a / 2);
      RowFits(a, n, h);
    }
  }

  lemma RowFits(a: int, n: int, i: int)
    requires OddModulus(n) && OddModulus(a) && 1 <= i <= n / 2
    ensures (a * i) / n <= a / 2
  {
    DivMod(a * i, n);
    var q := (a * i) / n;
    if q >= a / 2 + 1 {
      MulMono(2 * i, n - 1, a);
      MulMono(a + 1, 2 * q, n);
    }
  }

  /** The new column holds every point of it on one side or the other. */
  lemma {:induction false} Column(a: int, n: int, h: nat, k: nat)
    requires OddModulus(n) && OddModulus(a) && Coprime(a % n, n) && 1 <= h <= n / 2
    ensures Row(a, n, h, k) + Grid(n, a, k, h) == k + Grid(n, a, k, h - 1)
  {
    if k > 0 {
      Column(a, n, h, k - 1);
      if n * k == a * h {
        NoDiagonal(a, n, h);
        DividesIntro(n, a * h, k);
      }
    }
  }

  lemma {:induction false} GridsFillRectangle(a: int, n: int, h: nat, k: nat)
    requires OddModulus(n) && OddModulus(a) && Coprime(a % n, n) && h <= n / 2
    ensures Grid(a, n, h, k) + Grid(n, a, k, h) == h * k
  {
    if h == 0 {
      EmptyGrid(n, a, k);
    } else {
      GridsFillRectangle(a, n, h - 1, k);
      Column(a, n, h, k);
      assert h * k == (h - 1) * k + k;
    }
  }

  lemma {:induction false} EmptyGrid(a: int, n: int, h: nat)
    ensures Grid(a, n, h, 0) == 0
  {
    if h > 0 { EmptyGrid(a, n, h - 1); }
  }

  lemma CoprimeBothWays(a: int, n: int)
    requires OddModulus(n) && OddModulus(a)
    ensures Coprime(a % n, n) <==> Coprime(n % a, a)
  {
    GcdSymmetric(a, n);
    assert Gcd(n, a) == Gcd(a % n, n) && Gcd(a, n) == Gcd(n % a, a);
  }

  lemma OddSymbol(a: int, n: int)
    requires OddModulus(n) && OddModulus(a) && Coprime(a % n, n)
    ensures Symbol(a, n) == Sign(Quotients(a, n / 2, n))
  {
    FlipsParity(a, n);
    OddFactorParity(Flips(a, n / 2, n), a, Sum(Iota(n / 2)), Quotients(a, n / 2, n));
    SignParity(Flips(a, n / 2, n), Quotients(a, n / 2, n));
  }

  lemma OddFactorParity(x: int, a: int, t: int, q: int)
    requires a % 2 == 1 && Even(x - ((a - 1) * t + q))
    ensures Even(x - q)
  {
    EvenTimes(a / 2, a - 1, t);
    EvenSum(x - ((a - 1) * t + q), 2 * ((a / 2) * t));
  }

  lemma EvenTimes(h: int, a: int, t: int)
    requires a == 2 * h
    ensures a * t == 2 * (h * t)
  {}

  /** Quadratic reciprocity for any two odd numbers, coprime or not. */
  lemma SymbolReciprocity(a: int, n: int)
    requires OddModulus(n) && OddModulus(a)
    ensures Symbol(a, n) == if n % 4 == 3 && a % 4 == 3 then -Symbol(n, a) else Symbol(n, a)
  {
    CoprimeBothWays(a, n);
    if Coprime(a % n, n) {
      OddSymbol(a, n);
      OddSymbol(n, a);
      QuotientsFillRectangle(a, n);
      SplitSign(Quotients(a, n / 2, n), Quotients(n, a / 2, a), n / 2, a / 2);
      HalfParity(n);
      HalfParity(a);
    }
  }

  lemma HalfParity(n: int)
    requires n % 2 == 1
    ensures (n / 2) % 2 == 1 <==> n % 4 == 3
  {}

  lemma SplitSign(x: int, y: int, h: int, k: int)
    requires x + y == h * k
    ensures Sign(x) == if h % 2 == 1 && k % 2 == 1 then -Sign(y) else Sign(y)
  {
    ProductParity(h, k);
  }

  lemma QuotientsFillRectangle(a: int, n: int)
    requires OddModulus(n) && OddModulus(a) && Coprime(a % n, n)
    ensures Quotients(a, n / 2, n) + Quotients(n, a / 2, a) == (n / 2) * (a / 2)
  {
    CoprimeBothWays(a, n);
    GridIsQuotients(a, n, n / 2);
    GridIsQuotients(n, a, a / 2);
    GridsFillRectangle(a, n, n / 2, a / 2);
  }

  lemma ProductParity(h: int, k: int)
    ensures (h * k) % 2 == 1 <==> h % 2 == 1 && k % 2 == 1
  {
    var u := h / 2;
    if h % 2 == 0 {
      EvenTimes(u, h, k);
    } else {
      EvenTimes(u, h - 1, k);
      Distribute(h - 1, 1, k);
      Shift(h * k, k, u * k);
    }
  }

  lemma Shift(x: int, k: int, w: int)
    requires x == 2 * w + k
    ensures x % 2 == k % 2
  {}
}
