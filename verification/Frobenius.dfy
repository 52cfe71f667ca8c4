/** The p-th power of X in Z_p[X]/(X^2 - bX + a) when b^2 - 4a is not a square modulo p. */
module Frobenius {
  import opened Integers
  import opened Powers
  import opened Primes
  import opened Polynomials
  import opened Reciprocity
  import J = Jacobi

  // --- binomial coefficients and the p-th power of a sum ---

  function Choose(n: nat, k: nat): nat {
    if k == 0 then 1 else if n == 0 then 0 else Choose(n - 1, k) + Choose(n - 1, k - 1)
  }

  lemma {:induction false} ChooseAbove(n: nat, k: nat)
    requires k > n
    ensures Choose(n, k) == 0
  {
    if n > 0 {
      ChooseAbove(n - 1, k);
      ChooseAbove(n - 1, k - 1);
    }
  }

  lemma {:induction false} ChooseAll(n: nat)
    ensures Choose(n, n) == 1
  {
    if n > 0 {
      ChooseAll(n - 1);
      ChooseAbove(n - 1, n);
    }
  }

  lemma {:induction false} Absorption(n: nat, k: nat)
    requires n >= 1 && k >= 1
    ensures k * Choose(n, k) == n * Choose(n - 1, k - 1)
  {
    if n == 1 {
      if k > 1 { ChooseAbove(1, k); ChooseAbove(0, k - 1); }
    } else {
      Absorption(n - 1, k);
      if k > 1 {
        Absorption(n - 1, k - 1);
      }
      PascalStep(n, k, Choose(n - 1, k), Choose(n - 1, k - 1), Choose(n - 2, k - 1),
                 if k == 1 then 0 else Choose(n - 2, k - 2));
    }
  }

  lemma PascalStep(n: int, k: int, x: int, y: int, u: int, v: int)
    requires k * x == (n - 1) * u && (k - 1) * y == (n - 1) * v && y == u + v
    ensures k * (x + y) == n * y
  {
    Distribute(k, 1, y);
    assert (n - 1) * y == (n - 1) * u + (n - 1) * v;
    Distribute(n, 1, y);
    assert k * (x + y) == k * x + k * y;
  }

  lemma PrimeDividesChoose(p: int, k: nat)
    requires IsPrime(p) && 1 <= k < p
    ensures Divides(p, Choose(p, k))
  {
    Absorption(p, k);
    DividesIntro(p, k * Choose(p, k), Choose(p - 1, k - 1));
    EuclidsLemma(p, k, Choose(p, k));
    NotDividesSmall(p, k);
  }

  /** The coefficients of (y + b)^n as a polynomial in y. */
  function Binomial(b: int, n: nat): Poly {
    if n == 0 then [1] else Add(Scale(b, Binomial(b, n - 1)), [0] + Binomial(b, n - 1))
  }

  lemma {:induction false} EvalBinomial(b: int, n: nat, y: int)
    ensures Eval(Binomial(b, n), y) == Pow(y + b, n)
  {
    if n == 0 {
      EvalCons(1, [], y);
    } else {
      EvalBinomial(b, n - 1, y);
      var t := Binomial(b, n - 1);
      EvalAdd(Scale(b, t), [0] + t, y);
      EvalScale(b, t, y);
      EvalCons(0, t, y);
      Distribute(y, b, Pow(y + b, n - 1));
    }
  }

  lemma {:induction false} BinomialLength(b: int, n: nat)
    ensures |Binomial(b, n)| == n + 1
  {
    if n > 0 {
      BinomialLength(b, n - 1);
      AddLength(Scale(b, Binomial(b, n - 1)), [0] + Binomial(b, n - 1));
    }
  }

  lemma BinomialRow(b: int, n: nat, k: int)
    requires n >= 1
    ensures Coef(Binomial(b, n), k) == b * Coef(Binomial(b, n - 1), k) + Coef(Binomial(b, n - 1), k - 1)
  {
    var t := Binomial(b, n - 1);
    CoefAdd(Scale(b, t), [0] + t, k);
    assert Coef([0] + t, k) == Coef(t, k - 1);
  }

  /** Pascal's rule, and the power that goes with it. */
  lemma UnfoldBinomial(b: int, n: nat, k: nat)
    requires k < n
    ensures Pow(b, n - k) == b * Pow(b, n - k - 1)
    ensures Choose(n, k) == Choose(n - 1, k) + if k > 0 then Choose(n - 1, k - 1) else 0
    ensures k == 0 ==> Coef(Binomial(b, n - 1), k - 1) == 0
  {}

  lemma {:induction false} BinomialCoef(b: int, n: nat, k: nat)
    requires k <= n
    ensures Coef(Binomial(b, n), k) == Choose(n, k) * Pow(b, n - k)
  {
    if n == 0 {
    } else if k < n {
      hide Coef, Binomial, Choose, Pow;
      BinomialRow(b, n, k);
      UnfoldBinomial(b, n, k);
      BinomialCoef(b, n - 1, k);
      if k > 0 {
        BinomialCoef(b, n - 1, k - 1);
      } else {
        MulZero(Pow(b, n - k));
      }
      BinomialStep(b, Choose(n - 1, k), if k > 0 then Choose(n - 1, k - 1) else 0, Pow(b, n - k - 1), Pow(b, n - k),
                   Coef(Binomial(b, n - 1), k), Coef(Binomial(b, n - 1), k - 1), Choose(n, k),
                   Coef(Binomial(b, n), k));
    } else {
      TopOfBinomial(b, n);
    }
  }

  lemma {:induction false} TopOfBinomial(b: int, n: nat)
    ensures Coef(Binomial(b, n), n) == 1 == Choose(n, n) && Pow(b, 0) == 1
  {
    ChooseAll(n);
    if n > 0 {
      TopOfBinomial(b, n - 1);
      BinomialRow(b, n, n);
      BinomialLength(b, n - 1);
      MulZero(b);
    }
  }

  lemma MulZero(b: int)
    ensures b * 0 == 0 == 0 * b
  {}

  lemma BinomialStep(b: int, x: int, y: int, w: int, z: int, c: int, d: int, u: int, t: int)
    requires z == b * w && c == x * w && d == y * z && u == x + y && t == b * c + d
    ensures t == u * z
  {
    Distribute(x, y, z);
    assert b * (x * w) == x * (b * w);
  }

  /** (y + b)^p == y^p + b^p + p*R(y) for a polynomial R. */
  lemma PowerOfSum(b: int, p: int) returns (r: Poly)
    requires IsPrime(p)
    ensures forall y :: Eval(r, y) * p + Pow(y, p) + Pow(b, p) == Pow(y + b, p)
  {
    var t := Binomial(b, p);
    BinomialLength(b, p);
    var ends := [Pow(b, p)] + Zeros(p - 1) + [1];
    r := seq(p + 1, k requires 0 <= k <= p => if 1 <= k < p then t[k] / p else 0);
    forall k | 0 <= k <= p ensures t[k] == ends[k] + Zeros(p + 1)[k] + p * r[k] {
      MiddleCoef(b, p, k);
    }
    forall y ensures Eval(r, y) * p + Pow(y, p) + Pow(b, p) == Pow(y + b, p) {
      EvalLinear(t, ends, Zeros(p + 1), r, p, y);
      EvalBinomial(b, p, y);
      EvalLast([Pow(b, p)] + Zeros(p - 1), 1, y);
      EvalCons(Pow(b, p), Zeros(p - 1), y);
      ZerosVanish(p - 1, y);
      ZerosVanish(p + 1, y);
    }
  }

  lemma ZerosVanish(n: nat, y: int)
    ensures Eval(Zeros(n), y) == 0
  {
    EvalZeros(n, [], y);
    assert Zeros(n) + [] == Zeros(n);
  }

  lemma MiddleCoef(b: int, p: int, k: nat)
    requires IsPrime(p) && k <= p
    ensures |Binomial(b, p)| == p + 1
    ensures k == 0 ==> Binomial(b, p)[k] == Pow(b, p)
    ensures k == p ==> Binomial(b, p)[k] == 1
    ensures 1 <= k < p ==> Binomial(b, p)[k] == p * (Binomial(b, p)[k] / p)
  {
    BinomialLength(b, p);
    BinomialCoef(b, p, k);
    if k == p {
      ChooseAll(p);
    } else if k >= 1 {
      PrimeDividesChoose(p, k);
      DividesProduct(p, Choose(p, k), Pow(b, p - k));
      DivMod(Binomial(b, p)[k], p);
    }
  }

  // --- the quadratic extension ---

  lemma CongAddPoly(a: Poly, a': Poly, b: Poly, b': Poly, f: Poly, p: int)
    requires Cong(a, a', f, p) && Cong(b, b', f, p)
    ensures Cong(Add(a, b), Add(a', b'), f, p)
  {
    var q1, r1 :| IsWitness(a, a', q1, r1, f, p);
    var q2, r2 :| IsWitness(b, b', q2, r2, f, p);
    var q, r := Add(q1, q2), Add(r1, r2);
    forall x ensures Eval(Add(a, b), x) == Eval(Add(a', b'), x) + Eval(f, x) * Eval(q, x) + p * Eval(r, x) {
      EvalAdd(a, b, x);
      EvalAdd(a', b', x);
      EvalAdd(q1, q2, x);
      EvalAdd(r1, r2, x);
      DistributeLeft(Eval(f, x), Eval(q1, x), Eval(q2, x));
      DistributeLeft(p, Eval(r1, x), Eval(r2, x));
    }
    assert IsWitness(Add(a, b), Add(a', b'), q, r, f, p);
  }

  lemma CongSym(a: Poly, b: Poly, f: Poly, p: int)
    requires Cong(a, b, f, p)
    ensures Cong(b, a, f, p)
  {
    var q, r :| IsWitness(a, b, q, r, f, p);
    forall x ensures Eval(b, x) == Eval(a, x) + Eval(f, x) * Eval(Scale(-1, q), x) + p * Eval(Scale(-1, r), x) {
      EvalScale(-1, q, x);
      EvalScale(-1, r, x);
      MulNegative(Eval(f, x), Eval(q, x));
      MulNegative(p, Eval(r, x));
    }
    assert IsWitness(b, a, Scale(-1, q), Scale(-1, r), f, p);
  }

  lemma MulNegative(a: int, b: int)
    ensures a * (-1 * b) == -(a * b)
  {}

  /** Congruent constants. */
  lemma CongConst(c: int, d: int, f: Poly, p: int)
    requires p > 0 && c % p == d % p
    ensures Cong([c], [d], f, p)
  {
    var k := CongWitness(c, d, p);
    forall x ensures Eval([c], x) == Eval([d], x) + Eval(f, x) * Eval([], x) + p * Eval([k], x) {
      EvalConst(c, x);
      EvalConst(d, x);
      EvalConst(k, x);
    }
    assert IsWitness([c], [d], [], [k], f, p);
  }

  lemma EvalConst(c: int, x: int)
    ensures Eval([c], x) == c
  {
    EvalCons(c, [], x);
    assert [c] + [] == [c];
  }

  lemma EvalLine(c: int, d: int, x: int)
    ensures Eval([c, d], x) == c + x * d
  {
    EvalConst(d, x);
    EvalCons(c, [d], x);
    assert [c] + [d] == [c, d];
  }

  lemma EvalQuadratic(a: int, b: int, x: int)
    ensures Eval([a, -b, 1], x) == a - b * x + x * x
  {
    EvalLine(-b, 1, x);
    EvalCons(a, [-b, 1], x);
    assert [a] + [-b, 1] == [a, -b, 1];
    assert x * (-b + x * 1) == -(b * x) + x * x;
  }

  lemma {:induction false} CongPow(a: Poly, b: Poly, e: nat, f: Poly, p: int)
    requires Cong(a, b, f, p)
    ensures Cong(PolyPow(a, e), PolyPow(b, e), f, p)
  {
    if e == 0 {
      CongRefl([1], f, p);
    } else {
      CongPow(a, b, e - 1, f, p);
      CongMulPoly(a, b, PolyPow(a, e - 1), PolyPow(b, e - 1), f, p);
    }
  }

  /** 2X - b, whose square is the constant b^2 - 4a. */
  function Root(b: int): Poly {
    [-b, 2]
  }

  lemma RootSquare(a: int, b: int, p: int)
    ensures Cong(PolyPow(Root(b), 2), [b * b - 4 * a], [a, -b, 1], p)
  {
    var f := [a, -b, 1];
    forall x ensures Eval(PolyPow(Root(b), 2), x)
        == Eval([b * b - 4 * a], x) + Eval(f, x) * Eval([4], x) + p * Eval([], x) {
      EvalPow(Root(b), 2, x);
      EvalLine(-b, 2, x);
      PowSquare(-b + x * 2, 1);
      EvalConst(b * b - 4 * a, x);
      EvalConst(4, x);
      EvalQuadratic(a, b, x);
      CompleteSquare(a, b, x);
    }
    assert IsWitness(PolyPow(Root(b), 2), [b * b - 4 * a], [4], [], f, p);
  }

  lemma CompleteSquare(a: int, b: int, x: int)
    ensures (-b + x * 2) * (-b + x * 2) == b * b - 4 * a + (a - b * x + x * x) * 4
  {}

  /** Its p-th power is its negative. */
  lemma RootPower(a: int, b: int, p: int)
    requires J.OddPrimeModulus(p) && Symbol(b * b - 4 * a, p) == -1
    ensures Cong(PolyPow(Root(b), p), Scale(-1, Root(b)), [a, -b, 1], p)
  {
    var f, y, h, d := [a, -b, 1], Root(b), p / 2, b * b - 4 * a;
    RootSquare(a, b, p);
    CongPow(PolyPow(y, 2), [d], h, f, p);
    NonSquareConstant(d, f, p);
    CongTrans(PolyPow(PolyPow(y, 2), h), PolyPow([d], h), [-1], f, p);
    CongRefl(y, f, p);
    CongMulPoly(y, y, PolyPow(PolyPow(y, 2), h), [-1], f, p);
    forall x ensures Eval(PolyPow(y, p), x) == Eval(Mul(y, PolyPow(PolyPow(y, 2), h)), x) {
      OddPower(y, p, x);
    }
    forall x ensures Eval(Mul(y, [-1]), x) == Eval(Scale(-1, y), x) {
      EvalMul(y, [-1], x);
      EvalConst(-1, x);
      EvalScale(-1, y, x);
    }
    CongSame(PolyPow(y, p), Mul(y, PolyPow(PolyPow(y, 2), h)), f, p);
    CongSame(Mul(y, [-1]), Scale(-1, y), f, p);
    CongTrans(PolyPow(y, p), Mul(y, PolyPow(PolyPow(y, 2), h)), Mul(y, [-1]), f, p);
    CongTrans(PolyPow(y, p), Mul(y, [-1]), Scale(-1, y), f, p);
  }

  lemma OddPower(y: Poly, p: int, x: int)
    requires p >= 3 && p % 2 == 1
    ensures Eval(PolyPow(y, p), x) == Eval(Mul(y, PolyPow(PolyPow(y, 2), p / 2)), x)
  {
    EvalPow(y, p, x);
    EvalMul(y, PolyPow(PolyPow(y, 2), p / 2), x);
    EvalPow(PolyPow(y, 2), p / 2, x);
    EvalPow(y, 2, x);
    PowMul(Eval(y, x), 2, p / 2);
    assert p - 1 == 2 * (p / 2);
  }

  lemma NonSquareConstant(d: int, f: Poly, p: int)
    requires J.OddPrimeModulus(p) && Symbol(d, p) == -1
    ensures Cong(PolyPow([d], p / 2), [-1], f, p)
  {
    J.LegendreSymbol(d, p);
    J.SymbolIsPower(d, p);
    forall x ensures Eval(PolyPow([d], p / 2), x) == Eval([Pow(d, p / 2)], x) {
      EvalPow([d], p / 2, x);
      EvalConst(d, x);
      EvalConst(Pow(d, p / 2), x);
    }
    CongSame(PolyPow([d], p / 2), [Pow(d, p / 2)], f, p);
    CongConst(Pow(d, p / 2), -1, f, p);
    CongTrans(PolyPow([d], p / 2), [Pow(d, p / 2)], [-1], f, p);
  }

  /** Fermat in the form c^p == c, for every c. */
  lemma FermatPower(c: int, p: int)
    requires IsPrime(p)
    ensures Pow(c, p) % p == c % p
  {
    ModSmall(1, p);
    if Divides(p, c) {
      DividesProduct(p, c, Pow(c, p - 1));
    } else {
      FermatLittle(c, p);
      CongMul(c, c, Pow(c, p - 1), 1, p);
    }
  }

  /** Substitutes a polynomial for the variable. */
  function Compose(r: Poly, y: Poly): Poly {
    if r == [] then [] else Add([r[0]], Mul(y, Compose(r[1..], y)))
  }

  lemma {:induction false} EvalCompose(r: Poly, y: Poly, x: int)
    ensures Eval(Compose(r, y), x) == Eval(r, Eval(y, x))
  {
    if r != [] {
      EvalCompose(r[1..], y, x);
      EvalAdd([r[0]], Mul(y, Compose(r[1..], y)), x);
      EvalMul(y, Compose(r[1..], y), x);
      EvalConst(r[0], x);
    }
  }

  /** (2X)^p == (2X - b)^p + b^p. */
  lemma DoubleXPower(b: int, f: Poly, p: int)
    requires IsPrime(p)
    ensures Cong(PolyPow([0, 2], p), Add(PolyPow(Root(b), p), [Pow(b, p)]), f, p)
  {
    var r := PowerOfSum(b, p);
    var y := Root(b);
    var w := Compose(r, y);
    forall x ensures Eval(PolyPow([0, 2], p), x)
        == Eval(Add(PolyPow(y, p), [Pow(b, p)]), x) + Eval(f, x) * Eval([], x) + p * Eval(w, x) {
      EvalPow([0, 2], p, x);
      EvalLine(0, 2, x);
      EvalLine(-b, 2, x);
      EvalPow(y, p, x);
      EvalConst(Pow(b, p), x);
      EvalAdd(PolyPow(y, p), [Pow(b, p)], x);
      EvalCompose(r, y, x);
      assert Eval(r, Eval(y, x)) * p + Pow(Eval(y, x), p) + Pow(b, p) == Pow(Eval(y, x) + b, p);
    }
    assert IsWitness(PolyPow([0, 2], p), Add(PolyPow(y, p), [Pow(b, p)]), [], w, f, p);
  }

  const X: Poly := [0, 1]

  /** X^p is the other root, b - X. */
  lemma ConjugateX(a: int, b: int, p: int)
    requires J.OddPrimeModulus(p) && Symbol(b * b - 4 * a, p) == -1
    ensures Cong(PolyPow(X, p), [b, -1], [a, -b, 1], p)
  {
    var f := [a, -b, 1];
    RootPower(a, b, p);
    FermatPower(b, p);
    CongConst(Pow(b, p), b, f, p);
    CongAddPoly(PolyPow(Root(b), p), Scale(-1, Root(b)), [Pow(b, p)], [b], f, p);
    DoubleXPower(b, f, p);
    var s := Add(Scale(-1, Root(b)), [b]);
    CongTrans(PolyPow([0, 2], p), Add(PolyPow(Root(b), p), [Pow(b, p)]), s, f, p);
    HalveDouble(f, p);
    var half := [(p + 1) / 2];
    CongRefl(half, f, p);
    CongMulPoly(half, half, PolyPow([0, 2], p), s, f, p);
    CongTrans(PolyPow(X, p), Mul(half, PolyPow([0, 2], p)), Mul(half, s), f, p);
    HalveSum(b, f, p);
    CongTrans(PolyPow(X, p), Mul(half, s), [b, -1], f, p);
  }

  /** X^p == (2X)^p / 2. */
  lemma HalveDouble(f: Poly, p: int)
    requires J.OddPrimeModulus(p)
    ensures Cong(PolyPow(X, p), Mul([(p + 1) / 2], PolyPow([0, 2], p)), f, p)
  {
    var h := (p + 1) / 2;
    FermatPower(2, p);
    CongMul(h, h, Pow(2, p), 2, p);
    CongFromWitness(2 * h, 1, 1, p);
    var k := CongWitness(h * Pow(2, p), 1, p);
    var lhs, rhs := Mul([h], PolyPow([0, 2], p)), PolyPow(X, p);
    forall x ensures Eval(lhs, x) == Eval(rhs, x) + Eval(f, x) * Eval([], x) + p * Eval(Scale(k, rhs), x) {
      EvalMul([h], PolyPow([0, 2], p), x);
      EvalConst(h, x);
      EvalPow([0, 2], p, x);
      EvalLine(0, 2, x);
      EvalPow(X, p, x);
      EvalLine(0, 1, x);
      PowProduct(2, x, p);
      assert 2 * x == 0 + x * 2 && x == 0 + x * 1;
      EvalScale(k, rhs, x);
      ScaleOut(h, Pow(2, p), Pow(x, p), k, p);
    }
    assert IsWitness(lhs, rhs, [], Scale(k, rhs), f, p);
    CongSym(lhs, rhs, f, p);
  }

  lemma ScaleOut(h: int, t: int, z: int, k: int, p: int)
    requires h * t == 1 + k * p
    ensures h * (t * z) == z + p * (k * z)
  {
    assert h * (t * z) == (1 + k * p) * z;
    Distribute(1, k * p, z);
  }

  /** ((b - (2X - b)) / 2 == b - X. */
  lemma HalveSum(b: int, f: Poly, p: int)
    requires p >= 3 && p % 2 == 1
    ensures Cong(Mul([(p + 1) / 2], Add(Scale(-1, Root(b)), [b])), [b, -1], f, p)
  {
    var h := (p + 1) / 2;
    var s := Add(Scale(-1, Root(b)), [b]);
    forall x ensures Eval(Mul([h], s), x) == Eval([b, -1], x) + Eval(f, x) * Eval([], x) + p * Eval([b, -1], x) {
      EvalMul([h], s, x);
      EvalConst(h, x);
      EvalAdd(Scale(-1, Root(b)), [b], x);
      EvalScale(-1, Root(b), x);
      EvalLine(-b, 2, x);
      EvalConst(b, x);
      EvalLine(b, -1, x);
      HalfOfDouble(h, p, b - x);
    }
    assert IsWitness(Mul([h], s), [b, -1], [], [b, -1], f, p);
  }

  lemma HalfOfDouble(h: int, p: int, z: int)
    requires 2 * h == p + 1
    ensures h * (2 * z) == z + p * z
  {
    assert h * (2 * z) == (2 * h) * z;
    Distribute(1, p, z);
  }

  /** X^(p+1) is the constant a, the product of the two roots. */
  lemma NormOfX(a: int, b: int, p: int)
    requires J.OddPrimeModulus(p) && Symbol(b * b - 4 * a, p) == -1
    ensures Cong(PolyPow(X, p + 1), [a], [a, -b, 1], p)
  {
    var f := [a, -b, 1];
    ConjugateX(a, b, p);
    CongRefl(X, f, p);
    CongMulPoly(X, X, PolyPow(X, p), [b, -1], f, p);
    ProductOfRoots(a, b, p);
    CongTrans(PolyPow(X, p + 1), Mul(X, [b, -1]), [a], f, p);
  }

  /** X * (b - X) == a. */
  lemma ProductOfRoots(a: int, b: int, p: int)
    ensures Cong(Mul(X, [b, -1]), [a], [a, -b, 1], p)
  {
    var f := [a, -b, 1];
    forall x ensures Eval(Mul(X, [b, -1]), x) == Eval([a], x) + Eval(f, x) * Eval([-1], x) + p * Eval([], x) {
      EvalMul(X, [b, -1], x);
      EvalLine(0, 1, x);
      EvalLine(b, -1, x);
      EvalConst(a, x);
      EvalConst(-1, x);
      EvalQuadratic(a, b, x);
      assert x * (b + x * -1) == b * x - x * x;
    }
    assert IsWitness(Mul(X, [b, -1]), [a], [-1], [], f, p);
  }
}
