/** Polynomial arithmetic modulo a monic polynomial over the integers modulo p (`numbertheory.py`).

    A polynomial is the sequence of its coefficients, constant term first. Two polynomials over the
    integers are the same when they agree at every integer, so an identity `forall x` between values
    of `Eval` is an identity of polynomials. */
module Polynomials {
  import opened Integers
  import opened Powers

  type Poly = seq<int>

  function Eval(a: Poly, x: int): int {
    if a == [] then 0 else a[0] + x * Eval(a[1..], x)
  }

  /** a == b + f*q + p*r. */
  ghost predicate IsWitness(a: Poly, b: Poly, q: Poly, r: Poly, f: Poly, p: int) {
    forall x :: Eval(a, x) == Eval(b, x) + Eval(f, x) * Eval(q, x) + p * Eval(r, x)
  }

  /** a and b stand for the same element of Z_p[x]/(f). */
  ghost predicate Cong(a: Poly, b: Poly, f: Poly, p: int) {
    exists q, r :: IsWitness(a, b, q, r, f, p)
  }

  predicate Monic(f: Poly) {
    |f| > 1 && f[|f| - 1] == 1
  }

  /** All coefficients are residues modulo p. */
  predicate Residues(a: Poly, p: int) {
    forall i :: 0 <= i < |a| ==> 0 <= a[i] < p
  }

  // --- the ring operations behind the congruence ---

  function Scale(c: int, a: Poly): (s: Poly)
    ensures |s| == |a| && forall i :: 0 <= i < |a| ==> s[i] == c * a[i]
  {
    seq(|a|, i requires 0 <= i < |a| => c * a[i])
  }

  function Add(a: Poly, b: Poly): Poly {
    if a == [] then b else if b == [] then a else [a[0] + b[0]] + Add(a[1..], b[1..])
  }

  function Mul(a: Poly, b: Poly): Poly {
    if a == [] then [] else Add(Scale(a[0], b), [0] + Mul(a[1..], b))
  }

  function PolyPow(a: Poly, e: nat): Poly {
    if e == 0 then [1] else Mul(a, PolyPow(a, e - 1))
  }

  function Zeros(n: nat): (s: Poly)
    ensures |s| == n && forall i :: 0 <= i < n ==> s[i] == 0
  {
    seq(n, i => 0)
  }

  lemma EvalCons(c: int, a: Poly, x: int)
    ensures Eval([c] + a, x) == c + x * Eval(a, x)
  {
    assert ([c] + a)[1..] == a;
  }

  lemma {:induction false} EvalScale(c: int, a: Poly, x: int)
    ensures Eval(Scale(c, a), x) == c * Eval(a, x)
  {
    if a != [] {
      EvalScale(c, a[1..], x);
      assert Scale(c, a)[1..] == Scale(c, a[1..]);
      Regroup(c, a[0], x, Eval(a[1..], x));
    }
  }

  lemma Regroup(c: int, h: int, x: int, t: int)
    ensures c * h + x * (c * t) == c * (h + x * t)
  {}

  lemma {:induction false} EvalAdd(a: Poly, b: Poly, x: int)
    ensures Eval(Add(a, b), x) == Eval(a, x) + Eval(b, x)
  {
    if a != [] && b != [] {
      EvalAdd(a[1..], b[1..], x);
      EvalCons(a[0] + b[0], Add(a[1..], b[1..]), x);
      Regroup(x, Eval(a[1..], x), 1, Eval(b[1..], x));
    }
  }

  lemma {:induction false} EvalMul(a: Poly, b: Poly, x: int)
    ensures Eval(Mul(a, b), x) == Eval(a, x) * Eval(b, x)
  {
    if a != [] {
      EvalMul(a[1..], b, x);
      EvalScale(a[0], b, x);
      EvalCons(0, Mul(a[1..], b), x);
      EvalAdd(Scale(a[0], b), [0] + Mul(a[1..], b), x);
      Horner(a[0], x, Eval(a[1..], x), Eval(b, x));
    }
  }

  lemma Horner(c: int, x: int, t: int, b: int)
    ensures c * b + x * (t * b) == (c + x * t) * b
  {}

  lemma {:induction false} EvalPow(a: Poly, e: nat, x: int)
    ensures Eval(PolyPow(a, e), x) == Pow(Eval(a, x), e)
  {
    if e == 0 {
      EvalCons(1, [], x);
    } else {
      EvalPow(a, e - 1, x);
      EvalMul(a, PolyPow(a, e - 1), x);
    }
  }

  lemma {:induction false} EvalZeros(n: nat, a: Poly, x: int)
    ensures Eval(Zeros(n) + a, x) == Pow(x, n) * Eval(a, x)
  {
    if n == 0 {
      assert Zeros(0) + a == a;
    } else {
      EvalZeros(n - 1, a, x);
      assert Zeros(n) + a == [0] + (Zeros(n - 1) + a);
      EvalCons(0, Zeros(n - 1) + a, x);
      MulAssoc(x, Pow(x, n - 1), Eval(a, x));
    }
  }

  lemma {:induction false} EvalLast(a: Poly, c: int, x: int)
    ensures Eval(a + [c], x) == Eval(a, x) + c * Pow(x, |a|)
  {
    if a == [] {
      EvalCons(c, [], x);
    } else {
      EvalLast(a[1..], c, x);
      assert (a + [c])[1..] == a[1..] + [c];
      LastStep(x, Eval(a[1..], x), c, Pow(x, |a| - 1));
    }
  }

  lemma LastStep(x: int, t: int, c: int, w: int)
    ensures x * (t + c * w) == x * t + c * (x * w)
  {}

  lemma {:induction false} EvalUpdate(a: Poly, k: nat, v: int, x: int)
    requires k < |a|
    ensures Eval(a[k := v], x) == Eval(a, x) + (v - a[k]) * Pow(x, k)
  {
    if k == 0 {
      assert a[0 := v][1..] == a[1..];
    } else {
      EvalUpdate(a[1..], k - 1, v, x);
      assert a[k := v][1..] == a[1..][k - 1 := v];
      LastStep(x, Eval(a[1..], x), v - a[k], Pow(x, k - 1));
    }
  }

  /** Coefficientwise equations carry over to values. */
  lemma {:induction false} EvalLinear(a: Poly, b: Poly, c: Poly, d: Poly, p: int, x: int)
    requires |a| == |b| == |c| == |d|
    requires forall i :: 0 <= i < |a| ==> a[i] == b[i] + c[i] + p * d[i]
    ensures Eval(a, x) == Eval(b, x) + Eval(c, x) + p * Eval(d, x)
  {
    if a != [] {
      EvalLinear(a[1..], b[1..], c[1..], d[1..], p, x);
      LinearStep(x, Eval(b[1..], x), Eval(c[1..], x), p, Eval(d[1..], x), d[0]);
    }
  }

  lemma LinearStep(x: int, s: int, t: int, p: int, u: int, d: int)
    ensures p * d + x * (s + t + p * u) == x * s + x * t + p * (d + x * u)
  {}

  // --- laws of the congruence ---

  lemma CongRefl(a: Poly, f: Poly, p: int)
    ensures Cong(a, a, f, p)
  {
    assert IsWitness(a, a, [], [], f, p);
  }

  /** Polynomials with the same values are the same element. */
  lemma CongSame(a: Poly, b: Poly, f: Poly, p: int)
    requires forall x :: Eval(a, x) == Eval(b, x)
    ensures Cong(a, b, f, p)
  {
    assert IsWitness(a, b, [], [], f, p);
  }

  lemma CongTrans(a: Poly, b: Poly, c: Poly, f: Poly, p: int)
    requires Cong(a, b, f, p) && Cong(b, c, f, p)
    ensures Cong(a, c, f, p)
  {
    var q1, r1 :| IsWitness(a, b, q1, r1, f, p);
    var q2, r2 :| IsWitness(b, c, q2, r2, f, p);
    var q, r := Add(q1, q2), Add(r1, r2);
    forall x ensures Eval(a, x) == Eval(c, x) + Eval(f, x) * Eval(q, x) + p * Eval(r, x) {
      EvalAdd(q1, q2, x);
      EvalAdd(r1, r2, x);
      DistributeLeft(Eval(f, x), Eval(q1, x), Eval(q2, x));
      DistributeLeft(p, Eval(r1, x), Eval(r2, x));
    }
    assert IsWitness(a, c, q, r, f, p);
  }

  lemma CongMulPoly(a: Poly, a': Poly, b: Poly, b': Poly, f: Poly, p: int)
    requires Cong(a, a', f, p) && Cong(b, b', f, p)
    ensures Cong(Mul(a, b), Mul(a', b'), f, p)
  {
    hide Mul, Add, Eval;
    var q1, r1 :| IsWitness(a, a', q1, r1, f, p);
    var q2, r2 :| IsWitness(b, b', q2, r2, f, p);
    var q := Add(Mul(q1, b), Mul(a', q2));
    var r := Add(Mul(r1, b), Mul(a', r2));
    forall x ensures Eval(Mul(a, b), x) == Eval(Mul(a', b'), x) + Eval(f, x) * Eval(q, x) + p * Eval(r, x) {
      EvalMul(a, b, x);
      EvalMul(a', b', x);
      EvalAdd(Mul(q1, b), Mul(a', q2), x);
      EvalAdd(Mul(r1, b), Mul(a', r2), x);
      EvalMul(q1, b, x);
      EvalMul(a', q2, x);
      EvalMul(r1, b, x);
      EvalMul(a', r2, x);
      ProductDifference(Eval(a, x), Eval(a', x), Eval(b, x), Eval(b', x), Eval(f, x),
                        Eval(q1, x), Eval(q2, x), p, Eval(r1, x), Eval(r2, x));
    }
    assert IsWitness(Mul(a, b), Mul(a', b'), q, r, f, p);
  }

  lemma ProductDifference(a: int, a': int, b: int, b': int, f: int, q: int, q': int, p: int, r: int, r': int)
    requires a == a' + f * q + p * r && b == b' + f * q' + p * r'
    ensures a * b == a' * b' + f * (q * b + a' * q') + p * (r * b + a' * r')
  {
    calc {
      a * b;
      a' * b + (f * q) * b + (p * r) * b;
      a' * b' + a' * (f * q') + a' * (p * r') + (f * q) * b + (p * r) * b;
      a' * b' + f * (q * b + a' * q') + p * (r * b + a' * r');
    }
  }

  // --- reduction ---

  /** Subtracts the multiple of `f` that cancels the leading coefficient, reducing what it touches. */
  ghost predicate IsCancelled(result: Poly, poly: Poly, f: Poly, p: int)
    requires p > 0
  {
    && |f| > 1 && |poly| >= |f| && |result| == |poly|
    && var n, m := |poly|, |f|;
    && result[n - 1] == poly[n - 1]
    && (forall j :: 0 <= j < n - m ==> result[j] == poly[j])
    && (forall j :: n - m <= j < n - 1 ==> result[j] == (poly[j] - poly[n - 1] * f[j - (n - m)]) % p)
  }

  lemma CancelKeepsClass(poly: Poly, result: Poly, f: Poly, p: int)
    requires p > 0 && Monic(f) && IsCancelled(result, poly, f, p)
    ensures Cong(result[..|result| - 1], poly, f, p)
  {
    var n, m := |poly|, |f|;
    var top := poly[n - 1];
    var a := result[..n - 1] + [0];
    var c := Zeros(n - m) + Scale(-top, f);
    var d := seq(n, j requires 0 <= j < n =>
      if n - m <= j < n - 1 then -((poly[j] - top * f[j - (n - m)]) / p) else 0);
    var q := Zeros(n - m) + [-top];
    forall j | 0 <= j < n ensures a[j] == poly[j] + c[j] + p * d[j] {
      if n - m <= j < n - 1 {
        RemainderAsSum(poly[j], top, f[j - (n - m)], p);
      }
    }
    hide Eval, Pow, IsCancelled, Monic;
    forall x ensures Eval(result[..n - 1], x) == Eval(poly, x) + Eval(f, x) * Eval(q, x) + p * Eval(d, x) {
      EvalLinear(a, poly, c, d, p, x);
      EvalLast(result[..n - 1], 0, x);
      EvalZeros(n - m, Scale(-top, f), x);
      EvalZeros(n - m, [-top], x);
      EvalScale(-top, f, x);
      EvalCons(-top, [], x);
      EvalNil(x);
      assert [-top] + [] == [-top];
      Reorder(Pow(x, n - m), -top, Eval(f, x));
    }
    assert IsWitness(result[..n - 1], poly, q, d, f, p);
  }

  lemma RemainderAsSum(c: int, top: int, g: int, p: int)
    requires p > 0
    ensures (c - top * g) % p == c + (-top) * g + p * (-((c - top * g) / p))
  {
    DivMod(c - top * g, p);
  }

  lemma Reorder(w: int, t: int, f: int)
    ensures w * (t * f) == f * (w * t)
  {}

  /** `polynomial_reduce_mod`. */
  method PolynomialReduceMod(a: Poly, f: Poly, p: int) returns (poly: Poly)
    requires Monic(f) && p > 0
    ensures |poly| == if |a| < |f| then |a| else |f| - 1
    ensures Cong(poly, a, f, p)
    ensures Residues(a, p) ==> Residues(poly, p)
  {
    poly := a;
    CongRefl(a, f, p);
    while |poly| >= |f|
      invariant Cong(poly, a, f, p)
      invariant |poly| == |a| || |f| - 1 <= |poly| <= |a|
      invariant Residues(a, p) ==> Residues(poly, p)
      decreases |poly|
    {
      ghost var old' := poly;
      var n := |poly|;
      if poly[n - 1] != 0 {
        var i := 2;
        while i <= |f|
          invariant 2 <= i <= |f| + 1 && |poly| == n
          invariant forall j :: 0 <= j <= n - i ==> poly[j] == old'[j]
          invariant forall j :: n - i < j < n - 1 ==> poly[j] == (old'[j] - old'[n - 1] * f[j - (n - |f|)]) % p
          invariant poly[n - 1] == old'[n - 1]
          invariant Residues(a, p) ==> Residues(poly, p)
          decreases |f| - i
        {
          poly := poly[n - i := (poly[n - i] - poly[n - 1] * f[|f| - i]) % p];
          i := i + 1;
        }
        assert IsCancelled(poly, old', f, p);
        CancelKeepsClass(old', poly, f, p);
      } else {
        DropZero(poly, f, p);
      }
      poly := poly[..n - 1];
      CongTrans(poly, old', a, f, p);
    }
  }

  lemma DropZero(a: Poly, f: Poly, p: int)
    requires a != [] && a[|a| - 1] == 0
    ensures Cong(a[..|a| - 1], a, f, p)
  {
    var n := |a| - 1;
    assert a == a[..n] + [0];
    forall x ensures Eval(a[..n], x) == Eval(a, x) {
      EvalLast(a[..n], 0, x);
    }
    CongSame(a[..n], a, f, p);
  }

  // --- multiplication ---

  /** prod == part + p*r, where part collects the cross terms met so far. */
  ghost predicate Collected(prod: Poly, m1: Poly, m2: Poly, i: nat, j: nat, r: Poly, p: int)
    requires i <= |m1| && j <= |m2| && (j > 0 ==> i < |m1|)
  {
    forall x :: Eval(prod, x) == Eval(m1[..i], x) * Eval(m2, x)
      + (if j == 0 then 0 else (m1[i] * Pow(x, i)) * Eval(m2[..j], x)) + p * Eval(r, x)
  }

  lemma CollectTerm(prod: Poly, m1: Poly, m2: Poly, i: nat, j: nat, r: Poly, p: int)
    requires i < |m1| && j < |m2| && |prod| == |r| == |m1| + |m2| - 1 && p > 0
    requires Collected(prod, m1, m2, i, j, r, p)
    ensures var v := prod[i + j] + m1[i] * m2[j];
      Collected(prod[i + j := v % p], m1, m2, i, j + 1, r[i + j := r[i + j] - v / p], p)
  {
    var v := prod[i + j] + m1[i] * m2[j];
    DivMod(v, p);
    var prod', r' := prod[i + j := v % p], r[i + j := r[i + j] - v / p];
    forall x ensures Eval(prod', x) == Eval(m1[..i], x) * Eval(m2, x)
        + (m1[i] * Pow(x, i)) * Eval(m2[..j + 1], x) + p * Eval(r', x) {
      EvalUpdate(prod, i + j, v % p, x);
      EvalUpdate(r, i + j, r[i + j] - v / p, x);
      assert m2[..j + 1] == m2[..j] + [m2[j]];
      EvalLast(m2[..j], m2[j], x);
      PowAdd(x, i, j);
      TermStep(m1[i], Pow(x, i), Eval(m2[..j], x), m2[j], Pow(x, j), Pow(x, i + j), v, p, prod[i + j],
               Eval(r, x));
      if j == 0 { assert m2[..0] == []; }
    }
  }

  lemma TermStep(a: int, w: int, t: int, b: int, y: int, z: int, v: int, p: int, c: int, r: int)
    requires z == w * y && p > 0 && v == (v / p) * p + v % p && v == c + a * b
    ensures (a * w) * t + p * r + (v % p - c) * z == (a * w) * (t + b * y) + p * (r + (-(v / p)) * z)
  {
    var q := v / p;
    calc {
      (a * w) * (t + b * y) + p * (r + (-q) * z);
      (a * w) * t + (a * w) * (b * y) + p * r + p * ((-q) * z);
      { assert (a * w) * (b * y) == (a * b) * z by { Interleave(a, w, b, y); } }
      (a * w) * t + (a * b) * z + p * r + p * ((-q) * z);
      { assert p * ((-q) * z) == (-(q * p)) * z; }
      (a * w) * t + p * r + (a * b) * z + (-(q * p)) * z;
      { Distribute(a * b, q * p, z); }
      (a * w) * t + p * r + (a * b - q * p) * z;
    }
  }

  lemma NextRow(prod: Poly, m1: Poly, m2: Poly, i: nat, r: Poly, p: int)
    requires i < |m1| && Collected(prod, m1, m2, i, |m2|, r, p)
    ensures Collected(prod, m1, m2, i + 1, 0, r, p)
  {
    assert m2[..|m2|] == m2 && m1[..i + 1] == m1[..i] + [m1[i]];
    forall x ensures Eval(prod, x) == Eval(m1[..i + 1], x) * Eval(m2, x) + p * Eval(r, x) {
      EvalLast(m1[..i], m1[i], x);
      Distribute(Eval(m1[..i], x), m1[i] * Pow(x, i), Eval(m2, x));
    }
  }

  lemma StartRows(prod: Poly, m1: Poly, m2: Poly, p: int)
    requires prod == Zeros(|prod|)
    ensures Collected(prod, m1, m2, 0, 0, prod, p)
  {
    assert m1[..0] == [];
    forall x ensures Eval(prod, x) == 0 {
      EvalZeros(|prod|, [], x);
      assert Zeros(|prod|) + [] == prod;
    }
  }

  /** `polynomial_multiply_mod`. */
  method PolynomialMultiplyMod(m1: Poly, m2: Poly, f: Poly, p: int) returns (result: Poly)
    requires Monic(f) && p > 0
    ensures var n := |m1| + |m2| - 1; |result| == if n < 0 then 0 else if n < |f| then n else |f| - 1
    ensures Cong(result, Mul(m1, m2), f, p) && Residues(result, p)
  {
    var n := |m1| + |m2| - 1;
    var prod := Zeros(if n < 0 then 0 else n);
    ghost var r := prod;
    StartRows(prod, m1, m2, p);
    for i := 0 to |m1|
      invariant |prod| == |r| == (if n < 0 then 0 else n) && Residues(prod, p)
      invariant Collected(prod, m1, m2, i, 0, r, p)
    {
      for j := 0 to |m2|
        invariant |prod| == |r| == n && Residues(prod, p)
        invariant Collected(prod, m1, m2, i, j, r, p)
      {
        CollectTerm(prod, m1, m2, i, j, r, p);
        r := r[i + j := r[i + j] - (prod[i + j] + m1[i] * m2[j]) / p];
        prod := prod[i + j := (prod[i + j] + m1[i] * m2[j]) % p];
      }
      NextRow(prod, m1, m2, i, r, p);
    }
    AllCollected(prod, m1, m2, r, f, p);
    result := PolynomialReduceMod(prod, f, p);
    CongTrans(result, prod, Mul(m1, m2), f, p);
  }

  lemma AllCollected(prod: Poly, m1: Poly, m2: Poly, r: Poly, f: Poly, p: int)
    requires Collected(prod, m1, m2, |m1|, 0, r, p)
    ensures Cong(prod, Mul(m1, m2), f, p)
  {
    assert m1[..|m1|] == m1;
    forall x ensures Eval(prod, x) == Eval(Mul(m1, m2), x) + Eval(f, x) * Eval([], x) + p * Eval(r, x) {
      EvalMul(m1, m2, x);
    }
    assert IsWitness(prod, Mul(m1, m2), [], r, f, p);
  }

  // --- exponentiation ---

  lemma CongPowers(a: Poly, b: Poly, base: Poly, i: nat, j: nat, f: Poly, p: int)
    requires Cong(a, PolyPow(base, i), f, p) && Cong(b, PolyPow(base, j), f, p)
    ensures Cong(Mul(a, b), PolyPow(base, i + j), f, p)
  {
    CongMulPoly(a, PolyPow(base, i), b, PolyPow(base, j), f, p);
    forall x ensures Eval(Mul(PolyPow(base, i), PolyPow(base, j)), x) == Eval(PolyPow(base, i + j), x) {
      EvalMul(PolyPow(base, i), PolyPow(base, j), x);
      EvalPow(base, i, x);
      EvalPow(base, j, x);
      EvalPow(base, i + j, x);
      PowAdd(Eval(base, x), i, j);
    }
    CongSame(Mul(PolyPow(base, i), PolyPow(base, j)), PolyPow(base, i + j), f, p);
    CongTrans(Mul(a, b), Mul(PolyPow(base, i), PolyPow(base, j)), PolyPow(base, i + j), f, p);
  }

  /** `polynomial_exp_mod`. */
  method PolynomialExpMod(base: Poly, exponent: nat, f: Poly, p: int) returns (s: Poly)
    requires Monic(f) && exponent < p
    ensures Cong(s, PolyPow(base, exponent), f, p)
    ensures exponent >= 2 ==> Residues(s, p)
    ensures exponent >= 2 && |base| >= |f| - 1 && |f| >= 3 ==> |s| == |f| - 1
  {
    if exponent == 0 {
      CongRefl([1], f, p);
      return [1];
    }
    var g, k := base, exponent;
    s := if k % 2 == 1 then g else [1];
    ghost var i, t := 1, k % 2;
    PowerOne(base, f, p);
    CongRefl([1], f, p);
    while k > 1
      invariant k >= 1 && UnderWay(exponent, t, i, k)
      invariant Cong(g, PolyPow(base, i), f, p) && Cong(s, PolyPow(base, t), f, p)
      invariant FullLength(base, exponent, g, s, k, f, p)
      decreases k
    {
      g, s, k, i, t := SquareAndMultiply(g, s, k, base, exponent, i, t, f, p);
    }
  }

  /** What is left of the exponent: the bits of k above its lowest, in units of i. */
  ghost predicate UnderWay(e: nat, t: nat, i: nat, k: nat) {
    e == t + i * (k - k % 2)
  }

  ghost predicate FullLength(base: Poly, exponent: nat, g: Poly, s: Poly, k: nat, f: Poly, p: int) {
    && (k == 1 && exponent >= 2 ==> Residues(s, p))
    && (|f| >= 3 && |base| >= |f| - 1 ==>
      |g| >= |f| - 1 && |s| >= 1 && (k == 1 && exponent >= 2 ==> |s| == |f| - 1))
  }

  /** The body of the loop over the bits of the exponent. */
  method SquareAndMultiply(g: Poly, s: Poly, k: nat, ghost base: Poly, ghost e: nat, ghost i: nat, ghost t: nat,
                           f: Poly, p: int)
    returns (g': Poly, s': Poly, k': nat, ghost i': nat, ghost t': nat)
    requires Monic(f) && p > 0 && k > 1 && UnderWay(e, t, i, k)
    requires Cong(g, PolyPow(base, i), f, p) && Cong(s, PolyPow(base, t), f, p)
    requires FullLength(base, e, g, s, k, f, p)
    ensures k' == k / 2 && UnderWay(e, t', i', k')
    ensures Cong(g', PolyPow(base, i'), f, p) && Cong(s', PolyPow(base, t'), f, p)
    ensures FullLength(base, e, g', s', k', f, p)
  {
    HalveExponent(e, t, i, k);
    k' := k / 2;
    g' := MultiplyPowers(g, g, base, i, i, f, p);
    i' := i + i;
    s', t' := s, t;
    if k' % 2 == 1 {
      s' := MultiplyPowers(g', s, base, i', t, f, p);
      t' := i' + t;
    }
  }

  method MultiplyPowers(a: Poly, b: Poly, ghost base: Poly, ghost i: nat, ghost j: nat, f: Poly, p: int)
    returns (c: Poly)
    requires Monic(f) && p > 0
    requires Cong(a, PolyPow(base, i), f, p) && Cong(b, PolyPow(base, j), f, p)
    ensures Cong(c, PolyPow(base, i + j), f, p) && Residues(c, p)
    ensures var n := |a| + |b| - 1; |c| == if n < 0 then 0 else if n < |f| then n else |f| - 1
  {
    c := PolynomialMultiplyMod(a, b, f, p);
    CongPowers(a, b, base, i, j, f, p);
    CongTrans(c, Mul(a, b), PolyPow(base, i + j), f, p);
  }

  lemma HalveExponent(e: nat, t: nat, i: nat, k: nat)
    requires e == t + i * (k - k % 2)
    ensures var h := k / 2;
      if h % 2 == 1 then e == (i + i + t) + (i + i) * (h - h % 2) else e == t + (i + i) * (h - h % 2)
  {
    var h := k / 2;
    assert i * (2 * h) == (i + i) * h;
    DistributeLeft(i + i, h - 1, 1);
  }

  lemma PowerOne(base: Poly, f: Poly, p: int)
    ensures Cong(base, PolyPow(base, 1), f, p)
  {
    forall x ensures Eval(base, x) == Eval(PolyPow(base, 1), x) {
      EvalPow(base, 1, x);
      assert Pow(Eval(base, x), 1) == Eval(base, x);
    }
    CongSame(base, PolyPow(base, 1), f, p);
  }

  // --- reduced representatives are unique ---

  function Coef(a: Poly, i: int): int {
    if 0 <= i < |a| then a[i] else 0
  }

  lemma {:induction false} CoefAdd(a: Poly, b: Poly, i: int)
    ensures Coef(Add(a, b), i) == Coef(a, i) + Coef(b, i)
  {
    if a != [] && b != [] {
      CoefAdd(a[1..], b[1..], i - 1);
    }
  }

  /** A polynomial over the integers that vanishes from some point on has no other coefficients than 0. */
  lemma {:induction false} ZeroPolynomial(a: Poly, from: int, i: int)
    requires forall x :: x >= from ==> Eval(a, x) == 0
    ensures Coef(a, i) == 0
    decreases |a|
  {
    if a != [] {
      var x := Max(from, Max(1, Max(a[0], -a[0]) + 1));
      assert Eval(a, x) == 0;
      MulGap(Eval(a[1..], x), x);
      assert a[0] == 0;
      var from' := Max(from, 1);
      forall x | x >= from' ensures Eval(a[1..], x) == 0 {
        assert Eval(a, x) == 0;
        MulGap(Eval(a[1..], x), x);
      }
      ZeroPolynomial(a[1..], from', i - 1);
    }
  }

  function Max(x: int, y: int): int {
    if x >= y then x else y
  }

  lemma {:induction false} AddLength(a: Poly, b: Poly)
    ensures |Add(a, b)| == if |a| >= |b| then |a| else |b|
  {
    if a != [] && b != [] { AddLength(a[1..], b[1..]); }
  }

  /** The product of two polynomials ends with the product of their last coefficients. */
  lemma {:induction false} MulTop(a: Poly, b: Poly)
    requires a != [] && b != []
    ensures Coef(Mul(a, b), |a| + |b| - 2) == a[|a| - 1] * b[|b| - 1]
  {
    CoefAdd(Scale(a[0], b), [0] + Mul(a[1..], b), |a| + |b| - 2);
    if |a| > 1 {
      MulTop(a[1..], b);
    } else {
      assert Mul(a[1..], b) == [];
    }
  }

  /** A difference below the degree of a monic f that is a multiple of f modulo p is 0 modulo p. */
  lemma {:induction false} NoSmallMultiple(e: Poly, f: Poly, q: Poly, r: Poly, p: int, i: int)
    requires Monic(f) && |e| < |f| && p > 0
    requires forall x :: Eval(e, x) == Eval(f, x) * Eval(q, x) + p * Eval(r, x)
    ensures Divides(p, Coef(e, i))
    decreases |q|
  {
    if q == [] {
      NoQuotient(e, f, r, p, i);
    } else {
      var k := |q| - 1;
      var u := TopCoefficient(e, f, q, r, p);
      forall x ensures Eval(e, x) == Eval(f, x) * Eval(q[..k], x) + p * Eval(Add(r, Scale(u, Zeros(k) + f)), x) {
        MoveTop(f, q, r, p, u, x);
      }
      NoSmallMultiple(e, f, q[..k], Add(r, Scale(u, Zeros(k) + f)), p, i);
    }
  }

  lemma EvalNil(x: int)
    ensures Eval([], x) == 0
  {}

  lemma NoQuotient(e: Poly, f: Poly, r: Poly, p: int, i: int)
    requires p > 0 && forall x :: Eval(e, x) == Eval(f, x) * Eval([], x) + p * Eval(r, x)
    ensures Divides(p, Coef(e, i))
  {
    CoefOfDifference(e, f, [], r, p, i);
    hide Mul, Coef, Eval;
    DividesSelf(p);
    forall x ensures Eval(Mul(f, []), x) == 0 {
      EvalMul(f, [], x);
      EvalNil(x);
    }
    ZeroPolynomial(Mul(f, []), 0, i);
    DividesProduct(p, p, Coef(r, i));
  }

  lemma CoefAbove(a: Poly, i: int)
    requires i >= |a|
    ensures Coef(a, i) == 0
  {}

  lemma TopCoefficient(e: Poly, f: Poly, q: Poly, r: Poly, p: int) returns (u: int)
    requires Monic(f) && |e| < |f| && q != []
    requires forall x :: Eval(e, x) == Eval(f, x) * Eval(q, x) + p * Eval(r, x)
    ensures q[|q| - 1] == p * u
  {
    hide Coef, Mul, Eval;
    var n := |f| + |q| - 2;
    CoefOfDifference(e, f, q, r, p, n);
    CoefAbove(e, n);
    MulTop(f, q);
    u := -Coef(r, n);
    NegatedProduct(p, Coef(r, n));
  }

  lemma NegatedProduct(p: int, x: int)
    ensures p * (-x) == -(p * x)
  {}

  /** A top coefficient of the quotient that is a multiple of p moves to the other summand. */
  lemma MoveTop(f: Poly, q: Poly, r: Poly, p: int, u: int, x: int)
    requires q != [] && q[|q| - 1] == p * u
    ensures var k := |q| - 1;
      Eval(f, x) * Eval(q, x) + p * Eval(r, x)
      == Eval(f, x) * Eval(q[..k], x) + p * Eval(Add(r, Scale(u, Zeros(k) + f)), x)
  {
    var k := |q| - 1;
    assert q == q[..k] + [p * u];
    EvalLast(q[..k], p * u, x);
    EvalAdd(r, Scale(u, Zeros(k) + f), x);
    EvalScale(u, Zeros(k) + f, x);
    EvalZeros(k, f, x);
    MoveTerm(Eval(f, x), Eval(q[..k], x), p, u, Pow(x, k), Eval(r, x));
  }

  lemma MoveTerm(f: int, q: int, p: int, u: int, w: int, r: int)
    ensures f * (q + (p * u) * w) + p * r == f * q + p * (r + u * (w * f))
  {
    calc {
      f * (q + (p * u) * w) + p * r;
      f * q + f * ((p * u) * w) + p * r;
      { assert f * ((p * u) * w) == p * (u * (w * f)); }
      f * q + p * (u * (w * f)) + p * r;
    }
  }

  /** Coefficient i of e == f*q + p*r. */
  lemma CoefOfDifference(e: Poly, f: Poly, q: Poly, r: Poly, p: int, i: int)
    requires forall x :: Eval(e, x) == Eval(f, x) * Eval(q, x) + p * Eval(r, x)
    ensures Coef(e, i) == Coef(Mul(f, q), i) + p * Coef(r, i)
  {
    var d := Add(Mul(f, q), Add(Scale(p, r), Scale(-1, e)));
    forall x | x >= 0 ensures Eval(d, x) == 0 {
      EvalAdd(Mul(f, q), Add(Scale(p, r), Scale(-1, e)), x);
      EvalAdd(Scale(p, r), Scale(-1, e), x);
      EvalMul(f, q, x);
      EvalScale(p, r, x);
      EvalScale(-1, e, x);
    }
    ZeroPolynomial(d, 0, i);
    CoefAdd(Mul(f, q), Add(Scale(p, r), Scale(-1, e)), i);
    CoefAdd(Scale(p, r), Scale(-1, e), i);
  }

  /** Two representatives of lower degree than f of the same class have congruent coefficients. */
  lemma ReducedUnique(a: Poly, b: Poly, f: Poly, p: int, i: int)
    requires Monic(f) && p > 0 && |a| < |f| && |b| < |f| && Cong(a, b, f, p)
    ensures Coef(a, i) % p == Coef(b, i) % p
  {
    var q, r :| IsWitness(a, b, q, r, f, p);
    var e := Add(a, Scale(-1, b));
    forall x ensures Eval(e, x) == Eval(f, x) * Eval(q, x) + p * Eval(r, x) {
      EvalAdd(a, Scale(-1, b), x);
      EvalScale(-1, b, x);
    }
    AddLength(a, Scale(-1, b));
    NoSmallMultiple(e, f, q, r, p, i);
    CoefAdd(a, Scale(-1, b), i);
    CongDiff(Coef(a, i), Coef(b, i), p);
  }
}
