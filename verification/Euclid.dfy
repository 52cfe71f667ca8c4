/** Greatest common divisors and modular inverses (`numbertheory.py`). */
module Euclid {
  import opened Wrappers
  import opened Integers

  function Gcd(a: nat, b: nat): nat {
    if a == 0 then b else Gcd(b % a, a)
  }

  /** The value is a common divisor that every common divisor divides; it is 0 only for (0, 0). */
  lemma {:induction false} GcdMeaning(a: nat, b: nat)
    ensures Gcd(a, b) == 0 <==> a == 0 && b == 0
    ensures Gcd(a, b) > 0 ==> Divides(Gcd(a, b), a) && Divides(Gcd(a, b), b)
    decreases a
  {
    if a == 0 {
      if b > 0 { DividesSelf(b); }
    } else {
      GcdMeaning(b % a, a);
      var g := Gcd(b % a, a);
      DivMod(b, a);
      DividesProduct(g, a, b / a);
      DividesSum(g, (b / a) * a, b % a);
    }
  }

  lemma {:induction false} GcdGreatest(d: nat, a: nat, b: nat)
    requires d > 0 && Divides(d, a) && Divides(d, b)
    ensures Divides(d, Gcd(a, b))
    decreases a
  {
    if a != 0 {
      DivMod(b, a);
      DividesProduct(d, a, b / a);
      DividesSum(d, b, (b / a) * a);
      GcdGreatest(d, b % a, a);
    }
  }

  /** Any positive common divisor that all common divisors divide is the gcd. */
  lemma GcdUnique(g: nat, a: nat, b: nat)
    requires g > 0 && Divides(g, a) && Divides(g, b)
    requires forall d :: d > 0 && Divides(d, a) && Divides(d, b) ==> Divides(d, g)
    ensures Gcd(a, b) == g
  {
    GcdGreatest(g, a, b);
    GcdMeaning(a, b);
    if Gcd(a, b) == 0 {
      DividesSelf(g + 1);
      DividesBound(g + 1, g);
    } else {
      DividesAntisymmetric(g, Gcd(a, b));
    }
  }

  lemma GcdSymmetric(a: nat, b: nat)
    ensures Gcd(a, b) == Gcd(b, a)
  {
    GcdMeaning(b, a);
    if Gcd(b, a) > 0 {
      forall d | d > 0 && Divides(d, a) && Divides(d, b) ensures Divides(d, Gcd(b, a)) {
        GcdGreatest(d, b, a);
      }
      GcdUnique(Gcd(b, a), a, b);
    }
  }

  /** Python's remainder, which has the sign of the divisor. */
  function FloorMod(b: int, a: int): int
    requires a != 0
  {
    if a > 0 then b % a else -((-b) % (-a))
  }

  /** What the loop leaves in `b`: the greatest common divisor, with the sign of `a` unless a is 0. */
  function SignedGcd(a: int, b: int): (g: int)
    ensures a >= 0 && b >= 0 ==> g == Gcd(a, b)
  {
    if a == 0 then b
    else
      var d: int := Gcd(Abs(a), Abs(b));
      if a > 0 then d else -d
  }

  /** Whatever divides x divides a number exactly when it divides its negative modulo x. */
  lemma DividesNegative(d: int, x: int, y: int)
    requires d > 0 && x > 0 && Divides(d, x)
    ensures Divides(d, (-y) % x) <==> Divides(d, y)
  {
    var r, q := (-y) % x, (-y) / x;
    DivMod(-y, x);
    DividesProduct(d, x, q);
    DividesSelf(d);
    if Divides(d, r) {
      DividesSum(d, q * x, r);
      DividesSum(d, 0, -y);
    }
    if Divides(d, y) {
      DividesSum(d, 0, y);
      DividesSum(d, -y, q * x);
    }
  }

  lemma GcdOfNegative(x: int, y: int)
    requires x > 0 && y >= 0
    ensures 0 <= (-y) % x < x && Gcd((-y) % x, x) == Gcd(x, y)
  {
    DivMod(-y, x);
    var r := (-y) % x;
    GcdMeaning(r, x);
    var g := Gcd(r, x);
    DividesNegative(g, x, y);
    forall d | d > 0 && Divides(d, x) && Divides(d, y) ensures Divides(d, g) {
      DividesNegative(d, x, y);
      GcdGreatest(d, r, x);
    }
    GcdUnique(g, x, y);
  }

  lemma EuclidStep(a: int, b: int)
    requires a != 0
    ensures Abs(FloorMod(b, a)) < Abs(a)
    ensures SignedGcd(FloorMod(b, a), a) == SignedGcd(a, b)
  {
    if a > 0 {
      DivMod(b, a);
      if b < 0 { GcdOfNegative(a, -b); }
    } else {
      DivMod(-b, -a);
      if b > 0 { GcdOfNegative(-a, b); }
    }
  }

  /** Euclid's loop, for integers of any sign. */
  method Gcd2(a: int, b: int) returns (g: int)
    ensures g == SignedGcd(a, b)
  {
    var x, y := a, b;
    while x != 0
      invariant SignedGcd(x, y) == SignedGcd(a, b)
      decreases Abs(x)
    {
      EuclidStep(x, y);
      x, y := FloorMod(y, x), x;
    }
    g := y;
  }

  predicate Coprime(a: nat, b: nat) {
    Gcd(a, b) == 1
  }

  lemma CoprimeNoCommonDivisor(a: nat, b: nat, d: nat)
    requires Coprime(a, b) && d > 0 && Divides(d, a) && Divides(d, b)
    ensures d == 1
  {
    GcdGreatest(d, a, b);
    DividesBound(d, 1);
  }

  lemma CoprimeIntro(a: nat, b: nat)
    requires forall d :: d > 0 && Divides(d, a) && Divides(d, b) ==> d == 1
    ensures Coprime(a, b)
  {
    GcdMeaning(a, b);
    if a == 0 && b == 0 {
      DividesSelf(2);
    }
  }

  lemma CoprimeToDivisor(x: nat, n: nat, d: nat)
    requires d > 0 && Coprime(x, n) && Divides(d, n)
    requires x > 0 || n > 0
    ensures Coprime(x, d)
  {
    forall t | t > 0 && Divides(t, x) && Divides(t, d) ensures t == 1 {
      DividesTrans(t, d, n);
      CoprimeNoCommonDivisor(x, n, t);
    }
    CoprimeIntro(x, d);
  }

  lemma {:induction false} Bezout(a: nat, b: nat) returns (s: int, t: int)
    ensures s * a + t * b == Gcd(a, b)
    decreases a
  {
    if a == 0 {
      s, t := 0, 1;
    } else {
      var s', t' := Bezout(b % a, a);
      DivMod(b, a);
      s, t := t' - s' * (b / a), s';
      BezoutStep(s', t', b / a, a, b, b % a);
    }
  }

  lemma BezoutStep(s: int, t: int, q: int, a: int, b: int, r: int)
    requires b == q * a + r
    ensures (t - s * q) * a + s * b == s * r + t * a
  {
    assert s * b == s * (q * a) + s * r;
    assert (t - s * q) * a == t * a - (s * q) * a;
    assert s * (q * a) == (s * q) * a;
  }

  /** A number that divides a product and is coprime to one factor divides the other. */
  lemma GaussLemma(d: nat, a: nat, b: int)
    requires d > 0 && Coprime(a, d) && Divides(d, a * b)
    ensures Divides(d, b)
  {
    var s, t := Bezout(a, d);
    calc {
      s * (a * b) + (t * b) * d;
      (s * a) * b + (t * d) * b;
      { Distribute(s * a, t * d, b); }
      (s * a + t * d) * b;
      b;
    }
    DividesProduct(d, a * b, s);
    DividesIntro(d, (t * b) * d, t * b);
    DividesSum(d, s * (a * b), (t * b) * d);
  }

  // --- modular inverses ---

  predicate IsInverse(v: int, a: int, m: int) {
    0 < v < m && (a * v) % m == 1
  }

  lemma InverseUnique(v: int, w: int, a: int, m: int)
    requires m >= 2 && IsInverse(v, a, m) && IsInverse(w, a, m)
    ensures v == w
  {
    ModSmall(1, m);
    CongMul(a * v, 1, w, w, m);
    CongMul(a * w, 1, v, v, m);
    assert (a * v) * w == (a * w) * v by { assert (a * v) * w == a * (v * w); }
    ModSmall(v, m);
    ModSmall(w, m);
  }

  /** An inverse exists only for numbers coprime to the modulus. */
  lemma InverseImpliesCoprime(v: int, a: int, m: int)
    requires m >= 2 && IsInverse(v, a, m)
    ensures Coprime(a % m, m)
  {
    ModMul(a, v, m);
    var r := a % m;
    forall d | d > 0 && Divides(d, r) && Divides(d, m) ensures d == 1 {
      DivMod(r * v, m);
      DividesProduct(d, r, v);
      DividesProduct(d, m, (r * v) / m);
      DividesSum(d, r * v, ((r * v) / m) * m);
      DividesBound(d, 1);
    }
    CoprimeIntro(r, m);
  }

  /** Extended Euclid. The coefficients alternate in sign and satisfy
      `c * |ud| + d * |uc| == m`, which keeps the answer strictly between 0 and `m`. */
  method InverseMod(a: int, m: int) returns (r: Result<int>)
    requires m >= 2
    ensures Coprime(a % m, m) ==> r.Ok? && IsInverse(r.value, a, m)
    ensures !Coprime(a % m, m) ==> r == Err(AssertionError)
    ensures r == Inverse(a, m)
  {
    var a' := a;
    if a < 0 || m <= a {
      a' := a % m;
    }
    ModSmall(a', m);
    ModMod(a, m);
    assert a' == a % m;

    var c, d := a', m;
    var uc, vc, ud, vd := 1, 0, 0, 1;
    ghost var big, small := 1, 0;  // |uc| and |ud|
    ghost var up := true;          // whether uc is the non-negative one
    while c != 0
      invariant 0 <= c < d
      invariant Gcd(c, d) == Gcd(a', m)
      invariant uc * a' + vc * m == c && ud * a' + vd * m == d
      invariant 0 <= small <= big && c * small + d * big == m
      invariant uc == (if up then big else -big) && ud == (if up then -small else small)
      decreases c
    {
      ghost var q := d / c;
      DivMod(d, c);
      QuotientPositive(d, c);
      CombinationStep(uc, vc, ud, vd, c, d, q, a', m);
      BoundStep(c, d, big, small, q, m);
      MulSign(q, uc, big, up);
      big, small, up := small + q * big, big, !up;
      c, d, uc, vc, ud, vd := d % c, c, ud - (d / c) * uc, vd - (d / c) * vc, uc, vc;
    }

    if d != 1 {
      return Err(AssertionError);
    }
    InverseFromCoefficients(ud, vd, a, m, small, big);
    InverseIs(if ud > 0 then ud else ud + m, a, m);
    return Ok(if ud > 0 then ud else ud + m);
  }

  lemma InverseFromCoefficients(ud: int, vd: int, a: int, m: int, small: int, big: int)
    requires m >= 2 && ud * (a % m) + vd * m == 1
    requires 0 <= small <= big && big == m && (ud == small || ud == -small)
    ensures IsInverse(if ud > 0 then ud else ud + m, a, m)
  {
    BezoutInverts(ud, vd, a, m);
    NonZeroCoefficient(ud, a % m, m);
  }

  lemma BezoutInverts(u: int, v: int, a: int, m: int)
    requires m >= 2 && u * (a % m) + v * m == 1
    ensures (u * (a % m)) % m == 1 && (a * u) % m == 1 && (a * (u + m)) % m == 1
  {
    CongFromWitness(u * (a % m), 1, -v, m);
    ModSmall(1, m);
    ModMul(u, a, m);
    CongFromWitness(u + m, u, 1, m);
    CongMul(a, a, u, u + m, m);
  }

  lemma QuotientPositive(d: int, c: int)
    requires 0 < c < d
    ensures d / c >= 1
  {
    DivMod(d, c);
    if d / c <= 0 { MulMono(d / c, 0, c); }
  }

  lemma CombinationStep(uc: int, vc: int, ud: int, vd: int, c: int, d: int, q: int, a: int, m: int)
    requires uc * a + vc * m == c && ud * a + vd * m == d
    ensures (ud - q * uc) * a + (vd - q * vc) * m == d - q * c
  {
    assert (ud - q * uc) * a == ud * a - q * (uc * a);
    assert (vd - q * vc) * m == vd * m - q * (vc * m);
    assert q * c == q * (uc * a) + q * (vc * m);
  }

  lemma BoundStep(c: int, d: int, big: int, small: int, q: int, m: int)
    requires q >= 1 && 0 <= small <= big && c * small + d * big == m
    ensures big <= small + q * big
    ensures (d - q * c) * big + c * (small + q * big) == m
  {
    MulMono(1, q, big);
    assert (d - q * c) * big == d * big - (q * c) * big;
    assert c * (small + q * big) == c * small + c * (q * big);
    assert (q * c) * big == c * (q * big);
  }

  lemma MulSign(q: int, u: int, big: int, up: bool)
    requires u == if up then big else -big
    ensures q * u == if up then q * big else -(q * big)
  {}

  /** A coefficient that inverts something modulo `m` is not a multiple of `m`. */
  lemma NonZeroCoefficient(u: int, a: int, m: int)
    requires m >= 2 && (u * a) % m == 1
    ensures u != 0 && u != m && u != -m
  {
    if u == 0 || u == m || u == -m {
      var k := if u == 0 then 0 else if u == m then 1 else -1;
      DividesIntro(m, u, k);
      DividesProduct(m, u, a);
    }
  }

  /** The inverse as a value: what `InverseMod` returns. */
  function Inverse(a: int, m: int): (r: Result<int>)
    requires m >= 2
    ensures r.Ok? <==> Coprime(a % m, m)
    ensures r.Ok? ==> IsInverse(r.value, a, m)
    ensures r.Err? ==> r.error == AssertionError
  {
    if Coprime(a % m, m) then
      InverseExists(a, m);
      InversesAgree(a, m);
      var v :| 0 < v < m && IsInverse(v, a, m);
      Ok(v)
    else
      Err(AssertionError)
  }

  lemma InversesAgree(a: int, m: int)
    requires m >= 2
    ensures forall v, w :: IsInverse(v, a, m) && IsInverse(w, a, m) ==> v == w
  {
    forall v, w | IsInverse(v, a, m) && IsInverse(w, a, m) ensures v == w {
      InverseUnique(v, w, a, m);
    }
  }

  lemma InverseExists(a: int, m: int)
    requires m >= 2 && Coprime(a % m, m)
    ensures exists v :: IsInverse(v, a, m)
  {
    var s, t := Bezout(a % m, m);
    var v := s % m;
    BezoutInverts(s, t, a, m);
    ModMul(a, s, m);
    if v == 0 {
      DividesProduct(m, s, a);
    }
    assert IsInverse(v, a, m);
  }

  lemma InverseIs(v: int, a: int, m: int)
    requires m >= 2 && IsInverse(v, a, m)
    ensures Inverse(a, m) == Ok(v)
  {
    InverseImpliesCoprime(v, a, m);
    InverseUnique(v, Inverse(a, m).value, a, m);
  }
}
