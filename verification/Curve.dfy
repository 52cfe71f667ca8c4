/** Elliptic curves over the integers modulo a prime (`ellipticcurve.py`): the addition formulas
    stay on the curve, and up to reduction of coordinates they have an identity, inverses and commute.
    Associativity is the one group law that is not proved here; where it is needed it is the
    hypothesis `Associative`. */
module Curve {
  import opened Wrappers
  import opened Integers
  import opened Powers
  import opened Primes
  import E = Euclid

  type Modulus = m: int | m >= 2 witness 2

  /** y^2 = x^3 + a*x + b modulo p. */
  datatype CurveFp = CurveFp(p: Modulus, a: int, b: int) {
    /** `contains_point`. */
    predicate ContainsPoint(x: int, y: int) {
      (y * y - (x * x * x + a * x + b)) % p == 0
    }
  }

  /** A point; order 0 stands for a point whose order was not given. */
  datatype Point = Infinity | Affine(curve: CurveFp, x: int, y: int, order: nat)

  /** The constructor checks that the point is on the curve. Its other check, that the order times
      the point is infinity, always passes: the factor is reduced modulo the order first. */
  function MakePoint(c: CurveFp, x: int, y: int, order: nat): Result<Point> {
    if c.ContainsPoint(x, y) then Ok(Affine(c, x, y, order)) else Err(AssertionError)
  }

  /** The point on the line with slope l through (x1, y1) and a point with abscissa x2. */
  function ThirdPoint(c: CurveFp, l: int, x1: int, y1: int, x2: int): Result<Point> {
    var x3 := (l * l - x1 - x2) % c.p;
    var y3 := (l * (x1 - x3) - y1) % c.p;
    MakePoint(c, x3, y3, 0)
  }

  function Double(P: Point): Result<Point> {
    match P
    case Infinity => Ok(Infinity)
    case Affine(c, x, y, _) =>
      var inverse :- E.Inverse(2 * y, c.p);
      var l := ((3 * x * x + c.a) * inverse) % c.p;
      var x3 := (l * l - 2 * x) % c.p;
      var y3 := (l * (x - x3) - y) % c.p;
      MakePoint(c, x3, y3, 0)
  }

  function Add(P: Point, Q: Point): Result<Point> {
    if Q.Infinity? then Ok(P)
    else if P.Infinity? then Ok(Q)
    else if P.curve != Q.curve then Err(AssertionError)
    else if P.x == Q.x then
      if (P.y + Q.y) % P.curve.p == 0 then Ok(Infinity) else Double(P)
    else
      var p := P.curve.p;
      var inverse :- E.Inverse(Q.x - P.x, p);
      var l := ((Q.y - P.y) * inverse) % p;
      ThirdPoint(P.curve, l, P.x, P.y, Q.x)
  }

  /** Points the formulas are meant for: on the curve, with the abscissa reduced. */
  ghost predicate IsPoint(P: Point, c: CurveFp) {
    P.Infinity? || (P.curve == c && c.ContainsPoint(P.x, P.y) && 0 <= P.x < c.p)
  }

  // --- closure: the third point of a line is on the curve ---

  lemma ContainsCong(c: CurveFp, x: int, y: int, u: int, v: int)
    requires x % c.p == u % c.p && y % c.p == v % c.p
    ensures c.ContainsPoint(x, y) <==> c.ContainsPoint(u, v)
  {
    CongMul(y, v, y, v, c.p);
    CongMul(x, u, x, u, c.p);
    CongMul(x * x, u * u, x, u, c.p);
    CongMul(c.a, c.a, x, u, c.p);
    CongAdd(x * x * x, u * u * u, c.a * x, c.a * u, c.p);
    CongAdd(x * x * x + c.a * x, u * u * u + c.a * u, c.b, c.b, c.p);
    CongAdd(y * y, v * v, x * x * x + c.a * x + c.b, u * u * u + c.a * u + c.b, c.p);
  }

  /** Moving by t along the line with slope l from (x1, y1) changes the curve equation by t times this. */
  function Secant(c: CurveFp, l: int, x1: int, y1: int, t: int): int {
    t * t + (3 * x1 - l * l) * t + (3 * x1 * x1 + c.a - 2 * y1 * l)
  }

  lemma AlongTheLine(c: CurveFp, l: int, x1: int, y1: int, t: int)
    ensures var X, Y := x1 + t, y1 + l * t;
      X * X * X + c.a * X + c.b - Y * Y == (x1 * x1 * x1 + c.a * x1 + c.b - y1 * y1) + t * Secant(c, l, x1, y1, t)
  {
    Cube(x1, t);
    var a, w := c.a, l * t;
    assert (y1 + w) * (y1 + w) == y1 * y1 + 2 * (y1 * w) + w * w;
    assert a * (x1 + t) == a * x1 + a * t;
    SecantTimes(c, l, x1, y1, t);
  }

  lemma Cube(x: int, t: int)
    ensures (x + t) * (x + t) * (x + t) == x * x * x + 3 * (x * x * t) + 3 * (x * t * t) + t * t * t
  {
    calc {
      (x + t) * (x + t) * (x + t);
      (x * x + 2 * (x * t) + t * t) * (x + t);
      x * x * x + 3 * (x * x * t) + 3 * (x * t * t) + t * t * t;
    }
  }

  lemma SecantProduct(t: int, m: int, k: int)
    ensures t * (t * t + m * t + k) == t * t * t + m * (t * t) + k * t
  {
    DistributeLeft(t, t * t + m * t, k);
    DistributeLeft(t, t * t, m * t);
    assert t * (m * t) == m * (t * t);
  }

  lemma SecantSlope(x: int, l: int, t: int)
    ensures (3 * x - l * l) * (t * t) == 3 * (x * t * t) - (l * t) * (l * t)
  {
    Distribute(3 * x, l * l, t * t);
    assert (3 * x) * (t * t) == 3 * (x * t * t);
    assert (l * l) * (t * t) == (l * t) * (l * t);
  }

  lemma SecantConstant(x: int, a: int, y: int, l: int, t: int)
    ensures (3 * x * x + a - 2 * y * l) * t == 3 * (x * x * t) + a * t - 2 * (y * (l * t))
  {
    Distribute(3 * x * x + a, 2 * y * l, t);
    Distribute(3 * x * x, a, t);
    assert (3 * x * x) * t == 3 * (x * x * t);
    assert (2 * y * l) * t == 2 * (y * (l * t));
  }

  lemma SecantTimes(c: CurveFp, l: int, x1: int, y1: int, t: int)
    ensures t * Secant(c, l, x1, y1, t)
         == t * t * t + 3 * (x1 * t * t) - (l * t) * (l * t) + 3 * (x1 * x1 * t) + c.a * t - 2 * (y1 * (l * t))
  {
    SecantProduct(t, 3 * x1 - l * l, 3 * x1 * x1 + c.a - 2 * y1 * l);
    SecantSlope(x1, l, t);
    SecantConstant(x1, c.a, y1, l, t);
  }

  /** The secant equation has the same value at t and at l^2 - 3*x1 - t. */
  lemma SecantSymmetric(c: CurveFp, l: int, x1: int, y1: int, u: int, t: int)
    requires t == l * l - 3 * x1 - u
    ensures Secant(c, l, x1, y1, t) == Secant(c, l, x1, y1, u)
  {
    assert t * t - u * u == (t - u) * (t + u);
    assert (3 * x1 - l * l) * t - (3 * x1 - l * l) * u == (3 * x1 - l * l) * (t - u);
    Distribute(3 * x1 - l * l, -(t + u), t - u);
  }

  /** If (x1, y1) is on the curve and u solves the secant equation, the third point is on the curve. */
  lemma ThirdPointOnCurve(c: CurveFp, l: int, x1: int, y1: int, u: int)
    requires c.ContainsPoint(x1, y1) && Secant(c, l, x1, y1, u) % c.p == 0
    ensures var x3 := (l * l - x1 - (x1 + u)) % c.p; c.ContainsPoint(x3, (l * (x1 - x3) - y1) % c.p)
  {
    var t := l * l - 3 * x1 - u;
    var X, Y := x1 + t, y1 + l * t;
    AlongTheLine(c, l, x1, y1, t);
    SecantSymmetric(c, l, x1, y1, u, t);
    DividesProduct(c.p, Secant(c, l, x1, y1, t), t);
    DividesSum(c.p, 0, y1 * y1 - (x1 * x1 * x1 + c.a * x1 + c.b)) by { ModSmall(0, c.p); }
    DividesSum(c.p, x1 * x1 * x1 + c.a * x1 + c.b - y1 * y1, t * Secant(c, l, x1, y1, t));
    DividesSum(c.p, 0, X * X * X + c.a * X + c.b - Y * Y) by { ModSmall(0, c.p); }
    assert c.ContainsPoint(X, Y);
    OppositeOrdinate(c, X, Y);
    var x3 := (l * l - x1 - (x1 + u)) % c.p;
    ModMod(X, c.p);
    CongAdd(x1, x1, x3, X, c.p);
    CongMul(l, l, x1 - x3, x1 - X, c.p);
    CongAdd(l * (x1 - x3), l * (x1 - X), y1, y1, c.p);
    assert l * (x1 - X) == -(l * t);
    ModMod(l * (x1 - x3) - y1, c.p);
    ContainsCong(c, x3, (l * (x1 - x3) - y1) % c.p, X, -Y);
  }

  lemma OppositeOrdinate(c: CurveFp, x: int, y: int)
    ensures c.ContainsPoint(x, y) <==> c.ContainsPoint(x, -y)
  {
    assert (-y) * (-y) == y * y;
  }

  /** The abscissa distance to the other point solves the secant equation of a chord. */
  lemma ChordSolvesSecant(c: CurveFp, l: int, x1: int, y1: int, x2: int, y2: int)
    requires IsPrime(c.p) && !Divides(c.p, x2 - x1)
    requires c.ContainsPoint(x1, y1) && c.ContainsPoint(x2, y2) && (l * (x2 - x1)) % c.p == (y2 - y1) % c.p
    ensures Secant(c, l, x1, y1, x2 - x1) % c.p == 0
  {
    var u := x2 - x1;
    AlongTheLine(c, l, x1, y1, u);
    CongAdd(y1, y1, l * u, y2 - y1, c.p);
    ContainsCong(c, x2, y1 + l * u, x2, y2);
    var e1 := y1 * y1 - (x1 * x1 * x1 + c.a * x1 + c.b);
    var e2 := (y1 + l * u) * (y1 + l * u) - (x2 * x2 * x2 + c.a * x2 + c.b);
    DividesSum(c.p, e1, e2);
    assert u * Secant(c, l, x1, y1, u) == e1 - e2;
    EuclidsLemma(c.p, u, Secant(c, l, x1, y1, u));
  }

  lemma DivideBy(n: int, d: int, v: int, p: int)
    requires p >= 2 && E.IsInverse(v, d, p)
    ensures (((n * v) % p) * d) % p == n % p
  {
    ModMul(n * v, d, p);
    assert (n * v) * d == n * (d * v);
    ModSmall(1, p);
    CongMul(n, n, d * v, 1, p);
  }

  lemma DifferentResidues(x: int, y: int, p: int)
    requires p > 0 && 0 <= x < p && 0 <= y < p && x != y
    ensures !Divides(p, y - x)
  {
    CongDiff(y, x, p);
    ModSmall(x, p);
    ModSmall(y, p);
  }

  /** Doubling works exactly when the ordinate is not its own negative, and stays on the curve. */
  lemma DoubleClosed(P: Point, c: CurveFp)
    requires IsPrime(c.p) && IsPoint(P, c) && P.Affine?
    ensures Double(P).Ok? <==> (2 * P.y) % c.p != 0
    ensures Double(P).Ok? ==> Double(P).value.Affine? && IsPoint(Double(P).value, c)
    ensures Double(P).Err? ==> Double(P).error == AssertionError
  {
    var r := (2 * P.y) % c.p;
    DivMod(2 * P.y, c.p);
    if r == 0 {
      assert E.Gcd(0, c.p) == c.p;
    } else {
      NotDividesSmall(c.p, r);
      PrimeCoprime(c.p, r);
      var v := E.Inverse(2 * P.y, c.p).value;
      var l := ((3 * P.x * P.x + c.a) * v) % c.p;
      DivideBy(3 * P.x * P.x + c.a, 2 * P.y, v, c.p);
      CongDiff(3 * P.x * P.x + c.a, l * (2 * P.y), c.p);
      assert Secant(c, l, P.x, P.y, 0) == 3 * P.x * P.x + c.a - l * (2 * P.y);
      ThirdPointOnCurve(c, l, P.x, P.y, 0);
      DivMod(l * l - 2 * P.x, c.p);
    }
  }

  /** The sum of two points of a curve is a point of the curve, whenever the code computes one. */
  lemma AddClosed(P: Point, Q: Point, c: CurveFp)
    requires IsPrime(c.p) && IsPoint(P, c) && IsPoint(Q, c)
    ensures Add(P, Q).Ok? && IsPoint(Add(P, Q).value, c)
  {
    if P.Affine? && Q.Affine? {
      if P.x == Q.x {
        if (P.y + Q.y) % c.p != 0 {
          EqualOrdinates(P.x, P.y, Q.y, c);
          DoubleClosed(P, c);
        }
      } else {
        ChordClosed(P, Q, c);
      }
    }
  }

  lemma ChordClosed(P: Point, Q: Point, c: CurveFp)
    requires IsPrime(c.p) && IsPoint(P, c) && IsPoint(Q, c) && P.Affine? && Q.Affine? && P.x != Q.x
    ensures Add(P, Q).Ok? && IsPoint(Add(P, Q).value, c)
  {
    DifferentResidues(P.x, Q.x, c.p);
    ModMod(Q.x - P.x, c.p);
    PrimeCoprime(c.p, (Q.x - P.x) % c.p);
    var v := E.Inverse(Q.x - P.x, c.p).value;
    var l := ((Q.y - P.y) * v) % c.p;
    DivideBy(Q.y - P.y, Q.x - P.x, v, c.p);
    ChordSolvesSecant(c, l, P.x, P.y, Q.x, Q.y);
    ThirdPointOnCurve(c, l, P.x, P.y, Q.x - P.x);
    DivMod(l * l - P.x - Q.x, c.p);
  }

  /** Points with the same abscissa that are not opposite are equal, and their ordinate is not 0. */
  lemma EqualOrdinates(x: int, y: int, z: int, c: CurveFp)
    requires IsPrime(c.p) && c.ContainsPoint(x, y) && c.ContainsPoint(x, z) && (y + z) % c.p != 0
    ensures y % c.p == z % c.p && (2 * y) % c.p != 0
  {
    var f := x * x * x + c.a * x + c.b;
    DividesSum(c.p, y * y - f, z * z - f);
    assert (y * y - f) - (z * z - f) == (y - z) * (y + z);
    EuclidsLemma(c.p, y - z, y + z);
    CongDiff(y, z, c.p);
    CongAdd(y, y, y, z, c.p);
  }

  // --- what the sum is: the chord-and-tangent rule ---

  /** By how much the curve equation fails at abscissa x of the line through (x1, y1) with slope l. */
  function LineDefect(c: CurveFp, l: int, x1: int, y1: int, x: int): int {
    var y := y1 + l * (x - x1);
    x * x * x + c.a * x + c.b - y * y
  }

  /** The line meets the curve at the abscissas x1, x2 and x3, counted as often as they are roots. */
  ghost predicate MeetsAt(c: CurveFp, l: int, x1: int, y1: int, x2: int, x3: int) {
    forall x :: LineDefect(c, l, x1, y1, x) % c.p == ((x - x1) * (x - x2) * (x - x3)) % c.p
  }

  lemma SecantFactors(c: CurveFp, l: int, x1: int, y1: int, u: int, t: int)
    ensures Secant(c, l, x1, y1, t) - Secant(c, l, x1, y1, u) == (t - u) * (t + u + (3 * x1 - l * l))
  {
    var m := 3 * x1 - l * l;
    assert (t - u) * (t + u + m) == (t - u) * (t + u) + (t - u) * m;
    assert (t - u) * (t + u) == t * t - u * u;
    assert (t - u) * m == m * t - m * u;
  }

  lemma LineMeetsCurve(c: CurveFp, l: int, x1: int, y1: int, x2: int, x3: int)
    requires c.ContainsPoint(x1, y1) && Secant(c, l, x1, y1, x2 - x1) % c.p == 0
    requires x3 % c.p == (l * l - x1 - x2) % c.p
    ensures MeetsAt(c, l, x1, y1, x2, x3)
  {
    hide Secant, LineDefect;
    forall x ensures LineDefect(c, l, x1, y1, x) % c.p == ((x - x1) * (x - x2) * (x - x3)) % c.p {
      LineDefectAt(c, l, x1, y1, x2, x3, x);
    }
  }

  lemma LineDefectAt(c: CurveFp, l: int, x1: int, y1: int, x2: int, x3: int, x: int)
    requires c.ContainsPoint(x1, y1) && Secant(c, l, x1, y1, x2 - x1) % c.p == 0
    requires x3 % c.p == (l * l - x1 - x2) % c.p
    ensures LineDefect(c, l, x1, y1, x) % c.p == ((x - x1) * (x - x2) * (x - x3)) % c.p
  {
    var t, u := x - x1, x2 - x1;
    var e := x1 * x1 * x1 + c.a * x1 + c.b - y1 * y1;
    AlongTheLine(c, l, x1, y1, t);
    SecantFactors(c, l, x1, y1, u, t);
    OppositeEquation(c, x1, y1);
    ProductForm(e, Secant(c, l, x1, y1, t), Secant(c, l, x1, y1, u), x, x1, x2, x3, l * l - x1 - x2, c.p) by {
      SameFactors(l * l, x, x1, x2);
    }
  }

  lemma SameFactors(m: int, x: int, x1: int, x2: int)
    ensures (x - x1 - (x2 - x1)) * (x - x1 + (x2 - x1) + (3 * x1 - m)) == (x - x2) * (x - (m - x1 - x2))
  {
    assert x - x1 - (x2 - x1) == x - x2;
    assert x - x1 + (x2 - x1) + (3 * x1 - m) == x - (m - x1 - x2);
  }

  lemma OppositeEquation(c: CurveFp, x: int, y: int)
    requires c.ContainsPoint(x, y)
    ensures (x * x * x + c.a * x + c.b - y * y) % c.p == 0
  {
    ModSmall(0, c.p);
    CongAdd(0, 0, y * y - (x * x * x + c.a * x + c.b), 0, c.p);
  }

  lemma ProductForm(e: int, s: int, v: int, x: int, x1: int, x2: int, x3: int, m: int, p: int)
    requires p > 0 && e % p == 0 && v % p == 0 && s - v == (x - x2) * (x - m) && x3 % p == m % p
    ensures (e + (x - x1) * s) % p == ((x - x1) * (x - x2) * (x - x3)) % p
  {
    ModSmall(0, p);
    CongAdd(v, 0, s - v, s - v, p);
    CongAdd(x, x, x3, m, p);
    CongMul(x - x2, x - x2, x - x3, x - m, p);
    CongMul(x - x1, x - x1, s, (x - x2) * (x - x3), p);
    CongAdd(e, 0, (x - x1) * s, (x - x1) * ((x - x2) * (x - x3)), p);
    MulAssoc(x - x1, x - x2, x - x3);
  }

  /** The slope of the line through two points with a finite sum, which is a tangent where they are equal. */
  lemma SlopeOf(P: Point, Q: Point, c: CurveFp) returns (l: int)
    requires IsPrime(c.p) && IsPoint(P, c) && IsPoint(Q, c) && P.Affine? && Q.Affine?
    requires P.x == Q.x ==> (P.y + Q.y) % c.p != 0
    ensures Secant(c, l, P.x, P.y, Q.x - P.x) % c.p == 0
    ensures (l * (Q.x - P.x)) % c.p == (Q.y - P.y) % c.p
    ensures
      var x3 := (l * l - P.x - Q.x) % c.p;
      Add(P, Q) == Ok(Affine(c, x3, (l * (P.x - x3) - P.y) % c.p, 0))
  {
    if P.x == Q.x {
      EqualOrdinates(P.x, P.y, Q.y, c);
      DoubleClosed(P, c);
      var v := E.Inverse(2 * P.y, c.p).value;
      l := ((3 * P.x * P.x + c.a) * v) % c.p;
      DivideBy(3 * P.x * P.x + c.a, 2 * P.y, v, c.p);
      CongDiff(3 * P.x * P.x + c.a, l * (2 * P.y), c.p);
      CongDiff(Q.y, P.y, c.p);
      ModSmall(0, c.p);
    } else {
      ChordClosed(P, Q, c);
      DifferentResidues(P.x, Q.x, c.p);
      var v := E.Inverse(Q.x - P.x, c.p).value;
      l := ((Q.y - P.y) * v) % c.p;
      DivideBy(Q.y - P.y, Q.x - P.x, v, c.p);
      ChordSolvesSecant(c, l, P.x, P.y, Q.x, Q.y);
    }
  }

  /** Three points of a line add up to infinity: the sum of two points that are not opposite is R where the
      line through them meets the curve again in the opposite of R. Both points are on that line, and its
      intersections with the curve are these three and no others, each as often as it is a root. */
  lemma SumOnLine(P: Point, Q: Point, c: CurveFp) returns (l: int, R: Point)
    requires IsPrime(c.p) && IsPoint(P, c) && IsPoint(Q, c) && P.Affine? && Q.Affine?
    requires P.x == Q.x ==> (P.y + Q.y) % c.p != 0
    ensures Add(P, Q) == Ok(R) && R.Affine? && R.curve == c
    ensures (P.y + l * (Q.x - P.x)) % c.p == Q.y % c.p
    ensures (P.y + l * (R.x - P.x)) % c.p == (-R.y) % c.p
    ensures MeetsAt(c, l, P.x, P.y, Q.x, R.x)
  {
    l := SlopeOf(P, Q, c);
    R := Add(P, Q).value;
    hide Secant, LineDefect, MeetsAt, Add;
    CongAdd(P.y, P.y, l * (Q.x - P.x), Q.y - P.y, c.p);
    ModMod(l * l - P.x - Q.x, c.p);
    LineMeetsCurve(c, l, P.x, P.y, Q.x, R.x);
    OnLineBelow(l, P.x, P.y, R.x, R.y, c.p);
  }

  lemma OnLineBelow(l: int, x1: int, y1: int, x3: int, y3: int, p: int)
    requires p > 0 && y3 == (l * (x1 - x3) - y1) % p
    ensures (y1 + l * (x3 - x1)) % p == (-y3) % p
  {
    var w := l * (x1 - x3) - y1;
    ModMod(w, p);
    CongAdd(0, 0, y3, w, p);
    assert l * (x3 - x1) == -(l * (x1 - x3));
    assert 0 - w == y1 + l * (x3 - x1);
  }

  /** Infinity comes out exactly for opposite points, and no sum is computed across two curves. */
  lemma SumIsInfinity(P: Point, Q: Point)
    ensures Add(P, Infinity) == Ok(P) && Add(Infinity, Q) == Ok(Q)
    ensures P.Affine? && Q.Affine? && P.curve != Q.curve ==> Add(P, Q) == Err(AssertionError)
    ensures P.Affine? && Q.Affine? && P.curve == Q.curve ==>
      (Add(P, Q) == Ok(Infinity) <==> P.x == Q.x && (P.y + Q.y) % P.curve.p == 0)
  {}

  // --- the group ---

  /** Points up to reduction of the ordinate and the recorded order. */
  function Canon(P: Point): Point {
    match P
    case Infinity => Infinity
    case Affine(c, x, y, _) => Affine(c, x, y % c.p, 0)
  }

  ghost predicate Element(P: Point, c: CurveFp) {
    IsPoint(P, c) && P == Canon(P)
  }

  lemma CanonIsElement(P: Point, c: CurveFp)
    requires IsPoint(P, c)
    ensures Element(Canon(P), c)
  {
    if P.Affine? {
      ModMod(P.y, c.p);
      ContainsCong(c, P.x, P.y, P.x, P.y % c.p);
    }
  }

  /** The group operation. */
  ghost function Plus(P: Point, Q: Point, c: CurveFp): (R: Point)
    requires IsPrime(c.p) && Element(P, c) && Element(Q, c)
    ensures Element(R, c)
  {
    AddClosed(P, Q, c);
    CanonIsElement(Add(P, Q).value, c);
    Canon(Add(P, Q).value)
  }

  ghost function Negate(P: Point, c: CurveFp): (R: Point)
    requires Element(P, c)
    ensures Element(R, c)
  {
    match P
    case Infinity => Infinity
    case Affine(_, x, y, _) =>
      OppositeOrdinate(c, x, y);
      CanonIsElement(Affine(c, x, -y, 0), c);
      Canon(Affine(c, x, -y, 0))
  }

  /** The one group law that is not proved here. */
  ghost predicate Associative(c: CurveFp)
    requires IsPrime(c.p)
  {
    forall P, Q, R {:trigger Associates(P, Q, R, c)} | Element(P, c) && Element(Q, c) && Element(R, c) ::
      Associates(P, Q, R, c)
  }

  ghost predicate Associates(P: Point, Q: Point, R: Point, c: CurveFp)
    requires IsPrime(c.p) && Element(P, c) && Element(Q, c) && Element(R, c)
  {
    Plus(Plus(P, Q, c), R, c) == Plus(P, Plus(Q, R, c), c)
  }

  lemma Associate(P: Point, Q: Point, R: Point, c: CurveFp)
    requires IsPrime(c.p) && Associative(c) && Element(P, c) && Element(Q, c) && Element(R, c)
    ensures Plus(Plus(P, Q, c), R, c) == Plus(P, Plus(Q, R, c), c)
  {
    assert Associates(P, Q, R, c);
  }

  lemma PlusInfinity(P: Point, c: CurveFp)
    requires IsPrime(c.p) && Element(P, c)
    ensures Plus(P, Infinity, c) == P && Plus(Infinity, P, c) == P
  {}

  lemma PlusNegate(P: Point, c: CurveFp)
    requires IsPrime(c.p) && Element(P, c)
    ensures Plus(P, Negate(P, c), c) == Infinity
  {
    if P.Affine? {
      ModAdd(P.y, -P.y, c.p);
      ModSmall(0, c.p);
    }
  }

  lemma PlusCommutes(P: Point, Q: Point, c: CurveFp)
    requires IsPrime(c.p) && Element(P, c) && Element(Q, c)
    ensures Plus(P, Q, c) == Plus(Q, P, c)
  {
    if P.Affine? && Q.Affine? {
      if P.x == Q.x {
        if (P.y + Q.y) % c.p != 0 {
          EqualOrdinates(P.x, P.y, Q.y, c);
        }
      } else {
        ChordClosed(P, Q, c);
        ChordClosed(Q, P, c);
        ChordCommutes(P, Q, c);
      }
    }
  }

  lemma ChordCommutes(P: Point, Q: Point, c: CurveFp)
    requires IsPrime(c.p) && IsPoint(P, c) && IsPoint(Q, c) && P.Affine? && Q.Affine? && P.x != Q.x
    ensures Add(P, Q) == Add(Q, P)
  {
    DifferentResidues(P.x, Q.x, c.p);
    DifferentResidues(Q.x, P.x, c.p);
    ModMod(Q.x - P.x, c.p);
    ModMod(P.x - Q.x, c.p);
    PrimeCoprime(c.p, (Q.x - P.x) % c.p);
    PrimeCoprime(c.p, (P.x - Q.x) % c.p);
    var v, w := E.Inverse(Q.x - P.x, c.p).value, E.Inverse(P.x - Q.x, c.p).value;
    var l, m := ((Q.y - P.y) * v) % c.p, ((P.y - Q.y) * w) % c.p;
    DivideBy(Q.y - P.y, Q.x - P.x, v, c.p);
    DivideBy(P.y - Q.y, P.x - Q.x, w, c.p);
    SlopesAgree(P.x, P.y, Q.x, Q.y, l, m, c.p);
    SameThirdPoint(c, l, P.x, P.y, Q.x, Q.y);
  }

  lemma SlopesAgree(x1: int, y1: int, x2: int, y2: int, l: int, m: int, p: int)
    requires IsPrime(p) && !Divides(p, x2 - x1) && 0 <= l < p && 0 <= m < p
    requires (l * (x2 - x1)) % p == (y2 - y1) % p && (m * (x1 - x2)) % p == (y1 - y2) % p
    ensures l == m
  {
    CongMul(-1, -1, m * (x1 - x2), y1 - y2, p);
    assert -1 * (m * (x1 - x2)) == (x2 - x1) * m && -1 * (y1 - y2) == y2 - y1;
    assert l * (x2 - x1) == (x2 - x1) * l;
    Cancel(p, x2 - x1, l, m);
    ModSmall(l, p);
    ModSmall(m, p);
  }

  lemma SameThirdPoint(c: CurveFp, l: int, x1: int, y1: int, x2: int, y2: int)
    requires (l * (x2 - x1)) % c.p == (y2 - y1) % c.p
    ensures ThirdPoint(c, l, x1, y1, x2) == ThirdPoint(c, l, x2, y2, x1)
  {
    var x3 := (l * l - x1 - x2) % c.p;
    assert x3 == (l * l - x2 - x1) % c.p;
    ShiftAlong(l, x1, x2, x3);
    CongAdd(l * (x2 - x3), l * (x2 - x3), l * (x2 - x1), y2 - y1, c.p);
    CongAdd(l * (x1 - x3), l * (x2 - x3) - (y2 - y1), y1, y1, c.p);
  }

  lemma ShiftAlong(l: int, x1: int, x2: int, x3: int)
    ensures l * (x1 - x3) == l * (x2 - x3) - l * (x2 - x1)
  {}

  // --- the code's operations are the group's ---

  lemma InverseOfResidue(a: int, b: int, m: int)
    requires m >= 2 && a % m == b % m
    ensures E.Inverse(a, m) == E.Inverse(b, m)
  {
    if E.Inverse(a, m).Ok? {
      var v := E.Inverse(a, m).value;
      CongMul(a, b, v, v, m);
      E.InverseIs(v, b, m);
    }
  }

  lemma DoubleIsPlus(P: Point, c: CurveFp)
    requires IsPrime(c.p) && IsPoint(P, c) && P.Affine? && (2 * P.y) % c.p != 0
    ensures Double(P).Ok? && Element(Canon(P), c) && Double(P).value == Plus(Canon(P), Canon(P), c)
  {
    DoubleClosed(P, c);
    CanonIsElement(P, c);
    var y := P.y % c.p;
    ModMod(P.y, c.p);
    CongMul(2, 2, P.y, y, c.p);
    InverseOfResidue(2 * P.y, 2 * y, c.p);
    DoubleClosed(Canon(P), c);
    var v := E.Inverse(2 * y, c.p).value;
    var l := ((3 * P.x * P.x + c.a) * v) % c.p;
    var x3 := (l * l - 2 * P.x) % c.p;
    CongAdd(l * (P.x - x3), l * (P.x - x3), P.y, y, c.p);
    ModMod(l * (P.x - x3) - y, c.p);
    assert y + y == 2 * y;
    CanonOfReduced(Double(Canon(P)).value);
  }

  lemma CanonOfReduced(P: Point)
    requires P.Affine? ==> 0 <= P.y < P.curve.p && P.order == 0
    ensures Canon(P) == P
  {
    if P.Affine? { ModSmall(P.y, P.curve.p); }
  }

  lemma AddIsPlus(P: Point, Q: Point, c: CurveFp)
    requires IsPrime(c.p) && IsPoint(P, c) && IsPoint(Q, c)
    ensures Add(P, Q).Ok? && IsPoint(Add(P, Q).value, c) && Element(Canon(P), c) && Element(Canon(Q), c)
    ensures Canon(Add(P, Q).value) == Plus(Canon(P), Canon(Q), c)
  {
    AddClosed(P, Q, c);
    CanonIsElement(P, c);
    CanonIsElement(Q, c);
    if P.Affine? && Q.Affine? {
      ModMod(P.y, c.p);
      ModMod(Q.y, c.p);
      if P.x == Q.x {
        CongAdd(P.y, P.y % c.p, Q.y, Q.y % c.p, c.p);
        if (P.y + Q.y) % c.p != 0 {
          EqualOrdinates(P.x, P.y, Q.y, c);
          DoubleIsPlus(P, c);
          CanonOfReduced(Double(P).value);
          assert Canon(P) == Canon(Q);
        }
      } else {
        ChordOfCanon(P, Q, c);
      }
    }
  }

  lemma ChordOfCanon(P: Point, Q: Point, c: CurveFp)
    requires IsPrime(c.p) && IsPoint(P, c) && IsPoint(Q, c) && P.Affine? && Q.Affine? && P.x != Q.x
    ensures Add(P, Q) == Add(Canon(P), Canon(Q))
  {
    ChordClosed(P, Q, c);
    ModMod(P.y, c.p);
    ModMod(Q.y, c.p);
    var y, z := P.y % c.p, Q.y % c.p;
    CongAdd(Q.y, z, P.y, y, c.p);
    var v := E.Inverse(Q.x - P.x, c.p).value;
    CongMul(Q.y - P.y, z - y, v, v, c.p);
    var l := ((z - y) * v) % c.p;
    var x3 := (l * l - P.x - Q.x) % c.p;
    CongAdd(l * (P.x - x3), l * (P.x - x3), P.y, y, c.p);
  }
}
