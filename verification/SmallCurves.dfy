/** Two small curves whose group law is worked out in full. They show that the hypotheses about groups and
    generators can be met, and at which inputs multiplication and signing fall short. */
module SmallCurves {
  import opened Wrappers
  import opened Integers
  import opened Powers
  import opened Primes
  import opened Bytes
  import opened Curve
  import opened Der
  import opened ScalarMul
  import opened Ecdsa
  import opened Keys
  import E = Euclid

  // ----- Cyclic tables -----

  ghost predicate SumIs(c: CurveFp, points: seq<Point>, i: nat, j: nat)
    requires IsPrime(c.p) && i < |points| && j < |points|
    requires forall k :: 0 <= k < |points| ==> Element(points[k], c)
  {
    Plus(points[i], points[j], c) == points[(i + j) % |points|]
  }

  /** The listed points are all the points, and they add up like their indices. */
  ghost predicate Cyclic(c: CurveFp, points: seq<Point>) {
    && IsPrime(c.p) && |points| > 1 && points[0] == Infinity
    && (forall k :: 0 <= k < |points| ==> Element(points[k], c))
    && (forall P | Element(P, c) :: P in points)
    && (forall i, j :: 0 <= i < |points| && 0 <= j < |points| ==> SumIs(c, points, i, j))
  }

  lemma IndicesAssociate(i: nat, j: nat, k: nat, n: nat)
    requires n > 0
    ensures 0 <= (i + j) % n < n && 0 <= (j + k) % n < n && ((i + j) % n + k) % n == (i + (j + k) % n) % n
  {
    DivMod(i + j, n);
    DivMod(j + k, n);
    ModAdd(i + j, k, n);
    ModAdd(i, j + k, n);
  }

  lemma CyclicTriple(c: CurveFp, points: seq<Point>, i: nat, j: nat, k: nat)
    requires Cyclic(c, points) && i < |points| && j < |points| && k < |points|
    ensures Associates(points[i], points[j], points[k], c)
  {
    hide Plus, Element;
    var n := |points|;
    IndicesAssociate(i, j, k, n);
    assert SumIs(c, points, i, j) && SumIs(c, points, j, k);
    assert SumIs(c, points, (i + j) % n, k) && SumIs(c, points, i, (j + k) % n);
  }

  lemma IndexOf(P: Point, c: CurveFp, points: seq<Point>) returns (k: nat)
    requires Cyclic(c, points) && Element(P, c)
    ensures k < |points| && points[k] == P
  {
    hide Element, SumIs;
    assert P in points;
    k :| 0 <= k < |points| && points[k] == P;
  }

  /** Addition modulo n is associative, hence so is a group law that follows it. */
  lemma CyclicIsGroup(c: CurveFp, points: seq<Point>)
    requires Cyclic(c, points)
    ensures Group(c)
  {
    assert IsPrime(c.p);
    hide Element, SumIs, Cyclic, Associates;
    forall P, Q, R | Element(P, c) && Element(Q, c) && Element(R, c) ensures Associates(P, Q, R, c) {
      var i := IndexOf(P, c, points);
      var j := IndexOf(Q, c, points);
      var k := IndexOf(R, c, points);
      CyclicTriple(c, points, i, j, k);
    }
  }

  /** The multiples of the first point run through the list. */
  lemma {:induction false} CyclicMultiple(c: CurveFp, points: seq<Point>, m: nat)
    requires Cyclic(c, points)
    ensures 0 <= m % |points| < |points| && Times(m, points[1], c) == points[m % |points|]
  {
    hide Plus, Element;
    var n := |points|;
    DivMod(m, n);
    if m == 0 {
      ModSmall(0, n);
    } else {
      CyclicMultiple(c, points, m - 1);
      assert SumIs(c, points, (m - 1) % n, 1);
      ModAdd(m - 1, 1, n);
    }
  }

  /** The first point generates the group, and its order is the length of the list. */
  lemma CyclicOrder(c: CurveFp, points: seq<Point>, P: Point)
    requires Cyclic(c, points) && forall k :: 0 < k < |points| ==> points[k] != Infinity
    requires Canon(P) == points[1]
    ensures Element(Canon(P), c) && IsLeastOrder(|points|, P, c)
  {
    hide Plus, Element, Canon, SumIs, Times;
    var n := |points|;
    ModUnique(n, n, 1, 0);
    forall m: nat | m <= n ensures Times(m, points[1], c) == points[m % n] {
      CyclicMultiple(c, points, m);
    }
    forall m: nat | 0 < m < n ensures m % n == m {
      ModSmall(m, n);
    }
  }

  lemma SumsCommute(c: CurveFp, points: seq<Point>, i: nat, j: nat)
    requires IsPrime(c.p) && i < |points| && j < |points|
    requires forall k :: 0 <= k < |points| ==> Element(points[k], c)
    requires SumIs(c, points, i, j)
    ensures SumIs(c, points, j, i)
  {
    hide Plus;
    PlusCommutes(points[i], points[j], c);
  }

  /** Infinity and half of the table give the whole table. */
  lemma WholeTable(c: CurveFp, points: seq<Point>)
    requires IsPrime(c.p) && |points| > 1 && points[0] == Infinity
    requires forall k :: 0 <= k < |points| ==> Element(points[k], c)
    requires forall i, j :: 1 <= i <= j < |points| ==> SumIs(c, points, i, j)
    ensures forall i, j :: 0 <= i < |points| && 0 <= j < |points| ==> SumIs(c, points, i, j)
  {
    hide Plus, Element;
    forall i, j | 0 <= i < |points| && 0 <= j < |points| ensures SumIs(c, points, i, j) {
      ModSmall(i, |points|);
      ModSmall(j, |points|);
      PlusInfinity(points[i], c);
      PlusInfinity(points[j], c);
      if 1 <= j < i {
        SumsCommute(c, points, j, i);
      }
    }
  }

  // ----- Single sums -----

  /** A chord, with the inverse of the run and the slope. */
  lemma ChordIs(c: CurveFp, x1: int, y1: int, x2: int, y2: int, v: int, l: int, x3: int, y3: int)
    requires IsPrime(c.p) && x1 != x2 && E.IsInverse(v, x2 - x1, c.p)
    requires Element(Affine(c, x1, y1, 0), c) && Element(Affine(c, x2, y2, 0), c) && Element(Affine(c, x3, y3, 0), c)
    requires l == ((y2 - y1) * v) % c.p && x3 == (l * l - x1 - x2) % c.p && y3 == (l * (x1 - x3) - y1) % c.p
    ensures Plus(Affine(c, x1, y1, 0), Affine(c, x2, y2, 0), c) == Affine(c, x3, y3, 0)
  {
    E.InverseIs(v, x2 - x1, c.p);
    hide E.Inverse, E.IsInverse;
    assert Add(Affine(c, x1, y1, 0), Affine(c, x2, y2, 0)) == Ok(Affine(c, x3, y3, 0));
  }

  lemma DoubleIs(c: CurveFp, x1: int, y1: int, v: int, l: int, x3: int, y3: int)
    requires IsPrime(c.p) && E.IsInverse(v, 2 * y1, c.p) && c.ContainsPoint(x3, y3)
    requires l == ((3 * x1 * x1 + c.a) * v) % c.p && x3 == (l * l - 2 * x1) % c.p && y3 == (l * (x1 - x3) - y1) % c.p
    ensures Double(Affine(c, x1, y1, 0)) == Ok(Affine(c, x3, y3, 0))
  {
    E.InverseIs(v, 2 * y1, c.p);
    hide E.Inverse, E.IsInverse;
  }

  /** A tangent, with the inverse of twice the ordinate and the slope. */
  lemma TangentIs(c: CurveFp, x1: int, y1: int, v: int, l: int, x3: int, y3: int)
    requires IsPrime(c.p) && E.IsInverse(v, 2 * y1, c.p) && (y1 + y1) % c.p != 0
    requires Element(Affine(c, x1, y1, 0), c) && Element(Affine(c, x3, y3, 0), c)
    requires l == ((3 * x1 * x1 + c.a) * v) % c.p && x3 == (l * l - 2 * x1) % c.p && y3 == (l * (x1 - x3) - y1) % c.p
    ensures Plus(Affine(c, x1, y1, 0), Affine(c, x1, y1, 0), c) == Affine(c, x3, y3, 0)
  {
    DoubleIs(c, x1, y1, v, l, x3, y3);
    hide Double, E.IsInverse;
    assert Add(Affine(c, x1, y1, 0), Affine(c, x1, y1, 0)) == Ok(Affine(c, x3, y3, 0));
  }

  lemma OppositeIs(c: CurveFp, x: int, y: int, z: int)
    requires IsPrime(c.p) && Element(Affine(c, x, y, 0), c) && Element(Affine(c, x, z, 0), c) && (y + z) % c.p == 0
    ensures Plus(Affine(c, x, y, 0), Affine(c, x, z, 0), c) == Infinity
  {
    hide Double;
  }

  function Cubic(c: CurveFp, x: int): int {
    (x * x * x + c.a * x + c.b) % c.p
  }

  lemma CurveEquation(c: CurveFp, x: int, y: int)
    requires c.ContainsPoint(x, y)
    ensures (y * y) % c.p == Cubic(c, x)
  {
    CongDiff(y * y, x * x * x + c.a * x + c.b, c.p);
  }

  // ----- y^2 = x^3 + x + 2 modulo 5 -----

  const STUCK_CURVE := CurveFp(5, 1, 2)

  ghost function StuckPoints(): seq<Point> {
    [Infinity, Affine(STUCK_CURVE, 1, 2, 0), Affine(STUCK_CURVE, 4, 0, 0), Affine(STUCK_CURVE, 1, 3, 0)]
  }

  /** These are points, and the modulus is prime. */
  ghost predicate StuckElements() {
    IsPrime(5) && forall i :: 0 <= i < 4 ==> Element(StuckPoints()[i], STUCK_CURVE)
  }

  lemma StuckElementsHold()
    ensures StuckElements()
  {
    forall d | 2 <= d < 5 ensures !Divides(d, 5) {
      assert d == 2 || d == 3 || d == 4;
    }
  }

  lemma StuckAbscissas(x: int, y: int)
    requires 0 <= x < 5 && 0 <= y < 5 && STUCK_CURVE.ContainsPoint(x, y)
    ensures || (x == 1 && (y == 2 || y == 3))
            || (x == 4 && (y == 0))
  {
    CurveEquation(STUCK_CURVE, x, y);
    StuckCubic(x);
    StuckSquare(y);
    StuckMatch(x, y);
  }

  lemma StuckMatch(x: int, y: int)
    requires 0 <= x < 5 && 0 <= y < 5 && [0, 1, 4, 4, 1][y] == [2, 4, 2, 2, 0][x]
    ensures || (x == 1 && (y == 2 || y == 3))
            || (x == 4 && (y == 0))
  {
    assert x == 0 || x == 1 || x == 2 || x == 3 || x == 4;
    assert y == 0 || y == 1 || y == 2 || y == 3 || y == 4;
  }

  lemma StuckSquare(y: int)
    requires 0 <= y < 5
    ensures (y * y) % 5 == [0, 1, 4, 4, 1][y]
  {
    assert y == 0 || y == 1 || y == 2 || y == 3 || y == 4;
  }

  lemma StuckCubic(x: int)
    requires 0 <= x < 5
    ensures Cubic(STUCK_CURVE, x) == [2, 4, 2, 2, 0][x]
  {
    assert x == 0 || x == 1 || x == 2 || x == 3 || x == 4;
  }

  lemma StuckRow1()
    requires StuckElements()
    ensures forall j :: 1 <= j < 4 ==> SumIs(STUCK_CURVE, StuckPoints(), 1, j)
  {
    hide Plus;
    TangentIs(STUCK_CURVE, 1, 2, 4, 1, 4, 0);
    ChordIs(STUCK_CURVE, 1, 2, 4, 0, 2, 1, 1, 3);
    OppositeIs(STUCK_CURVE, 1, 2, 3);
  }

  lemma StuckRow2()
    requires StuckElements()
    ensures forall j :: 2 <= j < 4 ==> SumIs(STUCK_CURVE, StuckPoints(), 2, j)
  {
    hide Plus;
    OppositeIs(STUCK_CURVE, 4, 0, 0);
    ChordIs(STUCK_CURVE, 4, 0, 1, 3, 3, 4, 1, 2);
  }

  lemma StuckRow3()
    requires StuckElements()
    ensures forall j :: 3 <= j < 4 ==> SumIs(STUCK_CURVE, StuckPoints(), 3, j)
  {
    hide Plus;
    TangentIs(STUCK_CURVE, 1, 3, 1, 4, 4, 0);
  }

  lemma StuckCyclic()
    ensures Cyclic(STUCK_CURVE, StuckPoints())
  {
    StuckElementsHold();
    var c, points := STUCK_CURVE, StuckPoints();
    forall P | Element(P, c) ensures P in points {
      StuckListed(P);
    }
    hide Element, Plus;
    StuckRow1();
    StuckRow2();
    StuckRow3();
    assert forall i, j :: 1 <= i <= j < 4 ==> SumIs(c, points, i, j);
    WholeTable(c, points);
  }

  lemma StuckListed(P: Point)
    requires Element(P, STUCK_CURVE)
    ensures P in StuckPoints()
  {
    if P.Affine? {
      DivMod(P.y, STUCK_CURVE.p);
      StuckAbscissas(P.x, P.y);
      var points := StuckPoints();
      assert P == points[1] || P == points[2] || P == points[3];
    }
  }

  /** The point (1, 2) has order 4, and its triple is (1, 3). Multiplying it by 3 raises all the same: the
      loop computes 4P - P and has to double 2P = (4, 0), which `double` cannot. The law of the curve is
      proved here, so that the example rests on no hypothesis. */
  lemma StuckExample()
    ensures
      var c, P, T := STUCK_CURVE, Affine(STUCK_CURVE, 1, 2, 0), Affine(STUCK_CURVE, 4, 0, 0);
      && Group(c) && IsPoint(P, c) && Element(Canon(P), c) && IsLeastOrder(4, P, c)
      && Times(2, P, c) == T && Double(T) == Err(AssertionError)
      && Times(3, P, c) == Affine(c, 1, 3, 0)
      && Stuck(3, P, c)
  {
    var c, P := STUCK_CURVE, Affine(STUCK_CURVE, 1, 2, 0);
    StuckPoint();
    DoubleFails();
    PrefixOfThree();
    StuckCyclic();
    hide Double, Plus, Times, Prefix, Element, Associative, Stuck, Canon, Cyclic, IsLeastOrder, MeetsHalf;
    CyclicIsGroup(c, StuckPoints());
    CyclicOrder(c, StuckPoints(), P);
    CyclicMultiple(c, StuckPoints(), 2);
    CyclicMultiple(c, StuckPoints(), 3);
    StuckExactly(3, P, 4, c);
  }

  lemma StuckPoint()
    ensures var P := Affine(STUCK_CURVE, 1, 2, 0); IsPoint(P, STUCK_CURVE) && Canon(P) == P && P == StuckPoints()[1]
  {}

  lemma DoubleFails()
    ensures Double(Affine(STUCK_CURVE, 4, 0, 0)) == Err(AssertionError)
  {
    hide Double;
    var T := Affine(STUCK_CURVE, 4, 0, 0);
    StuckElementsHold();
    assert IsPoint(T, STUCK_CURVE) && (2 * T.y) % 5 == 0;
    hide IsPoint, Element, StuckElements, IsPrime;
    DoubleClosed(T, STUCK_CURVE);
  }

  lemma PrefixOfThree()
    ensures MeetsHalf(3, 1, 4)
  {
    assert Pow(2, 1) == 2;
    assert Prefix(3, 2) == 2;
  }

  // ----- y^2 = x^3 + 6x + 6 modulo 11 -----

  const SIGNING_CURVE := CurveFp(11, 6, 6)

  ghost function SigningPoints(): seq<Point> {
    [Infinity, Affine(SIGNING_CURVE, 2, 2, 0), Affine(SIGNING_CURVE, 8, 4, 0), Affine(SIGNING_CURVE, 6, 4, 0),
     Affine(SIGNING_CURVE, 6, 7, 0), Affine(SIGNING_CURVE, 8, 7, 0), Affine(SIGNING_CURVE, 2, 9, 0)]
  }

  /** These are points, and the modulus is prime. */
  ghost predicate SigningElements() {
    IsPrime(11) && forall i :: 0 <= i < 7 ==> Element(SigningPoints()[i], SIGNING_CURVE)
  }

  lemma SigningElementsHold()
    ensures SigningElements()
  {
    forall d | 2 <= d < 11 ensures !Divides(d, 11) {
      assert d == 2 || d == 3 || d == 4 || d == 5 || d == 6 || d == 7 || d == 8 || d == 9 || d == 10;
    }
  }

  lemma SigningAbscissas(x: int, y: int)
    requires 0 <= x < 11 && 0 <= y < 11 && SIGNING_CURVE.ContainsPoint(x, y)
    ensures || (x == 2 && (y == 2 || y == 9))
            || (x == 6 && (y == 4 || y == 7))
            || (x == 8 && (y == 4 || y == 7))
  {
    CurveEquation(SIGNING_CURVE, x, y);
    SigningCubic(x);
    SigningSquare(y);
    SigningMatch(x, y);
  }

  lemma SigningMatch(x: int, y: int)
    requires 0 <= x < 11 && 0 <= y < 11 && [0, 1, 4, 9, 5, 3, 3, 5, 9, 4, 1][y] == [6, 2, 4, 7, 6, 7, 5, 6, 5, 8, 10][x]
    ensures || (x == 2 && (y == 2 || y == 9))
            || (x == 6 && (y == 4 || y == 7))
            || (x == 8 && (y == 4 || y == 7))
  {
    assert x == 0 || x == 1 || x == 2 || x == 3 || x == 4 || x == 5 || x == 6 || x == 7 || x == 8 || x == 9 || x == 10;
    assert y == 0 || y == 1 || y == 2 || y == 3 || y == 4 || y == 5 || y == 6 || y == 7 || y == 8 || y == 9 || y == 10;
  }

  lemma SigningSquare(y: int)
    requires 0 <= y < 11
    ensures (y * y) % 11 == [0, 1, 4, 9, 5, 3, 3, 5, 9, 4, 1][y]
  {
    assert y == 0 || y == 1 || y == 2 || y == 3 || y == 4 || y == 5 || y == 6 || y == 7 || y == 8 || y == 9 || y == 10;
  }

  lemma SigningCubic(x: int)
    requires 0 <= x < 11
    ensures Cubic(SIGNING_CURVE, x) == [6, 2, 4, 7, 6, 7, 5, 6, 5, 8, 10][x]
  {
    assert x == 0 || x == 1 || x == 2 || x == 3 || x == 4 || x == 5 || x == 6 || x == 7 || x == 8 || x == 9 || x == 10;
  }

  lemma SigningRow1()
    requires SigningElements()
    ensures forall j :: 1 <= j < 7 ==> SumIs(SIGNING_CURVE, SigningPoints(), 1, j)
  {
    hide Plus;
    TangentIs(SIGNING_CURVE, 2, 2, 3, 10, 8, 4);
    ChordIs(SIGNING_CURVE, 2, 2, 8, 4, 2, 4, 6, 4);
    ChordIs(SIGNING_CURVE, 2, 2, 6, 4, 3, 6, 6, 7);
    ChordIs(SIGNING_CURVE, 2, 2, 6, 7, 3, 4, 8, 7);
    ChordIs(SIGNING_CURVE, 2, 2, 8, 7, 2, 10, 2, 9);
    OppositeIs(SIGNING_CURVE, 2, 2, 9);
  }

  lemma SigningRow2()
    requires SigningElements()
    ensures forall j :: 2 <= j < 7 ==> SumIs(SIGNING_CURVE, SigningPoints(), 2, j)
  {
    hide Plus;
    TangentIs(SIGNING_CURVE, 8, 4, 7, 0, 6, 7);
    ChordIs(SIGNING_CURVE, 8, 4, 6, 4, 5, 0, 8, 7);
    ChordIs(SIGNING_CURVE, 8, 4, 6, 7, 5, 4, 2, 9);
    OppositeIs(SIGNING_CURVE, 8, 4, 7);
    ChordIs(SIGNING_CURVE, 8, 4, 2, 9, 9, 1, 2, 2);
  }

  lemma SigningRow3()
    requires SigningElements()
    ensures forall j :: 3 <= j < 7 ==> SumIs(SIGNING_CURVE, SigningPoints(), 3, j)
  {
    hide Plus;
    TangentIs(SIGNING_CURVE, 6, 4, 7, 6, 2, 9);
    OppositeIs(SIGNING_CURVE, 6, 4, 7);
    ChordIs(SIGNING_CURVE, 6, 4, 8, 7, 6, 7, 2, 2);
    ChordIs(SIGNING_CURVE, 6, 4, 2, 9, 8, 7, 8, 4);
  }

  lemma SigningRow4()
    requires SigningElements()
    ensures forall j :: 4 <= j < 7 ==> SumIs(SIGNING_CURVE, SigningPoints(), 4, j)
  {
    hide Plus;
    TangentIs(SIGNING_CURVE, 6, 7, 4, 5, 2, 2);
    ChordIs(SIGNING_CURVE, 6, 7, 8, 7, 6, 0, 8, 4);
    ChordIs(SIGNING_CURVE, 6, 7, 2, 9, 8, 5, 6, 4);
  }

  lemma SigningRow5()
    requires SigningElements()
    ensures forall j :: 5 <= j < 7 ==> SumIs(SIGNING_CURVE, SigningPoints(), 5, j)
  {
    hide Plus;
    TangentIs(SIGNING_CURVE, 8, 7, 4, 0, 6, 4);
    ChordIs(SIGNING_CURVE, 8, 7, 2, 9, 9, 7, 6, 7);
  }

  lemma SigningRow6()
    requires SigningElements()
    ensures forall j :: 6 <= j < 7 ==> SumIs(SIGNING_CURVE, SigningPoints(), 6, j)
  {
    hide Plus;
    TangentIs(SIGNING_CURVE, 2, 9, 8, 1, 8, 7);
  }

  lemma SigningCyclic()
    ensures Cyclic(SIGNING_CURVE, SigningPoints())
  {
    SigningElementsHold();
    var c, points := SIGNING_CURVE, SigningPoints();
    forall P | Element(P, c) ensures P in points {
      SigningListed(P);
    }
    hide Element, Plus;
    SigningRow1();
    SigningRow2();
    SigningRow3();
    SigningRow4();
    SigningRow5();
    SigningRow6();
    assert forall i, j :: 1 <= i <= j < 7 ==> SumIs(c, points, i, j);
    WholeTable(c, points);
  }

  lemma SigningListed(P: Point)
    requires Element(P, SIGNING_CURVE)
    ensures P in SigningPoints()
  {
    if P.Affine? {
      DivMod(P.y, SIGNING_CURVE.p);
      SigningAbscissas(P.x, P.y);
      var points := SigningPoints();
      assert exists k :: 0 < k < 7 && P == points[k] by {
        assert P == points[1] || P == points[2] || P == points[3] || P == points[4] || P == points[5] || P == points[6];
      }
    }
  }

  // ----- Signing on the second curve -----

  /** The generator (2, 2) with its order 7, and a curve entry with it. */
  const GENERATOR := Affine(SIGNING_CURVE, 2, 2, 7)
  const ENTRY := NamedCurve(GENERATOR, [1, 2])

  lemma CanonOfGenerator()
    ensures IsPoint(GENERATOR, SIGNING_CURVE) && Canon(GENERATOR) == SigningPoints()[1]
  {}

  lemma PrimeSeven()
    ensures IsPrime(7)
  {
    forall d | 2 <= d < 7 ensures !Divides(d, 7) {
      assert d == 2 || d == 3 || d == 4 || d == 5 || d == 6;
    }
  }

  /** The multiples of the generator are the listed points. */
  lemma GeneratorMultiples(m: nat)
    requires m < 7
    ensures Group(SIGNING_CURVE) && Element(Canon(GENERATOR), SIGNING_CURVE)
    ensures Times(m, Canon(GENERATOR), SIGNING_CURVE) == SigningPoints()[m]
  {
    SigningCyclic();
    CanonOfGenerator();
    hide Plus, Element, Times, Associative, Cyclic, Canon;
    CyclicIsGroup(SIGNING_CURVE, SigningPoints());
    CyclicOrder(SIGNING_CURVE, SigningPoints(), GENERATOR);
    CyclicMultiple(SIGNING_CURVE, SigningPoints(), m);
    ModSmall(m, 7);
  }

  /** The hypotheses about generators and curve entries can be met. */
  lemma EntryIsValid()
    ensures Generator(GENERATOR, SIGNING_CURVE) && ValidCurve(ENTRY)
  {
    SigningCyclic();
    CanonOfGenerator();
    PrimeSeven();
    hide Plus, Element, Times, Associative, Cyclic, Canon;
    CyclicIsGroup(SIGNING_CURVE, SigningPoints());
    CyclicOrder(SIGNING_CURVE, SigningPoints(), GENERATOR);
    assert [1, 2][2..] == [];
    assert NumbersBytes([]) == [];
  }

  /** The key with the secret 3, whose point is (6, 4). */
  const SAMPLE_KEY := SigningKey(ENTRY, 3, Affine(SIGNING_CURVE, 6, 4, 0))

  lemma SampleKeyIsMade()
    ensures ValidCurve(ENTRY) && FromSecret(ENTRY, 3) == Ok(SAMPLE_KEY)
  {
    EntryIsValid();
    GeneratorMultiples(3);
    hide Plus, Element, Times, Generator, Canon;
    assert SecretPoint(ENTRY, 3) == SigningPoints()[3];
  }

  lemma SignedIs(hash: int, d: int, k: nat, r: int, v: int, s: int, G: Point, c: CurveFp)
    requires Generator(G, c) && 1 <= k < G.order && Times(k, Canon(G), c).Affine? && Times(k, Canon(G), c).x == r != 0
    requires E.IsInverse(v, k, G.order) && s == (v * (hash + (d * r) % G.order)) % G.order && s != 0
    ensures Signed(hash, d, k, G, c) == Ok(Signature(r, s))
  {
    E.InverseIs(v, k, G.order);
    ModSmall(k, G.order);
    hide Plus, Element, Times, Generator, Canon, E.Inverse;
  }

  lemma GeneratorAbscissas()
    ensures Group(SIGNING_CURVE) && Element(Canon(GENERATOR), SIGNING_CURVE)
    ensures Times(1, Canon(GENERATOR), SIGNING_CURVE) == Affine(SIGNING_CURVE, 2, 2, 0)
    ensures Times(2, Canon(GENERATOR), SIGNING_CURVE) == Affine(SIGNING_CURVE, 8, 4, 0)
  {
    hide Plus, Element, Times, Canon, Associative;
    GeneratorMultiples(1);
    GeneratorMultiples(2);
  }

  lemma SampleSignatures()
    ensures Generator(GENERATOR, SIGNING_CURVE)
    ensures Signed(2, 3, 1, GENERATOR, SIGNING_CURVE) == Ok(Signature(2, 1))
    ensures Signed(2, 3, 2, GENERATOR, SIGNING_CURVE) == Ok(Signature(8, 6))
  {
    hide Plus, Element, Times, Generator, Canon, Associative, Signed, ValidCurve;
    EntryIsValid();
    GeneratorAbscissas();
    SignedIs(2, 3, 1, 2, 1, 1, GENERATOR, SIGNING_CURVE);
    SignedIs(2, 3, 2, 8, 4, 6, GENERATOR, SIGNING_CURVE);
  }

  /** The digest of one byte with the value 2, signed with the nonces 1 and 2. */
  lemma SampleDigests()
    ensures ValidCurve(ENTRY)
    ensures SignedDigest(SAMPLE_KEY, [2], 1, StringCodec) == Ok([2, 1])
    ensures SignedDigest(SAMPLE_KEY, [2], 2, StringCodec) == Ok([8, 6])
  {
    EntryIsValid();
    SampleSignatures();
    hide Generator, Signed, Canon;
    assert Value([2]) == 2;
    assert ENTRY.BaseLen() == 1;
    SampleEncodings();
  }

  lemma SampleEncodings()
    ensures SigencodeString(2, 1, 7) == Ok([2, 1]) && SigencodeString(8, 6, 7) == Ok([8, 6])
  {
    assert OrderLen(7) == 1;
    OneByte(1);
    OneByte(2);
    OneByte(6);
    OneByte(8);
    hide NumberToString, OrderLen;
    assert [2] + [1] == [2, 1] && [8] + [6] == [8, 6];
  }

  lemma OneByte(b: byte)
    ensures NumberToString(b, 7) == Ok([b])
  {
    assert OrderLen(7) == 1;
    assert Value([b]) == b;
    StringToNumberInverse([b], 7);
  }

  /** Of two signatures that one key makes of one digest, the public key accepts the first and refuses
      the second: the abscissa of twice the generator is 8, and the order is 7. */
  lemma SignatureRefused()
    ensures ValidCurve(ENTRY) && FromSecret(ENTRY, 3) == Ok(SAMPLE_KEY)
    ensures
      var vk := VerifyingKey(ENTRY, SAMPLE_KEY.point);
      && OrderedPoint(vk.point, GENERATOR, SIGNING_CURVE)
      && SignedDigest(SAMPLE_KEY, [2], 1, StringCodec) == Ok([2, 1])
      && VerifiedDigest(vk, [2, 1], [2], StringCodec) == Ok(true)
      && SignedDigest(SAMPLE_KEY, [2], 2, StringCodec) == Ok([8, 6])
      && VerifiedDigest(vk, [8, 6], [2], StringCodec) == Err(BadSignatureError)
  {
    var vk := VerifyingKey(ENTRY, SAMPLE_KEY.point);
    hide Generator, SignedDigest, VerifiedDigest, ValidCurve, FromSecret, Canon, Times, Element, Plus, Associative;
    SampleKeyIsMade();
    SampleDigests();
    GeneratorAbscissas();
    SignThenVerify(SAMPLE_KEY, vk, [2], 1, StringCodec);
    SignThenVerify(SAMPLE_KEY, vk, [2], 2, StringCodec);
  }
}
