/** Multiplication of a point by an integer (`Point.__mul__`): the signed-digit loop computes the
    multiple, except where it has to double a point of order two, which `double` cannot. */
module ScalarMul {
  import opened Wrappers
  import opened Integers
  import opened Powers
  import opened Primes
  import opened Curve

  /** The m-fold sum of an element. */
  ghost function Times(m: nat, P: Point, c: CurveFp): (R: Point)
    requires IsPrime(c.p) && Element(P, c)
    ensures Element(R, c)
  {
    if m == 0 then Infinity else Plus(Times(m - 1, P, c), P, c)
  }

  /** What an associative curve on a prime field is assumed to be. */
  ghost predicate Group(c: CurveFp) {
    IsPrime(c.p) && Associative(c)
  }

  lemma {:induction false} TimesAdd(m: nat, n: nat, P: Point, c: CurveFp)
    requires Group(c) && Element(P, c)
    ensures Times(m + n, P, c) == Plus(Times(m, P, c), Times(n, P, c), c)
  {
    hide Plus, Canon, Add, Double, Associative;
    if n == 0 {
      PlusInfinity(Times(m, P, c), c);
    } else {
      TimesAdd(m, n - 1, P, c);
      Associate(Times(m, P, c), Times(n - 1, P, c), P, c);
    }
  }

  lemma {:induction false} TimesTimes(m: nat, n: nat, P: Point, c: CurveFp)
    requires Group(c) && Element(P, c)
    ensures m * n >= 0 && Times(m * n, P, c) == Times(m, Times(n, P, c), c)
  {
    hide Plus, Canon, Add, Double, Associative;
    if m > 0 {
      TimesTimes(m - 1, n, P, c);
      assert m * n == (m - 1) * n + n;
      TimesAdd((m - 1) * n, n, P, c);
    }
  }

  lemma {:induction false} TimesInfinity(m: nat, c: CurveFp)
    requires IsPrime(c.p)
    ensures Times(m, Infinity, c) == Infinity
  {
    if m > 0 { TimesInfinity(m - 1, c); }
  }

  /** One step down: subtracting the point from a positive multiple. */
  lemma TimesMinusOne(m: nat, P: Point, c: CurveFp)
    requires Group(c) && Element(P, c) && m >= 1
    ensures Plus(Times(m, P, c), Negate(P, c), c) == Times(m - 1, P, c)
  {
    var T := Times(m - 1, P, c);
    Associate(T, P, Negate(P, c), c);
    PlusNegate(P, c);
    PlusInfinity(T, c);
  }

  /** Multiples depend on the factor modulo the order only. */
  lemma TimesModulo(m: nat, n: nat, P: Point, c: CurveFp)
    requires Group(c) && Element(P, c) && n > 0 && Times(n, P, c) == Infinity
    ensures Times(m % n, P, c) == Times(m, P, c)
  {
    DivMod(m, n);
    var q := m / n;
    if q < 0 { MulMono(q, -1, n); }
    TimesTimes(q, n, P, c);
    TimesInfinity(q, c);
    TimesAdd(q * n, m % n, P, c);
    PlusInfinity(Times(m % n, P, c), c);
  }

  // --- the bits of 3e and e ---

  /** `leftmost_bit`: the greatest power of two up to x. */
  method LeftmostBit(x: nat) returns (r: nat, ghost k: nat)
    requires x > 0
    ensures r == Pow(2, k) && r <= x < 2 * r
  {
    var result := 1;
    k := 0;
    while result <= x
      invariant result == Pow(2, k) && result >= 1 && (k > 0 ==> result <= 2 * x)
      decreases 2 * x - result
    {
      result, k := 2 * result, k + 1;
    }
    r, k := result / 2, k - 1;
  }

  /** `x & i != 0` for a power of two i. */
  predicate HasBit(x: nat, i: nat)
    requires i > 0
  {
    (x / i) % 2 == 1
  }

  /** The multiple reached before bit i is handled: floor(3e / 2i) - floor(e / 2i). */
  function Prefix(e: nat, i: nat): int
    requires i > 0
  {
    (3 * e) / (2 * i) - e / (2 * i)
  }

  lemma DivTwice(x: nat, i: nat)
    requires i > 0
    ensures x / (2 * i) == (x / i) / 2
  {
    DivMod(x, i);
    DivMod(x / i, 2);
    var q, b := (x / i) / 2, (x / i) % 2;
    assert x == q * (2 * i) + (b * i + x % i) by { assert (q * 2 + b) * i == q * (2 * i) + b * i; }
    MulMono(b, 1, i);
    ModUnique(x, 2 * i, q, b * i + x % i);
  }

  /** Handling bit i doubles the multiple and adds the difference of the two bits. */
  lemma PrefixStep(e: nat, i: nat, h: nat)
    requires h > 0 && i == 2 * h
    ensures Prefix(e, h) == 2 * Prefix(e, i)
      + (if HasBit(3 * e, i) then 1 else 0) - (if HasBit(e, i) then 1 else 0)
  {
    DivTwice(3 * e, i);
    DivTwice(e, i);
  }

  lemma PrefixNonNegative(e: nat, i: nat)
    requires i > 0
    ensures Prefix(e, i) >= 0
    ensures Prefix(e, i) == 0 ==> HasBit(e, i) ==> HasBit(3 * e, i)
  {
    DivTwice(3 * e, i);
    DivTwice(e, i);
    DivMonotone(e, 3 * e, i);
  }

  lemma DivMonotone(x: nat, y: nat, i: nat)
    requires i > 0 && x <= y
    ensures 0 <= x / i <= y / i
  {
    DivMod(x, i);
    DivMod(y, i);
    if x / i > y / i { MulMono(y / i + 1, x / i, i); Distribute(y / i, 1, i); }
    if x / i < 0 { MulMono(x / i, -1, i); }
  }

  lemma PrefixAtTop(e: nat, i: nat)
    requires i > 0 && 2 * i <= 3 * e < 4 * i
    ensures Prefix(e, i) == 1
  {
    ModUnique(3 * e, 2 * i, 1, 3 * e - 2 * i);
    ModUnique(e, 2 * i, 0, e);
  }

  lemma PrefixAbove(e: nat, i: nat)
    requires i > 0 && 3 * e < 2 * i
    ensures Prefix(e, i) == 0
  {
    ModUnique(3 * e, 2 * i, 0, 3 * e);
    ModUnique(e, 2 * i, 0, e);
  }

  lemma PrefixAtEnd(e: nat)
    ensures Prefix(e, 1) == e
  {
    assert e == 2 * (e / 2) + e % 2;
    assert 3 * e == 2 * (e + e / 2) + e % 2;
  }

  // --- where the loop stops ---

  /** A point that `double` cannot handle: its double is infinity, but it is not. */
  ghost predicate TwoTorsion(P: Point) {
    P.Affine? && (2 * P.y) % P.curve.p == 0
  }

  lemma TwoTorsionMeaning(P: Point, c: CurveFp)
    requires IsPrime(c.p) && Element(P, c)
    ensures TwoTorsion(P) <==> P != Infinity && Plus(P, P, c) == Infinity
  {
    if P.Affine? {
      assert P.y + P.y == 2 * P.y;
      if (2 * P.y) % c.p != 0 { DoubleClosed(P, c); }
    }
  }

  /** One of the multiples that the loop doubles has order two. */
  ghost predicate Stuck(e: nat, P: Point, c: CurveFp)
    requires Group(c) && IsPoint(P, c)
  {
    exists j: nat :: j >= 1 && StuckAt(e, j, P, c)
  }

  ghost predicate StuckAt(e: nat, j: nat, P: Point, c: CurveFp)
    requires Group(c) && IsPoint(P, c)
  {
    PowPositive(2, j);
    PrefixNonNegative(e, Pow(2, j));
    CanonIsElement(P, c);
    TwoTorsion(Times(Prefix(e, Pow(2, j)), Canon(P), c))
  }

  /** One of the positive multiples that the loop doubles is infinity; adding to it then returns a
      summand as it is, with an ordinate that may not be reduced. */
  ghost predicate Crossed(e: nat, P: Point, c: CurveFp)
    requires Group(c) && IsPoint(P, c)
  {
    exists j: nat :: j >= 1 && CrossedAt(e, j, P, c)
  }

  ghost predicate CrossedAt(e: nat, j: nat, P: Point, c: CurveFp)
    requires Group(c) && IsPoint(P, c)
  {
    PowPositive(2, j);
    PrefixNonNegative(e, Pow(2, j));
    CanonIsElement(P, c);
    Prefix(e, Pow(2, j)) > 0 && Times(Prefix(e, Pow(2, j)), Canon(P), c) == Infinity
  }

  /** The factor after the reduction modulo a recorded order. */
  function Factor(P: Point, e: int): int {
    if P.Affine? && P.order != 0 then e % P.order else e
  }

  /** The factor that is used: where a point records its order, the residue of the given one. */
  lemma FactorMeaning(P: Point, e: int)
    ensures P.Affine? && P.order > 0 ==> 0 <= Factor(P, e) < P.order && Divides(P.order, e - Factor(P, e))
    ensures P.Infinity? || P.order == 0 ==> Factor(P, e) == e
  {
    if P.Affine? && P.order > 0 {
      DivMod(e, P.order);
      DividesIntro(P.order, e - Factor(P, e), e / P.order);
    }
  }

  method Multiply(P: Point, other: int, ghost c: CurveFp) returns (r: Result<Point>)
    requires Group(c) && (IsPoint(P, c) || Factor(P, other) == 0)
    ensures P.Infinity? || Factor(P, other) == 0 ==> r == Ok(Infinity)
    ensures P.Affine? && Factor(P, other) < 0 ==> r == Err(AssertionError)
    ensures IsPoint(P, c) && P.Affine? && Factor(P, other) > 0 && Stuck(Factor(P, other), P, c) ==>
      r == Err(AssertionError)
    ensures IsPoint(P, c) && Factor(P, other) >= 0 && !Stuck(Factor(P, other), P, c) ==> (
      r.Ok? && IsPoint(r.value, c) && Element(Canon(P), c)
      && Canon(r.value) == Times(Factor(P, other), Canon(P), c))
    ensures r.Ok? && P.Affine? && Factor(P, other) == 1 ==> r.value == P
    ensures IsPoint(P, c) && r.Ok? && P.Affine? && Factor(P, other) >= 2 && !Crossed(Factor(P, other), P, c) ==>
      r.value == Canon(r.value)
  {
    if IsPoint(P, c) {
      CanonIsElement(P, c);
    }
    var e := other;
    if P.Affine? && P.order != 0 {
      e := e % P.order;
    }
    if e == 0 {
      return Ok(Infinity);
    }
    if P.Infinity? {
      if e > 0 { TimesInfinity(e, c); }
      return Ok(Infinity);
    }
    if e < 0 {
      return Err(AssertionError);
    }
    OppositeOrdinate(P.curve, P.x, P.y);
    var negative :- MakePoint(P.curve, P.x, -P.y, P.order);
    r := SignedDigits(P, negative, e, c);
  }

  /** The loop over the bits of 3e, from the second highest down to the second lowest. */
  method SignedDigits(P: Point, negative: Point, e: nat, ghost c: CurveFp) returns (r: Result<Point>)
    requires Group(c) && IsPoint(P, c) && P.Affine? && e > 0
    requires negative == Affine(P.curve, P.x, -P.y, P.order) && IsPoint(negative, c)
    ensures Stuck(e, P, c) ==> r == Err(AssertionError)
    ensures !Stuck(e, P, c) ==> (r.Ok? && IsPoint(r.value, c) && Element(Canon(P), c)
      && Canon(r.value) == Times(e, Canon(P), c))
    ensures r.Ok? && e == 1 ==> r.value == P
    ensures r.Ok? && e >= 2 && !Crossed(e, P, c) ==> r.value == Canon(r.value)
  {
    hide Plus, Add, Double, Negate, Canon, Associative, Prefix;
    CanonIsElement(P, c);
    var top;
    ghost var j: nat;
    top, j := LeftmostBit(3 * e);
    j := StartPrefix(e, top, j, P, c);
    var i := top / 2;
    var result := P;
    while i > 1
      invariant i == Pow(2, j) && i >= 1 && Prefix(e, i) >= 1
      invariant i == top / 2 ==> result == P
      invariant i < top / 2 ==> (exists k: nat :: k > j && CrossedAt(e, k, P, c)) || result == Canon(result)
      invariant IsPoint(result, c) && Canon(result) == Times(Prefix(e, i), Canon(P), c)
      invariant forall k: nat :: k > j ==> !StuckAt(e, k, P, c)
      decreases i
    {
      DoubleOrStuck(result, c);
      var doubled := Double(result);
      if doubled.Err? {
        assert StuckAt(e, j, P, c);
        return doubled;
      }
      assert !StuckAt(e, j, P, c);
      PowerHalves(j);
      ghost var before := result;
      result := DigitStep(P, negative, result, doubled.value, e, i, c);
      if Canon(before) == Infinity {
        assert CrossedAt(e, j, P, c);
      } else {
        AffineIfCanon(before);
      }
      i, j := i / 2, j - 1;
    }
    PowerAboveOne(j);
    PrefixAtEnd(e);
    assert e == 1 <==> top == 2 by { PowersAreEven(e, top); }
    return Ok(result);
  }

  lemma PowersAreEven(e: nat, top: nat)
    requires e > 0 && top <= 3 * e < 2 * top && top % 2 == 0
    ensures e == 1 <==> top == 2
  {}

  lemma AffineIfCanon(P: Point)
    requires Canon(P) != Infinity
    ensures P.Affine?
  {}

  lemma DoubleOrStuck(P: Point, c: CurveFp)
    requires IsPrime(c.p) && IsPoint(P, c)
    ensures Double(P).Err? <==> TwoTorsion(Canon(P))
    ensures Double(P).Err? ==> Double(P) == Err(AssertionError)
  {
    CanonTorsion(P, c);
    if P.Affine? { DoubleClosed(P, c); }
  }

  lemma PowerHalves(j: nat)
    requires Pow(2, j) > 1
    ensures j >= 1 && Pow(2, j - 1) == Pow(2, j) / 2 && Pow(2, j) % 2 == 0 && Pow(2, j - 1) >= 1
  {
    PowPositive(2, j - 1);
  }

  /** The loop starts at the multiple 1, and no doubling above that bit would be of a point of order two. */
  lemma StartPrefix(e: nat, top: nat, k: nat, P: Point, c: CurveFp) returns (j: nat)
    requires Group(c) && IsPoint(P, c) && e > 0 && top == Pow(2, k) && top <= 3 * e < 2 * top
    requires Element(Canon(P), c)
    ensures k == j + 1 && top / 2 == Pow(2, j) && Prefix(e, top / 2) == 1 && top / 2 >= 1
    ensures Times(1, Canon(P), c) == Canon(P)
    ensures forall m: nat :: m > j ==> !StuckAt(e, m, P, c)
  {
    PowerHalves(k);
    j := k - 1;
    PrefixAtTop(e, top / 2);
    assert Times(1, Canon(P), c) == Plus(Times(0, Canon(P), c), Canon(P), c);
    PlusInfinity(Canon(P), c);
    forall m: nat | m > j ensures !StuckAt(e, m, P, c) {
      PowGrows(k, m);
      PrefixAbove(e, Pow(2, m));
    }
  }

  lemma {:induction false} PowGrows(k: nat, m: nat)
    requires k <= m
    ensures Pow(2, k) <= Pow(2, m)
  {
    if k < m {
      PowGrows(k, m - 1);
      PowPositive(2, m - 1);
    }
  }

  lemma PowerAboveOne(j: nat)
    requires Pow(2, j) <= 1
    ensures j == 0
  {
    if j > 0 { PowPositive(2, j - 1); }
  }

  lemma CanonTorsion(P: Point, c: CurveFp)
    requires IsPoint(P, c)
    ensures TwoTorsion(Canon(P)) <==> TwoTorsion(P)
  {
    if P.Affine? {
      ModMod(P.y, c.p);
      CongMul(2, 2, P.y % c.p, P.y, c.p);
    }
  }

  /** The body of the loop once doubling is known to succeed. */
  method DigitStep(P: Point, negative: Point, ghost before: Point, doubled: Point, e: nat, i: nat, ghost c: CurveFp)
    returns (after: Point)
    requires Group(c) && IsPoint(P, c) && P.Affine? && i >= 2 && i % 2 == 0
    requires negative == Affine(P.curve, P.x, -P.y, P.order) && IsPoint(negative, c)
    requires IsPoint(before, c) && Double(before) == Ok(doubled) && Prefix(e, i) >= 1
    requires Element(Canon(P), c) && Canon(before) == Times(Prefix(e, i), Canon(P), c)
    ensures Prefix(e, i / 2) >= 1 && IsPoint(after, c)
    ensures before.Affine? ==> after == Canon(after)
    ensures Canon(after) == Times(Prefix(e, i / 2), Canon(P), c)
  {
    hide Plus, Add, Double, Negate, Canon, Associative, Prefix;
    ghost var m := Prefix(e, i);
    ghost var p := Canon(P);
    PrefixStep(e, i, i / 2);
    PrefixNonNegative(e, i);
    DoubleSafe(before, c);
    if before.Affine? { DoubleReduced(before, c); }
    TimesAdd(m, m, p, c);
    after := doubled;
    if HasBit(3 * e, i) && !HasBit(e, i) {
      AddIsPlus(after, P, c);
      if after.Affine? { AddReduced(after, P, c); }
      after := Add(after, P).value;
    }
    if !HasBit(3 * e, i) && HasBit(e, i) {
      AddIsPlus(after, negative, c);
      NegativeCanon(P, negative, c);
      TimesMinusOne(2 * m, p, c);
      if after.Affine? { AddReduced(after, negative, c); }
      after := Add(after, negative).value;
    }
  }

  /** The formulas produce reduced coordinates and no recorded order. */
  lemma DoubleReduced(P: Point, c: CurveFp)
    requires IsPrime(c.p) && IsPoint(P, c) && P.Affine? && Double(P).Ok?
    ensures Double(P).value.Affine? && Double(P).value == Canon(Double(P).value)
  {
    DoubleClosed(P, c);
    CanonOfReduced(Double(P).value);
  }

  lemma AddReduced(P: Point, Q: Point, c: CurveFp)
    requires IsPrime(c.p) && IsPoint(P, c) && IsPoint(Q, c) && P.Affine? && Q.Affine?
    ensures Add(P, Q).Ok? && Add(P, Q).value == Canon(Add(P, Q).value)
  {
    AddClosed(P, Q, c);
    CanonOfReduced(Add(P, Q).value);
  }

  lemma DoubleSafe(P: Point, c: CurveFp)
    requires IsPrime(c.p) && IsPoint(P, c) && Double(P).Ok?
    ensures IsPoint(Double(P).value, c) && Element(Canon(P), c)
    ensures Canon(Double(P).value) == Plus(Canon(P), Canon(P), c)
  {
    CanonIsElement(P, c);
    if P.Affine? {
      DoubleClosed(P, c);
      DoubleIsPlus(P, c);
    }
  }

  lemma NegativeCanon(P: Point, negative: Point, c: CurveFp)
    requires IsPoint(P, c) && P.Affine? && Element(Canon(P), c)
    requires negative == Affine(P.curve, P.x, -P.y, P.order)
    ensures Canon(negative) == Negate(Canon(P), c)
  {
    ModMod(P.y, c.p);
    CongAdd(0, 0, P.y, P.y % c.p, c.p);
  }

  // --- points that never get stuck ---

  /** If an odd multiple of P is infinity, no multiple of P has order two. */
  lemma OddOrderNeverStuck(e: nat, P: Point, n: nat, c: CurveFp)
    requires Group(c) && IsPoint(P, c) && Element(Canon(P), c)
    requires n % 2 == 1 && Times(n, Canon(P), c) == Infinity
    ensures !Stuck(e, P, c)
  {
    hide Plus, Add, Double, Canon, Associative;
    forall j: nat | j >= 1 ensures !StuckAt(e, j, P, c) {
      PowPositive(2, j);
      PrefixNonNegative(e, Pow(2, j));
      var m := Prefix(e, Pow(2, j));
      var T := Times(m, Canon(P), c);
      if TwoTorsion(T) {
        TwoTorsionMeaning(T, c);
        TimesTimes(n, m, Canon(P), c);
        TimesTimes(m, n, Canon(P), c);
        assert n * m == m * n;
        TimesInfinity(m, c);
        OddMultiple(n / 2, T, c);
      }
    }
  }

  lemma OddMultiple(h: nat, T: Point, c: CurveFp)
    requires Group(c) && Element(T, c) && Plus(T, T, c) == Infinity
    ensures Times(2 * h + 1, T, c) == T
  {
    TimesOne(T, c);
    TimesAdd(1, 1, T, c);
    TimesTimes(h, 2, T, c);
    TimesInfinity(h, c);
    TimesAdd(h * 2, 1, T, c);
    PlusInfinity(T, c);
  }

  lemma TimesOne(P: Point, c: CurveFp)
    requires IsPrime(c.p) && Element(P, c)
    ensures Times(1, P, c) == P
  {
    assert Times(1, P, c) == Plus(Times(0, P, c), P, c);
    PlusInfinity(P, c);
  }

  /** Factors below a prime order are always handled. */
  lemma PrimeOrderNeverStuck(e: nat, P: Point, n: nat, c: CurveFp)
    requires Group(c) && IsPoint(P, c) && Element(Canon(P), c)
    requires IsPrime(n) && e < n && Times(n, Canon(P), c) == Infinity
    ensures !Stuck(e, P, c)
  {
    if n == 2 {
      forall j: nat | j >= 1 ensures !StuckAt(e, j, P, c) {
        PowGrows(1, j);
        PrefixAbove(e, Pow(2, j));
      }
    } else {
      assert !Divides(2, n);
      OddOrderNeverStuck(e, P, n, c);
    }
  }

  // --- exactly where the loop stops ---

  /** The order of a point: the least positive number of copies that add up to infinity. */
  ghost predicate IsLeastOrder(n: nat, P: Point, c: CurveFp)
    requires IsPrime(c.p) && Element(Canon(P), c)
  {
    && n > 0 && Times(n, Canon(P), c) == Infinity
    && forall m :: 0 < m < n ==> Times(m, Canon(P), c) != Infinity
  }

  /** The multiple doubled at bit 2^j is half the order, modulo the order. */
  predicate MeetsHalf(e: nat, j: nat, n: nat)
    requires n > 0
  {
    PowPositive(2, j);
    Prefix(e, Pow(2, j)) % n == n / 2
  }

  lemma TimesVanishes(m: nat, n: nat, P: Point, c: CurveFp)
    requires Group(c) && Element(Canon(P), c) && IsLeastOrder(n, P, c)
    ensures Times(m, Canon(P), c) == Infinity <==> m % n == 0
  {
    hide Plus, Canon, Associative;
    TimesModulo(m, n, Canon(P), c);
    DivMod(m, n);
  }

  lemma HalfOfModulus(m: nat, n: nat)
    requires n > 0
    ensures m % n != 0 && (2 * m) % n == 0 <==> n % 2 == 0 && m % n == n / 2
  {
    var r := m % n;
    DivMod(m, n);
    ModMul(2, m, n);
    if 2 * r < n {
      ModSmall(2 * r, n);
    } else {
      ModUnique(2 * r, n, 1, 2 * r - n);
    }
  }

  lemma TorsionExactly(m: nat, n: nat, P: Point, c: CurveFp)
    requires Group(c) && Element(Canon(P), c) && IsLeastOrder(n, P, c)
    ensures TwoTorsion(Times(m, Canon(P), c)) <==> n % 2 == 0 && m % n == n / 2
  {
    assert n > 0;
    hide Plus, Element, Canon, Associative, Times, IsLeastOrder, TwoTorsion;
    TwoTorsionMeaning(Times(m, Canon(P), c), c);
    TimesAdd(m, m, Canon(P), c);
    TimesVanishes(m, n, P, c);
    TimesVanishes(m + m, n, P, c);
    HalfOfModulus(m, n);
  }

  lemma StuckAtExactly(e: nat, j: nat, P: Point, n: nat, c: CurveFp)
    requires Group(c) && IsPoint(P, c) && Element(Canon(P), c) && IsLeastOrder(n, P, c)
    ensures StuckAt(e, j, P, c) <==> n % 2 == 0 && MeetsHalf(e, j, n)
  {
    hide Plus, Element, Canon, Associative, Times, TwoTorsion, Prefix, Pow;
    PowPositive(2, j);
    PrefixNonNegative(e, Pow(2, j));
    TorsionExactly(Prefix(e, Pow(2, j)), n, P, c);
  }

  /** What a caller can check beforehand: the loop is stuck exactly when the order of the point is even
      and one of the prefixes of e that it doubles is half the order, modulo the order. */
  lemma StuckExactly(e: nat, P: Point, n: nat, c: CurveFp)
    requires Group(c) && IsPoint(P, c) && Element(Canon(P), c) && IsLeastOrder(n, P, c)
    ensures Stuck(e, P, c) <==> n % 2 == 0 && exists j: nat :: j >= 1 && MeetsHalf(e, j, n)
  {
    assert n > 0;
    hide StuckAt, MeetsHalf, IsLeastOrder, Associative, Element, Plus;
    forall j: nat ensures StuckAt(e, j, P, c) <==> n % 2 == 0 && MeetsHalf(e, j, n) {
      StuckAtExactly(e, j, P, n, c);
    }
  }
}
