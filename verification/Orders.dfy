/** Multiplicative order and the largest coprime factor (`numbertheory.py`). */
module Orders {
  import opened Wrappers
  import opened Integers
  import opened Powers
  import opened Permutations
  import opened Euclid

  /** The order of x modulo m: the least positive exponent that gives 1. */
  ghost predicate IsOrder(k: nat, x: int, m: int)
    requires m > 0
  {
    k >= 1 && PowMod(x, k, m) == 1 && forall j :: 1 <= j < k ==> PowMod(x, j, m) != 1
  }

  lemma OrderUnique(j: nat, k: nat, x: int, m: int)
    requires m > 0 && IsOrder(j, x, m) && IsOrder(k, x, m)
    ensures j == k
  {}

  /** A power that a coprime base brings back to 1 exists, by the pigeonhole principle. */
  lemma SomePowerIsOne(x: nat, m: nat) returns (k: nat)
    requires m >= 2 && Coprime(x, m)
    ensures k >= 1 && PowMod(x, k, m) == 1
  {
    var s := seq(m + 1, i requires 0 <= i => Pow(x, i) % m + 1);
    forall i | 0 <= i < |s| ensures 1 <= s[i] <= m {
      DivMod(Pow(x, i), m);
    }
    if Distinct(s) { Pigeonhole(s, m); }
    var i, j :| 0 <= i < j < |s| && s[i] == s[j];
    CancelPowers(x, m, i, j);
    k := j - i;
  }

  lemma {:induction false} CancelPowers(x: nat, m: nat, i: nat, j: nat)
    requires m >= 2 && Coprime(x, m) && i < j && PowMod(x, i, m) == PowMod(x, j, m)
    ensures PowMod(x, j - i, m) == 1
  {
    if i == 0 {
      ModSmall(1, m);
    } else {
      var a, b := Pow(x, i - 1), Pow(x, j - 1);
      CongDiff(x * a, x * b, m);
      assert x * a - x * b == x * (a - b);
      GaussLemma(m, x, a - b);
      CongDiff(a, b, m);
      CancelPowers(x, m, i - 1, j - 1);
    }
  }

  /** `order_mod`. The loop starts from x itself, not from its residue, so it finds the order exactly
      when that start is a residue or the order is not 1. A negative x fails the check of the common
      divisor, which takes its sign. */
  method OrderMod(x: int, m: int) returns (r: Result<nat>)
    ensures m <= 1 ==> r == Ok(0)
    ensures m >= 2 && (x < 0 || !Coprime(x, m)) ==> r == Err(AssertionError)
    ensures m >= 2 && x >= 0 && Coprime(x, m) ==> r.Ok?
    ensures m >= 2 && x >= 0 && Coprime(x, m) ==> (IsOrder(r.value, x, m) <==> x == 1 || x % m != 1)
    ensures m >= 2 && x >= 0 && Coprime(x, m) && (x == 1 || x % m != 1) ==>
      forall k: nat :: IsOrder(k, x, m) ==> r == Ok(k)
    ensures m >= 2 && x >= 0 && Coprime(x, m) && x != 1 && x % m == 1 ==> r == Ok(2)
  {
    if m <= 1 {
      return Ok(0);
    }
    var g := Gcd2(x, m);
    if g != 1 {
      return Err(AssertionError);
    }
    ghost var bound := EvenPowerIsOne(x, m);
    var z, result := x, 1;
    while z != 1
      invariant 1 <= result <= bound
      invariant if result == 1 then z == x else z == PowMod(x, result, m)
      invariant result > 1 ==> x != 1
      invariant forall j :: 2 <= j < result ==> PowMod(x, j, m) != 1
      decreases bound - result
    {
      NextPower(x, z, result, m);
      z := (z * x) % m;
      result := result + 1;
    }
    Verdict(x, m, result);
    forall k: nat | IsOrder(k, x, m) && (x == 1 || x % m != 1) ensures k == result {
      OrderUnique(k, result, x, m);
    }
    return Ok(result);
  }

  lemma EvenPowerIsOne(x: nat, m: nat) returns (bound: nat)
    requires m >= 2 && Coprime(x, m)
    ensures bound >= 2 && PowMod(x, bound, m) == 1
  {
    var k := SomePowerIsOne(x, m);
    PowModPow(x, k, 2, m);
    PowOne(2);
    ModSmall(1, m);
    bound := k * 2;
  }

  lemma Verdict(x: nat, m: nat, k: nat)
    requires m >= 2 && k >= 1 && (if k == 1 then x == 1 else x != 1 && PowMod(x, k, m) == 1)
    requires forall j :: 2 <= j < k ==> PowMod(x, j, m) != 1
    ensures IsOrder(k, x, m) <==> x == 1 || x % m != 1
    ensures x != 1 && x % m == 1 ==> k == 2
  {
    assert Pow(x, 1) == x;
    assert PowMod(x, 1, m) == x % m;
    ModSmall(1, m);
    if x != 1 && x % m == 1 {
      PowCong(x, 1, 2, m);
      PowOne(2);
      assert PowMod(x, 2, m) == 1;
    }
  }

  lemma NextPower(x: int, z: int, e: nat, m: int)
    requires m > 0 && ((z == x && e == 1) || z == PowMod(x, e, m))
    ensures (z * x) % m == PowMod(x, e + 1, m)
  {
    ModMod(Pow(x, e), m);
    assert Pow(x, 1) == x;
    CongMul(z, Pow(x, e), x, x, m);
  }

  /** Concretely: the order of 4 modulo 3 is 1, but the answer is 2. */
  lemma OrderModUnreduced()
    ensures Coprime(4, 3) && 4 != 1 && 4 % 3 == 1 && IsOrder(1, 4, 3) && !IsOrder(2, 4, 3)
  {
    assert Pow(4, 1) == 4;
  }

  /** `largest_factor_relatively_prime`, for all arguments for which it ends: with a = 0 and b > 1 the
      inner loop would go on for ever. */
  method LargestFactorRelativelyPrime(a: int, b: int) returns (r: int)
    requires a != 0 || b <= 1
    ensures a <= 0 ==> r == a
    ensures a >= 1 ==> r >= 1 && Divides(r, a) && Coprime(r, Abs(b))
    ensures a >= 1 ==> forall k :: k > 0 && Divides(k, a) && Coprime(k, Abs(b)) ==> Divides(k, r)
  {
    var y := b;
    r := a;
    if a >= 1 { DividesSelf(a); }
    var d := Gcd2(r, y);
    while d > 1
      invariant a <= 0 ==> r == a && d <= 1
      invariant a >= 1 ==> r >= 1 && Divides(r, a) && d == Gcd(r, Abs(y))
      invariant if y == 0 then b == 0 else Divides(Abs(y), Abs(b))
      invariant a >= 1 ==> CommonDivisorsKept(r, Abs(b), Abs(y)) && KeepsCoprimeDivisors(a, Abs(b), r)
      decreases r
    {
      GcdMeaning(r, Abs(y));
      if y != 0 { DividesTrans(d, Abs(y), Abs(b)); }
      ghost var before := r;
      r := DivideOutAll(r, d);
      DivisionKeeps(a, Abs(b), before, r, d, Abs(y));
      y := d;
      d := Gcd2(r, y);
    }
    if a >= 1 {
      NothingInCommon(r, Abs(b), Abs(y));
    }
  }

  lemma NothingInCommon(r: nat, b: nat, y: nat)
    requires r >= 1 && Gcd(r, y) <= 1 && CommonDivisorsKept(r, b, y)
    ensures Coprime(r, b)
  {
    GcdMeaning(r, y);
    forall t | t > 0 && Divides(t, r) && Divides(t, b) ensures t == 1 {
      GcdGreatest(t, r, y);
      DividesBound(t, 1);
    }
    CoprimeIntro(r, b);
  }

  ghost predicate KeepsCoprimeDivisors(a: nat, b: nat, r: nat) {
    forall k :: k > 0 && Divides(k, a) && Coprime(k, b) ==> Divides(k, r)
  }

  ghost predicate CommonDivisorsKept(r: nat, b: nat, y: nat) {
    forall t :: t > 0 && Divides(t, r) && Divides(t, b) ==> Divides(t, y)
  }

  /** The inner loop: divides by d as often as possible. */
  method DivideOutAll(a: nat, d: nat) returns (r: nat)
    requires a >= 1 && d >= 2 && Divides(d, a)
    ensures 1 <= r < a && Divides(r, a)
    ensures forall k :: k > 0 && Divides(k, a) && Coprime(k, d) ==> Divides(k, r)
  {
    r := a;
    DividesSelf(a);
    while true
      invariant r >= 1 && Divides(r, a) && (r < a || Divides(d, r))
      invariant forall k :: k > 0 && Divides(k, a) && Coprime(k, d) ==> Divides(k, r)
      decreases r
    {
      var q, rem := r / d, r % d;
      if rem > 0 {
        break;
      }
      QuotientStep(a, r, d, q);
      r := q;
    }
  }

  lemma QuotientStep(a: nat, r: nat, d: nat, q: nat)
    requires r >= 1 && d >= 2 && Divides(d, r) && q == r / d && Divides(r, a)
    requires forall k :: k > 0 && Divides(k, a) && Coprime(k, d) ==> Divides(k, r)
    ensures 1 <= q < r && Divides(q, a)
    ensures forall k :: k > 0 && Divides(k, a) && Coprime(k, d) ==> Divides(k, q)
  {
    DivMod(r, d);
    if q <= 0 { MulMono(q, 0, d); }
    MulMono(2, d, q);
    DividesIntro(q, r, d);
    DividesTrans(q, r, a);
    forall k | k > 0 && Divides(k, a) && Coprime(k, d) ensures Divides(k, q) {
      GcdSymmetric(k, d);
      assert d * q == r;
      GaussLemma(k, d, q);
    }
  }

  lemma DivisionKeeps(a: nat, b: nat, before: nat, r: nat, d: nat, y: nat)
    requires before >= 1 && r >= 1 && d >= 2 && d == Gcd(before, y) && Divides(d, b)
    requires Divides(before, a) && Divides(r, before)
    requires forall k :: k > 0 && Divides(k, before) && Coprime(k, d) ==> Divides(k, r)
    requires CommonDivisorsKept(before, b, y) && KeepsCoprimeDivisors(a, b, before)
    ensures Divides(r, a) && CommonDivisorsKept(r, b, d) && KeepsCoprimeDivisors(a, b, r)
  {
    DividesTrans(r, before, a);
    forall t | t > 0 && Divides(t, r) && Divides(t, b) ensures Divides(t, d) {
      DividesTrans(t, r, before);
      GcdGreatest(t, before, y);
    }
    forall k | k > 0 && Divides(k, a) && Coprime(k, b) ensures Divides(k, r) {
      CoprimeToDivisor(k, b, d);
    }
  }
}
