/** The Miller-Rabin test and the search for the next prime (`numbertheory.py`). */
module MillerRabin {
  import opened Integers
  import opened Powers
  import opened Primes
  import G = Euclid

  /** What the list of small primes is: every prime up to its last entry, in increasing order. */
  ghost predicate PrimeTable(table: seq<int>) {
    && |table| >= 40
    && table[..5] == [2, 3, 5, 7, 11]
    && (forall i, j :: 0 <= i < j < |table| ==> table[i] < table[j])
    && (forall i :: 0 <= i < |table| ==> IsPrime(table[i]))
    && (forall q :: IsPrime(q) && q <= Last(table) ==> q in table)
  }

  function Last(table: seq<int>): int {
    if table == [] then 0 else table[|table| - 1]
  }

  /** How often 2 divides a number, and what is left. */
  ghost function TwoExponent(k: nat): nat {
    if k > 0 && k % 2 == 0 then 1 + TwoExponent(k / 2) else 0
  }

  ghost function OddPart(k: nat): nat {
    if k > 0 && k % 2 == 0 then OddPart(k / 2) else k
  }

  /** The residue of a^r after j squarings. */
  ghost function Squared(a: int, r: nat, j: nat, n: int): int
    requires n > 0
  {
    if j == 0 then PowMod(a, r, n) else PowMod(Squared(a, r, j - 1, n), 2, n)
  }

  /** One round: with n - 1 == 2^s * r and r odd, a^r is 1 or one of its first s squarings is -1. */
  ghost predicate PassesRound(n: int, a: int)
    requires n > 2
  {
    var s, r := TwoExponent(n - 1), OddPart(n - 1);
    Squared(a, r, 0, n) == 1 || exists j :: 0 <= j < s && Squared(a, r, j, n) == n - 1
  }

  /** What the whole test decides. */
  ghost predicate PassesTest(n: int, rounds: nat, table: seq<int>)
    requires PrimeTable(table) && rounds <= 40
  {
    if n <= Last(table) then
      n in table
    else
      TableStart(table);
      G.Coprime(n, 2 * 3 * 5 * 7 * 11) && forall i :: 0 <= i < rounds ==> PassesRound(n, table[i])
  }

  lemma TableStart(table: seq<int>)
    requires PrimeTable(table)
    ensures Last(table) > 11 && forall q :: q in table ==> 2 <= q <= Last(table)
  {
    assert table[4] == table[..5][4];
    assert table[4] < table[|table| - 1];
  }

  /** From so many bits on, so many rounds: table 4.4 of the Handbook of Applied Cryptography. */
  const ROUNDS: seq<(int, nat)> :=
    [(100, 27), (150, 18), (200, 15), (250, 12), (300, 9), (350, 8), (400, 7), (450, 6), (550, 5), (650, 4), (850, 3),
     (1300, 2)]

  /** The rounds for a number of so many bits: those of the last entry that is not above, or 40. */
  method ChooseRounds(bits: int) returns (t: nat)
    ensures 2 <= t <= 40
    ensures bits < ROUNDS[0].0 ==> t == 40
    ensures forall i :: 0 <= i < |ROUNDS| && ROUNDS[i].0 <= bits && (i + 1 == |ROUNDS| || bits < ROUNDS[i + 1].0) ==>
              t == ROUNDS[i].1
  {
    t := 40;
    for k := 0 to |ROUNDS|
      invariant t == if k == 0 then 40 else ROUNDS[k - 1].1
      invariant k > 0 ==> ROUNDS[k - 1].0 <= bits
    {
      if bits < ROUNDS[k].0 {
        break;
      }
      t := ROUNDS[k].1;
    }
  }

  /** `is_prime`, with any number of rounds that `ChooseRounds` may select for the size of `n`, or fewer. */
  method IsPrimeTest(n: int, rounds: nat, table: seq<int>) returns (answer: bool)
    requires PrimeTable(table) && rounds <= 40
    ensures answer == PassesTest(n, rounds, table)
  {
    TableStart(table);
    if n <= Last(table) {
      return n in table;
    }
    var g := G.Gcd2(n, 2 * 3 * 5 * 7 * 11);
    if g != 1 {
      return false;
    }
    OddByScreen(n);
    var s, r := 0, n - 1;
    while r % 2 == 0
      invariant r > 0
      invariant s + TwoExponent(r) == TwoExponent(n - 1) && OddPart(r) == OddPart(n - 1)
      decreases r
    {
      s, r := s + 1, r / 2;
    }
    for i := 0 to rounds
      invariant forall k :: 0 <= k < i ==> PassesRound(n, table[k])
    {
      var passed := Round(n, table[i], s, r);
      if !passed {
        return false;
      }
    }
    return true;
  }

  lemma OddByScreen(n: nat)
    requires G.Coprime(n, 2 * 3 * 5 * 7 * 11)
    ensures n % 2 == 1
  {
    if n % 2 == 0 {
      DividesIntro(2, 2 * 3 * 5 * 7 * 11, 3 * 5 * 7 * 11);
      G.CoprimeNoCommonDivisor(n, 2 * 3 * 5 * 7 * 11, 2);
    }
  }

  /** One round of the test: the body of the loop over the bases. */
  method Round(n: int, a: int, s: nat, r: nat) returns (passed: bool)
    requires n > 2 && s == TwoExponent(n - 1) && r == OddPart(n - 1)
    requires n % 2 == 1
    ensures passed == PassesRound(n, a)
  {
    assert s > 0;
    var y := PowMod(a, r, n);
    assert y == Squared(a, r, 0, n);
    hide PowMod, TwoExponent, OddPart;
    if y != 1 && y != n - 1 {
      var j := 1;
      while j <= s - 1 && y != n - 1
        invariant 1 <= j <= s
        invariant y == Squared(a, r, j - 1, n)
        invariant forall k :: 0 <= k < j - 1 ==> Squared(a, r, k, n) != n - 1
      {
        y := PowMod(y, 2, n);
        if y == 1 {
          OnesFollow(a, r, j, n);
          return false;
        }
        j := j + 1;
      }
      if y != n - 1 {
        return false;
      }
      assert Squared(a, r, j - 1, n) == n - 1;
    }
    return true;
  }

  lemma OnesFollow(a: int, r: nat, j: nat, n: int)
    requires n > 2 && Squared(a, r, j, n) == 1
    ensures forall k :: j <= k ==> Squared(a, r, k, n) == 1
  {
    forall k | j <= k ensures Squared(a, r, k, n) == 1 {
      SquaredStaysOne(a, r, j, k, n);
    }
  }

  lemma {:induction false} SquaredStaysOne(a: int, r: nat, j: nat, k: nat, n: int)
    requires n > 2 && j <= k && Squared(a, r, j, n) == 1
    ensures Squared(a, r, k, n) == 1
  {
    if j < k {
      SquaredStaysOne(a, r, j, k - 1, n);
      PowOne(2);
      ModSmall(1, n);
    }
  }

  // --- primes always pass ---

  lemma {:induction false} TwoPartOddPart(k: nat)
    requires k > 0
    ensures k == OddPart(k) * Pow(2, TwoExponent(k))
  {
    if k % 2 == 0 {
      TwoPartOddPart(k / 2);
      var r, t := OddPart(k), Pow(2, TwoExponent(k / 2));
      assert r * (2 * t) == 2 * (r * t);
    }
  }

  lemma {:induction false} SquaredIsPower(a: int, r: nat, j: nat, n: int)
    requires n > 0
    ensures Pow(2, j) >= 1 && r * Pow(2, j) >= 0 && Squared(a, r, j, n) == PowMod(a, r * Pow(2, j), n)
  {
    PowPositive(2, j);
    if j == 0 {
    } else {
      SquaredIsPower(a, r, j - 1, n);
      PowModPow(a, r * Pow(2, j - 1), 2, n);
      MulAssoc(r, Pow(2, j - 1), 2);
    }
  }

  /** Going back from a square that is 1, the chain meets -1 or starts at 1. */
  lemma {:induction false} ChainMeetsMinusOne(a: int, r: nat, j: nat, p: int)
    requires IsPrime(p) && Squared(a, r, j, p) == 1
    ensures Squared(a, r, 0, p) == 1 || exists i :: 0 <= i < j && Squared(a, r, i, p) == p - 1
  {
    if j > 0 {
      var y := Squared(a, r, j - 1, p);
      PowSquare(y, 1);
      RootsOfOne(p, y);
      SquaredRange(a, r, j - 1, p);
      ModSmall(y, p);
      if y == 1 {
        ChainMeetsMinusOne(a, r, j - 1, p);
      }
    }
  }

  lemma SquaredRange(a: int, r: nat, j: nat, n: int)
    requires n > 0
    ensures 0 <= Squared(a, r, j, n) < n
  {
    if j == 0 {
      DivMod(Pow(a, r), n);
    } else {
      DivMod(Pow(Squared(a, r, j - 1, n), 2), n);
    }
  }

  lemma PrimePassesRound(p: int, a: int)
    requires IsPrime(p) && p > 2 && !Divides(p, a)
    ensures PassesRound(p, a)
  {
    var s, r := TwoExponent(p - 1), OddPart(p - 1);
    FermatLittle(a, p);
    TwoPartOddPart(p - 1);
    SquaredIsPower(a, r, s, p);
    ChainMeetsMinusOne(a, r, s, p);
  }

  /** No prime is ever rejected, whatever the number of rounds. */
  lemma PrimePassesTest(p: int, rounds: nat, table: seq<int>)
    requires PrimeTable(table) && rounds <= 40 && IsPrime(p)
    ensures PassesTest(p, rounds, table)
  {
    TableStart(table);
    if p > Last(table) {
      PrimeCoprimeToScreen(p);
      forall i | 0 <= i < rounds ensures PassesRound(p, table[i]) {
        assert table[i] in table;
        NotDividesSmall(p, table[i]);
        PrimePassesRound(p, table[i]);
      }
    }
  }

  lemma PrimeCoprimeToScreen(p: int)
    requires IsPrime(p) && p > 11
    ensures G.Coprime(p, 2 * 3 * 5 * 7 * 11)
  {
    if Divides(p, 2 * 3 * 5 * 7 * 11) {
      EuclidsLemma(p, 2 * 3 * 5 * 7, 11);
      NotDividesSmall(p, 11);
      EuclidsLemma(p, 2 * 3 * 5, 7);
      NotDividesSmall(p, 7);
      EuclidsLemma(p, 2 * 3, 5);
      NotDividesSmall(p, 5);
      NotDividesSmall(p, 6);
    }
    PrimeCoprime(p, 2 * 3 * 5 * 7 * 11);
    G.GcdSymmetric(p, 2 * 3 * 5 * 7 * 11);
  }

  /** Up to the end of the table the test is exact. */
  lemma TestExactInTable(n: int, rounds: nat, table: seq<int>)
    requires PrimeTable(table) && rounds <= 40 && n <= Last(table)
    ensures PassesTest(n, rounds, table) <==> IsPrime(n)
  {}

  // --- what a round decides, said of the powers of the base alone ---

  /** n - 1 halved j times. */
  ghost predicate Halving(n: int, j: nat, e: nat) {
    n - 1 == e * Pow(2, j)
  }

  /** The powers of the base do what they do modulo a prime: a^(n-1) is 1, and wherever halving n - 1
      gives an e with a^(2*e) = 1, this square root a^e of 1 is 1 or -1. */
  ghost predicate Conforms(n: int, a: int)
    requires n > 2
  {
    && PowMod(a, n - 1, n) == 1
    && forall j: nat, e: nat :: j >= 1 && Halving(n, j, e) && PowMod(a, 2 * e, n) == 1 ==>
         PowMod(a, e, n) == 1 || PowMod(a, e, n) == n - 1
  }

  lemma {:induction false} HalvingsOf(k: nat, j: nat, e: nat)
    requires k > 0
    ensures k == e * Pow(2, j) <==>
            j <= TwoExponent(k) && e == OddPart(k) * Pow(2, TwoExponent(k) - j)
    decreases j
  {
    TwoPartOddPart(k);
    if j > 0 {
      TwiceHalf(e, Pow(2, j - 1));
      if k % 2 == 0 {
        HalvingsOf(k / 2, j - 1, e);
      }
    }
  }

  lemma TwiceHalf(e: nat, w: int)
    ensures e * (2 * w) == 2 * (e * w)
  {}

  ghost predicate ConformsAt(n: int, a: int, r: nat, t: nat)
    requires n > 2
  {
    Squared(a, r, t + 1, n) == 1 ==> Squared(a, r, t, n) == 1 || Squared(a, r, t, n) == n - 1
  }

  /** The same said of the squarings of a^r. */
  ghost predicate ChainConforms(n: int, a: int, r: nat, s: nat)
    requires n > 2
  {
    && Squared(a, r, s, n) == 1
    && forall t :: 0 <= t < s ==> ConformsAt(n, a, r, t)
  }

  /** The exponent of a halving, as a place in the chain of squarings. */
  lemma PlaceInChain(n: int, a: int, t: nat, e: nat)
    requires n > 2 && t <= TwoExponent(n - 1) && e == OddPart(n - 1) * Pow(2, t)
    ensures Halving(n, TwoExponent(n - 1) - t, e) && PowMod(a, e, n) == Squared(a, OddPart(n - 1), t, n)
    ensures PowMod(a, 2 * e, n) == Squared(a, OddPart(n - 1), t + 1, n)
  {
    var s, r := TwoExponent(n - 1), OddPart(n - 1);
    HalvingsOf(n - 1, s - t, e);
    SquaredIsPower(a, r, t, n);
    SquaredIsPower(a, r, t + 1, n);
    TwiceHalf(r, Pow(2, t));
  }

  lemma ConformsOnChain(n: int, a: int)
    requires n > 2
    ensures Conforms(n, a) <==> ChainConforms(n, a, OddPart(n - 1), TwoExponent(n - 1))
  {
    hide PowMod, Squared, TwoExponent, OddPart;
    var s, r := TwoExponent(n - 1), OddPart(n - 1);
    TwoPartOddPart(n - 1);
    PlaceInChain(n, a, s, n - 1);
    if Conforms(n, a) {
      forall t | 0 <= t < s ensures ConformsAt(n, a, r, t) {
        SquaredIsPower(a, r, t, n);
        PlaceInChain(n, a, t, r * Pow(2, t));
      }
    }
    if ChainConforms(n, a, r, s) {
      forall j: nat, e: nat | j >= 1 && Halving(n, j, e) && PowMod(a, 2 * e, n) == 1
        ensures PowMod(a, e, n) == 1 || PowMod(a, e, n) == n - 1
      {
        HalvingsOf(n - 1, j, e);
        PlaceInChain(n, a, s - j, e);
        assert ConformsAt(n, a, r, s - j);
      }
    }
  }

  lemma MinusOneSquared(n: int)
    requires n > 2
    ensures PowMod(n - 1, 2, n) == 1
  {
    PowSquare(n - 1, 1);
    assert (n - 1) * (n - 1) == (n - 2) * n + 1;
    ModUnique((n - 1) * (n - 1), n, n - 2, 1);
  }

  ghost predicate MeetsMinusOne(n: int, a: int, r: nat, s: nat)
    requires n > 2
  {
    exists j :: 0 <= j < s && Squared(a, r, j, n) == n - 1
  }

  lemma {:induction false} ChainStarts(n: int, a: int, r: nat, s: nat)
    requires n > 2 && ChainConforms(n, a, r, s)
    ensures Squared(a, r, 0, n) == 1 || MeetsMinusOne(n, a, r, s)
  {
    hide Squared;
    if s > 0 {
      assert ConformsAt(n, a, r, s - 1);
      if Squared(a, r, s - 1, n) == 1 {
        ChainStarts(n, a, r, s - 1);
      } else {
        assert Squared(a, r, s - 1, n) == n - 1;
      }
    }
  }

  lemma ChainAfterMinusOne(n: int, a: int, r: nat, s: nat, i: nat)
    requires n > 2 && i < s && Squared(a, r, i, n) == n - 1
    ensures ChainConforms(n, a, r, s)
  {
    MinusOneSquared(n);
    assert Squared(a, r, i + 1, n) == 1;
    hide Squared, PowMod;
    OnesFollow(a, r, i + 1, n);
    forall t | 0 <= t < s ensures ConformsAt(n, a, r, t) {
      if t < i && Squared(a, r, t + 1, n) == 1 { OnesFollow(a, r, t + 1, n); }
    }
  }

  /** A round passes exactly the bases whose powers conform. */
  lemma RoundMeaning(n: int, a: int)
    requires n > 2
    ensures PassesRound(n, a) <==> Conforms(n, a)
  {
    hide Conforms, Squared, PowMod, TwoExponent, OddPart;
    var s, r := TwoExponent(n - 1), OddPart(n - 1);
    ConformsOnChain(n, a);
    if PassesRound(n, a) {
      if Squared(a, r, 0, n) == 1 {
        OnesFollow(a, r, 0, n);
      } else {
        var i :| 0 <= i < s && Squared(a, r, i, n) == n - 1;
        ChainAfterMinusOne(n, a, r, s, i);
      }
    }
    if ChainConforms(n, a, r, s) {
      ChainStarts(n, a, r, s);
    }
  }

  /** Above the table the test accepts exactly the numbers without a prime factor up to 11 for which the
      powers of every tested base conform. */
  lemma TestMeaning(n: int, rounds: nat, table: seq<int>)
    requires PrimeTable(table) && rounds <= 40 && n > Last(table)
    ensures n > 11
    ensures PassesTest(n, rounds, table) <==>
            G.Coprime(n, 2310) && forall i :: 0 <= i < rounds ==> Conforms(n, table[i])
  {
    TableStart(table);
    hide Conforms, PassesRound, PrimeTable;
    forall i | 0 <= i < rounds ensures PassesRound(n, table[i]) <==> Conforms(n, table[i]) {
      RoundMeaning(n, table[i]);
    }
  }

  /** So one tested base is enough to reject a number: by a power n - 1 that is not 1, or by a square
      root of 1 that is neither 1 nor -1. Either shows that the number is composite. */
  lemma WitnessRejects(n: int, rounds: nat, table: seq<int>, i: nat, j: nat, e: nat)
    requires PrimeTable(table) && i < rounds <= 40 && n > Last(table) && n > 2
    requires
      var a := table[i];
      || PowMod(a, n - 1, n) != 1
      || (j >= 1 && Halving(n, j, e) && PowMod(a, 2 * e, n) == 1 && PowMod(a, e, n) !in {1, n - 1})
    ensures !PassesTest(n, rounds, table) && !IsPrime(n)
  {
    assert !Conforms(n, table[i]);
    TestMeaning(n, rounds, table);
    hide PrimeTable, PassesTest, Conforms;
    if IsPrime(n) { PrimePassesTest(n, rounds, table); }
  }

  /** `next_prime`: terminates, skips no prime, and ends at a number that passes the test. */
  method NextPrime(start: int, rounds: int -> nat, table: seq<int>) returns (result: int)
    requires PrimeTable(table) && forall n :: rounds(n) <= 40
    ensures start < 2 ==> result == 2
    ensures start < result && PassesTest(result, rounds(result), table)
    ensures NoPrimeBetween(start, result)
    ensures start >= 2 ==> forall q :: start < q < result && q % 2 == 1 ==> !PassesTest(q, rounds(q), table)
  {
    hide PassesTest, IsPrime, PrimeTable, NoPrimeBetween;
    if start < 2 {
      TwoIsFirst(start, rounds(2), table);
      return 2;
    }
    result := if (start + 1) % 2 == 0 then start + 2 else start + 1;  // (start + 1) | 1
    ghost var p := PrimeAbove(start, result);
    var found := IsPrimeTest(result, rounds(result), table);
    while !found
      invariant result % 2 == 1 && start < result <= p
      invariant found == PassesTest(result, rounds(result), table)
      invariant NoPrimeBetween(start, result)
      invariant forall q :: start < q < result && q % 2 == 1 ==> !PassesTest(q, rounds(q), table)
      decreases p - result
    {
      SkipRejected(start, result, p, rounds(result), table);
      result := result + 2;
      found := IsPrimeTest(result, rounds(result), table);
    }
  }

  lemma TwoIsFirst(start: int, rounds: nat, table: seq<int>)
    requires PrimeTable(table) && rounds <= 40 && start < 2
    ensures PassesTest(2, rounds, table) && NoPrimeBetween(start, 2)
  {
    TableStart(table);
    assert table[0] == table[..5][0] == 2;
  }

  lemma PrimeAbove(start: int, first: int) returns (p: int)
    requires start >= 2 && first == if (start + 1) % 2 == 0 then start + 2 else start + 1
    ensures IsPrime(p) && p % 2 == 1 && p >= first && first % 2 == 1 && NoPrimeBetween(start, first)
  {
    p := InfinitelyManyPrimes(start);
    OddPrime(p);
    EvenNotPrime(start + 1);
  }

  ghost predicate NoPrimeBetween(low: int, high: int) {
    forall q :: low < q < high ==> !IsPrime(q)
  }

  lemma SkipRejected(start: int, n: int, p: int, rounds: nat, table: seq<int>)
    requires PrimeTable(table) && rounds <= 40 && !PassesTest(n, rounds, table)
    requires n > 2 && n % 2 == 1 && NoPrimeBetween(start, n) && n <= p && IsPrime(p) && p % 2 == 1
    ensures NoPrimeBetween(start, n + 2) && n + 2 <= p
  {
    if IsPrime(n) { PrimePassesTest(n, rounds, table); }
    EvenNotPrime(n + 1);
    assert n != p;
    NoPrimeStep(start, n);
    NoPrimeStep(start, n + 1);
  }

  lemma NoPrimeStep(low: int, high: int)
    requires NoPrimeBetween(low, high) && !IsPrime(high)
    ensures NoPrimeBetween(low, high + 1)
  {}

  lemma OddPrime(p: int)
    requires IsPrime(p) && p > 2
    ensures p % 2 == 1
  {
    assert !Divides(2, p);
  }

  lemma EvenNotPrime(q: int)
    requires q > 2
    ensures q % 2 == 0 ==> !IsPrime(q)
  {
    if q % 2 == 0 { assert Divides(2, q); }
  }
}
