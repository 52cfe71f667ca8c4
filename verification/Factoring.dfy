/** Factorization by trial division (`numbertheory.py`). */
module Factoring {
  import opened Integers
  import opened Powers
  import opened Primes
  import opened MillerRabin

  type Factor = (nat, nat)  // base and exponent

  function Value(fs: seq<Factor>): int {
    if fs == [] then 1 else Value(fs[..|fs| - 1]) * Pow(fs[|fs| - 1].0, fs[|fs| - 1].1)
  }

  /** Exponents are positive, bases are at least 2, increase strictly and stay at or below `bound`. */
  ghost predicate Ordered(fs: seq<Factor>, bound: int) {
    && (forall i :: 0 <= i < |fs| ==> fs[i].1 >= 1 && 2 <= fs[i].0 <= bound)
    && (forall i, j :: 0 <= i < j < |fs| ==> fs[i].0 < fs[j].0)
  }

  ghost predicate AllPrime(fs: seq<Factor>) {
    forall i :: 0 <= i < |fs| ==> IsPrime(fs[i].0)
  }

  ghost predicate NoDivisorUpTo(n: int, d: int) {
    forall k :: 2 <= k <= d ==> !Divides(k, n)
  }

  /** `n == rest * d^count`, and `d` does not divide the rest. */
  ghost predicate Stripped(n: nat, d: nat, rest: nat, count: nat) {
    d >= 2 && rest >= 1 && n == rest * Pow(d, count) && !Divides(d, rest)
  }

  /** The inner loop of the search through the small primes. */
  method StripSmall(n: nat, d: nat) returns (rest: nat, count: nat)
    requires d >= 2 && n >= 1 && Divides(d, n)
    ensures Stripped(n, d, rest, count) && count >= 1
  {
    rest, count := n, 1;
    var q, r := n / d, n % d;
    StripStart(n, d, q);
    while d <= rest
      invariant d <= rest && q >= 1 && rest == q * d
      invariant n == q * Pow(d, count) && count >= 1
      decreases rest
    {
      SmallerQuotient(rest, d, q);
      rest := q;
      q, r := rest / d, rest % d;
      if r != 0 {
        break;
      }
      StripStep(n, rest, d, q, count);
      count := count + 1;
    }
  }

  lemma StripStart(n: nat, d: nat, q: nat)
    requires d >= 2 && n >= 1 && Divides(d, n) && q == n / d
    ensures q >= 1 && n == q * d && d <= n && n == q * Pow(d, 1)
  {
    assert Pow(d, 1) == d;
    DivMod(n, d);
    PositiveQuotient(n, d, q);
    DividesBound(d, n);
  }

  lemma StripStep(n: nat, rest: nat, d: nat, q: nat, count: nat)
    requires d >= 2 && rest >= 1 && Divides(d, rest) && q == rest / d
    requires n == rest * Pow(d, count)
    ensures q >= 1 && rest == q * d && d <= rest && n == q * Pow(d, count + 1)
  {
    StripStart(rest, d, q);
    MulAssoc(q, d, Pow(d, count));
  }

  /** The inner loop of the search through the odd numbers. */
  method StripLarge(n: nat, d: nat) returns (rest: nat, count: nat)
    requires d >= 2 && n >= 1 && Divides(d, n)
    ensures Stripped(n, d, rest, count) && count >= 1
  {
    count := 1;
    rest := n / d;
    StripStart(n, d, rest);
    while d <= rest
      invariant rest >= 1 && n == rest * Pow(d, count) && count >= 1
      decreases rest
    {
      var q, r := rest / d, rest % d;
      if r != 0 {
        break;
      }
      StripStep(n, rest, d, q, count);
      SmallerQuotient(rest, d, q);
      rest, count := q, count + 1;
    }
    if Divides(d, rest) { DividesBound(d, rest); }
  }

  lemma PositiveQuotient(n: int, d: int, q: int)
    requires n >= 1 && d >= 2 && n == q * d
    ensures q >= 1
  {
    if q <= 0 { MulMono(q, 0, d); }
  }

  lemma SmallerQuotient(n: int, d: int, q: int)
    requires d >= 2 && q >= 1 && n == q * d
    ensures q < n
  {
    MulMono(2, d, q);
  }

  /** `factorization`; `rounds` gives the number of Miller-Rabin rounds for a cofactor. */
  method Factorization(n: int, rounds: int -> nat, table: seq<int>) returns (result: seq<Factor>)
    requires PrimeTable(table) && forall k :: rounds(k) <= 40
    ensures n < 2 ==> result == []
    ensures n >= 1 ==> Value(result) == n && Ordered(result, n)
    ensures |result| > 0 ==> AllPrime(result[..|result| - 1])
    ensures |result| > 0 ==> var b := result[|result| - 1].0;
      IsPrime(b) || (result[|result| - 1].1 == 1 && b > Last(table) && PassesTest(b, rounds(b), table))
  {
    if n < 2 {
      return [];
    }
    var m: nat;
    TableStart(table);
    result, m := DivideBySmallPrimes(n, table);
    if m > Last(table) {
      var prime := IsPrimeTest(m, rounds(m), table);
      if prime {
        result := AppendPrime(result, m, n, Last(table));
      } else {
        assert Last(table) in table;
        OddPrime(Last(table));
        result := DivideByOddNumbers(m, result, n, Last(table));
      }
    } else {
      if m > 1 { DividesSelf(m); }
      OrderedBound(result, Last(table));
    }
  }

  lemma AtLeastBase(b: int, e: nat)
    requires b > 0 && e > 0
    ensures Pow(b, e) >= b
  {
    PowPositive(b, e - 1);
    MulMono(1, Pow(b, e - 1), b);
  }

  /** A base is a divisor of the value, hence at most the value. */
  lemma {:induction false} OrderedBound(fs: seq<Factor>, bound: int)
    requires Ordered(fs, bound)
    ensures Value(fs) >= 1 && Ordered(fs, Value(fs))
  {
    if fs != [] {
      var k := |fs| - 1;
      OrderedBound(fs[..k], bound);
      var v, p := Value(fs[..k]), Pow(fs[k].0, fs[k].1);
      AtLeastBase(fs[k].0, fs[k].1);
      MulMono(1, v, p);
      MulMono(1, p, v);
      hide Pow;
      forall i | 0 <= i < |fs| ensures fs[i].0 <= Value(fs) {
        if i < k { assert fs[i] == fs[..k][i]; }
      }
    }
  }

  /** A factorization under way: `done` times the cofactor is the whole. */
  ghost predicate Partial(fs: seq<Factor>, m: int, n: int, d: int) {
    && m >= 1 && n == Value(fs) * m
    && AllPrime(fs) && Ordered(fs, d) && NoDivisorUpTo(m, d)
  }

  /** Recording a prime and its full exponent keeps the factorization under way. */
  lemma AppendKeepsPartial(fs: seq<Factor>, m: nat, n: int, d: int, p: nat, rest: nat, count: nat)
    requires Partial(fs, m, n, d) && d < p && IsPrime(p) && count >= 1 && Stripped(m, p, rest, count)
    requires NoDivisorUpTo(m, p - 1)
    ensures Partial(fs + [(p, count)], rest, n, p)
  {
    AppendValue(fs, p, count);
    AppendOrdered(fs, d, p, count);
    ProductOfThree(Value(fs), Pow(p, count), rest);
    forall k | 2 <= k <= p ensures !Divides(k, rest) {
      if Divides(k, rest) { DividesProduct(k, rest, Pow(p, count)); }
    }
  }

  lemma ProductOfThree(v: int, p: int, r: int)
    ensures v * (r * p) == (v * p) * r
  {}

  /** The last prime tried before entry `i` of the table. */
  function Before(i: nat, table: seq<int>): int
    requires i <= |table|
  {
    if i == 0 then 1 else table[i - 1]
  }

  method DivideBySmallPrimes(n: nat, table: seq<int>) returns (result: seq<Factor>, m: nat)
    requires PrimeTable(table) && n >= 2
    ensures Partial(result, m, n, Last(table))
  {
    result, m := [], n;
    var i := 0;
    while i < |table|
      invariant 0 <= i <= |table|
      invariant Partial(result, m, n, Before(i, table))
      decreases |table| - i
    {
      var d := table[i];
      NoDivisorBeforeNextPrime(m, i, table);
      if d > m {
        StopEarly(result, m, n, i, table);
        return;
      }
      result, m := TrySmallPrime(result, m, n, Before(i, table), d);
      i := i + 1;
    }
  }

  /** The body of the loop over the small primes. */
  method TrySmallPrime(fs: seq<Factor>, m: nat, ghost n: nat, ghost before: int, d: nat)
    returns (result: seq<Factor>, rest: nat)
    requires Partial(fs, m, n, before) && before < d && IsPrime(d) && NoDivisorUpTo(m, d - 1)
    ensures Partial(result, rest, n, d)
  {
    if m % d == 0 {
      var r, count := StripSmall(m, d);
      AppendKeepsPartial(fs, m, n, before, d, r, count);
      return fs + [(d, count)], r;
    } else {
      SkipKeepsPartial(fs, m, n, before, d);
      return fs, m;
    }
  }

  lemma SkipKeepsPartial(fs: seq<Factor>, m: nat, n: int, d: int, p: nat)
    requires Partial(fs, m, n, d) && d < p && NoDivisorUpTo(m, p - 1) && !Divides(p, m)
    ensures Partial(fs, m, n, p)
  {}

  lemma NoDivisorBeforeNextPrime(m: int, i: nat, table: seq<int>)
    requires PrimeTable(table) && i < |table| && m >= 1
    requires NoDivisorUpTo(m, Before(i, table))
    ensures NoDivisorUpTo(m, table[i] - 1)
    ensures Before(i, table) < table[i] && IsPrime(table[i])
  {
    assert table[0] == table[..5][0] == 2;
    assert i > 0 ==> table[i - 1] < table[i];
    forall k | 2 <= k < table[i] ensures !Divides(k, m) {
      if Divides(k, m) {
        var q := PrimeDivisor(k);
        DividesTrans(q, k, m);
        TableEntryBelow(q, i, table);
      }
    }
  }

  lemma TableEntryBelow(q: int, i: nat, table: seq<int>)
    requires PrimeTable(table) && i < |table| && IsPrime(q) && q < table[i]
    ensures i > 0 && q <= table[i - 1]
  {
    assert table[i] <= Last(table);
    var j :| 0 <= j < |table| && table[j] == q;
  }

  /** Leaving the loop because the next prime is too large loses nothing: the cofactor is 1. */
  lemma StopEarly(fs: seq<Factor>, m: nat, n: nat, i: nat, table: seq<int>)
    requires PrimeTable(table) && i < |table| && table[i] > m && Before(i, table) < table[i]
    requires Partial(fs, m, n, Before(i, table)) && NoDivisorUpTo(m, table[i] - 1)
    ensures Partial(fs, m, n, Last(table)) && m == 1
  {
    if m > 1 { DividesSelf(m); }
    NoDivisorOfOne(Last(table));
    assert table[i] <= Last(table);
    assert Before(i, table) < table[i];
  }

  lemma NoDivisorOfOne(d: int)
    ensures NoDivisorUpTo(1, d)
  {
    forall k | 2 <= k <= d ensures !Divides(k, 1) {
      ModSmall(1, k);
    }
  }

  method AppendPrime(fs: seq<Factor>, m: nat, ghost n: nat, ghost d: nat) returns (result: seq<Factor>)
    requires Partial(fs, m, n, d) && m > d && m >= 2
    ensures result == fs + [(m, 1)] && Value(result) == n && Ordered(result, m) && Ordered(result, n)
  {
    result := fs + [(m, 1)];
    AppendValue(fs, m, 1);
    assert Pow(m, 1) == m;
    AppendOrdered(fs, d, m, 1);
    OrderedBound(result, m);
  }

  lemma AppendValue(fs: seq<Factor>, p: nat, count: nat)
    ensures Value(fs + [(p, count)]) == Value(fs) * Pow(p, count)
  {
    var gs := fs + [(p, count)];
    assert gs[..|gs| - 1] == fs;
  }

  lemma AppendOrdered(fs: seq<Factor>, d: int, p: nat, count: nat)
    requires Ordered(fs, d) && d < p && p >= 2 && count >= 1
    ensures Ordered(fs + [(p, count)], p)
  {}

  /** The search through the odd numbers that follow the table. */
  method DivideByOddNumbers(n: nat, fs: seq<Factor>, ghost whole: nat, last: nat) returns (result: seq<Factor>)
    requires Partial(fs, n, whole, last) && n > last && last >= 11 && last % 2 == 1
    ensures Value(result) == whole && AllPrime(result) && Ordered(result, whole)
  {
    result := fs;
    var d, m := last, n;
    while true
      invariant Partial(result, m, whole, d) && m <= n && d >= 11 && d % 2 == 1
      decreases n - d
    {
      NoEvenDivisor(m, d);
      ghost var before := d;
      d := d + 2;
      var q, r := m / d, m % d;
      if q < d {
        if m > 1 {
          CofactorIsPrime(m, d);
          result := AppendPrime(result, m, whole, before);
        } else {
          assert Value(result) * 1 == Value(result);
        }
        OrderedBound(result, if m > 1 then m else before);
        return;
      }
      DivMod(m, d);
      MulMono(1, d, q);
      if r == 0 {
        var rest, count := StripLarge(m, d);
        LeastDivisorIsPrime(m, d);
        AppendKeepsPartial(result, m, whole, before, d, rest, count);
        PowPositive(d, count);
        MulMono(1, Pow(d, count), rest);
        result, m := result + [(d, count)], rest;
      }
    }
  }

  lemma NoEvenDivisor(m: int, d: int)
    requires m >= 1 && d >= 11 && d % 2 == 1 && NoDivisorUpTo(m, d)
    ensures NoDivisorUpTo(m, d + 1) && d < (if m > 1 then m else d + 1)
  {
    if Divides(d + 1, m) {
      DividesIntro(2, d + 1, (d + 1) / 2);
      DividesTrans(2, d + 1, m);
    }
    if m > 1 { DividesSelf(m); }
  }

  lemma LeastDivisorIsPrime(m: int, d: int)
    requires d >= 2 && Divides(d, m) && NoDivisorUpTo(m, d - 1)
    ensures IsPrime(d)
  {
    forall k | 2 <= k < d ensures !Divides(k, d) {
      if Divides(k, d) { DividesTrans(k, d, m); }
    }
  }

  /** A cofactor below d^2 without divisors below d is prime. */
  lemma CofactorIsPrime(m: int, d: int)
    requires m > 1 && d >= 2 && NoDivisorUpTo(m, d - 1) && m / d < d
    ensures IsPrime(m)
  {
    var p := PrimeDivisor(m);
    var k := DividesWitness(p, m);
    if k >= 2 {
      DividesIntro(k, m, p);
      DivMod(m, d);
      SquareAbove(m, d, m / d, m % d, k, p);
    } else {
      PositiveFactor(k, p, m);
    }
  }

  lemma SquareAbove(m: int, d: int, q: int, r: int, k: int, p: int)
    requires m == q * d + r && r < d && q < d && m == k * p && d >= 2 && p >= 2
    ensures k < d || p < d
  {
    if k >= d && p >= d {
      MulMono(d, k, p);
      MulMono(d, p, d);
      MulMono(q, d - 1, d);
      Distribute(d, 1, d);
    }
  }

  lemma PositiveFactor(k: int, p: int, m: int)
    requires m == k * p && m > 1 && p >= 2 && k < 2
    ensures m == p
  {
    if k <= 0 { MulMono(k, 0, p); }
  }

  /** With a test that is right about the cofactor, every base is prime. */
  lemma ReliableTestGivesPrimes(fs: seq<Factor>, rounds: int -> nat, table: seq<int>)
    requires PrimeTable(table) && (forall k :: rounds(k) <= 40) && |fs| > 0
    requires AllPrime(fs[..|fs| - 1])
    requires var b := fs[|fs| - 1].0; IsPrime(b) || PassesTest(b, rounds(b), table)
    requires forall k :: PassesTest(k, rounds(k), table) ==> IsPrime(k)
    ensures AllPrime(fs)
  {
    forall i | 0 <= i < |fs| ensures IsPrime(fs[i].0) {
      if i < |fs| - 1 { assert fs[i] == fs[..|fs| - 1][i]; }
    }
  }
}
