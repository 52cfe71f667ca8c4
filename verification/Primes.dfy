/** Prime numbers: Euclid's lemma, Euclid's theorem and Fermat's little theorem. */
module Primes {
  import opened Integers
  import opened Powers
  import opened Permutations
  import G = Euclid

  ghost predicate IsPrime(n: int) {
    n >= 2 && forall d :: 2 <= d < n ==> !Divides(d, n)
  }

  lemma PrimeCoprime(p: int, a: nat)
    requires IsPrime(p) && !Divides(p, a)
    ensures G.Coprime(a, p)
  {
    forall d | d > 0 && Divides(d, a) && Divides(d, p) ensures d == 1 {
      DividesBound(d, p);
    }
    G.CoprimeIntro(a, p);
  }

  lemma EuclidsLemma(p: int, a: int, b: int)
    requires IsPrime(p) && Divides(p, a * b)
    ensures Divides(p, a) || Divides(p, b)
  {
    if !Divides(p, a) {
      ModMod(a, p);
      ModMul(a, b, p);
      PrimeCoprime(p, a % p);
      G.GaussLemma(p, a % p, b);
    }
  }

  lemma NotDividesSmall(p: int, a: int)
    requires 0 < a < p
    ensures !Divides(p, a)
  {
    ModSmall(a, p);
  }

  /** A common factor that the prime does not divide can be cancelled. */
  lemma Cancel(p: int, f: int, a: int, b: int)
    requires IsPrime(p) && !Divides(p, f) && (f * a) % p == (f * b) % p
    ensures a % p == b % p
  {
    CongDiff(f * a, f * b, p);
    assert f * a - f * b == f * (a - b);
    EuclidsLemma(p, f, a - b);
    CongDiff(a, b, p);
  }

  /** The only square roots of 1 modulo a prime are 1 and -1. */
  lemma RootsOfOne(p: int, y: int)
    requires IsPrime(p) && (y * y) % p == 1
    ensures y % p == 1 || y % p == p - 1
  {
    ModSmall(1, p);
    ModSmall(p - 1, p);
    CongDiff(y * y, 1, p);
    assert y * y - 1 == (y - 1) * (y + 1);
    EuclidsLemma(p, y - 1, y + 1);
    if Divides(p, y - 1) {
      CongDiff(y, 1, p);
    } else {
      CongDiff(y, -1, p);
      ModAddMultiple(-1, 1, p);
    }
  }

  // --- Fermat's little theorem ---

  lemma {:induction false} FactorialNotDivisible(p: int, n: nat)
    requires IsPrime(p) && n < p
    ensures !Divides(p, Product(Iota(n)))
  {
    if n == 0 {
      NotDividesSmall(p, 1);
    } else {
      FactorialNotDivisible(p, n - 1);
      assert Iota(n)[..n - 1] == Iota(n - 1);
      NotDividesSmall(p, n);
      if Divides(p, Product(Iota(n))) {
        EuclidsLemma(p, Product(Iota(n - 1)), n);
      }
    }
  }

  /** The residues a, 2a, ..., na modulo p. */
  function Multiples(a: int, n: nat, p: int): (s: seq<int>)
    requires p > 0
    ensures |s| == n
    ensures forall i :: 0 <= i < n ==> s[i] == (a * (i + 1)) % p
  {
    seq(n, i => (a * (i + 1)) % p)
  }

  lemma UnfoldMultiples(a: int, n: nat, p: int)
    requires p > 0 && n > 0
    ensures Product(Multiples(a, n, p)) == Product(Multiples(a, n - 1, p)) * ((a * n) % p)
    ensures Product(Iota(n)) == Product(Iota(n - 1)) * n && Pow(a, n) == a * Pow(a, n - 1)
  {
    assert Multiples(a, n, p)[..n - 1] == Multiples(a, n - 1, p);
    assert Iota(n)[..n - 1] == Iota(n - 1);
  }

  lemma MultiplesStep(m: int, w: int, f: int, a: int, n: int, m': int, w': int, f': int, p: int)
    requires p > 0 && m % p == (w * f) % p && m' == m * ((a * n) % p) && w' == a * w && f' == f * n
    ensures m' % p == (w' * f') % p
  {
    ModMod(a * n, p);
    CongMul(m, w * f, (a * n) % p, a * n, p);
    Interleave(w, f, a, n);
    assert w * a == a * w;
  }

  lemma {:induction false} ProductOfMultiples(a: int, n: nat, p: int)
    requires p > 0
    ensures Product(Multiples(a, n, p)) % p == (Pow(a, n) * Product(Iota(n))) % p
  {
    if n > 0 {
      hide Product, Multiples, Iota, Pow;
      UnfoldMultiples(a, n, p);
      ProductOfMultiples(a, n - 1, p);
      MultiplesStep(Product(Multiples(a, n - 1, p)), Pow(a, n - 1), Product(Iota(n - 1)), a, n,
                    Product(Multiples(a, n, p)), Pow(a, n), Product(Iota(n)), p);
    }
  }

  lemma MultiplesDistinct(a: int, p: int)
    requires IsPrime(p) && !Divides(p, a)
    ensures Distinct(Multiples(a, p - 1, p)) && InRange(Multiples(a, p - 1, p), p - 1)
  {
    var s := Multiples(a, p - 1, p);
    forall i, j | 0 <= i < j < |s| ensures s[i] != s[j] {
      if s[i] == s[j] {
        Cancel(p, a, i + 1, j + 1);
        ModSmall(i + 1, p);
        ModSmall(j + 1, p);
      }
    }
    forall i | 0 <= i < |s| ensures 1 <= s[i] <= p - 1 {
      NotDividesSmall(p, i + 1);
      if s[i] == 0 { EuclidsLemma(p, a, i + 1); }
    }
  }

  lemma FermatLittle(a: int, p: int)
    requires IsPrime(p) && !Divides(p, a)
    ensures Pow(a, p - 1) % p == 1
  {
    MultiplesDistinct(a, p);
    PermutationOfIota(Multiples(a, p - 1, p), p - 1);
    SameElements(Multiples(a, p - 1, p), Iota(p - 1));
    ProductOfMultiples(a, p - 1, p);
    FactorialNotDivisible(p, p - 1);
    var f := Product(Iota(p - 1));
    assert f * Pow(a, p - 1) == Pow(a, p - 1) * f;
    Cancel(p, f, Pow(a, p - 1), 1);
    ModSmall(1, p);
  }

  // --- Euclid's theorem ---

  /** Every number above 1 has a prime divisor: its least divisor above 1. */
  lemma {:induction false} PrimeDivisorFrom(n: int, d: int) returns (p: int)
    requires 2 <= d <= n && forall k :: 2 <= k < d ==> !Divides(k, n)
    ensures IsPrime(p) && Divides(p, n) && d <= p <= n
    decreases n - d
  {
    if Divides(d, n) {
      forall k | 2 <= k < d ensures !Divides(k, d) {
        if Divides(k, d) { DividesTrans(k, d, n); }
      }
      p := d;
    } else {
      if d == n { DividesSelf(n); }
      p := PrimeDivisorFrom(n, d + 1);
    }
  }

  lemma PrimeDivisor(n: int) returns (p: int)
    requires n >= 2
    ensures IsPrime(p) && Divides(p, n) && p <= n
  {
    p := PrimeDivisorFrom(n, 2);
  }

  lemma {:induction false} FactorialDivisible(n: nat, d: int)
    requires 1 <= d <= n
    ensures Divides(d, Product(Iota(n))) && Product(Iota(n)) >= 1
  {
    assert Iota(n)[..n - 1] == Iota(n - 1);
    var f := Product(Iota(n - 1));
    if n == 1 {
      assert f == 1;
      DividesSelf(1);
    } else {
      FactorialDivisible(n - 1, if d < n then d else 1);
      MulMono(1, n, f);
      if d < n {
        DividesProduct(d, f, n);
      } else {
        DividesIntro(n, Product(Iota(n)), f);
      }
    }
  }

  lemma InfinitelyManyPrimes(n: nat) returns (p: int)
    ensures IsPrime(p) && p > n
  {
    if n == 0 {
      p := PrimeDivisor(2);
    } else {
      FactorialDivisible(n, 1);
      var f := Product(Iota(n));
      p := PrimeDivisor(f + 1);
      if p <= n {
        FactorialDivisible(n, p);
        DividesSum(p, f + 1, f);
        DividesBound(p, 1);
      }
    }
  }
}
