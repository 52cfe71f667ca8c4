/** Sums and products over finite sequences, and their invariance under rearrangement. */
module Permutations {

  function Sum(s: seq<int>): int {
    if s == [] then 0 else Sum(s[..|s| - 1]) + s[|s| - 1]
  }

  function Product(s: seq<int>): int {
    if s == [] then 1 else Product(s[..|s| - 1]) * s[|s| - 1]
  }

  /** The sequence 1, 2, ..., n. */
  function Iota(n: nat): (s: seq<int>)
    ensures |s| == n
    ensures forall i :: 0 <= i < n ==> s[i] == i + 1
  {
    seq(n, i => i + 1)
  }

  predicate Distinct(s: seq<int>) {
    forall i, j :: 0 <= i < j < |s| ==> s[i] != s[j]
  }

  predicate InRange(s: seq<int>, n: int) {
    forall i :: 0 <= i < |s| ==> 1 <= s[i] <= n
  }

  function Remove(s: seq<int>, k: nat): (r: seq<int>)
    requires k < |s|
    ensures |r| == |s| - 1
  {
    s[..k] + s[k + 1..]
  }

  lemma RemoveMultiset(s: seq<int>, k: nat)
    requires k < |s|
    ensures multiset(s) == multiset(Remove(s, k)) + multiset{s[k]}
    ensures multiset(Remove(s, k)) == multiset(s) - multiset{s[k]}
  {
    assert s == s[..k] + [s[k]] + s[k + 1..];
  }

  lemma {:induction false} SumRemove(s: seq<int>, k: nat)
    requires k < |s|
    ensures Sum(s) == Sum(Remove(s, k)) + s[k]
  {
    var n := |s| - 1;
    if k == n {
      assert Remove(s, k) == s[..n];
    } else {
      SumRemove(s[..n], k);
      assert Remove(s, k)[..n - 1] == Remove(s[..n], k);
    }
  }

  lemma {:induction false} ProductRemove(s: seq<int>, k: nat)
    requires k < |s|
    ensures Product(s) == Product(Remove(s, k)) * s[k]
  {
    var n := |s| - 1;
    if k == n {
      assert Remove(s, k) == s[..n];
    } else {
      ProductRemove(s[..n], k);
      assert Remove(s, k)[..n - 1] == Remove(s[..n], k);
      assert Remove(s, k)[n - 1] == s[n];
      SwapFactors(Product(Remove(s[..n], k)), s[k], s[n]);
    }
  }

  lemma SwapFactors(x: int, y: int, z: int)
    ensures (x * y) * z == (x * z) * y
  {}

  lemma {:induction false} SameElements(a: seq<int>, b: seq<int>)
    requires multiset(a) == multiset(b)
    ensures Sum(a) == Sum(b) && Product(a) == Product(b)
    decreases |a|
  {
    if a == [] {
      assert |multiset(b)| == 0;
    } else {
      var n := |a| - 1;
      var k := MatchLast(a, b);
      SumRemove(b, k);
      ProductRemove(b, k);
      SameElements(a[..n], Remove(b, k));
    }
  }

  /** Without its greatest possible value, a sequence of distinct numbers fits a smaller range. */
  lemma RemoveLargest(s: seq<int>, n: nat, k: nat)
    requires Distinct(s) && InRange(s, n) && k < |s| && s[k] == n
    ensures Distinct(Remove(s, k)) && InRange(Remove(s, k), n - 1)
  {}

  lemma {:induction false} Pigeonhole(s: seq<int>, n: nat)
    requires Distinct(s) && InRange(s, n)
    ensures |s| <= n
  {
    if s == [] {
    } else if k :| 0 <= k < |s| && s[k] == n {
      RemoveLargest(s, n, k);
      Pigeonhole(Remove(s, k), n - 1);
    } else {
      assert 1 <= s[0] <= n;
      Pigeonhole(s, n - 1);
    }
  }

  lemma LargestOccurs(s: seq<int>, n: nat) returns (k: nat)
    requires Distinct(s) && InRange(s, n) && |s| == n && n > 0
    ensures k < n && s[k] == n
  {
    if forall i :: 0 <= i < n ==> s[i] != n {
      Pigeonhole(s, n - 1);
    }
    k :| 0 <= k < n && s[k] == n;
  }

  /** n distinct numbers between 1 and n are 1, ..., n in some order. */
  lemma {:induction false} PermutationOfIota(s: seq<int>, n: nat)
    requires Distinct(s) && InRange(s, n) && |s| == n
    ensures multiset(s) == multiset(Iota(n))
  {
    if n == 0 {
      assert s == [] == Iota(0);
    } else {
      hide Distinct, InRange, Iota, Remove;
      var k := LargestOccurs(s, n);
      RemoveLargest(s, n, k);
      PermutationOfIota(Remove(s, k), n - 1);
      PutBack(s, n, k);
    }
  }

  lemma PutBack(s: seq<int>, n: nat, k: nat)
    requires n > 0 && k < |s| && s[k] == n && multiset(Remove(s, k)) == multiset(Iota(n - 1))
    ensures multiset(s) == multiset(Iota(n))
  {
    hide Iota, Remove;
    RemoveMultiset(s, k);
    IotaMultiset(n);
  }

  lemma IotaMultiset(n: nat)
    requires n > 0
    ensures multiset(Iota(n)) == multiset(Iota(n - 1)) + multiset{n}
  {
    assert Iota(n) == Iota(n - 1) + [n];
  }

  /** Equal multisets stay equal without an element. */
  lemma MatchLast(a: seq<int>, b: seq<int>) returns (k: nat)
    requires a != [] && multiset(a) == multiset(b)
    ensures k < |b| && b[k] == a[|a| - 1] && multiset(a[..|a| - 1]) == multiset(Remove(b, k))
  {
    var n := |a| - 1;
    assert a == a[..n] + [a[n]];
    assert a[n] in multiset(b);
    k :| 0 <= k < |b| && b[k] == a[n];
    RemoveMultiset(a, n);
    assert Remove(a, n) == a[..n];
    RemoveMultiset(b, k);
  }

  /** The values of a function along a sequence. */
  function Map(f: int -> int, s: seq<int>): (r: seq<int>)
    ensures |r| == |s| && forall i :: 0 <= i < |s| ==> r[i] == f(s[i])
  {
    seq(|s|, i requires 0 <= i < |s| => f(s[i]))
  }

  lemma {:induction false} MapSameElements(f: int -> int, a: seq<int>, b: seq<int>)
    requires multiset(a) == multiset(b)
    ensures Sum(Map(f, a)) == Sum(Map(f, b))
    decreases |a|
  {
    if a == [] {
      assert |multiset(b)| == 0;
    } else {
      var n := |a| - 1;
      var k := MatchLast(a, b);
      SumRemove(Map(f, b), k);
      assert Remove(Map(f, b), k) == Map(f, Remove(b, k));
      assert Map(f, a)[..n] == Map(f, a[..n]);
      MapSameElements(f, a[..n], Remove(b, k));
    }
  }
}
