/** Elementary facts about products, remainders and divisibility, one step at a time,
    so that no later proof needs non-linear reasoning about `%`. */
module Integers {

  function Abs(x: int): nat {
    if x < 0 then -x else x
  }

  lemma MulMono(x: int, y: int, z: int)
    requires x <= y && z >= 0
    ensures x * z <= y * z
  {}

  lemma DivMod(x: int, m: int)
    requires m > 0
    ensures x == (x / m) * m + x % m && 0 <= x % m < m
  {}

  lemma MulGap(d: int, m: int)
    requires m > 0 && -m < d * m < m
    ensures d == 0
  {
    if d >= 1 { MulMono(1, d, m); }
    if d <= -1 { MulMono(d, -1, m); }
  }

  /** Quotient and remainder are unique. */
  lemma ModUnique(x: int, m: int, q: int, r: int)
    requires m > 0 && 0 <= r < m && x == q * m + r
    ensures x / m == q && x % m == r
  {
    DivMod(x, m);
    var q', r' := x / m, x % m;
    assert (q' - q) * m == r - r' by { assert (q' - q) * m == q' * m - q * m; }
    MulGap(q' - q, m);
  }

  lemma QuotientNonNegative(x: int, d: int)
    requires x >= 0 && d > 0
    ensures x / d >= 0
  {
    DivMod(x, d);
    if x / d <= -1 { MulMono(x / d, -1, d); }
  }

  lemma ModItself(n: int)
    requires n > 0
    ensures n % n == 0
  {
    ModUnique(n, n, 1, 0);
  }

  lemma ModAddMultiple(a: int, k: int, m: int)
    requires m > 0
    ensures (a + k * m) % m == a % m
  {
    DivMod(a, m);
    assert a + k * m == (a / m + k) * m + a % m;
    ModUnique(a + k * m, m, a / m + k, a % m);
  }

  lemma ModSmall(a: int, m: int)
    requires 0 <= a < m
    ensures a % m == a
  {
    ModUnique(a, m, 0, a);
  }

  lemma ModMod(a: int, m: int)
    requires m > 0
    ensures (a % m) % m == a % m
  {
    ModSmall(a % m, m);
  }

  /** The multiple of m by which two congruent integers differ. */
  lemma CongWitness(a: int, b: int, m: int) returns (k: int)
    requires m > 0 && a % m == b % m
    ensures a == b + k * m
  {
    DivMod(a, m);
    DivMod(b, m);
    k := a / m - b / m;
    assert k * m == (a / m) * m - (b / m) * m;
  }

  lemma Distribute(j: int, k: int, m: int)
    ensures (j + k) * m == j * m + k * m
    ensures (j - k) * m == j * m - k * m
  {}

  lemma DistributeLeft(a: int, x: int, y: int)
    ensures a * (x + y) == a * x + a * y
  {}

  lemma CongFromWitness(a: int, b: int, k: int, m: int)
    requires m > 0 && a == b + k * m
    ensures a % m == b % m
  {
    ModAddMultiple(b, k, m);
  }

  lemma CongAdd(a: int, b: int, c: int, d: int, m: int)
    requires m > 0 && a % m == b % m && c % m == d % m
    ensures (a + c) % m == (b + d) % m
    ensures (a - c) % m == (b - d) % m
  {
    var j := CongWitness(a, b, m);
    var k := CongWitness(c, d, m);
    Distribute(j, k, m);
    CongFromWitness(a + c, b + d, j + k, m);
    CongFromWitness(a - c, b - d, j - k, m);
  }

  lemma CongMul(a: int, b: int, c: int, d: int, m: int)
    requires m > 0 && a % m == b % m && c % m == d % m
    ensures (a * c) % m == (b * d) % m
  {
    var j := CongWitness(a, b, m);
    var k := CongWitness(c, d, m);
    var e := ProductWitness(a, b, c, d, j, k, m);
    CongFromWitness(a * c, b * d, e, m);
  }

  lemma ProductWitness(a: int, b: int, c: int, d: int, j: int, k: int, m: int) returns (e: int)
    requires a == b + j * m && c == d + k * m
    ensures a * c == b * d + e * m
  {
    e := b * k + j * c;
    calc {
      a * c;
      b * c + (j * m) * c;
      b * d + b * (k * m) + (j * m) * c;
      b * d + e * m;
    }
  }

  /** Multiplying by a residue is the same as multiplying by what it stands for. */
  lemma ModMul(a: int, b: int, m: int)
    requires m > 0
    ensures ((a % m) * b) % m == (a * b) % m
    ensures (a * (b % m)) % m == (a * b) % m
    ensures ((a % m) * (b % m)) % m == (a * b) % m
  {
    ModMod(a, m);
    ModMod(b, m);
    CongMul(a % m, a, b, b, m);
    CongMul(a, a, b % m, b, m);
    CongMul(a % m, a, b % m, b, m);
  }

  lemma ModAdd(a: int, b: int, m: int)
    requires m > 0
    ensures ((a % m) + b) % m == (a + b) % m
    ensures (a + (b % m)) % m == (a + b) % m
    ensures ((a % m) - b) % m == (a - b) % m
    ensures (a - (b % m)) % m == (a - b) % m
  {
    ModMod(a, m);
    ModMod(b, m);
    CongAdd(a % m, a, b, b, m);
    CongAdd(a, a, b % m, b, m);
  }

  lemma CongDiff(a: int, b: int, m: int)
    requires m > 0
    ensures a % m == b % m <==> (a - b) % m == 0
  {
    ModSmall(0, m);
    if a % m == b % m {
      CongAdd(a, b, b, b, m);
    }
    if (a - b) % m == 0 {
      CongAdd(a - b, 0, b, b, m);
    }
  }

  // --- divisibility ---

  predicate Divides(d: int, n: int) {
    d != 0 && n % d == 0
  }

  lemma DividesWitness(d: int, n: int) returns (k: int)
    requires d > 0 && Divides(d, n)
    ensures n == k * d
  {
    DivMod(n, d);
    k := n / d;
  }

  lemma DividesIntro(d: int, n: int, k: int)
    requires d > 0 && n == k * d
    ensures Divides(d, n)
  {
    ModUnique(n, d, k, 0);
  }

  lemma DividesSum(d: int, a: int, b: int)
    requires d > 0 && Divides(d, a) && Divides(d, b)
    ensures Divides(d, a + b) && Divides(d, a - b)
  {
    ModSmall(0, d);
    CongAdd(a, 0, b, 0, d);
  }

  lemma DividesProduct(d: int, a: int, b: int)
    requires d > 0 && Divides(d, a)
    ensures Divides(d, a * b) && Divides(d, b * a)
  {
    var k := DividesWitness(d, a);
    assert a * b == (k * b) * d;
    DividesIntro(d, a * b, k * b);
  }

  lemma DividesTrans(d: int, e: int, n: int)
    requires d > 0 && e > 0 && Divides(d, e) && Divides(e, n)
    ensures Divides(d, n)
  {
    var k := DividesWitness(e, n);
    DividesProduct(d, e, k);
  }

  lemma DividesBound(d: int, n: int)
    requires d > 0 && n > 0 && Divides(d, n)
    ensures d <= n
  {
    if d > n { ModSmall(n, d); }
  }

  lemma DividesSelf(d: int)
    requires d > 0
    ensures Divides(d, d) && Divides(1, d) && Divides(d, 0)
  {
    DividesIntro(d, d, 1);
    DividesIntro(1, d, d);
    DividesIntro(d, 0, 0);
  }

  lemma DividesAntisymmetric(a: int, b: int)
    requires a > 0 && b > 0 && Divides(a, b) && Divides(b, a)
    ensures a == b
  {
    DividesBound(a, b);
    DividesBound(b, a);
  }
}
