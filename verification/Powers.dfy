/** Integer powers and modular exponentiation (`modular_exp`, that is, Python's three-argument `pow`). */
module Powers {
  import opened Integers

  function Pow(b: int, e: nat): int {
    if e == 0 then 1 else b * Pow(b, e - 1)
  }

  /** The residue of a power; `modular_exp` raises for a negative exponent, which no caller here passes. */
  function PowMod(b: int, e: nat, m: int): int
    requires m > 0
  {
    Pow(b, e) % m
  }

  lemma {:induction false} PowAdd(b: int, e: nat, f: nat)
    ensures Pow(b, e + f) == Pow(b, e) * Pow(b, f)
  {
    if e > 0 {
      PowAdd(b, e - 1, f);
      MulAssoc(b, Pow(b, e - 1), Pow(b, f));
    }
  }

  lemma MulAssoc(a: int, b: int, c: int)
    ensures a * (b * c) == (a * b) * c
  {}

  lemma {:induction false} PowMul(b: int, e: nat, f: nat)
    ensures e * f >= 0 && Pow(b, e * f) == Pow(Pow(b, e), f)
  {
    if f == 0 {
    } else {
      PowMul(b, e, f - 1);
      assert e * f == e + e * (f - 1);
      PowAdd(b, e, e * (f - 1));
    }
  }

  lemma PowSquare(b: int, e: nat)
    ensures Pow(b, 2 * e) == Pow(b, e) * Pow(b, e)
    ensures Pow(b, 2) == b * b
  {
    PowAdd(b, e, e);
    PowAdd(b, 1, 1);
    assert Pow(b, 1) == b;
  }

  lemma {:induction false} PowProduct(a: int, b: int, e: nat)
    ensures Pow(a * b, e) == Pow(a, e) * Pow(b, e)
  {
    if e > 0 {
      PowProduct(a, b, e - 1);
      Interleave(a, b, Pow(a, e - 1), Pow(b, e - 1));
    }
  }

  lemma Interleave(a: int, b: int, x: int, y: int)
    ensures (a * b) * (x * y) == (a * x) * (b * y)
  {
    calc {
      (a * b) * (x * y);
      a * (b * (x * y));
      a * (x * (b * y));
      (a * x) * (b * y);
    }
  }

  lemma {:induction false} PowCong(a: int, b: int, e: nat, m: int)
    requires m > 0 && a % m == b % m
    ensures Pow(a, e) % m == Pow(b, e) % m
  {
    if e > 0 {
      PowCong(a, b, e - 1, m);
      CongMul(a, b, Pow(a, e - 1), Pow(b, e - 1), m);
    }
  }

  lemma {:induction false} PowOne(e: nat)
    ensures Pow(1, e) == 1
  {
    if e > 0 { PowOne(e - 1); }
  }

  lemma {:induction false} PowPositive(b: int, e: nat)
    requires b >= 1
    ensures Pow(b, e) >= 1
  {
    if e > 0 {
      PowPositive(b, e - 1);
      MulMono(1, b, Pow(b, e - 1));
    }
  }

  /** Raising a residue is raising what it stands for. */
  lemma PowModPow(b: int, e: nat, f: nat, m: int)
    requires m > 0
    ensures e * f >= 0 && PowMod(PowMod(b, e, m), f, m) == PowMod(b, e * f, m)
  {
    PowMul(b, e, f);
    ModMod(Pow(b, e), m);
    PowCong(PowMod(b, e, m), Pow(b, e), f, m);
  }
}
