/** Powers and the factors 2 and 3 of a tile value, as counted by `getPrimeFactors`. */
module Factors {

  function Pow(b: nat, e: nat): (p: nat)
    ensures b >= 1 ==> p >= 1
  {
    if e == 0 then 1 else b * Pow(b, e - 1)
  }

  /** Exact division: `d * n` divided by `d` leaves `n` and no remainder. */
  lemma MulDiv(d: int, n: int)
    requires d > 0
    ensures (d * n) / d == n && (d * n) % d == 0
  {
    var q, r := (d * n) / d, (d * n) % d;
    assert d * n == d * q + r && 0 <= r < d;
    assert d * (n - q) == r;
    MulBounds(d, n - q);
  }

  lemma MulBounds(d: int, k: int)
    requires d > 0
    ensures k >= 1 ==> d * k >= d
    ensures k <= -1 ==> d * k <= -d
  {
  }

  /** A multiple of `p` times a power of `p` is still a multiple of `p`. */
  lemma PowMultiple(p: nat, a: nat, x: int)
    requires p == 2 || p == 3
    requires a > 0
    ensures (Pow(p, a) * x) % p == 0 && (Pow(p, a) * x) / p == Pow(p, a - 1) * x
  {
    var k := Pow(p, a - 1) * x;
    assert Pow(p, a) * x == p * k;
    MulDiv(p, k);
  }

  /** Stripping the factors `p` of a number: the exponent and the cofactor are
      unique once the cofactor is not a multiple of `p`. */
  lemma {:induction false} PowerUnique(p: nat, a: nat, x: int, a2: nat, x2: int)
    requires p == 2 || p == 3
    requires x % p != 0 && x2 % p != 0
    requires Pow(p, a) * x == Pow(p, a2) * x2
    ensures a == a2 && x == x2
    decreases a + a2
  {
    if a > 0 && a2 > 0 {
      PowMultiple(p, a, x);
      PowMultiple(p, a2, x2);
      PowerUnique(p, a - 1, x, a2 - 1, x2);
    } else if a > 0 {
      PowMultiple(p, a, x);
      assert false;
    } else if a2 > 0 {
      PowMultiple(p, a2, x2);
      assert false;
    }
  }

  lemma {:induction false} PowThreeOdd(b: nat)
    ensures Pow(3, b) % 2 == 1
  {
    if b > 0 {
      PowThreeOdd(b - 1);
      var y := Pow(3, b - 1);
      assert Pow(3, b) == 3 * y;
    }
  }

  lemma OddTimesOdd(x: int, y: int)
    requires x % 2 != 0 && y % 2 != 0
    ensures (x * y) % 2 != 0
  {
    var i, j := x / 2, y / 2;
    assert x == 2 * i + 1 && y == 2 * j + 1;
    assert x * y == 2 * (2 * i * j + i + j) + 1;
  }

  lemma MulAssoc(x: int, y: int, z: int)
    ensures x * y * z == x * (y * z)
  {
  }

  /** The counts of 2s and 3s in `2^a * 3^b * r`, with `r` a multiple of neither, are
      `a` and `b`: the result of `getPrimeFactors` is the only one that fits. */
  lemma FactorsUnique(a: nat, b: nat, r: int, a2: nat, b2: nat, r2: int)
    requires r % 2 != 0 && r % 3 != 0 && r2 % 2 != 0 && r2 % 3 != 0
    requires Pow(2, a) * Pow(3, b) * r == Pow(2, a2) * Pow(3, b2) * r2
    ensures a == a2 && b == b2 && r == r2
  {
    PowThreeOdd(b);
    PowThreeOdd(b2);
    OddTimesOdd(Pow(3, b), r);
    OddTimesOdd(Pow(3, b2), r2);
    MulAssoc(Pow(2, a), Pow(3, b), r);
    MulAssoc(Pow(2, a2), Pow(3, b2), r2);
    PowerUnique(2, a, Pow(3, b) * r, a2, Pow(3, b2) * r2);
    PowerUnique(3, b, r, b2, r2);
  }
}
