/** Bitwise AND on unbounded non-negative integers, and what masking with a power of two computes. */
module Bits {

  function And(a: nat, b: nat): (r: nat)
    ensures r <= a && r <= b
  {
    if a == 0 || b == 0 then 0
    else (if a % 2 == 1 && b % 2 == 1 then 1 else 0) + 2 * And(a / 2, b / 2)
  }

  function Pow2(k: nat): (r: nat)
    ensures r >= 1
  {
    if k == 0 then 1 else 2 * Pow2(k - 1)
  }

  lemma {:induction false} AndSelf(a: nat)
    ensures And(a, a) == a
  {
    if a > 0 {
      AndSelf(a / 2);
    }
  }

  /** A remainder is determined by any quotient that leaves it in range. */
  lemma RemainderIsUnique(x: nat, m: nat, q: nat, r: nat)
    requires m > 0 && x == q * m + r && r < m
    ensures x % m == r && x / m == q
  {
    var d := q - x / m;
    assert d * m == q * m - (x / m) * m;
    OnlyZeroIsSmall(d, m);
  }

  lemma OnlyZeroIsSmall(d: int, m: int)
    requires m >= 0
    ensures d != 0 ==> d * m >= m || d * m <= -m
  {
    if d >= 1 {
      assert d * m == (d - 1) * m + m && (d - 1) * m >= 0;
    } else if d <= -1 {
      assert d * m == (d + 1) * m - m && (d + 1) * m <= 0;
    }
  }

  lemma RemainderNextLap(x: nat, m: nat)
    requires m > 0
    ensures (x + m) % m == x % m
  {
    var q := x / m;
    assert (q + 1) * m == q * m + m;
    RemainderIsUnique(x + m, m, q + 1, x % m);
  }

  /** Distinct numbers with one remainder are at least the modulus apart. */
  lemma SameRemainder(x: nat, y: nat, m: nat)
    requires m > 0 && x % m == y % m && x < y
    ensures x + m <= y
  {
    var d := y / m - x / m;
    assert d * m == (y / m) * m - (x / m) * m == y - x;
    OnlyZeroIsSmall(d, m);
    assert d == 0 ==> d * m == 0;
  }

  /** Halving strips the last bit from the number and from the remainder. */
  lemma RemainderByHalves(x: nat, p: nat)
    requires p > 0
    ensures x % (2 * p) == 2 * (x / 2 % p) + x % 2
  {
    var q, r := x / 2 / p, x / 2 % p;
    assert x / 2 == q * p + r;
    assert q * (2 * p) == 2 * (q * p);
    RemainderIsUnique(x, 2 * p, q, 2 * r + x % 2);
  }

  lemma AndOddMask(x: nat, half: nat)
    ensures And(x, 2 * half + 1) == x % 2 + 2 * And(x / 2, half)
  {
    assert (2 * half + 1) / 2 == half;
  }

  /** Masking with 2^k - 1 is the remainder modulo 2^k. */
  lemma {:induction false} MaskIsRemainder(x: nat, k: nat)
    ensures And(x, Pow2(k) - 1) == x % Pow2(k)
  {
    if k > 0 {
      var p := Pow2(k - 1);
      MaskIsRemainder(x / 2, k - 1);
      AndOddMask(x, p - 1);
      RemainderByHalves(x, p);
    }
  }

  /** The test `n & (n - 1) == 0` recognises exactly the powers of two. */
  lemma {:induction false} SingleBitIffPowerOfTwo(n: nat)
    requires n >= 1
    ensures And(n, n - 1) == 0 <==> exists k: nat :: n == Pow2(k)
  {
    if n == 1 {
      assert n == Pow2(0);
    } else if n % 2 == 0 {
      var h := n / 2;
      SingleBitIffPowerOfTwo(h);
      assert n == 2 * h && n - 1 == 2 * (h - 1) + 1;
      AndOddMask(n, h - 1);
      if k: nat :| h == Pow2(k) {
        assert n == Pow2(k + 1);
      }
      if k: nat :| n == Pow2(k) {
        assert h == Pow2(k - 1);
      }
    } else {
      AndSelf(n / 2);
      assert (n - 1) / 2 == n / 2 && And(n, n - 1) == 2 * And(n / 2, n / 2);
      if k: nat :| n == Pow2(k) {
        assert Pow2(k) == 2 * Pow2(k - 1);
      }
    }
  }
}
