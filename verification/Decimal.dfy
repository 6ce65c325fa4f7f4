/** Decimal digits of the bundled formatting library: counting them, writing them, and reading them back. */
module Decimal {
  import opened Bits

  // ---- what a decimal numeral is -----------------------------------------------------------

  function Pow10(k: nat): (r: nat)
    ensures r >= 1
  {
    if k == 0 then 1 else 10 * Pow10(k - 1)
  }

  function Digit(d: nat): (c: char)
    requires d < 10
    ensures '0' <= c <= '9'
  {
    '0' + d as char
  }

  predicate IsDigit(c: char) {
    '0' <= c <= '9'
  }

  function DigitValue(c: char): (d: nat)
    requires IsDigit(c)
    ensures d < 10 && Digit(d) == c
  {
    c as int - '0' as int
  }

  /** The ten digits are different characters, in the order of their values. */
  lemma DigitsAscend(i: nat, j: nat)
    requires i < j < 10
    ensures Digit(i) < Digit(j) && DigitValue(Digit(i)) == i && DigitValue(Digit(j)) == j
    ensures Digit(0) == '0' && Digit(9) == '9'
  {
  }

  /** The numeral of `n`, most significant digit first, no leading zeros. */
  function Numeral(n: nat): (s: string)
    ensures |s| >= 1 && forall i :: 0 <= i < |s| ==> IsDigit(s[i])
  {
    if n < 10 then [Digit(n)] else Numeral(n / 10) + [Digit(n % 10)]
  }

  /** What a string of digits denotes. */
  function Denotes(s: string): nat
    requires forall i :: 0 <= i < |s| ==> IsDigit(s[i])
  {
    if s == [] then 0 else 10 * Denotes(s[..|s| - 1]) + DigitValue(s[|s| - 1])
  }

  lemma {:induction false} NumeralDenotes(n: nat)
    ensures Denotes(Numeral(n)) == n
  {
    if n >= 10 {
      NumeralDenotes(n / 10);
      assert Numeral(n)[..|Numeral(n)| - 1] == Numeral(n / 10);
    } else {
      assert Numeral(n)[..0] == [];
    }
  }

  lemma {:induction false} Pow10Grows(i: nat, j: nat)
    requires i <= j
    ensures Pow10(i) <= Pow10(j)
  {
    if i < j {
      Pow10Grows(i, j - 1);
    }
  }

  /** The length of the numeral pins the number between two powers of ten. */
  lemma {:induction false} NumeralLength(n: nat)
    ensures n < Pow10(|Numeral(n)|)
    ensures n >= 10 ==> Pow10(|Numeral(n)| - 1) <= n
    ensures n < 10 <==> |Numeral(n)| == 1
  {
    if n >= 10 {
      NumeralLength(n / 10);
      assert |Numeral(n)| == |Numeral(n / 10)| + 1;
    }
  }

  lemma LengthIsUnique(n: nat, k: nat)
    requires k >= 1 && n < Pow10(k) && (k > 1 ==> Pow10(k - 1) <= n)
    ensures |Numeral(n)| == k
  {
    NumeralLength(n);
    var m := |Numeral(n)|;
    if m < k {
      Pow10Grows(m, k - 1);
    } else if m > k {
      Pow10Grows(k, m - 1);
    }
  }

  /** Of two numerals of one length, the smaller number's comes first, character by character. */
  lemma {:induction false} NumeralsAscend(m: nat, n: nat) returns (i: nat)
    requires m < n && |Numeral(m)| == |Numeral(n)|
    ensures i < |Numeral(m)| && Numeral(m)[..i] == Numeral(n)[..i] && Numeral(m)[i] < Numeral(n)[i]
  {
    NumeralLength(m);
    NumeralLength(n);
    if n < 10 {
      i := 0;
    } else if m / 10 < n / 10 {
      i := NumeralsAscend(m / 10, n / 10);
      assert Numeral(m)[..i] == Numeral(m / 10)[..i] && Numeral(n)[..i] == Numeral(n / 10)[..i];
    } else {
      i := |Numeral(m)| - 1;
      DigitsAscend(m % 10, n % 10);
      assert Numeral(m)[..i] == Numeral(m / 10) && Numeral(n)[..i] == Numeral(n / 10);
    }
  }

  // ---- counting digits ---------------------------------------------------------------------

  /** The width of a word minus its leading zeros. */
  function BitLength(x: nat): nat {
    if x == 0 then 0 else 1 + BitLength(x / 2)
  }

  lemma {:induction false} BitLengthBounds(x: nat)
    requires x > 0
    ensures BitLength(x) >= 1 && Pow2(BitLength(x) - 1) <= x < Pow2(BitLength(x))
  {
    if x > 1 {
      BitLengthBounds(x / 2);
    }
  }

  lemma {:induction false} Pow2Grows(i: nat, j: nat)
    requires i <= j
    ensures Pow2(i) <= Pow2(j)
  {
    if i < j {
      Pow2Grows(i, j - 1);
    }
  }

  const POWERS_OF_10_32: seq<nat> :=
    [0, 10, 100, 1000, 10000, 100000, 1000000, 10000000, 100000000, 1000000000]

  const POWERS_OF_10_64: seq<nat> := POWERS_OF_10_32 +
    [10000000000, 100000000000, 1000000000000, 10000000000000, 100000000000000, 1000000000000000,
     10000000000000000, 100000000000000000, 1000000000000000000, 10000000000000000000]

  /** An estimate of the decimal logarithm from the bit length: `n | 1` avoids the zero word. */
  function Estimate(n: nat): nat {
    BitLength(if n % 2 == 0 then n + 1 else n) * 1233 / 4096
  }

  function CountDigits(n: nat, powers: seq<nat>): int
    requires Estimate(n) < |powers|
  {
    Estimate(n) - (if n < powers[Estimate(n)] then 1 else 0) + 1
  }

  ghost predicate Fits(b: nat) {
    var t := b * 1233 / 4096;
    t <= 19 && b >= 1 && Pow2(b) <= Pow10(t + 1) && (t > 0 ==> Pow10(t - 1) <= Pow2(b - 1))
  }

  /** All bit lengths above `low` and up to `high` have the estimate `next - 1`. */
  lemma Row(b: nat, low: nat, high: nat, next: nat)
    requires low < b <= high && next == b * 1233 / 4096 + 1 && next <= 20
    requires Pow2(high) <= Pow10(next) && (next > 1 ==> Pow10(next) <= 100 * Pow2(low))
    ensures Fits(b)
  {
    Pow2Grows(b, high);
    Pow2Grows(low, b - 1);
    if next > 1 {
      assert Pow10(next) == 10 * Pow10(next - 1) == 100 * Pow10(next - 2);
    }
  }

  lemma PowersOfTwo()
    ensures Pow2(0) == 1 && Pow2(3) == 8 && Pow2(6) == 64 && Pow2(9) == 512 && Pow2(13) == 8192 &&
            Pow2(16) == 65536 && Pow2(19) == 524288 && Pow2(23) == 8388608 && Pow2(26) == 67108864 &&
            Pow2(29) == 536870912 && Pow2(33) == 8589934592 && Pow2(36) == 68719476736 &&
            Pow2(39) == 549755813888 && Pow2(43) == 8796093022208 && Pow2(46) == 70368744177664 &&
            Pow2(49) == 562949953421312 && Pow2(53) == 9007199254740992 && Pow2(56) == 72057594037927936 &&
            Pow2(59) == 576460752303423488 && Pow2(63) == 9223372036854775808 &&
            Pow2(64) == 18446744073709551616
  {
    assert Pow2(3) == 8;
    assert Pow2(6) == 64;
    assert Pow2(9) == 512;
    assert Pow2(13) == 8192;
    assert Pow2(16) == 65536;
    assert Pow2(19) == 524288;
    assert Pow2(23) == 8388608;
    assert Pow2(26) == 67108864;
    assert Pow2(29) == 536870912;
    assert Pow2(33) == 8589934592;
    assert Pow2(36) == 68719476736;
    assert Pow2(39) == 549755813888;
    assert Pow2(43) == 8796093022208;
    assert Pow2(46) == 70368744177664;
    assert Pow2(49) == 562949953421312;
    assert Pow2(53) == 9007199254740992;
    assert Pow2(56) == 72057594037927936;
    assert Pow2(59) == 576460752303423488;
    assert Pow2(63) == 9223372036854775808;
    assert Pow2(64) == 18446744073709551616;
  }

  lemma PowersOfTen()
    ensures Pow10(1) == 10 && Pow10(2) == 100 && Pow10(3) == 1000 && Pow10(4) == 10000 &&
            Pow10(5) == 100000 && Pow10(6) == 1000000 && Pow10(7) == 10000000 && Pow10(8) == 100000000 &&
            Pow10(9) == 1000000000 && Pow10(10) == 10000000000 && Pow10(11) == 100000000000 &&
            Pow10(12) == 1000000000000 && Pow10(13) == 10000000000000 && Pow10(14) == 100000000000000 &&
            Pow10(15) == 1000000000000000 && Pow10(16) == 10000000000000000 &&
            Pow10(17) == 100000000000000000 && Pow10(18) == 1000000000000000000 &&
            Pow10(19) == 10000000000000000000 && Pow10(20) == 100000000000000000000
  {
    assert Pow10(2) == 100;
    assert Pow10(5) == 100000;
    assert Pow10(8) == 100000000;
    assert Pow10(11) == 100000000000;
    assert Pow10(14) == 100000000000000;
    assert Pow10(17) == 100000000000000000;
    assert Pow10(20) == 100000000000000000000;
  }

  /** 1233/4096 is close enough to the logarithm of two, up to 64 bits. */
  lemma EstimateFits(b: nat)
    requires 1 <= b <= 64
    ensures Fits(b)
  {
    PowersOfTwo();
    PowersOfTen();
    if b <= 3 {
      Row(b, 0, 3, 1);
    } else if b <= 6 {
      Row(b, 3, 6, 2);
    } else if b <= 9 {
      Row(b, 6, 9, 3);
    } else if b <= 13 {
      Row(b, 9, 13, 4);
    } else if b <= 16 {
      Row(b, 13, 16, 5);
    } else if b <= 19 {
      Row(b, 16, 19, 6);
    } else if b <= 23 {
      Row(b, 19, 23, 7);
    } else if b <= 26 {
      Row(b, 23, 26, 8);
    } else if b <= 29 {
      Row(b, 26, 29, 9);
    } else if b <= 33 {
      Row(b, 29, 33, 10);
    } else if b <= 36 {
      Row(b, 33, 36, 11);
    } else if b <= 39 {
      Row(b, 36, 39, 12);
    } else if b <= 43 {
      Row(b, 39, 43, 13);
    } else if b <= 46 {
      Row(b, 43, 46, 14);
    } else if b <= 49 {
      Row(b, 46, 49, 15);
    } else if b <= 53 {
      Row(b, 49, 53, 16);
    } else if b <= 56 {
      Row(b, 53, 56, 17);
    } else if b <= 59 {
      Row(b, 56, 59, 18);
    } else if b <= 63 {
      Row(b, 59, 63, 19);
    } else {
      Row(b, 63, 64, 20);
    }
  }

  /** One table entry per estimate: the first is zero, so that zero itself counts as one digit. */
  lemma {:induction false} PowersTable(t: nat)
    requires t < 20
    ensures |POWERS_OF_10_64| == 20 && POWERS_OF_10_64[t] == if t == 0 then 0 else Pow10(t)
    ensures t < 10 ==> |POWERS_OF_10_32| == 10 && POWERS_OF_10_32[t] == POWERS_OF_10_64[t]
  {
    if t > 1 {
      PowersTable(t - 1);
    }
  }

  /** Setting the last bit of a number changes neither its bit length's lower nor its upper bound. */
  lemma OrOneBounds(n: nat, width: nat)
    requires 1 <= width && n < Pow2(width)
    ensures var b := BitLength(if n % 2 == 0 then n + 1 else n);
            1 <= b <= width && n < Pow2(b) && (b >= 2 ==> Pow2(b - 1) <= n)
  {
    var x := if n % 2 == 0 then n + 1 else n;
    BitLengthBounds(x);
    var b := BitLength(x);
    assert Pow2(width) == 2 * Pow2(width - 1);
    if b > width {
      Pow2Grows(width, b - 1);
    }
    assert b >= 2 ==> Pow2(b - 1) == 2 * Pow2(b - 2);
  }

  /** The estimate and one table lookup give the exact number of digits of every 64-bit number. */
  lemma CountDigitsIsExact(n: nat)
    requires n < Pow2(64)
    ensures Estimate(n) < |POWERS_OF_10_64| && CountDigits(n, POWERS_OF_10_64) == |Numeral(n)|
  {
    OrOneBounds(n, 64);
    var b, t := BitLength(if n % 2 == 0 then n + 1 else n), Estimate(n);
    EstimateFits(b);
    PowersTable(t);
    DigitsFromEstimate(n, b, t);
  }

  lemma DigitsFromEstimate(n: nat, b: nat, t: nat)
    requires Fits(b) && t == b * 1233 / 4096 && n < Pow2(b) && (b >= 2 ==> Pow2(b - 1) <= n)
    ensures |Numeral(n)| == if t > 0 && n < Pow10(t) then t else t + 1
  {
    if t > 0 && n < Pow10(t) {
      LengthIsUnique(n, t);
    } else {
      LengthIsUnique(n, t + 1);
    }
  }

  lemma ShortEstimate(n: nat)
    requires n < Pow2(32)
    ensures Estimate(n) < 10 && n < Pow2(64)
  {
    OrOneBounds(n, 32);
    Pow2Grows(32, 64);
  }

  lemma ShortTable(n: nat)
    requires Estimate(n) < 10
    ensures Estimate(n) < |POWERS_OF_10_32| && Estimate(n) < |POWERS_OF_10_64|
    ensures CountDigits(n, POWERS_OF_10_32) == CountDigits(n, POWERS_OF_10_64)
  {
    PowersTable(Estimate(n));
  }

  /** The same for 32-bit numbers with the shorter table. */
  lemma CountDigits32IsExact(n: nat)
    requires n < Pow2(32)
    ensures Estimate(n) < |POWERS_OF_10_32| && CountDigits(n, POWERS_OF_10_32) == |Numeral(n)|
  {
    ShortEstimate(n);
    ShortTable(n);
    CountDigitsIsExact(n);
  }

  /** The fallback divides by ten thousand and looks at four digits at a time. */
  method CountDigitsFallback(value: nat) returns (count: nat)
    ensures count == |Numeral(value)|
  {
    var n := value;
    count := 1;
    while true
      invariant count + |Numeral(n)| == |Numeral(value)| + 1
      decreases n
    {
      FourDigits(n);
      if n < 10 {
        return count;
      }
      if n < 100 {
        return count + 1;
      }
      if n < 1000 {
        return count + 2;
      }
      if n < 10000 {
        return count + 3;
      }
      n := n / 10000;
      count := count + 4;
    }
  }

  lemma FourDigits(n: nat)
    ensures n < 10 ==> |Numeral(n)| == 1
    ensures 10 <= n < 100 ==> |Numeral(n)| == 2
    ensures 100 <= n < 1000 ==> |Numeral(n)| == 3
    ensures 1000 <= n < 10000 ==> |Numeral(n)| == 4
    ensures n >= 10000 ==> |Numeral(n)| == |Numeral(n / 10000)| + 4
  {
    var a, b, c := n / 10, n / 100, n / 1000;
    assert b == a / 10 && c == b / 10 && n / 10000 == c / 10;
    assert n >= 10 ==> |Numeral(n)| == |Numeral(a)| + 1;
    assert n >= 100 ==> |Numeral(a)| == |Numeral(b)| + 1;
    assert n >= 1000 ==> |Numeral(b)| == |Numeral(c)| + 1;
    assert n >= 10000 ==> |Numeral(c)| == |Numeral(c / 10)| + 1;
  }
}
