/** Parsing a non-negative number in 32-bit arithmetic, and which overflows its wrap test sees. */
module DecimalParse {
  import opened Bits
  import opened Decimal

  /** One more than the largest `unsigned`, and the largest `int`. */
  const WRAP := 0x1_0000_0000
  const MAX_INT := 0x7fff_ffff
  const MAX_UNSIGNED := 0xffff_ffff

  /** They are those of a 32-bit word. */
  lemma WordSizes()
    ensures WRAP == Pow2(32) && MAX_UNSIGNED == Pow2(32) - 1 && MAX_INT == Pow2(31) - 1
  {
    PowersOfTwo();
    assert Pow2(33) == 2 * Pow2(32) == 4 * Pow2(31);
  }

  predicate AllDigits(s: string) {
    forall i :: 0 <= i < |s| ==> IsDigit(s[i])
  }

  datatype Parsed = Number(value: nat, rest: nat) | TooBig

  // ---- what the wrap test sees -------------------------------------------------------------

  /** The digit at `i` does not make the number, taken modulo the word, fall. */
  predicate Rises(d: string, i: nat)
    requires AllDigits(d) && i < |d|
  {
    Denotes(d[..i]) % WRAP <= Denotes(d[..i + 1]) % WRAP
  }

  ghost predicate ResiduesRise(d: string)
    requires AllDigits(d)
  {
    forall i :: 0 <= i < |d| ==> Rises(d, i)
  }

  /** What the parser makes of a run of digits. */
  ghost predicate Accepts(d: string)
    requires AllDigits(d)
  {
    ResiduesRise(d) && Denotes(d) % WRAP <= MAX_INT
  }

  /** What it should make of it: the number, if an `int` holds it. */
  ghost predicate CorrectOn(d: string)
    requires AllDigits(d)
  {
    if Denotes(d) <= MAX_INT then Accepts(d) && Denotes(d) % WRAP == Denotes(d) else !Accepts(d)
  }

  lemma DenotesStep(d: string, i: nat)
    requires AllDigits(d) && i < |d|
    ensures Denotes(d[..i + 1]) == 10 * Denotes(d[..i]) + DigitValue(d[i])
  {
    assert d[..i + 1][..i] == d[..i];
  }

  lemma {:induction false} PrefixesAreSmaller(d: string, i: nat)
    requires AllDigits(d) && i <= |d|
    ensures Denotes(d[..i]) <= Denotes(d)
    decreases |d| - i
  {
    if i < |d| {
      DenotesStep(d, i);
      PrefixesAreSmaller(d, i + 1);
    } else {
      assert d[..i] == d;
    }
  }

  lemma WordArithmetic(x: nat, c: nat)
    ensures (x % WRAP * 10 + c) % WRAP == (10 * x + c) % WRAP
  {
    var q, r := x / WRAP, x % WRAP;
    assert x == WRAP * q + r;
    assert 10 * x + c == WRAP * (10 * q) + (r * 10 + c);
  }

  // ---- the parser --------------------------------------------------------------------------

  /** Where the run of digits from `start` ends. */
  function RunEnd(s: string, start: nat): (e: nat)
    requires start <= |s|
    ensures start <= e <= |s| && AllDigits(s[start..e])
    ensures e < |s| ==> !IsDigit(s[e])
    decreases |s| - start
  {
    if start < |s| && IsDigit(s[start]) then
      var e := RunEnd(s, start + 1);
      assert s[start..e] == [s[start]] + s[start + 1..e];
      e
    else start
  }

  lemma {:induction false} RunEndIsUnique(s: string, start: nat, e: nat)
    requires start <= e <= |s| && AllDigits(s[start..e]) && (e < |s| ==> !IsDigit(s[e]))
    ensures RunEnd(s, start) == e
    decreases e - start
  {
    if start < e {
      assert s[start] == s[start..e][0];
      assert s[start + 1..e] == s[start..e][1..];
      RunEndIsUnique(s, start + 1, e);
    }
  }

  /** One turn of the loop, in 32-bit arithmetic: the next residue, and whether the test trips. */
  lemma Turn(d: string, i: nat, value: nat, digit: char)
    requires AllDigits(d) && i < |d| && digit == d[i] && value == Denotes(d[..i]) % WRAP
    ensures var next := (value * 10 + DigitValue(digit)) % WRAP;
            next == Denotes(d[..i + 1]) % WRAP && (next < value <==> !Rises(d, i))
  {
    DenotesStep(d, i);
    WordArithmetic(Denotes(d[..i]), DigitValue(digit));
  }

  method ParseNonnegativeInt(s: string, start: nat) returns (r: Parsed)
    requires start < |s| && IsDigit(s[start])
    ensures var d := s[start..RunEnd(s, start)];
            r == if Accepts(d) then Number(Denotes(d) % WRAP, RunEnd(s, start)) else TooBig
  {
    var value := 0;
    var pos := start;
    ghost var end := RunEnd(s, start);
    ghost var d := s[start..end];
    while true
      invariant start <= pos < end && IsDigit(s[pos])
      invariant value == Denotes(d[..pos - start]) % WRAP
      invariant forall i :: 0 <= i < pos - start ==> Rises(d, i)
      decreases |s| - pos
    {
      Turn(d, pos - start, value, s[pos]);
      var newValue := (value * 10 + DigitValue(s[pos])) % WRAP;
      pos := pos + 1;
      if newValue < value {
        value := MAX_UNSIGNED;
        break;
      }
      value := newValue;
      if !(pos < |s| && IsDigit(s[pos])) {
        RunEndIsUnique(s, start, pos);
        assert d[..pos - start] == d;
        break;
      }
    }
    if value > MAX_INT {
      return TooBig;
    }
    return Number(value, pos);
  }

  // ---- when it is right --------------------------------------------------------------------

  /** Every number an `int` holds is read correctly. */
  lemma SmallNumbersAreRead(d: string)
    requires AllDigits(d) && Denotes(d) <= MAX_INT
    ensures Accepts(d) && Denotes(d) % WRAP == Denotes(d)
  {
    forall i | 0 <= i < |d|
      ensures Rises(d, i)
    {
      PrefixesAreSmaller(d, i);
      PrefixesAreSmaller(d, i + 1);
      DenotesStep(d, i);
    }
  }

  /** Dropping the last digit of `v`, or of what is then left, and so on, shows the test a falling residue. */
  predicate Seen(v: nat) {
    v >= WRAP && (v % WRAP < v / 10 % WRAP || Seen(v / 10))
  }

  lemma RisesInPrefix(d: string, head: string, i: nat)
    requires AllDigits(d) && head <= d && i < |head|
    ensures AllDigits(head) && (Rises(d, i) <==> Rises(head, i))
  {
    assert d[..i] == head[..i] && d[..i + 1] == head[..i + 1];
  }

  lemma RisesAtLast(d: string, head: string)
    requires AllDigits(d) && d != [] && head == d[..|d| - 1]
    ensures Rises(d, |d| - 1) <==> Denotes(head) % WRAP <= Denotes(d) % WRAP
  {
    assert d[..|d| - 1 + 1] == d;
  }

  lemma SeenSplits(v: nat)
    ensures Seen(v) <==> v % WRAP < v / 10 % WRAP || Seen(v / 10)
  {
    if v < WRAP {
      assert v / 10 <= v && v % WRAP == v && v / 10 % WRAP == v / 10;
    }
  }

  /** The test looks at the number, and not at how it is written. */
  lemma {:induction false} SeenIff(d: string)
    requires AllDigits(d)
    ensures ResiduesRise(d) <==> !Seen(Denotes(d))
  {
    if d != [] {
      var head := d[..|d| - 1];
      SeenIff(head);
      RiseSplits(d, head);
      LastDigitOff(d, head);
      SeenSplits(Denotes(d));
    }
  }

  lemma LastDigitOff(d: string, head: string)
    requires AllDigits(d) && d != [] && head == d[..|d| - 1] && AllDigits(head)
    ensures Denotes(head) == Denotes(d) / 10
    ensures Rises(d, |d| - 1) <==> Denotes(d) / 10 % WRAP <= Denotes(d) % WRAP
  {
    assert Denotes(d) == 10 * Denotes(head) + DigitValue(d[|d| - 1]);
    RisesAtLast(d, head);
  }

  lemma RiseSplits(d: string, head: string)
    requires AllDigits(d) && d != [] && head == d[..|d| - 1] && AllDigits(head)
    ensures ResiduesRise(d) <==> ResiduesRise(head) && Rises(d, |d| - 1)
  {
    forall i | 0 <= i < |head|
      ensures Rises(d, i) <==> Rises(head, i)
    {
      RisesInPrefix(d, head, i);
    }
  }

  /** Exactly: the number fits, or the residue falls on the way to it, or its own residue is too big. */
  lemma CorrectIff(d: string)
    requires AllDigits(d)
    ensures CorrectOn(d) <==> var v := Denotes(d); v <= MAX_INT || v % WRAP > MAX_INT || Seen(v)
  {
    SeenIff(d);
    if Denotes(d) <= MAX_INT {
      SmallNumbersAreRead(d);
    }
  }

  lemma {:induction false} DigitsBound(d: string)
    requires AllDigits(d)
    ensures Denotes(d) < Pow10(|d|)
  {
    if d != [] {
      DigitsBound(d[..|d| - 1]);
    }
  }

  /** Up to nine digits nothing can go wrong; one comparison decides about ten, and two about eleven. */
  lemma ElevenDigitsCorrectIff(d: string)
    requires AllDigits(d) && 1 <= |d| <= 11
    ensures var v := Denotes(d);
            CorrectOn(d) <==> v <= MAX_INT || v % WRAP > MAX_INT || v % WRAP < v / 10 % WRAP || v / 10 % WRAP < v / 100
    ensures |d| <= 10 ==> Denotes(d) / 10 % WRAP == Denotes(d) / 10
    ensures |d| <= 9 ==> Denotes(d) <= MAX_INT && CorrectOn(d)
  {
    DigitsBound(d);
    Pow10Grows(|d|, 11);
    PowersOfTen();
    if |d| <= 10 {
      Pow10Grows(|d|, 10);
    }
    if |d| <= 9 {
      Pow10Grows(|d|, 9);
    }
    CorrectIff(d);
    TwoStepsSee(Denotes(d));
  }

  lemma TwoStepsSee(v: nat)
    requires v < 100000000000
    ensures Seen(v) <==> v >= WRAP && (v % WRAP < v / 10 % WRAP || v / 10 % WRAP < v / 100)
    ensures v % WRAP < v / 10 % WRAP || v / 10 % WRAP < v / 100 ==> v >= WRAP
  {
    assert v / 10 / 10 == v / 100 < WRAP && !Seen(v / 100);
  }

  const TEN_THOUSAND_MILLION := "10000000000"

  /** It overflows the word, and the parser takes it for another number. */
  lemma MissedOverflow()
    ensures AllDigits(TEN_THOUSAND_MILLION) && Denotes(TEN_THOUSAND_MILLION) == 10000000000
    ensures Accepts(TEN_THOUSAND_MILLION) && Denotes(TEN_THOUSAND_MILLION) % WRAP == 1410065408
    ensures !CorrectOn(TEN_THOUSAND_MILLION)
  {
    ReadsTenThousandMillion();
    TwoStepsSee(10000000000);
    SeenIff(TEN_THOUSAND_MILLION);
  }

  lemma ReadsTenThousandMillion()
    ensures AllDigits(TEN_THOUSAND_MILLION) && Denotes(TEN_THOUSAND_MILLION) == 10000000000
  {
    var d := TEN_THOUSAND_MILLION;
    OneAndZeros(d, 11);
    PowersOfTen();
    assert d[..11] == d;
  }

  lemma {:induction false} OneAndZeros(d: string, i: nat)
    requires AllDigits(d) && 1 <= i <= |d| && d[0] == '1' && forall k :: 1 <= k < |d| ==> d[k] == '0'
    ensures Denotes(d[..i]) == Pow10(i - 1)
  {
    DenotesStep(d, i - 1);
    if i > 1 {
      OneAndZeros(d, i - 1);
    } else {
      assert d[..0] == [];
    }
  }

  // ---- round trip --------------------------------------------------------------------------

  /** A formatted number is parsed back, whatever stands before it and whatever non-digit follows. */
  lemma RoundTrip(before: string, n: nat, after: string)
    requires n <= MAX_INT && (after != [] ==> !IsDigit(after[0]))
    ensures var s, start := before + Numeral(n) + after, |before|;
            && RunEnd(s, start) == start + |Numeral(n)|
            && s[start..RunEnd(s, start)] == Numeral(n)
            && Accepts(Numeral(n)) && Denotes(Numeral(n)) % WRAP == n
  {
    var s, start, e := before + Numeral(n) + after, |before|, |before| + |Numeral(n)|;
    assert s[start..e] == Numeral(n);
    assert e < |s| ==> s[e] == after[0];
    RunEndIsUnique(s, start, e);
    NumeralDenotes(n);
    SmallNumbersAreRead(Numeral(n));
  }
}
