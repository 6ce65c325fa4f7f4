/** Writing a number from its last digit backwards, with separators, and parsing it again. */
module DecimalText {
  import opened Decimal

  // ---- grouped numerals --------------------------------------------------------------------

  function LastThree(m: nat): (s: string)
    requires m < 1000
  {
    [Digit(m / 100), Digit(m / 10 % 10), Digit(m % 10)]
  }

  /** The numeral with `sep` between groups of three digits. */
  function Grouped(n: nat, sep: string): (s: string)
    ensures |s| >= 1
  {
    if n < 1000 then Numeral(n) else Grouped(n / 1000, sep) + sep + LastThree(n % 1000)
  }

  /** Dividing by ten three times, and the digits on the way. */
  lemma ThreeDivisions(n: nat)
    ensures n / 100 == n / 10 / 10 && n / 1000 == n / 100 / 10
    ensures n % 1000 / 100 == n / 100 % 10 && n % 1000 / 10 % 10 == n / 10 % 10 && n % 1000 % 10 == n % 10
  {
  }

  lemma NumeralTriple(n: nat)
    requires n >= 1000
    ensures Numeral(n) == Numeral(n / 1000) + LastThree(n % 1000)
  {
    ThreeDivisions(n);
    var a, b := n / 10, n / 100;
    assert Numeral(n) == Numeral(a) + [Digit(n % 10)];
    assert Numeral(a) == Numeral(b) + [Digit(a % 10)];
    assert Numeral(b) == Numeral(n / 1000) + [Digit(b % 10)];
  }

  lemma {:induction false} GroupedWithoutSeparator(n: nat)
    ensures Grouped(n, "") == Numeral(n)
  {
    if n >= 1000 {
      GroupedWithoutSeparator(n / 1000);
      NumeralTriple(n);
    }
  }

  /** The caller reserves exactly the room that the grouped numeral takes. */
  lemma {:induction false} ReservedRoomIsExact(n: nat, sep: string)
    ensures |Grouped(n, sep)| == |Numeral(n)| + |sep| * ((|Numeral(n)| - 1) / 3)
  {
    var k := (|Numeral(n)| - 1) / 3;
    if n < 1000 {
      FourDigits(n);
      assert k == 0;
    } else {
      ReservedRoomIsExact(n / 1000, sep);
      ThreeMoreDigits(n);
      OneMoreTime(|sep|, k - 1);
      assert k - 1 == (|Numeral(n / 1000)| - 1) / 3;
      assert |Grouped(n, sep)| == |Grouped(n / 1000, sep)| + |sep| + 3;
    }
  }

  /** The character `r` places from the right end. */
  function FromRight(s: string, r: nat): char
    requires r < |s|
  {
    s[|s| - 1 - r]
  }

  /** The character `r` places from the right end of the text belongs there: separator or digit. */
  predicate InPlace(text: string, digits: string, sep: char, r: nat)
    requires r < |text|
  {
    if r % 4 == 3 then FromRight(text, r) == sep
    else r - r / 4 < |digits| && FromRight(text, r) == FromRight(digits, r - r / 4)
  }

  /** Counted from the right, every fourth character is the separator, and the others are the numeral's. */
  lemma {:induction false} GroupedFromRight(n: nat, sep: char, r: nat)
    requires r < |Grouped(n, [sep])|
    ensures InPlace(Grouped(n, [sep]), Numeral(n), sep, r)
  {
    if n < 1000 {
      FourDigits(n);
    } else {
      NumeralTriple(n);
      assert Grouped(n, [sep]) == Grouped(n / 1000, [sep]) + [sep] + LastThree(n % 1000);
      if r >= 4 {
        GroupedFromRight(n / 1000, sep, r - 4);
      }
      OneGroupMore(Grouped(n / 1000, [sep]), Numeral(n / 1000), sep, LastThree(n % 1000), r);
    }
  }

  lemma OneGroupMore(text: string, digits: string, sep: char, last: string, r: nat)
    requires |last| == 3 && r < |text| + 4 && (r >= 4 ==> InPlace(text, digits, sep, r - 4))
    ensures InPlace(text + [sep] + last, digits + last, sep, r)
  {
    if r >= 4 {
      assert r % 4 == (r - 4) % 4 && r / 4 == (r - 4) / 4 + 1;
      FarFromRight(text, [sep] + last, r - 4);
      assert text + ([sep] + last) == text + [sep] + last;
      if r % 4 != 3 {
        FarFromRight(digits, last, r - 4 - (r - 4) / 4);
      }
    } else {
      NearRight(text, sep, last, r);
      NearRight(digits, sep, last, r);
    }
  }

  lemma FarFromRight(a: string, b: string, r: nat)
    requires r < |a|
    ensures FromRight(a + b, r + |b|) == FromRight(a, r)
  {
  }

  lemma NearRight(a: string, sep: char, last: string, r: nat)
    requires r < 4 && |last| == 3
    ensures r < 3 ==> FromRight(a + [sep] + last, r) == FromRight(last, r) == FromRight(a + last, r)
    ensures r == 3 ==> FromRight(a + [sep] + last, r) == sep
  {
  }

  lemma OneMoreTime(x: nat, k: int)
    ensures x * (k + 1) == x * k + x
  {
  }

  lemma ThreeMoreDigits(n: nat)
    requires n >= 1000
    ensures |Numeral(n)| == |Numeral(n / 1000)| + 3
  {
    NumeralTriple(n);
  }

  // ---- writing backwards -------------------------------------------------------------------

  /** What the separator functor puts before the digit it is called after, when that is digit number `i`. */
  function SepAfter(i: nat, sep: string): string {
    if i % 3 == 0 then sep else ""
  }

  /** What is still to be written of `v` once `i` less significant digits stand in the buffer. */
  function Pending(v: nat, i: nat, sep: string): (s: string)
    ensures |s| >= 1
  {
    if v < 10 then [Digit(v)]
    else Pending(v / 10, i + 1, sep) + SepAfter(i + 1, sep) + [Digit(v % 10)]
  }

  lemma {:induction false} PendingIsGrouped(v: nat, i: nat, sep: string)
    requires i % 3 == 0
    ensures Pending(v, i, sep) == Grouped(v, sep)
  {
    if v >= 1000 {
      PendingIsGrouped(v / 1000, i + 3, sep);
      PendingTriple(v, i, sep);
    } else {
      PendingGroup(v, i, sep);
    }
  }

  lemma PendingGroup(v: nat, i: nat, sep: string)
    requires i % 3 == 0 && v < 1000
    ensures Pending(v, i, sep) == Numeral(v)
  {
    var a, b := v / 10, v / 100;
    assert b == a / 10;
    assert v >= 10 ==> Pending(v, i, sep) == Pending(a, i + 1, sep) + [Digit(v % 10)];
    assert v >= 100 ==> Pending(a, i + 1, sep) == Pending(b, i + 2, sep) + [Digit(a % 10)];
    assert v >= 10 ==> Numeral(v) == Numeral(a) + [Digit(v % 10)];
    assert v >= 100 ==> Numeral(a) == Numeral(b) + [Digit(a % 10)];
  }

  lemma PendingTriple(v: nat, i: nat, sep: string)
    requires i % 3 == 0 && v >= 1000
    ensures Pending(v, i, sep) == Pending(v / 1000, i + 3, sep) + sep + LastThree(v % 1000)
  {
    ThreeDivisions(v);
    var a, b := v / 10, v / 100;
    var p0, p1, p2, p3 := Pending(v, i, sep), Pending(a, i + 1, sep), Pending(b, i + 2, sep), Pending(v / 1000, i + 3, sep);
    assert p2 == p3 + SepAfter(i + 3, sep) + [Digit(b % 10)];
    assert p1 == p2 + SepAfter(i + 2, sep) + [Digit(a % 10)];
    assert p0 == p1 + SepAfter(i + 1, sep) + [Digit(v % 10)];
    assert SepAfter(i + 3, sep) == sep && SepAfter(i + 2, sep) == "" && SepAfter(i + 1, sep) == "";
    assert p0 == p3 + sep + [Digit(b % 10)] + [Digit(a % 10)] + [Digit(v % 10)];
  }

  /** Two digits and what the functor puts before each, when `i` digits stand to their right. */
  function PairText(pair: nat, i: nat, sep: string): string
    requires pair < 100
  {
    SepAfter(i + 2, sep) + [Digit(pair / 10)] + (SepAfter(i + 1, sep) + [Digit(pair % 10)])
  }

  /** One division by a hundred moves two digits from what is pending to what is done. */
  lemma PendingPair(v: nat, i: nat, sep: string, done: string)
    requires v >= 100
    ensures Pending(v, i, sep) + done == Pending(v / 100, i + 2, sep) + (PairText(v % 100, i, sep) + done)
  {
    assert v / 100 == v / 10 / 10 && v % 100 / 10 == v / 10 % 10 && v % 100 % 10 == v % 10;
    var p0, p1, p2 := Pending(v, i, sep), Pending(v / 10, i + 1, sep), Pending(v / 100, i + 2, sep);
    assert p1 == p2 + SepAfter(i + 2, sep) + [Digit(v / 10 % 10)];
    assert p0 == p1 + SepAfter(i + 1, sep) + [Digit(v % 10)];
  }

  /** The table of all two-digit numbers, one after the other. */
  const DIGITS: string := seq(200, j requires 0 <= j < 200 => if j % 2 == 0 then Digit(j / 20) else Digit(j / 2 % 10))

  lemma TableHasPairs(k: nat)
    requires k < 100
    ensures |DIGITS| == 200 && DIGITS[k * 2] == Digit(k / 10) && DIGITS[k * 2 + 1] == Digit(k % 10)
  {
    assert k * 2 / 20 == k / 10 && (k * 2 + 1) / 2 == k;
  }

  /** Puts `text` right before position `pos`. */
  method Prepend(buffer: array<char>, pos: nat, text: string) returns (pos': nat)
    requires |text| <= pos <= buffer.Length
    modifies buffer
    ensures pos' == pos - |text|
    ensures buffer[..] == old(buffer[..pos']) + text + old(buffer[pos..])
  {
    ghost var b := buffer[..];
    pos' := pos - |text|;
    for k := 0 to |text|
      invariant buffer[..] == b[..pos'] + text[..k] + b[pos' + k..]
    {
      ghost var now := buffer[..];
      buffer[pos' + k] := text[k];
      OneMoreChar(b, pos', text, k, now);
      assert buffer[..] == now[pos' + k := text[k]];
    }
  }

  lemma OneMoreChar(b: seq<char>, at: nat, text: string, k: nat, now: seq<char>)
    requires k < |text| && at + |text| <= |b| && now == b[..at] + text[..k] + b[at + k..]
    ensures now[at + k := text[k]] == b[..at] + text[..k + 1] + b[at + k + 1..]
  {
  }

  /** Two texts put before each other in a row are one text. */
  lemma Splice(b: seq<char>, p: nat, p1: nat, t1: string, p2: nat, t2: string, b1: seq<char>)
    requires p <= |b| && p1 == p - |t1| && p2 == p1 - |t2| && b1 == b[..p1] + t1 + b[p..]
    ensures b1[..p2] + t2 + b1[p1..] == b[..p2] + (t2 + t1) + b[p..]
  {
    assert b1[..p2] == b[..p2] && b1[p1..] == t1 + b[p..];
  }

  class ThousandsSep {
    const sep: string
    var digitIndex: nat

    constructor (sep: string)
      ensures this.sep == sep && digitIndex == 0
    {
      this.sep := sep;
      digitIndex := 0;
    }

    /** Called after each digit; puts the separator before every third one. */
    method Apply(buffer: array<char>, pos: nat) returns (pos': nat)
      requires |SepAfter(digitIndex + 1, sep)| <= pos <= buffer.Length
      modifies buffer, this
      ensures digitIndex == old(digitIndex) + 1 && pos' == pos - |SepAfter(digitIndex, sep)|
      ensures buffer[..] == old(buffer[..pos']) + SepAfter(digitIndex, sep) + old(buffer[pos..])
    {
      digitIndex := digitIndex + 1;
      pos' := pos;
      if digitIndex % 3 == 0 {
        pos' := Prepend(buffer, pos, sep);
      }
    }
  }

  /** One digit and the separator functor. */
  method PutDigit(buffer: array<char>, pos: nat, digit: char, thousandsSep: ThousandsSep) returns (pos': nat)
    requires |SepAfter(thousandsSep.digitIndex + 1, thousandsSep.sep)| + 1 <= pos <= buffer.Length
    modifies buffer, thousandsSep
    ensures thousandsSep.digitIndex == old(thousandsSep.digitIndex) + 1
    ensures var text := SepAfter(thousandsSep.digitIndex, thousandsSep.sep) + [digit];
            pos' == pos - |text| && buffer[..] == old(buffer[..pos']) + text + old(buffer[pos..])
  {
    ghost var b := buffer[..];
    var pos1 := Prepend(buffer, pos, [digit]);
    ghost var b1 := buffer[..];
    pos' := thousandsSep.Apply(buffer, pos1);
    Splice(b, pos, pos1, [digit], pos', SepAfter(thousandsSep.digitIndex, thousandsSep.sep), b1);
  }

  /** Two digits from the table, each followed by the separator functor. */
  method PutPair(buffer: array<char>, pos: nat, pair: nat, thousandsSep: ThousandsSep) returns (pos': nat)
    requires pair < 100 && pos <= buffer.Length
    requires |SepAfter(thousandsSep.digitIndex + 1, thousandsSep.sep)| + |SepAfter(thousandsSep.digitIndex + 2, thousandsSep.sep)| + 2 <= pos
    modifies buffer, thousandsSep
    ensures thousandsSep.digitIndex == old(thousandsSep.digitIndex) + 2
    ensures var text := PairText(pair, old(thousandsSep.digitIndex), thousandsSep.sep);
            pos' == pos - |text| && buffer[..] == old(buffer[..pos']) + text + old(buffer[pos..])
  {
    TableHasPairs(pair);
    ghost var i, b := thousandsSep.digitIndex, buffer[..];
    ghost var t1 := SepAfter(i + 1, thousandsSep.sep) + [Digit(pair % 10)];
    ghost var t2 := SepAfter(i + 2, thousandsSep.sep) + [Digit(pair / 10)];
    var pos1 := PutDigit(buffer, pos, DIGITS[pair * 2 + 1], thousandsSep);
    ghost var b1 := buffer[..];
    pos' := PutDigit(buffer, pos1, DIGITS[pair * 2], thousandsSep);
    Splice(b, pos, pos1, t1, pos', t2, b1);
    assert t2 + t1 == PairText(pair, i, thousandsSep.sep);
  }

  /** The most significant one or two digits; no separator comes before the first. */
  method PutLast(buffer: array<char>, pos: nat, v: nat, thousandsSep: ThousandsSep) returns (pos': nat)
    requires v < 100 && |Pending(v, thousandsSep.digitIndex, thousandsSep.sep)| <= pos <= buffer.Length
    modifies buffer, thousandsSep
    ensures var text := Pending(v, old(thousandsSep.digitIndex), thousandsSep.sep);
            pos' == pos - |text| && buffer[..] == old(buffer[..pos']) + text + old(buffer[pos..])
  {
    if v < 10 {
      pos' := Prepend(buffer, pos, [Digit(v)]);
    } else {
      TableHasPairs(v);
      ghost var b := buffer[..];
      var pos1 := PutDigit(buffer, pos, DIGITS[v * 2 + 1], thousandsSep);
      ghost var b1 := buffer[..];
      pos' := Prepend(buffer, pos1, [DIGITS[v * 2]]);
      Splice(b, pos, pos1, SepAfter(thousandsSep.digitIndex, thousandsSep.sep) + [Digit(v % 10)], pos', [Digit(v / 10)], b1);
      assert Pending(v / 10, thousandsSep.digitIndex, thousandsSep.sep) == [Digit(v / 10)];
    }
  }

  /**
     Writes `value` backwards from `start + numDigits`, two digits per division, and fills exactly
     the characters of its grouped numeral.
   */
  method FormatDecimal(buffer: array<char>, start: nat, value: nat, numDigits: nat, thousandsSep: ThousandsSep)
    requires thousandsSep.digitIndex == 0
    requires |Grouped(value, thousandsSep.sep)| <= start + numDigits <= buffer.Length
    modifies buffer, thousandsSep
    ensures var text, end := Grouped(value, thousandsSep.sep), start + numDigits;
            buffer[..] == old(buffer[..end - |text|]) + text + old(buffer[end..])
  {
    ghost var sep, b, done := thousandsSep.sep, buffer[..], "";
    PendingIsGrouped(value, 0, sep);
    var end := start + numDigits;
    var pos, v := end, value;
    while v >= 100
      invariant Grouped(value, sep) == Pending(v, thousandsSep.digitIndex, sep) + done
      invariant pos == end - |done| && |Pending(v, thousandsSep.digitIndex, sep)| <= pos
      invariant buffer[..] == b[..pos] + done + b[end..]
      decreases v
    {
      ghost var i, pos0, b1 := thousandsSep.digitIndex, pos, buffer[..];
      PendingPair(v, i, sep, done);
      pos := PutPair(buffer, pos, v % 100, thousandsSep);
      ghost var pair := PairText(v % 100, i, sep);
      Splice(b, end, pos0, done, pos, pair, b1);
      v := v / 100;
      done := pair + done;
    }
    ghost var pos0, b1, last := pos, buffer[..], Pending(v, thousandsSep.digitIndex, sep);
    pos := PutLast(buffer, pos, v, thousandsSep);
    Splice(b, end, pos0, done, pos, last, b1);
  }
}
