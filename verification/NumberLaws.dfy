/** Laws of itoa and atoi, about the texts and values that their methods are proved to compute. */
module NumberLaws {
  import opened Words
  import opened CString
  import opened Numbers

  lemma WeightedAppend(s: seq<char>, c: char)
    ensures Weighted(s + [c]) == Weighted(s) * 10 + Distance(c)
  {
    assert (s + [c])[..|s|] == s;
  }

  /** A number in base ten is written with digits only, and weighs what it is. */
  lemma {:induction false} DigitsWeigh(n: nat)
    ensures Weighted(Digits(n, 10)) == n
    ensures forall i :: 0 <= i < |Digits(n, 10)| ==> '0' <= Digits(n, 10)[i] <= '9'
    decreases n
  {
    if n < 10 {
      WeightedAppend([], DigitChar(n));
      assert [] + [DigitChar(n)] == [DigitChar(n)];
    } else {
      DigitsWeigh(n / 10);
      WeightedAppend(Digits(n / 10, 10), DigitChar(n % 10));
    }
  }

  /** Numbers below 10^k have at most k digits. */
  lemma {:induction false} DigitsLength(n: nat, k: nat)
    requires k >= 1 && n < Ten(k)
    ensures |Digits(n, 10)| <= k
    decreases n
  {
    assert Ten(1) == 10 * Ten(0) == 10;
    if n >= 10 {
      DigitsLength(n / 10, k - 1);
    }
  }

  /** atoi takes back what itoa writes of a non-negative number exactly if that fits in an int. */
  lemma RoundTripIff(n: nat)
    ensures AtoiValue(ItoaText(n, 10)) == n <==> n < TWO_31
  {
    DigitsWeigh(n);
  }

  /** Numbers that itoa writes are short enough for atoi. */
  lemma ItoaFitsAtoi(n: nat)
    requires n < TWO_63
    ensures |ItoaText(n, 10)| <= 19 && NUL !in ItoaText(n, 10)
  {
    assert Ten(3) == 1_000 && Ten(6) == 1_000_000 && Ten(9) == 1_000_000_000;
    assert Ten(12) == 1_000_000_000_000 && Ten(15) == 1_000_000_000_000_000 && Ten(18) == 1_000_000_000_000_000_000;
    assert Ten(19) == 10 * Ten(18);
    DigitsLength(n, 19);
    DigitsNoNul(n, 10);
  }

  // ----- Negative numbers -----

  /** The usual decimal text of a number. */
  function Decimal(v: int): seq<char> { if v >= 0 then Digits(v, 10) else ['-'] + Digits(-v, 10) }

  /** itoa writes the decimal text of a number exactly if the number is not negative. */
  lemma ItoaIsDecimalIff(v: int)
    ensures ItoaText(v, 10) == Decimal(v) <==> v >= 0
  {
    if v < 0 {
      DigitsWeigh(-v);
      var d := Decimal(v);
      assert d[|d|-1] == Digits(-v, 10)[|Digits(-v, 10)|-1];
    }
  }

  /** The garbled digits of a negative number: each lies as far below '0' as the digit should lie above,
      and the sign comes last. */
  lemma ItoaOfNegative(v: int)
    requires v < 0
    ensures var t, d := ItoaText(v, 10), Digits(-v, 10);
      && |t| == |d| + 1 && t[|d|] == '-'
      && forall i :: 0 <= i < |d| ==> t[i] as int - '0' as int == '0' as int - d[i] as int
  {
    Mirrored(-v);
  }

  lemma {:induction false} Mirrored(n: nat)
    ensures |NegDigits(n)| == |Digits(n, 10)|
    ensures forall i :: 0 <= i < |NegDigits(n)| ==> NegDigits(n)[i] as int + Digits(n, 10)[i] as int == 2 * ('0' as int)
  {
    if n >= 10 { Mirrored(n / 10); }
  }

  /** Some digits as they are written. */
  lemma DigitsAsWritten()
    ensures Digits(0, 10) == ['0'] && Digits(102, 10) == ['1', '0', '2']
    ensures Digits(0xbeef, 16) == ['b', 'e', 'e', 'f'] && Digits(6, 2) == ['1', '1', '0'] && Digits(35, 36) == ['z']
  {
    assert Digits(1, 10) == ['1'] && Digits(10, 10) == ['1', '0'];
    assert Digits(0xb, 16) == ['b'] && Digits(0xbe, 16) == ['b', 'e'] && Digits(0xbee, 16) == ['b', 'e', 'e'];
    assert Digits(1, 2) == ['1'] && Digits(3, 2) == ['1', '1'];
  }

  /** atoi reads the decimal text of a number, sign included, exactly if it fits in an int. */
  lemma AtoiReadsDecimalIff(v: int)
    ensures AtoiValue(Decimal(v)) == v <==> -(TWO_31 as int) <= v < TWO_31
  {
    DigitsWeigh(Abs(v));
    if v < 0 { assert Decimal(v)[1..] == Digits(-v, 10); }
    IntRange(v);
  }

  /** For any other string of digits, leading zeros included, it makes the value modulo 2^32. */
  lemma AtoiOfDigits(s: seq<char>)
    requires forall i :: 0 <= i < |s| ==> '0' <= s[i] <= '9'
    ensures AtoiValue(s) == ToInt32(Positional(s, 10))
    ensures AtoiValue(['-'] + s) == ToInt32(0 - Positional(s, 10))
  {
    DigitsWeighPositional(s);
    assert (['-'] + s)[1..] == s;
  }

  lemma {:induction false} DigitsWeighPositional(s: seq<char>)
    requires forall i :: 0 <= i < |s| ==> '0' <= s[i] <= '9'
    ensures Weighted(s) == Positional(s, 10)
    decreases |s|
  {
    if s != [] { DigitsWeighPositional(s[..|s|-1]); }
  }

  /** Other bytes count by their distance from '0', those above 127 as negative. */
  lemma AtoiOfOthers()
    ensures AtoiValue(['a']) == 49 && AtoiValue([128 as char]) == -176 && AtoiValue([]) == 0 && AtoiValue(['-']) == 0
  {
    assert ['a'][..0] == [] && [128 as char][..0] == [];
  }

  /** For instance, -5 becomes "+-". */
  lemma ItoaOfMinusFive()
    ensures ItoaText(-5, 10) == ['+', '-']
  {
  }

  /** s is the garbled text of n: d is its first digit, m what is left of n without it. */
  ghost predicate Garbled(s: seq<char>, n: nat, d: nat, m: nat) {
    && s != [] && d < 10 && m < Ten(|s| - 1) && n == d * Ten(|s| - 1) + m
    && s[0] == ('0' as int - d) as char
    && Weighted(s) == 0 - n && Weighted(s[1..]) == 0 - m
  }

  lemma GarbledAppended(s: seq<char>, n: nat, d: nat, m: nat)
    requires Garbled(s, n / 10, d, m)
    ensures Garbled(s + [DigitOrNot(0 - n % 10)], n, d, 10 * m + n % 10)
  {
    hide Weighted;
    var c := DigitOrNot(0 - n % 10);
    GarbledStep(n, d, m, Ten(|s| - 1));
    WeightedAppend(s, c);
    WeightedAppend(s[1..], c);
    assert (s + [c])[1..] == s[1..] + [c];
  }

  lemma GarbledOne(n: nat)
    requires n < 10
    ensures Garbled([DigitOrNot(0 - n)], n, n, 0)
  {
    WeightedAppend([], DigitOrNot(0 - n));
    assert [] + [DigitOrNot(0 - n)] == [DigitOrNot(0 - n)];
  }

  lemma {:induction false} NegDigitsGarbled(n: nat) returns (d: nat, m: nat)
    ensures Garbled(NegDigits(n), n, d, m)
    decreases n
  {
    hide Garbled, DigitOrNot;
    if n < 10 {
      d, m := n, 0;
      GarbledOne(n);
    } else {
      d, m := NegDigitsGarbled(n / 10);
      GarbledAppended(NegDigits(n / 10), n, d, m);
      m := 10 * m + n % 10;
    }
  }

  lemma GarbledStep(n: nat, d: nat, m: nat, t: nat)
    requires n / 10 == d * t + m && m < t
    ensures n == d * (10 * t) + (10 * m + n % 10) && 10 * m + n % 10 < 10 * t
  {
    assert d * (10 * t) == 10 * (d * t);
  }

  /** The one negative number of 32 bits that atoi takes back from what itoa made of it: modulo 2^32
      it is a third. */
  const THIRD: int := -1431655765

  /** Ten times a number less three is the number again, modulo 2^32, only for that one. */
  lemma OnlyThird(v: int)
    requires -(TWO_31 as int) <= v < 0
    ensures ToInt32(10 * v - 3) == v <==> v == THIRD
  {
  }

  /** If the first garbled digit happens to be '-', atoi takes it for the sign. */
  lemma SignSeen(n: nat, m: nat)
    requires NegDigits(n)[0] == '-' && Weighted(NegDigits(n)[1..]) == 0 - m
    ensures AtoiValue(NegDigits(n) + ['-']) == ToInt32(10 * m + 3)
  {
    var s := NegDigits(n);
    WeightedAppend(s[1..], '-');
    assert (s + ['-'])[1..] == s[1..] + ['-'];
  }

  lemma LeadingThree(n: nat, m: nat, k: nat)
    requires n == 3 * Ten(k) + m && m < Ten(k) && n <= TWO_31
    ensures n < 400_000_000 && ToInt32(10 * m + 3) != 0 - n
  {
    assert Ten(3) == 1_000 && Ten(6) == 1_000_000 && Ten(8) == 100_000_000 && Ten(9) == 1_000_000_000;
    if k >= 9 { TenGrows(9, k); } else { TenGrows(k, 8); }
  }

  /** The exact round trip for 32-bit integers. */
  lemma RoundTripExactly(v: int)
    requires -(TWO_31 as int) <= v < TWO_31
    ensures AtoiValue(ItoaText(v, 10)) == v <==> v >= 0 || v == THIRD
  {
    if v >= 0 {
      RoundTripIff(v);
    } else {
      var n := -v;
      var s := NegDigits(n);
      var d, m := NegDigitsGarbled(n);
      if d == 3 {
        SignSeen(n, m);
        LeadingThree(n, m, |s| - 1);
      } else {
        WeightedAppend(s, '-');
        assert AtoiValue(s + ['-']) == ToInt32(10 * v - 3);
        OnlyThird(v);
      }
    }
  }
}
