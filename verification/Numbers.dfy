/** libc/stdlib.c and libc/math.c: numbers to digits and back. */
module Numbers {
  import opened Words
  import opened CString
  import Bits


  // ----- Digits -----

  function DigitChar(d: nat): char
    requires d < 36
  {
    if d < 10 then ('0' as int + d) as char else ('a' as int + (d - 10)) as char
  }

  /** The value of a digit character; 36 if it is none. */
  function DigitVal(c: char): nat {
    if '0' <= c <= '9' then c as int - '0' as int
    else if 'a' <= c <= 'z' then c as int - 'a' as int + 10 else 36
  }

  /** The digits of n in base b, most significant first. */
  function Digits(n: nat, b: nat): (r: seq<char>)
    requires 2 <= b <= 36
    ensures |r| >= 1
  {
    if n < b then [DigitChar(n)]
    else
      Split(n, b);
      Digits(n / b, b) + [DigitChar(n % b)]
  }

  /** Positional value of a digit string. */
  function Positional(s: seq<char>, b: nat): nat {
    if s == [] then 0 else Positional(s[..|s|-1], b) * b + DigitVal(s[|s|-1])
  }

  /** A digit string in base b without leading zeros. */
  predicate Canonical(s: seq<char>, b: nat) {
    && s != [] && (forall i :: 0 <= i < |s| ==> DigitVal(s[i]) < b)
    && (|s| > 1 ==> s[0] != '0')
  }

  lemma DigitRoundTrip(d: nat)
    requires d < 36
    ensures DigitVal(DigitChar(d)) == d && DigitChar(d) != NUL && DigitChar(d) != '-' && DigitChar(d) != '%'
    ensures DigitChar(d) == '0' <==> d == 0
  {
  }

  lemma Split(n: nat, b: nat)
    requires 2 <= b <= n
    ensures 1 <= n / b < n && n % b < b && n / b * b + n % b == n
  {
  }

  /** One more digit at the end. */
  lemma DigitAppended(s: seq<char>, b: nat, c: char)
    requires Canonical(s, b) && s[0] != '0' && DigitVal(c) < b
    ensures Canonical(s + [c], b) && (s + [c])[0] != '0'
    ensures Positional(s + [c], b) == Positional(s, b) * b + DigitVal(c)
  {
    assert (s + [c])[..|s|] == s;
  }

  /** Digits gives a canonical digit string whose value is the number. */
  lemma {:induction false} DigitsAreCanonical(n: nat, b: nat)
    requires 2 <= b <= 36
    ensures Canonical(Digits(n, b), b) && Positional(Digits(n, b), b) == n
    ensures Digits(n, b)[0] == '0' <==> n == 0
    decreases n
  {
    hide Canonical, DigitVal, DigitChar;
    if n < b {
      OneDigit(n, b);
    } else {
      Split(n, b);
      DigitsAreCanonical(n / b, b);
      DigitRoundTrip(n % b);
      DigitAppended(Digits(n / b, b), b, DigitChar(n % b));
    }
  }

  lemma OneDigit(n: nat, b: nat)
    requires n < b <= 36
    ensures Canonical([DigitChar(n)], b) && Positional([DigitChar(n)], b) == n
    ensures DigitChar(n) == '0' <==> n == 0
  {
    assert [DigitChar(n)][..0] == [];
  }

  lemma DigitCharOf(c: char, b: nat)
    requires DigitVal(c) < b <= 36
    ensures DigitChar(DigitVal(c)) == c
  {
  }

  /** It is the only one: every canonical digit string is that of its value. */
  lemma {:induction false} DigitsAreUnique(s: seq<char>, b: nat)
    requires 2 <= b <= 36 && Canonical(s, b)
    ensures Digits(Positional(s, b), b) == s
    decreases |s|
  {
    var c := s[|s|-1];
    DigitCharOf(c, b);
    if |s| == 1 {
      assert s[..0] == [];
      assert s == [c];
    } else {
      var front := s[..|s|-1];
      assert Canonical(front, b);
      DigitsAreUnique(front, b);
      var v := Positional(front, b);
      assert v > 0 by { DigitsAreCanonical(v, b); DigitCharOf(s[0], b); }
      QuotientOf(v, b, DigitVal(c));
      assert s == front + [c];
    }
  }

  lemma QuotientOf(v: nat, b: nat, d: nat)
    requires b > 0 && d < b
    ensures (v * b + d) / b == v && (v * b + d) % b == d
    ensures v > 0 ==> v * b + d >= b
  {
    Bits.ModUnique(v * b + d, b, v, d);
    assert v >= 1 ==> v * b >= b;
  }

  // ----- pow -----

  function Exp(base: int, power: nat): int {
    if power == 0 then 1 else Exp(base, power - 1) * base
  }

  /** Exp is the power: it begins with 1 and the base, and exponents add up. */
  lemma {:induction false} PowersMultiply(base: int, m: nat, n: nat)
    ensures Exp(base, 0) == 1 && Exp(base, 1) == base
    ensures Exp(base, m + n) == Exp(base, m) * Exp(base, n)
  {
    assert Exp(base, 1) == Exp(base, 0) * base;
    if n > 0 {
      PowersMultiply(base, m, n - 1);
      Associative(Exp(base, m), Exp(base, n - 1), base);
    }
  }

  lemma Associative(a: int, b: int, c: int)
    ensures a * b * c == a * (b * c)
  {
  }

  /** pow, for results that fit in 64 bits. */
  method Pow(base: int, power: nat) returns (r: int)
    requires forall k :: 0 <= k <= power ==> -TWO_63 <= Exp(base, k) < TWO_63
    ensures r == Exp(base, power)
  {
    r := 1;
    var i := 0;
    while i < power
      invariant 0 <= i <= power && r == Exp(base, i)
    {
      r := r * base;
      i := i + 1;
    }
  }

  /** Powers of ten. */
  function Ten(power: nat): (r: nat)
    ensures r > 0
  {
    if power == 0 then 1 else 10 * Ten(power - 1)
  }

  lemma {:induction false} ExpIsTen(power: nat)
    ensures Exp(10, power) == Ten(power)
  {
    if power > 0 { ExpIsTen(power - 1); }
  }

  lemma {:induction false} TenGrows(k: nat, n: nat)
    requires k <= n
    ensures Ten(k) <= Ten(n)
    decreases n
  {
    if k < n { TenGrows(k, n - 1); }
  }

  /** Powers of ten up to the 18th fit in 64 bits. */
  lemma ExpTenFits(power: nat)
    requires power <= 18
    ensures forall k :: 0 <= k <= power ==> -TWO_63 <= Exp(10, k) < TWO_63
  {
    assert Ten(3) == 1_000 && Ten(6) == 1_000_000 && Ten(9) == 1_000_000_000;
    assert Ten(12) == 1_000_000_000_000 && Ten(15) == 1_000_000_000_000_000 && Ten(18) == 1_000_000_000_000_000_000;
    forall k | 0 <= k <= power ensures -TWO_63 <= Exp(10, k) < TWO_63 {
      ExpIsTen(k);
      TenGrows(k, 18);
    }
  }

  // ----- atoi -----

  /** Distance of a character from '0'; a char is a signed byte. */
  function Distance(c: char): int { (if c as int < 128 then c as int else c as int - 256) - '0' as int }

  /** Sum of the characters' distances from '0', weighted by position: for a digit string in base
      ten its value. */
  function Weighted(s: seq<char>): int {
    if s == [] then 0 else Weighted(s[..|s|-1]) * 10 + Distance(s[|s|-1])
  }

  /** What atoi makes of a string, digits or not. */
  function AtoiValue(s: seq<char>): int {
    if s != [] && s[0] == '-' then ToInt32(-Weighted(s[1..])) else ToInt32(Weighted(s))
  }

  /** One product of atoi: the difference becomes unsigned, so the product is taken modulo 2^32. */
  function Term(c: char, power: nat): int { Distance(c) * (Ten(power) % TWO_32) % TWO_32 }

  lemma ModMul(x: int, y: nat)
    ensures x * (y % TWO_32) % TWO_32 == x * y % TWO_32
  {
    var q := y / TWO_32;
    assert y == q * TWO_32 + y % TWO_32;
    assert x * y == x * q * TWO_32 + x * (y % TWO_32) by {
      assert x * (q * TWO_32 + y % TWO_32) == x * (q * TWO_32) + x * (y % TWO_32);
      assert x * (q * TWO_32) == x * q * TWO_32;
    }
    ModShift(x * (y % TWO_32), x * q);
  }

  lemma ModShift(x: int, k: int)
    ensures (x + k * TWO_32) % TWO_32 == x % TWO_32
  {
  }

  /** sum is, modulo 2^32, what the first i characters contribute. */
  ghost predicate Partial(s: seq<char>, i: nat, sum: int)
    requires i <= |s|
  {
    sum % TWO_32 == Weighted(s[..i]) * Ten(|s| - i) % TWO_32
  }

  lemma PartialStart(s: seq<char>)
    ensures Partial(s, 0, 0)
  {
    assert s[..0] == [];
  }

  lemma PartialEnd(s: seq<char>, sum: int)
    requires Partial(s, |s|, sum)
    ensures ToInt32(sum) == ToInt32(Weighted(s)) && ToInt32(-sum) == ToInt32(-Weighted(s))
  {
    assert s[..|s|] == s && Ten(0) == 1;
    NegMod(sum, Weighted(s));
  }

  /** Adding one product, modulo 2^32, continues the weighted sum. */
  lemma TermStep(s: seq<char>, i: nat, sum: int)
    requires i < |s| && Partial(s, i, sum)
    ensures Partial(s, i + 1, sum + Term(s[i], |s| - i - 1))
  {
    hide Weighted, Ten;
    var p := Ten(|s| - i - 1);
    var d := Distance(s[i]);
    WeightedStep(s, i);
    ModMul(d, p);
    SumMod(sum, Weighted(s[..i]) * Ten(|s| - i), Term(s[i], |s| - i - 1), d * p);
  }

  lemma WeightedStep(s: seq<char>, i: nat)
    requires i < |s|
    ensures Weighted(s[..i+1]) * Ten(|s| - i - 1)
         == Weighted(s[..i]) * Ten(|s| - i) + Distance(s[i]) * Ten(|s| - i - 1)
  {
    assert s[..i+1][..i] == s[..i];
    AppendDigit(Weighted(s[..i]), Distance(s[i]), Ten(|s| - i - 1));
  }

  lemma AppendDigit(w: int, d: int, p: int)
    ensures (w * 10 + d) * p == w * (10 * p) + d * p
  {
    assert w * 10 * p == w * (10 * p);
  }

  lemma SumMod(a: int, b: int, c: int, d: int)
    requires a % TWO_32 == b % TWO_32 && c % TWO_32 == d % TWO_32
    ensures (a + c) % TWO_32 == (b + d) % TWO_32
  {
  }

  lemma NegMod(a: int, b: int)
    requires a % TWO_32 == b % TWO_32
    ensures (-a) % TWO_32 == (-b) % TWO_32
  {
    var k := a / TWO_32 - b / TWO_32;
    assert -a == -b + (-k) * TWO_32;
    ModShift(-b, -k);
  }

  /** atoi, for up to 19 characters behind the sign: longer strings would need a power of ten that does
      not fit in 64 bits. */
  method Atoi(nptr: seq<char>, ghost t: seq<char>) returns (r: int)
    requires Holds(nptr, t) && (|t| <= 19 || (|t| == 20 && t[0] == '-'))
    ensures r == AtoiValue(t)
  {
    hide Partial, Weighted, Ten, Exp, ToInt32;
    HoldsAt(nptr, t);
    var isNegative := false;
    var returnValue := 0;
    var index := 0;
    ghost var s := t;
    if nptr[index] == '-' {
      isNegative := true;
      index := index + 1;
      s := t[1..];
    }
    ghost var start := index;
    PartialStart(s);
    while nptr[index] != NUL
      invariant start <= index <= |t|
      invariant Partial(s, index - start, returnValue)
      decreases |t| - index
    {
      var length := Strlen(nptr, t);
      var power := length - index - 1;
      ExpTenFits(power);
      ExpIsTen(power);
      var p := Pow(10, power);
      TermStep(s, index - start, returnValue);
      returnValue := returnValue + Distance(nptr[index]) * (p % TWO_32) % TWO_32;
      index := index + 1;
    }
    PartialEnd(s, returnValue);
    if isNegative {
      returnValue := -returnValue;
    }
    r := ToInt32(returnValue);
  }

  // ----- itoa -----

  /** The quotient and remainder of C, which truncate toward zero. */
  function CDiv(x: int, d: nat): int
    requires d > 0
  {
    if x >= 0 then x / d else 0 - (-x) / d
  }

  function CMod(x: int, d: nat): int
    requires d > 0
  {
    if x >= 0 then x % d else 0 - (-x) % d
  }

  /** The character that itoa stores for a remainder, which is negative for a negative number. */
  function DigitOrNot(d: int): char
    requires -10 < d < 36
  {
    if d < 10 then ('0' as int + d) as char else ('a' as int + (d - 10)) as char
  }

  /** What itoa leaves of a negative number in base ten: below '0' where the digits should be. */
  function NegDigits(n: nat): (r: seq<char>)
    ensures |r| >= 1
  {
    if n < 10 then [DigitOrNot(0 - n)] else NegDigits(n / 10) + [DigitOrNot(0 - n % 10)]
  }

  /** The text itoa makes: digits, or for a negative number in base ten its garbled digits with the
      sign at the wrong end. */
  function ItoaText(value: int, base: nat): seq<char>
    requires 2 <= base <= 36
  {
    if value >= 0 then Digits(value, base) else NegDigits(-value) + ['-']
  }

  function Magnitude(value: int, base: nat): seq<char>
    requires 2 <= base <= 36
  {
    if value >= 0 then Digits(value, base) else NegDigits(-value)
  }

  /** One round of the loop: the last digit goes to the front of the reversed text. */
  lemma DigitStep(value: int, base: nat)
    requires 2 <= base <= 36 && (value >= 0 || base == 10)
    ensures -10 < CMod(value, base) < 36
    ensures var q := CDiv(value, base);
      && (q >= 0 || base == 10) && (value >= 0 ==> q >= 0) && (value < 0 ==> q <= 0)
      && (value != 0 ==> Abs(q) < Abs(value)) && (value == 0 ==> q == 0)
      && Magnitude(value, base) == (if q == 0 then [] else Magnitude(q, base)) + [DigitOrNot(CMod(value, base))]
  {
    if value < 0 {
      NegStep(-value);
    } else if value < base {
      Bits.ModUnique(value, base, 0, value);
      assert Digits(value, base) == [] + [DigitChar(value)];
    } else {
      Split(value, base);
    }
  }

  lemma NegStep(n: nat)
    requires n > 0
    ensures NegDigits(n) == (if n / 10 == 0 then [] else NegDigits(n / 10)) + [DigitOrNot(0 - n % 10)]
  {
    if n < 10 {
      assert NegDigits(n) == [] + [DigitOrNot(0 - n)];
    }
  }

  function Abs(x: int): nat { if x < 0 then -x else x }

  lemma {:induction false} NegDigitsNoNul(n: nat)
    ensures NUL !in NegDigits(n)
  {
    if n >= 10 { NegDigitsNoNul(n / 10); }
  }

  lemma DigitsNoNul(n: nat, b: nat)
    requires 2 <= b <= 36
    ensures NUL !in Digits(n, b)
  {
    DigitsAreCanonical(n, b);
  }

  /** itoa, for any number in base ten and for non-negative numbers in other bases. */
  method Itoa(value: int, str: array<char>, base: nat)
    requires -TWO_63 <= value < TWO_63 && 2 <= base <= 36 && (value >= 0 || base == 10)
    requires |ItoaText(value, base)| < str.Length
    modifies str
    ensures str[..] == ItoaText(value, base) + [NUL] + old(str[..])[|ItoaText(value, base)| + 1..]
  {
    hide *;
    ghost var t := ItoaText(value, base);
    ghost var was := str[..];
    ItoaStart(value, base);
    NothingStored(was);
    var index := 0;
    var v := value;
    ghost var done: seq<char> := [];
    if v < 0 {
      StoreAt(str, index, '-', done, was);
      index := index + 1;
      v := v * 1;
      assert done + ['-'] == ['-'];
      done := ['-'];
    }
    while true
      invariant 0 <= index == |done| && Unfinished(t, v, base, done) && Stored(str[..], done, was)
      decreases Abs(v)
    {
      v, done := PushDigit(v, base, str, index, t, done, was);
      index := index + 1;
      if v == 0 { break; }
    }
    ItoaNoNul(value, base, done);
    Finish(str, index, done, was);
  }

  /** The digits of v are still missing from t; the rest is stored, reversed. */
  ghost predicate Unfinished(t: seq<char>, v: int, base: nat, done: seq<char>) {
    && 2 <= base <= 36 && (v >= 0 || base == 10)
    && |done| < |t| && t == Magnitude(v, base) + Reversed(done)
  }

  /** One round of the loop: store the last digit and go on with the quotient. */
  method PushDigit(v: int, base: nat, str: array<char>, index: nat,
                   ghost t: seq<char>, ghost done: seq<char>, ghost was: seq<char>)
    returns (q: int, ghost done': seq<char>)
    requires Unfinished(t, v, base, done) && Stored(str[..], done, was) && index == |done| && |t| < str.Length
    modifies str
    ensures Stored(str[..], done', was) && |done'| == |done| + 1 && done' != []
    ensures if q == 0 then t == Reversed(done') else Unfinished(t, q, base, done')
    ensures v != 0 ==> Abs(q) < Abs(v)
    ensures v == 0 ==> q == 0
  {
    hide Magnitude, Reversed, CDiv, CMod, DigitOrNot, Stored;
    DigitStep(v, base);
    var digit := CMod(v, base);
    CharOf(digit);
    var c := if digit < 10 then ('0' as int + digit) as char else ('a' as int + (digit - 10)) as char;
    StoreAt(str, index, c, done, was);
    MoreDone(t, v, base, done, c);
    done' := done + [c];
    q := CDiv(v, base);
  }

  lemma ItoaStart(value: int, base: nat)
    requires 2 <= base <= 36 && (value >= 0 || base == 10)
    ensures Unfinished(ItoaText(value, base), value, base, if value < 0 then ['-'] else [])
  {
    assert Reversed(['-']) == Reversed([]) + ['-'];
  }

  /** The buffer begins with `done` and is otherwise as it was. */
  ghost predicate Stored(s: seq<char>, done: seq<char>, was: seq<char>) {
    |s| == |was| && |done| <= |was| && s == done + was[|done|..]
  }

  /** Store one character behind those stored already. */
  method StoreAt(str: array<char>, index: nat, c: char, ghost done: seq<char>, ghost was: seq<char>)
    requires index == |done| < str.Length && Stored(str[..], done, was)
    modifies str
    ensures Stored(str[..], done + [c], was)
  {
    ghost var before := str[..];
    str[index] := c;
    assert str[..] == before[index := c];
  }

  /** End the text and turn it round. */
  method Finish(str: array<char>, index: nat, ghost done: seq<char>, ghost was: seq<char>)
    requires index == |done| < str.Length && Stored(str[..], done, was) && NUL !in done && done != []
    modifies str
    ensures str[..] == Reversed(done) + [NUL] + was[|done| + 1..]
  {
    hide Reversed;
    StoreAt(str, index, NUL, done, was);
    assert str[..] == done + [NUL] + was[index + 1..];
    Strrev(str, done);
  }

  lemma NothingStored(s: seq<char>)
    ensures Stored(s, [], s)
  {
  }

  lemma MoreDone(t: seq<char>, v: int, base: nat, done: seq<char>, c: char)
    requires 2 <= base <= 36 && (v >= 0 || base == 10)
    requires t == Magnitude(v, base) + Reversed(done) && -10 < CMod(v, base) < 36 && c == DigitOrNot(CMod(v, base))
    ensures var q := CDiv(v, base);
      && t == (if q == 0 then Reversed(done + [c]) else Magnitude(q, base) + Reversed(done + [c]))
      && (q != 0 ==> |done| + 1 < |t|) && |done| + 1 <= |t|
  {
    hide *;
    DigitStep(v, base);
    var q := CDiv(v, base);
    MagnitudeNotEmpty(q, base);
    DoneStep(if q == 0 then [] else Magnitude(q, base), Magnitude(v, base), done, c);
    assert [] + Reversed(done + [c]) == Reversed(done + [c]);
  }

  lemma DoneStep(front: seq<char>, whole: seq<char>, done: seq<char>, c: char)
    requires whole == front + [c]
    ensures whole + Reversed(done) == front + Reversed(done + [c])
    ensures |done| + 1 <= |whole + Reversed(done)| && (|front| >= 1 ==> |done| + 1 < |whole + Reversed(done)|)
  {
    ReversedPrepend(done, c);
  }

  lemma MagnitudeNotEmpty(v: int, base: nat)
    requires 2 <= base <= 36
    ensures |Magnitude(v, base)| >= 1
  {
  }

  lemma ItoaNoNul(value: int, base: nat, done: seq<char>)
    requires 2 <= base <= 36 && ItoaText(value, base) == Reversed(done)
    ensures NUL !in done && NUL !in ItoaText(value, base) && done != []
  {
    if value >= 0 { DigitsNoNul(value, base); } else { NegDigitsNoNul(-value); }
    ReversedMembers(done, NUL);
  }

  lemma CharOf(d: int)
    requires -10 < d < 36
    ensures DigitOrNot(d) == if d < 10 then ('0' as int + d) as char else ('a' as int + (d - 10)) as char
  {
  }
}
