/** Bitwise operations of unsigned words, on natural numbers. */
module Bits {
  function Pow2(n: nat): (r: nat)
    ensures r > 0
  {
    if n == 0 then 1 else 2 * Pow2(n - 1)
  }

  /** Bit k of x is set. */
  predicate Bit(x: nat, k: nat) {
    if k == 0 then x % 2 == 1 else Bit(x / 2, k - 1)
  }

  function And(x: nat, y: nat): nat
    decreases x
  {
    if x == 0 then 0 else 2 * And(x / 2, y / 2) + (if x % 2 == 1 && y % 2 == 1 then 1 else 0)
  }

  function Or(x: nat, y: nat): nat
    decreases x + y
  {
    if x == 0 && y == 0 then 0 else 2 * Or(x / 2, y / 2) + (if x % 2 == 1 || y % 2 == 1 then 1 else 0)
  }

  function Shl(x: nat, n: nat): nat { if n == 0 then x else 2 * Shl(x, n - 1) }

  function Shr(x: nat, n: nat): nat { if n == 0 then x else Shr(x / 2, n - 1) }

  // ----- Bit by bit -----

  lemma {:induction false} AndBit(x: nat, y: nat, k: nat)
    ensures Bit(And(x, y), k) <==> Bit(x, k) && Bit(y, k)
    decreases k
  {
    if x == 0 {
      ZeroBit(k);
    } else if k > 0 {
      AndBit(x / 2, y / 2, k - 1);
    }
  }

  lemma {:induction false} OrBit(x: nat, y: nat, k: nat)
    ensures Bit(Or(x, y), k) <==> Bit(x, k) || Bit(y, k)
    decreases k
  {
    if x == 0 && y == 0 {
      ZeroBit(k);
    } else if k > 0 {
      OrBit(x / 2, y / 2, k - 1);
    }
  }

  lemma {:induction false} ZeroBit(k: nat)
    ensures !Bit(0, k)
  {
    if k > 0 { ZeroBit(k - 1); }
  }

  lemma {:induction false} PowBit(n: nat, k: nat)
    ensures Bit(Pow2(n), k) <==> k == n
    decreases n + k
  {
    if n == 0 {
      if k > 0 { ZeroBit(k - 1); }
    } else if k > 0 {
      PowBit(n - 1, k - 1);
    }
  }

  /** Every set bit of a number below 2^n lies below n. */
  lemma {:induction false} HighBitsClear(x: nat, n: nat, k: nat)
    requires x < Pow2(n) && n <= k
    ensures !Bit(x, k)
    decreases k
  {
    if n == 0 {
      ZeroBit(k);
    } else {
      HighBitsClear(x / 2, n - 1, k - 1);
    }
  }

  /** Bits below n of 2^n - 1 - m, the complement of m in n bits. */
  lemma {:induction false} ComplementBit(n: nat, m: nat, k: nat)
    requires m < Pow2(n) && k < n
    ensures Bit(Pow2(n) - 1 - m, k) <==> !Bit(m, k)
    decreases n
  {
    Halved(Pow2(n - 1), m);
    if k > 0 {
      ComplementBit(n - 1, m / 2, k - 1);
    }
  }

  lemma Halved(p: nat, m: nat)
    requires m < 2 * p
    ensures m / 2 < p && (2 * p - 1 - m) / 2 == p - 1 - m / 2
    ensures (2 * p - 1 - m) % 2 == 1 - m % 2
  {
  }

  lemma {:induction false} SomeBit(x: nat) returns (k: nat)
    requires x != 0
    ensures Bit(x, k)
    decreases x
  {
    if x % 2 == 1 {
      k := 0;
    } else {
      k := SomeBit(x / 2);
      k := k + 1;
    }
  }

  /** Testing one bit with a mask. */
  lemma MaskTests(x: nat, n: nat)
    ensures And(x, Pow2(n)) != 0 <==> Bit(x, n)
  {
    if And(x, Pow2(n)) != 0 {
      var k := SomeBit(And(x, Pow2(n)));
      AndBit(x, Pow2(n), k);
      PowBit(n, k);
    }
    if Bit(x, n) {
      AndBit(x, Pow2(n), n);
      PowBit(n, n);
      ZeroBit(n);
    }
  }

  // ----- Sizes -----

  lemma {:induction false} AndBound(x: nat, y: nat)
    ensures And(x, y) <= x && And(x, y) <= y
    decreases x
  {
    if x != 0 { AndBound(x / 2, y / 2); }
  }

  lemma {:induction false} OrBound(x: nat, y: nat, n: nat)
    requires x < Pow2(n) && y < Pow2(n)
    ensures Or(x, y) < Pow2(n)
    decreases n
  {
    if n > 0 { OrBound(x / 2, y / 2, n - 1); }
  }

  // ----- Fields -----

  /** x & (2^n - 1) is the remainder of x by 2^n. */
  lemma {:induction false} LowMask(x: nat, n: nat)
    ensures And(x, Pow2(n) - 1) == x % Pow2(n)
    decreases n
  {
    if n == 0 {
      AndBound(x, 0);
    } else {
      LowMask(x / 2, n - 1);
      assert (Pow2(n) - 1) / 2 == Pow2(n - 1) - 1;
      ModTwice(x, Pow2(n - 1));
    }
  }

  lemma ModTwice(x: nat, m: nat)
    requires m > 0
    ensures x % (2 * m) == 2 * (x / 2 % m) + x % 2
  {
    var q, r := x / 2 / m, x / 2 % m;
    assert x / 2 == q * m + r;
    assert x == 2 * (x / 2) + x % 2;
    var s := 2 * r + x % 2;
    assert x == q * (2 * m) + s by { assert 2 * (q * m) == q * (2 * m); }
    assert 0 <= s < 2 * m;
    ModUnique(x, 2 * m, q, s);
  }

  lemma ModUnique(x: nat, d: nat, q: nat, r: nat)
    requires d > 0 && x == q * d + r && r < d
    ensures x / d == q && x % d == r
  {
    var q', r' := x / d, x % d;
    assert x == q' * d + r';
    assert q' + 1 <= q ==> (q' + 1) * d <= q * d;
    assert q + 1 <= q' ==> (q + 1) * d <= q' * d;
  }

  /** A mask whose n low bits are clear only sees the part of x above them. */
  lemma {:induction false} HighMask(x: nat, y: nat, n: nat)
    ensures And(x, Shl(y, n)) == Shl(And(Shr(x, n), y), n)
    decreases n
  {
    if n > 0 {
      HighMask(x / 2, y, n - 1);
      if x == 0 { ZeroShifts(y, n); }
    }
  }

  lemma {:induction false} ZeroShifts(y: nat, n: nat)
    ensures Shr(0, n) == 0 && Shl(0, n) == 0 && And(0, y) == 0
  {
    if n > 0 { ZeroShifts(y, n - 1); }
  }

  /** Shifting right divides. */
  lemma {:induction false} ShrDivides(x: nat, n: nat)
    ensures Shr(x, n) == x / Pow2(n)
    decreases n
  {
    if n > 0 {
      ShrDivides(x / 2, n - 1);
      DivTwice(x, Pow2(n - 1));
    }
  }

  lemma {:induction false} ShlMultiplies(x: nat, n: nat)
    ensures Shl(x, n) == x * Pow2(n)
  {
    if n > 0 {
      ShlMultiplies(x, n - 1);
      assert x * (2 * Pow2(n - 1)) == 2 * (x * Pow2(n - 1));
    }
  }

  lemma DivTwice(x: nat, m: nat)
    requires m > 0
    ensures x / (2 * m) == x / 2 / m
  {
    var q, r := x / 2 / m, x / 2 % m;
    assert x / 2 == q * m + r;
    assert x == q * (2 * m) + (2 * r + x % 2) by { assert 2 * (q * m) == q * (2 * m); }
    ModUnique(x, 2 * m, q, 2 * r + x % 2);
  }

  lemma {:induction false} ShrShl(x: nat, n: nat)
    ensures Shr(Shl(x, n), n) == x
  {
    if n > 0 { ShrShl(x, n - 1); }
  }

  /** Masking w bits at position n and shifting them down selects that field. */
  lemma Field(x: nat, w: nat, n: nat)
    ensures Shr(And(x, Shl(Pow2(w) - 1, n)), n) == x / Pow2(n) % Pow2(w)
  {
    HighMask(x, Pow2(w) - 1, n);
    ShrShl(And(Shr(x, n), Pow2(w) - 1), n);
    LowMask(Shr(x, n), w);
    ShrDivides(x, n);
  }

  /** Or-ing flags below bit n into a number whose low n bits are clear adds them. */
  lemma {:induction false} OrLow(x: nat, f: nat, n: nat)
    requires f < Pow2(n)
    ensures Or(Shl(x, n), f) == Shl(x, n) + f
    decreases n
  {
    if n == 0 {
      OrZero(x);
    } else {
      OrLow(x, f / 2, n - 1);
    }
  }

  lemma {:induction false} OrZero(x: nat)
    ensures Or(x, 0) == x
    decreases x
  {
    if x != 0 { OrZero(x / 2); }
  }

  // ----- Quotients -----

  lemma Associate(q: nat, b: nat, a: nat)
    ensures q * b * a == q * (a * b)
  {
  }

  lemma DistributeSum(x: nat, y: nat, a: nat)
    ensures (x + y) * a == x * a + y * a
  {
  }

  lemma Monotone(x: nat, y: nat, a: nat)
    requires x <= y
    ensures x * a <= y * a
  {
  }

  lemma Spread(q: nat, r: nat, s: nat, a: nat, b: nat)
    requires r < b && s < a
    ensures (q * b + r) * a + s == q * (a * b) + (r * a + s) && r * a + s < a * b
  {
    DistributeSum(q * b, r, a);
    Associate(q, b, a);
    Monotone(r + 1, b, a);
    DistributeSum(r, 1, a);
    Associate(1, b, a);
  }

  /** Division taken apart. */
  lemma Divided(x: nat, d: nat)
    requires d > 0
    ensures x == x / d * d + x % d && x % d < d
  {
  }

  /** Remainders by a product keep the quotient and the remainder by a factor. */
  lemma DivOfMod(x: nat, a: nat, b: nat)
    requires a > 0 && b > 0
    ensures a * b > 0
    ensures x / (a * b) == x / a / b
    ensures x % (a * b) / a == x / a % b
    ensures x % (a * b) % a == x % a
  {
    var q, r, s := x / a / b, x / a % b, x % a;
    Divided(x, a);
    Divided(x / a, b);
    Spread(q, r, s, a, b);
    ModUnique(x, a * b, q, r * a + s);
    ModUnique(r * a + s, a, r, s);
  }
}
