/** libc/stdio.c: vsnprintf. */
module Format {
  import opened Words
  import opened Bits
  import opened CString
  import opened Numbers
  import opened NumberLaws

  /** A variable argument, by the type it was passed with. */
  datatype Arg = Text(s: seq<char>) | Number(n: int) | Character(c: char)

  const NBR_SIZE: nat := 64

  predicate IsDigit(c: char) { '0' <= c <= '9' }

  /** How many decimal digits a text begins with. */
  function Lead(f: seq<char>): (k: nat)
    ensures k <= |f|
    ensures forall i :: 0 <= i < k ==> IsDigit(f[i])
    ensures k < |f| ==> !IsDigit(f[k])
  {
    if f == [] || !IsDigit(f[0]) then 0 else 1 + Lead(f[1..])
  }

  /** Base of a numeric conversion; 0 for other characters. */
  function BaseOf(c: char): nat { if c == 'd' then 10 else if c == 'x' then 16 else if c == 'b' then 2 else 0 }

  /** Numbers that the conversion can print: 64 bits wide, negative only in base ten. */
  predicate Printable(n: int, base: nat) {
    2 <= base <= 36 && -TWO_63 <= n < TWO_63 && (n >= 0 || base == 10)
  }

  function Zeros(n: nat): (r: seq<char>)
    ensures |r| == n && forall i :: 0 <= i < n ==> r[i] == '0'
  {
    if n == 0 then [] else Zeros(n - 1) + ['0']
  }

  /** Zeros that the padding loop writes before a number of the given length.  The loop subtracts
      without sign, so a width that is too small makes it write as many zeros as the width says. */
  function ZeroCount(width: nat, length: nat): nat {
    if width == 0 then 0 else if width >= length then width - length else width
  }

  function Field(n: int, base: nat, width: nat): seq<char>
    requires Printable(n, base)
  {
    Zeros(ZeroCount(width, |ItoaText(n, base)|)) + ItoaText(n, base)
  }

  function Prepend(s: seq<char>, r: Option<seq<char>>): Option<seq<char>> {
    if r == None then None else Some(s + r.value)
  }

  /** What is printed for the rest of a format, given whether a percent sign is pending and the
      width read so far; none if the arguments do not fit the format. */
  function Interp(f: seq<char>, args: seq<Arg>, parsing: bool, width: nat): Option<seq<char>>
    decreases |f|
  {
    if f == [] then Some([])
    else if f[0] == '%' then Interp(f[1..], args, true, width)
    else if !parsing then Prepend([f[0]], Interp(f[1..], args, false, width))
    else if f[0] == '0' then
      var k := Lead(f[1..]);
      if k > 19 || AtoiValue(f[1..1+k]) < 0 then None else Interp(f[1+k..], args, true, AtoiValue(f[1..1+k]))
    else if f[0] == 's' then
      if args == [] || !args[0].Text? || NUL in args[0].s then None
      else Prepend(args[0].s, Interp(f[1..], args[1..], false, width))
    else if BaseOf(f[0]) != 0 then
      if args == [] || !args[0].Number? || !Printable(args[0].n, BaseOf(f[0])) then None
      else Prepend(Field(args[0].n, BaseOf(f[0]), width), Interp(f[1..], args[1..], false, 0))
    else if f[0] == 'c' then
      if args == [] || !args[0].Character? || args[0].c == NUL then None
      else Prepend([args[0].c], Interp(f[1..], args[1..], false, width))
    else Interp(f[1..], args, false, width)
  }

  // ----- Lengths -----

  lemma {:induction false} LengthInBase(n: nat, b: nat, k: nat)
    requires 2 <= b <= 36 && k >= 1 && n < Pow2(k)
    ensures |Digits(n, b)| <= k
    decreases n
  {
    assert Pow2(1) == 2 * Pow2(0) == 2;
    if n >= b {
      Split(n, b);
      HalfAtMost(n, b);
      LengthInBase(n / b, b, k - 1);
    }
  }

  lemma HalfAtMost(n: nat, b: nat)
    requires b >= 2
    ensures n / b <= n / 2
  {
    assert n / b * b <= n;
    assert n / b * 2 <= n / b * b;
  }

  lemma {:induction false} NegLength(n: nat)
    ensures |NegDigits(n)| == |Digits(n, 10)|
    decreases n
  {
    if n >= 10 { NegLength(n / 10); }
  }

  lemma TwoTo63()
    ensures Pow2(63) == TWO_63
  {
    assert Pow2(9) == 512 && Pow2(18) == 512 * 512 && Pow2(27) == 512 * 512 * 512;
    assert Pow2(36) == 0x10_0000_0000 && Pow2(45) == 0x2000_0000_0000 && Pow2(54) == 0x40_0000_0000_0000;
    assert Pow2(63) == 512 * Pow2(54);
  }

  lemma NegFits(n: nat)
    requires n <= TWO_63
    ensures |NegDigits(n)| <= 19 && NUL !in NegDigits(n)
  {
    hide NegDigits;
    TenTo19();
    DigitsLength(n, 19);
    NegLength(n);
    NegDigitsNoNul(n);
  }

  lemma TenTo19()
    ensures Ten(19) > TWO_63
  {
    assert Ten(3) == 1_000 && Ten(6) == 1_000_000 && Ten(9) == 1_000_000_000;
    assert Ten(12) == 1_000_000_000_000 && Ten(15) == 1_000_000_000_000_000 && Ten(18) == 1_000_000_000_000_000_000;
    assert Ten(19) == 10 * Ten(18);
  }

  /** Every number that can be printed fits the 64-character buffer. */
  lemma TextFits(n: int, base: nat)
    requires Printable(n, base)
    ensures 1 <= |ItoaText(n, base)| < NBR_SIZE && NUL !in ItoaText(n, base)
  {
    hide Digits, NegDigits, Pow2;
    if n >= 0 {
      TwoTo63();
      LengthInBase(n, base, 63);
      DigitsNoNul(n, base);
    } else {
      NegFits(-n);
    }
  }

  // ----- The output buffer -----

  /** The buffer begins with `out` and holds NULs behind it: the next character can be stored
      directly, and strlen finds its place too. */
  ghost predicate Written(s: seq<char>, out: seq<char>) {
    && |out| < |s| && NUL !in out && s[..|out|] == out
    && forall i :: |out| <= i < |s| ==> s[i] == NUL
  }

  lemma WrittenHolds(s: seq<char>, out: seq<char>)
    requires Written(s, out)
    ensures Holds(s, out)
  {
  }

  /** str[ptr++] = c. */
  method PutChar(str: array<char>, ptr: nat, c: char, ghost out: seq<char>) returns (next: nat)
    requires Written(str[..], out) && ptr == |out| && |out| + 1 < str.Length && c != NUL
    modifies str
    ensures Written(str[..], out + [c]) && next == ptr + 1
  {
    ghost var before := str[..];
    str[ptr] := c;
    assert str[..] == before[ptr := c];
    next := ptr + 1;
  }

  /** ptr += strlen(s); strcat(str, s). */
  method PutText(str: array<char>, ptr: nat, src: seq<char>, ghost out: seq<char>, ghost t: seq<char>)
    returns (next: nat)
    requires Written(str[..], out) && ptr == |out| && Holds(src, t) && |out| + |t| < str.Length
    modifies str
    ensures Written(str[..], out + t) && next == ptr + |t|
  {
    WrittenHolds(str[..], out);
    var n := Strlen(src, t);
    next := ptr + n;
    Strcat(str, src, out, t);
  }

  /** A numeric conversion: the number's text in nbr, zeros up to the width, then the text. */
  method PutNumber(str: array<char>, nbr: array<char>, ptr: nat, n: int, base: nat, width: nat, ghost out: seq<char>)
    returns (next: nat)
    requires Written(str[..], out) && ptr == |out| && Printable(n, base) && width < TWO_64
    requires |out| + |Field(n, base, width)| < str.Length && nbr.Length == NBR_SIZE && nbr != str
    modifies str, nbr
    ensures Written(str[..], out + Field(n, base, width)) && next == ptr + |Field(n, base, width)|
  {
    hide Written, ItoaText;
    ghost var t := ItoaText(n, base);
    TextFits(n, base);
    Itoa(n, nbr, base);
    assert Holds(nbr[..], t);
    var padding: int := width;
    next := ptr;
    ghost var done := 0;
    assert out + Zeros(0) == out;
    var length := Strlen(nbr[..], t);
    while padding != 0 && Unsigned(padding - length) > 0
      invariant 0 <= padding <= width && done + ZeroCount(padding, |t|) == ZeroCount(width, |t|) && length == |t|
      invariant next == ptr + done && Written(str[..], out + Zeros(done)) && Holds(nbr[..], t)
      decreases padding
    {
      next := PutChar(str, next, '0', out + Zeros(done));
      assert out + Zeros(done) + ['0'] == out + Zeros(done + 1);
      padding := padding - 1;
      done := done + 1;
    }
    next := PutText(str, next, nbr[..], out + Zeros(done), t);
    assert done == ZeroCount(width, |t|);
    assert out + Zeros(done) + t == out + (Zeros(done) + t);
  }

  /** Digits counted one by one end where Lead says. */
  lemma LeadEnds(f: seq<char>, i: nat)
    requires i <= Lead(f) && (i < |f| ==> !IsDigit(f[i]))
    ensures i == Lead(f)
  {
  }

  /** The digits behind a '0' flag go to a buffer of their own and are read by atoi. */
  method ReadWidth(fmt: seq<char>, from: nat, paddingStr: array<char>, ghost t: seq<char>)
    returns (f: nat, padding: int)
    requires Holds(fmt, t) && from <= |t| && paddingStr.Length == NBR_SIZE
    requires Lead(t[from..]) <= 19
    modifies paddingStr
    ensures f == from + Lead(t[from..]) && padding == AtoiValue(t[from..f])
  {
    hide AtoiValue, Lead;
    HoldsAt(fmt, t);
    ghost var k := Lead(t[from..]);
    f := from;
    var i := 0;
    while '0' <= fmt[f] <= '9'
      invariant f == from + i && i <= k
      invariant forall j :: 0 <= j < i ==> paddingStr[j] == t[from + j]
      decreases |t| - f
    {
      assert f < |t| ==> (t[from..][i] == t[f]);
      paddingStr[i] := fmt[f];
      i := i + 1;
      f := f + 1;
    }
    assert i == k by { LeadEnds(t[from..], i); }
    paddingStr[i] := NUL;
    assert paddingStr[..][..i] == t[from..f];
    padding := Atoi(paddingStr[..], t[from..f]);
  }

  /** vsnprintf.  The format must fit the arguments, the buffer be filled with NULs, and the result
      fit it. */
  method Vsnprintf(str: array<char>, size: nat, fmt: seq<char>, args: seq<Arg>, ghost t: seq<char>) returns (r: int)
    requires Holds(fmt, t) && Interp(t, args, false, 0).Some?
    requires |Interp(t, args, false, 0).value| <= size && |Interp(t, args, false, 0).value| < str.Length
    requires Written(str[..], [])
    modifies str
    ensures r == 0 && Written(str[..], Interp(t, args, false, 0).value)
    ensures Holds(str[..], Interp(t, args, false, 0).value)
  {
    hide Written, AtoiValue, Field, Lead, Printable, Going, Interp;
    HoldsAt(fmt, t);
    ghost var full := Interp(t, args, false, 0).value;
    ghost var out: seq<char> := [];
    var nbr := new char[NBR_SIZE](_ => NUL);
    var paddingStr := new char[NBR_SIZE](_ => NUL);
    var padding: int := 0;
    var isParsing := false;
    var ptr := 0;
    var f, a := 0, 0;
    GoStart(t, args);
    while fmt[f] != NUL || ptr > size
      invariant f <= |t| && a <= |args| && 0 <= padding < TWO_31 && ptr == |out| <= |full|
      invariant Written(str[..], out) && Going(t, args, f, a, isParsing, padding, out, full)
      decreases |t| - f
    {
      Memset(nbr, NUL, NBR_SIZE);
      GoOn(t, args, f, a, isParsing, padding, out, full);
      if fmt[f] == '%' {
        isParsing := true;
        f := f + 1;
        continue;
      }
      if isParsing {
        // A second percent sign never gets here: the test above takes it.
        isParsing := false;
        if fmt[f] == '0' {
          f, padding := ReadWidth(fmt, f + 1, paddingStr, t);
          WidthIsSmall(t, f);
          isParsing := true;
          continue;
        } else if fmt[f] == 's' {
          TextHolds(args[a].s);
          ptr := PutText(str, ptr, args[a].s + [NUL], out, args[a].s);
          out := out + args[a].s;
          a := a + 1;
        } else if fmt[f] == 'd' {
          ptr := PutNumber(str, nbr, ptr, args[a].n, 10, padding, out);
          out := out + Field(args[a].n, 10, padding);
          padding := 0;
          a := a + 1;
        } else if fmt[f] == 'x' {
          ptr := PutNumber(str, nbr, ptr, args[a].n, 16, padding, out);
          out := out + Field(args[a].n, 16, padding);
          padding := 0;
          a := a + 1;
        } else if fmt[f] == 'b' {
          ptr := PutNumber(str, nbr, ptr, args[a].n, 2, padding, out);
          out := out + Field(args[a].n, 2, padding);
          padding := 0;
          a := a + 1;
        } else if fmt[f] == 'c' {
          ptr := PutChar(str, ptr, args[a].c, out);
          out := out + [args[a].c];
          a := a + 1;
        }
      } else {
        ptr := PutChar(str, ptr, fmt[f], out);
        out := out + [fmt[f]];
      }
      f := f + 1;
    }
    GoEnd(t, args, f, a, isParsing, padding, out, full);
    WrittenHolds(str[..], out);
    r := 0;
  }

  /** What is written so far and what the rest of the format prints make up the whole. */
  ghost predicate Going(t: seq<char>, args: seq<Arg>, f: nat, a: nat, parsing: bool, width: int,
                        out: seq<char>, full: seq<char>)
  {
    && f <= |t| && a <= |args| && width >= 0 && |out| <= |full|
    && Interp(t[f..], args[a..], parsing, width).Some?
    && out + Interp(t[f..], args[a..], parsing, width).value == full
  }

  lemma GoStart(t: seq<char>, args: seq<Arg>)
    requires Interp(t, args, false, 0).Some?
    ensures Going(t, args, 0, 0, false, 0, [], Interp(t, args, false, 0).value)
  {
    assert t[0..] == t && args[0..] == args;
  }

  lemma GoEnd(t: seq<char>, args: seq<Arg>, f: nat, a: nat, parsing: bool, width: int, out: seq<char>, full: seq<char>)
    requires Going(t, args, f, a, parsing, width, out, full) && f == |t|
    ensures out == full
  {
    assert t[f..] == [];
  }

  /** One character of the format: what the loop may rely on, and where it stands afterwards. */
  lemma GoOn(t: seq<char>, args: seq<Arg>, f: nat, a: nat, parsing: bool, width: int, out: seq<char>, full: seq<char>)
    requires Going(t, args, f, a, parsing, width, out, full) && f < |t|
    ensures var c := t[f];
      if c == '%' then Going(t, args, f + 1, a, true, width, out, full)
      else if !parsing then Going(t, args, f + 1, a, false, width, out + [c], full) && |out| + 1 <= |full|
      else if c == '0' then
        var k := Lead(t[f+1..]);
        k <= 19 && f + 1 + k <= |t| && AtoiValue(t[f+1..f+1+k]) >= 0
        && Going(t, args, f + 1 + k, a, true, AtoiValue(t[f+1..f+1+k]), out, full)
      else if c == 's' then
        a < |args| && args[a].Text? && NUL !in args[a].s && |out| + |args[a].s| <= |full|
        && Going(t, args, f + 1, a + 1, false, width, out + args[a].s, full)
      else if BaseOf(c) != 0 then
        a < |args| && args[a].Number? && Printable(args[a].n, BaseOf(c))
        && |out| + |Field(args[a].n, BaseOf(c), width)| <= |full|
        && Going(t, args, f + 1, a + 1, false, 0, out + Field(args[a].n, BaseOf(c), width), full)
      else if c == 'c' then
        a < |args| && args[a].Character? && args[a].c != NUL && |out| + 1 <= |full|
        && Going(t, args, f + 1, a + 1, false, width, out + [args[a].c], full)
      else Going(t, args, f + 1, a, false, width, out, full)
    ensures BaseOf('d') == 10 && BaseOf('x') == 16 && BaseOf('b') == 2 && BaseOf('c') == 0
  {
    hide Field, AtoiValue, Printable, Lead;
    var rest, more := t[f..], args[a..];
    assert rest[1..] == t[f+1..];
    if a < |args| { assert more[0] == args[a] && more[1..] == args[a+1..]; }
    var k := Lead(rest[1..]);
    if k <= |rest[1..]| {
      assert rest[1..1+k] == t[f+1..f+1+k] && rest[1+k..] == t[f+1+k..];
    }
  }

  lemma TextHolds(s: seq<char>)
    requires NUL !in s
    ensures Holds(s + [NUL], s)
  {
  }

  lemma WidthIsSmall(t: seq<char>, f: nat)
    requires f <= |t|
    ensures forall g :: 0 <= g <= f ==> AtoiValue(t[g..f]) < TWO_31
  {
  }

  /** Subtraction of sizes wraps below zero. */
  function Unsigned(x: int): int { x % TWO_64 }
}
