/** What vsnprintf prints, item by item. */
module FormatLaws {
  import opened Words
  import opened CString
  import opened Numbers
  import opened NumberLaws
  import opened Format

  /** What a format is made of: characters to print, and conversions, each with the width that is
      written in it, if any. */
  datatype Item =
    | Literal(c: char)
    | TextItem(width: Option<nat>)
    | NumberItem(conversion: char, width: Option<nat>)
    | CharItem(width: Option<nat>)
    | UnknownItem(c: char, width: Option<nat>)

  /** The character that ends a conversion. */
  function Ending(it: Item): char
    requires !it.Literal?
  {
    if it.TextItem? then 's' else if it.NumberItem? then it.conversion else if it.CharItem? then 'c' else it.c
  }

  predicate ValidItem(it: Item) {
    && (it.Literal? ==> it.c != '%' && it.c != NUL)
    && (it.NumberItem? ==> BaseOf(it.conversion) != 0)
    && (it.UnknownItem? ==> it.c !in ['%', NUL, '0', 's', 'c'] && BaseOf(it.c) == 0)
    && (it.UnknownItem? && it.width.Some? ==> !IsDigit(it.c))
    && (!it.Literal? && it.width.Some? ==> it.width.value < TWO_31)
  }

  function Spell(it: Item): seq<char> {
    if it.Literal? then [it.c]
    else if it.width == None then ['%', Ending(it)]
    else ['%', '0'] + Digits(it.width.value, 10) + [Ending(it)]
  }

  function SpellAll(items: seq<Item>): seq<char> {
    if items == [] then [] else Spell(items[0]) + SpellAll(items[1..])
  }

  /** The width in force at a conversion: its own, or else the one left over from before. */
  function InForce(it: Item, width: nat): nat
    requires !it.Literal?
  {
    if it.width == None then width else it.width.value
  }

  /** The items printed one after the other, each taking its own argument; none if one does not fit.
      `width` is the width left over from before: only a number uses it up. */
  function Printed(items: seq<Item>, args: seq<Arg>, width: nat): Option<seq<char>> {
    if items == [] then Some([])
    else
      match items[0]
      case Literal(c) => Prepend([c], Printed(items[1..], args, width))
      case TextItem(_) =>
        if args == [] || !args[0].Text? || NUL in args[0].s then None
        else Prepend(args[0].s, Printed(items[1..], args[1..], InForce(items[0], width)))
      case NumberItem(conversion, _) =>
        if args == [] || !args[0].Number? || !Printable(args[0].n, BaseOf(conversion)) then None
        else Prepend(Field(args[0].n, BaseOf(conversion), InForce(items[0], width)), Printed(items[1..], args[1..], 0))
      case CharItem(_) =>
        if args == [] || !args[0].Character? || args[0].c == NUL then None
        else Prepend([args[0].c], Printed(items[1..], args[1..], InForce(items[0], width)))
      case UnknownItem(_, _) => Printed(items[1..], args, InForce(items[0], width))
  }

  lemma {:induction false} LeadOfDigits(s: seq<char>, rest: seq<char>)
    requires forall i :: 0 <= i < |s| ==> IsDigit(s[i])
    requires rest == [] || !IsDigit(rest[0])
    ensures Lead(s + rest) == |s|
    decreases |s|
  {
    if s == [] {
      assert s + rest == rest;
    } else {
      assert (s + rest)[1..] == s[1..] + rest;
      LeadOfDigits(s[1..], rest);
    }
  }

  /** A width written in decimal is read back, and replaces the one left over. */
  lemma WidthIsRead(w: nat, ending: char, rest: seq<char>, args: seq<Arg>, width: nat)
    requires w < TWO_31 && !IsDigit(ending)
    ensures Interp(['%', '0'] + Digits(w, 10) + [ending] + rest, args, false, width)
         == Interp([ending] + rest, args, true, w)
  {
    hide AtoiValue, Field, Printable, Digits;
    var d := Digits(w, 10);
    var f := ['%', '0'] + d + [ending] + rest;
    DigitsWeigh(w);
    RoundTripIff(w);
    ItoaFitsAtoi(w);
    WidthText(w);
    LeadOfDigits(d, [ending] + rest);
    var g := f[1..];
    assert g == ['0'] + (d + ([ending] + rest));
    assert g[1..] == d + ([ending] + rest);
    assert g[1..1+|d|] == d && g[1+|d|..] == [ending] + rest;
    assert Interp(f, args, false, width) == Interp(g, args, true, width);
  }

  lemma WidthText(w: nat)
    ensures ItoaText(w, 10) == Digits(w, 10)
  {
  }

  /** The scanner at the end of a conversion. */
  lemma AtEnding(it: Item, rest: seq<char>, args: seq<Arg>, width: nat)
    requires ValidItem(it) && !it.Literal?
    ensures Interp(Spell(it) + rest, args, false, width)
         == Interp([Ending(it)] + rest, args, true, InForce(it, width))
  {
    if it.width == None {
      var f := Spell(it) + rest;
      assert f[1..] == [Ending(it)] + rest;
    } else {
      WidthIsRead(it.width.value, Ending(it), rest, args, width);
      assert Spell(it) + rest == ['%', '0'] + Digits(it.width.value, 10) + [Ending(it)] + rest;
    }
  }

  /** What one conversion prints, and the width it leaves behind. */
  lemma Converted(it: Item, rest: seq<char>, args: seq<Arg>, w: nat)
    requires ValidItem(it) && !it.Literal?
    ensures Interp([Ending(it)] + rest, args, true, w)
         == if it.UnknownItem? then Interp(rest, args, false, w)
            else if it.TextItem? then
              if args == [] || !args[0].Text? || NUL in args[0].s then None
              else Prepend(args[0].s, Interp(rest, args[1..], false, w))
            else if it.CharItem? then
              if args == [] || !args[0].Character? || args[0].c == NUL then None
              else Prepend([args[0].c], Interp(rest, args[1..], false, w))
            else
              if args == [] || !args[0].Number? || !Printable(args[0].n, BaseOf(it.conversion)) then None
              else Prepend(Field(args[0].n, BaseOf(it.conversion), w), Interp(rest, args[1..], false, 0))
  {
    hide Field, Printable;
    assert ([Ending(it)] + rest)[1..] == rest;
  }

  lemma LiteralIsPrinted(c: char, rest: seq<char>, args: seq<Arg>, width: nat)
    requires c != '%' && c != NUL
    ensures Interp([c] + rest, args, false, width) == Prepend([c], Interp(rest, args, false, width))
  {
    assert ([c] + rest)[1..] == rest;
  }

  /** vsnprintf prints the items of its format one after the other.  A pending percent sign never
      reaches from one item into the next; a width does, past texts and characters, up to the next
      number that has none of its own. */
  lemma {:induction false} PrintsItems(items: seq<Item>, args: seq<Arg>, width: nat)
    requires forall i :: 0 <= i < |items| ==> ValidItem(items[i])
    ensures Interp(SpellAll(items), args, false, width) == Printed(items, args, width)
    decreases |items|
  {
    hide Interp, Field, Printable, Digits, Ending, InForce;
    if items == [] {
      NothingLeft(args, width);
    } else {
      var rest := SpellAll(items[1..]);
      var it := items[0];
      if it.Literal? {
        LiteralIsPrinted(it.c, rest, args, width);
        PrintsItems(items[1..], args, width);
      } else {
        var w := InForce(it, width);
        AtEnding(it, rest, args, width);
        Converted(it, rest, args, w);
        PrintsItems(items[1..], args, w);
        if args != [] {
          PrintsItems(items[1..], args[1..], w);
          PrintsItems(items[1..], args[1..], 0);
        }
      }
    }
  }

  lemma NothingLeft(args: seq<Arg>, width: nat)
    ensures Interp([], args, false, width) == Some([])
  {
  }

  /** Only numbers are written with a width. */
  predicate WidthsOnNumbers(items: seq<Item>) {
    forall i :: 0 <= i < |items| ==> items[i].Literal? || items[i].NumberItem? || items[i].width == None
  }

  /** The items printed each for itself: a number without a width is not padded. */
  function PrintedAlone(items: seq<Item>, args: seq<Arg>): Option<seq<char>> {
    if items == [] then Some([])
    else
      match items[0]
      case Literal(c) => Prepend([c], PrintedAlone(items[1..], args))
      case UnknownItem(_, _) => PrintedAlone(items[1..], args)
      case _ =>
        var alone := if args == [] then None else Printed([items[0]], [args[0]], 0);
        if alone == None then None else Prepend(alone.value, PrintedAlone(items[1..], args[1..]))
  }

  lemma OneItem(it: Item, arg: Arg, width: nat)
    requires !it.Literal? && !it.UnknownItem?
    ensures Printed([it], [arg], width)
         == if it.TextItem? then if !arg.Text? || NUL in arg.s then None else Some(arg.s)
            else if it.CharItem? then if !arg.Character? || arg.c == NUL then None else Some([arg.c])
            else if !arg.Number? || !Printable(arg.n, BaseOf(it.conversion)) then None
            else Some(Field(arg.n, BaseOf(it.conversion), InForce(it, width)))
  {
    hide Field, Printable;
    assert [it][1..] == [] && [arg][1..] == [];
    assert forall w :: Printed([], [], w) == Some([]);
    assert forall s: seq<char> :: s + [] == s;
  }

  /** A conversion that takes an argument. */
  predicate TakesArg(it: Item) { it.TextItem? || it.NumberItem? || it.CharItem? }

  /** The width that an item leaves behind. */
  function After(it: Item, width: nat): nat {
    if it.Literal? then width else if it.NumberItem? then 0 else InForce(it, width)
  }

  lemma FirstItem(items: seq<Item>, args: seq<Arg>, width: nat)
    requires items != [] && args != [] && TakesArg(items[0])
    ensures var one := Printed([items[0]], [args[0]], width);
      Printed(items, args, width)
      == if one == None then None
         else Prepend(one.value, Printed(items[1..], args[1..], After(items[0], width)))
  {
    hide Field, Printable;
    OneItem(items[0], args[0], width);
  }

  /** The zeros that a width left over adds to one item. */
  function Extra(it: Item, arg: Arg, width: nat): nat {
    if it.NumberItem? && it.width == None && arg.Number? && Printable(arg.n, BaseOf(it.conversion))
    then ZeroCount(width, |ItoaText(arg.n, BaseOf(it.conversion))|) else 0
  }

  lemma OneExtra(it: Item, arg: Arg, width: nat)
    requires TakesArg(it)
    ensures var one, alone := Printed([it], [arg], width), Printed([it], [arg], 0);
      && (one == None <==> alone == None)
      && (one.Some? ==> |one.value| == |alone.value| + Extra(it, arg, width))
      && (one.Some? && Extra(it, arg, width) == 0 ==> one == alone)
  {
    hide Printable, ItoaText;
    OneItem(it, arg, width);
    OneItem(it, arg, 0);
  }

  /** The zeros that widths left over add to a whole output. */
  function Carried(items: seq<Item>, args: seq<Arg>, width: nat): nat {
    if items == [] then 0
    else if !TakesArg(items[0]) then Carried(items[1..], args, After(items[0], width))
    else if args == [] then 0
    else Extra(items[0], args[0], width) + Carried(items[1..], args[1..], After(items[0], width))
  }

  /** Widths left over make an output longer by exactly the zeros they add. */
  lemma {:induction false} CarriedZeros(items: seq<Item>, args: seq<Arg>, width: nat)
    ensures var whole, alone := Printed(items, args, width), PrintedAlone(items, args);
      && (whole == None <==> alone == None)
      && (whole.Some? ==> |whole.value| == |alone.value| + Carried(items, args, width))
      && (whole.Some? && Carried(items, args, width) == 0 ==> whole == alone)
    decreases |items|
  {
    hide Field, Printable, Extra;
    if items != [] {
      var w := After(items[0], width);
      if !TakesArg(items[0]) {
        CarriedZeros(items[1..], args, w);
      } else if args != [] {
        FirstItem(items, args, width);
        OneExtra(items[0], args[0], width);
        CarriedZeros(items[1..], args[1..], w);
      }
    }
  }

  /** The items of a format print as they would alone, for given arguments, if and only if the
      arguments do not fit or no zeros are added for a width left over. */
  lemma PrintsAloneIff(items: seq<Item>, args: seq<Arg>, width: nat)
    ensures Printed(items, args, width) == PrintedAlone(items, args)
       <==> Printed(items, args, width) == None || Carried(items, args, width) == 0
  {
    hide Printed, PrintedAlone, Carried;
    CarriedZeros(items, args, width);
  }

  /** No number without a width of its own is reached while another width is left over. */
  predicate CarriesNothing(items: seq<Item>, width: nat) {
    items == []
    || ((items[0].NumberItem? && items[0].width == None ==> width == 0)
        && CarriesNothing(items[1..], After(items[0], width)))
  }

  lemma {:induction false} NothingAdded(items: seq<Item>, args: seq<Arg>, width: nat)
    requires CarriesNothing(items, width)
    ensures Carried(items, args, width) == 0
    decreases |items|
  {
    hide Printable, ItoaText;
    if items != [] {
      NothingAdded(items[1..], args, After(items[0], width));
      if args != [] { NothingAdded(items[1..], args[1..], After(items[0], width)); }
    }
  }

  /** An argument that fits an item and shows a width left over: the number 0, or the base where a
      width of 1 would not show. */
  function Probe(it: Item, width: nat): Arg {
    if it.TextItem? then Text([])
    else if it.NumberItem? then Number(if width == 1 then BaseOf(it.conversion) else 0)
    else Character('a')
  }

  function Probes(items: seq<Item>, width: nat): seq<Arg> {
    if items == [] then []
    else (if TakesArg(items[0]) then [Probe(items[0], width)] else []) + Probes(items[1..], After(items[0], width))
  }

  lemma ProbeShows(it: Item, width: nat)
    requires ValidItem(it) && TakesArg(it)
    ensures Printed([it], [Probe(it, width)], width).Some?
    ensures it.NumberItem? && it.width == None && width != 0 ==> Extra(it, Probe(it, width), width) > 0
  {
    hide Field;
    OneItem(it, Probe(it, width), width);
    if it.NumberItem? {
      var b := BaseOf(it.conversion);
      assert Digits(0, b) == [DigitChar(0)];
      TwoDigits(b);
    }
  }

  lemma TwoDigits(b: nat)
    requires 2 <= b <= 36
    ensures |Digits(b, b)| == 2
  {
    assert b / b == 1;
    assert |Digits(1, b)| == 1;
  }

  lemma {:induction false} ProbesShow(items: seq<Item>, width: nat)
    requires forall i :: 0 <= i < |items| ==> ValidItem(items[i])
    ensures Printed(items, Probes(items, width), width).Some?
    ensures !CarriesNothing(items, width) ==> Carried(items, Probes(items, width), width) > 0
    decreases |items|
  {
    hide Field, Printable, Extra, Probe, ValidItem;
    if items != [] {
      var rest, w := items[1..], After(items[0], width);
      ProbesShow(rest, w);
      if TakesArg(items[0]) {
        var args := Probes(items, width);
        assert args[0] == Probe(items[0], width) && args[1..] == Probes(rest, w);
        FirstItem(items, args, width);
        ProbeShows(items[0], width);
      } else {
        assert Probes(items, width) == Probes(rest, w);
      }
    }
  }

  /** The output of a format is that of its items alone, whatever the arguments, if and only if no
      number without a width is reached while the width of a text, a character or an unknown
      conversion is left over. */
  lemma IndependentIff(items: seq<Item>)
    requires forall i :: 0 <= i < |items| ==> ValidItem(items[i])
    ensures CarriesNothing(items, 0)
       <==> forall args :: Interp(SpellAll(items), args, false, 0) == PrintedAlone(items, args)
  {
    hide ValidItem, Interp, SpellAll, Printed, PrintedAlone, Carried, CarriesNothing, Probes;
    forall args
      ensures Interp(SpellAll(items), args, false, 0) == PrintedAlone(items, args)
         <==> Printed(items, args, 0) == None || Carried(items, args, 0) == 0
      ensures CarriesNothing(items, 0) ==> Carried(items, args, 0) == 0
    {
      PrintsItems(items, args, 0);
      PrintsAloneIff(items, args, 0);
      if CarriesNothing(items, 0) { NothingAdded(items, args, 0); }
    }
    ProbesShow(items, 0);
    assert !CarriesNothing(items, 0) ==>
      Interp(SpellAll(items), Probes(items, 0), false, 0) != PrintedAlone(items, Probes(items, 0));
  }

  /** If only numbers have widths, no item depends on the ones before it. */
  lemma {:induction false} ItemsAreIndependent(items: seq<Item>, args: seq<Arg>)
    requires WidthsOnNumbers(items)
    ensures CarriesNothing(items, 0) && Printed(items, args, 0) == PrintedAlone(items, args)
    decreases |items|
  {
    hide Printed, PrintedAlone, Carried;
    if items != [] { ItemsAreIndependent(items[1..], args); }
    NothingAdded(items, args, 0);
    PrintsAloneIff(items, args, 0);
  }

  /** For instance, a width written at a text pads the number that follows. */
  lemma WidthIsCarried(t: seq<char>, n: int, w: nat)
    requires NUL !in t && Printable(n, 10) && w < TWO_31
    ensures var items := [TextItem(Some(w)), NumberItem('d', None)];
      && SpellAll(items) == ['%', '0'] + Digits(w, 10) + ['s', '%', 'd']
      && Interp(SpellAll(items), [Text(t), Number(n)], false, 0) == Some(t + Field(n, 10, w))
      && (CarriesNothing(items, 0) <==> w == 0)
  {
    hide Field, Printable, Interp, Digits;
    var items := [TextItem(Some(w)), NumberItem('d', None)];
    assert items[1..] == [NumberItem('d', None)] && items[1..][1..] == [];
    PrintsItems(items, [Text(t), Number(n)], 0);
    assert [Text(t), Number(n)][1..] == [Number(n)];
    OneItem(items[1], Number(n), w);
    assert SpellAll(items[1..]) == ['%', 'd'] + [];
    assert CarriesNothing(items, 0) == CarriesNothing(items[1..], w);
    assert CarriesNothing(items[1..], w) == (w == 0 && CarriesNothing([], 0));
  }

  function Max(a: nat, b: nat): nat { if a < b then b else a }

  /** A field is filled up to its width, or as long as its number, exactly if the width is not a
      positive number below the length. */
  lemma FieldFillsWidthIff(n: int, base: nat, width: nat)
    requires Printable(n, base)
    ensures var length := |ItoaText(n, base)|;
      |Field(n, base, width)| == Max(width, length) <==> width == 0 || width >= length
  {
    TextFits(n, base);
  }

  /** A field is the number's text with zeros in front: as many as are missing to the width, or, if the
      width is too small, as many as the width says. */
  lemma FieldIsPadded(n: int, base: nat, width: nat)
    requires Printable(n, base)
    ensures var f, t := Field(n, base, width), ItoaText(n, base);
      && |f| == |t| + (if width < |t| then width else width - |t|)
      && f[|f| - |t|..] == t
      && (forall i :: 0 <= i < |f| - |t| ==> f[i] == '0')
      && (n >= 0 ==> Positional(f, base) == n)
  {
    hide Digits;
    var t := ItoaText(n, base);
    if n >= 0 {
      ZerosInFront(ZeroCount(width, |t|), t, base);
      DigitsAreCanonical(n, base);
    }
  }

  /** Zeros in front of a digit string do not change its value. */
  lemma {:induction false} ZerosInFront(k: nat, t: seq<char>, base: nat)
    ensures Positional(Zeros(k) + t, base) == Positional(t, base)
    decreases |t|, k
  {
    var s := Zeros(k) + t;
    if t != [] {
      assert s[..|s|-1] == Zeros(k) + t[..|t|-1];
      ZerosInFront(k, t[..|t|-1], base);
    } else if k > 0 {
      assert s[..|s|-1] == Zeros(k - 1) + [];
      ZerosInFront(k - 1, [], base);
    }
  }

  /** What each conversion prints by itself. */
  lemma ConversionsAre(n: nat, t: seq<char>, c: char, unknown: char)
    requires n < TWO_63 && NUL !in t && c != NUL && ValidItem(UnknownItem(unknown, None))
    ensures Interp(['%', 'd'], [Number(n)], false, 0) == Some(Digits(n, 10))
    ensures Interp(['%', 'x'], [Number(n)], false, 0) == Some(Digits(n, 16))
    ensures Interp(['%', 'b'], [Number(n)], false, 0) == Some(Digits(n, 2))
    ensures Interp(['%', 's'], [Text(t)], false, 0) == Some(t)
    ensures Interp(['%', 'c'], [Character(c)], false, 0) == Some([c])
    ensures Interp(['%', unknown], [], false, 0) == Some([])
  {
    hide Digits, Interp;
    PrintsOne(NumberItem('d', None), Number(n));
    PrintsOne(NumberItem('x', None), Number(n));
    PrintsOne(NumberItem('b', None), Number(n));
    PrintsOne(TextItem(None), Text(t));
    PrintsOne(CharItem(None), Character(c));
    var it := UnknownItem(unknown, None);
    PrintsItems([it], [], 0);
    SpellOne(it);
    assert [it][1..] == [];
  }

  lemma SpellOne(it: Item)
    requires !it.Literal? && it.width == None
    ensures SpellAll([it]) == ['%', Ending(it)]
  {
    assert [it][1..] == [];
    assert SpellAll([it]) == Spell(it) + [];
  }

  lemma PrintsOne(it: Item, arg: Arg)
    requires ValidItem(it) && TakesArg(it) && it.width == None
    ensures Interp(['%', Ending(it)], [arg], false, 0) == Printed([it], [arg], 0)
    ensures Printed([it], [arg], 0)
         == if it.TextItem? then if !arg.Text? || NUL in arg.s then None else Some(arg.s)
            else if it.CharItem? then if !arg.Character? || arg.c == NUL then None else Some([arg.c])
            else if !arg.Number? || !Printable(arg.n, BaseOf(it.conversion)) then None
            else Some(ItoaText(arg.n, BaseOf(it.conversion)))
  {
    hide ItoaText;
    PrintsItems([it], [arg], 0);
    OneItem(it, arg, 0);
    SpellOne(it);
    if it.NumberItem? && arg.Number? && Printable(arg.n, BaseOf(it.conversion)) {
      assert Zeros(0) + ItoaText(arg.n, BaseOf(it.conversion)) == ItoaText(arg.n, BaseOf(it.conversion));
    }
  }

  /** For instance, a width of 1 adds one zero to 10. */
  lemma WidthTooSmall()
    ensures Printable(10, 10) && ItoaText(10, 10) == ['1', '0'] && Field(10, 10, 1) == ['0', '1', '0']
  {
    assert Digits(1, 10) == ['1'];
    assert Zeros(1) == Zeros(0) + ['0'];
  }

  /** Two percent signs in a row count as one. */
  lemma PercentsCountOnce(rest: seq<char>, args: seq<Arg>, parsing: bool, width: nat)
    ensures Interp(['%', '%'] + rest, args, parsing, width) == Interp(['%'] + rest, args, parsing, width)
    ensures Interp(['%', '%'], args, parsing, width) == Some([])
  {
    var f := ['%', '%'] + rest;
    assert f[1..] == ['%'] + rest;
    assert f[1..][1..] == rest && (['%'] + rest)[1..] == rest;
    assert ['%', '%'][1..] == ['%'] && ['%'][1..] == [];
  }

  /** The argument holds a percent sign. */
  predicate HasPercent(arg: Arg) { (arg.Text? && '%' in arg.s) || (arg.Character? && arg.c == '%') }

  lemma {:induction false} NoPercentInDigits(n: nat)
    ensures '%' !in NegDigits(n)
  {
    if n >= 10 { NoPercentInDigits(n / 10); }
  }

  lemma NoPercentInField(n: int, base: nat, width: nat)
    requires Printable(n, base)
    ensures '%' !in Field(n, base, width)
  {
    if n >= 0 {
      DigitsAreCanonical(n, base);
    } else {
      NoPercentInDigits(-n);
    }
  }

  /** Whatever the format, a percent sign is printed only if an argument holds one. */
  lemma {:induction false} PercentIsNeverPrinted(f: seq<char>, args: seq<Arg>, parsing: bool, width: nat)
    requires forall i :: 0 <= i < |args| ==> !HasPercent(args[i])
    requires Interp(f, args, parsing, width).Some?
    ensures '%' !in Interp(f, args, parsing, width).value
    decreases |f|
  {
    hide Field, Printable, AtoiValue;
    if f != [] {
      if f[0] == '%' {
        PercentIsNeverPrinted(f[1..], args, true, width);
      } else if !parsing {
        PercentIsNeverPrinted(f[1..], args, false, width);
      } else if f[0] == '0' {
        var k := Lead(f[1..]);
        PercentIsNeverPrinted(f[1+k..], args, true, AtoiValue(f[1..1+k]));
      } else if f[0] == 's' || f[0] == 'c' {
        PercentIsNeverPrinted(f[1..], args[1..], false, width);
      } else if BaseOf(f[0]) != 0 {
        PercentIsNeverPrinted(f[1..], args[1..], false, 0);
        NoPercentInField(args[0].n, BaseOf(f[0]), width);
      } else {
        PercentIsNeverPrinted(f[1..], args, false, width);
      }
    }
  }
}
