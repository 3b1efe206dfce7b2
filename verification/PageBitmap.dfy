/** kernel/mem/pmm.c: the physical page allocator, a bitmap with one bit per page; a clear bit is
    a free page. */
module PageBitmap {
  import opened Words
  import opened Bits
  import opened Ranges
  import opened BootMap

  type Byte = b: nat | b < 256

  predicate ClearBit(bytes: seq<Byte>, p: nat)
    requires p < 8 * |bytes|
  {
    !Bit(bytes[p / 8], p % 8)
  }

  ghost function ClearPages(bytes: seq<Byte>): set<nat> {
    set p: nat | p < 8 * |bytes| && ClearBit(bytes, p)
  }

  /** The `count` pages that end with page i are all clear and lie at or above `from`. */
  ghost predicate EndsRun(clear: set<nat>, from: nat, i: nat, count: nat) {
    count >= 1 && from + count <= i + 1 && forall t :: i + 1 - count <= t <= i ==> t in clear
  }

  /** i is the first page below `limit` that ends such a run. */
  ghost predicate FirstEnd(clear: set<nat>, from: nat, i: nat, count: nat, limit: nat) {
    i < limit && EndsRun(clear, from, i, count) && forall t: nat :: t < i ==> !EndsRun(clear, from, t, count)
  }

  ghost predicate NoRun(clear: set<nat>, from: nat, count: nat, limit: nat) {
    forall t: nat :: t < limit ==> !EndsRun(clear, from, t, count)
  }

  /** The answer of a search from `last`: the first run from there on, else the first run of all;
      none only if there is no run at all. */
  ghost predicate Answer(clear: set<nat>, last: nat, count: nat, limit: nat, r: Option<nat>) {
    match r
    case Some(i) =>
      FirstEnd(clear, last, i, count, limit)
      || (NoRun(clear, last, count, limit) && FirstEnd(clear, 0, i, count, limit))
    case None => NoRun(clear, 0, count, limit)
  }

  /** Pages p, p + 1, ..., p + count - 1. */
  ghost function Block(p: nat, count: nat): (r: set<nat>)
    ensures forall t: nat :: t in r <==> p <= t < p + count
  {
    if count == 0 then {} else Block(p, count - 1) + {p + count - 1}
  }

  lemma NoBlock(p: nat)
    ensures Block(p, 0) == {}
  {
  }

  lemma BlockGrows(p: nat, count: nat)
    ensures Block(p, count + 1) == Block(p, count) + {p + count}
  {
  }

  lemma PowBelow256(k: nat)
    requires k < 8
    ensures Pow2(k) <= 128
  {
    assert Pow2(0) == 1 && Pow2(1) == 2 && Pow2(2) == 4 && Pow2(3) == 8;
    assert Pow2(4) == 16 && Pow2(5) == 32 && Pow2(6) == 64 && Pow2(7) == 128;
  }

  /** The low byte of ~(1 << n). */
  function ByteWithout(n: nat): (r: Byte)
    requires n < 8
    ensures r + Pow2(n) == 255
  {
    PowBelow256(n);
    255 - Pow2(n)
  }

  /** Masking bit n of a byte out, and or-ing it in. */
  lemma UnsetByte(b: Byte, n: nat)
    requires n < 8
    ensures And(b, ByteWithout(n)) < 256
    ensures forall k: nat :: k < 8 ==> (Bit(And(b, ByteWithout(n)), k) <==> Bit(b, k) && k != n)
  {
    assert Pow2(8) == 256;
    AndBound(b, ByteWithout(n));
    forall k: nat | k < 8 ensures Bit(And(b, ByteWithout(n)), k) <==> Bit(b, k) && k != n {
      AndBit(b, ByteWithout(n), k);
      ComplementBit(8, Pow2(n), k);
      PowBit(n, k);
    }
  }

  lemma SetByte(b: Byte, n: nat)
    requires n < 8 && Pow2(n) <= 255
    ensures Or(b, Pow2(n)) < 256
    ensures forall k: nat :: k < 8 ==> (Bit(Or(b, Pow2(n)), k) <==> Bit(b, k) || k == n)
  {
    assert Pow2(8) == 256;
    OrBound(b, Pow2(n), 8);
    forall k: nat | k < 8 ensures Bit(Or(b, Pow2(n)), k) <==> Bit(b, k) || k == n {
      OrBit(b, Pow2(n), k);
      PowBit(n, k);
    }
  }

  /** Changing the byte of page p in one bit changes the set of clear pages in one page. */
  lemma OneByteChanged(bytes: seq<Byte>, p: nat, b: Byte, clear: bool)
    requires p < 8 * |bytes|
    requires forall k: nat :: k < 8 ==> (!Bit(b, k) <==> if k == p % 8 then clear else !Bit(bytes[p / 8], k))
    ensures ClearPages(bytes[p / 8 := b]) == if clear then ClearPages(bytes) + {p} else ClearPages(bytes) - {p}
  {
    var bytes' := bytes[p / 8 := b];
    forall q: nat | q < 8 * |bytes|
      ensures ClearBit(bytes', q) <==> if q == p then clear else ClearBit(bytes, q)
    {
      assert q == q / 8 * 8 + q % 8 && p == p / 8 * 8 + p % 8;
    }
  }

  /** Masking the bit of page p out of its byte frees that page and no other. */
  lemma Unset(bytes: seq<Byte>, p: nat)
    requires p < 8 * |bytes|
    ensures And(bytes[p / 8], ByteWithout(p % 8)) < 256
    ensures ClearPages(bytes[p / 8 := And(bytes[p / 8], ByteWithout(p % 8))]) == ClearPages(bytes) + {p}
  {
    hide And, Pow2, Bit, ByteWithout;
    UnsetByte(bytes[p / 8], p % 8);
    OneByteChanged(bytes, p, And(bytes[p / 8], ByteWithout(p % 8)), true);
  }

  /** Or-ing the bit of page p into its byte takes that page and no other. */
  lemma Set(bytes: seq<Byte>, p: nat)
    requires p < 8 * |bytes|
    ensures Or(bytes[p / 8], Pow2(p % 8)) < 256
    ensures ClearPages(bytes[p / 8 := Or(bytes[p / 8], Pow2(p % 8))]) == ClearPages(bytes) - {p}
  {
    hide Or, Pow2, Bit;
    PowBelow256(p % 8);
    SetByte(bytes[p / 8], p % 8);
    OneByteChanged(bytes, p, Or(bytes[p / 8], Pow2(p % 8)), false);
  }

  class Pmm {
    var bitmap: array<Byte>
    var usablePages: nat
    var lastFreePage: nat
    var freeMemory: nat

    constructor ()
      ensures Valid() && fresh(bitmap) && usablePages == 0 && lastFreePage == 0
    {
      bitmap := new Byte[0];
      usablePages, lastFreePage, freeMemory := 0, 0, 0;
    }

    ghost predicate Valid()
      reads this
    {
      usablePages <= bitmap.Length
    }

    /** The pages whose bit is clear. */
    ghost function Clear(): set<nat>
      reads this, bitmap
    {
      ClearPages(bitmap[..])
    }

    method UnsetPage(page: nat)
      requires page < 8 * bitmap.Length
      modifies bitmap
      ensures Clear() == old(Clear()) + {page}
    {
      var bit := page % 8;
      var byte := page / 8;
      Unset(bitmap[..], page);
      bitmap[byte] := And(bitmap[byte], ByteWithout(bit));
      assert bitmap[..] == old(bitmap[..])[page / 8 := bitmap[byte]];
    }

    method SetPage(page: nat)
      requires page < 8 * bitmap.Length
      modifies bitmap, `lastFreePage
      ensures Clear() == old(Clear()) - {page} && lastFreePage == page
    {
      var bit := page % 8;
      var byte := page / 8;
      lastFreePage := page;
      Set(bitmap[..], page);
      bitmap[byte] := Or(bitmap[byte], Pow2(bit));
      assert bitmap[..] == old(bitmap[..])[page / 8 := bitmap[byte]];
    }

    method IsSet(page: nat) returns (r: nat)
      requires page < 8 * bitmap.Length
      ensures r == 0 <==> page in Clear()
    {
      var bit := page % 8;
      var byte := page / 8;
      r := And(bitmap[byte], Pow2(bit));
      MaskTests(bitmap[byte], bit);
      assert ClearBit(bitmap[..], page) <==> r == 0;
    }

    /** None stands for the assertion that stops the kernel. */
    method FindFreePages(count: nat) returns (r: Option<nat>)
      requires Valid()
      modifies `lastFreePage
      ensures Answer(Clear(), old(lastFreePage), count, usablePages, r)
      ensures lastFreePage == match r case Some(i) => i case None => 0
      decreases lastFreePage
    {
      hide ClearPages, EndsRun, NoRun, FirstEnd, Answer;
      var pageFound := 0;
      var i := lastFreePage;
      NoRunYet(Clear(), lastFreePage, count);
      while i < usablePages
        invariant lastFreePage == old(lastFreePage) <= i
        invariant i <= usablePages || i == lastFreePage
        invariant 0 <= pageFound <= i - lastFreePage
        invariant forall t :: i - pageFound <= t < i ==> t in Clear()
        invariant pageFound < i - lastFreePage ==> i - pageFound - 1 !in Clear()
        invariant count >= 1 ==> pageFound < count
        invariant NoRun(Clear(), lastFreePage, count, i)
      {
        var masked := IsSet(i);
        if masked == 0 {
          pageFound := pageFound + 1;
          if pageFound == count {
            RunFound(Clear(), lastFreePage, i, count, usablePages);
            lastFreePage := i;
            return Some(i);
          }
        } else {
          pageFound := 0;
        }
        RunTooShort(Clear(), lastFreePage, i, count, pageFound);
        i := i + 1;
      }
      NoRunBelow(Clear(), lastFreePage, count, i, usablePages);
      if lastFreePage != 0 {
        lastFreePage := 0;
        r := FindFreePages(count);
        return;
      }
      r := None;
    }

    method AllocPages(count: nat) returns (r: Option<nat>)
      requires Valid()
      modifies this, bitmap
      ensures Valid() && bitmap == old(bitmap) && usablePages == old(usablePages)
      ensures Answer(old(Clear()), old(lastFreePage), count, usablePages, r)
      ensures Clear() == match r case Some(p) => old(Clear()) - Block(p, count) case None => old(Clear())
      ensures r.Some? ==> lastFreePage == r.value + count - 1
    {
      hide ClearPages, Block, Answer;
      r := FindFreePages(count);
      if r == None {
        return;
      }
      var page := r.value;
      AnswerBounds(old(Clear()), old(lastFreePage), count, usablePages, page);
      NoBlock(page);
      var i := page;
      while i < count + page
        invariant page <= i <= count + page && Valid()
        invariant bitmap == old(bitmap) && usablePages == old(usablePages)
        invariant Clear() == old(Clear()) - Block(page, i - page)
        invariant i > page ==> lastFreePage == i - 1
      {
        SetPage(i);
        BlockGrows(page, i - page);
        i := i + 1;
      }
    }

    method FreePages(range: AddrRange)
      requires Valid() && range.base / PAGE_SIZE + range.length / PAGE_SIZE <= 8 * bitmap.Length
      modifies bitmap
      ensures Clear() == old(Clear()) + Block(range.base / PAGE_SIZE, range.length / PAGE_SIZE)
    {
      hide ClearPages, Block;
      var target := range.base / PAGE_SIZE;
      NoBlock(target);
      var i := target;
      while i < target + range.length / PAGE_SIZE
        invariant target <= i <= target + range.length / PAGE_SIZE
        invariant Clear() == old(Clear()) + Block(target, i - target)
      {
        UnsetPage(i);
        BlockGrows(target, i - target);
        i := i + 1;
      }
    }

    /** memset(bitmap, 0xff, n): every page used. */
    method FillBitmap(n: nat)
      requires n == bitmap.Length
      modifies bitmap
      ensures Clear() == {}
    {
      var i := 0;
      while i < n
        invariant i <= n && forall k :: 0 <= k < i ==> bitmap[k] == 255
      {
        bitmap[i] := 255;
        i := i + 1;
      }
      forall p: nat | p < 8 * bitmap.Length ensures !ClearBit(bitmap[..], p) {
        AllOnes(p % 8);
      }
    }

    /** init_pmm.  The bitmap is put at the start of the last usable range that is long enough; it
        is separate storage here.  False stands for the assertion that no such range was found. */
    method Init(info: BootInfo) returns (ok: bool)
      requires info.Valid() && BitmapFits(info.Entries(), info.usablePages)
      modifies this
      ensures info.Valid() && ok == (ChosenBase(info.Entries(), info.usablePages) != 0)
      ensures ok ==> Valid() && usablePages == info.usablePages && fresh(bitmap)
      ensures ok ==>
        Clear() == UsableOf(info.Entries())
                   + Block(ChosenBase(info.Entries(), usablePages) / PAGE_SIZE, usablePages / PAGE_SIZE + 1)
    {
      hide UsableOf, ChosenBase, ClearPages;
      ghost var es := info.Entries();
      usablePages := info.usablePages;
      var base := ChooseRange(info);
      if base == 0 {
        return false;
      }
      bitmap := new Byte[usablePages](_ => 0);
      FillBitmap(usablePages);
      ReleaseUsable(info);
      ChosenIsUsable(es, usablePages);
      ReleaseBitmap(base);
      ok := true;
    }

    /** The first loop of init_pmm. */
    method ChooseRange(info: BootInfo) returns (base: nat)
      requires info.Valid()
      ensures base == ChosenBase(info.Entries(), usablePages)
    {
      ghost var es := info.Entries();
      base := 0;
      var i := 0;
      while i < info.memoryMapSize
        invariant i <= info.memoryMapSize && base == ChosenBase(es[..i], usablePages)
      {
        assert es[..i+1][..i] == es[..i];
        if info.mmap[i].kind == USABLE && info.mmap[i].range.length >= usablePages {
          base := info.mmap[i].range.base;
        }
        i := i + 1;
      }
      assert es[..i] == es;
    }

    /** The second loop of init_pmm. */
    method ReleaseUsable(info: BootInfo)
      requires info.Valid() && BitmapFits(info.Entries(), bitmap.Length) && info.mmap as object != bitmap
      requires Clear() == {}
      modifies bitmap, `freeMemory
      ensures Clear() == UsableOf(info.Entries()) && info.Valid() && info.Entries() == old(info.Entries())
    {
      hide ClearPages;
      ghost var es := info.Entries();
      assert UsableOf(es[..0]) == {};
      var i := 0;
      while i < info.memoryMapSize
        invariant i <= info.memoryMapSize && info.Valid() && info.Entries() == es
        invariant Clear() == UsableOf(es[..i])
      {
        assert es[..i+1][..i] == es[..i];
        if info.mmap[i].kind == USABLE {
          ReleaseRange(info.mmap[i].range);
        }
        i := i + 1;
      }
      assert es[..i] == es;
    }

    /** The pages of one usable range become free. */
    method ReleaseRange(range: AddrRange)
      requires IsPageAligned(range) && (range.base + range.length) / PAGE_SIZE <= 8 * bitmap.Length
      modifies bitmap, `freeMemory
      ensures Clear() == old(Clear()) + Block(range.base / PAGE_SIZE, range.length / PAGE_SIZE)
    {
      hide ClearPages, Block;
      NoBlock(range.base / PAGE_SIZE);
      var j := 0;
      while j < range.length
        invariant 0 <= j <= range.length && j % PAGE_SIZE == 0
        invariant Clear() == old(Clear()) + Block(range.base / PAGE_SIZE, j / PAGE_SIZE)
      {
        NextPage(range.base, j, range.length);
        BlockGrows(range.base / PAGE_SIZE, j / PAGE_SIZE);
        UnsetPage((range.base + j) / PAGE_SIZE);
        freeMemory := freeMemory + PAGE_SIZE;
        j := j + PAGE_SIZE;
      }
    }

    /** The last loop of init_pmm, over the pages that hold the bitmap. */
    method ReleaseBitmap(base: nat)
      requires base % PAGE_SIZE == 0 && (base + usablePages) / PAGE_SIZE < 8 * bitmap.Length
      modifies bitmap
      ensures Clear() == old(Clear()) + Block(base / PAGE_SIZE, usablePages / PAGE_SIZE + 1)
    {
      hide ClearPages, Block;
      NoBlock(base / PAGE_SIZE);
      var i := 0;
      while i <= usablePages
        invariant 0 <= i < usablePages + PAGE_SIZE + 1 && i % PAGE_SIZE == 0
        invariant Clear() == old(Clear()) + Block(base / PAGE_SIZE, i / PAGE_SIZE)
        decreases usablePages + 1 - i
      {
        NextPage(base, i, i + PAGE_SIZE);
        BlockGrows(base / PAGE_SIZE, i / PAGE_SIZE);
        UnsetPage((i + base) / PAGE_SIZE);
        i := i + PAGE_SIZE;
      }
    }
  }

  lemma NextPage(base: nat, j: nat, end: nat)
    requires base % PAGE_SIZE == 0 && j % PAGE_SIZE == 0 && end % PAGE_SIZE == 0 && j < end
    ensures (base + j) / PAGE_SIZE == base / PAGE_SIZE + j / PAGE_SIZE
    ensures (j + PAGE_SIZE) / PAGE_SIZE == j / PAGE_SIZE + 1 && (j + PAGE_SIZE) % PAGE_SIZE == 0
    ensures j + PAGE_SIZE <= end && base / PAGE_SIZE + j / PAGE_SIZE < (base + end) / PAGE_SIZE
  {
  }

  lemma NoRunYet(clear: set<nat>, from: nat, count: nat)
    ensures NoRun(clear, from, count, from)
  {
  }

  /** The first run there is, found where it ends. */
  lemma RunFound(clear: set<nat>, from: nat, i: nat, count: nat, limit: nat)
    requires NoRun(clear, from, count, i) && i < limit
    requires count >= 1 && from + count <= i + 1 && forall t :: i + 1 - count <= t <= i ==> t in clear
    ensures Answer(clear, from, count, limit, Some(i))
  {
  }

  /** A search without result: nothing at all if it began at 0, else the search from 0 decides. */
  lemma NoRunBelow(clear: set<nat>, from: nat, count: nat, i: nat, limit: nat)
    requires NoRun(clear, from, count, i) && limit <= i
    ensures from == 0 ==> Answer(clear, from, count, limit, None)
    ensures forall r :: Answer(clear, 0, count, limit, r) ==> Answer(clear, from, count, limit, r)
  {
  }

  lemma AnswerBounds(clear: set<nat>, last: nat, count: nat, limit: nat, p: nat)
    requires Answer(clear, last, count, limit, Some(p))
    ensures p < limit && 1 <= count <= p + 1
  {
  }

  /** Too few free pages end with page i to make a run. */
  lemma RunTooShort(clear: set<nat>, from: nat, i: nat, count: nat, found: nat)
    requires count >= 1 ==> found < count
    requires found <= i + 1 - from && from <= i
    requires found < i + 1 - from ==> i - found !in clear
    requires NoRun(clear, from, count, i)
    ensures NoRun(clear, from, count, i + 1)
  {
  }

  lemma {:induction false} AllOnes(k: nat)
    requires k < 8
    ensures Bit(255, k)
  {
    assert Pow2(8) == 256;
    ComplementBit(8, 0, k);
    ZeroBit(k);
  }

  // ----- The map at boot -----

  /** Base of the last usable entry with room for the bitmap, one byte for each page; 0 if none. */
  function ChosenBase(es: seq<MmapEntry>, usablePages: nat): nat {
    if es == [] then 0
    else
      var e := es[|es|-1];
      if e.kind == USABLE && e.range.length >= usablePages then e.range.base else ChosenBase(es[..|es|-1], usablePages)
  }

  /** The pages of the usable entries. */
  ghost function UsableOf(es: seq<MmapEntry>): set<nat> {
    if es == [] then {}
    else
      var e := es[|es|-1];
      UsableOf(es[..|es|-1])
      + if e.kind == USABLE then Block(e.range.base / PAGE_SIZE, e.range.length / PAGE_SIZE) else {}
  }

  /** Every page that init_pmm marks has its bit in the bitmap, which the program does not check. */
  ghost predicate BitmapFits(es: seq<MmapEntry>, usablePages: nat) {
    && (ChosenBase(es, usablePages) != 0 ==> (ChosenBase(es, usablePages) + usablePages) / PAGE_SIZE < 8 * usablePages)
    && forall i :: 0 <= i < |es| && es[i].kind == USABLE ==>
      && IsPageAligned(es[i].range)
      && (es[i].range.base + es[i].range.length) / PAGE_SIZE <= 8 * usablePages
  }

  /** Entry i can hold the bitmap. */
  predicate Suits(es: seq<MmapEntry>, usablePages: nat, i: int) {
    0 <= i < |es| && es[i].kind == USABLE && es[i].range.length >= usablePages
  }

  ghost predicate Chosen(es: seq<MmapEntry>, usablePages: nat, i: int) {
    Suits(es, usablePages, i) && es[i].range.base == ChosenBase(es, usablePages)
  }

  /** Entry i is the last that can hold the bitmap. */
  ghost predicate LastSuited(es: seq<MmapEntry>, usablePages: nat, i: int) {
    Suits(es, usablePages, i) && forall k :: i < k ==> !Suits(es, usablePages, k)
  }

  /** init_pmm stops the kernel if and only if no entry can hold the bitmap, or the last one that can
      begins at address 0. */
  lemma {:induction false} InitFailsIff(es: seq<MmapEntry>, usablePages: nat)
    ensures ChosenBase(es, usablePages) == 0 <==>
      (forall i :: !Suits(es, usablePages, i)) || exists i :: LastSuited(es, usablePages, i) && es[i].range.base == 0
  {
    if es != [] {
      var n := |es| - 1;
      var front := es[..n];
      assert forall i :: i != n ==> (Suits(es, usablePages, i) <==> Suits(front, usablePages, i));
      if Suits(es, usablePages, n) {
        assert LastSuited(es, usablePages, n);
      } else {
        InitFailsIff(front, usablePages);
        assert forall i :: LastSuited(es, usablePages, i) <==> LastSuited(front, usablePages, i);
      }
    }
  }

  /** The bitmap goes to the last entry that can hold it, whichever others could. */
  lemma {:induction false} ChosenIsLast(es: seq<MmapEntry>, usablePages: nat, i: nat)
    requires LastSuited(es, usablePages, i)
    ensures ChosenBase(es, usablePages) == es[i].range.base
  {
    var n := |es| - 1;
    if i < n {
      assert !Suits(es, usablePages, n);
      assert forall k :: k != n ==> (Suits(es, usablePages, k) <==> Suits(es[..n], usablePages, k));
      ChosenIsLast(es[..n], usablePages, i);
    }
  }

  /** A map of 263 usable pages on which init_pmm stops the kernel, although both entries can hold the
      bitmap and the first does not begin at 0. */
  lemma InitFailsAtZero()
    ensures var raw := [RawEntry(AddrRange(0x10_0000, 0xF_F000), USABLE), RawEntry(AddrRange(0, 0x8000), USABLE)];
      var es := ParsedAll(raw); var n := UsableBytes(raw) / PAGE_SIZE;
      && n == 263 && BitmapFits(es, n) && Suits(es, n, 0) && Suits(es, n, 1)
      && es[0].range.base != 0 && ChosenBase(es, n) == 0
  {
    var raw := [RawEntry(AddrRange(0x10_0000, 0xF_F000), USABLE), RawEntry(AddrRange(0, 0x8000), USABLE)];
    UsableOfTwo(raw);
    assert ParsedAll(raw)[0].range == AddrRange(0x10_0000, 0x10_0000);
    assert ParsedAll(raw)[1].range == AddrRange(0, 0x9000);
  }

  lemma UsableOfTwo(raw: seq<RawEntry>)
    requires |raw| == 2 && raw[0].kind == USABLE && raw[1].kind == USABLE
    ensures UsableBytes(raw) == raw[0].range.length + raw[1].range.length
  {
    assert raw[..1][..0] == [];
    assert UsableBytes(raw[..1]) == raw[0].range.length;
  }

  lemma {:induction false} ChosenIsUsable(es: seq<MmapEntry>, usablePages: nat)
    requires ChosenBase(es, usablePages) != 0
    ensures exists i :: Chosen(es, usablePages, i)
  {
    var e := es[|es|-1];
    if e.kind == USABLE && e.range.length >= usablePages {
      assert Chosen(es, usablePages, |es| - 1);
    } else {
      ChosenIsUsable(es[..|es|-1], usablePages);
      var i :| Chosen(es[..|es|-1], usablePages, i);
      assert Chosen(es, usablePages, i);
    }
  }

  /** A page is usable exactly when some usable entry has it. */
  lemma {:induction false} UsableOfHas(es: seq<MmapEntry>, p: nat)
    ensures p in UsableOf(es) <==>
      exists i :: 0 <= i < |es| && es[i].kind == USABLE
        && es[i].range.base / PAGE_SIZE <= p < es[i].range.base / PAGE_SIZE + es[i].range.length / PAGE_SIZE
  {
    if es != [] {
      var n := |es| - 1;
      UsableOfHas(es[..n], p);
      assert forall i :: 0 <= i < n ==> es[..n][i] == es[i];
    }
  }

  /** After init_pmm exactly the usable pages are free if and only if the chosen range is longer
      than the bitmap, or the page right behind the bitmap is usable anyway. */
  lemma InitIsExactIff(es: seq<MmapEntry>, usablePages: nat, i: nat)
    requires BitmapFits(es, usablePages) && Chosen(es, usablePages, i)
    ensures var b := es[i].range.base / PAGE_SIZE; var n := usablePages / PAGE_SIZE;
      UsableOf(es) + Block(b, n + 1) == UsableOf(es)
      <==> es[i].range.length > usablePages || b + n in UsableOf(es)
  {
    hide UsableOf, ChosenBase;
    var b := es[i].range.base / PAGE_SIZE;
    var n := usablePages / PAGE_SIZE;
    forall p: nat | b <= p < b + n ensures p in UsableOf(es) {
      UsableOfHas(es, p);
    }
    if es[i].range.length > usablePages {
      UsableOfHas(es, b + n);
    }
    assert Block(b, n + 1) == Block(b, n) + {b + n};
  }

  /** A map of 4096 usable pages on which init_pmm frees page 0x2001, in which no entry has a byte. */
  lemma InitFreesOneTooMany()
    ensures var raw := [RawEntry(AddrRange(0x10_0000, 0xFF_F001), USABLE),
                        RawEntry(AddrRange(0x200_0000, 0xFFF), USABLE)];
      var es := ParsedAll(raw); var n := UsableBytes(raw) / PAGE_SIZE;
      && n == 4096 && BitmapFits(es, n) && Chosen(es, n, 1)
      && 0x2001 !in UsableOf(es) && !Touches(raw[0].range, 0x2001) && !Touches(raw[1].range, 0x2001)
      && 0x2001 in UsableOf(es) + Block(ChosenBase(es, n) / PAGE_SIZE, n / PAGE_SIZE + 1)
  {
    var raw := [RawEntry(AddrRange(0x10_0000, 0xFF_F001), USABLE), RawEntry(AddrRange(0x200_0000, 0xFFF), USABLE)];
    UsableOfTwo(raw);
    var es := ParsedAll(raw);
    assert es[0].range == AddrRange(0x10_0000, 0x100_0000);
    assert es[1].range == AddrRange(0x200_0000, 0x1000);
    UsableOfHas(es, 0x2001);
  }

  /** The page where the bitmap itself begins ends up free: it can be handed out. */
  lemma BitmapPageIsFree(es: seq<MmapEntry>, usablePages: nat)
    requires BitmapFits(es, usablePages) && ChosenBase(es, usablePages) != 0
    ensures ChosenBase(es, usablePages) / PAGE_SIZE in
      UsableOf(es) + Block(ChosenBase(es, usablePages) / PAGE_SIZE, usablePages / PAGE_SIZE + 1)
  {
  }

  /** The free pages after parsing the boot map and init_pmm, when the chosen range is longer than
      the bitmap: those of the rounded ranges of the usable raw entries. */
  lemma BootFreesUsable(raw: seq<RawEntry>, usablePages: nat, i: nat, p: nat)
    requires BitmapFits(ParsedAll(raw), usablePages) && Chosen(ParsedAll(raw), usablePages, i)
    requires Aligned(raw[i].range).length > usablePages
    ensures p in UsableOf(ParsedAll(raw)) + Block(Aligned(raw[i].range).base / PAGE_SIZE, usablePages / PAGE_SIZE + 1)
      <==> exists k :: 0 <= k < |raw| && raw[k].kind % 0x1_0000 == USABLE && HasPage(Aligned(raw[k].range), p)
  {
    var es := ParsedAll(raw);
    InitIsExactIff(es, usablePages, i);
    UsableOfHas(es, p);
    forall k | 0 <= k < |raw|
      ensures HasPage(Aligned(raw[k].range), p) <==>
        es[k].range.base / PAGE_SIZE <= p < es[k].range.base / PAGE_SIZE + es[k].range.length / PAGE_SIZE
    {
      AlignedIsAligned(raw[k].range);
    }
  }

  /** Some usable raw entry has a byte in page p. */
  ghost predicate RawUsable(raw: seq<RawEntry>, p: nat) {
    exists k :: 0 <= k < |raw| && raw[k].kind % 0x1_0000 == USABLE && Touches(raw[k].range, p)
  }

  /** The free pages after boot that belong to no usable raw entry are exactly those right behind a
      usable entry whose end is page aligned, where no other one begins. */
  lemma ExtraPagesAtBoot(raw: seq<RawEntry>, usablePages: nat, i: nat, p: nat)
    requires BitmapFits(ParsedAll(raw), usablePages) && Chosen(ParsedAll(raw), usablePages, i)
    requires Aligned(raw[i].range).length > usablePages
    requires forall k :: 0 <= k < |raw| ==>
      Word64(raw[k].range) && raw[k].range.length + raw[k].range.base % PAGE_SIZE < TWO_64 - PAGE_SIZE
    ensures var bitmap := Block(Aligned(raw[i].range).base / PAGE_SIZE, usablePages / PAGE_SIZE + 1);
      var free := UsableOf(ParsedAll(raw)) + bitmap;
      && (RawUsable(raw, p) ==> p in free)
      && (p in free && !RawUsable(raw, p) <==>
            !RawUsable(raw, p)
            && exists k :: 0 <= k < |raw| && raw[k].kind % 0x1_0000 == USABLE && EndsBefore(raw[k].range, p))
  {
    hide UsableOf, BitmapFits, Chosen, Aligned, Word64;
    BootFreesUsable(raw, usablePages, i, p);
    forall k | 0 <= k < |raw|
      ensures HasPage(Aligned(raw[k].range), p) <==> Touches(raw[k].range, p) || EndsBefore(raw[k].range, p)
    {
      AlignedPagesIff(raw[k].range, p);
    }
  }

  // ----- Allocations of more than one page -----

  /** Start of the first run of `count` free pages at or above `from` and below `limit`. */
  ghost function RunStart(clear: set<nat>, from: nat, count: nat, limit: nat): (r: Option<nat>)
    requires count >= 1
    ensures r.Some? ==>
      && from <= r.value && r.value + count <= limit && Block(r.value, count) <= clear
      && forall t: nat :: from <= t < r.value ==> !(Block(t, count) <= clear)
    ensures r == None ==> forall t: nat :: from <= t && t + count <= limit ==> !(Block(t, count) <= clear)
    decreases limit - from
  {
    if from + count > limit then None
    else if Block(from, count) <= clear then Some(from)
    else RunStart(clear, from + 1, count, limit)
  }

  /** Start of the first run of `count` free pages from `last` on, or else of the first run of all. */
  ghost function FirstRun(clear: set<nat>, last: nat, count: nat, limit: nat): Option<nat> {
    if count == 0 then None
    else
      var r := RunStart(clear, last, count, limit);
      if r.Some? then r else RunStart(clear, 0, count, limit)
  }

  lemma RunIsBlock(clear: set<nat>, from: nat, i: nat, count: nat)
    requires count >= 1
    ensures EndsRun(clear, from, i, count) <==> from + count <= i + 1 && Block(i + 1 - count, count) <= clear
  {
  }

  /** The end of the first run from `from` on. */
  lemma RunStartEnds(clear: set<nat>, from: nat, count: nat, limit: nat)
    requires count >= 1
    ensures RunStart(clear, from, count, limit) == None <==> NoRun(clear, from, count, limit)
    ensures forall i: nat ::
      FirstEnd(clear, from, i, count, limit)
      <==> (i + 1 >= count && RunStart(clear, from, count, limit) == Some(i + 1 - count))
  {
    var r := RunStart(clear, from, count, limit);
    forall i: nat ensures EndsRun(clear, from, i, count)
      <==> from + count <= i + 1 && Block(i + 1 - count, count) <= clear
    {
      RunIsBlock(clear, from, i, count);
    }
    if r.Some? {
      assert EndsRun(clear, from, r.value + count - 1, count);
    }
  }

  /** What a search answers, in terms of the free pages and the place where it begins. */
  lemma AnswerIsFirstRun(clear: set<nat>, last: nat, count: nat, limit: nat, r: Option<nat>)
    ensures Answer(clear, last, count, limit, r) <==>
      if FirstRun(clear, last, count, limit) == None then r == None
      else r == Some(FirstRun(clear, last, count, limit).value + count - 1)
  {
    if count >= 1 {
      RunStartEnds(clear, last, count, limit);
      RunStartEnds(clear, 0, count, limit);
    }
  }

  /** An allocation of `count` pages finds the first run of that length but takes the pages from the
      run's last page on: all of them were free if and only if the run goes on for 2 * count - 1. */
  lemma ExclusiveIff(clear: set<nat>, last: nat, count: nat, limit: nat, p: nat)
    requires Answer(clear, last, count, limit, Some(p))
    ensures FirstRun(clear, last, count, limit).Some?
    ensures var b := FirstRun(clear, last, count, limit).value;
      p == b + count - 1 && (Block(p, count) <= clear <==> Block(b, 2 * count - 1) <= clear)
  {
    AnswerIsFirstRun(clear, last, count, limit, Some(p));
    var b := FirstRun(clear, last, count, limit).value;
    assert Block(b, 2 * count - 1) == Block(b, count) + Block(p, count);
  }

  /** One page at a time is always exclusive. */
  lemma OnePageIsExclusive(clear: set<nat>, last: nat, limit: nat, p: nat)
    requires Answer(clear, last, 1, limit, Some(p))
    ensures p in clear && p < limit && Block(p, 1) == {p}
  {
  }

  /** Two pages are not: with pages 0 and 1 free, an allocation of two takes 1 and 2. */
  lemma TwoPagesOverrun()
    ensures FirstRun({0, 1}, 0, 2, 3) == Some(0) && !(Block(0, 3) <= {0, 1})
    ensures Answer({0, 1}, 0, 2, 3, Some(1)) && !(Block(1, 2) <= {0, 1})
  {
    assert Block(0, 2) <= {0, 1};
    AnswerIsFirstRun({0, 1}, 0, 2, 3, Some(1));
    assert 2 in Block(1, 2) && 2 in Block(0, 3);
  }
}
