/** libk/range.c: address ranges and their rounding to pages, in 64-bit unsigned arithmetic. */
module Ranges {
  import opened Words

  datatype AddrRange = AddrRange(base: nat, length: nat)

  predicate IsPageAligned(r: AddrRange) { r.base % PAGE_SIZE == 0 && r.length % PAGE_SIZE == 0 }

  predicate Word64(r: AddrRange) { r.base < TWO_64 && r.length < TWO_64 }

  /** [base, base + length) of a lies in that of b. */
  predicate Inside(a: AddrRange, b: AddrRange) {
    b.base <= a.base && a.base + a.length <= b.base + b.length
  }

  /** A page-rounded range as the program computes it. */
  function Aligned(r: AddrRange): AddrRange {
    var align := r.base % PAGE_SIZE;
    var length := (r.length + align) % TWO_64;
    AddrRange(r.base - align, (length + (PAGE_SIZE - length % PAGE_SIZE)) % TWO_64)
  }

  /** align_range, which writes its argument in place. */
  method AlignRange(self: AddrRange) returns (r: AddrRange)
    ensures r == Aligned(self)
  {
    r := self;
    var align := r.base % PAGE_SIZE;
    r := r.(base := r.base - align);
    r := r.(length := (r.length + align) % TWO_64);
    r := r.(length := (r.length + (PAGE_SIZE - r.length % PAGE_SIZE)) % TWO_64);
  }

  /** Rounding always gives whole pages and starts less than a page early. */
  lemma AlignedIsAligned(r: AddrRange)
    ensures IsPageAligned(Aligned(r))
    ensures Aligned(r).base <= r.base < Aligned(r).base + PAGE_SIZE
  {
    var align := r.base % PAGE_SIZE;
    var length := (r.length + align) % TWO_64;
    assert (length + (PAGE_SIZE - length % PAGE_SIZE)) % PAGE_SIZE == 0;
  }

  /** The rounded range contains the raw one exactly when the length does not come within a page
      of the word size; then it ends 1 to PAGE_SIZE bytes after the raw one. */
  lemma AlignedContainsIff(r: AddrRange)
    requires Word64(r)
    ensures Inside(r, Aligned(r)) <==> r.length + r.base % PAGE_SIZE < TWO_64 - PAGE_SIZE
    ensures Inside(r, Aligned(r)) ==>
      var over := Aligned(r).base + Aligned(r).length - (r.base + r.length); 1 <= over <= PAGE_SIZE
  {
  }

  /** Rounding a range that is page aligned already adds a whole page. */
  lemma AlignedAddsPage(r: AddrRange)
    requires IsPageAligned(r) && r.length < TWO_64 - PAGE_SIZE
    ensures Aligned(r) == AddrRange(r.base, r.length + PAGE_SIZE)
  {
  }

  predicate HasPage(r: AddrRange, p: nat) { r.base / PAGE_SIZE <= p < (r.base + r.length) / PAGE_SIZE }

  /** Some byte of r lies in page p. */
  predicate Touches(r: AddrRange, p: nat) {
    r.length > 0 && r.base / PAGE_SIZE <= p <= (r.base + r.length - 1) / PAGE_SIZE
  }

  /** r has no byte in its last page: it ends where that page begins, or is empty. */
  predicate EndsBefore(r: AddrRange, p: nat) {
    p == (r.base + r.length) / PAGE_SIZE && ((r.base + r.length) % PAGE_SIZE == 0 || r.length == 0)
  }

  /** The pages of the rounded range are those that the raw range touches, and the page where it ends
      if that end is page aligned or the range is empty. */
  lemma AlignedPagesIff(r: AddrRange, p: nat)
    requires Word64(r) && r.length + r.base % PAGE_SIZE < TWO_64 - PAGE_SIZE
    ensures HasPage(Aligned(r), p) <==> Touches(r, p) || EndsBefore(r, p)
    ensures EndsBefore(r, p) ==> !Touches(r, p)
  {
    AlignedEnd(r);
    if r.length > 0 { LastPage(r); }
  }

  /** The rounded range ends one page after the page in which the raw one ends. */
  lemma AlignedEnd(r: AddrRange)
    requires Word64(r) && r.length + r.base % PAGE_SIZE < TWO_64 - PAGE_SIZE
    ensures Aligned(r).base / PAGE_SIZE == r.base / PAGE_SIZE
    ensures (Aligned(r).base + Aligned(r).length) / PAGE_SIZE == (r.base + r.length) / PAGE_SIZE + 1
  {
    var q, n := r.base / PAGE_SIZE, r.length + r.base % PAGE_SIZE;
    AlignedParts(r);
    PagesSum(q, n);
    PagesSum(q, (n / PAGE_SIZE + 1) * PAGE_SIZE);
  }

  /** Base and length of the rounded range, when nothing wraps. */
  lemma AlignedParts(r: AddrRange)
    requires Word64(r) && r.length + r.base % PAGE_SIZE < TWO_64 - PAGE_SIZE
    ensures var q, n := r.base / PAGE_SIZE, r.length + r.base % PAGE_SIZE;
      r.base + r.length == q * PAGE_SIZE + n
      && Aligned(r) == AddrRange(q * PAGE_SIZE, (n / PAGE_SIZE + 1) * PAGE_SIZE)
  {
    var n := r.length + r.base % PAGE_SIZE;
    assert n % TWO_64 == n;
    var m := n + (PAGE_SIZE - n % PAGE_SIZE);
    assert m == (n / PAGE_SIZE + 1) * PAGE_SIZE && m % TWO_64 == m;
  }

  lemma PagesSum(q: nat, n: nat)
    ensures (q * PAGE_SIZE + n) / PAGE_SIZE == q + n / PAGE_SIZE
  {
  }

  lemma LastPage(r: AddrRange)
    requires r.length > 0
    ensures (r.base + r.length - 1) / PAGE_SIZE
         == if (r.base + r.length) % PAGE_SIZE == 0 then (r.base + r.length) / PAGE_SIZE - 1
            else (r.base + r.length) / PAGE_SIZE
  {
  }

  /** Adding to a wrapped 64-bit sum. */
  lemma AddWrapped(a: nat, b: nat)
    ensures (a % TWO_64 + b) % TWO_64 == (a + b) % TWO_64
  {
  }

  function CountPages(self: AddrRange): nat {
    (if IsPageAligned(self) then self else Aligned(self)).length / PAGE_SIZE
  }

  /** range_count_page counts the pages of an aligned range, and of another one those from the page in
      which it begins to the page in which it ends. */
  lemma CountPagesExactly(r: AddrRange)
    requires Word64(r) && r.length + r.base % PAGE_SIZE < TWO_64 - PAGE_SIZE
    ensures if IsPageAligned(r) then CountPages(r) * PAGE_SIZE == r.length
            else CountPages(r) == (r.base + r.length) / PAGE_SIZE - r.base / PAGE_SIZE + 1
  {
    if !IsPageAligned(r) {
      AlignedParts(r);
      PagesSum(r.base / PAGE_SIZE, r.length + r.base % PAGE_SIZE);
    }
  }

  /** range_count_page counts pages that cover the range. */
  lemma CountCovers(r: AddrRange)
    requires Word64(r) && r.length + r.base % PAGE_SIZE < TWO_64 - PAGE_SIZE
    ensures r.base + r.length <= r.base - r.base % PAGE_SIZE + CountPages(r) * PAGE_SIZE
  {
    if !IsPageAligned(r) {
      AlignedIsAligned(r);
      AlignedContainsIff(r);
    }
  }
}
