/** What the functions of HeapModel keep and promise. */
module HeapLemmas {
  import opened Words
  import opened HeapModel

  // ----- Sums -----

  lemma {:induction false} UsedConcat(a: seq<Minor>, b: seq<Minor>)
    ensures Used(a + b) == Used(a) + Used(b)
    ensures LiveSize(a + b) == LiveSize(a) + LiveSize(b)
  {
    if b == [] {
      assert a + b == a;
    } else {
      assert (a + b)[..|a + b|-1] == a + b[..|b|-1];
      UsedConcat(a, b[..|b|-1]);
    }
  }

  lemma UsedInsert(ms: seq<Minor>, k: nat, m: Minor)
    requires k <= |ms|
    ensures Used(InsertAt(ms, k, m)) == Used(ms) + MINOR_HEADER + m.size
    ensures LiveSize(InsertAt(ms, k, m)) == LiveSize(ms) + m.size
  {
    assert [m][..0] == [];
    assert ms == ms[..k] + ms[k..];
    UsedConcat(ms[..k], ms[k..]);
    UsedConcat(ms[..k], [m]);
    UsedConcat(ms[..k] + [m], ms[k..]);
  }

  lemma RemoveInsert<T>(ms: seq<T>, k: nat)
    requires k < |ms|
    ensures InsertAt(RemoveAt(ms, k), k, ms[k]) == ms
  {
  }

  lemma InsertRemove<T>(ms: seq<T>, k: nat, m: T)
    requires k <= |ms|
    ensures RemoveAt(InsertAt(ms, k, m), k) == ms
  {
  }

  lemma {:induction false} SumsConcat(a: seq<Major>, b: seq<Major>)
    ensures InUse(a + b) == InUse(a) + InUse(b)
    ensures Allocated(a + b) == Allocated(a) + Allocated(b)
  {
    if b == [] {
      assert a + b == a;
    } else {
      assert (a + b)[..|a + b|-1] == a + b[..|b|-1];
      SumsConcat(a, b[..|b|-1]);
    }
  }

  lemma SumsOne(j: Major)
    ensures InUse([j]) == LiveSize(j.minors) && Allocated([j]) == j.size
  {
    assert [j][..0] == [];
  }

  lemma SumsSplit(majs: seq<Major>, i: nat)
    requires i < |majs|
    ensures InUse(majs) == InUse(majs[..i]) + LiveSize(majs[i].minors) + InUse(majs[i+1..])
    ensures Allocated(majs) == Allocated(majs[..i]) + majs[i].size + Allocated(majs[i+1..])
  {
    hide InUse, Allocated, LiveSize;
    assert majs == majs[..i] + ([majs[i]] + majs[i+1..]);
    SumsOne(majs[i]);
    SumsConcat([majs[i]], majs[i+1..]);
    SumsConcat(majs[..i], [majs[i]] + majs[i+1..]);
  }

  lemma SumsUpdate(majs: seq<Major>, i: nat, j: Major)
    requires i < |majs|
    ensures InUse(majs[i := j]) == InUse(majs) - LiveSize(majs[i].minors) + LiveSize(j.minors)
    ensures Allocated(majs[i := j]) == Allocated(majs) - majs[i].size + j.size
  {
    SumsSplit(majs, i);
    SumsSplit(majs[i := j], i);
    assert majs[i := j][..i] == majs[..i] && majs[i := j][i+1..] == majs[i+1..];
  }

  lemma SumsRemove(majs: seq<Major>, i: nat)
    requires i < |majs|
    ensures InUse(RemoveAt(majs, i)) == InUse(majs) - LiveSize(majs[i].minors)
    ensures Allocated(RemoveAt(majs, i)) == Allocated(majs) - majs[i].size
  {
    SumsSplit(majs, i);
    SumsConcat(majs[..i], majs[i+1..]);
  }

  lemma SumsAppend(majs: seq<Major>, j: Major)
    ensures InUse(majs + [j]) == InUse(majs) + LiveSize(j.minors)
    ensures Allocated(majs + [j]) == Allocated(majs) + j.size
  {
    SumsOne(j);
    SumsConcat(majs, [j]);
  }

  // ----- Gaps -----

  lemma GapsNonNegative(j: Major, k: nat)
    requires MajorOk(j) && k <= |j.minors|
    ensures Gap(j, k) >= 0
  {
  }

  lemma {:induction false} GapSumPrefix(j: Major, k: nat)
    requires k <= |j.minors|
    ensures GapSum(j, k) == GapStart(j, k) - j.addr - MAJOR_HEADER - Used(j.minors[..k])
  {
    if k > 0 {
      GapSumPrefix(j, k-1);
      assert j.minors[..k][..k-1] == j.minors[..k-1];
    }
  }

  /** The gaps of a major add up to its free space. */
  lemma GapsAddUp(j: Major)
    ensures GapSum(j, |j.minors| + 1) == Room(j)
  {
    GapSumPrefix(j, |j.minors|);
    assert j.minors[..|j.minors|] == j.minors;
  }

  lemma {:induction false} GapWithinSum(j: Major, k: nat, n: nat)
    requires MajorOk(j) && k < n <= |j.minors| + 1
    ensures 0 <= Gap(j, k) <= GapSum(j, n)
  {
    if n == k + 1 {
      GapSumNonNegative(j, k);
    } else {
      GapWithinSum(j, k, n-1);
    }
    GapsNonNegative(j, n-1);
    GapsNonNegative(j, k);
  }

  lemma {:induction false} GapSumNonNegative(j: Major, n: nat)
    requires MajorOk(j) && n <= |j.minors| + 1
    ensures GapSum(j, n) >= 0
  {
    if n > 0 {
      GapSumNonNegative(j, n-1);
      GapsNonNegative(j, n-1);
    }
  }

  /** Why case 1 may skip a major without looking at its minors. */
  lemma TooFullMeansNoGap(j: Major, need: nat)
    requires MajorOk(j) && Room(j) < need
    ensures !Fits(j, need)
    ensures forall k :: 0 <= k <= |j.minors| ==> Gap(j, k) < need
  {
    GapsAddUp(j);
    forall k | 0 <= k <= |j.minors| ensures Gap(j, k) < need {
      GapWithinSum(j, k, |j.minors| + 1);
    }
  }

  lemma FreeNonNegative(j: Major)
    requires MajorOk(j)
    ensures 0 <= Room(j) <= j.size
  {
    GapsAddUp(j);
    GapSumNonNegative(j, |j.minors| + 1);
  }

  /** The gap found is the lowest that is large enough. */
  lemma FitsMeansGap(j: Major, need: nat)
    ensures Fits(j, need) <==> exists k :: 0 <= k <= |j.minors| && Gap(j, k) >= need
  {
  }

  // ----- A new major -----

  /** The pages asked for hold what is required, in 32 bits, and are no more than needed. */
  lemma PagesCover(size: nat)
    ensures var st := (size % TWO_32 + MAJOR_HEADER + MINOR_HEADER) % TWO_32;
      st <= PagesFor(size) * PAGE_SIZE && (PagesFor(size) - 1) * PAGE_SIZE < if st > 0xf000 then st else 0x1_0000
  {
  }

  /** The size of a new major covers the request exactly when the 32-bit computation did not wrap. */
  lemma BytesCoverIff(size: nat)
    ensures BytesFor(size) < TWO_32
    ensures BytesFor(size) >= size + MAJOR_HEADER + MINOR_HEADER
       <==> size + MAJOR_HEADER + MINOR_HEADER <= TWO_32 - PAGE_SIZE
    ensures size + MAJOR_HEADER + MINOR_HEADER <= TWO_32 - PAGE_SIZE ==> BytesFor(size) == PagesFor(size) * PAGE_SIZE
  {
    hide PagesFor;
    var total := size + MAJOR_HEADER + MINOR_HEADER;
    PagesCover(size);
    if total < TWO_32 {
      assert size % TWO_32 == size && total % TWO_32 == total;
    }
  }

  /** The only gap of a new major. */
  lemma NewMajorGap(page: nat, size: nat)
    ensures var j := NewMajor(page, size);
      Gap(j, 0) == BytesFor(size) - MAJOR_HEADER == Room(j)
      && (Fits(j, size + MINOR_HEADER) <==> BytesFor(size) >= size + MAJOR_HEADER + MINOR_HEADER)
      && (Fits(j, size + MINOR_HEADER) <==> FirstGap(j, size + MINOR_HEADER, 0) == 0)
  {
    hide BytesFor;
    assert Used([]) == 0;
  }

  /** A new major holds the request that made the program ask for it exactly when the 32-bit
      computation of its size did not wrap. */
  lemma NewMajorFitsIff(page: nat, size: nat)
    ensures Fits(NewMajor(page, size), size + MINOR_HEADER)
       <==> size + MAJOR_HEADER + MINOR_HEADER <= TWO_32 - PAGE_SIZE
  {
    hide Fits, BytesFor;
    NewMajorGap(page, size);
    BytesCoverIff(size);
  }

  /** Case 2 does not look at the size: the minor it puts into a major that case 1 has just made stays
      inside that major exactly under the same bound. */
  lemma FallThroughFitsIff(page: nat, req: nat)
    ensures var size := req + ALIGNMENT + ALIGN_INFO; var j := NewMajor(page, size);
      Minor(GapStart(j, 0), size, req).End() <= j.End() <==> Sane(req)
  {
    hide BytesFor;
    BytesCoverIff(req + ALIGNMENT + ALIGN_INFO);
  }

  /** Beyond the bound the major would no longer be well-formed. */
  lemma FallThroughBreaks(page: nat, req: nat)
    requires !Sane(req)
    ensures var size := req + ALIGNMENT + ALIGN_INFO; var j := NewMajor(page, size);
      !MajorOk(j.(minors := [Minor(GapStart(j, 0), size, req)]))
  {
    hide BytesFor;
    var size := req + ALIGNMENT + ALIGN_INFO;
    var j := NewMajor(page, size);
    FallThroughFitsIff(page, req);
    var m := Minor(GapStart(j, 0), size, req);
    assert [m][0].End() > j.End();
  }

  lemma NewMajorOk(page: nat, size: nat)
    requires page != NULL && page + BytesFor(size) <= TWO_64
    requires size + MAJOR_HEADER + MINOR_HEADER <= TWO_32 - PAGE_SIZE
    ensures MajorOk(NewMajor(page, size))
    ensures Room(NewMajor(page, size)) >= size + MINOR_HEADER
    ensures FirstGap(NewMajor(page, size), size + MINOR_HEADER, 0) == 0
  {
    hide Fits, BytesFor, PagesFor, FirstGap, Room;
    NewMajorGap(page, size);
    BytesCoverIff(size);
  }
}
