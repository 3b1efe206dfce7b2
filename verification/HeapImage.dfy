/** How a heap value lies in memory: the header maps that the pointer program reads and writes,
    and what changing a few links does to the value they stand for. */
module HeapImage {
  import opened Words
  import opened HeapModel
  import opened HeapLemmas
  import opened HeapLaws
  import opened HeapRealloc

  datatype MajorHeader = MajorHeader(prev: nat, next: nat, pages: nat, size: nat, usage: nat, first: nat)
  datatype MinorHeader = MinorHeader(prev: nat, next: nat, block: nat, magic: nat, size: nat, req: nat)

  type Majors = map<nat, MajorHeader>
  type Minors = map<nat, MinorHeader>

  function AddrAt(majs: seq<Major>, i: int): nat {
    if 0 <= i < |majs| then majs[i].addr else NULL
  }

  function MinorAt(j: Major, k: int): nat {
    if 0 <= k < |j.minors| then j.minors[k].addr else NULL
  }

  function MajorImage(majs: seq<Major>, i: nat): MajorHeader
    requires i < |majs|
  {
    MajorHeader(AddrAt(majs, i-1), AddrAt(majs, i+1), majs[i].pages, majs[i].size, Usage(majs[i]), MinorAt(majs[i], 0))
  }

  function MinorImage(j: Major, k: nat): MinorHeader
    requires k < |j.minors|
  {
    MinorHeader(MinorAt(j, k-1), MinorAt(j, k+1), j.addr, MAGIC, j.minors[k].size, j.minors[k].req)
  }

  ghost predicate MajorsRepr(majs: seq<Major>, M: Majors) {
    forall i :: 0 <= i < |majs| ==> majs[i].addr in M && M[majs[i].addr] == MajorImage(majs, i)
  }

  ghost predicate MinorsRepr(majs: seq<Major>, N: Minors) {
    forall i, k :: 0 <= i < |majs| && 0 <= k < |majs[i].minors| ==>
      majs[i].minors[k].addr in N && N[majs[i].minors[k].addr] == MinorImage(majs[i], k)
  }

  /** A header with the magic number is that of a live minor. */
  ghost predicate MagicIsLive(majs: seq<Major>, N: Minors) {
    forall a :: a in N && N[a].magic == MAGIC ==> Live(majs, a)
  }

  ghost predicate Repr(majs: seq<Major>, M: Majors, N: Minors) {
    MajorsRepr(majs, M) && MinorsRepr(majs, N) && MagicIsLive(majs, N)
  }

  /** The freed headers still in memory. */
  function DeadOf(N: Minors): map<nat, nat> {
    map a | a in N && N[a].magic != MAGIC :: N[a].magic
  }

  // ----- What the program reads -----

  lemma ReadMajor(majs: seq<Major>, M: Majors, N: Minors, i: nat)
    requires Shape(majs) && Repr(majs, M, N) && i < |majs|
    ensures majs[i].addr != NULL && majs[i].addr in M && M[majs[i].addr] == MajorImage(majs, i)
    ensures Usage(majs[i]) <= majs[i].size
    ensures majs[i].minors != [] ==> MinorAt(majs[i], 0) != NULL
    ensures AddrAt(majs, i+1) == NULL <==> i + 1 == |majs|
  {
    FreeNonNegative(majs[i]);
    if majs[i].minors != [] { MinorInMajor(majs[i], 0); }
  }

  /** Case 1 skips a major that has no gap for the request. */
  lemma NoGapHere(majs: seq<Major>, M: Majors, N: Minors, i: nat, need: nat)
    requires Shape(majs) && Repr(majs, M, N) && i < |majs|
    requires majs[i].addr in M && M[majs[i].addr].size - M[majs[i].addr].usage < need
    ensures !Fits(majs[i], need) && Room(majs[i]) < need
  {
    TooFullMeansNoGap(majs[i], need);
  }

  lemma ReadMinor(majs: seq<Major>, M: Majors, N: Minors, i: nat, k: nat)
    requires Shape(majs) && Repr(majs, M, N) && i < |majs| && k < |majs[i].minors|
    ensures majs[i].addr in M && M[majs[i].addr].size == majs[i].size
    ensures var j := majs[i];
      && j.minors[k].addr in N && N[j.minors[k].addr] == MinorImage(j, k)
      && (MinorAt(j, k+1) == NULL <==> k + 1 == |j.minors|)
  {
    if k + 1 < |majs[i].minors| { MinorInMajor(majs[i], k + 1); }
  }

  lemma FirstGapIs(j: Major, need: nat, k: nat)
    requires k <= |j.minors| && Gap(j, k) >= need
    requires forall t :: 0 <= t < k ==> Gap(j, t) < need
    ensures FirstGap(j, need, 0) == k
  {
  }

  // ----- A new major at the end -----

  /** Linking a new, empty major behind the last one. */
  lemma GrowRepr(s: State, page: nat, size: nat, M: Majors, N: Minors, M': Majors)
    requires Shape(s.majs) && Repr(s.majs, M, N)
    requires page != NULL && PageOk(s.majs, page, size) && MajorOk(NewMajor(page, size))
    requires page in M' && M'[page] == MajorImage(Grow(s, page, size).majs, |s.majs|)
    requires forall t :: 0 <= t < |s.majs| ==>
      && s.majs[t].addr in M'
      && M'[s.majs[t].addr] == if t == |s.majs| - 1 then M[s.majs[t].addr].(next := page) else M[s.majs[t].addr]
    ensures Repr(Grow(s, page, size).majs, M', Clobber(N, page, MAJOR_HEADER))
    ensures DeadOf(Clobber(N, page, MAJOR_HEADER)) == Clobber(DeadOf(N), page, MAJOR_HEADER)
  {
    hide Live, MajorOk, Repr, Shape, Apart, MinorsRepr, Clobber;
    ReprParts(s.majs, M, N);
    GrowReprMinors(s, page, size, N);
    ReprParts(Grow(s, page, size).majs, M', Clobber(N, page, MAJOR_HEADER));
  }

  lemma ReprParts(majs: seq<Major>, M: Majors, N: Minors)
    ensures Repr(majs, M, N) <==> MajorsRepr(majs, M) && MinorsRepr(majs, N) && MagicIsLive(majs, N)
  {
  }

  lemma GrowReprMinors(s: State, page: nat, size: nat, N: Minors)
    requires Shape(s.majs) && MinorsRepr(s.majs, N) && MagicIsLive(s.majs, N)
    requires page != NULL && PageOk(s.majs, page, size) && MajorOk(NewMajor(page, size))
    ensures MinorsRepr(Grow(s, page, size).majs, Clobber(N, page, MAJOR_HEADER))
    ensures MagicIsLive(Grow(s, page, size).majs, Clobber(N, page, MAJOR_HEADER))
    ensures DeadOf(Clobber(N, page, MAJOR_HEADER)) == Clobber(DeadOf(N), page, MAJOR_HEADER)
  {
    hide Live, MajorOk;
    var majs' := Grow(s, page, size).majs;
    var N' := Clobber(N, page, MAJOR_HEADER);
    forall i, k | 0 <= i < |majs'| && 0 <= k < |majs'[i].minors|
      ensures majs'[i].minors[k].addr in N' && N'[majs'[i].minors[k].addr] == MinorImage(majs'[i], k)
    {
      assert majs'[i] == s.majs[i];
      assert Apart(s.majs[i], NewMajor(page, size));
      NewMajorSize(page, size);
      MinorInMajor(s.majs[i], k);
    }
    forall a | a in N' && N'[a].magic == MAGIC ensures Live(majs', a) {
      LiveAfterGrow(s, page, size, a);
    }
  }

  lemma NewMajorSize(page: nat, size: nat)
    requires MajorOk(NewMajor(page, size))
    ensures BytesFor(size) >= MAJOR_HEADER
  {
  }

  lemma MinorInMajor(j: Major, k: nat)
    requires MajorOk(j) && k < |j.minors|
    ensures j.addr + MAJOR_HEADER <= j.minors[k].addr && j.minors[k].addr + MINOR_HEADER <= j.End()
  {
  }

  lemma NewMajorImage(s: State, page: nat, size: nat)
    ensures MajorImage(Grow(s, page, size).majs, |s.majs|)
         == MajorHeader(AddrAt(s.majs, |s.majs| - 1), NULL, PagesFor(size), BytesFor(size), MAJOR_HEADER, NULL)
  {
    assert Used([]) == 0;
  }

  /** The header maps once a new major hangs behind the last one. */
  lemma LastMajorLinked(s: State, page: nat, size: nat, M: Majors, N: Minors, M': Majors)
    requires Shape(s.majs) && Repr(s.majs, M, N) && s.majs != []
    requires page != NULL && PageOk(s.majs, page, size)
    requires size + MAJOR_HEADER + MINOR_HEADER <= TWO_32 - PAGE_SIZE
    requires var last := s.majs[|s.majs|-1].addr;
      && last in M
      && M' == M[page := MajorHeader(last, NULL, PagesFor(size), BytesFor(size), MAJOR_HEADER, NULL)]
                [last := M[last].(next := page)]
    ensures Repr(Grow(s, page, size).majs, M', Clobber(N, page, MAJOR_HEADER))
    ensures DeadOf(Clobber(N, page, MAJOR_HEADER)) == Clobber(DeadOf(N), page, MAJOR_HEADER)
  {
    hide Shape, Repr, Clobber, DeadOf, BytesFor, PagesFor, MajorImage;
    NewMajorOk(page, size);
    NewMajorImage(s, page, size);
    forall t | 0 <= t < |s.majs|
      ensures s.majs[t].addr != page && s.majs[t].addr in M
      ensures t < |s.majs| - 1 ==> s.majs[t].addr != s.majs[|s.majs|-1].addr
    {
      NewMajorElsewhere(s.majs, page, size, t);
      ReadMajor(s.majs, M, N, t);
      if t < |s.majs| - 1 { MajorsApart(s.majs, t, |s.majs| - 1); }
    }
    GrowRepr(s, page, size, M, N, M');
  }

  lemma NewMajorElsewhere(majs: seq<Major>, page: nat, size: nat, t: nat)
    requires Shape(majs) && t < |majs| && page != NULL && PageOk(majs, page, size)
    requires MajorOk(NewMajor(page, size))
    ensures majs[t].addr != page
  {
    assert Apart(majs[t], NewMajor(page, size));
  }

  /** What the program reads before it links a new major behind the last one. */
  lemma BehindLast(majs: seq<Major>, M: Majors, N: Minors, page: nat, size: nat)
    requires Shape(majs) && Repr(majs, M, N) && majs != [] && PageOk(majs, page, size)
    requires size + MAJOR_HEADER + MINOR_HEADER <= TWO_32 - PAGE_SIZE
    ensures var last := majs[|majs|-1].addr;
      last in M && M[last] == M[last].(next := NULL) && (page != NULL ==> last != page)
    ensures AddrAt(majs + [NewMajor(page, size)], 0) == AddrAt(majs, 0)
  {
    hide Shape, Repr, PageOk;
    ReadMajor(majs, M, N, |majs| - 1);
    if page != NULL {
      BlockFits(majs, page, size);
      NewMajorOk(page, size);
      NewMajorElsewhere(majs, page, size, |majs| - 1);
    }
  }

  lemma BlockFits(majs: seq<Major>, page: nat, size: nat)
    requires PageOk(majs, page, size) && page != NULL
    ensures page + BytesFor(size) <= TWO_64
  {
  }

  lemma FirstMajorLinked(s: State, page: nat, size: nat, M: Majors, N: Minors, M': Majors)
    requires Repr(s.majs, M, N) && s.majs == []
    requires page != NULL && PageOk(s.majs, page, size)
    requires size + MAJOR_HEADER + MINOR_HEADER <= TWO_32 - PAGE_SIZE
    requires M' == M[page := MajorHeader(NULL, NULL, PagesFor(size), BytesFor(size), MAJOR_HEADER, NULL)]
    ensures Repr(Grow(s, page, size).majs, M', Clobber(N, page, MAJOR_HEADER))
    ensures DeadOf(Clobber(N, page, MAJOR_HEADER)) == Clobber(DeadOf(N), page, MAJOR_HEADER)
  {
    hide Repr, Clobber, DeadOf, BytesFor, PagesFor, MajorImage;
    NewMajorOk(page, size);
    NewMajorImage(s, page, size);
    GrowRepr(s, page, size, M, N, M');
  }

  // ----- A new minor -----

  /** Header and tag of the new minor overlap no live header. */
  lemma PlaceClearsNoHeader(s: State, i: nat, k: nat, size: nat, req: nat, x: nat, y: nat)
    requires Shape(s.majs) && CanPlace(s, i, k, size, req)
    requires x < |s.majs| && y < |s.majs[x].minors|
    ensures var a := GapStart(s.majs[i], k); var b := s.majs[x].minors[y].addr;
      && (b + MINOR_HEADER <= a || a + MINOR_HEADER <= b)
      && (b + MINOR_HEADER <= TagAddr(a) || TagAddr(a) + 1 <= b)
  {
    PlaceKeepsShape(s, i, k, size, req);
    var majs' := PlaceAt(s, i, k, size, req).majs;
    var y' := if x == i && y >= k then y + 1 else y;
    assert majs'[x].minors[y'] == s.majs[x].minors[y];
    MinorsApart(majs', x, y', i, k);
    PayloadInside(majs'[i].minors[k]);
  }

  /** Minor headers after a new one was linked in at (i, k): its neighbours point to it, and every
      other live header is as before. */
  ghost predicate LinkedIn(s: State, i: nat, k: nat, a: nat, N: Minors, N': Minors)
    requires i < |s.majs| && k <= |s.majs[i].minors|
  {
    forall x, y :: 0 <= x < |s.majs| && 0 <= y < |s.majs[x].minors| ==>
      var b := s.majs[x].minors[y].addr;
      && b in N && b in N'
      && N'[b] == if x == i && y == k - 1 then N[b].(next := a)
                  else if x == i && y == k then N[b].(prev := a) else N[b]
  }

  /** The header maps once a minor has been placed in gap k of major i. */
  lemma PlaceRepr(s: State, i: nat, k: nat, size: nat, req: nat, M: Majors, N: Minors, M': Majors, N': Minors)
    requires Shape(s.majs) && CanPlace(s, i, k, size, req) && Repr(s.majs, M, N)
    requires var s' := PlaceAt(s, i, k, size, req); var a := GapStart(s.majs[i], k);
      && M' == M[s.majs[i].addr := MajorImage(s'.majs, i)]
      && a in N' && N'[a] == MinorImage(s'.majs[i], k)
      && LinkedIn(s, i, k, a, N, N')
      && (forall b :: b in N' && N'[b].magic == MAGIC ==> b == a || (b in N && N[b].magic == MAGIC))
    ensures Repr(PlaceAt(s, i, k, size, req).majs, M', N')
  {
    PlaceReprMajors(s, i, k, size, req, M, M');
    PlaceReprMinors(s, i, k, size, req, N, N');
    forall a | a in N' && N'[a].magic == MAGIC ensures Live(PlaceAt(s, i, k, size, req).majs, a) {
      LiveAfterPlace(s, i, k, size, req, a);
    }
  }

  /** The headers of all majors when one of them gets other minors. */
  lemma MajorsReprUpdate(majs: seq<Major>, i: nat, j: Major, M: Majors)
    requires Shape(majs) && MajorsRepr(majs, M) && i < |majs| && j.addr == majs[i].addr
    ensures MajorsRepr(majs[i := j], M[j.addr := MajorImage(majs[i := j], i)])
  {
    hide Shape, Usage, MinorAt;
    var majs' := majs[i := j];
    var M' := M[j.addr := MajorImage(majs', i)];
    forall t | 0 <= t < |majs'| ensures majs'[t].addr in M' && M'[majs'[t].addr] == MajorImage(majs', t) {
      if t != i {
        MajorsApart(majs, t, i);
        assert majs'[t] == majs[t];
        assert AddrAt(majs', t-1) == AddrAt(majs, t-1) && AddrAt(majs', t+1) == AddrAt(majs, t+1);
      }
    }
  }

  lemma PlaceReprMajors(s: State, i: nat, k: nat, size: nat, req: nat, M: Majors, M': Majors)
    requires Shape(s.majs) && CanPlace(s, i, k, size, req) && MajorsRepr(s.majs, M)
    requires M' == M[s.majs[i].addr := MajorImage(PlaceAt(s, i, k, size, req).majs, i)]
    ensures MajorsRepr(PlaceAt(s, i, k, size, req).majs, M')
  {
    hide Shape, MajorsRepr, MajorImage, Gap;
    MajorsReprUpdate(s.majs, i, PlaceAt(s, i, k, size, req).majs[i], M);
  }

  lemma PlaceReprMinors(s: State, i: nat, k: nat, size: nat, req: nat, N: Minors, N': Minors)
    requires Shape(s.majs) && CanPlace(s, i, k, size, req) && MinorsRepr(s.majs, N)
    requires GapStart(s.majs[i], k) in N'
    requires N'[GapStart(s.majs[i], k)] == MinorImage(PlaceAt(s, i, k, size, req).majs[i], k)
    requires LinkedIn(s, i, k, GapStart(s.majs[i], k), N, N')
    ensures MinorsRepr(PlaceAt(s, i, k, size, req).majs, N')
  {
    hide Shape, Gap, MinorImage, MinorAt, GapStart;
    var majs' := PlaceAt(s, i, k, size, req).majs;
    forall x, y | 0 <= x < |majs'| && 0 <= y < |majs'[x].minors|
      ensures majs'[x].minors[y].addr in N' && N'[majs'[x].minors[y].addr] == MinorImage(majs'[x], y)
    {
      if x != i {
        assert s.majs[x].minors[y].addr in N';
      } else if y != k {
        InsertImage(s.majs[i], k, Minor(GapStart(s.majs[i], k), size, req), y);
        assert s.majs[x].minors[Before(i, k, x, y)].addr in N';
      } else {
        InsertIndex(s.majs[i].minors, k, Minor(GapStart(s.majs[i], k), size, req));
      }
    }
  }

  lemma InsertIndex<T>(ms: seq<T>, k: nat, m: T)
    requires k <= |ms|
    ensures |InsertAt(ms, k, m)| == |ms| + 1
    ensures forall t :: 0 <= t <= |ms| ==>
      InsertAt(ms, k, m)[t] == if t < k then ms[t] else if t == k then m else ms[t-1]
  {
  }

  lemma InsertImage(j: Major, k: nat, m: Minor, y: nat)
    requires k <= |j.minors| && y <= |j.minors| && y != k
    ensures var j' := j.(minors := InsertAt(j.minors, k, m)); var y' := if y > k then y - 1 else y;
      && |j'.minors| == |j.minors| + 1 && j'.minors[y] == j.minors[y']
      && MinorImage(j', y) == (if y' == k - 1 then MinorImage(j, y').(next := m.addr)
                               else if y' == k then MinorImage(j, y').(prev := m.addr) else MinorImage(j, y'))
  {
    InsertIndex(j.minors, k, m);
  }

  /** The neighbours of gap k of major i point to address a. */
  function Relinked(j: Major, k: nat, a: nat, N: Minors): Minors
    requires k <= |j.minors|
  {
    var prev, next := MinorAt(j, k-1), MinorAt(j, k);
    var N1 := if k > 0 && prev in N then N[prev := N[prev].(next := a)] else N;
    if k < |j.minors| && next in N1 then N1[next := N1[next].(prev := a)] else N1
  }

  /** The header maps after the writes of one placement. */
  function PlacedMinors(j: Major, k: nat, size: nat, req: nat, N: Minors): Minors
    requires k <= |j.minors|
  {
    var a := GapStart(j, k);
    var h := MinorHeader(MinorAt(j, k-1), MinorAt(j, k), j.addr, MAGIC, size, req);
    Clobber(Clobber(Relinked(j, k, a, N), a, MINOR_HEADER)[a := h], TagAddr(a), 1)
  }

  lemma RelinkedSame(j: Major, k: nat, a: nat, N: Minors, b: nat)
    requires k <= |j.minors|
    ensures b in Relinked(j, k, a, N) <==> b in N
    ensures b in N ==> Relinked(j, k, a, N)[b].magic == N[b].magic
  {
  }

  lemma RelinkedAt(s: State, i: nat, k: nat, N: Minors, x: nat, y: nat)
    requires Shape(s.majs) && MinorsRepr(s.majs, N) && i < |s.majs| && k <= |s.majs[i].minors|
    requires x < |s.majs| && y < |s.majs[x].minors|
    ensures var b := s.majs[x].minors[y].addr; var a := GapStart(s.majs[i], k);
      && b in N && b in Relinked(s.majs[i], k, a, N)
      && Relinked(s.majs[i], k, a, N)[b] == if x == i && y == k - 1 then N[b].(next := a)
                  else if x == i && y == k then N[b].(prev := a) else N[b]
  {
    hide Shape, MinorImage;
    if k > 0 && (x != i || y != k - 1) { MinorsApart(s.majs, x, y, i, k-1); }
    if k < |s.majs[i].minors| && (x != i || y != k) { MinorsApart(s.majs, x, y, i, k); }
  }

  lemma PlacedLinks(s: State, i: nat, k: nat, size: nat, req: nat, N: Minors)
    requires Shape(s.majs) && CanPlace(s, i, k, size, req) && MinorsRepr(s.majs, N)
    ensures LinkedIn(s, i, k, GapStart(s.majs[i], k), N, PlacedMinors(s.majs[i], k, size, req, N))
  {
    hide Shape, Gap, Relinked;
    forall x, y | 0 <= x < |s.majs| && 0 <= y < |s.majs[x].minors|
      ensures var b := s.majs[x].minors[y].addr; var a := GapStart(s.majs[i], k);
        var N' := PlacedMinors(s.majs[i], k, size, req, N);
        && b in N && b in N'
        && N'[b] == if x == i && y == k - 1 then N[b].(next := a)
                    else if x == i && y == k then N[b].(prev := a) else N[b]
    {
      PlaceClearsNoHeader(s, i, k, size, req, x, y);
      RelinkedAt(s, i, k, N, x, y);
    }
  }

  lemma PlacedDead(j: Major, k: nat, size: nat, req: nat, N: Minors)
    requires k <= |j.minors|
    ensures var a := GapStart(j, k);
      DeadOf(PlacedMinors(j, k, size, req, N)) == Clobber(Clobber(DeadOf(N), a, MINOR_HEADER), TagAddr(a), 1)
    ensures forall b :: b in PlacedMinors(j, k, size, req, N) && PlacedMinors(j, k, size, req, N)[b].magic == MAGIC ==>
      b == GapStart(j, k) || (b in N && N[b].magic == MAGIC)
  {
    hide Relinked, GapStart;
    var a := GapStart(j, k);
    forall b ensures b in Relinked(j, k, a, N) <==> b in N
             ensures b in N ==> Relinked(j, k, a, N)[b].magic == N[b].magic
    {
      RelinkedSame(j, k, a, N, b);
    }
  }

  lemma PlacedMajor(s: State, i: nat, k: nat, size: nat, req: nat)
    requires i < |s.majs| && k <= |s.majs[i].minors|
    ensures var h := MajorImage(s.majs, i);
      MajorImage(PlaceAt(s, i, k, size, req).majs, i)
      == h.(usage := h.usage + size + MINOR_HEADER, first := if k == 0 then GapStart(s.majs[i], k) else h.first)
  {
    UsedInsert(s.majs[i].minors, k, Minor(GapStart(s.majs[i], k), size, req));
  }

  lemma PlacedMinor(s: State, i: nat, k: nat, size: nat, req: nat)
    requires i < |s.majs| && k <= |s.majs[i].minors|
    ensures MinorImage(PlaceAt(s, i, k, size, req).majs[i], k)
         == MinorHeader(MinorAt(s.majs[i], k-1), MinorAt(s.majs[i], k), s.majs[i].addr, MAGIC, size, req)
  {
  }

  /** What the program reads before it places a minor in gap k of major i. */
  lemma BeforePlacing(s: State, i: nat, k: nat, size: nat, req: nat, M: Majors, N: Minors)
    requires Shape(s.majs) && CanPlace(s, i, k, size, req) && Repr(s.majs, M, N)
    ensures var j := s.majs[i];
      && j.addr in M && M[j.addr] == MajorImage(s.majs, i)
      && (k > 0 ==> j.minors[k-1].addr in N && N[j.minors[k-1].addr] == MinorImage(j, k-1))
      && (k < |j.minors| ==> j.minors[k].addr in N && N[j.minors[k].addr] == MinorImage(j, k))
      && (0 < k < |j.minors| ==> j.minors[k-1].addr != j.minors[k].addr)
  {
    if 0 < k < |s.majs[i].minors| { MinorsApart(s.majs, i, k-1, i, k); }
  }

  /** The maps after the writes of one placement stand for the heap with the minor placed. */
  lemma Placed(s: State, i: nat, k: nat, size: nat, req: nat, M: Majors, N: Minors, M': Majors, N': Minors)
    requires Shape(s.majs) && CanPlace(s, i, k, size, req) && Repr(s.majs, M, N) && s.dead == DeadOf(N)
    requires s.majs[i].addr in M
    requires var h := M[s.majs[i].addr];
      M' == M[s.majs[i].addr := h.(usage := h.usage + size + MINOR_HEADER,
                                   first := if k == 0 then GapStart(s.majs[i], k) else h.first)]
    requires N' == PlacedMinors(s.majs[i], k, size, req, N)
    ensures Repr(PlaceAt(s, i, k, size, req).majs, M', N')
    ensures DeadOf(N') == PlaceAt(s, i, k, size, req).dead
  {
    hide Shape, Gap, LinkedIn, MajorImage, MinorImage, MinorsRepr, MajorsRepr, MagicIsLive, Relinked, Used;
    BeforePlacing(s, i, k, size, req, M, N);
    PlacedLinks(s, i, k, size, req, N);
    PlacedDead(s.majs[i], k, size, req, N);
    PlacedMajor(s, i, k, size, req);
    PlacedMinor(s, i, k, size, req);
    NewHeaderStays(s.majs[i], k, size, req, N);
    PlaceRepr(s, i, k, size, req, M, N, M', N');
  }

  lemma ClobberSpares<T>(m: map<nat, T>, lo: nat, len: nat, b: nat)
    requires b in m && (b + MINOR_HEADER <= lo || lo + len <= b)
    ensures b in Clobber(m, lo, len) && Clobber(m, lo, len)[b] == m[b]
  {
  }

  /** The headers on both sides of a gap are not overwritten by a header put into it. */
  lemma NeighboursStay(s: State, i: nat, k: nat, size: nat, req: nat, M: Majors, N: Minors)
    requires Shape(s.majs) && CanPlace(s, i, k, size, req) && Repr(s.majs, M, N) && 0 < k < |s.majs[i].minors|
    ensures MinorsRepr(s.majs, N)
    ensures var a := GapStart(s.majs[i], k); var N' := Clobber(N, a, MINOR_HEADER);
      var prev, next := s.majs[i].minors[k-1].addr, s.majs[i].minors[k].addr;
      prev in N' && N'[prev] == N[prev] && next in N' && N'[next] == N[next] && prev != a && next != a && prev != next
  {
    hide Shape, Gap, Clobber;
    BeforePlacing(s, i, k, size, req, M, N);
    PlaceClearsNoHeader(s, i, k, size, req, i, k-1);
    PlaceClearsNoHeader(s, i, k, size, req, i, k);
    ClobberSpares(N, GapStart(s.majs[i], k), MINOR_HEADER, s.majs[i].minors[k].addr);
    ClobberSpares(N, GapStart(s.majs[i], k), MINOR_HEADER, s.majs[i].minors[k-1].addr);
  }

  /** Linking the neighbours after writing the new header comes to the same as before it. */
  lemma LinkAfterWrite(s: State, i: nat, k: nat, size: nat, req: nat, N: Minors, N': Minors)
    requires Shape(s.majs) && CanPlace(s, i, k, size, req) && MinorsRepr(s.majs, N)
    requires 0 < k < |s.majs[i].minors|
    requires s.majs[i].minors[k-1].addr in N && s.majs[i].minors[k].addr in N
    requires var a := GapStart(s.majs[i], k);
      var prev, next := s.majs[i].minors[k-1].addr, s.majs[i].minors[k].addr;
      var h := MinorHeader(prev, next, s.majs[i].addr, MAGIC, size, req);
      var N1 := Clobber(N, a, MINOR_HEADER)[a := h];
      N' == N1[next := N[next].(prev := a)][prev := N[prev].(next := a)]
    ensures var a := GapStart(s.majs[i], k);
      var h := MinorHeader(MinorAt(s.majs[i], k-1), MinorAt(s.majs[i], k), s.majs[i].addr, MAGIC, size, req);
      N' == Clobber(Relinked(s.majs[i], k, a, N), a, MINOR_HEADER)[a := h]
  {
    hide Shape, Gap, MinorsRepr;
    PlaceClearsNoHeader(s, i, k, size, req, i, k-1);
    PlaceClearsNoHeader(s, i, k, size, req, i, k);
    MinorsApart(s.majs, i, k-1, i, k);
  }

  lemma NewHeaderStays(j: Major, k: nat, size: nat, req: nat, N: Minors)
    requires k <= |j.minors|
    ensures var a := GapStart(j, k); var N' := PlacedMinors(j, k, size, req, N);
      a in N' && N'[a] == MinorHeader(MinorAt(j, k-1), MinorAt(j, k), j.addr, MAGIC, size, req)
  {
    hide Relinked, GapStart;
  }

  // ----- A minor taken out -----

  /** Minor headers after minor (i, k) was unlinked: its neighbours point past it, its own magic
      is gone, and every other live header is as before. */
  ghost predicate LinkedOut(s: State, i: nat, k: nat, N: Minors, N': Minors)
    requires i < |s.majs| && k < |s.majs[i].minors|
  {
    var j := s.majs[i];
    forall x, y :: 0 <= x < |s.majs| && 0 <= y < |s.majs[x].minors| && (x != i || y != k) ==>
      var b := s.majs[x].minors[y].addr;
      && b in N && b in N'
      && N'[b] == if x == i && y == k - 1 then N[b].(next := MinorAt(j, k+1))
                  else if x == i && y == k + 1 then N[b].(prev := MinorAt(j, k-1)) else N[b]
  }

  lemma UnlinkRepr(s: State, i: nat, k: nat, M: Majors, N: Minors, M': Majors, N': Minors)
    requires Shape(s.majs) && Repr(s.majs, M, N)
    requires i < |s.majs| && k < |s.majs[i].minors| && |s.majs[i].minors| > 1
    requires M' == M[s.majs[i].addr := MajorImage(Unlink(s, i, k).majs, i)]
    requires LinkedOut(s, i, k, N, N')
    requires forall b :: b in N' && N'[b].magic == MAGIC ==>
      b != s.majs[i].minors[k].addr && b in N && N[b].magic == MAGIC
    ensures Repr(Unlink(s, i, k).majs, M', N')
  {
    UnlinkReprMajors(s, i, k, M, M');
    UnlinkReprMinors(s, i, k, N, N');
    forall a | a in N' && N'[a].magic == MAGIC ensures Live(Unlink(s, i, k).majs, a) {
      LiveAfterFree(s, i, k, a);
    }
  }

  lemma UnlinkReprMajors(s: State, i: nat, k: nat, M: Majors, M': Majors)
    requires Shape(s.majs) && MajorsRepr(s.majs, M) && i < |s.majs| && k < |s.majs[i].minors|
    requires M' == M[s.majs[i].addr := MajorImage(Unlink(s, i, k).majs, i)]
    ensures MajorsRepr(Unlink(s, i, k).majs, M')
  {
    hide Shape, MajorsRepr, MajorImage;
    MajorsReprUpdate(s.majs, i, Without(s.majs[i], k), M);
  }

  lemma WithoutImage(j: Major, k: nat, y: nat)
    requires k < |j.minors| && y < |j.minors| - 1
    ensures var y' := if y >= k then y + 1 else y; var h := MinorImage(j, y');
      && Without(j, k).minors[y] == j.minors[y']
      && MinorImage(Without(j, k), y) == if y' == k - 1 then h.(next := MinorAt(j, k+1))
                                         else if y' == k + 1 then h.(prev := MinorAt(j, k-1)) else h
  {
    RemoveIndex(j.minors, k);
  }

  lemma UnlinkReprMinors(s: State, i: nat, k: nat, N: Minors, N': Minors)
    requires i < |s.majs| && k < |s.majs[i].minors| && MinorsRepr(s.majs, N) && LinkedOut(s, i, k, N, N')
    ensures MinorsRepr(Unlink(s, i, k).majs, N')
  {
    hide BetAfter, RemoveAt, MinorImage, MinorAt;
    var majs' := Unlink(s, i, k).majs;
    RemoveIndex(s.majs[i].minors, k);
    forall x, y | 0 <= x < |majs'| && 0 <= y < |majs'[x].minors|
      ensures majs'[x].minors[y].addr in N' && N'[majs'[x].minors[y].addr] == MinorImage(majs'[x], y)
    {
      if x != i {
        assert s.majs[x].minors[y].addr in N';
      } else {
        WithoutImage(s.majs[i], k, y);
        assert s.majs[x].minors[if y >= k then y + 1 else y].addr in N';
      }
    }
  }

  lemma RemoveIndex<T>(ms: seq<T>, k: nat)
    requires k < |ms|
    ensures |RemoveAt(ms, k)| == |ms| - 1
    ensures forall t :: 0 <= t < |ms| - 1 ==> RemoveAt(ms, k)[t] == ms[if t >= k then t + 1 else t]
  {
  }

  /** The header maps after the writes that unlink minor k of major j. */
  function UnlinkedMinors(j: Major, k: nat, N: Minors): Minors
    requires k < |j.minors| && j.minors[k].addr in N
  {
    var m, prev, next := j.minors[k].addr, MinorAt(j, k-1), MinorAt(j, k+1);
    var N1 := N[m := N[m].(magic := DEAD)];
    var N2 := if k + 1 < |j.minors| && next in N1 then N1[next := N1[next].(prev := prev)] else N1;
    if k > 0 && prev in N2 then N2[prev := N2[prev].(next := next)] else N2
  }

  function UnlinkedMajor(j: Major, k: nat, h: MajorHeader): MajorHeader
    requires k < |j.minors| && h.usage >= j.minors[k].size + MINOR_HEADER
  {
    h.(usage := h.usage - (j.minors[k].size + MINOR_HEADER), first := if k == 0 then MinorAt(j, 1) else h.first)
  }

  /** What the program reads before it unlinks minor k of major j. */
  ghost predicate CanUnlink(j: Major, k: nat, M: Majors, N: Minors) {
    && k < |j.minors|
    && j.addr in M && M[j.addr].usage >= j.minors[k].size + MINOR_HEADER && M[j.addr].first == MinorAt(j, 0)
    && j.minors[k].addr in N && N[j.minors[k].addr] == MinorImage(j, k)
    && (MinorAt(j, k+1) == NULL <==> k + 1 == |j.minors|)
    && (MinorAt(j, k-1) == NULL <==> k == 0)
    && (k > 0 ==> MinorAt(j, k-1) in N && MinorAt(j, k-1) != j.minors[k].addr && MinorAt(j, k-1) != MinorAt(j, k+1))
    && (k + 1 < |j.minors| ==> MinorAt(j, k+1) in N && MinorAt(j, k+1) != j.minors[k].addr)
  }

  lemma BeforeUnlink(majs: seq<Major>, M: Majors, N: Minors, i: nat, k: nat)
    requires Shape(majs) && Repr(majs, M, N) && i < |majs| && k < |majs[i].minors|
    ensures CanUnlink(majs[i], k, M, N) && M[majs[i].addr] == MajorImage(majs, i)
  {
    hide Shape, Repr, Used, MinorImage;
    ReadMajor(majs, M, N, i);
    ReadMinor(majs, M, N, i, k);
    UsedRemove(majs[i].minors, k);
    NeighboursStored(majs, M, N, i, k);
  }

  lemma NeighboursStored(majs: seq<Major>, M: Majors, N: Minors, i: nat, k: nat)
    requires Shape(majs) && Repr(majs, M, N) && i < |majs| && k < |majs[i].minors|
    ensures var j := majs[i];
      && (MinorAt(j, k-1) == NULL <==> k == 0)
      && (k > 0 ==> MinorAt(j, k-1) in N && MinorAt(j, k-1) != j.minors[k].addr && MinorAt(j, k-1) != MinorAt(j, k+1))
      && (k + 1 < |j.minors| ==> MinorAt(j, k+1) in N && MinorAt(j, k+1) != j.minors[k].addr)
  {
    hide Shape, Repr, MajorOk;
    ShapeGivesMajor(majs, i);
    if k > 0 {
      ReadMinor(majs, M, N, i, k-1);
      MinorsApart(majs, i, k-1, i, k);
      MinorInMajor(majs[i], k-1);
    }
    if k + 1 < |majs[i].minors| {
      ReadMinor(majs, M, N, i, k+1);
      MinorsApart(majs, i, k, i, k+1);
    }
    if 0 < k < |majs[i].minors| - 1 { MinorsApart(majs, i, k-1, i, k+1); }
  }

  lemma ShapeGivesMajor(majs: seq<Major>, i: nat)
    requires Shape(majs) && i < |majs|
    ensures MajorOk(majs[i])
  {
  }

  lemma UnlinkedLinks(s: State, i: nat, k: nat, N: Minors)
    requires Shape(s.majs) && MinorsRepr(s.majs, N) && i < |s.majs| && k < |s.majs[i].minors|
    requires s.majs[i].minors[k].addr in N
    ensures LinkedOut(s, i, k, N, UnlinkedMinors(s.majs[i], k, N))
  {
    hide Shape, MinorImage;
    forall x, y | 0 <= x < |s.majs| && 0 <= y < |s.majs[x].minors| && (x != i || y != k)
      ensures var b := s.majs[x].minors[y].addr; var N' := UnlinkedMinors(s.majs[i], k, N);
        && b in N && b in N'
        && N'[b] == if x == i && y == k - 1 then N[b].(next := MinorAt(s.majs[i], k+1))
                    else if x == i && y == k + 1 then N[b].(prev := MinorAt(s.majs[i], k-1)) else N[b]
    {
      MinorsApart(s.majs, x, y, i, k);
      if k > 0 && (x != i || y != k - 1) { MinorsApart(s.majs, x, y, i, k-1); }
      if k + 1 < |s.majs[i].minors| && (x != i || y != k + 1) { MinorsApart(s.majs, x, y, i, k+1); }
    }
  }

  /** Unlinking changes the magic of the minor unlinked and no other. */
  lemma UnlinkedMagic(j: Major, k: nat, N: Minors)
    requires k < |j.minors| && j.minors[k].addr in N
    ensures var N' := UnlinkedMinors(j, k, N);
      && (forall b :: b in N' <==> b in N)
      && (forall b :: b in N' ==> N'[b].magic == if b == j.minors[k].addr then DEAD else N[b].magic)
  {
  }

  lemma UnlinkedDead(j: Major, k: nat, N: Minors)
    requires k < |j.minors| && j.minors[k].addr in N
    ensures var N' := UnlinkedMinors(j, k, N); var m := j.minors[k].addr;
      && DeadOf(N') == DeadOf(N)[m := DEAD]
      && (forall b :: b in N' <==> b in N)
      && (forall b :: b in N' && N'[b].magic == MAGIC ==> b != m && N[b].magic == MAGIC)
  {
    hide UnlinkedMinors;
    UnlinkedMagic(j, k, N);
  }

  lemma UnlinkedImage(s: State, i: nat, k: nat)
    requires i < |s.majs| && k < |s.majs[i].minors|
    ensures Usage(s.majs[i]) >= s.majs[i].minors[k].size + MINOR_HEADER
    ensures UnlinkedMajor(s.majs[i], k, MajorImage(s.majs, i)) == MajorImage(Unlink(s, i, k).majs, i)
  {
    UsedRemove(s.majs[i].minors, k);
    if |s.majs[i].minors| > 1 { RemoveIndex(s.majs[i].minors, k); }
  }

  /** The maps after unlinking a minor stand for the heap without it. */
  lemma Unlinked(s: State, i: nat, k: nat, M: Majors, N: Minors)
    requires Shape(s.majs) && Repr(s.majs, M, N) && s.dead == DeadOf(N)
    requires i < |s.majs| && k < |s.majs[i].minors| && |s.majs[i].minors| > 1
    requires s.majs[i].addr in M && M[s.majs[i].addr].usage >= s.majs[i].minors[k].size + MINOR_HEADER
    requires s.majs[i].minors[k].addr in N
    ensures var M' := M[s.majs[i].addr := UnlinkedMajor(s.majs[i], k, M[s.majs[i].addr])];
      var N' := UnlinkedMinors(s.majs[i], k, N);
      Repr(Unlink(s, i, k).majs, M', N') && DeadOf(N') == Unlink(s, i, k).dead
  {
    hide Shape, LinkedOut, MajorImage, MinorsRepr, MajorsRepr, MagicIsLive, UnlinkedMinors, UnlinkedMajor, DeadOf, Repr;
    ReadMajor(s.majs, M, N, i);
    ReprParts(s.majs, M, N);
    UnlinkedLinks(s, i, k, N);
    UnlinkedDead(s.majs[i], k, N);
    UnlinkedImage(s, i, k);
    UnlinkRepr(s, i, k, M, N, M[s.majs[i].addr := UnlinkedMajor(s.majs[i], k, M[s.majs[i].addr])],
               UnlinkedMinors(s.majs[i], k, N));
  }

  // ----- A major taken out -----

  /** Major headers after major i was unlinked. */
  ghost predicate MajorLinkedOut(majs: seq<Major>, i: nat, M: Majors, M': Majors)
    requires i < |majs|
  {
    forall t :: 0 <= t < |majs| && t != i ==>
      var b := majs[t].addr;
      && b in M && b in M'
      && M'[b] == if t == i - 1 then M[b].(next := AddrAt(majs, i+1))
                  else if t == i + 1 then M[b].(prev := AddrAt(majs, i-1)) else M[b]
  }

  /** The major headers after major i was unlinked and its pages given back. */
  function ReleasedMajors(majs: seq<Major>, i: nat, M: Majors): Majors
    requires i < |majs|
  {
    var prev, next := AddrAt(majs, i-1), AddrAt(majs, i+1);
    var M1 := if i > 0 && prev in M then M[prev := M[prev].(next := next)] else M;
    var M2 := if i + 1 < |majs| && next in M1 then M1[next := M1[next].(prev := prev)] else M1;
    M2 - {majs[i].addr}
  }

  lemma ReleasedLinks(majs: seq<Major>, i: nat, M: Majors, h: MajorHeader)
    requires Shape(majs) && MajorsRepr(majs, M) && i < |majs|
    ensures MajorLinkedOut(majs, i, M, ReleasedMajors(majs, i, M[majs[i].addr := h]))
  {
    hide Shape, MajorImage;
    forall t | 0 <= t < |majs| && t != i
      ensures var b := majs[t].addr; var M' := ReleasedMajors(majs, i, M[majs[i].addr := h]);
        && b in M && b in M'
        && M'[b] == if t == i - 1 then M[b].(next := AddrAt(majs, i+1))
                    else if t == i + 1 then M[b].(prev := AddrAt(majs, i-1)) else M[b]
    {
      MajorsApart(majs, t, i);
      if i > 0 && t != i - 1 { MajorsApart(majs, t, i-1); }
      if i + 1 < |majs| && t != i + 1 { MajorsApart(majs, t, i+1); }
    }
  }

  lemma ReleaseRepr(s: State, i: nat, M: Majors, N: Minors, M': Majors, N': Minors)
    requires Shape(s.majs) && Repr(s.majs, M, N) && i < |s.majs| && |s.majs[i].minors| == 1
    requires MajorLinkedOut(s.majs, i, M, M')
    requires forall x, y :: 0 <= x < |s.majs| && 0 <= y < |s.majs[x].minors| && x != i ==>
      var b := s.majs[x].minors[y].addr; b in N && b in N' && N'[b] == N[b]
    requires forall b :: b in N' && N'[b].magic == MAGIC ==>
      b != s.majs[i].minors[0].addr && b in N && N[b].magic == MAGIC
    ensures Repr(Release(s, i).majs, M', N')
  {
    ReleaseReprMajors(s, i, M, M');
    ReleaseReprMinors(s, i, N, N');
    forall a | a in N' && N'[a].magic == MAGIC ensures Live(Release(s, i).majs, a) {
      LiveAfterFree(s, i, 0, a);
    }
  }

  lemma ReleaseReprMajors(s: State, i: nat, M: Majors, M': Majors)
    requires i < |s.majs| && |s.majs[i].minors| == 1
    requires MajorsRepr(s.majs, M) && MajorLinkedOut(s.majs, i, M, M')
    ensures MajorsRepr(Release(s, i).majs, M')
  {
    hide Usage, MinorAt;
    var majs' := Release(s, i).majs;
    forall t | 0 <= t < |majs'| ensures majs'[t].addr in M' && M'[majs'[t].addr] == MajorImage(majs', t) {
      var t' := if t < i then t else t + 1;
      assert s.majs[t'].addr in M';
      ReleasedNeighbours(s.majs, i, t);
    }
  }

  lemma ReleasedNeighbours(majs: seq<Major>, i: nat, t: nat)
    requires i < |majs| && t < |majs| - 1
    ensures var majs' := RemoveAt(majs, i); var t' := if t < i then t else t + 1;
      && majs'[t] == majs[t']
      && AddrAt(majs', t-1) == AddrAt(majs, if t' == i + 1 then i - 1 else t' - 1)
      && AddrAt(majs', t+1) == AddrAt(majs, if t' == i - 1 then i + 1 else t' + 1)
  {
    RemoveIndex(majs, i);
  }

  lemma ReleaseReprMinors(s: State, i: nat, N: Minors, N': Minors)
    requires i < |s.majs| && |s.majs[i].minors| == 1 && MinorsRepr(s.majs, N)
    requires forall x, y :: 0 <= x < |s.majs| && 0 <= y < |s.majs[x].minors| && x != i ==>
      var b := s.majs[x].minors[y].addr; b in N && b in N' && N'[b] == N[b]
    ensures MinorsRepr(Release(s, i).majs, N')
  {
    var majs' := Release(s, i).majs;
    forall x, y | 0 <= x < |majs'| && 0 <= y < |majs'[x].minors|
      ensures majs'[x].minors[y].addr in N' && N'[majs'[x].minors[y].addr] == MinorImage(majs'[x], y)
    {
      var x' := if x < i then x else x + 1;
      assert majs'[x] == s.majs[x'];
      assert s.majs[x'].minors[y].addr in N';
    }
  }

  // ----- Requested sizes and payload bytes -----

  lemma ResizeRepr(s: State, i: nat, k: nat, req: nat, M: Majors, N: Minors)
    requires Shape(s.majs) && Repr(s.majs, M, N)
    requires i < |s.majs| && k < |s.majs[i].minors| && s.majs[i].minors[k].addr in N
    ensures var a := s.majs[i].minors[k].addr; var N' := N[a := N[a].(req := req)];
      Repr(Resize(s, i, k, req).majs, M, N') && DeadOf(N') == DeadOf(N)
  {
    hide Shape, Live, MajorsRepr, MinorsRepr, Usage;
    var a := s.majs[i].minors[k].addr;
    ResizeReprMajors(s, i, k, req, M);
    ResizeReprMinors(s, i, k, req, N);
    forall b | b in N && N[b].magic == MAGIC ensures Live(Resize(s, i, k, req).majs, b) {
      ResizeKeepsLive(s, i, k, req, b);
    }
  }

  lemma ResizeReprMajors(s: State, i: nat, k: nat, req: nat, M: Majors)
    requires Shape(s.majs) && MajorsRepr(s.majs, M) && i < |s.majs| && k < |s.majs[i].minors|
    ensures MajorsRepr(Resize(s, i, k, req).majs, M)
  {
    hide Shape, MajorsRepr, MajorImage;
    var majs' := Resize(s, i, k, req).majs;
    ResizeImage(s, i, k, req);
    ImageStored(s.majs, i, M);
    assert M[majs'[i].addr := MajorImage(majs', i)] == M;
    MajorsReprUpdate(s.majs, i, majs'[i], M);
  }

  /** The header of a major does not show the sizes requested in it. */
  lemma ResizeImage(s: State, i: nat, k: nat, req: nat)
    requires i < |s.majs| && k < |s.majs[i].minors|
    ensures MajorImage(Resize(s, i, k, req).majs, i) == MajorImage(s.majs, i)
  {
    hide Used;
    var majs' := Resize(s, i, k, req).majs;
    UsedSame(majs'[i].minors, s.majs[i].minors);
    assert AddrAt(majs', i-1) == AddrAt(s.majs, i-1) && AddrAt(majs', i+1) == AddrAt(s.majs, i+1);
  }

  lemma ImageStored(majs: seq<Major>, i: nat, M: Majors)
    requires MajorsRepr(majs, M) && i < |majs|
    ensures majs[i].addr in M && M[majs[i].addr] == MajorImage(majs, i)
  {
  }

  lemma ResizeReprMinors(s: State, i: nat, k: nat, req: nat, N: Minors)
    requires Shape(s.majs) && MinorsRepr(s.majs, N) && i < |s.majs| && k < |s.majs[i].minors|
    requires s.majs[i].minors[k].addr in N
    ensures var a := s.majs[i].minors[k].addr; MinorsRepr(Resize(s, i, k, req).majs, N[a := N[a].(req := req)])
  {
    hide Shape;
    var majs' := Resize(s, i, k, req).majs;
    var N' := N[s.majs[i].minors[k].addr := N[s.majs[i].minors[k].addr].(req := req)];
    forall x, y | 0 <= x < |majs'| && 0 <= y < |majs'[x].minors|
      ensures majs'[x].minors[y].addr in N' && N'[majs'[x].minors[y].addr] == MinorImage(majs'[x], y)
    {
      if x != i || y != k { MinorsApart(s.majs, x, y, i, k); }
      assert majs'[x].minors[y].addr == s.majs[x].minors[y].addr;
    }
  }

  lemma {:induction false} UsedSame(ms: seq<Minor>, ms': seq<Minor>)
    requires |ms| == |ms'| && forall t :: 0 <= t < |ms| ==> ms[t].size == ms'[t].size
    ensures Used(ms) == Used(ms')
  {
    if ms != [] { UsedSame(ms[..|ms|-1], ms'[..|ms'|-1]); }
  }

  /** Writing inside a payload destroys no live header. */
  lemma PayloadWriteRepr(s: State, M: Majors, N: Minors, i: nat, k: nat, lo: nat, n: nat)
    requires Shape(s.majs) && Repr(s.majs, M, N) && i < |s.majs| && k < |s.majs[i].minors|
    requires Within(s.majs, i, k, lo, n)
    ensures Repr(s.majs, M, Clobber(N, lo, n))
    ensures DeadOf(Clobber(N, lo, n)) == Clobber(DeadOf(N), lo, n)
  {
    hide Shape, MinorImage, MajorImage, Live;
    ShapeGivesRoom(s.majs, i, k);
    PayloadInside(s.majs[i].minors[k]);
    forall x, y | 0 <= x < |s.majs| && 0 <= y < |s.majs[x].minors|
      ensures s.majs[x].minors[y].addr in Clobber(N, lo, n)
    {
      if x != i || y != k { MinorsApart(s.majs, x, y, i, k); }
    }
  }

  /** Bytes written below all majors destroy no header of a live minor. */
  lemma LowWriteRepr(majs: seq<Major>, M: Majors, N: Minors, n: nat)
    requires Shape(majs) && Repr(majs, M, N) && NothingBelow(majs, n)
    ensures Repr(majs, M, Clobber(N, NULL, n))
    ensures DeadOf(Clobber(N, NULL, n)) == Clobber(DeadOf(N), NULL, n)
  {
    hide Shape, MinorImage, MajorImage, Live;
    MinorsAbove(majs, n);
  }

  /** Giving the pages of major i back destroys no header of another major. */
  lemma ReleaseSpares(majs: seq<Major>, i: nat, N: Minors, x: nat, y: nat)
    requires Shape(majs) && i < |majs| && x < |majs| && y < |majs[x].minors| && x != i
    requires majs[x].minors[y].addr in N
    ensures var b := majs[x].minors[y].addr; var N' := Clobber(N, majs[i].addr, majs[i].size);
      b in N' && N'[b] == N[b]
  {
    MajorsApart(majs, i, x);
    MinorInMajor(majs[x], y);
  }

  /** The maps after a major's only minor was freed and its pages were given back. */
  lemma Released(s: State, i: nat, M: Majors, N: Minors, M': Majors)
    requires Shape(s.majs) && Repr(s.majs, M, N) && s.dead == DeadOf(N)
    requires i < |s.majs| && |s.majs[i].minors| == 1 && s.majs[i].minors[0].addr in N
    requires MajorLinkedOut(s.majs, i, M, M')
    ensures var N' := Clobber(UnlinkedMinors(s.majs[i], 0, N), s.majs[i].addr, s.majs[i].size);
      Repr(Release(s, i).majs, M', N') && DeadOf(N') == Release(s, i).dead
  {
    hide Shape, MajorLinkedOut, MinorImage, MajorsRepr, MagicIsLive;
    var m := s.majs[i].minors[0].addr;
    var N1 := UnlinkedMinors(s.majs[i], 0, N);
    var N' := Clobber(N1, s.majs[i].addr, s.majs[i].size);
    assert N1 == N[m := N[m].(magic := DEAD)];
    forall x, y | 0 <= x < |s.majs| && 0 <= y < |s.majs[x].minors| && x != i
      ensures var b := s.majs[x].minors[y].addr; b in N && b in N' && N'[b] == N[b]
    {
      MinorsApart(s.majs, x, y, i, 0);
      ReleaseSpares(s.majs, i, N1, x, y);
    }
    ReleaseRepr(s, i, M, N, M', N');
  }

  // ----- Pointers given to free and realloc -----

  /** A pointer that may be freed leads to a header in memory, and the magic tells whether it is
      live. */
  lemma HeadedIsStored(s: State, p: nat, M: Majors, N: Minors)
    requires Repr(s.majs, M, N) && s.dead == DeadOf(N) && Headed(s, p)
    ensures var h := HeaderOf(s.bytes, p);
      && h in N && (N[h].magic == MAGIC <==> Live(s.majs, h))
      && (N[h].magic != MAGIC ==> h in s.dead && s.dead[h] == N[h].magic)
  {
    var h := HeaderOf(s.bytes, p);
    if Live(s.majs, h) {
      var i, k :| At(s.majs, i, k, h);
      assert N[h] == MinorImage(s.majs[i], k);
    }
  }

  // ----- What the headers say by themselves -----

  /** Every header with the magic number: its links are mutual inverses, stay in its block, and go
      up in address without overlap; its block lists it and encloses it. */
  lemma LinksAreInverse(majs: seq<Major>, M: Majors, N: Minors, a: nat)
    requires Shape(majs) && Repr(majs, M, N) && a in N && N[a].magic == MAGIC
    ensures var h := N[a];
      && h.block in M && h.block + MAJOR_HEADER <= a && a + MINOR_HEADER + h.size <= h.block + M[h.block].size
      && M[h.block].size == M[h.block].pages * PAGE_SIZE && M[h.block].usage <= M[h.block].size
      && (h.prev == NULL <==> M[h.block].first == a)
      && (h.prev != NULL ==>
            && h.prev in N && N[h.prev].next == a && N[h.prev].block == h.block && N[h.prev].magic == MAGIC
            && h.prev + MINOR_HEADER + N[h.prev].size <= a)
      && (h.next != NULL ==>
            && h.next in N && N[h.next].prev == a && N[h.next].block == h.block && N[h.next].magic == MAGIC)
  {
    hide Shape, Repr;
    MagicFound(majs, M, N, a);
    var i, k :| At(majs, i, k, a);
    var j := majs[i];
    ShapeGivesMajor(majs, i);
    ReadMajor(majs, M, N, i);
    ReadMinor(majs, M, N, i, k);
    MinorInMajor(j, k);
    if k > 0 {
      ReadMinor(majs, M, N, i, k - 1);
      MinorInMajor(j, k - 1);
    }
    if k + 1 < |j.minors| { ReadMinor(majs, M, N, i, k + 1); }
  }

  lemma MagicFound(majs: seq<Major>, M: Majors, N: Minors, a: nat)
    requires Repr(majs, M, N) && a in N && N[a].magic == MAGIC
    ensures Live(majs, a)
  {
  }

  lemma {:induction false} SameMajorsUpTo(majs: seq<Major>, majs': seq<Major>, M: Majors, N: Minors, i: nat)
    requires Shape(majs) && Shape(majs') && Repr(majs, M, N) && Repr(majs', M, N)
    requires AddrAt(majs, 0) == AddrAt(majs', 0) && i <= |majs|
    ensures i <= |majs'| && AddrAt(majs, i) == AddrAt(majs', i)
  {
    hide Shape, Repr;
    if i > 0 {
      SameMajorsUpTo(majs, majs', M, N, i - 1);
      ReadMajor(majs, M, N, i - 1);
      if i - 1 < |majs'| { ReadMajor(majs', M, N, i - 1); }
    }
  }

  lemma {:induction false} SameMinorsUpTo(majs: seq<Major>, majs': seq<Major>, M: Majors, N: Minors, i: nat, k: nat)
    requires Shape(majs) && Shape(majs') && Repr(majs, M, N) && Repr(majs', M, N)
    requires i < |majs| && i < |majs'| && majs[i].addr == majs'[i].addr && k <= |majs[i].minors|
    ensures k <= |majs'[i].minors| && MinorAt(majs[i], k) == MinorAt(majs'[i], k)
    ensures forall t :: 0 <= t < k ==> majs[i].minors[t] == majs'[i].minors[t]
  {
    hide Shape, Repr;
    ReadMajor(majs, M, N, i);
    ReadMajor(majs', M, N, i);
    if k > 0 {
      SameMinorsUpTo(majs, majs', M, N, i, k - 1);
      ShapeGivesMajor(majs, i);
      MinorInMajor(majs[i], k - 1);
      ReadMinor(majs, M, N, i, k - 1);
      if k - 1 < |majs'[i].minors| { ReadMinor(majs', M, N, i, k - 1); }
    }
  }

  /** The headers in memory and the root stand for one heap value only. */
  lemma HeapIsDetermined(majs: seq<Major>, majs': seq<Major>, M: Majors, N: Minors)
    requires Shape(majs) && Shape(majs') && Repr(majs, M, N) && Repr(majs', M, N)
    requires AddrAt(majs, 0) == AddrAt(majs', 0)
    ensures majs == majs'
  {
    hide Shape, Repr;
    SameMajorsUpTo(majs, majs', M, N, |majs|);
    SameMajorsUpTo(majs', majs, M, N, |majs'|);
    forall i | 0 <= i < |majs| ensures majs[i] == majs'[i] {
      SameMajorsUpTo(majs, majs', M, N, i);
      ReadMajor(majs, M, N, i);
      ReadMajor(majs', M, N, i);
      SameMinorsUpTo(majs, majs', M, N, i, |majs[i].minors|);
      SameMinorsUpTo(majs', majs, M, N, i, |majs'[i].minors|);
    }
  }
}
