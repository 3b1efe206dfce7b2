/** Laws of malloc and free: the search is complete, every invariant is kept, what is handed
    out is private, and free undoes malloc. */
module HeapLaws {
  import opened Words
  import opened HeapModel
  import opened HeapLemmas

  // ----- The search -----

  ghost predicate NoneFits(majs: seq<Major>, need: nat, lo: nat, hi: nat)
    requires hi <= |majs|
  {
    forall t :: lo <= t < hi ==> !Fits(majs[t], need)
  }

  /** Searching from i finds the first major from i on that fits; failing that, a search that
      started at the best bet finds the first one of all. */
  lemma {:induction false} SearchIsFirstFit(majs: seq<Major>, need: nat, i: nat, started: bool, b: Bet)
    requires i <= |majs|
    ensures var r := Search(majs, need, i, started, b).0;
      && r <= |majs|
      && (r < |majs| ==> Fits(majs[r], need))
      && (if NoneFits(majs, need, i, |majs|) then
            if started then NoneFits(majs, need, 0, r) else r == |majs|
          else i <= r < |majs| && NoneFits(majs, need, i, r))
    decreases started, |majs| - i
  {
    if i == |majs| {
      if started { SearchIsFirstFit(majs, need, 0, false, b); }
    } else if !Fits(majs[i], need) {
      SearchIsFirstFit(majs, need, i+1, started, Step(b, majs[i]));
    }
  }

  /** Major t is looked at by a search that begins at i and ends at r, or fails (r == n). */
  predicate LookedAt(n: nat, i: nat, started: bool, r: nat, t: nat) {
    && t < n
    && (if r == n then started || i <= t else if i <= r then i <= t <= r else i <= t || t <= r)
  }

  /** The bet after a search is the old one or some major looked at, with its true free space and then
      more than before, and no smaller than any major looked at. */
  lemma {:induction false} SearchKeepsBest(majs: seq<Major>, need: nat, i: nat, started: bool, b: Bet)
    requires i <= |majs|
    ensures var (r, c) := Search(majs, need, i, started, b);
      && r <= |majs|
      && (c == b || exists t: nat :: LookedAt(|majs|, i, started, r, t) && c == Bet(majs[t].addr, Room(majs[t])))
      && (c == b || c.best > b.best)
      && (forall t: nat :: LookedAt(|majs|, i, started, r, t) ==> c.best >= Room(majs[t]))
    decreases started, |majs| - i
  {
    hide Room, Fits;
    if i == |majs| {
      if started {
        SearchIsFirstFit(majs, need, 0, false, b);
        SearchKeepsBest(majs, need, 0, false, b);
      }
    } else if !Fits(majs[i], need) {
      SearchIsFirstFit(majs, need, i+1, started, Step(b, majs[i]));
      SearchKeepsBest(majs, need, i+1, started, Step(b, majs[i]));
      LookedAtNext(majs, need, i, started, b);
    }
  }

  lemma LookedAtNext(majs: seq<Major>, need: nat, i: nat, started: bool, b: Bet)
    requires i < |majs| && !Fits(majs[i], need)
    ensures var r := Search(majs, need, i, started, b).0;
      forall t: nat :: LookedAt(|majs|, i, started, r, t) <==> t == i || LookedAt(|majs|, i+1, started, r, t)
  {
    hide Fits;
    SearchIsFirstFit(majs, need, i, started, b);
  }

  /** Search completeness: starting at the best bet never hides a major that fits. */
  lemma FindIsComplete(s: State, need: nat)
    ensures Find(s, need).0 <= |s.majs|
    ensures Find(s, need).0 < |s.majs| ==> Fits(s.majs[Find(s, need).0], need)
    ensures Find(s, need).0 == |s.majs| <==> NoneFits(s.majs, need, 0, |s.majs|)
  {
    var b := BetBefore(s);
    if StartsAtBet(s, need) {
      SearchIsFirstFit(s.majs, need, IndexOf(s.majs, s.bet), true, b);
    } else {
      SearchIsFirstFit(s.majs, need, 0, false, b);
    }
  }

  lemma FindKeepsBetListed(s: State, need: nat)
    requires s.bet == NULL || Listed(s.majs, s.bet)
    ensures var b := Find(s, need).1;
      b.addr == NULL || Listed(s.majs, b.addr)
  {
    var b := BetBefore(s);
    if StartsAtBet(s, need) {
      SearchKeepsBest(s.majs, need, IndexOf(s.majs, s.bet), true, b);
    } else {
      SearchKeepsBest(s.majs, need, 0, false, b);
    }
  }

  // ----- Geometry -----

  /** Two live minors never overlap, whichever majors they are in. */
  lemma MinorsApart(majs: seq<Major>, i: nat, k: nat, i': nat, k': nat)
    requires Shape(majs)
    requires i < |majs| && k < |majs[i].minors|
    requires i' < |majs| && k' < |majs[i'].minors|
    requires i != i' || k != k'
    ensures majs[i].minors[k].End() <= majs[i'].minors[k'].addr
         || majs[i'].minors[k'].End() <= majs[i].minors[k].addr
  {
    if i < i' {
      assert Apart(majs[i], majs[i']);
    } else if i' < i {
      assert Apart(majs[i'], majs[i]);
    } else if k < k' {
    } else {
    }
  }

  /** A live header belongs to one place only. */
  lemma PlaceIsUnique(majs: seq<Major>, i: nat, k: nat, i': nat, k': nat, a: nat)
    requires Shape(majs) && At(majs, i, k, a) && At(majs, i', k', a)
    ensures i == i' && k == k'
  {
    if i != i' || k != k' {
      MinorsApart(majs, i, k, i', k');
    }
  }

  /** The tag and the payload lie in the minor's own bytes, after its header. */
  lemma PayloadInside(m: Minor)
    requires m.req + ALIGNMENT + ALIGN_INFO <= m.size
    ensures m.addr + MINOR_HEADER <= TagAddr(m.addr) < Payload(m.addr)
    ensures Payload(m.addr) + m.req <= m.End()
  {
  }

  /** Majors have addresses of their own. */
  lemma MajorsApart(majs: seq<Major>, i: nat, i': nat)
    requires Shape(majs) && i < |majs| && i' < |majs| && i != i'
    ensures Apart(majs[i], majs[i']) && majs[i].addr != majs[i'].addr
  {
    if i < i' { assert Apart(majs[i], majs[i']); } else { assert Apart(majs[i'], majs[i]); }
  }

  lemma IndexOfMajor(majs: seq<Major>, i: nat)
    requires Shape(majs) && i < |majs|
    ensures IndexOf(majs, majs[i].addr) == i
  {
    var t := IndexOf(majs, majs[i].addr);
    if t < i { MajorsApart(majs, i, t); }
  }

  // ----- Placing a minor -----

  ghost predicate CanPlace(s: State, i: nat, k: nat, size: nat, req: nat) {
    && i < |s.majs| && k <= |s.majs[i].minors|
    && Gap(s.majs[i], k) >= size + MINOR_HEADER
    && size == req + ALIGNMENT + ALIGN_INFO
  }

  lemma GapBounds(j: Major, k: nat)
    requires MajorOk(j) && k <= |j.minors|
    ensures forall t :: 0 <= t < k ==> j.minors[t].End() <= GapStart(j, k)
    ensures forall t :: k <= t < |j.minors| ==> GapEnd(j, k) <= j.minors[t].addr
    ensures j.addr + MAJOR_HEADER <= GapStart(j, k) <= GapEnd(j, k) <= j.End()
  {
  }

  lemma InsertOrdered(j: Major, k: nat, m: Minor)
    requires MajorOk(j) && k <= |j.minors|
    requires m.addr == GapStart(j, k) && m.End() <= GapEnd(j, k)
    requires m.req + ALIGNMENT + ALIGN_INFO <= m.size
    ensures MajorOk(j.(minors := InsertAt(j.minors, k, m)))
  {
    GapBounds(j, k);
    var lo, hi := j.addr + MAJOR_HEADER, j.End();
    OrderedParts(j.minors, k, lo, hi);
    hide GapStart, GapEnd;
    assert Ordered([m], lo, hi);
    Joined(j.minors[..k], [m], lo, hi);
    Joined(j.minors[..k] + [m], j.minors[k..], lo, hi);
  }

  lemma OrderedParts(ms: seq<Minor>, k: nat, lo: nat, hi: nat)
    requires Ordered(ms, lo, hi) && k <= |ms|
    ensures Ordered(ms[..k], lo, hi) && Ordered(ms[k..], lo, hi)
  {
  }

  lemma Joined(a: seq<Minor>, b: seq<Minor>, lo: nat, hi: nat)
    requires Ordered(a, lo, hi) && Ordered(b, lo, hi)
    requires forall i, k :: 0 <= i < |a| && 0 <= k < |b| ==> a[i].End() <= b[k].addr
    ensures Ordered(a + b, lo, hi)
  {
  }

  lemma ShapeUpdate(majs: seq<Major>, i: nat, j: Major)
    requires Shape(majs) && i < |majs|
    requires MajorOk(j) && j.addr == majs[i].addr && j.size == majs[i].size
    ensures Shape(majs[i := j])
  {
    var majs' := majs[i := j];
    forall x, y | 0 <= x < y < |majs'| ensures Apart(majs'[x], majs'[y]) {
      assert Apart(majs[x], majs[y]);
    }
  }

  lemma LiveAfterPlace(s: State, i: nat, k: nat, size: nat, req: nat, a: nat)
    requires i < |s.majs| && k <= |s.majs[i].minors|
    ensures Live(PlaceAt(s, i, k, size, req).majs, a)
       <==> Live(s.majs, a) || a == GapStart(s.majs[i], k)
  {
    var j := s.majs[i];
    var majs' := PlaceAt(s, i, k, size, req).majs;
    if Live(s.majs, a) {
      var x, y :| At(s.majs, x, y, a);
      assert At(majs', x, if x == i && y >= k then y + 1 else y, a);
    }
    if a == GapStart(j, k) {
      assert At(majs', i, k, a);
    }
    if Live(majs', a) && a != GapStart(j, k) {
      var x, y :| At(majs', x, y, a);
      assert At(s.majs, x, if x == i && y > k then y - 1 else y, a);
    }
  }

  /** Where a minor of the new heap was in the old one. */
  function Before(i: nat, k: nat, x: nat, y: nat): nat { if x == i && y > k then y - 1 else y }

  lemma OldMinorsStay(s: State, i: nat, k: nat, size: nat, req: nat, x: nat, y: nat)
    requires i < |s.majs| && k <= |s.majs[i].minors|
    requires var majs' := PlaceAt(s, i, k, size, req).majs;
      x < |majs'| && y < |majs'[x].minors| && (x != i || y != k)
    ensures Before(i, k, x, y) < |s.majs[x].minors|
    ensures PlaceAt(s, i, k, size, req).majs[x].minors[y] == s.majs[x].minors[Before(i, k, x, y)]
  {
  }

  lemma PlaceKeepsShape(s: State, i: nat, k: nat, size: nat, req: nat)
    requires Shape(s.majs) && CanPlace(s, i, k, size, req)
    ensures Shape(PlaceAt(s, i, k, size, req).majs)
  {
    var j := s.majs[i];
    var m := Minor(GapStart(j, k), size, req);
    InsertOrdered(j, k, m);
    ShapeUpdate(s.majs, i, j.(minors := InsertAt(j.minors, k, m)));
  }

  ghost predicate SameBytes(b: map<nat, nat>, b': map<nat, nat>, lo: nat, n: nat) {
    forall x :: lo <= x < lo + n ==> (x in b <==> x in b') && (x in b ==> b[x] == b'[x])
  }

  /** Placing a minor changes no byte that belongs to another one. */
  lemma PlaceKeepsBytes(s: State, i: nat, k: nat, size: nat, req: nat, x: nat, y: nat)
    requires Shape(s.majs) && CanPlace(s, i, k, size, req)
    requires var majs' := PlaceAt(s, i, k, size, req).majs;
      x < |majs'| && y < |majs'[x].minors| && (x != i || y != k)
    ensures var s' := PlaceAt(s, i, k, size, req); var m := s'.majs[x].minors[y];
      SameBytes(s.bytes, s'.bytes, m.addr, MINOR_HEADER + m.size)
  {
    PlaceKeepsShape(s, i, k, size, req);
    var majs' := PlaceAt(s, i, k, size, req).majs;
    MinorsApart(majs', x, y, i, k);
    PayloadInside(majs'[i].minors[k]);
  }

  lemma PlaceKeepsTags(s: State, i: nat, k: nat, size: nat, req: nat)
    requires Shape(s.majs) && TagsOk(s.majs, s.bytes) && CanPlace(s, i, k, size, req)
    ensures TagsOk(PlaceAt(s, i, k, size, req).majs, PlaceAt(s, i, k, size, req).bytes)
  {
    var s' := PlaceAt(s, i, k, size, req);
    PlaceKeepsShape(s, i, k, size, req);
    forall x, y | 0 <= x < |s'.majs| && 0 <= y < |s'.majs[x].minors|
      ensures var a := s'.majs[x].minors[y].addr;
        TagAddr(a) in s'.bytes && s'.bytes[TagAddr(a)] == Tag(a)
    {
      if x != i || y != k {
        OldMinorsStay(s, i, k, size, req, x, y);
        PlaceKeepsBytes(s, i, k, size, req, x, y);
        PayloadInside(s'.majs[x].minors[y]);
      }
    }
  }

  lemma PlaceKeepsSound(s: State, i: nat, k: nat, size: nat, req: nat)
    requires Sound(s) && CanPlace(s, i, k, size, req)
    ensures Sound(PlaceAt(s, i, k, size, req))
  {
    hide Shape, TagsOk, Gap;
    var j := s.majs[i];
    var s' := PlaceAt(s, i, k, size, req);
    PlaceKeepsShape(s, i, k, size, req);
    PlaceKeepsTags(s, i, k, size, req);
    UsedInsert(j.minors, k, Minor(GapStart(j, k), size, req));
    SumsUpdate(s.majs, i, s'.majs[i]);
    if s.bet != NULL {
      var t :| 0 <= t < |s.majs| && s.majs[t].addr == s.bet;
      assert s'.majs[t].addr == s.bet;
    }
    forall a | a in s'.dead ensures !Live(s'.majs, a) {
      LiveAfterPlace(s, i, k, size, req, a);
    }
  }

  // ----- Growing -----

  lemma GrowKeepsShape(s: State, page: nat, size: nat)
    requires Shape(s.majs) && page != NULL && PageOk(s.majs, page, size)
    requires size + MAJOR_HEADER + MINOR_HEADER <= TWO_32 - PAGE_SIZE
    ensures Shape(Grow(s, page, size).majs)
  {
    hide MajorOk;
    NewMajorOk(page, size);
  }

  lemma GrowKeepsTags(s: State, page: nat, size: nat)
    requires Shape(s.majs) && TagsOk(s.majs, s.bytes) && page != NULL && PageOk(s.majs, page, size)
    requires MajorOk(NewMajor(page, size))
    ensures TagsOk(Grow(s, page, size).majs, Grow(s, page, size).bytes)
  {
    hide BytesFor, PagesFor;
    var s' := Grow(s, page, size);
    forall x, y | 0 <= x < |s'.majs| && 0 <= y < |s'.majs[x].minors|
      ensures var a := s'.majs[x].minors[y].addr;
        TagAddr(a) in s'.bytes && s'.bytes[TagAddr(a)] == Tag(a)
    {
      assert s'.majs[x] == s.majs[x];
      assert Apart(s.majs[x], NewMajor(page, size));
      PayloadInside(s.majs[x].minors[y]);
    }
  }

  lemma GrowKeepsSound(s: State, page: nat, size: nat)
    requires Sound(s) && page != NULL && PageOk(s.majs, page, size)
    requires size + MAJOR_HEADER + MINOR_HEADER <= TWO_32 - PAGE_SIZE
    ensures Sound(Grow(s, page, size))
  {
    hide Shape, TagsOk, BytesFor, PagesFor, Live, Listed;
    var s' := Grow(s, page, size);
    NewMajorOk(page, size);
    GrowKeepsShape(s, page, size);
    GrowKeepsTags(s, page, size);
    SumsAppend(s.majs, NewMajor(page, size));
    ListedAfterGrow(s, page, size, s.bet);
    forall a ensures Live(s'.majs, a) <==> Live(s.majs, a) {
      LiveAfterGrow(s, page, size, a);
    }
  }

  lemma LiveAfterGrow(s: State, page: nat, size: nat, a: nat)
    ensures Live(Grow(s, page, size).majs, a) <==> Live(s.majs, a)
  {
    var majs' := Grow(s, page, size).majs;
    if Live(s.majs, a) {
      var x, y :| At(s.majs, x, y, a);
      assert At(majs', x, y, a);
    }
    if Live(majs', a) {
      var x, y :| At(majs', x, y, a);
      assert At(s.majs, x, y, a);
    }
  }

  // ----- malloc -----

  /** The heap has a gap that can take `need` bytes. */
  ghost predicate HasGap(majs: seq<Major>, need: nat) {
    exists i :: 0 <= i < |majs| && Fits(majs[i], need)
  }

  lemma NoGapMeansNoneFits(majs: seq<Major>, need: nat)
    ensures HasGap(majs, need) <==> !NoneFits(majs, need, 0, |majs|)
  {
  }

  /** A major that fits takes the minor. */
  lemma PlaceInFits(s: State, i: nat, req: nat)
    requires i < |s.majs|
    ensures PlaceIn(s, i, req).1 != NULL <==> Fits(s.majs[i], Need(req))
    ensures |PlaceIn(s, i, req).0.majs| == |s.majs|
  {
  }

  lemma MallocWithGap(s: State, req: nat, page: nat)
    requires HasGap(s.majs, Need(req))
    ensures var (s', p) := Malloc(s, req, page);
      p != NULL && |s'.majs| == |s.majs| && Malloc(s, req, NULL) == (s', p)
  {
    hide Find, Fits, PlaceIn, Grow;
    FindIsComplete(s, Need(req));
    NoGapMeansNoneFits(s.majs, Need(req));
    PlaceInFits(Prepare(s, req, page).0, Prepare(s, req, page).1, req);
  }

  lemma MallocWithPage(s: State, req: nat, page: nat)
    requires Sane(req) && !HasGap(s.majs, Need(req)) && page != NULL
    ensures Malloc(s, req, page).1 != NULL && |Malloc(s, req, page).0.majs| == |s.majs| + 1
  {
    hide Find, Fits, PlaceIn, NewMajor;
    FindIsComplete(s, Need(req));
    NoGapMeansNoneFits(s.majs, Need(req));
    NewMajorFitsIff(page, req + ALIGNMENT + ALIGN_INFO);
    assert Prepare(s, req, page).0.majs[|s.majs|] == NewMajor(page, req + ALIGNMENT + ALIGN_INFO);
    PlaceInFits(Prepare(s, req, page).0, |s.majs|, req);
  }

  lemma MallocWithNothing(s: State, req: nat)
    requires !HasGap(s.majs, Need(req))
    ensures Malloc(s, req, NULL) == (s.(warnings := s.warnings + 1, bet := Find(s, Need(req)).1.addr), NULL)
  {
    hide Find, Fits;
    FindIsComplete(s, Need(req));
    NoGapMeansNoneFits(s.majs, Need(req));
  }

  /** malloc fails only if the heap has no gap for the request and the page source refuses, and
      asks the page source only if the heap has no gap. */
  lemma MallocIsComplete(s: State, req: nat, page: nat)
    requires Inv(s) && Sane(req)
    ensures var (s', p) := Malloc(s, req, page);
      && (p == NULL <==> !HasGap(s.majs, Need(req)) && page == NULL)
      && (|s'.majs| == |s.majs| + 1 <==> !HasGap(s.majs, Need(req)) && page != NULL)
      && (HasGap(s.majs, Need(req)) ==> |s'.majs| == |s.majs| && Malloc(s, req, NULL) == (s', p))
  {
    hide Malloc, Inv, HasGap, Find;
    if HasGap(s.majs, Need(req)) {
      MallocWithGap(s, req, page);
    } else if page != NULL {
      MallocWithPage(s, req, page);
    } else {
      MallocWithNothing(s, req);
    }
  }

  /** A refused malloc changes nothing but the warning count and the best bet. */
  lemma MallocRefused(s: State, req: nat, page: nat)
    requires Inv(s) && Sane(req) && Malloc(s, req, page).1 == NULL
    ensures Malloc(s, req, page).0
         == s.(warnings := s.warnings + 1, bet := Find(s, Need(req)).1.addr)
  {
    hide Malloc, Inv, HasGap, Find;
    MallocIsComplete(s, req, page);
    MallocWithNothing(s, req);
  }

  lemma BetChange(s: State, bet: nat)
    requires Sound(s) && (bet == NULL || Listed(s.majs, bet))
    ensures Sound(s.(bet := bet))
  {
  }

  lemma ListedAfterGrow(s: State, page: nat, size: nat, bet: nat)
    requires bet == NULL || bet == page || Listed(s.majs, bet)
    ensures bet == NULL || Listed(Grow(s, page, size).majs, bet)
  {
    var majs' := Grow(s, page, size).majs;
    assert majs'[|s.majs|].addr == page;
    if Listed(s.majs, bet) {
      var t :| 0 <= t < |s.majs| && s.majs[t].addr == bet;
      assert majs'[t].addr == bet;
    }
  }

  /** The heap that a successful malloc places its minor in is sound, and only the major that
      takes the minor may be empty. */
  lemma PrepareIsSound(s: State, req: nat, page: nat)
    requires Inv(s) && Sane(req)
    requires PageOk(s.majs, page, req + ALIGNMENT + ALIGN_INFO)
    requires page != NULL || HasGap(s.majs, Need(req))
    ensures var (base, i) := Prepare(s, req, page);
      && Sound(base) && i < |base.majs| && Fits(base.majs[i], Need(req))
      && (forall t :: 0 <= t < |base.majs| && t != i ==> base.majs[t].minors != [])
  {
    hide Shape, TagsOk, Find;
    var size := req + ALIGNMENT + ALIGN_INFO;
    FindIsComplete(s, Need(req));
    NoGapMeansNoneFits(s.majs, Need(req));
    FindKeepsBetListed(s, Need(req));
    var (r, b) := Find(s, Need(req));
    if r < |s.majs| {
      BetChange(s, b.addr);
    } else {
      NewMajorOk(page, size);
      GrowKeepsSound(s, page, size);
      ListedAfterGrow(s, page, size, Prepare(s, req, page).0.bet);
      BetChange(Grow(s, page, size), Prepare(s, req, page).0.bet);
    }
  }

  /** Every malloc that succeeds places one minor in the prepared heap. */
  lemma MallocPlaces(s: State, req: nat, page: nat) returns (base: State, i: nat, k: nat)
    requires Inv(s) && Sane(req)
    requires PageOk(s.majs, page, req + ALIGNMENT + ALIGN_INFO)
    requires Malloc(s, req, page).1 != NULL
    ensures (base, i) == Prepare(s, req, page) && Sound(base)
    ensures CanPlace(base, i, k, req + ALIGNMENT + ALIGN_INFO, req)
    ensures forall t :: 0 <= t < |base.majs| && t != i ==> base.majs[t].minors != []
    ensures Malloc(s, req, page) == (PlaceAt(base, i, k, req + ALIGNMENT + ALIGN_INFO, req),
                                     Payload(GapStart(base.majs[i], k)))
  {
    hide Inv, Sound, PageOk, HasGap, Find, Prepare, PlaceAt, Payload;
    MallocIsComplete(s, req, page);
    PrepareIsSound(s, req, page);
    var (base', i') := Prepare(s, req, page);
    base, i := base', i';
    k := FirstGap(base.majs[i], Need(req), 0);
  }

  lemma MallocKeepsInv(s: State, req: nat, page: nat)
    requires Inv(s) && Sane(req)
    requires PageOk(s.majs, page, req + ALIGNMENT + ALIGN_INFO)
    ensures Inv(Malloc(s, req, page).0)
  {
    hide Malloc, Prepare, Shape, TagsOk, Find, MajorOk;
    if Malloc(s, req, page).1 == NULL {
      MallocRefused(s, req, page);
      FindIsComplete(s, Need(req));
      FindKeepsBetListed(s, Need(req));
    } else {
      var base, i, k := MallocPlaces(s, req, page);
      PlaceKeepsSound(base, i, k, req + ALIGNMENT + ALIGN_INFO, req);
      PlaceFillsMajor(base, i, k, req + ALIGNMENT + ALIGN_INFO, req);
    }
  }

  lemma PlaceFillsMajor(s: State, i: nat, k: nat, size: nat, req: nat)
    requires CanPlace(s, i, k, size, req)
    requires forall t :: 0 <= t < |s.majs| && t != i ==> s.majs[t].minors != []
    ensures NoEmptyMajor(PlaceAt(s, i, k, size, req).majs)
  {
  }

  // ----- What is handed out -----

  /** Nothing of [lo, lo + n) belongs to a major header, to another live minor's header, tag or
      payload, or to the header or tag of the minor at (i, k) itself. */
  ghost predicate Private(majs: seq<Major>, i: nat, k: nat, lo: nat, n: nat)
    requires i < |majs| && k < |majs[i].minors|
  {
    var m := majs[i].minors[k];
    && m.addr + MINOR_HEADER <= TagAddr(m.addr) < lo && lo + n <= m.End()
    && (forall x :: 0 <= x < |majs| ==> lo + n <= majs[x].addr || majs[x].addr + MAJOR_HEADER <= lo)
    && (forall x, y :: 0 <= x < |majs| && 0 <= y < |majs[x].minors| && (x != i || y != k) ==>
          lo + n <= majs[x].minors[y].addr || majs[x].minors[y].End() <= lo)
  }

  lemma PayloadsArePrivate(majs: seq<Major>, i: nat, k: nat)
    requires Shape(majs) && i < |majs| && k < |majs[i].minors|
    ensures Private(majs, i, k, Payload(majs[i].minors[k].addr), majs[i].minors[k].req)
  {
    var m := majs[i].minors[k];
    PayloadInside(m);
    forall x | 0 <= x < |majs|
      ensures m.End() <= majs[x].addr || majs[x].addr + MAJOR_HEADER <= m.addr
    {
      if x < i { assert Apart(majs[x], majs[i]); } else if i < x { assert Apart(majs[i], majs[x]); }
    }
    forall x, y | 0 <= x < |majs| && 0 <= y < |majs[x].minors| && (x != i || y != k)
      ensures m.End() <= majs[x].minors[y].addr || majs[x].minors[y].End() <= m.addr
    {
      MinorsApart(majs, i, k, x, y);
    }
  }

  lemma PlacedIsNew(s: State, i: nat, k: nat, size: nat, req: nat)
    requires Shape(s.majs) && CanPlace(s, i, k, size, req)
    ensures !Live(s.majs, GapStart(s.majs[i], k))
  {
    PlaceKeepsShape(s, i, k, size, req);
    var a := GapStart(s.majs[i], k);
    var majs' := PlaceAt(s, i, k, size, req).majs;
    if Live(s.majs, a) {
      var x, y :| At(s.majs, x, y, a);
      assert At(majs', i, k, a);
      PlaceIsUnique(majs', i, k, x, if x == i && y >= k then y + 1 else y, a);
    }
  }

  lemma LiveAfterPrepare(s: State, req: nat, page: nat, a: nat)
    requires Inv(s)
    ensures Live(Prepare(s, req, page).0.majs, a) <==> Live(s.majs, a)
  {
    hide Inv, Live, Find;
    LiveAfterGrow(s, page, req + ALIGNMENT + ALIGN_INFO, a);
  }

  /** What malloc returns is new, aligned, holds the request, and is private to its minor. */
  lemma MallocHandsOutPrivate(s: State, req: nat, page: nat) returns (i: nat, k: nat)
    requires Inv(s) && Sane(req)
    requires PageOk(s.majs, page, req + ALIGNMENT + ALIGN_INFO)
    requires Malloc(s, req, page).1 != NULL
    ensures var (s', p) := Malloc(s, req, page);
      && p % ALIGNMENT == 0
      && i < |s'.majs| && k < |s'.majs[i].minors|
      && p == Payload(s'.majs[i].minors[k].addr) && s'.majs[i].minors[k].req == req
      && !Live(s.majs, s'.majs[i].minors[k].addr)
      && Private(s'.majs, i, k, p, req)
  {
    hide Malloc, Prepare, Inv, PageOk, Live, Private, TagsOk, Gap;
    var base, i', k' := MallocPlaces(s, req, page);
    var size := req + ALIGNMENT + ALIGN_INFO;
    i, k := i', k';
    PlacedIsNew(base, i, k, size, req);
    LiveAfterPrepare(s, req, page, GapStart(base.majs[i], k));
    PlaceKeepsShape(base, i, k, size, req);
    PayloadsArePrivate(PlaceAt(base, i, k, size, req).majs, i, k);
  }

  lemma PrepareKeepsBytes(s: State, req: nat, page: nat, x: nat, y: nat)
    requires Inv(s) && PageOk(s.majs, page, req + ALIGNMENT + ALIGN_INFO)
    requires page != NULL || HasGap(s.majs, Need(req))
    requires x < |s.majs| && y < |s.majs[x].minors|
    ensures var m := s.majs[x].minors[y]; var base := Prepare(s, req, page).0;
      && x < |base.majs| && base.majs[x] == s.majs[x]
      && SameBytes(s.bytes, base.bytes, m.addr, MINOR_HEADER + m.size)
  {
    hide TagsOk, Find, BytesFor, PagesFor, Live, Listed, HasGap;
    FindIsComplete(s, Need(req));
    NoGapMeansNoneFits(s.majs, Need(req));
    if Find(s, Need(req)).0 == |s.majs| {
      assert Apart(s.majs[x], NewMajor(page, req + ALIGNMENT + ALIGN_INFO));
    }
  }

  /** malloc keeps every live minor and changes no byte of it. */
  lemma MallocKeepsPayloads(s: State, req: nat, page: nat, x: nat, y: nat) returns (y': nat)
    requires Inv(s) && Sane(req)
    requires PageOk(s.majs, page, req + ALIGNMENT + ALIGN_INFO)
    requires x < |s.majs| && y < |s.majs[x].minors|
    ensures var m := s.majs[x].minors[y]; var s' := Malloc(s, req, page).0;
      && x < |s'.majs| && y' < |s'.majs[x].minors| && s'.majs[x].minors[y'] == m
      && SameBytes(s.bytes, s'.bytes, m.addr, MINOR_HEADER + m.size)
  {
    hide Malloc, Prepare, HasGap, PlaceIn, Gap, Shape, TagsOk, PageOk;
    y' := y;
    MallocIsComplete(s, req, page);
    if Malloc(s, req, page).1 == NULL {
      MallocRefused(s, req, page);
    } else {
      var base, i, k := MallocPlaces(s, req, page);
      PrepareKeepsBytes(s, req, page, x, y);
      y' := if x == i && y >= k then y + 1 else y;
      PlaceKeepsBytes(base, i, k, req + ALIGNMENT + ALIGN_INFO, req, x, y');
    }
  }

  // ----- free -----

  lemma RemoveOrdered(j: Major, k: nat)
    requires MajorOk(j) && k < |j.minors|
    ensures MajorOk(j.(minors := RemoveAt(j.minors, k)))
  {
    var ms := RemoveAt(j.minors, k);
    assert forall t :: 0 <= t < |ms| ==> ms[t] == j.minors[if t < k then t else t + 1];
  }

  lemma UsedRemove(ms: seq<Minor>, k: nat)
    requires k < |ms|
    ensures Used(RemoveAt(ms, k)) == Used(ms) - MINOR_HEADER - ms[k].size
    ensures LiveSize(RemoveAt(ms, k)) == LiveSize(ms) - ms[k].size
  {
    RemoveInsert(ms, k);
    UsedInsert(RemoveAt(ms, k), k, ms[k]);
  }

  /** Where a minor that survives the freeing of minor (i, k) was before. */
  function WasAt(s: State, i: nat, k: nat, x: nat, y: nat): (nat, nat)
    requires i < |s.majs|
  {
    if |s.majs[i].minors| == 1 then (if x >= i then x + 1 else x, y)
    else (x, if x == i && y >= k then y + 1 else y)
  }

  lemma SurvivorsWere(s: State, i: nat, k: nat, x: nat, y: nat)
    requires i < |s.majs| && k < |s.majs[i].minors|
    requires x < |FreeAt(s, i, k).majs| && y < |FreeAt(s, i, k).majs[x].minors|
    ensures var (x', y') := WasAt(s, i, k, x, y);
      && x' < |s.majs| && y' < |s.majs[x'].minors| && (x' != i || y' != k)
      && FreeAt(s, i, k).majs[x].minors[y] == s.majs[x'].minors[y']
  {
  }

  lemma OthersSurvive(s: State, i: nat, k: nat, x: nat, y: nat) returns (x': nat, y': nat)
    requires i < |s.majs| && k < |s.majs[i].minors|
    requires x < |s.majs| && y < |s.majs[x].minors| && (x != i || y != k)
    ensures x' < |FreeAt(s, i, k).majs| && y' < |FreeAt(s, i, k).majs[x'].minors|
    ensures FreeAt(s, i, k).majs[x'].minors[y'] == s.majs[x].minors[y]
  {
    if |s.majs[i].minors| == 1 {
      x', y' := if x > i then x - 1 else x, y;
    } else {
      x', y' := x, if x == i && y > k then y - 1 else y;
    }
  }

  lemma LiveAfterFree(s: State, i: nat, k: nat, a: nat)
    requires Shape(s.majs) && i < |s.majs| && k < |s.majs[i].minors|
    ensures Live(FreeAt(s, i, k).majs, a) <==> Live(s.majs, a) && a != s.majs[i].minors[k].addr
  {
    if Live(s.majs, a) && a != s.majs[i].minors[k].addr {
      var x, y :| At(s.majs, x, y, a);
      var x', y' := OthersSurvive(s, i, k, x, y);
      assert At(FreeAt(s, i, k).majs, x', y', a);
    }
    if Live(FreeAt(s, i, k).majs, a) {
      var x, y :| At(FreeAt(s, i, k).majs, x, y, a);
      SurvivorsWere(s, i, k, x, y);
      var (x', y') := WasAt(s, i, k, x, y);
      assert At(s.majs, x', y', a);
      if a == s.majs[i].minors[k].addr {
        PlaceIsUnique(s.majs, i, k, x', y', a);
      }
    }
  }

  lemma FreeKeepsShape(s: State, i: nat, k: nat)
    requires Shape(s.majs) && NoEmptyMajor(s.majs) && i < |s.majs| && k < |s.majs[i].minors|
    ensures Shape(FreeAt(s, i, k).majs) && NoEmptyMajor(FreeAt(s, i, k).majs)
  {
    var majs' := FreeAt(s, i, k).majs;
    if |s.majs[i].minors| == 1 {
      assert forall t :: 0 <= t < |majs'| ==> majs'[t] == s.majs[if t < i then t else t + 1];
    } else {
      RemoveOrdered(s.majs[i], k);
      ShapeUpdate(s.majs, i, Without(s.majs[i], k));
    }
  }

  /** free keeps the tag and the payload of every minor but the one freed. */
  lemma FreeKeepsBytes(s: State, i: nat, k: nat, x: nat, y: nat)
    requires Shape(s.majs) && i < |s.majs| && k < |s.majs[i].minors|
    requires x < |s.majs| && y < |s.majs[x].minors| && (x != i || y != k)
    ensures var m := s.majs[x].minors[y];
      SameBytes(s.bytes, FreeAt(s, i, k).bytes, m.addr, MINOR_HEADER + m.size)
  {
    if |s.majs[i].minors| == 1 {
      assert x != i;
      if x < i { assert Apart(s.majs[x], s.majs[i]); } else { assert Apart(s.majs[i], s.majs[x]); }
    }
  }

  lemma FreeKeepsTags(s: State, i: nat, k: nat)
    requires Shape(s.majs) && TagsOk(s.majs, s.bytes) && i < |s.majs| && k < |s.majs[i].minors|
    ensures TagsOk(FreeAt(s, i, k).majs, FreeAt(s, i, k).bytes)
  {
    var s' := FreeAt(s, i, k);
    forall x, y | 0 <= x < |s'.majs| && 0 <= y < |s'.majs[x].minors|
      ensures var a := s'.majs[x].minors[y].addr;
        TagAddr(a) in s'.bytes && s'.bytes[TagAddr(a)] == Tag(a)
    {
      SurvivorsWere(s, i, k, x, y);
      var (x', y') := WasAt(s, i, k, x, y);
      FreeKeepsBytes(s, i, k, x', y');
      PayloadInside(s.majs[x'].minors[y']);
    }
  }

  lemma FreeKeepsBetListed(s: State, i: nat, k: nat)
    requires Shape(s.majs) && i < |s.majs| && k < |s.majs[i].minors|
    requires s.bet == NULL || Listed(s.majs, s.bet)
    ensures FreeAt(s, i, k).bet == NULL || Listed(FreeAt(s, i, k).majs, FreeAt(s, i, k).bet)
  {
    hide MajorOk, Room, Apart;
    var s' := FreeAt(s, i, k);
    if s'.bet != NULL {
      if s'.bet == s.bet {
        var t :| 0 <= t < |s.majs| && s.majs[t].addr == s.bet;
        assert s'.majs[if |s.majs[i].minors| == 1 && t > i then t - 1 else t].addr == s.bet;
      } else {
        assert s'.majs[i].addr == s'.bet;
      }
    }
  }

  lemma FreeKeepsTotals(s: State, i: nat, k: nat)
    requires i < |s.majs| && k < |s.majs[i].minors|
    requires s.inuseBytes == InUse(s.majs) && s.allocatedBytes == Allocated(s.majs)
    ensures FreeAt(s, i, k).inuseBytes == InUse(FreeAt(s, i, k).majs)
    ensures FreeAt(s, i, k).allocatedBytes == Allocated(FreeAt(s, i, k).majs)
  {
    UsedRemove(s.majs[i].minors, k);
    if |s.majs[i].minors| == 1 {
      assert RemoveAt(s.majs[i].minors, k) == [];
      SumsRemove(s.majs, i);
    } else {
      SumsUpdate(s.majs, i, Without(s.majs[i], k));
    }
  }

  lemma FreeKeepsDeadApart(s: State, i: nat, k: nat)
    requires Shape(s.majs) && i < |s.majs| && k < |s.majs[i].minors|
    requires forall a :: a in s.dead ==> !Live(s.majs, a)
    ensures forall a :: a in FreeAt(s, i, k).dead ==> !Live(FreeAt(s, i, k).majs, a)
  {
    forall a | a in FreeAt(s, i, k).dead ensures !Live(FreeAt(s, i, k).majs, a) {
      LiveAfterFree(s, i, k, a);
    }
  }

  lemma FreeKeepsInv(s: State, i: nat, k: nat)
    requires Inv(s) && i < |s.majs| && k < |s.majs[i].minors|
    ensures Inv(FreeAt(s, i, k))
  {
    FreeKeepsShape(s, i, k);
    FreeKeepsTags(s, i, k);
    FreeKeepsBetListed(s, i, k);
    FreeKeepsTotals(s, i, k);
    FreeKeepsDeadApart(s, i, k);
  }

  /** The tag of a live minor leads back from its payload to its header. */
  lemma TagLeadsHome(s: State, i: nat, k: nat)
    requires Inv(s) && i < |s.majs| && k < |s.majs[i].minors|
    ensures var a := s.majs[i].minors[k].addr;
      Headed(s, Payload(a)) && HeaderOf(s.bytes, Payload(a)) == a && Live(s.majs, a) && Locate(s.majs, a) == (i, k)
  {
    var a := s.majs[i].minors[k].addr;
    assert At(s.majs, i, k, a);
    var (x, y) := Locate(s.majs, a);
    PlaceIsUnique(s.majs, i, k, x, y, a);
  }

  /** free of a live payload frees that minor. */
  lemma FreeFindsMinor(s: State, i: nat, k: nat)
    requires Inv(s) && i < |s.majs| && k < |s.majs[i].minors|
    ensures var p := Payload(s.majs[i].minors[k].addr);
      Headed(s, p) && FreePtr(s, p) == FreeAt(s, i, k)
  {
    TagLeadsHome(s, i, k);
  }

  lemma FreeUndoesPlace(s: State, i: nat, k: nat, size: nat, req: nat)
    requires i < |s.majs| && k <= |s.majs[i].minors|
    ensures var s' := FreeAt(PlaceAt(s, i, k, size, req), i, k);
      && s'.inuseBytes == s.inuseBytes
      && s'.majs == (if s.majs[i].minors == [] then RemoveAt(s.majs, i) else s.majs)
      && s'.allocatedBytes == s.allocatedBytes - if s.majs[i].minors == [] then s.majs[i].size else 0
  {
    var j := s.majs[i];
    InsertRemove(j.minors, k, Minor(GapStart(j, k), size, req));
    assert j.(minors := j.minors) == j;
    if j.minors != [] {
      assert s.majs[i := PlaceAt(s, i, k, size, req).majs[i]][i := j] == s.majs;
    }
  }

  lemma PrepareUndone(s: State, req: nat, page: nat)
    requires Inv(s)
    ensures var (base, i) := Prepare(s, req, page);
      && base.inuseBytes == s.inuseBytes && i < |base.majs|
      && (if base.majs[i].minors == [] then
            RemoveAt(base.majs, i) == s.majs && base.allocatedBytes - base.majs[i].size == s.allocatedBytes
          else base.majs == s.majs && base.allocatedBytes == s.allocatedBytes)
  {
    FindIsComplete(s, Need(req));
  }

  /** Freeing what malloc just returned restores the majors, all their minors (so also every
      usage count) and both totals, whichever of the five cases placed it. */
  lemma FreeUndoesMalloc(s: State, req: nat, page: nat)
    requires Inv(s) && Sane(req)
    requires PageOk(s.majs, page, req + ALIGNMENT + ALIGN_INFO)
    requires Malloc(s, req, page).1 != NULL
    ensures var (s', p) := Malloc(s, req, page);
      && Headed(s', p)
      && FreePtr(s', p).majs == s.majs
      && FreePtr(s', p).inuseBytes == s.inuseBytes
      && FreePtr(s', p).allocatedBytes == s.allocatedBytes
  {
    var base, i, k := MallocPlaces(s, req, page);
    var size := req + ALIGNMENT + ALIGN_INFO;
    MallocKeepsInv(s, req, page);
    assert PlaceAt(base, i, k, size, req).majs[i].minors[k].addr == GapStart(base.majs[i], k);
    FreeFindsMinor(PlaceAt(base, i, k, size, req), i, k);
    FreeUndoesPlace(base, i, k, size, req);
    PrepareUndone(s, req, page);
  }
}
