/** Where malloc puts a minor, and which major is the best bet afterwards, said without the search:
    by gaps, by free space, and by the order of the majors. */
module HeapPolicy {
  import opened Words
  import opened HeapModel
  import opened HeapLemmas
  import opened HeapLaws
  import opened HeapRealloc

  // ----- Where a minor goes -----

  /** Some gap of the major can take `need` bytes. */
  ghost predicate Fitting(j: Major, need: nat) { exists k :: 0 <= k <= |j.minors| && Gap(j, k) >= need }

  ghost predicate SomeFitting(majs: seq<Major>, need: nat) {
    exists t :: 0 <= t < |majs| && Fitting(majs[t], need)
  }

  /** Gap k is the lowest of the major that can take `need` bytes. */
  ghost predicate LowestGap(j: Major, need: nat, k: nat) {
    k <= |j.minors| && Gap(j, k) >= need && forall t :: 0 <= t < k ==> Gap(j, t) < need
  }

  /** The search begins at the best bet if that has more than `need` bytes free, else at the root. */
  ghost predicate BeginsAt(s: State, need: nat, from: nat) {
    || (from < |s.majs| && s.majs[from].addr == s.bet && Room(s.majs[from]) > need)
    || (from == 0 && forall b :: 0 <= b < |s.majs| && s.majs[b].addr == s.bet ==> Room(s.majs[b]) <= need)
  }

  /** Major i is the first that can take `need` bytes from index `from` on, wrapping once. */
  ghost predicate FirstFitting(majs: seq<Major>, need: nat, from: nat, i: nat) {
    && i < |majs| && Fitting(majs[i], need)
    && (forall t :: from <= t < |majs| && (i < from || t < i) ==> !Fitting(majs[t], need))
    && (i < from ==> forall t :: 0 <= t < i ==> !Fitting(majs[t], need))
  }

  lemma FittingIsFits(majs: seq<Major>, need: nat)
    ensures forall t :: 0 <= t < |majs| ==> (Fits(majs[t], need) <==> Fitting(majs[t], need))
    ensures HasGap(majs, need) <==> SomeFitting(majs, need)
  {
    forall t | 0 <= t < |majs| ensures Fits(majs[t], need) <==> Fitting(majs[t], need) {
      FitsMeansGap(majs[t], need);
    }
  }

  lemma LowestGapIs(j: Major, need: nat)
    requires Fits(j, need)
    ensures LowestGap(j, need, FirstGap(j, need, 0))
  {
  }

  /** Where the search starts. */
  lemma StartIs(s: State, need: nat)
    requires Inv(s)
    ensures BeginsAt(s, need, if StartsAtBet(s, need) then IndexOf(s.majs, s.bet) else 0)
    ensures StartsAtBet(s, need) ==> IndexOf(s.majs, s.bet) < |s.majs|
  {
    hide Room, Inv, Shape;
    InvGivesShape(s);
    InvGivesBet(s);
    forall t | 0 <= t < |s.majs| && s.majs[t].addr == s.bet ensures t == IndexOf(s.majs, s.bet) && s.bet != NULL {
      IndexOfMajor(s.majs, t);
      ShapeGivesAddr(s.majs, t);
    }
  }

  lemma InvGivesBet(s: State)
    requires Inv(s)
    ensures s.bet == NULL || exists t :: 0 <= t < |s.majs| && s.majs[t].addr == s.bet
  {
  }

  /** What the search finds. */
  lemma FindIsFirst(s: State, need: nat) returns (from: nat)
    requires Inv(s) && SomeFitting(s.majs, need)
    ensures from == if StartsAtBet(s, need) then IndexOf(s.majs, s.bet) else 0
    ensures BeginsAt(s, need, from) && FirstFitting(s.majs, need, from, Find(s, need).0)
  {
    hide Fits, Fitting, Search, Room, Inv, BeginsAt, StartsAtBet, BetBefore;
    FittingIsFits(s.majs, need);
    StartIs(s, need);
    from := if StartsAtBet(s, need) then IndexOf(s.majs, s.bet) else 0;
    SearchIsFirstFit(s.majs, need, from, StartsAtBet(s, need), BetBefore(s));
    FindIsComplete(s, need);
  }

  lemma ShapeGivesAddr(majs: seq<Major>, t: nat)
    requires Shape(majs) && t < |majs|
    ensures majs[t].addr != NULL
  {
  }

  // ----- The best bet -----

  /** Free bytes of the major at an address; 0 if none is there. */
  ghost function RoomAt(majs: seq<Major>, addr: nat): int
  {
    if exists t :: 0 <= t < |majs| && majs[t].addr == addr
    then var t :| 0 <= t < |majs| && majs[t].addr == addr; Room(majs[t]) else 0
  }

  lemma RoomAtMajor(majs: seq<Major>, t: nat)
    requires Shape(majs) && t < |majs|
    ensures RoomAt(majs, majs[t].addr) == Room(majs[t])
  {
    hide Room, MajorOk, Apart;
    var u :| 0 <= u < |majs| && majs[u].addr == majs[t].addr && RoomAt(majs, majs[t].addr) == Room(majs[u]);
    if u != t { MajorsApart(majs, u, t); }
  }

  lemma RoomAtNull(majs: seq<Major>)
    requires Shape(majs)
    ensures RoomAt(majs, NULL) == 0
  {
  }

  /** The best bet goes from one major to another only where there is strictly more free space. */
  ghost predicate Improves(majs: seq<Major>, before: nat, after: nat) {
    after == before || (Listed(majs, after) && RoomAt(majs, after) > RoomAt(majs, before))
  }

  /** Major t is one of those from `from` on, wrapping once, up to i. */
  predicate Between(from: nat, i: nat, t: nat) { if from <= i then from <= t <= i else from <= t || t <= i }

  /** The bet `after` is `before` or one of the majors from `from` to i, and has no less room than any
      of those. */
  ghost predicate BestOf(majs: seq<Major>, from: nat, i: nat, before: nat, after: nat) {
    && (after == before || exists t: nat :: t < |majs| && Between(from, i, t) && majs[t].addr == after)
    && forall t: nat :: t < |majs| && Between(from, i, t) ==> RoomAt(majs, after) >= Room(majs[t])
  }

  ghost predicate HasMostRoom(majs: seq<Major>, addr: nat) {
    forall t :: 0 <= t < |majs| ==> RoomAt(majs, addr) >= Room(majs[t])
  }

  /** The bet that a search leaves. */
  lemma FindBet(s: State, need: nat, from: nat)
    requires Inv(s) && from == if StartsAtBet(s, need) then IndexOf(s.majs, s.bet) else 0
    ensures var (i, b) := Find(s, need);
      && b.best == RoomAt(s.majs, b.addr) && Improves(s.majs, s.bet, b.addr)
      && (i < |s.majs| ==> BestOf(s.majs, from, i, s.bet, b.addr))
      && (i == |s.majs| ==> HasMostRoom(s.majs, b.addr))
  {
    hide Inv, Shape, Room, RoomAt, Search, StartsAtBet;
    InvGivesShape(s);
    InvGivesBet(s);
    StartIs(s, need);
    FindIsComplete(s, need);
    BetBeforeIs(s);
    forall t | 0 <= t < |s.majs| ensures RoomAt(s.majs, s.majs[t].addr) == Room(s.majs[t]) {
      RoomAtMajor(s.majs, t);
    }
    SearchKeepsBest(s.majs, need, from, StartsAtBet(s, need), BetBefore(s));
  }

  lemma BetBeforeIs(s: State)
    requires Inv(s)
    ensures BetBefore(s) == Bet(s.bet, RoomAt(s.majs, s.bet))
  {
    hide Inv, Shape, Room, RoomAt;
    InvGivesShape(s);
    if s.bet == NULL {
      RoomAtNull(s.majs);
    } else {
      InvGivesBet(s);
      var t :| 0 <= t < |s.majs| && s.majs[t].addr == s.bet;
      IndexOfMajor(s.majs, t);
      RoomAtMajor(s.majs, t);
    }
  }

  // ----- malloc -----

  /** If the heap has a gap for the request: the new minor goes to the first major that can take it,
      counted from the best bet if that has more than enough free bytes and from the root otherwise,
      and there to the lowest gap; everything else stays where it is.  The new best bet has, before
      that, no less room than any major passed, and is another one only if it has strictly more. */
  lemma MallocIntoGap(s: State, req: nat, page: nat) returns (from: nat, i: nat, k: nat)
    requires Inv(s) && SomeFitting(s.majs, req + 72)
    ensures BeginsAt(s, req + 72, from) && FirstFitting(s.majs, req + 72, from, i)
    ensures LowestGap(s.majs[i], req + 72, k)
    ensures var j := s.majs[i]; var (s', p) := Malloc(s, req, page);
      && p == Payload(GapStart(j, k))
      && s'.majs == s.majs[i := j.(minors :=
           j.minors[..k] + [Minor(GapStart(j, k), req + 32, req)] + j.minors[k..])]
      && s'.warnings == s.warnings && s'.errors == s.errors && s'.overruns == s.overruns
      && Improves(s.majs, s.bet, s'.bet) && BestOf(s.majs, from, i, s.bet, s'.bet)
  {
    hide Find, Gap, Fits, Fitting, FirstGap, Inv, Payload, Room, RoomAt, Improves, BestOf, StartsAtBet;
    FittingIsFits(s.majs, Need(req));
    from := FindIsFirst(s, Need(req));
    FindBet(s, Need(req), from);
    i := Find(s, Need(req)).0;
    LowestGapIs(s.majs[i], Need(req));
    k := FirstGap(s.majs[i], Need(req), 0);
  }

  /** Pages of a new major: the least number, but at least 16, that hold the request and both headers. */
  ghost predicate PagesNeeded(n: nat, req: nat) {
    var bytes := req + 32 + 40 + 40;
    n >= 16 && n * 4096 >= bytes && (n > 16 ==> (n - 1) * 4096 < bytes)
  }

  lemma PagesAreNeeded(req: nat)
    requires Sane(req)
    ensures var size := req + ALIGNMENT + ALIGN_INFO;
      PagesNeeded(PagesFor(size), req) && BytesFor(size) == PagesFor(size) * PAGE_SIZE
  {
    BytesCoverIff(req + ALIGNMENT + ALIGN_INFO);
  }

  /** If not, and the page source answers: the minor is the only one of a new major behind all others.
      The best bet is then c, which has no less room than any old major, or the new major if that has
      more; but the new one is looked at only if the last old one had enough free bytes in all. */
  lemma MallocIntoNew(s: State, req: nat, page: nat) returns (n: nat, c: nat)
    requires Inv(s) && Sane(req) && !SomeFitting(s.majs, req + 72)
    requires page != NULL && PageOk(s.majs, page, req + ALIGNMENT + ALIGN_INFO)
    ensures PagesNeeded(n, req)
    ensures var (s', p) := Malloc(s, req, page); var a := page + 40;
      && p == Payload(a)
      && s'.majs == s.majs + [Major(page, n, n * 4096, [Minor(a, req + 32, req)])]
      && s'.warnings == s.warnings && s'.errors == s.errors && s'.overruns == s.overruns
      && Improves(s.majs, s.bet, c) && HasMostRoom(s.majs, c)
      && s'.bet == if s.majs != [] && Room(s.majs[|s.majs|-1]) < req + 72 then c
                   else if n * 4096 - 40 > RoomAt(s.majs, c) then page else c
  {
    hide Find, Gap, Fits, Fitting, FirstGap, Inv, Payload, PagesFor, BytesFor, RoomAt, Improves, HasMostRoom;
    FindBet(s, Need(req), if StartsAtBet(s, Need(req)) then IndexOf(s.majs, s.bet) else 0);
    c := Find(s, Need(req)).1.addr;
    assert Used([]) == 0;
    var size := req + ALIGNMENT + ALIGN_INFO;
    n := PagesFor(size);
    PagesAreNeeded(req);
    NewMajorOk(page, size);
    FittingIsFits(s.majs, Need(req));
    NoGapMeansNoneFits(s.majs, Need(req));
    FindIsComplete(s, Need(req));
    var j := NewMajor(page, size);
    var (base, i) := Prepare(s, req, page);
    assert i == |s.majs| && base.majs == s.majs + [j] && base.majs[i] == j;
    assert InsertAt([], 0, Minor(GapStart(j, 0), size, req)) == [Minor(GapStart(j, 0), size, req)];
  }

  /** If not, and the page source refuses: one warning, and the best bet has no less room than any
      major. */
  lemma MallocFails(s: State, req: nat)
    requires Inv(s) && !SomeFitting(s.majs, req + 72)
    ensures var (s', p) := Malloc(s, req, NULL);
      && p == NULL && s' == s.(warnings := s.warnings + 1, bet := s'.bet)
      && Improves(s.majs, s.bet, s'.bet) && HasMostRoom(s.majs, s'.bet)
  {
    hide Find, Fits, Fitting, Inv, RoomAt, Room, Improves, HasMostRoom;
    FittingIsFits(s.majs, Need(req));
    FindIsComplete(s, Need(req));
    NoGapMeansNoneFits(s.majs, Need(req));
    FindBet(s, Need(req), if StartsAtBet(s, Need(req)) then IndexOf(s.majs, s.bet) else 0);
  }

  // ----- free -----

  /** The live minor that p leads to. */
  ghost predicate LeadsToLive(s: State, p: nat, i: nat, k: nat) {
    && p != NULL && Headed(s, p)
    && i < |s.majs| && k < |s.majs[i].minors| && s.majs[i].minors[k].addr == HeaderOf(s.bytes, p)
  }

  lemma FreesThere(s: State, p: nat, i: nat, k: nat)
    requires Inv(s) && LeadsToLive(s, p, i, k)
    ensures FreePtr(s, p) == FreeAt(s, i, k)
  {
    hide FreeAt;
    var h := HeaderOf(s.bytes, p);
    assert At(s.majs, i, k, h);
    var (x, y) := Locate(s.majs, h);
    PlaceIsUnique(s.majs, i, k, x, y, h);
  }

  /** What is left of the majors: the minor is taken out of its major, or the major out of the list if
      it was the only one. */
  lemma FreeTakesOut(s: State, p: nat, i: nat, k: nat)
    requires Inv(s) && LeadsToLive(s, p, i, k)
    ensures var j := s.majs[i]; var s' := FreePtr(s, p);
      && s'.majs == (if |j.minors| == 1 then s.majs[..i] + s.majs[i+1..]
                     else s.majs[i := j.(minors := j.minors[..k] + j.minors[k+1..])])
      && s'.warnings == s.warnings && s'.errors == s.errors && s'.overruns == s.overruns
  {
    FreesThere(s, p, i, k);
  }

  /** A major that goes takes the best bet with it, and no other bet goes. */
  lemma BetAfterRelease(s: State, p: nat, i: nat, k: nat)
    requires Inv(s) && LeadsToLive(s, p, i, k) && |s.majs[i].minors| == 1
    ensures FreePtr(s, p).bet == if s.bet == s.majs[i].addr then NULL else s.bet
  {
    FreesThere(s, p, i, k);
  }

  /** The better of the old bet and the major freed from: the old one unless the other has strictly more
      room. */
  ghost predicate BetterBet(majs: seq<Major>, before: nat, other: nat, after: nat) {
    after == if RoomAt(majs, other) > RoomAt(majs, before) then other else before
  }

  /** After a free in a major that stays, the program keeps the better bet if and only if both majors
      have less than 2^31 bytes free, or both at least as much; a bet that is null stays null. */
  lemma BetAfterFreeIff(s: State, p: nat, i: nat, k: nat)
    requires Inv(s) && LeadsToLive(s, p, i, k) && |s.majs[i].minors| > 1
    ensures var s' := FreePtr(s, p); var a := s.majs[i].addr;
      && (s'.bet == s.bet || s'.bet == a)
      && (s.bet == NULL ==> s'.bet == NULL)
      && (s.bet != NULL ==>
            (BetterBet(s'.majs, s.bet, a, s'.bet)
             <==> (RoomAt(s'.majs, a) < TWO_31 <==> RoomAt(s'.majs, s.bet) < TWO_31)))
  {
    hide Inv, Shape, Room, RoomAt, ToInt32, FreePtr, RemoveAt, Usage;
    FreesThere(s, p, i, k);
    InvGivesShape(s);
    var majs' := FreeAt(s, i, k).majs;
    InvGivesFull(s);
    FreeKeepsShape(s, i, k);
    assert |majs'| == |s.majs| && forall t :: 0 <= t < |majs'| ==> majs'[t].addr == s.majs[t].addr;
    RoomAtMajor(majs', i);
    RoomFits(majs', i);
    if s.bet != NULL {
      InvGivesBet(s);
      var t :| 0 <= t < |s.majs| && s.majs[t].addr == s.bet;
      IndexOfMajor(majs', t);
      RoomAtMajor(majs', t);
      RoomFits(majs', t);
      SignedOrder(Room(majs'[i]), Room(majs'[t]));
      if i != t { MajorsApart(majs', i, t); }
    }
  }

  lemma InvGivesFull(s: State)
    requires Inv(s)
    ensures NoEmptyMajor(s.majs)
  {
  }

  lemma RoomFits(majs: seq<Major>, t: nat)
    requires Shape(majs) && t < |majs|
    ensures 0 <= Room(majs[t]) < TWO_32
  {
    FreeNonNegative(majs[t]);
  }

  /** The signed reading orders two sizes rightly exactly if both or neither reach 2^31. */
  lemma SignedOrder(x: int, y: int)
    requires 0 <= x < TWO_32 && 0 <= y < TWO_32
    ensures (ToInt32(x) > ToInt32(y) <==> x > y) <==> (x < TWO_31 <==> y < TWO_31)
  {
  }

  /** A heap of two majors: the best bet is a small one with one minor, the other holds 0x90000000 bytes
      and a small minor behind them. */
  const SMALL: Minor := Minor(0x1_0028, 132, 100)
  const LARGE: Minor := Minor(0x1_0000_0028, 0x9000_0020, 0x9000_0000)
  const BEHIND: Minor := Minor(0x1_9000_0070, 132, 100)
  const LOPSIDED: State := State(
    [Major(0x1_0000, 16, 0x1_0000, [SMALL]), Major(0x1_0000_0000, 0x9_0001, 0x9000_1000, [LARGE, BEHIND])],
    0x1_0000, 0x9001_1000, 0x9000_0128, 0, 0, 0,
    map[TagAddr(SMALL.addr) := Tag(SMALL.addr), TagAddr(LARGE.addr) := Tag(LARGE.addr),
        TagAddr(BEHIND.addr) := Tag(BEHIND.addr)],
    map[])

  lemma LopsidedShape()
    ensures Shape(LOPSIDED.majs)
  {
    var majs := LOPSIDED.majs;
    assert MajorOk(majs[0]);
    assert MajorOk(majs[1]);
    assert Apart(majs[0], majs[1]);
  }

  lemma LopsidedTotals()
    ensures InUse(LOPSIDED.majs) == LOPSIDED.inuseBytes && Allocated(LOPSIDED.majs) == LOPSIDED.allocatedBytes
  {
    hide InUse, Allocated, LiveSize;
    var majs := LOPSIDED.majs;
    SumsOne(majs[0]);
    SumsOne(majs[1]);
    SumsConcat([majs[0]], [majs[1]]);
    assert majs == [majs[0]] + [majs[1]];
    UsedOfTwo(LARGE, BEHIND);
    UsedOfOne(SMALL);
  }

  lemma LopsidedTags()
    ensures TagsOk(LOPSIDED.majs, LOPSIDED.bytes)
  {
    hide Payload;
    assert TagAddr(SMALL.addr) < TagAddr(LARGE.addr) < TagAddr(BEHIND.addr);
  }

  lemma LopsidedIsFine()
    ensures Inv(LOPSIDED)
  {
    hide Shape, InUse, Allocated, TagsOk, TagAddr, Tag;
    LopsidedShape();
    LopsidedTotals();
    LopsidedTags();
    assert LOPSIDED.majs[0].addr == LOPSIDED.bet;
  }

  lemma UsedOfOne(m: Minor)
    ensures Used([m]) == MINOR_HEADER + m.size && LiveSize([m]) == m.size
  {
    assert [m][..0] == [];
  }

  lemma UsedOfTwo(m: Minor, m': Minor)
    ensures Used([m, m']) == 2 * MINOR_HEADER + m.size + m'.size && LiveSize([m, m']) == m.size + m'.size
  {
    UsedOfOne(m);
    UsedOfOne(m');
    UsedConcat([m], [m']);
    assert [m] + [m'] == [m, m'];
  }

  /** Freeing the 0x90000000 bytes there does not make their major the best bet, though it has far more
      room than the old one. */
  lemma BigMajorMissesBet()
    ensures var s := LOPSIDED; var p := Payload(LARGE.addr);
      && Inv(s) && LeadsToLive(s, p, 1, 0)
      && FreePtr(s, p).bet == s.bet
      && RoomAt(FreePtr(s, p).majs, s.majs[1].addr) > 0x9000_0000
      && RoomAt(FreePtr(s, p).majs, s.bet) < 0x1_0000
  {
    hide Inv, RoomAt, Payload;
    var s := LOPSIDED;
    var p := Payload(LARGE.addr);
    LopsidedIsFine();
    TagLeadsHome(s, 1, 0);
    FreeTakesOut(s, p, 1, 0);
    FreeKeepsInv(s, 1, 0);
    FreesThere(s, p, 1, 0);
    var majs' := FreePtr(s, p).majs;
    assert majs' == [s.majs[0], s.majs[1].(minors := [BEHIND])];
    UsedOfOne(SMALL);
    UsedOfOne(BEHIND);
    InvGivesShape(FreePtr(s, p));
    RoomAtMajor(majs', 0);
    RoomAtMajor(majs', 1);
    BetAfterFreeIff(s, p, 1, 0);
  }

  // ----- Pointers that are not live -----

  /** free of NULL counts one warning and does nothing else. */
  lemma FreeOfNull(s: State)
    ensures FreePtr(s, NULL) == s.(warnings := s.warnings + 1)
  {
  }

  /** free of a freed pointer counts one error, with an overrun if the low byte of the magic is intact. */
  lemma FreeOfFreed(s: State, p: nat)
    requires p != NULL && Headed(s, p) && !Live(s.majs, HeaderOf(s.bytes, p))
    ensures var low := s.dead[HeaderOf(s.bytes, p)] % 0x100;
      FreePtr(s, p) == s.(errors := s.errors + 1, overruns := s.overruns + if low == 0xde then 1 else 0)
  {
    OverrunIffLowByte(s.dead[HeaderOf(s.bytes, p)]);
  }

  /** What malloc hands out is aligned to 16 bytes, with 16 bytes for the tag before it. */
  lemma PayloadIsAligned(a: nat)
    ensures Payload(a) % 16 == 0 && a + 40 + 16 <= Payload(a) < a + 40 + 32 && TagAddr(a) == Payload(a) - 16
  {
  }

  /** Of the three tests for an overrun of one to three bytes the last one decides: the low byte of the
      magic is intact. */
  lemma OverrunIffLowByte(magic: nat)
    ensures LooksOverrun(magic) <==> magic % 0x100 == 0xde
  {
    assert MAGIC % 0x100_0000 == 0x01_c0de && MAGIC % 0x1_0000 == 0xc0de && MAGIC % 0x100 == 0xde;
    LowByteOf(magic, 0x1_0000);
    LowByteOf(magic, 0x100);
  }

  lemma LowByteOf(x: nat, n: nat)
    requires n == 0x100 || n == 0x1_0000
    ensures x % (0x100 * n) % 0x100 == x % 0x100
  {
    var q, r := x / (0x100 * n), x % (0x100 * n);
    assert x == (q * n) * 0x100 + r;
    SameRemainder(q * n, r);
  }

  lemma SameRemainder(k: nat, r: nat)
    ensures (k * 0x100 + r) % 0x100 == r % 0x100
  {
  }

  // ----- realloc -----

  /** realloc of NULL is malloc: NULL exactly if there is neither a gap nor a page, and otherwise an
      aligned, private payload of a new minor of that size. */
  lemma ReallocOfNull(s: State, size: nat, page: nat) returns (i: nat, k: nat)
    requires Inv(s) && ReallocOk(s, NULL, size, page) && size > 0
    ensures var (s', q) := Realloc(s, NULL, size, page);
      && (s', q) == Malloc(s, size, page)
      && (q == NULL <==> !SomeFitting(s.majs, Need(size)) && page == NULL)
      && (q != NULL ==>
            && q % ALIGNMENT == 0
            && i < |s'.majs| && k < |s'.majs[i].minors|
            && q == Payload(s'.majs[i].minors[k].addr) && s'.majs[i].minors[k].req == size
            && !Live(s.majs, s'.majs[i].minors[k].addr)
            && Private(s'.majs, i, k, q, size))
  {
    hide Malloc, Inv, PageOk, HasGap, Private, SomeFitting, Payload;
    MallocIsComplete(s, size, page);
    FittingIsFits(s.majs, Need(size));
    i, k := 0, 0;
    if Malloc(s, size, page).1 != NULL { i, k := MallocHandsOutPrivate(s, size, page); }
  }

  /** realloc of a freed pointer: NULL and one error, with an overrun if the low byte of the magic is
      intact. */
  lemma ReallocOfFreed(s: State, p: nat, size: nat, page: nat)
    requires p != NULL && Headed(s, p) && !Live(s.majs, HeaderOf(s.bytes, p)) && size > 0
    ensures var low := s.dead[HeaderOf(s.bytes, p)] % 0x100;
      Realloc(s, p, size, page)
      == (s.(errors := s.errors + 1, overruns := s.overruns + if low == 0xde then 1 else 0), NULL)
  {
    OverrunIffLowByte(s.dead[HeaderOf(s.bytes, p)]);
  }

  /** realloc to no bytes frees. */
  lemma ReallocToNothing(s: State, p: nat, page: nat)
    requires Inv(s) && p != NULL && Headed(s, p) && Live(s.majs, HeaderOf(s.bytes, p))
    ensures var (s', q) := Realloc(s, p, 0, page);
      && q == NULL
      && forall a :: Live(s'.majs, a) <==> Live(s.majs, a) && a != HeaderOf(s.bytes, p)
  {
    hide FreeAt, Inv;
    InvGivesShape(s);
    var h := HeaderOf(s.bytes, p);
    var (i, k) := Locate(s.majs, h);
    forall a ensures Live(FreeAt(s, i, k).majs, a) <==> Live(s.majs, a) && a != h {
      LiveAfterFree(s, i, k, a);
    }
  }

  /** A realloc that moves leaves exactly the old live minors but its own, and the new one. */
  lemma ReallocSwaps(s: State, p: nat, size: nat, page: nat) returns (added: nat)
    requires Inv(s) && ReallocOk(s, p, size, page) && Moves(s, p, size) && Granted(s, size, page)
    ensures var (s', q) := Realloc(s, p, size, page); var h := Home(s, p, size);
      && q == Payload(added) && !Live(s.majs, added)
      && forall a :: Live(s'.majs, a) <==> (Live(s.majs, a) && a != h) || a == added
  {
    hide Malloc, Inv, PageOk, HasGap, Sane, FreeAt, Copy, Payload, SameBytes, Private;
    var x, y, k, ni, nk := ReallocMoves(s, p, size, page);
    var (s1, q) := Malloc(s, size, page);
    added := s1.majs[ni].minors[nk].addr;
    var s2 := Copy(s1, q, p, s1.majs[x].minors[k].req);
    CopyChangesNoMinor(s1, q, p, s1.majs[x].minors[k].req);
    CopyIsPrivate(s1, x, k, ni, nk, p);
    InvGivesShape(s2);
    LiveAfterMalloc(s, size, page, ni, nk);
    forall a ensures Live(FreeAt(s2, x, k).majs, a) <==> Live(s1.majs, a) && a != HeaderOf(s.bytes, p) {
      LiveAfterFree(s2, x, k, a);
    }
  }

  /** malloc adds one live minor. */
  lemma LiveAfterMalloc(s: State, req: nat, page: nat, i: nat, k: nat)
    requires Inv(s) && Sane(req) && PageOk(s.majs, page, req + ALIGNMENT + ALIGN_INFO)
    requires Malloc(s, req, page).1 != NULL
    requires var (s1, q) := Malloc(s, req, page);
      i < |s1.majs| && k < |s1.majs[i].minors| && q == Payload(s1.majs[i].minors[k].addr)
    ensures var s1 := Malloc(s, req, page).0; var added := s1.majs[i].minors[k].addr;
      !Live(s.majs, added) && forall a :: Live(s1.majs, a) <==> Live(s.majs, a) || a == added
  {
    hide Inv, PageOk, Sane, Malloc, Prepare, Live, Private, Payload;
    var base, x, y := MallocPlaces(s, req, page);
    var size := req + ALIGNMENT + ALIGN_INFO;
    var s1 := Malloc(s, req, page).0;
    PlacedIsNew(base, x, y, size, req);
    MallocKeepsInv(s, req, page);
    InvGivesShape(s1);
    assert s1.majs[x].minors[y].addr == GapStart(base.majs[x], y);
    SamePayloadSameMinor(s1.majs, x, y, i, k);
    forall a ensures Live(s1.majs, a) <==> Live(s.majs, a) || a == GapStart(base.majs[x], y) {
      LiveAfterPlace(base, x, y, size, req, a);
      LiveAfterPrepare(s, req, page, a);
    }
    LiveAfterPrepare(s, req, page, GapStart(base.majs[x], y));
  }

  /** malloc changes no byte of the payload it hands out. */
  lemma MallocLeavesPayload(s: State, req: nat, page: nat)
    requires Inv(s) && Sane(req) && PageOk(s.majs, page, req + ALIGNMENT + ALIGN_INFO)
    requires Malloc(s, req, page).1 != NULL
    ensures SameBytes(s.bytes, Malloc(s, req, page).0.bytes, Malloc(s, req, page).1, req)
  {
    hide Inv, PageOk, Sane, Malloc, Find, Live, Private, Payload, Sound;
    var base, x, y := MallocPlaces(s, req, page);
    var size := req + ALIGNMENT + ALIGN_INFO;
    var m := Minor(GapStart(base.majs[x], y), size, req);
    PayloadInside(m);
    PlacedBehindNewHeader(s, req, page, base, x, y);
  }

  /** If a major was added, the minor lies in it behind its header. */
  lemma PlacedBehindNewHeader(s: State, req: nat, page: nat, base: State, x: nat, y: nat)
    requires (base, x) == Prepare(s, req, page) && Sound(base) && x < |base.majs| && y <= |base.majs[x].minors|
    ensures var a := GapStart(base.majs[x], y);
      forall b :: b >= a ==> (b in s.bytes <==> b in base.bytes) && (b in s.bytes ==> base.bytes[b] == s.bytes[b])
  {
    hide Find, TagsOk, Live, BytesFor, PagesFor;
    FindIsComplete(s, Need(req));
    GapBounds(base.majs[x], y);
  }

  /** A realloc that moves copies the old contents and not a byte more. */
  lemma ReallocCopiesNoMore(s: State, p: nat, size: nat, page: nat)
    requires Inv(s) && ReallocOk(s, p, size, page) && Moves(s, p, size) && Granted(s, size, page)
    ensures var (s', q) := Realloc(s, p, size, page); var n := OldSize(s, p);
      SameBytes(s.bytes, s'.bytes, q + n, size - n)
  {
    hide Malloc, Inv, PageOk, HasGap, Sane, FreeAt, Copy, Payload, SameBytes, SameOutside, Moved, Shape;
    var x, y, k, ni, nk := ReallocMoves(s, p, size, page);
    var (s1, q) := Malloc(s, size, page);
    var n := s1.majs[x].minors[k].req;
    var s2 := Copy(s1, q, p, n);
    CopyIsPrivate(s1, x, k, ni, nk, p);
    CopyChangesNoMinor(s1, q, p, n);
    InvGivesShape(s1);
    MinorsApart(s1.majs, x, k, ni, nk);
    PayloadInside(s1.majs[x].minors[k]);
    PayloadInside(s1.majs[ni].minors[nk]);
    CopyStaysIn(s1, q, p, n);
    SameBehind(s1.bytes, s2.bytes, q, n, size - n);
    MallocLeavesPayload(s, size, page);
    SameInside(s.bytes, s1.bytes, q, size, q + n, size - n);
    FreeKeepsBytes(s2, x, k, ni, nk);
    var m := s1.majs[ni].minors[nk];
    SameInside(s2.bytes, FreeAt(s2, x, k).bytes, m.addr, MINOR_HEADER + m.size, q + n, size - n);
    SameThrice(s.bytes, s1.bytes, s2.bytes, FreeAt(s2, x, k).bytes, q + n, size - n);
  }

  lemma SameBehind(b: map<nat, nat>, b': map<nat, nat>, q: nat, n: nat, m: nat)
    requires SameOutside(b, b', q, n)
    ensures SameBytes(b, b', q + n, m)
  {
  }

  lemma SameThrice(b0: map<nat, nat>, b1: map<nat, nat>, b2: map<nat, nat>, b3: map<nat, nat>, lo: nat, n: nat)
    requires SameBytes(b0, b1, lo, n) && SameBytes(b1, b2, lo, n) && SameBytes(b2, b3, lo, n)
    ensures SameBytes(b0, b3, lo, n)
  {
  }

  lemma CopyStaysIn(s: State, q: nat, p: nat, n: nat)
    requires q + n <= p || p + n <= q
    ensures SameOutside(s.bytes, Copy(s, q, p, n).bytes, q, n)
  {
    CopyBytesMoves(s.bytes, q, p, n);
  }
}
