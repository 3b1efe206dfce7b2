/** What memory remembers: no byte is taken for data where a live header lies, and a freed header that
    can still be read has not been written over by another header or by a tag. */
module HeapTraces {
  import opened Words
  import opened HeapModel
  import opened HeapLemmas
  import opened HeapLaws
  import opened HeapRealloc
  import opened HeapPolicy
  import opened HeapRuns

  /** Neither data bytes nor freed headers in [lo, lo + n). */
  ghost predicate Untrodden(s: State, lo: nat, n: nat) {
    && (forall x :: x in s.bytes ==> x < lo || lo + n <= x)
    && (forall a :: a in s.dead ==> a + MINOR_HEADER <= lo || lo + n <= a)
  }

  /** No freed header lies over this byte. */
  ghost predicate Uncovered(dead: map<nat, nat>, x: nat) {
    forall a :: a in dead ==> a + MINOR_HEADER <= x || x < a
  }

  ghost predicate Traces(s: State) {
    && (forall i :: 0 <= i < |s.majs| ==> Untrodden(s, s.majs[i].addr, MAJOR_HEADER))
    && (forall i, k :: 0 <= i < |s.majs| && 0 <= k < |s.majs[i].minors| ==>
          Untrodden(s, s.majs[i].minors[k].addr, MINOR_HEADER)
          && Uncovered(s.dead, TagAddr(s.majs[i].minors[k].addr)))
  }

  /** s' has the data bytes of s and maybe others in [lo, lo + n), and no other freed headers. */
  ghost predicate AddsOnly(s: State, s': State, lo: nat, n: nat) {
    && (forall x :: x in s'.bytes ==> x in s.bytes || lo <= x < lo + n)
    && s'.dead.Keys <= s.dead.Keys
  }

  /** Writes that stay clear of all headers leave the traces as they are. */
  lemma WritesKeepTraces(s: State, s': State, lo: nat, n: nat)
    requires Traces(s) && s'.majs == s.majs && AddsOnly(s, s', lo, n)
    requires forall i :: 0 <= i < |s.majs| ==> lo + n <= s.majs[i].addr || s.majs[i].addr + MAJOR_HEADER <= lo
    requires forall i, k :: 0 <= i < |s.majs| && 0 <= k < |s.majs[i].minors| ==>
      lo + n <= s.majs[i].minors[k].addr || s.majs[i].minors[k].addr + MINOR_HEADER <= lo
    ensures Traces(s')
  {
    hide TagAddr;
  }

  /** A payload is clear of all headers. */
  lemma PayloadIsClear(majs: seq<Major>, i: nat, k: nat, lo: nat, n: nat)
    requires Shape(majs) && i < |majs| && k < |majs[i].minors| && Within(majs, i, k, lo, n)
    ensures forall x :: 0 <= x < |majs| ==> lo + n <= majs[x].addr || majs[x].addr + MAJOR_HEADER <= lo
    ensures forall x, y :: 0 <= x < |majs| && 0 <= y < |majs[x].minors| ==>
      lo + n <= majs[x].minors[y].addr || majs[x].minors[y].addr + MINOR_HEADER <= lo
  {
    hide Shape, Payload;
    PayloadsArePrivate(majs, i, k);
    ShapeGivesRoom(majs, i, k);
    PayloadInside(majs[i].minors[k]);
  }

  lemma StoreKeepsTraces(s: State, i: nat, k: nat, x: nat, v: nat)
    requires Inv(s) && Traces(s) && InPayload(s.majs, i, k, x)
    ensures Traces(Store(s, x, v))
  {
    hide Traces, Shape, Inv, Payload;
    InvGivesShape(s);
    PayloadIsClear(s.majs, i, k, x, 1);
    WritesKeepTraces(s, Store(s, x, v), x, 1);
  }

  lemma CopyAddsOnly(s: State, dst: nat, src: nat, n: nat)
    requires dst + n <= src || src + n <= dst
    ensures AddsOnly(s, Copy(s, dst, src, n), dst, n)
  {
    hide CopyBytes;
    CopyBytesMoves(s.bytes, dst, src, n);
  }

  /** Placing a minor: its header is cleared, its tag lies behind it. */
  lemma PlaceKeepsTraces(s: State, i: nat, k: nat, size: nat, req: nat)
    requires Shape(s.majs) && Traces(s) && CanPlace(s, i, k, size, req)
    ensures Traces(PlaceAt(s, i, k, size, req))
  {
    hide Shape, Gap, GapStart, Clobber, Forget, TagAddr, Tag, Payload;
    PlacedTraces(s, i, k, size, req);
    var s' := PlaceAt(s, i, k, size, req);
    var m := s'.majs[i].minors[k];
    PlaceKeepsShape(s, i, k, size, req);
    PlacedMinorIs(s, i, k, size, req);
    PayloadInside(m);
    forall x | 0 <= x < |s'.majs| ensures Untrodden(s', s'.majs[x].addr, MAJOR_HEADER) {
      MajorClearOf(s'.majs, i, k, x);
      assert s'.majs[x].addr == s.majs[x].addr;
    }
    forall x, y | 0 <= x < |s'.majs| && 0 <= y < |s'.majs[x].minors|
      ensures Untrodden(s', s'.majs[x].minors[y].addr, MINOR_HEADER)
      ensures Uncovered(s'.dead, TagAddr(s'.majs[x].minors[y].addr))
    {
      if x != i || y != k {
        OldMinorsStay(s, i, k, size, req, x, y);
        MinorsApart(s'.majs, i, k, x, y);
      }
    }
  }

  /** The data bytes and freed headers that are left. */
  lemma PlacedTraces(s: State, i: nat, k: nat, size: nat, req: nat)
    requires i < |s.majs| && k <= |s.majs[i].minors|
    ensures var s' := PlaceAt(s, i, k, size, req); var a := GapStart(s.majs[i], k);
      && (forall x :: x in s'.bytes ==> x == TagAddr(a) || (x in s.bytes && (x < a || a + MINOR_HEADER <= x)))
      && (forall d :: d in s'.dead ==>
            && d in s.dead && (d + MINOR_HEADER <= a || a + MINOR_HEADER <= d)
            && (d + MINOR_HEADER <= TagAddr(a) || TagAddr(a) < d))
  {
  }

  lemma PlacedMinorIs(s: State, i: nat, k: nat, size: nat, req: nat)
    requires i < |s.majs| && k <= |s.majs[i].minors|
    ensures PlaceAt(s, i, k, size, req).majs[i].minors[k] == Minor(GapStart(s.majs[i], k), size, req)
    ensures |PlaceAt(s, i, k, size, req).majs| == |s.majs|
  {
  }

  /** A minor lies clear of every major's header. */
  lemma MajorClearOf(majs: seq<Major>, i: nat, k: nat, x: nat)
    requires Shape(majs) && i < |majs| && k < |majs[i].minors| && x < |majs|
    ensures var m := majs[i].minors[k]; m.End() <= majs[x].addr || majs[x].addr + MAJOR_HEADER <= m.addr
  {
    if x != i { MajorsApart(majs, x, i); }
  }

  lemma GrowKeepsTraces(s: State, page: nat, size: nat)
    requires Traces(s)
    ensures Traces(Grow(s, page, size))
  {
    hide TagAddr;
    var s' := Grow(s, page, size);
    assert forall t :: 0 <= t < |s.majs| ==> s'.majs[t] == s.majs[t];
  }

  lemma MallocKeepsTraces(s: State, req: nat, page: nat)
    requires Inv(s) && Traces(s) && Sane(req) && PageOk(s.majs, page, req + ALIGNMENT + ALIGN_INFO)
    ensures Traces(Malloc(s, req, page).0)
  {
    hide Inv, PageOk, Sane, Malloc, Grow, Find, Traces, Gap, Shape, Payload;
    if Malloc(s, req, page).1 == NULL {
      MallocRefused(s, req, page);
      BetKeepsTraces(s, Malloc(s, req, page).0);
    } else {
      var base, i, k := MallocPlaces(s, req, page);
      GrowKeepsTraces(s, page, req + ALIGNMENT + ALIGN_INFO);
      BetKeepsTraces(Grow(s, page, req + ALIGNMENT + ALIGN_INFO), base);
      BetKeepsTraces(s, base);
      PlaceKeepsTraces(base, i, k, req + ALIGNMENT + ALIGN_INFO, req);
    }
  }

  lemma BetKeepsTraces(s: State, s': State)
    ensures Traces(s) && s'.majs == s.majs && s'.bytes == s.bytes && s'.dead == s.dead ==> Traces(s')
  {
    hide TagAddr;
  }

  /** Freeing a minor adds its header to the freed ones, or drops all that lies in its major. */
  lemma FreeKeepsTraces(s: State, i: nat, k: nat)
    requires Inv(s) && Traces(s) && i < |s.majs| && k < |s.majs[i].minors|
    ensures Traces(FreeAt(s, i, k))
  {
    hide Shape, BetAfter, TagAddr, Payload, FreeAt;
    InvGivesShape(s);
    var s' := FreeAt(s, i, k);
    var m := s.majs[i].minors[k];
    TracesAfterFree(s, i, k);
    forall x | 0 <= x < |s'.majs| ensures Untrodden(s', s'.majs[x].addr, MAJOR_HEADER) {
      var x' := if |s.majs[i].minors| == 1 && x >= i then x + 1 else x;
      MajorClearOf(s.majs, i, k, x');
    }
    forall x, y | 0 <= x < |s'.majs| && 0 <= y < |s'.majs[x].minors|
      ensures Untrodden(s', s'.majs[x].minors[y].addr, MINOR_HEADER)
      ensures Uncovered(s'.dead, TagAddr(s'.majs[x].minors[y].addr))
    {
      SurvivorsWere(s, i, k, x, y);
      var (x', y') := WasAt(s, i, k, x, y);
      MinorsApart(s.majs, i, k, x', y');
      PayloadInside(s.majs[x'].minors[y']);
    }
  }

  lemma TracesAfterFree(s: State, i: nat, k: nat)
    requires Shape(s.majs) && i < |s.majs| && k < |s.majs[i].minors|
    ensures var s' := FreeAt(s, i, k);
      && s'.bytes.Keys <= s.bytes.Keys
      && (forall a :: a in s'.dead ==> a in s.dead || (a == s.majs[i].minors[k].addr && |s.majs[i].minors| > 1))
      && |s'.majs| == |s.majs| - (if |s.majs[i].minors| == 1 then 1 else 0)
      && forall x :: 0 <= x < |s'.majs| ==>
           s'.majs[x].addr == s.majs[if |s.majs[i].minors| == 1 && x >= i then x + 1 else x].addr
  {
    hide Payload, BetAfter;
  }

  lemma FreePtrKeepsTraces(s: State, p: nat)
    requires Inv(s) && Traces(s) && (p == NULL || Headed(s, p))
    ensures Traces(FreePtr(s, p))
  {
    hide Traces, FreeAt, Inv;
    if p != NULL && Live(s.majs, HeaderOf(s.bytes, p)) {
      var (i, k) := Locate(s.majs, HeaderOf(s.bytes, p));
      FreeKeepsTraces(s, i, k);
    } else {
      BetKeepsTraces(s, FreePtr(s, p));
    }
  }

  lemma ResizeKeepsTraces(s: State, i: nat, k: nat, req: nat)
    requires Traces(s) && i < |s.majs| && k < |s.majs[i].minors|
    ensures Traces(Resize(s, i, k, req))
  {
    hide TagAddr;
    var s' := Resize(s, i, k, req);
    assert forall x, y :: 0 <= x < |s.majs| && 0 <= y < |s.majs[x].minors| ==>
      s'.majs[x].minors[y].addr == s.majs[x].minors[y].addr;
  }

  lemma ReallocKeepsTraces(s: State, p: nat, size: nat, page: nat)
    requires Inv(s) && Traces(s) && ReallocOk(s, p, size, page)
    ensures Traces(Realloc(s, p, size, page).0)
  {
    hide Malloc, Inv, PageOk, HasGap, Sane, Payload, Copy, FreeAt, SameBytes, Traces, Shape;
    if size == 0 {
      FreePtrKeepsTraces(s, p);
    } else if p == NULL {
      MallocKeepsTraces(s, size, page);
    } else if !Live(s.majs, HeaderOf(s.bytes, p)) {
      BetKeepsTraces(s, Realloc(s, p, size, page).0);
    } else if !Moves(s, p, size) {
      var (x, y) := Locate(s.majs, HeaderOf(s.bytes, p));
      ResizeKeepsTraces(s, x, y, size);
    } else {
      MallocKeepsTraces(s, size, page);
      MoveKeepsTraces(s, p, size, page);
    }
  }

  lemma MoveKeepsTraces(s: State, p: nat, size: nat, page: nat)
    requires Inv(s) && ReallocOk(s, p, size, page) && Moves(s, p, size)
    requires Traces(Malloc(s, size, page).0)
    ensures Traces(Realloc(s, p, size, page).0)
  {
    hide Malloc, Inv, PageOk, HasGap, Sane, Payload, FreeAt, SameBytes, Traces, Shape, Clobber, CopyBytes;
    var (s1, q) := Malloc(s, size, page);
    if Granted(s, size, page) {
      var x, y, k, ni, nk := ReallocMoves(s, p, size, page);
      var n := s1.majs[x].minors[k].req;
      CopyIsPrivate(s1, x, k, ni, nk, p);
      CopyApart(s1, x, k, ni, nk, p);
      InvGivesShape(s1);
      PayloadIsClear(s1.majs, ni, nk, q, n);
      CopyAddsOnly(s1, q, p, n);
      WritesKeepTraces(s1, Copy(s1, q, p, n), q, n);
      FreeKeepsTraces(Copy(s1, q, p, n), x, k);
    } else {
      var x, y := ReallocRefused(s, p, size, page);
      var n := s1.majs[x].minors[y].req;
      InvGivesShape(s1);
      MinorsAbove(s1.majs, n);
      CopyLow(s1, x, y, p);
      CopyAddsOnly(s1, NULL, p, n);
      WritesKeepTraces(s1, Copy(s1, NULL, p, n), NULL, n);
      FreeKeepsTraces(Copy(s1, NULL, p, n), x, y);
    }
  }

  lemma CopyApart(s: State, x: nat, k: nat, ni: nat, nk: nat, p: nat)
    requires Inv(s) && x < |s.majs| && k < |s.majs[x].minors| && PointsInto(s, x, k, p)
    requires ni < |s.majs| && nk < |s.majs[ni].minors| && (ni != x || nk != k)
    requires s.majs[x].minors[k].req <= s.majs[ni].minors[nk].req
    ensures var q := Payload(s.majs[ni].minors[nk].addr); var n := s.majs[x].minors[k].req;
      q + n <= p || p + n <= q
  {
    hide Inv, Shape, Payload;
    InvGivesShape(s);
    MinorsApart(s.majs, x, k, ni, nk);
    PayloadInside(s.majs[ni].minors[nk]);
  }

  lemma StepKeepsTraces(s: State, op: Op)
    requires Inv(s) && Traces(s) && Allowed(s, op)
    ensures Traces(Apply(s, op))
  {
    hide Inv, Sane, PageOk, Headed, ReallocOk, Malloc, FreePtr, Realloc, Store, Traces;
    match op
    case MallocOp(req, page) => MallocKeepsTraces(s, req, page);
    case FreeOp(p) => FreePtrKeepsTraces(s, p);
    case ReallocOp(p, size, page) => ReallocKeepsTraces(s, p, size, page);
    case StoreOp(x, v) =>
      var i, k :| InPayload(s.majs, i, k, x);
      StoreKeepsTraces(s, i, k, x, v);
  }

  /** In every state that a run reaches from the empty heap, a freed header that can still be read lies
      clear of all live headers and tags, and so do the data bytes of the live headers. */
  lemma RunKeepsTraces(ops: seq<Op>)
    requires AllowedRun(EMPTY, ops)
    ensures Traces(Run(EMPTY, ops))
  {
    EmptyHeapIsFine();
    TracesAlong(EMPTY, ops);
  }

  lemma {:induction false} TracesAlong(s: State, ops: seq<Op>)
    requires Inv(s) && Traces(s) && AllowedRun(s, ops)
    ensures Traces(Run(s, ops))
    decreases |ops|
  {
    hide Inv, Allowed, Apply, Traces;
    if ops != [] {
      StepKeepsTraces(s, ops[0]);
      StepKeepsInv(s, ops[0]);
      TracesAlong(Apply(s, ops[0]), ops[1..]);
    }
  }
}
