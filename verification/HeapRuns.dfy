/** Whole runs of the heap: any sequence of malloc, free, realloc and user writes, with any
    answers of the page source. */
module HeapRuns {
  import opened Words
  import opened HeapModel
  import opened HeapLemmas
  import opened HeapLaws
  import opened HeapRealloc
  import opened HeapPolicy

  datatype Op =
    | MallocOp(req: nat, page: nat)
    | FreeOp(p: nat)
    | ReallocOp(p: nat, size: nat, page: nat)
    | StoreOp(x: nat, v: nat)

  const EMPTY := State([], NULL, 0, 0, 0, 0, 0, map[], map[])

  /** What the user and the page source may do in state s. */
  ghost predicate Allowed(s: State, op: Op) {
    match op
    case MallocOp(req, page) => Sane(req) && PageOk(s.majs, page, req + ALIGNMENT + ALIGN_INFO)
    case FreeOp(p) => p == NULL || Headed(s, p)
    case ReallocOp(p, size, page) => ReallocOk(s, p, size, page)
    case StoreOp(x, v) => exists i, k :: InPayload(s.majs, i, k, x)
  }

  ghost function Apply(s: State, op: Op): State
    requires Allowed(s, op)
  {
    match op
    case MallocOp(req, page) => Malloc(s, req, page).0
    case FreeOp(p) => FreePtr(s, p)
    case ReallocOp(p, size, page) => Realloc(s, p, size, page).0
    case StoreOp(x, v) => Store(s, x, v)
  }

  ghost predicate AllowedRun(s: State, ops: seq<Op>)
    decreases |ops|
  {
    ops == [] || (Allowed(s, ops[0]) && AllowedRun(Apply(s, ops[0]), ops[1..]))
  }

  ghost function Run(s: State, ops: seq<Op>): State
    requires AllowedRun(s, ops)
    decreases |ops|
  {
    if ops == [] then s else Run(Apply(s, ops[0]), ops[1..])
  }

  lemma EmptyHeapIsFine()
    ensures Inv(EMPTY)
  {
  }

  lemma StepKeepsInv(s: State, op: Op)
    requires Inv(s) && Allowed(s, op)
    ensures Inv(Apply(s, op))
  {
    hide Inv, Sane, PageOk, Headed, ReallocOk, Malloc, FreePtr, Realloc, Store;
    match op
    case MallocOp(req, page) => MallocKeepsInv(s, req, page);
    case FreeOp(p) => FreePtrKeepsInv(s, p);
    case ReallocOp(p, size, page) => ReallocKeepsInv(s, p, size, page);
    case StoreOp(x, v) =>
      var i, k :| InPayload(s.majs, i, k, x);
      StoreKeepsInv(s, i, k, x, v);
  }

  /** Every state that a run reaches is well-formed: minors ordered inside disjoint majors, no
      empty major, the best bet listed, both totals equal to what they count, every tag intact. */
  lemma {:induction false} RunKeepsInv(s: State, ops: seq<Op>)
    requires Inv(s) && AllowedRun(s, ops)
    ensures Inv(Run(s, ops))
    decreases |ops|
  {
    hide Inv, Allowed, Apply;
    if ops != [] {
      StepKeepsInv(s, ops[0]);
      RunKeepsInv(Apply(s, ops[0]), ops[1..]);
    }
  }

  /** op is not aimed at minor m: it neither frees nor resizes it, nor writes to its payload. */
  ghost predicate Spares(s: State, op: Op, m: Minor)
    requires Allowed(s, op)
  {
    match op
    case MallocOp(_, _) => true
    case FreeOp(p) => p == NULL || HeaderOf(s.bytes, p) != m.addr
    case ReallocOp(p, _, _) => p == NULL || HeaderOf(s.bytes, p) != m.addr
    case StoreOp(x, _) => !(Payload(m.addr) <= x < Payload(m.addr) + m.req)
  }

  ghost predicate RunSpares(s: State, ops: seq<Op>, m: Minor)
    requires AllowedRun(s, ops)
    decreases |ops|
  {
    ops == [] || (Spares(s, ops[0], m) && RunSpares(Apply(s, ops[0]), ops[1..], m))
  }

  /** m is still live and its payload holds what it held. */
  ghost predicate Kept(s: State, s': State, m: Minor) {
    Present(s'.majs, m) && SameBytes(s.bytes, s'.bytes, Payload(m.addr), m.req)
  }

  lemma UntouchedIsKept(s: State, s': State, m: Minor)
    requires m.req + ALIGNMENT + ALIGN_INFO <= m.size && Untouched(s, s', m)
    ensures Kept(s, s', m)
  {
    PayloadInside(m);
  }

  lemma FreePtrSpares(s: State, p: nat, x: nat, y: nat)
    requires Inv(s) && (p == NULL || Headed(s, p))
    requires x < |s.majs| && y < |s.majs[x].minors|
    requires p == NULL || HeaderOf(s.bytes, p) != s.majs[x].minors[y].addr
    ensures Untouched(s, FreePtr(s, p), s.majs[x].minors[y])
  {
    hide FreeAt, Inv;
    if p != NULL && Live(s.majs, HeaderOf(s.bytes, p)) {
      var (i, k) := Locate(s.majs, HeaderOf(s.bytes, p));
      FreeSpares(s, i, k, x, y);
    } else {
      assert FreePtr(s, p).majs[x].minors[y] == s.majs[x].minors[y];
    }
  }

  lemma StepSpares(s: State, op: Op, x: nat, y: nat)
    requires Inv(s) && Allowed(s, op) && x < |s.majs| && y < |s.majs[x].minors|
    requires Spares(s, op, s.majs[x].minors[y])
    ensures Kept(s, Apply(s, op), s.majs[x].minors[y])
  {
    hide Inv, Sane, PageOk, Headed, ReallocOk, Malloc, FreePtr, Realloc, Untouched, Kept;
    var m := s.majs[x].minors[y];
    InvGivesShape(s);
    match op
    case MallocOp(req, page) =>
      MallocSpares(s, req, page, x, y);
      UntouchedIsKept(s, Apply(s, op), m);
    case FreeOp(p) =>
      FreePtrSpares(s, p, x, y);
      UntouchedIsKept(s, Apply(s, op), m);
    case ReallocOp(p, size, page) =>
      if size == 0 {
        AllowedFree(s, p, size, page);
        FreePtrSpares(s, p, x, y);
        assert Apply(s, op) == FreePtr(s, p) by { FreeByRealloc(s, p, page); }
      } else {
        ReallocSpares(s, p, size, page, x, y);
      }
      UntouchedIsKept(s, Apply(s, op), m);
    case StoreOp(at, v) =>
      StoreSpares(s, at, v, x, y);
  }

  lemma AllowedFree(s: State, p: nat, size: nat, page: nat)
    requires ReallocOk(s, p, size, page)
    ensures p == NULL || Headed(s, p)
  {
  }

  lemma FreeByRealloc(s: State, p: nat, page: nat)
    requires p == NULL || Headed(s, p)
    ensures Realloc(s, p, 0, page) == (FreePtr(s, p), NULL)
  {
  }

  lemma StoreSpares(s: State, at: nat, v: nat, x: nat, y: nat)
    requires x < |s.majs| && y < |s.majs[x].minors|
    requires var m := s.majs[x].minors[y]; !(Payload(m.addr) <= at < Payload(m.addr) + m.req)
    ensures Kept(s, Store(s, at, v), s.majs[x].minors[y])
  {
    assert Store(s, at, v).majs[x].minors[y] == s.majs[x].minors[y];
  }

  /** Over a whole run, a live minor that no call is aimed at stays live at its address, and its
      payload keeps every byte. */
  lemma {:induction false} RunKeepsPayload(s: State, ops: seq<Op>, m: Minor)
    requires Inv(s) && AllowedRun(s, ops) && Present(s.majs, m) && RunSpares(s, ops, m)
    ensures Kept(s, Run(s, ops), m)
    decreases |ops|
  {
    hide Inv, Allowed, Apply, Spares;
    if ops != [] {
      var x, y :| 0 <= x < |s.majs| && 0 <= y < |s.majs[x].minors| && s.majs[x].minors[y] == m;
      StepSpares(s, ops[0], x, y);
      StepKeepsInv(s, ops[0]);
      RunKeepsPayload(Apply(s, ops[0]), ops[1..], m);
    }
  }

  /** From the empty heap, whatever happens: the live payloads never overlap, and they never
      reach into a header or a tag. */
  lemma RunKeepsPayloadsPrivate(ops: seq<Op>, i: nat, k: nat)
    requires AllowedRun(EMPTY, ops)
    requires i < |Run(EMPTY, ops).majs| && k < |Run(EMPTY, ops).majs[i].minors|
    ensures var majs := Run(EMPTY, ops).majs; var m := majs[i].minors[k];
      Payload(m.addr) % ALIGNMENT == 0 && Private(majs, i, k, Payload(m.addr), m.req)
  {
    hide Inv, Shape, AllowedRun, Run;
    EmptyHeapIsFine();
    RunKeepsInv(EMPTY, ops);
    InvGivesShape(Run(EMPTY, ops));
    PayloadsArePrivate(Run(EMPTY, ops).majs, i, k);
  }

  // ----- A realloc that loses its block -----

  /** The heap after the first malloc(req): one new major with one minor. */
  lemma FirstMalloc(req: nat, page: nat)
    requires Sane(req) && page != NULL && page + BytesFor(req + ALIGNMENT + ALIGN_INFO) <= TWO_64
    ensures PageOk([], page, req + ALIGNMENT + ALIGN_INFO)
    ensures var size := req + ALIGNMENT + ALIGN_INFO; var (s, p) := Malloc(EMPTY, req, page);
      && Inv(s) && p == Payload(page + MAJOR_HEADER)
      && s.majs == [NewMajor(page, size).(minors := [Minor(page + MAJOR_HEADER, size, req)])]
  {
    hide PagesFor, BytesFor, FirstGap, Inv;
    var size := req + ALIGNMENT + ALIGN_INFO;
    EmptyHeapIsFine();
    MallocKeepsInv(EMPTY, req, page);
    NewMajorOk(page, size);
    assert Find(EMPTY, Need(req)) == (0, Bet(NULL, 0));
    var (base, i) := Prepare(EMPTY, req, page);
    var j := NewMajor(page, size);
    assert i == 0 && base.majs == [j] && FirstGap(j, Need(req), 0) == 0;
    assert InsertAt([], 0, Minor(GapStart(j, 0), size, req)) == [Minor(GapStart(j, 0), size, req)];
    assert Malloc(EMPTY, req, page) == PlaceIn(base, 0, req);
  }

  /** realloc(p, size) gets no memory, returns NULL, and the block that p leads to is gone. */
  ghost predicate LosesBlock(s: State, p: nat, size: nat) {
    && Inv(s) && p != NULL && ReallocOk(s, p, size, NULL) && Live(s.majs, HeaderOf(s.bytes, p))
    && Realloc(s, p, size, NULL).1 == NULL
    && !Live(Realloc(s, p, size, NULL).0.majs, HeaderOf(s.bytes, p))
  }

  /** For instance after a malloc of 100 bytes: there is no gap for 0x10000 bytes. */
  lemma ReallocLosesBlock()
    ensures Malloc(EMPTY, 100, 0x1_0000).1 != NULL
    ensures LosesBlock(Malloc(EMPTY, 100, 0x1_0000).0, Malloc(EMPTY, 100, 0x1_0000).1, 0x1_0000)
  {
    hide Malloc, Realloc, Inv, Live, HeaderOf;
    assert BytesFor(132) == 0x1_0000;
    FirstMalloc(100, 0x1_0000);
    var (s, p) := Malloc(EMPTY, 100, 0x1_0000);
    TagLeadsHome(s, 0, 0);
    InvGivesShape(s);
    UsedOfOne(s.majs[0].minors[0]);
    TooFullMeansNoGap(s.majs[0], Need(0x1_0000));
    assert !HasGap(s.majs, Need(0x1_0000));
    ReallocFailsIff(s, p, 0x1_0000, NULL);
  }
}
