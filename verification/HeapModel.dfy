/** The heap of third-party/liballoc seen as a value: a sequence of majors, each an
    address-ordered sequence of minors, together with the counters, the data bytes and
    the headers of freed minors that still lie in memory.

    The functions here specify what one call does to that value.  Class Heap in Heap.dfy
    is the pointer program; it is proved to compute exactly these functions. */
module HeapModel {
  import opened Words

  const NULL: nat := 0
  const MAJOR_HEADER: nat := 40
  const MINOR_HEADER: nat := 40
  const ALIGNMENT: nat := 16
  const ALIGN_INFO: nat := 16
  const PAGE_COUNT: nat := 16
  const MAGIC: nat := 0xc001c0de
  const DEAD: nat := 0xdeaddead
  datatype Minor = Minor(addr: nat, size: nat, req: nat)
  {
    function End(): nat { addr + MINOR_HEADER + size }
  }

  datatype Major = Major(addr: nat, pages: nat, size: nat, minors: seq<Minor>)
  {
    function End(): nat { addr + size }
  }

  /** Everything a call can observe or change, apart from the lock.  `dead` holds the magic
      of each freed header that nothing has overwritten yet. */
  datatype State = State(
    majs: seq<Major>, bet: nat,
    allocatedBytes: int, inuseBytes: int,
    warnings: int, errors: int, overruns: int,
    bytes: map<nat, nat>, dead: map<nat, nat>)

  // ----- Sizes and gaps -----

  /** Bytes taken by the minors of a block, their headers included. */
  function Used(ms: seq<Minor>): nat {
    if ms == [] then 0 else Used(ms[..|ms|-1]) + MINOR_HEADER + ms[|ms|-1].size
  }

  function Usage(j: Major): nat { MAJOR_HEADER + Used(j.minors) }

  function Room(j: Major): int { j.size - Usage(j) }

  /** The free gaps of a major are numbered 0..|minors|: gap k lies just before minor k, and
      the last one runs to the end of the block. */
  function GapStart(j: Major, k: nat): nat
    requires k <= |j.minors|
  {
    if k == 0 then j.addr + MAJOR_HEADER else j.minors[k-1].End()
  }

  function GapEnd(j: Major, k: nat): nat
    requires k <= |j.minors|
  {
    if k == |j.minors| then j.End() else j.minors[k].addr
  }

  function Gap(j: Major, k: nat): int
    requires k <= |j.minors|
  {
    GapEnd(j, k) - GapStart(j, k)
  }

  function GapSum(j: Major, k: nat): int
    requires k <= |j.minors| + 1
  {
    if k == 0 then 0 else GapSum(j, k-1) + Gap(j, k-1)
  }

  /** The lowest gap, at or above gap k, that can hold `need` bytes; |minors| + 1 if none can. */
  function FirstGap(j: Major, need: nat, k: nat): (r: nat)
    requires k <= |j.minors| + 1
    ensures k <= r <= |j.minors| + 1
    ensures r <= |j.minors| ==> Gap(j, r) >= need
    ensures forall t :: k <= t < r ==> Gap(j, t) < need
    decreases |j.minors| + 1 - k
  {
    if k == |j.minors| + 1 || Gap(j, k) >= need then k else FirstGap(j, need, k+1)
  }

  predicate Fits(j: Major, need: nat) { FirstGap(j, need, 0) <= |j.minors| }

  // ----- Well-formed heaps -----

  /** Minors that lie in [lo, hi) in address order without overlapping, each with room for the
      alignment of its payload. */
  ghost predicate Ordered(ms: seq<Minor>, lo: nat, hi: nat) {
    && (forall k :: 0 <= k < |ms| ==> lo <= ms[k].addr && ms[k].End() <= hi)
    && (forall i, k :: 0 <= i < k < |ms| ==> ms[i].End() <= ms[k].addr)
    && (forall k :: 0 <= k < |ms| ==> ms[k].req + ALIGNMENT + ALIGN_INFO <= ms[k].size)
  }

  ghost predicate MajorOk(j: Major) {
    && j.addr != NULL
    && j.size == j.pages * PAGE_SIZE
    && MAJOR_HEADER <= j.size < TWO_32
    && j.End() <= TWO_64
    && Ordered(j.minors, j.addr + MAJOR_HEADER, j.End())
  }

  ghost predicate Apart(a: Major, b: Major) { a.End() <= b.addr || b.End() <= a.addr }

  /** Every major well-formed, no two overlapping; a major may be empty here. */
  ghost predicate Shape(majs: seq<Major>) {
    && (forall i :: 0 <= i < |majs| ==> MajorOk(majs[i]))
    && (forall i, j :: 0 <= i < j < |majs| ==> Apart(majs[i], majs[j]))
  }

  ghost predicate NoEmptyMajor(majs: seq<Major>) {
    forall i :: 0 <= i < |majs| ==> majs[i].minors != []
  }

  /** The address malloc hands out for the minor whose header is at `a`: leave room for the
      tag, then round up to the alignment. */
  function Payload(a: nat): (p: nat)
    ensures p % ALIGNMENT == 0
    ensures a + MINOR_HEADER + ALIGN_INFO <= p < a + MINOR_HEADER + ALIGN_INFO + ALIGNMENT
  {
    var x := a + MINOR_HEADER + ALIGN_INFO;
    if x % ALIGNMENT == 0 then x else x + (ALIGNMENT - x % ALIGNMENT)
  }

  function TagAddr(a: nat): nat { Payload(a) - ALIGN_INFO }

  function Tag(a: nat): nat { Payload(a) - a - MINOR_HEADER }

  ghost predicate TagsOk(majs: seq<Major>, bytes: map<nat, nat>) {
    forall i, k :: 0 <= i < |majs| && 0 <= k < |majs[i].minors| ==>
      var a := majs[i].minors[k].addr;
      TagAddr(a) in bytes && bytes[TagAddr(a)] == Tag(a)
  }

  function LiveSize(ms: seq<Minor>): nat {
    if ms == [] then 0 else LiveSize(ms[..|ms|-1]) + ms[|ms|-1].size
  }

  function InUse(majs: seq<Major>): nat {
    if majs == [] then 0 else InUse(majs[..|majs|-1]) + LiveSize(majs[|majs|-1].minors)
  }

  function Allocated(majs: seq<Major>): nat {
    if majs == [] then 0 else Allocated(majs[..|majs|-1]) + majs[|majs|-1].size
  }

  ghost predicate Listed(majs: seq<Major>, addr: nat) {
    exists i :: 0 <= i < |majs| && majs[i].addr == addr
  }

  ghost predicate At(majs: seq<Major>, i: int, k: int, a: nat) {
    0 <= i < |majs| && 0 <= k < |majs[i].minors| && majs[i].minors[k].addr == a
  }

  /** There is a live minor whose header is at `a`. */
  ghost predicate Live(majs: seq<Major>, a: nat) { exists i, k :: At(majs, i, k, a) }

  /** What every call keeps, except that a major may be empty here. */
  ghost predicate Sound(s: State) {
    && Shape(s.majs)
    && (s.bet == NULL || Listed(s.majs, s.bet))
    && s.inuseBytes == InUse(s.majs)
    && s.allocatedBytes == Allocated(s.majs)
    && TagsOk(s.majs, s.bytes)
    && (forall a :: a in s.dead ==> !Live(s.majs, a))
  }

  /** What every call keeps. */
  ghost predicate Inv(s: State) { Sound(s) && NoEmptyMajor(s.majs) }

  // ----- A new major -----

  /** Pages allocate_new_page asks for, computed in 32-bit unsigned arithmetic. */
  function PagesFor(size: nat): nat {
    var st := (size % TWO_32 + MAJOR_HEADER + MINOR_HEADER) % TWO_32;
    var pages := if st % PAGE_SIZE == 0 then st / PAGE_SIZE else st / PAGE_SIZE + 1;
    if pages < PAGE_COUNT then PAGE_COUNT else pages
  }

  function BytesFor(size: nat): nat { PagesFor(size) * PAGE_SIZE % TWO_32 }

  function NewMajor(page: nat, size: nat): Major { Major(page, PagesFor(size), BytesFor(size), []) }

  /** The bound on a request under which the 32-bit size computation is exact. */
  predicate Sane(req: nat) {
    req + ALIGNMENT + ALIGN_INFO + MAJOR_HEADER + MINOR_HEADER <= TWO_32 - PAGE_SIZE
  }

  /** What the page source promises: it refuses, or hands out a block of its own. */
  ghost predicate PageOk(majs: seq<Major>, page: nat, size: nat) {
    page != NULL ==>
      && page + BytesFor(size) <= TWO_64
      && forall i :: 0 <= i < |majs| ==> Apart(majs[i], NewMajor(page, size))
  }

  // ----- Memory that is overwritten -----

  /** Header entries that survive a write to [lo, lo + len). */
  function Clobber<T>(m: map<nat, T>, lo: nat, len: nat): map<nat, T> {
    map a | a in m && !(0 < len && a < lo + len && lo < a + MINOR_HEADER) :: m[a]
  }

  /** Data bytes that survive a header being written to [lo, lo + len). */
  function Forget(bytes: map<nat, nat>, lo: nat, len: nat): map<nat, nat> {
    map x | x in bytes && !(lo <= x < lo + len) :: bytes[x]
  }

  // ----- malloc -----

  /** The best bet while searching: the major, and the free space it had when it was chosen. */
  datatype Bet = Bet(addr: nat, best: int)

  function Step(b: Bet, j: Major): Bet {
    if b.best < Room(j) then Bet(j.addr, Room(j)) else b
  }

  /** The search over the majors from index i on: the major to use (|majs| if none fits) and the
      best bet at that moment.  A search that started at the best bet starts over once. */
  function Search(majs: seq<Major>, need: nat, i: nat, started: bool, b: Bet): (nat, Bet)
    requires i <= |majs|
    decreases started, |majs| - i
  {
    if i == |majs| then
      if started then Search(majs, need, 0, false, b) else (i, b)
    else if Fits(majs[i], need) then (i, Step(b, majs[i]))
    else Search(majs, need, i+1, started, Step(b, majs[i]))
  }

  function IndexOf(majs: seq<Major>, addr: nat): (i: nat)
    ensures i <= |majs|
    ensures i < |majs| ==> majs[i].addr == addr
    ensures forall t :: 0 <= t < i ==> majs[t].addr != addr
    decreases |majs|
  {
    if majs == [] then 0
    else
      var i := IndexOf(majs[..|majs|-1], addr);
      if i < |majs| - 1 || majs[|majs|-1].addr == addr then i else |majs|
  }

  /** The best bet's free space before the search. */
  function BetBefore(s: State): Bet {
    var b := IndexOf(s.majs, s.bet);
    if s.bet == NULL || b == |s.majs| then Bet(s.bet, 0) else Bet(s.bet, Room(s.majs[b]))
  }

  /** The search starts at the best bet if that has more than `need` bytes free. */
  predicate StartsAtBet(s: State, need: nat) { s.bet != NULL && BetBefore(s).best > need }

  function Find(s: State, need: nat): (nat, Bet) {
    var b := BetBefore(s);
    if StartsAtBet(s, need) then Search(s.majs, need, IndexOf(s.majs, s.bet), true, b)
    else Search(s.majs, need, 0, false, b)
  }

  function InsertAt<T>(ms: seq<T>, k: nat, m: T): seq<T>
    requires k <= |ms|
  {
    ms[..k] + [m] + ms[k..]
  }

  function RemoveAt<T>(ms: seq<T>, k: nat): seq<T>
    requires k < |ms|
  {
    ms[..k] + ms[k+1..]
  }

  /** Carve a minor out of the start of gap k of major i. */
  function PlaceAt(s: State, i: nat, k: nat, size: nat, req: nat): State
    requires i < |s.majs| && k <= |s.majs[i].minors|
  {
    var j := s.majs[i];
    var a := GapStart(j, k);
    s.(majs := s.majs[i := j.(minors := InsertAt(j.minors, k, Minor(a, size, req)))],
       inuseBytes := s.inuseBytes + size,
       bytes := Forget(s.bytes, a, MINOR_HEADER)[TagAddr(a) := Tag(a)],
       dead := Clobber(Clobber(s.dead, a, MINOR_HEADER), TagAddr(a), 1))
  }

  /** Append a new, empty major. */
  function Grow(s: State, page: nat, size: nat): State {
    s.(majs := s.majs + [NewMajor(page, size)],
       allocatedBytes := s.allocatedBytes + BytesFor(size),
       bytes := Forget(s.bytes, page, MAJOR_HEADER),
       dead := Clobber(s.dead, page, MAJOR_HEADER))
  }

  function Need(req: nat): nat { req + ALIGNMENT + ALIGN_INFO + MINOR_HEADER }

  /** Use the lowest gap of major i that is large enough. */
  function PlaceIn(s: State, i: nat, req: nat): (State, nat)
    requires i < |s.majs|
  {
    var k := FirstGap(s.majs[i], Need(req), 0);
    if k <= |s.majs[i].minors|
    then (PlaceAt(s, i, k, req + ALIGNMENT + ALIGN_INFO, req), Payload(GapStart(s.majs[i], k)))
    else (s, NULL)
  }

  /** The heap in which the minor is placed, and the major that takes it: an old major, or a new
      one at the end.  The last major is re-examined only if it had enough free bytes; then the
      new major is examined too and may become the best bet. */
  function Prepare(s: State, req: nat, page: nat): (State, nat) {
    var (i, b) := Find(s, Need(req));
    var n := |s.majs|;
    if i < n then (s.(bet := b.addr), i)
    else
      var size := req + ALIGNMENT + ALIGN_INFO;
      var bet := if n > 0 && Room(s.majs[n-1]) < Need(req) then b.addr
                 else Step(b, NewMajor(page, size)).addr;
      (Grow(s, page, size).(bet := bet), n)
  }

  /** malloc(req), where `page` is what the page source answers if it is asked.  This is the program
      for requests that are Sane.  Beyond that bound a new major is too small, and the program either
      puts the minor there all the same (when case 1 made the major) or asks for one major after
      another; the last branch here says nothing about that. */
  function Malloc(s: State, req: nat, page: nat): (State, nat) {
    var (i, b) := Find(s, Need(req));
    if i >= |s.majs| && page == NULL then (s.(bet := b.addr, warnings := s.warnings + 1), NULL)
    else
      var (base, i) := Prepare(s, req, page);
      if i < |base.majs| then PlaceIn(base, i, req) else (base, NULL)
  }

  // ----- free -----

  function Without(j: Major, k: nat): Major
    requires k < |j.minors|
  {
    j.(minors := RemoveAt(j.minors, k))
  }

  /** Free the only minor of major i: the major goes back to the page source. */
  function Release(s: State, i: nat): State
    requires i < |s.majs| && |s.majs[i].minors| == 1
  {
    var j := s.majs[i];
    var m := j.minors[0];
    s.(majs := RemoveAt(s.majs, i),
       bet := if s.bet == j.addr then NULL else s.bet,
       inuseBytes := s.inuseBytes - m.size,
       allocatedBytes := s.allocatedBytes - j.size,
       bytes := Forget(s.bytes, j.addr, j.size),
       dead := Clobber(s.dead[m.addr := DEAD], j.addr, j.size))
  }

  /** The best bet after a minor of major i was unlinked; the free sizes are compared as 32-bit
      signed integers. */
  function BetAfter(majs: seq<Major>, i: nat, bet: nat): nat
    requires i < |majs|
  {
    var b := IndexOf(majs, bet);
    if bet != NULL && b < |majs| && ToInt32(Room(majs[i])) > ToInt32(Room(majs[b]))
    then majs[i].addr else bet
  }

  /** Unlink minor k of major i, which has others. */
  function Unlink(s: State, i: nat, k: nat): State
    requires i < |s.majs| && k < |s.majs[i].minors|
  {
    var majs' := s.majs[i := Without(s.majs[i], k)];
    s.(majs := majs',
       bet := BetAfter(majs', i, s.bet),
       inuseBytes := s.inuseBytes - s.majs[i].minors[k].size,
       dead := s.dead[s.majs[i].minors[k].addr := DEAD])
  }

  /** Free minor k of major i. */
  function FreeAt(s: State, i: nat, k: nat): State
    requires i < |s.majs| && k < |s.majs[i].minors|
  {
    if |s.majs[i].minors| == 1 then Release(s, i) else Unlink(s, i, k)
  }

  /** Header address that a pointer leads to by way of its alignment tag. */
  function HeaderOf(bytes: map<nat, nat>, p: nat): int
    requires p >= ALIGN_INFO && p - ALIGN_INFO in bytes
  {
    var diff := bytes[p - ALIGN_INFO];
    (if diff < ALIGNMENT + ALIGN_INFO then p - diff else p) - MINOR_HEADER
  }

  /** The pointers that free and realloc can follow: those leading to a live header or to the
      header of a freed minor that is still in memory. */
  ghost predicate Headed(s: State, p: nat) {
    && p >= ALIGN_INFO && p - ALIGN_INFO in s.bytes
    && HeaderOf(s.bytes, p) >= 0
    && (Live(s.majs, HeaderOf(s.bytes, p)) || HeaderOf(s.bytes, p) in s.dead)
  }

  /** Low bytes of the magic intact: the program takes it for a small overrun. */
  predicate LooksOverrun(magic: nat) {
    magic % 0x100_0000 == MAGIC % 0x100_0000 || magic % 0x1_0000 == MAGIC % 0x1_0000
    || magic % 0x100 == MAGIC % 0x100
  }

  function Complain(s: State, magic: nat): State {
    s.(errors := s.errors + 1, overruns := s.overruns + if LooksOverrun(magic) then 1 else 0)
  }

  ghost function Locate(majs: seq<Major>, a: nat): (r: (nat, nat))
    requires Live(majs, a)
    ensures At(majs, r.0, r.1, a)
  {
    var i, k :| At(majs, i, k, a);
    (i, k)
  }

  ghost function FreePtr(s: State, p: nat): State
    requires p == NULL || Headed(s, p)
  {
    if p == NULL then s.(warnings := s.warnings + 1)
    else
      var h := HeaderOf(s.bytes, p);
      if Live(s.majs, h) then
        var (i, k) := Locate(s.majs, h);
        FreeAt(s, i, k)
      else Complain(s, s.dead[h])
  }

  // ----- realloc -----

  /** One byte copied; a byte whose content is not known stays unknown. */
  function CopyByte(bytes: map<nat, nat>, dst: nat, src: nat): map<nat, nat> {
    PutByte(bytes, dst, bytes, src)
  }

  /** A plain byte-by-byte copy, lowest address first. */
  function CopyBytes(bytes: map<nat, nat>, dst: nat, src: nat, n: nat): map<nat, nat> {
    if n == 0 then bytes else CopyByte(CopyBytes(bytes, dst, src, n-1), dst + n - 1, src + n - 1)
  }

  const WORD: nat := 4

  /** One byte of `from` put at dst, or what was there forgotten if it is not known. */
  function PutByte(bytes: map<nat, nat>, dst: nat, from: map<nat, nat>, src: nat): map<nat, nat> {
    if src in from then bytes[dst := from[src]] else bytes - {dst}
  }

  /** A word copied: its four bytes are read before any is written. */
  function CopyWord(bytes: map<nat, nat>, dst: nat, src: nat): map<nat, nat> {
    var b1 := PutByte(bytes, dst, bytes, src);
    var b2 := PutByte(b1, dst + 1, bytes, src + 1);
    var b3 := PutByte(b2, dst + 2, bytes, src + 2);
    PutByte(b3, dst + 3, bytes, src + 3)
  }

  function Copy(s: State, dst: nat, src: nat, n: nat): State {
    s.(bytes := CopyBytes(s.bytes, dst, src, n), dead := Clobber(s.dead, dst, n))
  }

  function Resize(s: State, i: nat, k: nat, req: nat): State
    requires i < |s.majs| && k < |s.majs[i].minors|
  {
    var j := s.majs[i];
    s.(majs := s.majs[i := j.(minors := j.minors[k := j.minors[k].(req := req)])])
  }

  /** realloc(p, size).  When it has to move the minor it copies to whatever malloc returned, NULL
      included. */
  ghost function Realloc(s: State, p: nat, size: nat, page: nat): (State, nat)
    requires p == NULL || Headed(s, p)
  {
    if size == 0 then (FreePtr(s, p), NULL)
    else if p == NULL then Malloc(s, size, page)
    else
      var h := HeaderOf(s.bytes, p);
      if !Live(s.majs, h) then (Complain(s, s.dead[h]), NULL)
      else
        var (i, k) := Locate(s.majs, h);
        var oldSize := s.majs[i].minors[k].req;
        if oldSize >= size then (Resize(s, i, k, size), p)
        else
          var (s1, q) := Malloc(s, size, page);
          var s2 := Copy(s1, q, p, oldSize);
          (if Headed(s2, p) then FreePtr(s2, p) else s2, q)
  }

  // ----- The program that uses the heap -----

  /** x is one of the bytes that the user of a live minor may write. */
  ghost predicate InPayload(majs: seq<Major>, i: int, k: int, x: nat) {
    && 0 <= i < |majs| && 0 <= k < |majs[i].minors|
    && Payload(majs[i].minors[k].addr) <= x < Payload(majs[i].minors[k].addr) + majs[i].minors[k].req
  }

  function Store(s: State, x: nat, v: nat): State {
    s.(bytes := s.bytes[x := v], dead := Clobber(s.dead, x, 1))
  }
}
