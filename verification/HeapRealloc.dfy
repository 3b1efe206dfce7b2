/** Laws of realloc, of a repeated free, and of writes inside a payload. */
module HeapRealloc {
  import opened HeapModel
  import opened HeapLemmas
  import opened HeapLaws

  // ----- Writing inside a payload -----

  /** [lo, lo + n) lies in the payload of minor (i, k). */
  ghost predicate Within(majs: seq<Major>, i: nat, k: nat, lo: nat, n: nat)
    requires i < |majs| && k < |majs[i].minors|
  {
    var m := majs[i].minors[k];
    Payload(m.addr) <= lo && lo + n <= Payload(m.addr) + m.req
  }

  /** b' has at [dst, dst + n) what b has at [src, src + n), known or unknown. */
  ghost predicate Moved(b: map<nat, nat>, b': map<nat, nat>, dst: nat, src: nat, n: nat) {
    forall x: nat :: dst <= x < dst + n ==>
      (x in b' <==> src + (x - dst) in b) && (x in b' ==> b'[x] == b[src + (x - dst)])
  }

  ghost predicate SameOutside(b: map<nat, nat>, b': map<nat, nat>, lo: nat, n: nat) {
    forall x: nat :: x < lo || lo + n <= x ==> (x in b <==> x in b') && (x in b ==> b[x] == b'[x])
  }

  /** Whatever happens to the bytes of one payload, the heap stays well-formed. */
  lemma PayloadWritesKeepInv(s: State, s': State, i: nat, k: nat, lo: nat, n: nat)
    requires Inv(s) && i < |s.majs| && k < |s.majs[i].minors| && Within(s.majs, i, k, lo, n)
    requires s' == s.(bytes := s'.bytes, dead := s'.dead)
    requires SameOutside(s.bytes, s'.bytes, lo, n)
    requires s'.dead.Keys <= s.dead.Keys
    ensures Inv(s')
  {
    forall x, y | 0 <= x < |s.majs| && 0 <= y < |s.majs[x].minors|
      ensures var a := s.majs[x].minors[y].addr;
        TagAddr(a) in s'.bytes && s'.bytes[TagAddr(a)] == Tag(a)
    {
      PayloadInside(s.majs[x].minors[y]);
      PayloadInside(s.majs[i].minors[k]);
      if x != i || y != k { MinorsApart(s.majs, x, y, i, k); }
    }
  }

  lemma StoreKeepsInv(s: State, i: nat, k: nat, x: nat, v: nat)
    requires Inv(s) && InPayload(s.majs, i, k, x)
    ensures Inv(Store(s, x, v))
  {
    PayloadWritesKeepInv(s, Store(s, x, v), i, k, x, 1);
  }

  // ----- Copying -----

  /** Copying between ranges that do not overlap puts each source byte at its place and touches
      nothing else. */
  lemma {:induction false} CopyBytesMoves(bytes: map<nat, nat>, dst: nat, src: nat, n: nat)
    requires dst + n <= src || src + n <= dst
    ensures Moved(bytes, CopyBytes(bytes, dst, src, n), dst, src, n)
    ensures SameOutside(bytes, CopyBytes(bytes, dst, src, n), dst, n)
  {
    if n > 0 { CopyBytesMoves(bytes, dst, src, n - 1); }
  }

  lemma {:induction false} CopyTwice(bytes: map<nat, nat>, dst: nat, src: nat, n: nat, m: nat)
    ensures CopyBytes(CopyBytes(bytes, dst, src, n), dst + n, src + n, m) == CopyBytes(bytes, dst, src, n + m)
  {
    if m > 0 { CopyTwice(bytes, dst, src, n, m - 1); }
  }

  lemma ClobberTwice<T>(m: map<nat, T>, lo: nat, n: nat, k: nat)
    ensures Clobber(Clobber(m, lo, n), lo + n, k) == Clobber(m, lo, n + k)
  {
  }

  /** Going on with a copy from where it stands. */
  lemma CopyMore<T>(bytes: map<nat, nat>, m: map<nat, T>, dst: nat, src: nat, n: nat, k: nat)
    ensures CopyBytes(CopyBytes(bytes, dst, src, n), dst + n, src + n, k) == CopyBytes(bytes, dst, src, n + k)
    ensures Clobber(Clobber(m, dst, n), dst + n, k) == Clobber(m, dst, n + k)
  {
    CopyTwice(bytes, dst, src, n, k);
    ClobberTwice(m, dst, n, k);
  }

  lemma NothingCopied<T>(bytes: map<nat, nat>, m: map<nat, T>, dst: nat, src: nat)
    ensures CopyBytes(bytes, dst, src, 0) == bytes && Clobber(m, dst, 0) == m
  {
  }

  lemma OneByte(bytes: map<nat, nat>, dst: nat, src: nat)
    ensures CopyBytes(bytes, dst, src, 1) == CopyByte(bytes, dst, src)
  {
    assert CopyBytes(bytes, dst, src, 0) == bytes;
  }

  /** Copying a word at once equals copying its bytes one by one, unless the destination begins
      less than a word above the source. */
  lemma WordIsFourBytes(bytes: map<nat, nat>, dst: nat, src: nat)
    requires dst <= src || src + WORD <= dst
    ensures CopyWord(bytes, dst, src) == CopyBytes(bytes, dst, src, WORD)
  {
    var b1 := CopyByte(bytes, dst, src);
    var b2 := CopyByte(b1, dst + 1, src + 1);
    var b3 := CopyByte(b2, dst + 2, src + 2);
    assert CopyBytes(bytes, dst, src, 1) == b1;
    assert CopyBytes(bytes, dst, src, 2) == b2;
    assert CopyBytes(bytes, dst, src, 3) == b3;
  }

  lemma CopyKeepsInv(s: State, i: nat, k: nat, dst: nat, src: nat, n: nat)
    requires Inv(s) && i < |s.majs| && k < |s.majs[i].minors| && Within(s.majs, i, k, dst, n)
    requires dst + n <= src || src + n <= dst
    ensures Inv(Copy(s, dst, src, n))
  {
    CopyBytesMoves(s.bytes, dst, src, n);
    PayloadWritesKeepInv(s, Copy(s, dst, src, n), i, k, dst, n);
  }

  // ----- free -----

  lemma FreePtrKeepsInv(s: State, p: nat)
    requires Inv(s) && (p == NULL || Headed(s, p))
    ensures Inv(FreePtr(s, p))
  {
    if p != NULL && Live(s.majs, HeaderOf(s.bytes, p)) {
      var (i, k) := Locate(s.majs, HeaderOf(s.bytes, p));
      FreeKeepsInv(s, i, k);
    }
  }

  /** Freeing a pointer twice in a row is noticed, as long as its major is still there: the
      second call counts one error and does nothing else. */
  lemma DoubleFreeIsCaught(s: State, p: nat)
    requires Inv(s) && p != NULL && Headed(s, p) && Live(s.majs, HeaderOf(s.bytes, p))
    requires |s.majs[Locate(s.majs, HeaderOf(s.bytes, p)).0].minors| > 1
    ensures var s1 := FreePtr(s, p);
      Headed(s1, p) && FreePtr(s1, p) == s1.(errors := s1.errors + 1)
  {
    hide MajorOk, Apart, TagsOk, NoEmptyMajor, Without, BetAfter, Listed;
    var h := HeaderOf(s.bytes, p);
    var (i, k) := Locate(s.majs, h);
    LiveAfterFree(s, i, k, h);
  }

  // ----- realloc -----

  lemma ResizeKeepsShape(s: State, i: nat, k: nat, req: nat)
    requires Inv(s) && i < |s.majs| && k < |s.majs[i].minors| && req <= s.majs[i].minors[k].req
    ensures Shape(Resize(s, i, k, req).majs)
  {
    var j := s.majs[i];
    assert MajorOk(j);
    var j' := j.(minors := j.minors[k := j.minors[k].(req := req)]);
    assert forall t :: 0 <= t < |j.minors| ==>
      j'.minors[t].addr == j.minors[t].addr && j'.minors[t].End() == j.minors[t].End();
    assert MajorOk(j');
    ShapeUpdate(s.majs, i, j');
  }

  lemma ResizeKeepsLive(s: State, i: nat, k: nat, req: nat, a: nat)
    requires i < |s.majs| && k < |s.majs[i].minors|
    ensures Live(Resize(s, i, k, req).majs, a) <==> Live(s.majs, a)
  {
    var majs' := Resize(s, i, k, req).majs;
    if Live(majs', a) {
      var x, y :| At(majs', x, y, a);
      assert At(s.majs, x, y, a);
    }
    if Live(s.majs, a) {
      var x, y :| At(s.majs, x, y, a);
      assert At(majs', x, y, a);
    }
  }

  lemma ResizeKeepsListed(s: State, i: nat, k: nat, req: nat, addr: nat)
    requires i < |s.majs| && k < |s.majs[i].minors| && Listed(s.majs, addr)
    ensures Listed(Resize(s, i, k, req).majs, addr)
  {
    var t :| 0 <= t < |s.majs| && s.majs[t].addr == addr;
    assert Resize(s, i, k, req).majs[t].addr == addr;
  }

  lemma ResizeKeepsTags(s: State, i: nat, k: nat, req: nat)
    requires i < |s.majs| && k < |s.majs[i].minors| && TagsOk(s.majs, s.bytes)
    ensures TagsOk(Resize(s, i, k, req).majs, s.bytes)
  {
    var majs' := Resize(s, i, k, req).majs;
    forall x, y | 0 <= x < |majs'| && 0 <= y < |majs'[x].minors|
      ensures var a := majs'[x].minors[y].addr; TagAddr(a) in s.bytes && s.bytes[TagAddr(a)] == Tag(a)
    {
      assert majs'[x].minors[y].addr == s.majs[x].minors[y].addr;
    }
  }

  lemma ResizeKeepsInv(s: State, i: nat, k: nat, req: nat)
    requires Inv(s) && i < |s.majs| && k < |s.majs[i].minors| && req <= s.majs[i].minors[k].req
    ensures Inv(Resize(s, i, k, req))
  {
    hide Shape, TagsOk, Live, Listed;
    var m := s.majs[i].minors[k].(req := req);
    ResizeKeepsShape(s, i, k, req);
    ResizeKeepsTags(s, i, k, req);
    LiveSizeUpdate(s.majs[i].minors, k, m);
    SumsUpdate(s.majs, i, s.majs[i].(minors := s.majs[i].minors[k := m]));
    if s.bet != NULL { ResizeKeepsListed(s, i, k, req, s.bet); }
    forall a | a in s.dead ensures !Live(Resize(s, i, k, req).majs, a) {
      ResizeKeepsLive(s, i, k, req, a);
    }
  }

  lemma LiveSizeUpdate(ms: seq<Minor>, k: nat, m: Minor)
    requires k < |ms| && m.size == ms[k].size
    ensures LiveSize(ms[k := m]) == LiveSize(ms) && Used(ms[k := m]) == Used(ms)
  {
    UsedRemove(ms, k);
    UsedRemove(ms[k := m], k);
    assert RemoveAt(ms, k) == RemoveAt(ms[k := m], k);
  }

  /** Where a pointer that leads to a live header can point, and that its tag stays readable. */
  lemma HeadedRange(s: State, p: nat)
    requires p != NULL && Headed(s, p)
    ensures var h := HeaderOf(s.bytes, p);
      h + MINOR_HEADER <= p < h + MINOR_HEADER + ALIGNMENT + ALIGN_INFO
  {
  }

  /** The request of a realloc is within bounds.  If the minor has to move and there is no memory, the
      program copies to address 0; no major may lie there. */
  ghost predicate ReallocOk(s: State, p: nat, size: nat, page: nat) {
    && (p == NULL || Headed(s, p))
    && Sane(size) && PageOk(s.majs, page, size + ALIGNMENT + ALIGN_INFO)
    && (Moves(s, p, size) && !Granted(s, size, page) ==> NothingBelow(s.majs, OldSize(s, p)))
  }

  ghost function OldSize(s: State, p: nat): nat
    requires p != NULL && Headed(s, p) && Live(s.majs, HeaderOf(s.bytes, p))
  {
    var (i, k) := Locate(s.majs, HeaderOf(s.bytes, p));
    s.majs[i].minors[k].req
  }

  /** realloc has to move the minor that p leads to. */
  ghost predicate Moves(s: State, p: nat, size: nat) {
    p != NULL && Headed(s, p) && Live(s.majs, HeaderOf(s.bytes, p)) && OldSize(s, p) < size
  }

  /** The header that p leads to, and its place. */
  ghost function Home(s: State, p: nat, size: nat): nat
    requires Moves(s, p, size)
  {
    HeaderOf(s.bytes, p)
  }

  ghost function HomePlace(s: State, p: nat, size: nat): (nat, nat)
    requires Moves(s, p, size)
  {
    Locate(s.majs, HeaderOf(s.bytes, p))
  }

  /** There is memory for a request, in a gap or from the page source. */
  ghost predicate Granted(s: State, size: nat, page: nat) { page != NULL || HasGap(s.majs, Need(size)) }

  /** No major begins in the lowest n bytes of memory. */
  ghost predicate NothingBelow(majs: seq<Major>, n: nat) { forall i :: 0 <= i < |majs| ==> n <= majs[i].addr }

  /** After the inner malloc of a realloc: the old minor (x, y) is still there, now at (x, k), and
      the new one is at (ni, nk). */
  lemma MallocBeside(s: State, size: nat, page: nat, x: nat, y: nat)
    returns (k: nat, ni: nat, nk: nat)
    requires Inv(s) && Sane(size) && PageOk(s.majs, page, size + ALIGNMENT + ALIGN_INFO)
    requires Granted(s, size, page)
    requires x < |s.majs| && y < |s.majs[x].minors|
    ensures Malloc(s, size, page).1 != NULL && Inv(Malloc(s, size, page).0)
    ensures var s1 := Malloc(s, size, page).0; var m := s.majs[x].minors[y];
      && x < |s1.majs| && k < |s1.majs[x].minors| && s1.majs[x].minors[k] == m
      && ni < |s1.majs| && nk < |s1.majs[ni].minors| && (ni != x || nk != k)
      && s1.majs[ni].minors[nk].req == size
      && Malloc(s, size, page).1 == Payload(s1.majs[ni].minors[nk].addr)
      && SameBytes(s.bytes, s1.bytes, m.addr, MINOR_HEADER + m.size)
  {
    hide Malloc, Inv, PageOk, HasGap;
    MallocIsComplete(s, size, page);
    MallocKeepsInv(s, size, page);
    k := MallocKeepsPayloads(s, size, page, x, y);
    ni, nk := MallocHandsOutPrivate(s, size, page);
    assert At(s.majs, x, y, s.majs[x].minors[y].addr);
  }

  /** The last two steps of a realloc that moves: copy from the old minor (x, k) to the new one at
      (ni, nk), then free the old one. */
  function CopyThenFree(s: State, x: nat, k: nat, q: nat, p: nat): State
    requires x < |s.majs| && k < |s.majs[x].minors|
  {
    FreeAt(Copy(s, q, p, s.majs[x].minors[k].req), x, k)
  }

  /** p points into minor (x, k), past its header, with room behind it for the whole request. */
  ghost predicate PointsInto(s: State, x: nat, k: nat, p: nat)
    requires x < |s.majs| && k < |s.majs[x].minors|
  {
    var m := s.majs[x].minors[k];
    m.addr + MINOR_HEADER <= p < m.addr + MINOR_HEADER + ALIGNMENT + ALIGN_INFO
  }

  /** The copy does not overlap its source, stays in the new payload, and leaves every other minor
      alone. */
  lemma CopyIsPrivate(s: State, x: nat, k: nat, ni: nat, nk: nat, p: nat)
    requires Inv(s) && x < |s.majs| && k < |s.majs[x].minors| && PointsInto(s, x, k, p)
    requires ni < |s.majs| && nk < |s.majs[ni].minors| && (ni != x || nk != k)
    requires s.majs[x].minors[k].req <= s.majs[ni].minors[nk].req
    ensures var q := Payload(s.majs[ni].minors[nk].addr); var n := s.majs[x].minors[k].req;
      && Inv(Copy(s, q, p, n))
      && Moved(s.bytes, Copy(s, q, p, n).bytes, q, p, n)
      && (forall u, v :: 0 <= u < |s.majs| && 0 <= v < |s.majs[u].minors| && (u != ni || v != nk) ==>
            var m := s.majs[u].minors[v];
            SameBytes(s.bytes, Copy(s, q, p, n).bytes, m.addr, MINOR_HEADER + m.size))
  {
    hide Inv, TagsOk, Clobber, CopyBytes, Shape;
    var q := Payload(s.majs[ni].minors[nk].addr);
    var n := s.majs[x].minors[k].req;
    InvGivesShape(s);
    MinorsApart(s.majs, x, k, ni, nk);
    PayloadInside(s.majs[ni].minors[nk]);
    PayloadInside(s.majs[x].minors[k]);
    CopyKeepsInv(s, ni, nk, q, p, n);
    CopyBytesMoves(s.bytes, q, p, n);
    forall u, v | 0 <= u < |s.majs| && 0 <= v < |s.majs[u].minors| && (u != ni || v != nk)
      ensures var m := s.majs[u].minors[v];
        SameBytes(s.bytes, Copy(s, q, p, n).bytes, m.addr, MINOR_HEADER + m.size)
    {
      MinorsApart(s.majs, u, v, ni, nk);
    }
  }

  lemma InvGivesShape(s: State)
    requires Inv(s)
    ensures Shape(s.majs)
    ensures forall i, k :: 0 <= i < |s.majs| && 0 <= k < |s.majs[i].minors| ==>
      s.majs[i].minors[k].req + ALIGNMENT + ALIGN_INFO <= s.majs[i].minors[k].size
  {
  }

  /** Minor (x, y) of s is minor (x, k) of s1, with all its bytes, and p points into it. */
  ghost predicate StillThere(s: State, s1: State, x: nat, y: nat, k: nat, p: nat) {
    && x < |s.majs| && y < |s.majs[x].minors|
    && x < |s1.majs| && k < |s1.majs[x].minors| && s1.majs[x].minors[k] == s.majs[x].minors[y]
    && var m := s.majs[x].minors[y];
      SameBytes(s.bytes, s1.bytes, m.addr, MINOR_HEADER + m.size) && PointsInto(s1, x, k, p)
  }

  /** q is the payload of minor (ni, nk), which has the given size and is another than (x, k). */
  ghost predicate Beside(s1: State, x: nat, k: nat, ni: nat, nk: nat, q: nat, size: nat) {
    && ni < |s1.majs| && nk < |s1.majs[ni].minors| && (ni != x || nk != k)
    && s1.majs[ni].minors[nk].req == size && q == Payload(s1.majs[ni].minors[nk].addr)
  }

  /** A realloc that moves is a malloc, a copy, and a free of the old minor. */
  lemma ReallocMoves(s: State, p: nat, size: nat, page: nat)
    returns (x: nat, y: nat, k: nat, ni: nat, nk: nat)
    requires Inv(s) && ReallocOk(s, p, size, page) && Moves(s, p, size) && Granted(s, size, page)
    ensures (x, y) == HomePlace(s, p, size)
    ensures var (s1, q) := Malloc(s, size, page);
      && q != NULL && Inv(s1) && StillThere(s, s1, x, y, k, p) && Beside(s1, x, k, ni, nk, q, size)
      && Realloc(s, p, size, page) == (CopyThenFree(s1, x, k, q, p), q)
  {
    hide Malloc, Inv, PageOk, HasGap, Copy, FreeAt, Sane, Payload;
    HeadedRange(s, p);
    var (x', y') := Locate(s.majs, HeaderOf(s.bytes, p));
    x, y := x', y';
    k, ni, nk := MallocBeside(s, size, page, x, y);
    var (s1, q) := Malloc(s, size, page);
    CopyIsPrivate(s1, x, k, ni, nk, p);
    CopyChangesNoMinor(s1, q, p, s.majs[x].minors[y].req);
    FreeFollows(s, Copy(s1, q, p, s.majs[x].minors[y].req), p, x, y, k, s1.bytes);
  }

  /** A pointer that led to minor (x, y) still leads to it when its bytes are the same. */
  lemma FreeFollows(s: State, s': State, p: nat, x: nat, y: nat, k: nat, b: map<nat, nat>)
    requires Inv(s) && p != NULL && Headed(s, p) && At(s.majs, x, y, HeaderOf(s.bytes, p))
    requires Inv(s') && x < |s'.majs| && k < |s'.majs[x].minors| && s'.majs[x].minors[k] == s.majs[x].minors[y]
    requires var m := s.majs[x].minors[y];
      SameBytes(s.bytes, b, m.addr, MINOR_HEADER + m.size) && SameBytes(b, s'.bytes, m.addr, MINOR_HEADER + m.size)
    ensures Headed(s', p) && FreePtr(s', p) == FreeAt(s', x, k)
  {
    hide FreeAt, Inv, Shape;
    HeadedRange(s, p);
    var h := HeaderOf(s.bytes, p);
    InvGivesShape(s);
    assert At(s'.majs, x, k, h);
    InvGivesShape(s');
    var (i', k') := Locate(s'.majs, h);
    PlaceIsUnique(s'.majs, x, k, i', k', h);
  }

  /** A copy to the lowest n bytes harms no minor if no major lies there. */
  lemma CopyLow(s: State, x: nat, k: nat, p: nat)
    requires Inv(s) && x < |s.majs| && k < |s.majs[x].minors| && PointsInto(s, x, k, p)
    requires NothingBelow(s.majs, s.majs[x].minors[k].req)
    ensures var s' := Copy(s, NULL, p, s.majs[x].minors[k].req);
      && Inv(s') && s'.majs == s.majs
      && (forall u, v :: 0 <= u < |s.majs| && 0 <= v < |s.majs[u].minors| ==>
            var m := s.majs[u].minors[v];
            SameBytes(s.bytes, s'.bytes, m.addr, MINOR_HEADER + m.size))
  {
    hide CopyBytes, Clobber, Inv, Shape;
    var n := s.majs[x].minors[k].req;
    InvGivesShape(s);
    MinorsAbove(s.majs, n);
    CopyBytesMoves(s.bytes, NULL, p, n);
    LowWritesKeepInv(s, Copy(s, NULL, p, n), n) by { DeadShrinks(s.dead, NULL, n); }
  }

  lemma DeadShrinks(dead: map<nat, nat>, lo: nat, n: nat)
    ensures Clobber(dead, lo, n).Keys <= dead.Keys
  {
  }

  lemma MinorsAbove(majs: seq<Major>, n: nat)
    requires Shape(majs) && NothingBelow(majs, n)
    ensures forall u, v :: 0 <= u < |majs| && 0 <= v < |majs[u].minors| ==>
      n <= majs[u].minors[v].addr && TagAddr(majs[u].minors[v].addr) >= n
  {
  }

  lemma LowWritesKeepInv(s: State, s': State, n: nat)
    requires Inv(s) && NothingBelow(s.majs, n)
    requires s' == s.(bytes := s'.bytes, dead := s'.dead)
    requires SameOutside(s.bytes, s'.bytes, 0, n)
    requires s'.dead.Keys <= s.dead.Keys
    ensures Inv(s')
  {
    hide Shape;
    assert Shape(s.majs);
    MinorsAbove(s.majs, n);
  }

  /** A realloc that has to move but gets no memory copies to address 0 and frees the old minor. */
  lemma ReallocRefused(s: State, p: nat, size: nat, page: nat) returns (x: nat, y: nat)
    requires Inv(s) && ReallocOk(s, p, size, page) && Moves(s, p, size) && !Granted(s, size, page)
    ensures (x, y) == HomePlace(s, p, size)
    ensures var (s1, q) := Malloc(s, size, page);
      && q == NULL && Inv(s1) && s1.majs == s.majs && s1.bytes == s.bytes && StillThere(s, s1, x, y, y, p)
      && Realloc(s, p, size, page) == (CopyThenFree(s1, x, y, NULL, p), NULL)
  {
    hide Malloc, Inv, PageOk, HasGap, Copy, FreeAt, Sane, Payload;
    MallocIsComplete(s, size, page);
    MallocRefused(s, size, page);
    MallocKeepsInv(s, size, page);
    HeadedRange(s, p);
    var (x', y') := Locate(s.majs, HeaderOf(s.bytes, p));
    x, y := x', y';
    var s1 := Malloc(s, size, page).0;
    CopyLow(s1, x, y, p);
    FreeFollows(s, Copy(s1, NULL, p, s1.majs[x].minors[y].req), p, x, y, y, s1.bytes);
  }

  lemma ReallocKeepsInv(s: State, p: nat, size: nat, page: nat)
    requires Inv(s) && ReallocOk(s, p, size, page)
    ensures Inv(Realloc(s, p, size, page).0)
  {
    hide Malloc, Inv, PageOk, HasGap, Sane, Payload, Copy, FreeAt, Moved, SameBytes, Resize;
    if size == 0 {
      FreePtrKeepsInv(s, p);
    } else if p == NULL {
      MallocKeepsInv(s, size, page);
    } else if Live(s.majs, HeaderOf(s.bytes, p)) {
      if Moves(s, p, size) && !Granted(s, size, page) {
        var x, y := ReallocRefused(s, p, size, page);
        var s1 := Malloc(s, size, page).0;
        CopyLow(s1, x, y, p);
        FreeKeepsInv(Copy(s1, NULL, p, s1.majs[x].minors[y].req), x, y);
      } else if Moves(s, p, size) {
        var x, y, k, ni, nk := ReallocMoves(s, p, size, page);
        var (s1, q) := Malloc(s, size, page);
        CopyIsPrivate(s1, x, k, ni, nk, p);
        CopyChangesNoMinor(s1, q, p, s1.majs[x].minors[k].req);
        FreeKeepsInv(Copy(s1, q, p, s1.majs[x].minors[k].req), x, k);
      } else {
        var (x, y) := Locate(s.majs, HeaderOf(s.bytes, p));
        ResizeKeepsInv(s, x, y, size);
      }
    } else {
      ComplainKeepsInv(s, s.dead[HeaderOf(s.bytes, p)]);
    }
  }

  lemma CopyChangesNoMinor(s: State, dst: nat, src: nat, n: nat)
    ensures Copy(s, dst, src, n).majs == s.majs
  {
  }

  lemma ComplainKeepsInv(s: State, magic: nat)
    requires Inv(s)
    ensures Inv(Complain(s, magic))
  {
  }

  lemma MovedThenSame(b0: map<nat, nat>, b1: map<nat, nat>, b2: map<nat, nat>, b3: map<nat, nat>,
                      q: nat, p: nat, n: nat)
    requires SameBytes(b0, b1, p, n) && Moved(b1, b2, q, p, n) && SameBytes(b2, b3, q, n)
    ensures Moved(b0, b3, q, p, n)
  {
  }

  lemma SameInside(b: map<nat, nat>, b': map<nat, nat>, lo: nat, n: nat, lo': nat, n': nat)
    requires SameBytes(b, b', lo, n) && lo <= lo' && lo' + n' <= lo + n
    ensures SameBytes(b, b', lo', n')
  {
  }

  /** realloc of a live minor returns NULL if and only if the minor would have to move and there is no
      memory; then the minor is lost all the same. */
  lemma ReallocFailsIff(s: State, p: nat, size: nat, page: nat)
    requires Inv(s) && ReallocOk(s, p, size, page) && size > 0
    requires p != NULL && Live(s.majs, HeaderOf(s.bytes, p))
    ensures var (s', q) := Realloc(s, p, size, page);
      && (q == NULL <==> Moves(s, p, size) && !Granted(s, size, page))
      && (q == NULL ==> !Live(s'.majs, HeaderOf(s.bytes, p)))
  {
    hide Malloc, Inv, PageOk, HasGap, Sane, FreeAt, Copy, Payload;
    if Moves(s, p, size) && !Granted(s, size, page) {
      var x, y := ReallocRefused(s, p, size, page);
      var s1 := Malloc(s, size, page).0;
      CopyLow(s1, x, y, p);
      InvGivesShape(s1);
      LiveAfterFree(Copy(s1, NULL, p, s1.majs[x].minors[y].req), x, y, HeaderOf(s.bytes, p));
    } else if Moves(s, p, size) {
      var x, y, k, ni, nk := ReallocMoves(s, p, size, page);
    }
  }

  /** realloc of a live minor, if there is memory, returns a minor of the new size that begins with the
      old contents, up to the smaller of the two sizes. */
  lemma ReallocKeepsContents(s: State, p: nat, size: nat, page: nat) returns (i: nat, k: nat)
    requires Inv(s) && ReallocOk(s, p, size, page) && size > 0
    requires p != NULL && Live(s.majs, HeaderOf(s.bytes, p))
    requires Moves(s, p, size) ==> Granted(s, size, page)
    ensures var (s', q) := Realloc(s, p, size, page);
      var (x, y) := Locate(s.majs, HeaderOf(s.bytes, p));
      var oldSize := s.majs[x].minors[y].req;
      && q != NULL && i < |s'.majs| && k < |s'.majs[i].minors| && s'.majs[i].minors[k].req == size
      && (if Moves(s, p, size) then q == Payload(s'.majs[i].minors[k].addr)
          else q == p && s'.majs[i].minors[k].addr == HeaderOf(s.bytes, p))
      && Moved(s.bytes, s'.bytes, q, p, if oldSize < size then oldSize else size)
  {
    hide Malloc, Inv, PageOk, HasGap, Sane, FreeAt, Copy, Payload;
    if Moves(s, p, size) {
      var x, y, kk, ni, nk := ReallocMoves(s, p, size, page);
      var (s1, q) := Malloc(s, size, page);
      var n := s1.majs[x].minors[kk].req;
      CopyIsPrivate(s1, x, kk, ni, nk, p);
      CopyChangesNoMinor(s1, q, p, n);
      var s2 := Copy(s1, q, p, n);
      i, k := OthersSurvive(s2, x, kk, ni, nk);
      InvGivesShape(s1);
      FreeKeepsBytes(s2, x, kk, ni, nk);
      PayloadInside(s1.majs[ni].minors[nk]);
      var m := s1.majs[ni].minors[nk];
      SameInside(s2.bytes, FreeAt(s2, x, kk).bytes, m.addr, MINOR_HEADER + m.size, q, n);
      var m0 := s1.majs[x].minors[kk];
      SameInside(s.bytes, s1.bytes, m0.addr, MINOR_HEADER + m0.size, p, n);
      MovedThenSame(s.bytes, s1.bytes, s2.bytes, FreeAt(s2, x, kk).bytes, q, p, n);
    } else {
      var (x, y) := Locate(s.majs, HeaderOf(s.bytes, p));
      i, k := x, y;
    }
  }

  // ----- Other minors -----

  /** Minor m is live, wherever it is listed. */
  ghost predicate Present(majs: seq<Major>, m: Minor) {
    exists i, k :: 0 <= i < |majs| && 0 <= k < |majs[i].minors| && majs[i].minors[k] == m
  }

  /** m is still there and none of its bytes changed. */
  ghost predicate Untouched(s: State, s': State, m: Minor) {
    Present(s'.majs, m) && SameBytes(s.bytes, s'.bytes, m.addr, MINOR_HEADER + m.size)
  }

  lemma FreeSpares(s: State, i: nat, k: nat, x: nat, y: nat)
    requires Inv(s) && i < |s.majs| && k < |s.majs[i].minors|
    requires x < |s.majs| && y < |s.majs[x].minors| && (x != i || y != k)
    ensures Untouched(s, FreeAt(s, i, k), s.majs[x].minors[y])
  {
    hide FreeAt, SameBytes;
    var x', y' := OthersSurvive(s, i, k, x, y);
    FreeKeepsBytes(s, i, k, x, y);
  }

  lemma MallocSpares(s: State, req: nat, page: nat, x: nat, y: nat)
    requires Inv(s) && Sane(req) && PageOk(s.majs, page, req + ALIGNMENT + ALIGN_INFO)
    requires x < |s.majs| && y < |s.majs[x].minors|
    ensures Untouched(s, Malloc(s, req, page).0, s.majs[x].minors[y])
  {
    hide Malloc, SameBytes;
    var y' := MallocKeepsPayloads(s, req, page, x, y);
  }

  lemma UntouchedTwice(s: State, s': State, s'': State, m: Minor)
    requires Untouched(s, s', m) && Untouched(s', s'', m)
    ensures Untouched(s, s'', m)
  {
  }

  /** realloc leaves every minor but its own alone. */
  lemma ReallocSpares(s: State, p: nat, size: nat, page: nat, u: nat, v: nat)
    requires Inv(s) && ReallocOk(s, p, size, page) && size > 0
    requires u < |s.majs| && v < |s.majs[u].minors|
    requires p != NULL ==> HeaderOf(s.bytes, p) != s.majs[u].minors[v].addr
    ensures Untouched(s, Realloc(s, p, size, page).0, s.majs[u].minors[v])
  {
    hide Malloc, Inv, PageOk, HasGap, Sane, FreeAt, Copy, Payload, SameBytes;
    var m := s.majs[u].minors[v];
    if p == NULL {
      MallocSpares(s, size, page, u, v);
    } else if Moves(s, p, size) && !Granted(s, size, page) {
      var x, y := ReallocRefused(s, p, size, page);
      var s1 := Malloc(s, size, page).0;
      var n := s1.majs[x].minors[y].req;
      CopyLow(s1, x, y, p);
      assert At(s.majs, x, y, HeaderOf(s.bytes, p));
      assert s1.majs[u].minors[v] == m;
      assert Untouched(s, Copy(s1, NULL, p, n), m);
      FreeSpares(Copy(s1, NULL, p, n), x, y, u, v);
      UntouchedTwice(s, Copy(s1, NULL, p, n), CopyThenFree(s1, x, y, NULL, p), m);
    } else if Moves(s, p, size) {
      var x, y, k, ni, nk := ReallocMoves(s, p, size, page);
      var (s1, q) := Malloc(s, size, page);
      var n := s1.majs[x].minors[k].req;
      MallocSpares(s, size, page, u, v);
      var u1, v1 :| 0 <= u1 < |s1.majs| && 0 <= v1 < |s1.majs[u1].minors| && s1.majs[u1].minors[v1] == m;
      NewMinorIsNotOld(s, size, page, u, v, ni, nk, u1, v1);
      CopyIsPrivate(s1, x, k, ni, nk, p);
      CopyChangesNoMinor(s1, q, p, n);
      assert Untouched(s1, Copy(s1, q, p, n), m);
      assert At(s.majs, x, y, HeaderOf(s.bytes, p));
      FreeSpares(Copy(s1, q, p, n), x, k, u1, v1);
      UntouchedTwice(s, s1, Copy(s1, q, p, n), m);
      UntouchedTwice(s, Copy(s1, q, p, n), CopyThenFree(s1, x, k, q, p), m);
    } else {
      NothingMoves(s, p, size, page, u, v);
    }
  }

  lemma NothingMoves(s: State, p: nat, size: nat, page: nat, u: nat, v: nat)
    requires p != NULL && Headed(s, p) && !Moves(s, p, size) && size > 0
    requires u < |s.majs| && v < |s.majs[u].minors|
    requires HeaderOf(s.bytes, p) != s.majs[u].minors[v].addr
    ensures Untouched(s, Realloc(s, p, size, page).0, s.majs[u].minors[v])
  {
    var s' := Realloc(s, p, size, page).0;
    if Live(s.majs, HeaderOf(s.bytes, p)) {
      var (x, y) := Locate(s.majs, HeaderOf(s.bytes, p));
      assert s' == Resize(s, x, y, size);
    }
    assert s'.majs[u].minors[v] == s.majs[u].minors[v];
  }

  /** The minor malloc makes is at none of the places that hold the old ones. */
  lemma NewMinorIsNotOld(s: State, size: nat, page: nat, u: nat, v: nat, ni: nat, nk: nat, u1: nat, v1: nat)
    requires Inv(s) && Sane(size) && PageOk(s.majs, page, size + ALIGNMENT + ALIGN_INFO)
    requires u < |s.majs| && v < |s.majs[u].minors| && Malloc(s, size, page).1 != NULL
    requires var (s1, q) := Malloc(s, size, page);
      && ni < |s1.majs| && nk < |s1.majs[ni].minors| && q == Payload(s1.majs[ni].minors[nk].addr)
      && u1 < |s1.majs| && v1 < |s1.majs[u1].minors| && s1.majs[u1].minors[v1] == s.majs[u].minors[v]
    ensures ni != u1 || nk != v1
  {
    hide Malloc, Inv, PageOk;
    var i, k := MallocHandsOutPrivate(s, size, page);
    MallocKeepsInv(s, size, page);
    assert At(s.majs, u, v, s.majs[u].minors[v].addr);
    var s1 := Malloc(s, size, page).0;
    if ni == u1 && nk == v1 {
      InvGivesShape(s1);
      SamePayloadSameMinor(s1.majs, i, k, ni, nk);
    }
  }

  lemma ShapeGivesRoom(majs: seq<Major>, i: nat, k: nat)
    requires Shape(majs) && i < |majs| && k < |majs[i].minors|
    ensures majs[i].minors[k].req + ALIGNMENT + ALIGN_INFO <= majs[i].minors[k].size
  {
  }

  lemma SamePayloadSameMinor(majs: seq<Major>, i: nat, k: nat, i': nat, k': nat)
    requires Shape(majs) && i < |majs| && k < |majs[i].minors| && i' < |majs| && k' < |majs[i'].minors|
    requires Payload(majs[i].minors[k].addr) == Payload(majs[i'].minors[k'].addr)
    ensures i == i' && k == k'
  {
    hide Shape, Payload;
    ShapeGivesRoom(majs, i, k);
    ShapeGivesRoom(majs, i', k');
    PayloadInside(majs[i].minors[k]);
    PayloadInside(majs[i'].minors[k']);
    if i != i' || k != k' { MinorsApart(majs, i, k, i', k'); }
  }

  /** When realloc moves, or tries to, the pointer it frees at the end still leads to the old minor. */
  lemma FreeOfMoved(s: State, p: nat, size: nat, page: nat)
    requires Inv(s) && ReallocOk(s, p, size, page) && Moves(s, p, size)
    ensures var (s1, q) := Malloc(s, size, page);
      var s2 := Copy(s1, q, p, OldSize(s, p));
      Headed(s2, p) && Realloc(s, p, size, page) == (FreePtr(s2, p), q)
  {
    hide Malloc, Inv, PageOk, HasGap, Copy, FreeAt, Sane, Payload, FreePtr;
    HeadedRange(s, p);
    var (s1, q) := Malloc(s, size, page);
    if Granted(s, size, page) {
      var x, y, k, ni, nk := ReallocMoves(s, p, size, page);
      CopyIsPrivate(s1, x, k, ni, nk, p);
      CopyChangesNoMinor(s1, q, p, OldSize(s, p));
      FreeFollows(s, Copy(s1, q, p, OldSize(s, p)), p, x, y, k, s1.bytes);
    } else {
      var x, y := ReallocRefused(s, p, size, page);
      CopyLow(s1, x, y, p);
      FreeFollows(s, Copy(s1, q, p, OldSize(s, p)), p, x, y, y, s1.bytes);
    }
  }
}
