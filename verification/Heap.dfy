/** The pointer program of third-party/liballoc/liballoc.c: headers found by address and
    relinked in place.  Every method computes the function of HeapModel named in its contract. */
module HeapProgram {
  import opened Words
  import opened HeapModel
  import opened HeapLaws
  import opened HeapImage
  import opened HeapRealloc

  class Heap {
    var majors: Majors
    var minors: Minors
    var bytes: map<nat, nat>
    var memRoot: nat
    var bestBet: nat
    var allocatedBytes: int
    var inuseBytes: int
    var warningCount: int
    var errorCount: int
    var possibleOverruns: int
    var lockQueue: nat

    /** The majors reached from memRoot, with their minors. */
    ghost var listed: seq<Major>

    ghost function Abs(): State
      reads this
    {
      State(listed, bestBet, allocatedBytes, inuseBytes, warningCount, errorCount, possibleOverruns,
            bytes, DeadOf(minors))
    }

    ghost predicate Linked()
      reads this
    {
      Repr(listed, majors, minors) && memRoot == AddrAt(listed, 0)
    }

    ghost predicate Valid()
      reads this
    {
      Linked() && Inv(Abs())
    }

    constructor ()
      ensures Valid() && Abs() == State([], NULL, 0, 0, 0, 0, 0, map[], map[]) && lockQueue == 0
    {
      majors, minors, bytes := map[], map[], map[];
      memRoot, bestBet := NULL, NULL;
      allocatedBytes, inuseBytes := 0, 0;
      warningCount, errorCount, possibleOverruns := 0, 0, 0;
      lockQueue := 0;
      listed := [];
    }

    // ----- compat.c -----

    method Lock()
      modifies `lockQueue
      ensures lockQueue == old(lockQueue) + 1
    {
      lockQueue := lockQueue + 1;
    }

    method Unlock()
      requires lockQueue > 0
      modifies `lockQueue
      ensures lockQueue == old(lockQueue) - 1
    {
      lockQueue := lockQueue - 1;
    }

    /** The memory at [addr, addr + len) goes back to the page source, with all that is in it. */
    method ReturnPages(addr: nat, len: nat)
      modifies `majors, `minors, `bytes
      ensures majors == old(majors) - {addr}
      ensures minors == Clobber(old(minors), addr, len)
      ensures bytes == Forget(old(bytes), addr, len)
    {
      majors := majors - {addr};
      minors := Clobber(minors, addr, len);
      bytes := Forget(bytes, addr, len);
    }

    // ----- Headers and tags -----

    method WriteMinor(a: nat, h: MinorHeader)
      modifies `minors, `bytes
      ensures minors == Clobber(old(minors), a, MINOR_HEADER)[a := h]
      ensures bytes == Forget(old(bytes), a, MINOR_HEADER)
    {
      minors := Clobber(minors, a, MINOR_HEADER)[a := h];
      bytes := Forget(bytes, a, MINOR_HEADER);
    }

    /** ALIGN: from the end of the header at a to its payload, leaving the tag behind. */
    method Align(a: nat) returns (p: nat)
      modifies `minors, `bytes
      ensures p == Payload(a)
      ensures bytes == old(bytes)[TagAddr(a) := Tag(a)]
      ensures minors == Clobber(old(minors), TagAddr(a), 1)
    {
      p := a + MINOR_HEADER + ALIGN_INFO;
      var diff := p % ALIGNMENT;
      if diff != 0 {
        diff := ALIGNMENT - diff;
        p := p + diff;
      }
      bytes := bytes[p - ALIGN_INFO := diff + ALIGN_INFO];
      minors := Clobber(minors, p - ALIGN_INFO, 1);
    }

    /** UNALIGN, then back over the header. */
    method FindHeader(p: nat) returns (h: nat)
      requires p >= ALIGN_INFO && p - ALIGN_INFO in bytes && HeaderOf(bytes, p) >= 0
      ensures h == HeaderOf(bytes, p)
    {
      var diff := bytes[p - ALIGN_INFO];
      var ptr := p;
      if diff < ALIGNMENT + ALIGN_INFO {
        ptr := ptr - diff;
      }
      h := ptr - MINOR_HEADER;
    }

    /** A new major, not linked yet; `page` is what the page source answers. */
    method AllocateNewPage(size: nat, page: nat) returns (maj: nat)
      modifies `majors, `minors, `bytes, `warningCount, `allocatedBytes
      ensures maj == page
      ensures page == NULL ==>
        && majors == old(majors) && minors == old(minors) && bytes == old(bytes)
        && warningCount == old(warningCount) + 1 && allocatedBytes == old(allocatedBytes)
      ensures page != NULL ==>
        && majors == old(majors)[page := MajorHeader(NULL, NULL, PagesFor(size), BytesFor(size), MAJOR_HEADER, NULL)]
        && minors == Clobber(old(minors), page, MAJOR_HEADER)
        && bytes == Forget(old(bytes), page, MAJOR_HEADER)
        && warningCount == old(warningCount) && allocatedBytes == old(allocatedBytes) + BytesFor(size)
    {
      hide Clobber, Forget, PagesFor;
      var st := (size % TWO_32 + MAJOR_HEADER) % TWO_32;
      st := (st + MINOR_HEADER) % TWO_32;
      if st % PAGE_SIZE == 0 {
        st := st / PAGE_SIZE;
      } else {
        st := st / PAGE_SIZE + 1;
      }
      if st < PAGE_COUNT {
        st := PAGE_COUNT;
      }
      assert st == PagesFor(size) by { PagesComputed(size); }
      maj := page;
      if maj == NULL {
        warningCount := warningCount + 1;
        return NULL;
      }
      majors := majors[maj := MajorHeader(NULL, NULL, st, st * PAGE_SIZE % TWO_32, MAJOR_HEADER, NULL)];
      minors := Clobber(minors, maj, MAJOR_HEADER);
      bytes := Forget(bytes, maj, MAJOR_HEADER);
      allocatedBytes := allocatedBytes + majors[maj].size;
    }

    // ----- The placement cases of malloc -----

    /** What all cases do once the new minor is linked in: count it and hand out its payload. */
    method FinishPlacing(maj: nat, a: nat, size: nat, req: nat,
                         ghost s: State, ghost i: nat, ghost k: nat, ghost M: Majors, ghost N: Minors) returns (p: nat)
      requires Shape(s.majs) && CanPlace(s, i, k, size, req) && Repr(s.majs, M, N) && s.dead == DeadOf(N)
      requires maj == s.majs[i].addr && maj in M && a == GapStart(s.majs[i], k)
      requires majors == M[maj := M[maj].(first := if k == 0 then a else M[maj].first)]
      requires minors == Clobber(Relinked(s.majs[i], k, a, N), a, MINOR_HEADER)
                           [a := MinorHeader(MinorAt(s.majs[i], k-1), MinorAt(s.majs[i], k), maj, MAGIC, size, req)]
      requires bytes == Forget(s.bytes, a, MINOR_HEADER) && memRoot == AddrAt(s.majs, 0)
      requires s == State(listed, bestBet, allocatedBytes, inuseBytes, warningCount, errorCount, possibleOverruns,
                          s.bytes, s.dead)
      modifies this
      ensures Linked() && Abs() == PlaceAt(s, i, k, size, req)
      ensures p == Payload(a) && lockQueue == old(lockQueue)
    {
      hide Shape, Repr, Gap, Payload, TagAddr, Tag, Clobber, Forget, Used, DeadOf, Relinked, GapStart;
      majors := majors[maj := majors[maj].(usage := majors[maj].usage + size + MINOR_HEADER)];
      inuseBytes := inuseBytes + size;
      p := Align(a);
      Placed(s, i, k, size, req, M, N, majors, minors);
      listed := PlaceAt(s, i, k, size, req).majs;
    }

    /** Case 2: the first minor of an empty major. */
    method TakeFirst(maj: nat, size: nat, req: nat, ghost i: nat) returns (p: nat)
      requires Linked() && Shape(listed)
      requires CanPlace(Abs(), i, 0, size, req) && maj == listed[i].addr && listed[i].minors == []
      modifies this
      ensures Linked() && Abs() == PlaceAt(old(Abs()), i, 0, size, req)
      ensures p == Payload(GapStart(old(listed[i]), 0)) && lockQueue == old(lockQueue)
    {
      hide Shape, Repr, Gap, Payload, TagAddr, Tag, Clobber, Forget, Used, DeadOf;
      ghost var s := Abs();
      BeforePlacing(s, i, 0, size, req, majors, minors);
      var a := maj + MAJOR_HEADER;
      majors := majors[maj := majors[maj].(first := a)];
      WriteMinor(a, MinorHeader(NULL, NULL, maj, MAGIC, size, req));
      p := FinishPlacing(maj, a, size, req, s, i, 0, old(majors), old(minors));
    }

    /** Case 3: in front of the first minor. */
    method TakeFront(maj: nat, size: nat, req: nat, ghost i: nat) returns (p: nat)
      requires Linked() && Shape(listed)
      requires CanPlace(Abs(), i, 0, size, req) && maj == listed[i].addr && listed[i].minors != []
      modifies this
      ensures Linked() && Abs() == PlaceAt(old(Abs()), i, 0, size, req)
      ensures p == Payload(GapStart(old(listed[i]), 0)) && lockQueue == old(lockQueue)
    {
      hide Shape, Repr, Gap, Payload, TagAddr, Tag, Clobber, Forget, Used, DeadOf;
      ghost var s := Abs();
      BeforePlacing(s, i, 0, size, req, majors, minors);
      var a := maj + MAJOR_HEADER;
      var first := majors[maj].first;
      minors := minors[first := minors[first].(prev := a)];
      WriteMinor(a, MinorHeader(NULL, first, maj, MAGIC, size, req));
      majors := majors[maj := majors[maj].(first := a)];
      p := FinishPlacing(maj, a, size, req, s, i, 0, old(majors), old(minors));
    }

    /** Case 4.1: behind the last minor. */
    method TakeBack(maj: nat, min: nat, size: nat, req: nat, ghost i: nat) returns (p: nat)
      requires Linked() && Shape(listed) && i < |listed| && listed[i].minors != []
      requires CanPlace(Abs(), i, |listed[i].minors|, size, req)
      requires maj == listed[i].addr && min == listed[i].minors[|listed[i].minors|-1].addr
      modifies this
      ensures Linked() && Abs() == PlaceAt(old(Abs()), i, |old(listed)[i].minors|, size, req)
      ensures p == Payload(GapStart(old(listed[i]), |old(listed[i]).minors|)) && lockQueue == old(lockQueue)
    {
      hide Shape, Repr, Gap, Payload, TagAddr, Tag, Clobber, Forget, Used, DeadOf;
      ghost var s := Abs();
      ghost var k := |listed[i].minors|;
      BeforePlacing(s, i, k, size, req, majors, minors);
      var a := min + MINOR_HEADER + minors[min].size;
      minors := minors[min := minors[min].(next := a)];
      WriteMinor(a, MinorHeader(min, NULL, maj, MAGIC, size, req));
      p := FinishPlacing(maj, a, size, req, s, i, k, old(majors), old(minors));
    }

    /** Case 4.2: between two minors. */
    method TakeBetween(maj: nat, min: nat, size: nat, req: nat, ghost i: nat, ghost k: nat) returns (p: nat)
      requires Linked() && Shape(listed) && i < |listed| && 0 < k < |listed[i].minors|
      requires CanPlace(Abs(), i, k, size, req)
      requires maj == listed[i].addr && min == listed[i].minors[k-1].addr
      modifies this
      ensures Linked() && Abs() == PlaceAt(old(Abs()), i, k, size, req)
      ensures p == Payload(GapStart(old(listed[i]), k)) && lockQueue == old(lockQueue)
    {
      hide Shape, Repr, Gap, Payload, TagAddr, Tag, Clobber, Forget, Used, DeadOf, MinorsRepr, MajorsRepr, MagicIsLive,
           Relinked, MajorOk, Room, GapSum;
      ghost var s := Abs();
      BeforePlacing(s, i, k, size, req, majors, minors);
      var a := min + MINOR_HEADER + minors[min].size;
      var next := minors[min].next;
      NeighboursStay(s, i, k, size, req, majors, minors);
      WriteMinor(a, MinorHeader(min, next, maj, MAGIC, size, req));
      minors := minors[next := minors[next].(prev := a)];
      minors := minors[min := minors[min].(next := a)];
      LinkAfterWrite(s, i, k, size, req, old(minors), minors);
      p := FinishPlacing(maj, a, size, req, s, i, k, old(majors), old(minors));
    }

    /** Cases 3 and 4: the lowest gap of a major that has minors, if one is large enough. */
    method TakeGap(maj: nat, size: nat, req: nat, ghost i: nat) returns (p: nat)
      requires Linked() && Shape(listed) && size == req + ALIGNMENT + ALIGN_INFO
      requires i < |listed| && maj == listed[i].addr && listed[i].minors != []
      modifies this
      ensures if Fits(old(listed[i]), Need(req)) then
          Linked() && (Abs(), p) == PlaceIn(old(Abs()), i, req) && p != NULL && lockQueue == old(lockQueue)
        else p == NULL && unchanged(this)
    {
      hide Shape, Repr, Payload, PlaceAt, DeadOf, Used;
      ghost var j := listed[i];
      ReadMajor(listed, majors, minors, i);
      var first := majors[maj].first;
      var diff := first - maj - MAJOR_HEADER;
      if diff >= size + MINOR_HEADER {
        FirstGapIs(j, Need(req), 0);
        p := TakeFront(maj, size, req, i);
        return;
      }
      var min := first;
      ghost var k := 0;
      while min != NULL
        invariant unchanged(this)
        invariant k <= |j.minors| && min == MinorAt(j, k) && (min == NULL <==> k == |j.minors|)
        invariant forall t :: 0 <= t <= k ==> Gap(j, t) < Need(req)
        decreases |j.minors| - k
      {
        ReadMinor(listed, majors, minors, i, k);
        if minors[min].next == NULL {
          diff := maj + majors[maj].size - min - MINOR_HEADER - minors[min].size;
          if diff >= size + MINOR_HEADER {
            FirstGapIs(j, Need(req), k + 1);
            p := TakeBack(maj, min, size, req, i);
            return;
          }
        }
        if minors[min].next != NULL {
          diff := minors[min].next - min - MINOR_HEADER - minors[min].size;
          if diff >= size + MINOR_HEADER {
            FirstGapIs(j, Need(req), k + 1);
            p := TakeBetween(maj, min, size, req, i, k + 1);
            return;
          }
        }
        min := minors[min].next;
        k := k + 1;
      }
      p := NULL;
    }

    /** Cases 2 to 4: use this major if one of its gaps is large enough. */
    method TakeHere(maj: nat, size: nat, req: nat, ghost i: nat) returns (p: nat)
      requires Linked() && Shape(listed) && size == req + ALIGNMENT + ALIGN_INFO
      requires i < |listed| && maj == listed[i].addr
      requires listed[i].minors == [] ==> Fits(listed[i], Need(req))
      modifies this
      ensures if Fits(old(listed[i]), Need(req)) then
          Linked() && (Abs(), p) == PlaceIn(old(Abs()), i, req) && p != NULL && lockQueue == old(lockQueue)
        else p == NULL && unchanged(this)
    {
      hide Shape, Repr, PlaceAt, DeadOf, Used, TagAddr, Tag, Gap;
      ReadMajor(listed, majors, minors, i);
      if majors[maj].first == NULL {
        p := TakeFirst(maj, size, req, i);
      } else {
        p := TakeGap(maj, size, req, i);
      }
    }

    /** A new major behind the last one, maj. */
    method AppendMajor(maj: nat, size: nat, page: nat) returns (added: nat)
      requires Linked() && Shape(listed) && listed != [] && maj == listed[|listed|-1].addr
      requires PageOk(listed, page, size) && size + MAJOR_HEADER + MINOR_HEADER <= TWO_32 - PAGE_SIZE
      modifies this
      ensures Linked() && added == page && bestBet == old(bestBet) && lockQueue == old(lockQueue)
      ensures Abs() == if page == NULL then old(Abs()).(warnings := old(warningCount) + 1)
                       else Grow(old(Abs()), page, size)
    {
      hide Shape, Repr, Clobber, Forget, DeadOf, BytesFor, PagesFor, PageOk, AddrAt;
      ghost var s := Abs();
      ghost var M, N := majors, minors;
      BehindLast(listed, majors, minors, page, size);
      added := AllocateNewPage(size, page);
      majors := majors[maj := majors[maj].(next := added)];
      if added == NULL {
        assert majors == M;
        return;
      }
      majors := majors[added := majors[added].(prev := maj)];
      LastMajorLinked(s, page, size, M, N, majors);
      listed := Grow(s, page, size).majs;
    }

    /** The first major of all. */
    method FirstMajor(size: nat, page: nat) returns (ok: bool)
      requires Linked() && listed == [] && memRoot == NULL
      requires PageOk(listed, page, size) && size + MAJOR_HEADER + MINOR_HEADER <= TWO_32 - PAGE_SIZE
      modifies this
      ensures Linked() && ok == (page != NULL) && bestBet == old(bestBet) && lockQueue == old(lockQueue)
      ensures Abs() == if page == NULL then old(Abs()).(warnings := old(warningCount) + 1)
                       else Grow(old(Abs()), page, size)
    {
      hide Shape, Repr, Clobber, Forget, DeadOf, BytesFor, PagesFor, MajorOk, Usage;
      ghost var s := Abs();
      ghost var M, N := majors, minors;
      memRoot := AllocateNewPage(size, page);
      ok := memRoot != NULL;
      if ok {
        FirstMajorLinked(s, page, size, M, N, majors);
        listed := Grow(s, page, size).majs;
      }
    }

    /** Where the search starts: at the best bet if that has enough free bytes, else at the root.
        s is the heap before a first major was added. */
    method ChooseStart(size: nat, ghost s: State)
      returns (maj: nat, startedBet: bool, bestSize: int, ghost i: nat)
      requires Linked() && Inv(s) && Shape(listed) && listed != [] && bestBet == s.bet
      requires if s.majs == [] then |listed| == 1 else listed == s.majs
      ensures maj != NULL && i < |listed| && maj == AddrAt(listed, i)
      ensures listed == s.majs ==>
        Search(s.majs, size + MINOR_HEADER, i, startedBet, Bet(bestBet, bestSize)) == Find(s, size + MINOR_HEADER)
      ensures s.majs == [] ==>
        i == 0 && !startedBet && (0, Bet(bestBet, bestSize)) == Find(s, size + MINOR_HEADER)
    {
      hide Repr, Shape, Search, Inv;
      ReadMajor(listed, majors, minors, 0);
      if s.majs == [] { FindInNone(s, size + MINOR_HEADER); }
      startedBet := false;
      bestSize := 0;
      maj := memRoot;
      i := 0;
      if bestBet != NULL {
        BetIsRead(s, majors, minors);
        bestSize := majors[bestBet].size - majors[bestBet].usage;
        if bestSize > size + MINOR_HEADER {
          maj := bestBet;
          i := IndexOf(s.majs, bestBet);
          startedBet := true;
        }
      }
    }

    /** malloc(req), with `page` the answer of the page source if it is asked. */
    method Malloc(req: nat, page: nat) returns (p: nat)
      requires Valid() && Sane(req) && PageOk(listed, page, req + ALIGNMENT + ALIGN_INFO)
      modifies this
      ensures Valid() && (Abs(), p) == HeapModel.Malloc(old(Abs()), req, page)
      ensures lockQueue == old(lockQueue)
    {
      hide Shape, Repr, DeadOf, Inv, Sound, PageOk, HeapModel.Malloc, Grow, Find, Search, BytesFor, MajorOk;
      ghost var s := Abs();
      InvGivesShape(s);
      MallocKeepsInv(s, req, page);
      var size := req + ALIGNMENT + ALIGN_INFO;
      Lock();
      ghost var grown := false;
      if memRoot == NULL {
        RootOfNone(listed);
        FindInNone(s, Need(req));
        MallocInOld(s, req, page);
        var ok := FirstMajor(size, page);
        if !ok {
          Unlock();
          return NULL;
        }
        grown := true;
        GrownShape(s, page, size);
      }
      var maj, startedBet, bestSize;
      ghost var i: nat;
      maj, startedBet, bestSize, i := ChooseStart(size, s);
      p := Bounce(maj, startedBet, bestSize, size, req, page, s, grown, i);
      Unlock();
    }

    /** Where the search of Bounce stands: still among the old majors, or at a new major that waits
        for its first minor. */
    ghost predicate Standing(s: State, req: nat, page: nat, grown: bool, i: nat, startedBet: bool, bestSize: int)
      reads this
    {
      var size := req + ALIGNMENT + ALIGN_INFO;
      && Linked() && Shape(listed) && i < |listed|
      && (if grown then
            && page != NULL && i == |s.majs| && !startedBet && listed[i] == NewMajor(page, size)
            && Abs() == Grow(s, page, size).(bet := bestBet)
            && Find(s, Need(req)) == (|s.majs|, Bet(bestBet, bestSize))
            && (|s.majs| > 0 ==> Room(s.majs[|s.majs|-1]) >= Need(req))
          else
            && Abs() == s.(bet := bestBet)
            && Search(s.majs, Need(req), i, startedBet, Bet(bestBet, bestSize)) == Find(s, Need(req)))
    }

    /** The last major, maj, does not do: start over at the root if the search began at the best bet,
        or else get a new major behind it. */
    method AtLast(maj: nat, startedBet: bool, bestSize: int, size: nat, req: nat, page: nat, ghost s: State)
      returns (next: nat, again: bool)
      requires Linked() && Inv(s) && s.majs != [] && maj == s.majs[|s.majs|-1].addr && Abs() == s.(bet := bestBet)
      requires Sane(req) && PageOk(s.majs, page, size) && size == req + ALIGNMENT + ALIGN_INFO
      requires Search(s.majs, Need(req), |s.majs|, startedBet, Bet(bestBet, bestSize)) == Find(s, Need(req))
      modifies this
      ensures again == startedBet && Linked() && bestBet == old(bestBet) && lockQueue == old(lockQueue)
      ensures again ==>
        && Standing(s, req, page, false, 0, false, bestSize)
        && next == AddrAt(listed, 0) != NULL
      ensures !again ==> next == page && Find(s, Need(req)) == (|s.majs|, Bet(bestBet, bestSize))
      ensures !again && page == NULL ==> Abs() == s.(bet := bestBet, warnings := s.warnings + 1)
      ensures !again && page != NULL ==>
        && Shape(listed) && listed == s.majs + [NewMajor(page, size)]
        && Abs() == Grow(s, page, size).(bet := bestBet)
    {
      hide Shape, Repr, DeadOf, Inv, PageOk, BytesFor, PagesFor, Grow, Search, Find;
      InvGivesShape(s);
      SearchEnds(s.majs, Need(req), Bet(bestBet, bestSize));
      again := startedBet;
      if startedBet {
        RootIsNotNull(listed);
        return memRoot, true;
      }
      GrowBet(s, page, size, bestBet);
      next := AppendMajor(maj, size, page);
      if next != NULL { GrownShape(s, page, size); }
    }

    /** The search through the majors, from maj on. */
    method Bounce(start: nat, started: bool, best: int, size: nat, req: nat, page: nat,
                  ghost s: State, ghost grownBefore: bool, ghost at: nat) returns (p: nat)
      requires Inv(s) && Sane(req) && PageOk(s.majs, page, size) && size == req + ALIGNMENT + ALIGN_INFO
      requires Standing(s, req, page, grownBefore, at, started, best)
      requires start == AddrAt(listed, at) && start != NULL
      modifies this
      ensures Linked() && (Abs(), p) == HeapModel.Malloc(s, req, page)
      ensures lockQueue == old(lockQueue)
    {
      hide Shape, Repr, DeadOf, Used, Inv, Sound, PageOk, Fits, FirstGap, Usage, BytesFor, PagesFor, MajorOk,
           PlaceIn, Find, HeapModel.Malloc, Prepare, Grow, MinorAt;
      var maj, startedBet, bestSize := start, started, best;
      ghost var i, grown := at, grownBefore;
      FreeOfNew(page, req);
      while maj != NULL
        invariant Standing(s, req, page, grown, i, startedBet, bestSize)
        invariant maj == AddrAt(listed, i) && maj != NULL && lockQueue == old(lockQueue)
        decreases startedBet, !grown, |listed| - i
      {
        ReadMajor(listed, majors, minors, i);
        var diff := majors[maj].size - majors[maj].usage;
        if bestSize < diff {
          bestBet := maj;
          bestSize := diff;
        }
        if diff < size + MINOR_HEADER {
          // Case 1: not enough space in this major.
          NoGapHere(listed, majors, minors, i, Need(req));
          if majors[maj].next != NULL {
            maj := majors[maj].next;
            i := i + 1;
            continue;
          }
          var added, again := AtLast(maj, startedBet, bestSize, size, req, page, s);
          if again {
            maj := added;
            i := 0;
            startedBet := false;
            continue;
          }
          if added == NULL {
            break;
          }
          maj := added;
          i := i + 1;
          grown := true;
        }
        if !grown { OnlyNewIsEmpty(s, i); }
        MallocInNew(s, req, page);
        p := TakeHere(maj, size, req, i);
        if p != NULL {
          MallocInOld(s, req, page);
          return;
        }
        // Case 5: no gap in this major.
        if majors[maj].next == NULL {
          var added, again := AtLast(maj, startedBet, bestSize, size, req, page, s);
          if again {
            maj := added;
            i := 0;
            startedBet := false;
            continue;
          }
          if added == NULL {
            break;
          }
          grown := true;
          ReadMajor(listed, majors, minors, i);
        }
        maj := majors[maj].next;
        i := i + 1;
      }
      MallocInOld(s, req, page);
      p := NULL;
    }

    // ----- free -----

    /** Take minor (i, k) out of its major's list. */
    method UnlinkMinor(min: nat, maj: nat, ghost j: Major, ghost k: nat)
      requires CanUnlink(j, k, majors, minors) && min == j.minors[k].addr && maj == j.addr
      modifies `majors, `minors, `inuseBytes
      ensures inuseBytes == old(inuseBytes) - j.minors[k].size
      ensures minors == UnlinkedMinors(j, k, old(minors))
      ensures majors == old(majors)[maj := UnlinkedMajor(j, k, old(majors)[maj])]
    {
      inuseBytes := inuseBytes - minors[min].size;
      majors := majors[maj := majors[maj].(usage := majors[maj].usage - (minors[min].size + MINOR_HEADER))];
      minors := minors[min := minors[min].(magic := DEAD)];
      var next, prev := minors[min].next, minors[min].prev;
      if next != NULL {
        minors := minors[next := minors[next].(prev := prev)];
      }
      if prev != NULL {
        minors := minors[prev := minors[prev].(next := next)];
      }
      if prev == NULL {
        majors := majors[maj := majors[maj].(first := next)];
      }
    }

    /** Give back major i, whose only minor was just unlinked. */
    method ReleaseMajor(maj: nat, ghost majs: seq<Major>, ghost i: nat)
      requires i < |majs| && maj == majs[i].addr && maj in majors && majors[maj].size == majs[i].size
      requires majors[maj].prev == AddrAt(majs, i-1) && majors[maj].next == AddrAt(majs, i+1)
      requires i > 0 <==> AddrAt(majs, i-1) != NULL
      requires i + 1 < |majs| <==> AddrAt(majs, i+1) != NULL
      requires i > 0 ==> AddrAt(majs, i-1) in majors && AddrAt(majs, i-1) != AddrAt(majs, i+1)
      requires i + 1 < |majs| ==> AddrAt(majs, i+1) in majors
      modifies `majors, `minors, `bytes, `memRoot, `bestBet, `allocatedBytes
      ensures majors == ReleasedMajors(majs, i, old(majors))
      ensures memRoot == if old(memRoot) == maj then AddrAt(majs, i+1) else old(memRoot)
      ensures bestBet == if old(bestBet) == maj then NULL else old(bestBet)
      ensures allocatedBytes == old(allocatedBytes) - majs[i].size
      ensures minors == Clobber(old(minors), maj, majs[i].size)
      ensures bytes == Forget(old(bytes), maj, majs[i].size)
    {
      hide Clobber, Forget, AddrAt;
      var size, prev, next := majors[maj].size, majors[maj].prev, majors[maj].next;
      if memRoot == maj {
        memRoot := next;
      }
      if bestBet == maj {
        bestBet := NULL;
      }
      if prev != NULL {
        majors := majors[prev := majors[prev].(next := next)];
      }
      if next != NULL {
        majors := majors[next := majors[next].(prev := prev)];
      }
      allocatedBytes := allocatedBytes - size;
      ReturnPages(maj, size);
    }

    /** After unlinking minor (i, k) of s: its major becomes the best bet if it now has more free
        bytes than the best bet. */
    method CompareBet(maj: nat, ghost s: State, ghost i: nat, ghost k: nat)
      requires Inv(s) && i < |s.majs| && k < |s.majs[i].minors| && |s.majs[i].minors| > 1
      requires listed == Unlink(s, i, k).majs && Repr(listed, majors, minors)
      requires bestBet == s.bet && maj == s.majs[i].addr
      modifies `bestBet
      ensures bestBet == BetAfter(listed, i, s.bet)
    {
      hide Repr, Inv, Room, IndexOf;
      if bestBet != NULL {
        BetAfterUnlink(s, i, k, majors, minors);
        var bestSize := ToInt32(majors[bestBet].size - majors[bestBet].usage);
        var majSize := ToInt32(majors[maj].size - majors[maj].usage);
        if majSize > bestSize {
          bestBet := maj;
        }
      }
    }

    /** Free the live minor whose header is at min. */
    method FreeMinor(min: nat)
      requires Linked() && Inv(Abs()) && Live(listed, min)
      modifies this
      ensures var (i, k) := Locate(old(listed), min);
        Linked() && Abs() == FreeAt(old(Abs()), i, k) && lockQueue == old(lockQueue)
    {
      hide Repr, Inv, Shape, Usage, DeadOf, Clobber, Forget, UnlinkedMinors, MajorLinkedOut, RemoveAt, MajorsRepr,
           MinorsRepr, MagicIsLive, MajorOk, CanUnlink, HeaderOf, Room, Release, Unlink;
      ghost var s := Abs();
      ghost var M, N := majors, minors;
      ghost var (i, k) := Locate(listed, min);
      InvGivesShape(s);
      BeforeFree(s, i, k, M, N);
      var maj := minors[min].block;
      UnlinkMinor(min, maj, listed[i], k);
      if majors[maj].first == NULL {
        DropMajor(maj, s, i, M, N);
      } else {
        KeepMajor(maj, s, i, k, M, N);
      }
    }

    /** Minor (i, k) of s was unlinked, and nothing else was done yet. */
    ghost predicate JustUnlinked(s: State, i: nat, k: nat, M: Majors, N: Minors)
      requires i < |s.majs| && k < |s.majs[i].minors|
      reads this
    {
      var j := s.majs[i];
      && CanUnlink(j, k, M, N) && memRoot == AddrAt(s.majs, 0)
      && majors == M[j.addr := UnlinkedMajor(j, k, M[j.addr])] && minors == UnlinkedMinors(j, k, N)
      && State(listed, bestBet, allocatedBytes, inuseBytes + j.minors[k].size,
               warningCount, errorCount, possibleOverruns, bytes, DeadOf(N)) == s
    }

    /** No minor is left in major i. */
    method DropMajor(maj: nat, ghost s: State, ghost i: nat, ghost M: Majors, ghost N: Minors)
      requires i < |s.majs| && |s.majs[i].minors| == 1 && maj == s.majs[i].addr
      requires Inv(s) && Repr(s.majs, M, N) && JustUnlinked(s, i, 0, M, N)
      modifies this
      ensures Linked() && Abs() == Release(s, i) && lockQueue == old(lockQueue)
    {
      hide Repr, Inv, Shape, Usage, DeadOf, Clobber, Forget, UnlinkedMinors, MajorLinkedOut, RemoveAt, MajorsRepr,
           MinorsRepr, MagicIsLive, MajorOk, ReleasedMajors, Room;
      InvGivesShape(s);
      BeforeFree(s, i, 0, M, N);
      BeforeRelease(listed, i, M, majors[maj]);
      ReleasedLinks(listed, i, M, majors[maj]);
      ReleaseMajor(maj, listed, i);
      Released(s, i, M, N, majors);
      listed := Release(s, i).majs;
    }

    /** Major i has other minors. */
    method KeepMajor(maj: nat, ghost s: State, ghost i: nat, ghost k: nat, ghost M: Majors, ghost N: Minors)
      requires i < |s.majs| && k < |s.majs[i].minors| && |s.majs[i].minors| > 1 && maj == s.majs[i].addr
      requires Inv(s) && Repr(s.majs, M, N) && JustUnlinked(s, i, k, M, N)
      modifies this
      ensures Linked() && Abs() == Unlink(s, i, k) && lockQueue == old(lockQueue)
    {
      hide Repr, Inv, Shape, Usage, DeadOf, Clobber, Forget, UnlinkedMinors, MajorsRepr, MinorsRepr, MagicIsLive,
           MajorOk, Without, BetAfter, Room;
      InvGivesShape(s);
      BeforeFree(s, i, k, M, N);
      Unlinked(s, i, k, M, N);
      UnlinkKeepsAddrs(s, i, k);
      listed := Unlink(s, i, k).majs;
      CompareBet(maj, s, i, k);
    }

    /** A header without the magic number: count the error, and an overrun if it looks like one. */
    method NoteBadMagic(magic: nat)
      modifies `errorCount, `possibleOverruns
      ensures errorCount == old(errorCount) + 1
      ensures possibleOverruns == old(possibleOverruns) + if LooksOverrun(magic) then 1 else 0
    {
      errorCount := errorCount + 1;
      if magic % 0x100_0000 == MAGIC % 0x100_0000 || magic % 0x1_0000 == MAGIC % 0x1_0000
         || magic % 0x100 == MAGIC % 0x100
      {
        possibleOverruns := possibleOverruns + 1;
      }
    }

    method Free(p: nat)
      requires Valid() && (p == NULL || Headed(Abs(), p))
      modifies this
      ensures Valid() && Abs() == FreePtr(old(Abs()), p) && lockQueue == old(lockQueue)
    {
      hide Repr, Inv, DeadOf, FreeAt, LooksOverrun;
      FreePtrKeepsInv(Abs(), p);
      if p == NULL {
        warningCount := warningCount + 1;
        return;
      }
      HeadedIsStored(Abs(), p, majors, minors);
      var min := FindHeader(p);
      Lock();
      if minors[min].magic != MAGIC {
        NoteBadMagic(minors[min].magic);
        Unlock();
        return;
      }
      FreeMinor(min);
      Unlock();
    }

    // ----- realloc -----

    /** liballoc_memcpy: words of four bytes as long as they last, then single bytes. */
    method MemCopy(dst: nat, src: nat, n: nat)
      requires dst <= src || src + WORD <= dst
      modifies `bytes, `minors
      ensures bytes == CopyBytes(old(bytes), dst, src, n)
      ensures minors == Clobber(old(minors), dst, n)
    {
      hide Clobber, CopyBytes, CopyWord;
      var left, d, s := n, dst, src;
      NothingCopied(bytes, minors, dst, src);
      while left >= WORD
        invariant 0 <= left <= n && d == dst + (n - left) && s == src + (n - left)
        invariant bytes == CopyBytes(old(bytes), dst, src, n - left)
        invariant minors == Clobber(old(minors), dst, n - left)
      {
        CopyMore(old(bytes), old(minors), dst, src, n - left, WORD);
        WordIsFourBytes(bytes, d, s);
        bytes := CopyWord(bytes, d, s);
        minors := Clobber(minors, d, WORD);
        d, s, left := d + WORD, s + WORD, left - WORD;
      }
      while left > 0
        invariant 0 <= left <= n && d == dst + (n - left) && s == src + (n - left)
        invariant bytes == CopyBytes(old(bytes), dst, src, n - left)
        invariant minors == Clobber(old(minors), dst, n - left)
      {
        CopyMore(old(bytes), old(minors), dst, src, n - left, 1);
        OneByte(bytes, d, s);
        bytes := CopyByte(bytes, d, s);
        minors := Clobber(minors, d, 1);
        d, s, left := d + 1, s + 1, left - 1;
      }
    }

    method Realloc(p: nat, size: nat, page: nat) returns (q: nat)
      requires Valid() && ReallocOk(Abs(), p, size, page)
      modifies this
      ensures Valid() && (Abs(), q) == HeapModel.Realloc(old(Abs()), p, size, page)
      ensures lockQueue == old(lockQueue)
    {
      hide Repr, Inv, DeadOf, FreeAt, LooksOverrun, HeapModel.Malloc, PageOk, Sane, HasGap, Copy, FreePtr, Payload,
           Shape, MinorsRepr;
      ghost var s := Abs();
      ReallocKeepsInv(s, p, size, page);
      if size == 0 {
        Free(p);
        return NULL;
      }
      if p == NULL {
        q := Malloc(size, page);
        return;
      }
      HeadedIsStored(s, p, majors, minors);
      var min := FindHeader(p);
      Lock();
      if minors[min].magic != MAGIC {
        NoteBadMagic(minors[min].magic);
        Unlock();
        return NULL;
      }
      ghost var (x, y) := Locate(listed, min);
      InvGivesShape(s);
      ReadMinor(listed, majors, minors, x, y);
      var realSize := minors[min].req;
      if realSize >= size {
        ResizeRepr(s, x, y, size, majors, minors);
        minors := minors[min := minors[min].(req := size)];
        listed := Resize(s, x, y, size).majs;
        Unlock();
        return p;
      }
      Unlock();
      q := MoveTo(p, size, page, realSize);
    }

    /** Take new memory, copy, and free the old minor; the copy goes to NULL if there was no memory. */
    method MoveTo(p: nat, size: nat, page: nat, realSize: nat) returns (q: nat)
      requires Valid() && ReallocOk(Abs(), p, size, page) && Moves(Abs(), p, size)
      requires realSize == OldSize(Abs(), p)
      modifies this
      ensures Valid() && (Abs(), q) == HeapModel.Realloc(old(Abs()), p, size, page)
      ensures lockQueue == old(lockQueue)
    {
      hide Repr, Inv, DeadOf, HeapModel.Malloc, HeapModel.Realloc, ReallocOk, PageOk, Sane, CopyBytes, Clobber, FreePtr,
           OldSize, Headed;
      ghost var s := Abs();
      FreeOfMoved(s, p, size, page);
      MoveFits(s, p, size, page);
      q := Malloc(size, page);
      BeforeCopy(s, p, size, page, majors, minors);
      MemCopy(q, p, realSize);
      Free(p);
    }

    // ----- The program that uses the heap -----

    /** A write by the user of minor (i, k). */
    method Store(x: nat, v: nat, ghost i: nat, ghost k: nat)
      requires Valid() && InPayload(listed, i, k, x)
      modifies `bytes, `minors
      ensures Valid() && Abs() == HeapModel.Store(old(Abs()), x, v)
    {
      hide Repr, Inv, DeadOf, Clobber;
      InvGivesShape(Abs());
      StoreKeepsInv(Abs(), i, k, x, v);
      PayloadWriteRepr(Abs(), majors, minors, i, k, x, 1);
      bytes := bytes[x := v];
      minors := Clobber(minors, x, 1);
    }
  }

  lemma MoveFits(s: State, p: nat, size: nat, page: nat)
    requires ReallocOk(s, p, size, page)
    ensures Sane(size) && PageOk(s.majs, page, size + ALIGNMENT + ALIGN_INFO)
  {
  }

  /** After the inner malloc of a realloc: the copy goes upwards or past its source, and leaves all
      headers of live minors alone. */
  lemma BeforeCopy(s: State, p: nat, size: nat, page: nat, M: Majors, N: Minors)
    requires Inv(s) && ReallocOk(s, p, size, page) && Moves(s, p, size)
    requires var s1 := HeapModel.Malloc(s, size, page).0; Repr(s1.majs, M, N) && s1.dead == DeadOf(N)
    ensures var (s1, q) := HeapModel.Malloc(s, size, page); var n := OldSize(s, p);
      && (q <= p || p + WORD <= q)
      && Inv(Copy(s1, q, p, n)) && Repr(s1.majs, M, Clobber(N, q, n))
      && DeadOf(Clobber(N, q, n)) == Copy(s1, q, p, n).dead
  {
    hide Inv, Repr, Shape, HeapModel.Malloc, HeapModel.Realloc, CopyBytes, Clobber, DeadOf, FreeAt, PageOk,
         Sane, HasGap;
    var (s1, q) := HeapModel.Malloc(s, size, page);
    if Granted(s, size, page) {
      var x, y, k, ni, nk := ReallocMoves(s, p, size, page);
      InvGivesShape(s1);
      CopyIsPrivate(s1, x, k, ni, nk, p);
      PayloadWriteRepr(s1, M, N, ni, nk, q, OldSize(s, p));
      MinorsApart(s1.majs, x, k, ni, nk);
      PayloadInside(s1.majs[ni].minors[nk]);
    } else {
      var x, y := ReallocRefused(s, p, size, page);
      InvGivesShape(s1);
      CopyLow(s1, x, y, p);
      LowWriteRepr(s1.majs, M, N, OldSize(s, p));
    }
  }

  lemma BeforeRelease(majs: seq<Major>, i: nat, M: Majors, h: MajorHeader)
    requires Shape(majs) && MajorsRepr(majs, M) && i < |majs|
    requires h.prev == AddrAt(majs, i-1) && h.next == AddrAt(majs, i+1)
    ensures var M' := M[majs[i].addr := h];
      && (i > 0 <==> AddrAt(majs, i-1) != NULL)
      && (i + 1 < |majs| <==> AddrAt(majs, i+1) != NULL)
      && (i > 0 ==> AddrAt(majs, i-1) in M' && AddrAt(majs, i-1) != AddrAt(majs, i+1))
      && (i + 1 < |majs| ==> AddrAt(majs, i+1) in M')
    ensures majs[i].addr == AddrAt(majs, 0) <==> i == 0
    ensures AddrAt(RemoveAt(majs, i), 0) == if i == 0 then AddrAt(majs, 1) else AddrAt(majs, 0)
  {
    if i > 0 { MajorsApart(majs, 0, i); }
    if i > 0 && i + 1 < |majs| { MajorsApart(majs, i-1, i+1); }
  }

  lemma BeforeFree(s: State, i: nat, k: nat, M: Majors, N: Minors)
    requires Shape(s.majs) && Repr(s.majs, M, N) && i < |s.majs| && k < |s.majs[i].minors|
    ensures CanUnlink(s.majs[i], k, M, N) && MajorsRepr(s.majs, M)
    ensures M[s.majs[i].addr] == MajorImage(s.majs, i) && N[s.majs[i].minors[k].addr] == MinorImage(s.majs[i], k)
    ensures s.majs[i].minors[k].addr in N && s.majs[i].addr in M
    ensures M[s.majs[i].addr].usage >= s.majs[i].minors[k].size + MINOR_HEADER
    ensures UnlinkedMajor(s.majs[i], k, M[s.majs[i].addr]).first == NULL <==> |s.majs[i].minors| == 1
  {
    hide Shape, MinorsRepr, MagicIsLive;
    BeforeUnlink(s.majs, M, N, i, k);
    ShapeGivesMajor(s.majs, i);
    if |s.majs[i].minors| > 1 { MinorInMajor(s.majs[i], 1); }
    MinorInMajor(s.majs[i], 0);
  }

  lemma BetAfterUnlink(s: State, i: nat, k: nat, M: Majors, N: Minors)
    requires Inv(s) && i < |s.majs| && k < |s.majs[i].minors| && |s.majs[i].minors| > 1 && s.bet != NULL
    requires Repr(Unlink(s, i, k).majs, M, N)
    ensures var majs' := Unlink(s, i, k).majs; var b := IndexOf(majs', s.bet);
      && b < |majs'| && s.bet in M && M[s.bet].size - M[s.bet].usage == Room(majs'[b])
      && majs'[i].addr == s.majs[i].addr && majs'[i].addr in M
      && M[majs'[i].addr].size - M[majs'[i].addr].usage == Room(majs'[i])
  {
    hide Repr, Shape, TagsOk, Unlink;
    var majs' := Unlink(s, i, k).majs;
    FreeKeepsShape(s, i, k);
    UnlinkKeepsAddrs(s, i, k);
    var t :| 0 <= t < |s.majs| && s.majs[t].addr == s.bet;
    IndexOfMajor(majs', t);
    ReadMajor(majs', M, N, t);
    ReadMajor(majs', M, N, i);
  }

  lemma UnlinkKeepsAddrs(s: State, i: nat, k: nat)
    requires i < |s.majs| && k < |s.majs[i].minors|
    ensures |Unlink(s, i, k).majs| == |s.majs|
    ensures forall t :: 0 <= t < |s.majs| ==> Unlink(s, i, k).majs[t].addr == s.majs[t].addr
  {
  }

  lemma PagesComputed(size: nat)
    ensures var st := ((size % TWO_32 + MAJOR_HEADER) % TWO_32 + MINOR_HEADER) % TWO_32;
      var pages := if st % PAGE_SIZE == 0 then st / PAGE_SIZE else st / PAGE_SIZE + 1;
      PagesFor(size) == if pages < PAGE_COUNT then PAGE_COUNT else pages
  {
    assert ((size % TWO_32 + MAJOR_HEADER) % TWO_32 + MINOR_HEADER) % TWO_32
        == (size % TWO_32 + MAJOR_HEADER + MINOR_HEADER) % TWO_32;
  }

  lemma SearchEnds(majs: seq<Major>, need: nat, b: Bet)
    ensures Search(majs, need, |majs|, false, b) == (|majs|, b)
    ensures Search(majs, need, |majs|, true, b) == Search(majs, need, 0, false, b)
  {
  }

  lemma GrowBet(s: State, page: nat, size: nat, bet: nat)
    ensures Grow(s.(bet := bet), page, size) == Grow(s, page, size).(bet := bet)
  {
  }

  lemma FindInNone(s: State, need: nat)
    requires Inv(s) && s.majs == []
    ensures s.bet == NULL && Find(s, need) == (0, Bet(NULL, 0))
  {
  }

  lemma GrownShape(s: State, page: nat, size: nat)
    requires Inv(s) && page != NULL && PageOk(s.majs, page, size)
    requires size + MAJOR_HEADER + MINOR_HEADER <= TWO_32 - PAGE_SIZE
    ensures Shape(Grow(s, page, size).majs)
    ensures Grow(s, page, size).majs == s.majs + [NewMajor(page, size)] && NewMajor(page, size).minors == []
  {
    hide Shape, PageOk;
    GrowKeepsSound(s, page, size);
  }

  lemma OnlyNewIsEmpty(s: State, i: nat)
    requires Inv(s) && i < |s.majs|
    ensures s.majs[i].minors != []
  {
  }

  /** A malloc that found a place in an old major, or none and is refused. */
  lemma MallocInOld(s: State, req: nat, page: nat)
    requires Inv(s)
    ensures var (i, b) := Find(s, Need(req));
      && i <= |s.majs|
      && (i < |s.majs| ==>
            Fits(s.majs[i], Need(req)) && HeapModel.Malloc(s, req, page) == PlaceIn(s.(bet := b.addr), i, req))
      && (i == |s.majs| && page == NULL ==>
            HeapModel.Malloc(s, req, page) == (s.(bet := b.addr, warnings := s.warnings + 1), NULL))
  {
    hide PlaceIn, Inv;
    FindIsComplete(s, Need(req));
  }

  /** A malloc that makes a new major places the minor there. */
  lemma MallocInNew(s: State, req: nat, page: nat)
    requires Inv(s) && Sane(req)
    ensures var (i, b) := Find(s, Need(req));
      var size := req + ALIGNMENT + ALIGN_INFO; var n := |s.majs|;
      var bet := if n > 0 && Room(s.majs[n-1]) < Need(req) then b.addr else Step(b, NewMajor(page, size)).addr;
      && Fits(NewMajor(page, size), Need(req))
      && (i == n && page != NULL ==>
            HeapModel.Malloc(s, req, page) == PlaceIn(Grow(s, page, size).(bet := bet), n, req))
  {
    hide PlaceIn, Inv, FirstGap, Sane;
    FirstGapOfNew(page, req);
  }

  lemma FirstGapOfNew(page: nat, req: nat)
    requires Sane(req)
    ensures var j := NewMajor(page, req + ALIGNMENT + ALIGN_INFO);
      FirstGap(j, Need(req), 0) == 0 && Gap(j, 0) >= Need(req)
  {
    FreeOfNew(page, req);
    assert Used([]) == 0;
  }

  lemma RootIsNotNull(majs: seq<Major>)
    requires Shape(majs) && majs != []
    ensures AddrAt(majs, 0) != NULL
  {
  }

  lemma RootOfNone(majs: seq<Major>)
    requires Shape(majs) && AddrAt(majs, 0) == NULL
    ensures majs == []
  {
  }

  lemma FreeOfNew(page: nat, req: nat)
    requires Sane(req)
    ensures Room(NewMajor(page, req + ALIGNMENT + ALIGN_INFO)) >= Need(req)
  {
    var size := req + ALIGNMENT + ALIGN_INFO;
    assert BytesFor(size) >= size + MAJOR_HEADER + MINOR_HEADER;
    assert Used([]) == 0;
  }

  lemma BetIsRead(s: State, M: Majors, N: Minors)
    requires Inv(s) && Repr(s.majs, M, N) && s.bet != NULL
    ensures var i := IndexOf(s.majs, s.bet);
      && i < |s.majs| && s.majs[i].addr == s.bet && s.bet in M
      && M[s.bet].size - M[s.bet].usage == Room(s.majs[i]) >= 0
  {
    var i :| 0 <= i < |s.majs| && s.majs[i].addr == s.bet;
    IndexOfMajor(s.majs, i);
    ReadMajor(s.majs, M, N, i);
  }
}
