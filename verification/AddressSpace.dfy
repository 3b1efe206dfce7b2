/** kernel/mem/vmm.c: get_next_level, map_vmm and the first loop of init_vmm, over an array of
    64-bit words of physical memory and the page allocator of PageBitmap. */
module AddressSpace {
  import opened Words
  import opened Bits
  import opened PageBitmap
  import opened PageTables

  const KERNEL_VIRTUAL_START: nat := 0xffff_ffff_8010_0000

  function Flags(isUser: bool): nat { Or(0x5, Shl(if isUser then 1 else 0, 1)) }

  function LeafEntry(physaddr: nat, isUser: bool): nat { Or(physaddr, Flags(isUser)) }

  /** A leaf entry has the bits of the physical address, and those for present and user; the one for
      write exactly if isUser is set, or the address has it. */
  lemma LeafEntryBits(physaddr: nat, isUser: bool, k: nat)
    ensures Bit(LeafEntry(physaddr, isUser), k) <==> Bit(physaddr, k) || k == 0 || k == 2 || (k == 1 && isUser)
  {
    hide Or;
    LeafEntryIsPresent(physaddr, isUser);
    OrBit(physaddr, Flags(isUser), k);
    SevenBits(k);
    FiveBits(k);
  }

  lemma FiveBits(k: nat)
    ensures Bit(5, k) <==> k == 0 || k == 2
  {
    if k > 2 {
      HighBitsClear(5, 3, k);
    } else {
      assert Bit(5, 0) && !Bit(5 / 2, 0) && Bit(5 / 2 / 2, 0);
    }
  }

  /** One page mapped to a leaf entry. */
  datatype Update = Update(page: nat, entry: nat)

  class Vmm {
    var mem: array<nat>
    var pmm: Pmm
    var root: nat
    ghost var dir: Dir

    /** The updates made since the root was. */
    ghost var log: seq<Update>

    /** Every frame that the allocator can hand out is in memory and can be reached through the
        window. */
    ghost predicate Owned()
      reads this, pmm
    {
      && pmm.Valid() && mem as object != pmm.bitmap
      && pmm.usablePages <= WINDOW_FRAMES && pmm.usablePages * ENTRIES <= mem.Length
    }

    constructor (pmm: Pmm, mem: array<nat>)
      requires pmm.Valid() && mem as object != pmm.bitmap
      requires pmm.usablePages <= WINDOW_FRAMES && pmm.usablePages * ENTRIES <= mem.Length
      ensures Owned() && this.pmm == pmm && this.mem == mem
    {
      this.pmm, this.mem, root, dir, log := pmm, mem, 0, map[], [];
    }

    /** The tables form a tree of used frames. */
    ghost predicate Linked()
      reads this, pmm, pmm.bitmap, mem
    {
      && Owned()
      && Tree(mem[..], dir, root, pmm.Clear())
    }

    /** The tables form a tree, and translate as all the updates so far say. */
    ghost predicate Valid()
      reads this, pmm, pmm.bitmap, mem
    {
      Linked() && Follows(mem[..], root, log)
    }

    /** What a hardware walk of the tables finds for an address. */
    ghost function Translate(v: nat): Option<nat>
      reads this, mem
    {
      Walk(mem[..], root, v)
    }

    /** memset(table, 0, PAGE_SIZE). */
    method ZeroTable(level: nat, ghost frame: nat)
      requires LeadsTo(level, frame) && InMemory(mem[..], frame)
      modifies mem
      ensures forall i :: 0 <= i < ENTRIES ==> mem[Word(frame, i)] == 0
      ensures forall w :: 0 <= w < mem.Length && !(Word(frame, 0) <= w < Word(frame, ENTRIES)) ==> mem[w] == old(mem[w])
    {
      hide LeadsTo, Cell;
      var i := 0;
      while i < ENTRIES
        invariant i <= ENTRIES
        invariant forall k :: 0 <= k < i ==> mem[Word(frame, k)] == 0
        invariant forall w :: 0 <= w < mem.Length && !(Word(frame, 0) <= w < Word(frame, i)) ==> mem[w] == old(mem[w])
      {
        CellIsWord(level, frame, i);
        mem[Cell(level, i)] := 0;
        i := i + 1;
      }
    }

    /** A new address space: a root table of its own in which nothing is mapped.  The root is reached
        at its physical address.  False stands for the assertion of the page allocator. */
    method NewRoot() returns (ok: bool)
      requires Owned()
      modifies this, pmm, pmm.bitmap, mem
      ensures mem == old(mem) && pmm == old(pmm) && pmm.bitmap == old(pmm.bitmap)
      ensures pmm.usablePages == old(pmm.usablePages)
      ensures ok <==> !NoneFree(old(pmm.Clear()), pmm.usablePages)
      ensures ok ==> Valid() && dir == map[ROOT := root] && log == []
      ensures ok ==> Grown(map[], old(pmm.Clear()), dir, pmm.Clear()) && forall v :: Translate(v) == None
    {
      ghost var clear := pmm.Clear();
      var page := pmm.AllocPages(1);
      OneOrNone(clear, old(pmm.lastFreePage), pmm.usablePages, page);
      if page == None {
        return false;
      }
      root := page.value;
      ZeroTable(root * PAGE_SIZE, root);
      dir, log := map[ROOT := root], [];
      FreshRoot(mem[..], root, pmm.Clear());
      ok := true;
    }

    /** The table below entry `index` of table t, made if it is not there.  None stands for the
        assertion of the page allocator. */
    method GetNextLevel(level: nat, index: nat, ghost t: Table) returns (next: Option<nat>)
      requires Linked() && t in dir && t.level >= 2 && LeadsTo(level, dir[t]) && index < ENTRIES
      modifies this, pmm, pmm.bitmap, mem
      ensures Kept(old(mem), old(pmm), old(pmm.bitmap), old(pmm.usablePages), old(root), old(log)) && Linked()
      ensures SameWalks(old(mem[..]), mem[..], root)
      ensures SameRights(old(mem[..]), mem[..], root)
      ensures Grown(old(dir), old(pmm.Clear()), dir, pmm.Clear())
      ensures next == None ==> NoneFree(pmm.Clear(), pmm.usablePages)
      ensures next.Some? ==> Child(t, index) in dir && LeadsTo(next.value, dir[Child(t, index)])
    {
      hide Walk, IsPresent, TableEntry, Tree, LeadsTo, Cell, Window, ClearPages, SameRights;
      ghost var m, d, c := mem[..], dir, pmm.Clear();
      TableInUse(mem[..], dir, root, pmm.Clear(), t);
      CellIsWord(level, dir[t], index);
      ChildOrNone(mem[..], dir, root, pmm.Clear(), t, index);
      GrownByNothing(mem[..], dir, root, pmm.Clear());
      var e := mem[Cell(level, index)];
      if IsPresent(e) {
        next := Some((And(e, ADDRESS_MASK) + MEM_PHYS_OFFSET) % TWO_64);
      } else {
        next := AddTable(level, index, t);
      }
      SameWalksSameRights(m, d, c, mem[..], dir, pmm.Clear(), root);
    }

    /** A new table of zeroes below entry `index` of table t. */
    method AddTable(level: nat, index: nat, ghost t: Table) returns (next: Option<nat>)
      requires Linked() && t in dir && t.level >= 2 && LeadsTo(level, dir[t]) && index < ENTRIES
      requires Child(t, index) !in dir && InMemory(mem[..], dir[t])
      modifies this, pmm, pmm.bitmap, mem
      ensures Kept(old(mem), old(pmm), old(pmm.bitmap), old(pmm.usablePages), old(root), old(log)) && Linked()
      ensures SameWalks(old(mem[..]), mem[..], root)
      ensures Grown(old(dir), old(pmm.Clear()), dir, pmm.Clear())
      ensures next == None ==> NoneFree(pmm.Clear(), pmm.usablePages)
      ensures next.Some? ==> Child(t, index) in dir && LeadsTo(next.value, dir[Child(t, index)])
    {
      hide Walk, IsPresent, TableEntry, Tree, Answer, ClearPages, LeadsTo, Cell, Window, Grown, ChildAdded;
      ghost var m, clear := mem[..], pmm.Clear();
      TableInUse(m, dir, root, clear, t);
      GrownByNothing(m, dir, root, clear);
      var page := pmm.AllocPages(1);
      OneOrNone(clear, old(pmm.lastFreePage), pmm.usablePages, page);
      if page == None {
        return None;
      }
      ghost var f := page.value;
      WindowLeadsIff(f);
      var table := Window(page.value);
      HangTable(level, index, table, t, f);
      AddKeepsTree(m, mem[..], dir, root, clear, t, index, f);
      forall v ensures Walk(mem[..], root, v) == Walk(m, root, v) {
        AddKeepsWalks(m, mem[..], dir, root, clear, t, index, f, v);
      }
      GrownByOne(m, dir, root, clear, Child(t, index), f);
      dir := dir[Child(t, index) := f];
      next := Some(table);
    }

    /** Zero the table in frame f and enter it at `index` of table t. */
    method HangTable(level: nat, index: nat, table: nat, ghost t: Table, ghost f: nat)
      requires t in dir && LeadsTo(level, dir[t]) && index < ENTRIES && InMemory(mem[..], dir[t]) && f != dir[t]
      requires f < WINDOW_FRAMES && table == Window(f) && LeadsTo(table, f) && InMemory(mem[..], f)
      modifies mem
      ensures ChildAdded(old(mem[..]), mem[..], dir, t, index, f)
    {
      hide TableEntry, LeadsTo, Cell, Window, ChildAdded;
      ghost var m := mem[..];
      ZeroTable(table, f);
      CellIsWord(level, dir[t], index);
      TableEntryWritten(f);
      Hung(m, mem[..], dir, t, index, f);
      mem[Cell(level, index)] := Or((table - MEM_PHYS_OFFSET) % TWO_64, TABLE_FLAGS);
    }

    ghost predicate Kept(mem0: array<nat>, pmm0: Pmm, bitmap0: array<Byte>, usable0: nat, root0: nat, log0: seq<Update>)
      reads this, pmm
    {
      && mem == mem0 && pmm == pmm0 && pmm.bitmap == bitmap0 && pmm.usablePages == usable0
      && root == root0 && log == log0
    }

    /** Map the page of vaddr to physaddr.  False stands for the assertion of the page allocator,
        which can come after some tables were made. */
    method MapPage(physaddr: nat, vaddr: nat, isUser: bool) returns (ok: bool)
      requires Valid()
      modifies this, pmm, pmm.bitmap, mem
      ensures Kept(old(mem), old(pmm), old(pmm.bitmap), old(pmm.usablePages), old(root), log) && Valid()
      ensures Grown(old(dir), old(pmm.Clear()), dir, pmm.Clear())
      ensures log == if ok then old(log) + [Update(PageNumber(vaddr), LeafEntry(physaddr, isUser))] else old(log)
      ensures !ok ==> NoneFree(pmm.Clear(), pmm.usablePages) && SameWalks(old(mem[..]), mem[..], root)
      ensures ok ==> Mapped(old(mem[..]), mem[..], root, PageNumber(vaddr), LeafEntry(physaddr, isUser))
      ensures ok ==>
        Granted(old(mem[..]), mem[..], root, PageNumber(vaddr), Access(isUser || Bit(physaddr, WRITE_BIT), true))
      ensures !ok ==> SameRights(old(mem[..]), mem[..], root)
    {
      hide Walk, LeafEntry, Tree, LevelIndex, PageNumber, IsPresent, SameWalks, ClearPages, LeadsTo, Grown, Follows,
           NoneFree, Rights, Granted, SameRights;
      ghost var m, d, c := mem[..], dir, pmm.Clear();
      PathOf(vaddr);
      var pt := Descend(vaddr);
      ghost var m' := mem[..];
      SameFollows(m, m', root, log);
      SameWalksSameRights(m, d, c, m', dir, pmm.Clear(), root);
      if pt == None {
        return false;
      }
      LeafEntryIsPresent(physaddr, isUser);
      WriteLeaf(pt.value, LevelIndex(vaddr, 1), LeafEntry(physaddr, isUser), PageNumber(vaddr));
      SameThenMapped(m, m', mem[..], root, PageNumber(vaddr), LeafEntry(physaddr, isUser));
      FollowsOn(m, mem[..], root, log, PageNumber(vaddr), LeafEntry(physaddr, isUser));
      MappedIsGranted(m, d, c, mem[..], dir, pmm.Clear(), root, physaddr, PageNumber(vaddr), isUser);
      log := log + [Update(PageNumber(vaddr), LeafEntry(physaddr, isUser))];
      ok := true;
    }

    /** The upper three levels on the way to a page: its leaf table, made if it is not there. */
    method Descend(vaddr: nat) returns (pt: Option<nat>)
      requires Linked()
      modifies this, pmm, pmm.bitmap, mem
      ensures Kept(old(mem), old(pmm), old(pmm.bitmap), old(pmm.usablePages), old(root), old(log)) && Linked()
      ensures SameWalks(old(mem[..]), mem[..], root)
      ensures Grown(old(dir), old(pmm.Clear()), dir, pmm.Clear())
      ensures pt == None ==> NoneFree(pmm.Clear(), pmm.usablePages)
      ensures pt.Some? ==>
        var t := Table(1, PageNumber(vaddr) / ENTRIES); t in dir && LeadsTo(pt.value, dir[t])
    {
      hide Walk, Tree, LevelIndex, PageNumber, IsPresent, SameWalks, ClearPages, PrefixAt, LeadsTo, Grown;
      ghost var s0 := Snapshot(mem[..], dir, pmm.Clear());
      PathOf(vaddr);
      RootLeads(mem[..], dir, root, pmm.Clear());
      NoStep(s0, root);
      hide Linked, NoneFree;
      var pdpt := GetNextLevel(root * PAGE_SIZE, LevelIndex(vaddr, 4), ROOT);
      ghost var s1 := Snapshot(mem[..], dir, pmm.Clear());
      TwoSteps(s0, s0, s1, root);
      if pdpt == None {
        return None;
      }
      var pd := GetNextLevel(pdpt.value, LevelIndex(vaddr, 3), Table(3, PrefixAt(vaddr, 3)));
      ghost var s2 := Snapshot(mem[..], dir, pmm.Clear());
      TwoSteps(s0, s1, s2, root);
      if pd == None {
        return None;
      }
      pt := GetNextLevel(pd.value, LevelIndex(vaddr, 2), Table(2, PrefixAt(vaddr, 2)));
      TwoSteps(s0, s2, Snapshot(mem[..], dir, pmm.Clear()), root);
    }

    /** Write the leaf entry of a page. */
    method WriteLeaf(level: nat, index: nat, e: nat, ghost page: nat)
      requires Linked() && Table(1, page / ENTRIES) in dir && LeadsTo(level, dir[Table(1, page / ENTRIES)])
      requires index == page % ENTRIES
      modifies mem
      ensures Linked()
      ensures IsPresent(e) ==> Mapped(old(mem[..]), mem[..], root, page, e)
    {
      hide Walk, IsPresent, PageNumber, LeadsTo, Cell;
      ghost var m := mem[..];
      ghost var t := Table(1, page / ENTRIES);
      CellIsWord(level, dir[t], index);
      assert TableOk(m, dir, t, pmm.Clear());
      mem[Cell(level, index)] := e;
      assert mem[..] == m[Word(dir[t], index) := e];
      LeafKeepsTree(m, mem[..], dir, root, pmm.Clear(), t, index, e);
      if IsPresent(e) {
        forall v ensures Walk(mem[..], root, v) == if PageNumber(v) == page then Some(e) else Walk(m, root, v) {
          LeafSetsWalk(m, mem[..], dir, root, pmm.Clear(), page, e, v);
        }
      }
    }

    /** The first loop of init_vmm after the root was made, n times round (the program: 0x2000000 /
        PAGE_SIZE times). */
    method MapLowMemory(n: nat) returns (ok: bool)
      requires Valid() && KERNEL_VIRTUAL_START + n * PAGE_SIZE <= TWO_64
      requires forall v :: Translate(v) == None
      modifies this, pmm, pmm.bitmap, mem
      ensures Kept(old(mem), old(pmm), old(pmm.bitmap), old(pmm.usablePages), old(root), log) && Valid()
      ensures Grown(old(dir), old(pmm.Clear()), dir, pmm.Clear())
      ensures ok ==> forall v :: Translate(v) == LowMap(n, PageNumber(v))
      ensures !ok ==> NoneFree(pmm.Clear(), pmm.usablePages)
    {
      hide Walk, LeafEntry, Tree, PageNumber, Mapped, SameWalks, ClearPages, LowMap, Follows, Grown;
      forall v ensures Walk(mem[..], root, v) == None {
        assert Translate(v) == None;
      }
      NothingMapped(mem[..], root);
      GrownByNothing(mem[..], dir, root, pmm.Clear());
      var i := 0;
      while i < n
        invariant i <= n && Valid()
        invariant Kept(old(mem), old(pmm), old(pmm.bitmap), old(pmm.usablePages), old(root), log)
        invariant Grown(old(dir), old(pmm.Clear()), dir, pmm.Clear())
        invariant MapsLow(mem[..], root, i)
      {
        var addr := i * PAGE_SIZE;
        ghost var m0, d0, c0 := mem[..], dir, pmm.Clear();
        ok := MapPage(addr, addr, false);
        ghost var m1, d1, c1 := mem[..], dir, pmm.Clear();
        GrownTwice(old(dir), old(pmm.Clear()), d0, c0, d1, c1);
        if !ok { return; }
        ok := MapPage(addr, MEM_PHYS_OFFSET + addr, false);
        ghost var m2, d2, c2 := mem[..], dir, pmm.Clear();
        GrownTwice(old(dir), old(pmm.Clear()), d1, c1, d2, c2);
        if !ok { return; }
        ok := MapPage(addr, KERNEL_VIRTUAL_START + addr, false);
        GrownTwice(old(dir), old(pmm.Clear()), d2, c2, dir, pmm.Clear());
        if !ok { return; }
        LowMapStep(m0, m1, m2, mem[..], root, i);
        i := i + 1;
      }
      LowMapped(mem[..], root, n);
      ok := true;
    }
  }

  /** No walk differs between two states of memory. */
  ghost predicate SameWalks(m: seq<nat>, m': seq<nat>, root: nat) {
    forall v :: Walk(m', root, v) == Walk(m, root, v)
  }

  /** The walks of m' are those of m with one page mapped to e. */
  ghost predicate Mapped(m: seq<nat>, m': seq<nat>, root: nat, page: nat, e: nat) {
    forall v :: Walk(m', root, v) == if PageNumber(v) == page then Some(e) else Walk(m, root, v)
  }

  /** The rights are those of m, but for one page, which has the given ones. */
  ghost predicate Granted(m: seq<nat>, m': seq<nat>, root: nat, page: nat, a: Access) {
    forall v :: Rights(m', root, v) == if PageNumber(v) == page then Some(a) else Rights(m, root, v)
  }

  ghost predicate SameRights(m: seq<nat>, m': seq<nat>, root: nat) {
    forall v :: Rights(m', root, v) == Rights(m, root, v)
  }

  lemma SameWalksSameRights(m: seq<nat>, dir: Dir, clear: set<nat>,
                            m': seq<nat>, dir': Dir, clear': set<nat>, root: nat)
    requires Tree(m, dir, root, clear) && Tree(m', dir', root, clear') && SameWalks(m, m', root)
    ensures SameRights(m, m', root)
  {
    hide Tree, Walk, Rights;
    forall v ensures Rights(m', root, v) == Rights(m, root, v) {
      LeafDecidesRights(m, dir, root, clear, v);
      LeafDecidesRights(m', dir', root, clear', v);
    }
  }

  /** A mapped page has the rights of its leaf entry: user always, write as asked for. */
  lemma MappedIsGranted(m: seq<nat>, dir: Dir, clear: set<nat>, m': seq<nat>, dir': Dir, clear': set<nat>, root: nat,
                        physaddr: nat, page: nat, isUser: bool)
    requires Tree(m, dir, root, clear) && Tree(m', dir', root, clear')
    requires Mapped(m, m', root, page, LeafEntry(physaddr, isUser))
    ensures Granted(m, m', root, page, Access(isUser || Bit(physaddr, WRITE_BIT), true))
  {
    hide Tree, Walk, Rights, LeafEntry, PageNumber;
    LeafEntryBits(physaddr, isUser, WRITE_BIT);
    LeafEntryBits(physaddr, isUser, USER_BIT);
    forall v ensures Rights(m', root, v)
      == if PageNumber(v) == page then Some(Access(isUser || Bit(physaddr, WRITE_BIT), true)) else Rights(m, root, v)
    {
      LeafDecidesRights(m, dir, root, clear, v);
      LeafDecidesRights(m', dir', root, clear', v);
    }
  }

  ghost predicate NoneFree(clear: set<nat>, limit: nat) { forall p: nat :: p < limit ==> p !in clear }

  /** The entry of a page after a sequence of updates: that of the last update of the page. */
  ghost function Folded(log: seq<Update>, page: nat): Option<nat> {
    if log == [] then None
    else if log[|log|-1].page == page then Some(log[|log|-1].entry)
    else Folded(log[..|log|-1], page)
  }

  /** Every walk finds what the updates say. */
  ghost predicate Follows(m: seq<nat>, root: nat, log: seq<Update>) {
    forall v :: Walk(m, root, v) == Folded(log, PageNumber(v))
  }

  /** Update k is the last one of the page. */
  ghost predicate LastUpdate(log: seq<Update>, page: nat, e: nat, k: int) {
    && 0 <= k < |log| && log[k] == Update(page, e)
    && forall j :: k < j < |log| ==> log[j].page != page
  }

  /** The last update of a page decides. */
  lemma {:induction false} LastUpdateWins(log: seq<Update>, page: nat, e: nat)
    ensures Folded(log, page) == Some(e) <==> exists k :: LastUpdate(log, page, e, k)
    decreases |log|
  {
    if log != [] {
      var n := |log| - 1;
      if log[n].page == page {
        assert log[n].entry == e ==> LastUpdate(log, page, e, n);
      } else {
        LastUpdateWins(log[..n], page, e);
        forall k ensures LastUpdate(log, page, e, k) <==> LastUpdate(log[..n], page, e, k) {
        }
      }
    }
  }

  /** Whatever calls of map_vmm an address space has seen since its root was made, an address
      translates to the entry that the last of them gave to its page. */
  lemma TranslatesByLastUpdate(vmm: Vmm, v: nat, e: nat)
    requires vmm.Valid()
    ensures vmm.Translate(v) == Some(e) <==> exists k :: LastUpdate(vmm.log, PageNumber(v), e, k)
    ensures vmm.Translate(v) == None <==> forall k :: 0 <= k < |vmm.log| ==> vmm.log[k].page != PageNumber(v)
  {
    hide Walk, PageNumber, Folded;
    LastUpdateWins(vmm.log, PageNumber(v), e);
    NeverUpdated(vmm.log, PageNumber(v));
  }

  lemma {:induction false} NeverUpdated(log: seq<Update>, page: nat)
    ensures Folded(log, page) == None <==> forall k :: 0 <= k < |log| ==> log[k].page != page
    decreases |log|
  {
    if log != [] {
      var n := |log| - 1;
      NeverUpdated(log[..n], page);
      assert forall k :: 0 <= k < n ==> log[..n][k] == log[k];
    }
  }

  lemma FollowsOn(m: seq<nat>, m': seq<nat>, root: nat, log: seq<Update>, page: nat, e: nat)
    requires Follows(m, root, log) && Mapped(m, m', root, page, e)
    ensures Follows(m', root, log + [Update(page, e)])
  {
    hide Walk, PageNumber;
    assert (log + [Update(page, e)])[..|log|] == log;
  }

  /** Tables stay where they are, and exactly the frames of the new ones are no longer free. */
  ghost predicate Grown(dir: Dir, clear: set<nat>, dir': Dir, clear': set<nat>) {
    && (forall t :: t in dir ==> t in dir' && dir'[t] == dir[t])
    && clear' == clear - dir'.Values
  }

  lemma GrownTwice(dir: Dir, clear: set<nat>, dir1: Dir, clear1: set<nat>, dir2: Dir, clear2: set<nat>)
    requires Grown(dir, clear, dir1, clear1) && Grown(dir1, clear1, dir2, clear2)
    ensures Grown(dir, clear, dir2, clear2)
  {
    forall f | f in dir1.Values ensures f in dir2.Values {
      var t :| t in dir1 && dir1[t] == f;
      assert dir2[t] == f;
    }
  }

  lemma GrownByNothing(m: seq<nat>, dir: Dir, root: nat, clear: set<nat>)
    requires Tree(m, dir, root, clear)
    ensures Grown(dir, clear, dir, clear)
  {
    TableFramesAreApart(m, dir, root, clear);
  }

  lemma GrownByOne(m: seq<nat>, dir: Dir, root: nat, clear: set<nat>, c: Table, f: nat)
    requires Tree(m, dir, root, clear) && c !in dir
    ensures Grown(dir, clear, dir[c := f], clear - {f})
  {
    hide Tree;
    var dir' := dir[c := f];
    TableFramesAreApart(m, dir, root, clear);
    forall p ensures p in dir'.Values <==> p in dir.Values || p == f {
      if p in dir.Values {
        var t :| t in dir && dir[t] == p;
        assert dir'[t] == p;
      }
      assert dir'[c] == f;
    }
  }

  /** What the allocator and the tables look like at one moment. */
  datatype Snapshot = Snapshot(mem: seq<nat>, dir: Dir, clear: set<nat>)

  lemma NoStep(s: Snapshot, root: nat)
    requires Tree(s.mem, s.dir, root, s.clear)
    ensures SameWalks(s.mem, s.mem, root) && Grown(s.dir, s.clear, s.dir, s.clear)
  {
    GrownByNothing(s.mem, s.dir, root, s.clear);
  }

  /** One more step that changes no walk. */
  lemma TwoSteps(s: Snapshot, s1: Snapshot, s2: Snapshot, root: nat)
    requires SameWalks(s.mem, s1.mem, root) && SameWalks(s1.mem, s2.mem, root)
    requires Grown(s.dir, s.clear, s1.dir, s1.clear) && Grown(s1.dir, s1.clear, s2.dir, s2.clear)
    ensures SameWalks(s.mem, s2.mem, root) && Grown(s.dir, s.clear, s2.dir, s2.clear)
  {
    hide Walk;
    GrownTwice(s.dir, s.clear, s1.dir, s1.clear, s2.dir, s2.clear);
  }

  lemma SameFollows(m: seq<nat>, m': seq<nat>, root: nat, log: seq<Update>)
    requires SameWalks(m, m', root) && Follows(m, root, log)
    ensures Follows(m', root, log)
  {
    hide Walk, PageNumber, Folded;
  }

  lemma RootLeads(m: seq<nat>, dir: Dir, root: nat, clear: set<nat>)
    requires Tree(m, dir, root, clear)
    ensures LeadsTo(root * PAGE_SIZE, root) && ROOT in dir && dir[ROOT] == root
  {
    TableInUse(m, dir, root, clear, ROOT);
  }

  /** An entry that is present leads, through the window, to the child table; else there is none. */
  lemma ChildOrNone(m: seq<nat>, dir: Dir, root: nat, clear: set<nat>, t: Table, index: nat)
    requires Tree(m, dir, root, clear) && t in dir && t.level >= 2 && index < ENTRIES
    ensures InMemory(m, dir[t])
    ensures var e := m[Word(dir[t], index)];
      if IsPresent(e) then
        Child(t, index) in dir && LeadsTo((And(e, ADDRESS_MASK) + MEM_PHYS_OFFSET) % TWO_64, dir[Child(t, index)])
      else Child(t, index) !in dir
  {
    hide IsPresent, TableEntry, And, LeadsTo;
    TreeParts(m, dir, root, clear);
    TableInUse(m, dir, root, clear, t);
    assert TableOk(m, dir, t, clear) && EntryOk(m, dir, t, index);
    if Child(t, index) in dir {
      TableInUse(m, dir, root, clear, Child(t, index));
      TableEntryLeads(dir[Child(t, index)]);
      WindowLeadsIff(dir[Child(t, index)]);
    }
  }

  /** Frame f zeroed in m gives m1; the entry of the child comes on top. */
  lemma Hung(m: seq<nat>, m1: seq<nat>, dir: Dir, t: Table, index: nat, f: nat)
    requires t in dir && index < ENTRIES && InMemory(m, dir[t]) && InMemory(m, f) && f != dir[t] && |m1| == |m|
    requires forall i :: 0 <= i < ENTRIES ==> m1[Word(f, i)] == 0
    requires forall w :: 0 <= w < |m| && !(Word(f, 0) <= w < Word(f, ENTRIES)) ==> m1[w] == m[w]
    ensures Word(dir[t], index) < |m|
    ensures ChildAdded(m, m1[Word(dir[t], index) := TableEntry(f)], dir, t, index, f)
  {
    hide TableEntry;
  }

  lemma TableEntryWritten(frame: nat)
    requires frame < MAX_FRAMES
    ensures Or((Window(frame) - MEM_PHYS_OFFSET) % TWO_64, TABLE_FLAGS) == TableEntry(frame)
  {
    hide Window, Or;
    WindowUndone(frame);
  }

  lemma SameThenMapped(m: seq<nat>, m1: seq<nat>, m2: seq<nat>, root: nat, page: nat, e: nat)
    requires SameWalks(m, m1, root) && Mapped(m1, m2, root, page, e)
    ensures Mapped(m, m2, root, page, e)
  {
  }

  /** The tables on the way to a page. */
  lemma PathOf(v: nat)
    ensures LevelIndex(v, 4) < ENTRIES && LevelIndex(v, 3) < ENTRIES && LevelIndex(v, 2) < ENTRIES
    ensures Child(ROOT, LevelIndex(v, 4)) == Table(3, PrefixAt(v, 3))
    ensures Child(Table(3, PrefixAt(v, 3)), LevelIndex(v, 3)) == Table(2, PrefixAt(v, 2))
    ensures Child(Table(2, PrefixAt(v, 2)), LevelIndex(v, 2)) == Table(1, PageNumber(v) / ENTRIES)
    ensures LevelIndex(v, 1) == PageNumber(v) % ENTRIES
  {
    hide LevelIndex, PageNumber;
    IndicesArePageNumber(v, 4);
    IndicesArePageNumber(v, 3);
    IndicesArePageNumber(v, 2);
    IndicesArePageNumber(v, 1);
    LastIndex(PrefixAt(v, 1), LevelIndex(v, 1), PageNumber(v));
  }

  lemma LeafEntryIsPresent(physaddr: nat, isUser: bool)
    ensures IsPresent(LeafEntry(physaddr, isUser))
    ensures Flags(isUser) == if isUser then 7 else 5
  {
    assert Shl(1, 1) == 2 && Shl(0, 1) == 0;
    assert Or(5, 2) == 7 && Or(5, 0) == 5;
    LeafIsPresent(physaddr, Flags(isUser));
  }

  /** alloc_pmm(1) hands out a free page, or there is none. */
  lemma OneOrNone(clear: set<nat>, last: nat, limit: nat, r: Option<nat>)
    requires Answer(clear, last, 1, limit, r)
    ensures match r
      case Some(p) => p in clear && p < limit && Block(p, 1) == {p}
      case None => NoneFree(clear, limit)
  {
    if r == None {
      forall p: nat | p < limit ensures p !in clear {
        assert EndsRun(clear, 0, p, 1) <==> p in clear;
      }
    }
  }

  // ----- The map of low memory -----

  // Page numbers at which the direct map and the kernel window begin.
  const DIRECT_PAGE: nat := 0xf_fff8_0000
  const KERNEL_PAGE: nat := 0xf_fff8_0100

  function PageEntry(page: nat): nat { LeafEntry(page * PAGE_SIZE, false) }

  /** The map after n rounds: identity, direct map, and the part of the kernel window behind the
      direct map; the two overlap, and where they do the direct map wins. */
  function LowMap(n: nat, page: nat): Option<nat> {
    if page < n then Some(PageEntry(page))
    else if DIRECT_PAGE <= page < DIRECT_PAGE + n then Some(PageEntry(page - DIRECT_PAGE))
    else if KERNEL_PAGE <= page < KERNEL_PAGE + n then Some(PageEntry(page - KERNEL_PAGE))
    else None
  }

  /** The pages of the three windows. */
  predicate InWindow(n: nat, page: nat) {
    page < n || DIRECT_PAGE <= page < DIRECT_PAGE + n || KERNEL_PAGE <= page < KERNEL_PAGE + n
  }

  ghost predicate MapsLow(m: seq<nat>, root: nat, n: nat) {
    forall v :: Walk(m, root, v) == LowMap(n, PageNumber(v))
  }

  lemma LowMapped(m: seq<nat>, root: nat, n: nat)
    requires MapsLow(m, root, n)
    ensures forall v :: Walk(m, root, v) == LowMap(n, PageNumber(v))
  {
  }

  lemma NothingMapped(m: seq<nat>, root: nat)
    requires forall v :: Walk(m, root, v) == None
    ensures MapsLow(m, root, 0)
  {
    hide Walk, PageNumber;
  }

  /** The pages of the three windows. */
  lemma WindowPages(i: nat)
    requires KERNEL_VIRTUAL_START + i * PAGE_SIZE < TWO_64
    ensures PageNumber(i * PAGE_SIZE) == i
    ensures PageNumber(MEM_PHYS_OFFSET + i * PAGE_SIZE) == DIRECT_PAGE + i
    ensures PageNumber(KERNEL_VIRTUAL_START + i * PAGE_SIZE) == KERNEL_PAGE + i
    ensures i < DIRECT_PAGE
  {
  }

  /** One round of the loop. */
  lemma LowMapStep(m0: seq<nat>, m1: seq<nat>, m2: seq<nat>, m3: seq<nat>, root: nat, i: nat)
    requires KERNEL_VIRTUAL_START + (i + 1) * PAGE_SIZE <= TWO_64 && MapsLow(m0, root, i)
    requires Mapped(m0, m1, root, PageNumber(i * PAGE_SIZE), PageEntry(i))
    requires Mapped(m1, m2, root, PageNumber(MEM_PHYS_OFFSET + i * PAGE_SIZE), PageEntry(i))
    requires Mapped(m2, m3, root, PageNumber(KERNEL_VIRTUAL_START + i * PAGE_SIZE), PageEntry(i))
    ensures MapsLow(m3, root, i + 1)
  {
    hide Walk, PageNumber, LeafEntry;
    WindowPages(i);
  }

  /** Every page address below n pages is mapped to itself, both at its own address and in the
      direct map. */
  lemma LowMemoryIsMapped(m: seq<nat>, root: nat, n: nat, a: nat)
    requires MapsLow(m, root, n) && KERNEL_VIRTUAL_START + n * PAGE_SIZE <= TWO_64
    requires a % PAGE_SIZE == 0 && a < n * PAGE_SIZE
    ensures Walk(m, root, a) == Some(LeafEntry(a, false))
    ensures Walk(m, root, MEM_PHYS_OFFSET + a) == Some(LeafEntry(a, false))
  {
    hide Walk, LeafEntry;
    WindowPages(a / PAGE_SIZE);
  }

  /** Nothing but the windows is mapped, and nothing in them is writable. */
  lemma OnlyWindowsAreMapped(m: seq<nat>, dir: Dir, clear: set<nat>, root: nat, n: nat, v: nat)
    requires MapsLow(m, root, n) && Tree(m, dir, root, clear)
    ensures Walk(m, root, v).Some? <==> InWindow(n, PageNumber(v))
    ensures Rights(m, root, v) == if InWindow(n, PageNumber(v)) then Some(Access(false, true)) else None
  {
    hide Walk, LeafEntry, PageNumber, Tree, Rights;
    LeafDecidesRights(m, dir, root, clear, v);
    var page := PageNumber(v);
    if InWindow(n, page) {
      var at := if page < n then page else if DIRECT_PAGE <= page < DIRECT_PAGE + n then page - DIRECT_PAGE
                else page - KERNEL_PAGE;
      assert LowMap(n, page) == Some(PageEntry(at));
      LeafEntryBits(at * PAGE_SIZE, false, WRITE_BIT);
      LeafEntryBits(at * PAGE_SIZE, false, USER_BIT);
      PageAddressBits(at);
    }
  }

  lemma PageAddressBits(page: nat)
    ensures !Bit(page * PAGE_SIZE, WRITE_BIT)
  {
    Powers();
    ShlMultiplies(page, 12);
    ShlBit(page, 12, WRITE_BIT);
  }

  /** The kernel window shows the page it was meant for exactly where it lies behind the direct map;
      elsewhere it shows the page 0x100000 higher. */
  lemma KernelWindowIff(m: seq<nat>, root: nat, n: nat, a: nat)
    requires MapsLow(m, root, n) && KERNEL_VIRTUAL_START + n * PAGE_SIZE <= TWO_64
    requires a % PAGE_SIZE == 0 && a < n * PAGE_SIZE
    ensures Walk(m, root, KERNEL_VIRTUAL_START + a)
         == if a + 0x10_0000 >= n * PAGE_SIZE then Some(LeafEntry(a, false)) else Some(LeafEntry(a + 0x10_0000, false))
    ensures Walk(m, root, KERNEL_VIRTUAL_START + a) == Some(LeafEntry(a, false)) <==> a + 0x10_0000 >= n * PAGE_SIZE
  {
    hide Walk, LeafEntry;
    WindowPages(a / PAGE_SIZE);
    LeafEntryIs(a);
    LeafEntryIs(a + 0x10_0000);
  }

  /** The leaf entry of a page address is that address plus the flags: present and user, not
      writable. */
  lemma LeafEntryIs(a: nat)
    requires a % PAGE_SIZE == 0
    ensures LeafEntry(a, false) == a + 5
  {
    hide Or, Shl, IsPresent;
    LeafEntryIsPresent(a, false);
    Powers();
    ShlMultiplies(a / 8, 3);
    OrLow(a / 8, 5, 3);
  }

  lemma TableInUse(m: seq<nat>, dir: Dir, root: nat, clear: set<nat>, t: Table)
    requires Tree(m, dir, root, clear) && t in dir
    ensures dir[t] !in clear && dir[t] < MAX_FRAMES && InMemory(m, dir[t])
  {
    TreeParts(m, dir, root, clear);
    TableUsed(m, dir, clear, t);
  }

  /** There are as many table frames as tables, and none of them is free. */
  lemma TableFramesAreApart(m: seq<nat>, dir: Dir, root: nat, clear: set<nat>)
    requires Tree(m, dir, root, clear)
    ensures |dir.Values| == |dir.Keys| && dir.Values !! clear
  {
    hide TableOk;
    TreeParts(m, dir, root, clear);
    forall f | f in dir.Values ensures f !in clear {
      var t :| t in dir && dir[t] == f;
      TableInUse(m, dir, root, clear, t);
    }
    CountFrames(dir);
  }

  lemma {:induction false} CountFrames(dir: Dir)
    requires forall t, u :: t in dir && u in dir && dir[t] == dir[u] ==> t == u
    ensures |dir.Values| == |dir.Keys|
    decreases |dir|
  {
    if dir == map[] {
      assert dir.Values == {};
    } else {
      var t :| t in dir;
      CountFrames(dir - {t});
      FramesWithout(dir, t);
    }
  }

  lemma FramesWithout(dir: Dir, t: Table)
    requires t in dir && forall u :: u in dir && dir[u] == dir[t] ==> u == t
    ensures var rest := dir - {t};
      && dir.Keys == rest.Keys + {t} && t !in rest.Keys
      && dir.Values == rest.Values + {dir[t]} && dir[t] !in rest.Values
  {
    var rest := dir - {t};
    forall f ensures f in dir.Values <==> f in rest.Values || f == dir[t] {
      if f in dir.Values && f != dir[t] {
        var u :| u in dir && dir[u] == f;
        assert rest[u] == f;
      }
    }
  }
}
