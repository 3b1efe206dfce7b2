/** Four-level page tables as a value: a sequence of 64-bit words of physical memory, in which frame
    f takes the 512 words from f * 512 on, and a directory that says which frame is which table. */
module PageTables {
  import opened Words
  import opened Bits

  const ENTRIES: nat := 512
  const PRESENT: nat := 1
  const TABLE_FLAGS: nat := 7 // present, writable, user
  const ADDRESS_MASK: nat := 0xffff_ffff_ffff_f000
  const MAX_FRAMES: nat := 0x10_0000_0000_0000
  const MEM_PHYS_OFFSET: nat := 0xffff_ffff_8000_0000
  const WINDOW_FRAMES: nat := 0x8_0000 // frames that the addresses from MEM_PHYS_OFFSET on reach
  const VIRTUAL_PAGES: nat := 0x10_0000_0000

  /** A table is named by its level (4 is the root, 1 holds the leaf entries) and by the bits of the
      page number that lead to it. */
  datatype Table = Table(level: nat, prefix: nat)

  const ROOT := Table(4, 0)

  function Child(t: Table, index: nat): Table
    requires t.level >= 2
  {
    Table(t.level - 1, t.prefix * ENTRIES + index)
  }

  function Parent(t: Table): Table { Table(t.level + 1, t.prefix / ENTRIES) }

  function Word(frame: nat, index: nat): nat { frame * ENTRIES + index }

  predicate IsPresent(e: nat) { And(e, PRESENT) != 0 }

  function FrameOf(e: nat): nat { And(e, ADDRESS_MASK) / PAGE_SIZE }

  function TableEntry(frame: nat): nat { Or(frame * PAGE_SIZE, TABLE_FLAGS) }

  // ----- Where the program finds a table -----

  /** The address at which the program reaches a frame, in 64-bit arithmetic. */
  function Window(frame: nat): nat { (frame * PAGE_SIZE + MEM_PHYS_OFFSET) % TWO_64 }

  /** The physical address behind a virtual one: MEM_PHYS_OFFSET and what follows show memory from 0
      on, everything below shows itself. */
  function Behind(v: nat): nat { if v >= MEM_PHYS_OFFSET then v - MEM_PHYS_OFFSET else v }

  /** The table at this virtual address lies in that frame. */
  predicate LeadsTo(level: nat, frame: nat) { Behind(level) == frame * PAGE_SIZE }

  /** Word of physical memory that holds entry `index` of the table at a virtual address. */
  function Cell(level: nat, index: nat): nat { Behind(level) / 8 + index }

  /** The window leads to a frame if and only if that lies below 2 GiB; for any other the address
      wraps, and the program reads and writes the frame 2 GiB lower. */
  lemma WindowLeadsIff(frame: nat)
    requires frame < MAX_FRAMES
    ensures LeadsTo(Window(frame), frame) <==> frame < WINDOW_FRAMES
    ensures frame >= WINDOW_FRAMES ==> LeadsTo(Window(frame), frame - WINDOW_FRAMES)
  {
  }

  /** The first frame that the window misses: its address is 0, that of frame 0. */
  lemma WindowWraps()
    ensures Window(WINDOW_FRAMES) == 0 && !LeadsTo(Window(WINDOW_FRAMES), WINDOW_FRAMES)
    ensures forall i :: Cell(Window(WINDOW_FRAMES), i) == Word(0, i)
  {
  }

  lemma CellIsWord(level: nat, frame: nat, index: nat)
    requires LeadsTo(level, frame)
    ensures Cell(level, index) == Word(frame, index)
  {
  }

  /** Taking the offset off again gives the frame's address, wrapped or not. */
  lemma WindowUndone(frame: nat)
    requires frame < MAX_FRAMES
    ensures (Window(frame) - MEM_PHYS_OFFSET) % TWO_64 == frame * PAGE_SIZE
  {
  }

  // ----- Addresses -----

  /** The field of nine bits at position n. */
  function IndexAt(v: nat, n: nat): nat { Shr(And(v, Shl(0x1ff, n)), n) }

  /** Bits 47..12 of an address. */
  function PageNumber(v: nat): nat { v / PAGE_SIZE % VIRTUAL_PAGES }

  function PrefixAt(v: nat, level: nat): nat
    requires 1 <= level <= 4
  {
    if level == 4 then 0
    else if level == 3 then PageNumber(v) / 0x800_0000
    else if level == 2 then PageNumber(v) / 0x4_0000
    else PageNumber(v) / 0x200
  }

  function LevelIndex(v: nat, level: nat): nat
    requires 1 <= level <= 4
  {
    IndexAt(v, if level == 4 then 39 else if level == 3 then 30 else if level == 2 then 21 else 12)
  }

  lemma Powers()
    ensures Pow2(9) == 512 && Pow2(12) == 4096 && Pow2(21) == 0x20_0000 && Pow2(30) == 0x4000_0000
    ensures Pow2(39) == 0x80_0000_0000 && Pow2(52) == MAX_FRAMES && Pow2(3) == 8
  {
    assert Pow2(9) == 512;
    assert Pow2(12) == 4096;
    assert Pow2(21) == 0x20_0000;
    assert Pow2(30) == 0x4000_0000;
    assert Pow2(39) == 0x80_0000_0000;
    assert Pow2(52) == MAX_FRAMES;
  }

  lemma IndexIsField(v: nat, n: nat)
    ensures IndexAt(v, n) == v / Pow2(n) % 512
  {
    Powers();
    Field(v, 9, n);
  }

  /** The nine bits of the page number above weight a. */
  lemma PageDigit(v: nat, a: nat, b: nat)
    requires a > 0 && b > 0 && a * (ENTRIES * b) == VIRTUAL_PAGES
    ensures PageNumber(v) / a % ENTRIES == v / PAGE_SIZE / a % ENTRIES
    ensures PageNumber(v) / a == PageNumber(v) / (a * ENTRIES) * ENTRIES + v / PAGE_SIZE / a % ENTRIES
  {
    DivOfMod(v / PAGE_SIZE, a, ENTRIES * b);
    DivOfMod(v / PAGE_SIZE / a, ENTRIES, b);
    DivOfMod(PageNumber(v), a, ENTRIES);
  }

  /** Pages below one entry of a table of this level. */
  function LevelWeight(level: nat): (w: nat)
    ensures w > 0
  {
    if level == 4 then 0x800_0000 else if level == 3 then 0x4_0000 else if level == 2 then 0x200 else 1
  }

  lemma LevelIndexIs(v: nat, level: nat)
    requires 1 <= level <= 4
    ensures LevelIndex(v, level)
         == v / PAGE_SIZE / LevelWeight(level) % ENTRIES
  {
    hide IndexAt, Pow2;
    Powers();
    IndexIsField(v, 12);
    IndexIsField(v, 21);
    IndexIsField(v, 30);
    IndexIsField(v, 39);
    DivOfMod(v, PAGE_SIZE, 0x200);
    DivOfMod(v, PAGE_SIZE, 0x4_0000);
    DivOfMod(v, PAGE_SIZE, 0x800_0000);
  }

  /** The four indices are the digits of the page number in base 512: each level's prefix and index
      make up the prefix of the next. */
  lemma IndicesArePageNumber(v: nat, level: nat)
    requires 1 <= level <= 4
    ensures LevelIndex(v, level) < ENTRIES
    ensures PrefixAt(v, level) * ENTRIES + LevelIndex(v, level)
         == if level == 1 then PageNumber(v) else PrefixAt(v, level - 1)
  {
    hide LevelIndex;
    LevelIndexIs(v, level);
    if level == 4 {
      PageDigit(v, 0x800_0000, 1);
      assert PageNumber(v) / VIRTUAL_PAGES == 0;
    } else if level == 3 {
      PageDigit(v, 0x4_0000, 0x200);
    } else if level == 2 {
      PageDigit(v, 0x200, 0x4_0000);
    } else {
      PageDigit(v, 1, 0x800_0000);
    }
  }

  // ----- Entries -----

  lemma PresentIsOdd(e: nat)
    ensures IsPresent(e) <==> e % 2 == 1
  {
    assert Pow2(0) == 1;
    MaskTests(e, 0);
  }

  lemma TableEntryIs(frame: nat)
    ensures TableEntry(frame) == frame * PAGE_SIZE + TABLE_FLAGS
  {
    hide Or, Shl;
    Powers();
    ShlMultiplies(frame, 12);
    OrLow(frame, TABLE_FLAGS, 12);
  }

  /** An entry made for a table leads back to its frame. */
  lemma TableEntryLeads(frame: nat)
    requires frame < MAX_FRAMES
    ensures IsPresent(TableEntry(frame)) && FrameOf(TableEntry(frame)) == frame
    ensures And(TableEntry(frame), ADDRESS_MASK) == frame * PAGE_SIZE
  {
    hide And, Shl, Shr, Pow2, TableEntry;
    Powers();
    TableEntryIs(frame);
    var e := TableEntry(frame);
    PresentIsOdd(e);
    ShlMultiplies(MAX_FRAMES - 1, 12);
    HighMask(e, MAX_FRAMES - 1, 12);
    ShrDivides(e, 12);
    LowMask(frame, 52);
    ShlMultiplies(frame, 12);
  }

  /** A leaf entry is present whatever the physical address. */
  lemma LeafIsPresent(address: nat, flags: nat)
    requires flags % 2 == 1
    ensures IsPresent(Or(address, flags))
  {
    OrBit(address, flags, 0);
    PresentIsOdd(Or(address, flags));
  }

  // ----- Trees of tables -----

  type Dir = map<Table, nat>

  ghost predicate InMemory(m: seq<nat>, frame: nat) { Word(frame, ENTRIES) <= |m| }

  /** The entry of t at index agrees with the directory. */
  ghost predicate EntryOk(m: seq<nat>, dir: Dir, t: Table, index: nat)
    requires t in dir && t.level >= 2 && index < ENTRIES && InMemory(m, dir[t])
  {
    var e := m[Word(dir[t], index)];
    && (IsPresent(e) <==> Child(t, index) in dir)
    && (Child(t, index) in dir ==> e == TableEntry(dir[Child(t, index)]))
  }

  ghost predicate TableOk(m: seq<nat>, dir: Dir, t: Table, clear: set<nat>)
    requires t in dir
  {
    && 1 <= t.level <= 4
    && dir[t] !in clear && dir[t] < WINDOW_FRAMES && InMemory(m, dir[t])
    && (t.level == 4 ==> t == ROOT)
    && (t.level < 4 ==> Parent(t) in dir)
    && (t.level >= 2 ==> forall i :: 0 <= i < ENTRIES ==> EntryOk(m, dir, t, i))
  }

  /** The tables form a tree: every table but the root has one parent that points to it, no frame is
      used for two tables, and every frame is marked as used. */
  ghost predicate Tree(m: seq<nat>, dir: Dir, root: nat, clear: set<nat>) {
    && ROOT in dir && dir[ROOT] == root
    && (forall t :: t in dir ==> TableOk(m, dir, t, clear))
    && (forall t, u :: t in dir && u in dir && dir[t] == dir[u] ==> t == u)
  }

  // ----- The walk of the hardware -----

  /** Follow one entry. */
  function Follow(m: seq<nat>, frame: Option<nat>, index: nat): Option<nat> {
    if frame == None || Word(frame.value, index) >= |m| then None
    else
      var e := m[Word(frame.value, index)];
      if IsPresent(e) then Some(e) else None
  }

  function NextFrame(e: Option<nat>): Option<nat> { if e == None then None else Some(FrameOf(e.value)) }

  /** The leaf entry that a four-level walk from the root finds for an address; none if an entry on
      the way is not present. */
  function Walk(m: seq<nat>, root: nat, v: nat): Option<nat> {
    var pdpt := NextFrame(Follow(m, Some(root), LevelIndex(v, 4)));
    var pd := NextFrame(Follow(m, pdpt, LevelIndex(v, 3)));
    var pt := NextFrame(Follow(m, pd, LevelIndex(v, 2)));
    Follow(m, pt, LevelIndex(v, 1))
  }

  function Lookup(dir: Dir, t: Table): Option<nat> { if t in dir then Some(dir[t]) else None }

  /** Following entry `index` of a table leads to its child in the directory. */
  lemma FollowChild(m: seq<nat>, dir: Dir, root: nat, clear: set<nat>, t: Table, index: nat)
    requires Tree(m, dir, root, clear) && 2 <= t.level <= 4 && index < ENTRIES
    ensures NextFrame(Follow(m, Lookup(dir, t), index)) == Lookup(dir, Child(t, index))
  {
    hide IsPresent, FrameOf, TableEntry;
    var child := Child(t, index);
    assert Parent(child) == t by { PrefixUp(t.prefix, index); }
    if t in dir {
      assert TableOk(m, dir, t, clear) && EntryOk(m, dir, t, index);
    }
    if child in dir {
      assert TableOk(m, dir, child, clear);
      TableEntryLeads(dir[child]);
    }
  }

  /** One step of the walk follows the directory. */
  lemma WalkStep(m: seq<nat>, dir: Dir, root: nat, clear: set<nat>, v: nat, level: nat)
    requires Tree(m, dir, root, clear) && 2 <= level <= 4
    ensures NextFrame(Follow(m, Lookup(dir, Table(level, PrefixAt(v, level))), LevelIndex(v, level)))
         == Lookup(dir, Table(level - 1, PrefixAt(v, level - 1)))
  {
    hide Tree, LevelIndex, PrefixAt, Follow, NextFrame;
    IndicesArePageNumber(v, level);
    FollowChild(m, dir, root, clear, Table(level, PrefixAt(v, level)), LevelIndex(v, level));
  }

  lemma PrefixUp(prefix: nat, index: nat)
    requires index < ENTRIES
    ensures (prefix * ENTRIES + index) / ENTRIES == prefix
  {
  }

  /** The walk ends in the leaf table that the directory has for the page. */
  lemma WalkByDirectory(m: seq<nat>, dir: Dir, root: nat, clear: set<nat>, v: nat)
    requires Tree(m, dir, root, clear)
    ensures Walk(m, root, v) == Follow(m, Lookup(dir, Table(1, PageNumber(v) / ENTRIES)), PageNumber(v) % ENTRIES)
  {
    hide LevelIndex, Follow, NextFrame, PageNumber, TableOk;
    WalkStep(m, dir, root, clear, v, 4);
    WalkStep(m, dir, root, clear, v, 3);
    WalkStep(m, dir, root, clear, v, 2);
    IndicesArePageNumber(v, 1);
    LastIndex(PrefixAt(v, 1), LevelIndex(v, 1), PageNumber(v));
  }

  lemma LastIndex(prefix: nat, index: nat, page: nat)
    requires index < ENTRIES && prefix * ENTRIES + index == page
    ensures page / ENTRIES == prefix && page % ENTRIES == index
  {
  }

  // ----- Changing the tables -----

  /** m' is m with frame f zeroed and its entry put at index of table t. */
  ghost predicate ChildAdded(m: seq<nat>, m': seq<nat>, dir: Dir, t: Table, index: nat, f: nat)
    requires t in dir
  {
    && |m'| == |m|
    && (forall i :: 0 <= i < ENTRIES && Word(f, i) < |m| ==> m'[Word(f, i)] == 0)
    && Word(dir[t], index) < |m| && m'[Word(dir[t], index)] == TableEntry(f)
    && (forall g: nat, i :: 0 <= i < ENTRIES && Word(g, i) < |m| && g != f && (g != dir[t] || i != index) ==>
          m'[Word(g, i)] == m[Word(g, i)])
  }

  ghost predicate CanAdd(m: seq<nat>, dir: Dir, root: nat, clear: set<nat>, t: Table, index: nat, f: nat) {
    && Tree(m, dir, root, clear) && t in dir && t.level >= 2 && index < ENTRIES
    && Child(t, index) !in dir
    && f in clear && f < WINDOW_FRAMES && InMemory(m, f)
  }

  /** Hanging a new zeroed table below t keeps the tree. */
  lemma AddKeepsTree(m: seq<nat>, m': seq<nat>, dir: Dir, root: nat, clear: set<nat>, t: Table, index: nat, f: nat)
    requires CanAdd(m, dir, root, clear, t, index, f) && ChildAdded(m, m', dir, t, index, f)
    ensures Tree(m', dir[Child(t, index) := f], root, clear - {f})
  {
    hide Tree, ChildAdded, TableOk;
    var dir' := dir[Child(t, index) := f];
    forall u | u in dir' ensures TableOk(m', dir', u, clear - {f}) {
      if u == Child(t, index) {
        NewTableOk(m, m', dir, root, clear, t, index, f);
      } else {
        OldTableOk(m, m', dir, root, clear, t, index, f, u);
      }
    }
    TreeParts(m, dir, root, clear);
    forall u | u in dir ensures dir[u] != f {
      TableUsed(m, dir, clear, u);
    }
    TreeParts(m', dir', root, clear - {f});
  }

  lemma TreeParts(m: seq<nat>, dir: Dir, root: nat, clear: set<nat>)
    ensures Tree(m, dir, root, clear) <==>
      && ROOT in dir && dir[ROOT] == root
      && (forall t :: t in dir ==> TableOk(m, dir, t, clear))
      && (forall t, u :: t in dir && u in dir && dir[t] == dir[u] ==> t == u)
  {
  }

  lemma TableUsed(m: seq<nat>, dir: Dir, clear: set<nat>, t: Table)
    requires t in dir && TableOk(m, dir, t, clear)
    ensures dir[t] !in clear && dir[t] < WINDOW_FRAMES && InMemory(m, dir[t])
  {
  }

  lemma NewTableOk(m: seq<nat>, m': seq<nat>, dir: Dir, root: nat, clear: set<nat>, t: Table, index: nat, f: nat)
    requires CanAdd(m, dir, root, clear, t, index, f) && ChildAdded(m, m', dir, t, index, f)
    ensures TableOk(m', dir[Child(t, index) := f], Child(t, index), clear - {f})
  {
    hide IsPresent;
    var c := Child(t, index);
    var dir' := dir[c := f];
    PrefixUp(t.prefix, index);
    assert Parent(c) == t;
    assert TableOk(m, dir, t, clear);
    if c.level >= 2 {
      forall i | 0 <= i < ENTRIES ensures EntryOk(m', dir', c, i) {
        ChildOf(c, i);
        assert Child(c, i) in dir ==> TableOk(m, dir, Child(c, i), clear);
        PresentIsOdd(0);
        assert m'[Word(f, i)] == 0;
      }
    }
  }

  lemma ChildOf(t: Table, index: nat)
    requires t.level >= 2 && index < ENTRIES
    ensures Parent(Child(t, index)) == t && Child(t, index) != t
    ensures forall u: Table, i: nat :: u.level >= 2 && i < ENTRIES && Child(u, i) == Child(t, index) ==>
      u == t && i == index
  {
    PrefixUp(t.prefix, index);
    forall u: Table, i: nat | u.level >= 2 && i < ENTRIES && Child(u, i) == Child(t, index)
      ensures u == t && i == index
    {
      PrefixUp(u.prefix, i);
    }
  }

  lemma OldTableOk(m: seq<nat>, m': seq<nat>, dir: Dir, root: nat, clear: set<nat>,
                   t: Table, index: nat, f: nat, u: Table)
    requires CanAdd(m, dir, root, clear, t, index, f) && ChildAdded(m, m', dir, t, index, f) && u in dir
    ensures TableOk(m', dir[Child(t, index) := f], u, clear - {f})
  {
    hide IsPresent, TableEntry;
    var dir' := dir[Child(t, index) := f];
    assert TableOk(m, dir, u, clear) && TableOk(m, dir, t, clear);
    if u.level >= 2 {
      forall i | 0 <= i < ENTRIES ensures EntryOk(m', dir', u, i) {
        assert EntryOk(m, dir, u, i);
        ChildOf(t, index);
        if u == t && i == index {
          TableEntryLeads(f);
        } else {
          assert dir[u] == dir[t] ==> u == t;
          assert m'[Word(dir[u], i)] == m[Word(dir[u], i)];
        }
      }
    }
  }

  /** Hanging a new zeroed table into the tree changes no walk. */
  lemma AddKeepsWalks(m: seq<nat>, m': seq<nat>, dir: Dir, root: nat, clear: set<nat>,
                      t: Table, index: nat, f: nat, v: nat)
    requires CanAdd(m, dir, root, clear, t, index, f) && ChildAdded(m, m', dir, t, index, f)
    ensures Walk(m', root, v) == Walk(m, root, v)
  {
    hide Tree, PageNumber, TableEntry, IsPresent, Walk;
    var dir' := dir[Child(t, index) := f];
    AddKeepsTree(m, m', dir, root, clear, t, index, f);
    WalkByDirectory(m, dir, root, clear, v);
    WalkByDirectory(m', dir', root, clear - {f}, v);
    TreeParts(m, dir, root, clear);
    var leaf := Table(1, PageNumber(v) / ENTRIES);
    var i := PageNumber(v) % ENTRIES;
    if leaf in dir {
      assert TableOk(m, dir, leaf, clear) && TableOk(m, dir, t, clear);
      assert dir[leaf] != dir[t];
      assert m'[Word(dir[leaf], i)] == m[Word(dir[leaf], i)];
    } else if leaf == Child(t, index) {
      assert m'[Word(f, i)] == 0;
      PresentIsOdd(0);
    }
  }

  /** m' is m with one leaf entry written. */
  ghost predicate LeafWritten(m: seq<nat>, m': seq<nat>, frame: nat, index: nat, e: nat) {
    Word(frame, index) < |m| && m' == m[Word(frame, index) := e]
  }

  lemma LeafKeepsTree(m: seq<nat>, m': seq<nat>, dir: Dir, root: nat, clear: set<nat>, t: Table, index: nat, e: nat)
    requires Tree(m, dir, root, clear) && t in dir && t.level == 1 && index < ENTRIES
    requires LeafWritten(m, m', dir[t], index, e)
    ensures Tree(m', dir, root, clear)
  {
    hide IsPresent, TableEntry;
    forall u | u in dir ensures TableOk(m', dir, u, clear) {
      assert TableOk(m, dir, u, clear);
      if u.level >= 2 {
        forall i | 0 <= i < ENTRIES ensures EntryOk(m', dir, u, i) {
          assert EntryOk(m, dir, u, i);
          assert dir[u] != dir[t];
        }
      }
    }
  }

  /** Writing a present leaf entry sets the walk of its page and no other. */
  lemma LeafSetsWalk(m: seq<nat>, m': seq<nat>, dir: Dir, root: nat, clear: set<nat>, page: nat, e: nat, v: nat)
    requires Tree(m, dir, root, clear) && Table(1, page / ENTRIES) in dir && IsPresent(e)
    requires LeafWritten(m, m', dir[Table(1, page / ENTRIES)], page % ENTRIES, e)
    ensures Walk(m', root, v) == if PageNumber(v) == page then Some(e) else Walk(m, root, v)
  {
    hide Tree, PageNumber, TableEntry, IsPresent, Walk;
    var t := Table(1, page / ENTRIES);
    LeafKeepsTree(m, m', dir, root, clear, t, page % ENTRIES, e);
    WalkByDirectory(m, dir, root, clear, v);
    WalkByDirectory(m', dir, root, clear, v);
    TreeParts(m, dir, root, clear);
    var leaf := Table(1, PageNumber(v) / ENTRIES);
    if leaf in dir && leaf != t {
      assert dir[leaf] != dir[t];
    }
  }

  /** A root frame of zeroes is a tree in which no address is mapped. */
  lemma FreshRoot(m: seq<nat>, root: nat, clear: set<nat>)
    requires root !in clear && root < WINDOW_FRAMES && InMemory(m, root)
    requires forall i :: 0 <= i < ENTRIES ==> m[Word(root, i)] == 0
    ensures Tree(m, map[ROOT := root], root, clear)
    ensures forall v :: Walk(m, root, v) == None
  {
    hide IsPresent, Walk, PageNumber;
    PresentIsOdd(0);
    var dir := map[ROOT := root];
    forall i | 0 <= i < ENTRIES ensures EntryOk(m, dir, ROOT, i) {
      ChildOf(ROOT, i);
    }
    assert TableOk(m, dir, ROOT, clear);
    forall v ensures Walk(m, root, v) == None {
      WalkByDirectory(m, dir, root, clear, v);
    }
  }

  // ----- Bits of entries and rights of addresses -----

  const WRITE_BIT: nat := 1
  const USER_BIT: nat := 2

  /** The entry of a table: present, writable and user in the low twelve bits and nothing else there,
      and the number of the frame above them. */
  lemma TableEntryBits(frame: nat, k: nat)
    ensures Bit(TableEntry(frame), k) <==> if k < 12 then k <= 2 else Bit(frame, k - 12)
  {
    hide Or, Shl;
    Powers();
    ShlMultiplies(frame, 12);
    OrBit(frame * PAGE_SIZE, TABLE_FLAGS, k);
    ShlBit(frame, 12, k);
    SevenBits(k);
  }

  lemma {:induction false} ShlBit(x: nat, n: nat, k: nat)
    ensures Bit(Shl(x, n), k) <==> k >= n && Bit(x, k - n)
    decreases n
  {
    if n > 0 && k > 0 { ShlBit(x, n - 1, k - 1); }
  }

  lemma SevenBits(k: nat)
    ensures Bit(7, k) <==> k <= 2
  {
    if k > 2 {
      HighBitsClear(7, 3, k);
    } else {
      assert Bit(7, 0) && Bit(7 / 2, 0) && Bit(7 / 2 / 2, 0);
    }
  }

  /** What an address may be used for. */
  datatype Access = Access(writable: bool, user: bool)

  function EntryAccess(e: nat): Access { Access(Bit(e, WRITE_BIT), Bit(e, USER_BIT)) }

  function Both(a: Access, b: Access): Access { Access(a.writable && b.writable, a.user && b.user) }

  /** The rights that the hardware grants at an address: those that the entries of all four levels have
      in common; none if the address is not mapped. */
  function Rights(m: seq<nat>, root: nat, v: nat): Option<Access> {
    var e4 := Follow(m, Some(root), LevelIndex(v, 4));
    var e3 := Follow(m, NextFrame(e4), LevelIndex(v, 3));
    var e2 := Follow(m, NextFrame(e3), LevelIndex(v, 2));
    var e1 := Follow(m, NextFrame(e2), LevelIndex(v, 1));
    if e1 == None || e2 == None || e3 == None || e4 == None then None
    else
      var upper := Both(Both(EntryAccess(e4.value), EntryAccess(e3.value)), EntryAccess(e2.value));
      Some(Both(upper, EntryAccess(e1.value)))
  }

  /** Entries of tables above the leaves grant everything. */
  lemma UpperEntryGrantsAll(m: seq<nat>, dir: Dir, root: nat, clear: set<nat>, t: Table, index: nat)
    requires Tree(m, dir, root, clear) && 2 <= t.level <= 4 && index < ENTRIES
    ensures var e := Follow(m, Lookup(dir, t), index); e.Some? ==> EntryAccess(e.value) == Access(true, true)
  {
    hide IsPresent, TableEntry;
    if t in dir {
      assert TableOk(m, dir, t, clear) && EntryOk(m, dir, t, index);
      if Child(t, index) in dir {
        TableEntryBits(dir[Child(t, index)], WRITE_BIT);
        TableEntryBits(dir[Child(t, index)], USER_BIT);
      }
    }
  }

  /** In a tree of tables the leaf entry alone decides the rights at an address. */
  lemma LeafDecidesRights(m: seq<nat>, dir: Dir, root: nat, clear: set<nat>, v: nat)
    requires Tree(m, dir, root, clear)
    ensures Rights(m, root, v)
         == if Walk(m, root, v) == None then None else Some(EntryAccess(Walk(m, root, v).value))
  {
    hide LevelIndex, Follow, NextFrame, PrefixAt, TableOk, EntryAccess;
    TreeParts(m, dir, root, clear);
    RightsStep(m, dir, root, clear, v, 4);
    RightsStep(m, dir, root, clear, v, 3);
    RightsStep(m, dir, root, clear, v, 2);
    RootIsFirst(dir, root, v);
    NothingFollowsNone(m, v);
  }

  lemma RightsStep(m: seq<nat>, dir: Dir, root: nat, clear: set<nat>, v: nat, level: nat)
    requires Tree(m, dir, root, clear) && 2 <= level <= 4
    ensures var e := Follow(m, Lookup(dir, Table(level, PrefixAt(v, level))), LevelIndex(v, level));
      NextFrame(e) == Lookup(dir, Table(level - 1, PrefixAt(v, level - 1)))
      && (e.Some? ==> EntryAccess(e.value) == Access(true, true))
  {
    hide Tree, LevelIndex, Follow, NextFrame, PrefixAt, EntryAccess;
    WalkStep(m, dir, root, clear, v, level);
    IndicesArePageNumber(v, level);
    UpperEntryGrantsAll(m, dir, root, clear, Table(level, PrefixAt(v, level)), LevelIndex(v, level));
  }

  lemma RootIsFirst(dir: Dir, root: nat, v: nat)
    requires ROOT in dir && dir[ROOT] == root
    ensures Lookup(dir, Table(4, PrefixAt(v, 4))) == Some(root)
  {
  }

  lemma NothingFollowsNone(m: seq<nat>, v: nat)
    ensures forall i :: Follow(m, None, i) == None
    ensures forall e :: NextFrame(e) == None <==> e == None
  {
  }
}
