/** libk/bootinfo.c: the memory map handed over at boot, rounded to pages. */
module BootMap {
  import opened Words
  import opened Ranges

  // Code of a usable entry in the boot protocol's memory map; its header is not part of this model.
  const USABLE: nat := 1
  const LIMIT_MEMORY_MAP_SIZE: nat := 64

  /** An entry as the boot loader passes it. */
  datatype RawEntry = RawEntry(range: AddrRange, kind: nat)

  datatype MmapEntry = MmapEntry(range: AddrRange, kind: nat)

  /** The type is cut to 16 bits when it is stored. */
  function Parsed(e: RawEntry): MmapEntry { MmapEntry(Aligned(e.range), e.kind % 0x1_0000) }

  function ParsedAll(es: seq<RawEntry>): (r: seq<MmapEntry>)
    ensures |r| == |es|
    ensures forall i :: 0 <= i < |es| ==> r[i] == Parsed(es[i])
  {
    seq(|es|, i requires 0 <= i < |es| => Parsed(es[i]))
  }

  /** Bytes of the usable entries. */
  function UsableBytes(es: seq<RawEntry>): nat {
    if es == [] then 0
    else UsableBytes(es[..|es|-1]) + if es[|es|-1].kind == USABLE then es[|es|-1].range.length else 0
  }

  class BootInfo {
    var memoryMapSize: nat
    var memoryUsable: nat
    var usablePages: nat
    var mmap: array<MmapEntry>

    ghost predicate Valid()
      reads this, mmap
    {
      mmap.Length == LIMIT_MEMORY_MAP_SIZE && memoryMapSize <= LIMIT_MEMORY_MAP_SIZE && memoryUsable < TWO_64
    }

    ghost function Entries(): seq<MmapEntry>
      requires Valid()
      reads this, mmap
    {
      mmap[..memoryMapSize]
    }

    constructor ()
      ensures Valid() && fresh(mmap) && Entries() == [] && memoryUsable == 0 && usablePages == 0
    {
      memoryMapSize, memoryUsable, usablePages := 0, 0, 0;
      mmap := new MmapEntry[LIMIT_MEMORY_MAP_SIZE](_ => MmapEntry(AddrRange(0, 0), 0));
    }

    /** The next entry of the map: stored first, then rounded in place. */
    method AddEntry(e: RawEntry)
      requires Valid() && memoryMapSize < LIMIT_MEMORY_MAP_SIZE
      modifies `memoryMapSize, mmap
      ensures Valid() && Entries() == old(Entries()) + [Parsed(e)] && memoryMapSize == old(memoryMapSize) + 1
    {
      hide Aligned;
      mmap[memoryMapSize] := MmapEntry(e.range, e.kind % 0x1_0000);
      var aligned := AlignRange(mmap[memoryMapSize].range);
      mmap[memoryMapSize] := mmap[memoryMapSize].(range := aligned);
      memoryMapSize := memoryMapSize + 1;
    }

    /** stivale2_parse_mmap.  The program does not check that the map has room. */
    method ParseMmap(raw: seq<RawEntry>)
      requires Valid() && memoryMapSize + |raw| <= LIMIT_MEMORY_MAP_SIZE
      modifies this, mmap
      ensures Valid() && mmap == old(mmap)
      ensures Entries() == old(Entries()) + ParsedAll(raw)
      ensures memoryUsable == (old(memoryUsable) + UsableBytes(raw)) % TWO_64
      ensures usablePages == if raw == [] then old(usablePages) else memoryUsable / PAGE_SIZE
    {
      hide UsableBytes, Parsed;
      NoBytes(raw);
      var i := 0;
      while i < |raw|
        invariant i <= |raw| && mmap == old(mmap) && Valid()
        invariant memoryMapSize == old(memoryMapSize) + i
        invariant mmap[..memoryMapSize] == old(Entries()) + ParsedAll(raw)[..i]
        invariant memoryUsable == (old(memoryUsable) + UsableBytes(raw[..i])) % TWO_64
        invariant usablePages == if i == 0 then old(usablePages) else memoryUsable / PAGE_SIZE
      {
        var e := raw[i];
        if e.kind == USABLE {
          memoryUsable := (memoryUsable + e.range.length) % TWO_64;
        }
        SumStep(raw, i, old(memoryUsable));
        usablePages := memoryUsable / PAGE_SIZE;
        AddEntry(e);
        assert ParsedAll(raw)[..i+1] == ParsedAll(raw)[..i] + [Parsed(e)];
        i := i + 1;
      }
      assert raw[..i] == raw;
    }
  }

  /** The map has one entry for each raw one, in order.  Its type is the raw one if and only if that fits
      in 16 bits; so an entry is usable whenever the raw one is, but not only then. */
  lemma StoredTypes(raw: seq<RawEntry>, i: nat)
    requires i < |raw|
    ensures |ParsedAll(raw)| == |raw| && ParsedAll(raw)[i].range == Aligned(raw[i].range)
    ensures ParsedAll(raw)[i].kind == raw[i].kind <==> raw[i].kind < 0x1_0000
    ensures exists q: nat :: raw[i].kind == q * 0x1_0000 + ParsedAll(raw)[i].kind && ParsedAll(raw)[i].kind < 0x1_0000
  {
    assert raw[i].kind == raw[i].kind / 0x1_0000 * 0x1_0000 + ParsedAll(raw)[i].kind;
  }

  /** The usable bytes of two maps add up, and one entry counts exactly if it is usable. */
  lemma {:induction false} UsableBytesAdd(a: seq<RawEntry>, b: seq<RawEntry>)
    ensures UsableBytes(a + b) == UsableBytes(a) + UsableBytes(b)
    ensures |b| == 1 ==> UsableBytes(b) == if b[0].kind == USABLE then b[0].range.length else 0
  {
    if b == [] {
      assert a + b == a;
    } else {
      var n := |b| - 1;
      assert (a + b)[..|a + b|-1] == a + b[..n];
      UsableBytesAdd(a, b[..n]);
    }
  }

  lemma NoBytes(raw: seq<RawEntry>)
    ensures UsableBytes(raw[..0]) == 0
  {
    assert raw[..0] == [];
  }

  lemma SumStep(raw: seq<RawEntry>, i: nat, start: nat)
    requires i < |raw|
    ensures (start + UsableBytes(raw[..i+1])) % TWO_64
      == if raw[i].kind == USABLE then ((start + UsableBytes(raw[..i])) % TWO_64 + raw[i].range.length) % TWO_64
         else (start + UsableBytes(raw[..i])) % TWO_64
  {
    assert raw[..i+1][..i] == raw[..i];
    AddWrapped(start + UsableBytes(raw[..i]), raw[i].range.length);
  }
}
