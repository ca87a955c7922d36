/** The processor's view of a page table: 4-level paging as in section 4.5 of the Intel SDM, volume 3A.
    A walk starts at CR3, faults on an entry that is not present, and stops early at a large page. */
module HardwareWalk {
  import opened Options
  import opened VirtualAddress
  import opened Paging

  /** Translation of an address from a table of the given level.  Only the pool's memory is described,
      so a table outside the pool yields no translation. */
  function WalkFrom(p: Pool, table: nat, address: nat, level: nat): Option<nat>
    requires Sized(p) && 1 <= level <= 4
    decreases level
  {
    var page := (table - p.phys) / PAGE_SIZE;
    if !(0 <= page < |p.mem|) then None
    else
      var e := p.mem[page][Index(address, level)];
      if !HasFlag(e, PRESENT) then None
      else if level == 1 then Some(HardwareFrame(e) + address % PAGE_SIZE)
      else if HasFlag(e, LARGE) then
        if level == 4 then None  // reserved bit set
        else Some(HardwareFrame(e) - HardwareFrame(e) % Span(level) + address % Span(level))
      else WalkFrom(p, HardwareFrame(e), address, level - 1)
  }

  /** What the processor translates an address to once CR3 holds the root. */
  function Translate(p: Pool, address: nat): Option<nat>
    requires Sized(p)
  {
    WalkFrom(p, p.root, address, 4)
  }

  function LeafTranslation(p: Pool, address: nat): Option<nat>
    requires Sized(p)
  {
    if IsMapped(p, address) then Some(HardwareFrame(Leaf(p, address)) + address % PAGE_SIZE) else None
  }

  /** On a tree the processor takes the walk the kernel takes: no large page, no reserved bit, never out of the pool. */
  lemma HardwareAgrees(p: Pool, address: nat)
    requires Tree(p)
    ensures Translate(p, address) == LeafTranslation(p, address)
  {
    WalkAgrees(p, address, 4);
  }

  lemma {:induction false} WalkAgrees(p: Pool, address: nat, level: nat)
    requires Tree(p) && 1 <= level <= 4 && TableAt(p, address, level).Some?
    ensures WalkFrom(p, PhysicalOf(p, TableAt(p, address, level).value), address, level) == LeafTranslation(p, address)
    decreases level
  {
    hide WalkFrom, LeafTranslation, HardwareFrame, Index, Leaf, HasFlag, Frame, IsLink, PhysicalOf, PoolPage;
    var t := TableAt(p, address, level).value;
    if level == 1 {
      WalkEnds(p, t, address);
    } else {
      TableAtLevel(p, address, level);
      FollowLink(p, t, Index(address, level));
      if p.mem[t][Index(address, level)] == 0 {
        NoLeafBelow(p, address, level - 1);
        ZeroHasNoFlag();
        NoTranslation(p, address);
        WalkFaults(p, t, address, level);
      } else {
        LinkChild(p, t, Index(address, level));
        WalkAgrees(p, address, level - 1);
        WalkDescends(p, t, address, level, TableAt(p, address, level - 1).value);
      }
    }
  }

  lemma WalkEnds(p: Pool, t: nat, address: nat)
    requires Sized(p) && TableAt(p, address, 1) == Some(t)
    ensures WalkFrom(p, PhysicalOf(p, t), address, 1) == LeafTranslation(p, address)
  {
    hide HasFlag, HardwareFrame, Index;
    assert (PhysicalOf(p, t) - p.phys) / PAGE_SIZE == t;
  }

  lemma WalkFaults(p: Pool, t: nat, address: nat, level: nat)
    requires Sized(p) && 1 <= level <= 4 && t < |p.mem| && !HasFlag(p.mem[t][Index(address, level)], PRESENT)
    ensures WalkFrom(p, PhysicalOf(p, t), address, level) == None
  {
  }

  lemma WalkDescends(p: Pool, t: nat, address: nat, level: nat, child: nat)
    requires Sized(p) && 2 <= level <= 4 && t < |p.mem| && child < |p.mem|
    requires var e := p.mem[t][Index(address, level)];
             HasFlag(e, PRESENT) && !HasFlag(e, LARGE) && HardwareFrame(e) == PhysicalOf(p, child)
    ensures WalkFrom(p, PhysicalOf(p, t), address, level) == WalkFrom(p, PhysicalOf(p, child), address, level - 1)
  {
    hide HasFlag, HardwareFrame, Index;
    assert (PhysicalOf(p, t) - p.phys) / PAGE_SIZE == t;
  }

  lemma NoTranslation(p: Pool, address: nat)
    requires Sized(p) && !HasFlag(Leaf(p, address), PRESENT)
    ensures LeafTranslation(p, address) == None
  {
  }

  lemma {:induction false} NoLeafBelow(p: Pool, address: nat, level: nat)
    requires Sized(p) && 1 <= level <= 4 && TableAt(p, address, level).None?
    ensures Leaf(p, address) == 0
    decreases level
  {
    if level > 1 {
      NoLeafBelow(p, address, level - 1);
    }
  }

  /** MapPage as the processor sees it.  On success every address of the page translates into the frame
      (reduced to the 52 bits an entry can hold) at the same offset; nothing else changes, and a failed call changes nothing. */
  lemma MapPageTranslates(p: Pool, virt: nat, phys: nat, user: bool, w: nat)
    requires Tree(p) && Canonical(virt) && Canonical(w)
    ensures var (r, ok) := MapPageSpec(p, virt, phys, user);
            Translate(r, w) == if ok && w / PAGE_SIZE == virt / PAGE_SIZE then Some(phys % PHYSICAL_LIMIT + w % PAGE_SIZE)
                               else Translate(p, w)
  {
    hide MapPageSpec, HasFlag, PageNumber, HardwareFrame, Tree, MappedEntry, Translate, Leaf, Missing;
    var (r, ok) := MapPageSpec(p, virt, phys, user);
    MapPageUpdates(p, virt, phys, user, w);
    HardwareAgrees(p, w);
    HardwareAgrees(r, w);
    CanonicalPages(virt, w);
    if ok {
      EntryLayout(phys, user);
    }
  }

  /** UnmapPage removes the translation of one page; its result tells whether the page had a leaf table at all. */
  lemma UnmapPageTranslates(p: Pool, virt: nat, w: nat)
    requires Tree(p) && Canonical(virt) && Canonical(w)
    ensures var (r, found) := UpdateLeafSpec(p, virt, PRESENT, false);
            && found == (Missing(p, virt) == 0)
            && Translate(r, w) == if w / PAGE_SIZE == virt / PAGE_SIZE then None else Translate(p, w)
  {
    var (r, found) := UpdateLeafSpec(p, virt, PRESENT, false);
    UpdateLeafEffect(p, virt, PRESENT, false, w);
    HardwareAgrees(p, w);
    HardwareAgrees(r, w);
    MissingNone(p, virt);
    if !found {
      NoLeafBelow(p, virt, 1);
    }
    assert Sized(p) && Sized(r);
    hide *;
    CanonicalPages(virt, w);
    FlagSet(Leaf(p, virt), PRESENT, false);
    ZeroHasNoFlag();
    if PageNumber(w) == PageNumber(virt) {
      SamePageSameLeaf(p, virt, w);
      NoTranslation(r, w);
    } else {
      SameLeafTranslation(p, r, w);
    }
  }

  /** Changing another flag of a leaf entry changes no translation. */
  lemma FlagKeepsTranslation(p: Pool, virt: nat, flag: nat, on: bool, w: nat)
    requires Tree(p) && IsAttribute(flag)
    ensures Translate(UpdateLeafSpec(p, virt, flag, on).0, w) == Translate(p, w)
  {
    var r := UpdateLeafSpec(p, virt, flag, on).0;
    HardwareAgrees(p, w);
    HardwareAgrees(r, w);
    UpdateLeafEffect(p, virt, flag, on, w);
    FlagKeepsFrame(Leaf(p, virt), flag, on);
    assert Sized(p) && Sized(r);
    hide *;
    if PageNumber(w) == PageNumber(virt) {
      SamePageSameLeaf(p, virt, w);
    }
    SameLeafTranslation(p, r, w);
  }

  lemma SameLeafTranslation(p: Pool, r: Pool, w: nat)
    requires Sized(p) && Sized(r)
    requires HasFlag(Leaf(r, w), PRESENT) == HasFlag(Leaf(p, w), PRESENT) && HardwareFrame(Leaf(r, w)) == HardwareFrame(Leaf(p, w))
    ensures LeafTranslation(r, w) == LeafTranslation(p, w)
  {
  }

  /** Allocating pages, and writing to pages that were handed out as plain memory, changes no translation. */
  lemma DataPagesAreInvisible(p: Pool, page: nat, index: nat, entry: nat, w: nat)
    requires Tree(p) && page < p.used && p.level[page] == 0 && index < ENTRIES
    ensures Tree(WriteLeaf(p, page, index, entry)) && Translate(WriteLeaf(p, page, index, entry), w) == Translate(p, w)
    ensures Translate(AllocateSpec(p).0, w) == Translate(p, w)
  {
    var r, a := WriteLeaf(p, page, index, entry), AllocateSpec(p).0;
    WriteLeafKeepsTree(p, page, index, entry);
    WriteLeafTables(p, page, index, entry, w, 1);
    TableAtLevel(p, w, 1);
    assert Leaf(r, w) == Leaf(p, w);
    SameMemorySameTable(p, a, w, 1);
    assert Leaf(a, w) == Leaf(p, w);
    HardwareAgrees(p, w);
    HardwareAgrees(r, w);
    HardwareAgrees(a, w);
    assert Sized(p) && Sized(r) && Sized(a);
    hide *;
    SameLeafTranslation(p, r, w);
    SameLeafTranslation(p, a, w);
  }

  lemma {:induction false} SameMemorySameTable(p: Pool, r: Pool, w: nat, level: nat)
    requires Sized(p) && Sized(r) && p.mem == r.mem && p.phys == r.phys && 1 <= level <= 4
    ensures TableAt(r, w, level) == TableAt(p, w, level)
    decreases 4 - level
  {
    if level < 4 {
      SameMemorySameTable(p, r, w, level + 1);
    }
  }
}
