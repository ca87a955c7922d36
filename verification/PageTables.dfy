/** The page table object of kernel/common/mm.h: pool memory updated in place, tied to the functions of Paging. */
module PageTables {
  import opened Options
  import opened VirtualAddress
  import opened Paging
  import opened Mapping
  import opened KernelWindow

  class PageTable {
    const pages: nat
    const virt: nat  // where the pool is mapped
    const phys: nat  // where the pool is
    var root: nat    // CR3

    const physInfo: array<bool>   // the present bits kept in page 0
    const mem: array<seq<nat>>    // the entries of each pool page

    ghost var level: seq<nat>
    ghost var parent: seq<Slot>
    ghost var used: nat

    ghost function State(): Pool
      reads this, physInfo, mem
    {
      Pool(virt, phys, root, physInfo[..], mem[..], level, parent, used)
    }

    ghost predicate Shape()
      reads this
    {
      physInfo.Length == mem.Length == pages && pages >= 1
    }

    ghost predicate Valid()
      reads this, physInfo, mem
    {
      Shape() && Tree(State())
    }

    /** A page table over a zeroed pool, with cr3 == 0: phys_info and the PML4 take the first two pages. */
    constructor (virt: nat, phys: nat, pages: nat)
      requires 2 <= pages && IsPageAligned(phys) && phys + pages * PAGE_SIZE <= PHYSICAL_LIMIT
      ensures Valid() && State() == Fresh(virt, phys, pages) && Empty(State())
      ensures this.virt == virt && this.phys == phys && this.pages == pages && root == phys + 0x1000
      ensures fresh(physInfo) && fresh(mem)
    {
      this.pages, this.virt, this.phys := pages, virt, phys;
      root := 0;
      physInfo := new bool[pages](_ => false);
      mem := new seq<nat>[pages](_ => seq(ENTRIES, _ => 0));
      level := seq(pages, q => if q == 1 then 4 else 0);
      parent := seq(pages, _ => Slot(0, 0));
      used := 1;
      new;
      physInfo[0] := true;
      var page, physical := AllocatePhysical();
      root := physical;
      FreshIsEmpty(virt, phys, pages);
      assert physInfo[..] == Fresh(virt, phys, pages).present;
      assert mem[..] == Fresh(virt, phys, pages).mem;
    }

    /** Takes the first page that is not present; 0 when there is none. */
    method AllocatePhysical() returns (page: nat, physical: nat)
      requires Shape()
      modifies physInfo, `used
      ensures match FirstFree(old(physInfo[..]), 1)
              case None => page == 0 && physInfo[..] == old(physInfo[..]) && used == old(used)
              case Some(q) => page == q && physical == phys + q * PAGE_SIZE && physInfo[..] == old(physInfo[..])[q := true]
                              && used == old(used) + 1
      ensures old(Valid()) ==> Valid() && (State(), page) == AllocateSpec(old(State()))
    {
      ghost var before := physInfo[..];
      ghost var state := State();
      if Valid() {
        FirstFreeIsNext(state);
        var r := AllocateSpec(state);
      }
      hide Tree;
      page := 1;
      physical := 0;
      while page < pages
        invariant 1 <= page <= pages
        invariant physInfo[..] == before
        invariant FirstFree(before, page) == FirstFree(before, 1)
      {
        if !physInfo[page] {
          physInfo[page] := true;
          physical := phys + page * PAGE_SIZE;
          used := used + 1;
          assert physInfo[..] == before[page := true];
          assert State() == Take(state, page);
          return;
        }
        page := page + 1;
      }
      page := 0;
    }

    /** A request for no page still takes one. */
    static function AtLeastOne(count: nat): nat { if count == 0 then 1 else count }

    /** Takes `count` pages one at a time and returns the first.  Pages are never returned to the pool,
        so the run is contiguous; a call that runs out of pages has still taken all that were left. */
    method AllocatePhysicalPages(count: nat) returns (page: nat, physical: nat)
      requires Valid()
      modifies physInfo, `used
      ensures Valid() && unchanged(mem) && level == old(level) && root == old(root)
      ensures page != 0 <==> AtLeastOne(count) <= pages - old(used)
      ensures page != 0 ==> page == old(used) && physical == phys + page * PAGE_SIZE && used == old(used) + AtLeastOne(count)
      ensures page != 0 ==> forall q | page <= q < page + AtLeastOne(count) :: !old(physInfo[..])[q] && physInfo[q]
      ensures page == 0 ==> used == pages
    {
      page, physical := AllocatePhysical();
      if page == 0 {
        return;
      }
      for i := 1 to AtLeastOne(count)
        invariant Valid() && unchanged(mem) && level == old(level) && root == old(root)
        invariant page == old(used) && used == old(used) + i <= pages
      {
        var next, _ := AllocatePhysical();
        if next == 0 {
          page := 0;
          return;
        }
      }
    }

    /** The pool page that lies at the virtual address of a paging structure. */
    function PageOf(physical: nat): int {
      (PoolEntryVa(phys, virt, physical) - virt) / PAGE_SIZE
    }

    lemma PageOfEntry(p: Pool, entry: nat)
      requires p.phys == phys
      ensures PageOf(Frame(entry)) == PoolPage(p, entry)
    {
    }

    /** GetPresentPte: the slot of the leaf entry, if every table above it is present. */
    method GetPresentPte(address: nat) returns (pte: Option<Slot>)
      requires Valid()
      ensures pte == match TableAt(State(), address, 1)
                     case None => None
                     case Some(t) => Some(Slot(t, Index(address, 1)))
    {
      ghost var p := State();
      assert Sized(p) && PageOf(root) == 1;
      var pml4e := mem[PageOf(root)][Index(address, 4)];
      EntryInPool(1, address, 4);
      if HasFlag(pml4e, PRESENT) {
        var pdpte := mem[PageOf(Frame(pml4e))][Index(address, 3)];
        EntryInPool(PoolPage(p, pml4e), address, 3);
        if HasFlag(pdpte, PRESENT) {
          var pde := mem[PageOf(Frame(pdpte))][Index(address, 2)];
          EntryInPool(PoolPage(p, pdpte), address, 2);
          if HasFlag(pde, PRESENT) {
            return Some(Slot(PageOf(Frame(pde)), Index(address, 1)));
          }
        }
      }
      return None;
    }

    lemma EntryInPool(page: int, address: nat, l: nat)
      requires Valid() && 2 <= l <= 4 && 0 <= page < pages
      requires TableAt(State(), address, l) == Some(page)
      ensures var e := mem[page][Index(address, l)];
              && (HasFlag(e, PRESENT) ==> 0 <= PageOf(Frame(e)) < pages && TableAt(State(), address, l - 1) == Some(PageOf(Frame(e))))
              && (!HasFlag(e, PRESENT) ==> TableAt(State(), address, 1).None?)
    {
      ghost var p := State();
      var e := mem[page][Index(address, l)];
      TableAtLevel(p, address, l);
      FollowLink(p, page, Index(address, l));
      ZeroHasNoFlag();
      if !HasFlag(e, PRESENT) {
        TableBelowNone(p, address, l - 1);
      }
    }

    method IsPagePresent(address: nat) returns (present: bool)
      requires Valid()
      ensures present == IsMapped(State(), address)
    {
      var pte := GetPresentPte(address);
      match pte
      case None =>
        ZeroHasNoFlag();
        present := false;
      case Some(slot) => present := HasFlag(mem[slot.page][slot.index], PRESENT);
    }

    method WriteEntry(page: nat, index: nat, entry: nat)
      requires page < mem.Length && index < |mem[page]|
      modifies mem
      ensures mem[..] == Store(old(mem[..]), page, index, entry)
    {
      mem[page] := mem[page][index := entry];
    }

    /** Sets or clears one flag of the leaf entry of an address, if there is a leaf table. */
    method UpdatePte(address: nat, flag: nat, on: bool) returns (found: bool)
      requires Valid() && flag > 0
      modifies mem
      ensures Valid() && (State(), found) == UpdateLeafSpec(old(State()), address, flag, on)
    {
      ghost var p := State();
      TreeIsSized(p);
      var pte := GetPresentPte(address);
      match pte
      case None => found := false;
      case Some(slot) =>
        hide Tree, SetFlag, TableAt, Index;
        WriteEntry(slot.page, slot.index, SetFlag(mem[slot.page][slot.index], flag, on));
        found := true;
        assert State() == WriteLeaf(p, slot.page, slot.index, SetFlag(Leaf(p, address), flag, on));
        assert (State(), found) == UpdateLeafSpec(p, address, flag, on);
    }

    method UnmapPage(address: nat) returns (found: bool)
      requires Valid()
      modifies mem
      ensures Valid() && (State(), found) == UpdateLeafSpec(old(State()), address, PRESENT, false)
    {
      found := UpdatePte(address, PRESENT, false);
    }

    /** Fills an empty entry with a link to page q: first the address, then the three flags. */
    method LinkTable(page: nat, index: nat, q: nat, physical: nat, user: bool)
      requires Shape() && Sized(State()) && IsTable(State(), page) && index < ENTRIES && q < pages
      requires physical == PhysicalOf(State(), q)
      modifies mem, `level, `parent
      ensures Shape() && State() == Link(old(State()), page, index, q, user)
    {
      EntryLayout(physical, user);
      hide SetFlag, MappedEntry;
      var entry := SetFlag(SetFlag(SetFlag(physical, PRESENT, true), WRITABLE, true), USER, user);
      WriteEntry(page, index, entry);
      level := SetLevel(level, q, level[page] - 1);
      parent := parent[q := Slot(page, index)];
    }

    /** The block MapPage repeats for its three upper levels: make sure the entry leads to a table, and follow it. */
    method EnsureTable(page: nat, index: nat, user: bool) returns (next: nat)
      requires Valid() && IsTable(State(), page) && level[page] >= 2 && index < ENTRIES
      modifies physInfo, mem, `used, `level, `parent
      ensures Valid() && (State(), next) == EnsureSpec(old(State()), page, index, user)
    {
      ghost var p := State();
      TreeIsSized(p);
      EnsureCases(p, page, index, user);
      if p.used < |p.mem| {
        LinkTarget(p, p.used, user);
      }
      PageOfEntry(p, if mem[page][index] != 0 then mem[page][index] else MappedEntry(PhysicalOf(p, p.used), user));
      hide Tree, MappedEntry, EnsureSpec, AllocateSpec, FirstFree, HasFlag, HardwareFrame, IsLink, PageOf, PoolPage, Frame;
      if mem[page][index] == 0 {
        var q, physical := AllocatePhysical();
        if q == 0 {
          return 0;
        }
        LinkTable(page, index, q, physical, user);
        assert mem[page][index] == MappedEntry(PhysicalOf(p, q), user);
      }
      next := PageOf(Frame(mem[page][index]));
    }

    /** The three upper levels of MapPage: the leaf table on the path of an address, or 0. */
    method Descend(address: nat, user: bool) returns (pt: nat)
      requires Valid()
      modifies physInfo, mem, `used, `level, `parent
      ensures Valid() && (State(), pt) == DescendSpec(old(State()), 1, 4, address, user)
    {
      assert Sized(State()) && PageOf(root) == 1 && level[1] == 4;
      hide Tree, EnsureSpec, Index, Sized, IsLink;
      var pdpt := EnsureTable(PageOf(root), Index(address, 4), user);
      if pdpt == 0 {
        return 0;
      }
      var pd := EnsureTable(pdpt, Index(address, 3), user);
      if pd == 0 {
        return 0;
      }
      pt := EnsureTable(pd, Index(address, 2), user);
    }

    method MapPage(address: nat, physical: nat, user: bool) returns (ok: bool)
      requires Valid()
      modifies physInfo, mem, `used, `level, `parent
      ensures Valid() && (State(), ok) == MapPageSpec(old(State()), address, physical, user)
    {
      if !IsPageAligned(address) || !IsPageAligned(physical) {
        return false;
      }
      ghost var p := State();
      ghost var (r, t) := DescendSpec(p, 1, 4, address, user);
      assert t == 0 ==> MapPageSpec(p, address, physical, user) == (r, false);
      assert t != 0 ==> MapPageSpec(p, address, physical, user)
                        == (WriteLeaf(r, t, Index(address, 1), MappedEntry(physical, user)), true);
      TreeIsSized(r);
      EntryLayout(physical, user);
      hide Tree, SetFlag, MappedEntry, DescendSpec, Index, MapPageSpec;
      var pt := Descend(address, user);
      if pt == 0 {
        return false;
      }
      var pte := SetFlag(SetFlag(SetFlag(SetFlag(physical, PRESENT, true), WRITABLE, true), GLOBAL, false), USER, user);
      WriteEntry(pt, Index(address, 1), pte);
      return true;
    }

    method MapPages(address: nat, physical: nat, count: nat) returns (ok: bool)
      requires Valid()
      modifies physInfo, mem, `used, `level, `parent
      ensures Valid() && (State(), ok) == MapPagesSpec(old(State()), address, physical, count)
    {
      hide Tree, MapPageSpec;
      ghost var p := State();
      ghost var i := 0;
      var offset := 0;
      while offset < count * PAGE_SIZE
        invariant Valid() && i <= count && offset == i * PAGE_SIZE
        invariant MapPagesFrom(State(), address, physical, count, i) == MapPagesSpec(p, address, physical, count)
        decreases count - i
      {
        var mapped := MapPage(address + offset, physical + offset, false);
        if !mapped {
          return false;
        }
        offset := offset + PAGE_SIZE;
        i := i + 1;
      }
      return true;
    }

    /** phys_virt is the physical address on entry; the virtual address is the result. */
    method MapPagesInRegion(rg: Region, physical: nat, count: nat) returns (mapped: Option<nat>)
      requires Valid()
      modifies physInfo, mem, `used, `level, `parent
      ensures Valid() && (State(), mapped) == MapInRegionSpec(old(State()), rg, physical, count)
    {
      hide Tree, IsMapped, MapPagesSpec;
      if count * PAGE_SIZE > rg.size {
        return None;
      }
      ghost var p := State();
      var page := rg.base;
      while page + count * PAGE_SIZE <= rg.End()
        invariant Valid() && State() == p
        invariant ScanRegion(p, rg, physical, count, page) == ScanRegion(p, rg, physical, count, rg.base)
        decreases rg.End() - page
      {
        var present := IsPagePresent(page);
        if present {
          page := page + PAGE_SIZE;
          continue;
        }
        var ok := MapPages(page, physical, count);
        return if ok then Some(page) else None;
      }
      return None;
    }
  }
}
