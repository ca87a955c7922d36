/** Runs of mappings: MapPages, MapPagesInRegion and the page budget of the kernel window (kernel/common/mm.h, va.h). */
module Mapping {
  import opened Options
  import opened VirtualAddress
  import opened Paging

  // ---------------------------------------------------------------- MapPages

  /** MapPages from its i-th page on. */
  function MapPagesFrom(p: Pool, virt: nat, phys: nat, count: nat, i: nat): (r: (Pool, bool))
    requires Tree(p) && i <= count
    ensures Tree(r.0) && |r.0.mem| == |p.mem| && r.0.phys == p.phys && r.0.virt == p.virt && r.0.root == p.root
    decreases count - i
  {
    if i == count then (p, true)
    else
      var (r, ok) := MapPageSpec(p, virt + i * PAGE_SIZE, phys + i * PAGE_SIZE, false);
      if ok then MapPagesFrom(r, virt, phys, count, i + 1) else (r, false)
  }

  function MapPagesSpec(p: Pool, virt: nat, phys: nat, count: nat): (r: (Pool, bool))
    requires Tree(p)
    ensures Tree(r.0) && |r.0.mem| == |p.mem| && r.0.phys == p.phys && r.0.virt == p.virt && r.0.root == p.root
  {
    MapPagesFrom(p, virt, phys, count, 0)
  }

  /** The entry that a run of mappings from virt to phys gives to address w. */
  function RunEntry(virt: nat, phys: nat, w: nat): nat
    requires virt <= w
  {
    MappedEntry(phys + (w - virt) / PAGE_SIZE * PAGE_SIZE, false)
  }

  /** The leaf of w after the pages [i, n) of a run have been mapped. */
  function AfterRun(p: Pool, virt: nat, phys: nat, i: nat, n: nat, w: nat): nat
    requires Sized(p)
  {
    if virt + i * PAGE_SIZE <= w < virt + n * PAGE_SIZE then RunEntry(virt, phys, w) else Leaf(p, w)
  }

  /** Where MapPagesFrom stops: count on success, otherwise the page for which MapPage failed. */
  function RunEnd(p: Pool, virt: nat, phys: nat, count: nat, i: nat): (n: nat)
    requires Tree(p) && i <= count
    ensures i <= n <= count
    decreases count - i
  {
    if i == count then count
    else
      var (r, ok) := MapPageSpec(p, virt + i * PAGE_SIZE, phys + i * PAGE_SIZE, false);
      if ok then RunEnd(r, virt, phys, count, i + 1) else i
  }

  /** MapPages maps the pages of its run up to where it stops, and changes no other leaf. */
  lemma {:induction false} MapPagesUpdates(p: Pool, virt: nat, phys: nat, count: nat, i: nat, w: nat)
    requires Tree(p) && i <= count && CanonicalRange(virt, count) && IsPageAligned(virt) && Canonical(w)
    ensures Leaf(MapPagesFrom(p, virt, phys, count, i).0, w) == AfterRun(p, virt, phys, i, RunEnd(p, virt, phys, count, i), w)
    decreases count - i
  {
    hide Tree, Sized, Leaf, MapPageSpec, AfterRun, IsPageAligned, Canonical, CanonicalRange;
    if i == count {
      RunDone(p, virt, phys, count, w);
    } else {
      var v, f := virt + i * PAGE_SIZE, phys + i * PAGE_SIZE;
      var (q, ok) := MapPageSpec(p, v, f, false);
      if ok {
        MapPagesUpdates(q, virt, phys, count, i + 1, w);
      }
      RunStep(p, q, ok, virt, phys, i, count, RunEnd(p, virt, phys, count, i), w);
    }
  }

  lemma RunDone(p: Pool, virt: nat, phys: nat, count: nat, w: nat)
    requires Tree(p)
    ensures Leaf(MapPagesFrom(p, virt, phys, count, count).0, w) == AfterRun(p, virt, phys, count, RunEnd(p, virt, phys, count, count), w)
  {
    hide Leaf, Tree;
  }

  /** MapPages succeeds exactly when it reaches the end of its run; an aligned call that stops earlier
      has met a page with more tables missing than the pool has pages left. */
  lemma {:induction false} MapPagesStops(p: Pool, virt: nat, phys: nat, count: nat, i: nat)
    requires Tree(p) && i <= count
    ensures var (r, ok) := MapPagesFrom(p, virt, phys, count, i);
            var n := RunEnd(p, virt, phys, count, i);
            && (ok <==> n == count)
            && (!ok && IsPageAligned(virt) && IsPageAligned(phys) ==> Missing(r, virt + n * PAGE_SIZE) > |p.mem| - r.used)
    decreases count - i
  {
    hide Tree, Sized, MapPageSpec, Missing, IsPageAligned;
    if i < count {
      var v, f := virt + i * PAGE_SIZE, phys + i * PAGE_SIZE;
      var (q, ok) := MapPageSpec(p, v, f, false);
      if ok {
        MapPagesStops(q, virt, phys, count, i + 1);
      } else if IsPageAligned(virt) && IsPageAligned(phys) {
        RunAligned(virt, phys, i);
        MapPageFails(p, v, f);
      }
    }
  }

  lemma RunAligned(virt: nat, phys: nat, i: nat)
    requires IsPageAligned(virt) && IsPageAligned(phys)
    ensures IsPageAligned(virt + i * PAGE_SIZE) && IsPageAligned(phys + i * PAGE_SIZE)
  {
  }

  /** How one mapping of a run shows up in the leaves. */
  lemma RunStep(p: Pool, q: Pool, ok: bool, virt: nat, phys: nat, i: nat, count: nat, n: nat, w: nat)
    requires Tree(p) && Tree(q) && Canonical(w) && CanonicalRange(virt, count) && IsPageAligned(virt) && i < count
    requires (q, ok) == MapPageSpec(p, virt + i * PAGE_SIZE, phys + i * PAGE_SIZE, false)
    requires if ok then i < n else n == i
    ensures ok ==> AfterRun(q, virt, phys, i + 1, n, w) == AfterRun(p, virt, phys, i, n, w)
    ensures !ok ==> Leaf(q, w) == AfterRun(p, virt, phys, i, n, w)
  {
    hide *;
    TreeIsSized(p);
    TreeIsSized(q);
    RunPrefix(virt, i + 1, count);
    MapPageUpdates(p, virt + i * PAGE_SIZE, phys + i * PAGE_SIZE, false, w);
    RunArithmetic(p, q, ok, virt, phys, i, n, w);
  }

  lemma RunPrefix(virt: nat, n: nat, count: nat)
    requires CanonicalRange(virt, count) && n <= count
    ensures CanonicalRange(virt, n)
  {
  }

  lemma RunArithmetic(p: Pool, q: Pool, ok: bool, virt: nat, phys: nat, i: nat, n: nat, w: nat)
    requires Sized(p) && Sized(q) && Canonical(w) && CanonicalRange(virt, i + 1) && IsPageAligned(virt)
    requires Leaf(q, w) == if ok && PageNumber(w) == PageNumber(virt + i * PAGE_SIZE) then MappedEntry(phys + i * PAGE_SIZE, false)
                           else Leaf(p, w)
    requires if ok then i < n else n == i
    ensures ok ==> AfterRun(q, virt, phys, i + 1, n, w) == AfterRun(p, virt, phys, i, n, w)
    ensures !ok ==> Leaf(q, w) == AfterRun(p, virt, phys, i, n, w)
  {
    hide Leaf, Sized, PageNumber;
    CanonicalPages(w, virt + i * PAGE_SIZE);
  }

  /** A failed MapPage leaves the address as short of tables as it found it short of pages. */
  lemma MapPageFails(p: Pool, virt: nat, phys: nat)
    requires Tree(p) && IsPageAligned(virt) && IsPageAligned(phys) && !MapPageSpec(p, virt, phys, false).1
    ensures var r := MapPageSpec(p, virt, phys, false).0; Missing(r, virt) > |p.mem| - r.used
  {
    DescendEffect(p, 1, 4, virt, false, 0);
  }

  // ---------------------------------------------------------------- MapPagesInRegion

  /** The scan of MapPagesInRegion from `page` on: it maps at the first page that is not mapped.
      No lookahead: it looks at that page only. */
  function ScanRegion(p: Pool, rg: Region, phys: nat, count: nat, page: nat): (r: (Pool, Option<nat>))
    requires Tree(p)
    ensures Tree(r.0) && |r.0.mem| == |p.mem| && r.0.phys == p.phys && r.0.virt == p.virt && r.0.root == p.root
    decreases rg.End() - page
  {
    if page + count * PAGE_SIZE > rg.End() then (p, None)
    else if IsMapped(p, page) then ScanRegion(p, rg, phys, count, page + PAGE_SIZE)
    else
      var (r, ok) := MapPagesSpec(p, page, phys, count);
      (r, if ok then Some(page) else None)
  }

  function MapInRegionSpec(p: Pool, rg: Region, phys: nat, count: nat): (r: (Pool, Option<nat>))
    requires Tree(p)
    ensures Tree(r.0) && |r.0.mem| == |p.mem| && r.0.phys == p.phys && r.0.virt == p.virt && r.0.root == p.root
  {
    if count * PAGE_SIZE > rg.size then (p, None) else ScanRegion(p, rg, phys, count, rg.base)
  }

  ghost predicate AlignedRegion(rg: Region) {
    IsPageAligned(rg.base) && IsPageAligned(rg.size) && CanonicalRange(rg.base, rg.size / PAGE_SIZE)
  }

  /** Page k of the region is mapped. */
  predicate PageMapped(p: Pool, rg: Region, k: nat)
    requires Sized(p)
  {
    IsMapped(p, rg.base + k * PAGE_SIZE)
  }

  /** Exactly the first n pages of the region are mapped. */
  ghost predicate PrefixMapped(p: Pool, rg: Region, n: nat)
    requires Sized(p)
  {
    && n * PAGE_SIZE <= rg.size
    && (forall k: nat | k < rg.size / PAGE_SIZE :: PageMapped(p, rg, k) <==> k < n)
  }

  /** With a mapped prefix the scan stops right behind it, or finds no room. */
  lemma {:induction false} ScanSkipsPrefix(p: Pool, rg: Region, phys: nat, count: nat, n: nat, k: nat)
    requires Tree(p) && Sized(p) && AlignedRegion(rg) && PrefixMapped(p, rg, n) && k <= n && count > 0
    ensures ScanRegion(p, rg, phys, count, rg.base + k * PAGE_SIZE) ==
            if (n + count) * PAGE_SIZE > rg.size then (p, None)
            else var (r, ok) := MapPagesSpec(p, rg.base + n * PAGE_SIZE, phys, count);
                 (r, if ok then Some(rg.base + n * PAGE_SIZE) else None)
    decreases n - k
  {
    hide Tree, Sized, MapPagesSpec, IsMapped, CanonicalRange;
    if (k + count) * PAGE_SIZE <= rg.size {
      assert PageMapped(p, rg, k) <==> k < n;
      if k < n {
        assert rg.base + k * PAGE_SIZE + PAGE_SIZE == rg.base + (k + 1) * PAGE_SIZE;
        ScanSkipsPrefix(p, rg, phys, count, n, k + 1);
      }
    }
  }

  /** The leaves after the first m pages of a run at page n of a region were mapped. */
  ghost predicate RunAdded(p: Pool, r: Pool, rg: Region, phys: nat, n: nat, m: nat)
    requires Sized(p) && Sized(r)
  {
    forall w | Canonical(w) :: Leaf(r, w) == AfterRun(p, rg.base + n * PAGE_SIZE, phys, 0, m, w)
  }

  /** MapPagesInRegion on a region whose mapped part is its first n pages.
      If the run does not fit behind them nothing happens.  Otherwise the run goes right behind them; its range was
      wholly unmapped, the mapped part is again a prefix, longer by the m pages that were mapped, every mapping outside
      the new range survives, and only pool exhaustion can make m less than count. */
  lemma RegionGrows(p: Pool, rg: Region, phys: nat, count: nat, n: nat) returns (m: nat)
    requires Tree(p) && Sized(p) && AlignedRegion(rg) && PrefixMapped(p, rg, n) && count > 0 && IsPageAligned(phys)
    ensures var (r, at) := MapInRegionSpec(p, rg, phys, count);
            var v := rg.base + n * PAGE_SIZE;
            && Sized(r)
            && if (n + count) * PAGE_SIZE > rg.size then at == None && r == p && m == 0
               else
                 && (at == if m == count then Some(v) else None)
                 && m <= count && PrefixMapped(r, rg, n + m)
                 && (m < count ==> Missing(r, v + m * PAGE_SIZE) > |p.mem| - r.used)
                 && (forall j: nat | n <= j < n + count :: !PageMapped(p, rg, j))
                 && RunAdded(p, r, rg, phys, n, m)
  {
    hide Tree, Sized, Missing, PageMapped, PrefixMapped, RunAdded, AlignedRegion, MapPagesSpec, ScanRegion, RunEnd, IsPageAligned;
    var (r, at) := MapInRegionSpec(p, rg, phys, count);
    TreeIsSized(r);
    m := 0;
    assert rg.base + 0 * PAGE_SIZE == rg.base;
    ScanSkipsPrefix(p, rg, phys, count, n, 0);
    if (n + count) * PAGE_SIZE <= rg.size {
      m := RunEnd(p, rg.base + n * PAGE_SIZE, phys, count, 0);
      RegionRunMaps(p, rg, phys, count, n);
    }
  }

  lemma RegionRunMaps(p: Pool, rg: Region, phys: nat, count: nat, n: nat)
    requires Tree(p) && Sized(p) && AlignedRegion(rg) && PrefixMapped(p, rg, n) && IsPageAligned(phys)
    requires (n + count) * PAGE_SIZE <= rg.size
    ensures var v := rg.base + n * PAGE_SIZE;
            var (r, ok) := MapPagesSpec(p, v, phys, count);
            var m := RunEnd(p, v, phys, count, 0);
            && Sized(r) && (ok <==> m == count) && PrefixMapped(r, rg, n + m) && RunAdded(p, r, rg, phys, n, m)
            && (m < count ==> Missing(r, v + m * PAGE_SIZE) > |p.mem| - r.used)
            && (forall j: nat | n <= j < n + count :: !PageMapped(p, rg, j))
  {
    hide Tree, Sized, Leaf, Missing, PageMapped, AfterRun, Canonical, CanonicalRange, MapPagesFrom, RunEnd;
    var v := rg.base + n * PAGE_SIZE;
    var r := MapPagesSpec(p, v, phys, count).0;
    TreeIsSized(r);
    RegionRun(rg, n, count);
    MapPagesStops(p, v, phys, count, 0);
    var m := RunEnd(p, v, phys, count, 0);
    forall w | Canonical(w) ensures Leaf(r, w) == AfterRun(p, v, phys, 0, m, w) {
      MapPagesUpdates(p, v, phys, count, 0, w);
    }
    forall j: nat | j < rg.size / PAGE_SIZE ensures PageMapped(r, rg, j) <==> j < n + m {
      PrefixStep(p, r, rg, phys, n, m, j);
    }
  }

  lemma RegionRun(rg: Region, n: nat, count: nat)
    requires AlignedRegion(rg) && (n + count) * PAGE_SIZE <= rg.size
    ensures CanonicalRange(rg.base + n * PAGE_SIZE, count) && IsPageAligned(rg.base + n * PAGE_SIZE)
    ensures forall j | 0 <= j < rg.size / PAGE_SIZE :: Canonical(rg.base + j * PAGE_SIZE)
  {
  }

  lemma PrefixStep(p: Pool, r: Pool, rg: Region, phys: nat, n: nat, m: nat, j: nat)
    requires Sized(p) && Sized(r) && AlignedRegion(rg) && PrefixMapped(p, rg, n) && IsPageAligned(phys)
    requires (n + m) * PAGE_SIZE <= rg.size && j < rg.size / PAGE_SIZE && RunAdded(p, r, rg, phys, n, m)
    ensures PageMapped(r, rg, j) <==> j < n + m
  {
    hide Leaf, Sized, MappedEntry, HasFlag, RunEntry;
    var v, w := rg.base + n * PAGE_SIZE, rg.base + j * PAGE_SIZE;
    assert PageMapped(p, rg, j) <==> j < n;
    assert Canonical(w) by {
      RegionRun(rg, 0, 0);
    }
    assert Leaf(r, w) == AfterRun(p, v, phys, 0, m, w);
    if n <= j < n + m {
      RunEntryPresent(v, phys, w);
    }
  }

  lemma RunEntryPresent(virt: nat, phys: nat, w: nat)
    requires IsPageAligned(phys) && virt <= w
    ensures HasFlag(RunEntry(virt, phys, w), PRESENT) && !HasFlag(RunEntry(virt, phys, w), USER)
    ensures HardwareFrame(RunEntry(virt, phys, w)) == (phys + (w - virt) / PAGE_SIZE * PAGE_SIZE) % PHYSICAL_LIMIT
  {
    EntryLayout(phys + (w - virt) / PAGE_SIZE * PAGE_SIZE, false);
  }
}
