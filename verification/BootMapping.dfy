/** What the boot sequence of kernel/core/init.cc maps: a table described by a list of runs, and how each step extends it. */
module BootMapping {
  import opened Options
  import opened VirtualAddress
  import opened Paging
  import opened Mapping
  import opened KernelWindow
  import opened MemoryMap

  /** count pages from virt to phys; flags are added to each leaf entry. */
  datatype Run = Run(virt: nat, phys: nat, count: nat, flags: nat) {
    predicate Covers(w: nat) { InRange(w, virt, count) }

    function Entry(w: nat): nat
      requires virt <= w
    {
      RunEntry(virt, phys, w) + flags
    }
  }

  /** The leaf entry that a list of runs, latest first, gives to an address. */
  function LeafOf(runs: seq<Run>, w: nat): nat {
    if runs == [] then 0 else if runs[0].Covers(w) then runs[0].Entry(w) else LeafOf(runs[1..], w)
  }

  /** The runs describe every leaf of the table, mapped or not. */
  ghost predicate Maps(p: Pool, runs: seq<Run>)
    requires Sized(p)
  {
    forall w | Canonical(w) :: Leaf(p, w) == LeafOf(runs, w)
  }

  /** A tree described by the runs, with pages left for every table the kernel window can still need. */
  ghost predicate Good(p: Pool, runs: seq<Run>) {
    Tree(p) && Sized(p) && Maps(p, runs) && p.used + Reserve(p) <= |p.mem|
  }

  ghost predicate RangeInKva(virt: nat, count: nat) {
    KVA_BASE <= virt && virt + count * PAGE_SIZE <= KVA_END
  }

  lemma EmptyIsGood(p: Pool)
    requires Empty(p) && |p.mem| >= WINDOWS + 4
    ensures Good(p, [])
  {
    EmptyMapsNothing(p);
  }

  // ---------------------------------------------------------------- mapping inside the window

  /** Inside the window MapPages cannot run out of pages. */
  lemma {:induction false} WindowPages(p: Pool, virt: nat, phys: nat, count: nat, i: nat)
    requires Tree(p) && Sized(p) && p.used + Reserve(p) <= |p.mem| && i <= count
    requires RangeInKva(virt, count) && IsPageAligned(virt) && IsPageAligned(phys)
    ensures var (r, ok) := MapPagesFrom(p, virt, phys, count, i);
            ok && Sized(r) && r.used + Reserve(r) <= |r.mem|
    decreases count - i
  {
    hide Tree, Sized, MapPageSpec, Reserve, Missing, Leaf, IsPageAligned;
    if i < count {
      var v, f := virt + i * PAGE_SIZE, phys + i * PAGE_SIZE;
      RunAligned(virt, phys, i);
      ReserveStep(p, v, f, false);
      MapPageUpdates(p, v, f, false, 0);
      var (q, ok) := MapPageSpec(p, v, f, false);
      WindowPages(q, virt, phys, count, i + 1);
    }
  }

  /** A MapPages call adds a run in front of the runs mapped so far. */
  lemma MapPagesAdds(p: Pool, runs: seq<Run>, virt: nat, phys: nat, count: nat)
    requires Good(p, runs) && RangeInKva(virt, count) && IsPageAligned(virt) && IsPageAligned(phys)
    ensures var (r, ok) := MapPagesSpec(p, virt, phys, count);
            ok && Good(r, [Run(virt, phys, count, 0)] + runs)
  {
    hide Tree, Sized, Reserve, Leaf, RunEntry, IsPageAligned, MapPagesFrom, RunEnd;
    WindowPages(p, virt, phys, count, 0);
    MapPagesStops(p, virt, phys, count, 0);
    var r := MapPagesSpec(p, virt, phys, count).0;
    var more := [Run(virt, phys, count, 0)] + runs;
    assert more[1..] == runs;
    forall w | Canonical(w) ensures Leaf(r, w) == LeafOf(more, w) {
      MapPagesUpdates(p, virt, phys, count, 0, w);
    }
  }

  /** MapPagesInRegion behind the first n mapped pages of its region adds a run there. */
  lemma RegionAdds(p: Pool, runs: seq<Run>, rg: Region, phys: nat, count: nat, n: nat)
    requires Good(p, runs) && AlignedRegion(rg) && PrefixMapped(p, rg, n) && count > 0 && IsPageAligned(phys)
    requires (n + count) * PAGE_SIZE <= rg.size && KVA_BASE <= rg.base && rg.End() <= KVA_END
    ensures var (r, at) := MapInRegionSpec(p, rg, phys, count);
            var v := rg.base + n * PAGE_SIZE;
            at == Some(v) && Good(r, [Run(v, phys, count, 0)] + runs)
  {
    hide Tree, Sized, AlignedRegion, RangeInKva, IsPageAligned, PrefixMapped, MapInRegionSpec, MapPagesSpec, Maps, Reserve;
    RegionWindow(rg, n, count);
    MapPagesAdds(p, runs, rg.base + n * PAGE_SIZE, phys, count);
    RegionScan(p, rg, phys, count, n);
  }

  lemma RegionScan(p: Pool, rg: Region, phys: nat, count: nat, n: nat)
    requires Tree(p) && Sized(p) && AlignedRegion(rg) && PrefixMapped(p, rg, n) && count > 0 && (n + count) * PAGE_SIZE <= rg.size
    ensures var (r, ok) := MapPagesSpec(p, rg.base + n * PAGE_SIZE, phys, count);
            MapInRegionSpec(p, rg, phys, count) == (r, if ok then Some(rg.base + n * PAGE_SIZE) else None)
  {
    hide Tree, Sized, PrefixMapped, AlignedRegion, ScanRegion, MapPagesSpec;
    assert rg.base + 0 * PAGE_SIZE == rg.base;
    ScanSkipsPrefix(p, rg, phys, count, n, 0);
  }

  lemma RegionWindow(rg: Region, n: nat, count: nat)
    requires AlignedRegion(rg) && (n + count) * PAGE_SIZE <= rg.size && KVA_BASE <= rg.base && rg.End() <= KVA_END
    ensures RangeInKva(rg.base + n * PAGE_SIZE, count) && IsPageAligned(rg.base + n * PAGE_SIZE)
  {
  }

  /** MapPagesInRegion refuses an unaligned physical address without touching the table. */
  lemma {:induction false} RegionRefuses(p: Pool, rg: Region, phys: nat, count: nat, page: nat)
    requires Tree(p) && Sized(p) && !IsPageAligned(phys) && count > 0
    ensures ScanRegion(p, rg, phys, count, page) == (p, None)
    decreases rg.End() - page
  {
    hide Tree, Sized, IsMapped;
    if page + count * PAGE_SIZE <= rg.End() && IsMapped(p, page) {
      RegionRefuses(p, rg, phys, count, page + PAGE_SIZE);
    } else {
      assert MapPageSpec(p, page + 0 * PAGE_SIZE, phys + 0 * PAGE_SIZE, false) == (p, false);
    }
  }

  // ---------------------------------------------------------------- flags

  lemma FlagOnMapped(frame: nat, flag: nat)
    requires IsPageAligned(frame) && (flag == PAT || flag == CACHE_DISABLE)
    ensures SetFlag(MappedEntry(frame, false), flag, true) == MappedEntry(frame, false) + flag
  {
    var k := frame / 0x1000;
    assert MappedEntry(frame, false) == 0x1000 * k + 3;
    FlagBits(k, 3);
    if flag == CACHE_DISABLE {
      CacheFlagClear(k);
    }
  }

  lemma CacheFlagClear(k: nat)
    ensures !HasFlag(0x1000 * k + 3, CACHE_DISABLE)
  {
    assert (0x1000 * k + 3) / 0x10 == 0x100 * k;
  }

  lemma UpdateKeepsReserve(p: Pool, virt: nat, flag: nat, on: bool)
    requires Tree(p) && Sized(p) && flag > 0
    ensures var r := UpdateLeafSpec(p, virt, flag, on).0; Sized(r) && Reserve(r) == Reserve(p)
  {
    var r := UpdateLeafSpec(p, virt, flag, on).0;
    TreeIsSized(r);
    hide Tree, Sized, UpdateLeafSpec, TableAt, Leaf, Window;
    forall w: nat, l: nat | 1 <= l <= 4 ensures TableAt(r, w, l) == TableAt(p, w, l) {
      UpdateLeafEffect(p, virt, flag, on, w);
    }
    SameTablesSameWindows(p, r, WINDOWS);
  }

  lemma {:induction false} SameTablesSameWindows(p: Pool, r: Pool, n: nat)
    requires Sized(p) && Sized(r) && forall w: nat, l: nat | 1 <= l <= 4 :: TableAt(r, w, l) == TableAt(p, w, l)
    ensures MissingWindows(r, n) == MissingWindows(p, n)
  {
    hide Sized, TableAt, Window;
    if n > 0 {
      SameTablesSameWindows(p, r, n - 1);
    }
  }

  /** Setting a flag on the i-th page of a run whose entry is still plain adds a one-page run with that flag. */
  lemma FlagAdds(p: Pool, runs: seq<Run>, run: Run, i: nat, flag: nat)
    requires Good(p, runs) && i < run.count && run.flags == 0 && (flag == PAT || flag == CACHE_DISABLE)
    requires IsPageAligned(run.virt) && IsPageAligned(run.phys) && RangeInKva(run.virt, run.count)
    requires LeafOf(runs, run.virt + i * PAGE_SIZE) == run.Entry(run.virt + i * PAGE_SIZE)
    ensures var (r, found) := UpdateLeafSpec(p, run.virt + i * PAGE_SIZE, flag, true);
            found && Good(r, [Run(run.virt + i * PAGE_SIZE, run.phys + i * PAGE_SIZE, 1, flag)] + runs)
  {
    hide Tree, Sized, Reserve, Leaf, SetFlag, UpdateLeafSpec, MappedEntry, HasFlag;
    var v, f := run.virt + i * PAGE_SIZE, run.phys + i * PAGE_SIZE;
    var (r, found) := UpdateLeafSpec(p, v, flag, true);
    var more := [Run(v, f, 1, flag)] + runs;
    assert more[1..] == runs;
    assert Canonical(v) && IsPageAligned(v) && IsPageAligned(f);
    assert run.Entry(v) == MappedEntry(f, false);
    EntryNonZero(f);
    FlagOnMapped(f, flag);
    UpdateKeepsReserve(p, v, flag, true);
    UpdateFinds(p, v, flag, true);
    forall w | Canonical(w) ensures Leaf(r, w) == LeafOf(more, w) {
      UpdateLeafEffect(p, v, flag, true, w);
      FlaggedPage(v, f, flag, w);
    }
  }

  lemma EntryNonZero(frame: nat)
    ensures MappedEntry(frame, false) != 0
  {
  }

  lemma FlaggedPage(v: nat, f: nat, flag: nat, w: nat)
    requires Canonical(w) && Canonical(v) && IsPageAligned(v)
    ensures PageNumber(w) == PageNumber(v) <==> Run(v, f, 1, flag).Covers(w)
    ensures Run(v, f, 1, flag).Covers(w) ==> Run(v, f, 1, flag).Entry(w) == MappedEntry(f, false) + flag
  {
    hide PageNumber, MappedEntry;
    CanonicalPages(w, v);
  }

  lemma UpdateFinds(p: Pool, v: nat, flag: nat, on: bool)
    requires Tree(p) && Sized(p) && flag > 0 && Leaf(p, v) != 0
    ensures UpdateLeafSpec(p, v, flag, on).1
  {
    hide Tree, Sized;
  }

  // ---------------------------------------------------------------- UEFI runtime memory

  /** MapUefiRuntime, descriptor by descriptor; the result of MapPages is not looked at. */
  function MapRuntimeSpec(p: Pool, ds: seq<Descriptor>): (r: Pool)
    requires Tree(p)
    ensures Tree(r) && Sized(r) && |r.mem| == |p.mem| && r.phys == p.phys && r.virt == p.virt
    decreases |ds|
  {
    TreeIsSized(p);
    if ds == [] then p
    else if ds[0].IsRuntime() then MapRuntimeSpec(MapPagesSpec(p, ds[0].virtual, ds[0].physical, ds[0].pages).0, ds[1..])
    else MapRuntimeSpec(p, ds[1..])
  }

  function RuntimeRuns(ds: seq<Descriptor>, runs: seq<Run>): seq<Run>
    decreases |ds|
  {
    if ds == [] then runs
    else if ds[0].IsRuntime() then RuntimeRuns(ds[1..], [Run(ds[0].virtual, ds[0].physical, ds[0].pages, 0)] + runs)
    else RuntimeRuns(ds[1..], runs)
  }

  /** The runtime descriptors are page-aligned and stay inside the UEFI region. */
  ghost predicate RuntimeInside(ds: seq<Descriptor>) {
    forall d | d in ds && d.IsRuntime() ::
      IsPageAligned(d.virtual) && IsPageAligned(d.physical) && UEFI.base <= d.virtual && d.virtual + d.pages * PAGE_SIZE <= UEFI.End()
  }

  lemma {:induction false} MapRuntimeAdds(p: Pool, runs: seq<Run>, ds: seq<Descriptor>)
    requires Good(p, runs) && RuntimeInside(ds)
    ensures Good(MapRuntimeSpec(p, ds), RuntimeRuns(ds, runs))
    decreases |ds|
  {
    hide Tree, Sized, Maps, Reserve, MapPagesSpec, IsPageAligned;
    if ds != [] {
      assert ds[0] in ds;
      assert RuntimeInside(ds[1..]);
      if ds[0].IsRuntime() {
        MapPagesAdds(p, runs, ds[0].virtual, ds[0].physical, ds[0].pages);
        MapRuntimeAdds(MapPagesSpec(p, ds[0].virtual, ds[0].physical, ds[0].pages).0,
                       [Run(ds[0].virtual, ds[0].physical, ds[0].pages, 0)] + runs, ds[1..]);
      } else {
        MapRuntimeAdds(p, runs, ds[1..]);
      }
    }
  }

  function Requests(pairs: seq<Pair>): (r: seq<Request>)
    ensures |r| == |pairs|
  {
    seq(|pairs|, i requires 0 <= i < |pairs| => Request(pairs[i].virtual, pairs[i].physical, false))
  }

  /** MapUefiRuntime maps the runtime pairs of its map one after the other. */
  lemma {:induction false} RuntimeMapsPairs(p: Pool, runs: seq<Run>, ds: seq<Descriptor>)
    requires Good(p, runs) && RuntimeInside(ds)
    ensures MapAll(p, Requests(RuntimePairs(ds))) == (MapRuntimeSpec(p, ds), true)
    decreases |ds|
  {
    hide Tree, Sized, Maps, Reserve, MapPagesSpec, IsPageAligned, MapAll, RuntimePairsOf;
    if ds == [] {
      MapAllNothing(p);
    } else {
      assert ds[0] in ds;
      assert RuntimeInside(ds[1..]);
      var first := RuntimePairsOf(ds[0]);
      RuntimePairsFront(ds);
      assert Requests(first + RuntimePairs(ds[1..])) == Requests(first) + Requests(RuntimePairs(ds[1..]));
      if ds[0].IsRuntime() {
        var q := MapPagesSpec(p, ds[0].virtual, ds[0].physical, ds[0].pages).0;
        var more := [Run(ds[0].virtual, ds[0].physical, ds[0].pages, 0)] + runs;
        MapPagesAdds(p, runs, ds[0].virtual, ds[0].physical, ds[0].pages);
        DescriptorMapsPairs(p, ds[0]);
        MapAllConcat(p, Requests(first), Requests(RuntimePairs(ds[1..])));
        RuntimeMapsPairs(q, more, ds[1..]);
      } else {
        assert first == [] by {
          NoPairs(ds[0]);
        }
        assert first + RuntimePairs(ds[1..]) == RuntimePairs(ds[1..]);
        RuntimeMapsPairs(p, runs, ds[1..]);
      }
    }
  }

  lemma NoPairs(d: Descriptor)
    requires !d.IsRuntime()
    ensures RuntimePairsOf(d) == []
  {
  }

  lemma MapAllNothing(p: Pool)
    requires Tree(p)
    ensures MapAll(p, Requests(RuntimePairs([]))) == (p, true)
  {
    hide Tree;
  }

  lemma {:induction false} RuntimePairsFront(ds: seq<Descriptor>)
    requires ds != []
    ensures RuntimePairs(ds) == RuntimePairsOf(ds[0]) + RuntimePairs(ds[1..])
  {
    hide RuntimePairsOf;
    if |ds| > 1 {
      var front := ds[..|ds| - 1];
      RuntimePairsFront(front);
      assert front[0] == ds[0] && front[1..] == ds[1..][..|ds| - 2];
    } else {
      assert ds[..0] == [] && RuntimePairs(ds[..0]) == [] && RuntimePairs(ds[1..]) == [];
    }
  }

  lemma {:induction false} MapAllConcat(p: Pool, a: seq<Request>, b: seq<Request>)
    requires Tree(p) && MapAll(p, a).1
    ensures MapAll(p, a + b) == MapAll(MapAll(p, a).0, b)
    decreases |a|
  {
    hide Tree, Sized, MapPageSpec;
    if a == [] {
      assert a + b == b;
    } else {
      assert (a + b)[1..] == a[1..] + b;
      MapAllConcat(MapPageSpec(p, a[0].virt, a[0].phys, a[0].user).0, a[1..], b);
    }
  }

  lemma DescriptorMapsPairs(p: Pool, d: Descriptor)
    requires Tree(p) && d.IsRuntime() && MapPagesSpec(p, d.virtual, d.physical, d.pages).1
    ensures MapAll(p, Requests(RuntimePairsOf(d))) == MapPagesSpec(p, d.virtual, d.physical, d.pages)
  {
    var pairs := RuntimePairsOf(d);
    hide Tree;
    RunMapsPairs(p, d, 0);
    assert pairs[0..] == pairs;
  }

  lemma {:induction false} RunMapsPairs(p: Pool, d: Descriptor, i: nat)
    requires Tree(p) && d.IsRuntime() && i <= d.pages && MapPagesFrom(p, d.virtual, d.physical, d.pages, i).1
    ensures |RuntimePairsOf(d)| == d.pages
    ensures MapAll(p, Requests(RuntimePairsOf(d)[i..])) == MapPagesFrom(p, d.virtual, d.physical, d.pages, i)
    decreases d.pages - i
  {
    hide Tree, Sized, MapPageSpec;
    if i < d.pages {
      var v, f := d.virtual + i * PAGE_SIZE, d.physical + i * PAGE_SIZE;
      var rest := Requests(RuntimePairsOf(d)[i..]);
      assert rest[0] == Request(v, f, false);
      assert rest[1..] == Requests(RuntimePairsOf(d)[i + 1..]);
      RunMapsPairs(MapPageSpec(p, v, f, false).0, d, i + 1);
    }
  }

  lemma {:induction false} CoalesceKeepsInside(ds: seq<Descriptor>, base: nat)
    requires RuntimeInside(ds) && RuntimePlaced(ds, base)
    ensures RuntimeInside(Coalesce(ds)) && RuntimePlaced(Coalesce(ds), base)
  {
    if ds != [] {
      var front, d := ds[..|ds| - 1], ds[|ds| - 1];
      assert d in ds;
      CoalesceKeepsInside(front, base);
      AbsorbKeepsInside(Coalesce(front), d, base);
    }
  }

  lemma AbsorbKeepsInside(kept: seq<Descriptor>, d: Descriptor, base: nat)
    requires RuntimeInside(kept) && RuntimePlaced(kept, base) && RuntimeInside([d]) && RuntimePlaced([d], base)
    ensures RuntimeInside(Absorb(kept, d)) && RuntimePlaced(Absorb(kept, d), base)
  {
    assert d in [d];
    if kept != [] {
      assert kept[|kept| - 1] in kept;
    }
    hide IsPageAligned;
  }

  /** Mapping the runtime memory from the coalesced map gives the same table as mapping it from the original map. */
  lemma CoalesceKeepsRuntimeMapping(p: Pool, runs: seq<Run>, ds: seq<Descriptor>)
    requires Good(p, runs) && RuntimeInside(ds) && RuntimePlaced(ds, UEFI.base)
    ensures MapRuntimeSpec(p, Coalesce(ds)) == MapRuntimeSpec(p, ds)
  {
    hide Tree, Good, RuntimeInside, RuntimePlaced, Coalesce;
    CoalesceKeepsInside(ds, UEFI.base);
    CoalesceKeepsRuntime(ds, UEFI.base);
    RuntimeMapsPairs(p, runs, ds);
    RuntimeMapsPairs(p, runs, Coalesce(ds));
  }
}
