/** The mapping sequence of OsInitialize (kernel/core/init.cc), run on a fresh page table. */
module Boot {
  import opened Options
  import opened VirtualAddress
  import opened Paging
  import opened Mapping
  import opened HardwareWalk
  import opened AccessRights
  import opened KernelWindow
  import opened MemoryMap
  import opened BootMapping
  import opened PageTables

  /** The parts of the loader block and of the CPU description that the mapping depends on. */
  datatype BootInfo = BootInfo(
    kernelPhys: nat, kernelSize: nat,
    frameBuffer: nat, backBuffer: nat, screenBytes: nat,
    hpet: nat, usingApic: bool, ioApic: nat, localApic: nat,
    pagePool: nat, pagePoolPages: nat)
  {
    /** What the boot loader guarantees: aligned blocks that fit the regions they are mapped into. */
    ghost predicate Fits() {
      && IsPageAligned(kernelPhys) && kernelSize <= KERNEL_IMAGE.size
      && IsPageAligned(frameBuffer) && IsPageAligned(backBuffer) && screenBytes > 0
      && IsPageAligned(pagePool) && pagePoolPages * PAGE_SIZE <= KERNEL_POOL.size
    }

    /** The devices that end up mapped, in order: a device at an unaligned address is refused,
        and the local APIC is only tried after the I/O APIC was mapped. */
    function Devices(): (r: seq<nat>)
      ensures |r| <= 3 && forall d | d in r :: IsPageAligned(d)
    {
      (if hpet != 0 && IsPageAligned(hpet) then [hpet] else [])
      + (if usingApic && IsPageAligned(ioApic) then [ioApic] + (if IsPageAligned(localApic) then [localApic] else []) else [])
    }
  }

  /** A run whose entries were flagged one by one after it was mapped. */
  function Flagged(virt: nat, phys: nat, count: nat, flag: nat, runs: seq<Run>): seq<Run> {
    [Run(virt, phys, count, flag)] + ([Run(virt, phys, count, 0)] + runs)
  }

  function DeviceRuns(devices: seq<nat>, runs: seq<Run>): seq<Run> {
    if devices == [] then runs
    else
      var n := |devices| - 1;
      Flagged(DEVICES.base + n * PAGE_SIZE, devices[n], 1, CACHE_DISABLE, DeviceRuns(devices[..n], runs))
  }

  function ScreenRuns(info: BootInfo, poolPhys: nat, poolPages: nat): seq<Run> {
    [Run(FRAME_BUFFER.base, info.frameBuffer, FRAME_BUFFER.PageCount(), 0)]
    + ([Run(KERNEL_PT.base, poolPhys, poolPages, 0)]
       + [Run(KERNEL_IMAGE.base, info.kernelPhys, SizeToPages(info.kernelSize), 0)])
  }

  function BufferRuns(info: BootInfo, poolPhys: nat, poolPages: nat): seq<Run> {
    [Run(FRAME_BUFFER.base, info.frameBuffer, FRAME_BUFFER.PageCount(), PAT)]
    + ([Run(BACK_BUFFER.base, info.backBuffer, SizeToPages(info.screenBytes), 0)] + ScreenRuns(info, poolPhys, poolPages))
  }

  /** Everything that is mapped at the end, latest first. */
  function BootRuns(info: BootInfo, ds: seq<Descriptor>, poolPhys: nat, poolPages: nat): seq<Run> {
    [Run(KERNEL_POOL.base, info.pagePool, info.pagePoolPages, 0)]
    + RuntimeRuns(ds, DeviceRuns(info.Devices(), BufferRuns(info, poolPhys, poolPages)))
  }

  // ---------------------------------------------------------------- looking up runs

  lemma LeafOfCons(run: Run, runs: seq<Run>, w: nat)
    ensures LeafOf([run] + runs, w) == if run.Covers(w) then run.Entry(w) else LeafOf(runs, w)
  {
    assert ([run] + runs)[1..] == runs;
  }

  /** A table is described equally well by any list with the same look-ups. */
  lemma SameLookups(p: Pool, a: seq<Run>, b: seq<Run>)
    requires Good(p, a) && forall w | Canonical(w) :: LeafOf(b, w) == LeafOf(a, w)
    ensures Good(p, b)
  {
    hide Tree, Sized, Reserve, LeafOf;
  }

  ghost predicate Avoids(runs: seq<Run>, rg: Region) {
    forall r | r in runs :: r.virt + r.count * PAGE_SIZE <= rg.base || rg.End() <= r.virt
  }

  lemma {:induction false} AvoidsHasNoLeaf(runs: seq<Run>, rg: Region, w: nat)
    requires Avoids(runs, rg) && rg.Contains(w)
    ensures LeafOf(runs, w) == 0
  {
    if runs != [] {
      assert runs[0] in runs;
      AvoidsHasNoLeaf(runs[1..], rg, w);
    }
  }

  lemma AvoidedRegionIsEmpty(p: Pool, runs: seq<Run>, rg: Region)
    requires Good(p, runs) && Avoids(runs, rg) && AlignedRegion(rg)
    ensures PrefixMapped(p, rg, 0)
  {
    hide Tree, Sized, Reserve, Leaf, Avoids, LeafOf;
    forall k: nat | k < rg.size / PAGE_SIZE ensures !PageMapped(p, rg, k) {
      RegionRun(rg, 0, 0);
      AvoidsHasNoLeaf(runs, rg, rg.base + k * PAGE_SIZE);
      ZeroHasNoFlag();
    }
  }

  lemma {:induction false} DeviceLookup(devices: seq<nat>, runs: seq<Run>, w: nat)
    requires |devices| <= 4096
    ensures LeafOf(DeviceRuns(devices, runs), w) ==
            if InRange(w, DEVICES.base, |devices|)
            then var k := (w - DEVICES.base) / PAGE_SIZE; Run(DEVICES.base + k * PAGE_SIZE, devices[k], 1, CACHE_DISABLE).Entry(w)
            else LeafOf(runs, w)
  {
    if devices != [] {
      var n := |devices| - 1;
      var v := DEVICES.base + n * PAGE_SIZE;
      var rest := DeviceRuns(devices[..n], runs);
      DeviceLookup(devices[..n], runs, w);
      LeafOfCons(Run(v, devices[n], 1, CACHE_DISABLE), [Run(v, devices[n], 1, 0)] + rest, w);
      LeafOfCons(Run(v, devices[n], 1, 0), rest, w);
      hide LeafOf, RunEntry, DeviceRuns;
    }
  }

  lemma {:induction false} RuntimeLookup(ds: seq<Descriptor>, runs: seq<Run>, w: nat)
    requires RuntimeInside(ds) && !UEFI.Contains(w)
    ensures LeafOf(RuntimeRuns(ds, runs), w) == LeafOf(runs, w)
    decreases |ds|
  {
    hide LeafOf, IsPageAligned;
    if ds != [] {
      assert ds[0] in ds;
      assert RuntimeInside(ds[1..]);
      if ds[0].IsRuntime() {
        var run := Run(ds[0].virtual, ds[0].physical, ds[0].pages, 0);
        LeafOfCons(run, runs, w);
        RuntimeLookup(ds[1..], [run] + runs, w);
      } else {
        RuntimeLookup(ds[1..], runs, w);
      }
    }
  }

  /** Some runtime descriptor covers the page of w. */
  ghost predicate RuntimeCovers(ds: seq<Descriptor>, w: nat) {
    exists d | d in ds && d.IsRuntime() :: InRange(w, d.virtual, d.pages)
  }

  /** The entry of a page of the UEFI region under the placement rule. */
  function UefiEntry(w: nat): nat
    requires UEFI.base <= w
  {
    MappedEntry(w - w % PAGE_SIZE - UEFI.base, false)
  }

  /** Descriptors that overlap agree under the placement rule, so it does not matter which of them was mapped last. */
  lemma {:induction false} RuntimeHit(ds: seq<Descriptor>, runs: seq<Run>, w: nat)
    requires RuntimeInside(ds) && RuntimePlaced(ds, UEFI.base) && UEFI.base <= w
    ensures LeafOf(RuntimeRuns(ds, runs), w) == if RuntimeCovers(ds, w) then UefiEntry(w) else LeafOf(runs, w)
    decreases |ds|
  {
    hide LeafOf, UefiEntry, RuntimeCovers;
    CoversFirst(ds, w);
    if ds != [] {
      assert ds[0] in ds;
      assert RuntimeInside(ds[1..]) && RuntimePlaced(ds[1..], UEFI.base);
      if ds[0].IsRuntime() {
        var run := Run(ds[0].virtual, ds[0].physical, ds[0].pages, 0);
        LeafOfCons(run, runs, w);
        RuntimeHit(ds[1..], [run] + runs, w);
        if run.Covers(w) {
          PlacedEntry(ds[0], w);
        }
      } else {
        RuntimeHit(ds[1..], runs, w);
      }
    }
  }

  lemma CoversFirst(ds: seq<Descriptor>, w: nat)
    ensures RuntimeCovers(ds, w) <==>
            ds != [] && ((ds[0].IsRuntime() && InRange(w, ds[0].virtual, ds[0].pages)) || RuntimeCovers(ds[1..], w))
  {
    if ds != [] {
      assert ds == [ds[0]] + ds[1..];
    }
  }

  lemma PlacedEntry(d: Descriptor, w: nat)
    requires IsPageAligned(d.virtual) && d.virtual == d.physical + UEFI.base && InRange(w, d.virtual, d.pages)
    ensures RunEntry(d.virtual, d.physical, w) == UefiEntry(w)
  {
    assert d.virtual + (w - d.virtual) / PAGE_SIZE * PAGE_SIZE == w - w % PAGE_SIZE;
  }

  /** An entry of a run, flagged or not, translates to the run's frame and is present. */
  lemma EntryTranslates(p: Pool, run: Run, w: nat)
    requires Tree(p) && Sized(p) && run.Covers(w) && Leaf(p, w) == run.Entry(w)
    requires IsPageAligned(run.virt) && IsPageAligned(run.phys) && run.phys + run.count * PAGE_SIZE <= PHYSICAL_LIMIT
    requires run.flags == 0 || run.flags == PAT || run.flags == CACHE_DISABLE
    ensures Translate(p, w) == Some(run.phys + (w - run.virt)) && HasFlag(Leaf(p, w), PRESENT)
    ensures run.flags != 0 ==> HasFlag(Leaf(p, w), run.flags)
  {
    hide Tree, Sized, Leaf, Translate, HasFlag, HardwareFrame, SetFlag, MappedEntry;
    var frame := run.phys + (w - run.virt) / PAGE_SIZE * PAGE_SIZE;
    assert IsPageAligned(frame) && frame < PHYSICAL_LIMIT;
    HardwareAgrees(p, w);
    RunEntryPresent(run.virt, run.phys, w);
    if run.flags != 0 {
      FlagOnMapped(frame, run.flags);
      FlagKeepsFrame(MappedEntry(frame, false), run.flags, true);
      FlagSet(MappedEntry(frame, false), run.flags, true);
    }
    assert (w - run.virt) / PAGE_SIZE * PAGE_SIZE + w % PAGE_SIZE == w - run.virt;
  }

  // ---------------------------------------------------------------- flagging a mapped run

  /** Looking up an address of the run finds the run. */
  ghost predicate Shows(below: seq<Run>, run: Run) {
    forall w | run.Covers(w) :: LeafOf(below, w) == run.Entry(w)
  }

  /** One more page at the end of the flagged part of a run. */
  lemma FlagNext(p: Pool, below: seq<Run>, run: Run, k: nat, flag: nat)
    requires run.flags == 0 && (flag == PAT || flag == CACHE_DISABLE) && k < run.count && Shows(below, run)
    requires IsPageAligned(run.virt) && IsPageAligned(run.phys) && RangeInKva(run.virt, run.count)
    requires Good(p, [Run(run.virt, run.phys, k, flag)] + below)
    ensures var (r, found) := UpdateLeafSpec(p, run.virt + k * PAGE_SIZE, flag, true);
            found && Good(r, [Run(run.virt, run.phys, k + 1, flag)] + below)
  {
    hide Tree, Sized, Reserve, Maps, RunEntry, UpdateLeafSpec, IsPageAligned, RangeInKva, LeafOf;
    var v := run.virt + k * PAGE_SIZE;
    var before := [Run(run.virt, run.phys, k, flag)] + below;
    LeafOfCons(Run(run.virt, run.phys, k, flag), below, v);
    assert run.Covers(v);
    FlagAdds(p, before, run, k, flag);
    var r := UpdateLeafSpec(p, v, flag, true).0;
    var one := Run(v, run.phys + k * PAGE_SIZE, 1, flag);
    forall w | Canonical(w) ensures LeafOf([Run(run.virt, run.phys, k + 1, flag)] + below, w) == LeafOf([one] + before, w) {
      LeafOfCons(one, before, w);
      LeafOfCons(Run(run.virt, run.phys, k, flag), below, w);
      LeafOfCons(Run(run.virt, run.phys, k + 1, flag), below, w);
      JoinedEntry(run, k, flag, w);
    }
    SameLookups(r, [one] + before, [Run(run.virt, run.phys, k + 1, flag)] + below);
  }

  lemma JoinedEntry(run: Run, k: nat, flag: nat, w: nat)
    ensures var v := run.virt + k * PAGE_SIZE;
            && (Run(run.virt, run.phys, k + 1, flag).Covers(w)
                <==> Run(v, run.phys + k * PAGE_SIZE, 1, flag).Covers(w) || Run(run.virt, run.phys, k, flag).Covers(w))
            && (v <= w ==> Run(run.virt, run.phys, k + 1, flag).Entry(w) == Run(v, run.phys + k * PAGE_SIZE, 1, flag).Entry(w))
            && (run.virt <= w ==> Run(run.virt, run.phys, k + 1, flag).Entry(w) == Run(run.virt, run.phys, k, flag).Entry(w))
  {
  }

  lemma EmptyRunAdds(p: Pool, runs: seq<Run>, run: Run)
    requires Good(p, runs) && run.count == 0
    ensures Good(p, [run] + runs)
  {
    hide Tree, Sized, Reserve, Maps;
    forall w | Canonical(w) ensures LeafOf([run] + runs, w) == LeafOf(runs, w) {
      LeafOfCons(run, runs, w);
    }
    SameLookups(p, runs, [run] + runs);
  }

  /** Sets one flag on every page of a run, first page first. */
  method FlagRun(t: PageTable, run: Run, flag: nat, ghost below: seq<Run>)
    requires t.Valid() && Good(t.State(), below) && Shows(below, run) && run.flags == 0 && (flag == PAT || flag == CACHE_DISABLE)
    requires IsPageAligned(run.virt) && IsPageAligned(run.phys) && RangeInKva(run.virt, run.count)
    modifies t.mem
    ensures t.Valid() && Good(t.State(), [Run(run.virt, run.phys, run.count, flag)] + below)
  {
    hide Tree, Good, IsPageAligned, RangeInKva, UpdateLeafSpec, Shows;
    EmptyRunAdds(t.State(), below, Run(run.virt, run.phys, 0, flag));
    for k := 0 to run.count
      invariant t.Valid() && Good(t.State(), [Run(run.virt, run.phys, k, flag)] + below)
    {
      FlagNext(t.State(), below, run, k, flag);
      var found := t.UpdatePte(run.virt + k * PAGE_SIZE, flag, true);
      assert found;  // the result of GetPresentPte is dereferenced unchecked
    }
  }

  /** One more page at the start of the flagged part of a run. */
  lemma FlagPrevious(p: Pool, below: seq<Run>, run: Run, k: nat, flag: nat)
    requires run.flags == 0 && (flag == PAT || flag == CACHE_DISABLE) && k < run.count && Shows(below, run)
    requires IsPageAligned(run.virt) && IsPageAligned(run.phys) && RangeInKva(run.virt, run.count)
    requires Good(p, [Tail(run, k + 1, flag)] + below)
    ensures var (r, found) := UpdateLeafSpec(p, run.virt + k * PAGE_SIZE, flag, true);
            found && Good(r, [Tail(run, k, flag)] + below)
  {
    hide Tree, Sized, Reserve, Maps, RunEntry, UpdateLeafSpec, IsPageAligned, RangeInKva, LeafOf;
    var v := run.virt + k * PAGE_SIZE;
    var before := [Tail(run, k + 1, flag)] + below;
    LeafOfCons(Tail(run, k + 1, flag), below, v);
    assert run.Covers(v);
    FlagAdds(p, before, run, k, flag);
    var r := UpdateLeafSpec(p, v, flag, true).0;
    var one := Run(v, run.phys + k * PAGE_SIZE, 1, flag);
    forall w | Canonical(w) ensures LeafOf([Tail(run, k, flag)] + below, w) == LeafOf([one] + before, w) {
      LeafOfCons(one, before, w);
      LeafOfCons(Tail(run, k + 1, flag), below, w);
      LeafOfCons(Tail(run, k, flag), below, w);
      TailEntry(run, k, flag, w);
    }
    SameLookups(r, [one] + before, [Tail(run, k, flag)] + below);
  }

  /** The pages of a run from the k-th on, flagged. */
  function Tail(run: Run, k: nat, flag: nat): Run
    requires k <= run.count
  {
    Run(run.virt + k * PAGE_SIZE, run.phys + k * PAGE_SIZE, run.count - k, flag)
  }

  lemma TailEntry(run: Run, k: nat, flag: nat, w: nat)
    requires k < run.count
    ensures var one := Run(run.virt + k * PAGE_SIZE, run.phys + k * PAGE_SIZE, 1, flag);
            && (Tail(run, k, flag).Covers(w) <==> one.Covers(w) || Tail(run, k + 1, flag).Covers(w))
            && (one.Covers(w) ==> Tail(run, k, flag).Entry(w) == one.Entry(w))
            && (Tail(run, k + 1, flag).Covers(w) ==> Tail(run, k, flag).Entry(w) == Tail(run, k + 1, flag).Entry(w))
  {
    var v := run.virt + k * PAGE_SIZE;
    if w >= v + PAGE_SIZE {
      assert (w - v) / PAGE_SIZE == (w - (v + PAGE_SIZE)) / PAGE_SIZE + 1;
    }
  }

  /** Sets one flag on every page of a run, last page first. */
  method FlagRunDown(t: PageTable, run: Run, flag: nat, ghost below: seq<Run>)
    requires t.Valid() && Good(t.State(), below) && Shows(below, run) && run.flags == 0 && (flag == PAT || flag == CACHE_DISABLE)
    requires IsPageAligned(run.virt) && IsPageAligned(run.phys) && RangeInKva(run.virt, run.count)
    modifies t.mem
    ensures t.Valid() && Good(t.State(), [Run(run.virt, run.phys, run.count, flag)] + below)
  {
    hide Tree, Good, IsPageAligned, RangeInKva, UpdateLeafSpec, Shows;
    EmptyRunAdds(t.State(), below, Tail(run, run.count, flag));
    var k: nat := run.count;
    while k > 0
      invariant k <= run.count && t.Valid() && Good(t.State(), [Tail(run, k, flag)] + below)
    {
      k := k - 1;
      FlagPrevious(t.State(), below, run, k, flag);
      var found := t.UpdatePte(run.virt + k * PAGE_SIZE, flag, true);
      assert found;
    }
  }

  lemma FrontShows(run: Run, runs: seq<Run>)
    ensures Shows([run] + runs, run)
  {
    forall w | run.Covers(w) ensures LeafOf([run] + runs, w) == run.Entry(w) {
      LeafOfCons(run, runs, w);
    }
  }

  // ---------------------------------------------------------------- devices

  lemma DevicesRegion(n: nat, count: nat)
    requires (n + count) * PAGE_SIZE <= DEVICES.size
    ensures AlignedRegion(DEVICES) && DEVICES.size / PAGE_SIZE == 4096 && KVA_BASE <= DEVICES.base && DEVICES.End() <= KVA_END
    ensures IsPageAligned(DEVICES.base + n * PAGE_SIZE) && RangeInKva(DEVICES.base + n * PAGE_SIZE, count)
  {
  }

  /** Where a device block goes: behind the n pages mapped so far, if it is aligned and fits there. */
  ghost predicate DeviceFits(physical: nat, count: nat, n: nat) {
    IsPageAligned(physical) && (n + count) * PAGE_SIZE <= DEVICES.size
  }

  lemma DeviceOutcome(p: Pool, runs: seq<Run>, physical: nat, count: nat, n: nat)
    requires Tree(p) && Good(p, runs) && PrefixMapped(p, DEVICES, n) && count > 0
    ensures var v := DEVICES.base + n * PAGE_SIZE;
            var (r, at) := MapInRegionSpec(p, DEVICES, physical, count);
            if DeviceFits(physical, count, n) then
              IsPageAligned(v) && IsPageAligned(physical) && RangeInKva(v, count) && at == Some(v) && Good(r, [Run(v, physical, count, 0)] + runs)
            else (r, at) == (p, None)
  {
    hide Tree, Sized, PrefixMapped, AlignedRegion, ScanRegion, Maps, Reserve, IsPageAligned, RangeInKva;
    DevicesRegion(0, 0);
    if DeviceFits(physical, count, n) {
      DevicesRegion(n, count);
      RegionAdds(p, runs, DEVICES, physical, count, n);
    } else if IsPageAligned(physical) {
      assert DEVICES.base + 0 * PAGE_SIZE == DEVICES.base;
      ScanSkipsPrefix(p, DEVICES, physical, count, n, 0);
    } else {
      RegionRefuses(p, DEVICES, physical, count, DEVICES.base);
    }
  }

  /** A request for no page maps nothing. */
  lemma {:induction false} NoPagesMapped(p: Pool, rg: Region, physical: nat, page: nat)
    requires Tree(p)
    ensures ScanRegion(p, rg, physical, 0, page).0 == p
    decreases rg.End() - page
  {
    TreeIsSized(p);
    hide Tree, Sized, IsMapped;
    if page <= rg.End() && IsMapped(p, page) {
      NoPagesMapped(p, rg, physical, page + PAGE_SIZE);
    }
  }

  /** MapDeviceUncached: the next pages of the device region, with caching disabled, last page first. */
  method MapDeviceUncached(t: PageTable, physical: nat, count: nat, ghost runs: seq<Run>, ghost n: nat) returns (at: Option<nat>)
    requires t.Valid() && Good(t.State(), runs) && PrefixMapped(t.State(), DEVICES, n)
    modifies t, t.physInfo, t.mem
    ensures t.Valid() && t.root == old(t.root)
    ensures count > 0 && DeviceFits(physical, count, n) ==>
              at == Some(DEVICES.base + n * PAGE_SIZE)
              && Good(t.State(), Flagged(DEVICES.base + n * PAGE_SIZE, physical, count, CACHE_DISABLE, runs))
    ensures count > 0 && !DeviceFits(physical, count, n) ==> at == None && t.State() == old(t.State())
    ensures count == 0 ==> t.State() == old(t.State())
  {
    if count > 0 {
      DeviceOutcome(t.State(), runs, physical, count, n);
    } else {
      NoPagesMapped(t.State(), DEVICES, physical, DEVICES.base);
    }
    hide *;
    at := t.MapPagesInRegion(DEVICES, physical, count);
    if count > 0 && at.Some? {
      FlagDevice(t, at.value, physical, count, runs);
    }
  }

  /** Disables caching for a block that was just mapped, last page first. */
  method FlagDevice(t: PageTable, page: nat, physical: nat, count: nat, ghost runs: seq<Run>)
    requires t.Valid() && Good(t.State(), [Run(page, physical, count, 0)] + runs)
    requires IsPageAligned(page) && IsPageAligned(physical) && RangeInKva(page, count)
    modifies t.mem
    ensures t.Valid() && Good(t.State(), Flagged(page, physical, count, CACHE_DISABLE, runs))
  {
    hide Tree, Good, IsPageAligned, RangeInKva, Shows;
    FrontShows(Run(page, physical, count, 0), runs);
    FlagRunDown(t, Run(page, physical, count, 0), CACHE_DISABLE, [Run(page, physical, count, 0)] + runs);
  }

  // ---------------------------------------------------------------- the sequence

  lemma DeviceRunsAvoid(devices: seq<nat>, runs: seq<Run>, p: Pool)
    requires |devices| <= 3 && Good(p, DeviceRuns(devices, runs)) && Avoids(runs, DEVICES) && (forall d | d in devices :: IsPageAligned(d))
    ensures PrefixMapped(p, DEVICES, |devices|)
  {
    hide Tree, Sized, Maps, Reserve, Avoids, DeviceRuns, AlignedRegion;
    DevicesRegion(0, 0);
    forall k: nat | k < 4096 ensures PageMapped(p, DEVICES, k) <==> k < |devices| {
      DevicePage(devices, runs, p, k);
    }
  }

  lemma DevicePage(devices: seq<nat>, runs: seq<Run>, p: Pool, k: nat)
    requires |devices| <= 3 && Sized(p) && Maps(p, DeviceRuns(devices, runs)) && Avoids(runs, DEVICES)
    requires (forall d | d in devices :: IsPageAligned(d)) && k < 4096
    ensures PageMapped(p, DEVICES, k) <==> k < |devices|
  {
    hide Sized, Leaf, Avoids, LeafOf, DeviceRuns, RunEntry, HasFlag, IsPageAligned;
    var w := DEVICES.base + k * PAGE_SIZE;
    assert Canonical(w) && DEVICES.Contains(w);
    DeviceLookup(devices, runs, w);
    if k < |devices| {
      assert (w - DEVICES.base) / PAGE_SIZE == k;
      assert devices[k] in devices;
      DeviceEntryPresent(w, devices[k]);
    } else {
      AvoidsHasNoLeaf(runs, DEVICES, w);
      ZeroHasNoFlag();
    }
  }

  lemma DeviceEntryPresent(w: nat, physical: nat)
    requires IsPageAligned(physical)
    ensures HasFlag(Run(w, physical, 1, CACHE_DISABLE).Entry(w), PRESENT)
  {
    hide HasFlag, SetFlag, MappedEntry, HardwareFrame;
    assert Run(w, physical, 1, CACHE_DISABLE).Entry(w) == MappedEntry(physical, false) + CACHE_DISABLE;
    FlagOnMapped(physical, CACHE_DISABLE);
    FlagKeepsFrame(MappedEntry(physical, false), CACHE_DISABLE, true);
    EntryLayout(physical, false);
  }

  lemma DeviceRunsSnoc(devices: seq<nat>, d: nat, runs: seq<Run>)
    ensures DeviceRuns(devices + [d], runs)
            == Flagged(DEVICES.base + |devices| * PAGE_SIZE, d, 1, CACHE_DISABLE, DeviceRuns(devices, runs))
  {
    assert (devices + [d])[..|devices|] == devices;
  }

  /** Maps one device and records it. */
  method MapDevice(t: PageTable, physical: nat, ghost devices: seq<nat>, ghost runs: seq<Run>) returns (at: Option<nat>)
    requires t.Valid() && |devices| < 3 && Avoids(runs, DEVICES) && (forall d | d in devices :: IsPageAligned(d))
    requires Good(t.State(), DeviceRuns(devices, runs))
    modifies t, t.physInfo, t.mem
    ensures t.Valid() && t.root == old(t.root)
    ensures Good(t.State(), DeviceRuns(if IsPageAligned(physical) then devices + [physical] else devices, runs))
    ensures at == if IsPageAligned(physical) then Some(DEVICES.base + |devices| * PAGE_SIZE) else None
  {
    hide Tree, Good, IsPageAligned, PrefixMapped, DeviceRuns, Avoids;
    DeviceRunsAvoid(devices, runs, t.State());
    DeviceRunsSnoc(devices, physical, runs);
    at := MapDeviceUncached(t, physical, 1, DeviceRuns(devices, runs), |devices|);
  }

  method MapUefiRuntime(t: PageTable, ds: seq<Descriptor>)
    requires t.Valid()
    modifies t, t.physInfo, t.mem
    ensures t.Valid() && t.root == old(t.root) && t.State() == MapRuntimeSpec(old(t.State()), ds)
  {
    hide Tree, MapPagesSpec;
    for i := 0 to |ds|
      invariant t.Valid() && t.root == old(t.root) && MapRuntimeSpec(t.State(), ds[i..]) == MapRuntimeSpec(old(t.State()), ds)
    {
      assert ds[i..][1..] == ds[i + 1..];
      if ds[i].IsRuntime() {
        var ok := t.MapPages(ds[i].virtual, ds[i].physical, ds[i].pages);
      }
    }
  }

  /** Where the mapped devices and buffers end up. */
  datatype Addresses = Addresses(frameBuffer: Option<nat>, backBuffer: Option<nat>, devices: DeviceAddresses)

  /** usingApic: whether the APIC is used.  None stands for a device that was not mapped. */
  datatype DeviceAddresses = DeviceAddresses(hpet: Option<nat>, usingApic: bool, ioApic: Option<nat>, localApic: Option<nat>)

  lemma ScreenRegions(info: BootInfo, poolPhys: nat, poolPages: nat)
    requires info.Fits() && poolPages * PAGE_SIZE <= KERNEL_PT.size
    ensures AlignedRegion(FRAME_BUFFER) && AlignedRegion(BACK_BUFFER)
    ensures FRAME_BUFFER.PageCount() == 16384 && 16384 * PAGE_SIZE == FRAME_BUFFER.size
    ensures Avoids([Run(KERNEL_PT.base, poolPhys, poolPages, 0)]
                   + [Run(KERNEL_IMAGE.base, info.kernelPhys, SizeToPages(info.kernelSize), 0)], FRAME_BUFFER)
    ensures Avoids(ScreenRuns(info, poolPhys, poolPages), BACK_BUFFER)
    ensures SizeToPages(info.screenBytes) * PAGE_SIZE <= BACK_BUFFER.size ==> Avoids(BufferRuns(info, poolPhys, poolPages), DEVICES)
    ensures RangeInKva(KERNEL_IMAGE.base, SizeToPages(info.kernelSize)) && RangeInKva(KERNEL_PT.base, poolPages)
    ensures RangeInKva(FRAME_BUFFER.base, 16384) && RangeInKva(KERNEL_POOL.base, info.pagePoolPages)
    ensures IsPageAligned(KERNEL_IMAGE.base) && IsPageAligned(KERNEL_PT.base)
    ensures IsPageAligned(KERNEL_POOL.base) && IsPageAligned(FRAME_BUFFER.base)
    ensures SizeToPages(info.screenBytes) > 0
  {
  }

  /** MapPages inside the kernel window. */
  method MapRun(t: PageTable, virt: nat, phys: nat, count: nat, ghost runs: seq<Run>)
    requires t.Valid() && Good(t.State(), runs) && RangeInKva(virt, count) && IsPageAligned(virt) && IsPageAligned(phys)
    modifies t, t.physInfo, t.mem
    ensures t.Valid() && t.root == old(t.root) && Good(t.State(), [Run(virt, phys, count, 0)] + runs)
  {
    hide Tree, Good, IsPageAligned, RangeInKva, MapPagesSpec;
    MapPagesAdds(t.State(), runs, virt, phys, count);
    var ok := t.MapPages(virt, phys, count);
  }

  /** MapPagesInRegion on a region in which nothing is mapped yet. */
  method MapFirstInRegion(t: PageTable, rg: Region, phys: nat, count: nat, ghost runs: seq<Run>) returns (at: Option<nat>)
    requires t.Valid() && Good(t.State(), runs) && Avoids(runs, rg) && count > 0 && IsPageAligned(phys)
    requires AlignedRegion(rg) && KVA_BASE <= rg.base && rg.End() <= KVA_END
    modifies t, t.physInfo, t.mem
    ensures t.Valid() && t.root == old(t.root)
    ensures if count * PAGE_SIZE <= rg.size then at == Some(rg.base) && Good(t.State(), [Run(rg.base, phys, count, 0)] + runs)
            else at == None && Good(t.State(), runs)
  {
    hide Tree, Good, IsPageAligned, MapInRegionSpec, Avoids, PrefixMapped, AlignedRegion;
    AvoidedRegionIsEmpty(t.State(), runs, rg);
    if count * PAGE_SIZE <= rg.size {
      RegionAdds(t.State(), runs, rg, phys, count, 0);
    } else {
      RegionTooSmall(t.State(), rg, phys, count);
    }
    at := t.MapPagesInRegion(rg, phys, count);
  }

  /** Kernel image, page tables and frame buffer: the first three mappings of the new table. */
  method MapImageAndScreen(t: PageTable, info: BootInfo) returns (frameBuffer: Option<nat>)
    requires t.Valid() && Good(t.State(), []) && t.pages * PAGE_SIZE <= KERNEL_PT.size
    requires info.Fits() && IsPageAligned(t.phys)
    modifies t, t.physInfo, t.mem
    ensures t.Valid() && t.root == old(t.root)
    ensures Good(t.State(), ScreenRuns(info, t.phys, t.pages)) && frameBuffer == Some(FRAME_BUFFER.base)
  {
    ScreenRegions(info, t.phys, t.pages);
    hide Tree, Good, IsPageAligned, RangeInKva, Avoids, AlignedRegion, SizeToPages;
    ghost var image := [Run(KERNEL_IMAGE.base, info.kernelPhys, SizeToPages(info.kernelSize), 0)];
    MapRun(t, KERNEL_IMAGE.base, info.kernelPhys, SizeToPages(info.kernelSize), []);
    assert image + [] == image;
    MapRun(t, KERNEL_PT.base, t.phys, t.pages, image);
    ghost var pt := [Run(KERNEL_PT.base, t.phys, t.pages, 0)] + image;
    frameBuffer := MapFirstInRegion(t, FRAME_BUFFER, info.frameBuffer, FRAME_BUFFER.PageCount(), pt);
  }

  /** The back buffer, which must fit its region, and the write-combining flag on the frame buffer. */
  method MapBackBuffer(t: PageTable, info: BootInfo) returns (backBuffer: Option<nat>)
    requires t.Valid() && info.Fits() && t.pages * PAGE_SIZE <= KERNEL_PT.size
    requires Good(t.State(), ScreenRuns(info, t.phys, t.pages))
    modifies t, t.physInfo, t.mem
    ensures t.Valid() && t.root == old(t.root)
    ensures if SizeToPages(info.screenBytes) * PAGE_SIZE <= BACK_BUFFER.size
            then backBuffer == Some(BACK_BUFFER.base) && Good(t.State(), BufferRuns(info, t.phys, t.pages))
            else backBuffer == None
  {
    ScreenRegions(info, t.phys, t.pages);
    var pages := SizeToPages(info.screenBytes);
    hide Tree, Good, IsPageAligned, RangeInKva, Avoids, AlignedRegion, SizeToPages, ScreenRuns, Shows;
    ghost var runs := ScreenRuns(info, t.phys, t.pages);
    backBuffer := MapFirstInRegion(t, BACK_BUFFER, info.backBuffer, pages, runs);
    if backBuffer.None? {
      return;  // the kernel panics
    }
    ScreenShows(info, t.phys, t.pages);
    FlagRun(t, Run(FRAME_BUFFER.base, info.frameBuffer, FRAME_BUFFER.PageCount(), 0), PAT,
            [Run(BACK_BUFFER.base, info.backBuffer, pages, 0)] + runs);
  }

  /** The frame buffer is still seen below the back buffer. */
  lemma ScreenShows(info: BootInfo, poolPhys: nat, poolPages: nat)
    requires SizeToPages(info.screenBytes) * PAGE_SIZE <= BACK_BUFFER.size
    ensures Shows([Run(BACK_BUFFER.base, info.backBuffer, SizeToPages(info.screenBytes), 0)] + ScreenRuns(info, poolPhys, poolPages),
                  Run(FRAME_BUFFER.base, info.frameBuffer, FRAME_BUFFER.PageCount(), 0))
    ensures RangeInKva(FRAME_BUFFER.base, FRAME_BUFFER.PageCount())
  {
    hide LeafOf, RunEntry;
    var screen := Run(FRAME_BUFFER.base, info.frameBuffer, FRAME_BUFFER.PageCount(), 0);
    var buffer := Run(BACK_BUFFER.base, info.backBuffer, SizeToPages(info.screenBytes), 0);
    var rest := [Run(KERNEL_PT.base, poolPhys, poolPages, 0)] + [Run(KERNEL_IMAGE.base, info.kernelPhys, SizeToPages(info.kernelSize), 0)];
    forall w | screen.Covers(w) ensures LeafOf([buffer] + ([screen] + rest), w) == screen.Entry(w) {
      LeafOfCons(buffer, [screen] + rest, w);
      LeafOfCons(screen, rest, w);
    }
  }

  lemma RegionTooSmall(p: Pool, rg: Region, phys: nat, count: nat)
    requires Tree(p) && count * PAGE_SIZE > rg.size
    ensures MapInRegionSpec(p, rg, phys, count) == (p, None)
  {
    hide Tree;
  }

  /** HPET and APICs.  The APIC is used only if both its blocks could be mapped. */
  method MapDevices(t: PageTable, info: BootInfo, ghost runs: seq<Run>) returns (at: DeviceAddresses)
    requires t.Valid() && Good(t.State(), runs) && Avoids(runs, DEVICES)
    modifies t, t.physInfo, t.mem
    ensures t.Valid() && t.root == old(t.root) && Good(t.State(), DeviceRuns(info.Devices(), runs))
    ensures DevicesPlaced(info, at)
  {
    hide Tree, Good, IsPageAligned, Avoids, DeviceRuns;
    assert DeviceRuns([], runs) == runs by {
      NoDeviceRuns(runs);
    }
    ghost var first := if info.hpet != 0 && IsPageAligned(info.hpet) then [info.hpet] else [];
    var hpet := None;
    if info.hpet != 0 {
      hpet := MapDevice(t, info.hpet, [], runs);
      assert [] + [info.hpet] == [info.hpet];
    }
    assert Good(t.State(), DeviceRuns(first, runs));
    var usingApic, io, local := info.usingApic, None, None;
    if usingApic {
      io := MapDevice(t, info.ioApic, first, runs);
      usingApic := io.Some?;
      if usingApic {
        local := MapDevice(t, info.localApic, first + [info.ioApic], runs);
        usingApic := local.Some?;
        assert first + [info.ioApic] + [info.localApic] == first + ([info.ioApic] + [info.localApic]);
        assert first + ([info.ioApic] + []) == first + [info.ioApic];
      } else {
        assert first + [] == first;
      }
    } else {
      assert first + [] == first;
    }
    at := DeviceAddresses(hpet, usingApic, io, local);
  }

  /** Each device takes the next page of the device region, unless it is absent or its address is unaligned.
      The local APIC is mapped only behind the I/O APIC, and the APIC is used only if both are mapped. */
  ghost predicate DevicesPlaced(info: BootInfo, at: DeviceAddresses) {
    && at.hpet == (if info.hpet != 0 && IsPageAligned(info.hpet) then Some(DEVICES.base) else None)
    && at.ioApic == (if info.usingApic && IsPageAligned(info.ioApic)
                     then Some(DEVICES.base + if at.hpet.Some? then PAGE_SIZE else 0) else None)
    && at.localApic == (if at.ioApic.Some? && IsPageAligned(info.localApic) then Some(at.ioApic.value + PAGE_SIZE) else None)
    && at.usingApic == (at.ioApic.Some? && at.localApic.Some?)
  }

  lemma NoDeviceRuns(runs: seq<Run>)
    ensures DeviceRuns([], runs) == runs
  {
  }

  /** The mapping part of OsInitialize, from the fresh table to the point where CR3 is loaded.
      It cannot run out of table pages; it fails only if the back buffer does not fit its region. */
  method MapKernelSpace(t: PageTable, info: BootInfo, ds: seq<Descriptor>) returns (ok: bool, at: Addresses)
    requires t.Valid() && Empty(t.State()) && WINDOWS + 4 <= t.pages && t.pages * PAGE_SIZE <= KERNEL_PT.size
    requires info.Fits() && RuntimeInside(ds)
    modifies t, t.physInfo, t.mem
    ensures t.Valid() && t.root == old(t.root)
    ensures ok <==> SizeToPages(info.screenBytes) * PAGE_SIZE <= BACK_BUFFER.size
    ensures ok ==> Good(t.State(), BootRuns(info, ds, t.phys, t.pages))
    ensures ok && Addressable(info) ==> BootDone(t.State(), info, ds)
    ensures ok ==> at.frameBuffer == Some(FRAME_BUFFER.base) && at.backBuffer == Some(BACK_BUFFER.base)
    ensures ok ==> DevicesPlaced(info, at.devices)
    ensures ok && Addressable(info) ==>
              && MapsDevice(t.State(), at.devices.hpet, info.hpet)
              && MapsDevice(t.State(), at.devices.ioApic, info.ioApic) && MapsDevice(t.State(), at.devices.localApic, info.localApic)
  {
    ScreenRegions(info, t.phys, t.pages);
    EmptyIsGood(t.State());
    TreeIsSized(t.State());
    hide Tree, Good, IsPageAligned, Avoids, RuntimeInside, AlignedRegion, RangeInKva, SizeToPages, Empty,
         ScreenRuns, BufferRuns, DeviceRuns;
    var frameBuffer := MapImageAndScreen(t, info);
    var backBuffer := MapBackBuffer(t, info);
    if backBuffer.None? {
      return false, Addresses(frameBuffer, None, DeviceAddresses(None, false, None, None));
    }
    ghost var buffers := BufferRuns(info, t.phys, t.pages);
    var mapped := MapDevices(t, info, buffers);
    ghost var devices := DeviceRuns(info.Devices(), buffers);
    MapRuntimeAdds(t.State(), devices, ds);
    MapUefiRuntime(t, ds);
    MapRun(t, KERNEL_POOL.base, info.pagePool, info.pagePoolPages, RuntimeRuns(ds, devices));
    if Addressable(info) {
      BootDevices(t.State(), info, ds, mapped);
    }
    return true, Addresses(frameBuffer, backBuffer, mapped);
  }

  // ---------------------------------------------------------------- what the finished table translates

  /** Physical blocks lie below the 52-bit limit of an entry. */
  ghost predicate Addressable(info: BootInfo) {
    && info.kernelPhys + info.kernelSize + PAGE_SIZE <= PHYSICAL_LIMIT
    && info.frameBuffer + FRAME_BUFFER.size <= PHYSICAL_LIMIT && info.backBuffer + info.screenBytes + PAGE_SIZE <= PHYSICAL_LIMIT
    && info.pagePool + info.pagePoolPages * PAGE_SIZE <= PHYSICAL_LIMIT
    && forall d | d in info.Devices() :: d + PAGE_SIZE <= PHYSICAL_LIMIT
  }

  /** Look-ups below the runtime runs and the page pool. */
  lemma BootLookup(info: BootInfo, ds: seq<Descriptor>, poolPhys: nat, poolPages: nat, w: nat)
    requires RuntimeInside(ds) && !UEFI.Contains(w) && !KERNEL_POOL.Contains(w) && info.pagePoolPages * PAGE_SIZE <= KERNEL_POOL.size
    ensures LeafOf(BootRuns(info, ds, poolPhys, poolPages), w)
            == LeafOf(DeviceRuns(info.Devices(), BufferRuns(info, poolPhys, poolPages)), w)
  {
    hide LeafOf, RuntimeInside, DeviceRuns, BufferRuns, RunEntry;
    var devices := DeviceRuns(info.Devices(), BufferRuns(info, poolPhys, poolPages));
    LeafOfCons(Run(KERNEL_POOL.base, info.pagePool, info.pagePoolPages, 0), RuntimeRuns(ds, devices), w);
    RuntimeLookup(ds, devices, w);
  }

  lemma BufferLookup(info: BootInfo, poolPhys: nat, poolPages: nat, w: nat)
    ensures var image := Run(KERNEL_IMAGE.base, info.kernelPhys, SizeToPages(info.kernelSize), 0);
            var pt := Run(KERNEL_PT.base, poolPhys, poolPages, 0);
            var screen := Run(FRAME_BUFFER.base, info.frameBuffer, FRAME_BUFFER.PageCount(), PAT);
            var buffer := Run(BACK_BUFFER.base, info.backBuffer, SizeToPages(info.screenBytes), 0);
            LeafOf(BufferRuns(info, poolPhys, poolPages), w) ==
            if screen.Covers(w) then screen.Entry(w) else if buffer.Covers(w) then buffer.Entry(w)
            else if pt.Covers(w) then pt.Entry(w) else if image.Covers(w) then image.Entry(w) else 0
  {
    var image := Run(KERNEL_IMAGE.base, info.kernelPhys, SizeToPages(info.kernelSize), 0);
    var pt := Run(KERNEL_PT.base, poolPhys, poolPages, 0);
    var plain := Run(FRAME_BUFFER.base, info.frameBuffer, FRAME_BUFFER.PageCount(), 0);
    var screen := Run(FRAME_BUFFER.base, info.frameBuffer, FRAME_BUFFER.PageCount(), PAT);
    var buffer := Run(BACK_BUFFER.base, info.backBuffer, SizeToPages(info.screenBytes), 0);
    assert [image] + [] == [image];
    LeafOfCons(image, [], w);
    LeafOfCons(pt, [image], w);
    LeafOfCons(plain, [pt] + [image], w);
    LeafOfCons(buffer, [plain] + ([pt] + [image]), w);
    LeafOfCons(screen, [buffer] + ([plain] + ([pt] + [image])), w);
    hide LeafOf, RunEntry, SizeToPages;
  }

  /** The run that decides the translation of an address outside the device and UEFI regions. */
  function BootRun(info: BootInfo, poolPhys: nat, poolPages: nat, w: nat): (r: Option<Run>)
    ensures r.Some? ==> r.value.Covers(w)
  {
    var image := Run(KERNEL_IMAGE.base, info.kernelPhys, SizeToPages(info.kernelSize), 0);
    var pt := Run(KERNEL_PT.base, poolPhys, poolPages, 0);
    var screen := Run(FRAME_BUFFER.base, info.frameBuffer, FRAME_BUFFER.PageCount(), PAT);
    var buffer := Run(BACK_BUFFER.base, info.backBuffer, SizeToPages(info.screenBytes), 0);
    var pool := Run(KERNEL_POOL.base, info.pagePool, info.pagePoolPages, 0);
    if pool.Covers(w) then Some(pool) else if screen.Covers(w) then Some(screen) else if buffer.Covers(w) then Some(buffer)
    else if pt.Covers(w) then Some(pt) else if image.Covers(w) then Some(image) else None
  }

  lemma BootLeaf(info: BootInfo, ds: seq<Descriptor>, poolPhys: nat, poolPages: nat, w: nat)
    requires RuntimeInside(ds) && !UEFI.Contains(w) && !InRange(w, DEVICES.base, |info.Devices()|)
    ensures LeafOf(BootRuns(info, ds, poolPhys, poolPages), w) ==
            match BootRun(info, poolPhys, poolPages, w) case None => 0 case Some(run) => run.Entry(w)
  {
    hide RuntimeInside, DeviceRuns, BufferRuns, RunEntry, LeafOf, SizeToPages;
    var buffers := BufferRuns(info, poolPhys, poolPages);
    var devices := DeviceRuns(info.Devices(), buffers);
    LeafOfCons(Run(KERNEL_POOL.base, info.pagePool, info.pagePoolPages, 0), RuntimeRuns(ds, devices), w);
    RuntimeLookup(ds, devices, w);
    DeviceLookup(info.Devices(), buffers, w);
    BufferLookup(info, poolPhys, poolPages, w);
  }

  /** The runs are aligned, addressable and outside the device and UEFI regions. */
  lemma BootRunFits(info: BootInfo, poolPhys: nat, poolPages: nat, w: nat)
    requires info.Fits() && Addressable(info) && SizeToPages(info.screenBytes) * PAGE_SIZE <= BACK_BUFFER.size
    requires IsPageAligned(poolPhys) && poolPhys + poolPages * PAGE_SIZE <= PHYSICAL_LIMIT && poolPages * PAGE_SIZE <= KERNEL_PT.size
    ensures match BootRun(info, poolPhys, poolPages, w)
            case None => true
            case Some(run) =>
              && IsPageAligned(run.virt) && IsPageAligned(run.phys) && run.phys + run.count * PAGE_SIZE <= PHYSICAL_LIMIT
              && (run.flags == 0 || run.flags == PAT) && RangeInKva(run.virt, run.count)
              && !UEFI.Contains(w) && !InRange(w, DEVICES.base, |info.Devices()|)
  {
    hide BootInfo.Devices;
  }

  /** The state MapKernelSpace leaves behind when the back buffer fits. */
  ghost predicate BootDone(p: Pool, info: BootInfo, ds: seq<Descriptor>) {
    && Good(p, BootRuns(info, ds, p.phys, |p.mem|)) && |p.mem| * PAGE_SIZE <= KERNEL_PT.size
    && info.Fits() && Addressable(info) && RuntimeInside(ds) && SizeToPages(info.screenBytes) * PAGE_SIZE <= BACK_BUFFER.size
  }

  lemma BootDoneLeaf(p: Pool, info: BootInfo, ds: seq<Descriptor>, w: nat)
    requires BootDone(p, info, ds)
    ensures Tree(p) && Sized(p) && IsPageAligned(p.phys) && p.phys + |p.mem| * PAGE_SIZE <= PHYSICAL_LIMIT
    ensures RuntimeInside(ds) && Addressable(info) && info.pagePoolPages * PAGE_SIZE <= KERNEL_POOL.size
    ensures Canonical(w) ==> Leaf(p, w) == LeafOf(BootRuns(info, ds, p.phys, |p.mem|), w)
  {
    hide Tree, Leaf, LeafOf, Canonical, BootRuns, Reserve, Addressable, RuntimeInside, SizeToPages;
  }

  lemma BootTranslates(p: Pool, info: BootInfo, ds: seq<Descriptor>, w: nat)
    requires BootDone(p, info, ds)
    ensures Sized(p)
    ensures var run := BootRun(info, p.phys, |p.mem|, w);
            run.Some? ==> Translate(p, w) == Some(run.value.phys + (w - run.value.virt))
                          && (run.value.flags != 0 ==> HasFlag(Leaf(p, w), run.value.flags))
  {
    hide Tree, Sized, Leaf, LeafOf, Translate, HasFlag, RunEntry, RuntimeInside, BootRuns, Good, Addressable, BootRun,
         IsPageAligned, BootInfo.Fits, SizeToPages;
    BootDoneLeaf(p, info, ds, w);
    BootRunFits(info, p.phys, |p.mem|, w);
    var run := BootRun(info, p.phys, |p.mem|, w);
    if run.Some? {
      BootLeaf(info, ds, p.phys, |p.mem|, w);
      EntryTranslates(p, run.value, w);
    }
  }

  function DeviceRun(info: BootInfo, w: nat): Run
    requires InRange(w, DEVICES.base, |info.Devices()|)
  {
    var k := (w - DEVICES.base) / PAGE_SIZE;
    Run(DEVICES.base + k * PAGE_SIZE, info.Devices()[k], 1, CACHE_DISABLE)
  }

  lemma DeviceRunFits(info: BootInfo, w: nat)
    requires InRange(w, DEVICES.base, |info.Devices()|) && Addressable(info)
    ensures var run := DeviceRun(info, w);
            && run.Covers(w) && IsPageAligned(run.virt) && IsPageAligned(run.phys) && run.phys + PAGE_SIZE <= PHYSICAL_LIMIT
            && Canonical(w) && !UEFI.Contains(w) && !KERNEL_POOL.Contains(w) && w - run.virt == w % PAGE_SIZE
  {
    var k := (w - DEVICES.base) / PAGE_SIZE;
    assert info.Devices()[k] in info.Devices();
    hide BootInfo.Devices;
  }

  lemma BootDevice(p: Pool, info: BootInfo, ds: seq<Descriptor>, w: nat)
    requires BootDone(p, info, ds) && InRange(w, DEVICES.base, |info.Devices()|)
    ensures Sized(p)
    ensures Translate(p, w) == Some(info.Devices()[(w - DEVICES.base) / PAGE_SIZE] + w % PAGE_SIZE)
    ensures HasFlag(Leaf(p, w), CACHE_DISABLE)
  {
    hide Tree, Sized, Leaf, LeafOf, Translate, HasFlag, RunEntry, RuntimeInside, BootRuns, BootDone, DeviceRuns, BufferRuns,
         BootInfo.Devices, Addressable, Canonical, IsPageAligned;
    var run := DeviceRun(info, w);
    BootDoneLeaf(p, info, ds, w);
    DeviceRunFits(info, w);
    BootLookup(info, ds, p.phys, |p.mem|, w);
    DeviceLookup(info.Devices(), BufferRuns(info, p.phys, |p.mem|), w);
    EntryTranslates(p, run, w);
  }

  /** Every address of the page that a device was mapped at translates into the device's page, with caching disabled. */
  ghost predicate MapsDevice(p: Pool, at: Option<nat>, physical: nat) {
    Sized(p) && (at.Some? ==> forall o: nat | o < PAGE_SIZE :: Uncached(p, at.value, physical, o))
  }

  ghost predicate Uncached(p: Pool, virt: nat, phys: nat, offset: nat)
    requires Sized(p)
  {
    Translate(p, virt + offset) == Some(phys + offset) && HasFlag(Leaf(p, virt + offset), CACHE_DISABLE)
  }

  /** What is reported as mapped is mapped: the HPET, the I/O APIC and the local APIC. */
  lemma BootDevices(p: Pool, info: BootInfo, ds: seq<Descriptor>, at: DeviceAddresses)
    requires BootDone(p, info, ds) && DevicesPlaced(info, at)
    ensures MapsDevice(p, at.hpet, info.hpet) && MapsDevice(p, at.ioApic, info.ioApic) && MapsDevice(p, at.localApic, info.localApic)
  {
    BootDoneLeaf(p, info, ds, 0);
    DevicePositions(info, at);
    assert forall physical :: MapsDevice(p, None, physical);
    var io: nat := if at.hpet.Some? then 1 else 0;
    hide *;
    if at.hpet.Some? {
      BootDevicePage(p, info, ds, 0, at.hpet, info.hpet);
    }
    if at.ioApic.Some? {
      BootDevicePage(p, info, ds, io, at.ioApic, info.ioApic);
    }
    if at.localApic.Some? {
      BootDevicePage(p, info, ds, io + 1, at.localApic, info.localApic);
    }
  }

  ghost predicate DeviceAt(info: BootInfo, k: nat, at: Option<nat>, physical: nat) {
    at.Some? ==> k < |info.Devices()| && info.Devices()[k] == physical && at == Some(DEVICES.base + k * PAGE_SIZE)
  }

  lemma DevicePositions(info: BootInfo, at: DeviceAddresses)
    requires DevicesPlaced(info, at)
    ensures var io: nat := if at.hpet.Some? then 1 else 0;
            && DeviceAt(info, 0, at.hpet, info.hpet)
            && DeviceAt(info, io, at.ioApic, info.ioApic) && DeviceAt(info, io + 1, at.localApic, info.localApic)
  {
  }

  lemma BootDevicePage(p: Pool, info: BootInfo, ds: seq<Descriptor>, k: nat, at: Option<nat>, physical: nat)
    requires BootDone(p, info, ds) && DeviceAt(info, k, at, physical)
    ensures MapsDevice(p, at, physical)
  {
    hide Tree, Sized, Uncached, BootDone, DeviceAt;
    BootSized(p, info, ds);
    if at.Some? {
      forall o: nat | o < PAGE_SIZE ensures Uncached(p, at.value, physical, o) {
        BootDeviceByte(p, info, ds, k, at, physical, o);
      }
    }
  }

  lemma BootSized(p: Pool, info: BootInfo, ds: seq<Descriptor>)
    requires BootDone(p, info, ds)
    ensures Sized(p)
  {
    BootDoneLeaf(p, info, ds, 0);
  }

  lemma BootDeviceByte(p: Pool, info: BootInfo, ds: seq<Descriptor>, k: nat, at: Option<nat>, physical: nat, o: nat)
    requires BootDone(p, info, ds) && DeviceAt(info, k, at, physical) && at.Some? && o < PAGE_SIZE
    ensures Sized(p) && Uncached(p, at.value, physical, o)
  {
    hide Tree, Sized, Translate, Leaf, HasFlag, BootDone, DeviceAt, BootInfo.Devices;
    DeviceOffset(info, k, at, physical, o);
    BootDevice(p, info, ds, at.value + o);
  }

  lemma DeviceOffset(info: BootInfo, k: nat, at: Option<nat>, physical: nat, o: nat)
    requires DeviceAt(info, k, at, physical) && at.Some? && o < PAGE_SIZE
    ensures var w := at.value + o;
            && InRange(w, DEVICES.base, |info.Devices()|)
            && info.Devices()[(w - DEVICES.base) / PAGE_SIZE] == physical && w % PAGE_SIZE == o
  {
    assert (at.value + o - DEVICES.base) / PAGE_SIZE == k;
    hide BootInfo.Devices;
  }

  /** In the UEFI region exactly the pages of the runtime descriptors are mapped, each to the page it was placed by. */
  lemma BootUefi(p: Pool, info: BootInfo, ds: seq<Descriptor>, w: nat)
    requires BootDone(p, info, ds) && RuntimePlaced(ds, UEFI.base) && UEFI.Contains(w)
    ensures Sized(p) && Translate(p, w) == if RuntimeCovers(ds, w) then Some(w - UEFI.base) else None
  {
    hide Tree, Sized, Leaf, LeafOf, Translate, RunEntry, RuntimeInside, RuntimePlaced, RuntimeCovers, BootDone, Addressable,
         DeviceRuns, BufferRuns, BootInfo.Devices, SizeToPages, HasFlag, UefiEntry;
    BootDoneLeaf(p, info, ds, w);
    UefiLookup(p, info, ds, w);
    HardwareAgrees(p, w);
    if RuntimeCovers(ds, w) {
      UefiEntryTranslates(w);
    } else {
      ZeroHasNoFlag();
    }
  }

  lemma UefiLookup(p: Pool, info: BootInfo, ds: seq<Descriptor>, w: nat)
    requires BootDone(p, info, ds) && RuntimePlaced(ds, UEFI.base) && UEFI.Contains(w)
    ensures LeafOf(BootRuns(info, ds, p.phys, |p.mem|), w) == if RuntimeCovers(ds, w) then UefiEntry(w) else 0
  {
    hide Good, LeafOf, RunEntry, RuntimePlaced, RuntimeCovers, DeviceRuns, BufferRuns, BootInfo.Devices, SizeToPages, UefiEntry;
    var buffers := BufferRuns(info, p.phys, |p.mem|);
    var devices := DeviceRuns(info.Devices(), buffers);
    assert |info.Devices()| <= 3;
    LeafOfCons(Run(KERNEL_POOL.base, info.pagePool, info.pagePoolPages, 0), RuntimeRuns(ds, devices), w);
    RuntimeHit(ds, devices, w);
    DeviceLookup(info.Devices(), buffers, w);
    BufferLookup(info, p.phys, |p.mem|, w);
    assert SizeToPages(info.kernelSize) * PAGE_SIZE <= KERNEL_IMAGE.size;
  }

  lemma UefiEntryTranslates(w: nat)
    requires UEFI.Contains(w)
    ensures Canonical(w) && HasFlag(UefiEntry(w), PRESENT) && HardwareFrame(UefiEntry(w)) + w % PAGE_SIZE == w - UEFI.base
  {
    hide MappedEntry, HasFlag, HardwareFrame;
    EntryLayout(w - w % PAGE_SIZE - UEFI.base, false);
  }

  /** An address outside the UEFI region that no block covers is not mapped, inside the kernel window or not. */
  lemma BootUnmapped(p: Pool, info: BootInfo, ds: seq<Descriptor>, w: nat)
    requires BootDone(p, info, ds) && Canonical(w) && !UEFI.Contains(w) && !InRange(w, DEVICES.base, |info.Devices()|)
    requires BootRun(info, p.phys, |p.mem|, w).None?
    ensures Sized(p) && Translate(p, w) == None
  {
    hide Tree, Sized, Leaf, LeafOf, Translate, RunEntry, RuntimeInside, BootRuns, Good, Addressable, BootRun, HasFlag,
         BootInfo.Fits, SizeToPages, Canonical, IsPageAligned;
    BootDoneLeaf(p, info, ds, w);
    BootLeaf(info, ds, p.phys, |p.mem|, w);
    HardwareAgrees(p, w);
    ZeroHasNoFlag();
  }

  /** w lies in one of the blocks that the boot sequence maps; the UEFI region is described by its descriptors. */
  ghost predicate InBlock(info: BootInfo, poolPages: nat, w: nat) {
    || InRange(w, KERNEL_IMAGE.base, SizeToPages(info.kernelSize)) || InRange(w, KERNEL_PT.base, poolPages)
    || FRAME_BUFFER.Contains(w) || InRange(w, BACK_BUFFER.base, SizeToPages(info.screenBytes))
    || InRange(w, KERNEL_POOL.base, info.pagePoolPages) || InRange(w, DEVICES.base, |info.Devices()|)
  }

  lemma OutsideBlocks(info: BootInfo, poolPhys: nat, poolPages: nat, w: nat)
    ensures !InBlock(info, poolPages, w) ==>
              BootRun(info, poolPhys, poolPages, w).None? && !InRange(w, DEVICES.base, |info.Devices()|)
    ensures info.Fits() && poolPages * PAGE_SIZE <= KERNEL_PT.size ==>
              SizeToPages(info.screenBytes) * PAGE_SIZE <= BACK_BUFFER.size && InBlock(info, poolPages, w) ==>
                InKva(w) && !UEFI.Contains(w)
  {
    assert FRAME_BUFFER.PageCount() * PAGE_SIZE == FRAME_BUFFER.size;
    assert |info.Devices()| <= 3;
    hide BootInfo.Devices;
  }

  /** The finished kernel address space, for every canonical address: every block translates to where the boot loader
      put it, the pool of table pages is mapped onto itself, the frame buffer is write-combining, devices are uncached,
      runtime memory is found where the boot loader told the firmware to look, and nothing else is mapped. */
  lemma KernelSpaceTranslates(p: Pool, info: BootInfo, ds: seq<Descriptor>, w: nat)
    requires BootDone(p, info, ds)
    ensures Sized(p)
    ensures InRange(w, KERNEL_IMAGE.base, SizeToPages(info.kernelSize)) ==>
              Translate(p, w) == Some(info.kernelPhys + (w - KERNEL_IMAGE.base))
    ensures InRange(w, KERNEL_PT.base, |p.mem|) ==> Translate(p, w) == Some(p.phys + (w - KERNEL_PT.base))
    ensures FRAME_BUFFER.Contains(w) ==>
              Translate(p, w) == Some(info.frameBuffer + (w - FRAME_BUFFER.base)) && HasFlag(Leaf(p, w), PAT)
    ensures InRange(w, BACK_BUFFER.base, SizeToPages(info.screenBytes)) ==>
              Translate(p, w) == Some(info.backBuffer + (w - BACK_BUFFER.base))
    ensures InRange(w, KERNEL_POOL.base, info.pagePoolPages) ==>
              Translate(p, w) == Some(info.pagePool + (w - KERNEL_POOL.base))
    ensures InRange(w, DEVICES.base, |info.Devices()|) ==>
              Translate(p, w) == Some(info.Devices()[(w - DEVICES.base) / PAGE_SIZE] + w % PAGE_SIZE)
              && HasFlag(Leaf(p, w), CACHE_DISABLE)
    ensures UEFI.Contains(w) && RuntimePlaced(ds, UEFI.base) ==>
              Translate(p, w) == if RuntimeCovers(ds, w) then Some(w - UEFI.base) else None
    ensures Canonical(w) && !UEFI.Contains(w) && !InBlock(info, |p.mem|, w) ==> Translate(p, w) == None
    ensures Canonical(w) && !InKva(w) ==> Translate(p, w) == None
  {
    hide Tree, Sized, Leaf, Translate, HasFlag, RuntimeInside, RuntimePlaced, RuntimeCovers, BootRuns, Good, Addressable,
         SizeToPages, BootInfo.Devices, BootInfo.Fits, BootRun, Canonical, InBlock;
    BootRegions(info, p.phys, |p.mem|, w);
    BootTranslates(p, info, ds, w);
    if InRange(w, DEVICES.base, |info.Devices()|) {
      BootDevice(p, info, ds, w);
    }
    OutsideBlocks(info, p.phys, |p.mem|, w);
    if UEFI.Contains(w) && RuntimePlaced(ds, UEFI.base) {
      BootUefi(p, info, ds, w);
    }
    if Canonical(w) && !UEFI.Contains(w) && !InBlock(info, |p.mem|, w) {
      BootUnmapped(p, info, ds, w);
    }
  }

  /** Which run decides where. */
  lemma BootRegions(info: BootInfo, poolPhys: nat, poolPages: nat, w: nat)
    requires info.Fits() && SizeToPages(info.screenBytes) * PAGE_SIZE <= BACK_BUFFER.size && poolPages * PAGE_SIZE <= KERNEL_PT.size
    ensures var run := BootRun(info, poolPhys, poolPages, w);
            && (InRange(w, KERNEL_IMAGE.base, SizeToPages(info.kernelSize)) ==>
                  run == Some(Run(KERNEL_IMAGE.base, info.kernelPhys, SizeToPages(info.kernelSize), 0)))
            && (InRange(w, KERNEL_PT.base, poolPages) ==> run == Some(Run(KERNEL_PT.base, poolPhys, poolPages, 0)))
            && (FRAME_BUFFER.Contains(w) ==> run == Some(Run(FRAME_BUFFER.base, info.frameBuffer, FRAME_BUFFER.PageCount(), PAT)))
            && (InRange(w, BACK_BUFFER.base, SizeToPages(info.screenBytes)) ==>
                  run == Some(Run(BACK_BUFFER.base, info.backBuffer, SizeToPages(info.screenBytes), 0)))
            && (InRange(w, KERNEL_POOL.base, info.pagePoolPages) ==>
                  run == Some(Run(KERNEL_POOL.base, info.pagePool, info.pagePoolPages, 0)))
  {
    assert SizeToPages(info.kernelSize) * PAGE_SIZE <= KERNEL_IMAGE.size;
  }

  /** The kernel keeps finding its paging structures at the addresses GetPoolEntryVa computes:
      the virtual address of every pool page translates to that page, with all boot mappings in place. */
  lemma PoolMapsItself(p: Pool, info: BootInfo, ds: seq<Descriptor>, page: nat)
    requires BootDone(p, info, ds) && p.virt == KERNEL_PT.base && page < |p.mem|
    ensures Sized(p) && Translate(p, PoolEntryVa(p.phys, p.virt, PhysicalOf(p, page))) == Some(PhysicalOf(p, page))
  {
    hide BootDone, SizeToPages, Translate, Leaf, HasFlag, Sized;
    KernelSpaceTranslates(p, info, ds, KERNEL_PT.base + page * PAGE_SIZE);
  }

  // ---------------------------------------------------------------- user mode

  ghost predicate KernelRun(run: Run) {
    IsPageAligned(run.phys) && (run.flags == 0 || run.flags == PAT || run.flags == CACHE_DISABLE)
  }

  ghost predicate KernelRuns(runs: seq<Run>) {
    forall r | r in runs :: KernelRun(r)
  }

  lemma KernelEntry(run: Run, w: nat)
    requires KernelRun(run) && run.Covers(w)
    ensures !HasFlag(run.Entry(w), USER) && HasFlag(run.Entry(w), WRITABLE)
  {
    var frame := run.phys + (w - run.virt) / PAGE_SIZE * PAGE_SIZE;
    assert IsPageAligned(frame) && run.Entry(w) == MappedEntry(frame, false) + run.flags;
    hide HasFlag, SetFlag, MappedEntry, HardwareFrame;
    EntryLayout(frame, false);
    if run.flags != 0 {
      FlagOnMapped(frame, run.flags);
      FlagOthers(MappedEntry(frame, false), run.flags, USER, true);
      FlagOthers(MappedEntry(frame, false), run.flags, WRITABLE, true);
    }
  }

  lemma {:induction false} KernelLeaf(runs: seq<Run>, w: nat)
    requires KernelRuns(runs)
    ensures !HasFlag(LeafOf(runs, w), USER) && (LeafOf(runs, w) == 0 || HasFlag(LeafOf(runs, w), WRITABLE))
  {
    hide RunEntry, KernelRun;
    if runs != [] {
      if runs[0].Covers(w) {
        KernelEntry(runs[0], w);
      } else {
        KernelLeaf(runs[1..], w);
      }
    }
  }

  lemma {:induction false} RuntimeKernelRuns(ds: seq<Descriptor>, runs: seq<Run>)
    requires RuntimeInside(ds) && KernelRuns(runs)
    ensures KernelRuns(RuntimeRuns(ds, runs))
    decreases |ds|
  {
    if ds != [] {
      assert RuntimeInside(ds[1..]);
      RuntimeKernelRuns(ds[1..], if ds[0].IsRuntime() then [Run(ds[0].virtual, ds[0].physical, ds[0].pages, 0)] + runs else runs);
    }
  }

  lemma {:induction false} DeviceKernelRuns(devices: seq<nat>, runs: seq<Run>)
    requires KernelRuns(runs) && forall d | d in devices :: IsPageAligned(d)
    ensures KernelRuns(DeviceRuns(devices, runs))
  {
    hide IsPageAligned;
    if devices != [] {
      var n := |devices| - 1;
      assert devices[n] in devices;
      DeviceKernelRuns(devices[..n], runs);
    }
  }

  /** The boot sequence opens no page of the kernel address space to user mode, and all that is mapped can be written. */
  lemma BootKeepsUserOut(p: Pool, info: BootInfo, ds: seq<Descriptor>, w: nat)
    requires BootDone(p, info, ds) && Canonical(w)
    ensures Sized(p) && !UserCanAccess(p, w) && (CanWrite(p, w) <==> Translate(p, w).Some?)
    ensures !HasFlag(Leaf(p, w), USER)
  {
    BootDoneLeaf(p, info, ds, w);
    BootKernelRuns(info, ds, p.phys, |p.mem|);
    KernelLeaf(BootRuns(info, ds, p.phys, |p.mem|), w);
    hide Tree, Sized, BootDone, BootRuns, LeafOf, HasFlag, Leaf, Translate;
    LeafNeedsUser(p, w);
    LeafDecidesWriting(p, w);
    HardwareAgrees(p, w);
    ZeroHasNoFlag();
  }

  lemma BootKernelRuns(info: BootInfo, ds: seq<Descriptor>, poolPhys: nat, poolPages: nat)
    requires info.Fits() && RuntimeInside(ds) && IsPageAligned(poolPhys)
    ensures KernelRuns(BootRuns(info, ds, poolPhys, poolPages))
  {
    hide RuntimeInside, BootInfo.Devices, IsPageAligned;
    var buffers := BufferRuns(info, poolPhys, poolPages);
    assert KernelRuns(buffers);
    DeviceKernelRuns(info.Devices(), buffers);
    RuntimeKernelRuns(ds, DeviceRuns(info.Devices(), buffers));
  }

  // ---------------------------------------------------------------- from the firmware's map

  lemma {:induction false} CoversPairs(ds: seq<Descriptor>, w: nat)
    ensures RuntimeCovers(ds, w) <==> exists pair | pair in RuntimePairs(ds) :: InRange(w, pair.virtual, 1)
  {
    hide RuntimeCovers, RuntimePairsOf;
    CoversFirst(ds, w);
    if ds != [] {
      CoversPairs(ds[1..], w);
      RuntimePairsFront(ds);
      PairsOfDescriptor(ds[0], w);
    }
  }

  lemma PairsOfDescriptor(d: Descriptor, w: nat)
    ensures d.IsRuntime() && InRange(w, d.virtual, d.pages) <==> exists pair | pair in RuntimePairsOf(d) :: InRange(w, pair.virtual, 1)
  {
    if d.IsRuntime() && InRange(w, d.virtual, d.pages) {
      var k := (w - d.virtual) / PAGE_SIZE;
      assert RuntimePairsOf(d)[k] in RuntimePairsOf(d);
    }
  }

  /** Booting with the reclaimed and compacted map makes exactly the runtime memory of the firmware's own map accessible. */
  lemma RuntimeOfFirmwareMap(p: Pool, info: BootInfo, ds: seq<Descriptor>, w: nat)
    requires BootDone(p, info, Coalesce(ReclaimAll(ds))) && RuntimePlaced(ds, UEFI.base) && UEFI.Contains(w)
    ensures Sized(p) && Translate(p, w) == if RuntimeCovers(ds, w) then Some(w - UEFI.base) else None
  {
    var reclaimed := ReclaimAll(ds);
    assert RuntimePlaced(reclaimed, UEFI.base);
    hide BootDone, Coalesce, RuntimeCovers, RuntimePlaced, RuntimePairs, Translate, Sized;
    CoalesceKeepsRuntime(reclaimed, UEFI.base);
    ReclaimKeepsRuntime(ds);
    CoversPairs(ds, w);
    CoversPairs(Coalesce(reclaimed), w);
    BootUefi(p, info, Coalesce(reclaimed), w);
  }
}
