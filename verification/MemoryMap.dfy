/** The firmware memory map and its in-place compaction (kernel/core/init.cc). */
module MemoryMap {
  import opened VirtualAddress

  datatype MemoryType =
    | Reserved | LoaderCode | LoaderData | BootServicesCode | BootServicesData
    | RuntimeServicesCode | RuntimeServicesData | Conventional | Unusable
    | AcpiReclaim | AcpiNvs | Mmio | MmioPortSpace | PalCode

  const RUNTIME: nat := 0x8000_0000_0000_0000  // attribute bit 63

  datatype Descriptor = Descriptor(kind: MemoryType, physical: nat, virtual: nat, pages: nat, attribute: nat) {
    predicate IsRuntime() { attribute / RUNTIME % 2 == 1 }

    function End(): nat { physical + pages * PAGE_SIZE }
  }

  /** One page as the map describes it. */
  datatype Page = Page(address: nat, kind: MemoryType, attribute: nat)

  /** A virtual-to-physical pair of the UEFI runtime mapping. */
  datatype Pair = Pair(virtual: nat, physical: nat)

  // ---------------------------------------------------------------- the meaning of a map

  function PagesOf(d: Descriptor): (r: seq<Page>) {
    seq(d.pages, k requires 0 <= k => Page(d.physical + k * PAGE_SIZE, d.kind, d.attribute))
  }

  /** All pages of a map, in order. */
  function Pages(ds: seq<Descriptor>): seq<Page> {
    if ds == [] then [] else Pages(ds[..|ds| - 1]) + PagesOf(ds[|ds| - 1])
  }

  function RuntimePairsOf(d: Descriptor): seq<Pair> {
    if d.IsRuntime() then seq(d.pages, k requires 0 <= k => Pair(d.virtual + k * PAGE_SIZE, d.physical + k * PAGE_SIZE)) else []
  }

  /** The pages that MapUefiRuntime maps, in the order in which it maps them. */
  function RuntimePairs(ds: seq<Descriptor>): seq<Pair> {
    if ds == [] then [] else RuntimePairs(ds[..|ds| - 1]) + RuntimePairsOf(ds[|ds| - 1])
  }

  /** The rule the boot loader uses to place runtime memory (boot/entry.cc). */
  ghost predicate RuntimePlaced(ds: seq<Descriptor>, base: nat) {
    forall d | d in ds && d.IsRuntime() :: d.virtual == d.physical + base
  }

  // ---------------------------------------------------------------- coalescing

  /** d continues `last`: same type and attribute, and it starts where last ends. */
  predicate Mergeable(last: Descriptor, d: Descriptor) {
    d.kind == last.kind && d.attribute == last.attribute && last.End() == d.physical
  }

  /** One step: d is merged into the last descriptor kept, or kept itself. */
  function Absorb(kept: seq<Descriptor>, d: Descriptor): (r: seq<Descriptor>)
    ensures |r| >= 1
  {
    if kept != [] && Mergeable(kept[|kept| - 1], d) then
      kept[..|kept| - 1] + [kept[|kept| - 1].(pages := kept[|kept| - 1].pages + d.pages)]
    else kept + [d]
  }

  function Coalesce(ds: seq<Descriptor>): (r: seq<Descriptor>)
    ensures |r| <= |ds| && (ds != [] ==> r != [])
  {
    if ds == [] then [] else Absorb(Coalesce(ds[..|ds| - 1]), ds[|ds| - 1])
  }

  lemma CoalesceStep(ds: seq<Descriptor>, n: nat)
    requires n < |ds|
    ensures Coalesce(ds[..n + 1]) == Absorb(Coalesce(ds[..n]), ds[n])
  {
    assert ds[..n + 1][..n] == ds[..n];
  }

  ghost predicate NothingMergeable(ds: seq<Descriptor>) {
    forall i | 0 < i < |ds| ::
      !(ds[i - 1].kind == ds[i].kind && ds[i - 1].attribute == ds[i].attribute
        && ds[i].physical == ds[i - 1].physical + ds[i - 1].pages * 0x1000)
  }

  /** One step appends the pages of d, in order. */
  lemma AbsorbKeepsPages(kept: seq<Descriptor>, d: Descriptor)
    ensures Pages(Absorb(kept, d)) == Pages(kept) + PagesOf(d)
  {
    var r := Absorb(kept, d);
    if kept != [] && Mergeable(kept[|kept| - 1], d) {
      var front, last := kept[..|kept| - 1], kept[|kept| - 1];
      var merged := last.(pages := last.pages + d.pages);
      assert r[..|r| - 1] == front;
      assert PagesOf(merged) == PagesOf(last) + PagesOf(d);
      hide PagesOf, Mergeable;
      assert Pages(r) == Pages(front) + PagesOf(merged);
    } else {
      assert r[..|kept|] == kept;
    }
  }

  /** Under the boot loader's rule it also appends the virtual-to-physical pairs of d. */
  lemma AbsorbKeepsRuntime(kept: seq<Descriptor>, d: Descriptor, base: nat)
    requires RuntimePlaced(kept, base) && RuntimePlaced([d], base)
    ensures RuntimePlaced(Absorb(kept, d), base)
    ensures RuntimePairs(Absorb(kept, d)) == RuntimePairs(kept) + RuntimePairsOf(d)
  {
    assert d in [d];
    if kept != [] && Mergeable(kept[|kept| - 1], d) {
      var n := |kept| - 1;
      var merged := kept[n].(pages := kept[n].pages + d.pages);
      assert kept[n] in kept && (forall e | e in kept[..n] :: e in kept);
      MergedRuntime(kept[n], d, base);
      SnocRuntime(kept[..n], merged, base);
      hide RuntimePairsOf, Mergeable, RuntimePlaced, Descriptor.IsRuntime;
    } else {
      SnocRuntime(kept, d, base);
      hide RuntimePairsOf, Mergeable, RuntimePlaced, RuntimePairs, Descriptor.IsRuntime;
    }
  }

  lemma SnocRuntime(kept: seq<Descriptor>, d: Descriptor, base: nat)
    requires RuntimePlaced(kept, base) && (d.IsRuntime() ==> d.virtual == d.physical + base)
    ensures RuntimePlaced(kept + [d], base) && RuntimePairs(kept + [d]) == RuntimePairs(kept) + RuntimePairsOf(d)
  {
    assert (kept + [d])[..|kept|] == kept;
    hide RuntimePairsOf, Descriptor.IsRuntime;
  }

  lemma MergedRuntime(last: Descriptor, d: Descriptor, base: nat)
    requires Mergeable(last, d)
    requires last.IsRuntime() ==> last.virtual == last.physical + base
    requires d.IsRuntime() ==> d.virtual == d.physical + base
    ensures RuntimePairsOf(last.(pages := last.pages + d.pages)) == RuntimePairsOf(last) + RuntimePairsOf(d)
    ensures last.(pages := last.pages + d.pages).IsRuntime() == last.IsRuntime()
  {
  }

  /** Coalescing keeps every page with its type and attribute, in order (hence also the page count). */
  lemma {:induction false} CoalesceKeepsPages(ds: seq<Descriptor>)
    ensures Pages(Coalesce(ds)) == Pages(ds)
  {
    hide PagesOf, Absorb;
    if ds != [] {
      CoalesceKeepsPages(ds[..|ds| - 1]);
      AbsorbKeepsPages(Coalesce(ds[..|ds| - 1]), ds[|ds| - 1]);
    }
  }

  /** It keeps the runtime mapping when runtime memory was placed by the boot loader's rule. */
  lemma {:induction false} CoalesceKeepsRuntime(ds: seq<Descriptor>, base: nat)
    requires RuntimePlaced(ds, base)
    ensures RuntimePlaced(Coalesce(ds), base) && RuntimePairs(Coalesce(ds)) == RuntimePairs(ds)
  {
    hide RuntimePairsOf, Absorb;
    if ds != [] {
      CoalesceKeepsRuntime(ds[..|ds| - 1], base);
      AbsorbKeepsRuntime(Coalesce(ds[..|ds| - 1]), ds[|ds| - 1], base);
    }
  }

  /** The result has no two neighbours left to merge ... */
  lemma {:induction false} CoalesceIsComplete(ds: seq<Descriptor>)
    ensures NothingMergeable(Coalesce(ds))
  {
    if ds != [] {
      var front, d := ds[..|ds| - 1], ds[|ds| - 1];
      CoalesceIsComplete(front);
      var kept, r := Coalesce(front), Coalesce(ds);
      forall i | 0 < i < |r| ensures !Mergeable(r[i - 1], r[i]) {
        if i < |kept| {
          assert !Mergeable(kept[i - 1], kept[i]);
        }
      }
    }
  }

  /** ... and such a map is left as it is, so coalescing twice changes nothing more. */
  lemma {:induction false} CoalesceFixpoint(ds: seq<Descriptor>)
    requires NothingMergeable(ds)
    ensures Coalesce(ds) == ds
  {
    if ds != [] {
      var front, d := ds[..|ds| - 1], ds[|ds| - 1];
      assert NothingMergeable(front);
      CoalesceFixpoint(front);
      assert front + [d] == ds;
      if front != [] {
        assert !Mergeable(ds[|ds| - 2], ds[|ds| - 1]);
      }
    }
  }

  lemma CoalesceIdempotent(ds: seq<Descriptor>)
    ensures Coalesce(Coalesce(ds)) == Coalesce(ds)
  {
    CoalesceIsComplete(ds);
    CoalesceFixpoint(Coalesce(ds));
  }

  // ---------------------------------------------------------------- reclaiming boot memory

  predicate Reclaimable(d: Descriptor) {
    (d.kind == BootServicesCode || d.kind == BootServicesData || d.kind == LoaderCode) && !d.IsRuntime()
  }

  function Reclaim(d: Descriptor): Descriptor {
    if Reclaimable(d) then d.(kind := Conventional) else d
  }

  function ReclaimAll(ds: seq<Descriptor>): (r: seq<Descriptor>)
    ensures |r| == |ds|
  {
    seq(|ds|, i requires 0 <= i < |ds| => Reclaim(ds[i]))
  }

  function CountReclaimable(ds: seq<Descriptor>): nat {
    if ds == [] then 0 else CountReclaimable(ds[..|ds| - 1]) + if Reclaimable(ds[|ds| - 1]) then 1 else 0
  }

  /** The memory that boot services and the boot loader leave behind is free; runtime services keep theirs. */
  lemma ReclaimFrees(ds: seq<Descriptor>, i: nat)
    requires i < |ds|
    ensures var d, r := ds[i], ReclaimAll(ds)[i];
            && r == d.(kind := r.kind)
            && r.kind == if d.kind in {BootServicesCode, BootServicesData, LoaderCode} && d.attribute / 0x8000_0000_0000_0000 % 2 == 0
                         then Conventional else d.kind
    ensures ds[i].attribute < 0x1_0000_0000_0000_0000 ==> (ds[i].IsRuntime() <==> ds[i].attribute >= 0x8000_0000_0000_0000)
  {
  }

  /** The number reported is the number of descriptors that were changed. */
  lemma {:induction false} ReclaimCounts(ds: seq<Descriptor>)
    ensures CountReclaimable(ds) == |Changed(ds)|
  {
    if ds != [] {
      var n := |ds| - 1;
      ReclaimCounts(ds[..n]);
      ChangedFront(ds, n);
    }
  }

  /** The positions at which reclaiming changes the map. */
  ghost function Changed(ds: seq<Descriptor>): set<nat> {
    set i: nat | i < |ds| && ReclaimAll(ds)[i] != ds[i]
  }

  lemma ChangedFront(ds: seq<Descriptor>, n: nat)
    requires |ds| == n + 1
    ensures n !in Changed(ds[..n]) && Changed(ds) == Changed(ds[..n]) + if Reclaimable(ds[n]) then {n} else {}
  {
    hide Descriptor.IsRuntime;
    assert forall i: nat | i < n :: ReclaimAll(ds[..n])[i] == ReclaimAll(ds)[i];
  }

  /** Reclaiming and then coalescing leaves the runtime mapping and the set of page addresses alone. */
  lemma {:induction false} ReclaimKeepsRuntime(ds: seq<Descriptor>)
    ensures RuntimePairs(ReclaimAll(ds)) == RuntimePairs(ds)
    ensures |Pages(ReclaimAll(ds))| == |Pages(ds)|
    ensures forall i | 0 <= i < |Pages(ds)| ::
              Pages(ReclaimAll(ds))[i].address == Pages(ds)[i].address && Pages(ReclaimAll(ds))[i].attribute == Pages(ds)[i].attribute
  {
    if ds != [] {
      var front, d := ds[..|ds| - 1], ds[|ds| - 1];
      ReclaimKeepsRuntime(front);
      assert ReclaimAll(ds)[..|ds| - 1] == ReclaimAll(front) && ReclaimAll(ds)[|ds| - 1] == Reclaim(d);
      ReclaimedPages(d);
      hide ReclaimAll, Reclaim, RuntimePairsOf, PagesOf;
    }
  }

  lemma ReclaimedPages(d: Descriptor)
    ensures RuntimePairsOf(Reclaim(d)) == RuntimePairsOf(d) && |PagesOf(Reclaim(d))| == |PagesOf(d)|
    ensures forall k | 0 <= k < |PagesOf(d)| ::
              PagesOf(Reclaim(d))[k].address == PagesOf(d)[k].address && PagesOf(Reclaim(d))[k].attribute == PagesOf(d)[k].attribute
  {
  }

  class Map {
    const descs: array<Descriptor>
    var size: nat  // descriptors in use

    constructor (descriptors: array<Descriptor>)
      ensures descs == descriptors && size == descriptors.Length
    {
      descs, size := descriptors, descriptors.Length;
    }

    ghost predicate Valid()
      reads this
    {
      size <= descs.Length
    }

    /** Returns the number of descriptors whose pages became conventional memory. */
    method ReclaimBootPages() returns (count: nat)
      requires Valid()
      modifies descs
      ensures descs[..size] == ReclaimAll(old(descs[..size])) && descs[size..] == old(descs[size..])
      ensures count == CountReclaimable(old(descs[..size]))
    {
      ghost var before := descs[..];
      count := 0;
      for i := 0 to size
        invariant forall k | 0 <= k < i :: descs[k] == Reclaim(before[k])
        invariant forall k | i <= k < descs.Length :: descs[k] == before[k]
        invariant count == CountReclaimable(before[..i])
      {
        assert before[..i + 1][..i] == before[..i];
        if Reclaimable(descs[i]) {
          count := count + 1;
          descs[i] := descs[i].(kind := Conventional);
        }
      }
      assert descs[..size] == ReclaimAll(before[..size]);
      assert before[..size] == old(descs[..size]);
    }

    /** The loop body of the compaction: merge `desc` into `last`, or keep it as the new last. */
    method Keep(last: nat, desc: nat) returns (kept: nat)
      requires last < desc < descs.Length
      modifies descs
      ensures kept == if Mergeable(old(descs[last]), old(descs[desc])) then last else last + 1
      ensures descs[..kept + 1] == Absorb(old(descs[..last + 1]), old(descs[desc]))
      ensures forall k | desc < k < descs.Length :: descs[k] == old(descs[k])
    {
      hide Mergeable;
      if Mergeable(descs[last], descs[desc]) {
        kept := last;
        descs[last] := descs[last].(pages := descs[last].pages + descs[desc].pages);
      } else {
        kept := last + 1;
        if kept != desc {
          descs[kept] := descs[desc];
        }
      }
    }

    /** Compacts the map in place; `last` is the most recent descriptor kept.  Returns how many were merged away. */
    method CoalesceMemoryDescriptors() returns (count: nat)
      requires Valid()
      modifies descs, `size
      ensures Valid() && descs[..size] == Coalesce(old(descs[..size]))
      ensures count == old(size) - size && descs[old(size)..] == old(descs[size..])
    {
      count := 0;
      if size == 0 {
        return;
      }
      ghost var before := descs[..];
      var last := 0;
      var desc := 1;
      CoalesceStep(before, 0);
      hide Mergeable, Coalesce, Absorb;
      while desc < size
        invariant size == old(size) && 0 <= last < desc <= size && count == desc - 1 - last
        invariant descs[..last + 1] == Coalesce(before[..desc])
        invariant forall k | desc <= k < descs.Length :: descs[k] == before[k]
      {
        CoalesceStep(before, desc);
        var kept := Keep(last, desc);
        if kept == last {
          count := count + 1;
        }
        last := kept;
        desc := desc + 1;
      }
      assert before[..size] == old(descs[..size]);
      size := last + 1;
    }
  }
}
