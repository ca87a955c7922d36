/** FinalizeKernelMapping (kernel/core/init.cc): discard and write-protect the sections of the kernel image. */
module KernelSections {
  import opened Boot
  import opened HardwareWalk
  import opened AccessRights
  import opened KernelWindow
  import opened MemoryMap
  import opened Options
  import opened VirtualAddress
  import opened Paging
  import opened PageTables

  datatype Section = Section(address: nat, size: nat, discardable: bool, writable: bool) {
    function Start(): nat { KERNEL_IMAGE.base + address }

    function End(): nat { Start() + size }

    /** Address w lies in a page that the page loop over the section visits. */
    predicate Visits(w: nat) { Start() <= w && w - w % PAGE_SIZE < End() }

    /** The leaf flag the loop clears; none for a writable section that is kept. */
    function Cleared(): Option<nat> {
      if discardable then Some(PRESENT) else if writable then None else Some(WRITABLE)
    }

    function After(w: nat, entry: nat): nat {
      if Visits(w) && Cleared().Some? then SetFlag(entry, Cleared().value, false) else entry
    }
  }

  /** The leaf of w after the sections have been handled in order. */
  function AfterSections(sections: seq<Section>, w: nat, entry: nat): nat {
    if sections == [] then entry else sections[|sections| - 1].After(w, AfterSections(sections[..|sections| - 1], w, entry))
  }

  ghost predicate WellPlaced(sections: seq<Section>) {
    && (forall s | s in sections :: IsPageAligned(s.Start()) && s.End() <= KERNEL_IMAGE.End())
    && (forall i, j, w: nat | 0 <= i < j < |sections| :: !(sections[i].Visits(w) && sections[j].Visits(w)))
  }

  lemma {:induction false} OutsideSections(sections: seq<Section>, w: nat, entry: nat)
    requires forall s | s in sections :: !s.Visits(w)
    ensures AfterSections(sections, w, entry) == entry
  {
    if sections != [] {
      assert sections[|sections| - 1] in sections;
      OutsideSections(sections[..|sections| - 1], w, entry);
    }
  }

  /** Each page is handled by its own section only. */
  lemma {:induction false} OwnSection(sections: seq<Section>, i: nat, w: nat, entry: nat)
    requires WellPlaced(sections) && i < |sections| && sections[i].Visits(w)
    ensures AfterSections(sections, w, entry) == sections[i].After(w, entry)
  {
    var n := |sections| - 1;
    var front := sections[..n];
    hide Section.After;
    if i == n {
      forall s | s in front ensures !s.Visits(w) {
        var j :| 0 <= j < n && front[j] == s;
        assert !sections[j].Visits(w);
      }
      OutsideSections(front, w, entry);
    } else {
      assert forall s | s in front :: s in sections;
      OwnSection(front, i, w, entry);
      assert !sections[n].Visits(w);
      NotVisited(sections[n], w, AfterSections(front, w, entry));
    }
  }

  lemma NotVisited(s: Section, w: nat, entry: nat)
    requires !s.Visits(w)
    ensures s.After(w, entry) == entry
  {
  }

  /** A discarded page is no longer mapped; a page of a read-only section keeps its frame and loses the right to write;
      a page of a writable section, and everything outside the sections, keeps its entry. */
  lemma SectionProtection(sections: seq<Section>, i: nat, w: nat, entry: nat)
    requires WellPlaced(sections) && i < |sections| && sections[i].Visits(w)
    ensures var s, e := sections[i], AfterSections(sections, w, entry);
            if s.discardable then !HasFlag(e, PRESENT)
            else if s.writable then e == entry
            else !HasFlag(e, WRITABLE) && HasFlag(e, PRESENT) == HasFlag(entry, PRESENT) && HardwareFrame(e) == HardwareFrame(entry)
  {
    OwnSection(sections, i, w, entry);
    hide SetFlag, HasFlag, HardwareFrame, WellPlaced, AfterSections;
    FlagSet(entry, PRESENT, false);
    FlagSet(entry, WRITABLE, false);
    FlagKeepsFrame(entry, WRITABLE, false);
  }

  lemma ZeroStaysZero(flag: nat)
    requires flag > 0
    ensures SetFlag(0, flag, false) == 0
  {
  }

  /** Clearing a flag on the page at `page` is what the leaves of that page see, whether or not there is a leaf table. */
  lemma ClearedPage(p: Pool, page: nat, flag: nat, w: nat)
    requires Tree(p) && Sized(p) && flag > 0 && Canonical(page) && Canonical(w) && IsPageAligned(page)
    ensures var r := UpdateLeafSpec(p, page, flag, false).0;
            Sized(r) && Leaf(r, w) == if InRange(w, page, 1) then SetFlag(Leaf(p, w), flag, false) else Leaf(p, w)
  {
    hide Tree, Sized, Leaf, SetFlag, UpdateLeafSpec, TableAt, Canonical;
    TreeIsSized(UpdateLeafSpec(p, page, flag, false).0);
    UpdateLeafEffect(p, page, flag, false, w);
    CanonicalPages(w, page);
    if PageNumber(w) == PageNumber(page) {
      SamePageSameLeaf(p, page, w);
      if !UpdateLeafSpec(p, page, flag, false).1 {
        UpdateMisses(p, page, flag, false);
        ZeroStaysZero(flag);
      }
    }
  }

  lemma UpdateMisses(p: Pool, v: nat, flag: nat, on: bool)
    requires Tree(p) && Sized(p) && flag > 0 && !UpdateLeafSpec(p, v, flag, on).1
    ensures Leaf(p, v) == 0
  {
    hide Tree, Sized;
  }

  /** The pool is the same apart from flags of leaf entries. */
  ghost predicate SamePool(p: Pool, r: Pool) {
    |r.mem| == |p.mem| && r.phys == p.phys && r.virt == p.virt && r.root == p.root
  }

  /** A page loop that clears one flag, from `page` on. */
  function ClearFrom(p: Pool, page: nat, end: nat, flag: nat): (r: Pool)
    requires Tree(p) && flag > 0
    ensures Tree(r) && SamePool(p, r)
    decreases end - page
  {
    if page >= end then p else ClearFrom(UpdateLeafSpec(p, page, flag, false).0, page + PAGE_SIZE, end, flag)
  }

  /** The write-protecting loop.  It dereferences what GetPresentPte returns, so it breaks down, with false as the result,
      on a page whose leaf table does not exist. */
  function ProtectFrom(p: Pool, page: nat, end: nat): (r: (Pool, bool))
    requires Tree(p)
    ensures Tree(r.0) && SamePool(p, r.0)
    decreases end - page
  {
    if page >= end then (p, true)
    else
      var (q, found) := UpdateLeafSpec(p, page, WRITABLE, false);
      if found then ProtectFrom(q, page + PAGE_SIZE, end) else (q, false)
  }

  /** The leaf table exists for every address that a page loop from `page` on looks up. */
  ghost predicate Reachable(p: Pool, page: nat, end: nat)
    requires Sized(p)
  {
    forall w: nat | Looked(page, w) && w < end :: Missing(p, w) == 0
  }

  /** A page loop that starts at `page` comes to address w, unless it ends before. */
  predicate Looked(page: nat, w: nat) {
    page <= w && (w - page) % PAGE_SIZE == 0
  }

  lemma UpdateKeepsMissing(p: Pool, virt: nat, flag: nat, on: bool, w: nat)
    requires Tree(p) && Sized(p) && flag > 0
    ensures var (r, found) := UpdateLeafSpec(p, virt, flag, on);
            Sized(r) && Missing(r, w) == Missing(p, w) && (found <==> Missing(p, virt) == 0)
  {
    var r := UpdateLeafSpec(p, virt, flag, on).0;
    UpdateLeafEffect(p, virt, flag, on, w);
    TreeIsSized(r);
    MissingNone(p, virt);
    assert TableAt(r, w, 1) == TableAt(p, w, 1) && TableAt(r, w, 2) == TableAt(p, w, 2) && TableAt(r, w, 3) == TableAt(p, w, 3);
    hide TableAt, Tree, Sized;
  }

  lemma {:induction false} ClearKeepsMissing(p: Pool, page: nat, end: nat, flag: nat, w: nat)
    requires Tree(p) && Sized(p) && flag > 0
    ensures Sized(ClearFrom(p, page, end, flag)) && Missing(ClearFrom(p, page, end, flag), w) == Missing(p, w)
    decreases end - page
  {
    hide Tree, Sized, Missing, UpdateLeafSpec;
    if page < end {
      UpdateKeepsMissing(p, page, flag, false, w);
      ClearKeepsMissing(UpdateLeafSpec(p, page, flag, false).0, page + PAGE_SIZE, end, flag, w);
    }
  }

  /** The write-protecting loop succeeds exactly if every leaf table exists, and then clears the flag on every page. */
  lemma {:induction false} ProtectSucceeds(p: Pool, page: nat, end: nat)
    requires Tree(p) && Sized(p)
    ensures var (r, ok) := ProtectFrom(p, page, end);
            (ok <==> Reachable(p, page, end)) && (ok ==> r == ClearFrom(p, page, end, WRITABLE))
    decreases end - page
  {
    hide Tree, Sized, Missing, UpdateLeafSpec, Reachable;
    var q := UpdateLeafSpec(p, page, WRITABLE, false).0;
    UpdateKeepsMissing(p, page, WRITABLE, false, page);
    ReachableStep(p, q, page, end);
    if page < end && Missing(p, page) == 0 {
      ProtectSucceeds(q, page + PAGE_SIZE, end);
    }
  }

  lemma ReachableStep(p: Pool, q: Pool, page: nat, end: nat)
    requires Tree(p) && Sized(p) && q == UpdateLeafSpec(p, page, WRITABLE, false).0 && Sized(q)
    ensures Reachable(p, page, end) <==> page >= end || (Missing(p, page) == 0 && Reachable(q, page + PAGE_SIZE, end))
  {
    hide Tree, Sized, Missing, UpdateLeafSpec;
    forall w: nat ensures Missing(q, w) == Missing(p, w) {
      UpdateKeepsMissing(p, page, WRITABLE, false, w);
    }
    if page < end {
      forall w: nat ensures Looked(page, w) <==> w == page || Looked(page + PAGE_SIZE, w) {
        PageStep(page, w);
      }
    }
  }

  lemma PageStep(page: nat, w: nat)
    ensures Looked(page, w) <==> w == page || Looked(page + PAGE_SIZE, w)
  {
  }

  lemma {:induction false} ClearFromEffect(p: Pool, page: nat, end: nat, flag: nat, w: nat)
    requires Tree(p) && Sized(p) && flag > 0 && IsPageAligned(page) && KVA_BASE <= page && end <= KVA_END && Canonical(w)
    ensures var r := ClearFrom(p, page, end, flag);
            Sized(r) && Leaf(r, w) == if page <= w && w - w % PAGE_SIZE < end then SetFlag(Leaf(p, w), flag, false) else Leaf(p, w)
    decreases end - page
  {
    hide Tree, Sized, Leaf, SetFlag, UpdateLeafSpec, Canonical;
    if page < end {
      KernelIsCanonical(page);
      ClearedPage(p, page, flag, w);
      ClearFromEffect(UpdateLeafSpec(p, page, flag, false).0, page + PAGE_SIZE, end, flag, w);
      PagesOfRange(page, end, w);
    }
  }

  lemma PagesOfRange(page: nat, end: nat, w: nat)
    requires IsPageAligned(page) && page < end
    ensures page <= w && w - w % PAGE_SIZE < end <==>
            InRange(w, page, 1) || (page + PAGE_SIZE <= w && w - w % PAGE_SIZE < end)
    ensures !(InRange(w, page, 1) && page + PAGE_SIZE <= w)
  {
  }

  lemma KernelIsCanonical(w: nat)
    requires InKva(w)
    ensures Canonical(w)
  {
  }

  /** Discarding one section, write-protecting it, or leaving it alone. */
  function SectionSpec(p: Pool, s: Section): (r: (Pool, bool))
    requires Tree(p)
    ensures Tree(r.0) && SamePool(p, r.0)
  {
    if s.discardable then (ClearFrom(p, s.Start(), s.End(), PRESENT), true)
    else if s.writable then (p, true)
    else ProtectFrom(p, s.Start(), s.End())
  }

  /** FinalizeKernelMapping; false where it breaks down. */
  function FinalizeSpec(p: Pool, sections: seq<Section>): (r: (Pool, bool))
    requires Tree(p)
    ensures Tree(r.0) && SamePool(p, r.0)
  {
    if sections == [] then (p, true)
    else
      var (q, ok) := FinalizeSpec(p, sections[..|sections| - 1]);
      if ok then SectionSpec(q, sections[|sections| - 1]) else (q, false)
  }

  /** A section needs its leaf tables only if it is kept and read-only. */
  ghost predicate SectionReachable(p: Pool, s: Section)
    requires Sized(p)
  {
    s.discardable || s.writable || Reachable(p, s.Start(), s.End())
  }

  lemma SectionSucceeds(p: Pool, s: Section, w: nat)
    requires Tree(p) && Sized(p)
    ensures var (r, ok) := SectionSpec(p, s);
            && Sized(r) && (ok <==> SectionReachable(p, s)) && (ok ==> Missing(r, w) == Missing(p, w))
            && (ok ==> r == if s.Cleared().None? then p else ClearFrom(p, s.Start(), s.End(), s.Cleared().value))
  {
    hide Tree, Sized, Missing, ClearFrom, ProtectFrom, Reachable;
    ProtectSucceeds(p, s.Start(), s.End());
    TreeIsSized(SectionSpec(p, s).0);
    if s.Cleared().Some? {
      ClearKeepsMissing(p, s.Start(), s.End(), s.Cleared().value, w);
    }
  }

  lemma SameMissingReachable(p: Pool, r: Pool, s: Section)
    requires Sized(p) && Sized(r) && forall w: nat :: Missing(r, w) == Missing(p, w)
    ensures SectionReachable(r, s) == SectionReachable(p, s)
  {
    hide Sized, Missing;
  }

  /** FinalizeKernelMapping succeeds if and only if the leaf tables of every kept read-only section exist;
      it never creates or removes a table. */
  lemma {:induction false} FinalizeSucceeds(p: Pool, sections: seq<Section>)
    requires Tree(p) && Sized(p)
    ensures var (r, ok) := FinalizeSpec(p, sections);
            && Sized(r) && (ok <==> forall s | s in sections :: SectionReachable(p, s))
            && (ok ==> forall w: nat :: Missing(r, w) == Missing(p, w))
  {
    hide Tree, Sized, Missing, SectionSpec, SectionReachable;
    if sections != [] {
      var front, s := sections[..|sections| - 1], sections[|sections| - 1];
      assert sections == front + [s];
      FinalizeSucceeds(p, front);
      var (q, ok) := FinalizeSpec(p, front);
      if ok {
        SameMissingReachable(p, q, s);
        forall w: nat ensures Sized(SectionSpec(q, s).0) && (SectionSpec(q, s).1 ==> Missing(SectionSpec(q, s).0, w) == Missing(p, w)) {
          SectionSucceeds(q, s, w);
        }
        SectionSucceeds(q, s, 0);
      }
    }
  }

  /** Without its leaf table a read-only section cannot be protected: on a table that maps nothing the code breaks down. */
  lemma UnmappedSectionFails(virt: nat, phys: nat, pages: nat)
    requires 2 <= pages && IsPageAligned(phys) && phys + pages * PAGE_SIZE <= PHYSICAL_LIMIT
    ensures Tree(Fresh(virt, phys, pages)) && !FinalizeSpec(Fresh(virt, phys, pages), [Section(0, PAGE_SIZE, false, false)]).1
  {
    hide Tree, Sized, Fresh, TableAt;
    var p, s := Fresh(virt, phys, pages), Section(0, PAGE_SIZE, false, false);
    FreshIsEmpty(virt, phys, pages);
    FinalizeSucceeds(p, [s]);
    EmptyHasNoTables(p, s.Start(), 1);
    MissingNone(p, s.Start());
    assert s in [s];
  }

  /** FinalizeKernelMapping gives every leaf the entry that AfterSections says. */
  lemma {:induction false} FinalizeEffect(p: Pool, sections: seq<Section>, w: nat)
    requires Tree(p) && Sized(p) && WellPlaced(sections) && Canonical(w) && FinalizeSpec(p, sections).1
    ensures Sized(FinalizeSpec(p, sections).0)
    ensures Leaf(FinalizeSpec(p, sections).0, w) == AfterSections(sections, w, Leaf(p, w))
  {
    hide Tree, Sized, Leaf, SetFlag, Canonical, IsPageAligned, ClearFrom, SectionSpec, Missing, SectionReachable;
    if sections != [] {
      var front, s := sections[..|sections| - 1], sections[|sections| - 1];
      assert s in sections;
      assert WellPlaced(front) by {
        assert forall s | s in front :: s in sections;
        assert forall i | 0 <= i < |front| :: front[i] == sections[i];
      }
      FinalizeEffect(p, front, w);
      var q := FinalizeSpec(p, front).0;
      SectionSucceeds(q, s, w);
      if s.Cleared().Some? {
        ClearFromEffect(q, s.Start(), s.End(), s.Cleared().value, w);
      }
    }
  }

  // ---------------------------------------------------------------- the loops

  /** The pages of a discardable section; whether they were mapped is not looked at. */
  method DiscardPages(t: PageTable, start: nat, end: nat)
    requires t.Valid()
    modifies t.mem
    ensures t.Valid() && t.State() == ClearFrom(old(t.State()), start, end, PRESENT)
  {
    hide Tree, UpdateLeafSpec;
    var page := start;
    while page < end
      invariant t.Valid() && ClearFrom(t.State(), page, end, PRESENT) == ClearFrom(old(t.State()), start, end, PRESENT)
      decreases end - page
    {
      var _ := t.UnmapPage(page);
      page := page + PAGE_SIZE;
    }
  }

  method ProtectPages(t: PageTable, start: nat, end: nat) returns (ok: bool)
    requires t.Valid()
    modifies t.mem
    ensures t.Valid() && (t.State(), ok) == ProtectFrom(old(t.State()), start, end)
  {
    hide Tree, UpdateLeafSpec;
    var page := start;
    while page < end
      invariant t.Valid() && ProtectFrom(t.State(), page, end) == ProtectFrom(old(t.State()), start, end)
      decreases end - page
    {
      var found := t.UpdatePte(page, WRITABLE, false);
      if !found {
        return false;  // null pointer
      }
      page := page + PAGE_SIZE;
    }
    return true;
  }

  method FinalizeKernelMapping(t: PageTable, sections: seq<Section>) returns (ok: bool)
    requires t.Valid()
    modifies t.mem
    ensures t.Valid() && (t.State(), ok) == FinalizeSpec(old(t.State()), sections)
  {
    hide Tree, ClearFrom, ProtectFrom;
    for i := 0 to |sections|
      invariant t.Valid() && (t.State(), true) == FinalizeSpec(old(t.State()), sections[..i])
    {
      assert sections[..i + 1][..i] == sections[..i];
      var s := sections[i];
      if s.discardable {
        DiscardPages(t, s.Start(), s.End());
      } else if !s.writable {
        ok := ProtectPages(t, s.Start(), s.End());
        if !ok {
          StaysBroken(old(t.State()), sections, i + 1);
          return;
        }
      }
    }
    assert sections[..|sections|] == sections;
    return true;
  }

  /** Once it has broken down, later sections are not reached. */
  lemma {:induction false} StaysBroken(p: Pool, sections: seq<Section>, n: nat)
    requires Tree(p) && n <= |sections| && !FinalizeSpec(p, sections[..n]).1
    ensures FinalizeSpec(p, sections) == FinalizeSpec(p, sections[..n])
  {
    hide Tree, SectionSpec;
    if n < |sections| {
      assert sections[..|sections| - 1][..n] == sections[..n];
      StaysBroken(p, sections[..|sections| - 1], n);
    } else {
      assert sections[..n] == sections;
    }
  }

  // ---------------------------------------------------------------- after boot

  /** The sections lie in the mapped part of the kernel image. */
  ghost predicate InImage(sections: seq<Section>, info: BootInfo) {
    forall s | s in sections :: s.End() <= KERNEL_IMAGE.base + SizeToPages(info.kernelSize) * PAGE_SIZE
  }

  /** After boot every page of the kernel image has its leaf table. */
  lemma ImageIsReachable(p: Pool, info: BootInfo, ds: seq<Descriptor>, w: nat)
    requires BootDone(p, info, ds) && InRange(w, KERNEL_IMAGE.base, SizeToPages(info.kernelSize))
    ensures Tree(p) && Sized(p) && Missing(p, w) == 0
  {
    BootDoneLeaf(p, info, ds, w);
    KernelSpaceTranslates(p, info, ds, w);
    HardwareAgrees(p, w);
    ZeroHasNoFlag();
    MissingNone(p, w);
    hide Tree, Sized, BootDone, HasFlag, Translate;
  }

  lemma SectionsAreReachable(p: Pool, info: BootInfo, ds: seq<Descriptor>, sections: seq<Section>)
    requires BootDone(p, info, ds) && InImage(sections, info)
    ensures Tree(p) && Sized(p) && forall s | s in sections :: SectionReachable(p, s)
  {
    BootDoneLeaf(p, info, ds, 0);
    hide Tree, Sized, BootDone, Missing, SizeToPages;
    forall s, w: nat | s in sections && s.Start() <= w < s.End() ensures Missing(p, w) == 0 {
      ImageIsReachable(p, info, ds, w);
    }
  }

  /** w lies in a page that holds a byte of the section, whose address is relative to the image. */
  ghost predicate InSection(s: Section, w: nat) {
    KERNEL_IMAGE.base + s.address <= w && w / PAGE_SIZE * PAGE_SIZE < KERNEL_IMAGE.base + s.address + s.size
  }

  lemma VisitsSection(s: Section, w: nat)
    ensures s.Visits(w) <==> InSection(s, w)
  {
    assert w / PAGE_SIZE * PAGE_SIZE == w - w % PAGE_SIZE;
  }

  /** The final kernel address space.  Finalising after boot never breaks down.  Discarded pages are gone; every other
      translation is the one made at boot; of the sections that are kept exactly the writable ones can be written; and
      user mode is still kept out. */
  lemma FinalKernelSpace(p: Pool, info: BootInfo, ds: seq<Descriptor>, sections: seq<Section>, w: nat)
    requires BootDone(p, info, ds) && WellPlaced(sections) && InImage(sections, info) && Canonical(w)
    ensures Tree(p) && Sized(p) && FinalizeSpec(p, sections).1
    ensures var r := FinalizeSpec(p, sections).0;
            && Sized(r) && !UserCanAccess(r, w)
            && ((forall s | s in sections :: !InSection(s, w)) ==>
                  Translate(r, w) == Translate(p, w) && (CanWrite(r, w) <==> CanWrite(p, w)))
            && (forall s | s in sections && InSection(s, w) ::
                  if s.discardable then Translate(r, w) == None
                  else Translate(r, w) == Translate(p, w) == Some(info.kernelPhys + (w - KERNEL_IMAGE.base))
                       && (CanWrite(r, w) <==> s.writable))
  {
    hide *;
    SectionsAreReachable(p, info, ds, sections);
    FinalizeSucceeds(p, sections);
    var r := FinalizeSpec(p, sections).0;
    TreeIsSized(r);
    FinalizeEffect(p, sections, w);
    BootKeepsUserOut(p, info, ds, w);
    FinalUser(p, r, sections, w);
    if forall s | s in sections :: !InSection(s, w) {
      FinalOutside(p, r, sections, w);
    }
    forall s | s in sections && InSection(s, w)
      ensures if s.discardable then Translate(r, w) == None
              else Translate(r, w) == Translate(p, w) == Some(info.kernelPhys + (w - KERNEL_IMAGE.base))
                   && (CanWrite(r, w) <==> s.writable)
    {
      SectionInImage(sections, s, info, w);
      KernelSpaceTranslates(p, info, ds, w);
      FinalInside(p, r, sections, s, w);
    }
  }

  /** Finalising never opens a page to user mode. */
  lemma FinalUser(p: Pool, r: Pool, sections: seq<Section>, w: nat)
    requires Tree(p) && Sized(p) && Tree(r) && Sized(r) && Leaf(r, w) == AfterSections(sections, w, Leaf(p, w))
    requires !HasFlag(Leaf(p, w), USER)
    ensures !UserCanAccess(r, w)
  {
    LeafNeedsUser(r, w);
    SectionsKeepUser(sections, w, Leaf(p, w));
    hide *;
  }

  lemma {:induction false} SectionsKeepUser(sections: seq<Section>, w: nat, entry: nat)
    ensures HasFlag(AfterSections(sections, w, entry), USER) == HasFlag(entry, USER)
  {
    hide SetFlag, HasFlag, Section.Visits;
    if sections != [] {
      var e := AfterSections(sections[..|sections| - 1], w, entry);
      SectionsKeepUser(sections[..|sections| - 1], w, entry);
      FlagOthers(e, PRESENT, USER, false);
      FlagOthers(e, WRITABLE, USER, false);
    }
  }

  lemma FinalOutside(p: Pool, r: Pool, sections: seq<Section>, w: nat)
    requires Tree(p) && Sized(p) && Tree(r) && Sized(r) && Leaf(r, w) == AfterSections(sections, w, Leaf(p, w))
    requires forall s | s in sections :: !InSection(s, w)
    ensures Translate(r, w) == Translate(p, w) && (CanWrite(r, w) <==> CanWrite(p, w))
  {
    hide Tree, Sized, Translate, Leaf, HasFlag, HardwareFrame, InSection, Section.Visits, AfterSections, CanWrite;
    forall s | s in sections ensures !s.Visits(w) {
      VisitsSection(s, w);
    }
    OutsideSections(sections, w, Leaf(p, w));
    HardwareAgrees(p, w);
    HardwareAgrees(r, w);
    SameLeafTranslation(p, r, w);
    LeafDecidesWriting(p, w);
    LeafDecidesWriting(r, w);
  }

  lemma FinalInside(p: Pool, r: Pool, sections: seq<Section>, s: Section, w: nat)
    requires Tree(p) && Sized(p) && Tree(r) && Sized(r) && Leaf(r, w) == AfterSections(sections, w, Leaf(p, w))
    requires WellPlaced(sections) && s in sections && InSection(s, w) && CanWrite(p, w)
    ensures if s.discardable then Translate(r, w) == None
            else Translate(r, w) == Translate(p, w) && (CanWrite(r, w) <==> s.writable)
  {
    hide Tree, Sized, Translate, Leaf, HasFlag, HardwareFrame, InSection, Section.Visits, AfterSections, CanWrite, WellPlaced;
    VisitsSection(s, w);
    var i :| 0 <= i < |sections| && sections[i] == s;
    SectionProtection(sections, i, w, Leaf(p, w));
    HardwareAgrees(p, w);
    HardwareAgrees(r, w);
    LeafDecidesWriting(p, w);
    LeafDecidesWriting(r, w);
    if !s.discardable {
      SameLeafTranslation(p, r, w);
    }
  }

  lemma SectionInImage(sections: seq<Section>, s: Section, info: BootInfo, w: nat)
    requires InImage(sections, info) && s in sections && InSection(s, w)
    ensures InRange(w, KERNEL_IMAGE.base, SizeToPages(info.kernelSize))
  {
    hide SizeToPages;
    assert w / PAGE_SIZE * PAGE_SIZE == w - w % PAGE_SIZE;
  }

  /** The kernel still finds its paging structures after finalising. */
  lemma FinalPoolMapsItself(p: Pool, info: BootInfo, ds: seq<Descriptor>, sections: seq<Section>, page: nat)
    requires BootDone(p, info, ds) && WellPlaced(sections) && InImage(sections, info) && p.virt == KERNEL_PT.base && page < |p.mem|
    ensures Tree(p)
    ensures var r := FinalizeSpec(p, sections).0;
            Sized(r) && Translate(r, PoolEntryVa(r.phys, r.virt, PhysicalOf(r, page))) == Some(PhysicalOf(r, page))
  {
    hide *;
    BootDoneLeaf(p, info, ds, 0);
    PoolAboveImage(p, info, ds, page);
    forall s | s in sections ensures !InSection(s, KERNEL_PT.base + page * PAGE_SIZE) {
      AboveImage(sections, s, KERNEL_PT.base + page * PAGE_SIZE);
    }
    FinalKernelSpace(p, info, ds, sections, KERNEL_PT.base + page * PAGE_SIZE);
    PoolMapsItself(p, info, ds, page);
    SamePlaces(p, sections, page);
  }

  lemma PoolAboveImage(p: Pool, info: BootInfo, ds: seq<Descriptor>, page: nat)
    requires BootDone(p, info, ds) && p.virt == KERNEL_PT.base && page < |p.mem|
    ensures PoolEntryVa(p.phys, p.virt, PhysicalOf(p, page)) == KERNEL_PT.base + page * PAGE_SIZE
    ensures Canonical(KERNEL_PT.base + page * PAGE_SIZE) && KERNEL_PT.base + page * PAGE_SIZE >= KERNEL_IMAGE.End()
  {
    hide SizeToPages, Addressable;
  }

  lemma AboveImage(sections: seq<Section>, s: Section, w: nat)
    requires WellPlaced(sections) && s in sections && w >= KERNEL_IMAGE.End()
    ensures !InSection(s, w)
  {
    VisitsSection(s, w);
  }

  lemma SamePlaces(p: Pool, sections: seq<Section>, page: nat)
    requires Tree(p)
    ensures var r := FinalizeSpec(p, sections).0;
            r.phys == p.phys && r.virt == p.virt && PhysicalOf(r, page) == PhysicalOf(p, page)
  {
    hide Tree;
  }
}
