/** The page budget of the kernel's own mappings: how many table pages the regions of va.h can ever need. */
module KernelWindow {
  import opened Options
  import opened VirtualAddress
  import opened Paging

  /** Number of 2 MiB windows (leaf tables) that the kernel regions span. */
  const WINDOWS: nat := 217

  function Window(d: nat): nat {
    KVA_BASE + d * 0x20_0000
  }

  function WindowOf(address: nat): (d: nat)
    requires InKva(address)
    ensures d < WINDOWS
  {
    (address - KVA_BASE) / 0x20_0000
  }

  // ---------------------------------------------------------------- which tables a mapping creates

  ghost predicate SamePath(v: nat, w: nat, level: nat) {
    forall k | 1 <= level < k <= 4 :: Index(v, k) == Index(w, k)
  }

  lemma EnsureTables(p: Pool, v: nat, level: nat, page: nat, user: bool, w: nat, l: nat)
    requires Tree(p) && Sized(p) && 2 <= level <= 4 && TableAt(p, v, level) == Some(page) && p.level[page] == level && 1 <= l <= 4
    requires EnsureSpec(p, page, Index(v, level), user).1 != 0
    ensures var r := EnsureSpec(p, page, Index(v, level), user).0;
            TableAt(r, w, l).Some? <==> TableAt(p, w, l).Some? || (l + 1 == level && SamePath(v, w, l))
  {
    if l + 1 == level && SamePath(v, w, l) {
      SameIndicesSameTable(p, v, w, level);
    }
    FollowLink(p, page, Index(v, level));
    if p.mem[page][Index(v, level)] == 0 {
      EnsureGrows(p, page, Index(v, level), user);
      forall k | 1 <= k <= 4
        ensures TableAt(p, w, k) != Some(p.used) && (TableAt(p, w, k) == Some(page) ==> k == level)
      {
        TableAtLevel(p, w, k);
      }
      GrownTables(p, EnsureSpec(p, page, Index(v, level), user).0, page, Index(v, level), p.used, w, l);
      if TableAt(p, w, level) == Some(page) {
        PathUnique(p, v, w, level);
      }
      hide Tree, EnsureSpec, Grown, HasFlag, Index;
    }
  }

  lemma {:induction false} DescendTables(p: Pool, page: nat, level: nat, v: nat, user: bool, w: nat, l: nat)
    requires Tree(p) && Sized(p) && 1 <= level <= 4 && TableAt(p, v, level) == Some(page) && p.level[page] == level && 1 <= l <= 4
    requires DescendSpec(p, page, level, v, user).1 != 0
    ensures var r := DescendSpec(p, page, level, v, user).0;
            Sized(r) && (TableAt(r, w, l).Some? <==> TableAt(p, w, l).Some? || (l < level && SamePath(v, w, l)))
    decreases level
  {
    hide Tree, EnsureSpec, TableAt, SamePath, Index, Leaf, Missing;
    if level > 1 {
      var (r, q) := EnsureSpec(p, page, Index(v, level), user);
      TreeIsSized(r);
      EnsureStep(p, v, level, page, user, 0);
      EnsureTables(p, v, level, page, user, w, l);
      DescendTables(r, q, level - 1, v, user, w, l);
    }
  }

  /** A successful MapPage adds exactly the tables on the path of its address. */
  lemma MapPageTables(p: Pool, virt: nat, phys: nat, user: bool, w: nat, l: nat)
    requires Tree(p) && Sized(p) && 1 <= l <= 3 && MapPageSpec(p, virt, phys, user).1
    ensures var r := MapPageSpec(p, virt, phys, user).0;
            Sized(r) && (TableAt(r, w, l).Some? <==> TableAt(p, w, l).Some? || SamePath(virt, w, l))
  {
    DescendTables(p, 1, 4, virt, user, w, l);
    DescendEffect(p, 1, 4, virt, user, w);
    var (r, table) := DescendSpec(p, 1, 4, virt, user);
    WriteLeafTables(r, table, Index(virt, 1), MappedEntry(phys, user), w, l);
    TreeIsSized(MapPageSpec(p, virt, phys, user).0);
    hide Tree, DescendSpec, TableAt, SamePath, Index, Leaf, Missing;
  }

  // ---------------------------------------------------------------- the budget

  /** How many of the first n windows have no leaf table. */
  function MissingWindows(p: Pool, n: nat): (c: nat)
    requires Sized(p)
  {
    if n == 0 then 0 else MissingWindows(p, n - 1) + if TableAt(p, Window(n - 1), 1).None? then 1 else 0
  }

  /** The number of tables that mapping the whole kernel window would still create. */
  function Reserve(p: Pool): (c: nat)
    requires Sized(p)
  {
    (if TableAt(p, KVA_BASE, 3).None? then 1 else 0) + (if TableAt(p, KVA_BASE, 2).None? then 1 else 0) + MissingWindows(p, WINDOWS)
  }

  lemma KernelPaths(v: nat, d: nat)
    requires InKva(v) && d < WINDOWS
    ensures SamePath(v, KVA_BASE, 3) && SamePath(v, KVA_BASE, 2)
    ensures SamePath(v, Window(d), 1) <==> d == WindowOf(v)
  {
    KernelIndices(v);
    KernelIndices(KVA_BASE);
    KernelIndices(Window(d));
    assert WindowOf(Window(d)) == d;
    hide Index, Window;
    if SamePath(v, Window(d), 1) {
      assert Index(v, 2) == Index(Window(d), 2);
    }
  }

  lemma KernelIndices(v: nat)
    requires InKva(v)
    ensures Index(v, 4) == 511 && Index(v, 3) == 510 && Index(v, 2) == WindowOf(v)
  {
    assert v / 0x80_0000_0000 == 0x1ff_ffff;
    assert v / 0x4000_0000 == 0x3_ffff_fffe;
    assert v / 0x20_0000 == 0x7ff_ffff_fc00 + WindowOf(v);
  }

  lemma {:induction false} MissingWindowsStep(p: Pool, r: Pool, d: nat, n: nat)
    requires Sized(p) && Sized(r)
    requires forall e: nat | e < n :: TableAt(r, Window(e), 1).Some? <==> TableAt(p, Window(e), 1).Some? || e == d
    ensures MissingWindows(p, n) == MissingWindows(r, n) + if d < n && TableAt(p, Window(d), 1).None? then 1 else 0
  {
    hide Sized, TableAt, Window;
    if n > 0 {
      MissingWindowsStep(p, r, d, n - 1);
    }
  }

  /** Tables in use and tables still needed always add up to the same number:
      each mapping inside the window takes from the reserve exactly the pages it uses. */
  lemma ReserveStep(p: Pool, virt: nat, phys: nat, user: bool)
    requires Tree(p) && Sized(p) && InKva(virt)
    ensures Missing(p, virt) <= Reserve(p)
    ensures var (r, ok) := MapPageSpec(p, virt, phys, user);
            Sized(r) && (ok ==> r.used + Reserve(r) == p.used + Reserve(p))
  {
    hide Tree, Sized, MapPageSpec, Index, InKva, Window, Leaf;
    var d := WindowOf(virt);
    var (r, ok) := MapPageSpec(p, virt, phys, user);
    TreeIsSized(r);
    MissingInWindow(p, virt);
    if TableAt(p, Window(d), 1).None? {
      MissingWindowsAtLeast(p, d, WINDOWS);
    }
    if ok {
      MapPageUpdates(p, virt, phys, user, 0);
      KernelPaths(virt, d);
      MapPageTables(p, virt, phys, user, KVA_BASE, 3);
      MapPageTables(p, virt, phys, user, KVA_BASE, 2);
      forall e: nat | e < WINDOWS
        ensures TableAt(r, Window(e), 1).Some? <==> TableAt(p, Window(e), 1).Some? || e == d
      {
        MapPageTables(p, virt, phys, user, Window(e), 1);
        KernelPaths(virt, e);
      }
      MissingWindowsStep(p, r, d, WINDOWS);
      hide *;
      ReserveSum(p, r, virt);
    }
  }

  lemma ReserveSum(p: Pool, r: Pool, virt: nat)
    requires Sized(p) && Sized(r) && InKva(virt)
    requires TableAt(r, KVA_BASE, 3).Some? && TableAt(r, KVA_BASE, 2).Some?
    requires Missing(p, virt) == (if TableAt(p, KVA_BASE, 3).None? then 1 else 0) + (if TableAt(p, KVA_BASE, 2).None? then 1 else 0)
                                 + (if TableAt(p, Window(WindowOf(virt)), 1).None? then 1 else 0)
    requires MissingWindows(p, WINDOWS) == MissingWindows(r, WINDOWS) + if TableAt(p, Window(WindowOf(virt)), 1).None? then 1 else 0
    ensures Reserve(p) == Reserve(r) + Missing(p, virt)
  {
    hide Sized, TableAt, Missing, MissingWindows;
  }

  lemma MissingInWindow(p: Pool, virt: nat)
    requires Sized(p) && InKva(virt)
    ensures Missing(p, virt) == (if TableAt(p, KVA_BASE, 3).None? then 1 else 0) + (if TableAt(p, KVA_BASE, 2).None? then 1 else 0)
                                + (if TableAt(p, Window(WindowOf(virt)), 1).None? then 1 else 0)
  {
    KernelPaths(virt, WindowOf(virt));
    SameIndicesSameTable(p, virt, KVA_BASE, 3);
    SameIndicesSameTable(p, virt, KVA_BASE, 2);
    SameIndicesSameTable(p, virt, Window(WindowOf(virt)), 1);
    assert TableAt(p, virt, 3).None? ==> TableAt(p, virt, 2).None?;
    assert TableAt(p, virt, 2).None? ==> TableAt(p, virt, 1).None?;
    hide TableAt, Sized, SamePath, InKva;
  }

  lemma {:induction false} MissingWindowsAtLeast(p: Pool, d: nat, n: nat)
    requires Sized(p) && d < n && TableAt(p, Window(d), 1).None?
    ensures MissingWindows(p, n) >= 1
  {
    hide Sized, TableAt, Window;
    if d < n - 1 {
      MissingWindowsAtLeast(p, d, n - 1);
    }
  }

  // ---------------------------------------------------------------- whole runs

  /** The pool right after the constructor: phys_info and the PML4 are in use, everything is zero. */
  function Fresh(virt: nat, phys: nat, pages: nat): Pool {
    Pool(virt, phys, phys + PAGE_SIZE,
         seq(pages, q => q < 2), seq(pages, q => seq(ENTRIES, i => 0)),
         seq(pages, q => if q == 1 then 4 else 0), seq(pages, q => Slot(0, 0)), 2)
  }

  /** Nothing but the root table exists. */
  ghost predicate Empty(p: Pool) {
    Tree(p) && Sized(p) && p.used == 2 && forall i | 0 <= i < ENTRIES :: p.mem[1][i] == 0
  }

  lemma FreshIsEmpty(virt: nat, phys: nat, pages: nat)
    requires 2 <= pages && IsPageAligned(phys) && phys + pages * PAGE_SIZE <= PHYSICAL_LIMIT
    ensures var p := Fresh(virt, phys, pages);
            Empty(p) && |p.mem| == pages && p.virt == virt && p.phys == phys && p.root == phys + 0x1000
  {
    var p := Fresh(virt, phys, pages);
    assert Sized(p) && Allocation(p) && LinksDown(p) && LinksUp(p);
  }

  lemma EmptyMapsNothing(p: Pool)
    requires Empty(p)
    ensures Reserve(p) == WINDOWS + 2 && (forall w: nat :: Leaf(p, w) == 0)
  {
    hide Tree, Sized;
    forall w: nat, l: nat | 1 <= l <= 3 ensures TableAt(p, w, l).None? {
      EmptyHasNoTables(p, w, l);
    }
    hide TableAt, Empty;
    AllWindowsMissing(p, WINDOWS);
  }

  lemma {:induction false} EmptyHasNoTables(p: Pool, w: nat, l: nat)
    requires Sized(p) && 1 <= l <= 3 && (forall i | 0 <= i < ENTRIES :: p.mem[1][i] == 0)
    ensures TableAt(p, w, l).None?
    decreases 3 - l
  {
    if l < 3 {
      EmptyHasNoTables(p, w, l + 1);
    } else {
      assert p.mem[1][Index(w, 4)] == 0;
    }
  }

  lemma {:induction false} AllWindowsMissing(p: Pool, n: nat)
    requires Sized(p) && forall d: nat | d < n :: TableAt(p, Window(d), 1).None?
    ensures MissingWindows(p, n) == n
  {
    hide Sized, TableAt, Window;
    if n > 0 {
      AllWindowsMissing(p, n - 1);
    }
  }

  datatype Request = Request(virt: nat, phys: nat, user: bool) {
    predicate InWindow() {
      InKva(virt) && IsPageAligned(virt) && IsPageAligned(phys)
    }

    predicate Touches(d: nat) {
      InKva(virt) && WindowOf(virt) == d
    }
  }

  ghost predicate AllInWindow(requests: seq<Request>) {
    forall r | r in requests :: r.InWindow()
  }

  ghost predicate SomeTouches(requests: seq<Request>, d: nat) {
    exists r :: r in requests && r.Touches(d)
  }

  /** Any run of MapPage calls, stopping at the first that fails. */
  function MapAll(p: Pool, requests: seq<Request>): (r: (Pool, bool))
    requires Tree(p)
    ensures Tree(r.0) && Sized(r.0) && |r.0.mem| == |p.mem|
    decreases |requests|
  {
    TreeIsSized(p);
    if requests == [] then (p, true)
    else
      var (q, ok) := MapPageSpec(p, requests[0].virt, requests[0].phys, requests[0].user);
      TreeIsSized(q);
      if ok then MapAll(q, requests[1..]) else (q, false)
  }

  /** A run inside the kernel window keeps pages used plus pages reserved constant,
      and it cannot fail while the reserve is covered by the free pages. */
  lemma {:induction false} WindowRun(p: Pool, requests: seq<Request>)
    requires Tree(p) && Sized(p) && AllInWindow(requests)
    ensures var (r, ok) := MapAll(p, requests);
            && (ok ==> r.used + Reserve(r) == p.used + Reserve(p))
            && (p.used + Reserve(p) <= |p.mem| ==> ok)
            && (ok ==> forall w: nat, l: nat | 1 <= l <= 3 && TableAt(p, w, l).Some? :: TableAt(r, w, l).Some?)
    decreases |requests|
  {
    hide Tree, Sized, MapPageSpec, TableAt, InKva, IsPageAligned, Reserve, Missing, Leaf;
    if requests != [] {
      var h := requests[0];
      assert h.InWindow();
      var (q, ok) := MapPageSpec(p, h.virt, h.phys, h.user);
      ReserveStep(p, h.virt, h.phys, h.user);
      MapPageUpdates(p, h.virt, h.phys, h.user, 0);
      if ok {
        forall w: nat, l: nat | 1 <= l <= 3 && TableAt(p, w, l).Some? ensures TableAt(q, w, l).Some? {
          MapPageTables(p, h.virt, h.phys, h.user, w, l);
        }
        WindowRun(q, requests[1..]);
      }
    }
  }

  lemma {:induction false} WindowRunTables(p: Pool, requests: seq<Request>, d: nat)
    requires Tree(p) && Sized(p) && AllInWindow(requests) && SomeTouches(requests, d) && MapAll(p, requests).1 && d < WINDOWS
    ensures var r := MapAll(p, requests).0;
            TableAt(r, Window(d), 1).Some? && TableAt(r, KVA_BASE, 2).Some? && TableAt(r, KVA_BASE, 3).Some?
    decreases |requests|
  {
    hide Tree, Sized, MapPageSpec, TableAt, InKva, IsPageAligned, Reserve, Missing, Window, Index;
    var h := requests[0];
    var q := MapPageSpec(p, h.virt, h.phys, h.user).0;
    TreeIsSized(q);
    if h.Touches(d) {
      KernelPaths(h.virt, d);
      MapPageTables(p, h.virt, h.phys, h.user, Window(d), 1);
      MapPageTables(p, h.virt, h.phys, h.user, KVA_BASE, 2);
      MapPageTables(p, h.virt, h.phys, h.user, KVA_BASE, 3);
      WindowRun(q, requests[1..]);
    } else {
      var r :| r in requests && r.Touches(d);
      assert r in requests[1..];
      WindowRunTables(q, requests[1..], d);
    }
  }

  /** An empty pool of at least 221 pages (page 0 and 220 tables) serves every run inside the kernel window,
      and no smaller pool serves a run that touches all 217 windows. */
  lemma PagesForKernelWindow(p: Pool, requests: seq<Request>)
    requires Empty(p) && AllInWindow(requests)
    ensures |p.mem| >= WINDOWS + 4 ==> MapAll(p, requests).1
    ensures (forall d: nat | d < WINDOWS :: SomeTouches(requests, d)) ==> (MapAll(p, requests).1 <==> |p.mem| >= WINDOWS + 4)
  {
    EmptyMapsNothing(p);
    hide Tree, Sized, TableAt, Missing, InKva, IsPageAligned, MapAll, Reserve, Window, SomeTouches, AllInWindow;
    WindowRun(p, requests);
    var (r, ok) := MapAll(p, requests);
    if ok && forall d: nat | d < WINDOWS :: SomeTouches(requests, d) {
      forall d: nat | d < WINDOWS ensures TableAt(r, Window(d), 1).Some? {
        WindowRunTables(p, requests, d);
      }
      WindowRunTables(p, requests, 0);
      NoneMissing(r, WINDOWS);
      ReserveEmpty(r);
      TreeIsSized(r);
    }
  }

  lemma ReserveEmpty(p: Pool)
    requires Sized(p) && TableAt(p, KVA_BASE, 2).Some? && TableAt(p, KVA_BASE, 3).Some? && MissingWindows(p, WINDOWS) == 0
    ensures Reserve(p) == 0
  {
    hide Sized, TableAt, MissingWindows;
  }

  lemma {:induction false} NoneMissing(p: Pool, n: nat)
    requires Sized(p) && forall d: nat | d < n :: TableAt(p, Window(d), 1).Some?
    ensures MissingWindows(p, n) == 0
  {
    hide Sized, TableAt, Window;
    if n > 0 {
      NoneMissing(p, n - 1);
    }
  }
}
