/** What the processor lets a program do with a page: user-mode access and writing need the right at all four levels
    (section 4.6 of the Intel SDM, volume 3A). */
module AccessRights {
  import opened Options
  import opened VirtualAddress
  import opened Paging
  import opened KernelWindow

  /** The right is granted by every entry that the processor meets on its walk from a table of the given level. */
  predicate GrantsFrom(p: Pool, table: nat, address: nat, level: nat, flag: nat)
    requires Sized(p) && 1 <= level <= 4 && flag > 0
    decreases level
  {
    var page := (table - p.phys) / PAGE_SIZE;
    && 0 <= page < |p.mem|
    && var e := p.mem[page][Index(address, level)];
       && HasFlag(e, PRESENT) && HasFlag(e, flag)
       && (level == 1 || (if HasFlag(e, LARGE) then level < 4 else GrantsFrom(p, HardwareFrame(e), address, level - 1, flag)))
  }

  /** A program in user mode can reach the address. */
  predicate UserCanAccess(p: Pool, address: nat)
    requires Sized(p)
  {
    GrantsFrom(p, p.root, address, 4, USER)
  }

  /** The address can be written to. */
  predicate CanWrite(p: Pool, address: nat)
    requires Sized(p)
  {
    GrantsFrom(p, p.root, address, 4, WRITABLE)
  }

  // ---------------------------------------------------------------- the entries on a path

  /** The entry of the given level on the path of an address; 0 where there is no table of that level. */
  function EntryAt(p: Pool, address: nat, level: nat): nat
    requires Sized(p) && 1 <= level <= 4
  {
    match TableAt(p, address, level)
    case None => 0
    case Some(t) => p.mem[t][Index(address, level)]
  }

  /** Two addresses share the entries of the given level and above. */
  ghost predicate SameEntries(v: nat, w: nat, level: nat)
    requires 1 <= level <= 4
  {
    forall l | level <= l <= 4 :: Index(v, l) == Index(w, l)
  }

  /** An entry as MapPage makes it. */
  ghost predicate Granted(e: nat, user: bool) {
    e != 0 && HasFlag(e, PRESENT) && HasFlag(e, WRITABLE) && HasFlag(e, USER) == user
  }

  lemma SharedEntry(p: Pool, v: nat, w: nat, level: nat)
    requires Sized(p) && 1 <= level <= 4 && SameEntries(v, w, level)
    ensures TableAt(p, v, level) == TableAt(p, w, level) && EntryAt(p, v, level) == EntryAt(p, w, level)
  {
    SameIndicesSameTable(p, v, w, level);
  }

  /** The entry of the given level is present and carries the right. */
  ghost predicate Grants(p: Pool, address: nat, level: nat, flag: nat)
    requires Sized(p) && 1 <= level <= 4 && flag > 0
  {
    HasFlag(EntryAt(p, address, level), PRESENT) && HasFlag(EntryAt(p, address, level), flag)
  }

  ghost predicate AllGrant(p: Pool, address: nat, level: nat, flag: nat)
    requires Sized(p) && 1 <= level <= 4 && flag > 0
    decreases level
  {
    Grants(p, address, level, flag) && (level == 1 || AllGrant(p, address, level - 1, flag))
  }

  lemma {:induction false} GrantsAll(p: Pool, address: nat, level: nat, flag: nat)
    requires Tree(p) && Sized(p) && 1 <= level <= 4 && flag > 0 && TableAt(p, address, level).Some?
    ensures GrantsFrom(p, PhysicalOf(p, TableAt(p, address, level).value), address, level, flag)
            <==> AllGrant(p, address, level, flag)
    decreases level
  {
    hide HardwareFrame, Index, HasFlag, Frame, IsLink, PoolPage, Tree, Sized;
    var t := TableAt(p, address, level).value;
    assert (PhysicalOf(p, t) - p.phys) / PAGE_SIZE == t;
    ZeroHasNoFlag();
    if level > 1 {
      NextTable(p, address, level);
      if EntryAt(p, address, level) != 0 {
        GrantsAll(p, address, level - 1, flag);
      }
    }
  }

  lemma NextTable(p: Pool, address: nat, level: nat)
    requires Tree(p) && Sized(p) && 2 <= level <= 4 && TableAt(p, address, level).Some?
    ensures var e := EntryAt(p, address, level);
            e != 0 ==> TableAt(p, address, level - 1).Some? && HasFlag(e, PRESENT) && HasFlag(e, WRITABLE) && !HasFlag(e, LARGE)
                       && HardwareFrame(e) == PhysicalOf(p, TableAt(p, address, level - 1).value)
  {
    hide LinksDown, LinksUp, Allocation, HasFlag, HardwareFrame, Frame, Index, SetFlag;
    var t := TableAt(p, address, level).value;
    TableAtLevel(p, address, level);
    FollowLink(p, t, Index(address, level));
    if EntryAt(p, address, level) != 0 {
      var c := TableAt(p, address, level - 1).value;
      LinkTarget(p, c, false);
      LinkTarget(p, c, true);
      EntryLayout(PhysicalOf(p, c), false);
      EntryLayout(PhysicalOf(p, c), true);
    }
  }

  /** A right is granted exactly if all four entries are present and carry it. */
  lemma RootGrants(p: Pool, address: nat, flag: nat)
    requires Tree(p) && Sized(p) && flag > 0
    ensures GrantsFrom(p, p.root, address, 4, flag)
            <==> Grants(p, address, 1, flag) && Grants(p, address, 2, flag) && Grants(p, address, 3, flag)
                 && Grants(p, address, 4, flag)
  {
    hide GrantsFrom, Tree, Grants;
    assert TableAt(p, address, 4) == Some(1) && p.root == PhysicalOf(p, 1);
    GrantsAll(p, address, 4, flag);
    assert AllGrant(p, address, 2, flag) <==> Grants(p, address, 1, flag) && Grants(p, address, 2, flag);
  }

  // ---------------------------------------------------------------- what MapPage does to the entries above the leaves

  lemma EnsureEntries(p: Pool, v: nat, level: nat, page: nat, user: bool, w: nat, l: nat)
    requires Tree(p) && Sized(p) && 2 <= level <= 4 && TableAt(p, v, level) == Some(page) && p.level[page] == level && 2 <= l <= 4
    ensures var (r, q) := EnsureSpec(p, page, Index(v, level), user);
            && Sized(r)
            && (EntryAt(r, w, l) == EntryAt(p, w, l)
                || (l == level && SameEntries(v, w, l) && EntryAt(p, w, l) == 0 && Granted(EntryAt(r, w, l), user)))
            && (q != 0 && l == level && SameEntries(v, w, l) ==> EntryAt(r, w, l) != 0)
  {
    var i := Index(v, level);
    var (r, q) := EnsureSpec(p, page, i, user);
    TreeIsSized(r);
    if l == level && SameEntries(v, w, l) {
      SharedEntry(p, v, w, l);
    }
    if q != 0 && p.mem[page][i] == 0 {
      EnsureGrows(p, page, i, user);
      EnsureCases(p, page, i, user);
      NewEntryIs(p, page, i, user);
      GrownEntry(p, r, v, level, page, q, w, l);
    }
  }

  /** The entry that one block of MapPage writes. */
  lemma NewEntryIs(p: Pool, page: nat, index: nat, user: bool)
    requires Tree(p) && Sized(p) && IsTable(p, page) && p.level[page] >= 2 && index < ENTRIES
    requires p.mem[page][index] == 0 && p.used < |p.mem|
    ensures var r := EnsureSpec(p, page, index, user).0; Sized(r) && Granted(r.mem[page][index], user)
  {
    TreeIsSized(EnsureSpec(p, page, index, user).0);
    EnsureCases(p, page, index, user);
    LinkedEntry(Take(p, p.used), page, index, p.used, user);
    hide *;
  }

  lemma LinkedEntry(p: Pool, page: nat, index: nat, child: nat, user: bool)
    requires Sized(p) && IsTable(p, page) && index < ENTRIES && child < |p.mem|
    ensures Granted(Link(p, page, index, child, user).mem[page][index], user)
  {
    hide HasFlag, SetFlag, Frame, HardwareFrame;
    EntryLayout(PhysicalOf(p, child), user);
  }

  lemma GrownEntry(p: Pool, r: Pool, v: nat, level: nat, page: nat, q: nat, w: nat, l: nat)
    requires Tree(p) && Sized(p) && Sized(r) && 2 <= level <= 4 && TableAt(p, v, level) == Some(page) && p.level[page] == level
    requires 2 <= l <= 4 && Grown(p, r, page, Index(v, level), q) && p.level[q] == 0
    ensures EntryAt(r, w, l) == EntryAt(p, w, l)
            || (l == level && SameEntries(v, w, l) && TableAt(p, w, l) == Some(page)
                && EntryAt(p, w, l) == p.mem[page][Index(v, level)] && EntryAt(r, w, l) == r.mem[page][Index(v, level)])
    ensures l == level && SameEntries(v, w, l) ==> EntryAt(r, w, l) == r.mem[page][Index(v, level)]
  {
    forall k | 1 <= k <= 4 ensures TableAt(p, w, k) != Some(q) {
      TableAtLevel(p, w, k);
    }
    GrownTables(p, r, page, Index(v, level), q, w, l);
    TableAtLevel(p, w, l);
    if TableAt(p, w, l) == Some(page) {
      PathUnique(p, v, w, level);
    }
    if l == level && SameEntries(v, w, l) {
      SharedEntry(p, v, w, l);
    }
    hide Tree, Sized;
  }

  lemma {:induction false} DescendEntries(p: Pool, page: nat, level: nat, v: nat, user: bool, w: nat, l: nat)
    requires Tree(p) && Sized(p) && 1 <= level <= 4 && TableAt(p, v, level) == Some(page) && p.level[page] == level && 2 <= l <= 4
    ensures var (r, table) := DescendSpec(p, page, level, v, user);
            && Sized(r)
            && (EntryAt(r, w, l) == EntryAt(p, w, l)
                || (l <= level && SameEntries(v, w, l) && EntryAt(p, w, l) == 0 && Granted(EntryAt(r, w, l), user)))
            && (table != 0 && l <= level && SameEntries(v, w, l) ==> EntryAt(r, w, l) != 0)
    decreases level
  {
    hide Tree, Sized, EnsureSpec, EntryAt, SameEntries, Granted, Index;
    if level > 1 {
      EnsureEntries(p, v, level, page, user, w, l);
      EnsureStep(p, v, level, page, user, w);
      var (r, q) := EnsureSpec(p, page, Index(v, level), user);
      if q != 0 {
        DescendEntries(r, q, level - 1, v, user, w, l);
      }
    }
  }

  /** Of the entries above the leaves, a successful MapPage writes exactly those on the path of its address that were zero:
      present, writable, and open to user mode exactly as asked for.  A failed call may have written some of them. */
  lemma MapPageEntries(p: Pool, virt: nat, phys: nat, user: bool, w: nat, l: nat)
    requires Tree(p) && Sized(p) && 2 <= l <= 4
    ensures var (r, ok) := MapPageSpec(p, virt, phys, user);
            && Sized(r)
            && (if SameEntries(virt, w, l) && EntryAt(p, w, l) == 0
                then Granted(EntryAt(r, w, l), user) || (!ok && EntryAt(r, w, l) == 0)
                else EntryAt(r, w, l) == EntryAt(p, w, l))
  {
    DescendEntries(p, 1, 4, virt, user, w, l);
    DescendEffect(p, 1, 4, virt, user, w);
    var (r, table) := DescendSpec(p, 1, 4, virt, user);
    TreeIsSized(MapPageSpec(p, virt, phys, user).0);
    if table != 0 {
      WriteLeafKeepsEntries(r, table, Index(virt, 1), MappedEntry(phys, user), w, l);
    }
    hide Tree, Sized, EntryAt, SameEntries, DescendSpec, Leaf, Missing;
  }

  lemma WriteLeafKeepsEntries(p: Pool, table: nat, index: nat, entry: nat, w: nat, l: nat)
    requires Tree(p) && Sized(p) && table < |p.mem| && index < ENTRIES && p.level[table] <= 1 && 2 <= l <= 4
    ensures EntryAt(WriteLeaf(p, table, index, entry), w, l) == EntryAt(p, w, l)
  {
    WriteLeafTables(p, table, index, entry, w, l);
    TableAtLevel(p, w, l);
  }

  // ---------------------------------------------------------------- user mode

  /** What MapPage does to one entry above the leaf of w, as far as user mode is concerned. */
  lemma OpenStep(p: Pool, virt: nat, phys: nat, user: bool, w: nat, l: nat)
    requires Tree(p) && Sized(p) && 2 <= l <= 4
    ensures var (r, ok) := MapPageSpec(p, virt, phys, user);
            && Sized(r)
            && (if ok && PageNumber(w) == PageNumber(virt)
                then Grants(r, w, l, USER) <==> if EntryAt(p, w, l) == 0 then user else HasFlag(EntryAt(p, w, l), USER)
                else (Grants(r, w, l, USER) <==> Grants(p, w, l, USER)) || EntryAt(p, w, 1) == 0)
  {
    MapPageEntries(p, virt, phys, user, w, l);
    ZeroAbove(p, w, l);
    SamePageEntries(virt, w, l);
    hide Tree, Sized, EntryAt, HasFlag, PageNumber, MapPageSpec, SameEntries;
  }

  lemma OpenLeaf(p: Pool, virt: nat, phys: nat, user: bool, w: nat)
    requires Tree(p) && Sized(p)
    ensures var (r, ok) := MapPageSpec(p, virt, phys, user);
            && Sized(r)
            && (if ok && PageNumber(w) == PageNumber(virt) then Grants(r, w, 1, USER) <==> user else EntryAt(r, w, 1) == EntryAt(p, w, 1))
    ensures EntryAt(p, w, 1) == 0 ==> !Grants(p, w, 1, USER)
  {
    var r := MapPageSpec(p, virt, phys, user).0;
    TreeIsSized(r);
    MapPageUpdates(p, virt, phys, user, w);
    LeafIsLast(p, w);
    LeafIsLast(r, w);
    if IsPageAligned(phys) {
      EntryLayout(phys, user);
    }
    ZeroHasNoFlag();
    hide Tree, Sized, EntryAt, HasFlag, PageNumber, MapPageSpec, Leaf, MappedEntry, Missing, SetFlag, Frame, HardwareFrame;
  }

  /** After a successful MapPage user mode reaches the page if and only if that was asked for and every entry above the
      leaf that already existed lets user mode through; access to every other page is as before. */
  lemma MapPageUserAccess(p: Pool, virt: nat, phys: nat, user: bool, w: nat)
    requires Tree(p) && Sized(p)
    ensures var (r, ok) := MapPageSpec(p, virt, phys, user);
            && Sized(r)
            && (UserCanAccess(r, w) <==>
                  if ok && PageNumber(w) == PageNumber(virt)
                  then user && forall l | 2 <= l <= 4 :: EntryAt(p, w, l) != 0 ==> HasFlag(EntryAt(p, w, l), USER)
                  else UserCanAccess(p, w))
  {
    var r := MapPageSpec(p, virt, phys, user).0;
    OpenLeaf(p, virt, phys, user, w);
    RootGrants(p, w, USER);
    RootGrants(r, w, USER);
    OpenStep(p, virt, phys, user, w, 2);
    OpenStep(p, virt, phys, user, w, 3);
    OpenStep(p, virt, phys, user, w, 4);
    assert EntryAt(r, w, 1) == EntryAt(p, w, 1) ==> (Grants(r, w, 1, USER) <==> Grants(p, w, 1, USER));
    hide *;
  }

  /** A kernel mapping hides user mappings made later below the same new entry: the flag of an entry is set once. */
  lemma KernelTableHidesUserPage(p: Pool, virt: nat, phys: nat, other: nat, physOther: nat)
    requires Tree(p) && Sized(p) && EntryAt(p, virt, 4) == 0 && Index(virt, 4) == Index(other, 4)
    ensures var (q, ok) := MapPageSpec(p, virt, phys, false);
            ok ==> var r := MapPageSpec(q, other, physOther, true).0; Sized(r) && !UserCanAccess(r, other)
  {
    var (q, ok) := MapPageSpec(p, virt, phys, false);
    if ok {
      TreeIsSized(q);
      SharedEntry(p, virt, other, 4);
      MapPageEntries(p, virt, phys, false, other, 4);
      MapPageUserAccess(q, other, physOther, true, other);
      RootGrants(q, other, USER);
      hide Tree, Sized, EntryAt, HasFlag, MapPageSpec, PageNumber, Index;
    }
  }

  /** No entry above the leaves, on the path of any address with the same top index as v, keeps user mode out. */
  ghost predicate UserSlot(p: Pool, v: nat)
    requires Sized(p)
  {
    forall w: nat, l: nat | Index(w, 4) == Index(v, 4) && 2 <= l <= 4 :: UserEntry(p, w, l)
  }

  ghost predicate UserEntry(p: Pool, w: nat, l: nat)
    requires Sized(p) && 2 <= l <= 4
  {
    EntryAt(p, w, l) != 0 ==> HasFlag(EntryAt(p, w, l), USER)
  }

  /** An empty top entry has nothing below it that could keep user mode out. */
  lemma EmptySlot(p: Pool, v: nat)
    requires Tree(p) && Sized(p) && EntryAt(p, v, 4) == 0
    ensures UserSlot(p, v)
  {
    hide Tree, Sized, HasFlag, Index, EntryAt;
    forall w: nat, l: nat | Index(w, 4) == Index(v, 4) && 2 <= l <= 4 ensures UserEntry(p, w, l) {
      SharedEntry(p, v, w, 4);
      NothingBelowZero(p, w, l);
    }
  }

  lemma {:induction false} NothingBelowZero(p: Pool, w: nat, l: nat)
    requires Tree(p) && Sized(p) && 2 <= l <= 4 && EntryAt(p, w, 4) == 0
    ensures EntryAt(p, w, l) == 0
    decreases 4 - l
  {
    if l < 4 {
      NothingBelowZero(p, w, l + 1);
      ZeroHasNoFlag();
      if TableAt(p, w, l + 1).Some? {
        NextTable(p, w, l + 1);
      }
    }
  }

  /** Mappings for user mode, and any mapping under another top index, leave the slot open to user mode. */
  lemma MapPageKeepsUserSlot(p: Pool, v: nat, virt: nat, phys: nat, user: bool)
    requires Tree(p) && Sized(p) && UserSlot(p, v) && (user || Index(virt, 4) != Index(v, 4))
    ensures var r := MapPageSpec(p, virt, phys, user).0; Sized(r) && UserSlot(r, v)
  {
    var r := MapPageSpec(p, virt, phys, user).0;
    TreeIsSized(r);
    hide Tree, Sized, HasFlag, Index, EntryAt, MapPageSpec;
    forall w: nat, l: nat | Index(w, 4) == Index(v, 4) && 2 <= l <= 4 ensures UserEntry(r, w, l) {
      assert UserEntry(p, w, l);
      MapPageEntries(p, virt, phys, user, w, l);
    }
  }

  /** In such a slot a successful MapPage for user mode opens exactly its page. */
  lemma UserSlotOpens(p: Pool, virt: nat, phys: nat, w: nat)
    requires Tree(p) && Sized(p) && UserSlot(p, virt)
    ensures var (r, ok) := MapPageSpec(p, virt, phys, true);
            && Sized(r)
            && (UserCanAccess(r, w) <==> (ok && PageNumber(w) == PageNumber(virt)) || UserCanAccess(p, w))
  {
    var (r, ok) := MapPageSpec(p, virt, phys, true);
    MapPageUserAccess(p, virt, phys, true, w);
    hide Tree, Sized, HasFlag, EntryAt, MapPageSpec, UserCanAccess;
    if PageNumber(w) == PageNumber(virt) {
      IndicesSelectPage(virt, w);
      hide PageNumber, Index;
      forall l: nat | 2 <= l <= 4 ensures EntryAt(p, w, l) != 0 ==> HasFlag(EntryAt(p, w, l), USER) {
        assert UserEntry(p, w, l);
      }
    }
  }

  /** Over a whole run of mappings, those under the top index of v all for user mode, user mode gains exactly the pages
      that the run maps there. */
  lemma {:induction false} MapAllOpens(p: Pool, requests: seq<Request>, v: nat, w: nat)
    requires Tree(p) && Sized(p) && UserSlot(p, v) && Index(w, 4) == Index(v, 4)
    requires (forall q | q in requests :: q.user || Index(q.virt, 4) != Index(v, 4)) && MapAll(p, requests).1
    ensures UserCanAccess(MapAll(p, requests).0, w)
            <==> UserCanAccess(p, w) || exists q | q in requests :: PageNumber(q.virt) == PageNumber(w)
    decreases |requests|
  {
    hide Tree, Sized, UserSlot, UserCanAccess, Index, PageNumber, MapPageSpec;
    if requests != [] {
      var q, rest := requests[0], requests[1..];
      assert requests == [q] + rest && q in requests && forall o | o in rest :: o in requests;
      MapPageKeepsUserSlot(p, v, q.virt, q.phys, q.user);
      OneMapOpens(p, q, v, w);
      MapAllOpens(MapPageSpec(p, q.virt, q.phys, q.user).0, rest, v, w);
    }
  }

  lemma OneMapOpens(p: Pool, q: Request, v: nat, w: nat)
    requires Tree(p) && Sized(p) && UserSlot(p, v) && Index(w, 4) == Index(v, 4) && (q.user || Index(q.virt, 4) != Index(v, 4))
    ensures var (r, ok) := MapPageSpec(p, q.virt, q.phys, q.user);
            Sized(r) && (UserCanAccess(r, w) <==> (ok && PageNumber(w) == PageNumber(q.virt)) || UserCanAccess(p, w))
  {
    hide Tree, Sized, UserCanAccess, Index, PageNumber, MapPageSpec, EntryAt, HasFlag;
    IndicesSelectPage(q.virt, w);
    if Index(q.virt, 4) == Index(v, 4) {
      UserSlotOpens(p, q.virt, q.phys, w);
    } else {
      MapPageUserAccess(p, q.virt, q.phys, q.user, w);
    }
  }

  lemma LeafIsLast(p: Pool, w: nat)
    requires Sized(p)
    ensures EntryAt(p, w, 1) == Leaf(p, w)
  {
  }

  lemma SamePageEntries(v: nat, w: nat, l: nat)
    requires 2 <= l <= 4
    ensures PageNumber(w) == PageNumber(v) ==> SameEntries(v, w, l)
  {
    IndicesSelectPage(v, w);
  }

  /** Below an empty entry there is no leaf, and an entry above the leaves is present unless it is zero. */
  lemma ZeroAbove(p: Pool, w: nat, l: nat)
    requires Tree(p) && Sized(p) && 2 <= l <= 4
    ensures EntryAt(p, w, l) == 0 ==> EntryAt(p, w, 1) == 0
    ensures EntryAt(p, w, l) != 0 ==> HasFlag(EntryAt(p, w, l), PRESENT) && HasFlag(EntryAt(p, w, l), WRITABLE)
  {
    ZeroHasNoFlag();
    if TableAt(p, w, l).Some? {
      NextTable(p, w, l);
      if EntryAt(p, w, l) == 0 {
        assert TableAt(p, w, l - 1).None?;
        TableBelowNone(p, w, l - 1);
      }
    } else {
      TableBelowNone(p, w, l);
    }
    hide Tree, Sized;
  }

  /** User mode reaches only pages whose leaf entry lets it through. */
  lemma LeafNeedsUser(p: Pool, w: nat)
    requires Tree(p) && Sized(p)
    ensures UserCanAccess(p, w) ==> HasFlag(Leaf(p, w), USER)
  {
    hide Tree, Sized, EntryAt, HasFlag, Leaf;
    RootGrants(p, w, USER);
    LeafIsLast(p, w);
  }

  /** Entries above the leaves never forbid writing, so the leaf decides. */
  lemma LeafDecidesWriting(p: Pool, w: nat)
    requires Tree(p) && Sized(p)
    ensures CanWrite(p, w) <==> IsMapped(p, w) && HasFlag(Leaf(p, w), WRITABLE)
  {
    hide Tree, Sized, EntryAt, HasFlag, Leaf;
    RootGrants(p, w, WRITABLE);
    LeafIsLast(p, w);
    ZeroHasNoFlag();
    ZeroAbove(p, w, 2);
    ZeroAbove(p, w, 3);
    ZeroAbove(p, w, 4);
  }
}
