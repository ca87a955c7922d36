/** Four-level page tables kept in one flat pool of pages (kernel/common/mm.h).

    Pool is the value of a page table: the bytes of `phys_info` and the 512 entries of every pool page.
    The operations are total functions on that value; PageTables.dfy ties the imperative code to them.
    `level`, `parent` and `used` record how each page came to be used.  No operation tests them. */
module Paging {
  import opened Arithmetic
  import opened Options
  import opened VirtualAddress

  const ENTRIES: nat := 512

  /** Physical addresses held in an entry lie below this bound (bits 51:12 of an entry). */
  const PHYSICAL_LIMIT: nat := 0x10_0000_0000_0000

  const PRESENT: nat := 0x1
  const WRITABLE: nat := 0x2
  const USER: nat := 0x4
  const CACHE_DISABLE: nat := 0x10
  const PAT: nat := 0x80  // in a leaf entry; the same bit is "page size" in the levels above
  const LARGE: nat := 0x80
  const GLOBAL: nat := 0x100

  /** The one-bit fields of a leaf entry other than its present bit. */
  predicate IsAttribute(flag: nat) {
    flag == WRITABLE || flag == USER || flag == CACHE_DISABLE || flag == PAT || flag == GLOBAL
  }

  datatype Slot = Slot(page: nat, index: nat)

  /** level: 4 = PML4, 3 = PDPT, 2 = page directory, 1 = page table, 0 = not a paging structure.
      parent: the slot whose entry points to the page.  used: number of pages handed out so far. */
  datatype Pool = Pool(
    virt: nat, phys: nat, root: nat,
    present: seq<bool>, mem: seq<seq<nat>>,
    level: seq<nat>, parent: seq<Slot>, used: nat)

  // ---------------------------------------------------------------- entries

  predicate HasFlag(entry: nat, flag: nat)
    requires flag > 0
  {
    entry / flag % 2 == 1
  }

  /** Assignment to a one-bit field of an entry. */
  function SetFlag(entry: nat, flag: nat, on: bool): (r: nat)
    requires flag > 0
  {
    if HasFlag(entry, flag) == on then entry
    else if on then entry + flag
    else if entry >= flag then entry - flag else 0
  }

  /** `entry & ~page_mask` */
  function Frame(entry: nat): nat {
    entry - entry % PAGE_SIZE
  }

  /** Bits 51:12 of an entry: the frame the processor uses. */
  function HardwareFrame(entry: nat): nat {
    entry / PAGE_SIZE % 0x100_0000_0000 * PAGE_SIZE
  }

  /** An entry for a frame, as MapPage leaves it: present, writable, possibly user; nothing else. */
  function MappedEntry(physical: nat, user: bool): (e: nat) {
    physical + PRESENT + WRITABLE + if user then USER else 0
  }

  /** The assignments MapPage makes to a new table entry and to a leaf entry pack the flags below the frame. */
  lemma EntryLayout(physical: nat, user: bool)
    requires IsPageAligned(physical)
    ensures SetFlag(SetFlag(SetFlag(physical, PRESENT, true), WRITABLE, true), USER, user) == MappedEntry(physical, user)
    ensures SetFlag(SetFlag(SetFlag(SetFlag(physical, PRESENT, true), WRITABLE, true), GLOBAL, false), USER, user)
            == MappedEntry(physical, user)
    ensures Frame(MappedEntry(physical, user)) == physical
    ensures HardwareFrame(MappedEntry(physical, user)) == physical % PHYSICAL_LIMIT
    ensures var e := MappedEntry(physical, user);
            HasFlag(e, PRESENT) && HasFlag(e, WRITABLE) && HasFlag(e, USER) == user && !HasFlag(e, LARGE) && !HasFlag(e, GLOBAL)
  {
    var k := physical / 0x1000;
    assert physical == 0x1000 * k;
    FlagBits(k, 0);
    FlagBits(k, 1);
    FlagBits(k, 3);
    FlagBits(k, 7);
    assert SetFlag(physical, PRESENT, true) == physical + 1;
    assert SetFlag(physical + 1, WRITABLE, true) == physical + 3;
    assert SetFlag(physical + 3, GLOBAL, false) == physical + 3;
    var high, low := k / 0x100_0000_0000, k % 0x100_0000_0000;
    DivMod(physical, PHYSICAL_LIMIT, high, low * 0x1000);
  }

  lemma FlagBits(k: nat, flags: nat)
    requires flags < 8
    ensures var e := 0x1000 * k + flags;
            && e / 0x1000 == k && e % 0x1000 == flags
            && !HasFlag(e, GLOBAL) && !HasFlag(e, LARGE)
            && (HasFlag(e, PRESENT) <==> flags % 2 == 1)
            && (HasFlag(e, WRITABLE) <==> flags / 2 % 2 == 1)
            && (HasFlag(e, USER) <==> flags / 4 == 1)
  {
    var e := 0x1000 * k + flags;
    DivMod(e, 0x1000, k, flags);
    DivMod(e, 0x100, 0x10 * k, flags);
    DivMod(e, 0x80, 0x20 * k, flags);
    DivMod(e, 4, 0x400 * k + flags / 4, flags % 4);
    DivMod(e, 2, 0x800 * k + flags / 2, flags % 2);
  }

  // ---------------------------------------------------------------- indices

  function Span(level: nat): (s: nat)
    requires 1 <= level <= 4
    ensures s > 0
  {
    if level == 4 then 0x80_0000_0000 else if level == 3 then 0x4000_0000 else if level == 2 then 0x20_0000 else 0x1000
  }

  function Index(address: nat, level: nat): (i: nat)
    requires 1 <= level <= 4
    ensures i < ENTRIES
  {
    address / Span(level) % 512
  }

  /** The 36 address bits that select a page. */
  function PageNumber(address: nat): nat {
    address / PAGE_SIZE % 0x10_0000_0000
  }

  lemma IndicesSelectPage(v: nat, w: nat)
    ensures PageNumber(v) == PageNumber(w) <==> forall l | 1 <= l <= 4 :: Index(v, l) == Index(w, l)
  {
    var i4, i3, i2, i1 := PageNumberDigits(v);
    var j4, j3, j2, j1 := PageNumberDigits(w);
    if forall l | 1 <= l <= 4 :: Index(v, l) == Index(w, l) {
      assert i4 == j4 && i3 == j3 && i2 == j2 && i1 == j1;
    }
  }

  lemma PageNumberDigits(v: nat) returns (i4: nat, i3: nat, i2: nat, i1: nat)
    ensures i4 == Index(v, 4) && i3 == Index(v, 3) && i2 == Index(v, 2) && i1 == Index(v, 1)
    ensures PageNumber(v) == 0x800_0000 * i4 + 0x4_0000 * i3 + 0x200 * i2 + i1
    ensures i1 == PageNumber(v) % 0x200 && i2 == PageNumber(v) / 0x200 % 0x200
    ensures i3 == PageNumber(v) / 0x4_0000 % 0x200 && i4 == PageNumber(v) / 0x800_0000
  {
    i4, i3, i2, i1 := Index(v, 4), Index(v, 3), Index(v, 2), Index(v, 1);
    var n, m := v / 0x1000, PageNumber(v);
    SubIndex(v, 0x1000, 0x200);
    SubIndex(v, 0x1000, 0x4_0000);
    SubIndex(v, 0x1000, 0x800_0000);
    assert n == 0x10_0000_0000 * (n / 0x10_0000_0000) + m;
    SameDigits(n / 0x10_0000_0000, m);
  }

  /** The four indices and the offset are the digits of the low 48 address bits. */
  lemma IndicesAreDigits(v: nat)
    ensures v % 0x1_0000_0000_0000 == 0x80_0000_0000 * Index(v, 4) + 0x4000_0000 * Index(v, 3) + 0x20_0000 * Index(v, 2)
                                      + 0x1000 * Index(v, 1) + v % 0x1000
  {
    var i4, i3, i2, i1 := PageNumberDigits(v);
    var n := v / 0x1000;
    var high, low := n / 0x10_0000_0000, n % 0x10_0000_0000;
    assert low == PageNumber(v);
    hide *;
    DivMod(v, 0x1_0000_0000_0000, high, 0x1000 * low + v % 0x1000);
  }

  /** Adding multiples of 2^36 changes none of the four lowest base-512 digits. */
  lemma SameDigits(k: nat, m: nat)
    requires m < 0x10_0000_0000
    ensures var n := 0x10_0000_0000 * k + m;
            && n % 0x200 == m % 0x200 && n / 0x200 % 0x200 == m / 0x200 % 0x200
            && n / 0x4_0000 % 0x200 == m / 0x4_0000 % 0x200 && n / 0x800_0000 % 0x200 == m / 0x800_0000
    ensures m == 0x800_0000 * (m / 0x800_0000) + 0x4_0000 * (m / 0x4_0000 % 0x200) + 0x200 * (m / 0x200 % 0x200) + m % 0x200
  {
    var n := 0x10_0000_0000 * k + m;
    Digit(k, m, 1, 0x10_0000_0000);
    Digit(k, m, 0x200, 0x800_0000);
    Digit(k, m, 0x4_0000, 0x4_0000);
    Digit(k, m, 0x800_0000, 0x200);
    SubIndex(m, 0x200, 0x200);
    SubIndex(m, 0x4_0000, 0x200);
  }

  lemma Digit(k: nat, m: nat, low: nat, high: nat)
    requires low > 0 && high % 0x200 == 0 && high > 0 && low * high == 0x10_0000_0000
    ensures (0x10_0000_0000 * k + m) / low % 0x200 == m / low % 0x200
  {
    var q := high * k + m / low;
    assert low * high * k == (high * k) * low;
    assert 0x10_0000_0000 * k + m == q * low + m % low;
    DivMod(0x10_0000_0000 * k + m, low, q, m % low);
    var h := high / 0x200;
    assert high * k == (h * k) * 0x200;
    DivMod(q, 0x200, h * k + m / low / 0x200, m / low % 0x200);
  }

  /** Two canonical addresses select the same page only if they lie in the same page. */
  lemma CanonicalPages(v: nat, w: nat)
    requires Canonical(v) && Canonical(w)
    ensures PageNumber(v) == PageNumber(w) <==> v / PAGE_SIZE == w / PAGE_SIZE
  {
  }

  // ---------------------------------------------------------------- the tree

  /** The pool page an entry (or a table address) refers to. */
  function PoolPage(p: Pool, entry: nat): int {
    (Frame(entry) - p.phys) / PAGE_SIZE
  }

  /** GetPoolEntryVa: where a paging structure at a physical address is found, for a pool at phys that is mapped at virt. */
  function PoolEntryVa(phys: nat, virt: nat, physical: nat): int {
    (physical - phys) + virt
  }

  function PhysicalOf(p: Pool, page: nat): nat {
    p.phys + page * PAGE_SIZE
  }

  ghost predicate Sized(p: Pool) {
    && 2 <= |p.mem| == |p.present| == |p.level| == |p.parent|
    && (forall q | 0 <= q < |p.mem| :: |p.mem[q]| == ENTRIES)
    && IsPageAligned(p.phys) && p.phys + |p.mem| * PAGE_SIZE <= PHYSICAL_LIMIT
    && p.root == PhysicalOf(p, 1)
  }

  ghost predicate IsTable(p: Pool, page: int)
    requires Sized(p)
  {
    0 <= page < |p.mem| && p.level[page] > 0
  }

  /** The entry in this slot is the one that MapPage writes for page `child`, which records the slot as its parent. */
  ghost predicate IsLink(p: Pool, page: nat, index: nat, child: nat)
    requires Sized(p) && page < |p.mem| && index < ENTRIES
  {
    && child < |p.mem|
    && p.level[child] + 1 == p.level[page]
    && p.parent[child] == Slot(page, index)
    && (p.mem[page][index] == MappedEntry(PhysicalOf(p, child), false) || p.mem[page][index] == MappedEntry(PhysicalOf(p, child), true))
  }

  /** Pages are handed out in order and never returned; a page that was not handed out is all zero. */
  ghost predicate Allocation(p: Pool)
    requires Sized(p)
  {
    && 2 <= p.used <= |p.mem|
    && (forall q | 0 <= q < |p.mem| :: p.present[q] <==> q < p.used)
    && (forall q | 0 <= q < |p.mem| && p.level[q] > 0 :: q < p.used)
    && (forall q, i | p.used <= q < |p.mem| && 0 <= i < ENTRIES :: p.mem[q][i] == 0)
  }

  /** Every non-zero entry above the leaves links to a table one level down. */
  ghost predicate LinksDown(p: Pool)
    requires Sized(p)
  {
    forall q, i | 0 <= q < |p.mem| && 0 <= i < ENTRIES && p.level[q] >= 2 && p.mem[q][i] != 0 ::
      exists c :: 0 <= c && IsLink(p, q, i, c)
  }

  /** Every table except the root is linked from its parent slot. */
  ghost predicate LinksUp(p: Pool)
    requires Sized(p)
  {
    forall c | 0 <= c < |p.mem| && 1 <= p.level[c] <= 3 ::
      var s := p.parent[c];
      && s.page < |p.mem| && s.index < ENTRIES
      && IsLink(p, s.page, s.index, c)
  }

  /** The paging structures form a tree rooted at page 1.  Page 0 holds phys_info. */
  ghost predicate Tree(p: Pool) {
    && Sized(p)
    && (forall q | 0 <= q < |p.mem| :: p.level[q] <= 4 && (p.level[q] == 4 <==> q == 1))
    && p.level[0] == 0
    && Allocation(p)
    && LinksDown(p)
    && LinksUp(p)
  }

  lemma TreeIsSized(p: Pool)
    requires Tree(p)
    ensures Sized(p) && p.used <= |p.mem|
  {
  }

  lemma LinkTarget(p: Pool, child: nat, user: bool)
    requires Sized(p) && child < |p.mem|
    ensures var e := MappedEntry(PhysicalOf(p, child), user);
            && e != 0 && HasFlag(e, PRESENT) && !HasFlag(e, LARGE)
            && PoolPage(p, e) == child && Frame(e) == HardwareFrame(e) == PhysicalOf(p, child)
  {
    assert IsPageAligned(PhysicalOf(p, child));
    EntryLayout(PhysicalOf(p, child), user);
  }

  /** The page number decoded from a non-zero entry above the leaves. */
  lemma LinkChild(p: Pool, page: nat, index: nat)
    requires Tree(p) && IsTable(p, page) && p.level[page] >= 2 && index < ENTRIES && p.mem[page][index] != 0
    ensures var c := PoolPage(p, p.mem[page][index]);
            && 0 <= c && IsLink(p, page, index, c) && HasFlag(p.mem[page][index], PRESENT)
            && !HasFlag(p.mem[page][index], LARGE) && HardwareFrame(p.mem[page][index]) == PhysicalOf(p, c)
  {
    var c :| 0 <= c && IsLink(p, page, index, c);
    LinkTarget(p, c, false);
    LinkTarget(p, c, true);
  }

  // ---------------------------------------------------------------- operations

  /** First page of the pool, skipping page 0, that is not in use. */
  function FirstFree(present: seq<bool>, from: nat): (q: Option<nat>)
    requires from <= |present|
    ensures q.Some? ==> from <= q.value < |present| && !present[q.value] && forall k | from <= k < q.value :: present[k]
    ensures q.None? ==> forall k | from <= k < |present| :: present[k]
    decreases |present| - from
  {
    if from == |present| then None else if present[from] then FirstFree(present, from + 1) else Some(from)
  }

  /** AllocatePhysical: 0 when the pool is exhausted. */
  function AllocateSpec(p: Pool): (r: (Pool, nat))
    requires Tree(p)
    ensures Tree(r.0)
    ensures p.used == |p.mem| ==> r == (p, 0)
    ensures p.used < |p.mem| ==> r == (Take(p, p.used), p.used)
  {
    assert p.used < |p.mem| ==> !p.present[p.used];
    match FirstFree(p.present, 1)
    case None => (p, 0)
    case Some(q) =>
      TakeKeepsTree(p);
      (Take(p, q), q)
  }

  lemma FirstFreeIsNext(p: Pool)
    requires Tree(p)
    ensures FirstFree(p.present, 1) == if p.used < |p.mem| then Some(p.used) else None
  {
    assert p.used < |p.mem| ==> !p.present[p.used];
  }

  function Take(p: Pool, q: nat): Pool
    requires q < |p.present|
  {
    p.(present := p.present[q := true], used := p.used + 1)
  }

  lemma TakeKeepsTree(p: Pool)
    requires Tree(p) && p.used < |p.mem|
    ensures Tree(Take(p, p.used))
  {
    var r := Take(p, p.used);
    assert Sized(r) && Allocation(r);
    assert LinksDown(r) by {
      forall a, i | 0 <= a < |r.mem| && 0 <= i < ENTRIES && r.level[a] >= 2 && r.mem[a][i] != 0
        ensures exists c :: 0 <= c && IsLink(r, a, i, c)
      {
        var c :| 0 <= c && IsLink(p, a, i, c);
        assert IsLink(r, a, i, c);
      }
    }
    assert LinksUp(r) by {
      forall c | 0 <= c < |r.mem| && 1 <= r.level[c] <= 3
        ensures var s := r.parent[c]; s.page < |r.mem| && s.index < ENTRIES && IsLink(r, s.page, s.index, c)
      {
        var s := p.parent[c];
        assert IsLink(p, s.page, s.index, c);
      }
    }
  }

  /** One `if (!entry)` block of MapPage: the table below this slot, allocated first if the entry is zero.
      The page number is 0 when the pool is exhausted. */
  function EnsureSpec(p: Pool, page: nat, index: nat, user: bool): (r: (Pool, nat))
    requires Tree(p) && IsTable(p, page) && p.level[page] >= 2 && index < ENTRIES
    ensures Tree(r.0)
    ensures |r.0.mem| == |p.mem| && r.0.phys == p.phys && r.0.virt == p.virt && r.0.root == p.root
    ensures r.1 != 0 ==> IsTable(r.0, r.1) && r.0.level[r.1] + 1 == p.level[page] && r.0.mem[page][index] != 0
                         && PoolPage(r.0, r.0.mem[page][index]) == r.1 && IsLink(r.0, page, index, r.1)
    ensures r.1 == 0 <==> p.mem[page][index] == 0 && p.used == |p.mem|
    ensures r.0.used == p.used + (if p.mem[page][index] == 0 && p.used < |p.mem| then 1 else 0)
    ensures r.1 == 0 || p.mem[page][index] != 0 ==> r.0 == p
  {
    if p.mem[page][index] != 0 then
      LinkChild(p, page, index);
      (p, PoolPage(p, p.mem[page][index]))
    else
      var (p1, q) := AllocateSpec(p);
      if q == 0 then (p, 0)
      else
        var p2 := Link(p1, page, index, q, user);
        LinkKeepsTree(p, page, index, user);
        (p2, q)
  }

  function Store(mem: seq<seq<nat>>, page: nat, index: nat, entry: nat): (r: seq<seq<nat>>)
    requires page < |mem| && index < |mem[page]|
  {
    var contents: seq<nat> := mem[page][index := entry];
    mem[page := contents]
  }

  function SetLevel(level: seq<nat>, page: nat, l: nat): seq<nat>
    requires page < |level|
  {
    level[page := l]
  }

  function Link(p: Pool, page: nat, index: nat, child: nat, user: bool): Pool
    requires Sized(p) && IsTable(p, page) && index < ENTRIES && child < |p.mem|
  {
    p.(mem := Store(p.mem, page, index, MappedEntry(PhysicalOf(p, child), user)),
       level := SetLevel(p.level, child, p.level[page] - 1),
       parent := p.parent[child := Slot(page, index)])
  }

  lemma LinkKeepsTree(p: Pool, page: nat, index: nat, user: bool)
    requires Tree(p) && IsTable(p, page) && p.level[page] >= 2 && index < ENTRIES
    requires p.mem[page][index] == 0 && p.used < |p.mem|
    ensures var q := p.used;
            var r := Link(AllocateSpec(p).0, page, index, q, user);
            Tree(r) && IsLink(r, page, index, q) && PoolPage(r, r.mem[page][index]) == q && r.mem[page][index] != 0
  {
    var p1 := AllocateSpec(p).0;
    var q := p.used;
    var r := Link(p1, page, index, q, user);
    LinkTarget(r, q, user);
    assert IsLink(r, page, index, q);
    LinkDown(p, page, index, user);
    LinkUp(p, page, index, user);
  }

  lemma LinkDown(p: Pool, page: nat, index: nat, user: bool)
    requires Tree(p) && IsTable(p, page) && p.level[page] >= 2 && index < ENTRIES
    requires p.mem[page][index] == 0 && p.used < |p.mem|
    ensures LinksDown(Link(AllocateSpec(p).0, page, index, p.used, user))
  {
    var q := p.used;
    var r := Link(AllocateSpec(p).0, page, index, q, user);
    forall a, i | 0 <= a < |r.mem| && 0 <= i < ENTRIES && r.level[a] >= 2 && r.mem[a][i] != 0
      ensures exists c :: 0 <= c && IsLink(r, a, i, c)
    {
      if a == page && i == index {
        assert IsLink(r, page, index, q);
      } else {
        assert a != q && r.mem[a][i] == p.mem[a][i] && r.level[a] == p.level[a];
        var c :| 0 <= c && IsLink(p, a, i, c);
        assert IsLink(r, a, i, c);
      }
    }
  }

  lemma LinkUp(p: Pool, page: nat, index: nat, user: bool)
    requires Tree(p) && IsTable(p, page) && p.level[page] >= 2 && index < ENTRIES
    requires p.mem[page][index] == 0 && p.used < |p.mem|
    ensures LinksUp(Link(AllocateSpec(p).0, page, index, p.used, user))
  {
    var q := p.used;
    var r := Link(AllocateSpec(p).0, page, index, q, user);
    forall c | 0 <= c < |r.mem| && 1 <= r.level[c] <= 3
      ensures var s := r.parent[c]; s.page < |r.mem| && s.index < ENTRIES && IsLink(r, s.page, s.index, c)
    {
      if c == q {
        assert IsLink(r, page, index, q);
      } else {
        var s := p.parent[c];
        assert IsLink(p, s.page, s.index, c);
      }
    }
  }

  // ---------------------------------------------------------------- walks

  /** The table of the given level on the path of an address, following present entries as GetPresentPte does.
      An entry that leads out of the pool ends the walk; in a tree there is none (TableAtLevel). */
  function TableAt(p: Pool, address: nat, level: nat): (t: Option<nat>)
    requires Sized(p) && 1 <= level <= 4
    ensures t.Some? ==> t.value < |p.mem|
    decreases 4 - level
  {
    if level == 4 then Some(1)
    else match TableAt(p, address, level + 1)
         case None => None
         case Some(t) => Follow(p, p.mem[t][Index(address, level + 1)])
  }

  function Follow(p: Pool, entry: nat): (t: Option<nat>)
    requires Sized(p)
    ensures t.Some? ==> t.value < |p.mem|
  {
    if HasFlag(entry, PRESENT) && 0 <= PoolPage(p, entry) < |p.mem| then Some(PoolPage(p, entry)) else None
  }

  /** The leaf entry of an address; 0 where the walk ends early. */
  function Leaf(p: Pool, address: nat): nat
    requires Sized(p)
  {
    match TableAt(p, address, 1)
    case None => 0
    case Some(t) => p.mem[t][Index(address, 1)]
  }

  predicate IsMapped(p: Pool, address: nat)
    requires Sized(p)
  {
    HasFlag(Leaf(p, address), PRESENT)
  }

  lemma FollowLink(p: Pool, page: nat, index: nat)
    requires Tree(p) && IsTable(p, page) && p.level[page] >= 2 && index < ENTRIES
    ensures p.mem[page][index] == 0 ==> Follow(p, p.mem[page][index]).None?
    ensures p.mem[page][index] != 0 ==>
              Follow(p, p.mem[page][index]).Some? && IsLink(p, page, index, Follow(p, p.mem[page][index]).value)
  {
    if p.mem[page][index] != 0 {
      LinkChild(p, page, index);
    }
  }

  /** A walk only meets tables of the right level, so it never leaves the pool. */
  lemma {:induction false} TableAtLevel(p: Pool, address: nat, level: nat)
    requires Tree(p) && 1 <= level <= 4
    ensures TableAt(p, address, level).Some? ==>
              p.level[TableAt(p, address, level).value] == level && TableAt(p, address, level).value < p.used
    decreases 4 - level
  {
    if level < 4 {
      TableAtLevel(p, address, level + 1);
      if TableAt(p, address, level + 1).Some? {
        FollowLink(p, TableAt(p, address, level + 1).value, Index(address, level + 1));
      }
    }
  }

  /** In a tree the path to a table is unique. */
  lemma {:induction false} PathUnique(p: Pool, v: nat, w: nat, level: nat)
    requires Tree(p) && 1 <= level <= 4
    requires TableAt(p, v, level).Some? && TableAt(p, v, level) == TableAt(p, w, level)
    ensures forall l | level < l <= 4 :: Index(v, l) == Index(w, l)
    decreases 4 - level
  {
    if level < 4 {
      TableAtLevel(p, v, level + 1);
      TableAtLevel(p, w, level + 1);
      FollowLink(p, TableAt(p, v, level + 1).value, Index(v, level + 1));
      FollowLink(p, TableAt(p, w, level + 1).value, Index(w, level + 1));
      PathUnique(p, v, w, level + 1);
    }
  }

  lemma {:induction false} SameIndicesSameTable(p: Pool, v: nat, w: nat, level: nat)
    requires Sized(p) && 1 <= level <= 4
    requires forall l | level < l <= 4 :: Index(v, l) == Index(w, l)
    ensures TableAt(p, v, level) == TableAt(p, w, level)
    decreases 4 - level
  {
    if level < 4 {
      SameIndicesSameTable(p, v, w, level + 1);
    }
  }

  /** Addresses share a leaf entry exactly when they select the same page. */
  lemma SameLeafSlot(p: Pool, v: nat, w: nat)
    requires Tree(p) && TableAt(p, v, 1).Some?
    ensures TableAt(p, v, 1) == TableAt(p, w, 1) && Index(v, 1) == Index(w, 1) <==> PageNumber(v) == PageNumber(w)
  {
    IndicesSelectPage(v, w);
    if TableAt(p, v, 1) == TableAt(p, w, 1) && Index(v, 1) == Index(w, 1) {
      PathUnique(p, v, w, 1);
    }
    if PageNumber(v) == PageNumber(w) {
      SameIndicesSameTable(p, v, w, 1);
    }
  }

  lemma SamePageSameLeaf(p: Pool, v: nat, w: nat)
    requires Sized(p) && PageNumber(v) == PageNumber(w)
    ensures Leaf(p, v) == Leaf(p, w) && TableAt(p, v, 1) == TableAt(p, w, 1)
  {
    IndicesSelectPage(v, w);
    SameIndicesSameTable(p, v, w, 1);
  }

  /** r is p with page q, all zero, linked below an empty slot. */
  ghost predicate Grown(p: Pool, r: Pool, page: nat, index: nat, q: nat) {
    && Sized(p) && Sized(r) && r.phys == p.phys
    && page < |p.mem| == |r.mem| && index < ENTRIES && q < |p.mem| && q != page
    && !HasFlag(p.mem[page][index], PRESENT)
    && Follow(r, r.mem[page][index]) == Some(q)
    && r.mem == p.mem[page := r.mem[page]]
    && r.mem[page] == p.mem[page][index := r.mem[page][index]]
    && (forall i | 0 <= i < ENTRIES :: p.mem[q][i] == 0)
  }

  /** What growing does to every path: it adds the new table below its slot and nothing else. */
  lemma {:induction false} GrownTables(p: Pool, r: Pool, page: nat, index: nat, q: nat, w: nat, level: nat)
    requires Grown(p, r, page, index, q) && 1 <= level <= 4
    requires forall l | 1 <= l <= 4 :: TableAt(p, w, l) != Some(q)
    ensures TableAt(r, w, level) ==
            if TableAt(p, w, level).Some? then TableAt(p, w, level)
            else if level < 4 && TableAt(p, w, level + 1) == Some(page) && Index(w, level + 1) == index then Some(q)
            else None
    decreases 4 - level
  {
    if level < 4 {
      GrownTables(p, r, page, index, q, w, level + 1);
    }
  }

  lemma GrownLeaf(p: Pool, r: Pool, page: nat, index: nat, q: nat, w: nat)
    requires Grown(p, r, page, index, q) && Tree(p) && p.level[page] >= 2 && p.level[q] == 0
    ensures Leaf(r, w) == Leaf(p, w)
  {
    forall l | 1 <= l <= 4 ensures TableAt(p, w, l) != Some(q) {
      TableAtLevel(p, w, l);
    }
    GrownTables(p, r, page, index, q, w, 1);
    TableAtLevel(p, w, 1);
  }

  // ---------------------------------------------------------------- MapPage

  /** Writing an entry of a level-1 table. */
  function WriteLeaf(p: Pool, table: nat, index: nat, entry: nat): (r: Pool)
    requires Sized(p) && table < |p.mem| && index < ENTRIES
    ensures Sized(r)
  {
    p.(mem := Store(p.mem, table, index, entry))
  }

  lemma WriteLeafKeepsTree(p: Pool, table: nat, index: nat, entry: nat)
    requires Tree(p) && table < |p.mem| && index < ENTRIES && table < p.used && p.level[table] <= 1
    ensures Tree(WriteLeaf(p, table, index, entry))
  {
    var r := WriteLeaf(p, table, index, entry);
    assert Sized(r) && Allocation(r);
    assert LinksDown(r) by {
      forall a, i | 0 <= a < |r.mem| && 0 <= i < ENTRIES && r.level[a] >= 2 && r.mem[a][i] != 0
        ensures exists c :: 0 <= c && IsLink(r, a, i, c)
      {
        assert a != table && r.mem[a] == p.mem[a];
        var c :| 0 <= c && IsLink(p, a, i, c);
        assert IsLink(r, a, i, c);
      }
    }
    assert LinksUp(r) by {
      forall c | 0 <= c < |r.mem| && 1 <= r.level[c] <= 3
        ensures var s := r.parent[c]; s.page < |r.mem| && s.index < ENTRIES && IsLink(r, s.page, s.index, c)
      {
        var s := p.parent[c];
        assert IsLink(p, s.page, s.index, c);
      }
    }
  }

  /** Walks above the leaves do not see a write to a level-1 table or to a page that is no table. */
  lemma {:induction false} WriteLeafTables(p: Pool, table: nat, index: nat, entry: nat, w: nat, level: nat)
    requires Tree(p) && Sized(p) && table < |p.mem| && index < ENTRIES && p.level[table] <= 1 && 1 <= level <= 4
    ensures TableAt(WriteLeaf(p, table, index, entry), w, level) == TableAt(p, w, level)
    decreases 4 - level
  {
    hide LinksDown, LinksUp, Allocation, HasFlag, Index, Frame;
    if level < 4 {
      WriteLeafTables(p, table, index, entry, w, level + 1);
      TableAtLevel(p, w, level + 1);
      SameEntrySameFollow(p, WriteLeaf(p, table, index, entry));
    }
  }

  lemma SameEntrySameFollow(p: Pool, r: Pool)
    requires Sized(p) && Sized(r) && p.phys == r.phys && |p.mem| == |r.mem|
    ensures forall e: nat :: Follow(p, e) == Follow(r, e)
  {
  }

  /** Writing the leaf entry of v changes the entry of the page v selects and of no other page. */
  lemma WriteLeafEffect(p: Pool, table: nat, v: nat, entry: nat, w: nat)
    requires Tree(p) && TableAt(p, v, 1) == Some(table) && p.level[table] <= 1
    ensures Leaf(WriteLeaf(p, table, Index(v, 1), entry), w) == if PageNumber(w) == PageNumber(v) then entry else Leaf(p, w)
  {
    WriteLeafTables(p, table, Index(v, 1), entry, w, 1);
    SameLeafSlot(p, v, w);
  }

  /** The blocks of MapPage from the given level down: the leaf table on the path of virt, or 0. */
  function DescendSpec(p: Pool, page: nat, level: nat, virt: nat, user: bool): (r: (Pool, nat))
    requires Tree(p) && 1 <= level <= 4 && IsTable(p, page) && p.level[page] == level
    ensures Tree(r.0) && |r.0.mem| == |p.mem| && r.0.phys == p.phys && r.0.virt == p.virt && r.0.root == p.root
    ensures r.1 != 0 ==> IsTable(r.0, r.1) && r.0.level[r.1] == 1
    decreases level
  {
    if level == 1 then (p, page)
    else
      var (r, q) := EnsureSpec(p, page, Index(virt, level), user);
      if q == 0 then (r, 0) else DescendSpec(r, q, level - 1, virt, user)
  }

  /** MapPage, with the flag telling success. */
  function MapPageSpec(p: Pool, virt: nat, phys: nat, user: bool): (r: (Pool, bool))
    requires Tree(p)
    ensures Tree(r.0) && |r.0.mem| == |p.mem| && r.0.phys == p.phys && r.0.virt == p.virt && r.0.root == p.root
  {
    if !IsPageAligned(virt) || !IsPageAligned(phys) then (p, false)
    else
      var (r, table) := DescendSpec(p, 1, 4, virt, user);
      if table == 0 then (r, false)
      else
        WriteLeafKeepsTree(r, table, Index(virt, 1), MappedEntry(phys, user));
        (WriteLeaf(r, table, Index(virt, 1), MappedEntry(phys, user)), true)
  }

  /** How many tables are missing on the path of an address. */
  function Missing(p: Pool, v: nat): (n: nat)
    requires Sized(p)
    ensures n <= 3
  {
    if TableAt(p, v, 3).None? then 3 else if TableAt(p, v, 2).None? then 2 else if TableAt(p, v, 1).None? then 1 else 0
  }

  /** One descent step: no leaf entry changes, the path of v gets one level longer, and one page is used per missing table. */
  lemma EnsureStep(p: Pool, v: nat, level: nat, page: nat, user: bool, w: nat)
    requires Tree(p) && 2 <= level <= 4 && TableAt(p, v, level) == Some(page) && p.level[page] == level
    ensures var (r, q) := EnsureSpec(p, page, Index(v, level), user);
            && Leaf(r, w) == Leaf(p, w)
            && (q != 0 ==> TableAt(r, v, level - 1) == Some(q) && r.level[q] == level - 1)
            && (q == 0 <==> TableAt(p, v, level - 1).None? && p.used == |p.mem|)
            && r.used + Missing(r, v) == p.used + Missing(p, v)
  {
    var (r, q) := EnsureSpec(p, page, Index(v, level), user);
    FollowLink(p, page, Index(v, level));
    if q != 0 && p.mem[page][Index(v, level)] == 0 {
      EnsureGrows(p, page, Index(v, level), user);
      GrownLeaf(p, r, page, Index(v, level), q, w);
      EnsureStepMissing(p, r, v, level, page, q);
    }
  }

  lemma EnsureGrows(p: Pool, page: nat, index: nat, user: bool)
    requires Tree(p) && IsTable(p, page) && p.level[page] >= 2 && index < ENTRIES
    requires p.mem[page][index] == 0 && p.used < |p.mem|
    ensures Grown(p, EnsureSpec(p, page, index, user).0, page, index, p.used)
    ensures EnsureSpec(p, page, index, user).1 == p.used
  {
    hide HasFlag, PoolPage, MappedEntry, HardwareFrame, Frame, LinksDown, LinksUp;
    var (r, q) := EnsureSpec(p, page, index, user);
    assert r.mem == p.mem[page := r.mem[page]];
    assert r.mem[page] == p.mem[page][index := MappedEntry(PhysicalOf(p, q), user)];
    LinkTarget(r, q, user);
    FollowLink(r, page, index);
    ZeroHasNoFlag();
  }

  /** The three outcomes of a descent step. */
  lemma EnsureCases(p: Pool, page: nat, index: nat, user: bool)
    requires Tree(p) && IsTable(p, page) && p.level[page] >= 2 && index < ENTRIES
    ensures var r := EnsureSpec(p, page, index, user);
            var q := p.used;
            if p.mem[page][index] != 0 then r == (p, PoolPage(p, p.mem[page][index]))
            else if q == |p.mem| then r == AllocateSpec(p) == (p, 0)
            else
              && AllocateSpec(p) == (Take(p, q), q) && q != 0
              && r == (Link(Take(p, q), page, index, q, user), q)
  {
    hide Link, PoolPage, MappedEntry, FirstFree, IsLink, LinksDown, LinksUp;
  }

  lemma ZeroHasNoFlag()
    ensures !HasFlag(0, PRESENT)
  {
  }

  lemma EnsureStepMissing(p: Pool, r: Pool, v: nat, level: nat, page: nat, q: nat)
    requires 2 <= level <= 4 && Sized(p) && Grown(p, r, page, Index(v, level), q)
    requires Tree(p) && p.level[q] == 0 && TableAt(p, v, level) == Some(page) && p.level[page] == level
    ensures TableAt(r, v, level - 1) == Some(q)
    ensures Missing(r, v) + 1 == Missing(p, v)
  {
    forall l | 1 <= l <= 4 ensures TableAt(p, v, l) != Some(q) && (TableAt(p, v, l) == Some(page) ==> l == level) {
      TableAtLevel(p, v, l);
    }
    forall l | 1 <= l <= 4
      ensures TableAt(r, v, l) ==
              if TableAt(p, v, l).Some? then TableAt(p, v, l) else if l + 1 == level then Some(q) else None
    {
      GrownTables(p, r, page, Index(v, level), q, v, l);
    }
    assert TableAt(p, v, level - 1).None?;
    assert level > 2 ==> TableAt(p, v, level - 2).None?;
    assert level > 3 ==> TableAt(p, v, level - 3).None?;
    assert level < 4 ==> TableAt(p, v, level + 1).Some?;
    assert level < 3 ==> TableAt(p, v, level + 2).Some?;
  }

  /** The descent changes no leaf entry.  It fails exactly when the pool has fewer pages left
      than the path has missing tables. */
  lemma {:induction false} DescendEffect(p: Pool, page: nat, level: nat, v: nat, user: bool, w: nat)
    requires Tree(p) && 1 <= level <= 4 && TableAt(p, v, level) == Some(page) && p.level[page] == level
    ensures var (r, table) := DescendSpec(p, page, level, v, user);
            && Leaf(r, w) == Leaf(p, w)
            && (table != 0 ==> TableAt(r, v, 1) == Some(table) && Missing(r, v) == 0)
            && (table != 0 <==> Missing(p, v) <= |p.mem| - p.used)
            && r.used + Missing(r, v) == p.used + Missing(p, v)
    decreases level
  {
    if level == 1 {
      MissingNone(p, v);
      assert page != 0;
    } else {
      EnsureStep(p, v, level, page, user, w);
      var (r, q) := EnsureSpec(p, page, Index(v, level), user);
      if q != 0 {
        hide EnsureSpec, Leaf, Missing, TableAt;
        DescendEffect(r, q, level - 1, v, user, w);
      } else {
        MissingNone(p, v);
        assert TableAt(p, v, level - 1).None?;
        TableBelowNone(p, v, level - 1);
      }
    }
  }

  lemma {:induction false} TableBelowNone(p: Pool, v: nat, level: nat)
    requires Sized(p) && 1 <= level <= 4 && TableAt(p, v, level).None?
    ensures TableAt(p, v, 1).None?
    decreases level
  {
    if level > 1 {
      TableBelowNone(p, v, level - 1);
    }
  }

  /** MapPage is a map update: the leaf of the mapped page becomes the new entry and every other leaf stays.
      A failed call changes no leaf.  It fails exactly when an address is unaligned or the pool
      has fewer pages left than the path has missing tables. */
  lemma MapPageUpdates(p: Pool, virt: nat, phys: nat, user: bool, w: nat)
    requires Tree(p)
    ensures var (r, ok) := MapPageSpec(p, virt, phys, user);
            && (ok <==> IsPageAligned(virt) && IsPageAligned(phys) && Missing(p, virt) <= |p.mem| - p.used)
            && (ok ==> r.used == p.used + Missing(p, virt) && Missing(r, virt) == 0)
            && Leaf(r, w) == if ok && PageNumber(w) == PageNumber(virt) then MappedEntry(phys, user) else Leaf(p, w)
  {
    DescendEffect(p, 1, 4, virt, user, w);
    var (r, table) := DescendSpec(p, 1, 4, virt, user);
    if table != 0 {
      MapPageWrites(r, table, virt, MappedEntry(phys, user), w);
    }
    assert Sized(p);
    hide Tree, Sized, DescendSpec, Leaf, Missing, Index, PageNumber, MappedEntry, HasFlag, TableAt, IsTable;
  }

  lemma MapPageWrites(p: Pool, table: nat, virt: nat, entry: nat, w: nat)
    requires Tree(p) && TableAt(p, virt, 1) == Some(table) && p.level[table] == 1
    ensures var r := WriteLeaf(p, table, Index(virt, 1), entry);
            && Missing(r, virt) == 0 == Missing(p, virt)
            && Leaf(r, w) == if PageNumber(w) == PageNumber(virt) then entry else Leaf(p, w)
  {
    hide PageNumber, Index, LinksUp, LinksDown, Allocation;
    WriteLeafEffect(p, table, virt, entry, w);
    WriteLeafTables(p, table, Index(virt, 1), entry, virt, 1);
    MissingNone(p, virt);
    MissingNone(WriteLeaf(p, table, Index(virt, 1), entry), virt);
  }

  // ---------------------------------------------------------------- changing one flag of a leaf

  /** `pte->flag = on` on the result of GetPresentPte; UnmapPage is the case of the present flag.
      The flag of the result tells whether there was a leaf table. */
  function UpdateLeafSpec(p: Pool, virt: nat, flag: nat, on: bool): (r: (Pool, bool))
    requires Tree(p) && flag > 0
    ensures Tree(r.0) && |r.0.mem| == |p.mem| && r.0.phys == p.phys && r.0.virt == p.virt && r.0.root == p.root
    ensures r.0.used == p.used
  {
    match TableAt(p, virt, 1)
    case None => (p, false)
    case Some(t) =>
      TableAtLevel(p, virt, 1);
      WriteLeafKeepsTree(p, t, Index(virt, 1), SetFlag(Leaf(p, virt), flag, on));
      (WriteLeaf(p, t, Index(virt, 1), SetFlag(Leaf(p, virt), flag, on)), true)
  }

  lemma UpdateLeafEffect(p: Pool, virt: nat, flag: nat, on: bool, w: nat)
    requires Tree(p) && flag > 0
    ensures var (r, found) := UpdateLeafSpec(p, virt, flag, on);
            && Leaf(r, w) == (if found && PageNumber(w) == PageNumber(virt) then SetFlag(Leaf(p, virt), flag, on) else Leaf(p, w))
            && (forall l | 1 <= l <= 4 :: TableAt(r, w, l) == TableAt(p, w, l))
  {
    match TableAt(p, virt, 1)
    case None =>
    case Some(t) =>
      TableAtLevel(p, virt, 1);
      var e := SetFlag(Leaf(p, virt), flag, on);
      WriteLeafEffect(p, t, virt, e, w);
      forall l | 1 <= l <= 4 ensures TableAt(WriteLeaf(p, t, Index(virt, 1), e), w, l) == TableAt(p, w, l) {
        WriteLeafTables(p, t, Index(virt, 1), e, w, l);
      }
  }

  lemma MissingNone(p: Pool, v: nat)
    requires Sized(p)
    ensures Missing(p, v) == 0 <==> TableAt(p, v, 1).Some?
  {
    assert TableAt(p, v, 1).Some? ==> TableAt(p, v, 2).Some?;
    assert TableAt(p, v, 2).Some? ==> TableAt(p, v, 3).Some?;
  }

  lemma FlagSet(e: nat, flag: nat, on: bool)
    requires flag > 0
    ensures HasFlag(SetFlag(e, flag, on), flag) == on
    ensures SetFlag(SetFlag(e, flag, on), flag, HasFlag(e, flag)) == e
  {
    var q, r := e / flag, e % flag;
    assert e == q * flag + r;
    if HasFlag(e, flag) != on {
      if on {
        DivMod(e + flag, flag, q + 1, r);
      } else {
        assert (q - 1) * flag >= 0;
        DivMod(e - flag, flag, q - 1, r);
      }
    }
  }

  /** Changing one flag leaves the frame bits alone ... */
  lemma FlagFrame(e: nat, flag: nat, on: bool)
    requires flag == PRESENT || IsAttribute(flag)
    ensures SetFlag(e, flag, on) / PAGE_SIZE == e / PAGE_SIZE
    ensures HardwareFrame(SetFlag(e, flag, on)) == HardwareFrame(e)
  {
    HigherBits(e, flag, PAGE_SIZE / (2 * flag), on);
  }

  /** ... and every other flag. */
  lemma FlagOthers(e: nat, flag: nat, other: nat, on: bool)
    requires flag == PRESENT || IsAttribute(flag)
    requires (other == PRESENT || IsAttribute(other)) && other != flag
    ensures HasFlag(SetFlag(e, flag, on), other) == HasFlag(e, other)
  {
    hide SetFlag;
    if flag < other {
      var k := other / (2 * flag);
      assert 2 * flag * k == other;
      HigherBits(e, flag, k, on);
    } else {
      var k := flag / (2 * other);
      assert 2 * other * k == flag;
      LowerBits(e, other, k, on);
    }
  }

  lemma HigherBits(e: nat, flag: nat, k: nat, on: bool)
    requires flag > 0 && k > 0
    ensures 2 * flag * k > 0 && SetFlag(e, flag, on) / (2 * flag * k) == e / (2 * flag * k)
  {
    var unit := 2 * flag;
    SameBlock(e, flag, on);
    SubIndex(e, unit, k);
    SubIndex(SetFlag(e, flag, on), unit, k);
  }

  lemma SameBlock(e: nat, flag: nat, on: bool)
    requires flag > 0
    ensures SetFlag(e, flag, on) / (2 * flag) == e / (2 * flag)
  {
    hide SetFlag, HasFlag;
    var unit := 2 * flag;
    var b, r := e / unit, e % unit;
    assert e == b * unit + r && (2 * b) * flag == b * unit;
    FlagFromBlock(e, flag, on);
    if r >= flag {
      DivMod(e - flag, unit, b, r - flag);
    } else {
      DivMod(e + flag, unit, b, r + flag);
    }
  }

  lemma FlagFromBlock(e: nat, flag: nat, on: bool)
    requires flag > 0
    ensures var r := SetFlag(e, flag, on); r == e || (e % (2 * flag) < flag && r == e + flag) || (e % (2 * flag) >= flag && r == e - flag)
  {
    var b, r := e / (2 * flag), e % (2 * flag);
    assert e == b * (2 * flag) + r && (2 * b) * flag == b * (2 * flag);
    if r >= flag {
      DivMod(e, flag, 2 * b + 1, r - flag);
    } else {
      DivMod(e, flag, 2 * b, r);
    }
    SetFlagCases(e, flag, on);
  }

  lemma SetFlagCases(e: nat, flag: nat, on: bool)
    requires flag > 0
    ensures var r := SetFlag(e, flag, on); r == e || r == e + flag || r == e - flag
  {
    if e < flag {
      DivMod(e, flag, 0, e);
    }
  }

  lemma LowerBits(e: nat, low: nat, k: nat, on: bool)
    requires low > 0 && k > 0
    ensures 2 * low * k > 0 && HasFlag(SetFlag(e, 2 * low * k, on), low) == HasFlag(e, low)
  {
    hide SetFlag;
    var flag := 2 * low * k;
    ProductPositive(2 * low, k);
    SetFlagCases(e, flag, on);
    assert flag == (2 * k) * low && -flag == (-2 * k) * low;
    AddMultiple(e, low, 2 * k);
    AddMultiple(e, low, -2 * k);
  }

  /** The flags the kernel changes on a mapped page do not take part in its translation. */
  lemma FlagKeepsFrame(e: nat, flag: nat, on: bool)
    requires IsAttribute(flag)
    ensures HasFlag(SetFlag(e, flag, on), PRESENT) == HasFlag(e, PRESENT)
    ensures HardwareFrame(SetFlag(e, flag, on)) == HardwareFrame(e)
  {
    hide SetFlag, HasFlag, HardwareFrame;
    FlagFrame(e, flag, on);
    FlagOthers(e, flag, PRESENT, on);
  }
}
