/** The kernel heap (kernel/core/alloc.cc): a first-fit allocator over a bitmap of 32-byte blocks, with in-band headers. */
module HeapModel {
  import opened Arithmetic
  import opened Maps
  import opened Options
  import opened VirtualAddress

  const BLOCK_SIZE: nat := 32
  const BLOCKS: nat := 32768          // blocks of the kernel pool
  const POOL_SIZE: nat := 0x10_0000
  const HEADER: nat := 8              // sizeof(Allocation)
  const WORDS: nat := 8               // 32-bit words per block

  /** bits: the allocation bitmap.  mem: the pool as 32-bit words; a header is the two words offset and blocks.
      live: the allocations that have not been freed, start block to number of blocks. */
  datatype Heap = Heap(bits: seq<bool>, used: nat, free: int, mem: seq<nat>, live: map<nat, nat>)

  // ---------------------------------------------------------------- counting

  function Count(bits: seq<bool>): (n: nat)
    ensures n <= |bits|
  {
    if bits == [] then 0 else Count(bits[..|bits| - 1]) + if bits[|bits| - 1] then 1 else 0
  }

  lemma {:induction false} CountConcat(a: seq<bool>, b: seq<bool>)
    ensures Count(a + b) == Count(a) + Count(b)
  {
    if b == [] {
      assert a + b == a;
    } else {
      assert (a + b)[..|a + b| - 1] == a + b[..|b| - 1];
      CountConcat(a, b[..|b| - 1]);
    }
  }

  lemma {:induction false} CountConstant(bits: seq<bool>, on: bool)
    requires forall k | 0 <= k < |bits| :: bits[k] == on
    ensures Count(bits) == if on then |bits| else 0
  {
    if bits != [] {
      CountConstant(bits[..|bits| - 1], on);
    }
  }

  /** bits with [s, s + n) all set or all cleared. */
  function SetRun(bits: seq<bool>, s: nat, n: nat, on: bool): (r: seq<bool>)
    requires s + n <= |bits|
    ensures |r| == |bits| && forall k | 0 <= k < |bits| :: r[k] == if s <= k < s + n then on else bits[k]
  {
    seq(|bits|, k requires 0 <= k < |bits| => if s <= k < s + n then on else bits[k])
  }

  lemma CountParts(bits: seq<bool>, s: nat, n: nat)
    requires s + n <= |bits|
    ensures Count(bits) == Count(bits[..s]) + Count(bits[s..s + n]) + Count(bits[s + n..])
  {
    hide Count;
    assert bits == bits[..s] + bits[s..];
    assert bits[s..] == bits[s..s + n] + bits[s + n..];
    CountConcat(bits[..s], bits[s..]);
    CountConcat(bits[s..s + n], bits[s + n..]);
  }

  lemma CountSetRun(bits: seq<bool>, s: nat, n: nat, on: bool)
    requires s + n <= |bits| && forall k | s <= k < s + n :: bits[k] == !on
    ensures if on then Count(SetRun(bits, s, n, on)) == Count(bits) + n else Count(SetRun(bits, s, n, on)) + n == Count(bits)
  {
    hide Count, SetRun;
    var r := SetRun(bits, s, n, on);
    CountParts(bits, s, n);
    CountParts(r, s, n);
    assert r[..s] == bits[..s] && r[s + n..] == bits[s + n..];
    CountConstant(bits[s..s + n], !on);
    CountConstant(r[s..s + n], on);
  }

  // ---------------------------------------------------------------- first fit

  /** Blocks [s, s + n) exist and are free. */
  predicate FreeRun(bits: seq<bool>, s: nat, n: nat) {
    s + n <= |bits| && forall k | s <= k < s + n :: !bits[k]
  }

  /** The lowest start, not below `from`, of n free blocks. */
  function FirstFitFrom(bits: seq<bool>, n: nat, from: nat): (s: Option<nat>)
    ensures s.Some? ==> s.value >= from && FreeRun(bits, s.value, n) && forall t | from <= t < s.value :: !FreeRun(bits, t, n)
    ensures s.None? ==> forall t | from <= t :: !FreeRun(bits, t, n)
    decreases |bits| - from
  {
    if from + n > |bits| then None else if FreeRun(bits, from, n) then Some(from) else FirstFitFrom(bits, n, from + 1)
  }

  function FirstFit(bits: seq<bool>, n: nat): (s: Option<nat>)
    ensures s.Some? ==> FreeRun(bits, s.value, n) && forall t: nat | t < s.value :: !FreeRun(bits, t, n)
    ensures s.None? ==> forall t: nat :: !FreeRun(bits, t, n)
  {
    FirstFitFrom(bits, n, 0)
  }

  lemma FirstFitIs(bits: seq<bool>, n: nat, s: nat)
    requires FreeRun(bits, s, n) && forall t | 0 <= t < s :: !FreeRun(bits, t, n)
    ensures FirstFit(bits, n) == Some(s)
  {
  }

  // ---------------------------------------------------------------- the invariant

  /** Block k belongs to the live allocation that starts at s. */
  predicate Owns(h: Heap, s: nat, k: nat) {
    s in h.live && s <= k < s + h.live[s]
  }

  predicate InUse(h: Heap, k: nat) {
    exists s | s in h.live :: Owns(h, s, k)
  }

  ghost predicate LiveInside(h: Heap) {
    && |h.bits| == BLOCKS && |h.mem| == BLOCKS * WORDS
    && (forall s | s in h.live :: h.live[s] > 0 && s + h.live[s] <= BLOCKS)
  }

  ghost predicate Disjoint(h: Heap) {
    forall s, t, k | Owns(h, s, k) && Owns(h, t, k) :: s == t
  }

  ghost predicate BitsAreUnion(h: Heap)
    requires |h.bits| == BLOCKS
  {
    forall k | 0 <= k < BLOCKS :: h.bits[k] <==> InUse(h, k)
  }

  ghost predicate CountersAgree(h: Heap) {
    h.used == BLOCK_SIZE * Count(h.bits) && h.used + h.free == POOL_SIZE
  }

  ghost predicate HeadersInPlace(h: Heap)
    requires LiveInside(h)
  {
    forall s | s in h.live :: h.mem[s * WORDS] == s && h.mem[s * WORDS + 1] == h.live[s]
  }

  /** Live allocations are non-empty, inside the pool and disjoint; the bitmap is exactly their union;
      the counters agree with the bitmap; every live allocation has its header in place. */
  ghost predicate Valid(h: Heap) {
    LiveInside(h) && Disjoint(h) && BitsAreUnion(h) && CountersAgree(h) && HeadersInPlace(h)
  }

  /** The heap after InitializeAllocator on zeroed storage. */
  function Initial(): Heap {
    Heap(seq(BLOCKS, _ => false), 0, POOL_SIZE, seq(BLOCKS * WORDS, _ => 0), map[])
  }

  lemma InitialIsValid()
    ensures Valid(Initial()) && Initial().live == map[] && Initial().used == 0 && Initial().free == 0x10_0000
  {
    CountConstant(Initial().bits, false);
  }

  // ---------------------------------------------------------------- operations

  /** The least number of blocks that holds a request and its header. */
  function BlocksFor(size: nat): (n: nat)
    ensures n >= 1 && (n - 1) * BLOCK_SIZE < size + HEADER <= n * BLOCK_SIZE
  {
    (size + HEADER + BLOCK_SIZE - 1) / BLOCK_SIZE
  }

  /** The number of blocks that Allocate looks for: header and rounding are added in 64-bit arithmetic. */
  function BlocksNeeded(size: Word): nat {
    ((size + HEADER) % WORD + (BLOCK_SIZE - 1)) % WORD / BLOCK_SIZE
  }

  /** Where the sums wrap around: the rounding alone leaves no block, the header leaves one. */
  lemma BlocksNeededCases(size: Word)
    ensures BlocksNeeded(size) == if size + HEADER <= WORD - BLOCK_SIZE then BlocksFor(size) else if size + HEADER <= WORD then 0 else 1
  {
  }

  function AddressOf(s: nat): nat {
    KERNEL_POOL.base + s * BLOCK_SIZE + HEADER
  }

  /** The header of n blocks at s is written, and the memory behind it zeroed unless it may stay as it is. */
  function AllocatedMemory(mem: seq<nat>, s: nat, n: nat, zero: bool): (r: seq<nat>)
    requires n > 0 && (s + n) * WORDS <= |mem|
    ensures |r| == |mem|
  {
    seq(|mem|, w requires 0 <= w < |mem| =>
      if w == s * WORDS then s else if w == s * WORDS + 1 then n
      else if zero && s * WORDS <= w < (s + n) * WORDS then 0 else mem[w])
  }

  /** Allocate: the new heap and the address returned, or None where the kernel panics. */
  function AllocateSpec(h: Heap, size: Word, zero: bool): Option<(Heap, nat)>
    requires |h.mem| == BLOCKS * WORDS && |h.bits| == BLOCKS
  {
    var n := BlocksNeeded(size);
    if n * BLOCK_SIZE > h.free then None
    else if n == 0 then None  // the count of free blocks never is zero
    else match FirstFit(h.bits, n)
         case None => None
         case Some(s) =>
           Some((Heap(SetRun(h.bits, s, n, true), h.used + n * BLOCK_SIZE, h.free - n * BLOCK_SIZE,
                      AllocatedMemory(h.mem, s, n, zero), h.live[s := n]), AddressOf(s)))
  }

  /** The addresses Free accepts: null, anything outside the pool, and what Allocate returned. */
  predicate Freeable(h: Heap, address: nat) {
    address < HEADER || !KERNEL_POOL.Contains(address - HEADER)
    || exists s | s in h.live :: address == AddressOf(s)
  }

  function BlockOf(address: nat): nat
    requires address >= KERNEL_POOL.base + HEADER
  {
    (address - HEADER - KERNEL_POOL.base) / BLOCK_SIZE
  }

  /** Free: the run described by the header in memory is cleared. */
  function FreeSpec(h: Heap, address: nat): Heap
    requires Valid(h) && Freeable(h, address)
  {
    if address < HEADER || !KERNEL_POOL.Contains(address - HEADER) then h
    else
      HeaderInPlace(h, address);
      var w := BlockOf(address) * WORDS;
      var s, n := h.mem[w], h.mem[w + 1];
      Heap(SetRun(h.bits, s, n, false), if h.used >= n * BLOCK_SIZE then h.used - n * BLOCK_SIZE else 0,
           h.free + n * BLOCK_SIZE, h.mem, Removed(h.live, s))
  }

  lemma HeaderInPlace(h: Heap, address: nat)
    requires Valid(h) && Freeable(h, address) && address >= HEADER && KERNEL_POOL.Contains(address - HEADER)
    ensures var s := BlockOf(address);
            s in h.live && address == AddressOf(s) && h.mem[s * WORDS] == s && h.mem[s * WORDS + 1] == h.live[s]
            && s + h.live[s] <= BLOCKS
  {
    var s :| s in h.live && address == AddressOf(s);
    assert BlockOf(address) == s;
  }

  // ---------------------------------------------------------------- allocation

  /** The guard on total_free never rejects a request that the scan could serve:
      n free blocks in a row are n * 32 free bytes. */
  lemma RunFitsFree(h: Heap, s: nat, n: nat)
    requires Valid(h) && FreeRun(h.bits, s, n)
    ensures n * BLOCK_SIZE <= h.free
  {
    CountSetRun(h.bits, s, n, true);
    assert Count(SetRun(h.bits, s, n, true)) <= BLOCKS;
  }

  /** What Allocate is for: it takes the lowest run of free blocks that holds the request and its header,
      and panics if and only if there is none. */
  ghost predicate IsFirstFit(h: Heap, size: Word, zero: bool)
    requires |h.mem| == BLOCKS * WORDS && |h.bits| == BLOCKS
  {
    var n := BlocksFor(size);
    match AllocateSpec(h, size, zero)
    case None => forall s: nat :: !FreeRun(h.bits, s, n)
    case Some(r) => exists s: nat :: r.1 == AddressOf(s) && FreeRun(h.bits, s, n) && r.0.live == h.live[s := n]
                                     && forall t: nat | t < s :: !FreeRun(h.bits, t, n)
  }

  /** Allocate is exactly first fit unless adding the header wraps around; then it hands out a single block,
      so it is first fit only if there is no free block at all. */
  lemma AllocateIsFirstFit(h: Heap, size: Word, zero: bool)
    requires Valid(h)
    ensures IsFirstFit(h, size, zero) <==> size + HEADER <= WORD || forall k | 0 <= k < BLOCKS :: h.bits[k]
  {
    BlocksNeededCases(size);
    if size + HEADER <= WORD - BLOCK_SIZE {
      FindsFirstFit(h, size, zero);
    } else {
      hide Valid, SetRun, AllocatedMemory;
      NoHugeRun(h, size);
      if size + HEADER > WORD {
        FindsOneBlock(h, size, zero);
      }
    }
  }

  lemma FindsFirstFit(h: Heap, size: Word, zero: bool)
    requires Valid(h) && BlocksNeeded(size) == BlocksFor(size)
    ensures IsFirstFit(h, size, zero)
  {
    var n := BlocksFor(size);
    match FirstFit(h.bits, n)
    case None =>
    case Some(s) =>
      RunFitsFree(h, s, n);
      hide Valid, AllocatedMemory, SetRun, BlocksFor, BlocksNeeded;
      assert AllocateSpec(h, size, zero).Some?;
  }

  lemma NoHugeRun(h: Heap, size: Word)
    requires Valid(h) && size + HEADER > WORD - BLOCK_SIZE
    ensures |h.mem| == BLOCKS * WORDS && |h.bits| == BLOCKS && forall s: nat :: !FreeRun(h.bits, s, BlocksFor(size))
  {
  }

  lemma FindsOneBlock(h: Heap, size: Word, zero: bool)
    requires Valid(h) && BlocksNeeded(size) == 1
    ensures AllocateSpec(h, size, zero).None? <==> forall k | 0 <= k < BLOCKS :: h.bits[k]
  {
    match FirstFit(h.bits, 1)
    case None =>
      forall k | 0 <= k < BLOCKS ensures h.bits[k] {
        assert !FreeRun(h.bits, k, 1);
      }
    case Some(s) =>
      RunFitsFree(h, s, 1);
      assert !h.bits[s];
  }

  /** A request of 2^64 - 7 bytes is given 32 bytes. */
  lemma WrappingRequest(zero: bool)
    ensures AllocateSpec(Initial(), WORD - 7, zero).Some? && AllocateSpec(Initial(), WORD - 7, zero).value.0.live == map[0 := 1]
    ensures BlocksFor(WORD - 7) > BLOCKS && !IsFirstFit(Initial(), WORD - 7, zero)
  {
    InitialIsValid();
    BlocksNeededCases(WORD - 7);
    assert FreeRun(Initial().bits, 0, 1);
    FirstFitIs(Initial().bits, 1, 0);
    AllocateIsFirstFit(Initial(), WORD - 7, zero);
    assert !Initial().bits[0];
  }

  lemma FreeBlocksHaveNoOwner(h: Heap, s: nat, n: nat)
    requires Valid(h) && FreeRun(h.bits, s, n) && n > 0
    ensures forall t: nat, k: nat | s <= k < s + n :: !Owns(h, t, k)
    ensures forall t | t in h.live :: t + h.live[t] <= s || s + n <= t
  {
    forall t: nat, k: nat | s <= k < s + n ensures !Owns(h, t, k) {
      assert Owns(h, t, k) ==> InUse(h, k);
    }
    forall t | t in h.live ensures t + h.live[t] <= s || s + n <= t {
      var k := if t >= s then t else s;
      assert !(s <= k < s + n && Owns(h, t, k));
    }
  }

  /** A run taken from the free blocks is a new live allocation. */
  lemma AllocateKeepsValid(h: Heap, size: Word, zero: bool)
    requires Valid(h) && AllocateSpec(h, size, zero).Some?
    ensures Valid(AllocateSpec(h, size, zero).value.0)
  {
    var n := BlocksNeeded(size);
    var s := FirstFit(h.bits, n).value;
    FreeBlocksHaveNoOwner(h, s, n);
    AddedUnion(h, AllocateSpec(h, size, zero).value.0, s, n);
    AddedHeaders(h, AllocateSpec(h, size, zero).value.0, s, n, zero);
    CountSetRun(h.bits, s, n, true);
    hide Count, InUse, BlocksNeeded, SetRun, FirstFit, FreeRun, AllocatedMemory, HeadersInPlace, Disjoint, BitsAreUnion, Owns;
  }

  /** What the caller is handed.  The new allocation lies in the pool, its address follows the header of 8 bytes, it holds
      the request unless the sums wrapped around, and its memory is zero if that was asked for and otherwise untouched, like
      all memory of other blocks. */
  lemma AllocateHandsOut(h: Heap, size: Word, zero: bool, s: nat, w: nat)
    requires Valid(h) && AllocateSpec(h, size, zero).Some? && w < |h.mem|
    requires s !in h.live && s in AllocateSpec(h, size, zero).value.0.live
    ensures var (r, address) := AllocateSpec(h, size, zero).value;
            var n := r.live[s];
            && |r.mem| == |h.mem| && s + n <= BLOCKS
            && address == KERNEL_POOL.base + 32 * s + 8
            && (size + 8 <= WORD ==> address + size <= KERNEL_POOL.base + 32 * (s + n))
            && (s * 8 + 2 <= w < (s + n) * 8 ==> r.mem[w] == if zero then 0 else h.mem[w])
            && (w < s * 8 || (s + n) * 8 <= w ==> r.mem[w] == h.mem[w])
  {
    hide Disjoint, BitsAreUnion, CountersAgree, HeadersInPlace, FirstFit, BlocksNeeded, SetRun;
    BlocksNeededCases(size);
  }

  lemma AddedHeaders(h: Heap, r: Heap, s: nat, n: nat, zero: bool)
    requires Valid(h) && n > 0 && s + n <= BLOCKS && r.live == h.live[s := n] && |r.bits| == BLOCKS
    requires r.mem == AllocatedMemory(h.mem, s, n, zero)
    requires forall t | t in h.live :: t + h.live[t] <= s || s + n <= t
    ensures LiveInside(r) && HeadersInPlace(r)
  {
    hide Count, InUse, Disjoint, BitsAreUnion;
  }

  lemma AddedUnion(h: Heap, r: Heap, s: nat, n: nat)
    requires Valid(h) && FreeRun(h.bits, s, n) && n > 0 && r.live == h.live[s := n] && r.bits == SetRun(h.bits, s, n, true)
    requires forall t, k | s <= k < s + n :: !Owns(h, t, k)
    requires forall t | t in h.live :: t + h.live[t] <= s || s + n <= t
    ensures Disjoint(r) && BitsAreUnion(r)
  {
    hide Count, FreeRun;
    forall t: nat, k: nat ensures Owns(r, t, k) <==> (if t == s then s <= k < s + n else Owns(h, t, k)) {
    }
    forall k | 0 <= k < BLOCKS ensures r.bits[k] <==> InUse(r, k) {
      if s <= k < s + n {
        assert Owns(r, s, k);
      } else {
        SameOwners(h, r, k);
      }
    }
  }

  lemma SameOwners(h: Heap, r: Heap, k: nat)
    requires forall t: nat :: Owns(r, t, k) <==> Owns(h, t, k)
    ensures InUse(r, k) <==> InUse(h, k)
  {
    if InUse(h, k) {
      var t :| t in h.live && Owns(h, t, k);
      assert Owns(r, t, k);
    }
    if InUse(r, k) {
      var t :| t in r.live && Owns(r, t, k);
      assert Owns(h, t, k);
    }
  }

  // ---------------------------------------------------------------- freeing

  /** The heap after the live allocation at s is freed. */
  function Freed(h: Heap, s: nat): Heap
    requires LiveInside(h) && s in h.live
  {
    var n := h.live[s];
    Heap(SetRun(h.bits, s, n, false), if h.used >= n * BLOCK_SIZE then h.used - n * BLOCK_SIZE else 0,
         h.free + n * BLOCK_SIZE, h.mem, Removed(h.live, s))
  }

  /** Free of an address that Allocate returned removes exactly that allocation; any other address is ignored. */
  lemma FreeRemovesLive(h: Heap, address: nat)
    requires Valid(h) && Freeable(h, address)
    ensures FreeSpec(h, address) ==
            if address < HEADER || !KERNEL_POOL.Contains(address - HEADER) then h else Freed(h, BlockOf(address))
    ensures forall s | s in h.live :: FreeSpec(h, AddressOf(s)) == Freed(h, s)
  {
    forall s | s in h.live ensures Freeable(h, AddressOf(s)) && FreeSpec(h, AddressOf(s)) == Freed(h, s) {
      HeaderInPlace(h, AddressOf(s));
    }
    if address >= HEADER && KERNEL_POOL.Contains(address - HEADER) {
      HeaderInPlace(h, address);
    }
    hide Disjoint, BitsAreUnion, CountersAgree, SetRun;
  }

  lemma OwnedBlocksAreSet(h: Heap, s: nat)
    requires Valid(h) && s in h.live
    ensures forall k | s <= k < s + h.live[s] :: h.bits[k]
    ensures h.used >= h.live[s] * BLOCK_SIZE
  {
    forall k | s <= k < s + h.live[s] ensures h.bits[k] {
      assert Owns(h, s, k);
      assert InUse(h, k);
    }
    CountSetRun(h.bits, s, h.live[s], false);
  }

  lemma FreedKeepsValid(h: Heap, s: nat)
    requires Valid(h) && s in h.live
    ensures Valid(Freed(h, s))
  {
    var r := Freed(h, s);
    OwnedBlocksAreSet(h, s);
    CountSetRun(h.bits, s, h.live[s], false);
    RemovedUnion(h, r, s);
    hide Count, InUse, SetRun;
  }

  lemma RemovedUnion(h: Heap, r: Heap, s: nat)
    requires Valid(h) && s in h.live && r == Freed(h, s)
    ensures Disjoint(r) && BitsAreUnion(r)
  {
    forall t: nat, k: nat ensures Owns(r, t, k) <==> t != s && Owns(h, t, k) {
    }
    forall k | 0 <= k < BLOCKS ensures r.bits[k] <==> InUse(r, k) {
      if s <= k < s + h.live[s] {
        assert Owns(h, s, k);
      } else {
        SameOwners(h, r, k);
      }
    }
  }

  /** Free undoes its Allocate: bitmap, counters and live allocations are as before, and no memory outside the run changed. */
  lemma FreeUndoesAllocate(h: Heap, size: Word, zero: bool)
    requires Valid(h) && AllocateSpec(h, size, zero).Some?
    ensures var (r, address) := AllocateSpec(h, size, zero).value;
            Valid(r) && Freeable(r, address)
            && FreeSpec(r, address) == h.(mem := r.mem)
            && forall w | 0 <= w < |h.mem| && !InRun(address, BlocksNeeded(size), w) :: r.mem[w] == h.mem[w]
  {
    var n := BlocksNeeded(size);
    var s := FirstFit(h.bits, n).value;
    var (r, address) := AllocateSpec(h, size, zero).value;
    AllocateKeepsValid(h, size, zero);
    FreeBlocksHaveNoOwner(h, s, n);
    AllocatedThenFreed(h, s, n, zero);
    assert s in r.live && address == AddressOf(s);
    FreeRemovesLive(r, address);
    hide Valid, BlocksNeeded, FirstFit, Freed, SetRun;
  }

  /** Word w of the pool belongs to the run of n blocks whose address is given. */
  predicate InRun(address: nat, n: nat, w: int) {
    address <= KERNEL_POOL.base + w * 4 + HEADER < address + n * BLOCK_SIZE
  }

  lemma AllocatedThenFreed(h: Heap, s: nat, n: nat, zero: bool)
    requires LiveInside(h) && FreeRun(h.bits, s, n) && n > 0 && s !in h.live
    ensures var r := Heap(SetRun(h.bits, s, n, true), h.used + n * BLOCK_SIZE, h.free - n * BLOCK_SIZE,
                          AllocatedMemory(h.mem, s, n, zero), h.live[s := n]);
            LiveInside(r) && Freed(r, s) == h.(mem := r.mem)
            && forall w | 0 <= w < |h.mem| && !InRun(AddressOf(s), n, w) :: r.mem[w] == h.mem[w]
  {
    var m := SetRun(SetRun(h.bits, s, n, true), s, n, false);
    assert m == h.bits;
    var l := h.live[s := n];
    assert Removed(l, s) == h.live;
  }

  // ---------------------------------------------------------------- runs

  datatype Op =
    | Allocate(size: Word, zero: bool)
    | Release(address: nat)
    | Write(word: nat, value: nat)  // the owner of a live allocation writes to its memory

  /** Word w belongs to the memory handed out for the live allocation at s. */
  predicate Payload(h: Heap, s: nat, w: nat) {
    s in h.live && s * WORDS + 2 <= w < (s + h.live[s]) * WORDS
  }

  predicate Allowed(h: Heap, op: Op)
    requires LiveInside(h)
  {
    match op
    case Allocate(size, zero) => AllocateSpec(h, size, zero).Some?
    case Release(address) => Freeable(h, address)
    case Write(w, _) => exists s | s in h.live :: Payload(h, s, w)
  }

  /** Every operation keeps the invariant. */
  function Step(h: Heap, op: Op): (r: Heap)
    requires Valid(h) && Allowed(h, op)
    ensures Valid(r)
  {
    StepKeepsValid(h, op);
    StepRaw(h, op)
  }

  function StepRaw(h: Heap, op: Op): Heap
    requires Valid(h) && Allowed(h, op)
  {
    match op
    case Allocate(size, zero) => AllocateSpec(h, size, zero).value.0
    case Release(address) => FreeSpec(h, address)
    case Write(w, value) => WordInside(h, w); h.(mem := h.mem[w := value])
  }

  lemma WordInside(h: Heap, w: nat)
    requires Valid(h) && exists s | s in h.live :: Payload(h, s, w)
    ensures w < |h.mem|
  {
  }

  lemma StepKeepsValid(h: Heap, op: Op)
    requires Valid(h) && Allowed(h, op)
    ensures Valid(StepRaw(h, op))
  {
    match op
    case Allocate(size, zero) => AllocateKeepsValid(h, size, zero);
    case Release(address) =>
      FreeRemovesLive(h, address);
      if address >= HEADER && KERNEL_POOL.Contains(address - HEADER) {
        HeaderInPlace(h, address);
        FreedKeepsValid(h, BlockOf(address));
      }
    case Write(w, value) =>
      WordInside(h, w);
      WriteKeepsValid(h, w, value);
  }

  /** Memory handed out never overlaps a header. */
  lemma WriteKeepsValid(h: Heap, w: nat, value: nat)
    requires Valid(h) && w < |h.mem| && exists s | s in h.live :: Payload(h, s, w)
    ensures Valid(h.(mem := h.mem[w := value]))
  {
    var s :| s in h.live && Payload(h, s, w);
    var r := h.(mem := h.mem[w := value]);
    assert forall t, k :: Owns(r, t, k) == Owns(h, t, k);
    forall k | 0 <= k < BLOCKS ensures r.bits[k] <==> InUse(r, k) {
      assert InUse(r, k) == InUse(h, k);
    }
    forall t | t in r.live ensures r.mem[t * WORDS] == t && r.mem[t * WORDS + 1] == r.live[t] {
      assert Owns(h, t, t);
      assert Owns(h, s, t) ==> s == t;
    }
    hide Count, InUse;
  }

  predicate Possible(h: Heap, ops: seq<Op>)
    requires Valid(h)
    decreases |ops|
  {
    ops == [] || (Allowed(h, ops[0]) && Possible(Step(h, ops[0]), ops[1..]))
  }

  function Run(h: Heap, ops: seq<Op>): (r: Heap)
    requires Valid(h) && Possible(h, ops)
    ensures Valid(r)
    decreases |ops|
  {
    if ops == [] then h else Run(Step(h, ops[0]), ops[1..])
  }

  /** An allocation survives every operation but its own release, and only writes of its owner change its memory. */
  lemma StepKeepsAllocation(h: Heap, op: Op, s: nat)
    requires Valid(h) && Allowed(h, op) && s in h.live && op != Release(AddressOf(s))
    ensures s in Step(h, op).live && Step(h, op).live[s] == h.live[s]
    ensures forall w: nat | Payload(h, s, w) && !(op.Write? && op.word == w) :: w < |h.mem| && Step(h, op).mem[w] == h.mem[w]
  {
    hide Disjoint, BitsAreUnion, CountersAgree, HeadersInPlace, FirstFit, BlocksNeeded;
    match op
    case Allocate(size, zero) => AllocateKeepsOthers(h, size, zero, s);
    case Release(address) =>
      FreeRemovesLive(h, address);
      if address >= HEADER && KERNEL_POOL.Contains(address - HEADER) {
        HeaderInPlace(h, address);
      }
    case Write(w, value) => WordInside(h, w);
  }

  lemma AllocateKeepsOthers(h: Heap, size: Word, zero: bool, s: nat)
    requires Valid(h) && AllocateSpec(h, size, zero).Some? && s in h.live
    ensures var r := AllocateSpec(h, size, zero).value.0;
            s in r.live && r.live[s] == h.live[s] && |r.mem| == |h.mem| && s + h.live[s] <= BLOCKS
            && forall w: nat | Payload(h, s, w) :: w < |h.mem| && r.mem[w] == h.mem[w]
  {
    var n := BlocksNeeded(size);
    FreeBlocksHaveNoOwner(h, FirstFit(h.bits, n).value, n);
    hide Disjoint, BitsAreUnion, CountersAgree, HeadersInPlace, FirstFit, BlocksNeeded;
  }

  lemma {:induction false} RunKeepsAllocation(h: Heap, ops: seq<Op>, s: nat)
    requires Valid(h) && Possible(h, ops) && s in h.live && Release(AddressOf(s)) !in ops
    ensures s in Run(h, ops).live && Run(h, ops).live[s] == h.live[s]
    decreases |ops|
  {
    hide Valid, Step, Allowed;
    if ops != [] {
      StepKeepsAllocation(h, ops[0], s);
      RunKeepsAllocation(Step(h, ops[0]), ops[1..], s);
    }
  }

  /** Whatever happened since its allocation, releasing an allocation clears exactly the blocks it was given:
      they were all set, they become clear, every other block, the other allocations and all memory stay as they are,
      and the counters move by its size. */
  lemma FreeAfterRun(h: Heap, size: Word, zero: bool, ops: seq<Op>)
    requires Valid(h) && AllocateSpec(h, size, zero).Some?
    requires Valid(AllocateSpec(h, size, zero).value.0) && Possible(AllocateSpec(h, size, zero).value.0, ops)
    requires Release(AllocateSpec(h, size, zero).value.1) !in ops
    ensures var (a, address) := AllocateSpec(h, size, zero).value;
            var r, s, n := Run(a, ops), FirstFit(h.bits, BlocksNeeded(size)).value, BlocksNeeded(size);
            && s + n <= BLOCKS && (forall k | s <= k < s + n :: !h.bits[k] && r.bits[k])
            && Freeable(r, address)
            && var f := FreeSpec(r, address);
               && f.bits == SetRun(r.bits, s, n, false) && f.live == Removed(r.live, s) && f.mem == r.mem
               && f.used + n * BLOCK_SIZE == r.used && f.free == r.free + n * BLOCK_SIZE
  {
    var (a, address) := AllocateSpec(h, size, zero).value;
    var s: nat, n: nat := FirstFit(h.bits, BlocksNeeded(size)).value, BlocksNeeded(size);
    assert s in a.live && a.live[s] == n && address == AddressOf(s) && s + n <= BLOCKS;
    hide AllocateSpec, BlocksNeeded, Valid, Allowed, SetRun;
    RunKeepsAllocation(a, ops, s);
    var r := Run(a, ops);
    FreedAfter(r, s);
  }

  lemma FreedAfter(r: Heap, s: nat)
    requires Valid(r) && s in r.live
    ensures Freeable(r, AddressOf(s)) && FreeSpec(r, AddressOf(s)) == Freed(r, s)
    ensures LiveInside(r) && (forall k | s <= k < s + r.live[s] :: r.bits[k]) && Freed(r, s).used + r.live[s] * BLOCK_SIZE == r.used
  {
    FreeRemovesLive(r, AddressOf(s));
    OwnedBlocksAreSet(r, s);
    hide Disjoint, BitsAreUnion, CountersAgree, HeadersInPlace, SetRun;
  }
}
