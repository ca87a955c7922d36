/** The allocator object of kernel/core/alloc.cc, updated in place and tied to the functions of HeapModel. */
module HeapManager {
  import opened Arithmetic
  import opened Maps
  import opened Options
  import opened VirtualAddress
  import opened Bitmap
  import opened HeapModel

  /** Where the scan stands before block pos: the `free` blocks right before pos are free, no longer run ends there,
      and no run of n free blocks has been passed. */
  ghost predicate Scanned(bits: seq<bool>, n: nat, pos: nat, free: nat, first: nat) {
    && pos <= |bits| && free <= pos && free < n
    && (free > 0 ==> first == pos - free)
    && (forall k | pos - free <= k < pos :: !bits[k])
    && (pos - free > 0 ==> bits[pos - free - 1])
    && (forall t: nat | t + n <= pos :: !FreeRun(bits, t, n))
  }

  lemma ScanBegins(bits: seq<bool>, n: nat)
    requires n >= 1
    ensures Scanned(bits, n, 0, 0, 0)
  {
  }

  lemma ScanUsed(bits: seq<bool>, n: nat, pos: nat, free: nat, first: nat, count: nat)
    requires Scanned(bits, n, pos, free, first) && pos + count <= |bits| && count > 0 && forall k | pos <= k < pos + count :: bits[k]
    ensures Scanned(bits, n, pos + count, 0, first)
  {
    forall t: nat | t + n <= pos + count ensures !FreeRun(bits, t, n) {
      if t + n > pos {
        assert bits[if t >= pos then t else pos];
      }
    }
  }

  lemma ScanFree(bits: seq<bool>, n: nat, pos: nat, free: nat, first: nat)
    requires Scanned(bits, n, pos, free, first) && pos < |bits| && !bits[pos]
    ensures free + 1 < n ==> Scanned(bits, n, pos + 1, free + 1, if free == 0 then pos else first)
    ensures free + 1 == n ==> FirstFit(bits, n) == Some(pos - free)
  {
    if free + 1 < n {
      forall t: nat | t + n <= pos + 1 ensures !FreeRun(bits, t, n) {
        if t + n > pos {
          assert t <= pos - free - 1 < t + n;
        }
      }
    } else {
      assert FreeRun(bits, pos - free, n);
      FirstFitIs(bits, n, pos - free);
    }
  }

  lemma ScanEnded(bits: seq<bool>, n: nat, free: nat, first: nat)
    requires Scanned(bits, n, |bits|, free, first)
    ensures FirstFit(bits, n) == None
  {
  }

  lemma FreeKeepsValid(h: Heap, address: nat)
    requires HeapModel.Valid(h) && Freeable(h, address)
    ensures HeapModel.Valid(FreeSpec(h, address))
  {
    hide HeapModel.Valid, LiveInside;
    HeapIsSized(h);
    StepKeepsValid(h, Release(address));
  }

  lemma HeapIsSized(h: Heap)
    requires HeapModel.Valid(h)
    ensures LiveInside(h)
  {
  }

  class Allocator {
    const blocks: ConstBitmap
    const mem: array<nat>
    var totalUsed: nat
    var totalFree: int
    ghost var live: map<nat, nat>

    ghost function State(): Heap
      reads this, blocks.data, mem
    {
      Heap(blocks.Bits(), totalUsed, totalFree, mem[..], live)
    }

    ghost predicate Shape()
      reads this, blocks.data, mem
    {
      blocks.Valid() && blocks.data.Length * BITS == BLOCKS && mem.Length == BLOCKS * WORDS && blocks.data != mem
    }

    ghost predicate Valid()
      reads this, blocks.data, mem
    {
      Shape() && HeapModel.Valid(State())
    }

    /** The allocator after InitializeAllocator, on zeroed storage. */
    constructor ()
      ensures Valid() && State() == Initial() && fresh(blocks.data) && fresh(mem)
    {
      blocks := new ConstBitmap(BLOCKS / BITS);
      mem := new nat[BLOCKS * WORDS](_ => 0);
      totalUsed, totalFree := 0, POOL_SIZE;
      live := map[];
      new;
      assert mem[..] == Initial().mem;
      assert blocks.Bits() == Initial().bits;
      InitialIsValid();
    }

    /** Sets or clears the blocks of one allocation. */
    method SetAllocationState(offset: nat, count: nat, allocating: bool)
      requires Shape() && offset + count <= BLOCKS
      modifies blocks.data
      ensures Shape() && blocks.Bits() == SetRun(old(blocks.Bits()), offset, count, allocating)
    {
      ghost var bits := blocks.Bits();
      for i := offset to offset + count
        invariant Shape() && forall k | 0 <= k < BLOCKS :: blocks.Bits()[k] == if offset <= k < i then allocating else bits[k]
      {
        if allocating {
          blocks.SetBit(i);
        } else {
          blocks.ClearBit(i);
        }
      }
    }

    /** Writes the header of n blocks at s and clears the memory behind it. */
    method InitMemory(s: nat, n: nat, zero: bool)
      requires mem.Length == BLOCKS * WORDS && s + n <= BLOCKS && n > 0
      modifies mem
      ensures mem[..] == AllocatedMemory(old(mem[..]), s, n, zero)
    {
      ghost var before := mem[..];
      mem[s * WORDS], mem[s * WORDS + 1] := s, n;
      if zero {
        for w := s * WORDS + 2 to (s + n) * WORDS
          invariant mem[s * WORDS] == s && mem[s * WORDS + 1] == n
          invariant forall k | 0 <= k < mem.Length && k != s * WORDS && k != s * WORDS + 1 ::
                      mem[k] == if s * WORDS + 2 <= k < w then 0 else before[k]
        {
          mem[w] := 0;
        }
      }
      assert mem[..] == AllocatedMemory(before, s, n, zero);
    }

    /** The bits of one word that is not full; stops at the end of a run of n free blocks. */
    method ScanWord(i: nat, n: nat, free0: nat, first0: nat) returns (found: bool, free: nat, first: nat)
      requires Shape() && i < blocks.data.Length && (n > 0 ==> Scanned(blocks.Bits(), n, i * BITS, free0, first0))
      ensures found ==> n > 0 && FirstFit(blocks.Bits(), n) == Some(first)
      ensures !found && n > 0 ==> Scanned(blocks.Bits(), n, (i + 1) * BITS, free, first)
    {
      ghost var bits := blocks.Bits();
      hide FirstFit, FreeRun, Scanned, BitsOf, Bit;
      free, first := free0, first0;
      for j := 0 to BITS
        invariant n > 0 ==> Scanned(bits, n, i * BITS + j, free, first)
      {
        var block := i * BITS + j;
        if !blocks.HasBit(block) {
          if n > 0 {
            ScanFree(bits, n, block, free, first);
          }
          if free == 0 {
            first := block;
          }
          free := free + 1;
          if free == n {
            return true, free, first;
          }
        } else {
          if n > 0 {
            ScanUsed(bits, n, block, free, first, 1);
          }
          free := 0;
        }
      }
      found := false;
    }

    /** The scan of Allocate: word by word, skipping full words, bit by bit inside the others.  It never finds a run of no block. */
    method FindBlocks(n: nat) returns (found: Option<nat>)
      requires Shape()
      ensures found == if n == 0 then None else FirstFit(blocks.Bits(), n)
    {
      if n > 0 {
        ScanBegins(blocks.Bits(), n);
      }
      hide FirstFit, Scanned, BitsOf;
      var free: nat, first: nat := 0, 0;
      for i := 0 to blocks.data.Length
        invariant n > 0 ==> Scanned(blocks.Bits(), n, i * BITS, free, first)
      {
        blocks.FullWord(i);
        if blocks.data[i] == ALL_ONES {
          if n > 0 {
            ScanUsed(blocks.Bits(), n, i * BITS, free, first, BITS);
          }
          free := 0;
        } else {
          var done;
          done, free, first := ScanWord(i, n, free, first);
          if done {
            return Some(first);
          }
        }
      }
      if n > 0 {
        ScanEnded(blocks.Bits(), n, free, first);
      }
      return None;
    }

    /** None where the kernel panics. */
    method Allocate(size: Word, zero: bool) returns (address: Option<nat>)
      requires Valid()
      modifies this, blocks.data, mem
      ensures Valid()
      ensures match AllocateSpec(old(State()), size, zero)
              case None => address == None && State() == old(State())
              case Some(r) => address == Some(r.1) && State() == r.0
    {
      hide HeapModel.Valid, FirstFit, BlocksNeeded, SetRun, AllocatedMemory, BitsOf;
      ghost var h := State();
      var n := BlocksNeeded(size);
      if AllocateSpec(h, size, zero).Some? {
        AllocateKeepsValid(h, size, zero);
      }
      if n * BLOCK_SIZE > totalFree {
        return None;
      }
      var found := FindBlocks(n);
      if found.None? {
        return None;
      }
      TakeBlocks(found.value, n, zero);
      return Some(AddressOf(found.value));
    }

    /** The successful end of Allocate: header, memory, bitmap and counters. */
    method TakeBlocks(s: nat, n: nat, zero: bool)
      requires Shape() && s + n <= BLOCKS && n > 0
      modifies this, blocks.data, mem
      ensures Shape()
      ensures State() == Heap(SetRun(old(blocks.Bits()), s, n, true), old(totalUsed) + n * BLOCK_SIZE,
                              old(totalFree) - n * BLOCK_SIZE, AllocatedMemory(old(mem[..]), s, n, zero), old(live)[s := n])
    {
      hide SetRun, AllocatedMemory, BitsOf;
      InitMemory(s, n, zero);
      SetAllocationState(s, n, true);
      totalUsed := totalUsed + n * BLOCK_SIZE;
      totalFree := totalFree - n * BLOCK_SIZE;
      live := live[s := n];
    }

    method Free(address: nat)
      requires Valid() && Freeable(State(), address)
      modifies this, blocks.data
      ensures Valid() && State() == FreeSpec(old(State()), address)
    {
      hide HeapModel.Valid, SetRun, BitsOf, LiveInside, Freeable;
      ghost var h := State();
      FreeKeepsValid(h, address);
      if address < HEADER || !KERNEL_POOL.Contains(address - HEADER) {
        return;
      }
      HeaderInPlace(h, address);
      var w := BlockOf(address) * WORDS;
      var offset, count := mem[w], mem[w + 1];
      OwnedBlocksAreSet(h, offset);
      SetAllocationState(offset, count, false);
      totalUsed := totalUsed - count * BLOCK_SIZE;
      totalFree := totalFree + count * BLOCK_SIZE;
      live := Removed(live, offset);
    }
  }
}
