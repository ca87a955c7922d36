/** Threads and heap together (kernel/core/thread.cc:48-180): the operations in place, tied to the functions of ThreadLife. */
module KernelThreads {
  import opened Arithmetic
  import opened HeapManager
  import opened Maps
  import opened Options
  import opened Threads
  import opened VirtualAddress
  import H = HeapModel
  import L = ThreadLife
  import S = Scheduler

  /** The heap block of an address that Allocate returned. */
  function BlockAt(address: nat): nat {
    if address >= KERNEL_POOL.base + H.HEADER then H.BlockOf(address) else 0
  }

  function Blocks(addresses: map<nat, nat>): (r: map<nat, nat>)
    ensures r.Keys == addresses.Keys && forall t | t in r :: r[t] == BlockAt(addresses[t])
  {
    map t | t in addresses :: BlockAt(addresses[t])
  }

  /** Every address was returned by Allocate. */
  ghost predicate FromHeap(addresses: map<nat, nat>) {
    forall t | t in addresses :: addresses[t] == H.AddressOf(BlockAt(addresses[t]))
  }

  lemma BlockAtAddress(b: nat)
    ensures BlockAt(H.AddressOf(b)) == b
  {
  }

  lemma AddressAdded(addresses: map<nat, nat>, id: nat, b: nat)
    requires FromHeap(addresses)
    ensures FromHeap(addresses[id := H.AddressOf(b)]) && Blocks(addresses[id := H.AddressOf(b)]) == Blocks(addresses)[id := b]
  {
    BlockAtAddress(b);
  }

  lemma AddressRemoved(addresses: map<nat, nat>, id: nat)
    requires FromHeap(addresses)
    ensures FromHeap(Removed(addresses, id)) && Blocks(Removed(addresses, id)) == Removed(Blocks(addresses), id)
  {
  }

  class Kernel {
    const core: KernelCore
    const heap: Allocator
    const size: nat             // sizeof(Thread)
    var objects: map<nat, nat>  // the address of each thread object, by thread id
    var stacks: map<nat, nat>   // kernel_stack_base, of every thread but the idle one

    constructor (core: KernelCore, heap: Allocator, size: nat, address: nat)
      ensures this.core == core && this.heap == heap && this.size == size && objects == map[0 := address] && stacks == map[]
    {
      this.core, this.heap, this.size := core, heap, size;
      objects, stacks := map[0 := address], map[];
    }

    /** Both parts are in order and share no memory. */
    ghost predicate Parts()
      reads core, core.list, core.list.entries, core.live.Values, core.ids.data, heap, heap.blocks.data, heap.mem
    {
      core.Valid() && heap.Valid() && core.ids.data != heap.blocks.data && core.ids.data != heap.mem
    }

    ghost function State(): L.Kernel
      reads this, core, core.list, core.live.Values, heap, heap.blocks.data, heap.mem
    {
      L.Kernel(core.Abs(), heap.State(), Blocks(objects), Blocks(stacks), size)
    }

    ghost predicate Valid()
      reads this, core, core.list, core.list.entries, core.live.Values, core.ids.data, heap, heap.blocks.data, heap.mem
    {
      Parts() && L.Valid(State()) && FromHeap(objects) && FromHeap(stacks)
    }

    // -------------------------------------------------------------- one part at a time

    method AllocateBytes(bytes: nat) returns (address: Option<nat>)
      requires Parts() && bytes + H.HEADER <= WORD
      modifies heap, heap.blocks.data, heap.mem
      ensures Parts() && unchanged(this) && core.Abs() == old(core.Abs())
      ensures match L.AllocateBlock(old(heap.State()), bytes)
              case None => address == None
              case Some(r) => address.Some? && address.value == H.AddressOf(r.1) && BlockAt(address.value) == r.1 && heap.State() == r.0
    {
      hide KernelCore.Valid, KernelCore.Abs, Allocator.Valid, Allocator.State, H.Valid, H.AllocateSpec, H.AddressOf;
      HeapParts();
      L.AllocatesNewBlock(heap.State(), bytes);
      AllocatesBlock(heap.State(), bytes);
      address := heap.Allocate(bytes, true);
    }

    lemma HeapParts()
      requires heap.Valid()
      ensures H.Valid(heap.State()) && |heap.State().mem| == H.BLOCKS * H.WORDS && |heap.State().bits| == H.BLOCKS
    {
    }

    static lemma AllocatesBlock(h: H.Heap, bytes: nat)
      requires H.Valid(h) && bytes + H.HEADER <= WORD
      ensures L.AllocateBlock(h, bytes) == match H.AllocateSpec(h, bytes, true)
                                           case None => None
                                           case Some(r) => Some((r.0, BlockAt(r.1)))
      ensures H.AllocateSpec(h, bytes, true).Some? ==>
                var address := H.AllocateSpec(h, bytes, true).value.1;
                H.AddressOf(BlockAt(address)) == address
    {
      L.AllocatesNewBlock(h, bytes);
      if H.AllocateSpec(h, bytes, true).Some? {
        var s: nat :| H.AllocateSpec(h, bytes, true).value.1 == H.AddressOf(s);
        BlockAtAddress(s);
      }
      hide H.Valid, H.AllocateSpec;
    }

    method FreeBytes(address: nat)
      requires Parts() && BlockAt(address) in heap.State().live && address == H.AddressOf(BlockAt(address))
      modifies heap, heap.blocks.data
      ensures Parts() && unchanged(this) && core.Abs() == old(core.Abs())
      ensures BlockAt(address) in old(heap.State()).live && H.Valid(old(heap.State()))
      ensures heap.State() == L.FreeBlock(old(heap.State()), BlockAt(address))
    {
      HeapParts();
      L.FreesBlock(heap.State(), BlockAt(address));
      hide KernelCore.Valid, KernelCore.Abs, Allocator.Valid, H.Valid, H.FreeSpec, H.AddressOf, BlockAt;
      heap.Free(address);
    }

    method AddThread(context: nat) returns (thread: Thread?)
      requires Parts()
      modifies core, core.list, core.list.entries, core.ids.data
      ensures Parts() && unchanged(this) && heap.State() == old(heap.State())
      ensures match S.CreateSpec(old(core.Abs()), context)
              case None => thread == null
              case Some(c) => thread != null && S.LowestFreeId(old(core.Abs()).threads, 0) == Some(thread.id) && core.Abs() == c
    {
      hide KernelCore.Valid, KernelCore.Abs, Allocator.Valid, Allocator.State, S.CreateSpec, S.Next, S.LowestFreeId, S.Valid;
      CoreParts();
      S.CreateCases(core.Abs(), context);
      thread := core.CreateThread(context);
    }

    lemma Apart()
      ensures Parts() <==> core.Valid() && heap.Valid() && core.ids.data != heap.blocks.data && core.ids.data != heap.mem
    {
      hide KernelCore.Valid, Allocator.Valid;
    }

    lemma CoreParts()
      requires core.Valid()
      ensures S.Valid(core.Abs()) && core.Abs().current == core.current.id && core.Abs().idle == core.idle.id
      ensures core.current == core.idle <==> core.current.id == core.idle.id
    {
    }

    method DropCurrent()
      requires Parts() && core.current != core.idle
      modifies core, core.list, core.list.entries, core.live.Values, core.ids.data
      ensures Parts() && unchanged(this) && heap.State() == old(heap.State())
      ensures S.Valid(old(core.Abs())) && old(core.Abs()).current != old(core.Abs()).idle
      ensures core.Abs() == S.ExitSpec(old(core.Abs()))
    {
      hide *;
      Apart();
      CoreParts();
      S.NextCases(core.Abs(), 0);
      core.ExitThread();
      Apart();
    }

    lemma Assembled()
      ensures State() == L.Kernel(core.Abs(), heap.State(), Blocks(objects), Blocks(stacks), size)
      ensures Valid() <==> Parts() && L.Valid(State()) && FromHeap(objects) && FromHeap(stacks)
    {
      hide KernelCore.Abs, Allocator.State, L.Valid, FromHeap, Parts, Blocks;
    }

    // -------------------------------------------------------------- the operations

    /** StartScheduler: the idle thread gets an object but no stack; null where the kernel panics. */
    static method StartScheduler(heap: Allocator, size: nat, context: nat) returns (k: Kernel?)
      requires heap.Valid() && size + H.HEADER <= WORD
      modifies heap, heap.blocks.data, heap.mem
      ensures H.Valid(old(heap.State()))
      ensures match L.Start(old(heap.State()), size, context)
              case None => k == null
              case Some(s) => k != null && fresh(k) && k.heap == heap && k.Valid() && k.State() == s
    {
      assert size < WORD;
      hide *;
      ghost var h := heap.State();
      HeapIsValid(heap);
      AllocatesBlock(h, size);
      StartCases(h, size, context);
      var address := heap.Allocate(size, true);
      if address.None? {
        return null;
      }
      k := NewKernel(heap, size, context, address.value);
      k.Assembled();
    }

    static lemma HeapIsValid(heap: Allocator)
      requires heap.Valid()
      ensures H.Valid(heap.State()) && |heap.State().mem| == H.BLOCKS * H.WORDS && |heap.State().bits| == H.BLOCKS
    {
    }

    static lemma StartCases(h: H.Heap, size: nat, context: nat)
      requires H.Valid(h) && size + H.HEADER <= WORD
      ensures match L.AllocateBlock(h, size)
              case None => L.Start(h, size, context) == None
              case Some(r) =>
                var s := L.Kernel(S.Core([], map[0 := S.Thread(S.Ready, 0, context)], 0, 0, 0, false, 0), r.0, map[0 := r.1], map[], size);
                L.Start(h, size, context) == Some(s) && L.Valid(s)
    {
      if L.Start(h, size, context).Some? {
        L.StartIsValid(h, size, context);
      }
      hide L.Valid, H.Valid;
    }

    static method NewKernel(heap: Allocator, size: nat, context: nat, address: nat) returns (k: Kernel)
      requires heap.Valid() && address == H.AddressOf(BlockAt(address))
      ensures fresh(k) && k.heap == heap && k.size == size && k.Parts() && heap.State() == old(heap.State())
      ensures k.core.Abs() == S.Core([], map[0 := S.Thread(S.Ready, 0, context)], 0, 0, 0, false, 0)
      ensures FromHeap(k.objects) && FromHeap(k.stacks) && Blocks(k.objects) == map[0 := BlockAt(address)] && Blocks(k.stacks) == map[]
    {
      hide KernelCore.Valid, KernelCore.Abs, Allocator.Valid, Allocator.State, H.AddressOf, BlockAt;
      var core := new KernelCore(context);
      k := new Kernel(core, heap, size, address);
    }

    /** L.Create, allocation by allocation. */
    static lemma CreateCases(k: L.Kernel, context: nat)
      requires L.Valid(k)
      ensures H.Valid(k.heap) && k.size + H.HEADER <= WORD && PAGE_SIZE + H.HEADER <= WORD
      ensures match L.AllocateBlock(k.heap, PAGE_SIZE)
              case None => L.Create(k, context) == None
              case Some(stack) =>
                H.Valid(stack.0)
                && match L.AllocateBlock(stack.0, k.size)
                   case None => L.Create(k, context) == None
                   case Some(record) =>
                     match S.CreateSpec(k.core, context)
                     case None => L.Create(k, context) == None
                     case Some(c) =>
                       S.LowestFreeId(k.core.threads, 0).Some?
                       && var id := S.LowestFreeId(k.core.threads, 0).value;
                          var r := L.Kernel(c, record.0, k.objects[id := record.1], k.stacks[id := stack.1], k.size);
                          L.Create(k, context) == Some(r) && L.Valid(r)
    {
      if L.Create(k, context).Some? {
        L.CreateKeepsValid(k, context);
      }
      hide L.Valid, S.LowestFreeId, H.FreeRun;
    }

    /** CreateThread: a stack, an object, an id, and a place on the ring; null where the kernel panics. */
    method CreateThread(context: nat) returns (thread: Thread?)
      requires Valid()
      modifies this, heap, heap.blocks.data, heap.mem, core, core.list, core.list.entries, core.ids.data
      ensures match L.Create(old(State()), context)
              case None => thread == null
              case Some(k) => thread != null && Valid() && State() == k
    {
      hide *;
      Assembled();
      CreateCases(State(), context);
      var stack := AllocateBytes(PAGE_SIZE);
      if stack.None? {
        return null;
      }
      var address := AllocateBytes(size);
      if address.None? {
        return null;
      }
      thread := AddThread(context);
      if thread == null {
        return null;
      }
      Remember(thread.id, stack.value, address.value);
      Assembled();
    }

    method Remember(id: nat, stack: nat, address: nat)
      requires stack == H.AddressOf(BlockAt(stack)) && address == H.AddressOf(BlockAt(address))
      requires FromHeap(objects) && FromHeap(stacks)
      modifies this
      ensures FromHeap(objects) && FromHeap(stacks)
      ensures Blocks(objects) == old(Blocks(objects))[id := BlockAt(address)] && Blocks(stacks) == old(Blocks(stacks))[id := BlockAt(stack)]
    {
      hide FromHeap, Blocks, H.AddressOf, BlockAt;
      AddressAdded(objects, id, BlockAt(address));
      AddressAdded(stacks, id, BlockAt(stack));
      objects := objects[id := address];
      stacks := stacks[id := stack];
    }

    method Forget(id: nat)
      requires FromHeap(objects) && FromHeap(stacks)
      modifies this
      ensures FromHeap(objects) && FromHeap(stacks)
      ensures Blocks(objects) == Removed(old(Blocks(objects)), id) && Blocks(stacks) == Removed(old(Blocks(stacks)), id)
    {
      hide FromHeap, Blocks, Removed;
      AddressRemoved(objects, id);
      AddressRemoved(stacks, id);
      objects := Removed(objects, id);
      stacks := Removed(stacks, id);
    }

    /** L.Exit, one part at a time. */
    static lemma ExitCases(k: L.Kernel)
      requires L.Valid(k) && k.core.current != k.core.idle
      ensures var t := k.core.current;
              && t in k.stacks && t in k.objects && H.Valid(k.heap) && S.Valid(k.core)
              && k.stacks[t] in k.heap.live
              && k.objects[t] in L.FreeBlock(k.heap, k.stacks[t]).live && H.Valid(L.FreeBlock(k.heap, k.stacks[t]))
              && L.Exit(k) == L.Kernel(S.ExitSpec(k.core), L.FreeBlock(L.FreeBlock(k.heap, k.stacks[t]), k.objects[t]),
                                       Removed(k.objects, t), Removed(k.stacks, t), k.size)
              && L.Valid(L.Exit(k))
    {
      L.CurrentOwns(k);
      L.ExitKeepsValid(k);
      hide H.Valid, S.Valid, L.Owned;
    }

    /** The address kept for a thread, as a block. */
    lemma KeptAddress(t: nat)
      requires FromHeap(objects) && FromHeap(stacks) && t in Blocks(objects) && t in Blocks(stacks)
      ensures t in objects && t in stacks
      ensures BlockAt(objects[t]) == Blocks(objects)[t] && objects[t] == H.AddressOf(BlockAt(objects[t]))
      ensures BlockAt(stacks[t]) == Blocks(stacks)[t] && stacks[t] == H.AddressOf(BlockAt(stacks[t]))
    {
    }

    lemma CurrentNotIdle()
      requires Parts() && core.current != core.idle
      ensures core.Abs().current == core.current.id && core.Abs().current != core.Abs().idle
    {
      CoreParts();
    }

    /** ExitThread: the thread is dropped, its stack is freed, then its object. */
    method ExitThread()
      requires Valid() && core.current != core.idle
      modifies this, heap, heap.blocks.data, core, core.list, core.list.entries, core.live.Values, core.ids.data
      ensures L.Valid(old(State())) && old(State()).core.current != old(State()).core.idle
      ensures Valid() && State() == L.Exit(old(State()))
    {
      hide *;
      Assembled();
      CurrentNotIdle();
      ExitCases(State());
      var id := core.current.id;
      KeptAddress(id);
      DropCurrent();
      FreeBytes(stacks[id]);
      FreeBytes(objects[id]);
      Forget(id);
      Assembled();
    }
  }
}
