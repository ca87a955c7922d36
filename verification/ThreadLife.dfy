/** The life of a thread across the scheduler and the heap (kernel/core/thread.cc:48-180): creating a thread allocates
    its kernel stack and its thread object, exiting frees both. */
module ThreadLife {
  import opened Arithmetic
  import opened Maps
  import opened Options
  import opened VirtualAddress
  import S = Scheduler
  import H = HeapModel

  type Tid = S.Tid

  /** objects, stacks: the heap block at which the thread object and the kernel stack of a live thread start.
      The idle thread runs on the boot stack, which is not on the heap.  size: sizeof(Thread). */
  datatype Kernel = Kernel(core: S.Core, heap: H.Heap, objects: map<Tid, nat>, stacks: map<Tid, nat>, size: nat)

  // ---------------------------------------------------------------- allocations by block

  /** Allocate, returning the block of the new allocation. */
  function AllocateBlock(h: H.Heap, size: nat): (r: Option<(H.Heap, nat)>)
    requires H.Valid(h) && size + H.HEADER <= WORD
    ensures r.Some? ==> H.Valid(r.value.0) && r.value.1 !in h.live && r.value.0.live == h.live[r.value.1 := H.BlocksFor(size)]
    ensures r.None? <==> forall s: nat :: !H.FreeRun(h.bits, s, H.BlocksFor(size))
  {
    AllocatesNewBlock(h, size);
    match H.AllocateSpec(h, size, true)
    case None => None
    case Some(r) => Some((r.0, H.BlockOf(r.1)))
  }

  lemma AllocatesNewBlock(h: H.Heap, size: nat)
    requires H.Valid(h) && size + H.HEADER <= WORD
    ensures match H.AllocateSpec(h, size, true)
            case None => forall s: nat :: !H.FreeRun(h.bits, s, H.BlocksFor(size))
            case Some(r) => H.Valid(r.0) && exists s: nat ::
                              r.1 == H.AddressOf(s) && s !in h.live && H.FreeRun(h.bits, s, H.BlocksFor(size))
                              && r.0.live == h.live[s := H.BlocksFor(size)]
  {
    H.AllocateIsFirstFit(h, size, true);
    if H.AllocateSpec(h, size, true).Some? {
      H.AllocateKeepsValid(h, size, true);
      var r := H.AllocateSpec(h, size, true).value;
      var s: nat :| r.1 == H.AddressOf(s) && H.FreeRun(h.bits, s, H.BlocksFor(size)) && r.0.live == h.live[s := H.BlocksFor(size)];
      H.FreeBlocksHaveNoOwner(h, s, H.BlocksFor(size));
      hide H.Valid, H.AllocateSpec;
    }
  }

  /** Free of the address that Allocate returned for block b. */
  function FreeBlock(h: H.Heap, b: nat): (r: H.Heap)
    requires H.Valid(h) && b in h.live
    ensures H.Valid(r) && r.live == Removed(h.live, b)
  {
    FreesBlock(h, b);
    H.FreeSpec(h, H.AddressOf(b))
  }

  lemma FreesBlock(h: H.Heap, b: nat)
    requires H.Valid(h) && b in h.live
    ensures H.Freeable(h, H.AddressOf(b)) && H.Valid(H.FreeSpec(h, H.AddressOf(b)))
    ensures H.FreeSpec(h, H.AddressOf(b)).live == Removed(h.live, b)
  {
    H.FreeRemovesLive(h, H.AddressOf(b));
    H.FreedKeepsValid(h, b);
    hide H.Valid;
  }

  // ---------------------------------------------------------------- the invariant

  /** Each thread's block is live, has the size asked for, and is the thread's own. */
  ghost predicate Holds(live: map<nat, nat>, blocks: map<Tid, nat>, size: nat) {
    && (forall t | t in blocks :: blocks[t] in live && live[blocks[t]] == H.BlocksFor(size))
    && (forall t, u | t in blocks && u in blocks && t != u :: blocks[t] != blocks[u])
  }

  ghost predicate Apart(objects: map<Tid, nat>, stacks: map<Tid, nat>) {
    forall t, u | t in stacks && u in objects :: stacks[t] != objects[u]
  }

  ghost predicate Owned(live: map<nat, nat>, objects: map<Tid, nat>, stacks: map<Tid, nat>, size: nat) {
    Holds(live, objects, size) && Holds(live, stacks, PAGE_SIZE) && Apart(objects, stacks)
  }

  /** Every live thread has its own allocations: an object each, and a stack each except for the idle thread. */
  ghost predicate Valid(k: Kernel) {
    && k.size + H.HEADER <= WORD && S.Valid(k.core) && H.Valid(k.heap) && Owned(k.heap.live, k.objects, k.stacks, k.size)
    && k.objects.Keys == k.core.threads.Keys && k.stacks.Keys == k.core.threads.Keys - {k.core.idle}
  }

  predicate OwnedBy(blocks: map<Tid, nat>, b: nat) {
    exists t | t in blocks :: blocks[t] == b
  }

  function Unowned(live: map<nat, nat>, objects: map<Tid, nat>, stacks: map<Tid, nat>): map<nat, nat> {
    map b | b in live && !OwnedBy(objects, b) && !OwnedBy(stacks, b) :: live[b]
  }

  /** The heap allocations that belong to no thread. */
  function Others(k: Kernel): map<nat, nat> {
    Unowned(k.heap.live, k.objects, k.stacks)
  }

  lemma OwnedByNew(blocks: map<Tid, nat>, id: Tid, b: nat, x: nat)
    requires id !in blocks
    ensures OwnedBy(blocks[id := b], x) <==> x == b || OwnedBy(blocks, x)
  {
    if OwnedBy(blocks, x) {
      var t :| t in blocks && blocks[t] == x;
      assert blocks[id := b][t] == x;
    }
    assert blocks[id := b][id] == b;
  }

  lemma OwnedByRest(blocks: map<Tid, nat>, id: Tid, x: nat)
    requires id in blocks && forall t | t in blocks && t != id :: blocks[t] != blocks[id]
    ensures OwnedBy(Removed(blocks, id), x) <==> x != blocks[id] && OwnedBy(blocks, x)
  {
    if x != blocks[id] && OwnedBy(blocks, x) {
      var t :| t in blocks && blocks[t] == x;
      assert Removed(blocks, id)[t] == x;
    }
    if OwnedBy(Removed(blocks, id), x) {
      var t :| t in Removed(blocks, id) && Removed(blocks, id)[t] == x;
      assert blocks[t] == x;
    }
  }

  /** A new thread takes two new blocks; nobody else's allocations change. */
  lemma OwnersAdded(live: map<nat, nat>, objects: map<Tid, nat>, stacks: map<Tid, nat>, size: nat, id: Tid, s: nat, o: nat)
    requires Owned(live, objects, stacks, size) && id !in objects && id !in stacks && s !in live && o !in live && s != o
    ensures var l := live[s := H.BlocksFor(PAGE_SIZE)][o := H.BlocksFor(size)];
            Owned(l, objects[id := o], stacks[id := s], size)
            && Unowned(l, objects[id := o], stacks[id := s]) == Unowned(live, objects, stacks)
  {
    hide OwnedBy, H.BlocksFor;
    forall x | x in live || x in {s, o}
      ensures OwnedBy(objects[id := o], x) <==> x == o || OwnedBy(objects, x)
      ensures OwnedBy(stacks[id := s], x) <==> x == s || OwnedBy(stacks, x)
    {
      OwnedByNew(objects, id, o, x);
      OwnedByNew(stacks, id, s, x);
    }
  }

  /** A thread gives back its two blocks; nobody else's allocations change. */
  lemma OwnersRemoved(live: map<nat, nat>, objects: map<Tid, nat>, stacks: map<Tid, nat>, size: nat, id: Tid)
    requires Owned(live, objects, stacks, size) && id in objects && id in stacks
    ensures stacks[id] in live && objects[id] in Removed(live, stacks[id])
    ensures var l := Removed(Removed(live, stacks[id]), objects[id]);
            Owned(l, Removed(objects, id), Removed(stacks, id), size)
            && Unowned(l, Removed(objects, id), Removed(stacks, id)) == Unowned(live, objects, stacks)
  {
    hide OwnedBy, H.BlocksFor;
    forall x | x in live
      ensures OwnedBy(Removed(objects, id), x) <==> x != objects[id] && OwnedBy(objects, x)
      ensures OwnedBy(Removed(stacks, id), x) <==> x != stacks[id] && OwnedBy(stacks, x)
    {
      OwnedByRest(objects, id, x);
      OwnedByRest(stacks, id, x);
    }
    OwnedByItself(objects, id);
    OwnedByItself(stacks, id);
  }

  /** StartScheduler: only the idle thread, whose object is the first allocation made here. */
  function Start(heap: H.Heap, size: nat, context: nat): Option<Kernel>
    requires H.Valid(heap) && size + H.HEADER <= WORD
  {
    match AllocateBlock(heap, size)
    case None => None
    case Some(obj) =>
      Some(Kernel(S.Core([], map[0 := S.Thread(S.Ready, 0, context)], 0, 0, 0, false, 0), obj.0, map[0 := obj.1], map[], size))
  }

  lemma StartIsValid(heap: H.Heap, size: nat, context: nat)
    requires H.Valid(heap) && size + H.HEADER <= WORD && Start(heap, size, context).Some?
    ensures Valid(Start(heap, size, context).value) && Others(Start(heap, size, context).value) == heap.live
    ensures Start(heap, size, context).value.core == S.Core([], map[0 := S.Thread(S.Ready, 0, context)], 0, 0, 0, false, 0)
  {
    hide H.Valid, H.BlocksFor;
    var k := Start(heap, size, context).value;
    assert k.objects[0] !in heap.live;
    forall b | b in k.heap.live ensures OwnedBy(k.objects, b) <==> b == k.objects[0] {
      OwnedByItself(k.objects, 0);
    }
  }

  // ---------------------------------------------------------------- steps

  /** CreateThread; None where the kernel panics, out of memory or out of ids. */
  function Create(k: Kernel, context: nat): Option<Kernel>
    requires H.Valid(k.heap) && k.size + H.HEADER <= WORD
  {
    match AllocateBlock(k.heap, PAGE_SIZE)
    case None => None
    case Some(stack) =>
      match AllocateBlock(stack.0, k.size)
      case None => None
      case Some(obj) =>
        match S.CreateSpec(k.core, context)
        case None => None
        case Some(core) =>
          var id := S.LowestFreeId(k.core.threads, 0).value;
          Some(Kernel(core, obj.0, k.objects[id := obj.1], k.stacks[id := stack.1], k.size))
  }

  /** ExitThread: the current thread leaves the ring; its stack is freed, then its object. */
  function Exit(k: Kernel): Kernel
    requires Valid(k) && k.core.current != k.core.idle
  {
    var t := k.core.current;
    CurrentOwns(k);
    var heap := FreeBlock(FreeBlock(k.heap, k.stacks[t]), k.objects[t]);
    Kernel(S.ExitSpec(k.core), heap, Removed(k.objects, t), Removed(k.stacks, t), k.size)
  }

  datatype Step =
    | Schedule(step: S.Step)   // neither creating nor exiting
    | Spawn(context: nat)
    | Leave                    // the current thread exits
    | Memory(op: H.Op)         // other users of the heap

  predicate Enabled(k: Kernel, s: Step)
    requires Valid(k)
  {
    match s
    case Schedule(step) => S.Enabled(k.core, step) && !step.Exit? && !step.Create?
    case Spawn(context) => Create(k, context).Some?
    case Leave => k.core.current != k.core.idle
    case Memory(op) =>
      H.Allowed(k.heap, op)
      && forall b | b in k.heap.live && op == H.Release(H.AddressOf(b)) :: !OwnedBy(k.objects, b) && !OwnedBy(k.stacks, b)
  }

  /** Every step keeps the invariant. */
  function Next(k: Kernel, s: Step): (r: Kernel)
    requires Valid(k) && Enabled(k, s)
    ensures Valid(r)
  {
    match s
    case Schedule(step) => ScheduleKeepsValid(k, step); k.(core := S.Next(k.core, step))
    case Spawn(context) => CreateKeepsValid(k, context); Create(k, context).value
    case Leave => ExitKeepsValid(k); Exit(k)
    case Memory(op) => MemoryKeepsValid(k, op); k.(heap := H.Step(k.heap, op))
  }

  lemma ScheduleKeepsValid(k: Kernel, step: S.Step)
    requires Valid(k) && Enabled(k, Schedule(step))
    ensures Valid(k.(core := S.Next(k.core, step)))
  {
    hide H.Valid;
    S.NextKeepsThreads(k.core, step);
  }

  lemma CreateFields(k: Kernel, context: nat) returns (id: Tid, s: nat, o: nat)
    requires Valid(k) && Create(k, context).Some?
    ensures id !in k.core.threads && s !in k.heap.live && o !in k.heap.live && s != o
    ensures var r := Create(k, context).value;
            && r.objects == k.objects[id := o] && r.stacks == k.stacks[id := s] && r.size == k.size
            && r.heap.live == k.heap.live[s := H.BlocksFor(PAGE_SIZE)][o := H.BlocksFor(k.size)] && H.Valid(r.heap)
            && S.Valid(r.core) && r.core.idle == k.core.idle && r.core.threads.Keys == k.core.threads.Keys + {id}
            && S.CreateSpec(k.core, context) == Some(r.core) && S.LowestFreeId(k.core.threads, 0) == Some(id)
            && k.core.idle in k.core.threads
  {
    CreatedId(k.core, context);
    hide H.Valid, S.Valid, AllocateBlock, S.CreateSpec, S.LowestFreeId, H.FreeRun, H.BlocksFor, Owned;
    var stack := AllocateBlock(k.heap, PAGE_SIZE).value;
    id, s, o := S.LowestFreeId(k.core.threads, 0).value, stack.1, AllocateBlock(stack.0, k.size).value.1;
  }

  /** Creating a thread leaves the allocations of everyone else as they are. */
  lemma CreateKeepsValid(k: Kernel, context: nat)
    requires Valid(k) && Create(k, context).Some?
    ensures Valid(Create(k, context).value)
    ensures Others(Create(k, context).value) == Others(k)
  {
    hide H.Valid, S.Valid, Owned, Unowned, Create, H.BlocksFor;
    var id, s, o := CreateFields(k, context);
    OwnersAdded(k.heap.live, k.objects, k.stacks, k.size, id, s, o);
  }

  lemma CreatedId(c: S.Core, context: nat)
    requires S.Valid(c) && S.CreateSpec(c, context).Some?
    ensures S.LowestFreeId(c.threads, 0).Some? && S.LowestFreeId(c.threads, 0).value !in c.threads
    ensures var r := S.CreateSpec(c, context).value;
            S.Valid(r) && r.idle == c.idle && r.threads.Keys == c.threads.Keys + {S.LowestFreeId(c.threads, 0).value}
            && c.idle in c.threads
  {
    S.CreateKeepsValid(c, context);
  }

  lemma ExitFields(k: Kernel)
    requires Valid(k) && k.core.current != k.core.idle
    ensures var r, t := Exit(k), k.core.current;
            && t in k.objects && t in k.stacks
            && r.objects == Removed(k.objects, t) && r.stacks == Removed(k.stacks, t) && r.size == k.size
            && r.heap.live == Removed(Removed(k.heap.live, k.stacks[t]), k.objects[t]) && H.Valid(r.heap)
            && S.Valid(r.core) && r.core.idle == k.core.idle && r.core.threads.Keys == k.core.threads.Keys - {t}
            && r.core == S.ExitSpec(k.core)
  {
    CurrentOwns(k);
    S.ExitKeepsValid(k.core);
    hide H.Valid, S.Valid, FreeBlock, S.ExitSpec, S.ExitSelected, Owned;
  }

  /** Exiting frees exactly the two allocations of the thread. */
  lemma ExitKeepsValid(k: Kernel)
    requires Valid(k) && k.core.current != k.core.idle
    ensures Valid(Exit(k)) && Others(Exit(k)) == Others(k)
  {
    hide H.Valid, S.Valid, Owned, Unowned, Exit;
    ExitFields(k);
    OwnersRemoved(k.heap.live, k.objects, k.stacks, k.size, k.core.current);
  }

  lemma CurrentOwns(k: Kernel)
    requires Valid(k) && k.core.current != k.core.idle
    ensures k.core.current in k.objects && k.core.current in k.stacks && k.core.idle in k.core.threads
    ensures k.stacks[k.core.current] in k.heap.live && k.objects[k.core.current] in k.heap.live
    ensures k.stacks[k.core.current] != k.objects[k.core.current]
  {
    hide H.Valid;
  }

  /** Other users of the heap cannot take away what a thread owns. */
  lemma MemoryKeepsValid(k: Kernel, op: H.Op)
    requires Valid(k) && Enabled(k, Memory(op))
    ensures Valid(k.(heap := H.Step(k.heap, op)))
  {
    hide H.Valid, S.Valid, H.Allowed, H.Step, OwnedBy;
    forall t | t in k.objects ensures k.objects[t] in H.Step(k.heap, op).live
                                   && H.Step(k.heap, op).live[k.objects[t]] == k.heap.live[k.objects[t]] {
      OwnedByItself(k.objects, t);
      H.StepKeepsAllocation(k.heap, op, k.objects[t]);
    }
    forall t | t in k.stacks ensures k.stacks[t] in H.Step(k.heap, op).live
                                  && H.Step(k.heap, op).live[k.stacks[t]] == k.heap.live[k.stacks[t]] {
      OwnedByItself(k.stacks, t);
      H.StepKeepsAllocation(k.heap, op, k.stacks[t]);
    }
  }

  lemma OwnedByItself(blocks: map<Tid, nat>, t: Tid)
    requires t in blocks
    ensures OwnedBy(blocks, blocks[t])
  {
  }

  // ---------------------------------------------------------------- runs

  predicate Possible(k: Kernel, steps: seq<Step>)
    requires Valid(k)
    decreases |steps|
  {
    steps == [] || (Enabled(k, steps[0]) && Possible(Next(k, steps[0]), steps[1..]))
  }

  function Run(k: Kernel, steps: seq<Step>): (r: Kernel)
    requires Valid(k) && Possible(k, steps)
    ensures Valid(r)
    decreases |steps|
  {
    if steps == [] then k else Run(Next(k, steps[0]), steps[1..])
  }

  /** No step of a thread's life touches an allocation that belongs to no thread. */
  lemma {:induction false} RunKeepsOthers(k: Kernel, steps: seq<Step>)
    requires Valid(k) && Possible(k, steps) && forall s | s in steps :: !s.Memory?
    ensures Others(Run(k, steps)) == Others(k) && Run(k, steps).size == k.size
    decreases |steps|
  {
    hide Valid, Others, Next, Enabled;
    if steps != [] {
      assert steps[0] in steps;
      StepKeepsOthers(k, steps[0]);
      RunKeepsOthers(Next(k, steps[0]), steps[1..]);
    }
  }

  lemma StepKeepsOthers(k: Kernel, s: Step)
    requires Valid(k) && Enabled(k, s) && !s.Memory?
    ensures Others(Next(k, s)) == Others(k) && Next(k, s).size == k.size
  {
    hide S.Valid, H.Valid, Owned, Others, AllocateBlock, FreeBlock;
    match s
    case Schedule(step) => SameHeap(k, S.Next(k.core, step));
    case Spawn(context) => CreateKeepsValid(k, context);
    case Leave => ExitKeepsValid(k);
  }

  lemma SameHeap(k: Kernel, core: S.Core)
    ensures Others(k.(core := core)) == Others(k)
  {
  }

  /** The live allocations determine the bitmap and the counters. */
  lemma LiveDeterminesHeap(a: H.Heap, b: H.Heap)
    requires H.Valid(a) && H.Valid(b) && a.live == b.live
    ensures a == b.(mem := a.mem)
  {
    forall k | 0 <= k < H.BLOCKS ensures a.bits[k] == b.bits[k] {
      assert H.InUse(a, k) == H.InUse(b, k) by {
        if H.InUse(a, k) {
          var s :| s in a.live && H.Owns(a, s, k);
          assert H.Owns(b, s, k);
        }
        if H.InUse(b, k) {
          var s :| s in b.live && H.Owns(b, s, k);
          assert H.Owns(a, s, k);
        }
      }
    }
    assert a.bits == b.bits;
    hide H.InUse, H.Count;
  }

  lemma OwnersDetermineLive(k: Kernel, r: Kernel)
    requires Valid(k) && Valid(r) && Others(r) == Others(k) && r.objects == k.objects && r.stacks == k.stacks && r.size == k.size
    ensures r.heap.live == k.heap.live
  {
    hide H.Valid, S.Valid, H.BlocksFor;
    forall b | b in k.heap.live ensures b in r.heap.live && r.heap.live[b] == k.heap.live[b] {
      OwnedOrOther(k, r, b);
    }
    forall b | b in r.heap.live ensures b in k.heap.live {
      OwnedOrOther(r, k, b);
    }
  }

  lemma OwnedOrOther(k: Kernel, r: Kernel, b: nat)
    requires Valid(k) && Valid(r) && Others(r) == Others(k) && r.objects == k.objects && r.stacks == k.stacks && r.size == k.size
    requires b in k.heap.live
    ensures b in r.heap.live && r.heap.live[b] == k.heap.live[b]
  {
    hide H.Valid, S.Valid, H.BlocksFor;
    if !OwnedBy(k.objects, b) && !OwnedBy(k.stacks, b) {
      assert b in Others(k);
      assert b in Others(r) && Others(r)[b] == Others(k)[b];
    }
  }

  /** Nothing leaks: after any run of creating, scheduling and exiting that ends with the threads it began with,
      bitmap, counters and live allocations are what they were. */
  lemma HeapReturns(k: Kernel, steps: seq<Step>)
    requires Valid(k) && Possible(k, steps) && forall s | s in steps :: !s.Memory?
    requires Run(k, steps).objects == k.objects && Run(k, steps).stacks == k.stacks
    ensures Run(k, steps).heap == k.heap.(mem := Run(k, steps).heap.mem)
  {
    hide Others, Possible, Run, H.Valid, S.Valid;
    RunKeepsOthers(k, steps);
    OwnersDetermineLive(k, Run(k, steps));
    LiveDeterminesHeap(Run(k, steps).heap, k.heap);
  }

  lemma {:induction false} SchedulingKeepsOwners(k: Kernel, steps: seq<Step>)
    requires Valid(k) && Possible(k, steps) && forall s | s in steps :: s.Schedule?
    ensures Run(k, steps).objects == k.objects && Run(k, steps).stacks == k.stacks && Run(k, steps).heap == k.heap
    ensures Run(k, steps).core.idle == k.core.idle && Run(k, steps).core.threads.Keys == k.core.threads.Keys
    ensures Run(k, steps).size == k.size
    decreases |steps|
  {
    if steps != [] {
      assert steps[0] in steps;
      S.NextKeepsThreads(k.core, steps[0].step);
      hide H.Valid, S.Valid, S.Next, Owned;
      SchedulingKeepsOwners(Next(k, steps[0]), steps[1..]);
    }
  }

  lemma ExitAfterCreate(k: Kernel, context: nat, a: Kernel, r: Kernel)
    requires Valid(k) && Create(k, context) == Some(a) && Valid(r) && r.(core := a.core) == a
    requires r.core.idle == a.core.idle && r.core.threads.Keys == a.core.threads.Keys
    requires S.LowestFreeId(k.core.threads, 0) == Some(r.core.current)
    ensures r.core.current != r.core.idle && Valid(Exit(r)) && Exit(r).objects == k.objects && Exit(r).stacks == k.stacks
    ensures Exit(r).core.threads.Keys == k.core.threads.Keys && Others(Exit(r)) == Others(k) && Exit(r).size == k.size
  {
    hide H.Valid, S.Valid, Owned, Create, Exit, Others, Removed, H.BlocksFor, S.LowestFreeId;
    var id, s, o := CreateFields(k, context);
    CreateKeepsValid(k, context);
    ExitFields(r);
    ExitKeepsValid(r);
    RemovedNew(k.objects, id, o);
    RemovedNew(k.stacks, id, s);
    SameHeap(a, r.core);
  }

  /** Creating a kernel thread and letting it run until it exits: its id is free again, and bitmap, counters and live
      allocations are as before, however the threads were scheduled in between. */
  lemma CreateThenExit(k: Kernel, context: nat, a: Kernel, steps: seq<Step>, r: Kernel)
    requires Valid(k) && Create(k, context) == Some(a) && Valid(a) && Possible(a, steps) && r == Run(a, steps)
    requires forall s | s in steps :: s.Schedule?
    requires S.LowestFreeId(k.core.threads, 0) == Some(r.core.current)
    ensures r.core.current != r.core.idle && Exit(r).heap == k.heap.(mem := Exit(r).heap.mem)
    ensures Exit(r).core.threads.Keys == k.core.threads.Keys && Exit(r).objects == k.objects && Exit(r).stacks == k.stacks
  {
    SchedulingKeepsOwners(a, steps);
    hide Others, Create, Possible, Run, Exit, S.LowestFreeId, H.Valid, S.Valid, Owned;
    ExitAfterCreate(k, context, a, r);
    OwnersDetermineLive(k, Exit(r));
    LiveDeterminesHeap(Exit(r).heap, k.heap);
  }
}
