/** The scheduler as a state machine (kernel/core/thread.cc, the timer path of kernel/hw/cpu/intctrl.cc).
    A CPU context is an opaque number; a context switch stores one and loads another. */
module Scheduler {
  import opened Arithmetic
  import opened Maps
  import opened Options
  import opened Sequences

  type Tid = nat

  const MAX_THREADS: nat := 512

  datatype State = Ready | Running | Waiting | Terminating

  datatype Thread = Thread(state: State, delay: nat, context: nat)

  /** ring: the threads of thread_list_head, first thread first; the idle thread is not on it.
      cpu: the context the processor is running with. */
  datatype Core = Core(
    ring: seq<Tid>, threads: map<Tid, Thread>, current: Tid, idle: Tid,
    ticks: nat, schedule: bool, cpu: nat)

  predicate Runnable(thread: Thread, ticks: nat) {
    thread.state == Ready || (thread.state == Waiting && thread.delay <= ticks)
  }

  predicate CanRun(c: Core, t: Tid) {
    t in c.threads && Runnable(c.threads[t], c.ticks)
  }

  /** What holds of every thread but the current one, even while the current thread is giving up the processor. */
  ghost predicate OthersValid(c: Core) {
    && NoDuplicates(c.ring) && c.idle !in c.ring
    && (forall t :: t in c.threads <==> t == c.idle || t in c.ring)
    && (forall t | t in c.threads :: t < MAX_THREADS)
    && (c.current == c.idle || c.current in c.ring)
    && (forall t | t in c.threads && t != c.current :: c.threads[t].state == Ready || (c.threads[t].state == Waiting && t != c.idle))
    && (forall t | t in c.threads && t != c.current && c.threads[t].state == Ready :: c.threads[t].delay <= c.ticks)
    && (c.current == c.idle ==> c.threads[c.idle].state == Ready || c.threads[c.idle].state == Running)
  }

  /** Live threads are the ring and the idle thread.  Only the current thread is running, and on the ring it always is;
      a thread that is not waiting has no deadline ahead of it. */
  ghost predicate Valid(c: Core) {
    && OthersValid(c)
    && (c.current != c.idle ==> c.threads[c.current].state == Running)
    && c.threads[c.current].delay <= c.ticks
  }

  // ---------------------------------------------------------------- choosing the next thread

  /** The threads in the order in which SelectNextThread looks at them:
      from the first one when the core idles, else from behind the current thread, which comes last. */
  function Order(c: Core): (r: seq<Tid>)
    requires OthersValid(c)
    ensures |r| == |c.ring|
  {
    if c.current == c.idle then c.ring else RotateTo(c.ring, c.current)
  }

  function FirstRunnable(c: Core, order: seq<Tid>): (i: Option<nat>)
    ensures i.Some? ==> i.value < |order| && CanRun(c, order[i.value]) && forall k | 0 <= k < i.value :: !CanRun(c, order[k])
    ensures i.None? ==> forall t | t in order :: !CanRun(c, t)
  {
    if order == [] then None
    else if CanRun(c, order[0]) then Some(0)
    else match FirstRunnable(c, order[1..])
         case None => None
         case Some(i) => Some(i + 1)
  }

  /** The old thread goes back to Ready unless it is waiting or terminating; the new one runs. */
  function Switch(c: Core, next: Tid): Core
    requires c.current in c.threads && next in c.threads
  {
    var prev := c.threads[c.current];
    var threads := if prev.state == Running then c.threads[c.current := prev.(state := Ready)] else c.threads;
    c.(threads := threads[next := threads[next].(state := Running)], current := next)
  }

  /** SelectNextThread: true if a new thread was selected. */
  function SelectSpec(c: Core): (r: (Core, bool))
    requires OthersValid(c)
  {
    if c.ring == [] then (c, false)
    else
      OrderMembers(c);
      match FirstRunnable(c, Order(c))
      case Some(i) => (Switch(c, Order(c)[i]), true)
      case None =>
        if c.current == c.idle || c.threads[c.current].state == Running then (c, false) else (Switch(c, c.idle), true)
  }

  lemma OrderMembers(c: Core)
    requires OthersValid(c)
    ensures forall t :: t in Order(c) <==> t in c.ring
    ensures NoDuplicates(Order(c))
  {
    if c.current != c.idle {
      RotationMembers(c.ring, IndexOf(c.ring, c.current));
    }
  }

  /** Ring position of the i-th thread that is looked at: from the first one on while the core idles, else from behind the
      current thread, which is at position k, around the ring. */
  function Place(c: Core, k: nat, i: nat): (j: nat)
    requires c.ring != []
    ensures j == ((if c.current == c.idle then 0 else k + 1) + i) % |c.ring|
  {
    ((if c.current == c.idle then 0 else k + 1) + i) % |c.ring|
  }

  /** The current thread is at position k of the ring. */
  ghost predicate CurrentAt(c: Core, k: nat) {
    c.current == c.idle || (k < |c.ring| && c.ring[k] == c.current)
  }

  lemma OrderIsRing(c: Core, k: nat, i: nat)
    requires OthersValid(c) && CurrentAt(c, k) && i < |c.ring|
    ensures Order(c)[i] == c.ring[Place(c, k, i)]
  {
    hide OthersValid, NoDuplicates, IndexOf;
    if c.current == c.idle {
      AroundOnce(0, i, |c.ring|);
    } else {
      AroundOnce(k + 1, i, |c.ring|);
      CurrentIndex(c, k);
    }
  }

  lemma CurrentIndex(c: Core, k: nat)
    requires OthersValid(c) && CurrentAt(c, k) && c.current != c.idle
    ensures c.current in c.ring && IndexOf(c.ring, c.current) == k
  {
    IndexUnique(c.ring, k);
  }

  lemma AroundOnce(start: nat, i: nat, n: nat)
    requires start <= n && i < n
    ensures (start + i) % n == if start + i < n then start + i else start + i - n
  {
    if start + i < n {
      DivMod(start + i, n, 0, start + i);
    } else {
      DivMod(start + i, n, 1, start + i - n);
    }
  }

  /** The thread that is selected is the first one after the current thread, around the ring, that is ready or whose
      deadline has been reached. */
  lemma SelectsNextInRing(c: Core, k: nat, i: nat)
    requires OthersValid(c) && CurrentAt(c, k) && i < |c.ring| && c.ring[Place(c, k, i)] in c.threads
    requires var t := c.threads[c.ring[Place(c, k, i)]]; t.state == Ready || (t.state == Waiting && t.delay <= c.ticks)
    requires forall j | 0 <= j < i :: !CanRun(c, c.ring[Place(c, k, j)])
    ensures SelectSpec(c).1 && SelectSpec(c).0.current == c.ring[Place(c, k, i)]
  {
    hide OthersValid, NoDuplicates, Place, Order;
    OrderIsRing(c, k, i);
    forall j: nat | j < i ensures !CanRun(c, Order(c)[j]) {
      OrderIsRing(c, k, j);
    }
    var f := FirstRunnable(c, Order(c));
    assert Order(c)[i] in Order(c);
    assert f == Some(i);
  }

  /** What a switch does to the threads. */
  ghost predicate Switched(c: Core, r: Core) {
    && r.current in r.threads && r.threads.Keys == c.threads.Keys && c.current in c.threads
    && r == c.(threads := r.threads, current := r.current)
    && r.threads[r.current].state == Running
    && (forall t | t in c.threads && t != c.current && t != r.current :: r.threads[t] == c.threads[t])
    && (forall t | t in c.threads :: r.threads[t] == c.threads[t].(state := r.threads[t].state))
    && (r.current != c.current ==>
          r.threads[c.current].state == (if c.threads[c.current].state == Running then Ready else c.threads[c.current].state))
  }

  lemma SwitchEffect(c: Core, next: Tid)
    requires c.current in c.threads && next in c.threads
    ensures Switched(c, Switch(c, next)) && Switch(c, next).current == next
  {
  }

  /** Safety of the choice: a selected ring thread could run; the idle thread is selected, or kept, only when no thread
      of the ring can run; a running thread keeps the processor only when no other can; a false return changes nothing;
      no thread other than the old and the new one is touched. */
  lemma SelectIsSafe(c: Core)
    requires OthersValid(c)
    ensures var (r, selected) := SelectSpec(c);
            && (if selected then Switched(c, r) else r == c)
            && (selected && r.current != c.idle ==> r.current in c.ring && CanRun(c, r.current))
            && (!selected || r.current == c.idle ==> forall t | t in c.ring :: !CanRun(c, t))
            && (!selected && c.current != c.idle ==> c.threads[c.current].state == Running)
  {
    OrderMembers(c);
    hide NoDuplicates, Order, Switched, Switch;
    match FirstRunnable(c, Order(c))
    case None => SwitchEffect(c, c.idle);
    case Some(i) =>
      assert Order(c)[i] in Order(c);
      SwitchEffect(c, Order(c)[i]);
  }

  /** The current thread may give up the processor: it runs, or it has just become waiting; the idle thread keeps its state. */
  ghost predicate MayYield(c: Core) {
    && OthersValid(c)
    && (c.current != c.idle ==> c.threads[c.current].state == Running || c.threads[c.current].state == Waiting)
    && (c.threads[c.current].state != Waiting ==> c.threads[c.current].delay <= c.ticks)
  }

  /** Selecting restores the invariant. */
  lemma SelectKeepsValid(c: Core)
    requires MayYield(c)
    ensures Valid(SelectSpec(c).0)
  {
    SelectIsSafe(c);
    var (r, selected) := SelectSpec(c);
    hide SelectSpec;
    if selected {
      SwitchKeepsValid(c, r);
    }
  }

  lemma SwitchKeepsValid(c: Core, r: Core)
    requires MayYield(c) && Switched(c, r)
    requires r.current == c.idle || (r.current in c.ring && CanRun(c, r.current))
    ensures Valid(r)
  {
    hide NoDuplicates;
  }

  // ---------------------------------------------------------------- steps

  /** Stores the running context in the old thread and loads that of the selected one. */
  function SwitchContext(r: Core, prev: Tid): Core
    requires prev in r.threads && r.current in r.threads
  {
    var threads := r.threads[prev := r.threads[prev].(context := r.cpu)];
    r.(threads := threads, cpu := threads[r.current].context)
  }

  /** SelectNextThread followed by a context switch if there is a new thread: Yield, and the timer path of IsrCommon. */
  function Reschedule(c: Core): (r: Core)
    requires OthersValid(c)
  {
    SelectIsSafe(c);
    var (r, selected) := SelectSpec(c);
    if selected then SwitchContext(r, c.current) else r
  }

  /** A timer interrupt: every tenth tick tries to reschedule, then the tick is counted. */
  function TimerSpec(c: Core): Core
    requires OthersValid(c)
  {
    var r := if c.ticks % 10 == 0 && c.schedule then Reschedule(c) else c;
    r.(ticks := r.ticks + 1)
  }

  /** Marking the current thread as waiting; delay 0 leaves the old deadline in place. */
  function WaitSpec(c: Core, delay: nat): Core
    requires c.current in c.threads
  {
    var t := c.threads[c.current];
    var deadline := if delay > 0 then (c.ticks + delay) % WORD else t.delay;
    c.(threads := c.threads[c.current := t.(state := Waiting, delay := deadline)])
  }

  function Terminate(c: Core): Core
    requires c.current in c.threads
  {
    c.(threads := c.threads[c.current := c.threads[c.current].(state := Terminating)])
  }

  /** Takes a thread off the ring and gives its id back. */
  function Drop(c: Core, t: Tid): Core {
    c.(ring := Without(c.ring, t), threads := Removed(c.threads, t))
  }

  /** The selection ExitThread makes after marking its thread as terminating: always another thread. */
  function ExitSelected(c: Core): (r: Core)
    requires Valid(c) && c.current != c.idle
    ensures r.threads.Keys == c.threads.Keys && r.current in r.threads && r.current != c.current
    ensures r == c.(threads := r.threads, current := r.current) && ReadyToDrop(r, c.current)
  {
    ExitSwitches(c);
    SelectSpec(Terminate(c)).0
  }

  /** ExitThread: the thread is dropped once another one has been selected, whose context is loaded. */
  function ExitSpec(c: Core): (r: Core)
    requires Valid(c) && c.current != c.idle
  {
    var r := ExitSelected(c);
    Drop(r, c.current).(cpu := r.threads[r.current].context)
  }

  /** AllocateThreadId: the lowest id that is not in use. */
  function LowestFreeId(threads: map<Tid, Thread>, from: nat): (id: Option<Tid>)
    requires from <= MAX_THREADS
    ensures id.Some? ==> from <= id.value < MAX_THREADS && id.value !in threads && forall k | from <= k < id.value :: k in threads
    ensures id.None? ==> forall k | from <= k < MAX_THREADS :: k in threads
    decreases MAX_THREADS - from
  {
    if from == MAX_THREADS then None else if from !in threads then Some(from) else LowestFreeId(threads, from + 1)
  }

  /** CreateThread; the kernel panics when no id is left. */
  function CreateSpec(c: Core, context: nat): Option<Core> {
    match LowestFreeId(c.threads, 0)
    case None => None
    case Some(id) => Some(c.(ring := [id] + c.ring, threads := c.threads[id := Thread(Ready, 0, context)]))
  }

  datatype Step =
    | Timer
    | Yield
    | Delay(delay: nat)
    | Exit
    | Create(context: nat)
    | Execute(cpu: nat)   // the current thread computes
    | StartIdle           // the idle thread enters its loop and allows preemption

  /** The idle thread only halts: it never yields, delays or exits.  Creating a thread needs a free id. */
  predicate Enabled(c: Core, s: Step) {
    match s
    case Timer => true
    case Yield => c.current != c.idle
    case Delay(_) => c.current != c.idle
    case Exit => c.current != c.idle
    case Create(_) => LowestFreeId(c.threads, 0).Some?
    case Execute(_) => true
    case StartIdle => c.current == c.idle
  }

  /** Every step keeps the invariant. */
  function Next(c: Core, s: Step): (r: Core)
    requires Valid(c) && Enabled(c, s)
    ensures Valid(r) && r.idle == c.idle && r.ticks >= c.ticks
  {
    NextKeepsValid(c, s);
    NextRaw(c, s)
  }

  function NextRaw(c: Core, s: Step): (r: Core)
    requires Valid(c) && Enabled(c, s)
  {
    match s
    case Timer => TimerSpec(c)
    case Yield => Reschedule(c)
    case Delay(delay) => WaitIsOthersValid(c, delay); Reschedule(WaitSpec(c, delay))
    case Exit => ExitSpec(c)
    case Create(context) => CreateSpec(c, context).value
    case Execute(cpu) => c.(cpu := cpu)
    case StartIdle => c.(schedule := true)
  }

  /** Next, step by step. */
  lemma NextCases(c: Core, delay: nat)
    requires Valid(c)
    ensures OthersValid(c)
    ensures c.current != c.idle ==> Next(c, Yield) == Reschedule(c) && Valid(Reschedule(c))
    ensures c.current != c.idle ==> c.current in c.threads && OthersValid(WaitSpec(c, delay))
    ensures c.current != c.idle ==> Next(c, Delay(delay)) == Reschedule(WaitSpec(c, delay)) && Valid(Reschedule(WaitSpec(c, delay)))
    ensures c.current != c.idle ==> Next(c, Exit) == ExitSpec(c) && Valid(ExitSpec(c))
    ensures c.current == c.idle ==> Next(c, StartIdle) == c.(schedule := true) && Valid(c.(schedule := true))
  {
    hide NoDuplicates, Reschedule, ExitSpec, MayYield;
    if c.current != c.idle {
      WaitIsOthersValid(c, delay);
      MayYieldOthers(WaitSpec(c, delay));
    }
  }

  /** Only creating and exiting change which threads are live. */
  lemma NextKeepsThreads(c: Core, s: Step)
    requires Valid(c) && Enabled(c, s) && !s.Exit? && !s.Create?
    ensures Next(c, s).threads.Keys == c.threads.Keys && Next(c, s).ring == c.ring && Next(c, s).idle == c.idle
  {
    hide NoDuplicates, Reschedule, MayYield;
    match s
    case Timer =>
      RunningMayYield(c);
      RescheduleKeepsValid(c);
    case Yield =>
      RunningMayYield(c);
      RescheduleKeepsValid(c);
    case Delay(delay) =>
      WaitIsOthersValid(c, delay);
      RescheduleKeepsValid(WaitSpec(c, delay));
    case Execute(_) =>
    case StartIdle =>
  }

  lemma TimerCase(c: Core)
    requires Valid(c)
    ensures OthersValid(c) && Valid(Next(c, Timer)) && Reschedule(c).ticks == c.ticks
    ensures Next(c, Timer) == (if c.ticks % 10 == 0 && c.schedule then Reschedule(c) else c).(ticks := c.ticks + 1)
  {
    RunningMayYield(c);
    RescheduleKeepsValid(c);
    hide OthersValid, Reschedule;
  }

  lemma CreateCases(c: Core, context: nat)
    requires Valid(c)
    ensures CreateSpec(c, context) == match LowestFreeId(c.threads, 0)
                                      case None => None
                                      case Some(id) =>
                                        var threads := c.threads[id := Thread(Ready, 0, context)];
                                        Some(c.(ring := [id] + c.ring, threads := threads))
    ensures Enabled(c, Create(context)) <==> LowestFreeId(c.threads, 0).Some?
    ensures CreateSpec(c, context).Some? ==>
              Next(c, Create(context)) == CreateSpec(c, context).value && Valid(CreateSpec(c, context).value)
  {
    hide Valid;
  }

  /** A Delay marks its thread as waiting until the 64-bit sum of clock and delay; Delay(0) keeps the old deadline.
      The thread still has the processor afterwards only if it was selected again. */
  lemma DelayEffect(c: Core, delay: nat)
    requires Valid(c) && c.current != c.idle
    ensures var r, t := Next(c, Delay(delay)), c.current;
            && t in c.threads && t in r.threads
            && r.threads[t].delay == (if delay > 0 then (c.ticks + delay) % 0x1_0000_0000_0000_0000 else c.threads[t].delay)
            && r.threads[t].state == if r.current == t then Running else Waiting
  {
    var w := WaitSpec(c, delay);
    DelayMarks(c, delay);
    NextCases(c, delay);
    hide Valid, OthersValid, SelectSpec, Reschedule, MayYield, WaitSpec;
    WaitIsOthersValid(c, delay);
    SelectIsSafe(w);
    RescheduleKeepsValid(w);
  }

  lemma DelayMarks(c: Core, delay: nat)
    requires Valid(c) && c.current != c.idle
    ensures c.current in c.threads
    ensures var w, t := WaitSpec(c, delay), c.current;
            && w.current == t && w.idle == c.idle && t in w.threads && w.threads[t].state == Waiting
            && w.threads[t].delay == if delay > 0 then (c.ticks + delay) % 0x1_0000_0000_0000_0000 else c.threads[t].delay
  {
  }

  lemma MayYieldOthers(c: Core)
    requires MayYield(c)
    ensures OthersValid(c)
  {
  }

  lemma WaitIsOthersValid(c: Core, delay: nat)
    requires Valid(c) && c.current != c.idle
    ensures MayYield(WaitSpec(c, delay))
  {
    hide NoDuplicates;
  }

  lemma ExitSelects(c: Core)
    requires OthersValid(c) && c.current != c.idle
    ensures OthersValid(Terminate(c))
  {
    hide NoDuplicates;
  }

  lemma NextKeepsValid(c: Core, s: Step)
    requires Valid(c) && Enabled(c, s)
    ensures Valid(NextRaw(c, s)) && NextRaw(c, s).idle == c.idle && NextRaw(c, s).ticks >= c.ticks
  {
    hide NoDuplicates, TimerSpec, Reschedule, ExitSpec, WaitSpec, MayYield;
    match s
    case Timer => TimerKeepsValid(c);
    case Yield =>
      RunningMayYield(c);
      RescheduleKeepsValid(c);
    case Delay(delay) =>
      WaitIsOthersValid(c, delay);
      RescheduleKeepsValid(WaitSpec(c, delay));
      WaitKeepsClock(c, delay);
    case Exit => ExitKeepsValid(c);
    case Create(context) => CreateKeepsValid(c, context);
    case Execute(cpu) =>
    case StartIdle =>
  }

  lemma WaitKeepsClock(c: Core, delay: nat)
    requires c.current in c.threads
    ensures WaitSpec(c, delay) == c.(threads := WaitSpec(c, delay).threads)
  {
  }

  lemma RunningMayYield(c: Core)
    requires Valid(c)
    ensures MayYield(c)
  {
    hide NoDuplicates;
  }

  lemma TimerKeepsValid(c: Core)
    requires Valid(c)
    ensures Valid(TimerSpec(c)) && TimerSpec(c).idle == c.idle && TimerSpec(c).ticks == c.ticks + 1
  {
    hide Reschedule, NoDuplicates, MayYield;
    RunningMayYield(c);
    RescheduleKeepsValid(c);
    TickKeepsValid(c);
    TickKeepsValid(Reschedule(c));
  }

  lemma TickKeepsValid(c: Core)
    requires Valid(c)
    ensures Valid(c.(ticks := c.ticks + 1))
  {
    hide NoDuplicates;
  }

  lemma RescheduleKeepsValid(c: Core)
    requires MayYield(c)
    ensures Valid(Reschedule(c)) && Reschedule(c).idle == c.idle && Reschedule(c).ticks == c.ticks
    ensures Reschedule(c).ring == c.ring && Reschedule(c).current == SelectSpec(c).0.current
    ensures Reschedule(c).schedule == c.schedule && Reschedule(c).threads.Keys == c.threads.Keys
    ensures forall t | t in c.threads :: Reschedule(c).threads[t]
              == SelectSpec(c).0.threads[t].(context := Reschedule(c).threads[t].context)
  {
    SelectIsSafe(c);
    SelectKeepsValid(c);
    hide SelectSpec, NoDuplicates, OthersValid, Valid;
    var (r, selected) := SelectSpec(c);
    if selected {
      ContextKeepsValid(r, c.current);
    }
  }

  lemma ContextKeepsValid(r: Core, prev: Tid)
    requires Valid(r) && prev in r.threads
    ensures Valid(SwitchContext(r, prev)) && SwitchContext(r, prev).threads.Keys == r.threads.Keys
    ensures forall t | t in r.threads ::
              SwitchContext(r, prev).threads[t] == r.threads[t].(context := if t == prev then r.cpu else r.threads[t].context)
  {
    hide NoDuplicates;
  }

  lemma CreateKeepsValid(c: Core, context: nat)
    requires Valid(c) && CreateSpec(c, context).Some?
    ensures Valid(CreateSpec(c, context).value)
  {
  }

  /** Exiting always leaves a different current thread, and the invariant, with the exiting thread gone. */
  lemma ExitKeepsValid(c: Core)
    requires Valid(c) && c.current != c.idle
    ensures var s, r := ExitSelected(c), ExitSpec(c);
            && Valid(r) && r.current == s.current != c.current && r.idle == c.idle && r.ticks == c.ticks && r.schedule == c.schedule
            && r.ring == Without(c.ring, c.current) && r.threads.Keys == c.threads.Keys - {c.current}
            && r.cpu == s.threads[s.current].context
            && (forall t | t in c.threads && t != c.current :: r.threads[t] == s.threads[t])
  {
    hide NoDuplicates, Without, OthersValid, Drop, ExitSelected, ReadyToDrop, Valid;
    var s := ExitSelected(c);
    DropKeepsValid(s, c.current);
    CpuKeepsValid(Drop(s, c.current), s.threads[s.current].context);
  }

  lemma CpuKeepsValid(c: Core, cpu: nat)
    requires Valid(c)
    ensures Valid(c.(cpu := cpu))
  {
    hide NoDuplicates;
  }

  /** The exiting thread cannot be chosen again, so there always is a switch. */
  lemma ExitSwitches(c: Core)
    requires Valid(c) && c.current != c.idle
    ensures OthersValid(Terminate(c)) && SelectSpec(Terminate(c)).1
    ensures var r := SelectSpec(Terminate(c)).0;
            && r.current != c.current && ReadyToDrop(r, c.current) && r.threads.Keys == c.threads.Keys
            && r == c.(threads := r.threads, current := r.current)
  {
    var d := Terminate(c);
    ExitSelects(c);
    SelectIsSafe(d);
    assert d.threads[d.current].state == Terminating && d.current != d.idle;
    hide SelectSpec, NoDuplicates, OthersValid, Valid, Switched, Terminate, ReadyToDrop;
    SwitchAway(c, SelectSpec(d).0);
  }

  lemma SwitchAway(c: Core, r: Core)
    requires Valid(c) && c.current != c.idle && Switched(Terminate(c), r)
    requires r.current == c.idle || CanRun(Terminate(c), r.current)
    requires r.current == c.idle || r.current in c.ring
    ensures r.current != c.current && ReadyToDrop(r, c.current) && r.threads.Keys == c.threads.Keys
    ensures r == c.(threads := r.threads, current := r.current)
  {
    hide NoDuplicates;
  }

  /** Everything is in order except for one terminating thread on the ring. */
  ghost predicate ReadyToDrop(r: Core, t: Tid) {
    && r.current != t && t in r.ring
    && NoDuplicates(r.ring) && r.idle !in r.ring
    && (forall k :: k in r.threads <==> k == r.idle || k in r.ring)
    && (forall k | k in r.threads :: k < MAX_THREADS)
    && (r.current == r.idle || r.current in r.ring)
    && (forall k | k in r.threads && k != r.current && k != t ::
          r.threads[k].state == Ready || (r.threads[k].state == Waiting && k != r.idle))
    && (forall k | k in r.threads && k != t && r.threads[k].state != Waiting :: r.threads[k].delay <= r.ticks)
    && r.threads[r.current].state == Running
  }

  lemma DropKeepsValid(r: Core, t: Tid)
    requires ReadyToDrop(r, t)
    ensures Valid(Drop(r, t)) && Drop(r, t).threads.Keys == r.threads.Keys - {t}
    ensures Drop(r, t) == r.(ring := Without(r.ring, t), threads := Drop(r, t).threads)
    ensures forall k | k in Drop(r, t).threads :: Drop(r, t).threads[k] == r.threads[k]
  {
    WithoutMembers(r.ring, t);
    hide NoDuplicates, Without;
  }
}
