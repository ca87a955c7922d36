/** What holds over whole runs of the scheduler: bounded waiting, sleeping, waking the idle core, saved contexts. */
module SchedulerRuns {
  import opened Arithmetic
  import opened Options
  import opened Sequences
  import opened Scheduler

  predicate Possible(c: Core, steps: seq<Step>)
    requires Valid(c)
    decreases |steps|
  {
    steps == [] || (Enabled(c, steps[0]) && Possible(Next(c, steps[0]), steps[1..]))
  }

  function Run(c: Core, steps: seq<Step>): (r: Core)
    requires Valid(c) && Possible(c, steps)
    ensures Valid(r) && r.idle == c.idle && r.ticks >= c.ticks
    decreases |steps|
  {
    if steps == [] then c else Run(Next(c, steps[0]), steps[1..])
  }

  /** The step calls SelectNextThread. */
  predicate Selects(c: Core, s: Step) {
    match s
    case Timer => c.ticks % 10 == 0 && c.schedule
    case Yield => true
    case Delay(_) => true
    case Exit => true
    case _ => false
  }

  function Selections(c: Core, steps: seq<Step>): nat
    requires Valid(c) && Possible(c, steps)
    decreases |steps|
  {
    if steps == [] then 0 else (if Selects(c, steps[0]) then 1 else 0) + Selections(Next(c, steps[0]), steps[1..])
  }

  function Creations(steps: seq<Step>): nat {
    if steps == [] then 0 else (if steps[0].Create? then 1 else 0) + Creations(steps[1..])
  }

  /** t becomes the current thread at some point of the run. */
  predicate Runs(c: Core, steps: seq<Step>, t: Tid)
    requires Valid(c) && Possible(c, steps)
    decreases |steps|
  {
    c.current == t || (steps != [] && Runs(Next(c, steps[0]), steps[1..], t))
  }

  // ---------------------------------------------------------------- bounded waiting

  /** t is on the ring, able to run, and not running. */
  ghost predicate Waits(c: Core, t: Tid) {
    t in c.ring && t != c.current && CanRun(c, t)
  }

  /** Ring distance ahead of the current thread; position on the ring while idle. */
  function Distance(c: Core, t: Tid): (d: nat)
    requires OthersValid(c)
    ensures d >= 1 && (t in c.ring ==> d <= |c.ring|)
  {
    OrderMembers(c);
    IndexOf(Order(c), t) + 1
  }

  /** The distance in ring positions: while the core idles, one more than the position j of t; else how far t is ahead of
      the current thread, which is at position k, around the ring. */
  lemma DistanceIs(c: Core, k: nat, j: nat)
    requires OthersValid(c) && CurrentAt(c, k) && j < |c.ring| && c.ring[j] != c.current
    ensures Distance(c, c.ring[j])
            == if c.current == c.idle then j + 1 else if j > k then j - k else j + |c.ring| - k
  {
    var n := |c.ring|;
    var i: nat := if c.current == c.idle then j else if j > k then j - k - 1 else j + n - k - 1;
    OrderMembers(c);
    OrderIsRing(c, k, i);
    var at := (if c.current == c.idle then 0 else k + 1) + i;
    DivMod(at, n, if at < n then 0 else 1, j);
    hide Order, OthersValid, NoDuplicates;
    IndexUnique(Order(c), i);
  }

  /** Ahead of t's new position in the ring order, as seen from the selected thread. */
  ghost predicate Advanced(c: Core, r: Core, t: Tid)
    requires OthersValid(c)
  {
    && r.ring == c.ring && r.current in r.ring && t != r.current
    && t in c.threads && t in r.threads && r.threads[t] == c.threads[t]
    && IndexOf(RotateTo(r.ring, r.current), t) + 1 < Distance(c, t)
    && (c.current in c.ring && t != c.current ==>
          IndexOf(RotateTo(r.ring, r.current), t) < IndexOf(RotateTo(r.ring, r.current), c.current))
  }

  /** A selection picks t, or picks a thread before t and brings t closer, keeping it ahead of the old thread. */
  lemma SelectAdvances(c: Core, t: Tid)
    requires OthersValid(c) && Waits(c, t) && t in c.threads
    ensures var r := SelectSpec(c).0; r.threads.Keys == c.threads.Keys && (r.current == t || Advanced(c, r, t))
  {
    hide NoDuplicates, RotateTo, Order, Switch, IndexOf, FirstRunnable;
    OrderMembers(c);
    var order := Order(c);
    var j := IndexOf(order, t);
    var i := FirstRunnableBy(c, order, j);
    SwitchEffect(c, order[i]);
    if i < j {
      AdvancedOrder(c, t, i);
    }
  }

  lemma FirstRunnableBy(c: Core, order: seq<Tid>, j: nat) returns (i: nat)
    requires j < |order| && CanRun(c, order[j])
    ensures FirstRunnable(c, order) == Some(i) && i <= j
  {
    assert order[j] in order;
    i := FirstRunnable(c, order).value;
  }

  lemma AdvancedOrder(c: Core, t: Tid, i: nat)
    requires OthersValid(c) && t in c.ring && t != c.current && i < IndexOf(Order(c), t) < |c.ring|
    ensures var e := Order(c)[i];
            && e in c.ring && e != t && t in RotateTo(c.ring, e)
            && IndexOf(RotateTo(c.ring, e), t) == IndexOf(Order(c), t) - i - 1
            && (c.current in c.ring ==> IndexOf(RotateTo(c.ring, e), t) < IndexOf(RotateTo(c.ring, e), c.current))
  {
    OrderMembers(c);
    var order, j := Order(c), IndexOf(Order(c), t);
    assert NoDuplicates(c.ring) && order[j] == t;
    if c.current != c.idle {
      assert order == RotateTo(c.ring, c.current) && order[|c.ring| - 1] == c.current;
      hide *;
      RotateAhead(c.ring, c.current, order, i, j);
    } else {
      assert order == c.ring && c.current !in c.ring;
      hide OthersValid, RotateTo, IndexOf, Order;
      IndexAfterRotation(c.ring, i, j);
      assert order[i] != order[j];
    }
  }

  /** Distance looks only at the ring and at who is current. */
  lemma SameDistance(c: Core, r: Core, t: Tid)
    requires OthersValid(c) && OthersValid(r) && r.ring == c.ring && r.current == c.current && r.idle == c.idle
    ensures Distance(r, t) == Distance(c, t)
  {
    hide OthersValid;
  }

  lemma RescheduleAdvances(c: Core, t: Tid)
    requires MayYield(c) && Waits(c, t)
    ensures var r := Reschedule(c);
            OthersValid(r) && (r.current == t || (Waits(r, t) && Distance(r, t) + 1 <= Distance(c, t)))
  {
    hide NoDuplicates, RotateTo, SelectSpec, Order, FirstRunnable;
    SelectAdvances(c, t);
    RescheduleKeepsValid(c);
    RingDistance(Reschedule(c), t);
    hide Reschedule;
  }

  lemma RingDistance(r: Core, t: Tid)
    requires OthersValid(r)
    ensures r.current in r.ring ==> Distance(r, t) == IndexOf(RotateTo(r.ring, r.current), t) + 1
  {
    hide NoDuplicates, RotateTo;
  }

  lemma ExitAdvances(c: Core, t: Tid)
    requires Valid(c) && c.current != c.idle && Waits(c, t)
    ensures var r := ExitSpec(c);
            OthersValid(r) && (r.current == t || (Waits(r, t) && Distance(r, t) + 1 <= Distance(c, t)))
  {
    var d, s, r := Terminate(c), ExitSelected(c), ExitSpec(c);
    ExitSwitches(c);
    ExitKeepsValid(c);
    SelectAdvances(d, t);
    SameDistance(c, d, t);
    WithoutMembers(c.ring, c.current);
    hide ExitSpec, ExitSelected, SelectSpec, Order, RotateTo, Without, Distance;
    if r.current != t {
      DropDistance(c, r, t);
    }
  }

  lemma DropDistance(c: Core, r: Core, t: Tid)
    requires NoDuplicates(c.ring) && c.current in c.ring && t in c.ring && t != c.current && t != r.current
    requires OthersValid(r) && r.ring == Without(c.ring, c.current) && r.current in c.ring && r.current != c.current
    requires IndexOf(RotateTo(c.ring, r.current), t) < IndexOf(RotateTo(c.ring, r.current), c.current)
    ensures Distance(r, t) == IndexOf(RotateTo(c.ring, r.current), t) + 1
  {
    var order := RotateTo(c.ring, r.current);
    WithoutRotation(c.ring, r.current, c.current);
    RotationMembers(c.ring, IndexOf(c.ring, r.current));
    IndexWithoutLater(order, IndexOf(order, t), IndexOf(order, c.current));
    RingDistance(r, t);
    hide RotateTo, Without, Distance, NoDuplicates, OthersValid;
  }

  lemma CreateDistance(c: Core, context: nat, t: Tid)
    requires Valid(c) && CreateSpec(c, context).Some? && Waits(c, t)
    ensures var r := CreateSpec(c, context).value; OthersValid(r) && Waits(r, t) && Distance(r, t) <= Distance(c, t) + 1
  {
    CreateKeepsValid(c, context);
    var r := CreateSpec(c, context).value;
    var id := LowestFreeId(c.threads, 0).value;
    if c.current == c.idle {
      OrderMembers(c);
      assert r.ring[IndexOf(c.ring, t) + 1] == t;
      IndexAtMost(r.ring, t, IndexOf(c.ring, t) + 1);
    } else {
      IndexPushed(c.ring, id, c.current, t);
    }
    hide RotateTo, NoDuplicates, LowestFreeId;
  }

  /** One step: t gets the processor, or stays ready to run; it then is closer by one if the step selected,
      and at most one further away if the step created a thread. */
  lemma WaitStep(c: Core, s: Step, t: Tid)
    requires Valid(c) && Enabled(c, s) && Waits(c, t)
    ensures var r := Next(c, s);
            r.current == t
            || (Waits(r, t) && Distance(r, t) + (if Selects(c, s) then 1 else 0) <= Distance(c, t) + (if s.Create? then 1 else 0))
  {
    assert c.current in c.threads;
    hide NoDuplicates, Reschedule, ExitSpec, MayYield, OthersValid, Distance, WaitSpec;
    var r := Next(c, s);
    match s
    case Timer =>
      RunningMayYield(c);
      if Selects(c, s) {
        RescheduleAdvances(c, t);
        RescheduleKeepsValid(c);
        SameDistance(Reschedule(c), r, t);
      } else {
        SameDistance(c, r, t);
      }
    case Yield =>
      RunningMayYield(c);
      RescheduleAdvances(c, t);
    case Delay(delay) =>
      WaitKeepsOthers(c, delay, t);
      RescheduleAdvances(WaitSpec(c, delay), t);
    case Exit => ExitAdvances(c, t);
    case Create(context) => CreateDistance(c, context, t);
    case Execute(cpu) => SameDistance(c, r, t);
    case StartIdle => SameDistance(c, r, t);
  }

  lemma WaitKeepsOthers(c: Core, delay: nat, t: Tid)
    requires Valid(c) && c.current != c.idle && Waits(c, t)
    ensures MayYield(WaitSpec(c, delay)) && OthersValid(WaitSpec(c, delay))
    ensures Waits(WaitSpec(c, delay), t) && Distance(WaitSpec(c, delay), t) == Distance(c, t)
  {
    WaitIsOthersValid(c, delay);
    SameDistance(c, WaitSpec(c, delay), t);
    hide NoDuplicates, Distance, OthersValid;
  }

  /** Bounded waiting: a thread that can run gets the processor before more selections have happened
      than its distance plus the number of threads created meanwhile, whatever the other threads do. */
  lemma {:induction false} BoundedWaiting(c: Core, steps: seq<Step>, t: Tid)
    requires Valid(c) && Possible(c, steps) && Waits(c, t)
    requires Selections(c, steps) >= Distance(c, t) + Creations(steps)
    ensures Runs(c, steps, t)
    decreases |steps|
  {
    hide Valid, Enabled, Waits, Distance, Selects;
    if steps != [] {
      WaitStep(c, steps[0], t);
      if Next(c, steps[0]).current != t {
        BoundedWaiting(Next(c, steps[0]), steps[1..], t);
      } else {
        NowRuns(Next(c, steps[0]), steps[1..], t);
      }
    } else {
      DistancePositive(c, t);
    }
  }

  lemma DistancePositive(c: Core, t: Tid)
    requires OthersValid(c)
    ensures Distance(c, t) >= 1
  {
  }

  lemma NowRuns(c: Core, steps: seq<Step>, t: Tid)
    requires Valid(c) && Possible(c, steps) && c.current == t
    ensures Runs(c, steps, t)
  {
  }

  /** In particular ring-length selections are always enough when no thread is created. */
  lemma WaitsAtMostOneRound(c: Core, steps: seq<Step>, t: Tid)
    requires Valid(c) && Possible(c, steps) && Waits(c, t)
    requires Creations(steps) == 0 && Selections(c, steps) >= |c.ring|
    ensures Runs(c, steps, t)
  {
    assert Distance(c, t) <= |c.ring|;
    BoundedWaiting(c, steps, t);
  }

  /** Timer interrupts until the next one that is a check. */
  function Phase(ticks: nat): (n: nat)
    ensures n < 10
  {
    (10 - ticks % 10) % 10
  }

  lemma PhaseStep(ticks: nat)
    ensures Phase(ticks) >= 0 && (ticks % 10 == 0 ==> Phase(ticks + 1) == 9) && (ticks % 10 != 0 ==> Phase(ticks) == Phase(ticks + 1) + 1)
  {
  }

  /** Once preemption is allowed, ten timer interrupts contain a selection. */
  lemma {:induction false} TimersSelect(c: Core, steps: seq<Step>)
    requires Valid(c) && Possible(c, steps) && c.schedule
    ensures Timers(steps) <= 10 * Selections(c, steps) + Phase(c.ticks)
    decreases |steps|
  {
    hide Valid, Enabled, Next, Phase;
    PhaseStep(c.ticks);
    if steps != [] {
      StepCounts(c, steps[0]);
      TimersSelect(Next(c, steps[0]), steps[1..]);
    }
  }

  /** Preemption stays allowed, and only timer interrupts advance the clock. */
  lemma StepCounts(c: Core, s: Step)
    requires Valid(c) && Enabled(c, s)
    ensures (c.schedule ==> Next(c, s).schedule) && Next(c, s).ticks == c.ticks + if s.Timer? then 1 else 0
  {
    hide NoDuplicates, Reschedule, MayYield, ExitSpec;
    match s
    case Timer =>
      RunningMayYield(c);
      RescheduleKeepsValid(c);
    case Yield =>
      RunningMayYield(c);
      RescheduleKeepsValid(c);
    case Delay(delay) =>
      WaitIsOthersValid(c, delay);
      RescheduleKeepsValid(WaitSpec(c, delay));
    case Exit => ExitKeepsValid(c);
    case Create(_) =>
    case Execute(_) =>
    case StartIdle =>
  }

  /** Bounded waiting in time: ten timer interrupts for each place of the distance and each thread created meanwhile. */
  lemma WaitsBoundedTime(c: Core, steps: seq<Step>, t: Tid)
    requires Valid(c) && Possible(c, steps) && Waits(c, t) && c.schedule
    requires Timers(steps) >= 10 * (Distance(c, t) + Creations(steps))
    ensures Runs(c, steps, t)
  {
    hide Valid, Waits, Distance, Runs;
    TimersSelect(c, steps);
    BoundedWaiting(c, steps, t);
  }

  // ---------------------------------------------------------------- sleeping

  /** t waits for a deadline that has not been reached. */
  ghost predicate Asleep(c: Core, t: Tid, deadline: nat) {
    t in c.ring && t != c.current && t in c.threads && c.threads[t].state == Waiting && c.threads[t].delay == deadline
  }

  lemma SelectKeepsAsleep(c: Core, t: Tid, deadline: nat)
    requires OthersValid(c) && Asleep(c, t, deadline) && c.ticks < deadline
    ensures Asleep(SelectSpec(c).0, t, deadline)
  {
    SelectIsSafe(c);
    hide SelectSpec, OthersValid;
  }

  /** No step wakes a thread before its deadline. */
  lemma SleepStep(c: Core, s: Step, t: Tid, deadline: nat)
    requires Valid(c) && Enabled(c, s) && Asleep(c, t, deadline) && c.ticks < deadline
    ensures Asleep(Next(c, s), t, deadline)
  {
    assert OthersValid(c) && c.current in c.threads && (c.current != c.idle ==> c.current in c.ring);
    hide NoDuplicates, Reschedule, MayYield, OthersValid, SelectSpec, ExitSelected, Without;
    match s
    case Timer =>
      RunningMayYield(c);
      SelectKeepsAsleep(c, t, deadline);
      RescheduleKeepsValid(c);
    case Yield =>
      RunningMayYield(c);
      SelectKeepsAsleep(c, t, deadline);
      RescheduleKeepsValid(c);
    case Delay(delay) =>
      WaitIsOthersValid(c, delay);
      MayYieldOthers(WaitSpec(c, delay));
      SelectKeepsAsleep(WaitSpec(c, delay), t, deadline);
      RescheduleKeepsValid(WaitSpec(c, delay));
    case Exit => ExitKeepsAsleep(c, t, deadline);
    case Create(context) =>
    case Execute(cpu) =>
    case StartIdle =>
  }

  lemma ExitKeepsAsleep(c: Core, t: Tid, deadline: nat)
    requires Valid(c) && c.current != c.idle && Asleep(c, t, deadline) && c.ticks < deadline
    ensures Asleep(ExitSpec(c), t, deadline)
  {
    ExitSwitches(c);
    SelectKeepsAsleep(Terminate(c), t, deadline);
    WithoutMembers(c.ring, c.current);
    ExitKeepsValid(c);
    hide NoDuplicates, SelectSpec, Without, ExitSpec;
  }

  lemma {:induction false} Sleeps(c: Core, steps: seq<Step>, t: Tid, deadline: nat)
    requires Valid(c) && Possible(c, steps) && Asleep(c, t, deadline) && Run(c, steps).ticks < deadline
    ensures Asleep(Run(c, steps), t, deadline) && Run(c, steps).current != t
    decreases |steps|
  {
    hide Valid, Enabled;
    if steps != [] {
      SleepStep(c, steps[0], t, deadline);
      hide Asleep;
      Sleeps(Next(c, steps[0]), steps[1..], t, deadline);
    }
  }

  /** Whether Delay blocks: the deadline is a 64-bit sum, so it lies ahead unless the sum wraps around;
      Delay(0) keeps a deadline that has passed and never blocks. */
  lemma DelayBlocks(c: Core, delay: nat)
    requires Valid(c) && c.current != c.idle && c.ticks < WORD && delay < WORD
    ensures var w := WaitSpec(c, delay);
            !Runnable(w.threads[c.current], w.ticks) <==> delay > 0 && c.ticks + delay < WORD
  {
    hide NoDuplicates;
  }

  /** At the end of the 64-bit range a delay of one tick ends before it begins. */
  lemma WrappingDelay()
    ensures var c := Core([1], map[0 := Thread(Ready, 0, 0), 1 := Thread(Running, 0, 0)], 1, 0, WORD - 1, true, 0);
            Valid(c) && WaitSpec(c, 1).threads[1].delay == 0 && CanRun(WaitSpec(c, 1), 1)
  {
  }

  /** A thread that calls Delay(n) does not run again until n ticks have passed. */
  lemma SleepsAtLeast(c: Core, delay: nat, steps: seq<Step>)
    requires Valid(c) && c.current != c.idle && delay > 0 && c.ticks + delay < WORD && Possible(c, [Delay(delay)] + steps)
    requires Run(c, [Delay(delay)] + steps).current == c.current
    ensures Run(c, [Delay(delay)] + steps).ticks >= c.ticks + delay
  {
    var t, r := c.current, Next(c, Delay(delay));
    assert ([Delay(delay)] + steps)[1..] == steps;
    DelayFallsAsleep(c, delay);
    hide Valid, Asleep;
    if Run(r, steps).ticks < c.ticks + delay {
      Sleeps(r, steps, t, c.ticks + delay);
    }
  }

  lemma DelayFallsAsleep(c: Core, delay: nat)
    requires Valid(c) && c.current != c.idle && delay > 0 && c.ticks + delay < WORD
    ensures Asleep(Next(c, Delay(delay)), c.current, c.ticks + delay)
  {
    var w := WaitSpec(c, delay);
    WaitMarks(c, delay);
    hide NoDuplicates, SelectSpec, Reschedule, MayYield, WaitSpec, Valid, OthersValid;
    WaitIsOthersValid(c, delay);
    MayYieldOthers(w);
    SelectIsSafe(w);
    RescheduleKeepsValid(w);
  }

  lemma WaitMarks(c: Core, delay: nat)
    requires Valid(c) && c.current != c.idle && delay > 0 && c.ticks + delay < WORD
    ensures var w := WaitSpec(c, delay);
            && w.current == c.current && w.ring == c.ring && w.idle == c.idle && c.current in c.ring && c.current in w.threads
            && w.threads[c.current].state == Waiting && w.threads[c.current].delay == c.ticks + delay && !CanRun(w, c.current)
  {
    hide NoDuplicates;
  }

  // ---------------------------------------------------------------- waking the idle core

  /** The first multiple of ten, not before now, at which the deadline has passed. */
  function FirstCheck(now: nat, deadline: nat): (m: nat)
    ensures m >= now && m >= deadline && m % 10 == 0
    ensures forall k | k % 10 == 0 && k >= now && k >= deadline :: m <= k
  {
    var from := if now >= deadline then now else deadline;
    (from + 9) / 10 * 10
  }

  function Timers(steps: seq<Step>): nat {
    if steps == [] then 0 else (if steps[0].Timer? then 1 else 0) + Timers(steps[1..])
  }

  /** Some thread other than the idle one becomes current during the run. */
  predicate LeavesIdle(c: Core, steps: seq<Step>)
    requires Valid(c) && Possible(c, steps)
    decreases |steps|
  {
    c.current != c.idle || (steps != [] && LeavesIdle(Next(c, steps[0]), steps[1..]))
  }

  /** A timer interrupt on the idle core either wakes it or only counts the tick; it wakes it if it is a check
      and some thread can run. */
  lemma IdleTimer(c: Core)
    requires Valid(c) && c.current == c.idle
    ensures var r := Next(c, Timer);
            && (r.current == c.idle ==> r == c.(ticks := c.ticks + 1))
            && (c.schedule && c.ticks % 10 == 0 && (exists t :: t in c.ring && CanRun(c, t)) ==> r.current != c.idle)
  {
    RunningMayYield(c);
    SelectIsSafe(c);
    OrderMembers(c);
    IdleNeverSelectsItself(c);
    RescheduleKeepsValid(c);
    hide NoDuplicates, SelectSpec;
  }

  lemma IdleNeverSelectsItself(c: Core)
    requires OthersValid(c) && c.current == c.idle
    ensures SelectSpec(c).1 ==> SelectSpec(c).0.current in c.ring
  {
    OrderMembers(c);
  }

  lemma RingCanRun(c: Core, t: Tid)
    requires Valid(c) && c.current == c.idle && t in c.ring
    ensures c.threads.Keys >= {c.current, t} && (c.threads[t].delay <= c.ticks ==> CanRun(c, t))
  {
  }

  /** Any other step on the idle core leaves it idle, with the clock, the threads and their deadlines as they are. */
  lemma IdleOtherStep(c: Core, s: Step, t: Tid)
    requires Valid(c) && Enabled(c, s) && c.current == c.idle && !s.Timer? && t in c.ring
    ensures var r := Next(c, s);
            && r.current == r.idle && r.ticks == c.ticks && (c.schedule ==> r.schedule)
            && t in c.threads && t in r.ring && t in r.threads && r.threads[t] == c.threads[t]
  {
    hide NoDuplicates;
    match s
    case Create(context) => assert LowestFreeId(c.threads, 0).value !in c.threads;
    case Execute(_) =>
    case StartIdle =>
  }

  /** The wake-up bound: over any run with more timer interrupts than there are ticks up to the first multiple of ten
      at or after the deadline of some thread, the core leaves idle. */
  lemma {:induction false} IdleWakes(c: Core, steps: seq<Step>, t: Tid, deadline: nat)
    requires Valid(c) && Possible(c, steps) && c.current == c.idle && c.schedule && t in c.ring && c.threads[t].delay <= deadline
    requires Timers(steps) > FirstCheck(c.ticks, deadline) - c.ticks
    ensures LeavesIdle(c, steps)
    decreases |steps|
  {
    hide Valid, OthersValid, Next, CanRun, Enabled;
    var r, s := Next(c, steps[0]), steps[0];
    if s.Timer? {
      IdleTimer(c);
      RingCanRun(c, t);
      if r.current == c.idle {
        assert FirstCheck(r.ticks, deadline) == FirstCheck(c.ticks, deadline);
        IdleWakes(r, steps[1..], t, deadline);
      } else {
        NotIdle(c, steps);
      }
    } else {
      IdleOtherStep(c, s, t);
      IdleWakes(r, steps[1..], t, deadline);
    }
  }

  lemma NotIdle(c: Core, steps: seq<Step>)
    requires Valid(c) && Possible(c, steps) && steps != [] && Next(c, steps[0]).current != c.idle
    ensures LeavesIdle(c, steps)
  {
    assert LeavesIdle(Next(c, steps[0]), steps[1..]);
  }

  // ---------------------------------------------------------------- saved contexts

  /** A thread without the processor keeps its saved context and finds it in the processor when it is selected;
      a thread that loses the processor has its context saved. */
  lemma ContextStep(c: Core, s: Step, t: Tid)
    requires Valid(c) && Enabled(c, s) && t in c.threads
    ensures var r := Next(c, s);
            && (t != c.current ==> t in r.threads)
            && (t != c.current && r.current == t ==> r.cpu == c.threads[t].context)
            && (t != c.current && r.current != t ==> r.threads[t].context == c.threads[t].context)
            && (t == c.current && r.current != t && !s.Exit? ==> t in r.threads && r.threads[t].context == c.cpu)
            && (t == c.current && r.current == t && !s.Execute? ==> r.cpu == c.cpu)
  {
    assert OthersValid(c) && c.current in c.threads;
    hide NoDuplicates, Reschedule, MayYield, OthersValid, SelectSpec, ExitSpec, WaitSpec;
    match s
    case Timer => RescheduleContext(c, t);
    case Yield => RescheduleContext(c, t);
    case Delay(delay) =>
      WaitIsOthersValid(c, delay);
      MayYieldOthers(WaitSpec(c, delay));
      WaitKeepsContext(c, delay);
      RescheduleContext(WaitSpec(c, delay), t);
    case Exit => ExitContext(c, t);
    case Create(context) =>
    case Execute(cpu) =>
    case StartIdle =>
  }

  lemma WaitKeepsContext(c: Core, delay: nat)
    requires c.current in c.threads
    ensures var w := WaitSpec(c, delay);
            w.current == c.current && w.cpu == c.cpu && w.threads.Keys == c.threads.Keys
            && forall t | t in c.threads :: w.threads[t].context == c.threads[t].context
  {
  }

  lemma RescheduleContext(c: Core, t: Tid)
    requires OthersValid(c) && t in c.threads
    ensures var r := Reschedule(c);
            && t in r.threads
            && (t != c.current && r.current == t ==> r.cpu == c.threads[t].context)
            && (t != c.current && r.current != t ==> r.threads[t].context == c.threads[t].context)
            && (t == c.current && r.current != t ==> r.threads[t].context == c.cpu)
            && (t == c.current && r.current == t ==> r.cpu == c.cpu)
  {
    SelectIsSafe(c);
    hide SelectSpec, OthersValid;
  }

  lemma ExitContext(c: Core, t: Tid)
    requires Valid(c) && c.current != c.idle && t in c.threads
    ensures var r := ExitSpec(c);
            t != c.current ==> t in r.threads && (if r.current == t then r.cpu == c.threads[t].context
                                                  else r.threads[t].context == c.threads[t].context)
  {
    ExitSwitches(c);
    SelectIsSafe(Terminate(c));
    ExitKeepsValid(c);
    hide SelectSpec, OthersValid, ExitSpec, Without;
  }

  /** The state of the run when t first becomes current. */
  function WhenRuns(c: Core, steps: seq<Step>, t: Tid): Core
    requires Valid(c) && Possible(c, steps) && Runs(c, steps, t)
    decreases |steps|
  {
    if c.current == t then c else WhenRuns(Next(c, steps[0]), steps[1..], t)
  }

  /** A preempted thread resumes with exactly the context that was saved for it. */
  lemma {:induction false} ResumesSavedContext(c: Core, steps: seq<Step>, t: Tid)
    requires Valid(c) && Possible(c, steps) && Runs(c, steps, t) && t in c.threads && t != c.current
    ensures WhenRuns(c, steps, t).cpu == c.threads[t].context
    decreases |steps|
  {
    hide Valid, Enabled, Next;
    ContextStep(c, steps[0], t);
    if Next(c, steps[0]).current != t {
      ResumesSavedContext(Next(c, steps[0]), steps[1..], t);
    }
  }
}
