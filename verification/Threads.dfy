/** The thread objects and the core of kernel/core/thread.cc, updated in place and tied to the state machine of Scheduler. */
module Threads {
  import opened Arithmetic
  import opened Maps
  import opened Options
  import opened Sequences
  import opened SList
  import opened Bitmap
  import S = Scheduler

  class Thread {
    const id: nat
    var entry: Entry?<Thread>  // thread_list_entry
    var state: S.State
    var delay: nat
    var context: nat

    constructor (id: nat, context: nat)
      ensures this.id == id && this.context == context && state == S.Ready && delay == 0
      ensures entry != null && entry.record == this && fresh(entry)
    {
      this.id, this.context := id, context;
      state, delay := S.Ready, 0;
      entry := null;
      new;
      entry := new Entry<Thread>(this);
    }
  }

  function Ids(es: seq<Entry<Thread>>): (r: seq<nat>)
    ensures |r| == |es| && forall i | 0 <= i < |es| :: r[i] == es[i].record.id
  {
    seq(|es|, i requires 0 <= i < |es| => es[i].record.id)
  }

  lemma IdsWithout(es: seq<Entry<Thread>>, entry: Entry<Thread>, id: nat)
    requires forall k | 0 <= k < |es| :: es[k] == entry <==> es[k].record.id == id
    ensures Ids(Without(es, entry)) == Without(Ids(es), id)
  {
    hide IndexOf;
    var k := IndexOf(es, entry);
    if k < |es| {
      IndexIs(Ids(es), id, k);
    } else {
      assert id !in Ids(es);
    }
  }

  lemma FirstRunnableIs(c: S.Core, order: seq<nat>, i: nat)
    requires i < |order| && S.CanRun(c, order[i]) && forall k | 0 <= k < i :: !S.CanRun(c, order[k])
    ensures S.FirstRunnable(c, order) == Some(i)
  {
    assert order[i] in order;
  }

  lemma NoneRunnable(c: S.Core, order: seq<nat>)
    requires forall k | 0 <= k < |order| :: !S.CanRun(c, order[k])
    ensures S.FirstRunnable(c, order) == None
  {
  }

  /** Position p behind k on a ring of n entries. */
  function Ahead(n: nat, k: nat, p: nat): (a: nat)
    requires k < n && p < n
    ensures a < n
  {
    if k + 1 + p < n then k + 1 + p else k + 1 + p - n
  }

  lemma OrderAhead(c: S.Core, k: nat, p: nat)
    requires S.OthersValid(c) && c.current != c.idle && k < |c.ring| && c.ring[k] == c.current && p < |c.ring|
    ensures S.Order(c)[p] == c.ring[Ahead(|c.ring|, k, p)]
  {
    IndexUnique(c.ring, k);
  }

  lemma LastIsCurrent(c: S.Core, k: nat, p: nat)
    requires S.OthersValid(c) && c.current != c.idle && k < |c.ring| && c.ring[k] == c.current && p < |c.ring|
    ensures c.ring[Ahead(|c.ring|, k, p)] == c.current <==> p == |c.ring| - 1
  {
    IndexUnique(c.ring, k);
  }

  class KernelCore {
    var current: Thread
    var idle: Thread
    const list: Head<Thread>  // thread_list_head
    const ids: ConstBitmap    // thread_map
    var ticks: nat
    var schedule: bool
    var cpu: nat              // the context the processor runs with
    ghost var live: map<nat, Thread>

    ghost predicate LiveLinked()
      reads this`current, this`idle, this`live, live.Values`entry
    {
      && (forall t | t in live :: live[t].id == t && live[t].entry != null && live[t].entry.record == live[t])
      && current.id in live && live[current.id] == current
      && idle.id in live && live[idle.id] == idle
    }

    ghost predicate RingLinked(es: seq<Entry<Thread>>)
      reads this`live, live.Values`entry
    {
      forall e | e in es :: e.record.id in live && live[e.record.id] == e.record && e.record.entry == e
    }

    /** The bitmap marks exactly these ids. */
    static ghost predicate Marks(bits: seq<bool>, live: set<nat>) {
      && |bits| == S.MAX_THREADS && (forall t | t in live :: t < S.MAX_THREADS)
      && (forall t | 0 <= t < S.MAX_THREADS :: bits[t] <==> t in live)
    }

    ghost predicate IdsLinked()
      reads this`live, ids.data
    {
      ids.Valid() && Marks(ids.Bits(), live.Keys)
    }

    /** Ring entries and live threads refer to each other, and the id bitmap marks the live threads. */
    ghost predicate Linked()
      reads this`current, this`idle, this`live, list, list.entries, live.Values`entry, ids.data
    {
      list.Valid() && LiveLinked() && RingLinked(list.entries) && IdsLinked()
    }

    ghost function Threads(): (r: map<nat, S.Thread>)
      reads this`live, live.Values
      ensures r.Keys == live.Keys
    {
      map t | t in live :: S.Thread(live[t].state, live[t].delay, live[t].context)
    }

    ghost function Abs(): S.Core
      reads this, list, live.Values
    {
      S.Core(Ids(list.entries), Threads(), current.id, idle.id, ticks, schedule, cpu)
    }

    ghost predicate Valid()
      reads this, list, list.entries, live.Values, ids.data
    {
      Linked() && S.Valid(Abs())
    }

    lemma Parts()
      ensures Valid() <==> Linked() && S.Valid(Abs())
      ensures Linked() <==> list.Valid() && LiveLinked() && RingLinked(list.entries) && IdsLinked()
      ensures IdsLinked() <==> ids.Valid() && Marks(ids.Bits(), live.Keys)
      ensures IdsLinked() ==> ids.data.Length * BITS == S.MAX_THREADS
      ensures Abs() == S.Core(Ids(list.entries), Threads(), current.id, idle.id, ticks, schedule, cpu)
    {
      hide Head.Valid, LiveLinked, RingLinked, Ids, Threads, S.Valid;
    }

    /** StartScheduler: the idle thread takes id 0 and is current; no other thread exists. */
    constructor (context: nat)
      ensures Valid() && Abs() == S.Core([], map[0 := S.Thread(S.Ready, 0, context)], 0, 0, 0, false, 0)
      ensures fresh(list) && fresh(ids.data) && fresh(live.Values)
    {
      var thread := new Thread(0, context);
      current, idle := thread, thread;
      list := new Head<Thread>();
      ids := new ConstBitmap(S.MAX_THREADS / BITS);
      ticks, schedule, cpu := 0, false, 0;
      live := map[0 := thread];
      new;
      StartIsValid(context);
      hide S.Valid, BitsOf, ConstBitmap.Valid;
      ids.SetBit(0);
      assert Abs() == S.Core([], map[0 := S.Thread(S.Ready, 0, context)], 0, 0, 0, false, 0) by {
        hide Linked;
      }
      hide Abs;
    }

    static lemma StartIsValid(context: nat)
      ensures S.Valid(S.Core([], map[0 := S.Thread(S.Ready, 0, context)], 0, 0, 0, false, 0))
    {
    }

    // -------------------------------------------------------------- selecting

    /** The test SelectNextThread applies to each thread it looks at. */
    predicate Runnable(t: Thread)
      reads this, t
    {
      t.state == S.Ready || (t.state == S.Waiting && t.delay <= ticks)
    }

    /** What a scan knows about the entry at a ring position. */
    lemma EntryAt(i: nat)
      requires Linked() && i < |list.entries|
      ensures var e := list.entries[i];
              && e.record.id == Abs().ring[i] && e.record.id in live && live[e.record.id] == e.record
              && (Runnable(e.record) <==> S.CanRun(Abs(), Abs().ring[i]))
              && e.next == list.entries[if i < |list.entries| - 1 then i + 1 else 0]
              && (e.record.id == current.id <==> e.record == current)
    {
      assert list.entries[i] in list.entries;
    }

    lemma CurrentIsLinked() returns (k: nat)
      requires Linked() && S.OthersValid(Abs()) && current != idle
      ensures k < |list.entries| && list.entries[k] == current.entry
    {
      assert live[current.id] == current && live[idle.id] == idle;
      k := IndexOf(Ids(list.entries), current.id);
      assert list.entries[k] in list.entries;
    }

    /** The scan when the core idles: from the first thread to the end of the ring; null when none can run. */
    method FindFromIdle() returns (next: Thread?)
      requires Linked() && S.OthersValid(Abs()) && current == idle && list.entries != []
      ensures match S.FirstRunnable(Abs(), S.Order(Abs()))
              case None => next == null
              case Some(i) => next != null && next.id == S.Order(Abs())[i] && next.id in live && live[next.id] == next
    {
      hide Linked, Abs, S.OthersValid, S.Order, S.CanRun, S.FirstRunnable, Runnable;
      IdleStep(0);
      ghost var i := 0;
      var entry := list.next;
      while true
        invariant |S.Order(Abs())| == |list.entries|
        invariant i < |list.entries| && entry == list.entries[i]
        invariant forall k | 0 <= k < i :: !S.CanRun(Abs(), S.Order(Abs())[k])
        decreases |list.entries| - i
      {
        IdleStep(i);
        if Runnable(entry.record) {
          FirstRunnableIs(Abs(), S.Order(Abs()), i);
          return entry.record;
        }
        if entry.next == list.next {
          NoneRunnable(Abs(), S.Order(Abs()));
          return null;
        }
        entry := entry.next;
        i := i + 1;
      }
    }

    /** What the scan from idle meets at its i-th step. */
    lemma IdleStep(i: nat)
      requires Linked() && S.OthersValid(Abs()) && current == idle && i < |list.entries|
      ensures var e := list.entries[i];
              && e.record.id in live && live[e.record.id] == e.record && |S.Order(Abs())| == |list.entries|
              && e.record.id == S.Order(Abs())[i] && (Runnable(e.record) <==> S.CanRun(Abs(), S.Order(Abs())[i]))
              && (e.next == list.next <==> i == |list.entries| - 1) && (i < |list.entries| - 1 ==> e.next == list.entries[i + 1])
              && list.next == list.entries[0]
    {
      EntryAt(i);
      if list.entries[i].next == list.next {
        ClosesAtLast(list.entries, i);
      }
      hide Runnable, S.CanRun;
    }

    /** The scan from behind the current thread, once around; null when it comes back without a thread that can run. */
    method FindFromCurrent() returns (next: Thread?)
      requires Linked() && S.OthersValid(Abs()) && current != idle
      ensures match S.FirstRunnable(Abs(), S.Order(Abs()))
              case None => next == null
              case Some(i) => next != null && next.id == S.Order(Abs())[i] && next.id in live && live[next.id] == next
    {
      hide Linked, Abs, S.OthersValid, S.Order, S.CanRun, S.FirstRunnable, Runnable;
      ghost var k := CurrentIsLinked();
      EntryAt(k);
      var entry := current.entry.next;
      ghost var p := 0;
      ScanStep(k, 0);
      while true
        invariant |S.Order(Abs())| == |list.entries|
        invariant p < |list.entries| && entry == list.entries[Ahead(|list.entries|, k, p)]
        invariant forall q | 0 <= q < p :: !S.CanRun(Abs(), S.Order(Abs())[q])
        decreases |list.entries| - p
      {
        ScanStep(k, p);
        if Runnable(entry.record) {
          FirstRunnableIs(Abs(), S.Order(Abs()), p);
          return entry.record;
        }
        if entry.record == current {  // back where the scan began
          NoneRunnable(Abs(), S.Order(Abs()));
          return null;
        }
        entry := entry.next;
        p := p + 1;
      }
    }

    /** What the scan from behind the current thread, at position k, meets at its p-th step. */
    lemma ScanStep(k: nat, p: nat)
      requires Linked() && S.OthersValid(Abs()) && current != idle && k < |list.entries| && p < |list.entries|
      requires list.entries[k] == current.entry
      ensures var e := list.entries[Ahead(|list.entries|, k, p)];
              && e.record.id in live && live[e.record.id] == e.record && e.record.id == S.Order(Abs())[p]
              && (Runnable(e.record) <==> S.CanRun(Abs(), S.Order(Abs())[p]))
              && (e.record == current <==> p == |list.entries| - 1) && |S.Order(Abs())| == |list.entries|
              && (p < |list.entries| - 1 ==> e.next == list.entries[Ahead(|list.entries|, k, p + 1)])
    {
      EntryAt(k);
      EntryAt(Ahead(|list.entries|, k, p));
      CurrentIsNotIdle();
      hide Linked, S.OthersValid, S.Order, Runnable, S.CanRun;
      OrderAhead(Abs(), k, p);
      LastIsCurrent(Abs(), k, p);
    }

    lemma CurrentIsNotIdle()
      requires Linked() && current != idle
      ensures current.id != idle.id
    {
    }

    /** SelectNextThread: true if a new thread was selected. */
    method SelectNextThread() returns (selected: bool)
      requires Linked() && S.OthersValid(Abs())
      modifies this`current, live.Values
      ensures Linked() && (Abs(), selected) == S.SelectSpec(old(Abs()))
    {
      hide Linked, Abs, S.OthersValid, S.Order, S.FirstRunnable, S.Switch, S.SelectSpec;
      var next := ChooseNext();
      if next == null {
        return false;
      }
      SwitchTo(next);
      return true;
    }

    /** The thread SelectNextThread switches to; null if it leaves everything as it is. */
    method ChooseNext() returns (next: Thread?)
      requires Linked() && S.OthersValid(Abs())
      ensures if next == null then S.SelectSpec(Abs()) == (Abs(), false)
              else next.id in live && live[next.id] == next && next.id in Abs().threads && current.id in Abs().threads
                   && S.SelectSpec(Abs()) == (S.Switch(Abs(), next.id), true)
    {
      hide Linked, Abs, Ids, Threads, LiveLinked, RingLinked, IdsLinked, S.OthersValid, S.Order, S.FirstRunnable, S.Switch, S.SelectSpec;
      SelectCases();
      if list.next == null {
        return null;
      }
      if current == idle {
        next := FindFromIdle();
      } else {
        next := FindFromCurrent();
        if next == null && current.state != S.Running {
          next := idle;
        }
      }
    }

    /** SelectSpec in terms of the objects. */
    lemma SelectCases()
      requires Linked() && S.OthersValid(Abs())
      ensures (list.next == null) == (list.entries == [])
      ensures list.next == null ==> S.SelectSpec(Abs()) == (Abs(), false)
      ensures list.next != null ==>
                match S.FirstRunnable(Abs(), S.Order(Abs()))
                case Some(i) => S.Order(Abs())[i] in Abs().threads && S.SelectSpec(Abs()) == (S.Switch(Abs(), S.Order(Abs())[i]), true)
                case None => if current == idle || current.state == S.Running then S.SelectSpec(Abs()) == (Abs(), false)
                             else S.SelectSpec(Abs()) == (S.Switch(Abs(), idle.id), true)
      ensures idle.id in live && live[idle.id] == idle && current.id in Abs().threads && idle.id in Abs().threads
    {
      S.OrderMembers(Abs());
      if S.FirstRunnable(Abs(), S.Order(Abs())).Some? {
        assert S.Order(Abs())[S.FirstRunnable(Abs(), S.Order(Abs())).value] in S.Order(Abs());
      }
      assert current.id == idle.id <==> current == idle;
      hide NoDuplicates, S.Order, S.Switch, S.FirstRunnable;
    }

    // -------------------------------------------------------------- switching

    /** Different ids are different objects. */
    lemma OwnId(t: Thread)
      requires Linked() && t.id in live && live[t.id] == t
      ensures t.id in Abs().threads && forall k | k in live && live[k] == t :: k == t.id
    {
    }

    method SetState(t: Thread, state: S.State)
      requires Linked() && t.id in live && live[t.id] == t
      modifies t`state
      ensures Linked() && t.id in old(Abs()).threads
      ensures Abs() == old(Abs()).(threads := old(Abs()).threads[t.id := old(Abs()).threads[t.id].(state := state)])
    {
      hide Linked, Abs, Ids, LiveLinked, RingLinked, IdsLinked;
      OwnId(t);
      Parts();
      ghost var before := Threads();
      t.state := state;
      assert Threads() == before[t.id := before[t.id].(state := state)];
      Parts();
    }

    method SetContext(t: Thread, context: nat)
      requires Linked() && t.id in live && live[t.id] == t
      modifies t`context
      ensures Linked() && t.id in old(Abs()).threads
      ensures Abs() == old(Abs()).(threads := old(Abs()).threads[t.id := old(Abs()).threads[t.id].(context := context)])
    {
      hide Linked, Abs, Ids, LiveLinked, RingLinked, IdsLinked;
      OwnId(t);
      Parts();
      ghost var before := Threads();
      t.context := context;
      assert Threads() == before[t.id := before[t.id].(context := context)];
      Parts();
    }

    method SetDelay(t: Thread, delay: nat)
      requires Linked() && t.id in live && live[t.id] == t
      modifies t`delay
      ensures Linked() && t.id in old(Abs()).threads
      ensures Abs() == old(Abs()).(threads := old(Abs()).threads[t.id := old(Abs()).threads[t.id].(delay := delay)])
    {
      hide Linked, Abs, Ids, LiveLinked, RingLinked, IdsLinked;
      OwnId(t);
      Parts();
      ghost var before := Threads();
      t.delay := delay;
      assert Threads() == before[t.id := before[t.id].(delay := delay)];
      Parts();
    }

    method SetCurrent(t: Thread)
      requires Linked() && t.id in live && live[t.id] == t
      modifies this`current
      ensures Linked() && current == t && Abs() == old(Abs()).(current := t.id)
    {
      hide Ids, Threads, Head.Valid, IdsLinked, RingLinked;
      current := t;
    }

    method SetCpu(context: nat)
      requires Linked()
      modifies this`cpu
      ensures Linked() && cpu == context && Abs() == old(Abs()).(cpu := context)
    {
      hide Linked, Ids, Threads;
      cpu := context;
    }

    /** How the objects appear in the abstract state. */
    lemma Seen(t: Thread)
      requires Linked() && t.id in live && live[t.id] == t
      ensures t.id in Abs().threads && Abs().threads[t.id] == S.Thread(t.state, t.delay, t.context)
      ensures Abs().current == current.id && current.id in live && live[current.id] == current && Abs().cpu == cpu
      ensures t.entry != null && t.entry.record == t && t.id < S.MAX_THREADS
      ensures Abs().idle == idle.id && (t == idle <==> t.id == idle.id)
    {
    }

    method SwitchTo(next: Thread)
      requires Linked() && next.id in live && live[next.id] == next
      modifies this`current, live.Values
      ensures Linked() && current == next && next.id in old(Abs()).threads && old(Abs()).current in old(Abs()).threads
      ensures Abs() == S.Switch(old(Abs()), next.id)
    {
      hide Linked, Abs, Ids, Threads, LiveLinked, RingLinked, IdsLinked;
      Seen(next);
      Seen(current);
      if current.state == S.Running {
        SetState(current, S.Ready);
      }
      SetState(next, S.Running);
      SetCurrent(next);
    }

    /** Yield, and what the timer interrupt does when it reschedules. */
    method Reschedule()
      requires Linked() && S.OthersValid(Abs())
      modifies this`current, this`cpu, live.Values
      ensures Linked() && Abs() == S.Reschedule(old(Abs()))
    {
      hide Linked, Abs, S.OthersValid, S.SelectSpec;
      CurrentIsLive();
      var prev := current;
      S.SelectIsSafe(Abs());
      var selected := SelectNextThread();
      if selected {
        CurrentIsLive();
        SetContext(prev, cpu);
        CurrentIsLive();
        Seen(current);
        SetCpu(current.context);
      }
    }

    lemma CurrentIsLive()
      requires Linked()
      ensures current.id in live && live[current.id] == current && current.id in Abs().threads && Abs().current == current.id
      ensures Abs().cpu == cpu && Abs().ticks == ticks && Abs().schedule == schedule && Abs().idle == idle.id
      ensures current == idle <==> current.id == idle.id
    {
    }

    method Yield()
      requires Valid() && current != idle
      modifies this`current, this`cpu, live.Values
      ensures Valid() && Abs() == S.Next(old(Abs()), S.Yield)
    {
      hide Linked, Abs, Ids, Threads, LiveLinked, RingLinked, IdsLinked, Head.Valid, S.Valid, S.OthersValid, S.Reschedule, S.Next;
      CurrentIsLive();
      S.NextCases(Abs(), 0);
      Reschedule();
    }

    method Delay(delay: nat)
      requires Valid() && current != idle
      modifies this`current, this`cpu, live.Values
      ensures Valid() && Abs() == S.Next(old(Abs()), S.Delay(delay))
    {
      hide Linked, Abs, S.Valid, S.OthersValid, S.Reschedule, S.Next, S.WaitSpec;
      CurrentIsLive();
      S.NextCases(Abs(), delay);
      MarkWaiting(delay);
      Reschedule();
    }

    method MarkWaiting(delay: nat)
      requires Linked()
      modifies current`state, current`delay
      ensures Linked() && old(Abs()).current in old(Abs()).threads && Abs() == S.WaitSpec(old(Abs()), delay)
    {
      hide Linked, Abs;
      CurrentIsLive();
      SetState(current, S.Waiting);
      if delay > 0 {
        CurrentIsLive();
        SetDelay(current, (ticks + delay) % WORD);
      }
    }

    /** The timer interrupt: IsrCommon's preemption check, then the tick. */
    method TimerInterrupt()
      requires Valid()
      modifies this`current, this`cpu, this`ticks, live.Values
      ensures Valid() && Abs() == S.Next(old(Abs()), S.Timer)
    {
      hide *;
      Parts();
      S.TimerCase(Abs());
      CurrentIsLive();
      if ticks % 10 == 0 && schedule {
        Reschedule();
      }
      Tick();
      Parts();
    }

    method Tick()
      requires Linked()
      modifies this`ticks
      ensures Linked() && Abs() == old(Abs()).(ticks := old(Abs()).ticks + 1)
    {
      hide Linked, Ids, Threads;
      ticks := ticks + 1;
    }

    /** IdleLoop: preemption starts once the idle thread runs. */
    method StartIdle()
      requires Valid() && current == idle
      modifies this`schedule
      ensures Valid() && Abs() == S.Next(old(Abs()), S.StartIdle)
    {
      hide Linked, S.Valid, S.OthersValid, S.Next, Ids;
      CurrentIsLive();
      S.NextCases(Abs(), 0);
      schedule := true;
    }

    /** Changing the ring touches neither threads nor ids. */
    ghost predicate Apart(os: seq<object>)
      reads this`live
    {
      (forall t | t in live :: (live[t] as object) !in os) && (ids.data as object) !in os && (this as object) !in os
    }

    lemma EntriesAreApart()
      ensures Apart(list.entries)
    {
    }

    // -------------------------------------------------------------- creating

    /** Sets or clears the bit of an id; threads, ring and their links are not touched. */
    method SetId(id: nat, on: bool)
      requires ids.Valid() && id < ids.data.Length * BITS
      modifies ids.data
      ensures ids.Valid() && ids.Bits() == old(ids.Bits())[id := on] && unchanged(this) && unchanged(list)
      ensures Threads() == old(Threads()) && LiveLinked() == old(LiveLinked())
      ensures list.Valid() == old(list.Valid()) && RingLinked(list.entries) == old(RingLinked(list.entries))
    {
      hide ConstBitmap.Bits, ConstBitmap.Valid, Threads, LiveLinked, RingLinked, Head.Valid;
      if on {
        ids.SetBit(id);
      } else {
        ids.ClearBit(id);
      }
    }

    /** AllocateThreadId: word by word, skipping full words; None where the kernel panics with OutOfIds. */
    method AllocateThreadId() returns (id: Option<nat>)
      requires ids.Valid() && ids.data.Length * BITS == S.MAX_THREADS
      modifies ids.data
      ensures ids.Valid()
      ensures unchanged(this) && unchanged(list)
      ensures Threads() == old(Threads()) && LiveLinked() == old(LiveLinked())
      ensures list.Valid() == old(list.Valid()) && RingLinked(list.entries) == old(RingLinked(list.entries))
      ensures id.Some? ==> id.value < S.MAX_THREADS && ids.Bits() == old(ids.Bits())[id.value := true]
                           && !old(ids.Bits())[id.value] && forall k | 0 <= k < id.value :: old(ids.Bits())[k]
      ensures id.None? ==> ids.Bits() == old(ids.Bits()) && forall k | 0 <= k < S.MAX_THREADS :: ids.Bits()[k]
    {
      hide ConstBitmap.Valid, ConstBitmap.Bits, BitsOf, Bit, Threads, LiveLinked, RingLinked, Head.Valid;
      var i := 0;
      while i < ids.data.Length
        invariant i <= ids.data.Length
        invariant ids.Valid() && ids.Bits() == old(ids.Bits())
        invariant forall k | 0 <= k < i * BITS :: ids.Bits()[k]
      {
        ids.FullWord(i);
        if ids.data[i] != ALL_ONES {
          var j := 0;
          while j < BITS
            invariant j <= BITS
            invariant ids.Valid() && ids.Bits() == old(ids.Bits())
            invariant forall k | 0 <= k < i * BITS + j :: ids.Bits()[k]
          {
            if !ids.HasBit(i * BITS + j) {
              SetId(i * BITS + j, true);
              return Some(i * BITS + j);
            }
            j := j + 1;
          }
        }
        i := i + 1;
      }
      return None;
    }

    static lemma LowestIs(threads: map<nat, S.Thread>, bits: seq<bool>, id: Option<nat>)
      requires Marks(bits, threads.Keys)
      requires id.Some? ==> id.value < S.MAX_THREADS && !bits[id.value] && forall k | 0 <= k < id.value :: bits[k]
      requires id.None? ==> forall k | 0 <= k < S.MAX_THREADS :: bits[k]
      ensures S.LowestFreeId(threads, 0) == id
      ensures id.Some? ==> id.value !in threads && Marks(bits[id.value := true], threads.Keys + {id.value})
    {
      var l := S.LowestFreeId(threads, 0);
      if l.Some? {
        assert !bits[l.value];
      }
      if id.Some? {
        assert id.value !in threads;
      }
    }

    static lemma MarksCleared(bits: seq<bool>, live: set<nat>, id: nat)
      requires Marks(bits, live) && id in live
      ensures bits[id] && Marks(bits[id := false], live - {id})
    {
    }

    /** A new thread object, live under an id that is already marked. */
    method AddThread(id: nat, context: nat) returns (thread: Thread)
      requires list.Valid() && LiveLinked() && RingLinked(list.entries) && id !in live
      requires ids.Valid() && Marks(ids.Bits(), live.Keys + {id})
      modifies this`live
      ensures fresh(thread) && thread.id == id && thread.entry != null && fresh(thread.entry) && live == old(live)[id := thread]
      ensures list.Valid() && LiveLinked() && RingLinked(list.entries) && IdsLinked()
      ensures Threads() == old(Threads())[id := S.Thread(S.Ready, 0, context)]
    {
      hide Head.Valid, Marks, ConstBitmap.Bits, ConstBitmap.Valid;
      thread := new Thread(id, context);
      live := live[id := thread];
      assert live.Keys == old(live.Keys) + {id};
    }

    /** CreateThreadInternal: a thread object with the lowest free id; null where the kernel panics. */
    method CreateThreadInternal(context: nat) returns (thread: Thread?)
      requires Linked()
      modifies this`live, ids.data
      ensures Linked() && current == old(current)
      ensures match S.LowestFreeId(old(Abs()).threads, 0)
              case None => thread == null && Abs() == old(Abs())
              case Some(id) => thread != null && fresh(thread) && thread.entry != null && fresh(thread.entry)
                               && thread.id == id && live == old(live)[id := thread]
                               && Abs() == old(Abs()).(threads := old(Abs()).threads[id := S.Thread(S.Ready, 0, context)])
    {
      hide *;
      ghost var bits := ids.Bits();
      Parts();
      var id := AllocateThreadId();
      Parts();
      LowestIs(Threads(), bits, id);
      match id {
        case None => return null;
        case Some(id) =>
          thread := AddThread(id, context);
          Parts();
      }
    }

    /** The thread is no longer live. */
    ghost method Forget(id: nat)
      requires list.Valid() && LiveLinked() && RingLinked(list.entries) && ids.Valid() && Marks(ids.Bits(), live.Keys - {id})
      requires id != current.id && id != idle.id && forall e | e in list.entries :: e.record.id != id
      modifies this`live
      ensures Linked() && live == map k | k in old(live) && k != id :: old(live)[k]
      ensures Threads() == Removed(old(Threads()), id)
    {
      hide Head.Valid, Marks;
      live := map k | k in live && k != id :: live[k];
      assert live.Keys == old(live.Keys) - {id};
    }

    /** Pushes onto the ring; threads and ids are not touched. */
    method PushEntry(entry: Entry<Thread>)
      requires list.Valid() && entry !in list.entries
      modifies list, list.entries, entry
      ensures list.Valid() && list.entries == [entry] + old(list.entries) && RingLinked(list.entries[1..]) == old(RingLinked(list.entries))
      ensures unchanged(this) && forall t | t in live :: live[t].entry == old(live[t].entry)
      ensures Threads() == old(Threads()) && LiveLinked() == old(LiveLinked()) && IdsLinked() == old(IdsLinked())
    {
      hide Threads, LiveLinked, IdsLinked, RingLinked, Head.Valid;
      EntriesAreApart();
      list.Push(entry);
      assert list.entries[1..] == old(list.entries);
    }

    /** RegisterThread */
    method RegisterThread(thread: Thread)
      requires Linked() && thread.id in live && live[thread.id] == thread && thread.entry !in list.entries
      modifies list, list.entries, thread.entry
      ensures Linked() && Abs() == old(Abs()).(ring := [thread.id] + old(Abs()).ring)
    {
      hide *;
      Seen(thread);
      Parts();
      ghost var es, entry := list.entries, thread.entry;
      PushEntry(thread.entry);
      assert list.entries[1..] == es;
      assert live[thread.id] == thread;
      RingExtended(es, thread);
      assert Ids(list.entries) == [thread.id] + Ids(es);
      Parts();
    }

    lemma RingExtended(es: seq<Entry<Thread>>, thread: Thread)
      requires RingLinked(es) && thread.id in live && live[thread.id] == thread && thread.entry != null && thread.entry.record == thread
      ensures RingLinked([thread.entry] + es)
    {
    }

    /** CreateThread: the new thread is ready and first on the ring; null where the kernel panics for lack of ids. */
    method CreateThread(context: nat) returns (thread: Thread?)
      requires Valid()
      modifies this`live, list, list.entries, ids.data
      ensures Valid()
      ensures match S.CreateSpec(old(Abs()), context)
              case None => thread == null && Abs() == old(Abs())
              case Some(c) => thread != null && S.LowestFreeId(old(Abs()).threads, 0) == Some(thread.id) && Abs() == c
    {
      hide *;
      Parts();
      S.CreateCases(Abs(), context);
      thread := CreateThreadInternal(context);
      if thread != null {
        RegisterThread(thread);
      }
      Parts();
    }

    // -------------------------------------------------------------- exiting

    lemma RemovedIds(thread: Thread)
      requires Linked() && thread.id in live && live[thread.id] == thread
      ensures Ids(Without(list.entries, thread.entry)) == Without(Ids(list.entries), thread.id)
      ensures thread.entry !in Without(list.entries, thread.entry) && RingLinked(Without(list.entries, thread.entry))
    {
      WithoutMembers(list.entries, thread.entry);
      hide Ids, Without, NoDuplicates, IdsLinked, IndexOf;
      forall k | 0 <= k < |list.entries| ensures list.entries[k] == thread.entry <==> list.entries[k].record.id == thread.id {
        assert list.entries[k] in list.entries;
      }
      IdsWithout(list.entries, thread.entry, thread.id);
    }

    /** Takes an entry off the ring; threads and ids are not touched. */
    method RemoveEntry(entry: Entry<Thread>)
      requires list.Valid()
      modifies list, list.entries
      ensures list.Valid() && list.entries == Without(old(list.entries), entry)
      ensures unchanged(this) && entry !in list.entries && forall t | t in live :: live[t].entry == old(live[t].entry)
      ensures RingLinked(list.entries) == old(RingLinked(Without(list.entries, entry)))
      ensures Threads() == old(Threads()) && LiveLinked() == old(LiveLinked()) && IdsLinked() == old(IdsLinked())
    {
      hide Threads, LiveLinked, IdsLinked, RingLinked, Without;
      EntriesAreApart();
      assert NoDuplicates(list.entries);
      WithoutMembers(list.entries, entry);
      list.Remove(entry);
    }

    /** UnregisterThread */
    method UnregisterThread(thread: Thread)
      requires Linked() && thread.id in live && live[thread.id] == thread
      modifies list, list.entries
      ensures Linked() && thread.entry !in list.entries
      ensures Abs() == old(Abs()).(ring := Without(old(Abs()).ring, thread.id))
    {
      Seen(thread);
      RemovedIds(thread);
      hide *;
      Parts();
      RemoveEntry(thread.entry);
      assert live[thread.id] == thread;
      Parts();
    }

    /** FreeThread: the id is given back; the check for an id that was already free never fires. */
    method FreeThread(thread: Thread)
      requires Linked() && thread.id in live && live[thread.id] == thread
      requires thread != current && thread != idle && thread.entry !in list.entries
      modifies ids.data, this`live
      ensures Linked() && thread.id !in live && forall t | t in live :: t in old(live) && live[t] == old(live)[t]
      ensures Abs() == old(Abs()).(threads := Removed(old(Abs()).threads, thread.id))
    {
      Seen(thread);
      EntriesOfOthers(thread);
      if !ids.HasBit(thread.id) {
        assert false;  // Panic(Status::DoubleFree)
      }
      Parts();
      hide *;
      MarksCleared(ids.Bits(), live.Keys, thread.id);
      SetId(thread.id, false);
      Parts();
      Forget(thread.id);
      Parts();
    }

    lemma EntriesOfOthers(thread: Thread)
      requires Linked() && thread.id in live && live[thread.id] == thread && thread.entry !in list.entries
      ensures forall e | e in list.entries :: e.record.id != thread.id
    {
    }

    /** ExitThread: another thread always takes over, and nothing of the exiting one stays behind. */
    method ExitThread()
      requires Valid() && current != idle
      modifies this`current, this`cpu, this`live, list, list.entries, live.Values, ids.data
      ensures Valid() && current != old(current) && old(current).id !in live
      ensures Abs() == S.Next(old(Abs()), S.Exit)
    {
      hide Linked, Abs, S.Valid, S.OthersValid, S.SelectSpec, S.ReadyToDrop, S.Next;
      CurrentIsLive();
      S.NextCases(Abs(), 0);
      S.ExitSwitches(Abs());
      var thread := current;
      SetState(thread, S.Terminating);
      var _ := SelectNextThread();
      CurrentIsLive();
      UnregisterThread(thread);
      CurrentIsLive();
      FreeThread(thread);
      CurrentIsLive();
      Seen(current);
      SetCpu(current.context);
    }
  }
}
