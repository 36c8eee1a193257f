/** Round-robin scheduling: what one call chooses, and what holds over every run of the scheduler. */
module Sched {
  import opened SystemTime

  const SLOTS: nat := 32
  const IDLE: nat := 0
  const KTHREAD_SLEEP_UNTIL_TIME: bv32 := 2

  /** A block of saved registers. */
  type CpuState = seq<bv32>

  /** struct kthread without its stack. */
  datatype Task = Task(cpuState: CpuState, flags: bv32, sleepUntil: Timespec)

  datatype Slot = Empty | Full(task: Task)

  /** struct run_queue_struct and the registers of the processor. */
  datatype Queue = Queue(slots: seq<Slot>, running: nat, live: CpuState)

  predicate Valid(q: Queue) {
    && |q.slots| == SLOTS
    && q.running < SLOTS
    && q.slots[IDLE].Full?
    && q.slots[q.running].Full?
  }

  predicate Asleep(t: Task) { t.flags & KTHREAD_SLEEP_UNTIL_TIME != 0 }

  predicate Runnable(t: Task, now: Timespec) {
    t.flags == 0 || (Asleep(t) && Compare(now, t.sleepUntil) >= 0)
  }

  /** The flags after _is_runnable looked at the thread: a due sleeper loses its sleep flag. */
  function Woken(t: Task, now: Timespec): Task {
    if t.flags != 0 && Runnable(t, now) then t.(flags := t.flags & !KTHREAD_SLEEP_UNTIL_TIME) else t
  }

  /** A non-idle slot that run_queue_next may choose. */
  predicate Ready(slots: seq<Slot>, now: Timespec, slot: nat)
    requires |slots| == SLOTS
  {
    0 < slot < SLOTS && slots[slot].Full? && Runnable(slots[slot].task, now)
  }

  /** The loop of run_queue_next: the slots after `at` until `current` comes round again. */
  function Scan(slots: seq<Slot>, now: Timespec, current: nat, at: nat): (next: nat)
    requires |slots| == SLOTS && current < SLOTS && at < SLOTS
    ensures next < SLOTS
    decreases if at < current then current - at else SLOTS + current - at
  {
    var s := if at + 1 == SLOTS then 0 else at + 1;
    if Ready(slots, now, s) then s
    else if s == current then IDLE
    else Scan(slots, now, current, s)
  }

  lemma ScanStep(slots: seq<Slot>, now: Timespec, current: nat, at: nat)
    requires |slots| == SLOTS && current < SLOTS && at < SLOTS
    ensures var s := (at + 1) % SLOTS;
            Scan(slots, now, current, at) ==
            if Ready(slots, now, s) then s else if s == current then IDLE else Scan(slots, now, current, s)
  {
  }

  function NextSlot(q: Queue, now: Timespec): (next: nat)
    requires Valid(q)
    ensures next < SLOTS
  {
    Scan(q.slots, now, q.running, q.running)
  }

  /** The non-idle slots from the one after `at` up to and with `slot`, in the order of the scan. */
  function Rank(at: nat, slot: nat): (r: nat)
    requires at < SLOTS && 0 < slot < SLOTS
    ensures 1 <= r <= 31
  {
    if at < slot then slot - at else (SLOTS - 1 - at) + slot
  }

  /** All slots from the one after `at` up to and with `slot`. */
  function Steps(at: nat, slot: nat): nat
    requires at < SLOTS && slot < SLOTS
  {
    if at < slot then slot - at else SLOTS - at + slot
  }

  /** The scan finds the nearest ready slot, and idle only when there is none. */
  lemma {:induction false} ScanNearest(slots: seq<Slot>, now: Timespec, current: nat, at: nat, slot: nat)
    requires |slots| == SLOTS && current < SLOTS && at < SLOTS
    requires Ready(slots, now, slot)
    requires at == current || Steps(at, slot) < Steps(current, slot)
    ensures var next := Scan(slots, now, current, at);
            Ready(slots, now, next) && Rank(at, next) <= Rank(at, slot)
    decreases if at < current then current - at else SLOTS + current - at
  {
    var s := if at + 1 == SLOTS then 0 else at + 1;
    if !Ready(slots, now, s) {
      ScanNearest(slots, now, current, s, slot);
    }
  }

  lemma {:induction false} ScanReady(slots: seq<Slot>, now: Timespec, current: nat, at: nat)
    requires |slots| == SLOTS && current < SLOTS && at < SLOTS
    ensures var next := Scan(slots, now, current, at);
            next == IDLE || Ready(slots, now, next)
    decreases if at < current then current - at else SLOTS + current - at
  {
    var s := if at + 1 == SLOTS then 0 else at + 1;
    if !Ready(slots, now, s) && s != current {
      ScanReady(slots, now, current, s);
    }
  }

  /** One call chooses the first ready slot in cyclic order after the running one; idle exactly when none is ready. */
  lemma NextExact(q: Queue, now: Timespec)
    requires Valid(q)
    ensures var next := NextSlot(q, now);
            && (next == IDLE <==> forall s: nat :: s < SLOTS ==> !Ready(q.slots, now, s))
            && (next != IDLE ==> Ready(q.slots, now, next))
            && (next != IDLE ==>
                  forall s: nat :: s < SLOTS && Ready(q.slots, now, s) ==> Rank(q.running, next) <= Rank(q.running, s))
  {
    hide Runnable;
    var next := NextSlot(q, now);
    ScanReady(q.slots, now, q.running, q.running);
    forall s: nat | s < SLOTS && Ready(q.slots, now, s)
      ensures next != IDLE && Rank(q.running, next) <= Rank(q.running, s)
    {
      ScanNearest(q.slots, now, q.running, q.running, s);
    }
  }

  /** One call of the task switch: the queue's part. */
  function Dispatch(q: Queue, now: Timespec): (r: Queue)
    requires Valid(q)
  {
    var next := NextSlot(q, now);
    q.(slots := Looked(q.slots, now, next), running := next)
  }

  /** The slots after the scan: only the chosen thread's flags can have changed. */
  function Looked(slots: seq<Slot>, now: Timespec, next: nat): seq<Slot>
    requires |slots| == SLOTS && next < SLOTS
  {
    if next != IDLE && slots[next].Full? then slots[next := Full(Woken(slots[next].task, now))] else slots
  }

  lemma IdleNotReady(slots: seq<Slot>, now: Timespec)
    requires |slots| == SLOTS
    ensures !Ready(slots, now, IDLE)
  {
  }

  lemma ReadyFull(slots: seq<Slot>, now: Timespec, slot: nat)
    requires |slots| == SLOTS && Ready(slots, now, slot)
    ensures slot < SLOTS && slots[slot].Full? && Looked(slots, now, slot)[slot].Full?
  {
  }

  lemma LookedAt(slots: seq<Slot>, now: Timespec, next: nat)
    requires |slots| == SLOTS && Ready(slots, now, next)
    ensures Looked(slots, now, next) == slots[next := Full(Woken(slots[next].task, now))]
  {
  }

  lemma LookedIdle(slots: seq<Slot>, now: Timespec)
    requires |slots| == SLOTS
    ensures Looked(slots, now, IDLE) == slots
  {
  }

  /** _switch on the slots `from` and `to`. */
  function Switch(q: Queue, from: nat, to: nat): Queue
    requires |q.slots| == SLOTS && from < SLOTS && to < SLOTS && q.slots[from].Full? && q.slots[to].Full?
  {
    var saved := q.slots[from := Full(q.slots[from].task.(cpuState := q.live))];
    q.(slots := saved, live := if from != to then saved[to].task.cpuState else q.live)
  }

  /** _arch_irq_task_switch with the clock at `now`. */
  function TaskSwitch(q: Queue, now: Timespec): Queue
    requires Valid(q)
  {
    var n := Dispatch(q, now);
    DispatchValid(q, now);
    Switch(n, q.running, n.running)
  }

  /** The task switch on values, from the slots before and after its copies. */
  lemma SwitchedIs(q: Queue, now: Timespec, slots: seq<Slot>, after: seq<Slot>, live: CpuState)
    requires Valid(q) && slots == Looked(q.slots, now, NextSlot(q, now)) && |slots| == |after| == SLOTS
    requires forall i :: 0 <= i < SLOTS && i != q.running ==> after[i] == slots[i]
    requires slots[q.running].Full? && slots[NextSlot(q, now)].Full?
    requires after[q.running] == Full(slots[q.running].task.(cpuState := q.live))
    requires live == if q.running != NextSlot(q, now) then slots[NextSlot(q, now)].task.cpuState else q.live
    ensures Queue(after, NextSlot(q, now), live) == TaskSwitch(q, now)
  {
    hide Scan, Runnable, Looked;
    DispatchValid(q, now);
    assert after == slots[q.running := after[q.running]];
  }

  lemma DispatchValid(q: Queue, now: Timespec)
    requires Valid(q)
    ensures var r := Dispatch(q, now);
            Valid(r) && r.slots[q.running].Full? && r.live == q.live && r.running == NextSlot(q, now)
  {
    hide Scan, Runnable;
    ScanReady(q.slots, now, q.running, q.running);
  }

  /** The first empty slot, if any: the loop of run_queue_add. */
  function FirstEmpty(slots: seq<Slot>, i: nat): (r: nat)
    requires i <= |slots|
    ensures i <= r <= |slots|
    ensures r < |slots| ==> slots[r].Empty?
    ensures forall j :: i <= j < r ==> slots[j].Full?
    decreases |slots| - i
  {
    if i == |slots| || slots[i].Empty? then i else FirstEmpty(slots, i + 1)
  }

  /** run_queue_add */
  function Spawn(q: Queue, task: Task): Queue
    requires Valid(q)
  {
    var i := FirstEmpty(q.slots, 0);
    if i < SLOTS then q.(slots := q.slots[i := Full(task)]) else q
  }

  /** The critical section of kthread_sleep_ts: the running thread goes to sleep until `until`. */
  function Sleep(q: Queue, until: Timespec): Queue
    requires Valid(q)
  {
    var t := q.slots[q.running].task;
    q.(slots := q.slots[q.running := Full(t.(flags := t.flags | KTHREAD_SLEEP_UNTIL_TIME, sleepUntil := until))])
  }

  /** kthread_sleep_ts with its yield, a task switch with the clock at `now`. */
  function SleepUntil(q: Queue, until: Timespec, now: Timespec): Queue
    requires Valid(q)
  {
    TaskSwitch(Sleep(q, until), now)
  }

  /** What can happen next: a task switch, a new thread, going to sleep, or the running thread computing. */
  datatype Event =
    | Tick(now: Timespec)
    | Add(task: Task)
    | GoToSleep(until: Timespec)
    | Compute(registers: CpuState)

  function Step(q: Queue, e: Event): Queue
    requires Valid(q)
  {
    match e
    case Tick(now) => TaskSwitch(q, now)
    case Add(task) => Spawn(q, task)
    case GoToSleep(until) => Sleep(q, until)
    case Compute(registers) => q.(live := registers)
  }

  lemma StepValid(q: Queue, e: Event)
    requires Valid(q)
    ensures Valid(Step(q, e))
    ensures !e.Tick? ==> Step(q, e).running == q.running
    ensures e.Tick? ==> Step(q, e).running == NextSlot(q, e.now)
  {
    hide Scan, Runnable, Woken;
    if e.Tick? {
      DispatchValid(q, e.now);
    }
  }

  ghost function Run(q: Queue, events: seq<Event>): (r: Queue)
    requires Valid(q)
    ensures Valid(r)
    decreases |events|
  {
    if events == [] then q else
      StepValid(q, events[0]);
      Run(Step(q, events[0]), events[1..])
  }

  function Ticks(events: seq<Event>): nat {
    if events == [] then 0 else (if events[0].Tick? then 1 else 0) + Ticks(events[1..])
  }

  /* ---- What a task switch does to flags and sleep times ---- */

  /** The thread may run: no flag is set, or it sleeps until a time that has come. */
  predicate MayRun(t: Task, now: Timespec) {
    t.flags == 0 || (t.flags & 2 != 0 && Compare(now, t.sleepUntil) >= 0)
  }

  /** All flags but the sleep flag. */
  function ClearSleep(flags: bv32): bv32 { flags & 0xffff_fffd }

  /** The sleep flag is clear and every other flag stays. */
  lemma ClearSleepMeans(flags: bv32)
    ensures ClearSleep(flags) & 2 == 0 && ClearSleep(flags) | (flags & 2) == flags
  {
  }

  /**
   * A task switch chooses a thread that may run, and idle only if no other thread may. No sleep time changes;
   * no flag changes but one: the chosen thread, if it slept, loses exactly its sleep flag.
   */
  lemma SwitchKeepsFlags(q: Queue, now: Timespec)
    requires Valid(q)
    ensures var r := TaskSwitch(q, now);
            && |r.slots| == 32 && r.running < 32
            && (r.running != 0 ==> q.slots[r.running].Full? && MayRun(q.slots[r.running].task, now))
            && (r.running == 0 ==> forall i :: 0 < i < 32 && q.slots[i].Full? ==> !MayRun(q.slots[i].task, now))
            && (forall i :: 0 <= i < 32 ==>
                  && r.slots[i].Full? == q.slots[i].Full?
                  && (q.slots[i].Full? ==> r.slots[i].task.sleepUntil == q.slots[i].task.sleepUntil)
                  && (q.slots[i].Full? && i == r.running && i != 0 ==>
                        r.slots[i].task.flags == ClearSleep(q.slots[i].task.flags))
                  && (q.slots[i].Full? && (i != r.running || i == 0) ==> r.slots[i].task.flags == q.slots[i].task.flags))
  {
    hide Scan, Compare;
    NextExact(q, now);
    DispatchValid(q, now);
    StepValid(q, Tick(now));
    var next := NextSlot(q, now);
    if next != IDLE {
      WokenFlags(q.slots[next].task, now);
    }
    forall i: nat | 0 < i < SLOTS && q.slots[i].Full?
      ensures MayRun(q.slots[i].task, now) <==> Ready(q.slots, now, i)
    {
    }
  }

  lemma WokenFlags(t: Task, now: Timespec)
    ensures Runnable(t, now) <==> MayRun(t, now)
    ensures Woken(t, now) == if Runnable(t, now) then t.(flags := ClearSleep(t.flags)) else t
    ensures t.flags == 0 ==> ClearSleep(t.flags) == 0
  {
    hide Compare;
    SleepCleared(t.flags);
  }

  lemma SleepCleared(flags: bv32)
    ensures flags & !KTHREAD_SLEEP_UNTIL_TIME == flags & 0xffff_fffd
    ensures flags == 0 ==> flags & 0xffff_fffd == 0
    ensures flags & KTHREAD_SLEEP_UNTIL_TIME == flags & 2
  {
  }

  /** The thread in `slot` asks for no sleep during the run. */
  ghost predicate NeverSleeps(q: Queue, events: seq<Event>, slot: nat)
    requires Valid(q)
    decreases |events|
  {
    events == [] || (
      StepValid(q, events[0]);
      && !(events[0].GoToSleep? && q.running == slot)
      && NeverSleeps(Step(q, events[0]), events[1..], slot)
    )
  }

  /** A thread without flags that asks for no sleep keeps no flags, and is ready at every switch of every run. */
  lemma {:induction false} AwakeStaysReady(q: Queue, events: seq<Event>, slot: nat)
    requires Valid(q) && 0 < slot < SLOTS && q.slots[slot].Full? && q.slots[slot].task.flags == 0
    requires NeverSleeps(q, events, slot)
    ensures StaysReady(q, events, slot)
    ensures Run(q, events).slots[slot].Full? && Run(q, events).slots[slot].task.flags == 0
    decreases |events|
  {
    hide TaskSwitch, Compare, Scan;
    if events != [] {
      var e := events[0];
      StepValid(q, e);
      AwakeStep(q, e, slot);
      AwakeStaysReady(Step(q, e), events[1..], slot);
    }
  }

  lemma AwakeStep(q: Queue, e: Event, slot: nat)
    requires Valid(q) && 0 < slot < SLOTS && q.slots[slot].Full? && q.slots[slot].task.flags == 0
    requires !(e.GoToSleep? && q.running == slot)
    ensures Step(q, e).slots[slot].Full? && Step(q, e).slots[slot].task.flags == 0
  {
    hide TaskSwitch, Compare, Scan, MayRun;
    if e.Tick? {
      SwitchKeepsFlags(q, e.now);
    }
  }

  /** So every such thread is dispatched within thirty-one switches of every run, whatever the others do. */
  lemma AwakeIsDispatched(q: Queue, events: seq<Event>, slot: nat)
    requires Valid(q) && 0 < slot < SLOTS && q.slots[slot].Full? && q.slots[slot].task.flags == 0
    requires NeverSleeps(q, events, slot) && Ticks(events) >= 31
    ensures Dispatched(q, events, slot)
  {
    hide Dispatched, StaysReady, NeverSleeps;
    AwakeStaysReady(q, events, slot);
    ThirtyOneSwitches(q, events, slot);
  }

  /** Adding a thread fills the first empty slot with it and changes nothing else; without one nothing changes. */
  lemma SpawnExact(q: Queue, task: Task)
    requires Valid(q)
    ensures var r := Spawn(q, task);
            && r.running == q.running && r.live == q.live
            && ((forall i :: 0 <= i < 32 ==> q.slots[i].Full?) ==> r.slots == q.slots)
            && ((exists i :: 0 <= i < 32 && q.slots[i].Empty?) ==>
                  exists k :: 0 <= k < 32 && q.slots[k].Empty? && (forall i :: 0 <= i < k ==> q.slots[i].Full?)
                    && r.slots == q.slots[k := Full(task)])
  {
    var k := FirstEmpty(q.slots, 0);
    if k < SLOTS {
      assert q.slots[k].Empty? && Spawn(q, task).slots == q.slots[k := Full(task)];
    }
  }

  /** `slot` is ready at every task switch of the run. */
  ghost predicate StaysReady(q: Queue, events: seq<Event>, slot: nat)
    requires Valid(q)
    decreases |events|
  {
    events == [] || (
      StepValid(q, events[0]);
      && (events[0].Tick? ==> Ready(q.slots, events[0].now, slot))
      && StaysReady(Step(q, events[0]), events[1..], slot)
    )
  }

  /** Some task switch of the run chooses `slot`. */
  ghost predicate Dispatched(q: Queue, events: seq<Event>, slot: nat)
    requires Valid(q)
    decreases |events|
  {
    events != [] && (
      StepValid(q, events[0]);
      || (events[0].Tick? && NextSlot(q, events[0].now) == slot)
      || Dispatched(Step(q, events[0]), events[1..], slot)
    )
  }

  /**
   * Bounded waiting: whatever else is added, sleeps or wakes, a thread that is ready at every switch is
   * dispatched after at most as many switches as there are non-idle slots up to its own, never more than 31.
   */
  lemma {:induction false} BoundedWaiting(q: Queue, events: seq<Event>, slot: nat)
    requires Valid(q) && 0 < slot < SLOTS
    requires StaysReady(q, events, slot)
    requires Ticks(events) >= Rank(q.running, slot)
    ensures Dispatched(q, events, slot)
    decreases |events|
  {
    hide Ready, Step, NextSlot;
    var e := events[0];
    StepValid(q, e);
    if e.Tick? {
      RankDrops(q, e.now, slot);
      if NextSlot(q, e.now) != slot {
        BoundedWaiting(Step(q, e), events[1..], slot);
      }
    } else {
      BoundedWaiting(Step(q, e), events[1..], slot);
    }
  }

  lemma RankDrops(q: Queue, now: Timespec, slot: nat)
    requires Valid(q) && Ready(q.slots, now, slot)
    ensures var next := NextSlot(q, now);
            next == slot || Rank(next, slot) < Rank(q.running, slot)
  {
    hide Runnable, Scan;
    ScanNearest(q.slots, now, q.running, q.running, slot);
  }

  /** Thirty-one switches are enough from any state. */
  lemma ThirtyOneSwitches(q: Queue, events: seq<Event>, slot: nat)
    requires Valid(q) && 0 < slot < SLOTS
    requires StaysReady(q, events, slot) && Ticks(events) >= 31
    ensures Dispatched(q, events, slot)
  {
    BoundedWaiting(q, events, slot);
  }

  /** Every switch of the run happens before `until`. */
  predicate AllBefore(events: seq<Event>, until: Timespec) {
    forall e :: e in events && e.Tick? ==> Compare(e.now, until) < 0
  }

  /** A thread that sleeps until a time and is off the processor is not dispatched by any run before that time. */
  lemma {:induction false} SleeperWaits(q: Queue, events: seq<Event>, slot: nat)
    requires Valid(q) && 0 < slot < SLOTS && slot != q.running
    requires q.slots[slot].Full? && Asleep(q.slots[slot].task)
    requires AllBefore(events, q.slots[slot].task.sleepUntil)
    ensures !Dispatched(q, events, slot)
    ensures Run(q, events).slots[slot] == q.slots[slot]
    decreases |events|
  {
    hide Asleep, Compare;
    if events != [] {
      var e := events[0];
      StepValid(q, e);
      SleeperStep(q, e, slot);
      SleeperWaits(Step(q, e), events[1..], slot);
    }
  }

  lemma SleeperStep(q: Queue, e: Event, slot: nat)
    requires Valid(q) && 0 < slot < SLOTS && slot != q.running
    requires q.slots[slot].Full? && Asleep(q.slots[slot].task)
    requires e.Tick? ==> Compare(e.now, q.slots[slot].task.sleepUntil) < 0
    ensures Step(q, e).running != slot && Step(q, e).slots[slot] == q.slots[slot]
  {
    hide Compare, Scan;
    AsleepFlags(q.slots[slot].task);
    if e.Tick? {
      ScanReady(q.slots, e.now, q.running, q.running);
      DispatchValid(q, e.now);
    }
  }

  lemma AsleepFlags(t: Task)
    requires Asleep(t)
    ensures t.flags != 0
  {
  }

  /** The running thread, once it is set to sleep, does not change its mind before it leaves the processor. */
  ghost predicate LeavesAsleep(q: Queue, events: seq<Event>)
    requires Valid(q)
    decreases |events|
  {
    events == [] || events[0].Tick? || (
      StepValid(q, events[0]);
      && !events[0].GoToSleep?
      && LeavesAsleep(Step(q, events[0]), events[1..])
    )
  }

  lemma {:induction false} StaysAway(q: Queue, events: seq<Event>)
    requires Valid(q) && q.running != IDLE
    requires Asleep(q.slots[q.running].task) && LeavesAsleep(q, events)
    requires AllBefore(events, q.slots[q.running].task.sleepUntil)
    ensures !Dispatched(q, events, q.running)
    decreases |events|
  {
    hide Asleep, Compare, Scan, Runnable, NextSlot;
    if events != [] {
      var e := events[0];
      StepValid(q, e);
      if e.Tick? {
        SleeperLeaves(q, e.now);
        SleeperWaits(Step(q, e), events[1..], q.running);
      } else {
        StaysAway(Step(q, e), events[1..]);
      }
    }
  }

  /** The next switch before the wake-up time takes the sleeping thread off the processor and saves its registers. */
  lemma SleeperLeaves(q: Queue, now: Timespec)
    requires Valid(q) && q.running != IDLE
    requires Asleep(q.slots[q.running].task) && Compare(now, q.slots[q.running].task.sleepUntil) < 0
    ensures var r := TaskSwitch(q, now);
            && r.running != q.running
            && r.slots[q.running] == Full(q.slots[q.running].task.(cpuState := q.live))
            && Asleep(r.slots[q.running].task)
  {
    hide Compare, Scan;
    AsleepFlags(q.slots[q.running].task);
    ScanReady(q.slots, now, q.running, q.running);
    DispatchValid(q, now);
  }

  /** Going to sleep sets the running thread's time and its sleep flag, no other flag, and nothing else. */
  lemma GoToSleepSets(q: Queue, until: Timespec)
    requires Valid(q)
    ensures var r, k := Sleep(q, until), q.running;
            && Valid(r) && r.running == q.running && r.live == q.live
            && r.slots == q.slots[k := r.slots[k]]
            && r.slots[k].task.cpuState == q.slots[k].task.cpuState
            && r.slots[k].task.sleepUntil == until && Asleep(r.slots[k].task)
            && r.slots[k].task.flags & 2 != 0
            && r.slots[k].task.flags & 0xffff_fffd == q.slots[k].task.flags & 0xffff_fffd
            && (q.slots[k].task.flags == 0 ==>
                  r.slots[k].task.flags == 2 && forall now :: MayRun(r.slots[k].task, now) <==> Compare(now, until) >= 0)
  {
    hide Compare;
    SleepFlag(q.slots[q.running].task.flags);
  }

  lemma SleepFlag(flags: bv32)
    ensures (flags | KTHREAD_SLEEP_UNTIL_TIME) & KTHREAD_SLEEP_UNTIL_TIME != 0
    ensures (flags | KTHREAD_SLEEP_UNTIL_TIME) & 0xffff_fffd == flags & 0xffff_fffd
    ensures flags == 0 ==> (flags | KTHREAD_SLEEP_UNTIL_TIME) == 2
  {
  }

  /**
   * From the step that sets a thread to sleep until a time, no run dispatches it before that time; only
   * the thread itself, still on the processor, could choose another time.
   */
  lemma NeverEarly(q: Queue, until: Timespec, events: seq<Event>)
    requires Valid(q) && q.running != IDLE
    requires Valid(Step(q, GoToSleep(until))) && LeavesAsleep(Step(q, GoToSleep(until)), events)
    requires AllBefore(events, until)
    ensures !Dispatched(Step(q, GoToSleep(until)), events, q.running)
  {
    hide Asleep, Compare, Dispatched, LeavesAsleep;
    GoToSleepSets(q, until);
    StaysAway(Sleep(q, until), events);
  }

  /** kthread_sleep_ts with its closing yield: the thread is off the processor and stays off until its time. */
  lemma SleepThenYield(q: Queue, until: Timespec, now: Timespec, events: seq<Event>)
    requires Valid(q) && q.running != IDLE && Compare(now, until) < 0 && AllBefore(events, until)
    ensures var r := SleepUntil(q, until, now);
            && Valid(r) && r.running != q.running
            && Views(r)[q.running] == q.live
            && !Dispatched(r, events, q.running)
            && Views(Run(r, events))[q.running] == q.live
  {
    hide Asleep, Compare, Dispatched, TaskSwitch, Scan;
    GoToSleepSets(q, until);
    var s := Sleep(q, until);
    SleeperLeaves(s, now);
    StepValid(s, Tick(now));
    var r := TaskSwitch(s, now);
    SleeperWaits(r, events, q.running);
    StaysOff(r, events, q.running);
  }

  /** A slot that no switch of the run chooses does not come to run. */
  lemma {:induction false} StaysOff(q: Queue, events: seq<Event>, slot: nat)
    requires Valid(q) && slot < SLOTS && q.running != slot && !Dispatched(q, events, slot)
    ensures Run(q, events).running != slot
    decreases |events|
  {
    hide TaskSwitch, Scan, Step;
    if events != [] {
      StepValid(q, events[0]);
      StaysOff(Step(q, events[0]), events[1..], slot);
    }
  }

  /** A due sleeper with no other flag wakes with no flag at all and then stays runnable. */
  lemma WokenRuns(t: Task, now: Timespec, later: Timespec)
    requires t.flags == KTHREAD_SLEEP_UNTIL_TIME && Compare(now, t.sleepUntil) >= 0
    ensures Runnable(t, now) && Woken(t, now) == t.(flags := 0) && Runnable(Woken(t, now), later)
  {
  }

  /** The registers as the thread in `slot` sees them. */
  function View(q: Queue, slot: nat): CpuState
    requires slot < |q.slots| && q.slots[slot].Full?
  {
    if slot == q.running then q.live else q.slots[slot].task.cpuState
  }

  /** One private processor for every slot. */
  function Views(q: Queue): (v: seq<CpuState>)
    requires Valid(q)
    ensures |v| == SLOTS
  {
    seq(SLOTS, i requires 0 <= i < SLOTS => if q.slots[i].Full? then View(q, i) else [])
  }

  /** The private processors: switches do not touch them, computing changes the running one's. */
  function PrivateStep(v: seq<CpuState>, q: Queue, e: Event): (r: seq<CpuState>)
    requires Valid(q) && |v| == SLOTS
    ensures |r| == SLOTS
  {
    match e
    case Tick(_) => v
    case GoToSleep(_) => v
    case Compute(registers) => v[q.running := registers]
    case Add(task) => var i := FirstEmpty(q.slots, 0); if i < SLOTS then v[i := task.cpuState] else v
  }

  ghost function Private(v: seq<CpuState>, q: Queue, events: seq<Event>): seq<CpuState>
    requires Valid(q) && |v| == SLOTS
    decreases |events|
  {
    if events == [] then v else
      StepValid(q, events[0]);
      Private(PrivateStep(v, q, events[0]), Step(q, events[0]), events[1..])
  }

  /** A task switch leaves every thread's view as it was, a switch to the same thread included. */
  lemma SwitchKeepsViews(q: Queue, now: Timespec)
    requires Valid(q)
    ensures Valid(TaskSwitch(q, now)) && Views(TaskSwitch(q, now)) == Views(q)
  {
    hide Scan, Runnable;
    DispatchValid(q, now);
    StepValid(q, Tick(now));
    var r := TaskSwitch(q, now);
    forall i: nat | i < SLOTS
      ensures r.slots[i].Full? == q.slots[i].Full?
      ensures q.slots[i].Full? ==> View(r, i) == View(q, i)
    {
    }
  }

  /** Over every run each thread computes as on a processor of its own. */
  lemma {:induction false} PrivateProcessors(q: Queue, events: seq<Event>)
    requires Valid(q)
    ensures Views(Run(q, events)) == Private(Views(q), q, events)
    decreases |events|
  {
    hide TaskSwitch, Views, Scan;
    if events != [] {
      var e := events[0];
      StepValid(q, e);
      PrivateStepExact(q, e);
      PrivateProcessors(Step(q, e), events[1..]);
    }
  }

  lemma PrivateStepExact(q: Queue, e: Event)
    requires Valid(q)
    ensures Valid(Step(q, e)) && Views(Step(q, e)) == PrivateStep(Views(q), q, e)
  {
    hide TaskSwitch, Scan, NextSlot;
    StepValid(q, e);
    if e.Tick? {
      SwitchKeepsViews(q, e.now);
    }
  }

  /** struct kthread */
  class Kthread {
    var cpuState: CpuState
    var flags: bv32
    var sleepUntilTime: Timespec

    constructor (cpuState: CpuState)
      ensures Value() == Task(cpuState, 0, Timespec(0, 0))
    {
      this.cpuState, flags, sleepUntilTime := cpuState, 0, Timespec(0, 0);
    }

    function Value(): Task
      reads this
    {
      Task(cpuState, flags, sleepUntilTime)
    }
  }

  /** The register block that an interrupt pushed. */
  class Registers {
    var value: CpuState
  }

  class RunQueue {
    const kthreads: array<Kthread?>
    var running: nat
    var schedTime: Timespec

    function SlotOf(th: Kthread?): Slot
      reads th
    {
      if th == null then Empty else Full(th.Value())
    }

    function Slots(): (s: seq<Slot>)
      reads kthreads, kthreads[..]
      ensures |s| == kthreads.Length
      ensures forall i :: 0 <= i < |s| ==> s[i] == SlotOf(kthreads[i])
    {
      seq(kthreads.Length, i requires 0 <= i < kthreads.Length reads kthreads, kthreads[..] => SlotOf(kthreads[i]))
    }

    ghost function State(live: CpuState): Queue
      reads this, kthreads, kthreads[..]
    {
      Queue(Slots(), running, live)
    }

    /** No thread sits in two slots; the idle slot and the running slot hold threads. */
    ghost predicate Sound()
      reads this, kthreads, kthreads[..]
    {
      && kthreads.Length == SLOTS
      && running < SLOTS && kthreads[IDLE] != null && kthreads[running] != null
      && forall i, j :: 0 <= i < j < SLOTS && kthreads[i] != null ==> kthreads[i] != kthreads[j]
    }

    /** The queue part of kthread_init: the boot thread runs in slot 1 beside the idle thread in slot 0. */
    constructor (boot: Kthread, idle: Kthread)
      requires boot != idle
      ensures Sound() && fresh(kthreads) && running == 1
      ensures kthreads[..] == [idle, boot] + seq(30, _ => null)
    {
      kthreads := new Kthread?[SLOTS](_ => null);
      running := 1;
      schedTime := Timespec(0, 0);
      new;
      kthreads[1] := boot;
      kthreads[IDLE] := idle;
    }

    /** _is_runnable */
    method IsRunnable(th: Kthread?) returns (r: bool)
      modifies th
      ensures r == (th != null && Runnable(old(SlotOf(th)).task, schedTime))
      ensures th != null ==> th.Value() == Woken(old(th.Value()), schedTime)
      ensures SlotOf(th) == old(SlotOf(th)) || r
      ensures th != null ==> r == MayRun(old(th.Value()), schedTime)
      ensures th != null ==> th.Value() == old(th.Value()).(flags := if r then ClearSleep(old(th.flags)) else old(th.flags))
    {
      hide Compare, ClearSleep, MayRun;
      if th != null {
        WokenFlags(th.Value(), schedTime);
        if th.flags == 0 {
          return true;
        }
        if th.flags & KTHREAD_SLEEP_UNTIL_TIME != 0 {
          if Compare(schedTime, th.sleepUntilTime) >= 0 {
            th.flags := th.flags & !KTHREAD_SLEEP_UNTIL_TIME;
            return true;
          }
        }
      }
      return false;
    }

    /** _is_runnable for the thread of a slot: only that slot can change, and only when it is ready. */
    method LookAt(at: nat) returns (runnable: bool)
      requires Sound() && 0 < at < SLOTS
      modifies kthreads[at]
      ensures Sound()
      ensures runnable == Ready(old(Slots()), schedTime, at)
      ensures Slots() == if runnable then Looked(old(Slots()), schedTime, at) else old(Slots())
    {
      hide Runnable, Woken, Compare;
      ghost var slots := Slots();
      runnable := IsRunnable(kthreads[at]);
      assert forall i :: 0 <= i < SLOTS && i != at ==> Slots()[i] == slots[i];
      if runnable {
        LookedAt(slots, schedTime, at);
      }
    }

    /** run_queue_next */
    method RunQueueNext() returns (next: Kthread)
      requires Sound()
      modifies this`running, kthreads[..]
      ensures Sound() && kthreads[..] == old(kthreads[..])
      ensures running == old(Scan(Slots(), schedTime, running, running))
      ensures Slots() == Looked(old(Slots()), schedTime, running)
      ensures next == kthreads[running]
    {
      hide Ready, Looked, Slots, Scan;
      var current := running;
      var at: nat := current;
      ghost var slots := Slots();
      IdleNotReady(slots, schedTime);
      while true
        invariant at < SLOTS && running == current && Sound() && Slots() == slots
        invariant Scan(slots, schedTime, current, current) == Scan(slots, schedTime, current, at)
        decreases if at < current then current - at else SLOTS + current - at
      {
        ScanStep(slots, schedTime, current, at);
        at := at + 1;
        at := at % SLOTS;
        if at != IDLE {
          var runnable := LookAt(at);
          if runnable {
            running := at;
            ReadyFull(slots, schedTime, at);
            assert SlotOf(kthreads[at]).Full?;
            return kthreads[at];
          }
        }
        if at == current {
          running := IDLE;
          LookedIdle(slots, schedTime);
          return kthreads[IDLE];
        }
      }
    }

    /** run_queue_add */
    method RunQueueAdd(kthread: Kthread) returns (e: int)
      requires Sound() && kthread !in kthreads[..]
      modifies kthreads
      ensures Sound()
      ensures forall live :: State(live) == Spawn(old(State(live)), kthread.Value())
      ensures e == (if FirstEmpty(old(Slots()), 0) < SLOTS then 0 else -1)
    {
      e := -1;
      for i := 0 to kthreads.Length
        invariant e == -1 && kthreads[..] == old(kthreads[..])
        invariant FirstEmpty(Slots(), i) == FirstEmpty(Slots(), 0)
      {
        if kthreads[i] == null {
          kthreads[i] := kthread;
          e := 0;
          assert Slots() == old(Slots())[i := Full(kthread.Value())];
          return;
        }
      }
    }

    /** _switch */
    method Switch(from: Kthread, to: Kthread, cpuState: Registers)
      modifies from`cpuState, cpuState
      ensures from.cpuState == old(cpuState.value)
      ensures cpuState.value == if from != to then old(to.cpuState) else old(cpuState.value)
    {
      from.cpuState := cpuState.value;
      if from != to {
        cpuState.value := to.cpuState;
      }
    }

    /** _arch_irq_task_switch; `now` is what get_system_time leaves in sched_time. */
    method ArchIrqTaskSwitch(cpuState: Registers, now: Timespec)
      requires Sound()
      modifies this, kthreads[..], cpuState
      ensures Sound() && schedTime == now
      ensures State(cpuState.value) == TaskSwitch(old(State(cpuState.value)), now)
    {
      hide Runnable, Woken, Compare, Scan, Slots, TaskSwitch, Looked;
      ghost var before := State(cpuState.value);
      schedTime := now;
      var c := kthreads[running];
      var n := RunQueueNext();
      DispatchValid(before, now);
      ghost var slots := Slots();
      Switch(c, n, cpuState);
      SwitchedIs(before, now, slots, Slots(), cpuState.value);
    }

    /** The critical section of kthread_sleep_ts. */
    method GoToSleep(until: Timespec)
      requires Sound()
      modifies kthreads[running]
      ensures Sound()
      ensures forall live :: State(live) == Sleep(old(State(live)), until)
    {
      var thr := kthreads[running];
      thr.flags := thr.flags | KTHREAD_SLEEP_UNTIL_TIME;
      thr.sleepUntilTime := until;
      assert Slots() == old(Slots())[running := Full(thr.Value())];
    }

    /**
     * kthread_sleep_ts. `now` is the system time it reads; its yield is a software interrupt whose handler
     * calls _arch_irq_task_switch, which reads the clock once more, at `later`.
     */
    method KthreadSleepTs(cpuState: Registers, now: Timespec, ts: Timespec, later: Timespec)
      requires Sound()
      modifies this, kthreads[..], cpuState
      ensures Sound() && schedTime == later
      ensures State(cpuState.value) == SleepUntil(old(State(cpuState.value)), SystemTime.Add(now, ts), later)
    {
      hide SystemTime.Add, Sleep, TaskSwitch;
      var until := SystemTime.Add(now, ts);
      GoToSleep(until);
      ArchIrqTaskSwitch(cpuState, later);
    }
  }
}
