/**
 * The ARM mutex as single instructions of any number of threads on one core. A
 * thread can be interrupted before every instruction; each IRQ and SVC entry
 * executes clrex.
 */
module Mutex {

  /** The instructions of mutex.S, compare and branch kept apart. */
  datatype Instr =
    | MovR2One            // mov R2, #1
    | Ldrex               // ldrex R3, [R0]
    | CmpR3R2             // cmp R3, R2
    | CmpR3One            // cmp R3, #1
    | Beq(target: nat)    // beq target
    | Strex               // strex R3, R2, [R0]
    | Dmb                 // dmb
    | YieldSvc            // bl kthread_yield, down to its svc
    | Branch(target: nat) // b target
    | MovR0Zero           // mov R0, #0
    | MovR1Zero           // mov R1, #0
    | Str                 // str R1, [R0]
    | Return              // pop {PC}, mov PC, LR

  const LOCK: nat := 0
  const TRYLOCK: nat := 11
  const UNLOCK: nat := 22

  /** Where a thread is while it runs none of the three routines. */
  const OUTSIDE: nat := 26

  function Code(pc: nat): Instr
    requires pc < OUTSIDE
  {
    // mutex_lock
    if pc == 0 then MovR2One
    else if pc == 1 then Ldrex
    else if pc == 2 then CmpR3R2
    else if pc == 3 then Beq(9)
    else if pc == 4 then Strex
    else if pc == 5 then CmpR3One
    else if pc == 6 then Beq(1)
    else if pc == 7 then Dmb
    else if pc == 8 then Return
    else if pc == 9 then YieldSvc
    else if pc == 10 then Branch(1)
    // mutex_trylock
    else if pc == 11 then MovR2One
    else if pc == 12 then Ldrex
    else if pc == 13 then CmpR3R2
    else if pc == 14 then Beq(21)
    else if pc == 15 then Strex
    else if pc == 16 then CmpR3One
    else if pc == 17 then Beq(12)
    else if pc == 18 then Dmb
    else if pc == 19 then MovR0Zero
    else if pc == 20 then Return
    else if pc == 21 then Return
    // mutex_unlock
    else if pc == 22 then Dmb
    else if pc == 23 then MovR1Zero
    else if pc == 24 then Str
    else Return
  }

  /** The registers of a thread; `arg` remembers the mutex of its current call. */
  datatype Thread = Thread(pc: nat, r0: nat, r1: nat, r2: nat, r3: nat, z: bool, arg: nat)

  /**
   * The lock words, the threads, the running one and the core's exclusive monitor. `held` records who
   * acquired what: a pair enters at a successful strex and leaves at the unlocking str.
   */
  datatype System = System(
    mem: map<nat, nat>,
    threads: seq<Thread>,
    current: nat,
    monitor: bool,
    held: set<(nat, nat)>)

  /** A lock word never written is 0, as mutex_init leaves it. */
  function Word(s: System, m: nat): nat {
    if m in s.mem then s.mem[m] else 0
  }

  /** What can happen next. */
  datatype Event =
    | Execute                     // the running thread's next instruction
    | LoseMonitor                 // the core drops its reservation for a reason of its own
    | Call(entry: nat, m: nat)    // client code calls one of the routines
    | Interrupt(next: nat)        // an IRQ; `next` runs afterwards, possibly the same thread
    | Yield(next: nat)            // the running thread executes the svc of its yield; `next` runs afterwards

  /** `clears`: exception entry executes clrex. */
  predicate Enabled(s: System, e: Event) {
    s.current < |s.threads| &&
    var t := s.threads[s.current];
    match e
    case Execute => t.pc < OUTSIDE && Code(t.pc) != YieldSvc
    case LoseMonitor => true
    case Call(entry, m) =>
      && t.pc == OUTSIDE && m != 0
      && (entry == LOCK || entry == TRYLOCK || (entry == UNLOCK && (s.current, m) in s.held))
    case Interrupt(next) => next < |s.threads|
    case Yield(next) => t.pc < OUTSIDE && Code(t.pc) == YieldSvc && next < |s.threads|
  }

  function SetThread(s: System, t: Thread): System
    requires s.current < |s.threads|
  {
    s.(threads := s.threads[s.current := t])
  }

  /**
   * The registers and the monitor after one instruction, given the word that R0 points to. A strex
   * succeeds exactly when the monitor is set; either way the monitor is clear afterwards.
   */
  function Local(t: Thread, word: nat, monitor: bool): (Thread, bool)
    requires t.pc < OUTSIDE
  {
    var next := t.(pc := t.pc + 1);
    match Code(t.pc)
    case MovR2One => (next.(r2 := 1), monitor)
    case Ldrex => (next.(r3 := word), true)
    case CmpR3R2 => (next.(z := t.r3 == t.r2), monitor)
    case CmpR3One => (next.(z := t.r3 == 1), monitor)
    case Beq(target) => (if t.z then t.(pc := target) else next, monitor)
    case Strex => (next.(r3 := if monitor then 0 else 1), false)
    case Dmb => (next, monitor)
    case YieldSvc => (next, monitor)
    case Branch(target) => (t.(pc := target), monitor)
    case MovR0Zero => (next.(r0 := 0), monitor)
    case MovR1Zero => (next.(r1 := 0), monitor)
    case Str => (next, monitor)
    case Return => (t.(pc := OUTSIDE), monitor)
  }

  /** One instruction of the running thread; strex and str also write the lock word. */
  function Exec(s: System): System
    requires Enabled(s, Execute)
  {
    var t := s.threads[s.current];
    var (t1, monitor) := Local(t, Word(s, t.r0), s.monitor);
    var r := SetThread(s, t1).(monitor := monitor);
    if Code(t.pc) == Strex && s.monitor then
      r.(mem := s.mem[t.r0 := t.r2], held := s.held + {(s.current, t.r0)})
    else if Code(t.pc) == Str then
      r.(mem := s.mem[t.r0 := t.r1], held := s.held - {(s.current, t.r0)})
    else r
  }

  /** Exception entry and the choice of the thread to run: nobody's registers change. */
  function Switch(s: System, next: nat, clears: bool): System {
    s.(current := next, monitor := s.monitor && !clears)
  }

  /** The running thread's next instruction is taken as done. */
  function Past(s: System): System
    requires s.current < |s.threads|
  {
    SetThread(s, s.threads[s.current].(pc := s.threads[s.current].pc + 1))
  }

  function Step(s: System, e: Event, clears: bool): System
    requires Enabled(s, e)
  {
    match e
    case Execute => Exec(s)
    case LoseMonitor => s.(monitor := false)
    case Call(entry, m) => SetThread(s, s.threads[s.current].(pc := entry, r0 := m, arg := m))
    case Interrupt(next) => Switch(s, next, clears)
    case Yield(next) => Switch(Past(s), next, clears)
  }

  predicate Legal(s: System, es: seq<Event>, clears: bool)
    decreases |es|
  {
    if es == [] then true
    else if Enabled(s, es[0]) then Legal(Step(s, es[0], clears), es[1..], clears)
    else false
  }

  function Run(s: System, es: seq<Event>, clears: bool): System
    requires Legal(s, es, clears)
    decreases |es|
  {
    if es == [] then s else Run(Step(s, es[0], clears), es[1..], clears)
  }

  /** Any number of threads in client code, no lock word written. */
  function Start(n: nat): System {
    System(map[], seq(n, _ => Thread(OUTSIDE, 0, 0, 0, 0, false, 0)), 0, false, {})
  }

  /* ---- Mutual exclusion ---- */

  ghost predicate Exclusive(s: System) {
    forall t, u, m :: (t, m) in s.held && (u, m) in s.held ==> t == u
  }

  /** A lock word is 1 exactly while some thread holds the mutex, and 0 otherwise. */
  ghost predicate WordsTell(s: System) {
    forall m: nat {:trigger Word(s, m)} ::
      Word(s, m) <= 1 && (Word(s, m) == 1 <==> exists t :: (t, m) in s.held)
  }

  /** What a thread's registers say at each instruction; `has` says whether it holds its call's mutex. */
  predicate ThreadOk(t: Thread, has: bool) {
    && t.pc <= OUTSIDE
    && (t.pc < OUTSIDE ==> t.arg != 0)
    && (t.pc < OUTSIDE && t.pc != 20 ==> t.r0 == t.arg)
    && (1 <= t.pc <= 10 || 12 <= t.pc <= 21 ==> t.r2 == 1)
    && (t.pc == 2 || t.pc == 3 || t.pc == 13 || t.pc == 14 ==> t.r3 <= 1)
    && (t.pc == 3 || t.pc == 14 ==> (t.z <==> t.r3 == 1))
    && (t.pc == 4 || t.pc == 15 ==> t.r3 == 0)
    && (t.pc == 9 || t.pc == 10 || t.pc == 21 ==> t.r3 == 1)
    && (t.pc == 5 || t.pc == 16 ==> t.r3 <= 1 && (t.r3 == 0 ==> has))
    && (t.pc == 6 || t.pc == 17 ==> !t.z ==> has)
    && (7 <= t.pc <= 8 || 18 <= t.pc <= 20 || 22 <= t.pc <= 24 ==> has)
    && (t.pc == 20 ==> t.r0 == 0)
    && (t.pc == 24 ==> t.r1 == 0)
  }

  ghost predicate ThreadsOk(s: System) {
    forall i :: 0 <= i < |s.threads| ==> ThreadOk(s.threads[i], (i, s.threads[i].arg) in s.held)
  }

  /** While the monitor is set, the value that the running thread loaded is still in memory. */
  predicate MonitorOk(s: System) {
    s.current < |s.threads| ==>
    var t := s.threads[s.current];
    Guarded(t, Word(s, t.r0), s.monitor)
  }

  ghost predicate Invariant(s: System) {
    Exclusive(s) && WordsTell(s) && ThreadsOk(s) && MonitorOk(s)
  }

  lemma StartInvariant(n: nat)
    ensures Invariant(Start(n))
  {
  }

  /** A thread other than the running one keeps what it knows when `held` changes for the running one only. */
  lemma OthersOk(s: System, t: Thread, held: set<(nat, nat)>)
    requires ThreadsOk(s) && s.current < |s.threads|
    requires forall i, m :: i != s.current ==> ((i, m) in s.held <==> (i, m) in held)
    requires ThreadOk(t, (s.current, t.arg) in held)
    ensures ThreadsOk(SetThread(s, t).(held := held))
  {
  }

  /** The step on which everything rests: a strex that succeeds finds the mutex free. */
  lemma StrexTakesFree(s: System)
    requires Invariant(s) && Enabled(s, Execute)
    requires Code(s.threads[s.current].pc) == Strex && s.monitor
    ensures forall t :: (t, s.threads[s.current].r0) !in s.held
    ensures Invariant(Exec(s))
  {
    var t := s.threads[s.current];
    assert Word(s, t.r0) == 0;
    var r := Exec(s);
    OthersOk(s, t.(pc := t.pc + 1, r3 := 0), r.held);
    WordWritten(s, r, t.r0, 1);
  }

  lemma UnlockFrees(s: System)
    requires Invariant(s) && Enabled(s, Execute) && Code(s.threads[s.current].pc) == Str
    ensures Invariant(Exec(s)) && Word(Exec(s), s.threads[s.current].r0) == 0
  {
    var t := s.threads[s.current];
    var r := Exec(s);
    OthersOk(s, t.(pc := t.pc + 1), r.held);
    WordWritten(s, r, t.r0, 0);
  }

  /** One lock word changes together with who holds that mutex. */
  lemma WordWritten(s: System, r: System, m: nat, v: nat)
    requires WordsTell(s) && r.mem == s.mem[m := v] && v <= 1
    requires v == 1 <==> exists t :: (t, m) in r.held
    requires forall t, k :: k != m ==> ((t, k) in r.held <==> (t, k) in s.held)
    ensures WordsTell(r)
  {
    forall k: nat
      ensures Word(r, k) <= 1 && (Word(r, k) == 1 <==> exists t :: (t, k) in r.held)
    {
      if k != m {
        assert Word(r, k) == Word(s, k);
      }
    }
  }

  lemma WordsSame(s: System, r: System)
    requires WordsTell(s) && r.mem == s.mem && r.held == s.held
    ensures WordsTell(r)
  {
    forall k: nat
      ensures Word(r, k) <= 1 && (Word(r, k) == 1 <==> exists t :: (t, k) in r.held)
    {
      assert Word(r, k) == Word(s, k);
    }
  }

  /** A load that the monitor still guards: the loaded value is in memory. */
  predicate Guarded(t: Thread, word: nat, monitor: bool) {
    monitor && (2 <= t.pc <= 4 || 13 <= t.pc <= 15) ==> t.r3 == word
  }

  predicate WritesMemory(t: Thread, monitor: bool)
    requires t.pc < OUTSIDE
  {
    Code(t.pc) == Str || (Code(t.pc) == Strex && monitor)
  }

  /** A thread about to execute an instruction that writes no memory. */
  predicate ReadyToRead(t: Thread, has: bool, word: nat, monitor: bool) {
    t.pc < OUTSIDE && ThreadOk(t, has) && Guarded(t, word, monitor) && word <= 1 && !WritesMemory(t, monitor)
  }

  /** After it the thread knows what its new place requires. */
  predicate LocalKeeps(t: Thread, has: bool, word: nat, monitor: bool)
    requires t.pc < OUTSIDE
  {
    var (t1, monitor1) := Local(t, word, monitor);
    ThreadOk(t1, has) && Guarded(t1, word, monitor1) && t1.arg == t.arg && (t1.pc != 20 ==> t1.r0 == t.r0)
  }

  lemma LockLoads(t: Thread, has: bool, word: nat, monitor: bool)
    requires t.pc < 4 && ReadyToRead(t, has, word, monitor)
    ensures LocalKeeps(t, has, word, monitor)
  {
  }

  lemma LockStores(t: Thread, has: bool, word: nat, monitor: bool)
    requires 4 <= t.pc < 7 && ReadyToRead(t, has, word, monitor)
    ensures LocalKeeps(t, has, word, monitor)
  {
  }

  lemma LockReturns(t: Thread, has: bool, word: nat, monitor: bool)
    requires 7 <= t.pc < TRYLOCK && ReadyToRead(t, has, word, monitor)
    ensures LocalKeeps(t, has, word, monitor)
  {
  }

  lemma TrylockLoads(t: Thread, has: bool, word: nat, monitor: bool)
    requires TRYLOCK <= t.pc < 15 && ReadyToRead(t, has, word, monitor)
    ensures LocalKeeps(t, has, word, monitor)
  {
  }

  lemma TrylockStores(t: Thread, has: bool, word: nat, monitor: bool)
    requires 15 <= t.pc < 18 && ReadyToRead(t, has, word, monitor)
    ensures LocalKeeps(t, has, word, monitor)
  {
  }

  lemma TrylockReturns(t: Thread, has: bool, word: nat, monitor: bool)
    requires 18 <= t.pc < UNLOCK && ReadyToRead(t, has, word, monitor)
    ensures LocalKeeps(t, has, word, monitor)
  {
  }

  lemma UnlockOk(t: Thread, has: bool, word: nat, monitor: bool)
    requires UNLOCK <= t.pc && ReadyToRead(t, has, word, monitor)
    ensures LocalKeeps(t, has, word, monitor)
  {
  }

  lemma LocalOk(t: Thread, has: bool, word: nat, monitor: bool)
    requires ReadyToRead(t, has, word, monitor)
    ensures LocalKeeps(t, has, word, monitor)
  {
    hide LocalKeeps, ThreadOk, Code;
    if t.pc < 4 {
      LockLoads(t, has, word, monitor);
    } else if t.pc < 7 {
      LockStores(t, has, word, monitor);
    } else if t.pc < TRYLOCK {
      LockReturns(t, has, word, monitor);
    } else if t.pc < 15 {
      TrylockLoads(t, has, word, monitor);
    } else if t.pc < 18 {
      TrylockStores(t, has, word, monitor);
    } else if t.pc < UNLOCK {
      TrylockReturns(t, has, word, monitor);
    } else {
      UnlockOk(t, has, word, monitor);
    }
  }

  lemma ExecKeeps(s: System)
    requires Invariant(s) && Enabled(s, Execute)
    ensures Invariant(Exec(s))
  {
    hide Local, Word, WordsTell, ThreadOk;
    var t := s.threads[s.current];
    if Code(t.pc) == Strex && s.monitor {
      StrexTakesFree(s);
    } else if Code(t.pc) == Str {
      UnlockFrees(s);
    } else {
      var r := Exec(s);
      WordBound(s, t.r0);
      LocalOk(t, (s.current, t.arg) in s.held, Word(s, t.r0), s.monitor);
      WordsSame(s, r);
      WordSame(s, r, t.r0);
      OthersOk(s, r.threads[s.current], s.held);
    }
  }

  lemma WordSame(s: System, r: System, m: nat)
    requires r.mem == s.mem
    ensures Word(r, m) == Word(s, m)
  {
  }

  lemma WordBound(s: System, m: nat)
    requires WordsTell(s)
    ensures Word(s, m) <= 1
  {
  }

  /** Every event keeps the invariant, because exception entry clears the monitor. */
  lemma StepKeeps(s: System, e: Event)
    requires Invariant(s) && Enabled(s, e)
    ensures Invariant(Step(s, e, true))
  {
    var r := Step(s, e, true);
    match e
    case Execute => ExecKeeps(s);
    case LoseMonitor => WordsSame(s, r);
    case Call(entry, m) =>
      WordsSame(s, r);
      OthersOk(s, r.threads[s.current], s.held);
    case Interrupt(next) => WordsSame(s, r);
    case Yield(next) =>
      WordsSame(s, r);
      OthersOk(s, r.threads[s.current], s.held);
  }

  lemma {:induction false} RunKeeps(s: System, es: seq<Event>)
    requires Invariant(s) && Legal(s, es, true)
    ensures Invariant(Run(s, es, true))
    decreases |es|
  {
    if es != [] {
      StepKeeps(s, es[0]);
      RunKeeps(Step(s, es[0], true), es[1..]);
    }
  }

  /**
   * From the start, with any number of threads and mutexes, any interleaving and any interruption: at most
   * one thread lies between its successful strex and its unlock of a mutex.
   */
  lemma EveryRunExclusive(n: nat, es: seq<Event>)
    requires Legal(Start(n), es, true)
    ensures Exclusive(Run(Start(n), es, true)) && Invariant(Run(Start(n), es, true))
  {
    StartInvariant(n);
    RunKeeps(Start(n), es);
  }

  /**
   * mutex_lock returns with the mutex held; mutex_trylock returns zero with the mutex held, or the
   * mutex address, which is not zero. A thread yields, or gives up, only after it loaded a 1.
   */
  lemma RoutineResults(s: System)
    requires Invariant(s) && s.current < |s.threads|
    requires var pc := s.threads[s.current].pc; pc == 8 || pc == 9 || pc == 20 || pc == 21
    ensures var t := s.threads[s.current];
            && (t.pc == 9 || Code(t.pc) == Return)
            && (t.pc == 8 ==> (s.current, t.arg) in s.held)
            && (t.pc == 9 ==> Code(t.pc) == YieldSvc && t.r3 == 1)
            && (t.pc == 20 ==> t.r0 == 0 && (s.current, t.arg) in s.held)
            && (t.pc == 21 ==> t.r0 == t.arg != 0 && t.r3 == 1)
  {
    assert ThreadOk(s.threads[s.current], (s.current, s.threads[s.current].arg) in s.held);
  }

  /** What a load sees: 1 exactly while some thread holds the mutex. */
  lemma LoadTells(s: System)
    requires Invariant(s) && Enabled(s, Execute) && Code(s.threads[s.current].pc) == Ldrex
    ensures var m := s.threads[s.current].r0;
            && Exec(s).threads[s.current].r3 == (if exists t :: (t, m) in s.held then 1 else 0)
            && Exec(s).monitor
  {
    var t := s.threads[s.current];
    WordBound(s, t.r0);
  }

  /* ---- A thread that nothing disturbs ---- */

  /** The running thread alone executes k instructions, from s to r. */
  ghost predicate Alone(s: System, k: nat, r: System)
    decreases k
  {
    if k == 0 then s == r else Enabled(s, Execute) && Alone(Exec(s), k - 1, r)
  }

  lemma {:induction false} Join(s: System, j: nat, mid: System, k: nat, r: System)
    requires Alone(s, j, mid) && Alone(mid, k, r)
    ensures Alone(s, j + k, r)
    decreases j
  {
    hide Exec, Enabled;
    if j > 0 {
      Join(Exec(s), j - 1, mid, k, r);
    }
  }

  lemma One(s: System)
    requires Enabled(s, Execute)
    ensures Alone(s, 1, Exec(s))
  {
    assert Alone(Exec(s), 0, Exec(s));
  }

  lemma Two(s: System, r: System)
    requires Enabled(s, Execute) && Enabled(Exec(s), Execute) && r == Exec(Exec(s))
    ensures Alone(s, 2, r)
  {
    hide Exec, Enabled;
    One(s);
    One(Exec(s));
    Join(s, 1, Exec(s), 1, r);
  }

  /** From the first load of mutex_lock (1) or mutex_trylock (12): load and compare. */
  lemma LoadsWord(s: System, pc: nat)
    requires s.current < |s.threads| && s.threads[s.current].pc == pc && (pc == 1 || pc == 12)
    requires s.threads[s.current].r2 == 1
    ensures var t := s.threads[s.current];
            var w := Word(s, t.r0);
            Alone(s, 2, SetThread(s, t.(pc := pc + 2, r3 := w, z := w == 1)).(monitor := true))
  {
    hide Alone;
    var t := s.threads[s.current];
    var w := Word(s, t.r0);
    Two(s, SetThread(s, t.(pc := pc + 2, r3 := w, z := w == 1)).(monitor := true));
  }

  /** The branch is not taken and the store succeeds. */
  lemma StoresWord(s: System, pc: nat)
    requires s.current < |s.threads| && s.threads[s.current].pc == pc && (pc == 3 || pc == 14)
    requires s.threads[s.current].r2 == 1 && !s.threads[s.current].z && s.monitor
    ensures var t := s.threads[s.current];
            Alone(s, 2, SetThread(s, t.(pc := pc + 2, r3 := 0)).(
              mem := s.mem[t.r0 := 1], monitor := false, held := s.held + {(s.current, t.r0)}))
  {
    hide Alone;
    var t := s.threads[s.current];
    Two(s, SetThread(s, t.(pc := pc + 2, r3 := 0)).(
          mem := s.mem[t.r0 := 1], monitor := false, held := s.held + {(s.current, t.r0)}));
  }

  /** The store's result is compared, and there is no second try. */
  lemma StoreSucceeded(s: System, pc: nat)
    requires s.current < |s.threads| && s.threads[s.current].pc == pc && (pc == 5 || pc == 16)
    requires s.threads[s.current].r3 == 0
    ensures Alone(s, 2, SetThread(s, s.threads[s.current].(pc := pc + 2, z := false)))
  {
    hide Alone;
    Two(s, SetThread(s, s.threads[s.current].(pc := pc + 2, z := false)));
  }

  /** The first instruction of mutex_lock (0) or mutex_trylock (11). */
  lemma Begins(s: System, pc: nat)
    requires s.current < |s.threads| && s.threads[s.current].pc == pc && (pc == LOCK || pc == TRYLOCK)
    ensures Alone(s, 1, SetThread(s, s.threads[s.current].(pc := pc + 1, r2 := 1)))
  {
    hide Alone;
    One(s);
  }

  /** A branch that is taken: to the yield, to the failing return, or from the yield back to the load. */
  lemma Branches(s: System, pc: nat, target: nat)
    requires s.current < |s.threads| && s.threads[s.current].pc == pc
    requires pc == 10 || s.threads[s.current].z
    requires (pc == 3 && target == 9) || (pc == 14 && target == 21) || (pc == 10 && target == 1)
    ensures Alone(s, 1, SetThread(s, s.threads[s.current].(pc := target)))
  {
    hide Alone;
    One(s);
  }

  /** The barrier and the return of mutex_lock. */
  lemma LockLeaves(s: System)
    requires s.current < |s.threads| && s.threads[s.current].pc == 7
    ensures Alone(s, 2, SetThread(s, s.threads[s.current].(pc := OUTSIDE)))
  {
    hide Alone;
    Two(s, SetThread(s, s.threads[s.current].(pc := OUTSIDE)));
  }

  /** The barrier of mutex_trylock, and the zero that it returns. */
  lemma TrylockZero(s: System)
    requires s.current < |s.threads| && s.threads[s.current].pc == 18
    ensures Alone(s, 2, SetThread(s, s.threads[s.current].(pc := 20, r0 := 0)))
  {
    hide Alone;
    Two(s, SetThread(s, s.threads[s.current].(pc := 20, r0 := 0)));
  }

  /** A return to the client. */
  lemma Returns(s: System, pc: nat)
    requires s.current < |s.threads| && s.threads[s.current].pc == pc < OUTSIDE && Code(pc) == Return
    ensures Alone(s, 1, SetThread(s, s.threads[s.current].(pc := OUTSIDE)))
  {
    hide Alone, Code;
    One(s);
  }

  /** The barrier of mutex_unlock, and the zero that it will store. */
  lemma UnlockBegins(s: System)
    requires s.current < |s.threads| && s.threads[s.current].pc == UNLOCK
    ensures Alone(s, 2, SetThread(s, s.threads[s.current].(pc := 24, r1 := 0)))
  {
    hide Alone;
    Two(s, SetThread(s, s.threads[s.current].(pc := 24, r1 := 0)));
  }

  lemma UnlockStores(s: System)
    requires s.current < |s.threads| && s.threads[s.current].pc == 24
    ensures var t := s.threads[s.current];
            Alone(s, 1, SetThread(s, t.(pc := 25)).(mem := s.mem[t.r0 := t.r1], held := s.held - {(s.current, t.r0)}))
  {
    hide Alone;
    One(s);
  }

  /** From its load on a free mutex either routine acquires it in six instructions. */
  lemma AcquiresFree(s: System, pc: nat)
    requires s.current < |s.threads| && s.threads[s.current].pc == pc && (pc == 1 || pc == 12)
    requires s.threads[s.current].r2 == 1 && Word(s, s.threads[s.current].r0) == 0
    ensures var t := s.threads[s.current];
            Alone(s, 6, SetThread(s, t.(pc := pc + 6, r3 := 0, z := false)).(
              mem := s.mem[t.r0 := 1], monitor := false, held := s.held + {(s.current, t.r0)}))
  {
    hide Alone, Word, Exec, Enabled, Code;
    var t := s.threads[s.current];
    var m, c := t.r0, s.current;
    var s2 := SetThread(s, t.(pc := pc + 2, r3 := 0, z := false)).(monitor := true);
    var s4 := SetThread(s2, s2.threads[c].(pc := pc + 4, r3 := 0)).(
      mem := s.mem[m := 1], monitor := false, held := s.held + {(c, m)});
    var s6 := SetThread(s4, s4.threads[c].(pc := pc + 6, z := false));
    LoadsWord(s, pc);
    StoresWord(s2, pc + 2);
    StoreSucceeded(s4, pc + 4);
    Join(s, 2, s2, 2, s4);
    Join(s, 4, s4, 2, s6);
    assert s6.threads == s.threads[c := t.(pc := pc + 6, r3 := 0, z := false)];
  }

  /** mutex_lock on a free mutex, undisturbed: nine instructions, then the thread is back and holds it. */
  lemma LockAlone(s: System, m: nat)
    requires s.current < |s.threads| && s.threads[s.current].pc == LOCK && s.threads[s.current].r0 == m
    requires Word(s, m) == 0
    ensures var t := s.threads[s.current];
            Alone(s, 9, SetThread(s, t.(pc := OUTSIDE, r2 := 1, r3 := 0, z := false)).(
              mem := s.mem[m := 1], monitor := false, held := s.held + {(s.current, m)}))
  {
    hide Alone, Exec, Enabled, Code;
    var c, t := s.current, s.threads[s.current];
    var s1 := SetThread(s, t.(pc := 1, r2 := 1));
    var s7 := SetThread(s1, s1.threads[c].(pc := 7, r3 := 0, z := false)).(
      mem := s.mem[m := 1], monitor := false, held := s.held + {(c, m)});
    var s9 := SetThread(s7, s7.threads[c].(pc := OUTSIDE));
    Begins(s, LOCK);
    AcquiresFree(s1, 1);
    LockLeaves(s7);
    Join(s, 1, s1, 6, s7);
    Join(s, 7, s7, 2, s9);
    assert s9.threads == s.threads[c := t.(pc := OUTSIDE, r2 := 1, r3 := 0, z := false)];
  }

  /** mutex_lock on a held mutex, undisturbed: it comes to its yield and has changed no memory. */
  lemma LockWaits(s: System, m: nat)
    requires s.current < |s.threads| && s.threads[s.current].pc == LOCK && s.threads[s.current].r0 == m
    requires Word(s, m) == 1
    ensures var t := s.threads[s.current];
            Alone(s, 4, SetThread(s, t.(pc := 9, r2 := 1, r3 := 1, z := true)).(monitor := true)) && Code(9) == YieldSvc
  {
    hide Alone, Exec, Enabled;
    var c, t := s.current, s.threads[s.current];
    var s1 := SetThread(s, t.(pc := 1, r2 := 1));
    var s3 := SetThread(s1, s1.threads[c].(pc := 3, r3 := 1, z := true)).(monitor := true);
    var s4 := SetThread(s3, s3.threads[c].(pc := 9));
    Begins(s, LOCK);
    LoadsWord(s1, 1);
    Branches(s3, 3, 9);
    Join(s, 1, s1, 2, s3);
    Join(s, 3, s3, 1, s4);
    assert s4.threads == s.threads[c := t.(pc := 9, r2 := 1, r3 := 1, z := true)];
  }

  /** After the yield it tries again: on a mutex that is free by then it acquires it. */
  lemma LockAfterYield(s: System, m: nat)
    requires s.current < |s.threads| && s.threads[s.current].pc == 10 && s.threads[s.current].r0 == m
    requires s.threads[s.current].r2 == 1 && Word(s, m) == 0
    ensures var t := s.threads[s.current];
            Alone(s, 9, SetThread(s, t.(pc := OUTSIDE, r3 := 0, z := false)).(
              mem := s.mem[m := 1], monitor := false, held := s.held + {(s.current, m)}))
  {
    hide Alone, Exec, Enabled, Code;
    var c, t := s.current, s.threads[s.current];
    var s1 := SetThread(s, t.(pc := 1));
    var s7 := SetThread(s1, s1.threads[c].(pc := 7, r3 := 0, z := false)).(
      mem := s.mem[m := 1], monitor := false, held := s.held + {(c, m)});
    var s9 := SetThread(s7, s7.threads[c].(pc := OUTSIDE));
    Branches(s, 10, 1);
    AcquiresFree(s1, 1);
    LockLeaves(s7);
    Join(s, 1, s1, 6, s7);
    Join(s, 7, s7, 2, s9);
    assert s9.threads == s.threads[c := t.(pc := OUTSIDE, r3 := 0, z := false)];
  }

  /** mutex_trylock on a free mutex, undisturbed: it returns 0 and holds it. */
  lemma TrylockAlone(s: System, m: nat)
    requires s.current < |s.threads| && s.threads[s.current].pc == TRYLOCK && s.threads[s.current].r0 == m
    requires Word(s, m) == 0
    ensures var t := s.threads[s.current];
            Alone(s, 10, SetThread(s, t.(pc := OUTSIDE, r0 := 0, r2 := 1, r3 := 0, z := false)).(
              mem := s.mem[m := 1], monitor := false, held := s.held + {(s.current, m)}))
  {
    hide Alone, Exec, Enabled;
    var c, t := s.current, s.threads[s.current];
    var s1 := SetThread(s, t.(pc := 12, r2 := 1));
    var s7 := SetThread(s1, s1.threads[c].(pc := 18, r3 := 0, z := false)).(
      mem := s.mem[m := 1], monitor := false, held := s.held + {(c, m)});
    var s9 := SetThread(s7, s7.threads[c].(pc := 20, r0 := 0));
    var s10 := SetThread(s9, s9.threads[c].(pc := OUTSIDE));
    Begins(s, TRYLOCK);
    AcquiresFree(s1, 12);
    TrylockZero(s7);
    Returns(s9, 20);
    Join(s, 1, s1, 6, s7);
    Join(s, 7, s7, 2, s9);
    Join(s, 9, s9, 1, s10);
    assert s10.threads == s.threads[c := t.(pc := OUTSIDE, r0 := 0, r2 := 1, r3 := 0, z := false)];
  }

  /** mutex_trylock on a held mutex, undisturbed: it returns the mutex address and has changed no memory. */
  lemma TrylockFails(s: System, m: nat)
    requires s.current < |s.threads| && s.threads[s.current].pc == TRYLOCK && s.threads[s.current].r0 == m
    requires Word(s, m) == 1
    ensures var t := s.threads[s.current];
            Alone(s, 5, SetThread(s, t.(pc := OUTSIDE, r2 := 1, r3 := 1, z := true)).(monitor := true))
  {
    hide Alone, Exec, Enabled;
    var c, t := s.current, s.threads[s.current];
    var s1 := SetThread(s, t.(pc := 12, r2 := 1));
    var s3 := SetThread(s1, s1.threads[c].(pc := 14, r3 := 1, z := true)).(monitor := true);
    var s4 := SetThread(s3, s3.threads[c].(pc := 21));
    var s5 := SetThread(s4, s4.threads[c].(pc := OUTSIDE));
    Begins(s, TRYLOCK);
    LoadsWord(s1, 12);
    Branches(s3, 14, 21);
    Returns(s4, 21);
    Join(s, 1, s1, 2, s3);
    Join(s, 3, s3, 1, s4);
    Join(s, 4, s4, 1, s5);
    assert s5.threads == s.threads[c := t.(pc := OUTSIDE, r2 := 1, r3 := 1, z := true)];
  }

  /** mutex_unlock, undisturbed: the lock word is 0 and the thread holds the mutex no longer. */
  lemma UnlockAlone(s: System, m: nat)
    requires s.current < |s.threads| && s.threads[s.current].pc == UNLOCK && s.threads[s.current].r0 == m
    ensures var t := s.threads[s.current];
            Alone(s, 4, SetThread(s, t.(pc := OUTSIDE, r1 := 0)).(mem := s.mem[m := 0], held := s.held - {(s.current, m)}))
  {
    hide Alone, Exec, Enabled;
    var c, t := s.current, s.threads[s.current];
    var s2 := SetThread(s, t.(pc := 24, r1 := 0));
    var s3 := SetThread(s2, s2.threads[c].(pc := 25)).(mem := s.mem[m := 0], held := s.held - {(c, m)});
    var s4 := SetThread(s3, s3.threads[c].(pc := OUTSIDE));
    UnlockBegins(s);
    UnlockStores(s2);
    Returns(s3, 25);
    Join(s, 2, s2, 1, s3);
    Join(s, 3, s3, 1, s4);
    assert s4.threads == s.threads[c := t.(pc := OUTSIDE, r1 := 0)];
  }

  /* ---- Why exception entry has to clear the monitor ---- */

  /** Some run without clrex at exception entry ends in this state. */
  ghost predicate ReachedWithoutClrex(n: nat, s: System) {
    exists es :: Legal(Start(n), es, false) && Run(Start(n), es, false) == s
  }

  lemma {:induction false} RunSnoc(s: System, es: seq<Event>, e: Event)
    requires Legal(s, es, false) && Enabled(Run(s, es, false), e)
    ensures Legal(s, es + [e], false) && Run(s, es + [e], false) == Step(Run(s, es, false), e, false)
    decreases |es|
  {
    var all := es + [e];
    if es == [] {
      assert all == [e] && all[1..] == [];
    } else {
      assert all[0] == es[0] && all[1..] == es[1..] + [e];
      RunSnoc(Step(s, es[0], false), es[1..], e);
    }
  }

  lemma Go(n: nat, s: System, e: Event) returns (r: System)
    requires ReachedWithoutClrex(n, s) && Enabled(s, e)
    ensures ReachedWithoutClrex(n, r) && r == Step(s, e, false)
  {
    var es :| Legal(Start(n), es, false) && Run(Start(n), es, false) == s;
    RunSnoc(Start(n), es, e);
    r := Step(s, e, false);
  }

  /** A thread that starts mutex_lock on a free mutex comes to its strex with the monitor set. */
  lemma UpToStrex(n: nat, s: System, m: nat) returns (r: System)
    requires ReachedWithoutClrex(n, s) && s.current < |s.threads| && m != 0
    requires s.threads[s.current].pc == OUTSIDE && Word(s, m) == 0
    ensures ReachedWithoutClrex(n, r)
    ensures var t := s.threads[s.current];
            r == SetThread(s, Thread(4, m, t.r1, 1, 0, false, m)).(monitor := true)
  {
    hide ReachedWithoutClrex, Legal, Run;
    r := Go(n, s, Call(LOCK, m));
    r := Go(n, r, Execute);
    r := Go(n, r, Execute);
    r := Go(n, r, Execute);
    r := Go(n, r, Execute);
  }

  /** From a strex with the monitor set it acquires the mutex and returns to the client. */
  lemma Acquire(n: nat, s: System, m: nat) returns (r: System)
    requires ReachedWithoutClrex(n, s) && s.current < |s.threads| && s.monitor
    requires var t := s.threads[s.current]; t.pc == 4 && t.r0 == m && t.r2 == 1
    ensures ReachedWithoutClrex(n, r)
    ensures var t := s.threads[s.current];
            r == SetThread(s, t.(pc := OUTSIDE, r3 := 0, z := false)).(
              mem := s.mem[m := 1], monitor := false, held := s.held + {(s.current, m)})
  {
    hide ReachedWithoutClrex, Legal, Run;
    r := Go(n, s, Execute);
    r := FinishLock(n, r);
  }

  lemma FinishLock(n: nat, s: System) returns (r: System)
    requires ReachedWithoutClrex(n, s) && s.current < |s.threads|
    requires s.threads[s.current].pc == 5 && s.threads[s.current].r3 == 0
    ensures ReachedWithoutClrex(n, r)
    ensures r == SetThread(s, s.threads[s.current].(pc := OUTSIDE, z := false))
  {
    hide ReachedWithoutClrex, Legal, Run, Code, Exec;
    r := StoreDone(n, s);
    r := LeaveLock(n, r);
  }

  lemma StoreDone(n: nat, s: System) returns (r: System)
    requires ReachedWithoutClrex(n, s) && s.current < |s.threads|
    requires s.threads[s.current].pc == 5 && s.threads[s.current].r3 == 0
    ensures ReachedWithoutClrex(n, r)
    ensures r == SetThread(s, s.threads[s.current].(pc := 7, z := false))
  {
    hide ReachedWithoutClrex, Legal, Run;
    r := Go(n, s, Execute);
    r := Go(n, r, Execute);
  }

  lemma LeaveLock(n: nat, s: System) returns (r: System)
    requires ReachedWithoutClrex(n, s) && s.current < |s.threads| && s.threads[s.current].pc == 7
    ensures ReachedWithoutClrex(n, r)
    ensures r == SetThread(s, s.threads[s.current].(pc := OUTSIDE))
  {
    hide ReachedWithoutClrex, Legal, Run;
    r := Go(n, s, Execute);
    r := Go(n, r, Execute);
  }

  /** A mutex_trylock, as far as its load, sets the monitor. */
  lemma LoadAgain(n: nat, s: System, m: nat) returns (r: System)
    requires ReachedWithoutClrex(n, s) && s.current < |s.threads| && m != 0
    requires s.threads[s.current].pc == OUTSIDE
    ensures ReachedWithoutClrex(n, r) && r.monitor && r.current == s.current && r.mem == s.mem && r.held == s.held
    ensures |r.threads| == |s.threads| && forall i :: 0 <= i < |s.threads| && i != s.current ==> r.threads[i] == s.threads[i]
    ensures r.threads[s.current].pc == 13
  {
    hide ReachedWithoutClrex, Legal, Run;
    r := Go(n, s, Call(TRYLOCK, m));
    r := Go(n, r, Execute);
    r := Go(n, r, Execute);
  }

  lemma StartReached(n: nat)
    ensures ReachedWithoutClrex(n, Start(n))
  {
    assert Legal(Start(n), [], false) && Run(Start(n), [], false) == Start(n);
  }

  /**
   * Without clrex two threads can hold one mutex: the first is stopped at its strex, the second
   * acquires the mutex and loads it once more, which sets the monitor for the first one's strex.
   */
  lemma ClrexNeeded() returns (s: System)
    ensures ReachedWithoutClrex(2, s) && !Exclusive(s)
  {
    hide ReachedWithoutClrex, Legal, Run, Local;
    StartReached(2);
    s := Start(2);
    s := UpToStrex(2, s, 1);
    s := Go(2, s, Interrupt(1));
    s := UpToStrex(2, s, 1);
    s := Acquire(2, s, 1);
    s := LoadAgain(2, s, 1);
    s := Go(2, s, Interrupt(0));
    s := Acquire(2, s, 1);
    assert (0, 1) in s.held && (1, 1) in s.held;
  }
}
