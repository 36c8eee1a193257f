/** Time since boot, kept from a free-running counter that wraps around. */
module SystemTime {
  import opened Division

  const NANO: nat := 1_000_000_000
  const UINT32: nat := 0x1_0000_0000

  /** struct timespec */
  datatype Timespec = Timespec(seconds: nat, nanoseconds: nat)

  predicate Normal(t: Timespec) {
    t.seconds < UINT32 && t.nanoseconds < NANO
  }

  /** struct system_time without its lock; `factor` is nanoseconds a tick. */
  datatype Clock = Clock(loop: nat, freq: nat, factor: nat, baseTs: Timespec, baseTick: nat, currTs: Timespec)

  /** Ticks of `s` whole seconds. */
  function Ticks(s: nat, freq: nat): nat { s * freq }

  /** Whole seconds in so many ticks, and the ticks left over. */
  function Whole(ticks: nat, freq: nat): nat
    requires freq > 0
  {
    ticks / freq
  }

  function Left(ticks: nat, freq: nat): (l: nat)
    requires freq > 0
    ensures l < freq
  {
    ticks % freq
  }

  function Nanos(l: nat, factor: nat): nat { l * factor }

  lemma WholeLeft(ticks: nat, freq: nat)
    requires freq > 0
    ensures ticks == Ticks(Whole(ticks, freq), freq) + Left(ticks, freq)
  {
  }

  lemma TicksAdd(s: nat, q: nat, freq: nat)
    ensures Ticks(s + q, freq) == Ticks(s, freq) + Ticks(q, freq)
  {
  }

  lemma TicksMono(s: nat, q: nat, freq: nat)
    requires s <= q
    ensures Ticks(s, freq) <= Ticks(q, freq)
  {
    MulMono(s, q, freq);
  }

  predicate Configured(c: Clock) {
    0 < c.freq <= c.loop && c.factor == NANO / c.freq && c.baseTick <= c.loop
  }

  /** _forward_time */
  function Forward(c: Clock, addticks: nat): Clock
    requires Configured(c)
  {
    var addseconds := Whole(addticks, c.freq);
    var rebase := Ticks(addseconds, c.freq);
    WholeLeft(addticks, c.freq);
    var seconds := (c.baseTs.seconds + addseconds) % UINT32;
    var maxRebase := c.loop - c.baseTick;
    c.(baseTs := c.baseTs.(seconds := seconds),
       currTs := Timespec(seconds, Nanos(addticks - rebase, c.factor)),
       baseTick := if rebase <= maxRebase then c.baseTick + rebase else rebase - maxRebase - 1)
  }

  /** get_system_time with the counter at `tick`; a tick below the base means that it wrapped around. */
  function Get(c: Clock, tick: nat): Clock
    requires Configured(c) && tick <= c.loop
  {
    if tick > c.baseTick then Forward(c, tick - c.baseTick)
    else if tick < c.baseTick then Forward(c, tick + (c.loop - c.baseTick))
    else c
  }

  /** start_system_time with the counter at `tick`. */
  function Start(tick: nat, freq: nat, loop: nat): Clock
    requires freq > 0
  {
    Clock(loop, freq, NANO / freq, Timespec(0, 0), tick, Timespec(0, 0))
  }

  /** The counter, `elapsed` ticks after it stood at `start`: it runs modulo loop + 1. */
  function Counter(start: nat, elapsed: nat, loop: nat): (tick: nat)
    ensures tick <= loop
  {
    (start + elapsed) % (loop + 1)
  }

  /**
   * The clock after a call made `elapsed` ticks after the start: `s` whole seconds are accounted for,
   * the base tick is where the counter stood then, and the reported leftover ticks `l` are exact or,
   * if the counter wrapped since the base, one behind.
   */
  predicate Tells(c: Clock, start: nat, elapsed: nat, s: nat, l: nat) {
    && Configured(c)
    && start <= c.loop
    && Ticks(s, c.freq) <= elapsed
    && c.baseTick == Counter(start, Ticks(s, c.freq), c.loop)
    && c.baseTs.seconds == s % UINT32
    && c.currTs == Timespec(s % UINT32, Nanos(l, c.factor))
    && l < c.freq
    && var d := elapsed - Ticks(s, c.freq);
    && (d == l || d == l + 1)
    && (d == l ==> c.baseTick + d <= c.loop)
  }

  lemma StartTells(tick: nat, freq: nat, loop: nat)
    requires 0 < freq <= loop && tick <= loop
    ensures Tells(Start(tick, freq, loop), tick, 0, 0, 0)
  {
    SmallMod(tick, loop + 1);
  }

  /** A counter that stood at `base` stands here d <= loop ticks later. */
  lemma CounterAfter(start: nat, elapsed: nat, d: nat, loop: nat)
    requires d <= loop
    ensures var base := Counter(start, elapsed, loop);
            Counter(start, elapsed + d, loop) == if base + d <= loop then base + d else base + d - loop - 1
  {
    ModAdd(start + elapsed, d, loop + 1);
  }

  /** One forward step over `add` ticks from the base. */
  lemma ForwardSteps(c: Clock, start: nat, s: nat, add: nat)
    requires Configured(c) && add <= c.loop
    requires c.baseTick == Counter(start, Ticks(s, c.freq), c.loop) && c.baseTs.seconds == s % UINT32
    ensures var r := Forward(c, add);
            var s1 := s + Whole(add, c.freq);
            && Configured(r) && r.loop == c.loop && r.freq == c.freq && r.factor == c.factor
            && Ticks(s1, c.freq) + Left(add, c.freq) == Ticks(s, c.freq) + add
            && r.baseTick == Counter(start, Ticks(s1, c.freq), c.loop)
            && r.baseTs.seconds == s1 % UINT32
            && r.currTs == Timespec(s1 % UINT32, Nanos(Left(add, c.freq), c.factor))
  {
    hide Ticks, Whole, Left, Counter, Nanos;
    var q := Whole(add, c.freq);
    var rebase := Ticks(q, c.freq);
    WholeLeft(add, c.freq);
    TicksAdd(s, q, c.freq);
    CounterAfter(start, Ticks(s, c.freq), rebase, c.loop);
    SecondsAdd(s, q);
  }

  lemma SecondsAdd(s: nat, q: nat)
    ensures (s % UINT32 + q) % UINT32 == (s + q) % UINT32
  {
  }

  /**
   * One call: with at most loop - freq ticks since the last one the clock tells the new time, and its
   * tick count never goes back.
   */
  lemma GetTells(c: Clock, start: nat, elapsed: nat, s: nat, l: nat, now: nat) returns (s1: nat, l1: nat)
    requires Tells(c, start, elapsed, s, l)
    requires elapsed <= now <= elapsed + (c.loop - c.freq)
    ensures var r := Get(c, Counter(start, now, c.loop));
            Tells(r, start, now, s1, l1) && r.freq == c.freq && r.loop == c.loop && r.factor == c.factor
    ensures Ticks(s, c.freq) + l <= Ticks(s1, c.freq) + l1
    ensures Ticks(s1, c.freq) + l1 == now <==> c.baseTick <= Counter(start, now, c.loop)
  {
    hide Ticks, Whole, Left, Counter, Nanos, Forward;
    var base := Ticks(s, c.freq);
    var d := now - base;
    CounterAfter(start, base, d, c.loop);
    if d == 0 {
      s1, l1 := s, l;
    } else {
      var add := if c.baseTick + d <= c.loop then d else d - 1;
      var q := Whole(add, c.freq);
      ForwardSteps(c, start, s, add);
      s1, l1 := s + q, Left(add, c.freq);
      WholeLeft(add, c.freq);
      TicksAdd(s, q, c.freq);
      CounterAfter(start, base, Ticks(q, c.freq), c.loop);
    }
  }

  /** A clock started at the counter's top tick reports no time at all one tick later, whatever its frequency. */
  lemma BehindAfterWrap(freq: nat, loop: nat)
    requires 0 < freq <= loop
    ensures Counter(loop, 0, loop) == loop && Counter(loop, 1, loop) == 0
    ensures Get(Start(loop, freq, loop), 0).currTs == Timespec(0, 0)
  {
    hide Ticks, Whole, Nanos;
    SmallMod(loop, loop + 1);
    CounterAfter(loop, 0, 1, loop);
    NoTicks(freq, NANO / freq);
  }

  lemma NoTicks(freq: nat, factor: nat)
    requires freq > 0
    ensures Whole(0, freq) == 0 && Ticks(0, freq) == 0 && Nanos(0, factor) == 0
  {
    SmallMod(0, freq);
  }

  /** Calls at these times after the start, the first since `elapsed`, each at most `gap` ticks after the one before. */
  predicate Calls(gap: nat, elapsed: nat, times: seq<nat>)
    decreases |times|
  {
    times == [] || (elapsed <= times[0] <= elapsed + gap && Calls(gap, times[0], times[1..]))
  }

  /** The times that get_system_time reports, call by call. */
  function Reports(c: Clock, start: nat, times: seq<nat>): (r: seq<Timespec>)
    ensures |r| == |times|
    decreases |times|
  {
    if times == [] then []
    else if !(Configured(c)) then seq(|times|, _ => Timespec(0, 0))
    else
      var c1 := Get(c, Counter(start, times[0], c.loop));
      [c1.currTs] + Reports(c1, start, times[1..])
  }

  /** compare_system_time */
  function Compare(a: Timespec, b: Timespec): int {
    if a.seconds < b.seconds then -1
    else if a.seconds > b.seconds then 1
    else if a.nanoseconds < b.nanoseconds then -1
    else if a.nanoseconds > b.nanoseconds then 1
    else 0
  }

  /** The time after so many ticks, each 10^9 / freq nanoseconds long. */
  function TimeOf(ticks: nat, freq: nat): Timespec
    requires freq > 0
  {
    Timespec(ticks / freq, ticks % freq * (1_000_000_000 / freq))
  }

  /** What one reported time is: the time of the elapsed ticks, or of one tick less; its fields are in range. */
  ghost predicate Accurate(t: Timespec, freq: nat, elapsed: nat)
    requires freq > 0
  {
    && t.seconds < 0x1_0000_0000 && t.nanoseconds < 1_000_000_000
    && (t == TimeOf(elapsed, freq) || (elapsed > 0 && t == TimeOf(elapsed - 1, freq)))
  }

  /**
   * Against real time: a second is 10^9 nanoseconds and freq ticks, so `ticks` ticks last ticks * 10^9 / freq
   * nanoseconds. The time reported for them falls short exactly by what the truncated tick length loses on
   * the ticks after the last whole second.
   */
  lemma RealTime(ticks: nat, freq: nat)
    requires freq > 0
    ensures var t := TimeOf(ticks, freq);
            (t.seconds * 1_000_000_000 + t.nanoseconds) * freq + ticks % freq * (1_000_000_000 % freq)
            == ticks * 1_000_000_000
  {
    var s, l, f := ticks / freq, ticks % freq, NANO / freq;
    assert f * freq + NANO % freq == NANO;
    assert ticks == s * freq + l;
    Distribute(s, l, f, NANO % freq, freq);
  }

  lemma Distribute(s: nat, l: nat, f: nat, rest: nat, freq: nat)
    requires f * freq + rest == NANO
    ensures (s * NANO + l * f) * freq + l * rest == (s * freq + l) * NANO
  {
    assert (s * NANO + l * f) * freq == s * NANO * freq + l * (f * freq);
    assert l * (f * freq) + l * rest == l * (f * freq + rest);
    assert (s * freq + l) * NANO == s * NANO * freq + l * NANO;
  }

  lemma LeftoverTicks(l: nat, freq: nat)
    requires l < freq <= NANO
    ensures Nanos(l, NANO / freq) < NANO
  {
    var f := NANO / freq;
    FactorPositive(freq);
    assert f * freq <= NANO;
    assert l * f < freq * f;
  }

  lemma FactorPositive(freq: nat)
    requires 0 < freq <= NANO
    ensures NANO / freq >= 1
  {
    QuotientPositive(NANO, freq);
  }

  lemma TellsAccurate(c: Clock, start: nat, elapsed: nat, s: nat, l: nat)
    requires Tells(c, start, elapsed, s, l) && elapsed < Ticks(UINT32, c.freq)
    ensures s < UINT32 && Accurate(c.currTs, c.freq, elapsed) && c.currTs == Timespec(s, Nanos(l, c.factor))
  {
    hide Ticks, Counter, Nanos, TimeOf;
    if s >= UINT32 {
      TicksMono(UINT32, s, c.freq);
    }
    SmallMod(s, UINT32);
    LeftoverBelowSecond(l, c.freq);
    TicksTime(s, l, c.freq);
  }

  lemma TicksTime(s: nat, l: nat, freq: nat)
    requires l < freq
    ensures TimeOf(Ticks(s, freq) + l, freq) == Timespec(s, Nanos(l, NANO / freq))
  {
    ModUnique(s * freq + l, s, l, freq);
  }

  /** More ticks never compare as an earlier time. */
  lemma CountOrder(s: nat, l: nat, s1: nat, l1: nat, freq: nat, factor: nat)
    requires l < freq && l1 < freq && Ticks(s, freq) + l <= Ticks(s1, freq) + l1
    ensures Compare(Timespec(s, Nanos(l, factor)), Timespec(s1, Nanos(l1, factor))) <= 0
  {
    if s1 < s {
      TicksMono(s1 + 1, s, freq);
      TicksAdd(s1, 1, freq);
    } else if s == s1 {
      MulMono(l, l1, factor);
    }
  }

  /**
   * Over every run the reported times never go back, and each stands for the true number of elapsed
   * ticks or for one less, however often the counter wraps. Seconds are 32 bits wide: the claim ends
   * when they are used up.
   */
  lemma {:induction false} EveryRun(c: Clock, start: nat, elapsed: nat, s: nat, l: nat, times: seq<nat>)
    requires Tells(c, start, elapsed, s, l) && c.freq <= c.loop && Calls(c.loop - c.freq, elapsed, times)
    requires elapsed < Ticks(UINT32, c.freq) && forall i :: 0 <= i < |times| ==> times[i] < Ticks(UINT32, c.freq)
    ensures var r := Reports(c, start, times);
            && (forall i :: 0 <= i < |r| ==> Accurate(r[i], c.freq, times[i]))
            && (forall i :: 0 <= i < |r| ==> Compare(c.currTs, r[i]) <= 0)
            && (forall i, j :: 0 <= i < j < |r| ==> Compare(r[i], r[j]) <= 0)
    decreases |times|
  {
    hide Ticks, Counter, Nanos, Tells, Get, Accurate, Compare;
    if times != [] {
      var now := times[0];
      TellsConfigured(c, start, elapsed, s, l);
      var s1, l1 := GetTells(c, start, elapsed, s, l, now);
      var c1 := Get(c, Counter(start, now, c.loop));
      TellsAccurate(c, start, elapsed, s, l);
      TellsAccurate(c1, start, now, s1, l1);
      TellsConfigured(c1, start, now, s1, l1);
      CountOrder(s, l, s1, l1, c.freq, c.factor);
      EveryRun(c1, start, now, s1, l1, times[1..]);
      var rest := Reports(c1, start, times[1..]);
      var r := Reports(c, start, times);
      assert r == [c1.currTs] + rest;
      forall i | 0 <= i < |rest|
        ensures Compare(c.currTs, rest[i]) <= 0
      {
        CompareTrans(c.currTs, c1.currTs, rest[i]);
      }
    }
  }

  lemma TellsConfigured(c: Clock, start: nat, elapsed: nat, s: nat, l: nat)
    requires Tells(c, start, elapsed, s, l)
    ensures Configured(c) && l < c.freq
  {
  }

  lemma CompareTrans(a: Timespec, b: Timespec, c: Timespec)
    requires Compare(a, b) <= 0 && Compare(b, c) <= 0
    ensures Compare(a, c) <= 0
  {
  }

  /** The run that begins with start_system_time. */
  lemma EveryRunFromStart(start: nat, freq: nat, loop: nat, times: seq<nat>)
    requires 0 < freq <= loop && start <= loop
    requires Calls(loop - freq, 0, times)
    requires forall i :: 0 <= i < |times| ==> times[i] < Ticks(UINT32, freq)
    ensures var r := Reports(Start(start, freq, loop), start, times);
            && (forall i :: 0 <= i < |r| ==> Accurate(r[i], freq, times[i]))
            && (forall i, j :: 0 <= i < j < |r| ==> Compare(r[i], r[j]) <= 0)
  {
    StartTells(start, freq, loop);
    assert Ticks(UINT32, freq) > 0;
    EveryRun(Start(start, freq, loop), start, 0, 0, 0, times);
  }

  /** Every value that a call computes fits in 64 bits, and the leftover nanoseconds in less than a second. */
  lemma CallFits(c: Clock, tick: nat)
    requires Configured(c) && tick <= c.loop && tick != c.baseTick
    ensures var add := if tick > c.baseTick then tick - c.baseTick else tick + (c.loop - c.baseTick);
            && add <= c.loop
            && Ticks(Whole(add, c.freq), c.freq) <= add
            && Nanos(Left(add, c.freq), c.factor) < NANO
            && Get(c, tick).baseTick <= c.loop
  {
    hide Ticks, Whole, Left, Nanos;
    var add := if tick > c.baseTick then tick - c.baseTick else tick + (c.loop - c.baseTick);
    WholeLeft(add, c.freq);
    LeftoverBelowSecond(Left(add, c.freq), c.freq);
  }

  lemma LeftoverBelowSecond(l: nat, freq: nat)
    requires l < freq
    ensures Nanos(l, NANO / freq) < NANO
  {
    if freq <= NANO {
      LeftoverTicks(l, freq);
    } else {
      ModUnique(NANO, 0, NANO, freq);
    }
  }

  lemma Remainder(ticks: nat, freq: nat)
    requires freq > 0
    ensures ticks - Ticks(Whole(ticks, freq), freq) == ticks % freq && Whole(ticks, freq) == ticks / freq
  {
  }

  /** Ticks from the base of a clock to where its counter stands. */
  function Passed(c: Clock, tick: nat): nat
    requires c.baseTick <= c.loop
  {
    if tick >= c.baseTick then tick - c.baseTick else tick + (c.loop - c.baseTick)
  }

  /** The fields of struct system_time; `hasTimer` says that a sync timer is present. */
  class SystemClock {
    var hasTimer: bool
    var syncLoop: nat
    var syncFreq: nat
    var syncFreqFactor: nat
    var baseTs: Timespec
    var baseTick: nat
    var currTs: Timespec

    function Value(): Clock
      reads this
    {
      Clock(syncLoop, syncFreq, syncFreqFactor, baseTs, baseTick, currTs)
    }

    /** start_system_time: `openError` is what opening the timer answers, the rest what the timer reports. */
    method StartSystemTime(openError: int, tick: nat, freq: nat, loop: nat) returns (e: int)
      requires freq > 0
      modifies this
      ensures e == openError
      ensures hasTimer == (e == 0)
      ensures e == 0 ==> Value() == Start(tick, freq, loop)
    {
      hasTimer := false;
      syncLoop, syncFreq, syncFreqFactor, baseTick := 0, 0, 0, 0;
      baseTs, currTs := Timespec(0, 0), Timespec(0, 0);
      e := openError;
      if e != 0 {
        return;
      }
      hasTimer := true;
      baseTick := tick;
      syncFreq := freq;
      syncLoop := loop;
      syncFreqFactor := NANO / syncFreq;
    }

    method ForwardTime(addticks: nat)
      requires Configured(Value())
      modifies this`baseTs, this`baseTick, this`currTs
      ensures Value() == Forward(old(Value()), addticks)
      ensures currTs.seconds == (old(baseTs.seconds) + addticks / syncFreq) % 0x1_0000_0000
      ensures currTs.nanoseconds == addticks % syncFreq * (1_000_000_000 / syncFreq)
    {
      var addseconds := Whole(addticks, syncFreq);
      var rebase := Ticks(addseconds, syncFreq);
      WholeLeft(addticks, syncFreq);
      Remainder(addticks, syncFreq);
      baseTs := baseTs.(seconds := (baseTs.seconds + addseconds) % UINT32);
      currTs := currTs.(seconds := baseTs.seconds);
      currTs := currTs.(nanoseconds := Nanos(addticks - rebase, syncFreqFactor));
      var maxRebase := syncLoop - baseTick;
      if rebase <= maxRebase {
        baseTick := baseTick + rebase;
      } else {
        baseTick := (rebase - maxRebase) - 1;
      }
    }

    method LoopedTime(ticks: nat)
      requires Configured(Value()) && ticks < baseTick
      modifies this`baseTs, this`baseTick, this`currTs
      ensures Value() == Get(old(Value()), ticks)
      ensures var addticks := ticks + (syncLoop - old(baseTick));
              && currTs.seconds == (old(baseTs.seconds) + addticks / syncFreq) % 0x1_0000_0000
              && currTs.nanoseconds == addticks % syncFreq * (1_000_000_000 / syncFreq)
    {
      var addticks := ticks + (syncLoop - baseTick);
      ForwardTime(addticks);
    }

    /** get_system_time with the counter at `tick`; together with GetTells this is the clock's accuracy. */
    method GetSystemTime(tick: nat, ts: TimespecCell?) returns (r: int)
      requires hasTimer ==> Configured(Value()) && tick <= syncLoop
      modifies this`baseTs, this`baseTick, this`currTs, ts
      ensures r == (if hasTimer then 0 else -1)
      ensures Value() == if hasTimer then Get(old(Value()), tick) else old(Value())
      ensures ts != null ==> ts.Value() == if hasTimer then currTs else old(ts.Value())
      ensures hasTimer && tick != old(baseTick) ==>
                var passed := Passed(old(Value()), tick);
                && currTs.seconds == (old(baseTs.seconds) + passed / syncFreq) % 0x1_0000_0000
                && currTs.nanoseconds == passed % syncFreq * (1_000_000_000 / syncFreq)
    {
      if !hasTimer {
        return -1;
      }
      var base := baseTick;
      if tick > base {
        ForwardTime(tick - base);
      } else if tick < baseTick {
        LoopedTime(tick);
      }
      if ts != null {
        ts.seconds, ts.nanoseconds := currTs.seconds, currTs.nanoseconds;
      }
      return 0;
    }
  }

  /** A struct timespec that others point to. */
  class TimespecCell {
    var seconds: nat
    var nanoseconds: nat

    function Value(): Timespec
      reads this
    {
      Timespec(seconds, nanoseconds)
    }

    /** add_system_time; `add` may be this very cell. */
    method AddSystemTime(add: TimespecCell) returns (r: int)
      modifies this
      ensures r == 0 && Value() == Add(old(Value()), old(add.Value()))
    {
      seconds := (seconds + add.seconds) % UINT32;
      nanoseconds := (nanoseconds + add.nanoseconds) % UINT32;
      seconds := (seconds + nanoseconds / NANO) % UINT32;
      nanoseconds := nanoseconds % NANO;
      return 0;
    }

    /** sub_system_time; `sub` may be this very cell. */
    method SubSystemTime(sub: TimespecCell) returns (r: int)
      modifies this
      ensures r == 0 && Value() == Sub(old(Value()), old(sub.Value()))
    {
      if nanoseconds >= sub.nanoseconds {
        nanoseconds := nanoseconds - sub.nanoseconds;
      } else {
        nanoseconds := (NANO - (sub.nanoseconds - nanoseconds)) % UINT32;
        seconds := (seconds - 1) % UINT32;
      }
      seconds := (seconds - sub.seconds) % UINT32;
      return 0;
    }
  }

  /** add_system_time on values, with 32-bit fields. */
  function Add(a: Timespec, b: Timespec): Timespec {
    var n := (a.nanoseconds + b.nanoseconds) % UINT32;
    Timespec(((a.seconds + b.seconds) % UINT32 + n / NANO) % UINT32, n % NANO)
  }

  /** sub_system_time on values, with 32-bit fields. */
  function Sub(a: Timespec, b: Timespec): Timespec {
    if a.nanoseconds >= b.nanoseconds then
      Timespec((a.seconds - b.seconds) % UINT32, a.nanoseconds - b.nanoseconds)
    else
      Timespec(((a.seconds - 1) % UINT32 - b.seconds) % UINT32, (NANO - (b.nanoseconds - a.nanoseconds)) % UINT32)
  }

  /** Nanoseconds since the epoch, and the period after which the fields wrap around. */
  function Total(t: Timespec): nat { t.seconds * NANO + t.nanoseconds }

  const PERIOD: nat := UINT32 * NANO

  /** The carry of a sum of normal times. */
  lemma AddValue(a: Timespec, b: Timespec)
    requires Normal(a) && Normal(b)
    ensures var n := a.nanoseconds + b.nanoseconds;
            var carry := if n < NANO then 0 else 1;
            var s := a.seconds + b.seconds + carry;
            Add(a, b) == Timespec(if s < UINT32 then s else s - UINT32, n - carry * NANO)
  {
    var n := a.nanoseconds + b.nanoseconds;
    WrapOnce(n, UINT32);
    ModUnique(n, if n < NANO then 0 else 1, if n < NANO then n else n - NANO, NANO);
    WrapOnce(a.seconds + b.seconds, UINT32);
    WrapOnce((a.seconds + b.seconds) % UINT32 + n / NANO, UINT32);
  }

  /** The borrow of a difference of normal times. */
  lemma SubValue(a: Timespec, b: Timespec)
    requires Normal(a) && Normal(b)
    ensures var n := a.nanoseconds - b.nanoseconds;
            var borrow := if n >= 0 then 0 else 1;
            var s := a.seconds - b.seconds - borrow;
            Sub(a, b) == Timespec(if s >= 0 then s else s + UINT32, n + borrow * NANO)
  {
    WrapOnce(a.seconds - 1, UINT32);
    WrapOnce(a.seconds - b.seconds, UINT32);
    WrapOnce((a.seconds - 1) % UINT32 - b.seconds, UINT32);
    if a.nanoseconds < b.nanoseconds {
      WrapOnce(NANO - (b.nanoseconds - a.nanoseconds), UINT32);
    }
  }

  /** Sums and differences are those of the totals modulo the period, and stay normal. */
  lemma AddSubTotals(a: Timespec, b: Timespec)
    requires Normal(a) && Normal(b)
    ensures Normal(Add(a, b)) && Total(Add(a, b)) == (Total(a) + Total(b)) % PERIOD
    ensures Normal(Sub(a, b)) && Total(Sub(a, b)) == (Total(a) - Total(b)) % PERIOD
  {
    hide Add, Sub;
    AddValue(a, b);
    SubValue(a, b);
    WrapOnce(Total(a) + Total(b), PERIOD);
    WrapOnce(Total(a) - Total(b), PERIOD);
  }

  /** Adding and subtracting the same time undo each other, wrap-around included. */
  lemma AddSubUndo(a: Timespec, b: Timespec)
    requires Normal(a) && Normal(b)
    ensures Sub(Add(a, b), b) == a
    ensures Add(Sub(a, b), b) == a
  {
    hide Add, Sub;
    AddValue(a, b);
    SubValue(Add(a, b), b);
    SubValue(a, b);
    AddValue(Sub(a, b), b);
  }

  /** compare_system_time orders normal times by their totals. */
  lemma CompareTotals(a: Timespec, b: Timespec)
    requires Normal(a) && Normal(b)
    ensures Compare(a, b) < 0 <==> Total(a) < Total(b)
    ensures Compare(a, b) > 0 <==> Total(a) > Total(b)
    ensures Compare(a, b) == 0 <==> a == b
  {
  }
}
