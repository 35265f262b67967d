/**
 The multilevel feedback queue scheduler's arithmetic, in thread.c, timer.c and
 fixed-point.h: 16.16 fixed-point numbers kept in 32-bit integers, with C's division.  Every
 operation demands that its result fits, so the methods below verify only because no step
 of any run overflows.
 */
module Mlfqs {
  import opened Products

  const FIX_F: nat := 65536
  const PRI_MIN: int := 0
  const PRI_MAX: int := 63
  const NICE_MIN: int := -20
  const NICE_MAX: int := 20
  const TIMER_FREQ: nat := 100
  const TIME_SLICE: nat := 4

  predicate Int32(x: int) { -0x8000_0000 <= x < 0x8000_0000 }

  predicate Int64(x: int) { -0x8000_0000_0000_0000 <= x < 0x8000_0000_0000_0000 }

  /** C's division, toward zero. */
  function Quot(a: int, b: int): (r: int)
    requires b > 0
    ensures a >= 0 ==> r >= 0 && r * b <= a < r * b + b
    ensures a <= 0 ==> r <= 0 && r * b - b < a <= r * b
  {
    if a >= 0 then a / b else 0 - (0 - a) / b
  }

  // ---------- fixed-point.h ----------

  function FixInt(n: int): int
    requires -65535 <= n <= 65535 && Int32(n * FIX_F)
  {
    n * FIX_F
  }

  function FixFrac(n: int, d: int): int
    requires d > 0 && Int64(n * FIX_F) && Int32(Quot(n * FIX_F, d))
  {
    Quot(n * FIX_F, d)
  }

  function FixRound(x: int): int
    requires Int32(x + FIX_F / 2)
  {
    Quot(x + FIX_F / 2, FIX_F)
  }

  function FixAdd(x: int, y: int): int
    requires Int32(x + y)
  {
    x + y
  }

  function FixSub(x: int, y: int): int
    requires Int32(x - y)
  {
    x - y
  }

  function FixMul(x: int, y: int): int
    requires Int64(x * y) && Int32(Quot(x * y, FIX_F))
  {
    Quot(x * y, FIX_F)
  }

  function FixScale(x: int, n: nat): int
    requires Int32(x * n)
  {
    x * n
  }

  function FixDiv(x: int, y: int): int
    requires y > 0 && Int64(x * FIX_F) && Int32(Quot(x * FIX_F, y))
  {
    Quot(x * FIX_F, y)
  }

  function FixUnscale(x: int, n: nat): int
    requires n > 0
  {
    Quot(x, n)
  }

  // ---------- Bounds ----------

  /** The most threads that are ready or running at a sample. */
  const MAX_READY: nat := 136

  predicate LoadOk(load: int, n: nat) { 0 <= load <= n * FIX_F }

  /** `age` is the number of ticks since the last sample. */
  predicate CpuOk(cpu: int, n: nat, age: nat) {
    -20 * (2 * n + 1) * FIX_F <= cpu <= (120 * (2 * n + 1) - TIMER_FREQ + age) * FIX_F
  }

  /** calculate_load_avg, for `ready` threads ready or running. */
  function NextLoad(load: int, ready: nat, n: nat): (r: int)
    requires n <= MAX_READY && ready <= n && LoadOk(load, n)
    ensures LoadOk(r, n)
  {
    FixAdd(FixMul(FixFrac(59, 60), load), FixFrac(ready, 60))
  }

  /** The weight of the old value: 2 load / (2 load + 1). */
  function Decay(load: int, n: nat): (r: int)
    requires n <= MAX_READY && LoadOk(load, n)
    ensures 0 <= r <= FIX_F && r * (2 * n + 1) <= 2 * n * FIX_F
  {
    var num := FixScale(load, 2);
    var den := FixAdd(num, FixInt(1));
    DecayBound(num, den, Quot(num * FIX_F, den), n);
    FixDiv(num, den)
  }

  lemma DecayBound(num: int, den: int, q: int, n: nat)
    requires 0 <= num <= 2 * n * FIX_F && den == num + FIX_F
    requires q == Quot(num * FIX_F, den)
    ensures 0 <= q <= FIX_F && q * (2 * n + 1) <= 2 * n * FIX_F
  {
    hide Quot;
    assert q * den == q * num + q * FIX_F;
    assert q <= FIX_F by {
      if q > FIX_F {
        MulMono(FIX_F, q, num);
      }
    }
    var rest := FIX_F - q;
    assert num * rest == num * FIX_F - q * num;
    MulMono(num, 2 * n * FIX_F, rest);
    Swap(2 * n, rest);
    assert 2 * n * rest == 2 * n * FIX_F - 2 * n * q;
  }

  lemma Swap(a: int, b: int)
    ensures (a * FIX_F) * b == FIX_F * (a * b)
  {
  }

  /** calculate_recent_cpu, right after a sample. */
  function NextCpu(cpu: int, nice: int, load: int, n: nat): (r: int)
    requires n <= MAX_READY && LoadOk(load, n) && CpuOk(cpu, n, TIMER_FREQ) && NICE_MIN <= nice <= NICE_MAX
    ensures CpuOk(r, n, 0)
  {
    var w := Decay(load, n);
    CpuBound(w, cpu, n);
    FixAdd(FixMul(w, cpu), FixInt(nice))
  }

  /** Weighted by the decay, the value shrinks by enough to make room for the next second. */
  lemma CpuBound(w: int, cpu: int, n: nat)
    requires n <= MAX_READY && 0 <= w <= FIX_F && w * (2 * n + 1) <= 2 * n * FIX_F
    requires CpuOk(cpu, n, TIMER_FREQ)
    ensures -40 * n * FIX_F * FIX_F <= w * cpu <= 240 * n * FIX_F * FIX_F
    ensures -40 * n * FIX_F <= Quot(w * cpu, FIX_F) <= 240 * n * FIX_F
  {
    var m := 2 * n + 1;
    assert w * (120 * m * FIX_F) == 120 * FIX_F * (w * m);
    assert w * (-20 * m * FIX_F) == -20 * FIX_F * (w * m);
    MulMono(cpu, 120 * m * FIX_F, w);
    MulMono(-20 * m * FIX_F, cpu, w);
  }

  /** calculate_priority. */
  function Priority(cpu: int, nice: int, n: nat, age: nat): (r: int)
    requires n <= MAX_READY && age <= TIMER_FREQ && CpuOk(cpu, n, age) && NICE_MIN <= nice <= NICE_MAX
    ensures PRI_MIN <= r <= PRI_MAX
  {
    var p := FixRound(FixSub(FixSub(FixInt(PRI_MAX), FixUnscale(cpu, 4)), FixInt(2 * nice)));
    if p < PRI_MIN then PRI_MIN else if p > PRI_MAX then PRI_MAX else p
  }

  /** A thread that used more of the processor or is nicer never gets a higher priority. */
  lemma PriorityMonotone(cpu: int, cpu': int, nice: int, nice': int, n: nat, age: nat)
    requires n <= MAX_READY && age <= TIMER_FREQ && CpuOk(cpu, n, age) && CpuOk(cpu', n, age)
    requires NICE_MIN <= nice <= nice' <= NICE_MAX && cpu <= cpu'
    ensures Priority(cpu', nice', n, age) <= Priority(cpu, nice, n, age)
  {
    assert Quot(cpu, 4) <= Quot(cpu', 4);
    var p, p' := PRI_MAX * FIX_F - Quot(cpu, 4) - 2 * nice * FIX_F, PRI_MAX * FIX_F - Quot(cpu', 4) - 2 * nice' * FIX_F;
    assert Quot(p' + FIX_F / 2, FIX_F) <= Quot(p + FIX_F / 2, FIX_F);
  }

  // ---------- The load average against exact arithmetic ----------

  ghost predicate Samples(ready: seq<nat>, n: nat) { forall i :: 0 <= i < |ready| ==> ready[i] <= n }

  /** load_avg after the samples, from its initial zero. */
  function LoadAfter(ready: seq<nat>, n: nat): (r: int)
    requires n <= MAX_READY && Samples(ready, n)
    ensures LoadOk(r, n)
  {
    if ready == [] then 0 else NextLoad(LoadAfter(ready[..|ready| - 1], n), ready[|ready| - 1], n)
  }

  /** The moving average without rounding. */
  function IdealLoad(ready: seq<nat>): real {
    if ready == [] then 0.0
    else IdealLoad(ready[..|ready| - 1]) * 59.0 / 60.0 + ready[|ready| - 1] as real / 60.0
  }

  /** One sample adds less than two units of rounding and the error of the constant 59/60. */
  lemma NextLoadError(load: int, ready: nat, n: nat)
    requires n <= MAX_READY && ready <= n && LoadOk(load, n)
    ensures var exact := load as real * 59.0 / 60.0 + ready as real * 65536.0 / 60.0;
      var r := NextLoad(load, ready, n) as real;
      r <= exact && exact - r <= 44.0 * n as real / 60.0 + 2.0
  {
    var p, q := Quot(64443 * load, FIX_F), Quot(ready * FIX_F, 60);
    assert FixFrac(59, 60) == 64443;
    assert NextLoad(load, ready, n) == p + q;
    assert 60 * 65536 * p <= 60 * 64443 * load <= 59 * 65536 * load;
    assert 60 * 65536 * p + 60 * 65536 + 44 * load > 59 * 65536 * load;
    assert 60 * q <= ready * FIX_F < 60 * q + 60;
  }

  /**
   On every run, the fixed-point load average is at most the exact one and falls short of it
   by at most (44 n + 120) / 65536.
   */
  lemma {:induction false} LoadTracksIdeal(ready: seq<nat>, n: nat)
    requires n <= MAX_READY && Samples(ready, n)
    ensures 0.0 <= IdealLoad(ready) * 65536.0 - LoadAfter(ready, n) as real <= 44.0 * n as real + 120.0
  {
    if ready != [] {
      var before, last := ready[..|ready| - 1], ready[|ready| - 1];
      LoadTracksIdeal(before, n);
      NextLoadError(LoadAfter(before, n), last, n);
    }
  }

  // ---------- Recent processor time and priority against exact arithmetic ----------

  function Abs(x: int): nat { if x < 0 then -x else x }

  /** The decayed value is 2 load / (2 load + 1) of the old one, up to one unit and one unit for every 65536 of it. */
  lemma DecayedError(load: int, cpu: int, n: nat)
    requires n <= MAX_READY && LoadOk(load, n) && CpuOk(cpu, n, TIMER_FREQ)
    ensures var den, p := 2 * load + FIX_F, Quot(Decay(load, n) * cpu, FIX_F);
      Abs(2 * load * cpu * FIX_F - p * FIX_F * den) <= den * (Abs(cpu) + FIX_F)
  {
    hide Quot;
    var den := 2 * load + FIX_F;
    var w := Quot(2 * load * FIX_F, den);
    assert Decay(load, n) == w;
    var p := Quot(w * cpu, FIX_F);
    Remainders(2 * load * FIX_F, den);
    Remainders(w * cpu, FIX_F);
    DecayedBound(load, cpu, den, w, p, 2 * load * FIX_F - w * den, w * cpu - p * FIX_F);
  }

  lemma Remainders(a: int, b: int)
    requires b > 0
    ensures -b < a - Quot(a, b) * b < b
  {
  }

  lemma DecayedBound(load: int, cpu: int, den: int, w: int, p: int, e: int, g: int)
    requires 2 * load * FIX_F == w * den + e && w * cpu == p * FIX_F + g
    requires 0 - den <= e <= den && 0 - FIX_F <= g <= FIX_F
    ensures Abs(2 * load * cpu * FIX_F - p * FIX_F * den) <= den * (Abs(cpu) + FIX_F)
  {
    DecayedParts(load, cpu, den, w, p, e, g);
    BoundedProduct(e, cpu, den);
    BoundedProduct(g, den, FIX_F);
    assert den * (Abs(cpu) + FIX_F) == den * Abs(cpu) + den * FIX_F;
  }

  lemma DecayedParts(load: int, cpu: int, den: int, w: int, p: int, e: int, g: int)
    requires 2 * load * FIX_F == w * den + e && w * cpu == p * FIX_F + g
    ensures 2 * load * cpu * FIX_F - p * FIX_F * den == g * den + e * cpu
  {
    calc {
      2 * load * cpu * FIX_F;
      (2 * load * FIX_F) * cpu;
      (w * den + e) * cpu;
      (w * cpu) * den + e * cpu;
      (p * FIX_F + g) * den + e * cpu;
      p * FIX_F * den + g * den + e * cpu;
    }
  }

  lemma BoundedProduct(a: int, b: int, m: int)
    requires -m <= a <= m
    ensures Abs(a * b) <= m * Abs(b)
  {
    if b >= 0 {
      MulMono(a, m, b);
      MulMono(-m, a, b);
    } else {
      MulMono(a, m, -b);
      MulMono(-m, a, -b);
    }
  }

  /**
   The value after a recalculation is (2 load) / (2 load + 1) * recent_cpu + nice in exact
   arithmetic, up to the bound, all in units of 1/65536.
   */
  ghost predicate DecaysTo(cpu: int, nice: int, load: int, cpu': int) {
    var l, c := load as real, cpu as real;
    && 2.0 * l + 65536.0 > 0.0
    && var exact, bound := 2.0 * l * c / (2.0 * l + 65536.0) + 65536.0 * nice as real, (Abs(cpu) as real) / 65536.0 + 1.0;
       exact - bound <= cpu' as real <= exact + bound
  }

  /** One recalculation of recent_cpu against exact arithmetic. */
  lemma NextCpuError(cpu: int, nice: int, load: int, n: nat)
    requires n <= MAX_READY && LoadOk(load, n) && CpuOk(cpu, n, TIMER_FREQ) && NICE_MIN <= nice <= NICE_MAX
    ensures DecaysTo(cpu, nice, load, NextCpu(cpu, nice, load, n))
  {
    hide Quot, Decay;
    var den, p := 2 * load + FIX_F, Quot(Decay(load, n) * cpu, FIX_F);
    CpuBound(Decay(load, n), cpu, n);
    assert NextCpu(cpu, nice, load, n) == p + nice * FIX_F;
    DecayedError(load, cpu, n);
    Quotients(2 * load * cpu, den, p, Abs(cpu));
    assert (2 * load * cpu) as real == 2.0 * load as real * cpu as real;
  }

  /** An integer bound on a product as a bound on a quotient. */
  lemma Quotients(x: int, den: int, p: int, a: nat)
    requires den > 0 && Abs(x * FIX_F - p * FIX_F * den) <= den * (a + FIX_F)
    ensures var exact, bound := x as real / den as real, a as real / 65536.0 + 1.0;
      exact - bound <= p as real <= exact + bound
  {
    var d, e := den as real, x as real / den as real;
    var b := a as real / 65536.0 + 1.0;
    assert e * d == x as real;
    assert (x * FIX_F - p * FIX_F * den) as real == 65536.0 * (e * d) - 65536.0 * p as real * d;
    assert 65536.0 * (e * d) - 65536.0 * p as real * d == 65536.0 * d * (e - p as real);
    assert (den * (a + FIX_F)) as real == 65536.0 * d * b;
    Cancel(65536.0 * d, e - p as real, b);
    Cancel(65536.0 * d, p as real - e, b);
  }

  lemma Cancel(m: real, x: real, y: real)
    requires m > 0.0 && m * x <= m * y
    ensures x <= y
  {
    assert m * (y - x) >= 0.0;
  }

  /** The nearest value within the range of priorities. */
  function Clamped(x: real): real {
    if x < 0.0 then 0.0 else if x > 63.0 then 63.0 else x
  }

  /** The priority is 63 - recent_cpu / 4 - 2 nice, cut off at 0 and 63, rounded to the nearest integer. */
  lemma PriorityError(cpu: int, nice: int, n: nat, age: nat)
    requires n <= MAX_READY && age <= TIMER_FREQ && CpuOk(cpu, n, age) && NICE_MIN <= nice <= NICE_MAX
    ensures var exact := Clamped(63.0 - cpu as real / 262144.0 - 2.0 * nice as real);
      exact - 0.5 - 1.0 / 65536.0 <= Priority(cpu, nice, n, age) as real <= exact + 0.5 + 1.0 / 65536.0
  {
    var q := Quot(cpu, 4);
    var x := 63 * FIX_F - q - 2 * nice * FIX_F;
    var p := Quot(x + FIX_F / 2, FIX_F);
    assert cpu - 4 < 4 * q < cpu + 4;
    assert Priority(cpu, nice, n, age) == if p < 0 then 0 else if p > 63 then 63 else p;
  }

  // ---------- Runs ----------

  datatype Thread = Thread(nice: int, recentCpu: int, priority: int)

  predicate ThreadOk(t: Thread, n: nat, age: nat) {
    && NICE_MIN <= t.nice <= NICE_MAX && PRI_MIN <= t.priority <= PRI_MAX
    && CpuOk(t.recentCpu, n, age)
  }

  /** The running thread's tick_increment. */
  function Ticked(t: Thread): Thread
    requires Int32(t.recentCpu + FIX_F)
  {
    t.(recentCpu := FixAdd(t.recentCpu, FixInt(1)))
  }

  function Reprioritized(t: Thread, n: nat, age: nat): (r: Thread)
    requires n <= MAX_READY && age <= TIMER_FREQ && ThreadOk(t, n, age)
    ensures ThreadOk(r, n, age)
  {
    t.(priority := Priority(t.recentCpu, t.nice, n, age))
  }

  function Recalculated(t: Thread, load: int, n: nat): (r: Thread)
    requires n <= MAX_READY && LoadOk(load, n) && ThreadOk(t, n, TIMER_FREQ)
    ensures ThreadOk(r, n, 0)
  {
    Reprioritized(t.(recentCpu := NextCpu(t.recentCpu, t.nice, load, n)), n, 0)
  }

  /** What a timer interrupt makes of thread `t`, given the tick and the load after it. */
  ghost predicate Steps(t: Thread, t': Thread, running: bool, ticks: nat, load: int, n: nat) {
    Int32(t.recentCpu + FIX_F) && n <= MAX_READY &&
    var t1 := if running then Ticked(t) else t;
    if ticks % TIMER_FREQ == 0 then LoadOk(load, n) && ThreadOk(t1, n, TIMER_FREQ) && t' == Recalculated(t1, load, n)
    else if ticks % TIME_SLICE == 0 && running then
      ThreadOk(t1, n, ticks % TIMER_FREQ) && t' == Reprioritized(t1, n, ticks % TIMER_FREQ)
    else t' == t1
  }

  /**
   What that means, in exact numbers: a tick adds one to the processor time of the running
   thread and nothing to others; a sample, every hundredth tick, decays it; and after a sample,
   and every fourth tick for the running thread, the priority is up to date, up to rounding.
   */
  lemma StepMeans(t: Thread, t': Thread, running: bool, ticks: nat, load: int, n: nat)
    requires Steps(t, t', running, ticks, load, n)
    ensures var ticked := t.recentCpu + if running then 65536 else 0;
      && t'.nice == t.nice
      && (ticks % 100 != 0 ==> t'.recentCpu == ticked)
      && (ticks % 100 == 0 ==> DecaysTo(ticked, t.nice, load, t'.recentCpu))
      && (ticks % 100 == 0 || (ticks % 4 == 0 && running) ==> UpToDate(t'))
      && (ticks % 100 != 0 && !(ticks % 4 == 0 && running) ==> t'.priority == t.priority)
  {
    hide NextCpu, Priority, CpuOk, DecaysTo;
    var t1 := if running then Ticked(t) else t;
    if ticks % TIMER_FREQ == 0 {
      NextCpuError(t1.recentCpu, t1.nice, load, n);
      PriorityError(t'.recentCpu, t'.nice, n, 0);
    } else if ticks % TIME_SLICE == 0 && running {
      PriorityError(t'.recentCpu, t'.nice, n, ticks % TIMER_FREQ);
    }
  }

  ghost predicate UpToDate(t: Thread) {
    var exact := Clamped(63.0 - t.recentCpu as real / 262144.0 - 2.0 * t.nice as real);
    exact - 0.5 - 1.0 / 65536.0 <= t.priority as real <= exact + 0.5 + 1.0 / 65536.0
  }

  class Scheduler {
    /** A bound on the threads that are ready or running at every sample. */
    ghost const n: nat
    var load: int
    var ticks: nat
    var threads: seq<Thread>
    var idle: int

    ghost predicate Valid()
      reads this
    {
      && n <= MAX_READY && LoadOk(load, n) && -1 <= idle < |threads|
      && forall i :: 0 <= i < |threads| ==> ThreadOk(threads[i], n, if i == idle then 0 else ticks % TIMER_FREQ)
    }

    constructor (ghost n: nat)
      requires n <= MAX_READY
      ensures Valid() && load == 0 && ticks == 0 && threads == [] && this.n == n
    {
      this.n := n;
      load, ticks, threads, idle := 0, 0, [], -1;
    }

    /** init_thread. */
    method Create(priority: int)
      requires Valid() && PRI_MIN <= priority <= PRI_MAX
      modifies `threads
      ensures Valid() && threads == old(threads) + [Thread(0, 0, priority)]
    {
      threads := threads + [Thread(0, 0, priority)];
    }

    /** thread_set_nice, by thread `i`. */
    method SetNice(i: nat, nice: int)
      requires Valid() && i < |threads|
      modifies `threads
      ensures Valid() && |threads| == |old(threads)|
      ensures threads[i].nice == (if nice < NICE_MIN then NICE_MIN else if nice > NICE_MAX then NICE_MAX else nice)
      ensures threads[i].recentCpu == old(threads[i].recentCpu)
      ensures threads[i].priority ==
        if i == idle then old(threads[i].priority)
        else Priority(threads[i].recentCpu, threads[i].nice, n, ticks % TIMER_FREQ)
      ensures forall k :: 0 <= k < |threads| && k != i ==> threads[k] == old(threads)[k]
    {
      var v := if nice < NICE_MIN then NICE_MIN else if nice > NICE_MAX then NICE_MAX else nice;
      threads := threads[i := threads[i].(nice := v)];
      CalculatePriority(i, if i == idle then 0 else ticks % TIMER_FREQ);
    }

    method CalculatePriority(i: nat, ghost age: nat)
      requires n <= MAX_READY && i < |threads| && age <= TIMER_FREQ && (i != idle ==> ThreadOk(threads[i], n, age))
      modifies `threads
      ensures threads == old(threads)[i := if i == idle then old(threads[i]) else Reprioritized(old(threads[i]), n, age)]
    {
      if i != idle {
        var t := threads[i];
        var p := FixRound(FixSub(FixSub(FixInt(PRI_MAX), FixUnscale(t.recentCpu, 4)), FixInt(2 * t.nice)));
        p := if p < PRI_MIN then PRI_MIN else if p > PRI_MAX then PRI_MAX else p;
        threads := threads[i := t.(priority := p)];
      }
    }

    /** The idle thread names itself as it starts, before it used any processor time to speak of. */
    method BecomeIdle(i: nat)
      requires Valid() && idle < 0 && i < |threads| && CpuOk(threads[i].recentCpu, n, 0)
      modifies `idle
      ensures Valid() && idle == i
    {
      idle := i;
    }

    /** calculate_load_avg, with `ready` threads on the ready list. */
    method CalculateLoadAvg(running: nat, ready: nat)
      requires n <= MAX_READY && LoadOk(load, n) && Sampled(running, ready) <= n
      modifies `load
      ensures load == NextLoad(old(load), if running == idle then ready else ready + 1, n)
    {
      var size := ready;
      if running != idle {
        size := size + 1;
      }
      load := FixAdd(FixMul(FixFrac(59, 60), load), FixFrac(size, 60));
    }

    function Sampled(running: nat, ready: nat): nat
      reads `idle
    {
      if running != idle then ready + 1 else ready
    }

    /** do_recalculate. */
    method DoRecalculate()
      requires n <= MAX_READY && LoadOk(load, n)
      requires forall i :: 0 <= i < |threads| && i != idle ==> ThreadOk(threads[i], n, TIMER_FREQ)
      modifies `threads
      ensures |threads| == |old(threads)|
      ensures forall i :: 0 <= i < |threads| ==>
        threads[i] == if i == idle then old(threads)[i] else Recalculated(old(threads)[i], load, n)
    {
      hide CpuOk, LoadOk, NextCpu, Priority;
      ghost var was := threads;
      var e := 0;
      while e < |threads|
        invariant 0 <= e <= |threads| == |was|
        invariant forall i :: 0 <= i < e ==> threads[i] == if i == idle then was[i] else Recalculated(was[i], load, n)
        invariant forall i :: e <= i < |threads| ==> threads[i] == was[i]
      {
        CalculateRecentCpu(e);
        CalculatePriority(e, 0);
        e := e + 1;
      }
    }

    method CalculateRecentCpu(i: nat)
      requires n <= MAX_READY && LoadOk(load, n) && i < |threads| && (i != idle ==> ThreadOk(threads[i], n, TIMER_FREQ))
      modifies `threads
      ensures threads == old(threads)[i := if i == idle then old(threads[i])
        else old(threads[i].(recentCpu := NextCpu(threads[i].recentCpu, threads[i].nice, load, n)))]
    {
      if i != idle {
        var num := FixScale(load, 2);
        var den := FixAdd(num, FixInt(1));
        DecayBound(num, den, Quot(num * FIX_F, den), n);
        var frac := FixDiv(num, den);
        CpuBound(frac, threads[i].recentCpu, n);
        var cpu := FixMul(frac, threads[i].recentCpu);
        threads := threads[i := threads[i].(recentCpu := FixAdd(cpu, FixInt(threads[i].nice)))];
      }
    }

    /**
     timer_interrupt, with thread `running` on the processor and `ready` threads on the ready
     list.  Load and processor times stay in their bounds, whatever the samples were.
     */
    method TimerInterrupt(running: nat, ready: nat)
      requires Valid() && running < |threads|
      requires (ticks + 1) % TIMER_FREQ == 0 ==> Sampled(running, ready) <= n
      modifies this
      ensures Valid() && ticks == old(ticks) + 1 && idle == old(idle) && |threads| == |old(threads)|
      ensures load == if ticks % TIMER_FREQ == 0 then NextLoad(old(load), if running == idle then ready else ready + 1, n)
                      else old(load)
      ensures forall i :: 0 <= i < |threads| && i == idle ==> threads[i] == old(threads)[i]
      ensures forall i :: 0 <= i < |threads| && i != idle ==>
        Steps(old(threads)[i], threads[i], i == running, ticks, load, n)
    {
      hide NextLoad, NextCpu, Priority, CpuOk, LoadOk, ThreadOk, Recalculated, Reprioritized, Int32, Ticked, Int64;
      ghost var was := threads;
      TickFits(was);
      ticks := ticks + 1;
      if running != idle {
        threads := threads[running := Ticked(threads[running])];
      }
      ghost var ticked := threads;
      assert forall i :: 0 <= i < |was| && i != idle ==> ticked[i] == if i == running then Ticked(was[i]) else was[i];
      if ticks % TIMER_FREQ == 0 {
        CalculateLoadAvg(running, ready);
        DoRecalculate();
      } else if ticks % TIME_SLICE == 0 {
        CalculatePriority(running, ticks % TIMER_FREQ);
      }
    }

    lemma TickFits(was: seq<Thread>)
      requires Valid() && was == threads
      ensures forall i :: 0 <= i < |was| ==> Int32(was[i].recentCpu + FIX_F)
      ensures forall i :: 0 <= i < |was| && i != idle ==> ThreadOk(Ticked(was[i]), n, ticks % TIMER_FREQ + 1)
      ensures forall i :: 0 <= i < |was| && i != idle ==> ThreadOk(was[i], n, ticks % TIMER_FREQ + 1)
    {
    }
  }
}
