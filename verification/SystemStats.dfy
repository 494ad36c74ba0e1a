/**
The system statistics and their counters, over whole runs and for arbitrary
readings of the time-stamp counter. Source: kernel/system_stats.c.
*/
module SystemStats {
  import opened Percentage

  const MEMORY_KB := 131072

  /** update_counter is a static of the update function; the disk figures never change. */
  datatype Stats = Stats(
    uptimeSeconds: nat,
    memoryTotal: nat,
    memoryUsed: nat,
    cpuUsage: nat,
    lastTsc: nat,
    idleTsc: nat,
    updateCounter: nat)

  function Initial(tsc: nat): Stats {
    Stats(0, MEMORY_KB, 1024, 0, tsc, 0, 0)
  }

  /** Unsigned subtraction of the given width. */
  function Minus(a: nat, b: nat, width: nat): nat
    requires width > 0
  {
    ((a as int - b as int) % width as int) as nat
  }

  /** The usage from a period of idle and elapsed ticks, clamped after the unsigned subtraction. */
  function Usage(idle: nat, elapsed: nat): nat {
    var u := Minus(100, Percent(idle, elapsed), TWO32);
    if u > 100 then 100 else u
  }

  /** What happens at every tenth call. */
  function Tick(s: Stats, tsc: nat): Stats {
    var up := (s.uptimeSeconds + 1) % TWO32;
    var elapsed := Minus(tsc, s.lastTsc, TWO64);
    s.(uptimeSeconds := up,
       cpuUsage := if elapsed > 0 then Usage(s.idleTsc, elapsed) else s.cpuUsage,
       lastTsc := tsc, idleTsc := 0, updateCounter := 0,
       memoryUsed := if up % 5 == 0 && s.memoryUsed < s.memoryTotal / 2 then s.memoryUsed + 4 else s.memoryUsed)
  }

  function Updated(s: Stats, tsc: nat): Stats {
    var c := (s.updateCounter + 1) % TWO32;
    if c >= 10 then Tick(s, tsc) else s.(updateCounter := c)
  }

  function Idled(s: Stats, before: nat, after: nat): Stats {
    s.(idleTsc := (s.idleTsc + Minus(after, before, TWO64)) % TWO64)
  }

  class SystemStats {
    var stats: Stats

    constructor (tsc: nat)
      requires tsc < TWO64
      ensures stats == Initial(tsc)
    {
      stats := Initial(tsc);
    }

    /** update_system_stats; the reading of the counter is only used at a tick. */
    method Update(tsc: nat)
      requires tsc < TWO64 && stats.idleTsc < TWO64
      modifies this
      ensures stats == Updated(old(stats), tsc)
    {
      stats := stats.(updateCounter := (stats.updateCounter + 1) % TWO32);
      if stats.updateCounter >= 10 {
        stats := stats.(updateCounter := 0);
        stats := stats.(uptimeSeconds := (stats.uptimeSeconds + 1) % TWO32);
        var elapsed := Minus(tsc, stats.lastTsc, TWO64);
        if elapsed > 0 {
          var busy := SafePercentage(stats.idleTsc, elapsed);
          stats := stats.(cpuUsage := Minus(100, busy, TWO32));
          if stats.cpuUsage > 100 {
            stats := stats.(cpuUsage := 100);
          }
        }
        stats := stats.(lastTsc := tsc, idleTsc := 0);
        if stats.uptimeSeconds % 5 == 0 && stats.memoryUsed < stats.memoryTotal / 2 {
          stats := stats.(memoryUsed := stats.memoryUsed + 4);
        }
      }
    }

    /** record_idle_time between two readings of the counter. */
    method RecordIdle(before: nat, after: nat)
      requires before < TWO64 && after < TWO64
      modifies this
      ensures stats == Idled(old(stats), before, after)
    {
      stats := stats.(idleTsc := (stats.idleTsc + Minus(after, before, TWO64)) % TWO64);
    }
  }

  // ---- one tick ----

  /**
  The clamp leaves the complement of the percentage, or 100 if the idle ticks
  outnumber the elapsed ones by too much.
  */
  lemma UsageIs(idle: nat, elapsed: nat)
    ensures Usage(idle, elapsed) ==
            if Percent(idle, elapsed) <= 100 then 100 - Percent(idle, elapsed) else 100
  {
    hide Percent;
    PercentSmall(idle, elapsed);
  }

  /** When the idle ticks are a part of the elapsed ones, the usage is within one of the exact figure. */
  lemma UsageAccurate(idle: nat, elapsed: nat)
    requires idle <= elapsed && 0 < elapsed < TWO64
    ensures var exact := 100 - Floor(100 * idle, elapsed); exact - 1 <= Usage(idle, elapsed) <= exact + 1
  {
    hide Percent;
    hide Floor;
    UsageIs(idle, elapsed);
    Accurate(idle, elapsed);
  }

  // ---- whole runs ----

  datatype Event = Update(tsc: nat) | Idle(before: nat, after: nat)

  function After(s: Stats, events: seq<Event>): Stats {
    if events == [] then s
    else
      var r := After(s, events[..|events| - 1]);
      match events[|events| - 1]
      case Update(tsc) => Updated(r, tsc)
      case Idle(before, after) => Idled(r, before, after)
  }

  function Updates(events: seq<Event>): nat {
    if events == [] then 0
    else Updates(events[..|events| - 1]) + if events[|events| - 1].Update? then 1 else 0
  }

  /** Memory after n updates: four more every fifty, up to half of the total. */
  function MemoryAfter(n: nat): nat {
    if 1024 + 4 * (n / 50) <= MEMORY_KB / 2 then 1024 + 4 * (n / 50) else MEMORY_KB / 2
  }

  /** All that a run of n updates says about the counters, for any readings of the time-stamp counter. */
  predicate CountsTo(s: Stats, n: nat) {
    && s.updateCounter == n % 10
    && s.uptimeSeconds == n / 10 % TWO32
    && s.memoryTotal == MEMORY_KB
    && s.memoryUsed == MemoryAfter(n)
    && s.cpuUsage <= 100
    && s.idleTsc < TWO64
  }

  lemma ByFifties(n: nat, k: nat, i: nat)
    requires n == 50 * k + i && i < 50
    ensures n / 50 == k && n / 10 == 5 * k + i / 10 && n % 10 == i % 10
  {
  }

  /** The counters' arithmetic from one update to the next. */
  lemma NextCount(n: nat)
    ensures n % 10 != 9 ==> (n + 1) % 10 == n % 10 + 1 && (n + 1) / 10 == n / 10 && (n + 1) / 50 == n / 50
    ensures n % 10 == 9 ==> (n + 1) % 10 == 0 && (n + 1) / 10 == n / 10 + 1
    ensures n % 10 == 9 ==> (n + 1) / 50 == n / 50 + if (n / 10 + 1) % 5 == 0 then 1 else 0
  {
    var k, i := n / 50, n % 50;
    ByFifties(n, k, i);
    if i < 49 { ByFifties(n + 1, k, i + 1); } else { ByFifties(n + 1, k + 1, 0); }
  }

  lemma NextUptime(u: nat)
    ensures (u % TWO32 + 1) % TWO32 == (u + 1) % TWO32
    ensures u + 1 < TWO32 ==> u % TWO32 == u && (u + 1) % TWO32 == u + 1
  {
  }

  /** While memory still grows the uptime has not wrapped, so that it grows at every fiftieth update. */
  lemma NextMemory(n: nat)
    ensures n % 10 != 9 ==> MemoryAfter(n + 1) == MemoryAfter(n)
    ensures MemoryAfter(n) <= MEMORY_KB / 2
    ensures MemoryAfter(n) == MEMORY_KB / 2 ==> MemoryAfter(n + 1) == MemoryAfter(n)
    ensures n % 10 == 9 && MemoryAfter(n) < MEMORY_KB / 2 ==>
              n / 10 + 1 < TWO32 && MemoryAfter(n + 1) == MemoryAfter(n) + if (n / 10 + 1) % 5 == 0 then 4 else 0
  {
    NextCount(n);
  }

  lemma UpdateCounts(s: Stats, n: nat, tsc: nat)
    requires CountsTo(s, n)
    ensures CountsTo(Updated(s, tsc), n + 1)
  {
    hide Percent;
    UsageIs(s.idleTsc, Minus(tsc, s.lastTsc, TWO64));
    hide Usage;
    hide Minus;
    NextCount(n);
    NextUptime(n / 10);
    NextMemory(n);
    hide MemoryAfter;
  }

  lemma {:induction false} RunCounts(tsc: nat, events: seq<Event>)
    ensures CountsTo(After(Initial(tsc), events), Updates(events))
    decreases |events|
  {
    if events != [] {
      var before := events[..|events| - 1];
      RunCounts(tsc, before);
      if events[|events| - 1].Update? {
        UpdateCounts(After(Initial(tsc), before), Updates(before), events[|events| - 1].tsc);
      }
    }
  }

  lemma MemoryIs(n: nat, k: nat)
    requires k == n / 50
    ensures MemoryAfter(n) == if 1024 + 4 * k <= MEMORY_KB / 2 then 1024 + 4 * k else MEMORY_KB / 2
  {
  }

  /** So the memory figure is a multiple of 4, never falls, and never passes half of the total. */
  lemma MemoryBounds(n: nat, m: nat)
    requires n <= m
    ensures MemoryAfter(n) % 4 == MemoryAfter(m) % 4 == 0
    ensures 1024 <= MemoryAfter(n) <= MemoryAfter(m) <= MEMORY_KB / 2
  {
    hide MemoryAfter;
    var i, j := n / 50, m / 50;
    assert i <= j;
    MemoryIs(n, i);
    MemoryIs(m, j);
  }

  lemma {:induction false} UpdatesGrow(earlier: seq<Event>, events: seq<Event>)
    requires earlier <= events
    ensures Updates(earlier) <= Updates(events)
    decreases |events|
  {
    if |earlier| < |events| {
      UpdatesGrow(earlier, events[..|events| - 1]);
    } else {
      assert earlier == events;
    }
  }

  /** In every run from the start: usage in [0, 100], memory as above and no less than at any earlier point. */
  lemma RunBounds(tsc: nat, earlier: seq<Event>, events: seq<Event>)
    requires earlier <= events
    ensures var s, t := After(Initial(tsc), earlier), After(Initial(tsc), events);
            && t.cpuUsage <= 100 && t.memoryUsed % 4 == 0
            && s.memoryUsed <= t.memoryUsed <= t.memoryTotal / 2
  {
    hide After;
    hide MemoryAfter;
    hide Updates;
    RunCounts(tsc, earlier);
    RunCounts(tsc, events);
    UpdatesGrow(earlier, events);
    MemoryBounds(Updates(earlier), Updates(events));
  }

  // ---- the usage figure over runs with a counter that never goes back ----

  /** The last reading of the time-stamp counter, starting from the one taken at initialisation. */
  function Latest(tsc: nat, events: seq<Event>): nat {
    if events == [] then tsc
    else
      match events[|events| - 1]
      case Update(now) => now
      case Idle(_, after) => after
  }

  /** No reading is smaller than the one before it. */
  predicate InOrder(tsc: nat, events: seq<Event>) {
    if events == [] then tsc < TWO64
    else
      var before := events[..|events| - 1];
      InOrder(tsc, before) &&
      match events[|events| - 1]
      case Update(now) => Latest(tsc, before) <= now < TWO64
      case Idle(start, after) => Latest(tsc, before) <= start <= after < TWO64
  }

  /** The reading of the last tick, or the first of all: every tenth update is a tick. */
  function LastTick(tsc: nat, events: seq<Event>): nat {
    if events == [] then tsc
    else if events[|events| - 1].Update? && Updates(events) % 10 == 0 then events[|events| - 1].tsc
    else LastTick(tsc, events[..|events| - 1])
  }

  /** The ticks spent halted since then. */
  function IdleSince(events: seq<Event>): int {
    if events == [] then 0
    else
      match events[|events| - 1]
      case Update(_) => if Updates(events) % 10 == 0 then 0 else IdleSince(events[..|events| - 1])
      case Idle(start, after) => IdleSince(events[..|events| - 1]) + after - start
  }

  lemma Difference(a: nat, b: nat)
    requires b <= a < TWO64
    ensures Minus(a, b, TWO64) == a - b
  {
  }

  lemma NoDifference(a: nat, b: nat)
    requires a < TWO64 && b < TWO64
    ensures Minus(a, b, TWO64) == 0 <==> a == b
  {
  }

  /** Only every tenth update reads the counter. */
  lemma TickReads(s: Stats, tsc: nat)
    requires s.updateCounter < 10 && tsc < TWO64 && s.lastTsc < TWO64
    ensures var t := Updated(s, tsc);
            if s.updateCounter == 9 then
              && t.lastTsc == tsc && t.idleTsc == 0
              && t.cpuUsage == (if tsc == s.lastTsc then s.cpuUsage
                                else Usage(s.idleTsc, Minus(tsc, s.lastTsc, TWO64)))
            else t.lastTsc == s.lastTsc && t.idleTsc == s.idleTsc && t.cpuUsage == s.cpuUsage
  {
    hide Usage;
    NoDifference(tsc, s.lastTsc);
    hide Minus;
  }

  lemma CounterIs(s: Stats, n: nat)
    requires CountsTo(s, n)
    ensures s.updateCounter == n % 10 < 10 && s.idleTsc < TWO64
  {
  }

  lemma TickNext(n: nat)
    ensures (n + 1) % 10 == 0 <==> n % 10 == 9
  {
    NextCount(n);
  }

  /** The counters hold what their names say, and idle time is part of the elapsed time. */
  lemma {:induction false} IdleIsPart(tsc: nat, events: seq<Event>)
    requires InOrder(tsc, events)
    ensures var s := After(Initial(tsc), events);
            s.lastTsc == LastTick(tsc, events) && s.idleTsc == IdleSince(events)
    ensures 0 <= IdleSince(events) <= Latest(tsc, events) - LastTick(tsc, events)
    ensures Latest(tsc, events) < TWO64
    decreases |events|
  {
    if events != [] {
      var before, n := events[..|events| - 1], Updates(events[..|events| - 1]);
      IdleIsPart(tsc, before);
      RunCounts(tsc, before);
      hide CountsTo;
      hide Updated;
      hide Minus;
      var s := After(Initial(tsc), before);
      match events[|events| - 1]
      case Update(now) =>
        CounterIs(s, n);
        TickNext(n);
        TickReads(s, now);
      case Idle(start, after) =>
        Difference(after, start);
    }
  }

  /**
  At every tick the usage shown is within one of the exact share of the time not
  spent halted since the last tick.
  */
  lemma RunUsage(tsc: nat, events: seq<Event>, now: nat)
    requires InOrder(tsc, events + [Update(now)]) && Updates(events) % 10 == 9 && LastTick(tsc, events) < now
    ensures 0 <= IdleSince(events) <= now - LastTick(tsc, events)
    ensures var exact := 100 - Floor(100 * IdleSince(events), now - LastTick(tsc, events));
            exact - 1 <= After(Initial(tsc), events + [Update(now)]).cpuUsage <= exact + 1
  {
    var all := events + [Update(now)];
    assert all[..|events|] == events && all[|all| - 1] == Update(now);
    IdleIsPart(tsc, events);
    RunCounts(tsc, events);
    var s := After(Initial(tsc), events);
    CounterIs(s, Updates(events));
    TickReads(s, now);
    Difference(now, s.lastTsc);
    hide Usage;
    hide Floor;
    hide Updated;
    hide CountsTo;
    hide Minus;
    assert After(Initial(tsc), all) == Updated(s, now);
    UsageAccurate(s.idleTsc, now - s.lastTsc);
  }
}
