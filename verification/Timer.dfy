/** The tick clock of src/timer.c. */
module Timer {
  import opened CTypes

  const TIMER_FREQ_HZ: u64 := 10_000_000
  const TIMER_TICK_MS: u64 := 10
  const TIMER_FREQUENCY_HZ: u64 := 100
  /** Hardware cycles from one deadline to the next. */
  const TICK_CYCLES: u64 := 100_000

  /** The global counters, the statistics, and the deadline last handed to the firmware. */
  datatype Clock = Clock(ticks: u64, seconds: u64, tickCounter: u32,
                         totalInterrupts: u64, totalSeconds: u64, lastInterruptTime: u64, deadline: u64)

  const BOOT_CLOCK := Clock(0, 0, 0, 0, 0, 0, 0)

  /** Room for one more tick before a counter, the uptime or the hardware time wraps. */
  predicate TickFits(c: Clock, now: u64) {
    c.ticks * TIMER_TICK_MS + TIMER_TICK_MS < TWO64 && c.seconds + 1 < TWO64 && c.totalInterrupts + 1 < TWO64
    && c.tickCounter < TIMER_FREQUENCY_HZ && now + TICK_CYCLES < TWO64
  }

  function AfterTick(c: Clock, now: u64): Clock
    requires TickFits(c, now)
  {
    var rollover := c.tickCounter + 1 == TIMER_FREQUENCY_HZ;
    Clock(c.ticks + 1, if rollover then c.seconds + 1 else c.seconds, if rollover then 0 else c.tickCounter + 1,
          c.totalInterrupts + 1, if rollover then c.seconds + 1 else c.totalSeconds, (c.ticks + 1) * TIMER_TICK_MS,
          now + TICK_CYCLES)
  }

  class TickClock {
    var ticks: u64
    var seconds: u64
    var tickCounter: u32
    var totalInterrupts: u64
    var totalSeconds: u64
    var lastInterruptTime: u64
    var deadline: u64
    const frequency: u64 := TIMER_FREQ_HZ

    function State(): Clock
      reads this
    {
      Clock(ticks, seconds, tickCounter, totalInterrupts, totalSeconds, lastInterruptTime, deadline)
    }

    constructor ()
      ensures State() == BOOT_CLOCK
    {
      ticks, seconds, tickCounter, totalInterrupts, totalSeconds, lastInterruptTime, deadline := 0, 0, 0, 0, 0, 0, 0;
    }

    /** `timer_set_next_interrupt`, with the hardware time it reads. */
    method SetNextInterrupt(ticksFromNow: u64, now: u64)
      requires now + ticksFromNow < TWO64
      modifies this`deadline
      ensures deadline == now + ticksFromNow
    {
      deadline := now + ticksFromNow;
    }

    /** `timer_enable`, and equally `timer_schedule_next_tick`. */
    method ScheduleNextTick(now: u64)
      requires now + TICK_CYCLES < TWO64
      modifies this`deadline
      ensures deadline == now + 100000
    {
      SetNextInterrupt(frequency / TIMER_FREQUENCY_HZ, now);
    }

    method GetUptimeMs() returns (ms: u64)
      requires ticks * TIMER_TICK_MS < TWO64
      ensures ms == State().ticks * 10
    {
      ms := ticks * TIMER_TICK_MS;
    }

    /** `timer_handler`; `now` is the hardware time when it schedules the next tick. */
    method Handler(now: u64)
      requires TickFits(State(), now)
      modifies this
      ensures State() == AfterTick(old(State()), now)
      ensures ticks == old(ticks) + 1 && totalInterrupts == old(totalInterrupts) + 1
      ensures lastInterruptTime == 10 * ticks && deadline == now + 100000
      ensures if old(tickCounter) + 1 == 100 then tickCounter == 0 && seconds == totalSeconds == old(seconds) + 1
        else tickCounter == old(tickCounter) + 1 && seconds == old(seconds) && totalSeconds == old(totalSeconds)
    {
      ticks := ticks + 1;
      tickCounter := tickCounter + 1;
      totalInterrupts := totalInterrupts + 1;
      lastInterruptTime := GetUptimeMs();
      if tickCounter >= TIMER_FREQUENCY_HZ {
        seconds := seconds + 1;
        tickCounter := 0;
        totalSeconds := seconds;
      }
      ScheduleNextTick(now);
    }

    /** `timer_reset_stats`: the statistics go back to zero, the clock does not. */
    method ResetStats()
      modifies this`totalInterrupts, this`totalSeconds, this`lastInterruptTime
      ensures State() == old(State()).(totalInterrupts := 0, totalSeconds := 0, lastInterruptTime := 0)
    {
      totalInterrupts, totalSeconds, lastInterruptTime := 0, 0, 0;
    }

    /** `timer_delay_ms`, on the successive readings of the hardware time: it stops at the first one that is at
        least the delay after the start. */
    method DelayMs(ms: u32, start: u64, readings: seq<u64>) returns (k: nat)
      requires start + 10_000 * ms < TWO64
      requires exists i :: 0 <= i < |readings| && readings[i] >= start + 10_000 * ms
      ensures k < |readings| && readings[k] >= start + 10_000 * ms
      ensures forall i :: 0 <= i < k ==> readings[i] < start + 10_000 * ms
    {
      var product: u64 := frequency * ms;
      var delayTicks: u64 := product / 1000;
      k := WaitUntil(start + delayTicks, readings);
    }

    /** `timer_delay_us`. */
    method DelayUs(us: u32, start: u64, readings: seq<u64>) returns (k: nat)
      requires start + 10 * us < TWO64
      requires exists i :: 0 <= i < |readings| && readings[i] >= start + 10 * us
      ensures k < |readings| && readings[k] >= start + 10 * us
      ensures forall i :: 0 <= i < k ==> readings[i] < start + 10 * us
    {
      var product: u64 := frequency * us;
      var delayTicks: u64 := product / 1_000_000;
      k := WaitUntil(start + delayTicks, readings);
    }

    /** The busy-wait loop of both delays. */
    method WaitUntil(target: u64, readings: seq<u64>) returns (k: nat)
      requires exists i :: 0 <= i < |readings| && readings[i] >= target
      ensures k < |readings| && readings[k] >= target
      ensures forall i :: 0 <= i < k ==> readings[i] < target
    {
      k := 0;
      while k < |readings| && readings[k] < target
        invariant 0 <= k <= |readings|
        invariant forall i :: 0 <= i < k ==> readings[i] < target
      {
        k := k + 1;
      }
    }
  }

  // ------------------------------------------------------------------ runs

  /** A timer interrupt whose handler reads the time `now`, or a reset of the statistics. */
  datatype Event = Tick(now: u64) | Reset

  predicate RunFits(c: Clock, events: seq<Event>)
    decreases |events|
  {
    if events == [] then true
    else if events[0].Reset? then RunFits(AfterReset(c), events[1..])
    else TickFits(c, events[0].now) && RunFits(AfterTick(c, events[0].now), events[1..])
  }

  function AfterReset(c: Clock): Clock { c.(totalInterrupts := 0, totalSeconds := 0, lastInterruptTime := 0) }

  function Run(c: Clock, events: seq<Event>): Clock
    requires RunFits(c, events)
    decreases |events|
  {
    if events == [] then c
    else if events[0].Reset? then Run(AfterReset(c), events[1..])
    else Run(AfterTick(c, events[0].now), events[1..])
  }

  function Ticks(events: seq<Event>): nat {
    if events == [] then 0 else (if events[0].Tick? then 1 else 0) + Ticks(events[1..])
  }

  predicate NoReset(events: seq<Event>) { forall i :: 0 <= i < |events| ==> events[i].Tick? }

  /** The events after the last reset. */
  function SinceReset(events: seq<Event>): seq<Event> {
    if NoReset(events) then events else SinceReset(events[1..])
  }

  /** The counters are in step with one another. The seconds in the statistics are those of the clock from the first
      full second after a reset on. */
  predicate InStep(c: Clock) {
    && c.ticks == 100 * c.seconds + c.tickCounter && c.tickCounter < 100
    && c.totalInterrupts <= c.ticks
    && c.totalSeconds == (if c.totalInterrupts > c.tickCounter then c.seconds else 0)
    && c.lastInterruptTime == (if c.totalInterrupts == 0 then 0 else c.ticks * 10)
  }

  /** Whole runs keep the counters in step; the clock counts every tick, the statistics those since the last reset,
      and the seconds are the whole seconds of the uptime. */
  lemma {:induction false} RunInStep(c: Clock, events: seq<Event>)
    requires InStep(c) && RunFits(c, events)
    ensures var r := Run(c, events);
      && InStep(r) && r.ticks == c.ticks + Ticks(events)
      && r.totalInterrupts == Ticks(SinceReset(events)) + (if NoReset(events) then c.totalInterrupts else 0)
      && r.ticks * 10 / 1000 == r.seconds
    decreases |events|
  {
    if events != [] {
      var next := if events[0].Reset? then AfterReset(c) else AfterTick(c, events[0].now);
      RunInStep(next, events[1..]);
      assert NoReset(events) <==> events[0].Tick? && NoReset(events[1..]) by {
        assert events == [events[0]] + events[1..];
      }
      assert NoReset(events[1..]) ==> SinceReset(events[1..]) == events[1..];
    }
  }

  lemma BootInStep()
    ensures InStep(BOOT_CLOCK) && BOOT_CLOCK.ticks == BOOT_CLOCK.totalInterrupts == 0
  {
  }

  lemma RunFromZero(c: Clock, events: seq<Event>)
    requires RunFits(c, events) && InStep(c) && c.ticks == c.totalInterrupts == 0
    ensures var r := Run(c, events);
      InStep(r) && r.ticks == Ticks(events) && r.totalInterrupts == Ticks(SinceReset(events))
  {
    RunInStep(c, events);
  }

  lemma BootRun(events: seq<Event>)
    requires RunFits(BOOT_CLOCK, events)
    ensures var r := Run(BOOT_CLOCK, events);
      InStep(r) && r.ticks == Ticks(events) && r.totalInterrupts == Ticks(SinceReset(events))
  {
    BootInStep();
    RunFromZero(BOOT_CLOCK, events);
  }

  /** Every handler reads the time at most `latency` cycles after its deadline, and never before it. */
  predicate Punctual(c: Clock, events: seq<Event>, latency: nat)
    requires RunFits(c, events)
    decreases |events|
  {
    if events == [] then true
    else if events[0].Reset? then Punctual(AfterReset(c), events[1..], latency)
    else
      && c.deadline <= events[0].now <= c.deadline + latency
      && Punctual(AfterTick(c, events[0].now), events[1..], latency)
  }

  /** Drift against the hardware time over whole runs: latencies add up, and early ticks do not exist. */
  lemma {:induction false} Drift(c: Clock, events: seq<Event>, latency: nat)
    requires RunFits(c, events) && Punctual(c, events, latency)
    ensures var k, elapsed := Ticks(events), Run(c, events).deadline - c.deadline;
      k * 100000 <= elapsed <= k * (100000 + latency)
    decreases |events|
  {
    if events != [] {
      var next := if events[0].Reset? then AfterReset(c) else AfterTick(c, events[0].now);
      Drift(next, events[1..], latency);
      var k := Ticks(events[1..]);
      assert (k + 1) * (100000 + latency) == k * (100000 + latency) + (100000 + latency);
    }
  }

  /** The uptime gained since the timer was enabled never runs ahead of the hardware time: `enabled` is the time
      read when enabling, and the last handler read the time one tick before the deadline it set. */
  lemma UptimeNeverAhead(c: Clock, events: seq<Event>, latency: nat, enabled: u64)
    requires RunFits(c, events) && Punctual(c, events, latency) && InStep(c)
    requires c.deadline == enabled + 100000
    ensures var r := Run(c, events);
      var gainedMs, elapsed := (r.ticks - c.ticks) * 10, r.deadline - 100000 - enabled;
      gainedMs * 10000 <= elapsed <= gainedMs * 10000 + Ticks(events) * latency
  {
    Drift(c, events, latency);
    RunInStep(c, events);
    var k := Ticks(events);
    assert k * (100000 + latency) == k * 100000 + k * latency;
  }
}
