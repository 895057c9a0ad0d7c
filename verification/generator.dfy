/** The stateful generator and its clock wait (src/generator.rs).

The system clock is not modelled: each operation that reads it takes the
readings it would observe, either as single values or as a finite sequence of
successive readings.
 */
module Generator {

  import opened Bits
  import opened Snowflakes

  /** `SnowflakeGenerator`: holds the last snowflake it handed out. */
  datatype SnowflakeGenerator = SnowflakeGenerator(lastSnowflake: Snowflake)

  /** `SnowflakeGenerator::new`, with the clock reading `now` passed in. */
  function NewGenerator(workerId: u64, now: u64): (g: SnowflakeGenerator)
    ensures g.lastSnowflake.workerId == workerId
    ensures g.lastSnowflake.sequence == 0
    ensures g.lastSnowflake.timestamp == now
    ensures CounterInRange(g.lastSnowflake)
  {
    SnowflakeGenerator(New(workerId, now))
  }

  /** `SnowflakeGenerator::next`: replaces the stored snowflake with its
      successor and hands that successor out. */
  function GeneratorNext(g: SnowflakeGenerator, now: u64, later: u64): (result: (SnowflakeGenerator, Snowflake))
    requires NoIncrementOverflow(g.lastSnowflake, now)
    requires Exhausts(g.lastSnowflake, now) ==> later > now
    ensures result.0.lastSnowflake == result.1
    ensures result.1 == Next(g.lastSnowflake, now, later)
    ensures result.1.workerId == g.lastSnowflake.workerId
    ensures result.1.timestamp >= g.lastSnowflake.timestamp
  {
    var next := Next(g.lastSnowflake, now, later);
    (SnowflakeGenerator(next), next)
  }

  // ---------------------------------------------------------------------------
  // Waiting for the clock
  // ---------------------------------------------------------------------------

  /** Some reading is strictly after `last`. */
  predicate EventuallyAfter(readings: seq<u64>, last: u64)
  {
    exists i :: 0 <= i < |readings| && readings[i] > last
  }

  /** `SnowflakeGenerator::wait_next_timestamp`. `readings` are the successive
      values the clock reports; between two readings the source sleeps for a
      millisecond, counted here in `polls`. Returns the first reading strictly
      after `lastTimestamp`. */
  method WaitNextTimestamp(readings: seq<u64>, lastTimestamp: u64) returns (timestamp: u64, polls: nat)
    requires EventuallyAfter(readings, lastTimestamp)
    ensures polls < |readings| && timestamp == readings[polls]
    ensures timestamp > lastTimestamp
    ensures forall j :: 0 <= j < polls ==> readings[j] <= lastTimestamp
    ensures readings[0] > lastTimestamp ==> polls == 0
  {
    polls := 0;
    timestamp := readings[0];
    while timestamp <= lastTimestamp
      invariant polls < |readings| && timestamp == readings[polls]
      invariant forall j :: 0 <= j < polls ==> readings[j] <= lastTimestamp
      invariant exists i :: polls <= i < |readings| && readings[i] > lastTimestamp
      decreases |readings| - polls
    {
      polls := polls + 1;
      timestamp := readings[polls];
    }
  }

  /** `Snowflake::next` with its clock: reads `readings[0]` and, only when the
      counter wraps, waits on the readings after it. `consumed` is how many
      readings were taken. */
  method NextOnClock(s: Snowflake, readings: seq<u64>) returns (r: Snowflake, consumed: nat)
    requires |readings| > 0
    requires NoIncrementOverflow(s, readings[0])
    requires Exhausts(s, readings[0]) ==> EventuallyAfter(readings[1..], readings[0])
    ensures 1 <= consumed <= |readings|
    ensures !Exhausts(s, readings[0]) ==> consumed == 1
    ensures Exhausts(s, readings[0]) ==>
              readings[consumed - 1] > readings[0] &&
              forall j :: 1 <= j < consumed - 1 ==> readings[j] <= readings[0]
    ensures r == Next(s, readings[0], readings[consumed - 1])
  {
    var now := readings[0];
    if Exhausts(s, now) {
      var later, polls := WaitNextTimestamp(readings[1..], now);
      consumed := polls + 2;
      r := Next(s, now, later);
    } else {
      consumed := 1;
      r := Next(s, now, now);
    }
  }

  // ---------------------------------------------------------------------------
  // Repeated calls
  // ---------------------------------------------------------------------------

  /** The two clock values one call of `next` observes: the first reading, and
      the reading the wait would return. */
  datatype Tick = Tick(now: u64, later: u64)

  predicate ForwardTicks(ticks: seq<Tick>)
  {
    forall i :: 0 <= i < |ticks| ==> ticks[i].now < ticks[i].later
  }

  /** The snowflakes that successive `SnowflakeGenerator::next` calls hand out. */
  function Run(g: SnowflakeGenerator, ticks: seq<Tick>): (out: seq<Snowflake>)
    requires CounterInRange(g.lastSnowflake)
    requires ForwardTicks(ticks)
    ensures |out| == |ticks|
    ensures forall i :: 0 <= i < |out| ==>
              out[i].workerId == g.lastSnowflake.workerId && CounterInRange(out[i])
    decreases |ticks|
  {
    if |ticks| == 0 then []
    else
      var (g', r) := GeneratorNext(g, ticks[0].now, ticks[0].later);
      [r] + Run(g', ticks[1..])
  }

  /** A history of snowflakes never goes back in time, and two neighbours with
      the same timestamp are either the same triple or one counter step apart. */
  predicate MonotoneHistory(h: seq<Snowflake>)
  {
    && (forall i, j :: 0 <= i < j < |h| ==> h[i].timestamp <= h[j].timestamp)
    && (forall i :: 0 < i < |h| && h[i].timestamp == h[i - 1].timestamp ==>
          h[i] == h[i - 1] || h[i].sequence == h[i - 1].sequence + 1)
  }

  /** Across any run, with the stored snowflake in front, the history is
      monotone. */
  lemma {:induction false} RunIsMonotone(g: SnowflakeGenerator, ticks: seq<Tick>)
    requires CounterInRange(g.lastSnowflake)
    requires ForwardTicks(ticks)
    ensures MonotoneHistory([g.lastSnowflake] + Run(g, ticks))
    decreases |ticks|
  {
    var h := [g.lastSnowflake] + Run(g, ticks);
    if |ticks| > 0 {
      var (g', r) := GeneratorNext(g, ticks[0].now, ticks[0].later);
      var rest := [g'.lastSnowflake] + Run(g', ticks[1..]);
      RunIsMonotone(g', ticks[1..]);
      assert Run(g, ticks) == rest;
      assert h == [g.lastSnowflake] + rest;
      forall i, j | 0 <= i < j < |h|
        ensures h[i].timestamp <= h[j].timestamp
      {
        if i > 0 {
          assert h[i] == rest[i - 1] && h[j] == rest[j - 1];
        } else {
          assert h[1] == rest[0] && h[j] == rest[j - 1];
          assert h[0].timestamp <= h[1].timestamp;
        }
      }
      forall i | 0 < i < |h| && h[i].timestamp == h[i - 1].timestamp
        ensures h[i] == h[i - 1] || h[i].sequence == h[i - 1].sequence + 1
      {
        if i > 1 {
          assert h[i] == rest[i - 1] && h[i - 1] == rest[i - 2];
        } else {
          assert h[1] == r == Next(g.lastSnowflake, ticks[0].now, ticks[0].later);
        }
      }
    }
  }

  /** Within one second and below the counter's wrap, each call of `next`
      steps the sequence by one and keeps the triple otherwise. */
  lemma {:induction false} SameSecondRun(g: SnowflakeGenerator, ticks: seq<Tick>)
    requires CounterInRange(g.lastSnowflake)
    requires ForwardTicks(ticks)
    requires g.lastSnowflake.sequence + |ticks| <= CounterMask
    requires forall i :: 0 <= i < |ticks| ==> ticks[i].now == g.lastSnowflake.timestamp
    ensures forall i :: 0 <= i < |ticks| ==>
              Run(g, ticks)[i] == Snowflake(g.lastSnowflake.workerId,
                                            g.lastSnowflake.sequence + i + 1,
                                            g.lastSnowflake.timestamp)
    decreases |ticks|
  {
    if |ticks| > 0 {
      var s := g.lastSnowflake;
      var (g', r) := GeneratorNext(g, ticks[0].now, ticks[0].later);
      assert r == Snowflake(s.workerId, s.sequence + 1, s.timestamp);
      assert forall i :: 0 <= i < |ticks[1..]| ==> ticks[1..][i] == ticks[i + 1];
      SameSecondRun(g', ticks[1..]);
      var rest := Run(g', ticks[1..]);
      assert Run(g, ticks) == [r] + rest;
      forall i | 0 <= i < |ticks|
        ensures Run(g, ticks)[i] == Snowflake(s.workerId, s.sequence + i + 1, s.timestamp)
      {
        if i > 0 {
          assert Run(g, ticks)[i] == rest[i - 1];
        }
      }
    }
  }

  /** A generator that enters a new second `t` and is called 4097 times in it
      hands out sequence 0 first and sequence 4096 last. The latter packs into
      the id of worker `w | 1` with sequence 0, so for an odd worker the
      generator hands out the same id twice, for two different snowflakes. */
  lemma RunRepeatsIdWithinSecond(g: SnowflakeGenerator, t: u64, later: u64)
    requires CounterInRange(g.lastSnowflake)
    requires g.lastSnowflake.workerId < WorkerLimit
    requires g.lastSnowflake.timestamp < t < TimestampLimit && t < later
    ensures Or(g.lastSnowflake.workerId, 1) < WorkerLimit
    ensures var out := Run(g, seq(SequenceLimit + 1, _ => Tick(t, later)));
            && out[0] == Snowflake(g.lastSnowflake.workerId, 0, t)
            && out[SequenceLimit] == Snowflake(g.lastSnowflake.workerId, SequenceLimit, t)
            && ToId(out[SequenceLimit]) == ToId(Snowflake(Or(g.lastSnowflake.workerId, 1), 0, t))
    ensures g.lastSnowflake.workerId % 2 == 1 ==>
              var out := Run(g, seq(SequenceLimit + 1, _ => Tick(t, later)));
              out[0] != out[SequenceLimit] && ToId(out[0]) == ToId(out[SequenceLimit])
  {
    var w := g.lastSnowflake.workerId;
    var ticks := seq(SequenceLimit + 1, _ => Tick(t, later));
    var (g', r) := GeneratorNext(g, t, later);
    assert r == Snowflake(w, 0, t);
    var rest := Run(g', ticks[1..]);
    assert Run(g, ticks) == [r] + rest;
    SameSecondRun(g', ticks[1..]);
    assert rest[SequenceLimit - 1] == Snowflake(w, SequenceLimit, t);
    SpilledSequence(w, t);
    OrOne(w);
  }
}
