/** The snowflake value, its 64-bit codec and its next-state rule
(src/snowflake.rs).

A snowflake is a triple (worker_id, sequence, timestamp) of u64 values.
`ToId` packs it as `(timestamp << 22) | (worker_id << 12) | sequence`;
`Parse` unpacks 41 timestamp bits, 10 worker bits and 12 sequence bits.
`Next` is the transition `Snowflake::next` makes once the clock readings are
passed in as arguments.
 */
module Snowflakes {

  import opened Bits

  /** 2^41: the first timestamp that no longer fits the packed field. */
  const TimestampLimit: u64 := 0x200_0000_0000
  /** 2^10: the first worker id that no longer fits the packed field. */
  const WorkerLimit: u64 := 0x400
  /** 2^12: the first sequence value that no longer fits the packed field. */
  const SequenceLimit: u64 := 0x1000
  /** The in-memory counter is masked to 16 bits. */
  const CounterMask: u64 := 0xFFFF
  /** 2^63: `Parse` keeps 41 + 10 + 12 = 63 bits and drops bit 63. */
  const IdLimit: u64 := 0x8000_0000_0000_0000
  const U64Max: u64 := 0xFFFF_FFFF_FFFF_FFFF

  datatype Snowflake = Snowflake(workerId: u64, sequence: u64, timestamp: u64)

  /** Every field fits the width the packed layout reserves for it. */
  predicate Packable(s: Snowflake)
  {
    s.timestamp < TimestampLimit && s.workerId < WorkerLimit && s.sequence < SequenceLimit
  }

  /** `Snowflake::new`, with the clock reading `now` passed in. */
  function New(workerId: u64, now: u64): (s: Snowflake)
    ensures s.workerId == workerId && s.sequence == 0 && s.timestamp == now
    ensures Packable(s) <==> workerId < WorkerLimit && now < TimestampLimit
  {
    Snowflake(workerId, 0, now)
  }

  // ---------------------------------------------------------------------------
  // Codec
  // ---------------------------------------------------------------------------

  /** `Snowflake::to_id`. Nothing is validated: out-of-range fields are shifted
      out or overlap their neighbours. */
  function ToId(s: Snowflake): (id: u64)
    ensures Packable(s) ==> id < IdLimit
    ensures Packable(s) ==> id == s.timestamp * 0x40_0000 + s.workerId * 0x1000 + s.sequence
  {
    Pow2Constants();
    var high := Shl(s.timestamp, 22);
    var middle := Shl(s.workerId, 12);
    OrBound(high, middle, 64);
    OrBound(Or(high, middle), s.sequence, 64);
    PackedSum(s);
    Or(Or(high, middle), s.sequence)
  }

  /** On packable fields the three ORs are additions. */
  lemma PackedSum(s: Snowflake)
    ensures Packable(s) ==>
      Or(Or(Shl(s.timestamp, 22), Shl(s.workerId, 12)), s.sequence)
        == s.timestamp * 0x40_0000 + s.workerId * 0x1000 + s.sequence
  {
    if Packable(s) {
      var t, w := s.timestamp, s.workerId;
      var m := t * 0x400 + w;
      PackHigh(t, w);
      assert Or(m * 0x1000, s.sequence) == m * 0x1000 + s.sequence by {
        assert Pow2(12) == 0x1000 by {
          Pow2Constants();
        }
        OrDisjoint(m, s.sequence, 12);
      }
      ScaleFields(t, w);
    }
  }

  /** The shifted timestamp and worker id do not overlap, so their OR is the
      two packed together above the sequence bits. */
  lemma PackHigh(t: u64, w: u64)
    requires t < TimestampLimit && w < WorkerLimit
    ensures Or(Shl(t, 22), Shl(w, 12)) == (t * 0x400 + w) * 0x1000
  {
    Pow2Constants();
    assert Shl(t, 22) == t * Pow2(22);
    assert Shl(w, 12) == w * Pow2(12);
    OrDisjoint(t, w * 0x1000, 22);
    assert (t * 0x400 + w) * Pow2(12) == t * Pow2(22) + w * 0x1000;
  }

  /** `Snowflake::parse`: the three masked fields, so always packable. */
  function Parse(id: u64): (s: Snowflake)
    ensures Packable(s)
    ensures s.timestamp == (id / 0x40_0000) % 0x200_0000_0000
    ensures s.workerId == (id / 0x1000) % 0x400
    ensures s.sequence == id % 0x1000
  {
    Pow2Constants();
    var high := Shr(id, 22);
    var middle := Shr(id, 12);
    AndLowMask(high, 41);
    AndLowMask(middle, 10);
    AndLowMask(id, 12);
    var timestamp := And(high, 0x1FF_FFFF_FFFF);
    var workerId := And(middle, 0x3FF);
    var sequence := And(id, 0xFFF);
    Snowflake(workerId, sequence, timestamp)
  }

  /** Packing a parsed id gives back the id with its top bit cleared. */
  lemma PackParsed(id: u64)
    ensures ToId(Parse(id)) == id % IdLimit
  {
    UnpackRepack(id);
  }

  /** Cutting `id` into its 12-, 10- and 41-bit fields and adding them back
      at their positions rebuilds its low 63 bits. */
  lemma UnpackRepack(id: u64)
    ensures ((id / 0x40_0000) % 0x200_0000_0000) * 0x40_0000
              + ((id / 0x1000) % 0x400) * 0x1000 + id % 0x1000 == id % IdLimit
  {
    var a, sq := id / 0x1000, id % 0x1000;
    var b, w := a / 0x400, a % 0x400;
    var c, t := b / 0x200_0000_0000, b % 0x200_0000_0000;
    assert id == 0x1000 * a + sq;
    assert a == 0x400 * b + w;
    DivModUnique(id, 0x40_0000, b, w * 0x1000 + sq);
    assert b == 0x200_0000_0000 * c + t;
    assert id == IdLimit * c + (t * 0x40_0000 + w * 0x1000 + sq);
    DivModUnique(id, IdLimit, c, t * 0x40_0000 + w * 0x1000 + sq);
  }

  /** `From<u64> for Snowflake`: the conversion `parse` performs. */
  function From(id: u64): (s: Snowflake)
    ensures Packable(s)
    ensures id < IdLimit ==> ToId(s) == id
  {
    IdRoundTripIff(id);
    Parse(id)
  }

  /** Unpacking undoes packing for every triple whose fields fit their widths. */
  lemma RoundTrip(s: Snowflake)
    requires Packable(s)
    ensures Parse(ToId(s)) == s
  {
    var id := ToId(s);
    var t, w, sq := s.timestamp, s.workerId, s.sequence;
    DivModUnique(id, 0x40_0000, t, w * 0x1000 + sq);
    DivModUnique(id, 0x1000, t * 0x400 + w, sq);
    DivModUnique(t * 0x400 + w, 0x400, t, w);
    DivModUnique(t, 0x200_0000_0000, 0, t);
    var r := Parse(id);
    assert r.timestamp == t;
    assert r.workerId == w;
    assert r.sequence == sq;
  }

  /** An id survives `Parse` then `ToId` exactly when its top bit is clear. */
  lemma IdRoundTripIff(id: u64)
    ensures ToId(Parse(id)) == id <==> id < IdLimit
  {
    PackParsed(id);
    if id < IdLimit {
      DivModUnique(id, IdLimit, 0, id);
    } else {
      DivModUnique(id, IdLimit, 1, id - IdLimit);
    }
  }

  /** Re-encoding a parsed value is stable. */
  lemma ParseStable(id: u64)
    ensures Parse(ToId(Parse(id))) == Parse(id)
  {
    RoundTrip(Parse(id));
  }

  /** `From` and `to_id` are mutually inverse on packable snowflakes and on ids
      below 2^63. */
  lemma FromToIdInverse(id: u64, s: Snowflake)
    ensures From(ToId(From(id))) == From(id)
    ensures Packable(s) ==> From(ToId(s)) == s
  {
    ParseStable(id);
    if Packable(s) {
      RoundTrip(s);
    }
  }

  /** Packing is injective on packable snowflakes. */
  lemma ToIdInjective(a: Snowflake, b: Snowflake)
    requires Packable(a) && Packable(b)
    ensures ToId(a) == ToId(b) <==> a == b
  {
    if ToId(a) == ToId(b) {
      RoundTrip(a);
      RoundTrip(b);
    }
  }

  /** Without the width checks packing is not injective: a worker id of 1024
      lands in the lowest timestamp bit. */
  lemma OutOfRangeFieldsAlias()
    ensures ToId(Snowflake(WorkerLimit, 0, 0)) == ToId(Snowflake(0, 0, 1))
    ensures Snowflake(WorkerLimit, 0, 0) != Snowflake(0, 0, 1)
  {
    Pow2Constants();
    assert Shl(WorkerLimit, 12) == 0x40_0000;
    assert Shl(1, 22) == 0x40_0000;
  }

  // ---------------------------------------------------------------------------
  // Ordering
  // ---------------------------------------------------------------------------

  datatype Ordering = Less | Equal | Greater

  datatype Option<T> = None | Some(value: T)

  /** Lexicographic order on (timestamp, worker id, sequence): the order the
      packed layout is meant to realise. */
  predicate FieldsLess(a: Snowflake, b: Snowflake)
  {
    || a.timestamp < b.timestamp
    || (a.timestamp == b.timestamp && a.workerId < b.workerId)
    || (a.timestamp == b.timestamp && a.workerId == b.workerId && a.sequence < b.sequence)
  }

  /** `u64::cmp`. */
  function CompareU64(x: u64, y: u64): Ordering
  {
    if x < y then Less else if x == y then Equal else Greater
  }

  /** `Ord::cmp`: compares the packed ids. On packable snowflakes this is the
      lexicographic field order, and `Equal` coincides with structural equality. */
  function Cmp(a: Snowflake, b: Snowflake): (o: Ordering)
    ensures Packable(a) && Packable(b) ==> (o == Less <==> FieldsLess(a, b))
    ensures Packable(a) && Packable(b) ==> (o == Greater <==> FieldsLess(b, a))
    ensures Packable(a) && Packable(b) ==> (o == Equal <==> a == b)
  {
    CompareU64(ToId(a), ToId(b))
  }

  /** `PartialOrd::partial_cmp`: total, and ordered by the packed ids. */
  function PartialCmp(a: Snowflake, b: Snowflake): (o: Option<Ordering>)
    ensures o.Some?
    ensures o.value == Less <==> ToId(a) < ToId(b)
    ensures o.value == Equal <==> ToId(a) == ToId(b)
    ensures o.value == Greater <==> ToId(a) > ToId(b)
  {
    Some(Cmp(a, b))
  }

  /** `cmp` is a total preorder: its answers are antisymmetric, reflexive and
      transitive. */
  lemma CmpIsTotalPreorder(a: Snowflake, b: Snowflake, c: Snowflake)
    ensures Cmp(a, b) == Less <==> Cmp(b, a) == Greater
    ensures Cmp(a, b) == Equal <==> Cmp(b, a) == Equal
    ensures Cmp(a, a) == Equal
    ensures Cmp(a, b) == Less && Cmp(b, c) == Less ==> Cmp(a, c) == Less
    ensures Cmp(a, b) != Greater && Cmp(b, c) != Greater ==> Cmp(a, c) != Greater
  {
  }

  /** With packable fields, a strictly earlier timestamp always gives a strictly
      smaller id, whatever the other fields are. */
  lemma EarlierTimestampSmallerId(a: Snowflake, b: Snowflake)
    requires Packable(a) && Packable(b)
    requires a.timestamp < b.timestamp
    ensures ToId(a) < ToId(b)
    ensures Cmp(a, b) == Less
  {
  }

  /** `cmp` can answer `Equal` for snowflakes that the derived `PartialEq`
      considers different, once a field is out of range. */
  lemma CmpEqualButNotEq()
    ensures Cmp(Snowflake(WorkerLimit, 0, 0), Snowflake(0, 0, 1)) == Equal
    ensures Snowflake(WorkerLimit, 0, 0) != Snowflake(0, 0, 1)
  {
    OutOfRangeFieldsAlias();
  }

  // ---------------------------------------------------------------------------
  // Next-state rule
  // ---------------------------------------------------------------------------

  /** `(sequence + 1) & 0xFFFF`: the counter step, wrapping at 2^16. */
  function Increment(sequence: u64): (r: u64)
    requires sequence < U64Max
    ensures r == (sequence + 1) % 0x1_0000
    ensures r <= CounterMask
    ensures sequence < CounterMask ==> r == sequence + 1
    ensures sequence == CounterMask ==> r == 0
  {
    Pow2Constants();
    AndLowMask(sequence + 1, 16);
    WrapAt16Bits(sequence + 1);
    And(sequence + 1, CounterMask)
  }

  lemma WrapAt16Bits(x: nat)
    ensures x < 0x1_0000 ==> x % 0x1_0000 == x
    ensures x == 0x1_0000 ==> x % 0x1_0000 == 0
  {
    if x < 0x1_0000 {
      DivModUnique(x, 0x1_0000, 0, x);
    } else if x == 0x1_0000 {
      DivModUnique(x, 0x1_0000, 1, 0);
    }
  }

  /** The counter of `s` wraps to zero if `now` falls in the same second:
      the only case in which `next` waits for the clock. */
  predicate Exhausts(s: Snowflake, now: u64)
  {
    now == s.timestamp && s.sequence < U64Max && Increment(s.sequence) == 0
  }

  /** `next` may be called without overflowing `sequence + 1`. */
  predicate NoIncrementOverflow(s: Snowflake, now: u64)
  {
    now == s.timestamp ==> s.sequence < U64Max
  }

  /** The sequence is a value the 16-bit counter can hold. */
  predicate CounterInRange(s: Snowflake)
  {
    s.sequence <= CounterMask
  }

  /** `Snowflake::next`. `now` is the first clock reading; `later` is the value
      `wait_next_timestamp(now)` returns, consulted only when the counter wraps. */
  function Next(s: Snowflake, now: u64, later: u64): (r: Snowflake)
    requires NoIncrementOverflow(s, now)
    requires Exhausts(s, now) ==> later > now
    ensures r.workerId == s.workerId
    ensures r.timestamp >= s.timestamp
    // clock went backwards: the previous triple is emitted again
    ensures now < s.timestamp ==> r == s
    // new second: the counter restarts
    ensures now > s.timestamp ==> r.timestamp == now && r.sequence == 0
    // same second, counter not exhausted
    ensures now == s.timestamp && s.sequence < CounterMask ==>
              r.timestamp == s.timestamp && r.sequence == s.sequence + 1
    // same second, counter exhausted: move to the later second
    ensures now == s.timestamp && s.sequence == CounterMask ==>
              r.sequence == 0 && r.timestamp == later && r.timestamp > s.timestamp
    ensures CounterInRange(s) ==> CounterInRange(r)
    // within one second the counter steps by one, or the triple repeats
    ensures CounterInRange(s) && r.timestamp == s.timestamp ==>
              r == s || r.sequence == s.sequence + 1
  {
    if now < s.timestamp then
      Snowflake(s.workerId, s.sequence, s.timestamp)
    else if now == s.timestamp then
      var sequence := Increment(s.sequence);
      if sequence == 0 then Snowflake(s.workerId, sequence, later)
      else Snowflake(s.workerId, sequence, now)
    else
      Snowflake(s.workerId, 0, now)
  }

  /** `later` is irrelevant unless the counter wraps. */
  lemma LaterOnlyMattersOnExhaustion(s: Snowflake, now: u64, later1: u64, later2: u64)
    requires NoIncrementOverflow(s, now)
    requires !Exhausts(s, now)
    ensures Next(s, now, later1) == Next(s, now, later2)
  {
  }

  /** While the packed fields have room, a clock that does not run backwards
      makes `next` produce a strictly larger id that still round-trips. */
  lemma NextIdIncreases(s: Snowflake, now: u64, later: u64)
    requires Packable(s) && s.sequence < SequenceLimit - 1
    requires s.timestamp <= now < TimestampLimit
    ensures Packable(Next(s, now, later))
    ensures ToId(s) < ToId(Next(s, now, later))
    ensures Parse(ToId(Next(s, now, later))) == Next(s, now, later)
  {
    RoundTrip(Next(s, now, later));
  }

  /** A backwards clock makes `next` re-emit the previous id. */
  lemma BackwardClockRepeatsId(s: Snowflake, now: u64, later: u64)
    requires now < s.timestamp
    ensures Next(s, now, later) == s
    ensures ToId(Next(s, now, later)) == ToId(s)
  {
  }

  /** The counter is 16 bits wide but the packed field holds 12. After sequence
      4095 in one second, `next` yields sequence 4096, and that spills into the
      lowest worker bit: the id is the one worker `w | 1` gets with sequence 0.
      For an even worker that is the next worker's id; for an odd worker it is
      its own (see `OddWorkerRepeatsId`). */
  lemma CounterOverflowsPackedField(w: u64, t: u64)
    requires w < WorkerLimit && t < TimestampLimit
    ensures Or(w, 1) < WorkerLimit
    ensures w % 2 == 0 ==> Or(w, 1) == w + 1
    ensures w % 2 == 1 ==> Or(w, 1) == w
    ensures Next(Snowflake(w, SequenceLimit - 1, t), t, t) == Snowflake(w, SequenceLimit, t)
    ensures ToId(Next(Snowflake(w, SequenceLimit - 1, t), t, t)) == ToId(Snowflake(Or(w, 1), 0, t))
    ensures Parse(ToId(Next(Snowflake(w, SequenceLimit - 1, t), t, t))) == Snowflake(Or(w, 1), 0, t)
  {
    var r := Next(Snowflake(w, SequenceLimit - 1, t), t, t);
    assert r == Snowflake(w, SequenceLimit, t);
    OrOne(w);
    SpilledSequence(w, t);
    RoundTrip(Snowflake(Or(w, 1), 0, t));
  }

  /** An odd worker's 4097th snowflake of a second has a different triple but
      the same id as its sequence-0 snowflake of that second. */
  lemma OddWorkerRepeatsId(w: u64, t: u64)
    requires w < WorkerLimit && w % 2 == 1 && t < TimestampLimit
    ensures Next(Snowflake(w, SequenceLimit - 1, t), t, t) != Snowflake(w, 0, t)
    ensures ToId(Next(Snowflake(w, SequenceLimit - 1, t), t, t)) == ToId(Snowflake(w, 0, t))
  {
    CounterOverflowsPackedField(w, t);
  }

  /** A sequence of 2^12 sets the lowest worker bit. */
  lemma SpilledSequence(w: u64, t: u64)
    requires w < WorkerLimit && t < TimestampLimit
    ensures Or(w, 1) < WorkerLimit
    ensures ToId(Snowflake(w, SequenceLimit, t)) == ToId(Snowflake(Or(w, 1), 0, t))
  {
    var m := t * 0x400 + w;
    var o := Or(w, 1);
    OrOne(w);
    assert o < WorkerLimit;
    PackHigh(t, w);
    assert ToId(Snowflake(w, SequenceLimit, t)) == Or(m * 0x1000, 0x1000);
    SetWorkerBit(t, w);
    assert ToId(Snowflake(o, 0, t)) == (t * 0x400 + o) * 0x1000 by {
      ScaleFields(t, o);
    }
  }

  /** Setting bit 12 of the packed timestamp and worker id sets the lowest
      worker bit. */
  lemma SetWorkerBit(t: nat, w: nat)
    ensures Or((t * 0x400 + w) * 0x1000, 0x1000) == (t * 0x400 + Or(w, 1)) * 0x1000
  {
    var m := t * 0x400 + w;
    assert Pow2(12) == 0x1000 by {
      Pow2Constants();
    }
    OrScaled(m, 1, 12);
    assert Or(m * 0x1000, 0x1000) == Or(m, 1) * 0x1000;
    assert m % 2 == w % 2 by {
      DivModUnique(m, 2, t * 0x200 + w / 2, w % 2);
    }
    OrOne(m);
    OrOne(w);
    assert Or(m, 1) == t * 0x400 + Or(w, 1);
  }

  /** Timestamp and worker id packed together, then shifted past the sequence. */
  lemma ScaleFields(t: nat, w: nat)
    ensures (t * 0x400 + w) * 0x1000 == t * 0x40_0000 + w * 0x1000
  {
  }
}
