# rusty-snowflake in Dafny

A model of the snowflake id generator `rusty-snowflake`. It models two pieces.

The first is the **snowflake codec**. A snowflake is a triple (worker id, sequence, timestamp) of `u64` values. `to_id` packs it as `(timestamp << 22) | (worker_id << 12) | sequence`. `parse` unpacks it with the masks `0x1FFFFFFFFFF`, `0x3FF` and `0xFFF`. `From<u64>` and `Ord`/`PartialOrd` are built on these two.

The second is the **next-state rule and the generator**:

- `Snowflake::next` moves from the previous triple to the next one.
- `SnowflakeGenerator` is a one-field holder that replaces its stored snowflake with `next()`.
- `wait_next_timestamp` polls the clock until it passes a given second.

Files:

- `bits.dfy` (module `Bits`): `u64` as the naturals below 2^64, and Rust's bit operators on it. `Or` and `And` are defined bit by bit. `Shl` is `<<` with the bits past bit 63 dropped, and `Shr` is `>>`. Lemmas show that:
  - `Or` and `And` are bitwise;
  - OR of disjoint bit ranges is addition;
  - AND with a mask `2^k - 1` is `% 2^k`.
- `snowflake.dfy` (module `Snowflakes`): the `Snowflake` datatype, `New`, `ToId`, `Parse`, `From`, `Cmp`, `PartialCmp` and `Next`, with the codec, ordering and transition properties.
- `generator.dfy` (module `Generator`): the generator, the wait loop over a sequence of clock readings, `next` with its clock, and runs of repeated `next` calls.

The clock is not modelled. Every operation that reads it takes the readings it observes as arguments:

- `New` and `NewGenerator` take `now`.
- `Next` takes the first reading `now`, and `later`, the value the wait loop would return.
- `WaitNextTimestamp` and `NextOnClock` take a finite sequence of successive readings.

Behaviour worth knowing, all proved:

- The 12 sequence bits, 10 worker bits and 41 timestamp bits cover only bits 0–62. `Parse` drops bit 63, so `ToId(Parse(id)) == id` exactly when `id < 2^63`.
- The in-memory counter wraps at 16 bits (`& 0xFFFF`), but only 12 bits are packed. After sequence 4095 in one second, `next` yields sequence 4096, which spills into the lowest worker bit: it packs into the id that worker `w | 1` gets with sequence 0 in that second (`CounterOverflowsPackedField`).
  - For an even worker, that is the next worker's id.
  - For an odd worker, it is the worker's own sequence-0 id (`OddWorkerRepeatsId`). A generator of an odd worker that enters a new second and is called 4097 times in it hands out the same id twice, for two different triples (`RunRepeatsIdWithinSecond`). The doc comment of `next` (src/snowflake.rs:40-42) promises a new id on every call.
- When the clock goes backwards, `next` keeps both the timestamp and the sequence. It therefore re-emits the previous triple and the previous id (`BackwardClockRepeatsId`). The test at src/snowflake.rs:248-259 covers this case and its comment at line 257 says the sequence is reset to 0. The test starts from sequence 0, though, so it cannot tell keeping the sequence from resetting it. The model follows the code.
- Once a field is out of range, `cmp` can answer `Equal` for two snowflakes the derived `PartialEq` calls different (`CmpEqualButNotEq`).

## Model

| member | source | states |
|---|---|---|
| `Bits.ShrBit` | src/snowflake.rs:108-109 | bit `i` of `x >> n` is bit `i + n` of `x` |
| `Bits.OrBit` | src/snowflake.rs:92 | a bit of `a \| b` is set exactly when it is set in `a` or in `b` |
| `Bits.AndBit` | src/snowflake.rs:108-110 | a bit of `a & b` is set exactly when it is set in both |
| `Bits.OrOne` | src/snowflake.rs:92 | `x \| 1` is `x + 1` for even `x` and `x` for odd `x` |
| `Bits.OrScaled` | src/snowflake.rs:92 | OR commutes with a common left shift: `(m << k) \| (c << k) == (m \| c) << k` when nothing is shifted out |
| `Bits.OrDisjoint` | src/snowflake.rs:92 | OR of a multiple of `2^k` with a value below `2^k` is their sum |
| `Bits.OrBound` | src/snowflake.rs:92 | OR of two values below `2^n` stays below `2^n`, so `to_id` yields a u64 |
| `Bits.AndLowMask` | src/snowflake.rs:108-110 | `x & (2^k - 1)` is `x % 2^k` |
| `Snowflakes.New` | src/snowflake.rs:32-38 | the new snowflake has the given worker id, sequence 0 and timestamp `now`; it is packable exactly when the worker id is below 1024 and `now` below 2^41 |
| `Snowflakes.ToId` | src/snowflake.rs:91-93 | on packable fields the id is below 2^63 and equals `timestamp * 2^22 + worker_id * 2^12 + sequence` |
| `Snowflakes.PackedSum` | src/snowflake.rs:92 | on packable fields the two ORs of the shifted fields are additions |
| `Snowflakes.Parse` | src/snowflake.rs:107-117 | the result is always packable; its fields are bits 22–62, 12–21 and 0–11 of the id |
| `Snowflakes.PackParsed` | src/snowflake.rs:107-117 | packing a parsed id gives back the id with bit 63 cleared |
| `Snowflakes.From` | src/snowflake.rs:134-138 | `From<u64>` yields a packable snowflake whose id is the input whenever the input is below 2^63 |
| `Snowflakes.RoundTrip` | src/snowflake.rs:91-117 | `parse(to_id(s)) == s` when the timestamp is below 2^41, the worker id below 2^10 and the sequence below 2^12 |
| `Snowflakes.IdRoundTripIff` | src/snowflake.rs:91-117 | `to_id(parse(id)) == id` if and only if `id < 2^63` |
| `Snowflakes.ParseStable` | src/snowflake.rs:107-117 | re-encoding is stable: `parse(to_id(parse(id))) == parse(id)` |
| `Snowflakes.FromToIdInverse` | src/snowflake.rs:291-299 | `from(to_id(from(id))) == from(id)` for every id, and `from(to_id(s)) == s` for packable `s` |
| `Snowflakes.ToIdInjective` | src/snowflake.rs:91-93 | on packable snowflakes, equal ids mean equal snowflakes |
| `Snowflakes.OutOfRangeFieldsAlias` | src/snowflake.rs:91-93 | without the width bounds packing is not injective: worker id 1024 packs like timestamp 1 |
| `Snowflakes.Cmp` | src/snowflake.rs:140-144 | on packable snowflakes `cmp` is the lexicographic order on (timestamp, worker id, sequence), and `Equal` is structural equality |
| `Snowflakes.PartialCmp` | src/snowflake.rs:146-150 | `partial_cmp` never returns `None` and orders by the packed ids |
| `Snowflakes.CmpIsTotalPreorder` | src/snowflake.rs:140-144 | `cmp` is reflexive, antisymmetric in its answers and transitive |
| `Snowflakes.EarlierTimestampSmallerId` | src/snowflake.rs:92 | with packable fields, a strictly earlier timestamp gives a strictly smaller id |
| `Snowflakes.CmpEqualButNotEq` | src/snowflake.rs:140-144 | with an out-of-range field, `cmp` can answer `Equal` for snowflakes that differ |
| `Snowflakes.Increment` | src/snowflake.rs:61 | `(sequence + 1) & 0xFFFF` is `(sequence + 1) % 2^16`: one more below `0xFFFF`, and 0 at `0xFFFF` |
| `Snowflakes.Next` | src/snowflake.rs:54-74 | worker id unchanged and timestamp never lower. Clock behind: the triple is unchanged. New second: timestamp `now`, sequence 0. Same second below `0xFFFF`: sequence one more, same timestamp. Same second at `0xFFFF`: sequence 0 and timestamp `later`, strictly greater. A 16-bit sequence stays 16-bit. At an unchanged timestamp the triple either repeats or the sequence steps by one |
| `Snowflakes.LaterOnlyMattersOnExhaustion` | src/snowflake.rs:60-64 | the waited-for reading affects the result only when the counter wraps |
| `Snowflakes.NextIdIncreases` | src/snowflake.rs:54-74 | from a packable snowflake with sequence below 4095 and a clock that neither goes backwards nor passes 2^41, the next id is strictly larger and round-trips |
| `Snowflakes.BackwardClockRepeatsId` | src/snowflake.rs:56-59 | with a clock behind the stored timestamp, `next` returns the same triple and hence the same id |
| `Snowflakes.PackHigh` | src/snowflake.rs:92 | with in-range timestamp and worker id, `(timestamp << 22) \| (worker_id << 12)` is the two fields packed side by side above the sequence bits |
| `Snowflakes.CounterOverflowsPackedField` | src/snowflake.rs:61 | for every worker `w` below 1024 and every in-range second, the step after sequence 4095 yields sequence 4096; its id is that of worker `w \| 1` with sequence 0, and it parses as that snowflake; `w \| 1` is `w + 1` for even `w` and `w` for odd `w` |
| `Snowflakes.OddWorkerRepeatsId` | src/snowflake.rs:54-74 | against the promise of a new id on every call (lines 40-42): for an odd worker, the snowflake after sequence 4095 differs from the worker's sequence-0 snowflake of that second but has the same id |
| `Snowflakes.SpilledSequence` | src/snowflake.rs:92 | for every worker `w` below 1024, sequence 2^12 packs to the id of worker `w \| 1` with sequence 0 |
| `Generator.NewGenerator` | src/generator.rs:8-12 | the stored snowflake has the given worker id, sequence 0 and the construction-time reading as timestamp |
| `Generator.GeneratorNext` | src/generator.rs:14-17 | the stored snowflake is replaced by its successor under `next`, and that successor is returned; it keeps the worker id and does not lower the timestamp |
| `Generator.WaitNextTimestamp` | src/generator.rs:37-44 | returns the first reading strictly greater than the argument, after as many sleeps as readings skipped; none when the first reading already exceeds it |
| `Generator.NextOnClock` | src/snowflake.rs:54-74 | `next` with its clock reads once. It reads more only when the counter wraps, and then it takes the first later reading strictly after the first one |
| `Generator.Run` | src/generator.rs:14-17 | every snowflake handed out by repeated `next` calls has the generator's worker id and a 16-bit sequence |
| `Generator.SameSecondRun` | src/generator.rs:14-17 | while the clock stays in the stored second and the counter does not wrap, the i-th snowflake of a run has the stored worker id and timestamp and sequence i + 1 past the stored one |
| `Generator.RunRepeatsIdWithinSecond` | src/generator.rs:14-17 | a generator that enters a new second and is called 4097 times in it hands out sequence 0 first and 4096 last; the last packs like worker `w \| 1` with sequence 0, so for an odd worker the first and last snowflakes differ but share an id |
| `Generator.RunIsMonotone` | src/generator.rs:14-17 | across any run, timestamps never decrease, and neighbours with equal timestamps are the same triple or one counter step apart |

## Left out

- `get_timestamp` (src/generator.rs:23-28) reads the system clock and panics before 1970. Its readings are parameters instead.
- `std::thread::sleep` in the wait loop (src/generator.rs:40) is a timing side effect. It is modelled as moving on to the next reading and counted in `polls`.
- `Display` (src/snowflake.rs:120-131) is Rust formatting of `to_id()` and is not modelled.
- Rust's debug-mode overflow panic on `sequence + 1` at `u64::MAX` (src/snowflake.rs:61) is a precondition of `Next` (`NoIncrementOverflow`). The panic itself is not modelled.
- Snowflakes.Next: the value returned by `wait_next_timestamp` is the parameter `later`, so `Next` alone does not say which reading it is. `NextOnClock` ties the two together.
- Generator.WaitNextTimestamp: takes a finite sequence of readings and requires one of them to exceed the argument. A clock that never advances, where the source loops forever, is outside the model.
- Generator.Run: takes the clock values of every call as given pairs with `later > now`. The final generator state is its last output, which `GeneratorNext` states.
- Concurrency: the source has none, and nothing about thread safety is modelled.
