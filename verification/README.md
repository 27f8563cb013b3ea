# UUID generator — Dafny model

This project models the core of a Java unique-identifier generator
(`org.example.UUIDGenerator`). The generator mints ids shaped like version-1
UUIDs. Each id has three fields:

- a timestamp, counted in 100-nanosecond ticks since the Unix epoch;
- the fixed machine address of the generator instance;
- a sequence number that tells apart ids minted in the same tick.

The model has two parts.

- **The `UniqueId` value type** (`unique_id.dfy`, module `UniqueIds`). It covers
  record equality, the lexicographic `compareTo`, and the `"%d-%d-%d"` text
  form. The text form is built from a decimal renderer in `decimal.dfy`
  (module `Decimal`).
- **The `generate` state machine** (`generator.dfy`, module `Generators`).
  `Generate` is a pure transition from the state `(sequenceNumber,
  lastHundredNanos)` and a clock reading to the next state and the returned
  id. `Run` chains calls over a series of clock readings. The listener is
  modelled by the log `notified` of ids it has been handed.

The lemmas about runs are in `uniqueness.dfy` (module `Uniqueness`).
`wrappers.dfy` holds the `Option` type.

The class documentation promises that one instance never generates a
duplicate (UUIDGenerator.java:26-28, :86-87). The model proves that promise
for readings whose ticks never decrease (`Uniqueness.IdsStrictlyIncrease`,
`Uniqueness.NeverRepeats`). A step back within one tick is harmless. A step
back to a tick already used can repeat an id
(`Uniqueness.BackwardClockRepeatsId`). A step back to a tick not used
before still mints a fresh id, but the ids then stop increasing: they grow strictly exactly when
the ticks never decrease (`Uniqueness.StrictlyIncreasingNeedsNonDecreasingTicks`).
The code resets the sequence on *any* change of tick, backwards included, not
only when time advances. Because `lastHundredNanos` starts at 0, a first call
at tick 0 returns sequence 1 (`Uniqueness.FirstCallSequence`). The model
follows the code in both cases.

The text form has a reader, `UniqueIds.Parse`. It accepts exactly the texts
`toString` produces: no zero padding and no "-0". So rendering and reading are
inverse to each other in both directions.

## Model

| member | source | states |
|---|---|---|
| Decimal.NatToDecimal | src/main/java/org/example/UUIDGenerator.java:129 | `%d` of a non-negative value is a non-empty digit string with no leading zero whose decimal value is the number |
| Decimal.IntToDecimal | src/main/java/org/example/UUIDGenerator.java:129 | `%d` starts with `-` exactly for negative numbers, the digits after the sign denote the magnitude, and there is no zero padding after the sign or at the start |
| Decimal.CanonicalIsRendering | src/main/java/org/example/UUIDGenerator.java:129 | a digit string with no leading zero (or "0") is the `%d` rendering of its value, so the decimal form is unique |
| Decimal.ReadIntIsRendering | src/main/java/org/example/UUIDGenerator.java:129 | whatever the integer reader accepts is a `%d` rendering followed by a rest that does not continue it |
| Decimal.ReadIntToDecimal | src/main/java/org/example/UUIDGenerator.java:129 | a rendered integer followed by a non-digit reads back as the same integer, and the rest is left untouched |
| UniqueIds.Compare | src/main/java/org/example/UUIDGenerator.java:134 | `compareTo` returns -1, 0 or 1, and returns 0 exactly when all three fields are equal, which matches record equality |
| UniqueIds.CompareIsLexicographic | src/main/java/org/example/UUIDGenerator.java:32-33 | `compareTo` is negative exactly when (hundredNanos, machineAddress, sequenceNumber) is lexicographically smaller: the first differing field decides |
| UniqueIds.CompareAntisymmetric | src/main/java/org/example/UUIDGenerator.java:134 | swapping the arguments negates the result, so exactly one of a<b, a==b, b<a holds |
| UniqueIds.CompareTransitive | src/main/java/org/example/UUIDGenerator.java:134 | the order is transitive, and strictly so when either step is strict |
| UniqueIds.TimestampDominates | src/test/java/org/example/UUIDGeneratorTest.java:44 | an earlier tick sorts first whatever the machine address and sequence are |
| UniqueIds.OrderingExamples | src/test/java/org/example/UUIDGeneratorTest.java:42-64 | (10,20,30) sorts below (12,1,2), (10,21,2) and (10,20,31); equality is field by field |
| UniqueIds.ParseToString | src/main/java/org/example/UUIDGenerator.java:119-130 | the three `%d` renderings joined by `-` read back as the same id, negative fields included |
| UniqueIds.ToString | src/main/java/org/example/UUIDGenerator.java:129 | `toString` reads back as the same id, and it is the only text that does; since the reader accepts only unpadded `%d` fields joined by `-`, this pins the text exactly |
| UniqueIds.ParseIsRendering | src/main/java/org/example/UUIDGenerator.java:129 | any text the reader accepts is the three `%d` renderings of its fields joined by `-` |
| UniqueIds.ToStringParse | src/main/java/org/example/UUIDGenerator.java:129 | rendering what the reader accepted restores the original text |
| UniqueIds.ToStringInjective | src/main/java/org/example/UUIDGenerator.java:129 | distinct ids have distinct text forms, so the string is a faithful key |
| UniqueIds.ToStringExample | src/test/java/org/example/UUIDGeneratorTest.java:94 | UniqueId(1,2,3) renders as "1-2-3" |
| UniqueIds.ToStringNegativeExample | src/main/java/org/example/UUIDGenerator.java:129 | a negative field keeps its leading `-` next to the separator: UniqueId(-1,0,12) renders as "-1-0-12" |
| Generators.HundredNanos | src/main/java/org/example/UUIDGenerator.java:92 | the tick t satisfies 100t <= nanoseconds since the epoch < 100(t+1); sub-tick nanoseconds are truncated, never rounded |
| Generators.New | src/main/java/org/example/UUIDGenerator.java:54-75 | a new generator has sequence 0, last tick 0, the given machine address and listener, and an empty listener log |
| Generators.Generate | src/main/java/org/example/UUIDGenerator.java:89-104 | the id has the reading's tick and the fixed machine address; the sequence is old+1 on a repeated tick and 0 otherwise; the state records the id's tick and sequence; machine address and listener are unchanged; a listener is handed exactly the returned id, and without one the log is unchanged |
| Generators.Run | src/main/java/org/example/UUIDGenerator.java:89-104 | one id per reading, in order; each carries its reading's tick and the machine address; a listener's log grows by exactly the returned ids; the final state holds the last id's tick and sequence |
| Uniqueness.HundredNanosMonotone | src/main/java/org/example/UUIDGenerator.java:92 | a later instant never has an earlier tick |
| Uniqueness.WholeTicks | src/test/java/org/example/UUIDGeneratorTest.java:112 | at epoch second 0, a reading of k*100 ns is tick k |
| Uniqueness.TruncationExample | src/main/java/org/example/UUIDGenerator.java:92 | 199 ns is tick 1; one second is ten million ticks |
| Uniqueness.NonDecreasingInstantsGiveNonDecreasingTicks | src/main/java/org/example/UUIDGenerator.java:92 | readings in time order have ticks in order |
| Uniqueness.StrictlyIncreasingNeedsNonDecreasingTicks | src/main/java/org/example/UUIDGenerator.java:92-99 | if the returned ids strictly increase, the readings' ticks never decreased, from any state |
| Uniqueness.ConsecutiveIds | src/main/java/org/example/UUIDGenerator.java:93-97 | each id after the first continues its predecessor's sequence when the tick repeats, and restarts at 0 otherwise |
| Uniqueness.IdsStrictlyIncrease | src/main/java/org/example/UUIDGenerator.java:86-99 | when ticks never decrease, every returned id is strictly greater under `compareTo` than all earlier ones, from any state |
| Uniqueness.NeverRepeats | src/main/java/org/example/UUIDGenerator.java:26-28 | a new generator whose readings have non-decreasing ticks never repeats an id, nor a (hundredNanos, sequenceNumber) pair |
| Uniqueness.NeverRepeatsWithMonotoneClock | src/main/java/org/example/UUIDGenerator.java:86-87 | a new generator read with a clock that never goes back never repeats an id |
| Uniqueness.SameTickStepBackExample | src/main/java/org/example/UUIDGenerator.java:92-97 | readings at 550 ns then 520 ns fall in the same tick and return (5,42,0) then (5,42,1) |
| Uniqueness.DistinctMachinesNeverCollide | src/main/java/org/example/UUIDGenerator.java:86-87 | ids from generators with different machine addresses never coincide, whatever their clocks and states |
| Uniqueness.BackwardClockRepeatsId | src/main/java/org/example/UUIDGenerator.java:93-96 | readings at ticks x, y, x, with x different from y and from the last tick seen, mint the same id twice |
| Uniqueness.BackwardClockExample | src/main/java/org/example/UUIDGenerator.java:93-99 | readings at 500 ns, 600 ns, 500 ns on a new generator return (5,42,0) first and third |
| Uniqueness.FirstCallSequence | src/main/java/org/example/UUIDGenerator.java:59 | the first call on a new generator returns sequence 1 if its tick is 0, and 0 otherwise |
| Uniqueness.SameInstantTwice | src/test/java/org/example/UUIDGeneratorTest.java:68-75 | two calls at the same instant, not at tick 0, return equal ticks with sequences 0 then 1 |
| Uniqueness.NextTickResets | src/test/java/org/example/UUIDGeneratorTest.java:80-88 | two calls one tick apart, the first not at tick 0, both return sequence 0 |
| Uniqueness.ListenerSeesEveryId | src/main/java/org/example/UUIDGenerator.java:100-102 | a listener on a new generator has been handed exactly the returned ids, in call order; without one nothing is recorded; every id carries the configured machine address |
| Uniqueness.SequenceBound | src/main/java/org/example/UUIDGenerator.java:94 | the i-th id's sequence lies between 0 and the starting counter plus i+1 |
| Uniqueness.HundredNanosFitsLong | src/main/java/org/example/UUIDGenerator.java:92 | for epoch seconds in [-922337203685, 922337203684] the tick fits a Java `long` |

## Left out

- Default machine address. The constructor probes the host's network hardware address and falls back to `Random.nextLong()` (UUIDGenerator.java:65-74). This is host I/O and randomness, so `Generators.New` takes the machine address as an argument.
- The clock. `java.time.Clock` and its `Clock.systemUTC()` default (:64, :90) become an `Instant` argument to each `Generate` call. Its nanosecond field is restricted to [0, 10^9), which `Instant` guarantees.
- Listener behaviour. The listener is reduced to whether one is present plus the log of ids it received (:100-102). Its side effects and exceptions are not modelled. If it throws, the Java state has already advanced but the id is not returned.
- The Lombok builder and `make()` (:61, :81-83). These are construction plumbing.
- Example.java. It is demo wiring with a fake message client that prints.
- Concurrency. The class is documented as not thread-safe (:30), so only sequential calls are modelled.
- The wall-clock closeness test (UUIDGeneratorTest.java:31). It depends on real time and floating point.
- UniqueIds.ToString: always emits ASCII digits. `String.format` at :129 uses the default format locale, which renders digits with that locale's zero digit. The model assumes the zero digit is '0', as the test at UUIDGeneratorTest.java:94 does.
- Generators.HundredNanos: does not model Java `long` wrap-around of `epochSecond * 10000000` for extreme instants. `Uniqueness.HundredNanosFitsLong` gives the range where no wrap occurs.
- Generators.Generate: does not model `int` wrap-around of `sequenceNumber++` after 2^31-1 calls in one tick. `Uniqueness.SequenceBound` shows the counter never exceeds the number of calls since construction.
