/**
 * What a series of `generate` calls on one generator promises: the
 * sequence rule, the listener log, the machine address and bounds on the
 * counters. Uniqueness of the ids is guaranteed while the ticks never
 * decrease. Returning to a tick already used can repeat an id. The ids grow
 * strictly exactly when the ticks never decrease.
 */
module Uniqueness {
  import opened UniqueIds
  import opened Generators

  /** Extending the clock by one reading runs `generate` once more from where the shorter run stopped. */
  lemma RunAppend(g: Generator, clock: seq<Instant>, now: Instant)
    ensures var before := Run(g, clock);
            var step := Generate(before.final, now);
            Run(g, clock + [now]) == Trace(step.next, before.ids + [step.id])
  {
    assert (clock + [now])[..|clock|] == clock;
  }

  /** Truncation is monotone: a later instant never has an earlier tick. */
  lemma HundredNanosMonotone(a: Instant, b: Instant)
    requires InstantAtMost(a, b)
    ensures HundredNanos(a) <= HundredNanos(b)
  {
    if a.epochSecond < b.epochSecond {
      assert a.nano / NanosPerTick < TicksPerSecond;
    }
  }

  /** A fake clock at epoch second 0 that reads `k * 100` nanoseconds is at tick `k`. */
  lemma WholeTicks(k: nat)
    requires k * NanosPerTick < NanosPerSecond
    ensures HundredNanos(Instant(0, k * NanosPerTick)) == k
  {
  }

  /** Sub-tick nanoseconds are dropped: 199 ns into the epoch is still tick 1. */
  lemma TruncationExample()
    ensures HundredNanos(Instant(0, 199)) == 1
    ensures HundredNanos(Instant(1, 0)) == 10_000_000
  {
  }

  /** The ticks of the readings never decrease. */
  predicate TicksNonDecreasing(clock: seq<Instant>) {
    forall i, j :: 0 <= i < j < |clock| ==> HundredNanos(clock[i]) <= HundredNanos(clock[j])
  }

  /** The readings themselves never go back in time. */
  predicate InstantsNonDecreasing(clock: seq<Instant>) {
    forall i, j :: 0 <= i < j < |clock| ==> InstantAtMost(clock[i], clock[j])
  }

  lemma NonDecreasingInstantsGiveNonDecreasingTicks(clock: seq<Instant>)
    requires InstantsNonDecreasing(clock)
    ensures TicksNonDecreasing(clock)
  {
    forall i, j | 0 <= i < j < |clock|
      ensures HundredNanos(clock[i]) <= HundredNanos(clock[j])
    {
      HundredNanosMonotone(clock[i], clock[j]);
    }
  }

  /** Every id sorts strictly before every id minted after it. */
  predicate StrictlyIncreasing(ids: seq<UniqueId>) {
    forall i, j :: 0 <= i < j < |ids| ==> Compare(ids[i], ids[j]) < 0
  }

  /**
   * While the ticks do not decrease, each call returns an id strictly greater
   * under `compareTo` than every id returned before it, from any state.
   */
  lemma {:induction false} IdsStrictlyIncrease(g: Generator, clock: seq<Instant>)
    requires TicksNonDecreasing(clock)
    ensures StrictlyIncreasing(Run(g, clock).ids)
  {
    if |clock| > 0 {
      var n := |clock| - 1;
      var prefix := clock[..n];
      assert prefix + [clock[n]] == clock;
      IdsStrictlyIncrease(g, prefix);
      RunAppend(g, prefix, clock[n]);
      var before := Run(g, prefix);
      var ids := Run(g, clock).ids;
      assert ids == before.ids + [Generate(before.final, clock[n]).id];
      if n > 0 {
        assert HundredNanos(clock[n - 1]) <= HundredNanos(clock[n]);
        assert Compare(ids[n - 1], ids[n]) < 0;
        forall i, j | 0 <= i < j <= n
          ensures Compare(ids[i], ids[j]) < 0
        {
          if j == n && i < n - 1 {
            CompareTransitive(ids[i], ids[n - 1], ids[n]);
          }
        }
      }
    }
  }

  /**
   * Conversely, ids that strictly increase come only from readings whose ticks
   * never decrease: a step back in ticks always yields an id that sorts lower.
   */
  lemma StrictlyIncreasingNeedsNonDecreasingTicks(g: Generator, clock: seq<Instant>)
    requires StrictlyIncreasing(Run(g, clock).ids)
    ensures TicksNonDecreasing(clock)
  {
    var ids := Run(g, clock).ids;
    forall i, j | 0 <= i < j < |clock|
      ensures HundredNanos(clock[i]) <= HundredNanos(clock[j])
    {
      assert Compare(ids[i], ids[j]) < 0;
    }
  }

  /**
   * The sequence rule as a caller observes it: each id after the first
   * continues its predecessor's sequence when it has the same tick, and
   * restarts at 0 when the tick differs.
   */
  lemma {:induction false} ConsecutiveIds(g: Generator, clock: seq<Instant>)
    ensures var ids := Run(g, clock).ids;
            forall i :: 0 < i < |ids| ==>
              ids[i].sequenceNumber
                == if ids[i].hundredNanos == ids[i - 1].hundredNanos then ids[i - 1].sequenceNumber + 1 else 0
  {
    if |clock| > 0 {
      var n := |clock| - 1;
      var prefix := clock[..n];
      assert prefix + [clock[n]] == clock;
      ConsecutiveIds(g, prefix);
      RunAppend(g, prefix, clock[n]);
    }
  }

  /**
   * The documented guarantee: a generator never repeats an id, and never
   * repeats a (hundredNanos, sequenceNumber) pair, as long as the ticks of the
   * readings never decrease. A reading earlier than the previous one within
   * the same tick does no harm.
   */
  lemma NeverRepeats(machineAddress: int, hasListener: bool, clock: seq<Instant>)
    requires TicksNonDecreasing(clock)
    ensures var ids := Run(New(machineAddress, hasListener), clock).ids;
            forall i, j :: 0 <= i < j < |ids| ==>
              ids[i] != ids[j]
              && (ids[i].hundredNanos, ids[i].sequenceNumber) != (ids[j].hundredNanos, ids[j].sequenceNumber)
  {
    IdsStrictlyIncrease(New(machineAddress, hasListener), clock);
  }

  /** In particular, a clock that never goes back in time never yields a repeated id. */
  lemma NeverRepeatsWithMonotoneClock(machineAddress: int, hasListener: bool, clock: seq<Instant>)
    requires InstantsNonDecreasing(clock)
    ensures var ids := Run(New(machineAddress, hasListener), clock).ids;
            forall i, j :: 0 <= i < j < |ids| ==> ids[i] != ids[j]
  {
    NonDecreasingInstantsGiveNonDecreasingTicks(clock);
    NeverRepeats(machineAddress, hasListener, clock);
  }

  /** A reading that steps back within one tick still yields distinct ids: 550 ns, then 520 ns. */
  lemma SameTickStepBackExample()
    ensures var ids := Run(New(42, false), [Instant(0, 550), Instant(0, 520)]).ids;
            ids[0] == UniqueId(5, 42, 0) && ids[1] == UniqueId(5, 42, 1)
  {
    var g := New(42, false);
    RunAppend(g, [], Instant(0, 550));
    RunAppend(g, [Instant(0, 550)], Instant(0, 520));
    assert [Instant(0, 550)] + [Instant(0, 520)] == [Instant(0, 550), Instant(0, 520)];
  }

  /**
   * Ids from generators with different machine addresses never coincide,
   * whatever their clocks and states.
   */
  lemma DistinctMachinesNeverCollide(g1: Generator, g2: Generator, clock1: seq<Instant>, clock2: seq<Instant>)
    requires g1.machineAddress != g2.machineAddress
    ensures var ids1, ids2 := Run(g1, clock1).ids, Run(g2, clock2).ids;
            forall i, j :: 0 <= i < |ids1| && 0 <= j < |ids2| ==> ids1[i] != ids2[j]
  {
  }

  /**
   * Why the clock must not go back: from any state, readings at ticks x, y, x
   * with x different from both y and the last tick seen mint the same id twice.
   */
  lemma BackwardClockRepeatsId(g: Generator, x: Instant, y: Instant)
    requires HundredNanos(x) != g.lastHundredNanos
    requires HundredNanos(y) != HundredNanos(x)
    ensures var ids := Run(g, [x, y, x]).ids;
            ids[0] == ids[2] && Compare(ids[0], ids[2]) == 0
  {
    RunAppend(g, [], x);
    RunAppend(g, [x], y);
    RunAppend(g, [x, y], x);
    assert [x] + [y] == [x, y];
    assert [x, y] + [x] == [x, y, x];
  }

  /** A concrete instance: 500 ns, 600 ns, then 500 ns again repeats the first id. */
  lemma BackwardClockExample()
    ensures var ids := Run(New(42, false), [Instant(0, 500), Instant(0, 600), Instant(0, 500)]).ids;
            ids[0] == UniqueId(5, 42, 0) && ids[2] == UniqueId(5, 42, 0)
  {
    BackwardClockRepeatsId(New(42, false), Instant(0, 500), Instant(0, 600));
  }

  /**
   * `lastHundredNanos` starts at 0, so a first call at tick 0 continues the
   * sequence and returns 1; at any other tick it returns 0.
   */
  lemma FirstCallSequence(machineAddress: int, hasListener: bool, now: Instant)
    ensures Generate(New(machineAddress, hasListener), now).id.sequenceNumber
         == if HundredNanos(now) == 0 then 1 else 0
  {
  }

  /** Two calls at the same instant (not at tick 0) return sequence 0 then 1 with equal ticks. */
  lemma SameInstantTwice(machineAddress: int, hasListener: bool, now: Instant)
    requires HundredNanos(now) != 0
    ensures var ids := Run(New(machineAddress, hasListener), [now, now]).ids;
            ids[0].hundredNanos == ids[1].hundredNanos
            && ids[0].sequenceNumber == 0 && ids[1].sequenceNumber == 1
  {
    RunAppend(New(machineAddress, hasListener), [], now);
    RunAppend(New(machineAddress, hasListener), [now], now);
    assert [now] + [now] == [now, now];
  }

  /** Two calls one tick apart (the first not at tick 0) both return sequence 0. */
  lemma NextTickResets(machineAddress: int, hasListener: bool, a: Instant, b: Instant)
    requires HundredNanos(a) != 0
    requires HundredNanos(b) == HundredNanos(a) + 1
    ensures var ids := Run(New(machineAddress, hasListener), [a, b]).ids;
            ids[0].hundredNanos == ids[1].hundredNanos - 1
            && ids[0].sequenceNumber == 0 && ids[1].sequenceNumber == 0
  {
    RunAppend(New(machineAddress, hasListener), [], a);
    RunAppend(New(machineAddress, hasListener), [a], b);
    assert [a] + [b] == [a, b];
  }

  /**
   * A listener configured at construction has been handed exactly the
   * returned ids, in call order; without one, nothing is recorded. Every id
   * carries the configured machine address.
   */
  lemma ListenerSeesEveryId(machineAddress: int, hasListener: bool, clock: seq<Instant>)
    ensures var t := Run(New(machineAddress, hasListener), clock);
            (hasListener ==> t.final.notified == t.ids)
            && (!hasListener ==> t.final.notified == [])
            && forall i :: 0 <= i < |t.ids| ==> t.ids[i].machineAddress == machineAddress
  {
  }

  /**
   * The sequence counter grows by at most one per call: from a state with a
   * non-negative counter, the i-th id's sequence lies in [0, counter + i + 1].
   * From a new generator it is at most the number of calls made.
   */
  lemma {:induction false} SequenceBound(g: Generator, clock: seq<Instant>)
    requires 0 <= g.sequenceNumber
    ensures var ids := Run(g, clock).ids;
            forall i :: 0 <= i < |ids| ==> 0 <= ids[i].sequenceNumber <= g.sequenceNumber + i + 1
  {
    if |clock| > 0 {
      var n := |clock| - 1;
      var prefix := clock[..n];
      assert prefix + [clock[n]] == clock;
      SequenceBound(g, prefix);
      RunAppend(g, prefix, clock[n]);
    }
  }

  /** Java `long` range. */
  predicate IsLong(x: int) {
    -0x8000_0000_0000_0000 <= x < 0x8000_0000_0000_0000
  }

  /**
   * For epoch seconds within about 29 millennia of 1970 the tick fits a Java
   * `long`, so the unbounded arithmetic of this model agrees with the source's.
   */
  lemma HundredNanosFitsLong(now: Instant)
    requires -922_337_203_685 <= now.epochSecond <= 922_337_203_684
    ensures IsLong(HundredNanos(now))
  {
  }
}
