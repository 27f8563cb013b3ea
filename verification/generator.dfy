/**
 * The generator: a fixed machine address, an optional listener, and the
 * mutable pair (sequenceNumber, lastHundredNanos), advanced once per
 * `generate` call. The clock is an input: each call receives the instant the
 * clock would have returned. The listener is modelled by what it observes,
 * the log `notified` of every id it was handed.
 */
module Generators {
  import opened UniqueIds

  /** Nanoseconds within the second, as `Instant.getNano()` guarantees. */
  type NanoOfSecond = n: int | 0 <= n < NanosPerSecond

  /** A clock reading: whole seconds since the Unix epoch plus the nanoseconds into that second. */
  datatype Instant = Instant(epochSecond: int, nano: NanoOfSecond)

  const NanosPerSecond: int := 1_000_000_000
  const NanosPerTick: int := 100
  const TicksPerSecond: int := 10_000_000

  /** The instant as nanoseconds since the epoch. */
  function EpochNanos(i: Instant): int {
    i.epochSecond * NanosPerSecond + i.nano
  }

  /** Instants in time order. */
  predicate InstantAtMost(a: Instant, b: Instant) {
    a.epochSecond < b.epochSecond || (a.epochSecond == b.epochSecond && a.nano <= b.nano)
  }

  /**
   * The tick of an instant: seconds times ten million plus the nanoseconds
   * divided by 100. The division truncates, so the result is the number of
   * whole 100-ns ticks elapsed, never rounded up.
   */
  function HundredNanos(i: Instant): (t: int)
    ensures t * NanosPerTick <= EpochNanos(i) < (t + 1) * NanosPerTick
  {
    i.epochSecond * TicksPerSecond + i.nano / NanosPerTick
  }

  /**
   * Generator state. `hasListener` records whether a listener was configured;
   * `notified` is the sequence of ids the listener has been handed so far.
   */
  datatype Generator = Generator(
    machineAddress: int,
    hasListener: bool,
    sequenceNumber: int,
    lastHundredNanos: int,
    notified: seq<UniqueId>)

  /** A freshly built generator: both counters start at 0 and nothing has been notified. */
  function New(machineAddress: int, hasListener: bool): (g: Generator)
    ensures g.machineAddress == machineAddress && g.hasListener == hasListener
    ensures g.sequenceNumber == 0 && g.lastHundredNanos == 0 && g.notified == []
  {
    Generator(machineAddress, hasListener, 0, 0, [])
  }

  /** The state after a `generate` call together with the id it returned. */
  datatype Generated = Generated(next: Generator, id: UniqueId)

  /**
   * One `generate` call at clock reading `now`: take the tick; continue the
   * sequence on a repeated tick, restart it at 0 on any other tick; mint the
   * id; hand it to the listener if there is one.
   */
  function Generate(g: Generator, now: Instant): (r: Generated)
    ensures r.id.hundredNanos == HundredNanos(now)
    ensures r.id.machineAddress == g.machineAddress
    ensures r.id.hundredNanos == g.lastHundredNanos ==> r.id.sequenceNumber == g.sequenceNumber + 1
    ensures r.id.hundredNanos != g.lastHundredNanos ==> r.id.sequenceNumber == 0
    ensures r.next.lastHundredNanos == r.id.hundredNanos
    ensures r.next.sequenceNumber == r.id.sequenceNumber
    ensures r.next.machineAddress == g.machineAddress && r.next.hasListener == g.hasListener
    ensures g.hasListener ==> r.next.notified == g.notified + [r.id]
    ensures !g.hasListener ==> r.next.notified == g.notified
  {
    var tick := HundredNanos(now);
    var sequence := if tick == g.lastHundredNanos then g.sequenceNumber + 1 else 0;
    var id := UniqueId(tick, g.machineAddress, sequence);
    var notified := if g.hasListener then g.notified + [id] else g.notified;
    Generated(g.(sequenceNumber := sequence, lastHundredNanos := tick, notified := notified), id)
  }

  /** The final state and the ids returned by a series of `generate` calls. */
  datatype Trace = Trace(final: Generator, ids: seq<UniqueId>)

  /** `generate` called once per clock reading in `clock`, in order, starting from `g`. */
  function Run(g: Generator, clock: seq<Instant>): (t: Trace)
    ensures |t.ids| == |clock|
    ensures forall i :: 0 <= i < |clock| ==> t.ids[i].hundredNanos == HundredNanos(clock[i])
    ensures forall i :: 0 <= i < |clock| ==> t.ids[i].machineAddress == g.machineAddress
    ensures t.final.machineAddress == g.machineAddress && t.final.hasListener == g.hasListener
    ensures g.hasListener ==> t.final.notified == g.notified + t.ids
    ensures !g.hasListener ==> t.final.notified == g.notified
    ensures |clock| == 0 ==> t.final == g
    ensures |clock| > 0 ==> t.final.lastHundredNanos == t.ids[|clock| - 1].hundredNanos
    ensures |clock| > 0 ==> t.final.sequenceNumber == t.ids[|clock| - 1].sequenceNumber
  {
    if |clock| == 0 then Trace(g, [])
    else
      var before := Run(g, clock[..|clock| - 1]);
      var step := Generate(before.final, clock[|clock| - 1]);
      Trace(step.next, before.ids + [step.id])
  }
}
