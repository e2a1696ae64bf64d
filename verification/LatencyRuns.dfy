/** Which completions are counted, with which latency and under which key, told from the events and the
    options alone. */
module LatencyRuns {
  import opened Wrappers
  import opened Latency

  /** A begin is ignored when queueing is measured and the request has been in an elevator's queue, or
      when it concerns another disk than the one asked for. */
  predicate Ignored(targ: Targ, e: Event)
    requires e.Begin?
  {
    (targ.queued && e.issue && e.elevator) || (targ.filterDev && e.dev != targ.dev)
  }

  /** The event opens its request, or closes it. */
  predicate Concerns(targ: Targ, e: Event, rq: Req) { e.rq == rq && (e.Complete? || !Ignored(targ, e)) }

  /** The `i`-th event opened the request, and nothing has concerned the request since. */
  ghost predicate OpenedAt(targ: Targ, events: seq<Event>, rq: Req, i: nat) {
    && i < |events| && events[i].Begin? && Concerns(targ, events[i], rq)
    && forall j | i < j < |events| :: !Concerns(targ, events[j], rq)
  }

  lemma {:induction false} OpenIs(targ: Targ, events: seq<Event>, rq: Req)
    ensures forall i: nat | OpenedAt(targ, events, rq, i) :: Open(targ, events, rq) == Some(events[i].ts)
    ensures Open(targ, events, rq).Some? ==> exists i: nat :: OpenedAt(targ, events, rq, i)
  {
    if events != [] {
      var before, k := events[..|events| - 1], |events| - 1;
      if !Concerns(targ, events[k], rq) {
        OpenIs(targ, before, rq);
        forall i: nat ensures OpenedAt(targ, events, rq, i) <==> OpenedAt(targ, before, rq, i) {
          OpenedBefore(targ, events, rq, i);
        }
      } else if events[k].Begin? {
        assert OpenedAt(targ, events, rq, k);
      }
    }
  }

  lemma OpenedBefore(targ: Targ, events: seq<Event>, rq: Req, i: nat)
    requires events != [] && !Concerns(targ, events[|events| - 1], rq)
    ensures OpenedAt(targ, events, rq, i) <==> OpenedAt(targ, events[..|events| - 1], rq, i)
  {
    var before := events[..|events| - 1];
    assert forall j | 0 <= j < |before| :: before[j] == events[j];
  }

  /** The time from `begin` to `end` on a clock of 64 bits. */
  function Elapsed(begin: nat, end: nat): nat { (end - begin) % U64 }

  const HALF: nat := 0x8000_0000_0000_0000

  /** `x` counts the time between the two events in whole milliseconds or microseconds, under the
      completed request's flags and disk as far as the options ask for them. */
  predicate Measures(targ: Targ, begin: Event, end: Event, x: Sample)
    requires end.Complete? && begin.Begin?
  {
    var d, unit := Elapsed(begin.ts, end.ts), if targ.ms then 1_000_000 else 1000;
    && x.latency * unit <= d < (x.latency + 1) * unit
    && (if targ.perFlag then x.key.cmdFlags == end.cmdFlags else x.key.cmdFlags == 0)
    && (if targ.perDisk then x.key.dev == end.dev else x.key.dev == 0)
  }

  /** A completion of a request that was opened less than half the clock's range ago adds exactly one
      sample, which measures it; any other adds none. */
  lemma CompletionCounted(targ: Targ, events: seq<Event>, e: Event)
    requires e.Complete?
    ensures forall i: nat | OpenedAt(targ, events, e.rq, i) && Elapsed(events[i].ts, e.ts) < HALF ::
              exists x :: Measures(targ, events[i], e, x) && Samples(targ, events + [e]) == Samples(targ, events) + [x]
    ensures (forall i: nat :: !(OpenedAt(targ, events, e.rq, i) && Elapsed(events[i].ts, e.ts) < HALF)) ==>
              Samples(targ, events + [e]) == Samples(targ, events)
  {
    OpenIs(targ, events, e.rq);
    SamplesSnoc(targ, events, e);
    forall i: nat | OpenedAt(targ, events, e.rq, i) && Elapsed(events[i].ts, e.ts) < HALF
      ensures exists x :: Measures(targ, events[i], e, x) && Samples(targ, events + [e]) == Samples(targ, events) + [x]
    {
      var x := Sample(KeyOf(targ, e), Scaled(targ, Delta(e.ts, events[i].ts)));
      ScaledMeasures(targ, Elapsed(events[i].ts, e.ts));
      assert Measures(targ, events[i], e, x);
    }
  }

  lemma SamplesSnoc(targ: Targ, events: seq<Event>, e: Event)
    requires e.Complete?
    ensures Samples(targ, events + [e]) == Samples(targ, events) +
              var open := Open(targ, events, e.rq);
              if open.Some? && Delta(e.ts, open.value) >= 0
              then [Sample(KeyOf(targ, e), Scaled(targ, Delta(e.ts, open.value)))] else []
  {
    assert (events + [e])[..|events|] == events;
  }

  lemma ScaledMeasures(targ: Targ, d: nat)
    ensures var unit := if targ.ms then 1_000_000 else 1000;
            Scaled(targ, d) * unit <= d < (Scaled(targ, d) + 1) * unit
  {
  }

  /** Begins add nothing. */
  lemma BeginCountsNothing(targ: Targ, events: seq<Event>, e: Event)
    requires e.Begin?
    ensures Samples(targ, events + [e]) == Samples(targ, events)
  {
    assert (events + [e])[..|events|] == events;
  }

  /** On a clock that has not wrapped: a request begun at `b` and completed at `e`, with nothing about it
      in between, is counted as the whole units in `e - b`. */
  lemma RequestCounted(targ: Targ, before: seq<Event>, begin: Event, between: seq<Event>, end: Event)
    requires begin.Begin? && !Ignored(targ, begin) && end.Complete? && end.rq == begin.rq
    requires forall e | e in between :: !Concerns(targ, e, begin.rq)
    requires begin.ts <= end.ts && end.ts - begin.ts < HALF
    ensures var events := before + [begin] + between;
            exists x :: && Samples(targ, events + [end]) == Samples(targ, events) + [x]
                        && (if targ.ms then x.latency * 1_000_000 <= end.ts - begin.ts < (x.latency + 1) * 1_000_000
                            else x.latency * 1000 <= end.ts - begin.ts < (x.latency + 1) * 1000)
  {
    var events, i := before + [begin] + between, |before|;
    assert events[i] == begin && forall j | i < j < |events| :: events[j] in between;
    assert OpenedAt(targ, events, end.rq, i) && Elapsed(begin.ts, end.ts) == end.ts - begin.ts;
    CompletionCounted(targ, events, end);
  }

  /** A completion that comes before its begin on the clock is not counted. */
  lemma BackwardsNotCounted(targ: Targ, events: seq<Event>, i: nat, end: Event)
    requires end.Complete? && OpenedAt(targ, events, end.rq, i)
    requires end.ts < events[i].ts <= end.ts + HALF
    ensures Samples(targ, events + [end]) == Samples(targ, events)
  {
    OpenIs(targ, events, end.rq);
    assert Elapsed(events[i].ts, end.ts) == end.ts - events[i].ts + U64;
    CompletionCounted(targ, events, end);
  }

  /** A sample is in a slot if and only if the time it measures is within the bounds printed for it. */
  lemma MeasuredSlot(targ: Targ, begin: Event, end: Event, x: Sample, i: nat)
    requires begin.Begin? && end.Complete? && Measures(targ, begin, end, x) && i < MAX_SLOTS - 1
    ensures var d, unit := Elapsed(begin.ts, end.ts), if targ.ms then 1_000_000 else 1000;
            Slot(x.latency) == i <==> Low(i) * unit <= d < (High(i) + 1) * unit
  {
    SlotIsPrinted(x.latency, i);
  }
}
