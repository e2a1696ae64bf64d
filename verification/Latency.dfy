/** The block latency histogram: slots by logarithm, the printer's bounds, and the tracing events. */
module Latency {
  import opened Wrappers

  const MAX_SLOTS: nat := 27
  const MAX_ENTRIES: nat := 10240
  const U32: nat := 0x1_0000_0000
  const U64: nat := 0x1_0000_0000_0000_0000

  function Pow2(n: nat): (r: nat)
    ensures r > 0
  {
    if n == 0 then 1 else 2 * Pow2(n - 1)
  }

  lemma {:induction false} Pow2Grows(a: nat, b: nat)
    requires a <= b
    ensures Pow2(a) <= Pow2(b)
    decreases b
  {
    if a < b { Pow2Grows(a, b - 1); }
  }

  /** r is the integer logarithm of v; 0 counts as 1. */
  ghost predicate FloorLog(v: nat, r: nat) {
    if v == 0 then r == 0 else Pow2(r) <= v < Pow2(r + 1)
  }

  lemma FloorLogUnique(v: nat, r: nat, s: nat)
    requires FloorLog(v, r) && FloorLog(v, s)
    ensures r == s
  {
    if r < s { Pow2Grows(r + 1, s); }
    if s < r { Pow2Grows(s + 1, r); }
  }

  /** The logarithm by halving. */
  function Log(v: nat): nat { if v < 2 then 0 else 1 + Log(v / 2) }

  lemma {:induction false} LogIsFloor(v: nat)
    ensures FloorLog(v, Log(v))
  {
    if v >= 2 { LogIsFloor(v / 2); }
  }

  /** v >> s. */
  function Shr(v: nat, s: nat): nat
    decreases s
  {
    if s == 0 then v else Shr(v / 2, s - 1)
  }

  /** Shifting by s takes s off the logarithm of a number that keeps a bit. */
  lemma {:induction false} LogShr(v: nat, s: nat)
    requires Shr(v, s) > 0
    ensures Log(v) == s + Log(Shr(v, s))
    decreases s
  {
    if s > 0 {
      LogShr(v / 2, s - 1);
      ShrAtMost(v / 2, s - 1);
    }
  }

  lemma {:induction false} ShrAtMost(v: nat, s: nat)
    ensures Shr(v, s) <= v
    decreases s
  {
    if s > 0 { ShrAtMost(v / 2, s - 1); }
  }

  lemma {:induction false} ShrAdds(v: nat, s: nat, t: nat)
    ensures Shr(v, s + t) == Shr(Shr(v, s), t)
    decreases s
  {
    if s > 0 { ShrAdds(v / 2, s - 1, t); }
  }

  lemma Shifts(v: nat)
    ensures Shr(v, 0) == v && Shr(v, 1) == v / 2 && Shr(v, 2) == v / 4
    ensures Shr(v, 4) == v / 0x10 && Shr(v, 8) == v / 0x100
  {
    assert Shr(v, 1) == Shr(v / 2, 0);
    ShrAdds(v, 1, 1);
    assert Shr(v / 2, 1) == Shr(v / 2 / 2, 0);
    ShrAdds(v, 2, 2);
    assert Shr(v / 4, 2) == Shr(v / 4 / 2, 1) == Shr(v / 4 / 2 / 2, 0);
    ShrAdds(v, 4, 4);
    var w := v / 16;
    assert Shr(w, 4) == Shr(w / 2, 3) == Shr(w / 2 / 2, 2) == Shr(w / 2 / 2 / 2, 1) == Shr(w / 2 / 2 / 2 / 2, 0);
  }

  lemma LongShifts(v: nat)
    ensures Shr(v, 16) == v / 0x1_0000 && Shr(v, 32) == v / U32
  {
    ShrAdds(v, 8, 8);
    Shifts(v);
    Shifts(v / 0x100);
    ShrAdds(v, 16, 16);
    var w := v / 0x1_0000;
    ShrAdds(w, 8, 8);
    Shifts(w);
    Shifts(w / 0x100);
  }

  /** One conditional shift: by s bits if anything is left above them. */
  method Narrow(v: nat, max: nat, s: nat) returns (w: nat, shift: nat)
    requires v > max ==> 0 < Shr(v, s) <= max
    ensures Log(v) == shift + Log(w) && (shift == 0 || shift == s) && w <= max
  {
    shift := if v > max then s else 0;
    w := Shr(v, shift);
    LogShrAny(v, shift);
  }

  lemma LogShrAny(v: nat, s: nat)
    requires s == 0 || Shr(v, s) > 0
    ensures Log(v) == s + Log(Shr(v, s))
  {
    if s > 0 { LogShr(v, s); }
  }

  /** Bitwise or. */
  function Or(x: nat, y: nat): nat
    decreases x + y
  {
    if x + y == 0 then 0 else (if x % 2 == 1 || y % 2 == 1 then 1 else 0) + 2 * Or(x / 2, y / 2)
  }

  lemma {:induction false} OrZero(x: nat)
    ensures Or(x, 0) == x
  {
    if x > 0 { OrZero(x / 2); }
  }

  /** The lowest `k` bits of `x` are 0. */
  predicate ClearBelow(x: nat, k: nat) { k == 0 || (x % 2 == 0 && ClearBelow(x / 2, k - 1)) }

  /** Numbers without a bit in common, one below and one from bit `k` on: their or is their sum. */
  lemma {:induction false} OrIsSum(x: nat, y: nat, k: nat)
    requires ClearBelow(x, k) && y < Pow2(k)
    ensures Or(x, y) == x + y
    decreases k
  {
    if k == 0 { OrZero(x); } else { OrIsSum(x / 2, y / 2, k - 1); }
  }

  lemma {:induction false} ZeroClear(k: nat)
    ensures ClearBelow(0, k)
  {
    if k > 0 { ZeroClear(k - 1); }
  }

  lemma {:induction false} BitClear(x: nat, k: nat)
    requires k > 0 && ClearBelow(x, k)
    ensures ClearBelow(x, k - 1) && ClearBelow(x + Pow2(k - 1), k - 1)
  {
    if k > 1 {
      BitClear(x / 2, k - 1);
      assert (x + Pow2(k - 1)) / 2 == x / 2 + Pow2(k - 2);
    }
  }

  /** Sets at most bit `k` - 1 in a number that has no bits below `k`. */
  method SetBit(r: nat, y: nat, ghost k: nat) returns (w: nat)
    requires k > 0 && ClearBelow(r, k) && (y == 0 || y == Pow2(k - 1))
    ensures w == r + y && ClearBelow(w, k - 1)
  {
    OrIsSum(r, y, k);
    BitClear(r, k);
    w := Or(r, y);
  }

  lemma SmallPowers()
    ensures Pow2(0) == 1 && Pow2(1) == 2 && Pow2(2) == 4 && Pow2(3) == 8 && Pow2(4) == 16
  {
  }

  /** log2 of a 32-bit number. */
  method Log2(v0: nat) returns (r: nat)
    requires v0 < U32
    ensures r == Log(v0) < 32
  {
    LongShifts(v0);
    var v, shift;
    v, r := Narrow(v0, 0xFFFF, 16);
    Shifts(v);
    v, shift := Narrow(v, 0xFF, 8);
    SmallPowers();
    ZeroClear(5);
    BitClear(0, 5);
    r := SetBit(r, shift, 4);
    Shifts(v);
    v, shift := Narrow(v, 0xF, 4);
    r := SetBit(r, shift, 3);
    Shifts(v);
    v, shift := Narrow(v, 0x3, 2);
    r := SetBit(r, shift, 2);
    r := SetBit(r, v / 2, 1);
  }

  /** log2l of a 64-bit number. */
  method Log2l(v: nat) returns (r: nat)
    requires v < U64
    ensures r == Log(v) < 64
  {
    LongShifts(v);
    var hi := v / U32;
    if hi != 0 {
      LogShr(v, 32);
      r := Log2(hi);
      r := r + 32;
    } else {
      r := Log2(v);
    }
  }

  /** The slot of a scaled latency. */
  function Slot(d: nat): nat { if Log(d) >= MAX_SLOTS then MAX_SLOTS - 1 else Log(d) }

  /** The bounds printed for a slot; slot 0 also shows 0. */
  function Low(i: nat): nat { if Pow2(i + 1) / 2 == Pow2(i + 1) - 1 then Pow2(i + 1) / 2 - 1 else Pow2(i + 1) / 2 }
  function High(i: nat): nat { Pow2(i + 1) - 1 }

  lemma Bounds(i: nat)
    ensures High(i) == 2 * Pow2(i) - 1 && Low(i) == if i == 0 then 0 else Pow2(i)
  {
    if i > 0 { assert Pow2(i) == 2 * Pow2(i - 1); }
  }

  /** Histogram and printer agree: a latency is counted in exactly the slot whose printed bounds
      contain it, the top slot also taking everything above its upper bound. */
  lemma SlotIsPrinted(d: nat, i: nat)
    requires i < MAX_SLOTS
    ensures Slot(d) < MAX_SLOTS
    ensures Slot(d) == i <==> Low(i) <= d && (d <= High(i) || i == MAX_SLOTS - 1)
  {
    LogIsFloor(d);
    Bounds(i);
    assert Pow2(1) == 2 * Pow2(0) == 2;
    var r := Log(d);
    if d == 0 {
      if i > 0 { Pow2Grows(0, i); }
    } else {
      if r < i { Pow2Grows(r + 1, i); }
      if i < r { Pow2Grows(i + 1, r); }
    }
  }

  type Req = nat

  datatype Key = Key(cmdFlags: nat, dev: nat)

  /** The load-time constants. */
  datatype Targ = Targ(perDisk: bool, perFlag: bool, queued: bool, ms: bool, filterDev: bool, dev: nat)

  /** What reaches the program: a request is inserted or issued, or completes. `dev` is the number of
      the request's disk, 0 without one; times are those of the monotonic clock. */
  datatype Event =
    | Begin(rq: Req, ts: nat, issue: bool, elevator: bool, dev: nat)
    | Complete(rq: Req, ts: nat, dev: nat, cmdFlags: nat)

  /** A begin event is accepted unless queueing is measured from the insertion or the disk is
      filtered out. */
  predicate Accepted(targ: Targ, e: Event)
    requires e.Begin?
  {
    !(e.issue && targ.queued && e.elevator) && !(targ.filterDev && targ.dev != e.dev)
  }

  /** The last accepted begin of `rq` that no completion has followed. */
  function Open(targ: Targ, events: seq<Event>, rq: Req): Option<nat> {
    if events == [] then None
    else
      var e := events[|events| - 1];
      if e.rq == rq && e.Complete? then None
      else if e.rq == rq && e.Begin? && Accepted(targ, e) then Some(e.ts)
      else Open(targ, events[..|events| - 1], rq)
  }

  /** (s64)(end - begin) on u64 clocks. */
  function Delta(end: nat, begin: nat): int {
    var d := (end - begin) % U64;
    if d < U64 / 2 then d else d - U64
  }

  function KeyOf(targ: Targ, e: Event): Key
    requires e.Complete?
  {
    Key(if targ.perFlag then e.cmdFlags else 0, if targ.perDisk then e.dev else 0)
  }

  function Scaled(targ: Targ, d: nat): nat { if targ.ms then d / 1000000 else d / 1000 }

  datatype Sample = Sample(key: Key, latency: nat)

  /** One sample for every completion that matches an open begin with a non-negative delta. */
  function Samples(targ: Targ, events: seq<Event>): seq<Sample> {
    if events == [] then []
    else
      var before, e := events[..|events| - 1], events[|events| - 1];
      Samples(targ, before) +
      if e.Complete? && Open(targ, before, e.rq).Some? && Delta(e.ts, Open(targ, before, e.rq).value) >= 0
      then [Sample(KeyOf(targ, e), Scaled(targ, Delta(e.ts, Open(targ, before, e.rq).value)))]
      else []
  }

  function CountSlot(samples: seq<Sample>, key: Key, slot: nat): nat {
    if samples == [] then 0
    else
      var x := samples[|samples| - 1];
      CountSlot(samples[..|samples| - 1], key, slot) + if x.key == key && Slot(x.latency) == slot then 1 else 0
  }

  function CountKey(samples: seq<Sample>, key: Key): nat {
    if samples == [] then 0
    else CountKey(samples[..|samples| - 1], key) + if samples[|samples| - 1].key == key then 1 else 0
  }

  function SumSlots(samples: seq<Sample>, key: Key, n: nat): nat {
    if n == 0 then 0 else SumSlots(samples, key, n - 1) + CountSlot(samples, key, n - 1)
  }

  lemma {:induction false} SumSlotsSnoc(samples: seq<Sample>, key: Key, n: nat)
    requires samples != []
    ensures var x := samples[|samples| - 1];
            SumSlots(samples, key, n) == SumSlots(samples[..|samples| - 1], key, n)
              + if x.key == key && Slot(x.latency) < n then 1 else 0
    decreases n
  {
    if n > 0 { SumSlotsSnoc(samples, key, n - 1); }
  }

  lemma {:induction false} SumSlotsNone(key: Key, n: nat)
    ensures SumSlots([], key, n) == 0
    decreases n
  {
    if n > 0 { SumSlotsNone(key, n - 1); }
  }

  /** Every sample is in exactly one slot: the slots of a histogram add up to its samples. */
  lemma {:induction false} SlotTotal(samples: seq<Sample>, key: Key)
    ensures SumSlots(samples, key, MAX_SLOTS) == CountKey(samples, key)
  {
    if samples == [] {
      SumSlotsNone(key, MAX_SLOTS);
    } else {
      SumSlotsSnoc(samples, key, MAX_SLOTS);
      SlotTotal(samples[..|samples| - 1], key);
    }
  }

  /** The number of samples that lie in the bounds printed for a slot. */
  function CountPrinted(samples: seq<Sample>, key: Key, i: nat): nat {
    if samples == [] then 0
    else
      var x := samples[|samples| - 1];
      CountPrinted(samples[..|samples| - 1], key, i) +
      if x.key == key && Low(i) <= x.latency && (x.latency <= High(i) || i == MAX_SLOTS - 1) then 1 else 0
  }

  lemma {:induction false} CountsArePrinted(samples: seq<Sample>, key: Key, i: nat)
    requires i < MAX_SLOTS
    ensures CountSlot(samples, key, i) == CountPrinted(samples, key, i)
  {
    if samples != [] {
      SlotIsPrinted(samples[|samples| - 1].latency, i);
      CountsArePrinted(samples[..|samples| - 1], key, i);
    }
  }

  lemma {:induction false} NoneOfKey(samples: seq<Sample>, key: Key, i: nat)
    requires CountKey(samples, key) == 0
    ensures CountSlot(samples, key, i) == 0
  {
    if samples != [] { NoneOfKey(samples[..|samples| - 1], key, i); }
  }

  const ZEROES: seq<nat> := seq(MAX_SLOTS, _ => 0)

  ghost predicate HistsHold(hists: map<Key, seq<nat>>, samples: seq<Sample>) {
    && (forall k :: k in hists <==> CountKey(samples, k) > 0)
    && (forall k | k in hists :: |hists[k]| == MAX_SLOTS
          && forall i | 0 <= i < MAX_SLOTS :: hists[k][i] == CountSlot(samples, k, i) % U32)
  }

  function Bumped(h: seq<nat>, slot: nat): seq<nat>
    requires slot < |h|
  {
    h[slot := (h[slot] + 1) % U32]
  }

  /** Counting a sample in the histogram of its key, made on first use, keeps the counters right. */
  lemma SampleCounted(hists: map<Key, seq<nat>>, samples: seq<Sample>, x: Sample)
    requires HistsHold(hists, samples)
    ensures Slot(x.latency) < MAX_SLOTS
    ensures HistsHold(hists[x.key := Bumped(if x.key in hists then hists[x.key] else ZEROES, Slot(x.latency))],
                      samples + [x])
  {
    SlotIsPrinted(x.latency, 0);
    var h := if x.key in hists then hists[x.key] else ZEROES;
    var after := hists[x.key := Bumped(h, Slot(x.latency))];
    forall i: nat | i < MAX_SLOTS ensures h[i] == CountSlot(samples, x.key, i) % U32 {
      if x.key !in hists { NoneOfKey(samples, x.key, i); }
    }
    forall k ensures k in after <==> CountKey(samples + [x], k) > 0 { CountSnoc(samples, x, k, 0); }
    forall k, i: nat | k in after && i < MAX_SLOTS ensures after[k][i] == CountSlot(samples + [x], k, i) % U32 {
      CountSnoc(samples, x, k, i);
      Modulo(CountSlot(samples, k, i));
    }
  }

  lemma CountSnoc(samples: seq<Sample>, x: Sample, k: Key, i: nat)
    ensures CountKey(samples + [x], k) == CountKey(samples, k) + if x.key == k then 1 else 0
    ensures CountSlot(samples + [x], k, i)
         == CountSlot(samples, k, i) + if x.key == k && Slot(x.latency) == i then 1 else 0
  {
    assert (samples + [x])[..|samples|] == samples;
  }

  lemma Modulo(c: nat)
    ensures (c % U32 + 1) % U32 == (c + 1) % U32
  {
  }

  /** The map holds exactly the open requests, each with the time of its begin. */
  ghost predicate StartsHold(targ: Targ, events: seq<Event>, start: map<Req, nat>) {
    forall rq :: Open(targ, events, rq) == if rq in start then Some(start[rq]) else None
  }

  lemma BeginSeen(targ: Targ, events: seq<Event>, start: map<Req, nat>, e: Event)
    requires StartsHold(targ, events, start) && e.Begin?
    ensures StartsHold(targ, events + [e], if Accepted(targ, e) then start[e.rq := e.ts] else start)
    ensures Samples(targ, events + [e]) == Samples(targ, events)
  {
    assert (events + [e])[..|events|] == events;
  }

  lemma CompleteSeen(targ: Targ, events: seq<Event>, start: map<Req, nat>, e: Event)
    requires StartsHold(targ, events, start) && e.Complete?
    ensures StartsHold(targ, events + [e], start - {e.rq})
    ensures Samples(targ, events + [e]) == Samples(targ, events) +
              if e.rq in start && Delta(e.ts, start[e.rq]) >= 0
              then [Sample(KeyOf(targ, e), Scaled(targ, Delta(e.ts, start[e.rq])))] else []
  {
    assert (events + [e])[..|events|] == events;
  }

  /** The tracing program with its two maps. Updates of a full map are refused; `refused` records
      that this has happened. */
  class BioLatency {
    const targ: Targ
    var start: map<Req, nat>
    var hists: map<Key, seq<nat>>
    ghost var events: seq<Event>
    ghost var refused: bool

    /** Over the whole run: the start map holds a request exactly when an accepted begin has occurred
        since its last completion; a histogram exists for exactly the keys with samples, and each of
        its counters is the number of samples in its slot, modulo 2^32. */
    ghost predicate Valid()
      reads this
    {
      && (forall k | k in hists :: |hists[k]| == MAX_SLOTS)
      && (!refused ==>
        && StartsHold(targ, events, start)
        && HistsHold(hists, Samples(targ, events)))
    }

    constructor (targ: Targ)
      ensures Valid() && !refused && events == [] && this.targ == targ && start == map[] && hists == map[]
    {
      this.targ := targ;
      start, hists, events, refused := map[], map[], [], false;
    }

    /** trace_rq_start. */
    method TraceRqStart(e: Event)
      requires Valid() && e.Begin?
      modifies this
      ensures Valid() && events == old(events) + [e] && hists == old(hists)
      ensures refused ==> old(refused) || |old(start)| >= MAX_ENTRIES
    {
      if !refused { BeginSeen(targ, events, start, e); }
      events := events + [e];
      if e.issue && targ.queued && e.elevator { return; }
      if targ.filterDev && targ.dev != e.dev { return; }
      if e.rq in start || |start| < MAX_ENTRIES {
        start := start[e.rq := e.ts];
      } else {
        refused := true;
      }
    }

    /** The histogram of a key, made on first use. */
    method FindHist(key: Key) returns (ok: bool)
      modifies this`hists, this`refused
      ensures ok <==> key in hists
      ensures if key in old(hists) then hists == old(hists) && refused == old(refused)
              else if |old(hists)| < MAX_ENTRIES then hists == old(hists)[key := ZEROES] && refused == old(refused)
              else hists == old(hists) && refused
    {
      if key in hists { return true; }
      if |hists| < MAX_ENTRIES {
        hists := hists[key := ZEROES];
        return true;
      }
      refused := true;
      return false;
    }

    /** Adds a sample to the histogram of its key. */
    method Count(key: Key, scaled: nat, ghost samples: seq<Sample>)
      requires scaled < U64
      requires forall k | k in hists :: |hists[k]| == MAX_SLOTS
      requires !refused ==> HistsHold(hists, samples)
      modifies this`hists, this`refused
      ensures forall k | k in hists :: |hists[k]| == MAX_SLOTS
      ensures !refused ==> !old(refused) && HistsHold(hists, samples + [Sample(key, scaled)])
      ensures refused ==> old(refused) || |old(hists)| >= MAX_ENTRIES
    {
      if !refused { SampleCounted(hists, samples, Sample(key, scaled)); }
      var found := FindHist(key);
      if found {
        var slot := Log2l(scaled);
        if slot >= MAX_SLOTS { slot := MAX_SLOTS - 1; }
        hists := hists[key := Bumped(hists[key], slot)];
      }
    }

    /** block_rq_complete. */
    method BlockRqComplete(e: Event)
      requires Valid() && e.Complete?
      modifies this
      ensures Valid() && events == old(events) + [e] && start == old(start) - {e.rq}
      ensures refused ==> old(refused) || |old(hists)| >= MAX_ENTRIES
    {
      ghost var before := events;
      if !refused { CompleteSeen(targ, events, start, e); }
      events := events + [e];
      if e.rq !in start {
        assert start - {e.rq} == start && Samples(targ, before) + [] == Samples(targ, before);
        return;
      }
      var delta := Delta(e.ts, start[e.rq]);
      if delta >= 0 {
        var key := KeyOf(targ, e);
        var scaled := Scaled(targ, delta);
        Count(key, scaled, Samples(targ, before));
      }
      start := start - {e.rq};
    }
  }

  function Sum(h: seq<nat>): nat {
    if h == [] then 0 else Sum(h[..|h| - 1]) + h[|h| - 1]
  }

  lemma {:induction false} SumIsSlots(h: seq<nat>, samples: seq<Sample>, key: Key)
    requires forall i | 0 <= i < |h| :: h[i] == CountSlot(samples, key, i)
    ensures Sum(h) == SumSlots(samples, key, |h|)
  {
    if h != [] { SumIsSlots(h[..|h| - 1], samples, key); }
  }

  /** While no counter has reached 2^32, what is shown is the truth: each counter is the number of
      samples within its printed bounds, and a histogram adds up to its matched completions. */
  lemma HistogramIsTrue(hists: map<Key, seq<nat>>, samples: seq<Sample>, key: Key)
    requires HistsHold(hists, samples) && key in hists
    requires CountKey(samples, key) < U32
    ensures forall i | 0 <= i < MAX_SLOTS :: hists[key][i] == CountPrinted(samples, key, i)
    ensures Sum(hists[key]) == CountKey(samples, key)
  {
    forall i: nat | i < MAX_SLOTS
      ensures hists[key][i] == CountSlot(samples, key, i) && hists[key][i] == CountPrinted(samples, key, i)
    {
      SlotAtMostKey(samples, key, i);
      CountsArePrinted(samples, key, i);
    }
    SumIsSlots(hists[key], samples, key);
    SlotTotal(samples, key);
  }

  lemma {:induction false} SlotAtMostKey(samples: seq<Sample>, key: Key, i: nat)
    ensures CountSlot(samples, key, i) <= CountKey(samples, key)
  {
    if samples != [] { SlotAtMostKey(samples[..|samples| - 1], key, i); }
  }

  datatype Row = Row(low: nat, high: nat, count: nat)

  /** print_log2_hist: rows from slot 0 to the last one in use; no row when none is. The shifts of
      the 64-bit one need fewer than 64 slots. */
  method PrintLog2Hist(vals: seq<nat>) returns (rows: seq<Row>, valMax: nat)
    requires |vals| < 64
    ensures |rows| <= |vals|
    ensures forall i | 0 <= i < |rows| :: rows[i] == Row(Low(i), High(i), vals[i])
    ensures forall i | |rows| <= i < |vals| :: vals[i] == 0
    ensures rows != [] ==> vals[|rows| - 1] > 0 && valMax in vals && forall v | v in vals :: v <= valMax
  {
    var idxMax := -1;
    valMax := 0;
    for i := 0 to |vals|
      invariant -1 <= idxMax < i && (idxMax >= 0 ==> vals[idxMax] > 0)
      invariant forall j | idxMax < j < i :: vals[j] == 0
      invariant forall j | 0 <= j < i :: vals[j] <= valMax
      invariant valMax > 0 ==> valMax in vals
      invariant idxMax >= 0 ==> valMax > 0
    {
      if vals[i] > 0 { idxMax := i; }
      if vals[i] > valMax { valMax := vals[i]; }
    }
    rows := [];
    if idxMax < 0 { return; }
    for i := 0 to idxMax + 1
      invariant |rows| == i && forall j | 0 <= j < i :: rows[j] == Row(Low(j), High(j), vals[j])
    {
      var low := Pow2(i + 1) / 2;
      var high := Pow2(i + 1) - 1;
      if low == high { low := low - 1; }
      rows := rows + [Row(low, high, vals[i])];
    }
  }
}
