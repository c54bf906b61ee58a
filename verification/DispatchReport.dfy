/**
 * The measured report: replacing wall proxies by upper bounds (`measure`), joining
 * them to the native event log (`verify_events`, both in
 * qualification/section-16/dispatch.py), and the Linux observer's derived intervals
 * (qualification/section-16/linux_dispatch.py, lines 43-63).
 */
module DispatchReport {
  import opened Wrappers
  import opened OrderStatistics
  import opened Dispatch

  /** The helper's own view of the state it observed. */
  datatype State = State(search: Ack, browserFocus: Ack, query: string, focusKey: int)

  /** One kind of input as the helper measured it; times in nanoseconds. */
  datatype Cohort = Cohort(
    samples: seq<Sample>, states: seq<State>, times: seq<int>, p95: int,
    observerWall: seq<int>, observerWallP95: int, bounds: Option<Bounds>)

  function Seen(state: State, kind: string): Ack { if kind == SEARCH then state.search else state.browserFocus }

  predicate Witnessed(s: Sample, state: State, row: Row, wall: int, kind: string) {
    && Seen(state, kind) == s.ack
    && wall == row.wall
    && (kind == SEARCH ==> state.query == s.ack.query)
    && (kind == BROWSER_FOCUS ==> state.focusKey == 31)
  }

  /** The wall times are complete and their retained percentile is theirs. */
  predicate RetainedWalls(c: Cohort) {
    && |c.times| == COHORT && |c.states| == COHORT && (forall i :: 0 <= i < COHORT ==> c.times[i] >= 0)
    && c.p95 == Ranked(c.times, P95)
  }

  /** Every retained state and wall time agrees with its sample. */
  predicate AllWitnessed(c: Cohort, rows: seq<Row>, kind: string)
    requires |c.times| == |c.states| == |c.samples| == |rows|
  {
    forall i :: 0 <= i < |rows| ==> Witnessed(c.samples[i], c.states[i], rows[i], c.times[i], kind)
  }

  /** What `measure` demands of one cohort. */
  predicate Measurable(c: Cohort, clocks: seq<Clock>, kind: string) {
    Accepted(c.samples, clocks, kind) && RetainedWalls(c) && AllWitnessed(c, BoundsOf(c.samples, clocks).rows, kind)
  }

  /** The cohort once its wall times are replaced by the conservative upper bounds. */
  function Replaced(c: Cohort, b: Bounds): Cohort {
    c.(times := Uppers(b.rows), p95 := b.p95Upper, observerWall := c.times, observerWallP95 := b.wallP95,
       bounds := Some(b))
  }

  function MeasureOf(c: Cohort, clocks: seq<Clock>, kind: string): Option<Cohort> {
    if Measurable(c, clocks, kind) then Some(Replaced(c, BoundsOf(c.samples, clocks))) else None
  }

  datatype Report = Report(input: Cohort, pointer: Cohort, version: int)

  /** The report `measure` leaves and whether it returned: a refusal of the second cohort keeps the first replaced. */
  function MeasuredReport(report: Report, clocks: seq<Clock>): (Report, bool) {
    match MeasureOf(report.input, clocks, SEARCH)
    case None => (report, false)
    case Some(input) =>
      match MeasureOf(report.pointer, clocks, BROWSER_FOCUS)
      case None => (report.(input := input), false)
      case Some(pointer) => (Report(input, pointer, 3), true)
  }

  class Measured {
    var report: Report
    const clocks: seq<Clock>

    constructor (report: Report, clocks: seq<Clock>)
      ensures this.report == report && this.clocks == clocks
    {
      this.report, this.clocks := report, clocks;
    }

    method Measure() returns (ok: bool)
      modifies this`report
      ensures (report, ok) == MeasuredReport(old(report), clocks)
    {
      var input := MeasureCohort(report.input, clocks, SEARCH);
      if input.None? {
        return false;
      }
      report := report.(input := input.value);
      var pointer := MeasureCohort(report.pointer, clocks, BROWSER_FOCUS);
      if pointer.None? {
        return false;
      }
      report := report.(pointer := pointer.value);
      report := report.(version := 3);
      return true;
    }
  }

  method MeasureCohort(c: Cohort, clocks: seq<Clock>, kind: string) returns (r: Option<Cohort>)
    ensures r == MeasureOf(c, clocks, kind)
  {
    var result := ComputeBounds(c.samples, clocks, kind);
    if result.Failure? {
      return None;
    }
    var retained := CheckWalls(c);
    if !retained {
      return None;
    }
    var witnessed := CheckWitnesses(c, result.value.rows, kind);
    return if witnessed then Some(Replaced(c, result.value)) else None;
  }

  method CheckWalls(c: Cohort) returns (ok: bool)
    ensures ok <==> RetainedWalls(c)
  {
    if |c.times| != COHORT || |c.states| != COHORT || exists i :: 0 <= i < |c.times| && c.times[i] < 0 {
      return false;
    }
    return c.p95 == Ranked(c.times, P95);
  }

  /** The loop over samples, states, rows and wall times. */
  method CheckWitnesses(c: Cohort, rows: seq<Row>, kind: string) returns (ok: bool)
    requires |c.times| == |c.states| == |c.samples| == |rows|
    ensures ok <==> AllWitnessed(c, rows, kind)
  {
    for i := 0 to |rows|
      invariant forall j :: 0 <= j < i ==> Witnessed(c.samples[j], c.states[j], rows[j], c.times[j], kind)
    {
      if !Witnessed(c.samples[i], c.states[i], rows[i], c.times[i], kind) {
        return false;
      }
    }
    return true;
  }

  /** The report's acceptance gate: a retained percentile of retained times, at most the limit. */
  predicate Gate(c: Cohort, limit: int) {
    |c.times| == COHORT && c.p95 == Ranked(c.times, P95) && c.p95 <= limit
  }

  /**
   * A cohort that was measured and then passes the gate really meets it: for every offset
   * the data allow, the true p95 is within the limit. The replaced cohort always passes
   * the gate's consistency half, and is never slower than the observer's wall times.
   */
  lemma GateIsSound(c: Cohort, clocks: seq<Clock>, kind: string, limit: int, offset: int)
    requires Measurable(c, clocks, kind) && Explains(offset, c.samples, clocks)
    ensures var m := Replaced(c, BoundsOf(c.samples, clocks));
            && |m.times| == COHORT && m.p95 == Ranked(m.times, P95) && m.p95 <= Ranked(m.observerWall, P95)
            && (Gate(m, limit) ==> Ranked(Latencies(offset, c.samples), P95) <= limit)
  {
    var b := BoundsOf(c.samples, clocks);
    AcceptanceIsSound(c.samples, clocks, kind, offset);
    assert Walls(b.rows) == c.times by {
      forall i | 0 <= i < COHORT ensures Walls(b.rows)[i] == c.times[i] {
        assert Witnessed(c.samples[i], c.states[i], b.rows[i], c.times[i], kind);
      }
    }
  }

  /**
   * A report that `measure` accepted and that passes both gates meets both: the true p95 of
   * each kind of input is within the limit, for every offset its data allow.
   */
  lemma MeasuredGatesAreSound(report: Report, clocks: seq<Clock>, limit: int, inputOffset: int, pointerOffset: int)
    requires MeasuredReport(report, clocks).1
    requires Explains(inputOffset, report.input.samples, clocks) && Explains(pointerOffset, report.pointer.samples, clocks)
    ensures var measured := MeasuredReport(report, clocks).0;
            Gate(measured.input, limit) && Gate(measured.pointer, limit) ==>
              && Ranked(Latencies(inputOffset, report.input.samples), P95) <= limit
              && Ranked(Latencies(pointerOffset, report.pointer.samples), P95) <= limit
  {
    GateIsSound(report.input, clocks, SEARCH, limit, inputOffset);
    GateIsSound(report.pointer, clocks, BROWSER_FOCUS, limit, pointerOffset);
  }

  /** The gate by counting: at least 61 of the 64 true latencies are within the limit. */
  lemma GateCounts(c: Cohort, clocks: seq<Clock>, kind: string, limit: int, offset: int)
    requires Measurable(c, clocks, kind) && Explains(offset, c.samples, clocks)
    requires Gate(Replaced(c, BoundsOf(c.samples, clocks)), limit)
    ensures |Latencies(offset, c.samples)| == 64 && Count(Latencies(offset, c.samples), limit) >= 61
  {
    GateIsSound(c, clocks, kind, limit, offset);
    RankedMeaning(Latencies(offset, c.samples), 60, limit);
  }

  lemma MeasuredGatesCount(report: Report, clocks: seq<Clock>, limit: int, inputOffset: int, pointerOffset: int)
    requires MeasuredReport(report, clocks).1
    requires Explains(inputOffset, report.input.samples, clocks) && Explains(pointerOffset, report.pointer.samples, clocks)
    requires Gate(MeasuredReport(report, clocks).0.input, limit) && Gate(MeasuredReport(report, clocks).0.pointer, limit)
    ensures Count(Latencies(inputOffset, report.input.samples), limit) >= 61
    ensures Count(Latencies(pointerOffset, report.pointer.samples), limit) >= 61
  {
    GateCounts(report.input, clocks, "search", limit, inputOffset);
    GateCounts(report.pointer, clocks, "browser-focus", limit, pointerOffset);
  }

  /** The percentile of 64 values: at most y exactly when more than 60 of them are. */
  ghost predicate IsPercentile(p: int, s: seq<int>) { forall y :: p <= y <==> Count(s, y) > 60 }

  lemma PercentileIs(p: int, s: seq<int>)
    requires |s| == 64
    ensures p == Ranked(s, 60) <==> IsPercentile(p, s)
  {
    var r := Ranked(s, 60);
    forall y ensures r <= y <==> Count(s, y) > 60 {
      RankedMeaning(s, 60, y);
    }
    if IsPercentile(p, s) {
      assert Count(s, p) > 60 && Count(s, r) > 60;
    }
  }

  /** The gate: 64 times, their percentile, and that at most the limit. */
  lemma GateMeans(c: Cohort, limit: int)
    ensures Gate(c, limit) <==> |c.times| == 64 && IsPercentile(c.p95, c.times) && c.p95 < limit + 1
  {
    if |c.times| == 64 {
      PercentileIs(c.p95, c.times);
    }
  }

  /** Sample i was observed by its own state after its own wall time. */
  predicate PlainWitness(c: Cohort, i: nat, kind: string)
    requires i < |c.samples| && i < |c.states| && i < |c.times|
  {
    var s, state := c.samples[i], c.states[i];
    && 0 <= c.times[i] == s.observed - s.start
    && (kind == "search" ==> state.search == s.ack && state.query == s.ack.query)
    && (kind == "browser-focus" ==> state.browserFocus == s.ack && state.focusKey == 31)
  }

  lemma PlainWitnessIs(c: Cohort, i: nat, lo: int, hi: int, kind: string)
    requires kind == "search" || kind == "browser-focus"
    requires i < |c.samples| && i < |c.states| && i < |c.times|
    ensures PlainWitness(c, i, kind) <==>
            c.times[i] >= 0 && Witnessed(c.samples[i], c.states[i], RowOf(c.samples[i], lo, hi), c.times[i], kind)
  {
  }

  predicate AllPlain(c: Cohort, kind: string)
    requires |c.samples| == |c.states| == |c.times|
  {
    forall i :: 0 <= i < |c.samples| ==> PlainWitness(c, i, kind)
  }

  lemma AllPlainIs(c: Cohort, lo: int, hi: int, kind: string)
    requires kind == "search" || kind == "browser-focus"
    requires |c.samples| == |c.states| == |c.times|
    ensures AllPlain(c, kind) <==>
            (forall i :: 0 <= i < |c.times| ==> c.times[i] >= 0) && AllWitnessed(c, Rows(c.samples, lo, hi), kind)
  {
    var rows := Rows(c.samples, lo, hi);
    forall i | 0 <= i < |c.samples|
      ensures PlainWitness(c, i, kind) <==>
              c.times[i] >= 0 && Witnessed(c.samples[i], c.states[i], rows[i], c.times[i], kind)
    {
      PlainWitnessIs(c, i, lo, hi, kind);
    }
  }

  /** What one cohort must be like to be measured. */
  lemma MeasurableMeans(c: Cohort, clocks: seq<Clock>, kind: string)
    requires kind == "search" || kind == "browser-focus"
    ensures Measurable(c, clocks, kind) <==>
            && Accepted(c.samples, clocks, kind) && |c.times| == 64 && |c.states| == 64
            && IsPercentile(c.p95, c.times) && AllPlain(c, kind)
  {
    if Accepted(c.samples, clocks, kind) && |c.times| == 64 && |c.states| == 64 {
      PercentileIs(c.p95, c.times);
      AllPlainIs(c, Lowest(clocks), Highest(clocks), kind);
    }
  }

  /**
   * `measure` succeeds when both cohorts are measurable and then sets version 3; each
   * measured cohort has the upper bounds as its times, and keeps the observer's.
   */
  lemma MeasuredMeans(report: Report, clocks: seq<Clock>)
    ensures var (after, ok) := MeasuredReport(report, clocks);
            var first := Measurable(report.input, clocks, "search");
            && (ok <==> first && Measurable(report.pointer, clocks, "browser-focus"))
            && after.version == (if ok then 3 else report.version)
            && (if first then IsMeasured(after.input, report.input, clocks) else after.input == report.input)
            && (if ok then IsMeasured(after.pointer, report.pointer, clocks) else after.pointer == report.pointer)
  {
  }

  predicate IsMeasured(after: Cohort, before: Cohort, clocks: seq<Clock>) {
    && after.samples == before.samples && after.states == before.states
    && after.observerWall == before.times
    && |before.samples| == 64 && clocks != []
    && var b := BoundsOf(before.samples, clocks);
       && after.bounds == Some(b) && after.p95 == b.p95Upper && after.observerWallP95 == b.wallP95
       && |after.times| == 64 && forall i :: 0 <= i < 64 ==> after.times[i] == b.rows[i].upper
  }

  // ---------------------------------------------------------------- the event log

  function CountKind(events: seq<Ack>, kind: string): nat {
    if events == [] then 0
    else CountKind(events[..|events| - 1], kind) + if events[|events| - 1].kind == kind then 1 else 0
  }

  /** An event carries the next number of its kind, and no earlier time than the one before it. */
  predicate NextEvent(before: seq<Ack>, e: Ack) {
    && (e.kind == SEARCH || e.kind == BROWSER_FOCUS)
    && Bounded(e.sequence) && e.sequence == CountKind(before, e.kind) + 1
    && Bounded(e.native) && (before != [] ==> before[|before| - 1].native <= e.native)
  }

  predicate Ordered(events: seq<Ack>) {
    var last := |events| - 1;
    events == [] || (Ordered(events[..last]) && NextEvent(events[..last], events[last]))
  }

  predicate CompleteLog(events: seq<Ack>) {
    106 <= |events| <= 4096 && Ordered(events) && CountKind(events, SEARCH) == 106
  }

  predicate AllLogged(samples: seq<Sample>, events: seq<Ack>) {
    forall i :: 0 <= i < |samples| ==> samples[i].ack in events
  }

  type Witnesses = map<(string, int), Ack>

  method VerifyEvents(input: seq<Sample>, pointer: seq<Sample>, events: seq<Ack>) returns (ok: bool)
    ensures ok <==> CompleteLog(events) && AllLogged(input, events) && AllLogged(pointer, events)
  {
    if !(106 <= |events| <= 4096) {
      return false;
    }
    var log := ReadLog(events);
    if log.None? || log.value.counters[SEARCH] != 106 {
      return false;
    }
    var first := AllJoined(input, log.value.witnesses, events);
    if !first {
      return false;
    }
    ok := AllJoined(pointer, log.value.witnesses, events);
  }

  /** The counters, the last time and the witnesses of the events read so far. */
  datatype Log = Log(counters: map<string, nat>, prior: int, witnesses: Witnesses)

  predicate LogOf(log: Log, events: seq<Ack>) {
    && log.counters.Keys == {SEARCH, BROWSER_FOCUS}
    && (forall k :: k in log.counters ==> log.counters[k] == CountKind(events, k))
    && log.prior == (if events == [] then 0 else events[|events| - 1].native)
    && Indexed(log.witnesses, events)
  }

  /** The loop over the events. */
  method ReadLog(events: seq<Ack>) returns (r: Option<Log>)
    ensures r.Some? <==> Ordered(events)
    ensures r.Some? ==> LogOf(r.value, events)
  {
    var log := Log(map[SEARCH := 0, BROWSER_FOCUS := 0], 0, map[]);
    for i := 0 to |events|
      invariant Ordered(events[..i]) && LogOf(log, events[..i])
    {
      assert events[..i + 1] == events[..i] + [events[i]];
      var next := ReadEvent(log, events[i], events[..i]);
      if next.None? {
        OrderedPrefix(events, i + 1);
        return None;
      }
      log := next.value;
    }
    assert events[..|events|] == events;
    return Some(log);
  }

  method ReadEvent(log: Log, e: Ack, ghost events: seq<Ack>) returns (r: Option<Log>)
    requires Ordered(events) && LogOf(log, events)
    ensures r.Some? <==> Ordered(events + [e])
    ensures r.Some? ==> LogOf(r.value, events + [e])
  {
    assert (events + [e])[..|events|] == events;
    if e.kind !in log.counters || !Bounded(e.sequence) || e.sequence != log.counters[e.kind] + 1
       || !Bounded(e.native) || e.native < log.prior {
      return None;
    }
    IndexedNext(log.witnesses, events, e);
    return Some(Log(log.counters[e.kind := log.counters[e.kind] + 1], e.native,
                    log.witnesses[(e.kind, e.sequence) := e]));
  }

  lemma {:induction false} OrderedPrefix(events: seq<Ack>, n: nat)
    requires n <= |events|
    ensures Ordered(events) ==> Ordered(events[..n])
  {
    if n < |events| {
      OrderedPrefix(events[..|events| - 1], n);
      assert events[..|events| - 1][..n] == events[..n];
    } else {
      assert events[..n] == events;
    }
  }

  lemma OrderedAt(events: seq<Ack>, i: nat)
    requires Ordered(events) && i < |events|
    ensures NextEvent(events[..i], events[i])
  {
    OrderedPrefix(events, i + 1);
    assert events[..i + 1][..i] == events[..i];
  }

  /** An event's number counts the events of its kind up to it. */
  lemma NumberCounts(events: seq<Ack>, i: nat)
    requires Ordered(events) && i < |events|
    ensures events[i].sequence == CountKind(events[..i + 1], events[i].kind)
  {
    OrderedAt(events, i);
    assert events[..i + 1][..i] == events[..i];
  }

  /** No two events share a kind and number. */
  lemma NumberIsNew(events: seq<Ack>, e: Ack, i: nat)
    requires Ordered(events) && NextEvent(events, e) && i < |events|
    ensures (events[i].kind, events[i].sequence) != (e.kind, e.sequence)
  {
    NumberCounts(events, i);
    CountKindGrows(events, e.kind, i + 1, |events|);
    assert events[..|events|] == events;
  }

  /** So a new event displaces no witness. */
  lemma IndexedNext(witnesses: Witnesses, events: seq<Ack>, e: Ack)
    requires Indexed(witnesses, events) && Ordered(events) && NextEvent(events, e)
    ensures Indexed(witnesses[(e.kind, e.sequence) := e], events + [e])
  {
    forall i | 0 <= i < |events| ensures (events[i].kind, events[i].sequence) != (e.kind, e.sequence) {
      NumberIsNew(events, e, i);
    }
    IndexedInsert(witnesses, events, e);
  }

  lemma IndexedInsert(witnesses: Witnesses, events: seq<Ack>, e: Ack)
    requires Indexed(witnesses, events)
    requires forall i :: 0 <= i < |events| ==> (events[i].kind, events[i].sequence) != (e.kind, e.sequence)
    ensures Indexed(witnesses[(e.kind, e.sequence) := e], events + [e])
  {
  }

  /** The dictionary of witnesses holds exactly the events, each under its kind and number. */
  predicate Indexed(witnesses: Witnesses, events: seq<Ack>) {
    && (forall key :: key in witnesses ==>
          witnesses[key] in events && key == (witnesses[key].kind, witnesses[key].sequence))
    && (forall i :: 0 <= i < |events| ==>
          (events[i].kind, events[i].sequence) in witnesses &&
          witnesses[(events[i].kind, events[i].sequence)] == events[i])
  }

  method AllJoined(samples: seq<Sample>, witnesses: Witnesses, ghost events: seq<Ack>)
    returns (ok: bool)
    requires Indexed(witnesses, events)
    ensures ok <==> AllLogged(samples, events)
  {
    for i := 0 to |samples|
      invariant forall j :: 0 <= j < i ==> samples[j].ack in events
    {
      var key := (samples[i].ack.kind, samples[i].ack.sequence);
      if key !in witnesses || witnesses[key] != samples[i].ack {
        assert samples[i].ack !in events;
        return false;
      }
    }
    return true;
  }

  // ---------------------------------------------------------------- what a complete log is

  function OfKind(events: seq<Ack>, kind: string, n: nat): set<nat>
    requires n <= |events|
  {
    set j: nat | j < n && events[j].kind == kind
  }

  lemma {:induction false} CountKindIsSize(events: seq<Ack>, kind: string, n: nat)
    requires n <= |events|
    ensures CountKind(events[..n], kind) == |OfKind(events, kind, n)|
  {
    if n > 0 {
      CountKindIsSize(events, kind, n - 1);
      assert events[..n][..n - 1] == events[..n - 1];
      assert OfKind(events, kind, n)
          == OfKind(events, kind, n - 1) + if events[n - 1].kind == kind then {n - 1} else {};
    } else {
      assert OfKind(events, kind, 0) == {};
    }
  }

  /** Event i is of a known kind, is numbered by the events of its kind up to it, and is no earlier than its predecessor. */
  predicate PlainEvent(events: seq<Ack>, i: nat)
    requires i < |events|
  {
    var e := events[i];
    && (e.kind == "search" || e.kind == "browser-focus")
    && e.sequence == |OfKind(events, e.kind, i)| + 1
    && 0 <= e.native <= 9_223_372_036_854_775_807 && (i > 0 ==> events[i - 1].native <= e.native)
  }

  lemma PlainEventIs(events: seq<Ack>, i: nat)
    requires i < |events| <= 4096
    ensures PlainEvent(events, i) <==> NextEvent(events[..i], events[i])
  {
    CountKindIsSize(events, events[i].kind, i);
    FewEvents(events, events[i].kind, i);
  }

  lemma {:induction false} FewEvents(events: seq<Ack>, kind: string, n: nat)
    requires n <= |events|
    ensures |OfKind(events, kind, n)| <= n
  {
    if n > 0 {
      FewEvents(events, kind, n - 1);
      assert OfKind(events, kind, n)
          == OfKind(events, kind, n - 1) + if events[n - 1].kind == kind then {n - 1} else {};
    } else {
      assert OfKind(events, kind, 0) == {};
    }
  }

  lemma {:induction false} OrderedMeans(events: seq<Ack>, n: nat)
    requires n <= |events| <= 4096
    ensures Ordered(events[..n]) <==> forall i :: 0 <= i < n ==> PlainEvent(events, i)
  {
    if n > 0 {
      OrderedMeans(events, n - 1);
      PlainEventIs(events, n - 1);
      assert events[..n][..n - 1] == events[..n - 1];
    }
  }

  /** 106 to 4096 events, each as it must be, 106 of them searches. */
  lemma CompleteLogMeans(events: seq<Ack>)
    ensures CompleteLog(events) <==>
            && 106 <= |events| <= 4096 && |OfKind(events, "search", |events|)| == 106
            && forall i :: 0 <= i < |events| ==> PlainEvent(events, i)
  {
    if |events| <= 4096 {
      OrderedMeans(events, |events|);
      CountKindIsSize(events, "search", |events|);
      assert events[..|events|] == events;
    }
  }

  // ---------------------------------------------------------------- what joining means

  /** Where the log holds each measured acknowledgement. */
  predicate Embedding(positions: seq<nat>, samples: seq<Sample>, events: seq<Ack>) {
    && |positions| == |samples|
    && (forall i :: 0 <= i < |positions| ==> positions[i] < |events| && events[positions[i]] == samples[i].ack)
    && (forall i, j :: 0 <= i < j < |positions| ==> positions[i] < positions[j])
  }

  lemma {:induction false} CountKindGrows(events: seq<Ack>, kind: string, i: nat, j: nat)
    requires i <= j <= |events|
    ensures CountKind(events[..i], kind) <= CountKind(events[..j], kind)
    decreases j
  {
    if i < j {
      assert events[..j][..j - 1] == events[..j - 1];
      CountKindGrows(events, kind, i, j - 1);
    }
  }

  /** Within a kind, higher numbers stand further on in the log. */
  lemma SequenceFixesOrder(events: seq<Ack>, i: nat, j: nat)
    requires Ordered(events) && i < |events| && j < |events|
    requires events[i].kind == events[j].kind && events[i].sequence < events[j].sequence
    ensures i < j
  {
    OrderedAt(events, i);
    OrderedAt(events, j);
    if j <= i {
      CountKindGrows(events, events[i].kind, j, i);
    }
  }

  lemma {:induction false} SequencesIncrease(samples: seq<Sample>, n: nat, kind: string, lo: int, hi: int, i: nat, j: nat)
    requires GoodSamples.requires(samples, n, kind, lo, hi) && GoodSamples(samples, n, kind, lo, hi) && i < j < n
    ensures samples[i].ack.sequence < samples[j].ack.sequence
    decreases j
  {
    GoodSampleAt(samples, n, kind, lo, hi, j);
    if i < j - 1 {
      SequencesIncrease(samples, n, kind, lo, hi, i, j - 1);
    }
  }

  /**
   * When the bounds and the log are both accepted, the measured acknowledgements of one
   * kind embed into the log injectively, at strictly increasing positions.
   */
  lemma AcknowledgementsEmbed(samples: seq<Sample>, clocks: seq<Clock>, kind: string, events: seq<Ack>)
    returns (positions: seq<nat>)
    requires Accepted(samples, clocks, kind) && CompleteLog(events) && AllLogged(samples, events)
    ensures Embedding(positions, samples, events)
    ensures forall i, j :: 0 <= i < j < COHORT ==> samples[i].ack.native <= samples[j].ack.native
  {
    positions := FindAll(samples, events);
    forall i, j | 0 <= i < j < COHORT
      ensures positions[i] < positions[j] && samples[i].ack.native <= samples[j].ack.native
    {
      PairEmbeds(samples, clocks, kind, events, i, j, positions[i], positions[j]);
    }
  }

  /** A position in the log of each acknowledgement. */
  lemma {:induction false} FindAll(samples: seq<Sample>, events: seq<Ack>) returns (positions: seq<nat>)
    requires AllLogged(samples, events)
    ensures |positions| == |samples|
    ensures forall i :: 0 <= i < |positions| ==> positions[i] < |events| && events[positions[i]] == samples[i].ack
    decreases |samples|
  {
    if samples == [] {
      positions := [];
    } else {
      var last := |samples| - 1;
      assert AllLogged(samples[..last], events);
      var front := FindAll(samples[..last], events);
      assert samples[last].ack in events;
      var p: nat :| p < |events| && events[p] == samples[last].ack;
      positions := front + [p];
    }
  }

  lemma PairEmbeds(samples: seq<Sample>, clocks: seq<Clock>, kind: string, events: seq<Ack>, i: nat, j: nat, p: nat, q: nat)
    requires Accepted(samples, clocks, kind) && Ordered(events) && i < j < COHORT
    requires p < |events| && q < |events| && events[p] == samples[i].ack && events[q] == samples[j].ack
    ensures p < q && samples[i].ack.native <= samples[j].ack.native
  {
    var lo, hi := Lowest(clocks), Highest(clocks);
    GoodSampleAt(samples, COHORT, kind, lo, hi, i);
    GoodSampleAt(samples, COHORT, kind, lo, hi, j);
    SequencesIncrease(samples, COHORT, kind, lo, hi, i, j);
    SequenceFixesOrder(events, p, q);
    TimesIncrease(events, p, q);
  }

  lemma {:induction false} TimesIncrease(events: seq<Ack>, i: nat, j: nat)
    requires Ordered(events) && i <= j < |events|
    ensures events[i].native <= events[j].native
    decreases j
  {
    if i < j {
      OrderedAt(events, j);
      TimesIncrease(events, i, j - 1);
    }
  }

  // ---------------------------------------------------------------- the Linux observer

  datatype Interval = Interval(processReturn: int, callbackLower: int, callbackUpper: int,
                               toObservationLower: int, toObservationUpper: int)

  function IntervalOf(s: Sample, row: Row, wall: int): Interval {
    Interval(s.posted - s.start, row.lower, row.upper,
             if wall - row.upper >= 0 then wall - row.upper else 0, wall - row.lower)
  }

  predicate Agrees(s: Sample, state: State, row: Row, wall: int, kind: string) {
    Seen(state, kind) == s.ack && wall == row.wall
  }

  lemma AgreesMeans(s: Sample, state: State, lo: int, hi: int, wall: int, kind: string)
    ensures Agrees(s, state, RowOf(s, lo, hi), wall, kind) <==>
            (if kind == "search" then state.search == s.ack else state.browserFocus == s.ack) && wall == s.observed - s.start
  {
  }

  predicate AllAgree(samples: seq<Sample>, states: seq<State>, rows: seq<Row>, times: seq<int>, kind: string)
    requires |samples| == |states| == |rows| == |times|
  {
    forall i :: 0 <= i < |rows| ==> Agrees(samples[i], states[i], rows[i], times[i], kind)
  }

  /** Derives the intervals of one cohort; nothing is scored again. */
  method Summarize(samples: seq<Sample>, states: seq<State>, times: seq<int>, clocks: seq<Clock>, kind: string)
    returns (r: Option<seq<Interval>>)
    ensures r.Some? <==>
            Accepted(samples, clocks, kind) && |states| == |times| == COHORT &&
            AllAgree(samples, states, BoundsOf(samples, clocks).rows, times, kind)
    ensures r.Some? ==> r.value == Intervals(samples, BoundsOf(samples, clocks).rows, times)
  {
    var result := ComputeBounds(samples, clocks, kind);
    if result.Failure? || |times| != COHORT || |states| != COHORT {
      return None;
    }
    r := CollectIntervals(samples, states, result.value.rows, times, kind);
  }

  function Intervals(samples: seq<Sample>, rows: seq<Row>, times: seq<int>): (r: seq<Interval>)
    requires |samples| == |rows| == |times|
    ensures |r| == |rows| && forall i :: 0 <= i < |r| ==> r[i] == IntervalOf(samples[i], rows[i], times[i])
  {
    seq(|rows|, i requires 0 <= i < |rows| => IntervalOf(samples[i], rows[i], times[i]))
  }

  method CollectIntervals(samples: seq<Sample>, states: seq<State>, rows: seq<Row>, times: seq<int>, kind: string)
    returns (r: Option<seq<Interval>>)
    requires |samples| == |states| == |rows| == |times|
    ensures r == if AllAgree(samples, states, rows, times, kind) then Some(Intervals(samples, rows, times)) else None
  {
    var intervals := [];
    for i := 0 to |rows|
      invariant |intervals| == i && forall j :: 0 <= j < i ==> intervals[j] == IntervalOf(samples[j], rows[j], times[j])
      invariant forall j :: 0 <= j < i ==> Agrees(samples[j], states[j], rows[j], times[j], kind)
    {
      if !Agrees(samples[i], states[i], rows[i], times[i], kind) {
        return None;
      }
      intervals := intervals + [IntervalOf(samples[i], rows[i], times[i])];
    }
    assert intervals == Intervals(samples, rows, times);
    return Some(intervals);
  }

  /** For every offset the data allow, the callback preceded the observation by a time in its interval. */
  lemma IntervalsAreSound(samples: seq<Sample>, clocks: seq<Clock>, kind: string, offset: int, i: nat)
    requires Accepted(samples, clocks, kind) && Explains(offset, samples, clocks) && i < COHORT
    ensures var row := BoundsOf(samples, clocks).rows[i];
            var interval := IntervalOf(samples[i], row, row.wall);
            interval.toObservationLower <= samples[i].observed - (samples[i].ack.native + offset)
              <= interval.toObservationUpper
  {
    AcceptanceIsSound(samples, clocks, kind, offset);
    assert BoundsOf(samples, clocks).rows[i].upper <= BoundsOf(samples, clocks).rows[i].wall;
  }

  /** Both ends of an interval are reached by offsets the data allow; the process returned when the input was posted. */
  lemma IntervalsAreTight(samples: seq<Sample>, clocks: seq<Clock>, kind: string, i: nat) returns (least: int, greatest: int)
    requires Accepted(samples, clocks, kind) && i < 64
    ensures var s, row := samples[i], BoundsOf(samples, clocks).rows[i];
            var interval := IntervalOf(s, row, row.wall);
            && interval.processReturn == s.posted - s.start
            && Consistent(least, clocks) && Causal(least, s)
            && Consistent(greatest, clocks) && Causal(greatest, s)
            && interval.callbackLower == s.ack.native + least - s.start
            && interval.callbackUpper == s.ack.native + greatest - s.start
            && interval.toObservationUpper == s.observed - (s.ack.native + least)
            && interval.toObservationLower == s.observed - (s.ack.native + greatest)
  {
    GoodSampleAt(samples, COHORT, kind, Lowest(clocks), Highest(clocks), i);
    least, greatest := BoundsAreTight(samples[i], clocks);
  }
}
