/**
 * Callback latency bounds from clock handshakes (qualification/section-16/dispatch.py,
 * lines 9-53), in integer nanoseconds.
 */
module Dispatch {
  import opened Wrappers
  import opened OrderStatistics

  /** One handshake: the native clock was read between two readings of the helper's. */
  datatype Clock = Clock(sequence: int, before: int, native: int, after: int)

  /** The native acknowledgement of one callback. */
  datatype Ack = Ack(kind: string, sequence: int, native: int, query: string)

  datatype Sample = Sample(n: int, beforeSequence: int, ack: Ack, start: int, posted: int, observed: int)

  datatype Row = Row(sequence: int, native: int, lower: int, upper: int, wall: int)

  datatype Bounds = Bounds(lo: int, hi: int, rows: seq<Row>, p95Lower: int, p95Upper: int, wallP95: int)

  datatype DispatchError = IncompleteCohort | BadHandshake | NoCommonOffset | BadSample

  const COHORT: nat := 64
  const P95: nat := 60
  const SEARCH := "search"
  const BROWSER_FOCUS := "browser-focus"

  /** `integer`: a bounded non-negative integer. */
  predicate Bounded(v: int) { 0 <= v < 0x8000_0000_0000_0000 }

  predicate GoodClock(c: Clock, n: nat) {
    && c.sequence == n + 1 && Bounded(c.before) && Bounded(c.native) && Bounded(c.after)
    && c.native <= c.before <= c.after && c.after - c.before <= 2_000_000_000
  }

  function Lowest(clocks: seq<Clock>): int
    requires clocks != []
  {
    var offset := clocks[|clocks| - 1].before - clocks[|clocks| - 1].native;
    if |clocks| == 1 then offset else
    var others := Lowest(clocks[..|clocks| - 1]);
    if others >= offset then others else offset
  }

  function Highest(clocks: seq<Clock>): int
    requires clocks != []
  {
    var offset := clocks[|clocks| - 1].after - clocks[|clocks| - 1].native;
    if |clocks| == 1 then offset else
    var others := Highest(clocks[..|clocks| - 1]);
    if others <= offset then others else offset
  }

  predicate GoodSample(s: Sample, n: nat, previous: int, kind: string, lo: int, hi: int) {
    && Bounded(s.n) && s.n == n && s.ack.kind == kind
    && Bounded(s.beforeSequence) && Bounded(s.ack.sequence) && s.ack.sequence == s.beforeSequence + 1
    && s.beforeSequence >= previous && s.ack.sequence <= 4096
    && s.ack.query == (if kind == SEARCH && n % 2 == 0 then "x" else "")
    && Bounded(s.start) && Bounded(s.posted) && Bounded(s.observed) && Bounded(s.ack.native)
    && s.start <= s.posted <= s.observed
    && s.ack.native + hi >= s.start && s.ack.native + lo <= s.observed
  }

  function Previous(samples: seq<Sample>, n: nat): int
    requires n <= |samples|
  {
    if n == 0 then 0 else samples[n - 1].ack.sequence
  }

  /** The first n samples pass, each against the one before it. */
  predicate GoodSamples(samples: seq<Sample>, n: nat, kind: string, lo: int, hi: int)
    requires n <= |samples|
  {
    n == 0 || (GoodSamples(samples, n - 1, kind, lo, hi) &&
               GoodSample(samples[n - 1], n - 1, Previous(samples, n - 1), kind, lo, hi))
  }

  lemma {:induction false} GoodSampleAt(samples: seq<Sample>, n: nat, kind: string, lo: int, hi: int, i: nat)
    requires i < n <= |samples| && GoodSamples(samples, n, kind, lo, hi)
    ensures GoodSample(samples[i], i, Previous(samples, i), kind, lo, hi)
  {
    if i < n - 1 {
      GoodSampleAt(samples, n - 1, kind, lo, hi, i);
    }
  }

  predicate GoodClocks(clocks: seq<Clock>) { forall n :: 0 <= n < |clocks| ==> GoodClock(clocks[n], n) }

  /** What `bounds` accepts. */
  predicate Accepted(samples: seq<Sample>, clocks: seq<Clock>, kind: string) {
    && (kind == SEARCH || kind == BROWSER_FOCUS) && |samples| == COHORT && |clocks| == COHORT
    && GoodClocks(clocks) && Lowest(clocks) <= Highest(clocks)
    && GoodSamples(samples, COHORT, kind, Lowest(clocks), Highest(clocks))
  }

  lemma {:induction false} BadSampleRefuses(samples: seq<Sample>, n: nat, kind: string, lo: int, hi: int, i: nat)
    requires i < n <= |samples| && !GoodSample(samples[i], i, Previous(samples, i), kind, lo, hi)
    ensures !GoodSamples(samples, n, kind, lo, hi)
  {
    if i < n - 1 {
      BadSampleRefuses(samples, n - 1, kind, lo, hi, i);
    }
  }

  function RowOf(s: Sample, lo: int, hi: int): Row {
    var native := s.ack.native;
    Row(s.ack.sequence, native,
        if native + lo - s.start >= 0 then native + lo - s.start else 0,
        (if native + hi <= s.observed then native + hi else s.observed) - s.start,
        s.observed - s.start)
  }

  function Rows(samples: seq<Sample>, lo: int, hi: int): (rows: seq<Row>)
    ensures |rows| == |samples|
    ensures forall i :: 0 <= i < |rows| ==> rows[i] == RowOf(samples[i], lo, hi)
  {
    seq(|samples|, i requires 0 <= i < |samples| => RowOf(samples[i], lo, hi))
  }

  function Lowers(rows: seq<Row>): (r: seq<int>)
    ensures |r| == |rows| && forall i :: 0 <= i < |r| ==> r[i] == rows[i].lower
  {
    seq(|rows|, i requires 0 <= i < |rows| => rows[i].lower)
  }

  function Uppers(rows: seq<Row>): (r: seq<int>)
    ensures |r| == |rows| && forall i :: 0 <= i < |r| ==> r[i] == rows[i].upper
  {
    seq(|rows|, i requires 0 <= i < |rows| => rows[i].upper)
  }

  function Walls(rows: seq<Row>): (r: seq<int>)
    ensures |r| == |rows| && forall i :: 0 <= i < |r| ==> r[i] == rows[i].wall
  {
    seq(|rows|, i requires 0 <= i < |rows| => rows[i].wall)
  }

  function BoundsOf(samples: seq<Sample>, clocks: seq<Clock>): Bounds
    requires |samples| == COHORT && clocks != []
  {
    var lo, hi := Lowest(clocks), Highest(clocks);
    var rows := Rows(samples, lo, hi);
    Bounds(lo, hi, rows, Ranked(Lowers(rows), P95), Ranked(Uppers(rows), P95), Ranked(Walls(rows), P95))
  }

  method ComputeBounds(samples: seq<Sample>, clocks: seq<Clock>, kind: string)
    returns (r: Result<Bounds, DispatchError>)
    ensures r.Success? <==> Accepted(samples, clocks, kind)
    ensures r.Success? ==> r.value == BoundsOf(samples, clocks)
  {
    if !(kind == SEARCH || kind == BROWSER_FOCUS) || |samples| != 64 || |clocks| != 64 {
      return Failure(IncompleteCohort);
    }
    var interval :- IntersectClocks(clocks);
    var (lo, hi) := interval;
    if lo > hi {
      return Failure(NoCommonOffset);
    }
    var rows :- CollectRows(samples, kind, lo, hi);
    return Success(Bounds(lo, hi, rows, Ranked(Lowers(rows), P95), Ranked(Uppers(rows), P95), Ranked(Walls(rows), P95)));
  }

  /** The loop over the samples. */
  method CollectRows(samples: seq<Sample>, kind: string, lo: int, hi: int) returns (r: Result<seq<Row>, DispatchError>)
    ensures r.Success? <==> GoodSamples(samples, |samples|, kind, lo, hi)
    ensures r.Success? ==> r.value == Rows(samples, lo, hi)
  {
    var rows, previous := [], 0;
    for n := 0 to |samples|
      invariant previous == Previous(samples, n)
      invariant |rows| == n && forall m :: 0 <= m < n ==> rows[m] == RowOf(samples[m], lo, hi)
      invariant GoodSamples(samples, n, kind, lo, hi)
    {
      var s := samples[n];
      if !GoodSample(s, n, previous, kind, lo, hi) {
        BadSampleRefuses(samples, |samples|, kind, lo, hi, n);
        return Failure(BadSample);
      }
      rows := rows + [RowOf(s, lo, hi)];
      previous := s.ack.sequence;
    }
    return Success(rows);
  }

  /** The loop over the handshakes: the offsets all of them allow. */
  method IntersectClocks(clocks: seq<Clock>) returns (r: Result<(int, int), DispatchError>)
    requires clocks != []
    ensures r.Success? <==> GoodClocks(clocks)
    ensures r.Success? ==> r.value == (Lowest(clocks), Highest(clocks))
  {
    var lo, hi := 0, 0;
    for n := 0 to |clocks|
      invariant GoodClocks(clocks[..n])
      invariant n > 0 ==> lo == Lowest(clocks[..n]) && hi == Highest(clocks[..n])
    {
      var c := clocks[n];
      if !GoodClock(c, n) {
        return Failure(BadHandshake);
      }
      var lower, upper := c.before - c.native, c.after - c.native;
      lo := if n == 0 || lower > lo then lower else lo;
      hi := if n == 0 || upper < hi then upper else hi;
      assert clocks[..n + 1][..n] == clocks[..n];
    }
    assert clocks[..|clocks|] == clocks;
    return Success((lo, hi));
  }

  // ---------------------------------------------------------------- what the bounds mean

  /** The helper's clock is the native clock plus the offset, in every handshake. */
  predicate Consistent(offset: int, clocks: seq<Clock>) {
    forall n :: 0 <= n < |clocks| ==> clocks[n].before <= clocks[n].native + offset <= clocks[n].after
  }

  /** The callback ran between the input and the observation of its effect. */
  predicate Causal(offset: int, s: Sample) { s.start <= s.ack.native + offset <= s.observed }

  /** The latency the offset implies. */
  function Latency(offset: int, s: Sample): int { s.ack.native + offset - s.start }

  function Latencies(offset: int, samples: seq<Sample>): (r: seq<int>)
    ensures |r| == |samples| && forall i :: 0 <= i < |r| ==> r[i] == Latency(offset, samples[i])
  {
    seq(|samples|, i requires 0 <= i < |samples| => Latency(offset, samples[i]))
  }

  /** The interval is exactly the set of offsets that satisfy every handshake. */
  lemma {:induction false} OffsetInterval(offset: int, clocks: seq<Clock>)
    requires clocks != []
    ensures Consistent(offset, clocks) <==> Lowest(clocks) <= offset <= Highest(clocks)
  {
    var m := |clocks| - 1;
    var front := clocks[..m];
    if m > 0 {
      OffsetInterval(offset, front);
      assert Consistent(offset, clocks) <==>
             Consistent(offset, front) && clocks[m].before <= clocks[m].native + offset <= clocks[m].after by {
        assert forall n :: 0 <= n < m ==> front[n] == clocks[n];
      }
    }
  }

  /** The clocks are accepted exactly when a single offset satisfies all the handshakes. */
  lemma CommonOffset(clocks: seq<Clock>)
    requires clocks != []
    ensures Lowest(clocks) <= Highest(clocks) <==> exists offset :: Consistent(offset, clocks)
  {
    OffsetInterval(Lowest(clocks), clocks);
    forall offset | Consistent(offset, clocks) ensures Lowest(clocks) <= Highest(clocks) {
      OffsetInterval(offset, clocks);
    }
  }

  /** A sample passes the interval check exactly when some consistent offset makes it causal. */
  lemma IntervalCheck(s: Sample, clocks: seq<Clock>)
    requires clocks != [] && Lowest(clocks) <= Highest(clocks) && s.start <= s.observed
    ensures s.ack.native + Highest(clocks) >= s.start && s.ack.native + Lowest(clocks) <= s.observed <==>
            exists offset :: Consistent(offset, clocks) && Causal(offset, s)
  {
    var lo, hi := Lowest(clocks), Highest(clocks);
    if s.ack.native + hi >= s.start && s.ack.native + lo <= s.observed {
      var offset := if s.start - s.ack.native >= lo then s.start - s.ack.native else lo;
      OffsetInterval(offset, clocks);
      assert Causal(offset, s);
    }
    forall offset | Consistent(offset, clocks) && Causal(offset, s)
      ensures s.ack.native + hi >= s.start && s.ack.native + lo <= s.observed
    {
      OffsetInterval(offset, clocks);
    }
  }

  /** Both bounds of a sample are reached by offsets the data allow: neither can be tightened. */
  lemma BoundsAreTight(s: Sample, clocks: seq<Clock>) returns (least: int, greatest: int)
    requires clocks != [] && Lowest(clocks) <= Highest(clocks) && s.start <= s.observed
    requires s.ack.native + Highest(clocks) >= s.start && s.ack.native + Lowest(clocks) <= s.observed
    ensures var row := RowOf(s, Lowest(clocks), Highest(clocks));
            && Consistent(least, clocks) && Causal(least, s) && Latency(least, s) == row.lower
            && Consistent(greatest, clocks) && Causal(greatest, s) && Latency(greatest, s) == row.upper
  {
    var row := RowOf(s, Lowest(clocks), Highest(clocks));
    least, greatest := row.lower + s.start - s.ack.native, row.upper + s.start - s.ack.native;
    OffsetInterval(least, clocks);
    OffsetInterval(greatest, clocks);
  }

  /** One offset that every handshake and every sample allows. */
  predicate Explains(offset: int, samples: seq<Sample>, clocks: seq<Clock>) {
    Consistent(offset, clocks) && forall i :: 0 <= i < |samples| ==> Causal(offset, samples[i])
  }

  /**
   * For every offset the data allow, each true latency lies within its bounds, the true
   * 61st smallest of 64 lies between the two p95 bounds, and the upper one is at most
   * the observer's: a gate on the upper bound holds of the true p95.
   */
  lemma AcceptanceIsSound(samples: seq<Sample>, clocks: seq<Clock>, kind: string, offset: int)
    requires Accepted(samples, clocks, kind) && Explains(offset, samples, clocks)
    ensures var b := BoundsOf(samples, clocks);
            && (forall i :: 0 <= i < COHORT ==>
                  b.rows[i].lower <= Latency(offset, samples[i]) <= b.rows[i].upper <= b.rows[i].wall)
            && b.p95Lower <= Ranked(Latencies(offset, samples), P95) <= b.p95Upper <= b.wallP95
  {
    var b := BoundsOf(samples, clocks);
    OffsetInterval(offset, clocks);
    forall i | 0 <= i < COHORT
      ensures b.rows[i].lower <= Latency(offset, samples[i]) <= b.rows[i].upper <= b.rows[i].wall
    {
      assert Causal(offset, samples[i]);
      GoodSampleAt(samples, COHORT, kind, b.lo, b.hi, i);
    }
    var true_ := Latencies(offset, samples);
    RankedMonotone(Lowers(b.rows), true_, P95);
    RankedMonotone(true_, Uppers(b.rows), P95);
    RankedMonotone(Uppers(b.rows), Walls(b.rows), P95);
  }

  /** A cohort that one offset explains is never refused for its clocks or its intervals. */
  lemma ExplainedIsNotRefused(samples: seq<Sample>, clocks: seq<Clock>, offset: int)
    requires clocks != [] && Explains(offset, samples, clocks)
    ensures Lowest(clocks) <= Highest(clocks)
    ensures forall i :: 0 <= i < |samples| ==>
      samples[i].ack.native + Highest(clocks) >= samples[i].start &&
      samples[i].ack.native + Lowest(clocks) <= samples[i].observed
  {
    OffsetInterval(offset, clocks);
    assert forall i :: 0 <= i < |samples| ==> Causal(offset, samples[i]);
  }

  // ---------------------------------------------------------------- the cohort and its percentiles in plain numbers

  predicate PlainHandshake(c: Clock, n: nat) {
    && c.sequence == n + 1
    && 0 <= c.native <= c.before <= c.after <= c.before + 2_000_000_000 && c.after <= 9_223_372_036_854_775_807
  }

  predicate PlainSample(s: Sample, i: nat, previous: int, kind: string) {
    && s.n == i && s.ack.kind == kind
    && 0 <= s.beforeSequence && previous <= s.beforeSequence && s.ack.sequence == s.beforeSequence + 1 <= 4096
    && s.ack.query == (if kind == "search" && i % 2 == 0 then "x" else "")
    && 0 <= s.start <= s.posted <= s.observed <= 9_223_372_036_854_775_807
    && 0 <= s.ack.native <= 9_223_372_036_854_775_807
  }

  /** Some offset that every handshake allows puts the callback between input and observation. */
  ghost predicate SomewhereCausal(s: Sample, clocks: seq<Clock>) {
    exists offset :: Consistent(offset, clocks) && Causal(offset, s)
  }

  /** Sample i is well-formed, numbers on from the one before it, and is causal for some offset. */
  ghost predicate PlainAt(samples: seq<Sample>, i: nat, clocks: seq<Clock>, kind: string)
    requires i < |samples|
  {
    && PlainSample(samples[i], i, if i == 0 then 0 else samples[i - 1].ack.sequence, kind)
    && SomewhereCausal(samples[i], clocks)
  }

  /**
   * 64 samples and 64 handshakes are accepted exactly when they are well-formed and number
   * on, one offset satisfies all the handshakes, and for each sample one makes it causal.
   */
  lemma AcceptedMeans(samples: seq<Sample>, clocks: seq<Clock>, kind: string)
    ensures Accepted(samples, clocks, kind) <==>
            && (kind == "search" || kind == "browser-focus") && |samples| == 64 && |clocks| == 64
            && (forall n :: 0 <= n < 64 ==> PlainHandshake(clocks[n], n))
            && (exists offset :: Consistent(offset, clocks))
            && (forall i :: 0 <= i < 64 ==> PlainAt(samples, i, clocks, kind))
  {
    if (kind == SEARCH || kind == BROWSER_FOCUS) && |samples| == 64 && |clocks| == 64 {
      CommonOffset(clocks);
      assert GoodClocks(clocks) <==> forall n :: 0 <= n < 64 ==> PlainHandshake(clocks[n], n) by {
        forall n | 0 <= n < 64 ensures GoodClock(clocks[n], n) <==> PlainHandshake(clocks[n], n) {
        }
      }
      if Lowest(clocks) <= Highest(clocks) {
        AcceptedSamples(samples, 64, clocks, kind);
      }
    }
  }

  /** Each of the first n samples passes exactly when it is well-formed and causal for some offset. */
  lemma {:induction false} AcceptedSamples(samples: seq<Sample>, n: nat, clocks: seq<Clock>, kind: string)
    requires n <= |samples| <= 64 && clocks != [] && Lowest(clocks) <= Highest(clocks)
    ensures GoodSamples(samples, n, kind, Lowest(clocks), Highest(clocks)) <==>
            forall i :: 0 <= i < n ==> PlainAt(samples, i, clocks, kind)
  {
    if n > 0 {
      AcceptedSamples(samples, n - 1, clocks, kind);
      AcceptedSample(samples[n - 1], n - 1, Previous(samples, n - 1), clocks, kind);
      assert PlainAt(samples, n - 1, clocks, kind)
        <==> GoodSample(samples[n - 1], n - 1, Previous(samples, n - 1), kind, Lowest(clocks), Highest(clocks));
    }
  }

  lemma AcceptedSample(s: Sample, n: nat, previous: int, clocks: seq<Clock>, kind: string)
    requires n < 64 && clocks != [] && Lowest(clocks) <= Highest(clocks)
    ensures GoodSample(s, n, previous, kind, Lowest(clocks), Highest(clocks)) <==>
            PlainSample(s, n, previous, kind) && SomewhereCausal(s, clocks)
  {
    if s.start <= s.observed {
      IntervalCheck(s, clocks);
    }
  }

  /**
   * The three percentiles of an accepted cohort by counting: at most y exactly when more
   * than 60 of the 64 values are. The rows keep number, native time and wall time.
   */
  lemma PercentilesCount(samples: seq<Sample>, clocks: seq<Clock>, kind: string, y: int)
    requires Accepted(samples, clocks, kind)
    ensures var b := BoundsOf(samples, clocks);
            && |b.rows| == 64
            && (b.p95Lower <= y <==> Count(Lowers(b.rows), y) > 60)
            && (b.p95Upper <= y <==> Count(Uppers(b.rows), y) > 60)
            && (b.wallP95 <= y <==> Count(Walls(b.rows), y) > 60)
            && forall i :: 0 <= i < 64 ==>
                 && b.rows[i].sequence == samples[i].ack.sequence && b.rows[i].native == samples[i].ack.native
                 && b.rows[i].wall == samples[i].observed - samples[i].start
  {
    var b := BoundsOf(samples, clocks);
    RankedMeaning(Lowers(b.rows), 60, y);
    RankedMeaning(Uppers(b.rows), 60, y);
    RankedMeaning(Walls(b.rows), 60, y);
  }
}
