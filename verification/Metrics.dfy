/**
  The quote counters and the latency histogram of the attestation service (services/attestation/src/metrics.ts) and the
  once-only observer of a quote request (server.ts). Each counter is kept up to date on its own; the page they render is
  proved to be the page of simple counts over everything ever observed. Durations are reals: rounding is not modelled.
*/
module Metrics {

  datatype Outcome = Success | BadRequest | Unauthorized | RateLimited | InternalError

  datatype Observation = Observation(outcome: Outcome, seconds: real)

  const OUTCOMES: seq<Outcome> := [Success, BadRequest, Unauthorized, RateLimited, InternalError]
  const ERROR_OUTCOMES: seq<Outcome> := [BadRequest, Unauthorized, RateLimited, InternalError]

  const BOUNDS: seq<real> := [0.005, 0.01, 0.025, 0.05, 0.1, 0.25, 0.5, 1.0, 2.0, 5.0]

  // -------- what the counters should say about a history

  /** The durations observed with one outcome, in order. */
  function Durations(history: seq<Observation>, o: Outcome): (ds: seq<real>)
    ensures |ds| <= |history|
  {
    if history == [] then []
    else
      var last := history[|history| - 1];
      Durations(history[..|history| - 1], o) + if last.outcome == o then [last.seconds] else []
  }

  /** How many durations are at most `bound`. */
  function UpTo(ds: seq<real>, bound: real): (n: nat)
    ensures n <= |ds|
  {
    if ds == [] then 0
    else UpTo(ds[..|ds| - 1], bound) + if ds[|ds| - 1] <= bound then 1 else 0
  }

  function SumOf(ds: seq<real>): real {
    if ds == [] then 0.0 else SumOf(ds[..|ds| - 1]) + ds[|ds| - 1]
  }

  datatype Le = Bound(seconds: real) | Infinite

  datatype Line =
    | RequestsTotal(outcome: Outcome, requests: nat)
    | ErrorsTotal(outcome: Outcome, errors: nat)
    | LatencyBucket(outcome: Outcome, le: Le, upTo: nat)
    | LatencySum(outcome: Outcome, seconds: real)
    | LatencyCount(outcome: Outcome, observations: nat)

  function Buckets(o: Outcome, ds: seq<real>, bounds: seq<real>): seq<Line> {
    seq(|bounds|, i requires 0 <= i < |bounds| => LatencyBucket(o, Bound(bounds[i]), UpTo(ds, bounds[i])))
  }

  /** The histogram lines of one outcome. */
  function Histogram(o: Outcome, ds: seq<real>): seq<Line> {
    Buckets(o, ds, BOUNDS)
    + [LatencyBucket(o, Infinite, |ds|), LatencySum(o, SumOf(ds)), LatencyCount(o, |ds|)]
  }

  function Histograms(history: seq<Observation>, n: nat): seq<Line>
    requires n <= |OUTCOMES|
  {
    if n == 0 then []
    else Histograms(history, n - 1) + Histogram(OUTCOMES[n - 1], Durations(history, OUTCOMES[n - 1]))
  }

  /** The rendered page of a history. */
  function Page(history: seq<Observation>): seq<Line> {
    seq(|OUTCOMES|, i requires 0 <= i < |OUTCOMES| =>
      RequestsTotal(OUTCOMES[i], |Durations(history, OUTCOMES[i])|))
    + seq(|ERROR_OUTCOMES|, i requires 0 <= i < |ERROR_OUTCOMES| =>
      ErrorsTotal(ERROR_OUTCOMES[i], |Durations(history, ERROR_OUTCOMES[i])|))
    + Histograms(history, |OUTCOMES|)
  }

  lemma {:induction false} UpToMonotone(ds: seq<real>, a: real, b: real)
    requires a <= b
    ensures UpTo(ds, a) <= UpTo(ds, b)
  {
    if ds != [] {
      UpToMonotone(ds[..|ds| - 1], a, b);
    }
  }

  lemma BoundsIncrease(i: nat, j: nat)
    requires i < j < |BOUNDS|
    ensures BOUNDS[i] < BOUNDS[j]
    decreases j - i
  {
    assert |BOUNDS| == 10;
    if i + 1 < j {
      BoundsIncrease(i + 1, j);
    }
  }

  lemma {:induction false} HistogramsOf(history: seq<Observation>, n: nat, line: Line)
    requires n <= |OUTCOMES|
    requires line in Histograms(history, n)
    ensures line in Histogram(line.outcome, Durations(history, line.outcome))
    ensures !line.RequestsTotal? && !line.ErrorsTotal?
  {
    if n > 0 && line !in Histogram(OUTCOMES[n - 1], Durations(history, OUTCOMES[n - 1])) {
      HistogramsOf(history, n - 1, line);
    }
  }

  /** Any two lines of one page and one outcome agree: buckets never decrease, and all totals are the same number. */
  lemma PageIsConsistent(history: seq<Observation>, a: Line, b: Line)
    requires a in Page(history) && b in Page(history) && a.outcome == b.outcome
    ensures (a.LatencyBucket? && b.LatencyBucket? && a.le.Bound? && b.le.Bound? && a.le.seconds <= b.le.seconds) ==>
              a.upTo <= b.upTo
    ensures a.LatencyBucket? && b.LatencyBucket? && b.le.Infinite? ==> a.upTo <= b.upTo
    ensures a.LatencyBucket? && a.le.Infinite? && b.RequestsTotal? ==> a.upTo == b.requests
    ensures a.LatencyCount? && b.RequestsTotal? ==> a.observations == b.requests
    ensures a.ErrorsTotal? && b.RequestsTotal? ==> a.errors == b.requests
  {
    LineMeaning(history, a);
    LineMeaning(history, b);
    var ds := Durations(history, a.outcome);
    if a.LatencyBucket? && b.LatencyBucket? && a.le.Bound? && b.le.Bound? && a.le.seconds <= b.le.seconds {
      UpToMonotone(ds, a.le.seconds, b.le.seconds);
    }
  }

  lemma LineMeaning(history: seq<Observation>, line: Line)
    requires line in Page(history)
    ensures var ds := Durations(history, line.outcome);
            match line
            case RequestsTotal(_, n) => n == |ds|
            case ErrorsTotal(o, n) => o != Success && n == |ds|
            case LatencyBucket(_, le, n) => n == if le.Bound? then UpTo(ds, le.seconds) else |ds|
            case LatencySum(_, s) => s == SumOf(ds)
            case LatencyCount(_, n) => n == |ds|
  {
    if line in Histograms(history, |OUTCOMES|) {
      HistogramsOf(history, |OUTCOMES|, line);
    }
  }

  // -------- the page, line by line

  /** The observations of a history with one outcome. */
  function Seen(history: seq<Observation>, o: Outcome): set<nat> {
    set i: nat | i < |history| && history[i].outcome == o
  }

  /** Those of them that took at most `bound` seconds. */
  function SeenWithin(history: seq<Observation>, o: Outcome, bound: real): set<nat> {
    set i: nat | i < |history| && history[i].outcome == o && history[i].seconds <= bound
  }

  /** The time all of them took. */
  function Spent(history: seq<Observation>, o: Outcome): real {
    if history == [] then 0.0
    else
      var last := history[|history| - 1];
      Spent(history[..|history| - 1], o) + if last.outcome == o then last.seconds else 0.0
  }

  lemma OneMore(before: set<nat>, after: set<nat>, n: nat, added: bool)
    requires n !in before && forall i: nat :: i in after <==> i in before || (i == n && added)
    ensures |after| == |before| + if added then 1 else 0
  {
    assert after == before + if added then {n} else {};
  }

  lemma SeenOneMore(history: seq<Observation>, o: Outcome)
    requires history != []
    ensures var n, last := |history| - 1, history[|history| - 1];
            |Seen(history, o)| == |Seen(history[..n], o)| + if last.outcome == o then 1 else 0
  {
    var n := |history| - 1;
    OneMore(Seen(history[..n], o), Seen(history, o), n, history[n].outcome == o);
  }

  lemma SeenWithinOneMore(history: seq<Observation>, o: Outcome, bound: real)
    requires history != []
    ensures var n, last := |history| - 1, history[|history| - 1];
            |SeenWithin(history, o, bound)| ==
            |SeenWithin(history[..n], o, bound)| + if last.outcome == o && last.seconds <= bound then 1 else 0
  {
    var n := |history| - 1;
    OneMore(SeenWithin(history[..n], o, bound), SeenWithin(history, o, bound), n,
            history[n].outcome == o && history[n].seconds <= bound);
  }

  lemma {:induction false} DurationsCount(history: seq<Observation>, o: Outcome, bound: real)
    ensures |Durations(history, o)| == |Seen(history, o)|
    ensures UpTo(Durations(history, o), bound) == |SeenWithin(history, o, bound)|
    ensures SumOf(Durations(history, o)) == Spent(history, o)
  {
    if history != [] {
      var n := |history| - 1;
      var ds := Durations(history[..n], o);
      DurationsCount(history[..n], o, bound);
      SeenOneMore(history, o);
      SeenWithinOneMore(history, o, bound);
      hide Seen, SeenWithin;
      assert (ds + [history[n].seconds])[..|ds|] == ds && ds + [] == ds;
    }
  }

  lemma {:induction false} InHistograms(history: seq<Observation>, n: nat, i: nat, line: Line)
    requires i < n <= |OUTCOMES| && line in Histogram(OUTCOMES[i], Durations(history, OUTCOMES[i]))
    ensures line in Histograms(history, n)
  {
    if i + 1 < n {
      InHistograms(history, n - 1, i, line);
    }
  }

  lemma BucketLines(o: Outcome, ds: seq<real>, bounds: seq<real>, line: Line)
    ensures line in Buckets(o, ds, bounds) <==>
              && line.LatencyBucket? && line.outcome == o && line.le.Bound? && line.le.seconds in bounds
              && line.upTo == UpTo(ds, line.le.seconds)
  {
    hide UpTo;
    var lines := Buckets(o, ds, bounds);
    if line.LatencyBucket? && line.outcome == o && line.le.Bound? && line.le.seconds in bounds {
      var i :| 0 <= i < |bounds| && bounds[i] == line.le.seconds;
      assert lines[i] == LatencyBucket(o, line.le, UpTo(ds, line.le.seconds));
    }
  }

  lemma HistogramLines(o: Outcome, ds: seq<real>, line: Line)
    ensures line in Histogram(o, ds) <==>
              || (&& line.LatencyBucket? && line.outcome == o && line.le.Bound? && line.le.seconds in BOUNDS
                  && line.upTo == UpTo(ds, line.le.seconds))
              || line == LatencyBucket(o, Infinite, |ds|)
              || line == LatencySum(o, SumOf(ds))
              || line == LatencyCount(o, |ds|)
  {
    hide UpTo, SumOf, Buckets;
    BucketLines(o, ds, BOUNDS, line);
  }

  lemma HistogramsLines(history: seq<Observation>, line: Line)
    ensures line in Histograms(history, 5) <==> line in Histogram(line.outcome, Durations(history, line.outcome))
  {
    Listed(line.outcome);
    var k :| 0 <= k < |OUTCOMES| && OUTCOMES[k] == line.outcome;
    if line in Histogram(line.outcome, Durations(history, line.outcome)) {
      InHistograms(history, 5, k, line);
    }
    if line in Histograms(history, 5) {
      HistogramsOf(history, 5, line);
    }
  }

  /** What a line says is so: of the bounds only the ten of the histogram, and no errors for success. */
  predicate IsSo(history: seq<Observation>, line: Line) {
    match line
    case RequestsTotal(o, n) => n == |Seen(history, o)|
    case ErrorsTotal(o, n) => o != Success && n == |Seen(history, o)|
    case LatencyBucket(o, Bound(b), n) =>
      && b in [0.005, 0.01, 0.025, 0.05, 0.1, 0.25, 0.5, 1.0, 2.0, 5.0]
      && n == |SeenWithin(history, o, b)|
    case LatencyBucket(o, Infinite, n) => n == |Seen(history, o)|
    case LatencySum(o, s) => s == Spent(history, o)
    case LatencyCount(o, n) => n == |Seen(history, o)|
  }

  /**
    Exactly which lines the page has: for every outcome its number of requests, the bucket of every bound with the
    number of observations up to it, the bucket of all, their time and their number, and for every outcome but success
    its number of errors; each of them once.
  */
  lemma PageHasExactly(history: seq<Observation>, line: Line)
    ensures |Page(history)| == 5 + 4 + 5 * 13
    ensures line in Page(history) <==> IsSo(history, line)
  {
    var o, ds := line.outcome, Durations(history, line.outcome);
    DurationsCount(history, o, if line.LatencyBucket? && line.le.Bound? then line.le.seconds else 0.0);
    HistogramLines(o, ds, line);
    HistogramsLines(history, line);
    HistogramsLength(history, 5);
    PageLines(history, line);
    hide Page, Histogram, Histograms, UpTo, SumOf, Spent, Seen, SeenWithin, Durations;
  }

  lemma PageLines(history: seq<Observation>, line: Line)
    ensures |Page(history)| == 9 + |Histograms(history, 5)|
    ensures line in Page(history) <==>
              || line in Histograms(history, 5)
              || line == RequestsTotal(line.outcome, |Durations(history, line.outcome)|)
              || (line.outcome != Success && line == ErrorsTotal(line.outcome, |Durations(history, line.outcome)|))
  {
    var page := Page(history);
    hide Histograms, Durations;
    assert forall i | 0 <= i < 5 :: page[i] == RequestsTotal(OUTCOMES[i], |Durations(history, OUTCOMES[i])|);
    assert forall i | 0 <= i < 4 ::
        page[5 + i] == ErrorsTotal(ERROR_OUTCOMES[i], |Durations(history, ERROR_OUTCOMES[i])|);
    assert page[9..] == Histograms(history, 5);
    assert page == page[..9] + page[9..];
    Listed(line.outcome);
  }

  lemma {:induction false} HistogramsLength(history: seq<Observation>, n: nat)
    requires n <= |OUTCOMES|
    ensures |Histograms(history, n)| == 13 * n
  {
    if n > 0 {
      HistogramsLength(history, n - 1);
    }
  }

  function TotalOver(history: seq<Observation>, n: nat): nat
    requires n <= |OUTCOMES|
  {
    if n == 0 then 0 else TotalOver(history, n - 1) + |Durations(history, OUTCOMES[n - 1])|
  }

  /** Every observation is counted under exactly one outcome. */
  lemma {:induction false} TotalsAddUp(history: seq<Observation>)
    ensures TotalOver(history, |OUTCOMES|) == |history|
  {
    assert TotalOver(history, 5) == |Durations(history, OUTCOMES[0])| + |Durations(history, OUTCOMES[1])|
      + |Durations(history, OUTCOMES[2])| + |Durations(history, OUTCOMES[3])| + |Durations(history, OUTCOMES[4])| by {
      UnfoldTotal(history);
    }
    if history != [] {
      var before := history[..|history| - 1];
      TotalsAddUp(before);
      UnfoldTotal(before);
    }
  }

  lemma UnfoldTotal(history: seq<Observation>)
    ensures TotalOver(history, 5) == |Durations(history, OUTCOMES[0])| + |Durations(history, OUTCOMES[1])|
      + |Durations(history, OUTCOMES[2])| + |Durations(history, OUTCOMES[3])| + |Durations(history, OUTCOMES[4])|
  {
    assert TotalOver(history, 3) == TotalOver(history, 2) + |Durations(history, OUTCOMES[2])|;
    assert TotalOver(history, 1) == TotalOver(history, 0) + |Durations(history, OUTCOMES[0])|;
  }

  // -------- the histogram of one outcome

  /** `d` belongs to bucket `i`: the first one whose bound it does not exceed. */
  predicate Falls(d: real, i: nat)
    requires i < |BOUNDS|
  {
    d <= BOUNDS[i] && (i > 0 ==> BOUNDS[i - 1] < d)
  }

  function InBucket(ds: seq<real>, i: nat): nat
    requires i < |BOUNDS|
  {
    if ds == [] then 0
    else InBucket(ds[..|ds| - 1], i) + if Falls(ds[|ds| - 1], i) then 1 else 0
  }

  lemma {:induction false} NextBucket(ds: seq<real>, i: nat)
    requires i < |BOUNDS|
    ensures UpTo(ds, BOUNDS[i]) == (if i == 0 then 0 else UpTo(ds, BOUNDS[i - 1])) + InBucket(ds, i)
  {
    if i > 0 {
      BoundsIncrease(i - 1, i);
    }
    if ds != [] {
      NextBucket(ds[..|ds| - 1], i);
    }
  }

  lemma FallsOnce(d: real, i: nat, j: nat)
    requires i < |BOUNDS| && j < |BOUNDS| && Falls(d, i) && Falls(d, j)
    ensures i == j
  {
    if i + 1 < j {
      BoundsIncrease(i, j - 1);
    } else if j + 1 < i {
      BoundsIncrease(j, i - 1);
    }
  }

  /** Appending one duration to a history of durations. */
  lemma Appended(ds: seq<real>, d: real, i: nat)
    requires i < |BOUNDS|
    ensures InBucket(ds + [d], i) == InBucket(ds, i) + if Falls(d, i) then 1 else 0
    ensures SumOf(ds + [d]) == SumOf(ds) + d
  {
    assert (ds + [d])[..|ds|] == ds;
  }

  datatype Latency = Latency(bucketCounts: seq<nat>, count: nat, sumSeconds: real) {
    /** The state is the one `ds` leaves behind. */
    ghost predicate Holds(ds: seq<real>) {
      && |bucketCounts| == |BOUNDS|
      && count == |ds|
      && sumSeconds == SumOf(ds)
      && forall i: nat | i < |BOUNDS| :: bucketCounts[i] == InBucket(ds, i)
    }
  }

  /** Raises the count of the first bucket whose bound `d` does not exceed. */
  method AddTo(latency: Latency, d: real, ghost ds: seq<real>) returns (next: Latency)
    requires latency.Holds(ds)
    ensures next.Holds(ds + [d])
  {
    var bucketCounts := latency.bucketCounts;
    var idx := 0;
    while idx < |BOUNDS|
      invariant 0 <= idx <= |BOUNDS| == |bucketCounts|
      invariant idx > 0 ==> BOUNDS[idx - 1] < d
      invariant forall i: nat | i < idx :: !Falls(d, i)
      invariant forall i: nat | i < |BOUNDS| :: bucketCounts[i] == InBucket(ds, i)
    {
      if d <= BOUNDS[idx] {
        bucketCounts := bucketCounts[idx := bucketCounts[idx] + 1];
        break;
      }
      idx := idx + 1;
    }
    next := Latency(bucketCounts, latency.count + 1, latency.sumSeconds + d);
    forall i: nat | i < |BOUNDS| ensures bucketCounts[i] == InBucket(ds + [d], i) {
      Appended(ds, d, i);
      if idx < |BOUNDS| && Falls(d, i) {
        FallsOnce(d, i, idx);
      }
    }
    Appended(ds, d, 0);
  }

  /** The histogram lines of one outcome, accumulating the buckets. */
  method RenderHistogram(o: Outcome, latency: Latency, ghost ds: seq<real>) returns (lines: seq<Line>)
    requires latency.Holds(ds)
    ensures lines == Histogram(o, ds)
  {
    lines := [];
    var cumulative := 0;
    for idx := 0 to |BOUNDS|
      invariant cumulative == if idx == 0 then 0 else UpTo(ds, BOUNDS[idx - 1])
      invariant |lines| == idx
      invariant forall i | 0 <= i < idx :: lines[i] == LatencyBucket(o, Bound(BOUNDS[i]), UpTo(ds, BOUNDS[i]))
    {
      NextBucket(ds, idx);
      cumulative := cumulative + latency.bucketCounts[idx];
      lines := lines + [LatencyBucket(o, Bound(BOUNDS[idx]), cumulative)];
    }
    lines := lines +
      [LatencyBucket(o, Infinite, latency.count), LatencySum(o, latency.sumSeconds), LatencyCount(o, latency.count)];
  }

  // -------- all counters

  /** The counters of one outcome say what a history says. */
  ghost predicate Agrees(requests: map<Outcome, nat>, errors: map<Outcome, nat>, latency: map<Outcome, Latency>,
                         history: seq<Observation>, o: Outcome)
  {
    && o in requests && requests[o] == |Durations(history, o)|
    && (o != Success ==> o in errors && errors[o] == |Durations(history, o)|)
    && o in latency && latency[o].Holds(Durations(history, o))
  }

  class AttestationMetrics {
    var requestsTotal: map<Outcome, nat>
    var errorsTotal: map<Outcome, nat>
    var latency: map<Outcome, Latency>
    ghost var history: seq<Observation>

    ghost predicate Valid()
      reads this
    {
      forall o: Outcome :: Agrees(requestsTotal, errorsTotal, latency, history, o)
    }

    constructor ()
      ensures Valid() && history == []
    {
      requestsTotal, errorsTotal, latency := map[], map[], map[];
      history := [];
      new;
      for i := 0 to |OUTCOMES|
        invariant history == []
        invariant forall k | 0 <= k < i :: OUTCOMES[k] in requestsTotal && requestsTotal[OUTCOMES[k]] == 0
        invariant forall k | 0 <= k < i :: OUTCOMES[k] in latency && latency[OUTCOMES[k]].Holds([])
      {
        requestsTotal := requestsTotal[OUTCOMES[i] := 0];
        latency := latency[OUTCOMES[i] := Latency(seq(|BOUNDS|, _ => 0), 0, 0.0)];
      }
      ghost var r, l := requestsTotal, latency;
      for i := 0 to |ERROR_OUTCOMES|
        invariant history == [] && requestsTotal == r && latency == l
        invariant forall k | 0 <= k < i :: ERROR_OUTCOMES[k] in errorsTotal && errorsTotal[ERROR_OUTCOMES[k]] == 0
      {
        errorsTotal := errorsTotal[ERROR_OUTCOMES[i] := 0];
      }
      forall o: Outcome ensures Agrees(requestsTotal, errorsTotal, latency, history, o) {
        Listed(o);
      }
    }

    method ObserveQuote(outcome: Outcome, durationSeconds: real)
      requires Valid()
      modifies this
      ensures Valid()
      ensures history == old(history) + [Observation(outcome, durationSeconds)]
    {
      ghost var before := history;
      assert Agrees(requestsTotal, errorsTotal, latency, before, outcome);
      requestsTotal := requestsTotal[outcome := requestsTotal[outcome] + 1];
      if outcome != Success {
        errorsTotal := errorsTotal[outcome := errorsTotal[outcome] + 1];
      }
      var next := AddTo(latency[outcome], durationSeconds, Durations(before, outcome));
      latency := latency[outcome := next];
      history := history + [Observation(outcome, durationSeconds)];
      assert history[..|before|] == before;
      forall o: Outcome ensures Agrees(requestsTotal, errorsTotal, latency, history, o) {
        assert Agrees(old(requestsTotal), old(errorsTotal), old(latency), before, o);
        var ds := Durations(before, o);
        assert Durations(history, o) == ds + if o == outcome then [durationSeconds] else [];
        assert ds + [] == ds;
      }
    }

    /** The page, rendered from the counters, is the page of the history. */
    method RenderPrometheus() returns (lines: seq<Line>)
      requires Valid()
      ensures lines == Page(history)
    {
      lines := [];
      for i := 0 to |OUTCOMES|
        invariant |lines| == i
        invariant forall k | 0 <= k < i :: lines[k] == RequestsTotal(OUTCOMES[k], |Durations(history, OUTCOMES[k])|)
      {
        assert Agrees(requestsTotal, errorsTotal, latency, history, OUTCOMES[i]);
        lines := lines + [RequestsTotal(OUTCOMES[i], requestsTotal[OUTCOMES[i]])];
      }
      var errors := [];
      for i := 0 to |ERROR_OUTCOMES|
        invariant |errors| == i
        invariant forall k | 0 <= k < i ::
          errors[k] == ErrorsTotal(ERROR_OUTCOMES[k], |Durations(history, ERROR_OUTCOMES[k])|)
      {
        assert Agrees(requestsTotal, errorsTotal, latency, history, ERROR_OUTCOMES[i]);
        errors := errors + [ErrorsTotal(ERROR_OUTCOMES[i], errorsTotal[ERROR_OUTCOMES[i]])];
      }
      var histograms := [];
      for i := 0 to |OUTCOMES|
        invariant histograms == Histograms(history, i)
      {
        var o := OUTCOMES[i];
        assert Agrees(requestsTotal, errorsTotal, latency, history, o);
        var block := RenderHistogram(o, latency[o], Durations(history, o));
        histograms := histograms + block;
      }
      lines := lines + errors + histograms;
    }
  }

  lemma Listed(o: Outcome)
    ensures exists k | 0 <= k < |OUTCOMES| :: OUTCOMES[k] == o
    ensures o != Success ==> exists k | 0 <= k < |ERROR_OUTCOMES| :: ERROR_OUTCOMES[k] == o
  {
    var k := match o case Success => 0 case BadRequest => 1 case Unauthorized => 2 case RateLimited => 3 case _ => 4;
    assert OUTCOMES[k] == o;
    assert k > 0 ==> ERROR_OUTCOMES[k - 1] == o;
  }

  /** Records the outcome of one quote request, once. */
  class QuoteObserver {
    const metrics: AttestationMetrics
    const startedAtNs: int
    var metricsRecorded: bool

    constructor (metrics: AttestationMetrics, nowNs: int)
      ensures this.metrics == metrics && startedAtNs == nowNs && !metricsRecorded
    {
      this.metrics := metrics;
      startedAtNs := nowNs;
      metricsRecorded := false;
    }

    method Observe(outcome: Outcome, nowNs: int)
      requires metrics.Valid()
      modifies this, metrics
      ensures metrics.Valid()
      ensures metricsRecorded
      ensures metrics.history == old(metrics.history) +
        if old(metricsRecorded) then []
        else [Observation(outcome, (nowNs - startedAtNs) as real / 1000000000.0)]
    {
      if metricsRecorded {
        return;
      }
      metricsRecorded := true;
      metrics.ObserveQuote(outcome, (nowNs - startedAtNs) as real / 1000000000.0);
    }
  }
}
