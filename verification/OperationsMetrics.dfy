/** The in-process request metrics: counters and histogram as a state machine over requests. */
module OperationsMetrics {
  import opened Options

  datatype Method = GET | POST | PUT | PATCH | DELETE | OTHER

  datatype StatusClass = S1xx | S2xx | S3xx | S4xx | S5xx

  const METHODS: seq<Method> := [GET, POST, PUT, PATCH, DELETE, OTHER]
  const STATUS_CLASSES: seq<StatusClass> := [S1xx, S2xx, S3xx, S4xx, S5xx]
  const BUCKETS: seq<real> := [0.005, 0.01, 0.025, 0.05, 0.1, 0.25, 0.5, 1.0, 2.5, 5.0, 10.0]

  /** What a caller may hand in as a duration; `NotFinite` covers the infinities and NaN. */
  datatype Duration = NotANumber | NotFinite | Seconds(value: real)

  datatype Outcome = Recorded | TypeError | ValueError | Unbalanced

  /** One finished request. */
  datatype Finished = Finished(verb: Method, status: StatusClass, duration: real)

  type History = seq<Finished>

  function NormalMethod(name: string): Method {
    match name
    case "GET" => GET
    case "POST" => POST
    case "PUT" => PUT
    case "PATCH" => PATCH
    case "DELETE" => DELETE
    case _ => OTHER
  }

  lemma AllListed()
    ensures forall m: Method :: m in METHODS
    ensures forall s: StatusClass :: s in STATUS_CLASSES
  {
    forall m: Method
      ensures m in METHODS
    {
      var i := match m case GET => 0 case POST => 1 case PUT => 2 case PATCH => 3 case DELETE => 4 case OTHER => 5;
      assert METHODS[i] == m;
    }
    forall s: StatusClass
      ensures s in STATUS_CLASSES
    {
      var i := match s case S1xx => 0 case S2xx => 1 case S3xx => 2 case S4xx => 3 case S5xx => 4;
      assert STATUS_CLASSES[i] == s;
    }
  }

  /** The class of a status code; anything that is no integer, or out of range, counts as a server error. */
  function ClassOf(statusCode: Option<int>): StatusClass {
    if statusCode.None? || statusCode.value < 100 || statusCode.value > 599 then S5xx
    else STATUS_CLASSES[statusCode.value / 100 - 1]
  }

  /** A finished request as the caller names it. */
  datatype Call = Call(name: string, code: Option<int>, seconds: real)

  ghost function Normalized(calls: seq<Call>): History {
    seq(|calls|, i requires 0 <= i < |calls| =>
      Finished(NormalMethod(calls[i].name), ClassOf(calls[i].code), calls[i].seconds))
  }

  /** Method names are taken as they are, and all others are one. */
  ghost predicate Names(name: string, m: Method) {
    match m
    case GET => name == "GET"
    case POST => name == "POST"
    case PUT => name == "PUT"
    case PATCH => name == "PATCH"
    case DELETE => name == "DELETE"
    case OTHER => name !in {"GET", "POST", "PUT", "PATCH", "DELETE"}
  }

  /** Codes go by their hundreds; what is no code from 100 to 599 counts as a server error. */
  ghost predicate CodeIs(code: Option<int>, s: StatusClass) {
    match s
    case S1xx => code.Some? && 100 <= code.value < 200
    case S2xx => code.Some? && 200 <= code.value < 300
    case S3xx => code.Some? && 300 <= code.value < 400
    case S4xx => code.Some? && 400 <= code.value < 500
    case S5xx => code.None? || code.value < 100 || 500 <= code.value
  }

  lemma NormalizedBy(name: string, code: Option<int>, m: Method, s: StatusClass)
    ensures NormalMethod(name) == m <==> Names(name, m)
    ensures ClassOf(code) == s <==> CodeIs(code, s)
  {
  }

  // ----- what a history amounts to -----

  /** How many requests of the history satisfy a predicate. */
  function Count(history: History, p: Finished -> bool): nat {
    if history == [] then 0
    else Count(history[..|history| - 1], p) + if p(history[|history| - 1]) then 1 else 0
  }

  function OfMethod(m: Method): Finished -> bool {
    (f: Finished) => f.verb == m
  }

  function OfClass(m: Method, s: StatusClass): Finished -> bool {
    (f: Finished) => f.verb == m && f.status == s
  }

  function Within(m: Method, bound: real): Finished -> bool {
    (f: Finished) => f.verb == m && f.duration <= bound
  }

  function Failed(): Finished -> bool {
    (f: Finished) => f.status == S5xx
  }

  function TotalDuration(history: History, m: Method): real {
    if history == [] then 0.0
    else
      var last := history[|history| - 1];
      TotalDuration(history[..|history| - 1], m) + if last.verb == m then last.duration else 0.0
  }

  function Durations(history: History): seq<real> {
    seq(|history|, i requires 0 <= i < |history| => history[i].duration)
  }

  function LastOf(s: seq<real>, n: nat): seq<real> {
    if |s| <= n then s else s[|s| - n..]
  }

  lemma {:induction false} CountIsBounded(history: History, p: Finished -> bool)
    ensures Count(history, p) <= |history|
  {
    if history != [] {
      CountIsBounded(history[..|history| - 1], p);
    }
  }

  /** The places of the history at which a predicate holds. */
  ghost function Where(history: History, p: Finished -> bool): set<nat> {
    set i: nat | i < |history| && p(history[i])
  }

  lemma {:induction false} CountIsSize(history: History, p: Finished -> bool)
    ensures Count(history, p) == |Where(history, p)|
  {
    if history != [] {
      var n := |history| - 1;
      CountIsSize(history[..n], p);
      assert Where(history, p) == Where(history[..n], p) + if p(history[n]) then {n} else {};
    }
  }

  lemma {:induction false} CountRest(history: History, p: Finished -> bool, q: Finished -> bool)
    requires forall i | 0 <= i < |history| :: q(history[i]) <==> !p(history[i])
    ensures Count(history, p) + Count(history, q) == |history|
  {
    if history != [] {
      CountRest(history[..|history| - 1], p, q);
    }
  }

  lemma WithinByCall(calls: seq<Call>, m: Method, bound: real)
    ensures Count(Normalized(calls), Within(m, bound)) ==
            |set c: nat | c < |calls| && Names(calls[c].name, m) && calls[c].seconds <= bound|
  {
    var history := Normalized(calls);
    CountIsSize(history, Within(m, bound));
    forall c | 0 <= c < |calls| {
      NormalizedBy(calls[c].name, calls[c].code, m, S5xx);
    }
    hide Names;
    hide NormalMethod;
    hide ClassOf;
    assert Where(history, Within(m, bound)) ==
           set c: nat | c < |calls| && Names(calls[c].name, m) && calls[c].seconds <= bound;
  }

  lemma MethodByCall(calls: seq<Call>, m: Method)
    ensures Count(Normalized(calls), OfMethod(m)) == |set c: nat | c < |calls| && Names(calls[c].name, m)|
  {
    var history := Normalized(calls);
    CountIsSize(history, OfMethod(m));
    forall c | 0 <= c < |calls| {
      NormalizedBy(calls[c].name, calls[c].code, m, S5xx);
    }
    hide Names;
    hide NormalMethod;
    hide ClassOf;
    assert Where(history, OfMethod(m)) == set c: nat | c < |calls| && Names(calls[c].name, m);
  }

  lemma ClassByCall(calls: seq<Call>, m: Method, s: StatusClass)
    ensures Count(Normalized(calls), OfClass(m, s)) ==
            |set c: nat | c < |calls| && Names(calls[c].name, m) && CodeIs(calls[c].code, s)|
  {
    var history := Normalized(calls);
    CountIsSize(history, OfClass(m, s));
    forall c | 0 <= c < |calls| {
      NormalizedBy(calls[c].name, calls[c].code, m, s);
    }
    hide Names;
    hide CodeIs;
    hide NormalMethod;
    hide ClassOf;
    assert Where(history, OfClass(m, s)) ==
           set c: nat | c < |calls| && Names(calls[c].name, m) && CodeIs(calls[c].code, s);
  }

  /** What is not counted as failed are the calls with a code from 100 to 499. */
  lemma SuccessfulByCode(calls: seq<Call>)
    ensures |calls| - Count(Normalized(calls), Failed()) ==
            |set c: nat | c < |calls| && calls[c].code.Some? && 100 <= calls[c].code.value < 500|
  {
    var history, rest := Normalized(calls), (f: Finished) => f.status != S5xx;
    CountRest(history, Failed(), rest);
    CountIsSize(history, rest);
    forall c | 0 <= c < |calls| {
      NormalizedBy(calls[c].name, calls[c].code, GET, S5xx);
    }
    assert Where(history, rest) ==
           set c: nat | c < |calls| && calls[c].code.Some? && 100 <= calls[c].code.value < 500;
  }

  /** The durations of the last calls, at most `n` of them. */
  ghost function LastSeconds(calls: seq<Call>, n: nat): seq<real> {
    var first := if |calls| <= n then 0 else |calls| - n;
    seq(|calls| - first, i requires 0 <= i < |calls| - first => calls[first + i].seconds)
  }

  lemma CountOneMore(history: History, f: Finished, p: Finished -> bool)
    ensures Count(history + [f], p) == Count(history, p) + if p(f) then 1 else 0
  {
    assert (history + [f])[..|history|] == history;
  }

  /** How one more request changes what is counted for a method. */
  lemma OneMoreRequest(history: History, f: Finished, m: Method)
    ensures var longer := history + [f];
            && (forall i | 0 <= i < |BUCKETS| :: Count(longer, Within(m, BUCKETS[i])) ==
                  Count(history, Within(m, BUCKETS[i])) + if f.verb == m && f.duration <= BUCKETS[i] then 1 else 0)
            && Count(longer, OfMethod(m)) == Count(history, OfMethod(m)) + (if f.verb == m then 1 else 0)
            && TotalDuration(longer, m) == TotalDuration(history, m) + (if f.verb == m then f.duration else 0.0)
            && (forall s: StatusClass :: Count(longer, OfClass(m, s)) ==
                  Count(history, OfClass(m, s)) + if f.verb == m && f.status == s then 1 else 0)
  {
    assert (history + [f])[..|history|] == history;
    forall i | 0 <= i < |BUCKETS| {
      CountOneMore(history, f, Within(m, BUCKETS[i]));
    }
    forall s: StatusClass {
      CountOneMore(history, f, OfClass(m, s));
    }
  }

  lemma OneMoreDuration(history: History, f: Finished, n: nat)
    requires n > 0
    ensures LastOf(Durations(history + [f]), n) == LastOf(LastOf(Durations(history), n) + [f.duration], n)
  {
    assert Durations(history + [f]) == Durations(history) + [f.duration];
  }

  /** The status classes of a method add up to its requests. */
  lemma {:induction false} ClassesAddUp(history: History, m: Method)
    ensures Count(history, OfMethod(m)) ==
            Count(history, OfClass(m, S1xx)) + Count(history, OfClass(m, S2xx)) + Count(history, OfClass(m, S3xx)) +
            Count(history, OfClass(m, S4xx)) + Count(history, OfClass(m, S5xx))
  {
    if history != [] {
      ClassesAddUp(history[..|history| - 1], m);
    }
  }

  lemma {:induction false} MethodsAddUp(history: History)
    ensures |history| ==
            Count(history, OfMethod(GET)) + Count(history, OfMethod(POST)) + Count(history, OfMethod(PUT)) +
            Count(history, OfMethod(PATCH)) + Count(history, OfMethod(DELETE)) + Count(history, OfMethod(OTHER))
    ensures Count(history, Failed()) ==
            Count(history, OfClass(GET, S5xx)) + Count(history, OfClass(POST, S5xx)) +
            Count(history, OfClass(PUT, S5xx)) + Count(history, OfClass(PATCH, S5xx)) +
            Count(history, OfClass(DELETE, S5xx)) + Count(history, OfClass(OTHER, S5xx))
  {
    if history != [] {
      MethodsAddUp(history[..|history| - 1]);
    }
  }

  /** Cumulative buckets: a larger bound counts at least as many, and none counts more than there are requests. */
  lemma {:induction false} BucketsAreCumulative(history: History, m: Method, low: real, high: real)
    requires low <= high
    ensures Count(history, Within(m, low)) <= Count(history, Within(m, high)) <= Count(history, OfMethod(m))
  {
    if history != [] {
      BucketsAreCumulative(history[..|history| - 1], m, low, high);
    }
  }

  // ----- sorting and nearest rank -----

  function AtMost(samples: seq<real>, v: real): nat {
    if samples == [] then 0 else AtMost(samples[1..], v) + if samples[0] <= v then 1 else 0
  }

  function Below(samples: seq<real>, v: real): nat {
    if samples == [] then 0 else Below(samples[1..], v) + if samples[0] < v then 1 else 0
  }

  ghost predicate Ascending(samples: seq<real>) {
    forall i, j | 0 <= i < j < |samples| :: samples[i] <= samples[j]
  }

  function Insert(x: real, samples: seq<real>): seq<real> {
    if samples == [] || x <= samples[0] then [x] + samples else [samples[0]] + Insert(x, samples[1..])
  }

  /** `sorted`, by insertion. */
  function Sort(samples: seq<real>): seq<real> {
    if samples == [] then [] else Insert(samples[0], Sort(samples[1..]))
  }

  lemma {:induction false} InsertCounts(x: real, samples: seq<real>)
    ensures |Insert(x, samples)| == |samples| + 1
    ensures forall v :: AtMost(Insert(x, samples), v) == AtMost(samples, v) + if x <= v then 1 else 0
    ensures forall v :: Below(Insert(x, samples), v) == Below(samples, v) + if x < v then 1 else 0
  {
    if samples == [] || x <= samples[0] {
      assert ([x] + samples)[1..] == samples;
    } else {
      InsertCounts(x, samples[1..]);
      assert ([samples[0]] + Insert(x, samples[1..]))[1..] == Insert(x, samples[1..]);
    }
  }

  lemma {:induction false} InsertSorts(x: real, samples: seq<real>)
    requires Ascending(samples)
    ensures Ascending(Insert(x, samples))
    ensures forall y :: y in Insert(x, samples) <==> y == x || y in samples
  {
    if !(samples == [] || x <= samples[0]) {
      InsertSorts(x, samples[1..]);
      var inserted := Insert(x, samples[1..]);
      assert samples == [samples[0]] + samples[1..];
      forall i | 0 <= i < |inserted|
        ensures samples[0] <= inserted[i]
      {
        assert inserted[i] in inserted;
      }
    }
  }

  lemma {:induction false} SortSorts(samples: seq<real>)
    ensures Ascending(Sort(samples)) && |Sort(samples)| == |samples|
    ensures forall y :: y in Sort(samples) <==> y in samples
    ensures forall v :: AtMost(Sort(samples), v) == AtMost(samples, v)
    ensures forall v :: Below(Sort(samples), v) == Below(samples, v)
  {
    if samples != [] {
      SortSorts(samples[1..]);
      InsertSorts(samples[0], Sort(samples[1..]));
      InsertCounts(samples[0], Sort(samples[1..]));
      assert samples == [samples[0]] + samples[1..];
    }
  }

  lemma {:induction false} SortedCounts(samples: seq<real>, i: nat)
    requires Ascending(samples) && i < |samples|
    ensures AtMost(samples, samples[i]) >= i + 1 && Below(samples, samples[i]) <= i
  {
    if i == 0 {
      NoneBelow(samples, samples[0]);
    } else {
      SortedCounts(samples[1..], i - 1);
    }
  }

  lemma {:induction false} NoneBelow(samples: seq<real>, v: real)
    requires forall i | 0 <= i < |samples| :: v <= samples[i]
    ensures Below(samples, v) == 0
  {
    if samples != [] {
      NoneBelow(samples[1..], v);
    }
  }

  /** The nearest rank of the 95th percentile among n samples: n * 0.95 rounded up. */
  function Rank95(n: nat): nat {
    (19 * n + 19) / 20
  }

  /** `v` is a sample, at least `rank` samples are at most `v`, and fewer than `rank` are below it. */
  ghost predicate IsRanked(samples: seq<real>, rank: nat, v: real) {
    v in samples && AtMost(samples, v) >= rank && Below(samples, v) < rank
  }

  /** The smallest sample that 95 percent of the samples do not exceed. */
  ghost predicate IsPercentile95(v: real, samples: seq<real>) {
    v in samples && 20 * AtMost(samples, v) >= 19 * |samples| && 20 * Below(samples, v) < 19 * |samples|
  }

  lemma RankedIsPercentile(samples: seq<real>, v: real)
    requires samples != [] && IsRanked(samples, Rank95(|samples|), v)
    ensures IsPercentile95(v, samples)
  {
  }

  /** There is only one. */
  lemma {:induction false} PercentileIsUnique(v: real, w: real, samples: seq<real>)
    requires IsPercentile95(v, samples) && IsPercentile95(w, samples)
    ensures v == w
  {
    if v < w {
      FewerBelow(v, w, samples);
    } else if w < v {
      FewerBelow(w, v, samples);
    }
  }

  lemma {:induction false} FewerBelow(v: real, w: real, samples: seq<real>)
    requires v < w
    ensures AtMost(samples, v) <= Below(samples, w)
  {
    if samples != [] {
      FewerBelow(v, w, samples[1..]);
    }
  }

  datatype Snapshot = Snapshot(
    requestCount: nat,
    successful: nat,
    inFlight: int,
    sampleCount: nat,
    p95Milliseconds: real)

  // ----- the metrics object -----

  /** One method's counters are what the history says. */
  ghost predicate Tallied(history: History, m: Method, bucketCounts: map<Method, seq<nat>>, durationSum: map<Method,
                          real>,
                          durationCount: map<Method, nat>, requests: map<(Method, StatusClass), nat>)
  {
    && m in bucketCounts && m in durationSum && m in durationCount
    && |bucketCounts[m]| == |BUCKETS| + 1
    && (forall i | 0 <= i < |BUCKETS| :: bucketCounts[m][i] == Count(history, Within(m, BUCKETS[i])))
    && bucketCounts[m][|BUCKETS|] == Count(history, OfMethod(m))
    && durationCount[m] == Count(history, OfMethod(m))
    && durationSum[m] == TotalDuration(history, m)
    && forall s: StatusClass :: (m, s) in requests && requests[(m, s)] == Count(history, OfClass(m, s))
  }

  /** `buckets` after one more duration. */
  ghost predicate Raised(before: seq<nat>, after: seq<nat>, d: real) {
    && |before| == |after| == |BUCKETS| + 1
    && (forall i | 0 <= i < |BUCKETS| :: after[i] == before[i] + if d <= BUCKETS[i] then 1 else 0)
    && after[|BUCKETS|] == before[|BUCKETS|] + 1
  }

  method RaiseBuckets(before: seq<nat>, d: real) returns (buckets: seq<nat>)
    requires |before| == |BUCKETS| + 1
    ensures Raised(before, buckets, d)
  {
    buckets := before;
    for i := 0 to |BUCKETS|
      invariant |buckets| == |BUCKETS| + 1 && buckets[|BUCKETS|] == before[|BUCKETS|]
      invariant forall j | 0 <= j < i :: buckets[j] == before[j] + if d <= BUCKETS[j] then 1 else 0
      invariant forall j | i <= j < |BUCKETS| :: buckets[j] == before[j]
    {
      if d <= BUCKETS[i] {
        buckets := buckets[i := buckets[i] + 1];
      }
    }
    buckets := buckets[|BUCKETS| := buckets[|BUCKETS|] + 1];
  }

  ghost predicate AllTallied(history: History, bucketCounts: map<Method, seq<nat>>, durationSum: map<Method, real>,
                             durationCount: map<Method, nat>, requests: map<(Method, StatusClass), nat>)
  {
    forall m: Method :: Tallied(history, m, bucketCounts, durationSum, durationCount, requests)
  }

  lemma TallyAll(history: History, f: Finished, buckets: seq<nat>, bucketCounts: map<Method, seq<nat>>,
                 durationSum: map<Method, real>, durationCount: map<Method, nat>,
                 requests: map<(Method, StatusClass), nat>)
    requires AllTallied(history, bucketCounts, durationSum, durationCount, requests)
    requires Tallied(history, f.verb, bucketCounts, durationSum, durationCount, requests)
    requires Raised(bucketCounts[f.verb], buckets, f.duration)
    ensures AllTallied(history + [f], bucketCounts[f.verb := buckets],
                       durationSum[f.verb := durationSum[f.verb] + f.duration],
                       durationCount[f.verb := durationCount[f.verb] + 1],
                       requests[(f.verb, f.status) := requests[(f.verb, f.status)] + 1])
  {
    var longer, counts := history + [f], bucketCounts[f.verb := buckets];
    var sums := durationSum[f.verb := durationSum[f.verb] + f.duration];
    var finished := durationCount[f.verb := durationCount[f.verb] + 1];
    var byClass := requests[(f.verb, f.status) := requests[(f.verb, f.status)] + 1];
    forall m: Method
      ensures Tallied(longer, m, counts, sums, finished, byClass)
    {
      assert Tallied(history, m, bucketCounts, durationSum, durationCount, requests);
      TallyStep(history, f, m, buckets, bucketCounts, durationSum, durationCount, requests);
    }
  }

  lemma TallyStep(history: History, f: Finished, m: Method, buckets: seq<nat>, bucketCounts: map<Method, seq<nat>>,
                  durationSum: map<Method, real>, durationCount: map<Method, nat>,
                  requests: map<(Method, StatusClass), nat>)
    requires Tallied(history, m, bucketCounts, durationSum, durationCount, requests)
    requires Tallied(history, f.verb, bucketCounts, durationSum, durationCount, requests)
    requires Raised(bucketCounts[f.verb], buckets, f.duration)
    ensures Tallied(history + [f], m, bucketCounts[f.verb := buckets],
                    durationSum[f.verb := durationSum[f.verb] + f.duration],
                    durationCount[f.verb := durationCount[f.verb] + 1],
                    requests[(f.verb, f.status) := requests[(f.verb, f.status)] + 1])
  {
    OneMoreRequest(history, f, m);
  }

  class Metrics {
    const maxLatencySamples: nat
    var inFlight: int
    var requests: map<(Method, StatusClass), nat>
    var bucketCounts: map<Method, seq<nat>>
    var durationSum: map<Method, real>
    var durationCount: map<Method, nat>
    var latencies: seq<real>

    /** Everything that has finished, as it was called and as it is counted, and how many requests have begun. */
    ghost var calls: seq<Call>
    ghost var history: History
    ghost var begun: nat

    /** All counters are what the history says: bucket i counts the durations up to its bound, the last bucket
        and the duration count everything, and what has begun is in flight or finished. */
    ghost predicate Valid()
      reads this
    {
      && maxLatencySamples > 0 && history == Normalized(calls)
      && AllTallied(history, bucketCounts, durationSum, durationCount, requests)
      && latencies == LastOf(Durations(history), maxLatencySamples)
      && inFlight >= 0
      && begun == inFlight + |history|
    }

    constructor (maxLatencySamples: nat)
      requires maxLatencySamples > 0
      ensures Valid() && calls == [] && begun == 0 && this.maxLatencySamples == maxLatencySamples
    {
      this.maxLatencySamples := maxLatencySamples;
      inFlight := 0;
      requests := map m, s | m in METHODS && s in STATUS_CLASSES :: (m, s) := 0;
      bucketCounts := map m | m in METHODS :: seq(|BUCKETS| + 1, _ => 0);
      durationSum := map m | m in METHODS :: 0.0;
      durationCount := map m | m in METHODS :: 0;
      latencies := [];
      calls, history, begun := [], [], 0;
      new;
      AllListed();
    }

    method BeginRequest()
      requires Valid()
      modifies this`inFlight, this`begun
      ensures Valid() && begun == old(begun) + 1 && inFlight == old(inFlight) + 1
    {
      inFlight, begun := inFlight + 1, begun + 1;
    }

    /** `finish_request`: an invalid duration or an unbalanced call is refused and changes nothing. */
    method FinishRequest(name: string, statusCode: Option<int>, duration: Duration) returns (outcome: Outcome)
      requires Valid()
      modifies this
      ensures Valid() && begun == old(begun)
      ensures outcome == if duration.NotANumber? then TypeError
                         else if duration.NotFinite? || duration.value < 0.0 then ValueError
                         else if old(inFlight) == 0 then Unbalanced
                         else Recorded
      ensures outcome != Recorded ==> unchanged(this)
      ensures outcome == Recorded ==>
                calls == old(calls) + [Call(name, statusCode, duration.value)] && inFlight == old(inFlight) - 1
    {
      if duration.NotANumber? {
        return TypeError;
      }
      if duration.NotFinite? || duration.value < 0.0 {
        return ValueError;
      }
      if inFlight <= 0 {
        return Unbalanced;
      }
      Record(NormalMethod(name), ClassOf(statusCode), duration.value, Call(name, statusCode, duration.value));
      return Recorded;
    }

    /** The update under the lock. */
    method Record(m: Method, s: StatusClass, d: real, ghost call: Call)
      requires Valid() && inFlight > 0 && m == NormalMethod(call.name) && s == ClassOf(call.code) && d == call.seconds
      modifies this
      ensures Valid() && begun == old(begun) && inFlight == old(inFlight) - 1
      ensures calls == old(calls) + [call]
    {
      ghost var f := Finished(m, s, d);
      assert Tallied(history, m, bucketCounts, durationSum, durationCount, requests);
      var buckets := RaiseBuckets(bucketCounts[m], d);
      TallyAll(history, f, buckets, bucketCounts, durationSum, durationCount, requests);
      OneMoreDuration(history, f, maxLatencySamples);
      inFlight := inFlight - 1;
      requests := requests[(m, s) := requests[(m, s)] + 1];
      bucketCounts := bucketCounts[m := buckets];
      durationSum := durationSum[m := durationSum[m] + d];
      durationCount := durationCount[m := durationCount[m] + 1];
      latencies := LastOf(latencies + [d], maxLatencySamples);
      calls, history := calls + [call], history + [f];
    }

    /** Every counter says how many calls it stands for. */
    lemma CountersByCall(m: Method)
      requires Valid()
      ensures m in bucketCounts && |bucketCounts[m]| == 12 && m in durationCount
      ensures var bounds := [0.005, 0.01, 0.025, 0.05, 0.1, 0.25, 0.5, 1.0, 2.5, 5.0, 10.0];
              forall i | 0 <= i < 11 ::
                bucketCounts[m][i] ==
                |set c: nat | c < |calls| && Names(calls[c].name, m) && calls[c].seconds <= bounds[i]|
      ensures bucketCounts[m][11] == durationCount[m] == |set c: nat | c < |calls| && Names(calls[c].name, m)|
      ensures forall s: StatusClass ::
                && (m, s) in requests
                && requests[(m, s)] == |set c: nat | c < |calls| && Names(calls[c].name, m) && CodeIs(calls[c].code, s)|
    {
      assert Tallied(history, m, bucketCounts, durationSum, durationCount, requests);
      MethodByCall(calls, m);
      forall i | 0 <= i < 11 {
        WithinByCall(calls, m, BUCKETS[i]);
      }
      forall s: StatusClass {
        ClassByCall(calls, m, s);
      }
      hide Count;
      hide Names;
      hide CodeIs;
      hide Normalized;
    }

    /** `snapshot`: totals over the whole history, and the nearest-rank 95th percentile of the latency window. */
    method TakeSnapshot() returns (snapshot: Snapshot)
      requires Valid()
      ensures snapshot.requestCount == |calls|
      ensures snapshot.successful ==
              |set c: nat | c < |calls| && calls[c].code.Some? && 100 <= calls[c].code.value < 500|
      ensures snapshot.inFlight == inFlight == begun - |calls|
      ensures var window := LastSeconds(calls, maxLatencySamples);
              && snapshot.sampleCount == |window|
              && if window == [] then snapshot.p95Milliseconds == 0.0
                 else exists v :: snapshot.p95Milliseconds == v * 1000.0 && IsPercentile95(v, window)
    {
      var total, failures := SumRequests();
      SuccessfulByCode(calls);
      assert latencies == LastSeconds(calls, maxLatencySamples);
      CountIsBounded(history, Failed());
      var samples := Sort(latencies);
      SortSorts(latencies);
      var p95 := 0.0;
      if samples != [] {
        var index := Rank95(|samples|) - 1;
        var v := samples[index];
        SortedCounts(samples, index);
        assert v in samples;
        RankedIsPercentile(latencies, v);
        assert IsPercentile95(v, latencies);
        p95 := v * 1000.0;
      }
      snapshot := Snapshot(total, total - failures, inFlight, |samples|, p95);
    }

    method SumRequests() returns (total: nat, failures: nat)
      requires Valid()
      ensures total == |history| && failures == Count(history, Failed())
    {
      total, failures := 0, 0;
      for i := 0 to |METHODS|
        invariant total == MethodTotal(history, i) && failures == FailureTotal(history, i)
      {
        var m := METHODS[i];
        assert Tallied(history, m, bucketCounts, durationSum, durationCount, requests);
        ClassesAddUp(history, m);
        var withoutError := requests[(m, S1xx)] + requests[(m, S2xx)] + requests[(m, S3xx)];
        total := total + withoutError + requests[(m, S4xx)] + requests[(m, S5xx)];
        failures := failures + requests[(m, S5xx)];
      }
      TotalsAddUp(history);
    }
  }

  ghost function MethodTotal(history: History, n: nat): nat
    requires n <= |METHODS|
  {
    if n == 0 then 0 else MethodTotal(history, n - 1) + Count(history, OfMethod(METHODS[n - 1]))
  }

  ghost function FailureTotal(history: History, n: nat): nat
    requires n <= |METHODS|
  {
    if n == 0 then 0 else FailureTotal(history, n - 1) + Count(history, OfClass(METHODS[n - 1], S5xx))
  }

  lemma {:induction false} TotalsAddUp(history: History)
    ensures MethodTotal(history, 6) == |history| && FailureTotal(history, 6) == Count(history, Failed())
  {
    MethodsAddUp(history);
    assert MethodTotal(history, 1) == Count(history, OfMethod(GET));
    assert MethodTotal(history, 2) == MethodTotal(history, 1) + Count(history, OfMethod(POST));
    assert MethodTotal(history, 3) == MethodTotal(history, 2) + Count(history, OfMethod(PUT));
    assert MethodTotal(history, 4) == MethodTotal(history, 3) + Count(history, OfMethod(PATCH));
    assert MethodTotal(history, 5) == MethodTotal(history, 4) + Count(history, OfMethod(DELETE));
    assert FailureTotal(history, 1) == Count(history, OfClass(GET, S5xx));
    assert FailureTotal(history, 2) == FailureTotal(history, 1) + Count(history, OfClass(POST, S5xx));
    assert FailureTotal(history, 3) == FailureTotal(history, 2) + Count(history, OfClass(PUT, S5xx));
    assert FailureTotal(history, 4) == FailureTotal(history, 3) + Count(history, OfClass(PATCH, S5xx));
    assert FailureTotal(history, 5) == FailureTotal(history, 4) + Count(history, OfClass(DELETE, S5xx));
  }
}
