/** The runtime counters, the middleware that drives them, and every interleaving of requests. */
module Metrics {
  import opened Collections

  type Path = string

  /** The counters as a value. Status groups are numbered: 4 stands for 4xx. */
  datatype Counters = Counters(inProgress: int, total: int, failed: int, paths: map<Path, int>,
                               statuses: map<int, int>, durationsMs: real)

  const ZERO_COUNTERS := Counters(0, 0, 0, map[], map[], 0.0)

  function Count<K>(m: map<K, int>, k: K): int {
    if k in m then m[k] else 0
  }

  function StatusGroup(statusCode: int): int {
    statusCode / 100
  }

  function Started(c: Counters, path: Path): Counters {
    c.(inProgress := c.inProgress + 1, paths := c.paths[path := Count(c.paths, path) + 1])
  }

  function Ended(c: Counters, statusCode: int, durationMs: real): Counters {
    var g := StatusGroup(statusCode);
    c.(inProgress := c.inProgress - 1,
       total := c.total + 1,
       failed := c.failed + (if statusCode >= 400 then 1 else 0),
       statuses := c.statuses[g := Count(c.statuses, g) + 1],
       durationsMs := c.durationsMs + durationMs)
  }

  /** How handling a request ends: a response, or an exception the middleware counts as 500. */
  datatype Outcome = Returned(statusCode: int) | Raised

  function StatusOf(o: Outcome): int {
    match o
    case Returned(code) => code
    case Raised => 500
  }

  datatype Snapshot = Snapshot(inProgress: int, total: int, failed: int, averageDurationMs: real,
                               paths: map<Path, int>, statuses: map<int, int>)

  class RuntimeMetrics {
    var requestsInProgress: int
    var requestsTotal: int
    var requestsFailed: int
    var pathCounts: map<Path, int>
    var statusCounts: map<int, int>
    var durationsMsTotal: real

    ghost function Value(): Counters reads this {
      Counters(requestsInProgress, requestsTotal, requestsFailed, pathCounts, statusCounts, durationsMsTotal)
    }

    constructor ()
      ensures Value() == ZERO_COUNTERS
    {
      requestsInProgress, requestsTotal, requestsFailed := 0, 0, 0;
      pathCounts, statusCounts, durationsMsTotal := map[], map[], 0.0;
    }

    method OnRequestStart(path: Path)
      modifies this
      ensures Value() == Started(old(Value()), path)
    {
      requestsInProgress := requestsInProgress + 1;
      pathCounts := pathCounts[path := (if path in pathCounts then pathCounts[path] else 0) + 1];
    }

    method OnRequestEnd(path: Path, statusCode: int, durationMs: real)
      modifies this
      ensures Value() == Ended(old(Value()), statusCode, durationMs)
    {
      var statusGroup := statusCode / 100;
      requestsInProgress := requestsInProgress - 1;
      requestsTotal := requestsTotal + 1;
      statusCounts := statusCounts[statusGroup := (if statusGroup in statusCounts then statusCounts[statusGroup] else 0) + 1];
      durationsMsTotal := durationsMsTotal + durationMs;
      if statusCode >= 400 {
        requestsFailed := requestsFailed + 1;
      }
    }

    /** The counters under the lock, with the mean duration of the finished requests to two decimals. */
    method TakeSnapshot() returns (s: Snapshot)
      ensures s.inProgress == requestsInProgress && s.total == requestsTotal && s.failed == requestsFailed
      ensures s.paths == pathCounts && s.statuses == statusCounts
      ensures requestsTotal > 0 ==>
                100.0 * s.averageDurationMs == Nearest(100.0 * (durationsMsTotal / requestsTotal as real)) as real
      ensures requestsTotal <= 0 ==> s.averageDurationMs == 0.0
    {
      var average := 0.0;
      if requestsTotal > 0 {
        average := durationsMsTotal / requestsTotal as real;
      }
      s := Snapshot(requestsInProgress, requestsTotal, requestsFailed, Nearest(100.0 * average) as real / 100.0, pathCounts, statusCounts);
    }
  }

  /** The nearest integer, the even one of two. */
  function Nearest(y: real): (n: int)
    ensures n as real - 0.5 <= y <= n as real + 0.5
    ensures y == n as real - 0.5 || y == n as real + 0.5 ==> n % 2 == 0
  {
    var whole := y.Floor;
    var rest := y - whole as real;
    if rest < 0.5 || (rest == 0.5 && whole % 2 == 0) then whole else whole + 1
  }

  /** The middleware around one request that nothing else interrupts. */
  method CollectRuntimeMetrics(metrics: RuntimeMetrics, path: Path, outcome: Outcome, durationMs: real)
    modifies metrics
    ensures metrics.Value() == Ended(Started(old(metrics.Value()), path), StatusOf(outcome), durationMs)
    ensures metrics.requestsInProgress == old(metrics.requestsInProgress)
  {
    metrics.OnRequestStart(path);
    match outcome {
      case Raised =>
        metrics.OnRequestEnd(path, 500, durationMs);
      case Returned(statusCode) =>
        metrics.OnRequestEnd(path, statusCode, durationMs);
    }
  }

  // ---------------------------------------------------------------- interleaved requests

  type RequestId = nat

  datatype Event =
    | Begin(id: RequestId, path: Path)
    | End(id: RequestId, outcome: Outcome, durationMs: real)

  /** The shared counters and the requests being handled, each with its path. */
  datatype System = System(counters: Counters, inFlight: map<RequestId, Path>)

  const IDLE := System(ZERO_COUNTERS, map[])

  predicate Enabled(s: System, e: Event) {
    match e
    case Begin(id, _) => id !in s.inFlight
    case End(id, _, _) => id in s.inFlight
  }

  function Next(s: System, e: Event): System {
    match e
    case Begin(id, path) => System(Started(s.counters, path), s.inFlight[id := path])
    case End(id, outcome, durationMs) => System(Ended(s.counters, StatusOf(outcome), durationMs), s.inFlight - {id})
  }

  /** The state after all events but the last, then the last. */
  function Run(events: seq<Event>): System {
    if events == [] then IDLE else Next(Run(events[..|events| - 1]), events[|events| - 1])
  }

  ghost predicate ValidRun(events: seq<Event>) {
    events == [] ||
    (ValidRun(events[..|events| - 1]) && Enabled(Run(events[..|events| - 1]), events[|events| - 1]))
  }

  ghost function Begun(events: seq<Event>): nat {
    if events == [] then 0 else Begun(events[..|events| - 1]) + (if events[|events| - 1].Begin? then 1 else 0)
  }

  ghost function BegunOn(events: seq<Event>, path: Path): nat {
    if events == [] then 0 else
      var e := events[|events| - 1];
      BegunOn(events[..|events| - 1], path) + (if e.Begin? && e.path == path then 1 else 0)
  }

  ghost function EndedIn(events: seq<Event>, group: int): nat {
    if events == [] then 0 else
      var e := events[|events| - 1];
      EndedIn(events[..|events| - 1], group) + (if e.End? && InGroup(e.outcome, group) then 1 else 0)
  }

  /** A response counts in the hundred of its status code, an exception in the five hundreds. */
  predicate InGroup(o: Outcome, group: int) {
    match o
    case Returned(code) => 100 * group <= code < 100 * (group + 1)
    case Raised => group == 5
  }

  lemma GroupOfOutcome(o: Outcome, group: int)
    ensures InGroup(o, group) <==> StatusGroup(StatusOf(o)) == group
  {
    var code := StatusOf(o);
    assert 100 * (code / 100) <= code < 100 * (code / 100) + 100;
  }

  /** Requests that raised or were answered with 400 or more. */
  ghost function FailedIn(events: seq<Event>): nat {
    if events == [] then 0 else
      var e := events[|events| - 1];
      FailedIn(events[..|events| - 1]) + (if e.End? && (e.outcome == Raised || e.outcome.statusCode >= 400) then 1 else 0)
  }

  ghost function TimeSpent(events: seq<Event>): real {
    if events == [] then 0.0 else
      var e := events[|events| - 1];
      TimeSpent(events[..|events| - 1]) + (if e.End? then e.durationMs else 0.0)
  }

  function FailedGroups(statuses: map<int, int>): map<int, int> {
    map g | g in statuses && g >= 4 :: statuses[g]
  }

  ghost predicate Conserved(c: Counters) {
    && Total(c.paths) == c.total + c.inProgress
    && Total(c.statuses) == c.total
    && Total(FailedGroups(c.statuses)) == c.failed
  }

  lemma StartConserves(c: Counters, path: Path)
    requires Conserved(c)
    ensures Conserved(Started(c, path))
  {
    TotalUpdate(c.paths, path, Count(c.paths, path) + 1);
  }

  lemma EndConserves(c: Counters, statusCode: int, durationMs: real)
    requires Conserved(c)
    ensures Conserved(Ended(c, statusCode, durationMs))
  {
    var g := StatusGroup(statusCode);
    var v := Count(c.statuses, g) + 1;
    TotalUpdate(c.statuses, g, v);
    assert g >= 4 <==> statusCode >= 400;
    FailedGroupsUpdate(c.statuses, g, v);
    if g >= 4 {
      TotalUpdate(FailedGroups(c.statuses), g, v);
    }
  }

  lemma FailedGroupsUpdate(statuses: map<int, int>, g: int, v: int)
    ensures FailedGroups(statuses[g := v])
            == if g >= 4 then FailedGroups(statuses)[g := v] else FailedGroups(statuses)
    ensures g >= 4 ==> Count(FailedGroups(statuses), g) == Count(statuses, g)
  {}

  /** The books after `n` events of which `begun` started a request. */
  ghost predicate Accounted(s: System, begun: nat, n: nat) {
    && Conserved(s.counters)
    && s.counters.inProgress == |s.inFlight|
    && s.counters.inProgress == begun - s.counters.total
    && s.counters.total == n - begun
    && 0 <= s.counters.failed <= s.counters.total
  }

  lemma BeginAccounts(s: System, id: RequestId, path: Path, begun: nat, n: nat)
    requires Accounted(s, begun, n) && Enabled(s, Begin(id, path))
    ensures Accounted(Next(s, Begin(id, path)), begun + 1, n + 1)
  {
    StartConserves(s.counters, path);
    assert s.inFlight[id := path].Keys == s.inFlight.Keys + {id};
  }

  lemma EndAccounts(s: System, id: RequestId, outcome: Outcome, durationMs: real, begun: nat, n: nat)
    requires Accounted(s, begun, n) && Enabled(s, End(id, outcome, durationMs))
    ensures Accounted(Next(s, End(id, outcome, durationMs)), begun, n + 1)
  {
    EndConserves(s.counters, StatusOf(outcome), durationMs);
    assert (s.inFlight - {id}).Keys == s.inFlight.Keys - {id};
  }

  /**
    Every interleaving of requests conserves: in progress is started minus ended, the number of
    requests in flight and never negative; path counts sum to finished plus in progress; status
    counts sum to finished; failed is the sum of the groups from 4xx up.
   */
  lemma {:induction false} EveryInterleavingConserves(events: seq<Event>)
    requires ValidRun(events)
    ensures Accounted(Run(events), Begun(events), |events|)
  {
    if events != [] {
      var init := events[..|events| - 1];
      EveryInterleavingConserves(init);
      match events[|events| - 1] {
        case Begin(id, path) =>
          BeginAccounts(Run(init), id, path, Begun(init), |init|);
        case End(id, outcome, durationMs) =>
          EndAccounts(Run(init), id, outcome, durationMs, Begun(init), |init|);
      }
    } else {
      assert FailedGroups(map[]) == map[];
    }
  }

  /** Each counter is exactly the number of events it stands for, and the durations add up. */
  lemma {:induction false} CountersCountEvents(events: seq<Event>, path: Path, group: int)
    ensures Count(Run(events).counters.paths, path) == BegunOn(events, path)
    ensures Count(Run(events).counters.statuses, group) == EndedIn(events, group)
    ensures Run(events).counters.total == |events| - Begun(events) && Run(events).counters.failed == FailedIn(events)
    ensures Run(events).counters.durationsMs == TimeSpent(events)
  {
    if events != [] {
      CountersCountEvents(events[..|events| - 1], path, group);
      if events[|events| - 1].End? {
        GroupOfOutcome(events[|events| - 1].outcome, group);
      }
    }
  }
}
