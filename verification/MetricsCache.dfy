/** The TTL cache in front of the registry metric query (internal/telemetry/metrics.go). Times are nanoseconds. */
module MetricsCache {
  import opened Common

  const TTL: int := 30_000_000_000
  const ERROR_TTL: int := 5_000_000_000
  /** registryMetricCountsQueryTimeout (internal/app/storage/registry_metrics.go). */
  const QUERY_TIMEOUT: int := 20_000_000_000

  datatype Count = Count(source: string, servers: int, skills: int, plugins: int)

  datatype Outcome = Good(counts: seq<Count>) | Bad(error: string)

  /** One call under the lock: when it starts, what the query would answer, when it returns. */
  datatype Call = Call(started: int, outcome: Outcome, finished: int)

  datatype Reply = Counts(counts: seq<Count>) | Error(error: string)

  datatype Event = Warn(servingStale: bool) | Recovered

  datatype Cache = Cache(expiresAt: int, counts: seq<Count>, haveCount: bool, err: Option<string>, degraded: bool)

  /** The zero value; the zero time lies before every clock reading. */
  const FRESH := Cache(0, [], false, None, false)

  predicate Hit(c: Cache, call: Call) { call.started < c.expiresAt }

  /** The cache, the reply and the log lines of one call. */
  function Next(c: Cache, call: Call): (Cache, Reply, seq<Event>) {
    if Hit(c, call) then
      (c, if c.err.Some? then Error(c.err.value) else Counts(c.counts), [])
    else match call.outcome
      case Good(counts) =>
        (Cache(call.started + TTL, counts, true, None, false), Counts(counts), if c.degraded then [Recovered] else [])
      case Bad(e) =>
        var log := if c.degraded then [] else [Warn(c.haveCount)];
        var c1 := c.(expiresAt := call.finished + ERROR_TTL, degraded := true);
        if c.haveCount then (c1.(err := None), Counts(c.counts), log) else (c1.(err := Some(e)), Error(e), log)
  }

  /** Calls are serialised by the mutex and the clock never goes back. */
  predicate Timely(calls: seq<Call>) {
    && (forall i :: 0 <= i < |calls| ==> 0 <= calls[i].started <= calls[i].finished)
    && (forall i, j :: 0 <= i < j < |calls| ==> calls[i].finished <= calls[j].started)
  }

  function StateAt(calls: seq<Call>, i: nat): Cache
    requires i <= |calls|
  {
    if i == 0 then FRESH else Next(StateAt(calls, i - 1), calls[i - 1]).0
  }

  function ReplyAt(calls: seq<Call>, i: nat): Reply
    requires i < |calls|
  {
    Next(StateAt(calls, i), calls[i]).1
  }

  /** Everything logged by the first i calls. */
  function LogAt(calls: seq<Call>, i: nat): seq<Event>
    requires i <= |calls|
  {
    if i == 0 then [] else LogAt(calls, i - 1) + Next(StateAt(calls, i - 1), calls[i - 1]).2
  }

  /** Call i reaches the database. */
  predicate Queries(calls: seq<Call>, i: nat)
    requires i < |calls|
  {
    !Hit(StateAt(calls, i), calls[i])
  }

  // ---------------------------------------------------------------- rate

  /** The earliest moment another query may start after call i queried. */
  function NotBefore(calls: seq<Call>, i: nat): int
    requires i < |calls|
  {
    if calls[i].outcome.Good? then calls[i].started + TTL else calls[i].finished + ERROR_TTL
  }

  lemma {:induction false} QuietUntil(calls: seq<Call>, i: nat, j: nat)
    requires i < j <= |calls| && Timely(calls) && Queries(calls, i)
    requires forall k :: i < k < j ==> !Queries(calls, k)
    ensures StateAt(calls, j).expiresAt == NotBefore(calls, i)
    decreases j
  {
    if i + 1 < j {
      QuietUntil(calls, i, j - 1);
      assert !Queries(calls, j - 1);
    }
  }

  /** The last call before j that queried, if any. */
  function LastQuery(calls: seq<Call>, j: nat): (r: Option<nat>)
    requires j <= |calls|
    ensures r.Some? ==> r.value < j && Queries(calls, r.value) && forall k :: r.value < k < j ==> !Queries(calls, k)
    ensures r.None? ==> forall k :: 0 <= k < j ==> !Queries(calls, k)
  {
    if j == 0 then None else if Queries(calls, j - 1) then Some(j - 1) else LastQuery(calls, j - 1)
  }

  /**
   Whatever the callers and the query durations: any query after a successful one starts at least 30 s after that one
   started, and any query after a failed one at least 5 s after that one finished.
   */
  lemma {:induction false} QueryRateBound(calls: seq<Call>, i: nat, j: nat)
    requires i < j < |calls| && Timely(calls) && Queries(calls, i) && Queries(calls, j)
    ensures calls[j].started >= NotBefore(calls, i)
    decreases j
  {
    var k := LastQuery(calls, j).value;
    QuietUntil(calls, k, j);
    if k != i {
      QueryRateBound(calls, i, k);
    }
  }

  /**
   The exact rate: a call queries if and only if no call did before, or the last query succeeded and started at least
   30 s ago, or it failed and finished at least 5 s ago.
   */
  lemma {:induction false} QueriesIff(calls: seq<Call>, j: nat)
    requires j < |calls| && Timely(calls)
    ensures var q := LastQuery(calls, j);
            Queries(calls, j) <==>
            || q.None?
            || (calls[q.value].outcome.Good? && calls[j].started >= calls[q.value].started + 30_000_000_000)
            || (calls[q.value].outcome.Bad? && calls[j].started >= calls[q.value].finished + 5_000_000_000)
  {
    var q := LastQuery(calls, j);
    if q.Some? {
      QuietUntil(calls, q.value, j);
    } else {
      NothingYet(calls, j);
    }
  }

  lemma {:induction false} NothingYet(calls: seq<Call>, j: nat)
    requires j <= |calls| && forall k :: 0 <= k < j ==> !Queries(calls, k)
    ensures StateAt(calls, j) == FRESH
  {
    if j > 0 {
      NothingYet(calls, j - 1);
      assert !Queries(calls, j - 1);
    }
  }

  /** A query that answers within its timeout leaves an entry that is still live, for 10 s more at least. */
  lemma {:induction false} RefreshIsLive(calls: seq<Call>, i: nat)
    requires i < |calls| && Timely(calls) && Queries(calls, i) && calls[i].outcome.Good?
    ensures calls[i].finished <= calls[i].started + QUERY_TIMEOUT ==>
              StateAt(calls, i + 1).expiresAt >= calls[i].finished + 10_000_000_000
    ensures StateAt(calls, i + 1).expiresAt > calls[i].finished <==> calls[i].finished - calls[i].started < TTL
  {
  }

  // ---------------------------------------------------------------- answers

  /** The counts of the last successful query among the first i calls. */
  function LastGood(calls: seq<Call>, i: nat): Option<seq<Count>>
    requires i <= |calls|
  {
    if i == 0 then None
    else if Queries(calls, i - 1) && calls[i - 1].outcome.Good? then Some(calls[i - 1].outcome.counts)
    else LastGood(calls, i - 1)
  }

  ghost predicate Faithful(calls: seq<Call>, i: nat)
    requires i <= |calls|
  {
    var c, last, q := StateAt(calls, i), LastGood(calls, i), LastQuery(calls, i);
    && c.haveCount == last.Some?
    && (last.Some? ==> c.counts == last.value && c.err.None?)
    && (last.None? ==> (if q.None? then c == FRESH
                        else calls[q.value].outcome.Bad? && c.err == Some(calls[q.value].outcome.error)))
    && c.degraded == (q.Some? && calls[q.value].outcome.Bad?)
  }

  lemma FaithfulHit(calls: seq<Call>, i: nat)
    requires i < |calls| && Faithful(calls, i) && !Queries(calls, i)
    ensures Faithful(calls, i + 1)
  {
    assert LastQuery(calls, i + 1) == LastQuery(calls, i) && LastGood(calls, i + 1) == LastGood(calls, i);
  }

  lemma FaithfulQuery(calls: seq<Call>, i: nat)
    requires i < |calls| && Faithful(calls, i) && Queries(calls, i)
    ensures Faithful(calls, i + 1)
  {
    assert LastQuery(calls, i + 1) == Some(i);
    if calls[i].outcome.Good? {
      assert LastGood(calls, i + 1) == Some(calls[i].outcome.counts);
    } else {
      assert LastGood(calls, i + 1) == LastGood(calls, i);
    }
  }

  lemma {:induction false} StaysFaithful(calls: seq<Call>, i: nat)
    requires i <= |calls| && Timely(calls)
    ensures Faithful(calls, i)
  {
    if i > 0 {
      StaysFaithful(calls, i - 1);
      if Queries(calls, i - 1) {
        FaithfulQuery(calls, i - 1);
      } else {
        FaithfulHit(calls, i - 1);
      }
    }
  }

  /**
   After the first success no call fails and every call answers with the latest successful counts; before it every
   call answers with the error of the latest query.
   */
  lemma {:induction false} EveryAnswer(calls: seq<Call>, i: nat)
    requires i < |calls| && Timely(calls)
    ensures LastGood(calls, i + 1).Some? ==> ReplyAt(calls, i) == Counts(LastGood(calls, i + 1).value)
    ensures LastGood(calls, i + 1).None? ==>
              var q := LastQuery(calls, i + 1);
              q.Some? && calls[q.value].outcome.Bad? && ReplyAt(calls, i) == Error(calls[q.value].outcome.error)
  {
    StaysFaithful(calls, i);
    StaysFaithful(calls, i + 1);
  }

  /** Degraded means exactly that the last query failed. */
  lemma {:induction false} DegradedIffLastQueryFailed(calls: seq<Call>, i: nat)
    requires i <= |calls| && Timely(calls)
    ensures StateAt(calls, i).degraded <==> LastQuery(calls, i).Some? && calls[LastQuery(calls, i).value].outcome.Bad?
  {
    StaysFaithful(calls, i);
  }

  // ---------------------------------------------------------------- log lines

  ghost predicate Alternates(log: seq<Event>) {
    forall k :: 0 <= k < |log| ==> (log[k].Warn? <==> k % 2 == 0)
  }

  /** Warnings and recoveries alternate, a warning first, and an open warning means degraded. */
  lemma {:induction false} LogAlternates(calls: seq<Call>, i: nat)
    requires i <= |calls|
    ensures Alternates(LogAt(calls, i))
    ensures StateAt(calls, i).degraded <==> |LogAt(calls, i)| % 2 == 1
  {
    if i > 0 {
      LogAlternates(calls, i - 1);
    }
  }

  /** A warning says it serves stale counts exactly when a query had succeeded before. */
  lemma {:induction false} WarningTellsStale(calls: seq<Call>, i: nat)
    requires i < |calls| && Timely(calls)
    ensures forall e :: e in Next(StateAt(calls, i), calls[i]).2 && e.Warn? ==>
                          e.servingStale == LastGood(calls, i).Some?
  {
    StaysFaithful(calls, i);
  }

  // ---------------------------------------------------------------- the object

  class CachingReader {
    var expiresAt: int
    var counts: seq<Count>
    var haveCount: bool
    var err: Option<string>
    var degraded: bool
    var log: seq<Event>

    function State(): Cache
      reads this
    {
      Cache(expiresAt, counts, haveCount, err, degraded)
    }

    constructor ()
      ensures State() == FRESH && log == []
    {
      expiresAt, counts, haveCount, err, degraded, log := 0, [], false, None, false, [];
    }

    method NoteDegraded()
      modifies this`degraded, this`log
      ensures degraded && log == old(log) + (if old(degraded) then [] else [Warn(haveCount)])
    {
      if degraded {
        return;
      }
      degraded := true;
      log := log + [Warn(haveCount)];
    }

    method NoteRecovered()
      modifies this`degraded, this`log
      ensures !degraded && log == old(log) + (if old(degraded) then [Recovered] else [])
    {
      if !degraded {
        return;
      }
      degraded := false;
      log := log + [Recovered];
    }

    method RegistryMetricCounts(call: Call) returns (reply: Reply)
      modifies this
      ensures (State(), reply) == (Next(old(State()), call).0, Next(old(State()), call).1)
      ensures log == old(log) + Next(old(State()), call).2
    {
      var started := call.started;
      if started < expiresAt {
        return if err.Some? then Error(err.value) else Counts(counts);
      }
      match call.outcome {
        case Bad(e) =>
          expiresAt := call.finished + ERROR_TTL;
          NoteDegraded();
          if haveCount {
            err := None;
            return Counts(counts);
          }
          err := Some(e);
          return Error(e);
        case Good(fetched) =>
          NoteRecovered();
          counts, haveCount, err := fetched, true, None;
          expiresAt := started + TTL;
          return Counts(counts);
      }
    }
  }
}
