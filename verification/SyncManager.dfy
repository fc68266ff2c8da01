/** One source: the decision to sync and the sync itself (internal/sync/manager.go, detectors.go). */
module SyncManager {
  import opened Common
  import opened Filtering

  /** orphanedSyncGracePeriod: one hour, in nanoseconds. */
  const GRACE: int := 3_600_000_000_000

  /** An ideal SHA-256: equal digests come from equal input (the raw bytes, or the served data). */
  datatype Digest = Digest(raw: string, data: Data)

  /** An ideal hash of a filter configuration. */
  datatype FilterHash = FilterHash(of: Option<Filter>)

  datatype Phase = Syncing | Complete | Failed
  datatype Schedule = NoSchedule | Unparsable | Every(interval: int)

  /** A registry_sync row joined with its source's schedule; absent hashes are None. */
  datatype Status = Status(
    phase: Phase, lastAttempt: Option<int>, endedAt: Option<int>,
    syncHash: Option<Digest>, filterHash: Option<FilterHash>, schedule: Schedule)

  datatype Cause = HandlerCreationFailed | ValidationFailed | FetchFailed | StorageFailed

  /** What the source handler does when asked: serve a registry, or fail. */
  datatype Outcome = Fetched(reg: Registry, raw: string) | Unavailable(why: Cause)

  datatype Reason =
    | RegistryNotReady | FilterChanged | SourceDataChanged | ErrorCheckingChanges | ManualWithChanges
    | AlreadyInProgress | ManualNoChanges | ErrorParsingInterval | ErrorCheckingSyncNeed
    | UpToDateWithPolicy | UpToDateNoPolicy

  predicate Syncs(r: Reason) {
    r.RegistryNotReady? || r.FilterChanged? || r.SourceDataChanged? || r.ErrorCheckingChanges?
    || r.ManualWithChanges?
  }

  function HashOf(o: Outcome): Digest
    requires o.Fetched?
  {
    Digest(o.raw, o.reg.data)
  }

  // ---------------------------------------------------------------- conditions read off a status

  /** A sync is running and its start is at most one hour old. */
  predicate InProgress(s: Status, now: int) {
    s.phase == Syncing && s.lastAttempt.Some? && now - s.lastAttempt.value <= GRACE
  }

  predicate FilterDiffers(s: Status, filter: Option<Filter>) {
    s.filterHash.Some? && s.filterHash.value != FilterHash(filter)
  }

  predicate IntervalElapsed(s: Status, now: int) {
    s.schedule.Every? && (s.lastAttempt.None? || s.lastAttempt.value + s.schedule.interval <= now)
  }

  /** ShouldSync goes on to fetch the source. */
  predicate Consults(s: Status, filter: Option<Filter>, manual: bool, now: int) {
    && !InProgress(s, now)
    && !s.schedule.Unparsable?
    && (s.phase != Complete || manual || FilterDiffers(s, filter) || IntervalElapsed(s, now))
  }

  /** The fetch does not show the data that was last synced. */
  predicate DataDiffers(s: Status, o: Outcome)
    requires o.Fetched?
  {
    s.syncHash != Some(HashOf(o))
  }

  /** The reason as a decision table. */
  function Decide(s: Status, filter: Option<Filter>, manual: bool, now: int, o: Outcome): Reason {
    if InProgress(s, now) then AlreadyInProgress
    else if s.schedule.Unparsable? then ErrorCheckingSyncNeed
    else if !Consults(s, filter, manual, now) then UpToDateNoPolicy
    else if o.Unavailable? then ErrorCheckingChanges
    else if DataDiffers(s, o) then
      if s.phase != Complete then RegistryNotReady
      else if manual then ManualWithChanges
      else if FilterDiffers(s, filter) then FilterChanged
      else SourceDataChanged
    else if FilterDiffers(s, filter) then FilterChanged
    else if manual then ManualNoChanges
    else UpToDateNoPolicy
  }

  /** Which of the eleven reasons is given never matters to whether a sync runs: this is the whole rule. */
  lemma DecideRule(s: Status, filter: Option<Filter>, manual: bool, now: int, o: Outcome)
    ensures Syncs(Decide(s, filter, manual, now, o)) <==>
            Consults(s, filter, manual, now) && (o.Fetched? ==> DataDiffers(s, o) || FilterDiffers(s, filter))
  {
  }

  /** A sync counts as running for exactly one hour from its recorded start. */
  lemma InProgressIff(s: Status, filter: Option<Filter>, manual: bool, now: int, o: Outcome)
    ensures Decide(s, filter, manual, now, o) == AlreadyInProgress <==>
            s.phase == Syncing && s.lastAttempt.Some? && now <= s.lastAttempt.value + 3_600_000_000_000
  {
  }

  /** When each reason is given. */
  lemma ReasonIff(s: Status, filter: Option<Filter>, manual: bool, now: int, o: Outcome)
    ensures var r := Decide(s, filter, manual, now, o);
            var asked := Consults(s, filter, manual, now);
            var changed := asked && o.Fetched? && s.syncHash != Some(Digest(o.raw, o.reg.data));
            var same := asked && s.syncHash.Some? && o.Fetched? && s.syncHash.value == Digest(o.raw, o.reg.data);
            var refiltered := s.filterHash.Some? && s.filterHash.value != FilterHash(filter);
            && (r == ErrorCheckingChanges <==> asked && o.Unavailable?)
            && (r == RegistryNotReady <==> changed && (s.phase == Syncing || s.phase == Failed))
            && (r == ManualWithChanges <==> changed && s.phase == Complete && manual)
            && (r == FilterChanged <==> refiltered && ((changed && s.phase == Complete && !manual) || same))
            && (r == SourceDataChanged <==> changed && s.phase == Complete && !manual && !refiltered)
            && (r == ManualNoChanges <==> same && !refiltered && manual)
  {
  }

  /** When the source is asked at all: unless a sync runs or the schedule does not parse, for any of four causes. */
  lemma ConsultsIff(s: Status, filter: Option<Filter>, manual: bool, now: int)
    ensures Consults(s, filter, manual, now) <==>
            && !(s.phase == Syncing && s.lastAttempt.Some? && now <= s.lastAttempt.value + 3_600_000_000_000)
            && s.schedule != Unparsable
            && (|| s.phase == Syncing || s.phase == Failed || manual
                || (s.filterHash.Some? && s.filterHash != Some(FilterHash(filter)))
                || (s.schedule.Every? && (s.lastAttempt.None? || now >= s.lastAttempt.value + s.schedule.interval)))
  {
  }

  /** Past the grace hour a stale "syncing" row never blocks a source whose data moved on. */
  lemma OrphanRecovers(s: Status, filter: Option<Filter>, manual: bool, now: int, o: Outcome)
    requires s.phase == Syncing
    requires s.lastAttempt.None? || now - s.lastAttempt.value > GRACE
    requires !s.schedule.Unparsable?
    ensures Syncs(Decide(s, filter, manual, now, o)) <==>
            (o.Fetched? && s.syncHash == Some(HashOf(o)) ==> FilterDiffers(s, filter))
  {
  }

  // ---------------------------------------------------------------- objects

  /** A fetch result; filtering overwrites the registry and the counts in place. */
  class FetchResult {
    var registry: Registry
    const hash: Digest
    var serverCount: nat
    var skillCount: nat
    var pluginCount: nat

    ghost predicate Valid()
      reads this
    {
      && serverCount == |registry.data.servers|
      && skillCount == |registry.data.skills|
      && pluginCount == |registry.data.plugins|
    }

    constructor (reg: Registry, hash: Digest)
      ensures Valid() && registry == reg && this.hash == hash
    {
      registry, this.hash := reg, hash;
      serverCount, skillCount, pluginCount := |reg.data.servers|, |reg.data.skills|, |reg.data.plugins|;
    }
  }

  method IsDataChanged(s: Status, o: Outcome) returns (changed: bool, result: FetchResult?, failed: bool)
    ensures failed <==> o.Unavailable?
    ensures failed ==> changed && result == null
    ensures !failed ==> fresh(result) && result.Valid() && result.registry == o.reg
                        && result.hash == HashOf(o) && changed == DataDiffers(s, o)
  {
    if o.Unavailable? {
      return true, null, true;
    }
    result := new FetchResult(o.reg, Digest(o.raw, o.reg.data));
    failed := false;
    changed := s.syncHash.None? || result.hash != s.syncHash.value;
  }

  /** A result is handed on exactly when a sync follows a fetch that worked; the source is asked at most once. */
  method ShouldSync(s: Status, filter: Option<Filter>, manual: bool, now: int, o: Outcome)
    returns (reason: Reason, prefetched: FetchResult?, fetches: nat)
    ensures fetches == if Consults(s, filter, manual, now) then 1 else 0
    ensures reason == Decide(s, filter, manual, now, o)
    ensures prefetched != null <==> Syncs(reason) && o.Fetched?
    ensures Syncs(reason) && prefetched == null <==> reason == ErrorCheckingChanges
    ensures prefetched != null ==> fresh(prefetched) && prefetched.Valid()
                                   && prefetched.registry == o.reg && prefetched.hash == HashOf(o)
  {
    prefetched, fetches := null, 0;
    if s.phase == Syncing {
      var orphaned := !(s.lastAttempt.Some? && now - s.lastAttempt.value <= GRACE);
      if !orphaned {
        return AlreadyInProgress, null, 0;
      }
    }
    var neededForState := s.phase != Complete;
    var filterChanged := false;
    if s.filterHash.Some? {
      filterChanged := FilterHash(filter) != s.filterHash.value;
    }
    var elapsed := false;
    match s.schedule {
      case NoSchedule =>
      case Unparsable => return ErrorCheckingSyncNeed, null, 0;
      case Every(d) =>
        if s.lastAttempt.None? {
          elapsed := true;
        } else {
          var next := s.lastAttempt.value + d;
          elapsed := now > next || now == next;
        }
    }
    reason := UpToDateNoPolicy;
    if neededForState || manual || filterChanged || elapsed {
      var changed, result, failed := IsDataChanged(s, o);
      fetches := fetches + 1;
      if failed {
        reason := ErrorCheckingChanges;
      } else if changed {
        prefetched := result;
        if neededForState {
          reason := RegistryNotReady;
        } else if manual {
          reason := ManualWithChanges;
        } else if filterChanged {
          reason := FilterChanged;
        } else {
          reason := SourceDataChanged;
        }
      } else {
        if manual {
          reason := ManualNoChanges;
        }
        if filterChanged {
          prefetched := result;
          reason := FilterChanged;
        }
      }
    }
  }

  datatype SyncResult = Synced(hash: Digest, servers: nat, skills: nat, plugins: nat) | NotSynced(why: Cause)

  class Manager {
    const matcher: Matcher
    /** What the registry publishes for the source. */
    var stored: Data

    constructor (matcher: Matcher, stored: Data)
      ensures this.matcher == matcher && this.stored == stored
    {
      this.matcher, this.stored := matcher, stored;
    }

    method ApplyFilteringIfConfigured(filter: Option<Filter>, result: FetchResult)
      requires result.Valid()
      modifies result
      ensures result.Valid()
      ensures result.registry == old(result.registry).(data := FilteredData(matcher, filter, old(result.registry.data)))
    {
      if filter.Some? {
        var filtered, _, _ := ApplyFilters(matcher, result.registry, filter);
        result.registry := filtered;
        result.serverCount := |filtered.data.servers|;
        result.skillCount := |filtered.data.skills|;
        result.pluginCount := |filtered.data.plugins|;
      }
    }

    /** Publishes the filtered fetch, or leaves the published data alone; the hash is the unfiltered one. */
    method PerformSync(filter: Option<Filter>, prefetched: FetchResult?, o: Outcome, storeWorks: bool)
      returns (r: SyncResult, fetches: nat)
      requires prefetched != null ==> prefetched.Valid()
      modifies this`stored, prefetched
      ensures fetches == if prefetched == null then 1 else 0
      ensures r.Synced? <==> (prefetched != null || o.Fetched?) && storeWorks
      ensures r.NotSynced? ==> stored == old(stored)
                               && r.why == if prefetched == null && o.Unavailable? then o.why else StorageFailed
      ensures r.Synced? ==> (if prefetched != null
                             then r.hash == prefetched.hash
                                  && stored == FilteredData(matcher, filter, old(prefetched.registry.data))
                             else r.hash == HashOf(o) && stored == FilteredData(matcher, filter, o.reg.data))
                            && r.servers == |stored.servers| && r.skills == |stored.skills|
                            && r.plugins == |stored.plugins|
    {
      var result := prefetched;
      fetches := 0;
      if result == null {
        fetches := fetches + 1;
        if o.Unavailable? {
          return NotSynced(o.why), fetches;
        }
        result := new FetchResult(o.reg, Digest(o.raw, o.reg.data));
      }
      ApplyFilteringIfConfigured(filter, result);
      if !storeWorks {
        return NotSynced(StorageFailed), fetches;
      }
      stored := result.registry.data;
      r := Synced(result.hash, result.serverCount, result.skillCount, result.pluginCount);
    }

    /**
     A round in which the source keeps serving the same thing: decision, sync and publication together. A source that
     answers is asked once at most; only one that fails to is asked a second time.
     */
    method Round(s: Status, filter: Option<Filter>, manual: bool, now: int, o: Outcome, storeWorks: bool)
      returns (reason: Reason, r: Option<SyncResult>, fetches: nat)
      modifies this`stored
      ensures fetches == if !Consults(s, filter, manual, now) then 0 else if o.Fetched? then 1 else 2
      ensures reason == Decide(s, filter, manual, now, o)
      ensures r.Some? <==> Syncs(reason)
      ensures r.Some? && r.value.Synced? <==> Syncs(reason) && o.Fetched? && storeWorks
      ensures r.Some? && r.value.Synced? ==>
                stored == FilteredData(matcher, filter, o.reg.data) && r.value.hash == HashOf(o)
      ensures !(r.Some? && r.value.Synced?) ==> stored == old(stored)
    {
      var prefetched;
      reason, prefetched, fetches := ShouldSync(s, filter, manual, now, o);
      r := None;
      if Syncs(reason) {
        var result, again := PerformSync(filter, prefetched, o, storeWorks);
        r, fetches := Some(result), fetches + again;
      }
    }
  }
}
