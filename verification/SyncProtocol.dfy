/**
 Every run of one source under any number of coordinator processes: ticks that claim the row, syncs that
 publish, status writes, kills, and a source, a configuration and a clock that move on their own
 (internal/sync/coordinator/coordinator.go, internal/sync/state/db.go, database/queries/sync.sql).
 */
module SyncProtocol {
  import opened Common
  import opened Filtering
  import opened SyncManager

  /**
   How a finished sync is written back. Shipped is performRegistrySync followed by the upsert that overwrites
   every column: the filter hash and the start time become NULL, and so does the data hash after a failure.
   Documented is what the fields of SyncStatus promise: both hashes describe the last successful sync.
   */
  datatype Policy = Shipped | Documented

  /** A claimed sync: fetched ahead or not, then finished with the hash it published, if it did. */
  datatype Flight =
    | Running(start: int, filter: Option<Filter>, prefetched: Option<Outcome>)
    | Finished(start: int, filter: Option<Filter>, published: Option<Digest>)

  /** Where the published data came from. */
  datatype Origin = Origin(hash: Digest, filter: Option<Filter>)

  datatype State = State(
    now: int, source: Outcome, filter: Option<Filter>, row: Status,
    store: Data, origin: Option<Origin>, flights: map<nat, Flight>)

  datatype Step =
    | SourceChanges(o: Outcome)
    | Reconfigured(filter: Option<Filter>, schedule: Schedule)
    | Advance(delta: nat)
    | Tick(w: nat)
    | Perform(w: nat, storeWorks: bool)
    | Report(w: nat)
    | Lose(w: nat)  // killed, or the status write failed

  /** The scheduler query: never ended, or one schedule past its end. No schedule means never again. */
  predicate Eligible(row: Status, now: int) {
    row.endedAt.None? || (row.schedule.Every? && row.endedAt.value + row.schedule.interval <= now)
  }

  predicate Claims(st: State, w: nat) {
    w !in st.flights && Eligible(st.row, st.now)
    && Syncs(Decide(st.row, st.filter, false, st.now, st.source))
  }

  /** The tick fetched the source and decided not to sync. */
  predicate Skips(st: State, w: nat) {
    && w !in st.flights && Eligible(st.row, st.now)
    && st.source.Fetched? && Consults(st.row, st.filter, false, st.now)
    && !Syncs(Decide(st.row, st.filter, false, st.now, st.source))
  }

  function Terminal(p: Policy, row: Status, now: int, f: Flight): Status
    requires f.Finished?
  {
    var phase := if f.published.Some? then Complete else Failed;
    match p
    case Shipped =>
      row.(phase := phase, lastAttempt := None, endedAt := Some(now), syncHash := f.published, filterHash := None)
    case Documented =>
      if f.published.None? then row.(phase := phase, endedAt := Some(now))
      else row.(phase := phase, endedAt := Some(now), syncHash := f.published, filterHash := Some(FilterHash(f.filter)))
  }

  ghost function Performed(m: Matcher, st: State, w: nat, storeWorks: bool): State
    requires w in st.flights && st.flights[w].Running?
  {
    var f := st.flights[w];
    var o := if f.prefetched.Some? then f.prefetched.value else st.source;
    if o.Unavailable? || !storeWorks then
      st.(flights := st.flights[w := Finished(f.start, f.filter, None)])
    else
      st.(flights := st.flights[w := Finished(f.start, f.filter, Some(HashOf(o)))],
          store := FilteredData(m, f.filter, o.reg.data),
          origin := Some(Origin(HashOf(o), f.filter)))
  }

  /** One step; a step that is not enabled changes nothing. */
  ghost function Next(p: Policy, m: Matcher, st: State, step: Step): State {
    match step
    case SourceChanges(o) => st.(source := o)
    case Reconfigured(f, sch) => st.(filter := f, row := st.row.(schedule := sch))
    case Advance(d) => st.(now := st.now + d)
    case Tick(w) =>
      if !Claims(st, w) then st
      else st.(row := st.row.(phase := Syncing, lastAttempt := Some(st.now)),
               flights := st.flights[w := Running(st.now, st.filter,
                                                  if st.source.Fetched? then Some(st.source) else None)])
    case Perform(w, ok) =>
      if w in st.flights && st.flights[w].Running? then Performed(m, st, w, ok) else st
    case Report(w) =>
      if w in st.flights && st.flights[w].Finished?
      then st.(row := Terminal(p, st.row, st.now, st.flights[w]), flights := st.flights - {w})
      else st
    case Lose(w) => st.(flights := st.flights - {w})
  }

  ghost function Run(p: Policy, m: Matcher, st: State, steps: seq<Step>): State
    decreases |steps|
  {
    if steps == [] then st else Run(p, m, Next(p, m, st, steps[0]), steps[1..])
  }

  ghost predicate Initial(st: State) {
    && st.row.phase == Failed && st.row.lastAttempt.None? && st.row.endedAt.None?
    && st.row.syncHash.None? && st.row.filterHash.None? && st.origin.None? && st.flights == map[]
  }

  // ---------------------------------------------------------------- assumptions on runs

  /** No live sync outlasts the grace hour: "comfortably longer than any realistic sync run". */
  ghost predicate Prompt(st: State, step: Step) {
    step.Advance? ==> forall w :: w in st.flights ==> st.now + step.delta - st.flights[w].start <= GRACE
  }

  /** No sync is lost after it published and before its status was written. */
  ghost predicate Untorn(st: State, step: Step) {
    step.Lose? && step.w in st.flights && st.flights[step.w].Finished? ==> st.flights[step.w].published.None?
  }

  ghost predicate PromptRun(p: Policy, m: Matcher, st: State, steps: seq<Step>)
    decreases |steps|
  {
    steps == [] || (Prompt(st, steps[0]) && PromptRun(p, m, Next(p, m, st, steps[0]), steps[1..]))
  }

  ghost predicate UntornRun(p: Policy, m: Matcher, st: State, steps: seq<Step>)
    decreases |steps|
  {
    steps == [] || (Untorn(st, steps[0]) && UntornRun(p, m, Next(p, m, st, steps[0]), steps[1..]))
  }

  // ---------------------------------------------------------------- mutual exclusion

  ghost predicate AtMostOneAlive(st: State) {
    forall v, w :: v in st.flights && w in st.flights ==> v == w
  }

  /** There is at most one live sync, and it is the one the row announces, however old. */
  ghost predicate Single(st: State) {
    && AtMostOneAlive(st)
    && forall w :: w in st.flights ==> st.row.phase == Syncing && st.row.lastAttempt == Some(st.flights[w].start)
  }

  /** A tick beside a sync older than an hour; the row is eligible, and the fetch failed or shows something new. */
  ghost predicate Overtakes(st: State, step: Step) {
    && step.Tick? && step.w !in st.flights
    && (exists v :: v in st.flights && st.now - st.flights[v].start > GRACE)
    && Eligible(st.row, st.now) && !st.row.schedule.Unparsable?
    && (st.source.Fetched? ==> DataDiffers(st.row, st.source) || FilterDiffers(st.row, st.filter))
  }

  lemma OvertakesIffClaims(st: State, w: nat)
    requires Single(st)
    ensures Overtakes(st, Tick(w)) <==> st.flights != map[] && Claims(st, w)
  {
    DecideRule(st.row, st.filter, false, st.now, st.source);
    if st.flights != map[] {
      var v :| v in st.flights;
      assert InProgress(st.row, st.now) <==> st.now - st.flights[v].start <= GRACE;
    }
  }

  /** Such a tick, and no other step, puts a second sync beside a live one. */
  lemma SingleStep(p: Policy, m: Matcher, st: State, step: Step)
    requires Single(st)
    ensures AtMostOneAlive(Next(p, m, st, step)) <==> !Overtakes(st, step)
    ensures !Overtakes(st, step) ==> Single(Next(p, m, st, step))
  {
    if step.Tick? {
      OvertakesIffClaims(st, step.w);
      if Overtakes(st, step) {
        var v :| v in st.flights;
        assert v in Next(p, m, st, step).flights && step.w in Next(p, m, st, step).flights;
      }
    }
  }

  /** At every point of the run at most one sync is alive. */
  ghost predicate AlwaysAtMostOne(p: Policy, m: Matcher, st: State, steps: seq<Step>)
    decreases |steps|
  {
    AtMostOneAlive(st) && (steps == [] || AlwaysAtMostOne(p, m, Next(p, m, st, steps[0]), steps[1..]))
  }

  ghost predicate NeverOvertakes(p: Policy, m: Matcher, st: State, steps: seq<Step>)
    decreases |steps|
  {
    steps == [] || (!Overtakes(st, steps[0]) && NeverOvertakes(p, m, Next(p, m, st, steps[0]), steps[1..]))
  }

  /** Mutual exclusion, exactly: it holds throughout a run if and only if no tick of the run overtakes a sync. */
  lemma {:induction false} MutualExclusionIff(p: Policy, m: Matcher, st: State, steps: seq<Step>)
    requires Single(st)
    ensures AlwaysAtMostOne(p, m, st, steps) <==> NeverOvertakes(p, m, st, steps)
    decreases |steps|
  {
    if steps != [] {
      SingleStep(p, m, st, steps[0]);
      if !Overtakes(st, steps[0]) {
        MutualExclusionIff(p, m, Next(p, m, st, steps[0]), steps[1..]);
      }
    }
  }

  /** Every live sync is the one the row announces, and is at most an hour old. */
  ghost predicate Announced(st: State) {
    Single(st) && forall w :: w in st.flights ==> st.now - st.flights[w].start <= GRACE
  }

  lemma AnnouncedStep(p: Policy, m: Matcher, st: State, step: Step)
    requires Announced(st) && Prompt(st, step)
    ensures !Overtakes(st, step) && Announced(Next(p, m, st, step))
  {
    SingleStep(p, m, st, step);
    if step.Tick? {
      OvertakesIffClaims(st, step.w);
    }
  }

  /** As long as no sync outlasts the hour, at most one is alive at any time, whatever is killed or lost. */
  lemma {:induction false} MutualExclusion(p: Policy, m: Matcher, st: State, steps: seq<Step>)
    requires Announced(st) && PromptRun(p, m, st, steps)
    ensures NeverOvertakes(p, m, st, steps) && AlwaysAtMostOne(p, m, st, steps) && Announced(Run(p, m, st, steps))
    decreases |steps|
  {
    if steps != [] {
      AnnouncedStep(p, m, st, steps[0]);
      MutualExclusion(p, m, Next(p, m, st, steps[0]), steps[1..]);
    }
  }

  // ---------------------------------------------------------------- claims are an hour apart

  /** The steps contain no status write that takes effect. */
  ghost predicate Unreported(p: Policy, m: Matcher, st: State, steps: seq<Step>)
    decreases |steps|
  {
    steps == [] || (
      && !(steps[0].Report? && steps[0].w in st.flights && st.flights[steps[0].w].Finished?)
      && Unreported(p, m, Next(p, m, st, steps[0]), steps[1..]))
  }

  lemma {:induction false} StillClaimed(p: Policy, m: Matcher, st: State, steps: seq<Step>, since: int)
    requires st.row.phase == Syncing && st.row.lastAttempt.Some? && since <= st.row.lastAttempt.value <= st.now
    requires Unreported(p, m, st, steps)
    ensures var end := Run(p, m, st, steps);
            end.row.phase == Syncing && end.row.lastAttempt.Some? && since <= end.row.lastAttempt.value <= end.now
    decreases |steps|
  {
    if steps != [] {
      StillClaimed(p, m, Next(p, m, st, steps[0]), steps[1..], since);
    }
  }

  /**
   In every run of every number of coordinators, prompt or not, two claims with no status written between
   them are more than an hour apart.
   */
  lemma {:induction false} ClaimsAnHourApart(p: Policy, m: Matcher, st: State, v: nat, steps: seq<Step>, w: nat)
    requires Claims(st, v)
    requires Unreported(p, m, Next(p, m, st, Tick(v)), steps)
    requires Claims(Run(p, m, Next(p, m, st, Tick(v)), steps), w)
    ensures Run(p, m, Next(p, m, st, Tick(v)), steps).now - st.now > 3_600_000_000_000
  {
    StillClaimed(p, m, Next(p, m, st, Tick(v)), steps, st.now);
  }

  // ---------------------------------------------------------------- the row describes the store

  /** A sync that has published and not yet reported. */
  ghost predicate Unwritten(st: State) {
    exists w :: w in st.flights && st.flights[w].Finished? && st.flights[w].published.Some?
  }

  ghost predicate Recorded(p: Policy, m: Matcher, st: State) {
    && (st.origin.Some? ==> st.store == FilteredData(m, st.origin.value.filter, st.origin.value.hash.data))
    && (forall w :: w in st.flights && st.flights[w].Finished? && st.flights[w].published.Some? ==>
          st.origin == Some(Origin(st.flights[w].published.value, st.flights[w].filter)))
    && (forall w :: w in st.flights && st.flights[w].Running? && st.flights[w].prefetched.Some? ==>
          st.flights[w].prefetched.value.Fetched?)
    && (st.row.syncHash.Some? && !Unwritten(st) ==>
          && st.origin.Some? && st.row.syncHash.value == st.origin.value.hash
          && (p == Documented ==> st.row.filterHash == Some(FilterHash(st.origin.value.filter))))
    && (p == Shipped ==> st.row.filterHash.None?)
  }

  lemma RecordedPerform(p: Policy, m: Matcher, st: State, w: nat, ok: bool)
    requires Recorded(p, m, st) && Announced(st)
    ensures Recorded(p, m, Next(p, m, st, Perform(w, ok)))
  {
    var st' := Next(p, m, st, Perform(w, ok));
    if w in st.flights && st.flights[w].Running? {
      assert forall v :: v in st.flights ==> v == w;
      assert st'.flights[w].Finished?;
      assert st'.flights[w].published.Some? ==> Unwritten(st');
    }
  }

  lemma RecordedReport(p: Policy, m: Matcher, st: State, w: nat)
    requires Recorded(p, m, st) && Announced(st)
    ensures Recorded(p, m, Next(p, m, st, Report(w)))
  {
    if w in st.flights && st.flights[w].Finished? {
      assert forall v :: v in st.flights ==> v == w;
      assert st.flights[w].published.None? ==> !Unwritten(st);
    }
  }

  lemma RecordedTick(p: Policy, m: Matcher, st: State, w: nat)
    requires Recorded(p, m, st)
    ensures Recorded(p, m, Next(p, m, st, Tick(w)))
  {
    if Claims(st, w) && Unwritten(st) {
      var v :| v in st.flights && st.flights[v].Finished? && st.flights[v].published.Some?;
      assert Next(p, m, st, Tick(w)).flights[v] == st.flights[v];
    }
  }

  lemma RecordedStep(p: Policy, m: Matcher, st: State, step: Step)
    requires Recorded(p, m, st) && Announced(st) && Untorn(st, step)
    ensures Recorded(p, m, Next(p, m, st, step))
  {
    match step
    case Tick(w) => RecordedTick(p, m, st, w);
    case Perform(w, ok) => RecordedPerform(p, m, st, w, ok);
    case Report(w) => RecordedReport(p, m, st, w);
    case Lose(w) =>
      if Unwritten(st) {
        var v :| v in st.flights && st.flights[v].Finished? && st.flights[v].published.Some?;
        assert Next(p, m, st, step).flights[v] == st.flights[v];
      }
    case SourceChanges(_) => assert Unwritten(st) == Unwritten(Next(p, m, st, step));
    case Reconfigured(_, _) => assert Unwritten(st) == Unwritten(Next(p, m, st, step));
    case Advance(_) => assert Unwritten(st) == Unwritten(Next(p, m, st, step));
  }

  lemma {:induction false} RecordedRun(p: Policy, m: Matcher, st: State, steps: seq<Step>)
    requires Recorded(p, m, st) && Announced(st)
    requires PromptRun(p, m, st, steps) && UntornRun(p, m, st, steps)
    ensures Recorded(p, m, Run(p, m, st, steps)) && Announced(Run(p, m, st, steps))
    decreases |steps|
  {
    if steps != [] {
      RecordedStep(p, m, st, steps[0]);
      AnnouncedStep(p, m, st, steps[0]);
      RecordedRun(p, m, Next(p, m, st, steps[0]), steps[1..]);
    }
  }

  // ---------------------------------------------------------------- skip soundness

  lemma SkipMeansCurrent(p: Policy, m: Matcher, st: State, w: nat)
    requires Recorded(p, m, st) && Announced(st) && Skips(st, w)
    ensures st.origin.Some? && st.store == FilteredData(m, st.origin.value.filter, st.source.reg.data)
    ensures p == Documented ==> st.origin.value.filter == st.filter
  {
    if v :| v in st.flights {
      assert InProgress(st.row, st.now);
    }
    assert st.row.syncHash == Some(HashOf(st.source));
  }

  /** With the documented status contract a skipped source is always published as its current filter wants it. */
  lemma {:induction false} SkipSoundDocumented(m: Matcher, init: State, steps: seq<Step>, w: nat)
    requires Initial(init)
    requires PromptRun(Documented, m, init, steps) && UntornRun(Documented, m, init, steps)
    requires Skips(Run(Documented, m, init, steps), w)
    ensures var st := Run(Documented, m, init, steps);
            st.store == FilteredData(m, st.filter, st.source.reg.data)
  {
    RecordedRun(Documented, m, init, steps);
    SkipMeansCurrent(Documented, m, Run(Documented, m, init, steps), w);
  }

  /**
   The shipped coordinator never records the filter, so a skip vouches for the filter of the last publication
   only: the published data is right for the current filter exactly when the two decide every fetched entry alike.
   */
  lemma {:induction false} SkipSoundShippedIff(m: Matcher, init: State, steps: seq<Step>, w: nat)
    requires Initial(init)
    requires PromptRun(Shipped, m, init, steps) && UntornRun(Shipped, m, init, steps)
    requires Skips(Run(Shipped, m, init, steps), w)
    ensures var st := Run(Shipped, m, init, steps);
            && st.origin.Some?
            && st.store == FilteredData(m, st.origin.value.filter, st.source.reg.data)
            && (st.store == FilteredData(m, st.filter, st.source.reg.data)
                <==> SameDecisions(m, st.origin.value.filter, st.filter, st.source.reg.data))
  {
    var st := Run(Shipped, m, init, steps);
    RecordedRun(Shipped, m, init, steps);
    SkipMeansCurrent(Shipped, m, st, w);
    SameDataIffSameDecisions(m, st.origin.value.filter, st.filter, st.source.reg.data);
  }

  /** What no tear and no delay breaks: the store holds what its origin says, and a recorded hash has an origin. */
  ghost predicate Sourced(m: Matcher, st: State) {
    && (st.origin.Some? ==> st.store == FilteredData(m, st.origin.value.filter, st.origin.value.hash.data))
    && (Unwritten(st) || st.row.syncHash.Some? ==> st.origin.Some?)
  }

  lemma SourcedStep(p: Policy, m: Matcher, st: State, step: Step)
    requires Sourced(m, st)
    ensures Sourced(m, Next(p, m, st, step))
  {
  }

  lemma {:induction false} SourcedRun(p: Policy, m: Matcher, st: State, steps: seq<Step>)
    requires Sourced(m, st)
    ensures Sourced(m, Run(p, m, st, steps))
    decreases |steps|
  {
    if steps != [] {
      SourcedStep(p, m, st, steps[0]);
      SourcedRun(p, m, Next(p, m, st, steps[0]), steps[1..]);
    }
  }

  /**
   Skips in every run, torn or slow ones included, under either policy. If the last publication is the recorded one, a
   skip is right exactly when its filter and the current one decide every fetched entry alike. If it is another one,
   because its status was lost or came late, nothing ties it to the fetch any more: the store still holds what was
   published, and the skip is right exactly when that happens to be what the fetch gives.
   */
  lemma {:induction false} SkipSoundIff(p: Policy, m: Matcher, init: State, steps: seq<Step>, w: nat)
    requires Initial(init) && Skips(Run(p, m, init, steps), w)
    ensures var st := Run(p, m, init, steps);
            && st.origin.Some?
            && var wanted := FilteredData(m, st.filter, st.source.reg.data);
               if st.row.syncHash == Some(st.origin.value.hash)
               then st.store == wanted <==> SameDecisions(m, st.origin.value.filter, st.filter, st.source.reg.data)
               else st.store == wanted <==>
                    FilteredData(m, st.origin.value.filter, st.origin.value.hash.data) == wanted
  {
    var st := Run(p, m, init, steps);
    SourcedRun(p, m, init, steps);
    DecideRule(st.row, st.filter, false, st.now, st.source);
    SameDataIffSameDecisions(m, st.origin.value.filter, st.filter, st.source.reg.data);
  }

  /** One undisturbed round of worker w: tick, sync, status write. */
  ghost function Round(p: Policy, m: Matcher, st: State, w: nat): State {
    Next(p, m, Next(p, m, Next(p, m, st, Tick(w)), Perform(w, true)), Report(w))
  }

  lemma RoundOutcome(p: Policy, m: Matcher, st: State, w: nat)
    requires w !in st.flights && st.source.Fetched?
    ensures Claims(st, w) ==> Round(p, m, st, w).store == FilteredData(m, st.filter, st.source.reg.data)
                              && Round(p, m, st, w).row.syncHash == Some(HashOf(st.source))
    ensures !Claims(st, w) ==> Round(p, m, st, w) == st
  {
    if Claims(st, w) {
      var s1 := Next(p, m, st, Tick(w));
      assert s1.flights[w] == Running(st.now, st.filter, Some(st.source));
      var s2 := Next(p, m, s1, Perform(w, true));
      assert s2.flights[w] == Finished(st.now, st.filter, Some(HashOf(st.source)));
    }
  }

  /**
   Convergence over every run, torn and slow ones included: one undisturbed round that gets to fetch the source leaves
   it published as its current filter wants it if and only if it syncs or would be right to skip.
   */
  lemma {:induction false} RoundConvergesIff(p: Policy, m: Matcher, init: State, steps: seq<Step>, w: nat)
    requires Initial(init)
    requires var st := Run(p, m, init, steps);
             && w !in st.flights && st.source.Fetched?
             && Eligible(st.row, st.now) && Consults(st.row, st.filter, false, st.now)
    ensures var st := Run(p, m, init, steps);
            var wanted := FilteredData(m, st.filter, st.source.reg.data);
            Round(p, m, st, w).store == wanted <==>
            || DataDiffers(st.row, st.source) || FilterDiffers(st.row, st.filter)
            || (st.origin.Some? &&
                if st.row.syncHash == Some(st.origin.value.hash)
                then SameDecisions(m, st.origin.value.filter, st.filter, st.source.reg.data)
                else FilteredData(m, st.origin.value.filter, st.origin.value.hash.data) == wanted)
  {
    var st := Run(p, m, init, steps);
    RoundOutcome(p, m, st, w);
    DecideRule(st.row, st.filter, false, st.now, st.source);
    if !Claims(st, w) {
      SkipSoundIff(p, m, init, steps, w);
    }
  }

  /**
   Convergence: after any prompt and untorn run, one undisturbed round that gets to fetch the source leaves it
   published as its current filter wants it, whether the round syncs or skips.
   */
  lemma {:induction false} RoundConvergesDocumented(m: Matcher, init: State, steps: seq<Step>, w: nat)
    requires Initial(init)
    requires PromptRun(Documented, m, init, steps) && UntornRun(Documented, m, init, steps)
    requires var st := Run(Documented, m, init, steps);
             && w !in st.flights && st.source.Fetched?
             && Eligible(st.row, st.now) && Consults(st.row, st.filter, false, st.now)
    ensures var st := Run(Documented, m, init, steps);
            Round(Documented, m, st, w).store == FilteredData(m, st.filter, st.source.reg.data)
  {
    var st := Run(Documented, m, init, steps);
    RoundOutcome(Documented, m, st, w);
    if !Claims(st, w) {
      SkipSoundDocumented(m, init, steps, w);
    }
  }

  /** The shipped round converges exactly when it syncs or the filter's decisions did not change since the last one. */
  lemma {:induction false} RoundConvergesShippedIff(m: Matcher, init: State, steps: seq<Step>, w: nat)
    requires Initial(init)
    requires PromptRun(Shipped, m, init, steps) && UntornRun(Shipped, m, init, steps)
    requires var st := Run(Shipped, m, init, steps);
             && w !in st.flights && st.source.Fetched?
             && Eligible(st.row, st.now) && Consults(st.row, st.filter, false, st.now)
    ensures var st := Run(Shipped, m, init, steps);
            Round(Shipped, m, st, w).store == FilteredData(m, st.filter, st.source.reg.data) <==>
            DataDiffers(st.row, st.source)
            || (st.origin.Some? && SameDecisions(m, st.origin.value.filter, st.filter, st.source.reg.data))
  {
    var st := Run(Shipped, m, init, steps);
    RoundOutcome(Shipped, m, st, w);
    FilterChangeNeverSeen(m, init, steps);
    DecideRule(st.row, st.filter, false, st.now, st.source);
    if !Claims(st, w) {
      SkipSoundShippedIff(m, init, steps, w);
    }
  }

  /** Under the shipped coordinator no run, prompt or torn, ever sees a filter change. */
  lemma {:induction false} FilterChangeNeverSeen(m: Matcher, st: State, steps: seq<Step>)
    requires st.row.filterHash.None?
    ensures var end := Run(Shipped, m, st, steps);
            !FilterDiffers(end.row, end.filter) && end.row.filterHash.None?
    decreases |steps|
  {
    if steps != [] {
      FilterChangeNeverSeen(m, Next(Shipped, m, st, steps[0]), steps[1..]);
    }
  }

  // ---------------------------------------------------------------- after a status write

  /** Nothing is running and the row vouches for what the source serves, under the current filter as far as recorded. */
  ghost predicate Quiet(st: State) {
    && st.flights == map[] && st.source.Fetched? && st.row.syncHash == Some(HashOf(st.source))
    && !FilterDiffers(st.row, st.filter)
  }

  /** A successful status write, with source and filter still as they were synced, leaves a quiet, complete row. */
  lemma SuccessIsQuiet(p: Policy, m: Matcher, st: State, w: nat)
    requires st.flights.Keys == {w} && st.flights[w].Finished? && st.source.Fetched?
    requires st.flights[w].published == Some(HashOf(st.source)) && st.flights[w].filter == st.filter
    ensures var st' := Next(p, m, st, Report(w));
            Quiet(st') && st'.row.phase == Complete && st'.row.endedAt == Some(st.now)
  {
    assert (st.flights - {w}).Keys == {};
  }

  /** A quiet source is left alone: while source and configuration stay, no tick claims it and nothing is published. */
  lemma {:induction false} QuietWhileUnchanged(p: Policy, m: Matcher, st: State, steps: seq<Step>)
    requires Quiet(st)
    requires forall s :: s in steps ==> !s.SourceChanges? && !s.Reconfigured?
    ensures var end := Run(p, m, st, steps); Quiet(end) && end.row == st.row && end.store == st.store
    decreases |steps|
  {
    if steps != [] {
      assert steps[0] in steps;
      var st' := Next(p, m, st, steps[0]);
      assert st'.flights == map[];
      QuietWhileUnchanged(p, m, st', steps[1..]);
    }
  }

  /**
   A failed sync is retried: after its status write, whatever then happens to the source, the configuration and the
   clock, the next tick that finds the row eligible claims it.
   */
  lemma {:induction false} FailureIsRetried(m: Matcher, st: State, steps: seq<Step>, w: nat)
    requires st.row.phase == Failed && st.row.syncHash.None? && w !in st.flights
    requires forall s :: s in steps ==> s.SourceChanges? || s.Reconfigured? || s.Advance?
    ensures var end := Run(Shipped, m, st, steps);
            Claims(end, w) <==> Eligible(end.row, end.now) && !end.row.schedule.Unparsable?
    decreases |steps|
  {
    if steps != [] {
      assert steps[0] in steps;
      FailureIsRetried(m, Next(Shipped, m, st, steps[0]), steps[1..], w);
    }
  }

  lemma FailureClearsTheHash(m: Matcher, st: State, w: nat)
    requires w in st.flights && st.flights[w].Finished? && st.flights[w].published.None?
    ensures var st' := Next(Shipped, m, st, Report(w));
            && st'.row.phase == Failed && st'.row.syncHash.None? && w !in st'.flights && st'.store == st.store
            && st'.row.endedAt == Some(st.now)
  {
  }

  /** Every status write stamps the end, of a sync that worked and of one that failed, under either policy. */
  lemma EveryReportStampsTheEnd(p: Policy, m: Matcher, st: State, w: nat)
    requires w in st.flights && st.flights[w].Finished?
    ensures var st' := Next(p, m, st, Report(w));
            && st'.row.endedAt == Some(st.now) && w !in st'.flights
            && st'.row.phase == (if st.flights[w].published.Some? then Complete else Failed)
            && st'.row.schedule == st.row.schedule && (st.store, st.now, st.source) == (st'.store, st'.now, st'.source)
  {
  }

  /** What is on record after a status write: as shipped the published hash only; as documented the last success. */
  lemma OnRecordAfterReport(p: Policy, m: Matcher, st: State, w: nat)
    requires w in st.flights && st.flights[w].Finished?
    ensures var f, row := st.flights[w], Next(p, m, st, Report(w)).row;
            && (p == Shipped ==> row.syncHash == f.published && row.filterHash.None? && row.lastAttempt.None?)
            && (p == Documented && f.published.Some? ==>
                  row.syncHash == f.published && row.filterHash == Some(FilterHash(f.filter)))
            && (p == Documented && f.published.None? ==>
                  row.syncHash == st.row.syncHash && row.filterHash == st.row.filterHash)
  {
  }

  /** The steps of source, clock and configuration leave all of the row but its schedule, and all flights, alone. */
  lemma {:induction false} OutsideSteps(p: Policy, m: Matcher, st: State, steps: seq<Step>)
    requires forall s :: s in steps ==> s.SourceChanges? || s.Reconfigured? || s.Advance?
    ensures var end := Run(p, m, st, steps);
            end.row.(schedule := st.row.schedule) == st.row && end.flights == st.flights && end.now >= st.now
    decreases |steps|
  {
    if steps != [] {
      assert steps[0] in steps;
      OutsideSteps(p, m, Next(p, m, st, steps[0]), steps[1..]);
    }
  }

  /**
   When a source is claimed again after a status write, whatever source, configuration and clock do meanwhile: exactly
   one interval of the schedule then configured after the write, and if the fetch fails or does not show the data just
   published; a failed sync published none. Without a schedule it is never claimed again.
   */
  lemma {:induction false} NextClaimIff(m: Matcher, st: State, w: nat, steps: seq<Step>, v: nat)
    requires w in st.flights && st.flights[w].Finished? && (v == w || v !in st.flights)
    requires forall s :: s in steps ==> s.SourceChanges? || s.Reconfigured? || s.Advance?
    ensures var end := Run(Shipped, m, Next(Shipped, m, st, Report(w)), steps);
            Claims(end, v) <==>
            && end.row.schedule.Every? && st.now + end.row.schedule.interval <= end.now
            && (end.source.Fetched? ==> st.flights[w].published != Some(HashOf(end.source)))
  {
    var st' := Next(Shipped, m, st, Report(w));
    var end := Run(Shipped, m, st', steps);
    OutsideSteps(Shipped, m, st', steps);
    DecideRule(end.row, end.filter, false, end.now, end.source);
  }

  /** A new schedule counts at once, from the last end on. */
  lemma RescheduledClaimIff(m: Matcher, st: State, w: nat, f: Option<Filter>, schedule: Schedule, delta: nat)
    requires w in st.flights && st.flights[w].Finished? && st.flights[w].published.None?
    ensures var end := Next(Shipped, m, Next(Shipped, m, Next(Shipped, m, st, Report(w)), Reconfigured(f, schedule)),
                            Advance(delta));
            end.filter == f && (Claims(end, w) <==> schedule.Every? && schedule.interval <= delta)
  {
  }

  /** A failing source backs off: under either policy no tick claims it before its interval has passed. */
  lemma {:induction false} FailureBacksOff(p: Policy, m: Matcher, st: State, w: nat, steps: seq<Step>, v: nat)
    requires w in st.flights && st.flights[w].Finished? && st.flights[w].published.None?
    requires forall s :: s in steps ==> s.SourceChanges? || s.Advance?
    ensures var end := Run(p, m, Next(p, m, st, Report(w)), steps);
            Claims(end, v) ==> st.row.schedule.Every? && end.now >= st.now + st.row.schedule.interval
  {
    OutsideSteps(p, m, Next(p, m, st, Report(w)), steps);
    ScheduleKept(p, m, Next(p, m, st, Report(w)), steps);
  }

  lemma {:induction false} ScheduleKept(p: Policy, m: Matcher, st: State, steps: seq<Step>)
    requires forall s :: s in steps ==> s.SourceChanges? || s.Advance?
    ensures Run(p, m, st, steps).row.schedule == st.row.schedule
    decreases |steps|
  {
    if steps != [] {
      assert steps[0] in steps;
      ScheduleKept(p, m, Next(p, m, st, steps[0]), steps[1..]);
    }
  }

  /** A sync claimed on a failed fetch publishes what the source serves when it fetches again, or nothing. */
  lemma LateFetch(p: Policy, m: Matcher, st: State, w: nat, o: Outcome, ok: bool)
    requires Claims(st, w) && st.source.Unavailable?
    ensures var st1 := Next(p, m, Next(p, m, st, Tick(w)), SourceChanges(o));
            var st2 := Next(p, m, st1, Perform(w, ok));
            && st2.store == (if o.Fetched? && ok then FilteredData(m, st.filter, o.reg.data) else st.store)
            && (Next(p, m, st2, Report(w)).row.phase == Complete <==> o.Fetched? && ok)
  {
  }

  /** One that fetched ahead publishes that, filtered as configured at the claim, whatever has changed since. */
  lemma EarlyFetch(p: Policy, m: Matcher, st: State, w: nat, o: Outcome, f: Option<Filter>, ok: bool)
    requires Claims(st, w) && st.source.Fetched?
    ensures var st1 := Next(p, m, Next(p, m, st, Tick(w)), SourceChanges(o));
            var st2 := Next(p, m, Next(p, m, st1, Reconfigured(f, st.row.schedule)), Perform(w, ok));
            && st2.store == (if ok then FilteredData(m, st.filter, st.source.reg.data) else st.store)
            && (Next(p, m, st2, Report(w)).row.phase == Complete <==> ok)
  {
  }

  // ---------------------------------------------------------------- a lost sync on unchanged data

  ghost predicate Wedged(st: State) {
    && st.flights == map[] && st.row.phase == Syncing && st.row.filterHash.None?
    && st.source.Fetched? && st.row.syncHash == Some(HashOf(st.source))
  }

  /**
   A claimed row whose process died stays "syncing" for as long as the source serves the data last recorded,
   through every later tick, hour and reconfiguration: only a changed or failing fetch frees it.
   */
  lemma {:induction false} WedgedUntilSourceChanges(m: Matcher, st: State, steps: seq<Step>)
    requires Wedged(st)
    requires forall s :: s in steps ==> !s.SourceChanges?
    ensures Wedged(Run(Shipped, m, st, steps)) && Run(Shipped, m, st, steps).store == st.store
    decreases |steps|
  {
    if steps != [] {
      var st' := Next(Shipped, m, st, steps[0]);
      if steps[0].Lose? {
        assert st'.flights == map[];
      }
      WedgedUntilSourceChanges(m, st', steps[1..]);
    }
  }

  // ---------------------------------------------------------------- what the assumptions are for

  lemma {:induction false} Unroll(p: Policy, m: Matcher, st: State, step: Step, rest: seq<Step>)
    ensures Run(p, m, st, [step] + rest) == Run(p, m, Next(p, m, st, step), rest)
    ensures PromptRun(p, m, st, [step] + rest) <==> Prompt(st, step) && PromptRun(p, m, Next(p, m, st, step), rest)
    ensures UntornRun(p, m, st, [step] + rest) <==> Untorn(st, step) && UntornRun(p, m, Next(p, m, st, step), rest)
  {
    assert ([step] + rest)[1..] == rest;
  }

  function Fresh(source: Outcome): State {
    State(0, source, None, Status(Failed, None, None, None, None, Every(1)), Data([], [], []), None, map[])
  }

  /** The state after one clean sync of o. */
  function AfterSync(p: Policy, o: Outcome): State
    requires o.Fetched?
  {
    var row := Status(Syncing, Some(0), None, None, None, Every(1));
    State(1, o, None, Terminal(p, row, 0, Finished(0, None, Some(HashOf(o)))),
          o.reg.data, Some(Origin(HashOf(o), None)), map[])
  }

  /** From the claim on, one clean sync. */
  function Claimed(o: Outcome): State
    requires o.Fetched?
  {
    Fresh(o).(row := Status(Syncing, Some(0), None, None, None, Every(1)),
              flights := map[0 := Running(0, None, Some(o))])
  }

  lemma ClaimedRun(p: Policy, m: Matcher, o: Outcome, rest: seq<Step>) returns (steps: seq<Step>)
    requires o.Fetched?
    ensures Run(p, m, Claimed(o), steps) == Run(p, m, AfterSync(p, o), rest)
    ensures PromptRun(p, m, Claimed(o), steps) <==> PromptRun(p, m, AfterSync(p, o), rest)
    ensures UntornRun(p, m, Claimed(o), steps) <==> UntornRun(p, m, AfterSync(p, o), rest)
  {
    var b, c, d := Perform(0, true), Report(0), Advance(1);
    steps := [b] + ([c] + ([d] + rest));
    var s2 := Next(p, m, Claimed(o), b);
    var s3 := Next(p, m, s2, c);
    Unroll(p, m, Claimed(o), b, [c] + ([d] + rest));
    Unroll(p, m, s2, c, [d] + rest);
    Unroll(p, m, s3, d, rest);
    assert s3.flights == map[];
  }

  lemma CleanSync(p: Policy, m: Matcher, o: Outcome, rest: seq<Step>) returns (steps: seq<Step>)
    requires o.Fetched?
    ensures Run(p, m, Fresh(o), steps) == Run(p, m, AfterSync(p, o), rest)
    ensures PromptRun(p, m, Fresh(o), steps) <==> PromptRun(p, m, AfterSync(p, o), rest)
    ensures UntornRun(p, m, Fresh(o), steps) <==> UntornRun(p, m, AfterSync(p, o), rest)
  {
    var later := ClaimedRun(p, m, o, rest);
    steps := [Tick(0)] + later;
    Unroll(p, m, Fresh(o), Tick(0), later);
    assert Next(p, m, Fresh(o), Tick(0)) == Claimed(o);
  }

  /** Publish a server, then exclude it: the next due tick skips and the server stays published. */
  lemma FilterChangeIsMissed(m: Matcher, pat: string, s: Server) returns (init: State, steps: seq<Step>)
    requires m(pat, s.name) == Match
    ensures Initial(init) && PromptRun(Shipped, m, init, steps) && UntornRun(Shipped, m, init, steps)
    ensures var st := Run(Shipped, m, init, steps);
            Skips(st, 0) && st.store.servers == [s] && FilteredData(m, st.filter, st.source.reg.data).servers == []
  {
    var o := Fetched(Registry("", "", "", Data([s], [], [])), "");
    var f := Some(Filter(Some(Lists([], [pat])), None));
    init := Fresh(o);
    steps := CleanSync(Shipped, m, o, [Reconfigured(f, Every(1))] + []);
    Unroll(Shipped, m, AfterSync(Shipped, o), Reconfigured(f, Every(1)), []);
    assert !KeepsServer(m, f.value)(s);
    assert FilterSeq(KeepsServer(m, f.value), [s]) == [];
  }

  /** The state after oy was published over a clean sync of ox and the process died before writing its status. */
  function AfterTorn(p: Policy, ox: Outcome, oy: Outcome): State
    requires ox.Fetched? && oy.Fetched?
  {
    AfterSync(p, ox).(source := oy, row := AfterSync(p, ox).row.(phase := Syncing, lastAttempt := Some(1)),
                      store := oy.reg.data, origin := Some(Origin(HashOf(oy), None)))
  }

  lemma TornSync(p: Policy, m: Matcher, ox: Outcome, oy: Outcome, rest: seq<Step>) returns (steps: seq<Step>)
    requires ox.Fetched? && oy.Fetched? && HashOf(ox) != HashOf(oy)
    ensures Run(p, m, AfterSync(p, ox), steps) == Run(p, m, AfterTorn(p, ox, oy), rest)
    ensures PromptRun(p, m, AfterSync(p, ox), steps) <==> PromptRun(p, m, AfterTorn(p, ox, oy), rest)
    ensures !UntornRun(p, m, AfterSync(p, ox), steps)
  {
    var s0 := AfterSync(p, ox);
    var a, b, c, d := SourceChanges(oy), Tick(0), Perform(0, true), Lose(0);
    steps := [a] + ([b] + ([c] + ([d] + rest)));
    var s1 := Next(p, m, s0, a);
    var s2 := Next(p, m, s1, b);
    var s3 := Next(p, m, s2, c);
    Unroll(p, m, s0, a, [b] + ([c] + ([d] + rest)));
    Unroll(p, m, s1, b, [c] + ([d] + rest));
    Unroll(p, m, s2, c, [d] + rest);
    Unroll(p, m, s3, d, rest);
    assert Claims(s1, 0);
    assert s3.flights - {0} == map[];
  }

  /**
   Lose a sync between its publication and its status write and let the source go back: under either policy the
   row still vouches for the old data and the tick skips, with the newer data published.
   */
  lemma TornSyncIsMissed(p: Policy, m: Matcher, x: Server, y: Server) returns (init: State, steps: seq<Step>)
    requires x != y
    ensures Initial(init) && PromptRun(p, m, init, steps) && !UntornRun(p, m, init, steps)
    ensures var st := Run(p, m, init, steps);
            Skips(st, 0) && st.store.servers == [y] && FilteredData(m, st.filter, st.source.reg.data).servers == [x]
  {
    var ox := Fetched(Registry("", "", "", Data([x], [], [])), "");
    var oy := Fetched(Registry("", "", "", Data([y], [], [])), "");
    assert HashOf(ox).data.servers[0] != HashOf(oy).data.servers[0];
    init := Fresh(ox);
    var e, f := Advance(GRACE + 1), SourceChanges(ox);
    var torn := TornSync(p, m, ox, oy, [e] + ([f] + []));
    steps := CleanSync(p, m, ox, torn);
    var s4 := AfterTorn(p, ox, oy);
    Unroll(p, m, s4, e, [f] + []);
    Unroll(p, m, Next(p, m, s4, e), f, []);
  }

  /** Lose the status write of oy and let the source go back to ox: the row is wedged. */
  lemma WedgedIsReached(m: Matcher, ox: Outcome, oy: Outcome) returns (init: State, steps: seq<Step>)
    requires ox.Fetched? && oy.Fetched? && HashOf(ox) != HashOf(oy)
    ensures Initial(init) && PromptRun(Shipped, m, init, steps) && Wedged(Run(Shipped, m, init, steps))
  {
    init := Fresh(ox);
    var f := SourceChanges(ox);
    var torn := TornSync(Shipped, m, ox, oy, [f] + []);
    steps := CleanSync(Shipped, m, ox, torn);
    Unroll(Shipped, m, AfterTorn(Shipped, ox, oy), f, []);
  }

  /** Let a sync outlast the hour and a second coordinator claims the source beside it. */
  lemma SlowSyncIsOvertaken(p: Policy, m: Matcher, o: Outcome) returns (init: State, steps: seq<Step>)
    ensures Initial(init) && !PromptRun(p, m, init, steps) && UntornRun(p, m, init, steps)
    ensures Run(p, m, init, steps).flights.Keys == {0, 1}
  {
    init := Fresh(o);
    var a, b, c := Tick(0), Advance(GRACE + 1), Tick(1);
    steps := [a] + ([b] + ([c] + []));
    var s1 := Next(p, m, init, a);
    var s2 := Next(p, m, s1, b);
    Unroll(p, m, init, a, [b] + ([c] + []));
    Unroll(p, m, s1, b, [c] + []);
    Unroll(p, m, s2, c, []);
  }
}
