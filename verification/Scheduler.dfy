/**
 Which source a coordinator tick works on (the ListSourceSyncsByLastUpdate query and GetNextSyncJob).
 Rows are listed in name order, so an index stands for a name.
 */
module Scheduler {
  import opened Common

  datatype Row = Row(endedAt: Option<int>, schedule: Option<int>)

  /** ended_at IS NULL OR ended_at + sync_schedule <= now(); a NULL schedule never satisfies the second. */
  predicate Due(r: Row, now: int) {
    r.endedAt.None? || (r.schedule.Some? && r.endedAt.value + r.schedule.value <= now)
  }

  /** ORDER BY ended_at ASC NULLS FIRST, name ASC. */
  predicate Before(rows: seq<Row>, i: nat, j: nat)
    requires i < |rows| && j < |rows|
  {
    var a, b := rows[i].endedAt, rows[j].endedAt;
    if a == b then i < j else a.None? || (b.Some? && a.value < b.value)
  }

  /** LIMIT 1 over the first n rows. */
  function PickBelow(rows: seq<Row>, now: int, n: nat): (p: Option<nat>)
    requires n <= |rows|
    ensures p.Some? ==> p.value < n && Due(rows[p.value], now)
                        && forall i: nat :: i < n && Due(rows[i], now) && i != p.value ==> Before(rows, p.value, i)
    ensures p.None? ==> forall i: nat :: i < n ==> !Due(rows[i], now)
  {
    if n == 0 then None
    else
      var p := PickBelow(rows, now, n - 1);
      if !Due(rows[n - 1], now) then p
      else if p.Some? && Before(rows, p.value, n - 1) then p
      else Some(n - 1)
  }

  function Pick(rows: seq<Row>, now: int): Option<nat> {
    PickBelow(rows, now, |rows|)
  }

  /** The pick, written out: due, and first by end time, never ended before ended, then by name. */
  lemma PickIff(rows: seq<Row>, now: int, p: nat)
    ensures Pick(rows, now) == Some(p) <==>
            && p < |rows| && DueAt(rows[p], now)
            && forall i: nat :: i < |rows| && i != p && DueAt(rows[i], now) ==>
                 match (rows[p].endedAt, rows[i].endedAt)
                 case (None, None) => p < i
                 case (None, Some(_)) => true
                 case (Some(_), None) => false
                 case (Some(a), Some(b)) => a < b || (a == b && p < i)
  {
    var q := Pick(rows, now);
    assert forall i: nat :: i < |rows| ==> Due(rows[i], now) == DueAt(rows[i], now);
    if p < |rows| && q.Some? && q != Some(p) && Due(rows[p], now) {
      assert Before(rows, q.value, p);
    }
  }

  /** Never synced, or its interval has passed since the last end; without an interval never again. */
  predicate DueAt(r: Row, now: int) {
    match (r.endedAt, r.schedule)
    case (None, _) => true
    case (Some(e), Some(d)) => now >= e + d
    case (Some(_), None) => false
  }

  /** One tick at `start`: which sources ShouldSync would sync, and when the sync's status write lands. */
  datatype Round = Round(start: int, syncs: seq<bool>, finish: int)

  /** Consecutive rounds over n sources, none starting before the one before it has finished. */
  predicate Rounds(n: nat, from: int, rounds: seq<Round>)
    decreases |rounds|
  {
    rounds == [] ||
    (|rounds[0].syncs| == n && from <= rounds[0].start <= rounds[0].finish
     && Rounds(n, rounds[0].finish, rounds[1..]))
  }

  /** The source the round works on. */
  function Works(rows: seq<Row>, r: Round): Option<nat>
    requires |r.syncs| == |rows|
  {
    var p := Pick(rows, r.start);
    if p.Some? && r.syncs[p.value] then p else None
  }

  /** A sync ends, well or badly, and stamps ended_at; a skipped source is left as it was. */
  function After(rows: seq<Row>, r: Round): (rows': seq<Row>)
    requires |r.syncs| == |rows|
    ensures |rows'| == |rows|
  {
    var w := Works(rows, r);
    if w.Some? then rows[w.value := rows[w.value].(endedAt := Some(r.finish))] else rows
  }

  /** Source y is worked on in some round. */
  ghost predicate Served(rows: seq<Row>, from: int, rounds: seq<Round>, y: nat)
    requires Rounds(|rows|, from, rounds)
    decreases |rounds|
  {
    rounds != [] && (
      || Works(rows, rounds[0]) == Some(y)
      || Served(After(rows, rounds[0]), rounds[0].finish, rounds[1..], y))
  }

  /** How many of the first n rows come before y. */
  function Ahead(rows: seq<Row>, y: nat, n: nat): nat
    requires y < |rows| && n <= |rows|
  {
    if n == 0 then 0 else Ahead(rows, y, n - 1) + (if Before(rows, n - 1, y) then 1 else 0)
  }

  lemma {:induction false} AheadBound(rows: seq<Row>, y: nat, n: nat)
    requires y < |rows| && n <= |rows|
    ensures Ahead(rows, y, n) <= n - (if y < n then 1 else 0)
  {
    if n > 0 {
      AheadBound(rows, y, n - 1);
    }
  }

  /** Moving z behind y takes exactly one row away from in front of y. */
  lemma {:induction false} AheadDrops(rows: seq<Row>, rows': seq<Row>, y: nat, z: nat, n: nat)
    requires y < |rows| == |rows'| && z < |rows| && n <= |rows| && y != z
    requires forall i: nat :: i < |rows| && i != z ==> rows'[i] == rows[i]
    requires Before(rows, z, y) && !Before(rows', z, y)
    ensures Ahead(rows', y, n) == Ahead(rows, y, n) - (if z < n then 1 else 0)
  {
    if n > 0 {
      AheadDrops(rows, rows', y, z, n - 1);
      assert n - 1 != z ==> (Before(rows', n - 1, y) == Before(rows, n - 1, y));
    }
  }

  /** Source x is due and no round wants to sync it: its data did not change. */
  predicate UpToDate(rounds: seq<Round>, x: nat) {
    forall i :: 0 <= i < |rounds| ==> x < |rounds[i].syncs| && !rounds[i].syncs[x]
  }

  /**
   Starvation: a due source that is up to date keeps its place, because a skip does not stamp ended_at; no source
   behind it is ever served, however many rounds follow and however overdue it gets.
   */
  lemma {:induction false} UpToDateSourceStarvesOthers(rows: seq<Row>, from: int, rounds: seq<Round>, x: nat, y: nat)
    requires x < |rows| && y < |rows| && x != y && Rounds(|rows|, from, rounds)
    requires Due(rows[x], from) && Before(rows, x, y) && UpToDate(rounds, x)
    ensures !Served(rows, from, rounds, y)
    decreases |rounds|
  {
    if rounds != [] {
      var r := rounds[0];
      assert Due(rows[x], r.start);
      assert Pick(rows, r.start) != Some(y) by {
        assert Before(rows, y, x) ==> false;
      }
      var rows' := After(rows, r);
      assert UpToDate(rounds[1..], x);
      UpToDateSourceStarvesOthers(rows', r.finish, rounds[1..], x, y);
    }
  }

  /** Each source that a round finds due before y, and y itself, is wanted in that round. */
  ghost predicate AheadWanted(rows: seq<Row>, from: int, rounds: seq<Round>, y: nat)
    requires y < |rows| && Rounds(|rows|, from, rounds)
    decreases |rounds|
  {
    rounds == [] || (
      && (forall x: nat :: x < |rows| && (x == y || Before(rows, x, y)) && Due(rows[x], rounds[0].start) ==>
            rounds[0].syncs[x])
      && AheadWanted(rows, rounds[0].finish, rounds[1..], y))
  }

  /** Moving rows behind y leaves fewer to be wanted. */
  lemma {:induction false} StillWanted(rows: seq<Row>, rows': seq<Row>, from: int, rounds: seq<Round>, y: nat, z: nat)
    requires y < |rows| == |rows'| && z < |rows| && z != y && Rounds(|rows|, from, rounds)
    requires forall i: nat :: i < |rows| && i != z ==> rows'[i] == rows[i]
    requires !Before(rows', z, y) && AheadWanted(rows, from, rounds, y)
    ensures AheadWanted(rows', from, rounds, y)
    decreases |rounds|
  {
    if rounds != [] {
      forall x: nat | x < |rows| && (x == y || Before(rows', x, y)) && Due(rows'[x], rounds[0].start)
        ensures rounds[0].syncs[x]
      {
        assert x != z;
        assert x == y || Before(rows, x, y);
      }
      StillWanted(rows, rows', rounds[0].finish, rounds[1..], y, z);
    }
  }

  /** A due row whose turn it is not has a due row before it, and a sync moves that one behind it. */
  lemma PickedBefore(rows: seq<Row>, r: Round, y: nat)
    requires y < |rows| == |r.syncs| && r.start <= r.finish && Due(rows[y], r.start)
    requires rows[y].schedule.Some? ==> rows[y].schedule.value > 0
    ensures var p := Pick(rows, r.start); p.Some? && p.value < |rows| && Due(rows[p.value], r.start)
    ensures var z := Pick(rows, r.start).value;
            z != y ==> Before(rows, z, y) && (r.syncs[z] ==> !Before(After(rows, r), z, y))
  {
  }

  /**
   Fairness: a due source is served after at most as many rounds as rows stand before it, as long as it and the due
   sources before it are wanted, and whether those succeed or fail.
   */
  lemma {:induction false} ServedInTurn(rows: seq<Row>, from: int, rounds: seq<Round>, y: nat)
    requires y < |rows| && Rounds(|rows|, from, rounds) && AheadWanted(rows, from, rounds, y)
    requires Due(rows[y], from) && (rows[y].schedule.Some? ==> rows[y].schedule.value > 0)
    requires |rounds| > Ahead(rows, y, |rows|)
    ensures Served(rows, from, rounds, y)
    decreases |rounds|
  {
    var r := rounds[0];
    PickedBefore(rows, r, y);
    var z := Pick(rows, r.start).value;
    if z != y {
      var rows' := After(rows, r);
      AheadDrops(rows, rows', y, z, |rows|);
      StillWanted(rows, rows', r.finish, rounds[1..], y, z);
      ServedInTurn(rows', r.finish, rounds[1..], y);
    }
  }

  /** A source that was worked on rests: it is served again in no round that starts within its interval. */
  lemma {:induction false} RestsForItsInterval(rows: seq<Row>, from: int, rounds: seq<Round>, y: nat, ended: int)
    requires y < |rows| && Rounds(|rows|, from, rounds) && rows[y].endedAt == Some(ended)
    requires forall i :: 0 <= i < |rounds| && rows[y].schedule.Some? ==>
                           rounds[i].start < ended + rows[y].schedule.value
    ensures !Served(rows, from, rounds, y)
    decreases |rounds|
  {
    if rounds != [] {
      assert !Due(rows[y], rounds[0].start);
      RestsForItsInterval(After(rows, rounds[0]), rounds[0].finish, rounds[1..], y, ended);
    }
  }

  /** The round stamps the end of the source it works on, and of no other. */
  lemma RoundStamps(rows: seq<Row>, r: Round, i: nat)
    requires |r.syncs| == |rows| && i < |rows|
    ensures After(rows, r)[i].schedule == rows[i].schedule
    ensures After(rows, r)[i].endedAt ==
            if Pick(rows, r.start) == Some(i) && r.syncs[i] then Some(r.finish) else rows[i].endedAt
  {
  }

  // ---------------------------------------------------------------- exactly when

  /** The same sources are wanted in every round. */
  ghost predicate Wanting(wants: seq<bool>, rounds: seq<Round>) {
    forall i :: 0 <= i < |rounds| ==> rounds[i].syncs == wants
  }

  /** How many of the first n rows come before y and are due at t. */
  function DueAhead(rows: seq<Row>, y: nat, t: int, n: nat): nat
    requires y < |rows| && n <= |rows|
  {
    if n == 0 then 0
    else DueAhead(rows, y, t, n - 1) + (if Before(rows, n - 1, y) && Due(rows[n - 1], t) then 1 else 0)
  }

  /** The start of the first round with no more due rows before y than rounds gone by: y's turn. */
  function Turn(rows: seq<Row>, rounds: seq<Round>, y: nat, gone: nat): Option<int>
    requires y < |rows|
  {
    if rounds == [] then None
    else if DueAhead(rows, y, rounds[0].start, |rows|) <= gone then Some(rounds[0].start)
    else Turn(rows, rounds[1..], y, gone + 1)
  }

  lemma {:induction false} DueAheadNone(rows: seq<Row>, y: nat, t: int, n: nat)
    requires y < |rows| && n <= |rows|
    ensures DueAhead(rows, y, t, n) == 0 <==> forall x: nat :: x < n && Before(rows, x, y) ==> !Due(rows[x], t)
    ensures DueAhead(rows, y, t, n) <= Ahead(rows, y, n)
  {
    if n > 0 {
      DueAheadNone(rows, y, t, n - 1);
    }
  }

  /** Moving a due row behind y takes exactly one due row away from in front of y, now and later. */
  lemma {:induction false} DueAheadDrops(rows: seq<Row>, rows': seq<Row>, y: nat, z: nat, t: int, n: nat)
    requires y < |rows| == |rows'| && z < |rows| && n <= |rows| && y != z
    requires forall i: nat :: i < |rows| && i != z ==> rows'[i] == rows[i]
    requires Before(rows, z, y) && !Before(rows', z, y) && Due(rows[z], t)
    ensures DueAhead(rows', y, t, n) == DueAhead(rows, y, t, n) - (if z < n then 1 else 0)
  {
    if n > 0 {
      DueAheadDrops(rows, rows', y, z, t, n - 1);
      assert n - 1 != z ==> (Before(rows', n - 1, y) == Before(rows, n - 1, y));
    }
  }

  /** So the turn is the same, counted from one round later. */
  lemma {:induction false} TurnShifts(rows: seq<Row>, rows': seq<Row>, from: int, rounds: seq<Round>, y: nat, z: nat,
                                      gone: nat)
    requires y < |rows| == |rows'| && z < |rows| && y != z && Rounds(|rows|, from, rounds)
    requires forall i: nat :: i < |rows| && i != z ==> rows'[i] == rows[i]
    requires Before(rows, z, y) && !Before(rows', z, y) && Due(rows[z], from)
    ensures Turn(rows', rounds, y, gone) == Turn(rows, rounds, y, gone + 1)
    decreases |rounds|
  {
    if rounds != [] {
      DueAheadDrops(rows, rows', y, z, rounds[0].start, |rows|);
      TurnShifts(rows, rows', rounds[0].finish, rounds[1..], y, z, gone + 1);
    }
  }

  lemma {:induction false} TurnNotBefore(rows: seq<Row>, from: int, rounds: seq<Round>, y: nat, gone: nat)
    requires y < |rows| && Rounds(|rows|, from, rounds)
    ensures var turn := Turn(rows, rounds, y, gone);
            turn.Some? ==> from <= turn.value && exists i :: 0 <= i < |rounds| && rounds[i].start == turn.value
    ensures |rounds| + gone > Ahead(rows, y, |rows|) ==> rounds == [] || Turn(rows, rounds, y, gone).Some?
    decreases |rounds|
  {
    if rounds != [] {
      DueAheadNone(rows, y, rounds[0].start, |rows|);
      TurnNotBefore(rows, rounds[0].finish, rounds[1..], y, gone + 1);
      var later := Turn(rows, rounds[1..], y, gone + 1);
      if later.Some? {
        var i :| 0 <= i < |rounds[1..]| && rounds[1..][i].start == later.value;
        assert rounds[i + 1].start == later.value;
      }
    }
  }

  /** A source that no round wants is never served. */
  lemma {:induction false} UnwantedNeverServed(rows: seq<Row>, from: int, rounds: seq<Round>, y: nat)
    requires y < |rows| && Rounds(|rows|, from, rounds) && UpToDate(rounds, y)
    ensures !Served(rows, from, rounds, y)
    decreases |rounds|
  {
    if rounds != [] {
      assert rounds[0].syncs[y] == false;
      assert UpToDate(rounds[1..], y);
      UnwantedNeverServed(After(rows, rounds[0]), rounds[0].finish, rounds[1..], y);
    }
  }

  /** y and every row before it that is due at t are wanted. */
  ghost predicate ClearAt(rows: seq<Row>, wants: seq<bool>, y: nat, t: int)
    requires y < |rows| == |wants|
  {
    wants[y] && forall x: nat :: x < |rows| && Before(rows, x, y) && Due(rows[x], t) ==> wants[x]
  }

  /**
   Fairness, exactly: where each round wants the same sources, a due source is served if and only if its turn comes
   within the rounds and it and every source that is due before it at that time are wanted.
   */
  lemma {:induction false} ServedIff(rows: seq<Row>, from: int, rounds: seq<Round>, wants: seq<bool>, y: nat)
    requires y < |rows| == |wants| && Rounds(|rows|, from, rounds) && Wanting(wants, rounds)
    requires Due(rows[y], from) && (rows[y].schedule.Some? ==> rows[y].schedule.value > 0)
    ensures var turn := Turn(rows, rounds, y, 0);
            Served(rows, from, rounds, y) <==> turn.Some? && ClearAt(rows, wants, y, turn.value)
    decreases |rounds|
  {
    if rounds != [] {
      var r, rest := rounds[0], rounds[1..];
      assert Wanting(wants, rest);
      PickedBefore(rows, r, y);
      DueAheadNone(rows, y, r.start, |rows|);
      TurnNotBefore(rows, r.start, rounds, y, 0);
      var z := Pick(rows, r.start).value;
      if z == y {
        if !wants[y] {
          UnwantedNeverServed(rows, from, rounds, y);
        }
      } else if !wants[z] {
        UpToDateSourceStarvesOthers(rows, r.start, rounds, z, y);
        assert Served(rows, from, rounds, y) == Served(rows, r.start, rounds, y);
      } else {
        var rows' := After(rows, r);
        TurnShifts(rows, rows', r.finish, rest, y, z, 0);
        ServedIff(rows', r.finish, rest, wants, y);
        ClearShifts(rows, rows', wants, y, z);
      }
    }
  }

  lemma ClearShifts(rows: seq<Row>, rows': seq<Row>, wants: seq<bool>, y: nat, z: nat)
    requires y < |rows| == |rows'| == |wants| && z < |rows| && y != z && wants[z]
    requires forall i: nat :: i < |rows| && i != z ==> rows'[i] == rows[i]
    requires !Before(rows', z, y)
    ensures forall t :: ClearAt(rows', wants, y, t) == ClearAt(rows, wants, y, t)
  {
    forall t ensures ClearAt(rows', wants, y, t) == ClearAt(rows, wants, y, t) {
      assert forall x: nat :: x < |rows| && x != z ==> Before(rows', x, y) == Before(rows, x, y);
    }
  }

  /** No round finds a source due that was not due before the first. */
  ghost predicate NoneTurnsDue(rows: seq<Row>, from: int, rounds: seq<Round>) {
    forall x: nat, i :: x < |rows| && 0 <= i < |rounds| && Due(rows[x], rounds[i].start) ==> Due(rows[x], from)
  }

  /** A source that is due and that ShouldSync would sync. */
  ghost predicate Waiting(rows: seq<Row>, from: int, wants: seq<bool>, y: nat)
    requires |wants| == |rows|
  {
    y < |rows| && Due(rows[y], from) && wants[y]
  }

  /**
   With as many rounds as sources, and none turning due meanwhile, every source waiting for a sync is served if and
   only if no due source before it is up to date.
   */
  lemma {:induction false} EveryWaitingSourceServedIff(rows: seq<Row>, from: int, rounds: seq<Round>, wants: seq<bool>)
    requires Rounds(|rows|, from, rounds) && |wants| == |rows| && Wanting(wants, rounds) && |rounds| >= |rows|
    requires NoneTurnsDue(rows, from, rounds)
    requires forall r :: r in rows && r.schedule.Some? ==> r.schedule.value > 0
    ensures (forall y: nat :: Waiting(rows, from, wants, y) ==> Served(rows, from, rounds, y)) <==>
            forall x: nat, y: nat ::
              Waiting(rows, from, wants, y) && x < |rows| && Due(rows[x], from) && Before(rows, x, y) ==> wants[x]
  {
    forall y: nat | Waiting(rows, from, wants, y)
      ensures Served(rows, from, rounds, y) <==>
              forall x: nat :: x < |rows| && Before(rows, x, y) && Due(rows[x], from) ==> wants[x]
    {
      assert rows[y] in rows;
      AheadBound(rows, y, |rows|);
      TurnNotBefore(rows, from, rounds, y, 0);
      ServedIff(rows, from, rounds, wants, y);
      var t := Turn(rows, rounds, y, 0).value;
      assert forall x: nat :: x < |rows| ==> Due(rows[x], t) == Due(rows[x], from);
    }
  }
}
