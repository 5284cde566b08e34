/**
  Rollup passes that overlap (packages/lifecycle/src/memory-rollup-worker.ts):
  the timer and a manual run each start a pass without waiting for the other, so
  the statements of any number of passes may interleave, with one another and
  with appends.
*/
module MemoryOverlap {
  import opened Collections
  import opened MemoryTables
  import opened MemoryPasses
  import opened MemoryRollup

  /** The tables, and where each pass that was ever begun stands. */
  datatype World = World(db: Db, passes: seq<Phase>)

  datatype Move =
    | Wait(seconds: nat)
    | Arrive(row: Event)
    | Begin
    | Advance(pass: nat, retentionDays: int)
    | Abort(pass: nat)

  /** One statement of one pass. */
  function Advanced(w: World, i: nat, retentionDays: int): World
    requires i < |w.passes|
  {
    var d := RunStatement(w.db.(phase := w.passes[i]), retentionDays);
    World(d.(phase := Idle), w.passes[i := d.phase])
  }

  function Moved(w: World, m: Move): World {
    match m
    case Wait(seconds) => w.(db := w.db.(now := w.db.now + seconds))
    case Arrive(row) => w.(db := Inserted(w.db, row))
    case Begin => w.(passes := w.passes + [AtDeleteDaily(w.db.Today())])
    case Advance(i, retentionDays) => if i < |w.passes| then Advanced(w, i, retentionDays) else w
    case Abort(i) => if i < |w.passes| then w.(passes := w.passes[i := Idle]) else w
  }

  function RunMoves(w: World, moves: seq<Move>): World {
    if moves == [] then w else Moved(RunMoves(w, moves[..|moves| - 1]), moves[|moves| - 1])
  }

  function Fresh(now: nat): World { World(EmptyDb(now), []) }

  // ------------------------------------------------------------ invariant

  function Times<T>(n: nat, s: seq<T>): seq<T> {
    if n == 0 then [] else Times(n - 1, s) + s
  }

  lemma {:induction false} TimesMembers<T>(n: nat, s: seq<T>)
    ensures n > 0 ==> forall x :: x in s ==> x in Times(n, s)
    ensures Times(n, s) == [] <==> n == 0 || s == []
  {
    if n > 0 { TimesMembers(n - 1, s); }
  }

  ghost predicate HasProject(events: seq<Event>) {
    exists e :: e in events && e.projectId.Some?
  }

  /** The day's rows are `n` copies of the group-by over every event ever recorded for it; its raw events are all
      there or all gone, and gone only when there is a copy; a day with a project event has at most one. */
  ghost predicate DayCopies(db: Db, day: nat, n: nat) {
    && DayRows(db.daily, day) == Times(n, DailyRollup(DayEvents(db.log, day)))
    && (DayIntact(db, day) || (DayEvents(db.events, day) == [] && n >= 1))
    && (HasProject(DayEvents(db.log, day)) ==> n <= 1)
  }

  ghost predicate DaySound(db: Db, day: nat) {
    exists n: nat :: DayCopies(db, day, n)
  }

  ghost predicate Sound(db: Db) {
    && (forall e :: e in db.log ==> e.createdAt <= db.now)
    && (forall e :: e in db.events ==> e.createdAt <= db.now)
    && (forall r :: r in db.daily ==> r.grain.day < db.Today())
    && (forall day: nat :: DaySound(db, day))
    && (forall g :: |CohortRows(db.cohorts, g)| <= 1)
  }

  /** No pass captured a day that has not come. */
  predicate Begun(passes: seq<Phase>, today: nat) {
    forall i :: 0 <= i < |passes| ==> passes[i] == Idle || passes[i].today <= today
  }

  ghost predicate WorldSound(w: World) {
    w.db.phase == Idle && Sound(w.db) && Begun(w.passes, w.db.Today())
  }

  lemma CopiesOf(db: Db, day: nat) returns (n: nat)
    requires Sound(db)
    ensures DayCopies(db, day, n)
  {
    assert DaySound(db, day);
    n :| DayCopies(db, day, n);
  }

  lemma DayHasRaw(db: Db, day: nat)
    requires Sound(db) && DayEvents(db.events, day) != []
    ensures DayIntact(db, day)
  {
    var n := CopiesOf(db, day);
  }

  lemma NoRowsYet(db: Db, day: nat)
    requires Sound(db) && day >= db.Today()
    ensures DayRows(db.daily, day) == [] && DayIntact(db, day)
  {
    FilterKeepsNone(db.daily, RowOn(day));
    var n := CopiesOf(db, day);
    TimesMembers(n, DailyRollup(DayEvents(db.log, day)));
    if !DayIntact(db, day) && DayEvents(db.log, day) != [] {
      EventHasRow(DayEvents(db.log, day), DayEvents(db.log, day)[0]);
    }
  }

  lemma WaitKeeps(db: Db, seconds: nat)
    requires Sound(db)
    ensures Sound(db.(now := db.now + seconds))
  {
    var db' := db.(now := db.now + seconds);
    assert db.Today() <= db'.Today();
    forall day: nat ensures DaySound(db', day) {
      var n := CopiesOf(db, day);
      assert DayCopies(db', day, n);
    }
  }

  lemma ArriveKeeps(db: Db, row: Event)
    requires Sound(db)
    ensures Sound(Inserted(db, row))
  {
    var e, db' := row.(createdAt := db.now), Inserted(db, row);
    if !HasId(db.events, e.id) {
      forall day: nat ensures DaySound(db', day) {
        FilterSnoc(db.events, e, EventOn(day));
        FilterSnoc(db.log, e, EventOn(day));
        if day == Day(e) {
          NoRowsYet(db, day);
          assert DayCopies(db', day, 0);
        } else {
          var n := CopiesOf(db, day);
          assert DayCopies(db', day, n);
        }
      }
    }
  }

  lemma DeleteDailyKeeps(db: Db, today: nat)
    requires Sound(db)
    ensures Sound(db.(daily := DailyDeleted(db, today)))
  {
    var db' := db.(daily := DailyDeleted(db, today));
    FilterMembers(db.daily, KeepsDaily(db.events, today));
    forall day: nat ensures DaySound(db', day) {
      DeleteDailyRows(db, today, day);
      if day < today && DayEvents(db.events, day) != [] {
        DayHasRaw(db, day);
        assert DayCopies(db', day, 0);
      } else {
        var n := CopiesOf(db, day);
        assert DayCopies(db', day, n);
      }
    }
  }

  /** A second copy of a day with a project event violates the unique index. */
  lemma SecondCopyCollides(db: Db, today: nat, day: nat, n: nat)
    requires DayCopies(db, day, n) && n >= 1 && DayIntact(db, day) && day < today
    requires HasProject(DayEvents(db.log, day))
    ensures DailyCollides(db.daily, FreshDaily(db, today))
  {
    var own := DayEvents(db.log, day);
    var e :| e in own && e.projectId.Some?;
    EventHasRow(own, e);
    var r :| r in DailyRollup(own) && r.grain == DailyKey(e);
    TimesMembers(n, DailyRollup(own));
    FilterMember(db.daily, RowOn(day), r);
    CompletedDay(db.events, today, day);
    RollupOfDay(CompletedEvents(db.events, today), day);
    FilterMember(FreshDaily(db, today), RowOn(day), r);
    var i :| 0 <= i < |db.daily| && db.daily[i] == r;
    var j :| 0 <= j < |FreshDaily(db, today)| && FreshDaily(db, today)[j] == r;
  }

  lemma InsertDailyKeeps(db: Db, today: nat)
    requires Sound(db) && today <= db.Today() && !DailyCollides(db.daily, FreshDaily(db, today))
    ensures Sound(db.(daily := db.daily + FreshDaily(db, today)))
  {
    var db' := db.(daily := db.daily + FreshDaily(db, today));
    forall r | r in db'.daily ensures r.grain.day < db.Today() {
      if r in FreshDaily(db, today) { FreshRowDay(db, today, r); }
    }
    forall day: nat ensures DaySound(db', day) {
      var n := CopiesOf(db, day);
      InsertDailyRows(db, today, day);
      if day < today && DayEvents(db.events, day) != [] {
        DayHasRaw(db, day);
        if n >= 1 && HasProject(DayEvents(db.log, day)) { SecondCopyCollides(db, today, day, n); }
        assert DayCopies(db', day, n + 1);
      } else {
        assert DailyRollup([]) == [];
        assert DayCopies(db', day, n);
      }
    }
  }

  lemma CohortsKeep(db: Db, cohorts: seq<CohortRow>)
    requires Sound(db) && forall g :: |CohortRows(cohorts, g)| <= 1
    ensures Sound(db.(cohorts := cohorts))
  {
    var db' := db.(cohorts := cohorts);
    forall day: nat ensures DaySound(db', day) {
      var n := CopiesOf(db, day);
      assert DayCopies(db', day, n);
    }
  }

  lemma DeleteCohortsKeeps(db: Db)
    requires Sound(db)
    ensures Sound(db.(cohorts := CohortsDeleted(db)))
  {
    forall g ensures |CohortRows(CohortsDeleted(db), g)| <= 1 { DeleteCohortRows(db, g); }
    CohortsKeep(db, CohortsDeleted(db));
  }

  lemma InsertCohortsKeeps(db: Db)
    requires Sound(db) && !CohortCollides(db.cohorts, CohortRollup(db.events))
    ensures Sound(db.(cohorts := db.cohorts + CohortRollup(db.events)))
  {
    CohortCollidesOn(db.cohorts, CohortRollup(db.events));
    forall g ensures |CohortRows(db.cohorts + CohortRollup(db.events), g)| <= 1 {
      InsertCohortRows(db, g);
      CohortRollupOf(db.events, g);
    }
    CohortsKeep(db, db.cohorts + CohortRollup(db.events));
  }

  /** The guarded prune takes a day that has a copy as a whole, and leaves any other alone. */
  lemma PrunedDay(db: Db, cutoff: int, day: nat, n: nat)
    requires DayCopies(db, day, n)
    ensures DayEvents(Pruned(db, cutoff), day) == DayEvents(db.events, day)
         || (DayEvents(Pruned(db, cutoff), day) == [] && n >= 1)
  {
    var keep, rollup := SurvivesPrune(db.daily, cutoff), DailyRollup(DayEvents(db.log, day));
    DayOfMember(db.events, day);
    TimesMembers(n, rollup);
    if day < cutoff && n >= 1 {
      forall e | e in Pruned(db, cutoff) ensures !EventOn(day)(e) {
        FilterMember(db.events, keep, e);
        if Day(e) == day { CopiedIsRolledUp(db, day, n, e); }
      }
      FilterKeepsNone(Pruned(db, cutoff), EventOn(day));
    } else {
      forall e | e in db.events && EventOn(day)(e) ensures keep(e) {
        if RolledUp(db.daily, e) {
          var i :| 0 <= i < |db.daily| && db.daily[i].grain.day == Day(e) && db.daily[i].grain.projectId == e.projectId;
          FilterMember(db.daily, RowOn(day), db.daily[i]);
        }
      }
      FilterStronger(db.events, keep, EventOn(day));
    }
  }

  lemma CopiedIsRolledUp(db: Db, day: nat, n: nat, e: Event)
    requires DayCopies(db, day, n) && n >= 1 && e in db.events && Day(e) == day
    ensures RolledUp(db.daily, e)
  {
    var own := DayEvents(db.log, day);
    DayOfMember(db.events, day);
    assert e in DayEvents(db.events, day);
    EventHasRow(own, e);
    var r :| r in DailyRollup(own) && r.grain == DailyKey(e);
    TimesMembers(n, DailyRollup(own));
    FilterMember(db.daily, RowOn(day), r);
    var i :| 0 <= i < |db.daily| && db.daily[i] == r;
  }

  lemma PruneKeeps(db: Db, cutoff: int)
    requires Sound(db)
    ensures Sound(db.(events := Pruned(db, cutoff)))
  {
    var db' := db.(events := Pruned(db, cutoff));
    FilterMembers(db.events, SurvivesPrune(db.daily, cutoff));
    forall day: nat ensures DaySound(db', day) {
      var n := CopiesOf(db, day);
      PrunedDay(db, cutoff, day, n);
      assert DayCopies(db', day, n);
    }
  }

  lemma StatementKeeps(db: Db, phase: Phase, retentionDays: int)
    requires Sound(db) && (phase == Idle || phase.today <= db.Today())
    ensures var d := RunStatement(db.(phase := phase), retentionDays);
            && Sound(d.(phase := Idle)) && d.now == db.now
            && (d.phase == Idle || d.phase.today <= db.Today())
  {
    var d := db.(phase := phase);
    PhaseIsApart(db, phase);
    match phase
    case Idle => PhaseIsApart(db, Idle);
    case AtDeleteDaily(today) => DeleteDailyKeeps(d, today); PhaseIsApart(d.(daily := DailyDeleted(d, today)), Idle);
    case AtInsertDaily(today) =>
      PhaseIsApart(d, Idle);
      if !DailyCollides(d.daily, FreshDaily(d, today)) {
        InsertDailyKeeps(d, today);
        PhaseIsApart(d.(daily := d.daily + FreshDaily(d, today)), Idle);
      }
    case AtDeleteCohorts(_) => DeleteCohortsKeeps(d); PhaseIsApart(d.(cohorts := CohortsDeleted(d)), Idle);
    case AtInsertCohorts(_) =>
      PhaseIsApart(d, Idle);
      if !CohortCollides(d.cohorts, CohortRollup(d.events)) {
        InsertCohortsKeeps(d);
        PhaseIsApart(d.(cohorts := d.cohorts + CohortRollup(d.events)), Idle);
      }
    case AtPrune(_) =>
      PruneKeeps(d, d.Today() - retentionDays);
      PhaseIsApart(d.(events := Pruned(d, d.Today() - retentionDays)), Idle);
  }

  lemma PhaseIsApart(db: Db, phase: Phase)
    requires Sound(db)
    ensures Sound(db.(phase := phase))
  {
    var db' := db.(phase := phase);
    forall day: nat ensures DaySound(db', day) {
      var n := CopiesOf(db, day);
      assert DayCopies(db', day, n);
    }
  }

  lemma MoveKeeps(w: World, m: Move)
    requires WorldSound(w)
    ensures WorldSound(Moved(w, m))
  {
    match m
    case Wait(seconds) =>
      WaitKeeps(w.db, seconds);
      assert w.db.Today() <= w.db.(now := w.db.now + seconds).Today();
    case Arrive(row) => ArriveKeeps(w.db, row);
    case Begin =>
    case Advance(i, retentionDays) =>
      if i < |w.passes| { StatementKeeps(w.db, w.passes[i], retentionDays); }
    case Abort(_) =>
  }

  lemma FreshIsSound(now: nat)
    ensures WorldSound(Fresh(now))
  {
    forall day: nat ensures DaySound(EmptyDb(now), day) { assert DayCopies(EmptyDb(now), day, 0); }
  }

  lemma {:induction false} MovesKeep(now: nat, moves: seq<Move>)
    ensures WorldSound(RunMoves(Fresh(now), moves))
  {
    if moves == [] {
      FreshIsSound(now);
    } else {
      MovesKeep(now, moves[..|moves| - 1]);
      MoveKeeps(RunMoves(Fresh(now), moves[..|moves| - 1]), moves[|moves| - 1]);
    }
  }

  // ---------------------------------------------------------------- results

  /** However many passes overlap: a day that lost raw events lost them all, and its daily rows are some number
      of copies, at least one, of the group-by over every event ever recorded for it. */
  lemma PrunedDaysAreCopies(now: nat, moves: seq<Move>, day: nat)
    ensures var db := RunMoves(Fresh(now), moves).db;
            DayEvents(db.events, day) != DayEvents(db.log, day) ==>
              && DayEvents(db.events, day) == []
              && exists n: nat :: n >= 1 && DayRows(db.daily, day) == Times(n, DailyRollup(DayEvents(db.log, day)))
  {
    MovesKeep(now, moves);
    var db := RunMoves(Fresh(now), moves).db;
    var n := CopiesOf(db, day);
  }

  /** And the one copy is exact for every day on which an event had a project: the unique index refuses a second. */
  lemma ProjectDaysAreExact(now: nat, moves: seq<Move>, day: nat)
    requires HasProject(DayEvents(RunMoves(Fresh(now), moves).db.log, day))
    ensures var db := RunMoves(Fresh(now), moves).db;
            DayEvents(db.events, day) != DayEvents(db.log, day) ==>
              DayRows(db.daily, day) == DailyRollup(DayEvents(db.log, day))
  {
    MovesKeep(now, moves);
    var db := RunMoves(Fresh(now), moves).db;
    var n := CopiesOf(db, day);
    if n == 1 { OneCopy(DailyRollup(DayEvents(db.log, day))); }
  }

  lemma OneCopy<T>(s: seq<T>)
    ensures Times(1, s) == s && Times(2, s) == s + s
  {
    assert Times(1, s) == Times(0, s) + s == [] + s == s;
  }

  // ------------------------------------------------ when the second insert fails

  /** No row is of a completed day with raw events: what the delete of a pass leaves. */
  ghost predicate Cleared(db: Db, today: nat) {
    forall r :: r in db.daily && r.grain.day < today ==> DayEvents(db.events, r.grain.day) == []
  }

  lemma DeleteClears(db: Db, today: nat)
    ensures Cleared(db.(daily := DailyDeleted(db, today)), today)
  {
    FilterMembers(db.daily, KeepsDaily(db.events, today));
    forall r | r in DailyDeleted(db, today) && r.grain.day < today ensures DayEvents(db.events, r.grain.day) == [] {
      CompletedDay(db.events, today, r.grain.day);
    }
  }

  /** Fewer rows and the same completed events: what is cleared stays so. */
  lemma ClearedStays(db: Db, later: Db, today: nat)
    requires Cleared(db, today) && forall r :: r in later.daily ==> r in db.daily
    requires CompletedEvents(later.events, today) == CompletedEvents(db.events, today)
    ensures Cleared(later, today)
  {
    forall r | r in later.daily && r.grain.day < today ensures DayEvents(later.events, r.grain.day) == [] {
      CompletedDay(db.events, today, r.grain.day);
      CompletedDay(later.events, today, r.grain.day);
    }
  }

  /** Events that arrive while passes run are of no completed day. */
  lemma {:induction false} QuietKeepsCompleted(db: Db, steps: seq<Step>, today: nat)
    requires forall i :: 0 <= i < |steps| ==> QuietStep(steps[i])
    requires today <= db.Today()
    ensures var q := Run(db, steps);
            && CompletedEvents(q.events, today) == CompletedEvents(db.events, today)
            && q.daily == db.daily && q.phase == db.phase && db.now <= q.now
  {
    if steps != [] {
      var before := Run(db, steps[..|steps| - 1]);
      QuietKeepsCompleted(db, steps[..|steps| - 1], today);
      assert db.Today() <= before.Today();
      match steps[|steps| - 1]
      case Append(row) => FilterSnoc(before.events, row.(createdAt := before.now), Before(today));
      case Tick(_) =>
    }
  }

  lemma ClearedInsertSucceeds(db: Db, today: nat)
    requires Cleared(db, today)
    ensures !DailyCollides(db.daily, FreshDaily(db, today))
  {
    var added := FreshDaily(db, today);
    forall i, j | 0 <= i < |db.daily| && 0 <= j < |added| ensures db.daily[i].grain != added[j].grain {
      assert added[j] in added && db.daily[i] in db.daily;
      FreshRowDay(db, today, added[j]);
    }
  }

  ghost predicate ProjectEventBefore(events: seq<Event>, day: nat) {
    exists e :: e in events && Day(e) < day && e.projectId.Some?
  }

  /** The rows of two passes collide exactly on a completed event with a project that both count. */
  lemma TwoInsertsCollide(db: Db, first: nat, second: nat)
    requires Cleared(db, second)
    ensures DailyCollides(db.daily + FreshDaily(db, first), FreshDaily(db, second))
            <==> ProjectEventBefore(db.events, if first < second then first else second)
  {
    var one, two := FreshDaily(db, first), FreshDaily(db, second);
    var both := if first < second then first else second;
    FilterMembers(db.events, Before(first));
    FilterMembers(db.events, Before(second));
    if ProjectEventBefore(db.events, both) {
      var e :| e in db.events && Day(e) < both && e.projectId.Some?;
      var i := RowIndex(CompletedEvents(db.events, first), e);
      var j := RowIndex(CompletedEvents(db.events, second), e);
      assert (db.daily + one)[|db.daily| + i].grain == two[j].grain;
    }
    if DailyCollides(db.daily + one, two) {
      var i, j :| 0 <= i < |db.daily + one| && 0 <= j < |two|
                  && (db.daily + one)[i].grain == two[j].grain && (db.daily + one)[i].grain.projectId.Some?;
      CollisionHasEvent(db, first, second, i, j);
    }
  }

  lemma RowIndex(events: seq<Event>, e: Event) returns (i: nat)
    requires e in events
    ensures i < |DailyRollup(events)| && DailyRollup(events)[i].grain == DailyKey(e)
  {
    EventHasRow(events, e);
    var r :| r in DailyRollup(events) && r.grain == DailyKey(e);
    i :| 0 <= i < |DailyRollup(events)| && DailyRollup(events)[i] == r;
  }

  lemma CollisionHasEvent(db: Db, first: nat, second: nat, i: nat, j: nat)
    requires Cleared(db, second)
    requires i < |db.daily + FreshDaily(db, first)| && j < |FreshDaily(db, second)|
    requires (db.daily + FreshDaily(db, first))[i].grain == FreshDaily(db, second)[j].grain
    requires FreshDaily(db, second)[j].grain.projectId.Some?
    ensures ProjectEventBefore(db.events, if first < second then first else second)
  {
    var one, two := FreshDaily(db, first), FreshDaily(db, second);
    assert two[j] in two;
    FreshRowDay(db, second, two[j]);
    RowHasEvent(CompletedEvents(db.events, second), two[j]);
    FilterMembers(db.events, Before(second));
    var r := (db.daily + one)[i];
    assert r !in db.daily;
    assert r in one;
    FreshRowDay(db, first, r);
  }

  /** Two passes that both delete before either inserts, whatever arrives between the inserts and whichever days
      they began on: the second insert is refused exactly when an event completed for both has a project, and
      otherwise adds its rows to those of the first. */
  lemma OverlappingInserts(db: Db, first: nat, second: nat, steps: seq<Step>)
    requires first <= db.Today() && second <= db.Today()
    requires Cleared(db, first) && Cleared(db, second)
    requires forall i :: 0 <= i < |steps| ==> QuietStep(steps[i])
    ensures var one := RunStatement(db.(phase := AtInsertDaily(first)), 0);
            var two := RunStatement(Run(one, steps).(phase := AtInsertDaily(second)), 0);
            && one.daily == db.daily + FreshDaily(db, first)
            && (two.phase == Idle <==> ProjectEventBefore(db.events, if first < second then first else second))
            && (two.phase != Idle ==> two.daily == one.daily + FreshDaily(db, second))
  {
    var d := db.(phase := AtInsertDaily(first));
    ClearedInsertSucceeds(db, first);
    var one := RunStatement(d, 0);
    assert one == db.(daily := db.daily + FreshDaily(db, first), phase := AtDeleteCohorts(first));
    QuietKeepsCompleted(one, steps, second);
    TwoInsertsCollide(db, first, second);
  }

  /** The daily statements of two passes, both deletes before either insert, with other writers in between:
      after each statement and the quiet steps behind it. */
  ghost function BothDeleted(db: Db, first: nat, a: seq<Step>, second: nat, b: seq<Step>): Db {
    var one := Run(RunStatement(db.(phase := AtDeleteDaily(first)), 0), a);
    Run(RunStatement(one.(phase := AtDeleteDaily(second)), 0), b)
  }

  predicate AllQuiet(steps: seq<Step>) {
    forall i :: 0 <= i < |steps| ==> QuietStep(steps[i])
  }

  lemma BothDeletedClears(db: Db, first: nat, a: seq<Step>, second: nat, b: seq<Step>)
    requires AllQuiet(a) && AllQuiet(b)
    requires first <= db.Today() && second <= Run(RunStatement(db.(phase := AtDeleteDaily(first)), 0), a).Today()
    ensures var d := BothDeleted(db, first, a, second, b);
            && Cleared(d, first) && Cleared(d, second) && first <= d.Today() && second <= d.Today()
            && CompletedEvents(d.events, first) == CompletedEvents(db.events, first)
  {
    var d1 := RunStatement(db.(phase := AtDeleteDaily(first)), 0);
    var d2 := Run(d1, a);
    var d3 := RunStatement(d2.(phase := AtDeleteDaily(second)), 0);
    var d4 := Run(d3, b);
    DeleteClears(db, first);
    QuietKeepsCompleted(d1, a, first);
    assert first <= d2.Today();
    ClearedStays(d1, d2, first);
    FilterMembers(d2.daily, KeepsDaily(d2.events, second));
    ClearedStays(d2, d3, first);
    DeleteClears(d2, second);
    QuietKeepsCompleted(d3, b, first);
    QuietKeepsCompleted(d3, b, second);
    ClearedStays(d3, d4, first);
    ClearedStays(d3, d4, second);
  }

  lemma SameBefore(a: seq<Event>, b: seq<Event>, today: nat, day: nat)
    requires CompletedEvents(a, today) == CompletedEvents(b, today) && day <= today
    ensures ProjectEventBefore(a, day) <==> ProjectEventBefore(b, day)
  {
    FilterMembers(a, Before(today));
    FilterMembers(b, Before(today));
  }

  /** Two passes that both delete before either inserts, begun on any days, with other writers at every point: the
      second insert is refused exactly when, as the first pass deletes, an event completed for both has a project;
      otherwise its rows are added to those of the first. */
  lemma OverlappingPasses(db: Db, first: nat, a: seq<Step>, second: nat, b: seq<Step>, c: seq<Step>)
    requires AllQuiet(a) && AllQuiet(b) && AllQuiet(c)
    requires first <= db.Today() && second <= Run(RunStatement(db.(phase := AtDeleteDaily(first)), 0), a).Today()
    ensures var both := BothDeleted(db, first, a, second, b);
            var one := RunStatement(both.(phase := AtInsertDaily(first)), 0);
            var two := RunStatement(Run(one, c).(phase := AtInsertDaily(second)), 0);
            && one.daily == both.daily + FreshDaily(db, first)
            && (two.phase == Idle <==> ProjectEventBefore(db.events, if first < second then first else second))
            && (two.phase != Idle ==> two.daily == one.daily + FreshDaily(both, second))
  {
    var both := BothDeleted(db, first, a, second, b);
    BothDeletedClears(db, first, a, second, b);
    OverlappingInserts(both, first, second, c);
    SameBefore(both.events, db.events, first, if first < second then first else second);
  }

  // -------------------------------------------------- duplicates that stay

  lemma RunSnoc(w: World, moves: seq<Move>, m: Move)
    ensures RunMoves(w, moves + [m]) == Moved(RunMoves(w, moves), m)
  {
    assert (moves + [m])[..|moves|] == moves;
  }

  function Arrivals(rows: seq<Event>): seq<Move> {
    seq(|rows|, i requires 0 <= i < |rows| => Arrive(rows[i]))
  }

  predicate Landed(w: World) {
    && w == World(EmptyDb(0).(events := w.db.log, log := w.db.log), [])
    && forall i :: 0 <= i < |w.db.log| ==> w.db.log[i].createdAt == 0
  }

  lemma OneLands(w: World, row: Event)
    requires Landed(w)
    ensures Landed(Moved(w, Arrive(row))) && Moved(w, Arrive(row)).db.log != []
  {
    if w.db.log == [] { assert !HasId(w.db.events, row.id); }
  }

  lemma {:induction false} ArrivalsLand(rows: seq<Event>)
    ensures var w := RunMoves(Fresh(0), Arrivals(rows));
            Landed(w) && (rows != [] ==> w.db.log != [])
  {
    if rows != [] {
      var m := |rows| - 1;
      ArrivalsLand(rows[..m]);
      assert Arrivals(rows) == Arrivals(rows[..m]) + [Arrive(rows[m])];
      RunSnoc(Fresh(0), Arrivals(rows[..m]), Arrive(rows[m]));
      OneLands(RunMoves(Fresh(0), Arrivals(rows[..m])), rows[m]);
    }
  }

  lemma {:induction false} RunOn(w: World, a: seq<Move>, b: seq<Move>)
    ensures RunMoves(w, a + b) == RunMoves(RunMoves(w, a), b)
  {
    if b == [] {
      assert a + b == a;
    } else {
      var m := |b| - 1;
      assert a + b == a + b[..m] + [b[m]];
      RunOn(w, a, b[..m]);
      RunSnoc(w, a + b[..m], b[m]);
    }
  }

  /** The day passes, two passes begin, and both delete. */
  const BOTH_DELETE := [Wait(SECONDS_PER_DAY), Begin, Begin, Advance(0, 0), Advance(1, 0)]

  /** Both insert, and the first goes on to its end. */
  const BOTH_INSERT := [Advance(0, 0), Advance(1, 0), Advance(0, 0), Advance(0, 0), Advance(0, 0)]

  lemma FiveMoves(w: World, a: Move, b: Move, c: Move, d: Move, e: Move)
    ensures RunMoves(w, [a, b, c, d, e]) == Moved(Moved(Moved(Moved(Moved(w, a), b), c), d), e)
  {
    RunSnoc(w, [], a);
    RunSnoc(w, [a], b);
    RunSnoc(w, [a, b], c);
    RunSnoc(w, [a, b, c], d);
    RunSnoc(w, [a, b, c, d], e);
    assert [] + [a] == [a] && [a] + [b] == [a, b] && [a, b] + [c] == [a, b, c];
    assert [a, b, c] + [d] == [a, b, c, d] && [a, b, c, d] + [e] == [a, b, c, d, e];
  }

  lemma BothDelete(w: World)
    requires Landed(w)
    ensures RunMoves(w, BOTH_DELETE)
            == World(w.db.(now := SECONDS_PER_DAY), [AtInsertDaily(1), AtInsertDaily(1)])
  {
    FiveMoves(w, Wait(SECONDS_PER_DAY), Begin, Begin, Advance(0, 0), Advance(1, 0));
    var db := w.db.(now := SECONDS_PER_DAY);
    assert db.Today() == 1;
    assert Moved(Moved(Moved(w, Wait(SECONDS_PER_DAY)), Begin), Begin)
        == World(db, [AtDeleteDaily(1), AtDeleteDaily(1)]);
    assert DailyDeleted(db, 1) == [];
  }

  /** All on day 0, which is over; nothing aggregated yet. */
  predicate DayOver(db: Db) {
    && db == Db(db.log, [], [], db.log, SECONDS_PER_DAY, Idle)
    && forall i :: 0 <= i < |db.log| ==> db.log[i].createdAt == 0
  }

  lemma FirstDayRollup(db: Db)
    requires DayOver(db)
    ensures DayEvents(db.log, 0) == db.log && FreshDaily(db, 1) == DailyRollup(db.log)
    ensures DayRows(DailyRollup(db.log), 0) == DailyRollup(db.log)
  {
    assert forall e :: e in db.log ==> Day(e) == 0;
    FilterKeepsAll(db.log, EventOn(0));
    FilterKeepsAll(db.log, Before(1));
    RollupOfDay(db.log, 0);
  }

  ghost function RowsOfTwo(db: Db): seq<DailyRow> {
    DailyRollup(db.log) + (if ProjectEventBefore(db.log, 1) then [] else DailyRollup(db.log))
  }

  lemma BothInsertDaily(db: Db) returns (second: Phase)
    requires DayOver(db)
    ensures second == if ProjectEventBefore(db.log, 1) then Idle else AtDeleteCohorts(1)
    ensures Moved(Moved(World(db, [AtInsertDaily(1), AtInsertDaily(1)]), Advance(0, 0)), Advance(1, 0))
            == World(db.(daily := RowsOfTwo(db)), [AtDeleteCohorts(1), second])
  {
    FirstDayRollup(db);
    ClearedInsertSucceeds(db, 1);
    TwoInsertsCollide(db, 1, 1);
    var one := db.(daily := DailyRollup(db.log));
    assert db.daily + DailyRollup(db.log) == DailyRollup(db.log);
    assert Moved(World(db, [AtInsertDaily(1), AtInsertDaily(1)]), Advance(0, 0))
        == World(one, [AtDeleteCohorts(1), AtInsertDaily(1)]);
    second := if ProjectEventBefore(db.log, 1) then Idle else AtDeleteCohorts(1);
    assert DailyRollup(db.log) + [] == DailyRollup(db.log);
  }

  lemma FirstFinishes(db: Db, second: Phase)
    requires DayOver(db.(daily := []))
    requires forall e :: e in db.log ==> RolledUp(db.daily, e)
    ensures var w := World(db, [AtDeleteCohorts(1), second]);
            Moved(Moved(Moved(w, Advance(0, 0)), Advance(0, 0)), Advance(0, 0))
            == World(db.(events := [], cohorts := CohortRollup(db.log)), [Idle, second])
  {
    var added := CohortRollup(db.log);
    var w := World(db, [AtDeleteCohorts(1), second]);
    var w1 := World(db, [AtInsertCohorts(1), second]);
    assert CohortsDeleted(db.(phase := AtDeleteCohorts(1))) == [];
    assert Moved(w, Advance(0, 0)) == w1;
    assert [] + added == added;
    var w2 := World(db.(cohorts := added), [AtPrune(1), second]);
    assert Moved(w1, Advance(0, 0)) == w2;
    FilterKeepsNone(db.log, SurvivesPrune(db.daily, 1));
  }

  lemma RowsCoverLog(db: Db, e: Event)
    requires DayOver(db) && e in db.log
    ensures RolledUp(RowsOfTwo(db), e)
  {
    var i := RowIndex(db.log, e);
    assert RowsOfTwo(db)[i] == DailyRollup(db.log)[i];
  }

  /** For any rows of a first day: under this schedule the second insert is refused exactly when an event has a
      project; when none has, the raw events are gone in the end and the day's rows stay doubled. */
  lemma DuplicatesStayExactly(rows: seq<Event>)
    requires rows != []
    ensures var w := RunMoves(Fresh(0), Arrivals(rows) + BOTH_DELETE + BOTH_INSERT);
            var db, rollup := w.db, DailyRollup(w.db.log);
            && w.passes == [Idle, if HasProject(db.log) then Idle else AtDeleteCohorts(1)]
            && db.events == [] && DayEvents(db.log, 0) == db.log != []
            && DayRows(db.daily, 0) == if HasProject(db.log) then rollup else rollup + rollup
  {
    var w := RunMoves(Fresh(0), Arrivals(rows));
    ArrivalsLand(rows);
    BothDelete(w);
    RunOn(Fresh(0), Arrivals(rows), BOTH_DELETE);
    RunOn(Fresh(0), Arrivals(rows) + BOTH_DELETE, BOTH_INSERT);
    var db := w.db.(now := SECONDS_PER_DAY);
    var w2 := World(db, [AtInsertDaily(1), AtInsertDaily(1)]);
    FiveMoves(w2, Advance(0, 0), Advance(1, 0), Advance(0, 0), Advance(0, 0), Advance(0, 0));
    var second := BothInsertDaily(db);
    forall e | e in db.log ensures RolledUp(RowsOfTwo(db), e) { RowsCoverLog(db, e); }
    FirstFinishes(db.(daily := RowsOfTwo(db)), second);
    FirstDayRollup(db);
    FilterAppend(DailyRollup(db.log), RowsOfTwo(db)[|DailyRollup(db.log)|..], RowOn(0));
    ProjectOnFirstDay(db);
  }

  lemma ProjectOnFirstDay(db: Db)
    requires DayOver(db)
    ensures HasProject(db.log) <==> ProjectEventBefore(db.log, 1)
  {
    if HasProject(db.log) {
      var e :| e in db.log && e.projectId.Some?;
      assert Day(e) == 0;
    }
  }
}
