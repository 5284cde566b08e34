/**
  The rollup pass (packages/lifecycle/src/memory-rollup-worker.ts) as a state
  machine over its SQL statements. The statements are not in one transaction:
  other processes may append events between them, and a crash may end a pass
  at any statement boundary. `log` is history only: every event ever recorded.
*/
module MemoryRollup {
  import opened Collections
  import opened MemoryTables

  /** The next statement of the pass in progress, with the `today` it captured at its start. */
  datatype Phase =
    | Idle
    | AtDeleteDaily(today: nat)
    | AtInsertDaily(today: nat)
    | AtDeleteCohorts(today: nat)
    | AtInsertCohorts(today: nat)
    | AtPrune(today: nat)

  datatype Db = Db(events: seq<Event>, daily: seq<DailyRow>, cohorts: seq<CohortRow>,
                   log: seq<Event>, now: nat, phase: Phase)
  {
    function Today(): nat { now / SECONDS_PER_DAY }
  }

  datatype Step =
    | Tick(seconds: nat)
    | Append(row: Event)
    | BeginPass
    | Statement(retentionDays: int)
    | Crash

  // ----------------------------------------------------------- statements

  predicate HasId(events: seq<Event>, id: string) {
    exists i :: 0 <= i < |events| && events[i].id == id
  }

  /** insertMemoryAccessEvent: the database stamps the time; a known id is ignored. */
  function Inserted(db: Db, row: Event): Db {
    var e := row.(createdAt := db.now);
    if HasId(db.events, e.id) then db else db.(events := db.events + [e], log := db.log + [e])
  }

  function Before(today: nat): Event -> bool { (e: Event) => Day(e) < today }

  function CompletedEvents(events: seq<Event>, today: nat): seq<Event> { Filter(events, Before(today)) }

  predicate HasDay(events: seq<Event>, day: nat) {
    exists i :: 0 <= i < |events| && Day(events[i]) == day
  }

  /** Rows whose day is not about to be recomputed. */
  function KeepsDaily(events: seq<Event>, today: nat): DailyRow -> bool {
    (r: DailyRow) => !HasDay(CompletedEvents(events, today), r.grain.day)
  }

  function DailyDeleted(db: Db, today: nat): seq<DailyRow> {
    Filter(db.daily, KeepsDaily(db.events, today))
  }

  /** The unique index on the daily grain; NULL projects never collide in it. */
  predicate DailyCollides(existing: seq<DailyRow>, added: seq<DailyRow>) {
    exists i, j :: 0 <= i < |existing| && 0 <= j < |added|
                   && existing[i].grain == added[j].grain && existing[i].grain.projectId.Some?
  }

  function FreshDaily(db: Db, today: nat): seq<DailyRow> {
    DailyRollup(CompletedEvents(db.events, today))
  }

  predicate HasCohort(events: seq<Event>, g: CohortGrain) {
    EventsOf(events, g) != []
  }

  function KeepsCohort(events: seq<Event>): CohortRow -> bool {
    (r: CohortRow) => !HasCohort(events, r.grain)
  }

  function CohortsDeleted(db: Db): seq<CohortRow> {
    Filter(db.cohorts, KeepsCohort(db.events))
  }

  predicate CohortCollides(existing: seq<CohortRow>, added: seq<CohortRow>) {
    exists i, j :: 0 <= i < |existing| && 0 <= j < |added| && existing[i].grain == added[j].grain
  }

  /** The prune guard: the day is past retention and has a daily row of the event's project. */
  predicate RolledUp(daily: seq<DailyRow>, e: Event) {
    exists i :: 0 <= i < |daily| && daily[i].grain.day == Day(e) && daily[i].grain.projectId == e.projectId
  }

  function SurvivesPrune(daily: seq<DailyRow>, cutoff: int): Event -> bool {
    (e: Event) => !(Day(e) < cutoff && RolledUp(daily, e))
  }

  function Pruned(db: Db, cutoff: int): seq<Event> {
    Filter(db.events, SurvivesPrune(db.daily, cutoff))
  }

  /** The statement the pass stands at; a violated unique index throws, which ends the pass. */
  function RunStatement(db: Db, retentionDays: int): Db {
    match db.phase
    case Idle => db
    case AtDeleteDaily(today) => db.(daily := DailyDeleted(db, today), phase := AtInsertDaily(today))
    case AtInsertDaily(today) =>
      var added := FreshDaily(db, today);
      if DailyCollides(db.daily, added) then db.(phase := Idle)
      else db.(daily := db.daily + added, phase := AtDeleteCohorts(today))
    case AtDeleteCohorts(today) => db.(cohorts := CohortsDeleted(db), phase := AtInsertCohorts(today))
    case AtInsertCohorts(today) =>
      var added := CohortRollup(db.events);
      if CohortCollides(db.cohorts, added) then db.(phase := Idle)
      else db.(cohorts := db.cohorts + added, phase := AtPrune(today))
    case AtPrune(today) => db.(events := Pruned(db, db.Today() - retentionDays), phase := Idle)
  }

  function Apply(db: Db, step: Step): Db {
    match step
    case Tick(seconds) => db.(now := db.now + seconds)
    case Append(row) => Inserted(db, row)
    case BeginPass => if db.phase.Idle? then db.(phase := AtDeleteDaily(db.Today())) else db
    case Statement(retentionDays) => RunStatement(db, retentionDays)
    case Crash => db.(phase := Idle)
  }

  function Run(db: Db, steps: seq<Step>): Db {
    if steps == [] then db else Apply(Run(db, steps[..|steps| - 1]), steps[|steps| - 1])
  }

  function EmptyDb(now: nat): Db { Db([], [], [], [], now, Idle) }

  // ------------------------------------------------------------ invariant

  /** A day is either untouched, or gone from the raw table with its rows final. */
  ghost predicate DayIntact(db: Db, day: nat) {
    DayEvents(db.events, day) == DayEvents(db.log, day)
  }

  ghost predicate DayFinal(db: Db, day: nat) {
    && DayEvents(db.events, day) == []
    && DayRows(db.daily, day) == DailyRollup(DayEvents(db.log, day))
  }

  /** All daily rows are of days before this one. */
  function Horizon(db: Db): nat {
    if db.phase.Idle? then db.Today() else db.phase.today
  }

  /** What the daily rows of a completed day with raw events are, by the statement reached. */
  ghost predicate DayRowsInPhase(db: Db, day: nat) {
    && (db.phase.AtInsertDaily? ==> DayRows(db.daily, day) == [])
    && (db.phase.AtDeleteCohorts? || db.phase.AtInsertCohorts? || db.phase.AtPrune? ==>
          DayRows(db.daily, day) == DailyRollup(DayEvents(db.events, day)))
  }

  ghost predicate Inv(db: Db) {
    && (forall e :: e in db.log ==> e.createdAt <= db.now)
    && (forall e :: e in db.events ==> e.createdAt <= db.now)
    && Horizon(db) <= db.Today()
    && (forall r :: r in db.daily ==> r.grain.day < Horizon(db))
    && (forall day: nat :: DayIntact(db, day) || DayFinal(db, day))
    && (forall day: nat :: day < Horizon(db) && DayEvents(db.events, day) != [] ==> DayRowsInPhase(db, day))
    && (forall g :: |CohortRows(db.cohorts, g)| <= 1)
  }

  lemma EmptyInv(now: nat)
    ensures Inv(EmptyDb(now))
  {
  }

  lemma DayOfMember(events: seq<Event>, day: nat)
    ensures forall e :: e in DayEvents(events, day) <==> e in events && Day(e) == day
  {
    FilterMembers(events, EventOn(day));
  }

  lemma TickInv(db: Db, seconds: nat)
    requires Inv(db)
    ensures Inv(db.(now := db.now + seconds))
  {
    var db' := db.(now := db.now + seconds);
    assert db.Today() <= db'.Today();
    forall day: nat ensures DayIntact(db', day) || DayFinal(db', day) {
      assert DayIntact(db, day) || DayFinal(db, day);
    }
    forall day: nat | day < Horizon(db') && DayEvents(db'.events, day) != [] ensures DayRowsInPhase(db', day) {
      if !db.phase.Idle? { assert DayRowsInPhase(db, day); }
    }
  }

  lemma AppendInv(db: Db, row: Event)
    requires Inv(db)
    ensures Inv(Inserted(db, row))
  {
    var e := row.(createdAt := db.now);
    var db' := Inserted(db, row);
    if !HasId(db.events, e.id) {
      forall day: nat
        ensures DayIntact(db', day) || DayFinal(db', day)
        ensures day < Horizon(db) && DayEvents(db'.events, day) != [] ==> DayRowsInPhase(db', day)
      {
        FilterSnoc(db.events, e, EventOn(day));
        FilterSnoc(db.log, e, EventOn(day));
        assert DayIntact(db, day) || DayFinal(db, day);
        if day == Day(e) { NoRowsAtHorizon(db, day); TodayIsIntact(db); }
        if day < Horizon(db) && DayEvents(db.events, day) != [] { assert DayRowsInPhase(db, day); }
      }
    }
  }

  /** There are no daily rows from the horizon on. */
  lemma NoRowsAtHorizon(db: Db, day: nat)
    requires Inv(db) && day >= Horizon(db)
    ensures DayRows(db.daily, day) == []
  {
    FilterKeepsNone(db.daily, RowOn(day));
  }

  lemma TodayIsIntact(db: Db)
    requires Inv(db)
    ensures DayIntact(db, db.Today())
  {
    var day := db.Today();
    NoRowsAtHorizon(db, day);
    assert DayIntact(db, day) || DayFinal(db, day);
    if DayFinal(db, day) && DayEvents(db.log, day) != [] {
      var e := DayEvents(db.log, day)[0];
      EventHasRow(DayEvents(db.log, day), e);
    }
  }

  // ------------------------------------------- what each statement keeps

  lemma CompletedDay(events: seq<Event>, today: nat, day: nat)
    ensures DayEvents(CompletedEvents(events, today), day) == if day < today then DayEvents(events, day) else []
    ensures HasDay(CompletedEvents(events, today), day) <==> day < today && DayEvents(events, day) != []
  {
    FilterMembers(events, Before(today));
    DayOfMember(events, day);
    if day < today {
      FilterStronger(events, Before(today), EventOn(day));
      if DayEvents(events, day) != [] {
        var e := DayEvents(events, day)[0];
        assert e in DayEvents(events, day);
        var i :| 0 <= i < |CompletedEvents(events, today)| && CompletedEvents(events, today)[i] == e;
      }
    } else {
      FilterKeepsNone(CompletedEvents(events, today), EventOn(day));
    }
    if i :| 0 <= i < |CompletedEvents(events, today)| && Day(CompletedEvents(events, today)[i]) == day {
      assert CompletedEvents(events, today)[i] in CompletedEvents(events, today);
    }
  }

  lemma DeleteDailyRows(db: Db, today: nat, day: nat)
    ensures DayRows(DailyDeleted(db, today), day)
            == if day < today && DayEvents(db.events, day) != [] then [] else DayRows(db.daily, day)
  {
    CompletedDay(db.events, today, day);
    if HasDay(CompletedEvents(db.events, today), day) {
      FilterMembers(db.daily, KeepsDaily(db.events, today));
      FilterKeepsNone(DailyDeleted(db, today), RowOn(day));
    } else {
      FilterStronger(db.daily, KeepsDaily(db.events, today), RowOn(day));
    }
  }

  lemma DeleteDailyInv(db: Db)
    requires Inv(db) && db.phase.AtDeleteDaily?
    ensures Inv(RunStatement(db, 0))
  {
    var today := db.phase.today;
    var db' := RunStatement(db, 0);
    FilterMembers(db.daily, KeepsDaily(db.events, today));
    forall day: nat
      ensures DayIntact(db', day) || DayFinal(db', day)
      ensures day < today && DayEvents(db'.events, day) != [] ==> DayRowsInPhase(db', day)
    {
      DeleteDailyRows(db, today, day);
      assert DayIntact(db, day) || DayFinal(db, day);
    }
  }

  lemma InsertDailyRows(db: Db, today: nat, day: nat)
    ensures DayRows(db.daily + FreshDaily(db, today), day)
            == DayRows(db.daily, day) + (if day < today then DailyRollup(DayEvents(db.events, day)) else [])
  {
    FilterAppend(db.daily, FreshDaily(db, today), RowOn(day));
    RollupOfDay(CompletedEvents(db.events, today), day);
    CompletedDay(db.events, today, day);
    assert DailyRollup([]) == [];
  }

  lemma FreshRowDay(db: Db, today: nat, r: DailyRow)
    requires r in FreshDaily(db, today)
    ensures r.grain.day < today && DayEvents(db.events, r.grain.day) != []
  {
    RowHasEvent(CompletedEvents(db.events, today), r);
    FilterMembers(db.events, Before(today));
    var e :| e in CompletedEvents(db.events, today) && r.grain == DailyKey(e);
    DayOfMember(db.events, Day(e));
    assert e in DayEvents(db.events, Day(e));
  }

  /** In a sequential pass the insert never violates the unique index. */
  lemma DailyInsertNeverCollides(db: Db)
    requires Inv(db) && db.phase.AtInsertDaily?
    ensures !DailyCollides(db.daily, FreshDaily(db, db.phase.today))
  {
    var today := db.phase.today;
    var added := FreshDaily(db, today);
    forall i, j | 0 <= i < |db.daily| && 0 <= j < |added|
      ensures db.daily[i].grain != added[j].grain
    {
      var day := added[j].grain.day;
      assert added[j] in added;
      FreshRowDay(db, today, added[j]);
      assert DayRowsInPhase(db, day);
      assert db.daily[i] in db.daily;
      FilterMember(db.daily, RowOn(day), db.daily[i]);
    }
  }

  lemma InsertDailyInv(db: Db)
    requires Inv(db) && db.phase.AtInsertDaily?
    ensures Inv(RunStatement(db, 0))
  {
    var today := db.phase.today;
    var added := FreshDaily(db, today);
    DailyInsertNeverCollides(db);
    var db' := RunStatement(db, 0);
    forall r | r in db'.daily ensures r.grain.day < today {
      if r in added { FreshRowDay(db, today, r); }
    }
    forall day: nat
      ensures DayIntact(db', day) || DayFinal(db', day)
      ensures day < today && DayEvents(db'.events, day) != [] ==> DayRowsInPhase(db', day)
    {
      InsertDailyRows(db, today, day);
      assert DailyRollup([]) == [];
      assert DayIntact(db, day) || DayFinal(db, day);
      if day < today && DayEvents(db.events, day) != [] { assert DayRowsInPhase(db, day); }
    }
  }

  lemma CohortsOnlyInv(db: Db, db': Db)
    requires Inv(db) && db.phase in {AtDeleteCohorts(Horizon(db)), AtInsertCohorts(Horizon(db))}
    requires db' == db.(cohorts := db'.cohorts, phase := db'.phase)
    requires db'.phase in {Idle, AtInsertCohorts(Horizon(db)), AtPrune(Horizon(db))}
    requires forall g :: |CohortRows(db'.cohorts, g)| <= 1
    ensures Inv(db')
  {
    forall day: nat
      ensures DayIntact(db', day) || DayFinal(db', day)
      ensures day < Horizon(db') && DayEvents(db'.events, day) != [] ==> DayRowsInPhase(db', day)
    {
      assert DayIntact(db, day) || DayFinal(db, day);
      if day < Horizon(db) && DayEvents(db.events, day) != [] { assert DayRowsInPhase(db, day); }
    }
  }

  /** After the delete a grain with raw events has no row, and any other keeps its rows. */
  lemma DeleteCohortRows(db: Db, g: CohortGrain)
    ensures CohortRows(CohortsDeleted(db), g)
            == if EventsOf(db.events, g) != [] then [] else CohortRows(db.cohorts, g)
  {
    if HasCohort(db.events, g) {
      FilterMembers(db.cohorts, KeepsCohort(db.events));
      FilterKeepsNone(CohortsDeleted(db), CohortOn(g));
    } else {
      FilterStronger(db.cohorts, KeepsCohort(db.events), CohortOn(g));
    }
  }

  lemma CohortCollidesOn(existing: seq<CohortRow>, added: seq<CohortRow>)
    ensures CohortCollides(existing, added)
            <==> exists g :: CohortRows(existing, g) != [] && CohortRows(added, g) != []
  {
    if i, j :| 0 <= i < |existing| && 0 <= j < |added| && existing[i].grain == added[j].grain {
      var g := existing[i].grain;
      FilterMember(existing, CohortOn(g), existing[i]);
      FilterMember(added, CohortOn(g), added[j]);
      assert CohortRows(existing, g) != [] && CohortRows(added, g) != [];
    }
    if g :| CohortRows(existing, g) != [] && CohortRows(added, g) != [] {
      FilterMembers(existing, CohortOn(g));
      FilterMembers(added, CohortOn(g));
      var x, y := CohortRows(existing, g)[0], CohortRows(added, g)[0];
      assert x in CohortRows(existing, g) && y in CohortRows(added, g);
      var i :| 0 <= i < |existing| && existing[i] == x;
      var j :| 0 <= j < |added| && added[j] == y;
      assert existing[i].grain == added[j].grain;
    }
  }

  lemma InsertCohortRows(db: Db, g: CohortGrain)
    ensures CohortRows(db.cohorts + CohortRollup(db.events), g)
            == CohortRows(db.cohorts, g)
               + (if EventsOf(db.events, g) == [] then [] else [MakeCohort(g, EventsOf(db.events, g))])
  {
    FilterAppend(db.cohorts, CohortRollup(db.events), CohortOn(g));
    CohortRollupOf(db.events, g);
  }

  lemma CohortStatementsInv(db: Db)
    requires Inv(db) && (db.phase.AtDeleteCohorts? || db.phase.AtInsertCohorts?)
    ensures Inv(RunStatement(db, 0))
  {
    var db' := RunStatement(db, 0);
    CohortCollidesOn(db.cohorts, CohortRollup(db.events));
    forall g ensures |CohortRows(db'.cohorts, g)| <= 1 {
      assert |CohortRows(db.cohorts, g)| <= 1;
      if db.phase.AtDeleteCohorts? {
        DeleteCohortRows(db, g);
      } else {
        InsertCohortRows(db, g);
        CohortRollupOf(db.events, g);
      }
    }
    CohortsOnlyInv(db, db');
  }

  lemma RolledUpBefore(daily: seq<DailyRow>, today: nat, e: Event)
    requires forall r :: r in daily ==> r.grain.day < today
    ensures RolledUp(daily, e) ==> Day(e) < today
  {
  }

  lemma CompletedIsRolledUp(db: Db, e: Event)
    requires Inv(db) && db.phase.AtPrune? && e in db.events
    ensures Day(e) < db.phase.today ==> RolledUp(db.daily, e)
  {
    var day := Day(e);
    DayOfMember(db.events, day);
    var es := DayEvents(db.events, day);
    assert e in es;
    if day < db.phase.today {
      assert DayRowsInPhase(db, day);
      EventHasRow(es, e);
      var r :| r in DailyRollup(es) && r.grain == DailyKey(e);
      FilterMember(db.daily, RowOn(day), r);
      var i :| 0 <= i < |db.daily| && db.daily[i] == r;
    }
  }

  /** Pruning takes all of a day or none of it. */
  lemma PruneDay(db: Db, cutoff: int, day: nat)
    requires Inv(db) && db.phase.AtPrune?
    ensures DayEvents(Pruned(db, cutoff), day)
            == if day < cutoff && day < db.phase.today then [] else DayEvents(db.events, day)
  {
    var keep := SurvivesPrune(db.daily, cutoff);
    if day < cutoff && day < db.phase.today {
      forall e | e in Pruned(db, cutoff) ensures !EventOn(day)(e) {
        FilterMember(db.events, keep, e);
        CompletedIsRolledUp(db, e);
      }
      FilterKeepsNone(Pruned(db, cutoff), EventOn(day));
    } else {
      forall e | e in db.events && EventOn(day)(e) ensures keep(e) {
        RolledUpBefore(db.daily, db.phase.today, e);
      }
      FilterStronger(db.events, keep, EventOn(day));
    }
  }

  lemma PruneInv(db: Db, retentionDays: int)
    requires Inv(db) && db.phase.AtPrune?
    ensures Inv(RunStatement(db, retentionDays))
  {
    var cutoff := db.Today() - retentionDays;
    var db' := RunStatement(db, retentionDays);
    FilterMembers(db.events, SurvivesPrune(db.daily, cutoff));
    forall day: nat ensures DayIntact(db', day) || DayFinal(db', day) {
      PruneDay(db, cutoff, day);
      assert DayIntact(db, day) || DayFinal(db, day);
      if day < db.phase.today && DayEvents(db.events, day) != [] { assert DayRowsInPhase(db, day); }
    }
  }

  lemma StartOrStopInv(db: Db, phase: Phase)
    requires Inv(db) && (phase == Idle || (db.phase == Idle && phase == AtDeleteDaily(db.Today())))
    ensures Inv(db.(phase := phase))
  {
    var db' := db.(phase := phase);
    forall day: nat ensures DayIntact(db', day) || DayFinal(db', day) {
      assert DayIntact(db, day) || DayFinal(db, day);
    }
  }

  lemma ApplyInv(db: Db, step: Step)
    requires Inv(db)
    ensures Inv(Apply(db, step))
  {
    match step
    case Tick(seconds) => TickInv(db, seconds);
    case Append(row) => AppendInv(db, row);
    case BeginPass => if db.phase.Idle? { StartOrStopInv(db, AtDeleteDaily(db.Today())); }
    case Crash => StartOrStopInv(db, Idle);
    case Statement(retentionDays) =>
      match db.phase
      case Idle =>
      case AtDeleteDaily(_) => DeleteDailyInv(db);
      case AtInsertDaily(_) => InsertDailyInv(db);
      case AtDeleteCohorts(_) => CohortStatementsInv(db);
      case AtInsertCohorts(_) => CohortStatementsInv(db);
      case AtPrune(_) => PruneInv(db, retentionDays);
  }

  lemma {:induction false} RunInv(db: Db, steps: seq<Step>)
    requires Inv(db)
    ensures Inv(Run(db, steps))
  {
    if steps != [] {
      RunInv(db, steps[..|steps| - 1]);
      ApplyInv(Run(db, steps[..|steps| - 1]), steps[|steps| - 1]);
    }
  }

  /** At every statement boundary of any run of appends, passes and crashes: a day that lost raw events
      still has daily rows equal to the group-by over every event ever recorded for it. */
  lemma PrunedDaysAreExact(now: nat, steps: seq<Step>, day: nat)
    ensures var db := Run(EmptyDb(now), steps);
            DayEvents(db.events, day) != DayEvents(db.log, day) ==>
              DayRows(db.daily, day) == DailyRollup(DayEvents(db.log, day))
  {
    EmptyInv(now);
    RunInv(EmptyDb(now), steps);
    assert DayIntact(Run(EmptyDb(now), steps), day) || DayFinal(Run(EmptyDb(now), steps), day);
  }

  /** At every boundary no cohort has two rows and the daily insert is never refused. */
  lemma TablesStayKeyed(now: nat, steps: seq<Step>, g: CohortGrain)
    ensures var db := Run(EmptyDb(now), steps);
            && |CohortRows(db.cohorts, g)| <= 1
            && (db.phase.AtInsertDaily? ==> !DailyCollides(db.daily, FreshDaily(db, db.phase.today)))
  {
    EmptyInv(now);
    RunInv(EmptyDb(now), steps);
    var db := Run(EmptyDb(now), steps);
    if db.phase.AtInsertDaily? { DailyInsertNeverCollides(db); }
  }
}
