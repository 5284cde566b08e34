/**
  Whole rollup passes (packages/lifecycle/src/memory-rollup-worker.ts): what a
  pass leaves in each table, and when a second pass changes anything.
*/
module MemoryPasses {
  import opened Collections
  import opened MemoryTables
  import opened MemoryRollup

  /** One pass with no other writer between its statements. */
  function Pass(db: Db, retentionDays: int): Db {
    var d0 := Apply(db, BeginPass);
    var d1 := RunStatement(d0, retentionDays);
    var d2 := RunStatement(d1, retentionDays);
    var d3 := RunStatement(d2, retentionDays);
    var d4 := RunStatement(d3, retentionDays);
    RunStatement(d4, retentionDays)
  }

  /** Days before this one are pruned by a pass. */
  function PruneLimit(db: Db, retentionDays: int): int {
    if retentionDays > 0 then db.Today() - retentionDays else db.Today()
  }

  function NotBefore(limit: int): Event -> bool { (e: Event) => Day(e) >= limit }

  // ------------------------------------------------------------- one pass

  /** The daily rows after the two daily statements of a pass by itself. */
  function DailyAfter(db: Db): seq<DailyRow> {
    DailyDeleted(db, db.Today()) + FreshDaily(db, db.Today())
  }

  lemma DailyStage(db: Db, retentionDays: int) returns (d2: Db)
    requires Inv(db) && db.phase == Idle
    ensures d2 == RunStatement(RunStatement(Apply(db, BeginPass), retentionDays), retentionDays)
    ensures d2 == db.(daily := DailyAfter(db), phase := AtDeleteCohorts(db.Today())) && Inv(d2)
  {
    var d0 := Apply(db, BeginPass);
    StartOrStopInv(db, AtDeleteDaily(db.Today()));
    DeleteDailyInv(d0);
    var d1 := RunStatement(d0, 0);
    InsertDailyInv(d1);
    DailyInsertNeverCollides(d1);
    d2 := RunStatement(d1, 0);
  }

  lemma CohortStage(d2: Db, retentionDays: int) returns (d4: Db)
    requires Inv(d2) && d2.phase.AtDeleteCohorts?
    ensures d4 == RunStatement(RunStatement(d2, retentionDays), retentionDays)
    ensures d4 == d2.(cohorts := CohortsDeleted(d2) + CohortRollup(d2.events), phase := AtPrune(d2.phase.today))
    ensures Inv(d4)
  {
    CohortStatementsInv(d2);
    var d3 := RunStatement(d2, 0);
    CohortStatementsInv(d3);
    LoneInsertSucceeds(d2);
    d4 := RunStatement(d3, 0);
  }

  /** What a pass leaves, table by table. */
  function PassResult(db: Db, retentionDays: int): Db {
    db.(events := Filter(db.events, SurvivesPrune(DailyAfter(db), db.Today() - retentionDays)),
        daily := DailyAfter(db),
        cohorts := CohortsDeleted(db) + CohortRollup(db.events))
  }

  /** A pass by itself runs through all five statements to its end. */
  lemma PassPrunes(db: Db, retentionDays: int)
    requires Inv(db) && db.phase == Idle
    ensures Pass(db, retentionDays) == PassResult(db, retentionDays)
    ensures Inv(PassResult(db, retentionDays))
  {
    var d2 := DailyStage(db, retentionDays);
    var d4 := CohortStage(d2, retentionDays);
    PruneInv(d4, retentionDays);
  }

  /** The guarded prune of a pass removes exactly the events of the days before the limit. */
  lemma PassTables(db: Db, retentionDays: int)
    requires Inv(db) && db.phase == Idle
    ensures var p := Pass(db, retentionDays);
            && p == db.(events := p.events, daily := p.daily, cohorts := p.cohorts)
            && p.daily == DailyDeleted(db, db.Today()) + FreshDaily(db, db.Today())
            && p.cohorts == CohortsDeleted(db) + CohortRollup(db.events)
            && p.events == Filter(db.events, NotBefore(PruneLimit(db, retentionDays)))
            && Inv(p)
  {
    PassPrunes(db, retentionDays);
    var d2 := DailyStage(db, retentionDays);
    var d4 := CohortStage(d2, retentionDays);
    PrunedIsPrefix(d4, d4.Today() - retentionDays);
  }

  lemma LoneInsertSucceeds(db: Db)
    ensures !CohortCollides(CohortsDeleted(db), CohortRollup(db.events))
  {
    CohortCollidesOn(CohortsDeleted(db), CohortRollup(db.events));
    forall g ensures CohortRows(CohortsDeleted(db), g) == [] || CohortRows(CohortRollup(db.events), g) == [] {
      DeleteCohortRows(db, g);
      CohortRollupOf(db.events, g);
    }
  }

  lemma PrunedIsPrefix(db: Db, cutoff: int)
    requires Inv(db) && db.phase.AtPrune? && db.phase.today == db.Today()
    ensures Pruned(db, cutoff) == Filter(db.events, NotBefore(if cutoff < db.Today() then cutoff else db.Today()))
  {
    var keep, after := SurvivesPrune(db.daily, cutoff), NotBefore(if cutoff < db.Today() then cutoff else db.Today());
    forall e | e in db.events ensures keep(e) == after(e) {
      PruneDay(db, cutoff, Day(e));
      DayOfMember(db.events, Day(e));
      DayOfMember(Pruned(db, cutoff), Day(e));
      FilterMember(db.events, keep, e);
      assert e in DayEvents(db.events, Day(e));
      if keep(e) { assert e in DayEvents(Pruned(db, cutoff), Day(e)); }
    }
    FilterCongruent(db.events, keep, after);
  }

  lemma PassDayRows(db: Db, retentionDays: int, day: nat)
    requires Inv(db) && db.phase == Idle
    ensures DayRows(Pass(db, retentionDays).daily, day)
            == if day < db.Today() && DayEvents(db.events, day) != [] then DailyRollup(DayEvents(db.events, day))
               else DayRows(db.daily, day)
  {
    PassTables(db, retentionDays);
    DeleteDailyRows(db, db.Today(), day);
    InsertDailyRows(db.(daily := DailyDeleted(db, db.Today())), db.Today(), day);
    assert DailyRollup([]) == [];
  }

  /** After a pass every cohort with raw events has the one row that is their fold, and every other
      cohort keeps what it had. */
  lemma PassCohortRows(db: Db, retentionDays: int, g: CohortGrain)
    requires Inv(db) && db.phase == Idle
    ensures CohortRows(Pass(db, retentionDays).cohorts, g)
            == if EventsOf(db.events, g) != [] then [MakeCohort(g, EventsOf(db.events, g))]
               else CohortRows(db.cohorts, g)
  {
    PassTables(db, retentionDays);
    DeleteCohortRows(db, g);
    InsertCohortRows(db.(cohorts := CohortsDeleted(db)), g);
  }

  // ------------------------------------ appends between the cohort statements

  predicate QuietStep(step: Step) { step.Append? || step.Tick? }

  lemma {:induction false} QuietSteps(db: Db, steps: seq<Step>)
    requires forall i :: 0 <= i < |steps| ==> QuietStep(steps[i])
    ensures var q := Run(db, steps);
            q.cohorts == db.cohorts && q.phase == db.phase && db.events <= q.events
  {
    if steps != [] { QuietSteps(db, steps[..|steps| - 1]); }
  }

  lemma EventsOfGrow(a: seq<Event>, b: seq<Event>, g: CohortGrain)
    requires a <= b
    ensures EventsOf(a, g) != [] ==> EventsOf(b, g) != []
  {
    var c := b[|a|..];
    assert b == a + c;
    FilterAppend(a, c, InCohort());
    FilterAppend(CohortEvents(a), CohortEvents(c), WithKey(CohortKey, g));
  }

  /** The state when the cohort insert runs, after a quiet run of other writers. */
  lemma BetweenCohortStatements(db: Db, steps: seq<Step>) returns (mid: Db)
    requires db.phase.AtDeleteCohorts?
    requires forall i :: 0 <= i < |steps| ==> QuietStep(steps[i])
    ensures mid == Run(RunStatement(db, 0), steps)
    ensures mid.phase.AtInsertCohorts? && db.events <= mid.events && mid.cohorts == CohortsDeleted(db)
  {
    QuietSteps(RunStatement(db, 0), steps);
    mid := Run(RunStatement(db, 0), steps);
  }

  lemma InsertRefusedExactly(db: Db, mid: Db)
    requires db.events <= mid.events && mid.cohorts == CohortsDeleted(db)
    ensures CohortCollides(mid.cohorts, CohortRollup(mid.events)) <==> SomeRevived(db, mid)
  {
    CohortCollidesOn(mid.cohorts, CohortRollup(mid.events));
    forall g
      ensures CohortRows(mid.cohorts, g) != [] && CohortRows(CohortRollup(mid.events), g) != [] <==> Revived(db, mid, g)
    {
      RecomputedCohort(db, mid, g);
    }
  }

  /** Each cohort with raw events at the insert has their fold as its one row; the others are unchanged. */
  ghost predicate Recomputed(db: Db, mid: Db, cohorts: seq<CohortRow>) {
    forall g :: CohortRows(cohorts, g)
                == if EventsOf(mid.events, g) != [] then [MakeCohort(g, EventsOf(mid.events, g))]
                   else CohortRows(db.cohorts, g)
  }

  ghost predicate SomeRevived(db: Db, mid: Db) {
    exists g :: Revived(db, mid, g)
  }

  lemma InsertStep(mid: Db)
    requires mid.phase.AtInsertCohorts?
    ensures RunStatement(mid, 0)
            == if CohortCollides(mid.cohorts, CohortRollup(mid.events)) then mid.(phase := Idle)
               else mid.(cohorts := mid.cohorts + CohortRollup(mid.events), phase := AtPrune(mid.phase.today))
  {
  }

  /** With other writers appending between the delete and the insert: the insert is refused exactly when
      an append revived a cohort whose raw events were gone; otherwise the cohorts are recomputed. */
  lemma CohortRecompute(db: Db, steps: seq<Step>)
    requires db.phase.AtDeleteCohorts?
    requires forall i :: 0 <= i < |steps| ==> QuietStep(steps[i])
    ensures var mid := Run(RunStatement(db, 0), steps);
            var end := RunStatement(mid, 0);
            && (end.phase == Idle <==> SomeRevived(db, mid))
            && (end.phase != Idle ==> Recomputed(db, mid, end.cohorts))
  {
    var mid := BetweenCohortStatements(db, steps);
    InsertStep(mid);
    InsertRefusedExactly(db, mid);
    if !SomeRevived(db, mid) { RowsAfterInsert(db, mid); }
  }

  lemma RowsAfterInsert(db: Db, mid: Db)
    requires db.events <= mid.events && mid.cohorts == CohortsDeleted(db) && !SomeRevived(db, mid)
    ensures Recomputed(db, mid, mid.cohorts + CohortRollup(mid.events))
  {
    forall g
      ensures CohortRows(mid.cohorts + CohortRollup(mid.events), g)
              == if EventsOf(mid.events, g) != [] then [MakeCohort(g, EventsOf(mid.events, g))]
                 else CohortRows(db.cohorts, g)
    {
      assert !Revived(db, mid, g);
      RecomputedCohort(db, mid, g);
    }
  }

  /** A cohort with a row, without raw events when the delete ran, and with some when the insert runs. */
  ghost predicate Revived(db: Db, mid: Db, g: CohortGrain) {
    CohortRows(db.cohorts, g) != [] && EventsOf(db.events, g) == [] && EventsOf(mid.events, g) != []
  }

  lemma RecomputedCohort(db: Db, mid: Db, g: CohortGrain)
    requires db.events <= mid.events && mid.cohorts == CohortsDeleted(db)
    ensures CohortRows(mid.cohorts, g) != [] && CohortRows(CohortRollup(mid.events), g) != [] <==> Revived(db, mid, g)
    ensures !Revived(db, mid, g) ==>
              CohortRows(mid.cohorts + CohortRollup(mid.events), g)
              == if EventsOf(mid.events, g) != [] then [MakeCohort(g, EventsOf(mid.events, g))]
                 else CohortRows(db.cohorts, g)
  {
    DeleteCohortRows(db, g);
    EventsOfGrow(db.events, mid.events, g);
    CohortRollupOf(mid.events, g);
    InsertCohortRows(mid, g);
  }

  // ------------------------------------------------------- a second pass

  /** The cohort has raw events on both sides of the day the prune stops at. */
  ghost predicate Straddles(events: seq<Event>, g: CohortGrain, limit: int) {
    && (exists e :: e in EventsOf(events, g) && Day(e) < limit)
    && (exists e :: e in EventsOf(events, g) && Day(e) >= limit)
  }

  ghost predicate PushOrPull(events: seq<Event>) {
    forall e :: e in events ==> e.channel in {"push", "pull"}
  }

  lemma SurvivingEventsOf(events: seq<Event>, limit: int, g: CohortGrain)
    ensures EventsOf(Filter(events, NotBefore(limit)), g) == Filter(EventsOf(events, g), NotBefore(limit))
  {
    var late, inC, own := NotBefore(limit), InCohort(), WithKey(CohortKey, g);
    var both := (e: Event) => late(e) && inC(e);
    FilterTwice(events, late, inC, both);
    FilterTwice(events, inC, late, both);
    var es := CohortEvents(events);
    var both2 := (e: Event) => late(e) && own(e);
    FilterTwice(es, late, own, both2);
    FilterTwice(es, own, late, both2);
  }

  lemma {:induction false} FilterDrops<T>(s: seq<T>, keep: T -> bool)
    ensures |Filter(s, keep)| <= |s|
    ensures (exists x :: x in s && !keep(x)) ==> |Filter(s, keep)| < |s|
  {
    if s != [] {
      var n := |s| - 1;
      FilterDrops(s[..n], keep);
      assert s == s[..n] + [s[n]];
    }
  }

  lemma {:induction false} CountsAddUp(events: seq<Event>)
    requires PushOrPull(events)
    ensures |Filter(events, OnChannel("push"))| + |Filter(events, OnChannel("pull"))| == |events|
  {
    if events != [] {
      var n := |events| - 1;
      assert events[n] in events;
      CountsAddUp(events[..n]);
    }
  }

  lemma CohortRowCounts(g: CohortGrain, events: seq<Event>)
    requires PushOrPull(events)
    ensures MakeCohort(g, events).surfacedCount + MakeCohort(g, events).pulledCount == |events|
  {
    CountsAddUp(events);
  }

  /** One cohort in the second pass: its row changes exactly when it straddles. */
  lemma SecondPassCohort(events: seq<Event>, limit: int, g: CohortGrain)
    requires PushOrPull(events)
    ensures var own, left := EventsOf(events, g), EventsOf(Filter(events, NotBefore(limit)), g);
            Straddles(events, g, limit) <==> left != [] && MakeCohort(g, left) != MakeCohort(g, own)
  {
    var own, left := EventsOf(events, g), EventsOf(Filter(events, NotBefore(limit)), g);
    SurvivingEventsOf(events, limit, g);
    FilterMembers(own, NotBefore(limit));
    FilterMembers(CohortEvents(events), WithKey(CohortKey, g));
    FilterMembers(events, InCohort());
    FilterDrops(own, NotBefore(limit));
    if left != [] { assert left[0] in left; }
    if forall e :: e in own ==> NotBefore(limit)(e) {
      FilterKeepsAll(own, NotBefore(limit));
    }
    CohortRowCounts(g, own);
    CohortRowCounts(g, left);
  }

  /** A second pass with no new events: the raw and daily tables hold the same rows, and the cohort table
      does exactly when no cohort straddles the retention cutoff. */
  lemma SecondPassExactly(db: Db, retentionDays: int)
    requires Inv(db) && db.phase == Idle && PushOrPull(db.events)
    ensures var p := Pass(db, retentionDays);
            var q := Pass(p, retentionDays);
            && q.events == p.events
            && multiset(q.daily) == multiset(p.daily)
            && (multiset(q.cohorts) == multiset(p.cohorts)
                <==> forall g :: !Straddles(db.events, g, PruneLimit(db, retentionDays)))
  {
    SecondPassEvents(db, retentionDays);
    SecondPassDaily(db, retentionDays);
    SecondPassCohorts(db, retentionDays);
  }

  lemma SecondPassEvents(db: Db, retentionDays: int)
    requires Inv(db) && db.phase == Idle
    ensures Pass(Pass(db, retentionDays), retentionDays).events == Pass(db, retentionDays).events
  {
    var limit := PruneLimit(db, retentionDays);
    PassEvents(db, retentionDays, limit);
    PassEvents(Pass(db, retentionDays), retentionDays, limit);
    FilterTwice(db.events, NotBefore(limit), NotBefore(limit), NotBefore(limit));
  }

  lemma PassEvents(db: Db, retentionDays: int, limit: int)
    requires Inv(db) && db.phase == Idle && limit == PruneLimit(db, retentionDays)
    ensures var p := Pass(db, retentionDays);
            && p.events == Filter(db.events, NotBefore(limit))
            && Inv(p) && p.phase == Idle && PruneLimit(p, retentionDays) == limit
  {
    PassTables(db, retentionDays);
  }

  lemma SecondPassDaily(db: Db, retentionDays: int)
    requires Inv(db) && db.phase == Idle
    ensures multiset(Pass(Pass(db, retentionDays), retentionDays).daily) == multiset(Pass(db, retentionDays).daily)
  {
    var p := Pass(db, retentionDays);
    var q := Pass(p, retentionDays);
    PassTables(db, retentionDays);
    var on := (r: DailyRow) => RowOn(r.grain.day);
    forall r ensures Filter(q.daily, on(r)) == Filter(p.daily, on(r)) {
      var day := r.grain.day;
      PassDayRows(db, retentionDays, day);
      PassDayRows(p, retentionDays, day);
      SurvivingDay(db.events, PruneLimit(db, retentionDays), day);
    }
    SamePerKeySameRows(q.daily, p.daily, on);
  }

  lemma SurvivingDay(events: seq<Event>, limit: int, day: nat)
    ensures DayEvents(Filter(events, NotBefore(limit)), day) == if day < limit then [] else DayEvents(events, day)
  {
    FilterMembers(events, NotBefore(limit));
    if day < limit {
      FilterKeepsNone(Filter(events, NotBefore(limit)), EventOn(day));
    } else {
      FilterStronger(events, NotBefore(limit), EventOn(day));
    }
  }

  lemma SecondPassCohorts(db: Db, retentionDays: int)
    requires Inv(db) && db.phase == Idle && PushOrPull(db.events)
    ensures var p := Pass(db, retentionDays);
            multiset(Pass(p, retentionDays).cohorts) == multiset(p.cohorts)
            <==> forall g :: !Straddles(db.events, g, PruneLimit(db, retentionDays))
  {
    var limit := PruneLimit(db, retentionDays);
    var p := Pass(db, retentionDays);
    var q := Pass(p, retentionDays);
    PassTables(db, retentionDays);
    forall g ensures Straddles(db.events, g, limit) <==> CohortRows(q.cohorts, g) != CohortRows(p.cohorts, g) {
      PassCohortRows(db, retentionDays, g);
      PassCohortRows(p, retentionDays, g);
      SecondPassCohort(db.events, limit, g);
      SurvivingEventsOf(db.events, limit, g);
    }
    if forall g :: !Straddles(db.events, g, limit) {
      var on := (r: CohortRow) => CohortOn(r.grain);
      forall r ensures Filter(q.cohorts, on(r)) == Filter(p.cohorts, on(r)) {
        assert !Straddles(db.events, r.grain, limit);
      }
      SamePerKeySameRows(q.cohorts, p.cohorts, on);
    } else {
      var g :| Straddles(db.events, g, limit);
      PassCohortRows(db, retentionDays, g);
      PassCohortRows(p, retentionDays, g);
      SecondPassCohort(db.events, limit, g);
      DifferentRow(p.cohorts, q.cohorts, g);
    }
  }

  lemma DifferentRow(a: seq<CohortRow>, b: seq<CohortRow>, g: CohortGrain)
    requires |CohortRows(a, g)| == |CohortRows(b, g)| == 1 && CohortRows(a, g) != CohortRows(b, g)
    ensures multiset(a) != multiset(b)
  {
    var x := CohortRows(a, g)[0];
    FilterMember(a, CohortOn(g), x);
    FilterCount(a, CohortOn(g), x);
    FilterCount(b, CohortOn(g), x);
    assert CohortRows(a, g) == [x];
    assert CohortRows(b, g) == [CohortRows(b, g)[0]];
  }

  // ------------------------------------------------------------- the store

  class MemoryStore {
    var events: seq<Event>
    var daily: seq<DailyRow>
    var cohorts: seq<CohortRow>
    var clock: nat
    ghost var log: seq<Event>

    ghost function State(): Db
      reads this
    {
      Db(events, daily, cohorts, log, clock, Idle)
    }

    ghost predicate Valid()
      reads this
    {
      Inv(State())
    }

    constructor (now: nat)
      ensures Valid() && State() == EmptyDb(now)
    {
      events, daily, cohorts, clock, log := [], [], [], now, [];
    }

    method Wait(seconds: nat)
      requires Valid()
      modifies this
      ensures Valid() && State() == Apply(old(State()), Tick(seconds))
    {
      TickInv(State(), seconds);
      clock := clock + seconds;
    }

    method InsertMemoryAccessEvent(row: Event)
      requires Valid()
      modifies this
      ensures Valid() && State() == Inserted(old(State()), row)
      ensures events == if exists e :: e in old(events) && e.id == row.id then old(events)
                        else old(events) + [row.(createdAt := clock)]
    {
      AppendInv(State(), row);
      var e := row.(createdAt := clock);
      if !HasId(events, e.id) {
        events := events + [e];
        log := log + [e];
      }
    }

    /** The pass, statement by statement; the results are the statements' change counts. */
    method RunMemoryRollupOnce(retentionDays: int) returns (dailyRows: nat, cohortRows: nat, pruned: nat)
      requires Valid()
      modifies this
      ensures Valid() && State() == PassResult(old(State()), retentionDays)
      ensures dailyRows == |FreshDaily(old(State()), old(State()).Today())|
      ensures cohortRows == |CohortRollup(old(events))|
      ensures pruned == |old(events)| - |events|
    {
      PassPrunes(State(), retentionDays);
      dailyRows, cohortRows, pruned := RunStatements(retentionDays);
    }

    method RunStatements(retentionDays: int) returns (dailyRows: nat, cohortRows: nat, pruned: nat)
      modifies this`events, this`daily, this`cohorts
      ensures State() == PassResult(old(State()), retentionDays)
      ensures dailyRows == |FreshDaily(old(State()), old(State()).Today())|
      ensures cohortRows == |CohortRollup(old(events))|
      ensures pruned == |old(events)| - |events|
    {
      var today := clock / SECONDS_PER_DAY;
      DeleteDaily(today);
      dailyRows := InsertDaily(today);
      DeleteCohorts();
      cohortRows := InsertCohorts();
      var cutoff := clock / SECONDS_PER_DAY - retentionDays;
      pruned := Prune(cutoff);
    }

    method DeleteDaily(today: nat)
      modifies this`daily
      ensures daily == Filter(old(daily), KeepsDaily(events, today))
    {
      daily := Filter(daily, KeepsDaily(events, today));
    }

    method InsertDaily(today: nat) returns (inserted: nat)
      modifies this`daily
      ensures daily == old(daily) + DailyRollup(CompletedEvents(events, today))
      ensures inserted == |daily| - |old(daily)|
    {
      var rows := DailyRollup(CompletedEvents(events, today));
      daily := daily + rows;
      inserted := |rows|;
    }

    method DeleteCohorts()
      modifies this`cohorts
      ensures cohorts == Filter(old(cohorts), KeepsCohort(events))
    {
      cohorts := Filter(cohorts, KeepsCohort(events));
    }

    method InsertCohorts() returns (inserted: nat)
      modifies this`cohorts
      ensures cohorts == old(cohorts) + CohortRollup(events)
      ensures inserted == |cohorts| - |old(cohorts)|
    {
      var rows := CohortRollup(events);
      cohorts := cohorts + rows;
      inserted := |rows|;
    }

    method Prune(cutoff: int) returns (deleted: nat)
      modifies this`events
      ensures events == Filter(old(events), SurvivesPrune(daily, cutoff))
      ensures deleted == |old(events)| - |events|
    {
      var kept := Filter(events, SurvivesPrune(daily, cutoff));
      FilterDrops(events, SurvivesPrune(daily, cutoff));
      deleted := |events| - |kept|;
      events := kept;
    }
  }
}
