/**
  Runs of the rollup from an empty database that meet the failing side of
  `SecondPassExactly` and of `CohortRecompute`.
*/
module MemoryWitnesses {
  import opened Collections
  import opened MemoryPasses
  import opened MemoryRollup
  import opened MemoryTables

  lemma {:induction false} RunOn(db: Db, a: seq<Step>, b: seq<Step>)
    ensures Run(db, a + b) == Run(Run(db, a), b)
  {
    if b == [] {
      assert a + b == a;
    } else {
      var m := |b| - 1;
      assert (a + b)[..|a + b| - 1] == a + b[..m];
      RunOn(db, a, b[..m]);
    }
  }

  lemma RunOne(db: Db, step: Step)
    ensures Run(db, [step]) == Apply(db, step)
  {
    assert [step][..0] == [];
  }

  lemma RunThree(db: Db, a: Step, b: Step, c: Step)
    ensures Run(db, [a, b, c]) == Apply(Apply(Apply(db, a), b), c)
  {
    RunOn(db, [a, b], [c]);
    RunOn(db, [a], [b]);
    RunOne(db, a);
    RunOne(Apply(db, a), b);
    RunOne(Apply(Apply(db, a), b), c);
    assert [a, b] + [c] == [a, b, c] && [a] + [b] == [a, b];
  }

  predicate InSomeCohort(e: Event) {
    e.memoryId.Some? && e.runId.Some? && e.channel in {"push", "pull"}
  }

  lemma HasCohortEvent(events: seq<Event>, e: Event)
    requires e in events && InSomeCohort(e)
    ensures e in EventsOf(events, CohortKey(e))
  {
    FilterMember(events, InCohort(), e);
    FilterMember(CohortEvents(events), WithKey(CohortKey, CohortKey(e)), e);
  }

  /** An access to an item, and one to the same item and run when the first is past retention. */
  function SameItemLater(e: Event, id: string, retentionDays: nat): seq<Step> {
    [Append(e), Tick((retentionDays + 1) * SECONDS_PER_DAY), Append(e.(id := id))]
  }

  lemma SameItemLaterEvents(e: Event, id: string, retentionDays: nat)
    requires id != e.id
    ensures var db := Run(EmptyDb(0), SameItemLater(e, id, retentionDays));
            && db.events == [e.(createdAt := 0),
                             e.(id := id, createdAt := (retentionDays + 1) * SECONDS_PER_DAY)]
            && db.phase == Idle && db.Today() == retentionDays + 1 && Inv(db)
  {
    var wait := Tick((retentionDays + 1) * SECONDS_PER_DAY);
    RunThree(EmptyDb(0), Append(e), wait, Append(e.(id := id)));
    EmptyInv(0);
    RunInv(EmptyDb(0), SameItemLater(e, id, retentionDays));
    var one := Apply(Apply(EmptyDb(0), Append(e)), wait);
    assert one.events == [e.(createdAt := 0)];
  }

  /** A reachable state whose second pass changes the cohort table, for every retention. */
  lemma SecondPassCanChange(e: Event, id: string, retentionDays: nat)
    requires InSomeCohort(e) && id != e.id
    ensures var db := Run(EmptyDb(0), SameItemLater(e, id, retentionDays));
            var p := Pass(db, retentionDays);
            multiset(Pass(p, retentionDays).cohorts) != multiset(p.cohorts)
  {
    var db := Run(EmptyDb(0), SameItemLater(e, id, retentionDays));
    SameItemLaterEvents(e, id, retentionDays);
    var x, y := db.events[0], db.events[1];
    HasCohortEvent(db.events, x);
    HasCohortEvent(db.events, y);
    assert Day(x) == 0 && Day(y) == retentionDays + 1;
    assert PruneLimit(db, retentionDays) == 1;
    assert Straddles(db.events, CohortKey(x), 1);
    SecondPassExactly(db, retentionDays);
  }

  /** An access, a pass that prunes it two days later, and the daily statements of the next pass. */
  function PrunedThenNextPass(e: Event): seq<Step> {
    [Append(e), Tick(2 * SECONDS_PER_DAY), BeginPass] + [Statement(1), Statement(1), Statement(1)]
    + [Statement(1), Statement(1), BeginPass] + [Statement(1), Statement(1)]
  }

  function TwoDaysLater(e: Event): Db {
    Apply(Apply(EmptyDb(0), Append(e)), Tick(2 * SECONDS_PER_DAY))
  }

  lemma PrunedThenNextPassRuns(e: Event)
    ensures Run(EmptyDb(0), PrunedThenNextPass(e))
            == RunStatement(RunStatement(Apply(Pass(TwoDaysLater(e), 1), BeginPass), 1), 1)
  {
    var s := Statement(1);
    var begin := [Append(e), Tick(2 * SECONDS_PER_DAY), BeginPass];
    RunOn(EmptyDb(0), begin + [s, s, s] + [s, s, BeginPass], [s, s]);
    RunOn(EmptyDb(0), begin + [s, s, s], [s, s, BeginPass]);
    RunOn(EmptyDb(0), begin, [s, s, s]);
    RunThree(EmptyDb(0), begin[0], begin[1], begin[2]);
    var d := Apply(TwoDaysLater(e), BeginPass);
    RunThree(d, s, s, s);
    RunThree(Apply(Apply(Apply(d, s), s), s), s, s, BeginPass);
    var d' := Apply(Pass(TwoDaysLater(e), 1), BeginPass);
    RunOn(d', [s], [s]);
    assert [s] + [s] == [s, s];
    RunOne(d', s);
    RunOne(Apply(d', s), s);
  }

  lemma PrunedThenNextPassState(e: Event) returns (p: Db)
    requires InSomeCohort(e)
    ensures p.events == [] && p.phase == Idle && CohortRows(p.cohorts, CohortKey(e)) != []
    ensures Run(EmptyDb(0), PrunedThenNextPass(e)) == p.(daily := DailyAfter(p), phase := AtDeleteCohorts(p.Today()))
  {
    p := Pass(TwoDaysLater(e), 1);
    PrunedThenNextPassRuns(e);
    OneEventLater(e, TwoDaysLater(e));
    PrunedByPass(e.(createdAt := 0), TwoDaysLater(e));
    var d2 := DailyStage(p, 1);
  }

  lemma OneEventLater(e: Event, db: Db)
    requires db == Apply(Apply(EmptyDb(0), Append(e)), Tick(2 * SECONDS_PER_DAY))
    ensures Inv(db) && db.events == [e.(createdAt := 0)] && db.phase == Idle && db.Today() == 2
  {
    var one := Apply(EmptyDb(0), Append(e));
    EmptyInv(0);
    ApplyInv(EmptyDb(0), Append(e));
    assert one.events == [e.(createdAt := 0)];
    ApplyInv(one, Tick(2 * SECONDS_PER_DAY));
  }

  lemma PrunedByPass(e: Event, db: Db)
    requires InSomeCohort(e) && Day(e) == 0
    requires Inv(db) && db.events == [e] && db.phase == Idle && db.Today() == 2
    ensures var p := Pass(db, 1);
            Inv(p) && p.events == [] && p.phase == Idle && CohortRows(p.cohorts, CohortKey(e)) != []
  {
    PassTables(db, 1);
    assert e in [e];
    FilterKeepsNone([e], NotBefore(1));
    HasCohortEvent([e], e);
    PassCohortRows(db, 1, CohortKey(e));
  }

  /** A reachable pass whose cohort insert is refused: the same item is accessed again, in the same run, between
      the two cohort statements. */
  lemma CohortInsertCanBeRefused(e: Event)
    requires InSomeCohort(e)
    ensures var db := Run(EmptyDb(0), PrunedThenNextPass(e));
            && db.phase.AtDeleteCohorts?
            && RunStatement(Run(RunStatement(db, 0), [Append(e)]), 0).phase == Idle
  {
    var p := PrunedThenNextPassState(e);
    var db := Run(EmptyDb(0), PrunedThenNextPass(e));
    var mid := Run(RunStatement(db, 0), [Append(e)]);
    RunOne(RunStatement(db, 0), Append(e));
    var x := e.(createdAt := db.now);
    assert mid.events == [x];
    HasCohortEvent(mid.events, x);
    assert CohortKey(x) == CohortKey(e);
    assert Revived(db, mid, CohortKey(e));
    CohortRecompute(db, [Append(e)]);
  }
}
