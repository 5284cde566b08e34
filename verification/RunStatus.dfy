/**
  The status of a run: its writers (packages/db/src/destinations.ts,
  packages/db/src/runs-admin.ts) and the two clean-ups of runs left open
  (packages/lifecycle/src/stale-runs-sweeper.ts, abandon-stale-runs.ts).
  The clock is in milliseconds; the columns are in whole seconds.
*/
module RunStatus {
  import opened Collections

  datatype Status = InProgress | Completed | Failed | Cancelled | Abandoned

  datatype Run = Run(id: string, projectId: string, sessionId: string, status: Status,
                     startedAt: nat, endedAt: Option<nat>)

  datatype RunEvent = RunEvent(id: string, runId: Option<string>, createdAt: nat)

  /** A call of cancelRun that found its run open: awaiting its UPDATE, whose time it took at its start, or done. */
  datatype Cancel = Waiting(id: string, at: nat) | Written

  datatype Db = Db(runs: seq<Run>, events: seq<RunEvent>, nowMs: nat, cancels: seq<Cancel>) {
    function Now(): nat { nowMs / 1000 }
  }

  // -------------------------------------------------------------- writers

  predicate HasRun(runs: seq<Run>, id: string, projectId: string, sessionId: string) {
    exists i :: 0 <= i < |runs|
                && (runs[i].id == id || (runs[i].projectId == projectId && runs[i].sessionId == sessionId))
  }

  predicate HasEvent(events: seq<RunEvent>, id: string) {
    exists i :: 0 <= i < |events| && events[i].id == id
  }

  /** UPDATE runs SET status = …, ended_at = … WHERE `chosen`. */
  function SetStatus(runs: seq<Run>, chosen: Run -> bool, status: Status, endedAt: nat): seq<Run> {
    seq(|runs|, i requires 0 <= i < |runs| =>
                  if chosen(runs[i]) then runs[i].(status := status, endedAt := Some(endedAt)) else runs[i])
  }

  /** A run event at or after the cutoff: the run is still producing work. */
  predicate ActiveSince(events: seq<RunEvent>, runId: string, cutoff: int) {
    exists i :: 0 <= i < |events| && events[i].runId == Some(runId) && events[i].createdAt >= cutoff
  }

  /** The run has an event at the second `from` or later. */
  ghost predicate HadEvent(events: seq<RunEvent>, runId: string, from: int) {
    exists e :: e in events && e.runId == Some(runId) && from <= e.createdAt
  }

  lemma ActiveExactly(events: seq<RunEvent>)
    ensures forall id, cutoff :: ActiveSince(events, id, cutoff) <==> HadEvent(events, id, cutoff)
  {
    forall id, cutoff ensures ActiveSince(events, id, cutoff) <==> HadEvent(events, id, cutoff) {
      if e :| e in events && e.runId == Some(id) && cutoff <= e.createdAt {
        var i :| 0 <= i < |events| && events[i] == e;
      }
    }
  }

  /** The WHERE clause of the periodic sweep. */
  function Stuck(events: seq<RunEvent>, cutoff: int): Run -> bool {
    (r: Run) => r.status == InProgress && r.startedAt < cutoff && !ActiveSince(events, r.id, cutoff)
  }

  /** The WHERE clause of the clean-up at session start: other sessions of the project, whatever their age. */
  function Orphaned(events: seq<RunEvent>, projectId: string, excludeSessionId: string, cutoff: int): Run -> bool {
    (r: Run) => r.projectId == projectId && r.status == InProgress && r.sessionId != excludeSessionId
                && !ActiveSince(events, r.id, cutoff)
  }

  function IsRun(id: string, spare: Status): Run -> bool {
    (r: Run) => r.id == id && r.status != spare
  }

  predicate HasOpenRun(runs: seq<Run>, id: string) {
    exists i :: 0 <= i < |runs| && runs[i].id == id && runs[i].status == InProgress
  }

  function WithId(id: string): Run -> bool {
    (r: Run) => r.id == id
  }

  function OfSession(projectId: string, sessionId: string): Run -> bool {
    (r: Run) => r.projectId == projectId && r.sessionId == sessionId
  }

  datatype Step =
    | Tick(ms: nat)
    | InsertRun(id: string, projectId: string, sessionId: string)
    | InsertEvent(id: string, runId: Option<string>)
    | CloseRun(projectId: string, sessionId: string)
    | CancelRead(id: string)
    | CancelWrite(call: nat)
    | MarkCompleted(id: string)
    | MarkFailed(id: string)
    | Sweep(thresholdSec: int)
    | AbandonOthers(projectId: string, excludeSessionId: string, windowSec: int)

  /** cancelRun up to its await: it goes on only when its SELECT finds the run open. */
  function AfterCancelRead(db: Db, id: string): Db {
    if HasOpenRun(db.runs, id) then db.(cancels := db.cancels + [Waiting(id, db.Now())]) else db
  }

  /** Its UPDATE is by id alone. */
  function AfterCancelWrite(db: Db, call: nat): Db {
    if call < |db.cancels| && db.cancels[call].Waiting? then
      var c := db.cancels[call];
      db.(runs := SetStatus(db.runs, WithId(c.id), Cancelled, c.at), cancels := db.cancels[call := Written])
    else db
  }

  /** Inserts take the default status; inserts that conflict are ignored. closeRun is unconditional. */
  function Apply(db: Db, step: Step): Db {
    match step
    case Tick(ms) => db.(nowMs := db.nowMs + ms)
    case InsertRun(id, projectId, sessionId) =>
      if HasRun(db.runs, id, projectId, sessionId) then db
      else db.(runs := db.runs + [Run(id, projectId, sessionId, InProgress, db.Now(), None)])
    case InsertEvent(id, runId) =>
      if HasEvent(db.events, id) then db else db.(events := db.events + [RunEvent(id, runId, db.Now())])
    case CloseRun(projectId, sessionId) =>
      db.(runs := SetStatus(db.runs, OfSession(projectId, sessionId), Completed, db.Now()))
    case CancelRead(id) => AfterCancelRead(db, id)
    case CancelWrite(call) => AfterCancelWrite(db, call)
    case MarkCompleted(id) => db.(runs := SetStatus(db.runs, IsRun(id, Completed), Completed, db.Now()))
    case MarkFailed(id) => db.(runs := SetStatus(db.runs, IsRun(id, Failed), Failed, db.Now()))
    case Sweep(thresholdSec) =>
      db.(runs := SetStatus(db.runs, Stuck(db.events, db.Now() - thresholdSec), Cancelled, db.Now()))
    case AbandonOthers(projectId, exclude, windowSec) =>
      db.(runs := SetStatus(db.runs, Orphaned(db.events, projectId, exclude, db.Now() - windowSec), Abandoned,
                            db.Now()))
  }

  function RunSteps(db: Db, steps: seq<Step>): Db {
    if steps == [] then db else Apply(RunSteps(db, steps[..|steps| - 1]), steps[|steps| - 1])
  }

  function EmptyDb(nowMs: nat): Db { Db([], [], nowMs, []) }

  // ------------------------------------------------------------- invariant

  /** Open exactly while there is no end time. */
  ghost predicate OpenExact(db: Db) {
    forall i :: 0 <= i < |db.runs| ==> (db.runs[i].status == InProgress <==> db.runs[i].endedAt == None)
  }

  /** Rows stay, keep their identity and start, and a closed run does not reopen; events stay. */
  ghost predicate Advances(a: Db, b: Db) {
    && |a.runs| <= |b.runs| && a.nowMs <= b.nowMs && a.events <= b.events && |a.cancels| <= |b.cancels|
    && forall i :: 0 <= i < |a.runs| ==>
         && b.runs[i].id == a.runs[i].id && b.runs[i].startedAt == a.runs[i].startedAt
         && b.runs[i].projectId == a.runs[i].projectId && b.runs[i].sessionId == a.runs[i].sessionId
         && (a.runs[i].status != InProgress ==> b.runs[i].status != InProgress)
  }

  lemma ApplyKeeps(db: Db, step: Step)
    ensures Advances(db, Apply(db, step))
    ensures OpenExact(db) ==> OpenExact(Apply(db, step))
  {
  }

  lemma {:induction false} RunKeeps(db: Db, steps: seq<Step>)
    ensures Advances(db, RunSteps(db, steps))
    ensures OpenExact(db) ==> OpenExact(RunSteps(db, steps))
  {
    if steps != [] {
      var mid := RunSteps(db, steps[..|steps| - 1]);
      RunKeeps(db, steps[..|steps| - 1]);
      ApplyKeeps(mid, steps[|steps| - 1]);
    }
  }

  /** Over every run of the writers and clean-ups: open exactly when not ended, and never reopened. */
  lemma StatusIsSound(nowMs: nat, steps: seq<Step>, more: seq<Step>)
    ensures OpenExact(RunSteps(EmptyDb(nowMs), steps))
    ensures Advances(RunSteps(EmptyDb(nowMs), steps), RunSteps(RunSteps(EmptyDb(nowMs), steps), more))
  {
    RunKeeps(EmptyDb(nowMs), steps);
    RunKeeps(RunSteps(EmptyDb(nowMs), steps), more);
  }

  // ------------------------------------------------------- who ended a run

  datatype Ending = Ending(status: Status, at: nat)

  /** The status and end time a step writes to a run, if it hits it. */
  ghost function Hit(db: Db, step: Step, r: Run): Option<Ending> {
    match step
    case CloseRun(projectId, sessionId) =>
      if r.projectId == projectId && r.sessionId == sessionId then Some(Ending(Completed, db.Now())) else None
    case CancelWrite(call) =>
      if call < |db.cancels| && db.cancels[call].Waiting? && r.id == db.cancels[call].id
      then Some(Ending(Cancelled, db.cancels[call].at)) else None
    case MarkCompleted(id) =>
      if r.id == id && r.status != Completed then Some(Ending(Completed, db.Now())) else None
    case MarkFailed(id) => if r.id == id && r.status != Failed then Some(Ending(Failed, db.Now())) else None
    case Sweep(thresholdSec) =>
      var cutoff := db.Now() - thresholdSec;
      if r.status == InProgress && r.startedAt < cutoff && !HadEvent(db.events, r.id, cutoff)
      then Some(Ending(Cancelled, db.Now())) else None
    case AbandonOthers(projectId, exclude, windowSec) =>
      if r.projectId == projectId && r.status == InProgress && r.sessionId != exclude
         && !HadEvent(db.events, r.id, db.Now() - windowSec) then Some(Ending(Abandoned, db.Now()))
      else None
    case _ => None
  }

  function Ended(r: Run, e: Ending): Run {
    Run(r.id, r.projectId, r.sessionId, e.status, r.startedAt, Some(e.at))
  }

  /** Every step writes to the runs it hits, and to no other. */
  lemma StepHits(db: Db, step: Step, i: nat)
    requires i < |db.runs|
    ensures i < |Apply(db, step).runs|
    ensures Apply(db, step).runs[i] == match Hit(db, step, db.runs[i])
                                       case Some(e) => Ended(db.runs[i], e)
                                       case None => db.runs[i]
  {
    ActiveExactly(db.events);
  }

  /** Step `k` of a run hit row `i`, with this status, at this time. */
  ghost predicate HitAt(db: Db, steps: seq<Step>, k: nat, i: nat, status: Status, at: nat)
    requires k < |steps|
  {
    var before := RunSteps(db, steps[..k]);
    i < |before.runs| && Hit(before, steps[k], before.runs[i]) == Some(Ending(status, at))
  }

  ghost predicate MissedAt(db: Db, steps: seq<Step>, k: nat, i: nat)
    requires k < |steps|
  {
    var before := RunSteps(db, steps[..k]);
    i < |before.runs| ==> Hit(before, steps[k], before.runs[i]) == None
  }

  /** Step `k` is the last one that hit row `i`, and left the row as it is at the end. */
  ghost predicate LastHit(db: Db, steps: seq<Step>, k: nat, i: nat, r: Run) {
    && k < |steps| && r.endedAt.Some? && HitAt(db, steps, k, i, r.status, r.endedAt.value)
    && forall l :: k < l < |steps| ==> MissedAt(db, steps, l, i)
  }

  /** Moments of a run are moments of any longer one. */
  lemma SameMoment(db: Db, steps: seq<Step>, m: nat, l: nat, i: nat)
    requires l < m <= |steps|
    ensures MissedAt(db, steps, l, i) == MissedAt(db, steps[..m], l, i)
  {
    assert steps[..m][..l] == steps[..l];
  }

  lemma LastHitStays(db: Db, steps: seq<Step>, k: nat, i: nat, r: Run)
    requires steps != [] && LastHit(db, steps[..|steps| - 1], k, i, r) && MissedAt(db, steps, |steps| - 1, i)
    ensures LastHit(db, steps, k, i, r)
  {
    var m := |steps| - 1;
    assert steps[..m][..k] == steps[..k] && steps[..m][k] == steps[k];
    forall l | k < l < |steps| ensures MissedAt(db, steps, l, i) {
      if l < m { SameMoment(db, steps, m, l, i); }
    }
  }

  lemma {:induction false} RowsOnlyGrow(db: Db, steps: seq<Step>, l: nat)
    requires l <= |steps|
    ensures |RunSteps(db, steps[..l]).runs| <= |RunSteps(db, steps).runs|
  {
    if l < |steps| {
      var m := |steps| - 1;
      RowsOnlyGrow(db, steps[..m], l);
      assert steps[..m][..l] == steps[..l];
      ApplyKeeps(RunSteps(db, steps[..m]), steps[m]);
    } else {
      assert steps[..l] == steps;
    }
  }

  ghost predicate NeverHit(db: Db, steps: seq<Step>, i: nat) {
    forall l :: 0 <= l < |steps| ==> MissedAt(db, steps, l, i)
  }

  /** How a row stands at the end of a run it was inserted in: open and never hit, or as its last writer left it. */
  ghost predicate Decided(db: Db, steps: seq<Step>, i: nat, r: Run) {
    if r.status == InProgress then r.endedAt == None && NeverHit(db, steps, i)
    else exists k: nat :: LastHit(db, steps, k, i, r)
  }

  lemma {:induction false} RowIsDecided(db: Db, steps: seq<Step>, i: nat)
    requires |db.runs| <= i < |RunSteps(db, steps).runs|
    ensures Decided(db, steps, i, RunSteps(db, steps).runs[i])
  {
    var m := |steps| - 1;
    var before := RunSteps(db, steps[..m]);
    if i < |before.runs| {
      RowIsDecided(db, steps[..m], i);
      StepHits(before, steps[m], i);
      OneMoreStep(db, steps, i, before.runs[i], RunSteps(db, steps).runs[i]);
    } else {
      forall l | 0 <= l < |steps| ensures MissedAt(db, steps, l, i) {
        RowsOnlyGrow(db, steps[..m], l);
        assert steps[..m][..l] == steps[..l];
      }
    }
  }

  lemma OneMoreStep(db: Db, steps: seq<Step>, i: nat, r0: Run, r: Run)
    requires steps != []
    requires var before := RunSteps(db, steps[..|steps| - 1]);
             && i < |before.runs| && before.runs[i] == r0
             && r == match Hit(before, steps[|steps| - 1], r0)
                     case Some(e) => Ended(r0, e)
                     case None => r0
    requires Decided(db, steps[..|steps| - 1], i, r0)
    ensures Decided(db, steps, i, r)
  {
    var m := |steps| - 1;
    var before := RunSteps(db, steps[..m]);
    if Hit(before, steps[m], r0).Some? {
      assert LastHit(db, steps, m, i, r);
    } else {
      assert MissedAt(db, steps, m, i);
      if r.status == InProgress {
        forall l | 0 <= l < |steps| ensures MissedAt(db, steps, l, i) {
          if l < m { SameMoment(db, steps, m, l, i); }
        }
      } else {
        var k: nat :| LastHit(db, steps[..m], k, i, r0);
        LastHitStays(db, steps, k, i, r);
      }
    }
  }

  /** Over every run of the writers and clean-ups: a row that no step has hit since its insert is open, and any
      other has the status and the time of the last step that hit it. */
  lemma LastWriterDecides(nowMs: nat, steps: seq<Step>, i: nat)
    requires i < |RunSteps(EmptyDb(nowMs), steps).runs|
    ensures Decided(EmptyDb(nowMs), steps, i, RunSteps(EmptyDb(nowMs), steps).runs[i])
  {
    RowIsDecided(EmptyDb(nowMs), steps, i);
  }

  /** At step `k` the row was open and no event of its run was in the window before. */
  ghost predicate SilentAt(db: Db, steps: seq<Step>, k: nat, i: nat, windowSec: int)
    requires k < |steps|
  {
    var before := RunSteps(db, steps[..k]);
    && i < |before.runs| && before.runs[i].status == InProgress
    && !HadEvent(before.events, before.runs[i].id, before.Now() - windowSec)
  }

  /** Over every run: a row that ended abandoned was abandoned by a session start of another session of its
      project, when it was open and silent for the window. */
  lemma AbandonedWasSilent(nowMs: nat, steps: seq<Step>, i: nat)
    requires i < |RunSteps(EmptyDb(nowMs), steps).runs|
    requires RunSteps(EmptyDb(nowMs), steps).runs[i].status == Abandoned
    ensures var r := RunSteps(EmptyDb(nowMs), steps).runs[i];
            exists k: nat :: k < |steps| && steps[k].AbandonOthers?
              && steps[k].projectId == r.projectId && steps[k].excludeSessionId != r.sessionId
              && SilentAt(EmptyDb(nowMs), steps, k, i, steps[k].windowSec)
  {
    var db := EmptyDb(nowMs);
    RowIsDecided(db, steps, i);
    var k: nat :| LastHit(db, steps, k, i, RunSteps(db, steps).runs[i]);
    RowKeepsIdentity(db, steps, k, i);
    var before := RunSteps(db, steps[..k]);
    AbandonHit(before, steps[k], before.runs[i]);
    assert SilentAt(db, steps, k, i, steps[k].windowSec);
  }

  lemma AbandonHit(before: Db, step: Step, r: Run)
    requires Hit(before, step, r).Some? && Hit(before, step, r).value.status == Abandoned
    ensures step.AbandonOthers? && step.projectId == r.projectId && step.excludeSessionId != r.sessionId
    ensures r.status == InProgress && !HadEvent(before.events, r.id, before.Now() - step.windowSec)
  {
  }

  lemma CancelHit(before: Db, step: Step, r: Run, at: nat)
    requires Hit(before, step, r) == Some(Ending(Cancelled, at))
    ensures if step.CancelWrite? then step.call < |before.cancels| && before.cancels[step.call] == Waiting(r.id, at)
            else && step.Sweep? && r.status == InProgress && r.startedAt < before.Now() - step.thresholdSec
                 && !HadEvent(before.events, r.id, before.Now() - step.thresholdSec)
  {
  }

  /** Step `l` began the cancel call number `call`, and the row was open then. */
  ghost predicate CancelBegan(db: Db, steps: seq<Step>, l: nat, call: nat, id: string, at: nat)
    requires l < |steps|
  {
    var before := RunSteps(db, steps[..l]);
    steps[l] == CancelRead(id) && |before.cancels| == call && at == before.Now() && HasOpenRun(before.runs, id)
  }

  /** A cancel call that is under way began at some step. */
  lemma {:induction false} CancelHasBegun(nowMs: nat, steps: seq<Step>, call: nat) returns (l: nat)
    requires var c := RunSteps(EmptyDb(nowMs), steps).cancels; call < |c| && c[call].Waiting?
    ensures var c := RunSteps(EmptyDb(nowMs), steps).cancels[call];
            l < |steps| && CancelBegan(EmptyDb(nowMs), steps, l, call, c.id, c.at)
  {
    var m := |steps| - 1;
    var before := RunSteps(EmptyDb(nowMs), steps[..m]);
    if call < |before.cancels| {
      l := CancelHasBegun(nowMs, steps[..m], call);
      assert steps[..m][..l] == steps[..l];
    } else {
      l := m;
    }
  }

  ghost predicate OpenAt(db: Db, steps: seq<Step>, k: nat, i: nat)
    requires k <= |steps|
  {
    var before := RunSteps(db, steps[..k]);
    i < |before.runs| && before.runs[i].status == InProgress
  }

  /** The row was cancelled by hand: a call found it open, and wrote later. */
  ghost predicate CancelledByHand(db: Db, steps: seq<Step>, k: nat, i: nat, r: Run) {
    && k < |steps| && steps[k].CancelWrite? && r.endedAt.Some?
    && exists l: nat :: l < k && CancelBegan(db, steps, l, steps[k].call, r.id, r.endedAt.value)
                        && OpenAt(db, steps, l, i)
  }

  ghost predicate IdsDistinct(runs: seq<Run>) {
    forall i, j :: 0 <= i < |runs| && 0 <= j < |runs| && runs[i].id == runs[j].id ==> i == j
  }

  lemma ApplyKeepsIds(db: Db, step: Step)
    requires IdsDistinct(db.runs)
    ensures IdsDistinct(Apply(db, step).runs)
  {
  }

  lemma {:induction false} RunKeepsIds(nowMs: nat, steps: seq<Step>)
    ensures IdsDistinct(RunSteps(EmptyDb(nowMs), steps).runs)
  {
    if steps != [] {
      RunKeepsIds(nowMs, steps[..|steps| - 1]);
      ApplyKeepsIds(RunSteps(EmptyDb(nowMs), steps[..|steps| - 1]), steps[|steps| - 1]);
    }
  }

  /** The open run a cancel found is the row itself: ids are not used twice. */
  lemma FoundItself(nowMs: nat, steps: seq<Step>, l: nat, call: nat, i: nat, at: nat)
    requires i < |RunSteps(EmptyDb(nowMs), steps).runs| && l < |steps|
    requires CancelBegan(EmptyDb(nowMs), steps, l, call, RunSteps(EmptyDb(nowMs), steps).runs[i].id, at)
    ensures OpenAt(EmptyDb(nowMs), steps, l, i)
  {
    var db := EmptyDb(nowMs);
    var id, before := RunSteps(db, steps).runs[i].id, RunSteps(db, steps[..l]);
    var j :| 0 <= j < |before.runs| && before.runs[j].id == id && before.runs[j].status == InProgress;
    RowKeepsIdentity(db, steps, l, j);
    RunKeepsIds(nowMs, steps);
  }

  ghost predicate Swept(db: Db, steps: seq<Step>, k: nat, i: nat, r: Run) {
    && k < |steps| && steps[k].Sweep? && SilentAt(db, steps, k, i, steps[k].thresholdSec)
    && r.startedAt < RunSteps(db, steps[..k]).Now() - steps[k].thresholdSec
  }

  /** Over every run: a row that ended cancelled was last written by a cancel that had found it open when it
      began, or by a sweep when it was open, older than the threshold and silent for as long. */
  lemma CancelledWasOpen(nowMs: nat, steps: seq<Step>, i: nat)
    requires i < |RunSteps(EmptyDb(nowMs), steps).runs|
    requires RunSteps(EmptyDb(nowMs), steps).runs[i].status == Cancelled
    ensures var r := RunSteps(EmptyDb(nowMs), steps).runs[i];
            exists k: nat :: LastHit(EmptyDb(nowMs), steps, k, i, r)
              && (CancelledByHand(EmptyDb(nowMs), steps, k, i, r) || Swept(EmptyDb(nowMs), steps, k, i, r))
  {
    var db := EmptyDb(nowMs);
    RowIsDecided(db, steps, i);
    var r := RunSteps(db, steps).runs[i];
    var k: nat :| LastHit(db, steps, k, i, r);
    RowKeepsIdentity(db, steps, k, i);
    var before := RunSteps(db, steps[..k]);
    CancelHit(before, steps[k], before.runs[i], r.endedAt.value);
    if !steps[k].CancelWrite? {
      assert SilentAt(db, steps, k, i, steps[k].thresholdSec);
      assert Swept(db, steps, k, i, r);
    } else {
      var l := CancelHasBegun(nowMs, steps[..k], steps[k].call);
      assert steps[..k][..l] == steps[..l];
      assert CancelBegan(db, steps, l, steps[k].call, r.id, r.endedAt.value);
      FoundItself(nowMs, steps, l, steps[k].call, i, r.endedAt.value);
    }
  }

  // -------------------------------------------- a cancel that comes too late

  /** An open run is open later exactly when no step has hit it. */
  lemma {:induction false} OpenExactlyUnhit(db: Db, steps: seq<Step>, i: nat)
    requires i < |db.runs| && db.runs[i].status == InProgress
    ensures i < |RunSteps(db, steps).runs|
    ensures RunSteps(db, steps).runs[i].status == InProgress <==> NeverHit(db, steps, i)
  {
    RunKeeps(db, steps);
    if steps != [] {
      var m := |steps| - 1;
      var before := RunSteps(db, steps[..m]);
      OpenExactlyUnhit(db, steps[..m], i);
      StepHits(before, steps[m], i);
      RunKeeps(before, [steps[m]]);
      NeverHitSnoc(db, steps, i);
    }
  }

  lemma NeverHitSnoc(db: Db, steps: seq<Step>, i: nat)
    requires steps != []
    ensures NeverHit(db, steps, i) <==> NeverHit(db, steps[..|steps| - 1], i) && MissedAt(db, steps, |steps| - 1, i)
  {
    var m := |steps| - 1;
    forall l | 0 <= l < m ensures MissedAt(db, steps, l, i) == MissedAt(db, steps[..m], l, i) {
      SameMoment(db, steps, m, l, i);
    }
  }

  lemma {:induction false} StillWaiting(db: Db, steps: seq<Step>, call: nat)
    requires call < |db.cancels| && CancelWrite(call) !in steps
    ensures call < |RunSteps(db, steps).cancels| && RunSteps(db, steps).cancels[call] == db.cancels[call]
  {
    if steps != [] {
      assert steps[|steps| - 1] in steps;
      StillWaiting(db, steps[..|steps| - 1], call);
    }
  }

  /** Between the two statements of a cancel anything may happen. The UPDATE makes the run cancelled, as of the call's
      start, in any case; it finds it open exactly when nothing has ended it since the SELECT. */
  lemma CancelSparesClosedExactly(db: Db, id: string, between: seq<Step>, i: nat)
    requires i < |db.runs| && db.runs[i].id == id && db.runs[i].status == InProgress
    requires CancelWrite(|db.cancels|) !in between
    ensures var read := Apply(db, CancelRead(id));
            var later := RunSteps(read, between);
            var done := Apply(later, CancelWrite(|db.cancels|));
            && i < |later.runs| && i < |done.runs|
            && done.runs[i] == Ended(db.runs[i], Ending(Cancelled, db.Now()))
            && (later.runs[i].status == InProgress <==> NeverHit(read, between, i))
  {
    var read := Apply(db, CancelRead(id));
    StillWaiting(read, between, |db.cancels|);
    OpenExactlyUnhit(read, between, i);
    RunKeeps(read, between);
    StepHits(RunSteps(read, between), CancelWrite(|db.cancels|), i);
  }

  lemma OneStep(db: Db, steps: seq<Step>, step: Step, w: Db)
    requires w == RunSteps(db, steps)
    ensures RunSteps(db, steps + [step]) == Apply(w, step)
  {
    assert (steps + [step])[..|steps|] == steps;
  }

  /** A run closed between the two statements of a cancel ends cancelled. */
  lemma CancelOverwritesClose(id: string, projectId: string, sessionId: string) returns (steps: seq<Step>)
    ensures |steps| == 4 && steps[2] == CloseRun(projectId, sessionId)
    ensures RunSteps(EmptyDb(0), steps[..3]).runs == [Run(id, projectId, sessionId, Completed, 0, Some(0))]
    ensures RunSteps(EmptyDb(0), steps).runs == [Run(id, projectId, sessionId, Cancelled, 0, Some(0))]
  {
    var db := EmptyDb(0);
    var open, closed := Run(id, projectId, sessionId, InProgress, 0, None),
                        Run(id, projectId, sessionId, Completed, 0, Some(0));
    var one := [InsertRun(id, projectId, sessionId)];
    OneStep(db, [], one[0], db);
    assert [] + one == one;
    var d1 := db.(runs := [open]);
    OneStep(db, one, CancelRead(id), d1);
    assert d1.runs[0].id == id;
    var d2 := d1.(cancels := [Waiting(id, 0)]);
    assert Apply(d1, CancelRead(id)) == d2;
    OneStep(db, one + [CancelRead(id)], CloseRun(projectId, sessionId), d2);
    var three := one + [CancelRead(id)] + [CloseRun(projectId, sessionId)];
    var d3 := d2.(runs := [closed]);
    assert Apply(d2, CloseRun(projectId, sessionId)) == d3;
    OneStep(db, three, CancelWrite(0), d3);
    steps := three + [CancelWrite(0)];
    assert steps[..3] == three;
  }

  lemma RowKeepsIdentity(db: Db, steps: seq<Step>, k: nat, i: nat)
    requires k <= |steps| && i < |RunSteps(db, steps[..k]).runs|
    ensures i < |RunSteps(db, steps).runs|
    ensures var x, y := RunSteps(db, steps[..k]).runs[i], RunSteps(db, steps).runs[i];
            x.id == y.id && x.projectId == y.projectId && x.sessionId == y.sessionId && x.startedAt == y.startedAt
  {
    RunSplits(db, steps, k);
    RunKeeps(RunSteps(db, steps[..k]), steps[k..]);
  }

  lemma {:induction false} RunSplits(db: Db, steps: seq<Step>, k: nat)
    requires k <= |steps|
    ensures RunSteps(db, steps) == RunSteps(RunSteps(db, steps[..k]), steps[k..])
  {
    if k == |steps| {
      assert steps[..k] == steps && steps[k..] == [];
    } else {
      var m := |steps| - 1;
      RunSplits(db, steps[..m], k);
      assert steps[..m][..k] == steps[..k] && steps[k..][..|steps[k..]| - 1] == steps[..m][k..];
    }
  }

  /** Neither clean-up touches a run with an event in its window, or one that is closed; the sweep also
      spares every run younger than its threshold. */
  lemma CleanUpsSpareLiveRuns(db: Db, windowSec: int, projectId: string, excludeSessionId: string, i: nat)
    requires i < |db.runs|
    requires HadEvent(db.events, db.runs[i].id, db.Now() - windowSec) || db.runs[i].status != InProgress
    ensures Apply(db, Sweep(windowSec)).runs[i] == db.runs[i]
    ensures Apply(db, AbandonOthers(projectId, excludeSessionId, windowSec)).runs[i] == db.runs[i]
  {
    ActiveExactly(db.events);
    assert !Stuck(db.events, db.Now() - windowSec)(db.runs[i]);
    assert !Orphaned(db.events, projectId, excludeSessionId, db.Now() - windowSec)(db.runs[i]);
  }

  /** The run started or had an event at or after the cutoff. */
  ghost predicate FreshSince(db: Db, r: Run, cutoff: int) {
    r.startedAt >= cutoff || HadEvent(db.events, r.id, cutoff)
  }

  ghost predicate OpenAreFresh(db: Db, cutoff: int) {
    forall i :: 0 <= i < |db.runs| && db.runs[i].status == InProgress ==> FreshSince(db, db.runs[i], cutoff)
  }

  lemma SweepLeavesFresh(db: Db, thresholdSec: int)
    ensures OpenAreFresh(Apply(db, Sweep(thresholdSec)), db.Now() - thresholdSec)
  {
    ActiveExactly(db.events);
  }

  lemma FreshKept(db: Db, step: Step, cutoff: int)
    requires OpenAreFresh(db, cutoff) && cutoff <= db.Now()
    ensures OpenAreFresh(Apply(db, step), cutoff)
  {
    var db' := Apply(db, step);
    ApplyKeeps(db, step);
    forall id | HadEvent(db.events, id, cutoff) ensures HadEvent(db'.events, id, cutoff) {
      var e :| e in db.events && e.runId == Some(id) && cutoff <= e.createdAt;
      assert e in db'.events;
    }
    forall i | 0 <= i < |db'.runs| && db'.runs[i].status == InProgress ensures FreshSince(db', db'.runs[i], cutoff) {
      if i < |db.runs| { assert FreshSince(db, db.runs[i], cutoff); }
    }
  }

  lemma {:induction false} FreshKeptOverRun(db: Db, steps: seq<Step>, cutoff: int)
    requires OpenAreFresh(db, cutoff) && cutoff <= db.Now()
    ensures OpenAreFresh(RunSteps(db, steps), cutoff)
  {
    if steps != [] {
      FreshKeptOverRun(db, steps[..|steps| - 1], cutoff);
      RunKeeps(db, steps[..|steps| - 1]);
      FreshKept(RunSteps(db, steps[..|steps| - 1]), steps[|steps| - 1], cutoff);
    }
  }

  /** With the last sweep at most `intervalSec` ago, every open run started or had an event within the
      threshold plus the interval. */
  lemma OpenRunsAreRecent(db: Db, thresholdSec: nat, steps: seq<Step>, intervalSec: nat, i: nat)
    requires var later := RunSteps(Apply(db, Sweep(thresholdSec)), steps);
             && later.nowMs - db.nowMs <= intervalSec * 1000
             && i < |later.runs| && later.runs[i].status == InProgress
    ensures var later := RunSteps(Apply(db, Sweep(thresholdSec)), steps);
            FreshSince(later, later.runs[i], later.Now() - (thresholdSec + intervalSec))
  {
    var swept := Apply(db, Sweep(thresholdSec));
    var later := RunSteps(swept, steps);
    var cutoff := db.Now() - thresholdSec;
    SweepLeavesFresh(db, thresholdSec);
    FreshKeptOverRun(swept, steps, cutoff);
    assert later.Now() <= db.Now() + intervalSec;
    assert FreshSince(later, later.runs[i], cutoff);
    if HadEvent(later.events, later.runs[i].id, cutoff) {
      var e :| e in later.events && e.runId == Some(later.runs[i].id) && cutoff <= e.createdAt;
      assert e.createdAt >= later.Now() - (thresholdSec + intervalSec);
    }
  }

  // ----------------------------------------------------------------- store

  /** The open runs that started before the second `from` and had no event from then on. */
  ghost function Overdue(db: Db, from: int): seq<Run> {
    Filter(db.runs, (r: Run) => r.status == InProgress && r.startedAt < from && !HadEvent(db.events, r.id, from))
  }

  lemma OverdueExactly(db: Db, from: int)
    ensures Overdue(db, from) == Filter(db.runs, Stuck(db.events, from))
  {
    ActiveExactly(db.events);
    FilterCongruent(db.runs, Stuck(db.events, from),
                    (r: Run) => r.status == InProgress && r.startedAt < from && !HadEvent(db.events, r.id, from));
  }

  /** The open runs of the project's other sessions that had no event from the second `from` on. */
  ghost function LeftBehind(db: Db, projectId: string, sessionId: string, from: int): seq<Run> {
    Filter(db.runs, (r: Run) => r.projectId == projectId && r.sessionId != sessionId && r.status == InProgress
                                && !HadEvent(db.events, r.id, from))
  }

  lemma LeftBehindExactly(db: Db, projectId: string, sessionId: string, from: int)
    ensures LeftBehind(db, projectId, sessionId, from)
            == Filter(db.runs, Orphaned(db.events, projectId, sessionId, from))
  {
    ActiveExactly(db.events);
    FilterCongruent(db.runs, Orphaned(db.events, projectId, sessionId, from),
                    (r: Run) => r.projectId == projectId && r.sessionId != sessionId && r.status == InProgress
                                && !HadEvent(db.events, r.id, from));
  }

  class RunStore {
    var runs: seq<Run>
    var events: seq<RunEvent>
    var clock: nat
    // The cancel calls that have found their run open.
    var cancels: seq<Cancel>

    ghost function Contents(): Db
      reads this
    {
      Db(runs, events, clock, cancels)
    }

    ghost predicate Valid()
      reads this
    {
      OpenExact(Contents())
    }

    constructor (nowMs: nat)
      ensures Valid() && Contents() == EmptyDb(nowMs)
    {
      runs, events, clock, cancels := [], [], nowMs, [];
    }

    method AddRun(id: string, projectId: string, sessionId: string)
      requires Valid()
      modifies this`runs
      ensures Valid() && Contents() == Apply(old(Contents()), InsertRun(id, projectId, sessionId))
      ensures runs == if exists r :: r in old(runs)
                                     && (r.id == id || (r.projectId == projectId && r.sessionId == sessionId))
                      then old(runs)
                      else old(runs) + [Run(id, projectId, sessionId, InProgress, clock / 1000, None)]
    {
      if !HasRun(runs, id, projectId, sessionId) {
        runs := runs + [Run(id, projectId, sessionId, InProgress, clock / 1000, None)];
      }
    }

    method AddEvent(id: string, runId: Option<string>)
      requires Valid()
      modifies this`events
      ensures Valid() && Contents() == Apply(old(Contents()), InsertEvent(id, runId))
      ensures events == if exists e :: e in old(events) && e.id == id then old(events)
                        else old(events) + [RunEvent(id, runId, clock / 1000)]
    {
      if !HasEvent(events, id) { events := events + [RunEvent(id, runId, clock / 1000)]; }
    }

    method Close(projectId: string, sessionId: string)
      requires Valid()
      modifies this`runs
      ensures Valid() && Contents() == Apply(old(Contents()), CloseRun(projectId, sessionId))
    {
      runs := SetStatus(runs, OfSession(projectId, sessionId), Completed, clock / 1000);
    }

    /** cancelRun up to its await: nothing, or the call that goes on to its UPDATE. */
    method BeginCancel(id: string) returns (found: bool, call: Option<nat>)
      requires Valid()
      modifies this`cancels
      ensures Valid() && Contents() == Apply(old(Contents()), CancelRead(id))
      ensures found <==> exists i :: 0 <= i < |runs| && runs[i].id == id
      ensures if exists i :: 0 <= i < |runs| && runs[i].id == id && runs[i].status == InProgress
              then call == Some(|old(cancels)|) && cancels == old(cancels) + [Waiting(id, clock / 1000)]
              else call == None && cancels == old(cancels)
    {
      found := exists i :: 0 <= i < |runs| && runs[i].id == id;
      call := None;
      if HasOpenRun(runs, id) {
        call := Some(|cancels|);
        cancels := cancels + [Waiting(id, clock / 1000)];
      }
    }

    /** cancelRun after its await, other writers having run meanwhile. */
    method FinishCancel(call: nat)
      requires Valid() && call < |cancels| && cancels[call].Waiting?
      modifies this`runs, this`cancels
      ensures Valid() && Contents() == Apply(old(Contents()), CancelWrite(call))
    {
      var c := cancels[call];
      runs := SetStatus(runs, WithId(c.id), Cancelled, c.at);
      cancels := cancels[call := Written];
    }

    /** One call with no other writer between its statements; `found` and `cancelled` are the three results:
        not_found, already_terminal, cancelled. */
    method Cancel(id: string) returns (found: bool, cancelled: bool)
      requires Valid()
      modifies this`runs, this`cancels
      ensures Valid()
      ensures found <==> exists i :: 0 <= i < |old(runs)| && old(runs)[i].id == id
      ensures cancelled <==>
                exists i :: 0 <= i < |old(runs)| && old(runs)[i].id == id && old(runs)[i].status == InProgress
      ensures |runs| == |old(runs)|
      ensures forall i :: 0 <= i < |runs| ==>
                runs[i] == if cancelled && old(runs)[i].id == id
                           then old(runs)[i].(status := Cancelled, endedAt := Some(clock / 1000)) else old(runs)[i]
    {
      var call;
      found, call := BeginCancel(id);
      cancelled := call.Some?;
      if cancelled { FinishCancel(call.value); }
    }

    /** sweepOnce: the number of runs cancelled. */
    method SweepOnce(thresholdSec: int) returns (cancelled: nat)
      requires Valid()
      modifies this`runs
      ensures Valid() && Contents() == Apply(old(Contents()), Sweep(thresholdSec))
      ensures cancelled == |Overdue(old(Contents()), clock / 1000 - thresholdSec)|
    {
      OverdueExactly(Contents(), clock / 1000 - thresholdSec);
      var chosen := Stuck(events, clock / 1000 - thresholdSec);
      cancelled := |Filter(runs, chosen)|;
      runs := SetStatus(runs, chosen, Cancelled, clock / 1000);
    }

    /** abandonStaleInProgressRuns: the number of runs abandoned. */
    method AbandonStale(projectId: string, excludeSessionId: string, windowSec: int) returns (abandoned: nat)
      requires Valid()
      modifies this`runs
      ensures Valid() && Contents() == Apply(old(Contents()), AbandonOthers(projectId, excludeSessionId, windowSec))
      ensures abandoned == |LeftBehind(old(Contents()), projectId, excludeSessionId, clock / 1000 - windowSec)|
    {
      LeftBehindExactly(Contents(), projectId, excludeSessionId, clock / 1000 - windowSec);
      var chosen := Orphaned(events, projectId, excludeSessionId, clock / 1000 - windowSec);
      abandoned := |Filter(runs, chosen)|;
      runs := SetStatus(runs, chosen, Abandoned, clock / 1000);
    }
  }
}
