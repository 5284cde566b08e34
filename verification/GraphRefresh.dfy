/**
  The graph refresh worker (packages/lifecycle/src/graph-refresh-worker.ts) as
  a state machine. A step is the code between two awaits, so any sequence of
  steps is an interleaving of requests. `log` is history: every rebuild, with
  the times it started and ended.
*/
module GraphRefresh {
  import opened Collections

  /** Where a refresh is suspended; a rebuilding one names its entry in the log. */
  datatype Pc =
    | ReadingCommit
    | MeasuringDrift
    | Rebuilding(entry: nat)
    | Settled   // the promise has resolved, the map entry is still there
    | Released

  datatype Task = Task(project: string, pc: Pc)

  datatype RebuildState = Running | Returned(end: nat) | ThrewAt(end: nat)
  datatype Rebuild = Rebuild(project: string, start: nat, state: RebuildState)

  datatype Drift = Unknown | Unmeasurable | Files(count: nat)

  datatype Config = Config(cooldownMs: nat, minFilesChanged: nat)

  datatype Worker = Worker(
    tasks: seq<Task>, inFlight: map<string, nat>, lastRebuildAt: map<string, nat>, stopped: bool,
    awaited: set<nat>, stopResolved: bool, now: nat, log: seq<Rebuild>)

  datatype Step =
    | Tick(ms: nat)
    | Request(project: string)
    | CommitRead(id: nat, hasGraph: bool)
    | DriftMeasured(id: nat, drift: Drift)
    | RebuildReturned(id: nat)
    | RebuildThrew(id: nat)
    | RefreshThrew(id: nat)
    | Release(id: nat)
    | Stop
    | StopResolves

  function Start(now: nat): Worker { Worker([], map[], map[], false, {}, false, now, []) }

  predicate At(w: Worker, id: nat, pc: Pc) { id < |w.tasks| && w.tasks[id].pc == pc }

  function SetPc(w: Worker, id: nat, pc: Pc): Worker
    requires id < |w.tasks|
  {
    w.(tasks := w.tasks[id := w.tasks[id].(pc := pc)])
  }

  // ---------------------------------------------------------------- steps

  /** requestRefresh up to its first await; a request that finds one in flight only waits for it. */
  function Requested(w: Worker, project: string): Worker {
    if w.stopped || project in w.inFlight then w
    else w.(tasks := w.tasks + [Task(project, ReadingCommit)], inFlight := w.inFlight[project := |w.tasks|])
  }

  /** After the commit is read: no graph, or too soon after the last rebuild, ends the refresh. */
  function AfterCommit(w: Worker, c: Config, id: nat, hasGraph: bool): Worker
    requires At(w, id, ReadingCommit)
  {
    var project := w.tasks[id].project;
    if !hasGraph then SetPc(w, id, Settled)
    else if project in w.lastRebuildAt && w.now - w.lastRebuildAt[project] < c.cooldownMs then SetPc(w, id, Settled)
    else SetPc(w, id, MeasuringDrift)
  }

  /** After the drift is known: the rebuild starts when it is unmeasurable or large enough. */
  function AfterDrift(w: Worker, c: Config, id: nat, drift: Drift): Worker
    requires At(w, id, MeasuringDrift)
  {
    if drift == Unknown || (drift.Files? && drift.count < c.minFilesChanged) then SetPc(w, id, Settled)
    else SetPc(w, id, Rebuilding(|w.log|)).(log := w.log + [Rebuild(w.tasks[id].project, w.now, Running)])
  }

  predicate IsRebuilding(w: Worker, id: nat) {
    id < |w.tasks| && w.tasks[id].pc.Rebuilding? && w.tasks[id].pc.entry < |w.log|
  }

  /** After the rebuild: a returned one, failed or not, stamps the cooldown; a thrown one does not. */
  function AfterRebuild(w: Worker, id: nat, threw: bool): Worker
    requires IsRebuilding(w, id)
  {
    var project, k := w.tasks[id].project, w.tasks[id].pc.entry;
    var closed := w.log[k].(state := if threw then ThrewAt(w.now) else Returned(w.now));
    var settled := SetPc(w, id, Settled).(log := w.log[k := closed]);
    if threw then settled else settled.(lastRebuildAt := w.lastRebuildAt[project := w.now])
  }

  /** The requester's `finally`: the map entry of its project goes. */
  function ReleasedAt(w: Worker, id: nat): Worker
    requires At(w, id, Settled)
  {
    SetPc(w, id, Released).(inFlight := w.inFlight - {w.tasks[id].project})
  }

  predicate AllSettled(w: Worker) {
    forall id :: id in w.awaited && id < |w.tasks| ==> w.tasks[id].pc in {Settled, Released}
  }

  /** stop(): the refreshes in flight now are the ones it waits for. */
  function Stopping(w: Worker): Worker {
    w.(stopped := true, awaited := w.inFlight.Values)
  }

  /** Steps that are not enabled change nothing. */
  function Apply(w: Worker, c: Config, step: Step): Worker {
    match step
    case Tick(ms) => w.(now := w.now + ms)
    case Request(project) => Requested(w, project)
    case CommitRead(id, hasGraph) => if At(w, id, ReadingCommit) then AfterCommit(w, c, id, hasGraph) else w
    case DriftMeasured(id, drift) => if At(w, id, MeasuringDrift) then AfterDrift(w, c, id, drift) else w
    case RebuildReturned(id) => if IsRebuilding(w, id) then AfterRebuild(w, id, false) else w
    case RebuildThrew(id) => if IsRebuilding(w, id) then AfterRebuild(w, id, true) else w
    case RefreshThrew(id) =>
      if At(w, id, ReadingCommit) || At(w, id, MeasuringDrift) then SetPc(w, id, Settled) else w
    case Release(id) => if At(w, id, Settled) then ReleasedAt(w, id) else w
    case Stop => Stopping(w)
    case StopResolves => if w.stopped && AllSettled(w) then w.(stopResolved := true) else w
  }

  function Run(w: Worker, c: Config, steps: seq<Step>): Worker {
    if steps == [] then w else Apply(Run(w, c, steps[..|steps| - 1]), c, steps[|steps| - 1])
  }

  // ------------------------------------------------------------ invariant

  /** The map holds exactly the refreshes not yet released, one per project. */
  ghost predicate MapExact(w: Worker) {
    && (forall p :: p in w.inFlight ==>
          w.inFlight[p] < |w.tasks| && w.tasks[w.inFlight[p]].project == p && w.tasks[w.inFlight[p]].pc != Released)
    && (forall i :: 0 <= i < |w.tasks| && w.tasks[i].pc != Released ==>
          w.tasks[i].project in w.inFlight && w.inFlight[w.tasks[i].project] == i)
  }

  /** A rebuild is running exactly while its task is at it. */
  ghost predicate LogExact(w: Worker) {
    && (forall i :: 0 <= i < |w.tasks| && w.tasks[i].pc.Rebuilding? ==>
          w.tasks[i].pc.entry < |w.log| && w.log[w.tasks[i].pc.entry].project == w.tasks[i].project
          && w.log[w.tasks[i].pc.entry].state == Running)
    && (forall k :: 0 <= k < |w.log| && w.log[k].state == Running ==>
          w.log[k].project in w.inFlight && w.inFlight[w.log[k].project] < |w.tasks|
          && w.tasks[w.inFlight[w.log[k].project]].pc == Rebuilding(k))
    && (forall k :: 0 <= k < |w.log| ==>
          w.log[k].start <= w.now && (w.log[k].state != Running ==> w.log[k].start <= w.log[k].state.end <= w.now))
  }

  /** Rebuilds of one project, in order: each ended before the next began, the cooldown passed after
      every one that returned. */
  ghost predicate Spaced(c: Config, log: seq<Rebuild>) {
    forall i, j :: 0 <= i < j < |log| && log[i].project == log[j].project ==>
      && log[i].state != Running
      && log[i].state.end <= log[j].start
      && (log[i].state.Returned? ==> log[i].state.end + c.cooldownMs <= log[j].start)
  }

  ghost predicate CooldownKnown(w: Worker, c: Config) {
    && (forall p :: p in w.lastRebuildAt ==> w.lastRebuildAt[p] <= w.now)
    && (forall k :: 0 <= k < |w.log| && w.log[k].state.Returned? ==>
          w.log[k].project in w.lastRebuildAt && w.log[k].state.end <= w.lastRebuildAt[w.log[k].project])
    && (forall i, k :: 0 <= i < |w.tasks| && w.tasks[i].pc == MeasuringDrift
                       && 0 <= k < |w.log| && w.log[k].project == w.tasks[i].project && w.log[k].state.Returned? ==>
          w.log[k].state.end + c.cooldownMs <= w.now)
  }

  ghost predicate StopExact(w: Worker) {
    && (w.stopped ==> forall i :: 0 <= i < |w.tasks| && w.tasks[i].pc !in {Settled, Released} ==> i in w.awaited)
    && (w.stopResolved ==> w.stopped && forall i :: 0 <= i < |w.tasks| ==> w.tasks[i].pc in {Settled, Released})
  }

  ghost predicate Inv(w: Worker, c: Config) {
    MapExact(w) && LogExact(w) && Spaced(c, w.log) && CooldownKnown(w, c) && StopExact(w)
  }

  lemma RequestInv(w: Worker, c: Config, project: string)
    requires Inv(w, c)
    ensures Inv(Requested(w, project), c)
  {
    if !w.stopped && project !in w.inFlight {
      RequestMaps(w, c, project);
      RequestLog(w, c, project);
    }
  }

  lemma RequestMaps(w: Worker, c: Config, project: string)
    requires MapExact(w) && StopExact(w) && !w.stopped && project !in w.inFlight
    ensures MapExact(Requested(w, project)) && StopExact(Requested(w, project))
  {
  }

  lemma RequestLog(w: Worker, c: Config, project: string)
    requires MapExact(w) && LogExact(w) && CooldownKnown(w, c) && !w.stopped && project !in w.inFlight
    ensures LogExact(Requested(w, project)) && CooldownKnown(Requested(w, project), c)
  {
  }

  lemma CommitInv(w: Worker, c: Config, id: nat, hasGraph: bool)
    requires Inv(w, c) && At(w, id, ReadingCommit)
    ensures Inv(AfterCommit(w, c, id, hasGraph), c)
  {
    var project := w.tasks[id].project;
    if !hasGraph || (project in w.lastRebuildAt && w.now - w.lastRebuildAt[project] < c.cooldownMs) {
      SettleInv(w, c, id);
    } else {
      MovedMaps(w, c, id, MeasuringDrift);
      MeasureCooldown(w, c, id);
    }
  }

  /** Moving a refresh that is not rebuilding to another such point leaves the maps and the log exact. */
  lemma MovedMaps(w: Worker, c: Config, id: nat, pc: Pc)
    requires MapExact(w) && LogExact(w) && StopExact(w)
    requires At(w, id, ReadingCommit) || At(w, id, MeasuringDrift)
    requires pc == MeasuringDrift || pc == Settled
    ensures MapExact(SetPc(w, id, pc)) && LogExact(SetPc(w, id, pc)) && StopExact(SetPc(w, id, pc))
  {
  }

  lemma MeasureCooldown(w: Worker, c: Config, id: nat)
    requires CooldownKnown(w, c) && At(w, id, ReadingCommit)
    requires w.tasks[id].project in w.lastRebuildAt ==> w.now - w.lastRebuildAt[w.tasks[id].project] >= c.cooldownMs
    ensures CooldownKnown(SetPc(w, id, MeasuringDrift), c)
  {
  }

  lemma DriftInv(w: Worker, c: Config, id: nat, drift: Drift)
    requires Inv(w, c) && At(w, id, MeasuringDrift)
    ensures Inv(AfterDrift(w, c, id, drift), c)
  {
    if drift == Unknown || (drift.Files? && drift.count < c.minFilesChanged) {
      SettleInv(w, c, id);
    } else {
      StartMaps(w, c, id);
      StartLog(w, c, id);
    }
  }

  function Started(w: Worker, id: nat): Worker
    requires id < |w.tasks|
  {
    SetPc(w, id, Rebuilding(|w.log|)).(log := w.log + [Rebuild(w.tasks[id].project, w.now, Running)])
  }

  lemma StartMaps(w: Worker, c: Config, id: nat)
    requires Inv(w, c) && At(w, id, MeasuringDrift)
    ensures MapExact(Started(w, id)) && StopExact(Started(w, id)) && LogExact(Started(w, id))
  {
  }

  lemma StartLog(w: Worker, c: Config, id: nat)
    requires Inv(w, c) && At(w, id, MeasuringDrift)
    ensures Spaced(c, Started(w, id).log) && CooldownKnown(Started(w, id), c)
  {
    var p := w.tasks[id].project;
    assert forall k :: 0 <= k < |w.log| && w.log[k].project == p ==> w.log[k].state != Running;
  }

  lemma RebuildInv(w: Worker, c: Config, id: nat, threw: bool)
    requires Inv(w, c) && IsRebuilding(w, id)
    ensures Inv(AfterRebuild(w, id, threw), c)
  {
    FinishMaps(w, c, id, threw);
    FinishLog(w, c, id, threw);
    FinishSpaced(w, c, id, threw);
    FinishCooldown(w, c, id, threw);
  }

  lemma FinishMaps(w: Worker, c: Config, id: nat, threw: bool)
    requires Inv(w, c) && IsRebuilding(w, id)
    ensures MapExact(AfterRebuild(w, id, threw)) && StopExact(AfterRebuild(w, id, threw))
  {
  }

  lemma FinishLog(w: Worker, c: Config, id: nat, threw: bool)
    requires Inv(w, c) && IsRebuilding(w, id)
    ensures LogExact(AfterRebuild(w, id, threw))
  {
  }

  /** The entry being closed is the last of its project. */
  lemma FinishSpaced(w: Worker, c: Config, id: nat, threw: bool)
    requires Inv(w, c) && IsRebuilding(w, id)
    ensures Spaced(c, AfterRebuild(w, id, threw).log)
  {
    var k := w.tasks[id].pc.entry;
    assert forall j :: k < j < |w.log| ==> w.log[j].project != w.log[k].project;
  }

  lemma FinishCooldown(w: Worker, c: Config, id: nat, threw: bool)
    requires Inv(w, c) && IsRebuilding(w, id)
    ensures CooldownKnown(AfterRebuild(w, id, threw), c)
  {
    var w' := AfterRebuild(w, id, threw);
    var p := w.tasks[id].project;
    assert forall i :: 0 <= i < |w.tasks| && w.tasks[i].project == p && i != id ==> w.tasks[i].pc == Released;
    assert forall i :: 0 <= i < |w'.tasks| && w'.tasks[i].pc == MeasuringDrift ==> w'.tasks[i].project != p;
  }

  lemma SettleInv(w: Worker, c: Config, id: nat)
    requires Inv(w, c) && (At(w, id, ReadingCommit) || At(w, id, MeasuringDrift))
    ensures Inv(SetPc(w, id, Settled), c)
  {
    MovedMaps(w, c, id, Settled);
  }

  lemma ReleaseInv(w: Worker, c: Config, id: nat)
    requires Inv(w, c) && At(w, id, Settled)
    ensures Inv(ReleasedAt(w, id), c)
  {
    ReleaseMaps(w, c, id);
    ReleaseLog(w, c, id);
  }

  lemma ReleaseMaps(w: Worker, c: Config, id: nat)
    requires MapExact(w) && StopExact(w) && At(w, id, Settled)
    ensures MapExact(ReleasedAt(w, id)) && StopExact(ReleasedAt(w, id))
  {
  }

  lemma ReleaseLog(w: Worker, c: Config, id: nat)
    requires MapExact(w) && LogExact(w) && CooldownKnown(w, c) && At(w, id, Settled)
    ensures LogExact(ReleasedAt(w, id)) && CooldownKnown(ReleasedAt(w, id), c)
  {
  }

  lemma StopInv(w: Worker, c: Config)
    requires Inv(w, c)
    ensures Inv(Stopping(w), c)
  {
  }

  lemma ApplyInv(w: Worker, c: Config, step: Step)
    requires Inv(w, c)
    ensures Inv(Apply(w, c, step), c)
  {
    match step
    case Tick(_) =>
    case Request(project) => RequestInv(w, c, project);
    case CommitRead(id, hasGraph) => if At(w, id, ReadingCommit) { CommitInv(w, c, id, hasGraph); }
    case DriftMeasured(id, drift) => if At(w, id, MeasuringDrift) { DriftInv(w, c, id, drift); }
    case RebuildReturned(id) => if IsRebuilding(w, id) { RebuildInv(w, c, id, false); }
    case RebuildThrew(id) => if IsRebuilding(w, id) { RebuildInv(w, c, id, true); }
    case RefreshThrew(id) =>
      if At(w, id, ReadingCommit) || At(w, id, MeasuringDrift) { SettleInv(w, c, id); }
    case Release(id) => if At(w, id, Settled) { ReleaseInv(w, c, id); }
    case Stop => StopInv(w, c);
    case StopResolves =>
  }

  lemma {:induction false} RunInv(w: Worker, c: Config, steps: seq<Step>)
    requires Inv(w, c)
    ensures Inv(Run(w, c, steps), c)
  {
    if steps != [] {
      RunInv(w, c, steps[..|steps| - 1]);
      ApplyInv(Run(w, c, steps[..|steps| - 1]), c, steps[|steps| - 1]);
    }
  }

  // ---------------------------------------------------------------- results

  /** Over every interleaving: two rebuilds of one project never overlap, and one that follows a rebuild
      that returned, failed or not, starts at least the cooldown after its end. */
  lemma RebuildsAreSpaced(c: Config, now: nat, steps: seq<Step>, i: nat, j: nat)
    requires var log := Run(Start(now), c, steps).log;
             i < j < |log| && log[i].project == log[j].project
    ensures var log := Run(Start(now), c, steps).log;
            && log[i].state != Running && log[i].state.end <= log[j].start
            && (log[i].state.Returned? ==> log[i].state.end + c.cooldownMs <= log[j].start)
  {
    RunInv(Start(now), c, steps);
  }

  /** A request begins a refresh exactly when the worker is not stopping and every earlier refresh of the
      project has been released; the others wait for the one in flight. */
  lemma RequestBeginsExactly(w: Worker, c: Config, project: string)
    requires Inv(w, c)
    ensures var r := Requested(w, project);
            r.tasks == w.tasks + [Task(project, ReadingCommit)]
            <==> && !w.stopped
                 && forall i :: 0 <= i < |w.tasks| && w.tasks[i].project == project ==> w.tasks[i].pc == Released
    ensures var r := Requested(w, project);
            r.tasks == w.tasks || r.tasks == w.tasks + [Task(project, ReadingCommit)]
  {
    if project in w.inFlight {
      assert w.tasks[w.inFlight[project]].project == project;
      assert |w.tasks + [Task(project, ReadingCommit)]| != |w.tasks|;
    } else if w.stopped {
      assert |w.tasks + [Task(project, ReadingCommit)]| != |w.tasks|;
    }
  }

  /** A refresh that throws while the commit is read or the drift measured blocks nothing: released, it leaves the
      project to the next request, and everything else as it was. */
  lemma ThrownRefreshFreesProject(w: Worker, c: Config, id: nat)
    requires Inv(w, c) && id < |w.tasks| && w.tasks[id].pc in {ReadingCommit, MeasuringDrift}
    ensures var project := w.tasks[id].project;
            var v := Apply(Apply(w, c, RefreshThrew(id)), c, Release(id));
            && v == w.(tasks := w.tasks[id := Task(project, Released)], inFlight := w.inFlight - {project})
            && (!w.stopped ==> Requested(v, project).tasks == v.tasks + [Task(project, ReadingCommit)])
  {
  }

  /** Every stamp is the end of a rebuild that returned. */
  ghost predicate StampsExact(w: Worker) {
    forall p :: p in w.lastRebuildAt ==>
      exists k :: 0 <= k < |w.log| && w.log[k].project == p && w.log[k].state == Returned(w.lastRebuildAt[p])
  }

  lemma EndedKeepsStamps(w: Worker, c: Config, id: nat, threw: bool)
    requires Inv(w, c) && StampsExact(w) && IsRebuilding(w, id)
    ensures StampsExact(AfterRebuild(w, id, threw))
  {
    var w', e := AfterRebuild(w, id, threw), w.tasks[id].pc.entry;
    forall p | p in w'.lastRebuildAt
      ensures exists k :: 0 <= k < |w'.log| && w'.log[k].project == p
                          && w'.log[k].state == Returned(w'.lastRebuildAt[p])
    {
      if !threw && p == w.tasks[id].project {
        assert w'.log[e].state == Returned(w.now);
      } else {
        var k :| 0 <= k < |w.log| && w.log[k].project == p && w.log[k].state == Returned(w.lastRebuildAt[p]);
        assert k != e && w'.log[k] == w.log[k];
      }
    }
  }

  lemma StartedKeepsStamps(w: Worker, r: Rebuild)
    requires StampsExact(w)
    ensures StampsExact(w.(log := w.log + [r]))
  {
    forall p | p in w.lastRebuildAt
      ensures exists k :: 0 <= k < |w.log + [r]| && (w.log + [r])[k].project == p
                          && (w.log + [r])[k].state == Returned(w.lastRebuildAt[p])
    {
      var k :| 0 <= k < |w.log| && w.log[k].project == p && w.log[k].state == Returned(w.lastRebuildAt[p]);
      assert (w.log + [r])[k] == w.log[k];
    }
  }

  lemma ApplyKeepsStamps(w: Worker, c: Config, step: Step)
    requires Inv(w, c) && StampsExact(w)
    ensures StampsExact(Apply(w, c, step))
  {
    match step
    case RebuildReturned(id) => if IsRebuilding(w, id) { EndedKeepsStamps(w, c, id, false); }
    case RebuildThrew(id) => if IsRebuilding(w, id) { EndedKeepsStamps(w, c, id, true); }
    case DriftMeasured(id, drift) =>
      if At(w, id, MeasuringDrift) { StartedKeepsStamps(w, Rebuild(w.tasks[id].project, w.now, Running)); }
    case _ =>
  }

  lemma {:induction false} RunStamps(c: Config, now: nat, steps: seq<Step>)
    ensures StampsExact(Run(Start(now), c, steps))
  {
    if steps != [] {
      var before := steps[..|steps| - 1];
      RunStamps(c, now, before);
      RunInv(Start(now), c, before);
      ApplyKeepsStamps(Run(Start(now), c, before), c, steps[|steps| - 1]);
    }
  }

  /** Every rebuild of the project that returned, failed or not, ended the cooldown ago. */
  ghost predicate CooldownOver(w: Worker, c: Config, project: string) {
    forall k :: 0 <= k < |w.log| && w.log[k].project == project && w.log[k].state.Returned? ==>
      w.log[k].state.end + c.cooldownMs <= w.now
  }

  lemma CooldownReadsHistory(w: Worker, c: Config, project: string)
    requires Inv(w, c) && StampsExact(w)
    ensures project in w.lastRebuildAt && w.now - w.lastRebuildAt[project] < c.cooldownMs
            <==> !CooldownOver(w, c, project)
  {
    if project in w.lastRebuildAt {
      var k :| 0 <= k < |w.log| && w.log[k].project == project
               && w.log[k].state == Returned(w.lastRebuildAt[project]);
      if CooldownOver(w, c, project) { assert w.log[k].state.end + c.cooldownMs <= w.now; }
    }
  }

  /** Nothing of the project is between its request and its release, and stop() has not been called. */
  ghost predicate Free(w: Worker, project: string) {
    !w.stopped && forall i :: 0 <= i < |w.tasks| && w.tasks[i].project == project ==> w.tasks[i].pc == Released
  }

  predicate Due(c: Config, drift: Drift) {
    drift == Unmeasurable || (drift.Files? && drift.count >= c.minFilesChanged)
  }

  /** The step is one of the refresh `id` itself. */
  predicate Concerns(step: Step, id: nat) {
    match step
    case CommitRead(i, _) => i == id
    case DriftMeasured(i, _) => i == id
    case RebuildReturned(i) => i == id
    case RebuildThrew(i) => i == id
    case RefreshThrew(i) => i == id
    case Release(i) => i == id
    case _ => false
  }

  predicate Elsewhere(steps: seq<Step>, id: nat) {
    forall i :: 0 <= i < |steps| ==> !Concerns(steps[i], id)
  }

  lemma ElsewhereKeepsOne(w: Worker, c: Config, step: Step, id: nat)
    requires id < |w.tasks| && !Concerns(step, id)
    ensures var later := Apply(w, c, step); id < |later.tasks| && later.tasks[id] == w.tasks[id]
  {
  }

  lemma {:induction false} ElsewhereKeeps(w: Worker, c: Config, steps: seq<Step>, id: nat)
    requires id < |w.tasks| && Elsewhere(steps, id)
    ensures var later := Run(w, c, steps); id < |later.tasks| && later.tasks[id] == w.tasks[id]
  {
    if steps != [] {
      var n := |steps| - 1;
      ElsewhereKeeps(w, c, steps[..n], id);
      ElsewhereKeepsOne(Run(w, c, steps[..n]), c, steps[n], id);
    }
  }

  lemma FreeIsIdle(w: Worker, c: Config, project: string)
    requires Inv(w, c)
    ensures Free(w, project) <==> !w.stopped && project !in w.inFlight
  {
    if project in w.inFlight { assert w.tasks[w.inFlight[project]].project == project; }
  }

  /** The states of a refresh: as its commit is read, and as its drift is measured, other steps in between. */
  ghost function AtCommit(w: Worker, c: Config, project: string, a: seq<Step>): Worker {
    Run(Requested(w, project), c, a)
  }

  ghost function AtDrift(w: Worker, c: Config, project: string, a: seq<Step>, hasGraph: bool, b: seq<Step>): Worker {
    Run(Apply(AtCommit(w, c, project, a), c, CommitRead(|w.tasks|, hasGraph)), c, b)
  }

  /** In every state the worker can reach, with steps of other refreshes, stop() and waiting at every await: a request
      begins a refresh exactly when nothing of the project is in flight and stop() has not been called; and that one
      rebuilds exactly when there is a graph, every rebuild of the project that returned ended the cooldown before
      the commit was read, and the drift is due. A rebuild that threw does not count. */
  lemma RebuildStartsExactly(c: Config, now: nat, steps: seq<Step>, w: Worker, project: string, a: seq<Step>,
                             hasGraph: bool, b: seq<Step>, drift: Drift)
    requires w == Run(Start(now), c, steps)
    requires Elsewhere(a, |w.tasks|) && Elsewhere(b, |w.tasks|)
    ensures if !Free(w, project) then Requested(w, project) == w
            else var later := AtDrift(w, c, project, a, hasGraph, b);
                 Apply(later, c, DriftMeasured(|w.tasks|, drift)).log
                 == if hasGraph && CooldownOver(AtCommit(w, c, project, a), c, project) && Due(c, drift)
                    then later.log + [Rebuild(project, later.now, Running)] else later.log
  {
    ReachableIsSound(c, now, steps, w);
    FreeIsIdle(w, c, project);
    if Free(w, project) {
      var w1 := Requested(w, project);
      RunMoreStep(c, now, steps, w, Request(project));
      ElsewhereKeeps(w1, c, a, |w.tasks|);
      RunSound(w1, c, a);
      CommitThenDrift(AtCommit(w, c, project, a), c, |w.tasks|, hasGraph, b, drift);
    }
  }

  lemma RunMoreStep(c: Config, now: nat, steps: seq<Step>, w: Worker, step: Step)
    requires w == Run(Start(now), c, steps)
    ensures Inv(Apply(w, c, step), c) && StampsExact(Apply(w, c, step))
  {
    ReachableIsSound(c, now, steps, w);
    ApplyInv(w, c, step);
    ApplyKeepsStamps(w, c, step);
  }

  lemma {:induction false} RunSound(w: Worker, c: Config, steps: seq<Step>)
    requires Inv(w, c) && StampsExact(w)
    ensures Inv(Run(w, c, steps), c) && StampsExact(Run(w, c, steps))
  {
    if steps != [] {
      RunSound(w, c, steps[..|steps| - 1]);
      ApplyInv(Run(w, c, steps[..|steps| - 1]), c, steps[|steps| - 1]);
      ApplyKeepsStamps(Run(w, c, steps[..|steps| - 1]), c, steps[|steps| - 1]);
    }
  }

  lemma CommitThenDrift(w: Worker, c: Config, id: nat, hasGraph: bool, b: seq<Step>, drift: Drift)
    requires Inv(w, c) && StampsExact(w) && At(w, id, ReadingCommit) && Elsewhere(b, id)
    ensures var later := Run(Apply(w, c, CommitRead(id, hasGraph)), c, b);
            Apply(later, c, DriftMeasured(id, drift)).log
            == if hasGraph && CooldownOver(w, c, w.tasks[id].project) && Due(c, drift)
               then later.log + [Rebuild(w.tasks[id].project, later.now, Running)] else later.log
  {
    CooldownReadsHistory(w, c, w.tasks[id].project);
    ElsewhereKeeps(Apply(w, c, CommitRead(id, hasGraph)), c, b, id);
  }

  lemma ReachableIsSound(c: Config, now: nat, steps: seq<Step>, w: Worker)
    requires w == Run(Start(now), c, steps)
    ensures Inv(w, c) && StampsExact(w)
  {
    RunInv(Start(now), c, steps);
    RunStamps(c, now, steps);
  }

  /** stop() waits for exactly the refreshes not yet released. */
  lemma StopAwaitsExactly(w: Worker, c: Config, id: nat)
    requires Inv(w, c)
    ensures id in Stopping(w).awaited <==> id < |w.tasks| && w.tasks[id].pc != Released
  {
    if id in w.inFlight.Values {
      var p :| p in w.inFlight && w.inFlight[p] == id;
    }
    if id < |w.tasks| && w.tasks[id].pc != Released {
      assert w.inFlight[w.tasks[id].project] == id;
    }
  }

  /** Once stop() has resolved, nothing is running and no step starts a rebuild. */
  lemma ResolvedIsQuiet(w: Worker, c: Config, step: Step)
    requires Inv(w, c) && w.stopResolved
    ensures Apply(w, c, step).log == w.log && Apply(w, c, step).stopResolved
    ensures forall k :: 0 <= k < |w.log| ==> w.log[k].state != Running
  {
  }

  lemma {:induction false} ResolvedStaysQuiet(w: Worker, c: Config, more: seq<Step>)
    requires Inv(w, c) && w.stopResolved
    ensures var later := Run(w, c, more); later.log == w.log && later.stopResolved && Inv(later, c)
  {
    if more != [] {
      var before := more[..|more| - 1];
      ResolvedStaysQuiet(w, c, before);
      ResolvedIsQuiet(Run(w, c, before), c, more[|more| - 1]);
      ApplyInv(Run(w, c, before), c, more[|more| - 1]);
    }
  }

  /** After stop() has resolved no rebuild is running and none ever starts. */
  lemma StoppedStaysQuiet(c: Config, now: nat, steps: seq<Step>, more: seq<Step>)
    requires Run(Start(now), c, steps).stopResolved
    ensures var w, later := Run(Start(now), c, steps), Run(Run(Start(now), c, steps), c, more);
            && later.log == w.log
            && forall k :: 0 <= k < |later.log| ==> later.log[k].state != Running
  {
    RunInv(Start(now), c, steps);
    ResolvedStaysQuiet(Run(Start(now), c, steps), c, more);
    ResolvedIsQuiet(Run(Start(now), c, steps), c, Stop);
  }

  /** A rebuild that throws stamps no cooldown: the next one may start at once. */
  lemma ThrownRebuildSkipsCooldown(c: Config, project: string)
    requires c.cooldownMs > 0
    ensures exists steps: seq<Step> ::
              var log := Run(Start(0), c, steps).log;
              |log| == 2 && log[0].project == log[1].project == project
              && log[0].state == ThrewAt(0) && log[1].start == 0
  {
    var first := OneRefresh(project, 0);
    var second := [Request(project), CommitRead(1, true), DriftMeasured(1, Unmeasurable)];
    var thrown := first + [RebuildThrew(0)];
    var w := ThrownOnce(c, project);
    var w6 := RunMore(Start(0), c, thrown + [Release(0)], w, second[0]);
    var s6 := thrown + [Release(0)] + [second[0]];
    var w7 := RunMore(Start(0), c, s6, w6, second[1]);
    var w8 := RunMore(Start(0), c, s6 + [second[1]], w7, second[2]);
  }

  function OneRefresh(project: string, id: nat): seq<Step> {
    [Request(project)] + [CommitRead(id, true)] + [DriftMeasured(id, Unmeasurable)]
  }

  lemma RebuildBegun(c: Config, project: string) returns (w: Worker)
    ensures w == Run(Start(0), c, OneRefresh(project, 0))
    ensures w == Worker([Task(project, Rebuilding(0))], map[project := 0], map[], false, {}, false, 0,
                        [Rebuild(project, 0, Running)])
  {
    assert Run(Start(0), c, []) == Start(0) && [] + [Request(project)] == [Request(project)];
    var w1 := RunMore(Start(0), c, [], Start(0), Request(project));
    var w2 := RunMore(Start(0), c, [Request(project)], w1, CommitRead(0, true));
    w := RunMore(Start(0), c, [Request(project)] + [CommitRead(0, true)], w2, DriftMeasured(0, Unmeasurable));
    assert w.log == [Rebuild(project, 0, Running)] && w.tasks == [Task(project, Rebuilding(0))];
  }

  lemma ThrownOnce(c: Config, project: string) returns (w: Worker)
    ensures w == Run(Start(0), c, OneRefresh(project, 0) + [RebuildThrew(0)] + [Release(0)])
    ensures w == Worker([Task(project, Released)], map[], map[], false, {}, false, 0,
                        [Rebuild(project, 0, ThrewAt(0))])
  {
    var w3 := RebuildBegun(c, project);
    var w4 := RunMore(Start(0), c, OneRefresh(project, 0), w3, RebuildThrew(0));
    assert w4.log == [Rebuild(project, 0, ThrewAt(0))] && w4.tasks == [Task(project, Settled)];
    w := RunMore(Start(0), c, OneRefresh(project, 0) + [RebuildThrew(0)], w4, Release(0));
    assert w.tasks == [Task(project, Released)];
    assert w.inFlight == map[];
  }

  lemma RunMore(w: Worker, c: Config, steps: seq<Step>, mid: Worker, step: Step) returns (next: Worker)
    requires Run(w, c, steps) == mid
    ensures next == Run(w, c, steps + [step]) == Apply(mid, c, step)
  {
    next := Apply(mid, c, step);
    assert (steps + [step])[..|steps|] == steps;
  }

  // -------------------------------------------------------------- the worker

  /** The worker's state between awaits; each method is one segment of requestRefresh, refreshOnce or stop. */
  class GraphRefreshWorker {
    const config: Config
    var tasks: seq<Task>
    var inFlight: map<string, nat>
    var lastRebuildAt: map<string, nat>
    var stopped: bool
    var awaited: set<nat>
    var now: nat
    var stopResolved: bool
    var log: seq<Rebuild>

    ghost function State(): Worker
      reads this
    {
      Worker(tasks, inFlight, lastRebuildAt, stopped, awaited, stopResolved, now, log)
    }

    ghost predicate Valid()
      reads this
    {
      Inv(State(), config)
    }

    constructor (config: Config, now: nat)
      ensures Valid() && State() == Start(now) && this.config == config
    {
      this.config := config;
      tasks, inFlight, lastRebuildAt, stopped, awaited := [], map[], map[], false, {};
      this.now, stopResolved, log := now, false, [];
    }

    /** `started` is the refresh begun, or None for a request answered `in_flight`. */
    method RequestRefresh(project: string) returns (started: Option<nat>)
      requires Valid()
      modifies this
      ensures Valid() && State() == Apply(old(State()), config, Request(project))
      ensures started.Some? <==> !old(stopped) && project !in old(inFlight)
    {
      ghost var next := Apply(State(), config, Request(project));
      ApplyInv(State(), config, Request(project));
      if stopped || project in inFlight { return None; }
      started := Some(|tasks|);
      inFlight := inFlight[project := |tasks|];
      tasks := tasks + [Task(project, ReadingCommit)];
      assert State() == next;
    }

    method OnCommitRead(id: nat, hasGraph: bool)
      requires Valid() && At(State(), id, ReadingCommit)
      modifies this`tasks
      ensures Valid() && State() == Apply(old(State()), config, CommitRead(id, hasGraph))
    {
      ghost var next := Apply(State(), config, CommitRead(id, hasGraph));
      ApplyInv(State(), config, CommitRead(id, hasGraph));
      var task := tasks[id];
      var wait := task.project in lastRebuildAt && now - lastRebuildAt[task.project] < config.cooldownMs;
      tasks := tasks[id := task.(pc := if !hasGraph || wait then Settled else MeasuringDrift)];
      assert State() == next;
    }

    method OnDriftMeasured(id: nat, drift: Drift)
      requires Valid() && At(State(), id, MeasuringDrift)
      modifies this`tasks, this`log
      ensures Valid() && State() == Apply(old(State()), config, DriftMeasured(id, drift))
    {
      ghost var next := Apply(State(), config, DriftMeasured(id, drift));
      ApplyInv(State(), config, DriftMeasured(id, drift));
      var task := tasks[id];
      if drift == Unknown || (drift.Files? && drift.count < config.minFilesChanged) {
        tasks := tasks[id := task.(pc := Settled)];
      } else {
        tasks := tasks[id := task.(pc := Rebuilding(|log|))];
        log := log + [Rebuild(task.project, now, Running)];
      }
      assert State() == next;
    }

    /** `lastRebuildAt.set` runs when the rebuild returned, whatever it returned, and not when it threw. */
    method OnRebuildEnded(id: nat, threw: bool)
      requires Valid() && IsRebuilding(State(), id)
      modifies this
      ensures Valid()
      ensures State() == Apply(old(State()), config, if threw then RebuildThrew(id) else RebuildReturned(id))
    {
      ghost var step := if threw then RebuildThrew(id) else RebuildReturned(id);
      ghost var next := Apply(State(), config, step);
      ApplyInv(State(), config, step);
      var task := tasks[id];
      var entry := task.pc.entry;
      log := log[entry := log[entry].(state := if threw then ThrewAt(now) else Returned(now))];
      if !threw { lastRebuildAt := lastRebuildAt[task.project := now]; }
      tasks := tasks[id := task.(pc := Settled)];
      assert State() == next;
    }

    /** The `finally` of requestRefresh. */
    method ReleaseEntry(id: nat)
      requires Valid() && At(State(), id, Settled)
      modifies this`tasks, this`inFlight
      ensures Valid() && State() == Apply(old(State()), config, Release(id))
    {
      ghost var next := Apply(State(), config, Release(id));
      ApplyInv(State(), config, Release(id));
      inFlight := inFlight - {tasks[id].project};
      tasks := tasks[id := tasks[id].(pc := Released)];
      assert State() == next;
    }

    method BeginStop()
      requires Valid()
      modifies this`stopped, this`awaited
      ensures Valid() && State() == Apply(old(State()), config, Stop)
    {
      StopInv(State(), config);
      stopped := true;
      awaited := inFlight.Values;
    }
  }
}
