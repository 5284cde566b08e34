/**
  The cached evaluator consulted before the policy chain
  (packages/lifecycle/src/kill-switch-evaluator.ts). Its clock is in
  milliseconds; what it asks the table is in whole seconds.
*/
module KillSwitchEvaluation {
  import opened Collections
  import opened KillSwitches

  const NULL_PROJECT_CACHE_KEY := "__null_project__"

  datatype Decision = Deny | Allow
  datatype SwitchMatch = SwitchMatch(matched: KillSwitch, decision: Decision, reason: string)

  datatype Entry = Entry(switches: seq<KillSwitch>, expiresAt: int)

  /** One successful read of the table: when, for which project, and what the table held. */
  datatype Fetch = Fetch(time: nat, projectId: Option<string>, table: seq<KillSwitch>) {
    function Second(): nat { time / 1000 }
  }

  function CacheKey(projectId: Option<string>): string {
    if projectId.None? then NULL_PROJECT_CACHE_KEY else projectId.value
  }

  /** A hard switch denies, a soft one only leaves a trace. */
  function Decide(found: Option<KillSwitch>): Option<SwitchMatch> {
    if found.None? then None
    else Some(SwitchMatch(found.value, if found.value.mode == Hard then Deny else Allow,
                          "kill_switch_paused:" + found.value.id))
  }

  /** The decision of a scan of the whole table as it was at the fetch. */
  function ScanDecision(f: Fetch, e: Event): Option<SwitchMatch> {
    Decide(FindMatch(ListAllActive(f.table, f.Second()), e))
  }

  /** The entry is what the fetch gave for its key. */
  predicate Caches(key: string, entry: Entry, f: Fetch, cacheMs: nat) {
    CacheKey(f.projectId) == key && entry == Entry(ListActive(f.table, f.projectId, f.Second()), f.time + cacheMs)
  }

  /** A fetch recent enough to answer at `now`: made now, or within the cache time before. */
  predicate Recent(f: Fetch, cacheMs: nat, now: nat) {
    f.time == now || now - cacheMs < f.time <= now
  }

  datatype Lookup = Answered(answer: Option<SwitchMatch>) | Fetching

  class KillSwitchEvaluator {
    const cacheMs: nat
    var cache: map<string, Entry>
    ghost var fetches: seq<Fetch>
    ghost var lastCheck: nat

    /** Every cache entry is the list some past fetch gave for its key. */
    ghost predicate Valid()
      reads this
    {
      && (forall i :: 0 <= i < |fetches| ==> fetches[i].time <= lastCheck)
      && forall key :: key in cache ==> exists i :: 0 <= i < |fetches| && Caches(key, cache[key], fetches[i], cacheMs)
    }

    constructor (cacheMs: nat)
      ensures Valid() && cache == map[] && fetches == [] && lastCheck == 0 && this.cacheMs == cacheMs
    {
      this.cacheMs := cacheMs;
      cache, fetches, lastCheck := map[], [], 0;
    }

    /** check() up to its await: a live cache entry answers, anything else starts a fetch. */
    method BeginCheck(e: Event, now: nat) returns (r: Lookup)
      requires Valid() && now >= lastCheck
      modifies this`lastCheck
      ensures Valid() && lastCheck == now
      ensures r.Fetching? <==> !(CacheKey(e.projectId) in cache && cache[CacheKey(e.projectId)].expiresAt > now)
      ensures r.Answered? && e.projectId != Some("__null_project__") ==>
                exists i :: 0 <= i < |fetches| && Recent(fetches[i], cacheMs, now)
                            && r.answer == ScanDecision(fetches[i], e)
    {
      var key := CacheKey(e.projectId);
      lastCheck := now;
      if key !in cache || cache[key].expiresAt <= now { return Fetching; }
      r := Answered(Decide(FindMatch(cache[key].switches, e)));
      ghost var used :| 0 <= used < |fetches| && Caches(key, cache[key], fetches[used], cacheMs);
      CachedAnswer(fetches[used], e, key);
      assert Recent(fetches[used], cacheMs, now);
    }

    /** check() after its await, other calls having run meanwhile: `started` is the time the call began, `db` the
        table if the query succeeded, None if it threw. */
    method FetchReturned(e: Event, started: nat, db: Option<seq<KillSwitch>>) returns (r: Option<SwitchMatch>)
      requires Valid() && started <= lastCheck
      modifies this`cache, this`fetches
      ensures Valid()
      // A failed fetch answers null and caches nothing.
      ensures db.None? ==> r == None && cache == old(cache) && fetches == old(fetches)
      // A fetch answers for itself, whatever the project.
      ensures db.Some? ==>
                var f := Fetch(started, e.projectId, db.value);
                var entry := Entry(ListActive(db.value, e.projectId, started / 1000), started + cacheMs);
                && fetches == old(fetches) + [f] && r == ScanDecision(f, e)
                && cache == old(cache)[CacheKey(e.projectId) := entry]
    {
      if db.None? { return None; }
      var key := CacheKey(e.projectId);
      ghost var before, earlier := cache, fetches;
      var switches := ListActive(db.value, e.projectId, started / 1000);
      cache := cache[key := Entry(switches, started + cacheMs)];
      fetches := fetches + [Fetch(started, e.projectId, db.value)];
      assert Caches(key, cache[key], fetches[|earlier|], cacheMs);
      forall k | k in cache && k != key
        ensures exists i :: 0 <= i < |fetches| && Caches(k, cache[k], fetches[i], cacheMs)
      {
        ghost var i :| 0 <= i < |earlier| && Caches(k, before[k], earlier[i], cacheMs);
        assert Caches(k, cache[k], fetches[i], cacheMs);
      }
      PushdownRefinesScan(db.value, e, started / 1000);
      r := Decide(FindMatch(switches, e));
    }

    /** One call with no other between its two halves. */
    method Check(e: Event, now: nat, db: Option<seq<KillSwitch>>) returns (r: Option<SwitchMatch>)
      requires Valid() && now >= lastCheck
      modifies this
      ensures Valid() && lastCheck == now
      // The answer is the whole-table scan at a recent fetch, for every project but the sentinel.
      ensures var key := CacheKey(e.projectId);
              (db.Some? || (key in old(cache) && old(cache)[key].expiresAt > now))
              && e.projectId != Some("__null_project__") ==>
                exists i :: 0 <= i < |fetches| && Recent(fetches[i], cacheMs, now) && r == ScanDecision(fetches[i], e)
      // A fetch happens only when no entry is fresh, and is of the table as it is now.
      ensures fetches == old(fetches)
              || (fetches == old(fetches) + [Fetch(now, e.projectId, db.GetOr([]))] && db.Some?)
      ensures var key := CacheKey(e.projectId);
              key in old(cache) && old(cache)[key].expiresAt > now ==> fetches == old(fetches) && cache == old(cache)
      // A failed fetch answers null and caches nothing.
      ensures var key := CacheKey(e.projectId);
              db.None? && !(key in old(cache) && old(cache)[key].expiresAt > now) ==>
                r == None && cache == old(cache) && fetches == old(fetches)
    {
      var lookup := BeginCheck(e, now);
      if lookup.Answered? { return lookup.answer; }
      r := FetchReturned(e, now, db);
      if db.Some? { assert Recent(fetches[|fetches| - 1], cacheMs, now); }
    }

    method Invalidate(projectId: Option<Option<string>>)
      requires Valid()
      modifies this`cache
      ensures Valid()
      ensures cache == if projectId.None? then map[] else old(cache) - {CacheKey(projectId.value)}
    {
      cache := if projectId.None? then map[] else cache - {CacheKey(projectId.value)};
    }
  }

  /** The decision of a scan: the leading match decides, denying exactly when it is hard; without an active match
      there is none. */
  lemma DecisionExactly(f: Fetch, e: Event)
    ensures var r := ScanDecision(f, e);
            && (r == None <==> forall i :: 0 <= i < |f.table| ==> !ActiveMatch(f.table[i], e, f.Second()))
            && (r.Some? && r.value.decision == Deny
                <==> exists i: nat :: Leads(f.table, e, f.Second(), i) && f.table[i].mode == Hard)
            && (r.Some? ==> exists i: nat :: Leads(f.table, e, f.Second(), i) && f.table[i] == r.value.matched)
            && (r.Some? ==> r.value.reason == "kill_switch_paused:" + r.value.matched.id)
  {
    ScanLeads(f.table, e, f.Second());
    var r := ScanDecision(f, e);
    if i: nat :| Leads(f.table, e, f.Second(), i) && f.table[i].mode == Hard {
      ScanFindsLeader(f.table, e, f.Second(), i);
    }
  }

  predicate AnswersAsTable(f: Fetch, e: Event) {
    FindMatch(ListActive(f.table, f.projectId, f.Second()), e) == FindMatch(ListAllActive(f.table, f.Second()), e)
  }

  /** A list cached under an event's key answers the event as the whole table would. */
  lemma CachedAnswer(f: Fetch, e: Event, key: string)
    requires CacheKey(f.projectId) == CacheKey(e.projectId) == key
    ensures e.projectId != Some("__null_project__") ==> AnswersAsTable(f, e)
  {
    if e.projectId == None {
      NoProjectIgnoresContext(f.table, f.projectId, e, f.Second());
    } else if e.projectId != Some("__null_project__") {
      PushdownRefinesScan(f.table, e, f.Second());
    }
  }

  /** A cached list answers as the table would for every table, exactly when the event's project is not
      the one whose id is the sentinel of events without a project. */
  lemma SharedKeyHarmlessExactly(e: Event)
    ensures (forall f: Fetch :: CacheKey(f.projectId) == CacheKey(e.projectId) ==>
               AnswersAsTable(f, e))
            <==> e.projectId != Some("__null_project__")
  {
    if e.projectId != Some("__null_project__") {
      forall f: Fetch | CacheKey(f.projectId) == CacheKey(e.projectId)
        ensures AnswersAsTable(f, e)
      {
        CachedAnswer(f, e, CacheKey(e.projectId));
      }
    } else {
      var s := KillSwitch("ks", Project, e.projectId, Hard, "pause", 0, None, None);
      var f := Fetch(0, None, [s]);
      assert !InContext(None)(s);
      assert Filter([s], ActiveInContext(None, 0)) == [] by {
        FilterKeepsNone([s], ActiveInContext(None, 0));
      }
      assert ListActive([s], None, 0) == [];
      ScanFindsOldest([s], e, 0);
      assert s in [s] && IsActive(s, 0) && Matches(s, e);
      assert CacheKey(f.projectId) == CacheKey(e.projectId);
    }
  }
}
