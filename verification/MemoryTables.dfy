/**
  The raw access events and the two aggregate tables of the memory rollup
  (packages/lifecycle/src/memory-rollup-worker.ts), with the GROUP BY both are
  computed by. Times are unix seconds and a day is a day number; row ids and
  the aggregates' own timestamps are not part of a row.
*/
module MemoryTables {
  import opened Collections
  import opened Text

  const SECONDS_PER_DAY := 86400

  datatype Event = Event(
    id: string, orgId: Option<string>, projectId: Option<string>, runId: Option<string>,
    actorUserId: Option<string>, channel: string, site: string, memoryType: string,
    memoryId: Option<string>, bytes: Option<int>, latencyMs: Option<int>,
    freshness: Option<string>, generation: int, createdAt: nat)

  function Day(e: Event): nat { e.createdAt / SECONDS_PER_DAY }

  // ------------------------------------------------------------- GROUP BY

  function KeysOf<K>(events: seq<Event>, key: Event -> K): seq<K> {
    seq(|events|, i requires 0 <= i < |events| => key(events[i]))
  }

  function WithKey<K(==)>(key: Event -> K, k: K): Event -> bool {
    (e: Event) => key(e) == k
  }

  function RowsFor<K(==), R>(keys: seq<K>, events: seq<Event>, key: Event -> K, make: (K, seq<Event>) -> R): seq<R> {
    seq(|keys|, i requires 0 <= i < |keys| => make(keys[i], Filter(events, WithKey(key, keys[i]))))
  }

  /** One row per distinct key, from the events with that key. */
  function GroupBy<K(==), R>(events: seq<Event>, key: Event -> K, make: (K, seq<Event>) -> R): seq<R> {
    RowsFor(FirstSeen(KeysOf(events, key)), events, key, make)
  }

  lemma KeysOfSnoc<K>(events: seq<Event>, e: Event, key: Event -> K)
    ensures KeysOf(events + [e], key) == KeysOf(events, key) + [key(e)]
  {
  }

  /** The rows of a GROUP BY: one for each key that occurs, none twice. */
  lemma GroupByRows<K(!new), R>(events: seq<Event>, key: Event -> K, make: (K, seq<Event>) -> R)
    ensures var keys := FirstSeen(KeysOf(events, key));
            && Distinct(keys)
            && (forall k :: k in keys <==> exists e :: e in events && key(e) == k)
            && |GroupBy(events, key, make)| == |keys|
            && forall i :: 0 <= i < |keys| ==>
                 GroupBy(events, key, make)[i] == make(keys[i], Filter(events, WithKey(key, keys[i])))
  {
    var all := KeysOf(events, key);
    FirstSeenDistinct(all);
    forall k ensures k in all <==> exists e :: e in events && key(e) == k {
      if k in all {
        var i :| 0 <= i < |all| && all[i] == k;
        assert events[i] in events;
      }
      if e :| e in events && key(e) == k {
        var i :| 0 <= i < |events| && events[i] == e;
        assert all[i] == k;
      }
    }
  }

  /** Restricting the events to some keys restricts the distinct keys, in the same order. */
  lemma KeysRestrict<K>(events: seq<Event>, key: Event -> K, p: Event -> bool, q: K -> bool)
    requires forall e :: e in events ==> p(e) == q(key(e))
    ensures FirstSeen(KeysOf(Filter(events, p), key)) == Filter(FirstSeen(KeysOf(events, key)), q)
  {
    KeysOfFilter(events, key, p, q);
    FirstSeenFilter(KeysOf(events, key), q);
  }

  lemma {:induction false} KeysOfFilter<K>(events: seq<Event>, key: Event -> K, p: Event -> bool, q: K -> bool)
    requires forall e :: e in events ==> p(e) == q(key(e))
    ensures KeysOf(Filter(events, p), key) == Filter(KeysOf(events, key), q)
  {
    if events != [] {
      var n := |events| - 1;
      var e := events[n];
      assert e in events && events == events[..n] + [e];
      KeysOfFilter(events[..n], key, p, q);
      KeysOfSnoc(events[..n], e, key);
      KeysOfSnoc(Filter(events[..n], p), e, key);
      FilterSnoc(KeysOf(events[..n], key), key(e), q);
    }
  }

  lemma {:induction false} RowsRestrict<K, R>(keys: seq<K>, events: seq<Event>, key: Event -> K,
                                              make: (K, seq<Event>) -> R, q: K -> bool, r: R -> bool)
    requires forall k, es :: r(make(k, es)) == q(k)
    ensures Filter(RowsFor(keys, events, key, make), r) == RowsFor(Filter(keys, q), events, key, make)
  {
    if keys != [] {
      var n := |keys| - 1;
      RowsRestrict(keys[..n], events, key, make, q, r);
      var row := make(keys[n], Filter(events, WithKey(key, keys[n])));
      assert RowsFor(keys, events, key, make) == RowsFor(keys[..n], events, key, make) + [row];
      FilterSnoc(RowsFor(keys[..n], events, key, make), row, r);
      assert RowsFor(Filter(keys[..n], q) + [keys[n]], events, key, make)
          == RowsFor(Filter(keys[..n], q), events, key, make) + [row];
    }
  }

  /** Grouping some of the keys' events is selecting those keys' rows. */
  lemma GroupByRestrict<K(!new), R>(events: seq<Event>, key: Event -> K, make: (K, seq<Event>) -> R,
                                    p: Event -> bool, q: K -> bool, r: R -> bool)
    requires forall k, es :: r(make(k, es)) == q(k)
    requires forall e :: e in events ==> p(e) == q(key(e))
    ensures GroupBy(Filter(events, p), key, make) == Filter(GroupBy(events, key, make), r)
  {
    var keys := FirstSeen(KeysOf(events, key));
    KeysRestrict(events, key, p, q);
    RowsRestrict(keys, events, key, make, q, r);
    var few := Filter(keys, q);
    FilterMembers(keys, q);
    forall i | 0 <= i < |few|
      ensures Filter(Filter(events, p), WithKey(key, few[i])) == Filter(events, WithKey(key, few[i]))
    {
      assert few[i] in few;
      FilterStronger(events, p, WithKey(key, few[i]));
    }
    assert RowsFor(few, Filter(events, p), key, make) == RowsFor(few, events, key, make);
  }

  // ------------------------------------------------------------ aggregates

  function SumOf(events: seq<Event>, f: Event -> int): int {
    if events == [] then 0 else SumOf(events[..|events| - 1], f) + f(events[|events| - 1])
  }

  function MaxInt(a: Option<int>, b: Option<int>): Option<int> {
    if a.None? then b else if b.None? || a.value >= b.value then a else b
  }

  function MaxOf(events: seq<Event>, f: Event -> Option<int>): Option<int> {
    if events == [] then None else MaxInt(MaxOf(events[..|events| - 1], f), f(events[|events| - 1]))
  }

  function MaxText(a: Option<string>, b: Option<string>): Option<string> {
    if a.None? then b else if b.None? || StringLe(b.value, a.value) then a else b
  }

  function MaxTextOf(events: seq<Event>, f: Event -> Option<string>): Option<string> {
    if events == [] then None else MaxText(MaxTextOf(events[..|events| - 1], f), f(events[|events| - 1]))
  }

  function Stale(): Event -> bool {
    (e: Event) => e.freshness.Some? && e.freshness.value != "fresh"
  }

  function OnChannel(channel: string): Event -> bool {
    (e: Event) => e.channel == channel
  }

  /** The earliest event, the first in table order among equals (ORDER BY created_at LIMIT 1). */
  function Earliest(events: seq<Event>): Option<Event> {
    if events == [] then None
    else
      var first, e := Earliest(events[..|events| - 1]), events[|events| - 1];
      if first.None? || e.createdAt < first.value.createdAt then Some(e) else first
  }

  /** MAX: a value of some event, at least every other; NULL when every event has NULL. */
  lemma {:induction false} MaxIsGreatest(events: seq<Event>, f: Event -> Option<int>)
    ensures var m := MaxOf(events, f);
            && (m.Some? ==> exists e :: e in events && f(e) == m)
            && forall e :: e in events && f(e).Some? ==> m.Some? && f(e).value <= m.value
  {
    if events != [] {
      var n := |events| - 1;
      MaxIsGreatest(events[..n], f);
      SnocLast(events);
      assert events[n] in events;
    }
  }

  lemma {:induction false} MaxTextIsGreatest(events: seq<Event>, f: Event -> Option<string>)
    ensures var m := MaxTextOf(events, f);
            && (m.Some? ==> exists e :: e in events && f(e) == m)
            && forall e :: e in events && f(e).Some? ==> m.Some? && StringLe(f(e).value, m.value)
  {
    if events != [] {
      var n := |events| - 1;
      MaxTextIsGreatest(events[..n], f);
      SnocLast(events);
      StringOrder();
      assert events[n] in events;
    }
  }

  function OrgsOf(events: seq<Event>): set<Option<string>> { set e | e in events :: e.orgId }

  function ProjectsOf(events: seq<Event>): set<Option<string>> { set e | e in events :: e.projectId }

  /** MAX over a text column: one of the values and none is greater; NULL when all are. */
  ghost predicate Greatest(values: set<Option<string>>, m: Option<string>) {
    && (m.Some? ==> m in values)
    && forall v :: v in values && v.Some? ==> m.Some? && StringLe(v.value, m.value)
  }

  lemma {:induction false} SumCongruent(events: seq<Event>, f: Event -> int, g: Event -> int)
    requires forall e :: f(e) == g(e)
    ensures SumOf(events, f) == SumOf(events, g)
  {
    if events != [] { SumCongruent(events[..|events| - 1], f, g); }
  }

  /** ORDER BY created_at LIMIT 1: no event is earlier, and none before it in the table is as early. */
  lemma {:induction false} EarliestIsFirst(events: seq<Event>) returns (i: nat)
    requires events != []
    ensures i < |events| && Earliest(events) == Some(events[i])
    ensures forall j :: 0 <= j < |events| ==> events[i].createdAt <= events[j].createdAt
    ensures forall j :: 0 <= j < i ==> events[i].createdAt < events[j].createdAt
  {
    var n := |events| - 1;
    if n == 0 {
      i := 0;
    } else {
      i := EarliestIsFirst(events[..n]);
      assert forall j :: 0 <= j < n ==> events[..n][j] == events[j];
      if events[n].createdAt < events[i].createdAt { i := n; }
    }
  }

  // ---------------------------------------------------- memory_access_daily

  datatype DailyGrain = DailyGrain(projectId: Option<string>, day: nat, channel: string, site: string,
                                   memoryType: string, actorUserId: string)

  datatype DailyRow = DailyRow(grain: DailyGrain, orgId: Option<string>, accessCount: nat, distinctItems: nat,
                               distinctRuns: nat, totalBytes: int, totalLatencyMs: int, maxLatencyMs: int,
                               staleAtAccessCount: nat)

  /** NULL actors fold to the `local` sentinel. */
  function DailyKey(e: Event): DailyGrain {
    DailyGrain(e.projectId, Day(e), e.channel, e.site, e.memoryType, e.actorUserId.GetOr("local"))
  }

  function BytesOf(e: Event): int { e.bytes.GetOr(0) }

  function LatencyOf(e: Event): int { e.latencyMs.GetOr(0) }

  function MakeDaily(g: DailyGrain, es: seq<Event>): DailyRow {
    DailyRow(
        g, MaxTextOf(es, (e: Event) => e.orgId), |es|,
        |set e | e in es && e.memoryId.Some? :: e.memoryId.value|,
        |set e | e in es && e.runId.Some? :: e.runId.value|,
        SumOf(es, BytesOf),
        SumOf(es, LatencyOf),
        MaxOf(es, (e: Event) => e.latencyMs).GetOr(0),
        |Filter(es, Stale())|)
  }

  function DailyRollup(events: seq<Event>): seq<DailyRow> {
    GroupBy(events, DailyKey, MakeDaily)
  }

  function EventOn(day: nat): Event -> bool { (e: Event) => Day(e) == day }

  function RowOn(day: nat): DailyRow -> bool { (r: DailyRow) => r.grain.day == day }

  function DayEvents(events: seq<Event>, day: nat): seq<Event> { Filter(events, EventOn(day)) }

  function DayRows(daily: seq<DailyRow>, day: nat): seq<DailyRow> { Filter(daily, RowOn(day)) }

  /** The rows of one day depend on that day's events only. */
  lemma RollupOfDay(events: seq<Event>, day: nat)
    ensures DayRows(DailyRollup(events), day) == DailyRollup(DayEvents(events, day))
  {
    GroupByRestrict(events, DailyKey, MakeDaily, EventOn(day), (g: DailyGrain) => g.day == day, RowOn(day));
  }

  /** Every event is in a row with its grain; every row has an event. */
  lemma EventHasRow(events: seq<Event>, e: Event)
    requires e in events
    ensures exists r :: r in DailyRollup(events) && r.grain == DailyKey(e) && FallsUnder(r.grain, e)
  {
    GroupByRows(events, DailyKey, MakeDaily);
    var keys, rows := FirstSeen(KeysOf(events, DailyKey)), DailyRollup(events);
    assert DailyKey(e) in keys;
    var i :| 0 <= i < |keys| && keys[i] == DailyKey(e);
    assert rows[i] in rows && rows[i].grain == keys[i];
  }

  lemma RowHasEvent(events: seq<Event>, r: DailyRow)
    requires r in DailyRollup(events)
    ensures exists e :: e in events && r.grain == DailyKey(e)
  {
    GroupByRows(events, DailyKey, MakeDaily);
    var keys, rows := FirstSeen(KeysOf(events, DailyKey)), DailyRollup(events);
    var i :| 0 <= i < |rows| && rows[i] == r;
    assert keys[i] in keys && rows[i].grain == keys[i];
  }

  /** The columns a daily row is grouped by, read from an event: its day runs from midnight to midnight, and an event
      without an actor is the local one's. */
  predicate FallsUnder(g: DailyGrain, e: Event) {
    && e.projectId == g.projectId && e.channel == g.channel && e.site == g.site && e.memoryType == g.memoryType
    && g.day * 86400 <= e.createdAt < (g.day + 1) * 86400
    && (if e.actorUserId == None then g.actorUserId == "local" else e.actorUserId == Some(g.actorUserId))
  }

  function EventsUnder(events: seq<Event>, g: DailyGrain): seq<Event> {
    Filter(events, (e: Event) => FallsUnder(g, e))
  }

  lemma FallsUnderItsKey(g: DailyGrain, e: Event)
    ensures FallsUnder(g, e) <==> DailyKey(e) == g
  {
  }

  /** Every column of a daily row, from the events it stands for. */
  ghost predicate Summarises(r: DailyRow, own: seq<Event>) {
    && own != [] && r.accessCount == |own|
    && r.distinctItems == |set e | e in own && e.memoryId.Some? :: e.memoryId.value|
    && r.distinctRuns == |set e | e in own && e.runId.Some? :: e.runId.value|
    && r.totalBytes == SumOf(own, (e: Event) => if e.bytes.Some? then e.bytes.value else 0)
    && r.totalLatencyMs == SumOf(own, (e: Event) => if e.latencyMs.Some? then e.latencyMs.value else 0)
    && GreatestLatency(own, r.maxLatencyMs)
    && r.staleAtAccessCount == |Filter(own, (e: Event) => e.freshness != None && e.freshness != Some("fresh"))|
    && Greatest(OrgsOf(own), r.orgId)
  }

  /** COALESCE(MAX(latency_ms), 0). */
  ghost predicate GreatestLatency(own: seq<Event>, ms: int) {
    if exists e :: e in own && e.latencyMs.Some? then
      && (exists e :: e in own && e.latencyMs == Some(ms))
      && forall e :: e in own && e.latencyMs.Some? ==> e.latencyMs.value <= ms
    else ms == 0
  }

  lemma MadeDaily(g: DailyGrain, es: seq<Event>)
    requires es != []
    ensures Summarises(MakeDaily(g, es), es)
  {
    var r := MakeDaily(g, es);
    SumCongruent(es, BytesOf, (e: Event) => if e.bytes.Some? then e.bytes.value else 0);
    SumCongruent(es, LatencyOf, (e: Event) => if e.latencyMs.Some? then e.latencyMs.value else 0);
    FilterCongruent(es, Stale(), (e: Event) => e.freshness != None && e.freshness != Some("fresh"));
    MaxTextIsGreatest(es, (e: Event) => e.orgId);
    MaxLatency(es);
  }

  lemma MaxLatency(es: seq<Event>)
    ensures GreatestLatency(es, MaxOf(es, (e: Event) => e.latencyMs).GetOr(0))
  {
    MaxIsGreatest(es, (e: Event) => e.latencyMs);
  }

  lemma RowMade(events: seq<Event>, r: DailyRow)
    requires r in DailyRollup(events)
    ensures EventsUnder(events, r.grain) != [] && r == MakeDaily(r.grain, EventsUnder(events, r.grain))
  {
    RowHasEvent(events, r);
    var e :| e in events && r.grain == DailyKey(e);
    FilterMember(events, WithKey(DailyKey, r.grain), e);
    UnderByKey(events, r.grain);
    RowOfKey(events, r);
  }

  lemma UnderByKey(events: seq<Event>, g: DailyGrain)
    ensures EventsUnder(events, g) == Filter(events, WithKey(DailyKey, g))
  {
    FilterCongruent(events, WithKey(DailyKey, g), (e: Event) => FallsUnder(g, e));
  }

  lemma RowOfKey(events: seq<Event>, r: DailyRow)
    requires r in DailyRollup(events)
    ensures r == MakeDaily(r.grain, Filter(events, WithKey(DailyKey, r.grain)))
  {
    GroupByRows(events, DailyKey, MakeDaily);
    var keys, rows := FirstSeen(KeysOf(events, DailyKey)), DailyRollup(events);
    var i :| 0 <= i < |rows| && rows[i] == r;
    assert rows[i] == MakeDaily(keys[i], Filter(events, WithKey(DailyKey, keys[i])));
  }

  /** A daily row is the one of its columns, and says of exactly the events with these columns what each of its own
      columns means. */
  lemma DailyRowMeaning(events: seq<Event>, r: DailyRow)
    requires r in DailyRollup(events)
    ensures Summarises(r, EventsUnder(events, r.grain))
    ensures forall q :: q in DailyRollup(events) && q.grain == r.grain ==> q == r
  {
    RowMade(events, r);
    MadeDaily(r.grain, EventsUnder(events, r.grain));
    forall q | q in DailyRollup(events) && q.grain == r.grain ensures q == r { RowMade(events, q); }
  }

  function RowSum(rows: seq<DailyRow>, f: DailyRow -> int): int {
    if rows == [] then 0 else RowSum(rows[..|rows| - 1], f) + f(rows[|rows| - 1])
  }

  function KeyIn(keys: seq<DailyGrain>): Event -> bool { (e: Event) => DailyKey(e) in keys }

  lemma SumSplits(events: seq<Event>, keys: seq<DailyGrain>, k: DailyGrain, f: Event -> int)
    requires k !in keys
    ensures SumOf(Filter(events, KeyIn(keys + [k])), f)
            == SumOf(Filter(events, KeyIn(keys)), f) + SumOf(Filter(events, WithKey(DailyKey, k)), f)
  {
    SumOfEither(events, KeyIn(keys), WithKey(DailyKey, k), KeyIn(keys + [k]), f);
  }

  lemma {:induction false} SumOfEither(events: seq<Event>, p: Event -> bool, q: Event -> bool, either: Event -> bool,
                                       f: Event -> int)
    requires forall e :: either(e) == (p(e) || q(e))
    requires forall e :: !(p(e) && q(e))
    ensures SumOf(Filter(events, either), f) == SumOf(Filter(events, p), f) + SumOf(Filter(events, q), f)
  {
    if events != [] {
      var n := |events| - 1;
      SumOfEither(events[..n], p, q, either, f);
      SumSnoc(Filter(events[..n], either), events[n], f);
      SumSnoc(Filter(events[..n], p), events[n], f);
      SumSnoc(Filter(events[..n], q), events[n], f);
    }
  }

  lemma SumSnoc(events: seq<Event>, e: Event, f: Event -> int)
    ensures SumOf(events + [e], f) == SumOf(events, f) + f(e)
  {
    assert (events + [e])[..|events|] == events;
  }

  lemma RowSumSnoc(keys: seq<DailyGrain>, events: seq<Event>, g: DailyRow -> int)
    requires keys != []
    ensures var n := |keys| - 1;
            RowSum(RowsFor(keys, events, DailyKey, MakeDaily), g)
            == RowSum(RowsFor(keys[..n], events, DailyKey, MakeDaily), g)
               + g(MakeDaily(keys[n], Filter(events, WithKey(DailyKey, keys[n]))))
  {
    var n := |keys| - 1;
    var rows := RowsFor(keys, events, DailyKey, MakeDaily);
    assert rows[..n] == RowsFor(keys[..n], events, DailyKey, MakeDaily);
  }

  lemma {:induction false} RowsSumUp(keys: seq<DailyGrain>, events: seq<Event>, f: Event -> int, g: DailyRow -> int)
    requires Distinct(keys)
    requires forall k, es :: g(MakeDaily(k, es)) == SumOf(es, f)
    ensures RowSum(RowsFor(keys, events, DailyKey, MakeDaily), g) == SumOf(Filter(events, KeyIn(keys)), f)
  {
    if keys == [] {
      FilterKeepsNone(events, KeyIn(keys));
    } else {
      var n := |keys| - 1;
      RowSumSnoc(keys, events, g);
      RowsSumUp(keys[..n], events, f, g);
      SumSplits(events, keys[..n], keys[n], f);
      SnocLast(keys);
    }
  }

  lemma {:induction false} SumOfOnes(events: seq<Event>)
    ensures SumOf(events, (e: Event) => 1) == |events|
  {
    if events != [] { SumOfOnes(events[..|events| - 1]); }
  }

  lemma RollupSums(events: seq<Event>, f: Event -> int, g: DailyRow -> int)
    requires forall k, es :: g(MakeDaily(k, es)) == SumOf(es, f)
    ensures RowSum(DailyRollup(events), g) == SumOf(events, f)
  {
    GroupByRows(events, DailyKey, MakeDaily);
    var keys := FirstSeen(KeysOf(events, DailyKey));
    RowsSumUp(keys, events, f, g);
    FilterKeepsAll(events, KeyIn(keys));
  }

  /** Nothing is counted twice or dropped: the rows of a rollup add up to its events. */
  lemma RollupConserves(events: seq<Event>)
    ensures RowSum(DailyRollup(events), (r: DailyRow) => r.accessCount) == |events|
    ensures RowSum(DailyRollup(events), (r: DailyRow) => r.totalBytes) == SumOf(events, BytesOf)
    ensures RowSum(DailyRollup(events), (r: DailyRow) => r.totalLatencyMs) == SumOf(events, LatencyOf)
  {
    forall es: seq<Event> ensures SumOf(es, (e: Event) => 1) == |es| { SumOfOnes(es); }
    RollupSums(events, (e: Event) => 1, (r: DailyRow) => r.accessCount);
    RollupSums(events, BytesOf, (r: DailyRow) => r.totalBytes);
    RollupSums(events, LatencyOf, (r: DailyRow) => r.totalLatencyMs);
  }

  // --------------------------------------------------------- memory_cohorts

  datatype CohortGrain = CohortGrain(runId: string, generation: int, memoryType: string, memoryId: string)

  datatype CohortRow = CohortRow(grain: CohortGrain, orgId: Option<string>, projectId: Option<string>,
                                 surfacedCount: nat, pulledCount: nat,
                                 surfacedSite: Option<string>, pulledSite: Option<string>,
                                 firstSurfacedAt: Option<nat>, firstPulledAt: Option<nat>,
                                 timeToFirstPullMs: Option<int>, staleAtAccess: bool)

  /** Only events with a run and an item belong to a cohort. */
  function InCohort(): Event -> bool {
    (e: Event) => e.memoryId.Some? && e.runId.Some?
  }

  function CohortKey(e: Event): CohortGrain {
    CohortGrain(e.runId.GetOr(""), e.generation, e.memoryType, e.memoryId.GetOr(""))
  }

  function SiteOf(e: Option<Event>): Option<string> {
    if e.None? then None else Some(e.value.site)
  }

  function TimeOf(e: Option<Event>): Option<nat> {
    if e.None? then None else Some(e.value.createdAt)
  }

  function MakeCohort(g: CohortGrain, es: seq<Event>): CohortRow {
    var pushes, pulls := Filter(es, OnChannel("push")), Filter(es, OnChannel("pull"));
    var push, pull := Earliest(pushes), Earliest(pulls);
    CohortRow(g, MaxTextOf(es, (e: Event) => e.orgId), MaxTextOf(es, (e: Event) => e.projectId),
              |pushes|, |pulls|, SiteOf(push), SiteOf(pull), TimeOf(push), TimeOf(pull),
              if push.Some? && pull.Some? then Some((pull.value.createdAt - push.value.createdAt) * 1000) else None,
              Filter(es, Stale()) != [])
  }

  /** The first time and site of a channel: those of its first event, and nothing when it has none. */
  ghost predicate FirstOnChannel(es: seq<Event>, channel: string, at: Option<nat>, site: Option<string>) {
    if exists e :: e in es && e.channel == channel then
      && at.Some? && (forall e :: e in es && e.channel == channel ==> at.value <= e.createdAt)
      && exists e :: e in es && e.channel == channel && e.createdAt == at.value && site == Some(e.site)
    else at == None && site == None
  }

  lemma FirstOfChannel(es: seq<Event>, channel: string)
    ensures var first := Earliest(Filter(es, OnChannel(channel)));
            FirstOnChannel(es, channel, TimeOf(first), SiteOf(first))
  {
    var own := Filter(es, OnChannel(channel));
    FilterMembers(es, OnChannel(channel));
    if own != [] {
      var i := EarliestIsFirst(own);
      assert own[i] in own;
    }
  }

  /** The events of a cohort: those of its run, generation and item; without a run or an item there is none. */
  predicate Belongs(g: CohortGrain, e: Event) {
    && e.runId == Some(g.runId) && e.memoryId == Some(g.memoryId)
    && e.generation == g.generation && e.memoryType == g.memoryType
  }

  function EventsBelonging(events: seq<Event>, g: CohortGrain): seq<Event> {
    Filter(events, (e: Event) => Belongs(g, e))
  }

  /** Every column of a cohort row, from the events it stands for: pull-through is measured from the first push to the
      first pull, only when there were both, and the item was stale if it was at any access. */
  ghost predicate Describes(r: CohortRow, own: seq<Event>) {
    && own != []
    && Greatest(OrgsOf(own), r.orgId)
    && Greatest(ProjectsOf(own), r.projectId)
    && r.surfacedCount == |Filter(own, (e: Event) => e.channel == "push")|
    && r.pulledCount == |Filter(own, (e: Event) => e.channel == "pull")|
    && FirstOnChannel(own, "push", r.firstSurfacedAt, r.surfacedSite)
    && FirstOnChannel(own, "pull", r.firstPulledAt, r.pulledSite)
    && (r.timeToFirstPullMs.Some? <==> r.firstSurfacedAt.Some? && r.firstPulledAt.Some?)
    && (r.timeToFirstPullMs.Some? ==>
          r.timeToFirstPullMs.value == (r.firstPulledAt.value - r.firstSurfacedAt.value) * 1000)
    && (r.staleAtAccess <==> exists e :: e in own && e.freshness != None && e.freshness != Some("fresh"))
  }

  lemma CohortCounts(es: seq<Event>)
    ensures |Filter(es, OnChannel("push"))| == |Filter(es, (e: Event) => e.channel == "push")|
    ensures |Filter(es, OnChannel("pull"))| == |Filter(es, (e: Event) => e.channel == "pull")|
    ensures Filter(es, Stale()) != [] <==> exists e :: e in es && e.freshness != None && e.freshness != Some("fresh")
  {
    FilterCongruent(es, OnChannel("push"), (e: Event) => e.channel == "push");
    FilterCongruent(es, OnChannel("pull"), (e: Event) => e.channel == "pull");
    FilterMembers(es, Stale());
    if Filter(es, Stale()) != [] { assert Filter(es, Stale())[0] in Filter(es, Stale()); }
  }

  lemma CohortOwners(es: seq<Event>)
    ensures Greatest(OrgsOf(es), MaxTextOf(es, (e: Event) => e.orgId))
    ensures Greatest(ProjectsOf(es), MaxTextOf(es, (e: Event) => e.projectId))
  {
    MaxTextIsGreatest(es, (e: Event) => e.orgId);
    MaxTextIsGreatest(es, (e: Event) => e.projectId);
  }

  lemma MadeCohort(g: CohortGrain, es: seq<Event>)
    requires es != []
    ensures Describes(MakeCohort(g, es), es)
  {
    FirstOfChannel(es, "push");
    FirstOfChannel(es, "pull");
    CohortCounts(es);
    CohortOwners(es);
  }

  function CohortEvents(events: seq<Event>): seq<Event> { Filter(events, InCohort()) }

  function CohortRollup(events: seq<Event>): seq<CohortRow> {
    GroupBy(CohortEvents(events), CohortKey, MakeCohort)
  }

  function CohortOn(g: CohortGrain): CohortRow -> bool { (r: CohortRow) => r.grain == g }

  function CohortRows(cohorts: seq<CohortRow>, g: CohortGrain): seq<CohortRow> { Filter(cohorts, CohortOn(g)) }

  /** The surviving raw events of one cohort. */
  function EventsOf(events: seq<Event>, g: CohortGrain): seq<Event> {
    Filter(CohortEvents(events), WithKey(CohortKey, g))
  }

  /** The rollup has, for each grain, the fold of its events when there are any and nothing otherwise. */
  lemma CohortRollupOf(events: seq<Event>, g: CohortGrain)
    ensures CohortRows(CohortRollup(events), g)
            == if EventsOf(events, g) == [] then [] else [MakeCohort(g, EventsOf(events, g))]
  {
    var es := CohortEvents(events);
    SelectCohort(es, g);
    EventsOfKeys(events, g);
    OneGroup(Filter(es, WithKey(CohortKey, g)), CohortKey, MakeCohort, g);
  }

  lemma EventsOfKeys(events: seq<Event>, g: CohortGrain)
    ensures forall e :: e in EventsOf(events, g) ==> CohortKey(e) == g
  {
    FilterMembers(CohortEvents(events), WithKey(CohortKey, g));
  }

  function IsGrain(g: CohortGrain): CohortGrain -> bool { (h: CohortGrain) => h == g }

  lemma SelectCohort(es: seq<Event>, g: CohortGrain)
    ensures GroupBy(Filter(es, WithKey(CohortKey, g)), CohortKey, MakeCohort)
            == Filter(GroupBy(es, CohortKey, MakeCohort), CohortOn(g))
  {
    forall k, fs ensures CohortOn(g)(MakeCohort(k, fs)) == IsGrain(g)(k) {
      assert MakeCohort(k, fs).grain == k;
    }
    GroupByRestrict(es, CohortKey, MakeCohort, WithKey(CohortKey, g), IsGrain(g), CohortOn(g));
  }

  /** Events that all have one key make one row. */
  lemma OneGroup<K(!new), R>(events: seq<Event>, key: Event -> K, make: (K, seq<Event>) -> R, k: K)
    requires forall e :: e in events ==> key(e) == k
    ensures GroupBy(events, key, make) == if events == [] then [] else [make(k, events)]
  {
    OneKey(events, key, k);
    FilterKeepsAll(events, WithKey(key, k));
  }

  lemma {:induction false} OneKey<K>(events: seq<Event>, key: Event -> K, k: K)
    requires forall e :: e in events ==> key(e) == k
    ensures FirstSeen(KeysOf(events, key)) == if events == [] then [] else [k]
  {
    if events != [] {
      var n := |events| - 1;
      assert events[n] in events && events == events[..n] + [events[n]];
      OneKey(events[..n], key, k);
      KeysOfSnoc(events[..n], events[n], key);
      FirstSeenSnoc(KeysOf(events[..n], key), k);
    }
  }

  lemma BelongsToKey(g: CohortGrain, e: Event)
    ensures Belongs(g, e) <==> InCohort()(e) && CohortKey(e) == g
  {
  }

  lemma BelongsByKey(events: seq<Event>, g: CohortGrain)
    ensures EventsBelonging(events, g) == EventsOf(events, g)
  {
    forall e ensures Belongs(g, e) <==> InCohort()(e) && CohortKey(e) == g { BelongsToKey(g, e); }
    FilterTwice(events, InCohort(), WithKey(CohortKey, g), (e: Event) => Belongs(g, e));
  }

  /** A cohort row is the one of its grain, and says of exactly the events of that cohort what each of its own columns
      means. */
  lemma CohortRowMeaning(events: seq<Event>, r: CohortRow)
    requires r in CohortRollup(events)
    ensures Describes(r, EventsBelonging(events, r.grain))
    ensures forall q :: q in CohortRollup(events) && q.grain == r.grain ==> q == r
  {
    CohortRollupOf(events, r.grain);
    BelongsByKey(events, r.grain);
    FilterMembers(CohortRollup(events), CohortOn(r.grain));
    assert r in CohortRows(CohortRollup(events), r.grain);
    MadeCohort(r.grain, EventsOf(events, r.grain));
  }

  /** Every event with a run and an item is in a cohort row. */
  lemma EventHasCohort(events: seq<Event>, e: Event)
    requires e in events && e.runId.Some? && e.memoryId.Some?
    ensures exists r :: r in CohortRollup(events) && Belongs(r.grain, e)
  {
    var g := CohortKey(e);
    CohortRollupOf(events, g);
    BelongsByKey(events, g);
    FilterMember(events, (x: Event) => Belongs(g, x), e);
    FilterMembers(CohortRollup(events), CohortOn(g));
    assert CohortRows(CohortRollup(events), g)[0] in CohortRows(CohortRollup(events), g);
  }

  // ------------------------------------------------- tables as multisets

  /** Tables that agree on the rows of every key hold the same rows. */
  lemma SamePerKeySameRows<R>(a: seq<R>, b: seq<R>, on: R -> (R -> bool))
    requires forall r :: on(r)(r)
    requires forall r :: Filter(a, on(r)) == Filter(b, on(r))
    ensures multiset(a) == multiset(b)
  {
    forall r ensures multiset(a)[r] == multiset(b)[r] {
      FilterCount(a, on(r), r);
      FilterCount(b, on(r), r);
    }
  }
}
