/**
  The kill-switch table and its matcher (packages/db/src/kill-switches.ts).
  Times are whole seconds, as the columns hold them and the queries compare them.
*/
module KillSwitches {
  import opened Collections
  import opened Text

  datatype Scope = Global | Project | Tool | AgentType
  datatype Mode = Hard | Soft

  datatype KillSwitch = KillSwitch(id: string, scope: Scope, target: Option<string>, mode: Mode, reason: string,
                                   pausedAt: nat, expiresAt: Option<nat>, resumedAt: Option<nat>)

  datatype Event = Event(projectId: Option<string>, toolName: string, agentType: string)

  // ---------------------------------------------------------------- queries

  predicate IsActive(s: KillSwitch, now: nat) {
    s.resumedAt.None? && (s.expiresAt.None? || s.expiresAt.value > now)
  }

  function ActiveAt(now: nat): KillSwitch -> bool { (s: KillSwitch) => IsActive(s, now) }

  /** The scope filter of the SQL query: project rows of other projects stay out. */
  function InContext(projectId: Option<string>): KillSwitch -> bool {
    (s: KillSwitch) => s.scope != Project || (projectId.Some? && s.target == projectId)
  }

  function ActiveInContext(projectId: Option<string>, now: nat): KillSwitch -> bool {
    (s: KillSwitch) => IsActive(s, now) && InContext(projectId)(s)
  }

  predicate PausedLe(a: KillSwitch, b: KillSwitch) { a.pausedAt <= b.pausedAt }

  /** listActiveKillSwitches: WHERE … ORDER BY paused_at. */
  function ListActive(table: seq<KillSwitch>, projectId: Option<string>, now: nat): seq<KillSwitch> {
    Sort(Filter(table, ActiveInContext(projectId, now)), PausedLe)
  }

  /** listAllActiveKillSwitches: no scope filter. */
  function ListAllActive(table: seq<KillSwitch>, now: nat): seq<KillSwitch> {
    Sort(Filter(table, ActiveAt(now)), PausedLe)
  }

  // ---------------------------------------------------------------- matcher

  predicate Matches(s: KillSwitch, e: Event) {
    match s.scope
    case Global => true
    case Project => e.projectId.Some? && s.target == e.projectId
    case Tool => s.target == Some(e.toolName)
    case AgentType => s.target == Some(e.agentType)
  }

  /** findKillSwitchMatchingEvent: the first match in list order. */
  function FindMatch(switches: seq<KillSwitch>, e: Event): Option<KillSwitch> {
    if switches == [] then None
    else if Matches(switches[0], e) then Some(switches[0])
    else FindMatch(switches[1..], e)
  }

  lemma {:induction false} FindMatchSnoc(switches: seq<KillSwitch>, s: KillSwitch, e: Event)
    ensures FindMatch(switches + [s], e)
            == if FindMatch(switches, e).Some? then FindMatch(switches, e) else if Matches(s, e) then Some(s) else None
  {
    if switches != [] {
      assert (switches + [s])[1..] == switches[1..] + [s];
      FindMatchSnoc(switches[1..], s, e);
    }
  }

  /** Dropping switches that cannot match does not change the match. */
  lemma {:induction false} FindMatchFilter(switches: seq<KillSwitch>, e: Event, keep: KillSwitch -> bool)
    requires forall s :: s in switches && Matches(s, e) ==> keep(s)
    ensures FindMatch(Filter(switches, keep), e) == FindMatch(switches, e)
  {
    if switches != [] {
      var n := |switches| - 1;
      assert switches[n] in switches && switches == switches[..n] + [switches[n]];
      FindMatchFilter(switches[..n], e, keep);
      FindMatchSnoc(switches[..n], switches[n], e);
      FindMatchSnoc(Filter(switches[..n], keep), switches[n], e);
    }
  }

  /** The pushed-down query plus the matcher is a scan of every active switch, oldest first. */
  lemma PushdownRefinesScan(table: seq<KillSwitch>, e: Event, now: nat)
    ensures FindMatch(ListActive(table, e.projectId, now), e) == FindMatch(ListAllActive(table, now), e)
  {
    var context := InContext(e.projectId);
    FilterTwice(table, ActiveAt(now), context, ActiveInContext(e.projectId, now));
    FilterSort(Filter(table, ActiveAt(now)), PausedLe, context);
    FindMatchFilter(ListAllActive(table, now), e, context);
  }

  /** A project list fetched for `other` serves an event too, when the event has no project. */
  lemma NoProjectIgnoresContext(table: seq<KillSwitch>, other: Option<string>, e: Event, now: nat)
    requires e.projectId == None
    ensures FindMatch(ListActive(table, other, now), e) == FindMatch(ListAllActive(table, now), e)
  {
    var context := InContext(other);
    FilterTwice(table, ActiveAt(now), context, ActiveInContext(other, now));
    FilterSort(Filter(table, ActiveAt(now)), PausedLe, context);
    FindMatchFilter(ListAllActive(table, now), e, context);
  }

  /** In force: not resumed and not expired. */
  ghost predicate Paused(s: KillSwitch, now: nat) {
    s.resumedAt == None && (s.expiresAt == None || now < s.expiresAt.value)
  }

  /** The switch applies to the event now: not resumed, not expired, and of every project, of this one, of this tool or
      of this agent. */
  ghost predicate ActiveMatch(s: KillSwitch, e: Event, now: nat) {
    && Paused(s, now)
    && (|| s.scope == Global || (s.scope == Project && s.target != None && s.target == e.projectId)
        || (s.scope == Tool && s.target == Some(e.toolName))
        || (s.scope == AgentType && s.target == Some(e.agentType)))
  }

  lemma ActiveMatchExactly(s: KillSwitch, e: Event, now: nat)
    ensures ActiveMatch(s, e, now) <==> IsActive(s, now) && Matches(s, e)
  {
  }

  /** What the scan finds: an active match that was paused no later than any other active match, or
      nothing when there is no active match at all. */
  lemma ScanFindsOldest(table: seq<KillSwitch>, e: Event, now: nat)
    ensures var r := FindMatch(ListAllActive(table, now), e);
            && (r.Some? <==> exists s :: s in table && ActiveMatch(s, e, now))
            && (r.Some? ==> r.value in table && ActiveMatch(r.value, e, now))
            && (r.Some? ==> forall s :: s in table && ActiveMatch(s, e, now) ==> r.value.pausedAt <= s.pausedAt)
  {
    forall s ensures ActiveMatch(s, e, now) <==> IsActive(s, now) && Matches(s, e) { ActiveMatchExactly(s, e, now); }
    var active := Filter(table, ActiveAt(now));
    FilterMembers(table, ActiveAt(now));
    SortMembers(active, PausedLe);
    SortSorts(active, PausedLe);
    FindMatchFirst(ListAllActive(table, now), e);
  }

  ghost predicate ByPauseTime(rows: seq<KillSwitch>) {
    forall i, j :: 0 <= i < j < |rows| ==> rows[i].pausedAt <= rows[j].pausedAt
  }

  lemma SelectedRows(table: seq<KillSwitch>, keep: KillSwitch -> bool, s: KillSwitch)
    ensures var rows := Sort(Filter(table, keep), PausedLe);
            ByPauseTime(rows) && multiset(rows)[s] == if keep(s) then multiset(table)[s] else 0
  {
    var rows := Sort(Filter(table, keep), PausedLe);
    PausedOrder();
    SortSorts(Filter(table, keep), PausedLe);
    SortPermutes(Filter(table, keep), PausedLe);
    FilterCount(table, keep, s);
    forall i, j | 0 <= i < j < |rows| ensures rows[i].pausedAt <= rows[j].pausedAt {
      assert PausedLe(rows[i], rows[j]);
    }
  }

  /** What the two queries return: the switches in force, each as often as it is in the table and by pause time, */
  lemma AllActiveExactly(table: seq<KillSwitch>, now: nat, s: KillSwitch)
    ensures ByPauseTime(ListAllActive(table, now))
    ensures multiset(ListAllActive(table, now))[s] == if Paused(s, now) then multiset(table)[s] else 0
  {
    SelectedRows(table, ActiveAt(now), s);
    assert ActiveAt(now)(s) <==> Paused(s, now);
  }

  /** and for one project those of other projects left out. */
  lemma ActiveExactly(table: seq<KillSwitch>, projectId: Option<string>, now: nat, s: KillSwitch)
    ensures ByPauseTime(ListActive(table, projectId, now))
    ensures multiset(ListActive(table, projectId, now))[s]
            == if Paused(s, now) && InScope(s, projectId) then multiset(table)[s] else 0
  {
    var keep := ActiveInContext(projectId, now);
    SelectedRows(table, keep, s);
    assert InContext(projectId)(s) <==> InScope(s, projectId);
    assert keep(s) <==> IsActive(s, now) && InContext(projectId)(s);
  }

  ghost predicate InScope(s: KillSwitch, projectId: Option<string>) {
    s.scope == Project ==> projectId != None && s.target == projectId
  }

  lemma {:induction false} FindMatchFirst(switches: seq<KillSwitch>, e: Event)
    requires SortedBy(switches, PausedLe)
    ensures var r := FindMatch(switches, e);
            && (r.Some? <==> exists s :: s in switches && Matches(s, e))
            && (r.Some? ==> r.value in switches && Matches(r.value, e))
            && (r.Some? ==> forall s :: s in switches && Matches(s, e) ==> r.value.pausedAt <= s.pausedAt)
  {
    if switches != [] {
      var head, rest := switches[0], switches[1..];
      assert switches == [head] + rest;
      FindMatchFirst(rest, e);
      assert head in switches;
      forall s | s in rest ensures s in switches && head.pausedAt <= s.pausedAt {
        var i :| 0 <= i < |rest| && rest[i] == s;
        assert PausedLe(switches[0], switches[i + 1]);
      }
    }
  }

  // ------------------------------------------------------ which match decides

  /** Row `i` is an active match, paused before every one that precedes it in the table and no later than any
      that follows it. */
  ghost predicate Leads(table: seq<KillSwitch>, e: Event, now: nat, i: nat) {
    && i < |table| && ActiveMatch(table[i], e, now)
    && (forall j :: 0 <= j < i && ActiveMatch(table[j], e, now) ==> table[i].pausedAt < table[j].pausedAt)
    && (forall j :: i < j < |table| && ActiveMatch(table[j], e, now) ==> table[i].pausedAt <= table[j].pausedAt)
  }

  lemma {:induction false} FindMatchInsert(x: KillSwitch, s: seq<KillSwitch>, e: Event)
    requires SortedBy(s, PausedLe)
    ensures var r := FindMatch(s, e);
            FindMatch(Insert(x, s, PausedLe), e)
            == if Matches(x, e) && (r.None? || x.pausedAt < r.value.pausedAt) then Some(x) else r
  {
    if s == [] {
      FindMatchSnoc([], x, e);
      assert [] + [x] == [x];
    } else {
      var m := |s| - 1;
      SnocLast(s);
      FindMatchSnoc(s[..m], s[m], e);
      FindMatchFirst(s, e);
      if PausedLe(s[m], x) {
        FindMatchSnoc(s, x, e);
        assert s[m].pausedAt <= x.pausedAt;
        LastIsLatest(s);
      } else {
        FindMatchInsert(x, s[..m], e);
        FindMatchFirst(s[..m], e);
        FindMatchSnoc(Insert(x, s[..m], PausedLe), s[m], e);
      }
    }
  }

  lemma LastIsLatest(s: seq<KillSwitch>)
    requires s != [] && SortedBy(s, PausedLe)
    ensures forall t :: t in s ==> t.pausedAt <= s[|s| - 1].pausedAt
  {
    forall t | t in s ensures t.pausedAt <= s[|s| - 1].pausedAt {
      var i :| 0 <= i < |s| && s[i] == t;
      if i < |s| - 1 { assert PausedLe(s[i], s[|s| - 1]); }
    }
  }

  lemma PausedOrder()
    ensures TotalPreorder(PausedLe)
  {
  }

  lemma ScanOneMore(table: seq<KillSwitch>, x: KillSwitch, e: Event, now: nat)
    ensures var r := FindMatch(ListAllActive(table, now), e);
            FindMatch(ListAllActive(table + [x], now), e)
            == if ActiveMatch(x, e, now) && (r.None? || x.pausedAt < r.value.pausedAt) then Some(x) else r
  {
    FilterSnoc(table, x, ActiveAt(now));
    ActiveMatchExactly(x, e, now);
    if IsActive(x, now) {
      var active := Filter(table, ActiveAt(now));
      SortSnoc(active, x, PausedLe);
      PausedOrder();
      SortSorts(active, PausedLe);
      FindMatchInsert(x, Sort(active, PausedLe), e);
    }
  }

  lemma StillLeads(t: seq<KillSwitch>, x: KillSwitch, e: Event, now: nat, i: nat)
    requires Leads(t, e, now, i) && (ActiveMatch(x, e, now) ==> t[i].pausedAt <= x.pausedAt)
    ensures Leads(t + [x], e, now, i)
  {
  }

  lemma NewLeads(t: seq<KillSwitch>, x: KillSwitch, e: Event, now: nat)
    requires ActiveMatch(x, e, now)
    requires forall j :: 0 <= j < |t| && ActiveMatch(t[j], e, now) ==> x.pausedAt < t[j].pausedAt
    ensures Leads(t + [x], e, now, |t|)
  {
  }

  lemma LeaderIsOldest(t: seq<KillSwitch>, e: Event, now: nat, i: nat)
    requires Leads(t, e, now, i)
    ensures forall j :: 0 <= j < |t| && ActiveMatch(t[j], e, now) ==> t[i].pausedAt <= t[j].pausedAt
  {
  }

  /** What the scan says of the table: nothing matches, or the row found leads. */
  ghost predicate Answers(table: seq<KillSwitch>, e: Event, now: nat, r: Option<KillSwitch>) {
    if r.None? then forall j :: 0 <= j < |table| ==> !ActiveMatch(table[j], e, now)
    else exists i: nat :: Leads(table, e, now, i) && table[i] == r.value
  }

  lemma AnswersOneMore(t: seq<KillSwitch>, x: KillSwitch, e: Event, now: nat, r: Option<KillSwitch>)
    requires Answers(t, e, now, r)
    ensures Answers(t + [x], e, now,
                    if ActiveMatch(x, e, now) && (r.None? || x.pausedAt < r.value.pausedAt) then Some(x) else r)
  {
    if r.None? {
      if ActiveMatch(x, e, now) { NewLeads(t, x, e, now); }
    } else {
      var i: nat :| Leads(t, e, now, i) && t[i] == r.value;
      if ActiveMatch(x, e, now) && x.pausedAt < r.value.pausedAt {
        LeaderIsOldest(t, e, now, i);
        NewLeads(t, x, e, now);
        assert (t + [x])[|t|] == x;
      } else {
        StillLeads(t, x, e, now, i);
        assert (t + [x])[i] == t[i];
      }
    }
  }

  lemma {:induction false} ScanLeads(table: seq<KillSwitch>, e: Event, now: nat)
    ensures Answers(table, e, now, FindMatch(ListAllActive(table, now), e))
  {
    if table == [] {
      assert ListAllActive(table, now) == [];
    } else {
      var m := |table| - 1;
      ScanLeads(table[..m], e, now);
      ScanOneMore(table[..m], table[m], e, now);
      AnswersOneMore(table[..m], table[m], e, now, FindMatch(ListAllActive(table[..m], now), e));
      SnocLast(table);
    }
  }

  lemma OneLeader(table: seq<KillSwitch>, e: Event, now: nat, i: nat, j: nat)
    requires Leads(table, e, now, i) && Leads(table, e, now, j)
    ensures i == j
  {
  }

  /** The scan, and so the pushed-down query, answers with row `i` exactly when it leads; ties in the pause time
      go to the earlier row. */
  lemma ScanFindsLeader(table: seq<KillSwitch>, e: Event, now: nat, i: nat)
    requires i < |table|
    ensures Leads(table, e, now, i) ==> FindMatch(ListAllActive(table, now), e) == Some(table[i])
    ensures FindMatch(ListAllActive(table, now), e) == Some(table[i])
            ==> exists j: nat :: Leads(table, e, now, j) && table[j] == table[i]
  {
    ScanLeads(table, e, now);
    var r := FindMatch(ListAllActive(table, now), e);
    if r.Some? && Leads(table, e, now, i) {
      var j: nat :| Leads(table, e, now, j) && table[j] == r.value;
      OneLeader(table, e, now, i, j);
    }
  }

  // -------------------------------------------------------------- the table

  /** assertValidInsert. */
  predicate ValidInsert(scope: Scope, target: Option<string>, reason: string) {
    && (if scope == Global then target.GetOr("") == "" else target.GetOr("") != "")
    && Trim(reason) != ""
  }

  function ResumeOne(s: KillSwitch, chosen: bool, now: nat): KillSwitch {
    if chosen && s.resumedAt.None? then s.(resumedAt := Some(now)) else s
  }

  predicate InResumeFilter(s: KillSwitch, scope: Option<Scope>, target: Option<Option<string>>) {
    (scope.None? || s.scope == scope.value) && (target.None? || s.target == target.value)
  }

  function Resumable(scope: Option<Scope>, target: Option<Option<string>>): KillSwitch -> bool {
    (s: KillSwitch) => s.resumedAt.None? && InResumeFilter(s, scope, target)
  }

  function Stamp(now: nat): KillSwitch -> KillSwitch {
    (s: KillSwitch) => s.(resumedAt := Some(now))
  }

  /** Not resumed yet, and of the scope and of the target that are asked for, if any. */
  predicate Chosen(s: KillSwitch, scope: Option<Scope>, target: Option<Option<string>>) {
    s.resumedAt == None && (scope == None || scope == Some(s.scope)) && (target == None || target == Some(s.target))
  }

  ghost predicate DistinctIds(rows: seq<KillSwitch>) {
    forall i, j :: 0 <= i < j < |rows| ==> rows[i].id != rows[j].id
  }

  /** SELECT … WHERE id = ? LIMIT 1. */
  function FirstWithId(rows: seq<KillSwitch>, id: string): (r: Option<KillSwitch>)
    ensures r.Some? ==> r.value in rows && r.value.id == id
    ensures (exists i :: 0 <= i < |rows| && rows[i].id == id) ==> r.Some?
  {
    if rows == [] then None else if rows[0].id == id then Some(rows[0]) else FirstWithId(rows[1..], id)
  }

  class KillSwitchTable {
    var rows: seq<KillSwitch>

    constructor ()
      ensures rows == []
    {
      rows := [];
    }

    /** insertKillSwitch; an invalid input throws and leaves the table alone. */
    method Insert(id: string, scope: Scope, target: Option<string>, mode: Option<Mode>, reason: string,
                  expiresAt: Option<nat>, now: nat) returns (r: Option<KillSwitch>)
      modifies this
      ensures r.Some? <==>
                (if scope == Global then target == None || target == Some("") else target != None && target != Some(""))
                && !Blank(reason)
      ensures rows == if r.Some? then old(rows) + [r.value] else old(rows)
      ensures r.Some? ==>
                var s := r.value;
                && s.id == id && s.scope == scope && s.target == (if scope == Global then None else target)
                && s.mode == (if mode == Some(Soft) then Soft else Hard) && s.reason == reason
                && s.pausedAt == now && s.expiresAt == expiresAt && s.resumedAt == None
    {
      BlankExactly(reason);
      if !ValidInsert(scope, target, reason) { return None; }
      var row := KillSwitch(id, scope, if scope == Global then None else target, mode.GetOr(Hard), reason, now,
                            expiresAt, None);
      rows := rows + [row];
      r := Some(row);
    }

    /** softResumeKillSwitch: the rows stay; the row resumed is returned, if an unresumed one had the id. */
    method SoftResume(id: string, now: nat) returns (resumed: Option<KillSwitch>)
      modifies this
      ensures |rows| == |old(rows)|
      ensures forall i :: 0 <= i < |rows| ==>
                rows[i] == if old(rows)[i].id == id && old(rows)[i].resumedAt == None
                           then old(rows)[i].(resumedAt := Some(now)) else old(rows)[i]
      ensures resumed.Some? <==>
                exists i :: 0 <= i < |old(rows)| && old(rows)[i].id == id && old(rows)[i].resumedAt.None?
      ensures resumed.Some? ==> resumed.value in rows && resumed.value.id == id && resumed.value.resumedAt.Some?
      ensures forall k: nat :: resumed.Some? && DistinctIds(old(rows)) && k < |rows| && rows[k].id == id
                ==> resumed.value == rows[k] == old(rows)[k].(resumedAt := Some(now))
    {
      var before := rows;
      var found := exists i :: 0 <= i < |before| && before[i].id == id && before[i].resumedAt.None?;
      rows := seq(|before|, i requires 0 <= i < |before| => ResumeOne(before[i], before[i].id == id, now));
      if !found { return None; }
      ghost var j :| 0 <= j < |before| && before[j].id == id && before[j].resumedAt.None?;
      assert rows[j].id == id;
      resumed := FirstWithId(rows, id);
    }

    /** softResumeAllKillSwitches, with its optional scope and target filter. */
    method SoftResumeAll(scope: Option<Scope>, target: Option<Option<string>>, now: nat)
      returns (resumed: seq<KillSwitch>)
      modifies this
      ensures |rows| == |old(rows)|
      ensures forall i :: 0 <= i < |rows| ==>
                rows[i] == if Chosen(old(rows)[i], scope, target) then old(rows)[i].(resumedAt := Some(now))
                           else old(rows)[i]
      ensures resumed == Map(Filter(old(rows), (s: KillSwitch) => Chosen(s, scope, target)),
                             (s: KillSwitch) => s.(resumedAt := Some(now)))
    {
      var before := rows;
      FilterCongruent(before, Resumable(scope, target), (s: KillSwitch) => Chosen(s, scope, target));
      resumed := Map(Filter(before, Resumable(scope, target)), Stamp(now));
      rows := seq(|before|, i requires 0 <= i < |before| =>
                              ResumeOne(before[i], InResumeFilter(before[i], scope, target), now));
    }
  }

  /** After `resume` without a filter nothing matches, whatever the event and whenever it comes. */
  lemma ResumeAllSilences(table: seq<KillSwitch>, resumed: seq<KillSwitch>, at: nat, e: Event, now: nat)
    requires |resumed| == |table|
    requires forall i :: 0 <= i < |table| ==>
               resumed[i] == if Chosen(table[i], None, None) then table[i].(resumedAt := Some(at)) else table[i]
    ensures FindMatch(ListAllActive(resumed, now), e) == None
  {
    ScanFindsOldest(resumed, e, now);
  }
}
