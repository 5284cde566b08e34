/**
  Policy calls that are cut off (packages/db/src/policies.ts): a mutator writes
  its rows, retires the versions and inserts the new one in separate statements
  with no transaction around them, and a crash may come between any two.
*/
module PolicyCrashes {
  import opened Collections
  import opened PolicyAliases
  import opened PolicyTables
  import opened PolicyVersions
  import opened Text

  /** The last write before the crash: the policy row, the rule row, or the retiring of the versions. */
  datatype Stage = PolicyWritten | RuleWritten | VersionsRetired

  datatype Event = Whole(call: Call) | CutOff(call: Call, stage: Stage)

  /** What a call leaves when it gets no further; a stage it has no write for adds nothing. */
  function Cut(t: Tables, digest: Digest, c: Call, stage: Stage): Tables {
    var r := Apply(t, digest, c).0;
    match stage
    case PolicyWritten => t.(policies := r.policies)
    case RuleWritten => r.(versions := t.versions)
    case VersionsRetired => if |r.versions| <= |t.versions| then r else r.(versions := r.versions[..|t.versions|])
  }

  function Happened(t: Tables, digest: Digest, e: Event): Tables {
    match e
    case Whole(c) => Apply(t, digest, c).0
    case CutOff(c, stage) => Cut(t, digest, c, stage)
  }

  function After(digest: Digest, events: seq<Event>): Tables {
    if events == [] then Tables([], [], [])
    else Happened(After(digest, events[..|events| - 1]), digest, events[|events| - 1])
  }

  function CallOf(e: Event): Call { e.call }

  ghost predicate AllAdmissible(digest: Digest, events: seq<Event>) {
    forall i :: 0 <= i < |events| ==> Admissible(After(digest, events[..i]), CallOf(events[i]).op)
  }

  // ------------------------------------------------------------- invariant

  /** Versions 1..n in order, each with its own digest, no two in a row alike, and none but the last active. */
  ghost predicate History(digest: Digest, vs: seq<Version>) {
    forall i :: 0 <= i < |vs| ==>
      && vs[i].number == i + 1
      && (i < |vs| - 1 ==> vs[i].status == Retired)
      && vs[i].hash == digest(vs[i].snapshot)
      && (i > 0 ==> vs[i - 1].snapshot != vs[i].snapshot)
  }

  /** Every history is sound, and up to date but for the policies in `late`. */
  ghost predicate Survives(t: Tables, digest: Digest, late: set<string>) {
    && Keyed(t)
    && forall p :: p in t.policies ==> History(digest, VersionsOf(t, p.id)) && (p.id in late || Current(t, p))
  }

  /** The rows of `t` with a change to policy `p` and its rules only. */
  ghost predicate EditOf(t: Tables, t1: Tables, p: Policy) {
    && Keyed(t1) && p in t1.policies && t1.versions == t.versions
    && (HasPolicy(t.policies, p.id) || VersionsOf(t, p.id) == [])
    && (forall q :: q in t1.policies && q.id != p.id ==>
          q in t.policies && Filter(t1.rules, RuleOf(q.id)) == Filter(t.rules, RuleOf(q.id)))
    && (forall id :: HasPolicy(t.policies, id) ==> HasPolicy(t1.policies, id))
  }

  lemma EditSurvives(t: Tables, t1: Tables, digest: Digest, late: set<string>, p: Policy)
    requires Survives(t, digest, late) && EditOf(t, t1, p)
    ensures Survives(t1, digest, late + {p.id})
  {
    forall q | q in t1.policies
      ensures History(digest, VersionsOf(t1, q.id)) && (q.id in late + {p.id} || Current(t1, q))
    {
      if q.id == p.id {
        if HasPolicy(t.policies, p.id) {
          var x :| x in t.policies && x.id == p.id;
          assert History(digest, VersionsOf(t, x.id));
        }
      } else {
        LiveUnchanged(t, t1, q);
      }
    }
  }

  /** The policy row alone is such a change too. */
  lemma PolicyRowAlone(t: Tables, t1: Tables, p: Policy)
    requires Keyed(t) && EditOf(t, t1, p)
    ensures EditOf(t, t.(policies := t1.policies), p)
  {
  }

  /** The policy a call is about. */
  function PolicyOf(t: Tables, op: Op): string {
    match op
    case Add(a, policyId, _) =>
      var existing := FindByName(t.policies, a.projectId, a.policyName.GetOr(DEFAULT_POLICY_NAME));
      if existing.Some? then existing.value.id else policyId
    case Update(ruleId, _, _, _) => var r := FindRule(t.rules, ruleId); if r.Some? then r.value.policyId else ""
    case Delete(ruleId) => var r := FindRule(t.rules, ruleId); if r.Some? then r.value.policyId else ""
    case Enable(identifier, _, projectId) =>
      var p := FindPolicy(t.policies, identifier, projectId); if p.Some? then p.value.id else ""
  }

  // ---------------------------------------------------- each call is an edit

  lemma AddIsEdit(t: Tables, digest: Digest, c: Call) returns (t1: Tables, p: Policy)
    requires Keyed(t) && c.op.Add? && Admissible(t, c.op) && Apply(t, digest, c).1 == Done
    ensures EditOf(t, t1, p) && p.id == PolicyOf(t, c.op)
    ensures Apply(t, digest, c) == Publish(t1, digest, p.id, c.versionId, c.now)
  {
    var a, ruleId := c.op.add, c.op.ruleId;
    var existing := FindByName(t.policies, a.projectId, a.policyName.GetOr(DEFAULT_POLICY_NAME));
    p := if existing.Some? then existing.value else NewPolicy(a, c.op.policyId);
    var policies := if existing.Some? then t.policies else t.policies + [p];
    var priority := a.priority.GetOr(NextPriority(Filter(t.rules, RuleOf(p.id))));
    var rule := Rule(ruleId, p.id, c.now, ToFields(a.rule, priority, a.matchEventType.GetOr("PreToolUse")));
    t1 := t.(policies := policies, rules := t.rules + [rule]);
    AddKeyed(t, p, rule, policies);
    OneRuleMore(t, t1, p, rule);
  }

  lemma OneRuleMore(t: Tables, t1: Tables, p: Policy, rule: Rule)
    requires Keyed(t1) && p in t1.policies && rule.policyId == p.id
    requires t1 == t.(policies := t1.policies, rules := t.rules + [rule])
    requires t1.policies == t.policies || t1.policies == t.policies + [p]
    requires p !in t.policies ==> forall v :: v in t.versions ==> v.policyId != p.id
    ensures EditOf(t, t1, p)
  {
    forall q | q in t1.policies && q.id != p.id
      ensures q in t.policies && Filter(t1.rules, RuleOf(q.id)) == Filter(t.rules, RuleOf(q.id))
    {
      FilterSnoc(t.rules, rule, RuleOf(q.id));
    }
    if p in t.policies {
      assert HasPolicy(t.policies, p.id);
    } else {
      FilterKeepsNone(t.versions, OfPolicy(p.id));
    }
    forall id | HasPolicy(t.policies, id) ensures HasPolicy(t1.policies, id) {
      var q :| q in t.policies && q.id == id;
      assert q in t1.policies;
    }
  }

  /** A change to the rules of one policy. */
  lemma RulesAreEdit(t: Tables, rules: seq<Rule>, p: Policy)
    requires Keyed(t) && p in t.policies
    requires forall r, s :: r in rules && s in rules && r.id == s.id ==> r == s
    requires forall r :: r in rules ==> HasPolicy(t.policies, r.policyId)
    requires forall other :: other != p.id ==> Filter(rules, RuleOf(other)) == Filter(t.rules, RuleOf(other))
    ensures EditOf(t, t.(rules := rules), p)
  {
    assert HasPolicy(t.policies, p.id);
  }

  lemma UpdateIsEdit(t: Tables, digest: Digest, c: Call) returns (t1: Tables, p: Policy)
    requires Keyed(t) && c.op.Update? && Apply(t, digest, c).0 != t
    ensures EditOf(t, t1, p) && p.id == PolicyOf(t, c.op)
    ensures Apply(t, digest, c) == Publish(t1, digest, p.id, c.versionId, c.now)
  {
    UpdateCases(t, digest, c);
    var r, f := FindRule(t.rules, c.op.ruleId).value, ToFields(c.op.rule, c.op.priority, c.op.matchEventType);
    p :| p in t.policies && p.id == r.policyId;
    var rules := SetRule(t.rules, r.id, f);
    SetRuleKeyed(t, r.id, f);
    forall other | other != p.id ensures Filter(rules, RuleOf(other)) == Filter(t.rules, RuleOf(other)) {
      SetRuleElsewhere(t.rules, r.id, f, other);
    }
    RulesAreEdit(t, rules, p);
    t1 := t.(rules := rules);
  }

  lemma DeleteIsEdit(t: Tables, digest: Digest, c: Call) returns (t1: Tables, p: Policy)
    requires Keyed(t) && c.op.Delete? && Apply(t, digest, c).0 != t
    ensures EditOf(t, t1, p) && p.id == PolicyOf(t, c.op)
    ensures Apply(t, digest, c) == Publish(t1, digest, p.id, c.versionId, c.now)
  {
    DeleteCases(t, digest, c);
    var r := FindRule(t.rules, c.op.ruleId).value;
    p :| p in t.policies && p.id == r.policyId;
    var rules := Filter(t.rules, NotRule(r.id));
    FilterMembers(t.rules, NotRule(r.id));
    forall other | other != p.id ensures Filter(rules, RuleOf(other)) == Filter(t.rules, RuleOf(other)) {
      FilterStronger(t.rules, NotRule(r.id), RuleOf(other));
    }
    RulesAreEdit(t, rules, p);
    t1 := t.(rules := rules);
  }

  lemma EnableIsEdit(t: Tables, digest: Digest, c: Call) returns (t1: Tables, p: Policy)
    requires Keyed(t) && c.op.Enable? && Apply(t, digest, c).0 != t
    ensures EditOf(t, t1, p) && p.id == PolicyOf(t, c.op)
    ensures Apply(t, digest, c) == Publish(t1, digest, p.id, c.versionId, c.now)
  {
    EnableCases(t, digest, c);
    var before := FindPolicy(t.policies, c.op.identifier, c.op.projectId).value;
    p := before.(isActive := c.op.active);
    t1 := t.(policies := SetActive(t.policies, before.id, c.op.active));
    SetActiveToggles(t, before, c.op.active);
    SetActiveKeyed(t, before, t1.policies, p);
    assert HasPolicy(t.policies, p.id);
    forall id | HasPolicy(t.policies, id) ensures HasPolicy(t1.policies, id) {
      var q :| q in t.policies && q.id == id;
      assert (if q.id == before.id then p else q) in t1.policies;
    }
  }

  lemma CallIsEdit(t: Tables, digest: Digest, c: Call) returns (t1: Tables, p: Policy)
    requires Keyed(t) && Admissible(t, c.op) && Apply(t, digest, c).0 != t
    ensures EditOf(t, t1, p) && p.id == PolicyOf(t, c.op)
    ensures Apply(t, digest, c) == Publish(t1, digest, p.id, c.versionId, c.now)
  {
    DoneOrUntouched(t, digest, c);
    match c.op
    case Add(_, _, _) => t1, p := AddIsEdit(t, digest, c);
    case Update(_, _, _, _) => t1, p := UpdateIsEdit(t, digest, c);
    case Delete(_) => t1, p := DeleteIsEdit(t, digest, c);
    case Enable(_, _, _) => t1, p := EnableIsEdit(t, digest, c);
  }

  // -------------------------------------------------------------- publishing

  lemma RetiredHistory(digest: Digest, vs: seq<Version>, id: string, now: nat)
    requires History(digest, vs)
    ensures History(digest, Retire(vs, id, now))
  {
    RetireEach(vs, id, now);
  }

  lemma AppendedHistory(digest: Digest, vs: seq<Version>, id: string, row: Version, now: nat)
    requires History(digest, vs) && forall v :: v in vs ==> v.policyId == id
    requires row.number == |vs| + 1 && row.hash == digest(row.snapshot)
    requires vs != [] ==> vs[|vs| - 1].snapshot != row.snapshot
    ensures History(digest, Retire(vs, id, now) + [row])
  {
    RetireEach(vs, id, now);
    forall i | 0 <= i < |vs| ensures vs[i].policyId == id { assert vs[i] in vs; }
  }

  /** The versions of a policy once the lookup has found it. */
  lemma PublishWrites(t: Tables, digest: Digest, p: Policy, versionId: string, now: nat)
    requires Injective(digest) && Keyed(t) && p in t.policies && History(digest, VersionsOf(t, p.id))
    ensures var vs, live := VersionsOf(t, p.id), Live(t, p);
            var r := Publish(t, digest, p.id, versionId, now);
            && r.1 == Done
            && if Current(t, p) then r.0 == t
               else r.0 == t.(versions := Retire(t.versions, p.id, now)
                              + [Version(versionId, p.id, |vs| + 1, Active, live, digest(live), None)])
  {
    FindSelf(t.policies, p);
    LatestOfNumbered(VersionsOf(t, p.id));
  }

  lemma RetiredKeys(t: Tables, id: string, now: nat)
    requires Keyed(t)
    ensures Keyed(t.(versions := Retire(t.versions, id, now)))
  {
    var all := Retire(t.versions, id, now);
    RetireEach(t.versions, id, now);
    forall v | v in all ensures HasPolicy(t.policies, v.policyId) {
      var i :| 0 <= i < |all| && all[i] == v;
      assert t.versions[i] in t.versions;
    }
  }

  lemma RetiredPolicy(t: Tables, digest: Digest, id: string, now: nat, q: Policy)
    requires History(digest, VersionsOf(t, q.id))
    ensures var t' := t.(versions := Retire(t.versions, id, now));
            History(digest, VersionsOf(t', q.id)) && (Current(t, q) ==> Current(t', q))
  {
    RetireFilter(t.versions, id, now, q.id);
    RetiredHistory(digest, VersionsOf(t, q.id), id, now);
    RetireEach(VersionsOf(t, q.id), id, now);
  }

  lemma RetireSurvives(t: Tables, digest: Digest, late: set<string>, id: string, now: nat)
    requires Survives(t, digest, late)
    ensures Survives(t.(versions := Retire(t.versions, id, now)), digest, late)
  {
    RetiredKeys(t, id, now);
    forall q | q in t.policies
      ensures var t' := t.(versions := Retire(t.versions, id, now));
              History(digest, VersionsOf(t', q.id)) && (q.id in late || Current(t', q))
    {
      RetiredPolicy(t, digest, id, now, q);
    }
  }

  lemma InsertSurvives(t: Tables, digest: Digest, late: set<string>, p: Policy, row: Version, now: nat)
    requires Survives(t, digest, late) && p in t.policies && !Current(t, p)
    requires row.policyId == p.id && row.number == |VersionsOf(t, p.id)| + 1
    requires row.snapshot == Live(t, p) && row.hash == digest(row.snapshot)
    ensures Survives(t.(versions := Retire(t.versions, p.id, now) + [row]), digest, late - {p.id})
  {
    var t' := t.(versions := Retire(t.versions, p.id, now) + [row]);
    assert HasPolicy(t.policies, p.id);
    RetireKeepsKeys(t, p.id, now, row);
    forall q | q in t.policies
      ensures History(digest, VersionsOf(t', q.id)) && (q.id in late - {p.id} || Current(t', q))
    {
      PublishedVersions(t, digest, p.id, row, now, q.id);
      assert Live(t', q) == Live(t, q);
      if q.id == p.id {
        assert q == p;
        FilterMembers(t.versions, OfPolicy(p.id));
        AppendedHistory(digest, VersionsOf(t, p.id), p.id, row, now);
      }
    }
  }

  lemma PublishSurvives(t: Tables, digest: Digest, late: set<string>, p: Policy, versionId: string, now: nat)
    requires Injective(digest) && Survives(t, digest, late) && p in t.policies
    ensures Survives(Publish(t, digest, p.id, versionId, now).0, digest, late - {p.id})
  {
    PublishWrites(t, digest, p, versionId, now);
    if Current(t, p) {
      forall q | q in t.policies ensures q.id in late - {p.id} || Current(t, q) {
        if q.id == p.id { assert q == p; }
      }
    } else {
      var live := Live(t, p);
      InsertSurvives(t, digest, late, p,
                     Version(versionId, p.id, |VersionsOf(t, p.id)| + 1, Active, live, digest(live), None), now);
    }
  }

  // ------------------------------------------------------------- whole runs

  /** The policies whose last call that changed anything was cut off. */
  function Late(digest: Digest, events: seq<Event>): set<string> {
    if events == [] then {}
    else
      var before, e := After(digest, events[..|events| - 1]), events[|events| - 1];
      var late := Late(digest, events[..|events| - 1]);
      if Apply(before, digest, CallOf(e)).0 == before then late
      else if e.Whole? then late - {PolicyOf(before, CallOf(e).op)}
      else late + {PolicyOf(before, CallOf(e).op)}
  }

  lemma WholeSurvives(t: Tables, digest: Digest, late: set<string>, c: Call)
    requires Injective(digest) && Survives(t, digest, late) && Admissible(t, c.op) && Apply(t, digest, c).0 != t
    ensures Survives(Apply(t, digest, c).0, digest, late - {PolicyOf(t, c.op)})
  {
    var t1, p := CallIsEdit(t, digest, c);
    EditSurvives(t, t1, digest, late, p);
    PublishSurvives(t1, digest, late + {p.id}, p, c.versionId, c.now);
    assert late + {p.id} - {p.id} == late - {p.id};
  }

  lemma CutSurvives(t: Tables, digest: Digest, late: set<string>, c: Call, stage: Stage)
    requires Injective(digest) && Survives(t, digest, late) && Admissible(t, c.op) && Apply(t, digest, c).0 != t
    ensures Survives(Cut(t, digest, c, stage), digest, late + {PolicyOf(t, c.op)})
  {
    var t1, p := CallIsEdit(t, digest, c);
    EditSurvives(t, t1, digest, late, p);
    PublishKeepsRows(t1, digest, p.id, c.versionId, c.now);
    PublishWrites(t1, digest, p, c.versionId, c.now);
    match stage
    case PolicyWritten =>
      PolicyRowAlone(t, t1, p);
      EditSurvives(t, t.(policies := t1.policies), digest, late, p);
    case RuleWritten => assert Cut(t, digest, c, stage) == t1;
    case VersionsRetired =>
      RetireEach(t1.versions, p.id, c.now);
      if Current(t1, p) {
        assert Cut(t, digest, c, stage) == t1;
      } else {
        RetireSurvives(t1, digest, late + {p.id}, p.id, c.now);
        assert Cut(t, digest, c, stage) == t1.(versions := Retire(t1.versions, p.id, c.now));
      }
  }

  lemma UntouchedCut(t: Tables, digest: Digest, c: Call, stage: Stage)
    requires Apply(t, digest, c).0 == t
    ensures Cut(t, digest, c, stage) == t
  {
  }

  lemma {:induction false} RunSurvives(digest: Digest, events: seq<Event>)
    requires Injective(digest) && AllAdmissible(digest, events)
    ensures Survives(After(digest, events), digest, Late(digest, events))
  {
    if events != [] {
      var n := |events| - 1;
      assert forall i :: 0 <= i < n ==> events[..n][..i] == events[..i];
      RunSurvives(digest, events[..n]);
      var t, e := After(digest, events[..n]), events[n];
      assert Admissible(t, CallOf(e).op);
      if Apply(t, digest, CallOf(e)).0 == t {
        if e.CutOff? { UntouchedCut(t, digest, e.call, e.stage); }
      } else if e.Whole? {
        WholeSurvives(t, digest, Late(digest, events[..n]), e.call);
      } else {
        CutSurvives(t, digest, Late(digest, events[..n]), e.call, e.stage);
      }
    }
  }

  /** With at most the last active, a reader gets the last in any case. */
  lemma ReaderGetsLast(digest: Digest, vs: seq<Version>)
    requires History(digest, vs) && vs != []
    ensures var active := NewestActive(vs);
            && (if active.Some? then active else Latest(vs)) == Some(vs[|vs| - 1])
            && (active == None <==> vs[|vs| - 1].status == Retired)
  {
    var n := |vs| - 1;
    var keep := (v: Version) => v.status == Active;
    FilterKeepsNone(vs[..n], keep);
    assert vs == vs[..n] + [vs[n]];
    FilterSnoc(vs[..n], vs[n], keep);
    assert [] + [vs[n]] == [vs[n]];
    assert Latest([vs[n]]) == Some(vs[n]);
    LatestOfNumbered(vs);
  }

  /** From an empty store, after any admissible calls each of which may be cut off between any two of its statements:
      versions 1..n without gaps, neighbours different, none but n active, a reader gets n in any case, and n is a
      snapshot of the live rows unless the last call that changed the policy was cut off. */
  lemma HistorySurvives(digest: Digest, events: seq<Event>, p: Policy)
    requires Injective(digest) && AllAdmissible(digest, events) && p in After(digest, events).policies
    ensures var t := After(digest, events);
            var vs := VersionsOf(t, p.id);
            && History(digest, vs)
            && GetActivePolicyVersion(t, p.id) == (if vs == [] then None else Some(vs[|vs| - 1]))
            && (p.id !in Late(digest, events) ==> vs != [] && vs[|vs| - 1].snapshot == Live(t, p))
  {
    RunSurvives(digest, events);
    var vs := VersionsOf(After(digest, events), p.id);
    if vs != [] { ReaderGetsLast(digest, vs); }
  }

  /** After the versions were retired and no new one came, a publish makes a version active exactly when the live rows
      differ from the last snapshot; when they have been changed back none is active, though a reader still gets the
      last one, which is that of the live rows. */
  lemma ActiveAgainExactly(t: Tables, digest: Digest, late: set<string>, p: Policy, versionId: string, now: nat)
    requires Injective(digest) && Survives(t, digest, late) && p in t.policies
    requires NewestActive(VersionsOf(t, p.id)) == None
    ensures var t' := Publish(t, digest, p.id, versionId, now).0;
            && (NewestActive(VersionsOf(t', p.id)) != None <==> !Current(t, p))
            && Current(t', p)
            && GetActivePolicyVersion(t', p.id) == Some(VersionsOf(t', p.id)[|VersionsOf(t', p.id)| - 1])
  {
    var t' := Publish(t, digest, p.id, versionId, now).0;
    PublishSurvives(t, digest, late, p, versionId, now);
    PublishWrites(t, digest, p, versionId, now);
    if !Current(t, p) {
      var live := Live(t, p);
      var row := Version(versionId, p.id, |VersionsOf(t, p.id)| + 1, Active, live, digest(live), None);
      PublishedVersions(t, digest, p.id, row, now, p.id);
    }
    ReaderGetsLast(digest, VersionsOf(t', p.id));
  }

  /** A store with one policy, one rule of it and one version. */
  function Single(p: Policy, rule: Rule, v: Version): Tables { Tables([p], [rule], [v]) }

  lemma SingleReads(p: Policy, rule: Rule, v: Version)
    requires rule.policyId == v.policyId == p.id
    ensures Live(Single(p, rule, v), p) == Snapshot(p, [SnapshotRule(rule.id, rule.fields)])
    ensures VersionsOf(Single(p, rule, v), p.id) == [v] && FindPolicy([p], p.id, None) == Some(p)
  {
    FilterOne(rule, RuleOf(p.id));
    FilterOne(v, OfPolicy(p.id));
    assert Sort([rule], RuleLe) == [rule];
  }

  lemma LatestOfOne(v: Version)
    ensures Latest([v]) == Some(v)
  {
    assert [v][..0] == [];
  }

  lemma RetireOfOne(v: Version, id: string, now: nat)
    ensures Retire([v], id, now) == [RetireOne(v, id, now)]
  {
    assert [v][..0] == [];
    assert [] + [RetireOne(v, id, now)] == [RetireOne(v, id, now)];
  }

  lemma SinglePublish(digest: Digest, p: Policy, rule: Rule, v: Version, versionId: string, now: nat)
    requires rule.policyId == v.policyId == p.id != ""
    ensures var t, live := Single(p, rule, v), Snapshot(p, [SnapshotRule(rule.id, rule.fields)]);
            Publish(t, digest, p.id, versionId, now)
            == (if v.hash == digest(live) then t
                else t.(versions := [RetireOne(v, p.id, now)]
                                    + [Version(versionId, p.id, v.number + 1, Active, live, digest(live), None)]), Done)
  {
    SingleReads(p, rule, v);
    LatestOfOne(v);
    RetireOfOne(v, p.id, now);
  }

  lemma SingleUpdate(digest: Digest, p: Policy, rule: Rule, v: Version, priority: int, event: string, args: RuleArgs,
                     versionId: string, now: nat)
    requires Trim(rule.id) != "" && Trim(args.reason) != "" && Trim(args.matchToolName) != ""
    requires rule.policyId == p.id
    ensures UpdatePolicyRule(Single(p, rule, v), digest, rule.id, priority, event, args, versionId, now)
            == Publish(Single(p, rule.(fields := ToFields(args, priority, event)), v), digest, p.id, versionId, now)
  {
    var f := ToFields(args, priority, event);
    assert SetRule([rule], rule.id, f) == [rule.(fields := f)] by { assert [rule][..0] == []; }
    assert !Duplicates([rule], p.id, rule.id, f);
  }

  /** A rule is added; an update of it is cut off behind the retiring; the update back publishes nothing, and the
      policy is left without an active version. */
  lemma RevertLeavesNoneActive(digest: Digest, a: AddArgs, id: string, ruleId: string, versionIds: (string, string),
                               priority: int, event: string, other: RuleArgs, now: nat)
    requires Injective(digest) && Reasoned(a) && id !in {"", NameOf(a)}
    requires Trim(ruleId) != "" && Trim(other.reason) != "" && Trim(other.matchToolName) != ""
    requires ToFields(other, priority, event) != OneRule(a, id, ruleId, now).fields
    ensures var rule := OneRule(a, id, ruleId, now);
            var add := Call(Add(a, id, ruleId), versionIds.0, now);
            var change := Call(Update(ruleId, priority, event, other), versionIds.1, now);
            var back := Call(Update(ruleId, rule.fields.priority, rule.fields.matchEventType, a.rule), versionIds.1,
                             now);
            var t := Happened(Happened(Happened(Tables([], [], []), digest, Whole(add)), digest,
                                       CutOff(change, VersionsRetired)), digest, Whole(back));
            t.rules == [rule] && NewestActive(VersionsOf(t, id)) == None
  {
    var p, rule := NewPolicy(a, id), OneRule(a, id, ruleId, now);
    var v := OnePolicy(digest, a, id, ruleId, versionIds.0, now).versions[0];
    FirstAdd(digest, a, id, ruleId, versionIds.0, now);
    assert OnePolicy(digest, a, id, ruleId, versionIds.0, now) == Single(p, rule, v);
    CutUpdate(digest, p, rule, v, priority, event, other, versionIds.1, now);
    var changed := rule.(fields := ToFields(other, priority, event));
    UpdateBack(digest, p, changed, rule, RetireOne(v, id, now), rule.fields.priority, rule.fields.matchEventType,
               a.rule, versionIds.1, now);
  }

  lemma CutUpdate(digest: Digest, p: Policy, rule: Rule, v: Version, priority: int, event: string, args: RuleArgs,
                  versionId: string, now: nat)
    requires Trim(rule.id) != "" && Trim(args.reason) != "" && Trim(args.matchToolName) != ""
    requires rule.policyId == v.policyId == p.id != "" && Injective(digest) && v.hash == digest(v.snapshot)
    requires v.snapshot == Snapshot(p, [SnapshotRule(rule.id, rule.fields)])
    requires ToFields(args, priority, event) != rule.fields
    ensures Cut(Single(p, rule, v), digest, Call(Update(rule.id, priority, event, args), versionId, now),
                VersionsRetired)
            == Single(p, rule.(fields := ToFields(args, priority, event)), RetireOne(v, p.id, now))
  {
    var changed := rule.(fields := ToFields(args, priority, event));
    SingleUpdate(digest, p, rule, v, priority, event, args, versionId, now);
    SinglePublish(digest, p, changed, v, versionId, now);
    assert v.snapshot.rules[0] != SnapshotRule(rule.id, changed.fields);
  }

  lemma UpdateBack(digest: Digest, p: Policy, changed: Rule, rule: Rule, v: Version, priority: int, event: string,
                   args: RuleArgs, versionId: string, now: nat)
    requires Trim(rule.id) != "" && Trim(args.reason) != "" && Trim(args.matchToolName) != ""
    requires rule.policyId == v.policyId == p.id != "" && v.hash == digest(v.snapshot) && v.status == Retired
    requires v.snapshot == Snapshot(p, [SnapshotRule(rule.id, rule.fields)])
    requires rule == changed.(fields := ToFields(args, priority, event))
    ensures var back := Call(Update(rule.id, priority, event, args), versionId, now);
            var t := Apply(Single(p, changed, v), digest, back).0;
            t == Single(p, rule, v) && NewestActive(VersionsOf(t, p.id)) == None
  {
    SingleUpdate(digest, p, changed, v, priority, event, args, versionId, now);
    SinglePublish(digest, p, rule, v, versionId, now);
    SingleReads(p, rule, v);
    FilterOne(v, (x: Version) => x.status == Active);
  }
}
