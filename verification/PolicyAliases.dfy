/**
  Looking a policy up by id or name (packages/db/src/policies.ts): which row is
  found, and what happens when a policy's name is another policy's id.
*/
module PolicyAliases {
  import opened Collections
  import opened PolicyTables
  import opened PolicyVersions
  import opened Text

  predicate Identifies(p: Policy, identifier: string, projectId: Option<string>) {
    identifier in {p.id, p.name} && (projectId.None? || p.projectId == projectId.value)
  }

  /** The lookup answers with the row at `k` exactly when that is the first row the identifier fits, and with
      nothing exactly when it fits none. */
  lemma {:induction false} FindPolicyFirst(policies: seq<Policy>, identifier: string, projectId: Option<string>)
    ensures var r := FindPolicy(policies, identifier, projectId);
            && (r.None? <==> forall i :: 0 <= i < |policies| ==> !Identifies(policies[i], identifier, projectId))
            && (r.Some? ==> exists k :: 0 <= k < |policies| && r.value == policies[k]
                              && Identifies(policies[k], identifier, projectId)
                              && forall i :: 0 <= i < k ==> !Identifies(policies[i], identifier, projectId))
  {
    if policies != [] && !Identifies(policies[0], identifier, projectId) {
      var rest := policies[1..];
      FindPolicyFirst(rest, identifier, projectId);
      assert forall i :: 0 <= i < |rest| ==> rest[i] == policies[i + 1];
      if r :| FindPolicy(rest, identifier, projectId) == Some(r) {
        var k :| 0 <= k < |rest| && r == rest[k] && Identifies(rest[k], identifier, projectId)
                 && forall i :: 0 <= i < k ==> !Identifies(rest[i], identifier, projectId);
        assert policies[k + 1] == r;
        forall i | 0 <= i < k + 1 ensures !Identifies(policies[i], identifier, projectId) {
          if i > 0 { assert policies[i] == rest[i - 1]; }
        }
      } else {
        forall i | 0 <= i < |policies| ensures !Identifies(policies[i], identifier, projectId) {
          if i > 0 { assert policies[i] == rest[i - 1]; }
        }
      }
    }
  }

  /** Looking a policy up by its id finds it exactly when no row before it is named after that id. */
  lemma {:induction false} FindByIdExactly(policies: seq<Policy>, k: nat)
    requires k < |policies| && forall i, j :: 0 <= i < j < |policies| ==> policies[i].id != policies[j].id
    ensures FindPolicy(policies, policies[k].id, None) == Some(policies[k])
            <==> forall i :: 0 <= i < k ==> policies[i].name != policies[k].id
  {
    if k > 0 && policies[0].name != policies[k].id {
      var rest := policies[1..];
      assert rest[k - 1] == policies[k];
      FindByIdExactly(rest, k - 1);
      if forall i :: 0 <= i < k ==> policies[i].name != policies[k].id {
        forall i | 0 <= i < k - 1 ensures rest[i].name != policies[k].id { assert rest[i] == policies[i + 1]; }
      } else {
        var i :| 0 <= i < k && policies[i].name == policies[k].id;
        assert rest[i - 1].name == policies[k].id;
      }
    }
  }

  /** SQLite promises no order without ORDER BY: the lookup may give any row that fits. */
  predicate MayFind(policies: seq<Policy>, identifier: string, p: Policy) {
    p in policies && Identifies(p, identifier, None)
  }

  /** Whichever row the database gives, a policy is found by its id exactly when no other policy has it as its name. */
  lemma LookupSureExactly(policies: seq<Policy>, p: Policy)
    requires p in policies && forall q :: q in policies && q.id == p.id ==> q == p
    ensures (forall q :: MayFind(policies, p.id, q) ==> q == p)
            <==> forall q :: q in policies && q.name == p.id ==> q == p
  {
    if q :| q in policies && q.name == p.id && q != p { assert MayFind(policies, p.id, q); }
  }

  /** A publish that was given another policy leaves the history of the one that changed as it was. */
  lemma AliasStealsPublish(t: Tables, digest: Digest, id: string, other: Policy, versionId: string, now: nat)
    requires MayFind(t.policies, id, other) && other.id != id
    ensures VersionsOf(PublishFound(t, digest, other, versionId, now), id) == VersionsOf(t, id)
  {
    var t' := PublishFound(t, digest, other, versionId, now);
    if t'.versions != t.versions {
      var row := t'.versions[|t'.versions| - 1];
      PublishedVersions(t, digest, other.id, row, now, id);
    }
  }

  predicate Reasoned(a: AddArgs) { Trim(a.rule.reason) != "" && Trim(a.rule.matchToolName) != "" }

  function NameOf(a: AddArgs): string { a.policyName.GetOr(DEFAULT_POLICY_NAME) }

  function OneRule(a: AddArgs, id: string, ruleId: string, now: nat): Rule {
    Rule(ruleId, id, now, ToFields(a.rule, a.priority.GetOr(100), a.matchEventType.GetOr("PreToolUse")))
  }

  /** The store after one call that makes a policy. */
  function OnePolicy(digest: Digest, a: AddArgs, id: string, ruleId: string, versionId: string, now: nat): Tables {
    var p, rule := NewPolicy(a, id), OneRule(a, id, ruleId, now);
    var live := Snapshot(p, SnapshotRules([rule]));
    Tables([p], [rule], [Version(versionId, id, 1, Active, live, digest(live), None)])
  }

  lemma FilterOne<T>(x: T, keep: T -> bool)
    ensures Filter([x], keep) == if keep(x) then [x] else []
  {
    FilterSnoc([], x, keep);
    assert [] + [x] == [x];
  }

  lemma FirstLive(digest: Digest, a: AddArgs, id: string, ruleId: string, versionId: string, now: nat)
    ensures var one := OnePolicy(digest, a, id, ruleId, versionId, now);
            Live(one.(versions := []), NewPolicy(a, id)) == Live(one, NewPolicy(a, id)) == one.versions[0].snapshot
  {
    var rule := OneRule(a, id, ruleId, now);
    FilterOne(rule, RuleOf(id));
    assert Sort([rule], RuleLe) == [rule];
  }

  lemma FirstAdd(digest: Digest, a: AddArgs, id: string, ruleId: string, versionId: string, now: nat)
    requires Reasoned(a) && id !in {"", NameOf(a)}
    ensures AddPolicyRule(Tables([], [], []), digest, a, id, ruleId, versionId, now)
            == (OnePolicy(digest, a, id, ruleId, versionId, now), Done)
  {
    var p, rule := NewPolicy(a, id), OneRule(a, id, ruleId, now);
    var one := OnePolicy(digest, a, id, ruleId, versionId, now);
    FirstLive(digest, a, id, ruleId, versionId, now);
    var t := one.(versions := []);
    assert FindPolicy(t.policies, id, None) == Some(p);
    assert Latest(VersionsOf(t, id)) == None;
    assert Retire([], id, now) + [one.versions[0]] == one.versions;
    assert Publish(t, digest, id, versionId, now) == (one, Done);
    assert [] + [p] == [p] && [] + [rule] == [rule];
  }

  /** The store after a second call that makes another policy. */
  function TwoPolicies(digest: Digest, one: Tables, b: AddArgs, id: string, ruleId: string, versionId: string, now: nat)
    : Tables
  {
    var two := OnePolicy(digest, b, id, ruleId, versionId, now);
    Tables(one.policies + two.policies, one.rules + two.rules, one.versions + two.versions)
  }

  /** The second policy's id is nobody's name or id, so it is published itself, whatever its name. */
  lemma SecondAdd(digest: Digest, one: Tables, p: Policy, b: AddArgs, id: string, ruleId: string, versionId: string,
                  now: nat)
    requires Reasoned(b) && one.policies == [p] && |one.rules| == |one.versions| == 1
    requires id !in {"", NameOf(b), p.id, p.name} && p.name != NameOf(b)
    requires one.rules[0].policyId == one.versions[0].policyId == p.id
    ensures AddPolicyRule(one, digest, b, id, ruleId, versionId, now)
            == (TwoPolicies(digest, one, b, id, ruleId, versionId, now), Done)
  {
    var q, rule := NewPolicy(b, id), OneRule(b, id, ruleId, now);
    assert FindByName(one.policies[1..], b.projectId, NameOf(b)) == None;
    assert one.rules == [one.rules[0]] && one.versions == [one.versions[0]];
    FilterOne(one.rules[0], RuleOf(id));
    var t := one.(policies := one.policies + [q], rules := one.rules + [rule]);
    SecondPublish(digest, t, p, q, rule, versionId, now);
    assert AddPolicyRule(one, digest, b, id, ruleId, versionId, now) == Publish(t, digest, id, versionId, now);
    FirstLive(digest, b, id, ruleId, versionId, now);
    assert OnePolicy(digest, b, id, ruleId, versionId, now).versions[0].snapshot
        == Snapshot(q, [SnapshotRule(rule.id, rule.fields)]);
  }

  lemma SecondPublish(digest: Digest, t: Tables, p: Policy, q: Policy, rule: Rule, versionId: string, now: nat)
    requires t.policies == [p, q] && |t.rules| == 2 && t.rules[1] == rule && |t.versions| == 1
    requires q.id !in {"", p.id, p.name} && rule.policyId == q.id
    requires t.rules[0].policyId == t.versions[0].policyId == p.id
    ensures var live := Snapshot(q, [SnapshotRule(rule.id, rule.fields)]);
            Publish(t, digest, q.id, versionId, now)
            == (t.(versions := t.versions + [Version(versionId, q.id, 1, Active, live, digest(live), None)]), Done)
  {
    FindsSecond(p, q);
    LiveOfSecond(t, q, rule);
    NoVersionsYet(t, q.id, now);
    assert Publish(t, digest, q.id, versionId, now) == (PublishFound(t, digest, q, versionId, now), Done);
  }

  lemma FindsSecond(p: Policy, q: Policy)
    requires q.id !in {p.id, p.name}
    ensures FindPolicy([p, q], q.id, None) == Some(q)
  {
    assert [p, q][1..] == [q];
  }

  lemma LiveOfSecond(t: Tables, q: Policy, rule: Rule)
    requires |t.rules| == 2 && t.rules[1] == rule && rule.policyId == q.id && t.rules[0].policyId != q.id
    ensures Live(t, q) == Snapshot(q, [SnapshotRule(rule.id, rule.fields)])
  {
    assert t.rules == [t.rules[0]] + [rule];
    FilterOne(t.rules[0], RuleOf(q.id));
    FilterSnoc([t.rules[0]], rule, RuleOf(q.id));
    assert [] + [rule] == [rule] && Sort([rule], RuleLe) == [rule];
  }

  lemma NoVersionsYet(t: Tables, id: string, now: nat)
    requires |t.versions| == 1 && t.versions[0].policyId != id
    ensures VersionsOf(t, id) == [] && Latest(VersionsOf(t, id)) == None && Retire(t.versions, id, now) == t.versions
  {
    assert t.versions == [t.versions[0]];
    FilterOne(t.versions[0], OfPolicy(id));
    RetireOthers(t.versions, id, now);
  }

  /** Naming a policy after the id of another is enough. Two calls make the two policies, each with its version; then
      the first one's rule is changed, and the publish may be given the second policy: the first one is stale. */
  lemma NameAloneSteals(digest: Digest, a: AddArgs, b: AddArgs, ids: (string, string), ruleIds: (string, string),
                        versionIds: (string, string), f: RuleFields, now: nat)
    requires Reasoned(a) && Reasoned(b) && ruleIds.0 != ruleIds.1
    requires ids.0 !in {"", NameOf(a)} && NameOf(b) == ids.0 && ids.1 !in {"", NameOf(a), ids.0}
    requires f != OneRule(a, ids.0, ruleIds.0, now).fields
    ensures var p, q := NewPolicy(a, ids.0), NewPolicy(b, ids.1);
            var t := Run(digest, [Call(Add(a, ids.0, ruleIds.0), versionIds.0, now),
                                  Call(Add(b, ids.1, ruleIds.1), versionIds.1, now)]);
            var changed := t.(rules := SetRule(t.rules, ruleIds.0, f));
            && p in t.policies && Current(t, p)
            && MayFind(changed.policies, p.id, q)
            && !Current(PublishFound(changed, digest, q, versionIds.1, now), p)
  {
    var p, q := NewPolicy(a, ids.0), NewPolicy(b, ids.1);
    var one := OnePolicy(digest, a, ids.0, ruleIds.0, versionIds.0, now);
    var two := TwoPolicies(digest, one, b, ids.1, ruleIds.1, versionIds.1, now);
    FirstAdd(digest, a, ids.0, ruleIds.0, versionIds.0, now);
    FirstLive(digest, a, ids.0, ruleIds.0, versionIds.0, now);
    SecondAdd(digest, one, p, b, ids.1, ruleIds.1, versionIds.1, now);
    RunOfTwo(digest, Call(Add(a, ids.0, ruleIds.0), versionIds.0, now), one,
             Call(Add(b, ids.1, ruleIds.1), versionIds.1, now), two);
    StolenFrom(digest, two, p, q, one.rules[0], f, one.versions[0], now, versionIds.1);
  }

  lemma RunOfTwo(digest: Digest, a: Call, one: Tables, b: Call, two: Tables)
    requires Apply(Tables([], [], []), digest, a).0 == one && Apply(one, digest, b).0 == two
    ensures Run(digest, [a, b]) == two
  {
    assert [a, b][..1] == [a] && [a][..0] == [];
    assert Run(digest, [a]) == one;
  }

  lemma StolenFrom(digest: Digest, t: Tables, p: Policy, q: Policy, rule: Rule, f: RuleFields, v: Version, now: nat,
                   versionId: string)
    requires t.policies == [p, q] && |t.rules| == |t.versions| == 2 && t.rules[0] == rule && t.versions[0] == v
    requires q.name == p.id != q.id && rule.policyId == v.policyId == p.id && f != rule.fields
    requires t.rules[1].policyId == t.versions[1].policyId == q.id && t.rules[1].id != rule.id
    requires v.snapshot == Snapshot(p, [SnapshotRule(rule.id, rule.fields)])
    ensures var changed := t.(rules := SetRule(t.rules, rule.id, f));
            && Current(t, p) && MayFind(changed.policies, p.id, q)
            && !Current(PublishFound(changed, digest, q, versionId, now), p)
  {
    var changed := t.(rules := SetRule(t.rules, rule.id, f));
    SetRuleEach(t.rules, rule.id, f);
    var r := rule.(fields := f);
    assert changed.rules == [r, t.rules[1]] && t.rules == [rule, t.rules[1]] && t.versions == [v, t.versions[1]];
    LiveOfFirst(t, p, rule);
    LiveOfFirst(changed, p, r);
    FilterFirst(v, t.versions[1], OfPolicy(p.id));
    assert q in changed.policies;
    AliasStealsPublish(changed, digest, p.id, q, versionId, now);
    assert SnapshotRule(rule.id, rule.fields) != SnapshotRule(r.id, r.fields);
    var after := PublishFound(changed, digest, q, versionId, now);
    assert Live(after, p) == Live(changed, p) != v.snapshot by {
      assert Live(changed, p).rules[0] != v.snapshot.rules[0];
    }
  }

  lemma FilterFirst<T>(x: T, y: T, keep: T -> bool)
    requires keep(x) && !keep(y)
    ensures Filter([x, y], keep) == [x]
  {
    FilterOne(x, keep);
    FilterSnoc([x], y, keep);
    assert [x] + [y] == [x, y];
  }

  lemma LiveOfFirst(t: Tables, p: Policy, rule: Rule)
    requires |t.rules| == 2 && t.rules[0] == rule && rule.policyId == p.id && t.rules[1].policyId != p.id
    ensures Live(t, p) == Snapshot(p, [SnapshotRule(rule.id, rule.fields)])
  {
    FilterFirst(rule, t.rules[1], RuleOf(p.id));
    assert t.rules == [rule, t.rules[1]];
    assert Sort([rule], RuleLe) == [rule];
  }
}
