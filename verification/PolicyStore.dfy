/**
  The policy store (packages/db/src/policies.ts): the mutators as they update
  the three tables in place, statement by statement.
*/
module PolicyStore {
  import opened Collections
  import opened Text
  import opened PolicyTables
  import opened PolicyVersions

  class Store {
    const digest: Digest
    var policies: seq<Policy>
    var rules: seq<Rule>
    var versions: seq<Version>

    ghost function Contents(): Tables
      reads this
    {
      Tables(policies, rules, versions)
    }

    ghost predicate Valid()
      reads this
    {
      Injective(digest) && Inv(Contents(), digest)
    }

    constructor (digest: Digest)
      requires Injective(digest)
      ensures Valid() && Contents() == Tables([], [], []) && this.digest == digest
    {
      this.digest := digest;
      policies, rules, versions := [], [], [];
    }

    method PublishPolicyVersion(policyId: string, versionId: string, now: nat) returns (o: Outcome)
      modifies this`versions
      ensures (Contents(), o) == Publish(old(Contents()), digest, policyId, versionId, now)
    {
      var found := if policyId == "" then None else FindPolicy(policies, policyId, None);
      if found.None? { return Threw; }
      var policy := found.value;
      var own := Sort(Filter(rules, RuleOf(policy.id)), RuleLe);
      var snapshot := Snapshot(policy, SnapshotRules(own));
      var snapshotHash := digest(snapshot);
      var latest := Latest(Filter(versions, OfPolicy(policy.id)));
      if latest.Some? && latest.value.hash == snapshotHash { return Done; }
      versions := Retire(versions, policy.id, now);
      var number := if latest.Some? then latest.value.number + 1 else 1;
      versions := versions + [Version(versionId, policy.id, number, Active, snapshot, snapshotHash, None)];
      o := Done;
    }

    method AddRule(a: AddArgs, policyId: string, ruleId: string, versionId: string, now: nat) returns (o: Outcome)
      requires Valid() && Admissible(Contents(), Add(a, policyId, ruleId))
      modifies this
      ensures Valid()
      ensures (Contents(), o) == AddPolicyRule(old(Contents()), digest, a, policyId, ruleId, versionId, now)
    {
      ghost var before := Contents();
      AddInv(before, digest, Call(Add(a, policyId, ruleId), versionId, now));
      if Trim(a.rule.reason) == "" || Trim(a.rule.matchToolName) == "" { return Threw; }
      var existing := FindByName(policies, a.projectId, a.policyName.GetOr(DEFAULT_POLICY_NAME));
      var id := policyId;
      if existing.Some? {
        id := existing.value.id;
      } else {
        policies := policies + [NewPolicy(a, policyId)];
      }
      var priority := a.priority.GetOr(NextPriority(Filter(rules, RuleOf(id))));
      var fields := ToFields(a.rule, priority, a.matchEventType.GetOr("PreToolUse"));
      if Duplicates(rules, id, ruleId, fields) { return Threw; }
      rules := rules + [Rule(ruleId, id, now, fields)];
      o := PublishPolicyVersion(id, versionId, now);
    }

    method UpdateRule(ruleId: string, priority: int, matchEventType: string, args: RuleArgs,
                      versionId: string, now: nat) returns (o: Outcome)
      requires Valid()
      modifies this
      ensures Valid()
      ensures (Contents(), o)
              == UpdatePolicyRule(old(Contents()), digest, ruleId, priority, matchEventType, args, versionId, now)
    {
      UpdateInv(Contents(), digest, Call(Update(ruleId, priority, matchEventType, args), versionId, now));
      if Trim(ruleId) == "" || Trim(args.reason) == "" || Trim(args.matchToolName) == "" { return Threw; }
      var existing := FindRule(rules, ruleId);
      if existing.None? { return Missing; }
      var id := existing.value.policyId;
      var fields := ToFields(args, priority, matchEventType);
      if Duplicates(rules, id, ruleId, fields) { return Threw; }
      rules := SetRule(rules, ruleId, fields);
      o := PublishPolicyVersion(id, versionId, now);
    }

    method DeleteRule(ruleId: string, versionId: string, now: nat) returns (o: Outcome)
      requires Valid()
      modifies this
      ensures Valid()
      ensures (Contents(), o) == DeletePolicyRule(old(Contents()), digest, ruleId, versionId, now)
    {
      DeleteInv(Contents(), digest, Call(Delete(ruleId), versionId, now));
      if ruleId == "" { return Missing; }
      var existing := FindRule(rules, ruleId);
      if existing.None? { return Missing; }
      rules := Filter(rules, NotRule(ruleId));
      o := PublishPolicyVersion(existing.value.policyId, versionId, now);
    }

    method SetPolicyActivity(identifier: string, active: bool, projectId: Option<string>,
                             versionId: string, now: nat) returns (o: Outcome)
      requires Valid()
      modifies this
      ensures Valid()
      ensures (Contents(), o)
              == SetPolicyActive(old(Contents()), digest, identifier, active, projectId, versionId, now)
    {
      EnableInv(Contents(), digest, Call(Enable(identifier, active, projectId), versionId, now));
      var found := FindPolicy(policies, identifier, projectId);
      if found.None? { return Missing; }
      if found.value.isActive == active { return Done; }
      policies := SetActive(policies, found.value.id, active);
      o := PublishPolicyVersion(found.value.id, versionId, now);
    }
  }
}
