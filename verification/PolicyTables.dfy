/**
  The policy, rule and version tables and the four mutators that republish a
  snapshot (packages/db/src/policies.ts). Fresh ids and the time of a call are
  parameters; `digest` stands for sha256 of the JSON text of a snapshot.
*/
module PolicyTables {
  import opened Collections
  import opened Text

  const DEFAULT_POLICY_NAME := "__default__"

  datatype Decision = Allow | Deny | Ask
  datatype Verdict = PassVerdict | Record | Advise | Warn | Confirm | Escalate | Block
  datatype EnforcementMode = Detective | Advisory | Approval | Preventive | Disabled

  datatype Policy = Policy(id: string, orgId: Option<string>, projectId: string, name: string,
                           description: Option<string>, groupKey: string, profile: string,
                           enforcementMode: string, denyOnPolicyError: bool, isActive: bool)

  /** The user-meaningful columns of a rule, all of them part of a snapshot. */
  datatype RuleFields = RuleFields(
    priority: int, matchEventType: string, matchToolName: string, matchPathGlob: Option<string>,
    matchCommandPattern: Option<string>, matchAgentType: Option<string>, decision: Decision,
    enforcementDecision: Option<Decision>, governanceVerdict: Option<Verdict>,
    enforcementMode: Option<EnforcementMode>, requiredCapability: Option<string>,
    excludedCapability: Option<string>, reason: string, controlKey: Option<string>,
    ruleType: string, severity: string, details: Option<string>)

  datatype Rule = Rule(id: string, policyId: string, createdAt: nat, fields: RuleFields)

  datatype SnapshotRule = SnapshotRule(id: string, fields: RuleFields)
  datatype Snapshot = Snapshot(policy: Policy, rules: seq<SnapshotRule>)

  datatype VersionStatus = Active | Retired
  datatype Version = Version(id: string, policyId: string, number: nat, status: VersionStatus,
                             snapshot: Snapshot, hash: string, retiredAt: Option<nat>)

  datatype Tables = Tables(policies: seq<Policy>, rules: seq<Rule>, versions: seq<Version>)

  type Digest = Snapshot -> string

  // ---------------------------------------------------------------- reads

  function OfPolicy(policyId: string): Version -> bool { (v: Version) => v.policyId == policyId }

  function RuleOf(policyId: string): Rule -> bool { (r: Rule) => r.policyId == policyId }

  function VersionsOf(t: Tables, policyId: string): seq<Version> { Filter(t.versions, OfPolicy(policyId)) }

  /** ORDER BY priority, created_at. */
  predicate RuleLe(a: Rule, b: Rule) {
    a.fields.priority < b.fields.priority
    || (a.fields.priority == b.fields.priority && a.createdAt <= b.createdAt)
  }

  function SnapshotRules(rules: seq<Rule>): seq<SnapshotRule> {
    seq(|rules|, i requires 0 <= i < |rules| => SnapshotRule(rules[i].id, rules[i].fields))
  }

  /** What a policy and its rules look like now. */
  function Live(t: Tables, p: Policy): Snapshot {
    Snapshot(p, SnapshotRules(Sort(Filter(t.rules, RuleOf(p.id)), RuleLe)))
  }

  /** The first policy in table order whose id or name is the identifier, in the project when one is given. */
  function FindPolicy(policies: seq<Policy>, identifier: string, projectId: Option<string>): (r: Option<Policy>)
    ensures r.Some? ==> r.value in policies && identifier in {r.value.id, r.value.name}
  {
    if policies == [] then None
    else if (policies[0].id == identifier || policies[0].name == identifier)
            && (projectId.None? || policies[0].projectId == projectId.value)
    then Some(policies[0])
    else FindPolicy(policies[1..], identifier, projectId)
  }

  function FindByName(policies: seq<Policy>, projectId: string, name: string): (r: Option<Policy>)
    ensures r.Some? ==> r.value in policies && r.value.projectId == projectId && r.value.name == name
  {
    if policies == [] then None
    else if policies[0].projectId == projectId && policies[0].name == name then Some(policies[0])
    else FindByName(policies[1..], projectId, name)
  }

  function FindRule(rules: seq<Rule>, ruleId: string): (r: Option<Rule>)
    ensures r.Some? ==> r.value in rules && r.value.id == ruleId
    ensures r.None? ==> forall x :: x in rules ==> x.id != ruleId
  {
    if rules == [] then None else if rules[0].id == ruleId then Some(rules[0]) else FindRule(rules[1..], ruleId)
  }

  /** ORDER BY version_number DESC LIMIT 1. */
  function Latest(versions: seq<Version>): Option<Version> {
    if versions == [] then None
    else
      var best, v := Latest(versions[..|versions| - 1]), versions[|versions| - 1];
      if best.Some? && best.value.number >= v.number then best else Some(v)
  }

  /** getActivePolicyVersion: newest first, the first active one, else the newest. */
  function NewestActive(versions: seq<Version>): Option<Version> {
    Latest(Filter(versions, (v: Version) => v.status == Active))
  }

  function GetActivePolicyVersion(t: Tables, policyId: string): Option<Version> {
    var versions := VersionsOf(t, policyId);
    var active := NewestActive(versions);
    if active.Some? then active else Latest(versions)
  }

  // -------------------------------------------------------------- publish

  function RetireOne(v: Version, policyId: string, now: nat): Version {
    if v.policyId == policyId then v.(status := Retired, retiredAt := Some(now)) else v
  }

  /** UPDATE policy_versions SET status = 'retired' WHERE policy_id = ?: every version of the policy. */
  function Retire(versions: seq<Version>, policyId: string, now: nat): seq<Version> {
    if versions == [] then []
    else Retire(versions[..|versions| - 1], policyId, now) + [RetireOne(versions[|versions| - 1], policyId, now)]
  }

  datatype Outcome = Done | Missing | Threw

  /** publishPolicyVersion once its lookup has found a policy. */
  function PublishFound(t: Tables, digest: Digest, policy: Policy, versionId: string, now: nat): Tables {
    var snapshot := Live(t, policy);
    var latest := Latest(VersionsOf(t, policy.id));
    if latest.Some? && latest.value.hash == digest(snapshot) then t
    else
      var number := if latest.Some? then latest.value.number + 1 else 1;
      var row := Version(versionId, policy.id, number, Active, snapshot, digest(snapshot), None);
      t.(versions := Retire(t.versions, policy.id, now) + [row])
  }

  /** publishPolicyVersion. */
  function Publish(t: Tables, digest: Digest, policyId: string, versionId: string, now: nat): (Tables, Outcome) {
    var found := if policyId == "" then None else FindPolicy(t.policies, policyId, None);
    if found.None? then (t, Threw) else (PublishFound(t, digest, found.value, versionId, now), Done)
  }

  // ------------------------------------------------------------- mutators

  function DefaultVerdict(d: Decision): Verdict {
    match d case Deny => Block case Ask => Confirm case Allow => PassVerdict
  }

  function DefaultMode(d: Decision): EnforcementMode {
    match d case Deny => Preventive case Ask => Approval case Allow => Detective
  }

  datatype RuleArgs = RuleArgs(
    matchPathGlob: Option<string>, matchCommandPattern: Option<string>, matchAgentType: Option<string>,
    matchToolName: string, decision: Decision, enforcementDecision: Option<Decision>,
    governanceVerdict: Option<Verdict>, ruleEnforcementMode: Option<EnforcementMode>,
    requiredCapability: Option<string>, excludedCapability: Option<string>, reason: string,
    controlKey: Option<string>, ruleType: Option<string>, severity: Option<string>, details: Option<string>)

  /** The stored columns, absent arguments taking their defaults. */
  function ToFields(a: RuleArgs, priority: int, matchEventType: string): RuleFields {
    RuleFields(priority, matchEventType, a.matchToolName, a.matchPathGlob, a.matchCommandPattern,
               Some(a.matchAgentType.GetOr("*")), a.decision, Some(a.enforcementDecision.GetOr(a.decision)),
               Some(a.governanceVerdict.GetOr(DefaultVerdict(a.decision))),
               Some(a.ruleEnforcementMode.GetOr(DefaultMode(a.decision))),
               a.requiredCapability, a.excludedCapability, a.reason, a.controlKey,
               a.ruleType.GetOr("tool_call"), a.severity.GetOr("medium"), a.details)
  }

  datatype AddArgs = AddArgs(
    projectId: string, policyName: Option<string>, policyDescription: Option<string>, groupKey: Option<string>,
    profile: Option<string>, enforcementMode: Option<string>, denyOnPolicyError: Option<bool>,
    priority: Option<int>, matchEventType: Option<string>, rule: RuleArgs)

  function NewPolicy(a: AddArgs, id: string): Policy {
    var name := a.policyName.GetOr(DEFAULT_POLICY_NAME);
    Policy(id, None, a.projectId, name,
           Some(a.policyDescription.GetOr(
                  "Auto-created by addPolicyRule (no '" + name + "' policy existed for project)")),
           a.groupKey.GetOr(if name == DEFAULT_POLICY_NAME then "agent_guardrails" else "custom"),
           a.profile.GetOr("default"), a.enforcementMode.GetOr("detective"),
           a.denyOnPolicyError.GetOr(false), true)
  }

  function MaxPriority(rules: seq<Rule>): int
    requires rules != []
  {
    var p := rules[|rules| - 1].fields.priority;
    if |rules| == 1 then p
    else var m := MaxPriority(rules[..|rules| - 1]); if m >= p then m else p
  }

  function NextPriority(rules: seq<Rule>): int {
    if rules == [] then 100 else MaxPriority(rules) + 10
  }

  /** The unique index over (policy, priority, event, tool, glob); a NULL glob never collides. */
  predicate Duplicates(rules: seq<Rule>, policyId: string, ruleId: string, f: RuleFields) {
    f.matchPathGlob.Some? &&
    exists i :: 0 <= i < |rules| && rules[i].policyId == policyId && rules[i].id != ruleId
                && rules[i].fields.priority == f.priority && rules[i].fields.matchEventType == f.matchEventType
                && rules[i].fields.matchToolName == f.matchToolName
                && rules[i].fields.matchPathGlob == f.matchPathGlob
  }

  /** addPolicyRule. A policy created here has no rules, so a refused rule leaves the tables alone. */
  function AddPolicyRule(t: Tables, digest: Digest, a: AddArgs, policyId: string, ruleId: string,
                         versionId: string, now: nat): (Tables, Outcome)
  {
    if Trim(a.rule.reason) == "" || Trim(a.rule.matchToolName) == "" then (t, Threw)
    else
      var existing := FindByName(t.policies, a.projectId, a.policyName.GetOr(DEFAULT_POLICY_NAME));
      var id := if existing.Some? then existing.value.id else policyId;
      var policies := if existing.Some? then t.policies else t.policies + [NewPolicy(a, policyId)];
      var priority := a.priority.GetOr(NextPriority(Filter(t.rules, RuleOf(id))));
      var fields := ToFields(a.rule, priority, a.matchEventType.GetOr("PreToolUse"));
      if Duplicates(t.rules, id, ruleId, fields) then (t.(policies := policies), Threw)
      else Publish(t.(policies := policies, rules := t.rules + [Rule(ruleId, id, now, fields)]),
                   digest, id, versionId, now)
  }

  function SetRule(rules: seq<Rule>, ruleId: string, f: RuleFields): seq<Rule> {
    if rules == [] then []
    else
      var r := rules[|rules| - 1];
      SetRule(rules[..|rules| - 1], ruleId, f) + [if r.id == ruleId then r.(fields := f) else r]
  }

  /** updatePolicyRule. */
  function UpdatePolicyRule(t: Tables, digest: Digest, ruleId: string, priority: int, matchEventType: string,
                            args: RuleArgs, versionId: string, now: nat): (Tables, Outcome)
  {
    if Trim(ruleId) == "" || Trim(args.reason) == "" || Trim(args.matchToolName) == "" then (t, Threw)
    else
      var existing := FindRule(t.rules, ruleId);
      if existing.None? then (t, Missing)
      else
        var id := existing.value.policyId;
        var fields := ToFields(args, priority, matchEventType);
        if Duplicates(t.rules, id, ruleId, fields) then (t, Threw)
        else Publish(t.(rules := SetRule(t.rules, ruleId, fields)), digest, id, versionId, now)
  }

  function NotRule(ruleId: string): Rule -> bool { (r: Rule) => r.id != ruleId }

  /** deletePolicyRule. */
  function DeletePolicyRule(t: Tables, digest: Digest, ruleId: string, versionId: string, now: nat): (Tables, Outcome) {
    var existing := FindRule(t.rules, ruleId);
    if ruleId == "" || existing.None? then (t, Missing)
    else Publish(t.(rules := Filter(t.rules, NotRule(ruleId))), digest, existing.value.policyId, versionId, now)
  }

  function SetActive(policies: seq<Policy>, id: string, active: bool): seq<Policy> {
    if policies == [] then []
    else
      var p := policies[|policies| - 1];
      SetActive(policies[..|policies| - 1], id, active) + [if p.id == id then p.(isActive := active) else p]
  }

  /** setPolicyActive. */
  function SetPolicyActive(t: Tables, digest: Digest, identifier: string, active: bool, projectId: Option<string>,
                           versionId: string, now: nat): (Tables, Outcome)
  {
    var found := FindPolicy(t.policies, identifier, projectId);
    if found.None? then (t, Missing)
    else if found.value.isActive == active then (t, Done)
    else Publish(t.(policies := SetActive(t.policies, found.value.id, active)), digest, found.value.id, versionId, now)
  }
}
