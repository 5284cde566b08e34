/**
  What one call of the policy store does (packages/db/src/policies.ts), said of
  the rows before and after it: which calls are refused, which columns are
  stored, what a snapshot shows and which version a reader gets.
*/
module PolicyEffects {
  import opened Collections
  import opened PolicyTables
  import opened PolicyVersions
  import opened Text

  // --------------------------------------------------------- stored columns

  /** A rule's columns against the arguments they were stored from: what is given is stored, and what is left out is
      null or has its default. */
  predicate Stores(f: RuleFields, a: RuleArgs) {
    && f.matchToolName == a.matchToolName && f.decision == a.decision && f.reason == a.reason
    && f.matchPathGlob == a.matchPathGlob && f.matchCommandPattern == a.matchCommandPattern
    && f.requiredCapability == a.requiredCapability && f.excludedCapability == a.excludedCapability
    && f.controlKey == a.controlKey && f.details == a.details
    && f.matchAgentType == (if a.matchAgentType == None then Some("*") else a.matchAgentType)
    && f.enforcementDecision == (if a.enforcementDecision == None then Some(a.decision) else a.enforcementDecision)
    && StoresVerdict(f, a) && StoresMode(f, a)
    && Some(f.ruleType) == (if a.ruleType == None then Some("tool_call") else a.ruleType)
    && Some(f.severity) == (if a.severity == None then Some("medium") else a.severity)
  }

  /** A denial blocks, a question asks for confirmation, an allowance passes, unless the caller says otherwise. */
  predicate StoresVerdict(f: RuleFields, a: RuleArgs) {
    if a.governanceVerdict != None then f.governanceVerdict == a.governanceVerdict
    else
      && (a.decision == Deny ==> f.governanceVerdict == Some(Block))
      && (a.decision == Ask ==> f.governanceVerdict == Some(Confirm))
      && (a.decision == Allow ==> f.governanceVerdict == Some(PassVerdict))
  }

  predicate StoresMode(f: RuleFields, a: RuleArgs) {
    if a.ruleEnforcementMode != None then f.enforcementMode == a.ruleEnforcementMode
    else
      && (a.decision == Deny ==> f.enforcementMode == Some(Preventive))
      && (a.decision == Ask ==> f.enforcementMode == Some(Approval))
      && (a.decision == Allow ==> f.enforcementMode == Some(Detective))
  }

  lemma ToFieldsStores(a: RuleArgs, priority: int, event: string)
    ensures var f := ToFields(a, priority, event);
            Stores(f, a) && f.priority == priority && f.matchEventType == event
  {
  }

  /** A rule added without a priority comes behind all rules of its policy, at 100 when it is the first. */
  ghost predicate Ranked(rules: seq<Rule>, policyId: string, given: Option<int>, priority: int) {
    if given != None then given == Some(priority)
    else if exists r :: r in rules && r.policyId == policyId then
      && (forall r :: r in rules && r.policyId == policyId ==> r.fields.priority + 10 <= priority)
      && exists r :: r in rules && r.policyId == policyId && r.fields.priority + 10 == priority
    else priority == 100
  }

  lemma {:induction false} MaxPriorityIsGreatest(rules: seq<Rule>)
    requires rules != []
    ensures forall r :: r in rules ==> r.fields.priority <= MaxPriority(rules)
    ensures exists r :: r in rules && r.fields.priority == MaxPriority(rules)
  {
    var n := |rules| - 1;
    assert rules[n] in rules && rules == rules[..n] + [rules[n]];
    if n > 0 {
      MaxPriorityIsGreatest(rules[..n]);
      var r :| r in rules[..n] && r.fields.priority == MaxPriority(rules[..n]);
      assert r in rules;
    }
  }

  lemma NextPriorityRanks(rules: seq<Rule>, policyId: string, given: Option<int>)
    ensures Ranked(rules, policyId, given, given.GetOr(NextPriority(Filter(rules, RuleOf(policyId)))))
  {
    var own := Filter(rules, RuleOf(policyId));
    FilterMembers(rules, RuleOf(policyId));
    if own != [] {
      MaxPriorityIsGreatest(own);
      assert own[0] in own;
    }
  }

  /** The policy that an addition goes to: one of that project and name, or else a new one. */
  predicate Named(p: Policy, a: AddArgs) {
    p.projectId == a.projectId && Some(p.name) == (if a.policyName == None then Some("__default__") else a.policyName)
  }

  predicate Founds(p: Policy, a: AddArgs, id: string) {
    && Named(p, a) && p.id == id && p.isActive && p.orgId == None
    && (if a.policyDescription != None then p.description == a.policyDescription
        else p.description
             == Some("Auto-created by addPolicyRule (no '" + p.name + "' policy existed for project)"))
    && (if a.groupKey != None then Some(p.groupKey) == a.groupKey
        else p.groupKey == if p.name == "__default__" then "agent_guardrails" else "custom")
    && Some(p.profile) == (if a.profile == None then Some("default") else a.profile)
    && Some(p.enforcementMode) == (if a.enforcementMode == None then Some("detective") else a.enforcementMode)
    && Some(p.denyOnPolicyError) == (if a.denyOnPolicyError == None then Some(false) else a.denyOnPolicyError)
  }

  /** The rules of a policy with this event, tool, glob and priority; SQL has no two NULL globs equal. */
  ghost predicate Collides(rules: seq<Rule>, policyId: string, ruleId: string, f: RuleFields) {
    f.matchPathGlob != None
    && exists r :: r in rules && r.policyId == policyId && r.id != ruleId
                   && r.fields.priority == f.priority && r.fields.matchEventType == f.matchEventType
                   && r.fields.matchToolName == f.matchToolName && r.fields.matchPathGlob == f.matchPathGlob
  }

  lemma CollidesExactly(rules: seq<Rule>, policyId: string, ruleId: string, f: RuleFields)
    ensures Duplicates(rules, policyId, ruleId, f) <==> Collides(rules, policyId, ruleId, f)
  {
    if Collides(rules, policyId, ruleId, f) {
      var r :| r in rules && r.policyId == policyId && r.id != ruleId
               && r.fields.priority == f.priority && r.fields.matchEventType == f.matchEventType
               && r.fields.matchToolName == f.matchToolName && r.fields.matchPathGlob == f.matchPathGlob;
      var i :| 0 <= i < |rules| && rules[i] == r;
    }
  }

  // ------------------------------------------------ what a call does to the rows

  function ColumnsOf(op: Op): RuleArgs
    requires op.Add? || op.Update?
  {
    if op.Add? then op.add.rule else op.rule
  }

  /** The reason or the tool is missing. */
  predicate Unexplained(a: RuleArgs) { Blank(a.reason) || Blank(a.matchToolName) }

  /** The policy and the columns of a rule that an addition comes to. */
  ghost predicate Adds(t: Tables, c: Call, p: Policy, f: RuleFields)
    requires c.op.Add?
  {
    var a := c.op.add;
    && (if exists q :: q in t.policies && Named(q, a) then p in t.policies && Named(p, a)
        else Founds(p, a, c.op.policyId))
    && Stores(f, a.rule) && Ranked(t.rules, p.id, a.priority, f.priority)
    && Some(f.matchEventType) == (if a.matchEventType == None then Some("PreToolUse") else a.matchEventType)
  }

  /** The columns of a rule that a change comes to. */
  predicate Changes(op: Op, f: RuleFields)
    requires op.Update?
  {
    Stores(f, op.rule) && f.priority == op.priority && f.matchEventType == op.matchEventType
  }

  predicate Fits(p: Policy, identifier: string, projectId: Option<string>) {
    (p.id == identifier || p.name == identifier) && (projectId == None || projectId == Some(p.projectId))
  }

  /** The rows a successful call leaves, apart from the versions: the change asked for and nothing else. */
  ghost predicate TookEffect(t: Tables, c: Call, t': Tables) {
    match c.op
    case Add(a, _, ruleId) =>
      && !Unexplained(a.rule)
      && exists p, f :: Adds(t, c, p, f) && !Collides(t.rules, p.id, ruleId, f)
           && t'.rules == t.rules + [Rule(ruleId, p.id, c.now, f)]
           && t'.policies == if p in t.policies then t.policies else t.policies + [p]
    case Update(ruleId, _, _, args) =>
      && !Unexplained(args) && !Blank(ruleId) && t'.policies == t.policies && |t'.rules| == |t.rules|
      && exists r, f :: r in t.rules && r.id == ruleId && Changes(c.op, f) && !Collides(t.rules, r.policyId, ruleId, f)
           && forall i :: 0 <= i < |t.rules| ==>
                t'.rules[i] == if t.rules[i].id == ruleId then t.rules[i].(fields := f) else t.rules[i]
    case Delete(ruleId) =>
      && t'.policies == t.policies && ruleId != "" && (exists r :: r in t.rules && r.id == ruleId)
      && t'.rules == Filter(t.rules, (r: Rule) => r.id != ruleId)
    case Enable(identifier, active, projectId) =>
      && t'.rules == t.rules && |t'.policies| == |t.policies|
      && exists k :: 0 <= k < |t.policies| && Fits(t.policies[k], identifier, projectId)
           && (forall j :: 0 <= j < k ==> !Fits(t.policies[j], identifier, projectId))
           && forall i :: 0 <= i < |t.policies| ==>
                t'.policies[i] == if t.policies[i].id == t.policies[k].id then t.policies[i].(isActive := active)
                                  else t.policies[i]
  }

  /** Why a call is refused. */
  ghost predicate Refused(t: Tables, c: Call, o: Outcome) {
    match c.op
    case Add(a, _, ruleId) =>
      o == Threw && (Unexplained(a.rule) || exists p, f :: Adds(t, c, p, f) && Collides(t.rules, p.id, ruleId, f))
    case Update(ruleId, _, _, args) =>
      if Unexplained(args) || Blank(ruleId) then o == Threw
      else if forall r :: r in t.rules ==> r.id != ruleId then o == Missing
      else
        && o == Threw
        && exists r, f :: r in t.rules && r.id == ruleId && Changes(c.op, f) && Collides(t.rules, r.policyId, ruleId, f)
    case Delete(ruleId) => o == Missing && (ruleId == "" || forall r :: r in t.rules ==> r.id != ruleId)
    case Enable(identifier, _, projectId) =>
      o == Missing && forall p :: p in t.policies ==> !Fits(p, identifier, projectId)
  }

  // ------------------------------------------------------------- the lookups

  lemma {:induction false} FindByNameExactly(policies: seq<Policy>, a: AddArgs)
    ensures var r := FindByName(policies, a.projectId, a.policyName.GetOr(DEFAULT_POLICY_NAME));
            if exists q :: q in policies && Named(q, a) then r.Some? && r.value in policies && Named(r.value, a)
            else r.None?
  {
    if policies != [] {
      FindByNameExactly(policies[1..], a);
      assert policies == [policies[0]] + policies[1..];
    }
  }

  lemma FindRuleExactly(rules: seq<Rule>, ruleId: string)
    ensures FindRule(rules, ruleId).None? <==> forall r :: r in rules ==> r.id != ruleId
  {
  }

  lemma {:induction false} FirstThatFits(policies: seq<Policy>, identifier: string, projectId: Option<string>)
    ensures var r := FindPolicy(policies, identifier, projectId);
            if r.None? then forall p :: p in policies ==> !Fits(p, identifier, projectId)
            else exists k :: 0 <= k < |policies| && policies[k] == r.value && Fits(policies[k], identifier, projectId)
                   && forall j :: 0 <= j < k ==> !Fits(policies[j], identifier, projectId)
  {
    if policies != [] {
      var rest := policies[1..];
      assert policies == [policies[0]] + rest;
      FirstThatFits(rest, identifier, projectId);
      if !Fits(policies[0], identifier, projectId) && FindPolicy(rest, identifier, projectId).Some? {
        var k :| 0 <= k < |rest| && rest[k] == FindPolicy(rest, identifier, projectId).value
                 && Fits(rest[k], identifier, projectId)
                 && forall j :: 0 <= j < k ==> !Fits(rest[j], identifier, projectId);
        assert policies[k + 1] == rest[k];
        forall j | 0 <= j < k + 1 ensures !Fits(policies[j], identifier, projectId) {
          if j > 0 { assert policies[j] == rest[j - 1]; }
        }
      }
    }
  }

  // -------------------------------------------------------------- the calls

  /** The policy and columns that the code comes to. */
  lemma Added(t: Tables, c: Call) returns (p: Policy, f: RuleFields)
    requires c.op.Add?
    ensures Adds(t, c, p, f)
    ensures var a := c.op.add;
            var found := FindByName(t.policies, a.projectId, a.policyName.GetOr(DEFAULT_POLICY_NAME));
            && p == (if found.Some? then found.value else NewPolicy(a, c.op.policyId))
            && f == ToFields(a.rule, a.priority.GetOr(NextPriority(Filter(t.rules, RuleOf(p.id)))),
                             a.matchEventType.GetOr("PreToolUse"))
            && (found.Some? ==> p in t.policies)
  {
    var a := c.op.add;
    var found := FindByName(t.policies, a.projectId, a.policyName.GetOr(DEFAULT_POLICY_NAME));
    FindByNameExactly(t.policies, a);
    p := if found.Some? then found.value else NewPolicy(a, c.op.policyId);
    var priority := a.priority.GetOr(NextPriority(Filter(t.rules, RuleOf(p.id))));
    f := ToFields(a.rule, priority, a.matchEventType.GetOr("PreToolUse"));
    NextPriorityRanks(t.rules, p.id, a.priority);
    ToFieldsStores(a.rule, priority, a.matchEventType.GetOr("PreToolUse"));
    if found.None? { NewPolicyFounds(a, c.op.policyId); }
  }

  lemma NewPolicyFounds(a: AddArgs, id: string)
    ensures Founds(NewPolicy(a, id), a, id)
  {
  }

  lemma AddEffect(t: Tables, digest: Digest, c: Call)
    requires Keyed(t) && c.op.Add? && Admissible(t, c.op)
    ensures var r := Apply(t, digest, c);
            if r.1 == Done then TookEffect(t, c, r.0) else Refused(t, c, r.1)
  {
    var a := c.op.add;
    BlankExactly(a.rule.reason);
    BlankExactly(a.rule.matchToolName);
    if !Unexplained(a.rule) {
      var p, f := Added(t, c);
      CollidesExactly(t.rules, p.id, c.op.ruleId, f);
      AddOutcome(t, digest, c, p, f);
    }
  }

  lemma AddOutcome(t: Tables, digest: Digest, c: Call, p: Policy, f: RuleFields)
    requires Keyed(t) && c.op.Add? && Admissible(t, c.op)
    requires var a := c.op.add;
             var found := FindByName(t.policies, a.projectId, a.policyName.GetOr(DEFAULT_POLICY_NAME));
             && Trim(a.rule.reason) != "" && Trim(a.rule.matchToolName) != ""
             && p == (if found.Some? then found.value else NewPolicy(a, c.op.policyId))
             && f == ToFields(a.rule, a.priority.GetOr(NextPriority(Filter(t.rules, RuleOf(p.id)))),
                              a.matchEventType.GetOr("PreToolUse"))
             && (found.Some? ==> p in t.policies)
    ensures var r := Apply(t, digest, c);
            if Duplicates(t.rules, p.id, c.op.ruleId, f) then r.1 == Threw
            else r.1 == Done && r.0.rules == t.rules + [Rule(c.op.ruleId, p.id, c.now, f)]
                 && r.0.policies == if p in t.policies then t.policies else t.policies + [p]
  {
    if !Duplicates(t.rules, p.id, c.op.ruleId, f) {
      var policies := if p in t.policies then t.policies else t.policies + [p];
      assert p in policies;
      var t' := t.(policies := policies, rules := t.rules + [Rule(c.op.ruleId, p.id, c.now, f)]);
      PublishSucceeds(t', digest, p.id, c.versionId, c.now);
      PublishKeepsRows(t', digest, p.id, c.versionId, c.now);
    }
  }

  lemma WrittenChanges(op: Op, f: RuleFields)
    requires op.Update? && f == ToFields(op.rule, op.priority, op.matchEventType)
    ensures Changes(op, f)
  {
    ToFieldsStores(op.rule, op.priority, op.matchEventType);
  }

  lemma UpdateEffect(t: Tables, digest: Digest, c: Call)
    requires Keyed(t) && c.op.Update?
    ensures var r := Apply(t, digest, c);
            if r.1 == Done then TookEffect(t, c, r.0) else Refused(t, c, r.1)
  {
    var args, ruleId := c.op.rule, c.op.ruleId;
    BlankExactly(args.reason);
    BlankExactly(args.matchToolName);
    BlankExactly(ruleId);
    FindRuleExactly(t.rules, ruleId);
    var found := FindRule(t.rules, ruleId);
    if !Unexplained(args) && !Blank(ruleId) && found.Some? {
      var f := ToFields(args, c.op.priority, c.op.matchEventType);
      WrittenChanges(c.op, f);
      CollidesExactly(t.rules, found.value.policyId, ruleId, f);
      UpdateOutcome(t, digest, c, found.value, f);
    }
  }

  lemma UpdateOutcome(t: Tables, digest: Digest, c: Call, r: Rule, f: RuleFields)
    requires Keyed(t) && c.op.Update? && FindRule(t.rules, c.op.ruleId) == Some(r)
    requires f == ToFields(c.op.rule, c.op.priority, c.op.matchEventType)
    requires Trim(c.op.ruleId) != "" && Trim(c.op.rule.reason) != "" && Trim(c.op.rule.matchToolName) != ""
    ensures var o := Apply(t, digest, c);
            if Duplicates(t.rules, r.policyId, c.op.ruleId, f) then o.1 == Threw
            else o.1 == Done && o.0.policies == t.policies && |o.0.rules| == |t.rules|
                 && forall i :: 0 <= i < |t.rules| ==>
                      o.0.rules[i] == if t.rules[i].id == c.op.ruleId then t.rules[i].(fields := f) else t.rules[i]
  {
    if !Duplicates(t.rules, r.policyId, c.op.ruleId, f) {
      var t' := t.(rules := SetRule(t.rules, c.op.ruleId, f));
      SetRuleEach(t.rules, c.op.ruleId, f);
      PublishSucceeds(t', digest, r.policyId, c.versionId, c.now);
      PublishKeepsRows(t', digest, r.policyId, c.versionId, c.now);
    }
  }

  lemma DeleteEffect(t: Tables, digest: Digest, c: Call)
    requires Keyed(t) && c.op.Delete?
    ensures var r := Apply(t, digest, c);
            if r.1 == Done then TookEffect(t, c, r.0) else Refused(t, c, r.1)
  {
    var ruleId := c.op.ruleId;
    var found := FindRule(t.rules, ruleId);
    FindRuleExactly(t.rules, ruleId);
    if ruleId != "" && found.Some? {
      var t' := t.(rules := Filter(t.rules, NotRule(ruleId)));
      FilterCongruent(t.rules, NotRule(ruleId), (r: Rule) => r.id != ruleId);
      PublishSucceeds(t', digest, found.value.policyId, c.versionId, c.now);
      PublishKeepsRows(t', digest, found.value.policyId, c.versionId, c.now);
    }
  }

  lemma {:induction false} SetActiveAt(policies: seq<Policy>, id: string, active: bool)
    ensures var r := SetActive(policies, id, active);
            |r| == |policies|
            && forall i :: 0 <= i < |policies| ==>
                 r[i] == if policies[i].id == id then policies[i].(isActive := active) else policies[i]
  {
    if policies != [] { SetActiveAt(policies[..|policies| - 1], id, active); }
  }

  lemma EnableEffect(t: Tables, digest: Digest, c: Call)
    requires Keyed(t) && c.op.Enable?
    ensures var r := Apply(t, digest, c);
            if r.1 == Done then TookEffect(t, c, r.0) else Refused(t, c, r.1)
  {
    var found := FindPolicy(t.policies, c.op.identifier, c.op.projectId);
    FirstThatFits(t.policies, c.op.identifier, c.op.projectId);
    if found.Some? { EnableOutcome(t, digest, c, found.value); }
  }

  lemma SwitchPublishes(t: Tables, digest: Digest, p: Policy, active: bool, versionId: string, now: nat)
    requires p in t.policies && p.id != ""
    ensures var t' := t.(policies := SetActive(t.policies, p.id, active));
            var r := Publish(t', digest, p.id, versionId, now);
            r.1 == Done && r.0.policies == t'.policies && r.0.rules == t.rules
  {
    var t' := t.(policies := SetActive(t.policies, p.id, active));
    SetActiveAt(t.policies, p.id, active);
    var i :| 0 <= i < |t.policies| && t.policies[i] == p;
    assert t'.policies[i] in t'.policies;
    PublishSucceeds(t', digest, p.id, versionId, now);
    PublishKeepsRows(t', digest, p.id, versionId, now);
  }

  lemma EnableOutcome(t: Tables, digest: Digest, c: Call, p: Policy)
    requires Keyed(t) && c.op.Enable? && FindPolicy(t.policies, c.op.identifier, c.op.projectId) == Some(p)
    ensures var r, active := Apply(t, digest, c), c.op.active;
            && r.1 == Done && r.0.rules == t.rules && |r.0.policies| == |t.policies|
            && forall i :: 0 <= i < |t.policies| ==>
                 r.0.policies[i] == if t.policies[i].id == p.id then t.policies[i].(isActive := active)
                                    else t.policies[i]
  {
    var active := c.op.active;
    if p.isActive == active {
      forall i | 0 <= i < |t.policies| && t.policies[i].id == p.id ensures t.policies[i] == p {
        assert t.policies[i] in t.policies;
      }
    } else {
      SetActiveAt(t.policies, p.id, active);
      SwitchPublishes(t, digest, p, active, c.versionId, c.now);
    }
  }

  /** A call succeeds exactly when nothing refuses it; then it does to the rows what it was asked to and no more, and
      otherwise every table stays as it was. */
  lemma CallsTakeEffect(t: Tables, digest: Digest, c: Call)
    requires Keyed(t) && Admissible(t, c.op)
    ensures var r := Apply(t, digest, c);
            if r.1 == Done then TookEffect(t, c, r.0) else Refused(t, c, r.1) && r.0 == t
  {
    DoneOrUntouched(t, digest, c);
    match c.op
    case Add(_, _, _) => AddEffect(t, digest, c);
    case Update(_, _, _, _) => UpdateEffect(t, digest, c);
    case Delete(_) => DeleteEffect(t, digest, c);
    case Enable(_, _, _) => EnableEffect(t, digest, c);
  }

  // -------------------------------------------------- snapshots and readers

  /** What a snapshot shows: the policy, and its rules by priority and then by creation. */
  ghost predicate Shows(s: Snapshot, p: Policy, rules: seq<Rule>) {
    s.policy == p
    && exists own: seq<Rule> ::
         && multiset(own) == multiset(Filter(rules, (r: Rule) => r.policyId == p.id))
         && |s.rules| == |own|
         && (forall i :: 0 <= i < |own| ==> s.rules[i].id == own[i].id && s.rules[i].fields == own[i].fields)
         && forall i, j :: 0 <= i < j < |own| ==>
              own[i].fields.priority < own[j].fields.priority
              || (own[i].fields.priority == own[j].fields.priority && own[i].createdAt <= own[j].createdAt)
  }

  lemma LiveShows(t: Tables, p: Policy)
    ensures Shows(Live(t, p), p, t.rules)
  {
    var unsorted := Filter(t.rules, RuleOf(p.id));
    var own := Sort(unsorted, RuleLe);
    FilterCongruent(t.rules, RuleOf(p.id), (r: Rule) => r.policyId == p.id);
    SortPermutes(unsorted, RuleLe);
    SortSorts(unsorted, RuleLe);
    var s := Live(t, p);
    assert s.rules == SnapshotRules(own);
  }

  /** The version a reader gets: the newest of the active ones, and when none is active the newest of all. */
  ghost predicate Reads(versions: seq<Version>, policyId: string, r: Option<Version>) {
    var active := exists v :: v in versions && v.policyId == policyId && v.status == Active;
    if r == None then forall v :: v in versions ==> v.policyId != policyId
    else
      && r.value in versions && r.value.policyId == policyId && (active ==> r.value.status == Active)
      && forall v :: v in versions && v.policyId == policyId && (active ==> v.status == Active)
                     ==> v.number <= r.value.number
  }

  lemma ReaderGets(t: Tables, policyId: string)
    ensures Reads(t.versions, policyId, GetActivePolicyVersion(t, policyId))
  {
    var own := VersionsOf(t, policyId);
    var keep := (v: Version) => v.status == Active;
    FilterMembers(t.versions, OfPolicy(policyId));
    FilterMembers(own, keep);
    LatestIsNewest(own);
    LatestIsNewest(Filter(own, keep));
    if own != [] { assert own[0] in own; }
    if Filter(own, keep) != [] { assert Filter(own, keep)[0] in Filter(own, keep); }
  }

  /** What a publish does to the versions: nothing when the newest one already shows the live rows, and otherwise all
      versions of the policy are retired now and one that does is added. */
  ghost predicate Republished(t: Tables, p: Policy, digest: Digest, versionId: string, now: nat, after: seq<Version>)
  {
    var own := VersionsOf(t, p.id);
    var n := |t.versions|;
    if own != [] && Latest(own).value.hash == digest(Live(t, p)) then after == t.versions
    else
      && |after| == n + 1
      && (forall i :: 0 <= i < n && t.versions[i].policyId != p.id ==> after[i] == t.versions[i])
      && (forall i :: 0 <= i < n && t.versions[i].policyId == p.id ==>
            after[i] == t.versions[i].(status := Retired, retiredAt := Some(now)))
      && after[n].id == versionId && after[n].policyId == p.id && after[n].status == Active
      && after[n].snapshot == Live(t, p) && after[n].hash == digest(Live(t, p)) && after[n].retiredAt == None
      && after[n].number == if own == [] then 1 else Latest(own).value.number + 1
  }

  lemma PublishDoes(t: Tables, digest: Digest, policyId: string, p: Policy, versionId: string, now: nat)
    requires policyId != "" && FindPolicy(t.policies, policyId, None) == Some(p)
    ensures var r := Publish(t, digest, policyId, versionId, now);
            && r.1 == Done && r.0.policies == t.policies && r.0.rules == t.rules
            && Republished(t, p, digest, versionId, now, r.0.versions)
  {
    RetireEach(t.versions, p.id, now);
    LatestIsNewest(VersionsOf(t, p.id));
  }
}
