/**
  Policy versioning (packages/db/src/policies.ts): after any sequence of the
  four mutators the version history of every policy is numbered without gaps,
  has one active version, the last, and that version's snapshot is the live
  policy with its live rules.
*/
module PolicyVersions {
  import opened Collections
  import opened Text
  import opened PolicyTables

  ghost predicate Injective(digest: Digest) {
    forall a, b :: digest(a) == digest(b) ==> a == b
  }

  // ------------------------------------------------------------ invariant

  /** No policy's name is another policy's id, so an id finds its own policy. */
  ghost predicate NoAlias(policies: seq<Policy>) {
    forall p, q :: p in policies && q in policies && p.name == q.id ==> p == q
  }

  ghost predicate HasPolicy(policies: seq<Policy>, id: string) {
    exists p :: p in policies && p.id == id
  }

  /** Primary and foreign keys of the three tables. */
  ghost predicate Keyed(t: Tables) {
    && (forall p, q :: p in t.policies && q in t.policies && p.id == q.id ==> p == q)
    && (forall p :: p in t.policies ==> p.id != "")
    && NoAlias(t.policies)
    && (forall r, s :: r in t.rules && s in t.rules && r.id == s.id ==> r == s)
    && (forall r :: r in t.rules ==> HasPolicy(t.policies, r.policyId))
    && (forall v :: v in t.versions ==> HasPolicy(t.policies, v.policyId))
  }

  /** Versions 1..n in order, only the last active, each with its own digest, no two in a row alike. */
  ghost predicate Numbered(digest: Digest, vs: seq<Version>) {
    forall i :: 0 <= i < |vs| ==>
      && vs[i].number == i + 1
      && vs[i].status == (if i == |vs| - 1 then Active else Retired)
      && vs[i].hash == digest(vs[i].snapshot)
      && (i > 0 ==> vs[i - 1].snapshot != vs[i].snapshot)
  }

  ghost predicate Current(t: Tables, p: Policy) {
    var vs := VersionsOf(t, p.id);
    vs != [] && vs[|vs| - 1].snapshot == Live(t, p)
  }

  ghost predicate Inv(t: Tables, digest: Digest) {
    && Keyed(t)
    && forall p :: p in t.policies ==> Numbered(digest, VersionsOf(t, p.id)) && Current(t, p)
  }

  /** The invariant but for one policy, whose rows were just changed. */
  ghost predicate Pending(t: Tables, digest: Digest, id: string) {
    && Keyed(t)
    && (forall p :: p in t.policies ==> Numbered(digest, VersionsOf(t, p.id)))
    && (forall p :: p in t.policies && p.id != id ==> Current(t, p))
  }

  // -------------------------------------------------------------- publish

  lemma {:induction false} FindSelf(policies: seq<Policy>, p: Policy)
    requires p in policies
    requires forall q :: q in policies && p.id in {q.id, q.name} ==> q == p
    ensures FindPolicy(policies, p.id, None) == Some(p)
  {
    if policies[0] != p {
      assert policies[0] in policies;
      assert policies == [policies[0]] + policies[1..];
      FindSelf(policies[1..], p);
    }
  }

  lemma {:induction false} RetireEach(vs: seq<Version>, id: string, now: nat)
    ensures |Retire(vs, id, now)| == |vs|
    ensures forall i :: 0 <= i < |vs| ==> Retire(vs, id, now)[i] == RetireOne(vs[i], id, now)
  {
    if vs != [] { RetireEach(vs[..|vs| - 1], id, now); }
  }

  lemma {:induction false} RetireFilter(vs: seq<Version>, id: string, now: nat, other: string)
    ensures Filter(Retire(vs, id, now), OfPolicy(other)) == Retire(Filter(vs, OfPolicy(other)), id, now)
  {
    if vs != [] {
      var n := |vs| - 1;
      RetireFilter(vs[..n], id, now, other);
      FilterSnoc(Retire(vs[..n], id, now), RetireOne(vs[n], id, now), OfPolicy(other));
      var f := Filter(vs[..n], OfPolicy(other));
      assert (f + [vs[n]])[..|f|] == f;
    }
  }

  lemma {:induction false} RetireOthers(vs: seq<Version>, id: string, now: nat)
    requires forall v :: v in vs ==> v.policyId != id
    ensures Retire(vs, id, now) == vs
  {
    if vs != [] {
      var n := |vs| - 1;
      assert vs[n] in vs && vs == vs[..n] + [vs[n]];
      RetireOthers(vs[..n], id, now);
    }
  }

  lemma {:induction false} LatestOfNumbered(vs: seq<Version>)
    requires forall i :: 0 <= i < |vs| ==> vs[i].number == i + 1
    ensures Latest(vs) == if vs == [] then None else Some(vs[|vs| - 1])
  {
    if vs != [] { LatestOfNumbered(vs[..|vs| - 1]); }
  }

  lemma {:induction false} LatestIsNewest(versions: seq<Version>)
    ensures var r := Latest(versions);
            if versions == [] then r == None
            else r.Some? && r.value in versions && forall v :: v in versions ==> v.number <= r.value.number
  {
    if versions != [] {
      var n := |versions| - 1;
      LatestIsNewest(versions[..n]);
      assert versions == versions[..n] + [versions[n]];
    }
  }

  lemma PublishedVersions(t: Tables, digest: Digest, id: string, row: Version, now: nat, other: string)
    requires row.policyId == id
    ensures VersionsOf(t.(versions := Retire(t.versions, id, now) + [row]), other)
            == if other == id then Retire(VersionsOf(t, id), id, now) + [row] else VersionsOf(t, other)
  {
    FilterSnoc(Retire(t.versions, id, now), row, OfPolicy(other));
    RetireFilter(t.versions, id, now, other);
    if other != id {
      FilterMembers(t.versions, OfPolicy(other));
      RetireOthers(VersionsOf(t, other), id, now);
    }
  }

  lemma AppendNumbered(digest: Digest, vs: seq<Version>, id: string, row: Version, now: nat)
    requires Numbered(digest, vs) && forall v :: v in vs ==> v.policyId == id
    requires row.number == |vs| + 1 && row.status == Active && row.hash == digest(row.snapshot)
    requires vs != [] ==> vs[|vs| - 1].snapshot != row.snapshot
    ensures Numbered(digest, Retire(vs, id, now) + [row])
  {
    RetireEach(vs, id, now);
    forall i | 0 <= i < |vs| ensures vs[i].policyId == id { assert vs[i] in vs; }
  }

  /** Publishing brings the pending policy's history up to date and touches no other. */
  lemma PublishInv(t: Tables, digest: Digest, p: Policy, versionId: string, now: nat)
    requires Injective(digest) && Pending(t, digest, p.id) && p in t.policies
    ensures var r := Publish(t, digest, p.id, versionId, now);
            && r.1 == Done && Inv(r.0, digest)
            && r.0.policies == t.policies && r.0.rules == t.rules
            && forall other :: other != p.id ==> VersionsOf(r.0, other) == VersionsOf(t, other)
  {
    FindSelf(t.policies, p);
    var vs := VersionsOf(t, p.id);
    LatestOfNumbered(vs);
    FilterMembers(t.versions, OfPolicy(p.id));
    var t' := Publish(t, digest, p.id, versionId, now).0;
    if t'.versions == t.versions {
      PublishNothing(t, digest, p, versionId, now);
    } else {
      var row := t'.versions[|t'.versions| - 1];
      assert t' == t.(versions := Retire(t.versions, p.id, now) + [row]);
      AppendNumbered(digest, vs, p.id, row, now);
      PublishedInv(t, digest, p, row, now);
    }
  }

  lemma PublishedInv(t: Tables, digest: Digest, p: Policy, row: Version, now: nat)
    requires Pending(t, digest, p.id) && p in t.policies && row.policyId == p.id && row.snapshot == Live(t, p)
    requires Numbered(digest, Retire(VersionsOf(t, p.id), p.id, now) + [row])
    ensures var t' := t.(versions := Retire(t.versions, p.id, now) + [row]);
            Inv(t', digest) && forall other :: other != p.id ==> VersionsOf(t', other) == VersionsOf(t, other)
  {
    var t' := t.(versions := Retire(t.versions, p.id, now) + [row]);
    forall other ensures VersionsOf(t', other)
                         == if other == p.id then Retire(VersionsOf(t, p.id), p.id, now) + [row]
                            else VersionsOf(t, other)
    {
      PublishedVersions(t, digest, p.id, row, now, other);
    }
    RetireKeepsKeys(t, p.id, now, row);
    forall q | q in t'.policies ensures Numbered(digest, VersionsOf(t', q.id)) && Current(t', q) {
      PublishedCurrent(t, t', digest, p, q);
    }
  }

  lemma PublishedCurrent(t: Tables, t': Tables, digest: Digest, p: Policy, q: Policy)
    requires Pending(t, digest, p.id) && p in t.policies && q in t.policies
    requires t'.policies == t.policies && t'.rules == t.rules
    requires var vs := VersionsOf(t', p.id);
             Numbered(digest, vs) && vs != [] && vs[|vs| - 1].snapshot == Live(t, p)
    requires q.id != p.id ==> VersionsOf(t', q.id) == VersionsOf(t, q.id)
    ensures Numbered(digest, VersionsOf(t', q.id)) && Current(t', q)
  {
    assert q.id == p.id ==> q == p;
    assert Live(t', q) == Live(t, q);
  }

  lemma PublishNothing(t: Tables, digest: Digest, p: Policy, versionId: string, now: nat)
    requires Injective(digest) && Pending(t, digest, p.id) && p in t.policies
    requires FindPolicy(t.policies, p.id, None) == Some(p)
    requires Latest(VersionsOf(t, p.id))
             == if VersionsOf(t, p.id) == [] then None else Some(VersionsOf(t, p.id)[|VersionsOf(t, p.id)| - 1])
    requires Publish(t, digest, p.id, versionId, now).0.versions == t.versions
    ensures Publish(t, digest, p.id, versionId, now) == (t, Done) && Inv(t, digest)
  {
    RetireEach(t.versions, p.id, now);
    var vs := VersionsOf(t, p.id);
    assert vs != [] && vs[|vs| - 1].hash == digest(Live(t, p));
    assert Current(t, p);
    forall q | q in t.policies ensures Current(t, q) {
      if q.id == p.id { assert q == p; }
    }
  }

  lemma RetireKeepsKeys(t: Tables, id: string, now: nat, row: Version)
    requires Keyed(t) && HasPolicy(t.policies, id) && row.policyId == id
    ensures Keyed(t.(versions := Retire(t.versions, id, now) + [row]))
  {
    RetireEach(t.versions, id, now);
    var all := Retire(t.versions, id, now) + [row];
    forall v | v in all ensures HasPolicy(t.policies, v.policyId) {
      var i :| 0 <= i < |all| && all[i] == v;
      if i < |t.versions| { assert t.versions[i] in t.versions; }
    }
  }

  // ------------------------------------------------------------- mutators

  datatype Op =
    | Add(add: AddArgs, policyId: string, ruleId: string)
    | Update(ruleId: string, priority: int, matchEventType: string, rule: RuleArgs)
    | Delete(ruleId: string)
    | Enable(identifier: string, active: bool, projectId: Option<string>)

  /** One call, with the id of the version it may insert and its time. */
  datatype Call = Call(op: Op, versionId: string, now: nat)

  function Apply(t: Tables, digest: Digest, c: Call): (Tables, Outcome) {
    match c.op
    case Add(a, policyId, ruleId) => AddPolicyRule(t, digest, a, policyId, ruleId, c.versionId, c.now)
    case Update(ruleId, priority, event, rule) =>
      UpdatePolicyRule(t, digest, ruleId, priority, event, rule, c.versionId, c.now)
    case Delete(ruleId) => DeletePolicyRule(t, digest, ruleId, c.versionId, c.now)
    case Enable(identifier, active, projectId) =>
      SetPolicyActive(t, digest, identifier, active, projectId, c.versionId, c.now)
  }

  /** Generated ids are new, and a policy is not named after a policy id. */
  ghost predicate Admissible(t: Tables, op: Op) {
    op.Add? ==>
      var name := op.add.policyName.GetOr(DEFAULT_POLICY_NAME);
      && op.policyId !in {"", name}
      && (forall p :: p in t.policies ==> op.policyId !in {p.id, p.name} && name != p.id)
      && (forall r :: r in t.rules ==> r.id != op.ruleId)
  }

  /** Rules of other policies do not show in a policy's snapshot. */
  lemma LiveUnchanged(t: Tables, t': Tables, p: Policy)
    requires Filter(t.rules, RuleOf(p.id)) == Filter(t'.rules, RuleOf(p.id)) && t.versions == t'.versions
    ensures Live(t, p) == Live(t', p) && (Current(t, p) ==> Current(t', p))
  {
  }

  lemma AddInv(t: Tables, digest: Digest, c: Call)
    requires Injective(digest) && Inv(t, digest) && c.op.Add? && Admissible(t, c.op)
    ensures Inv(Apply(t, digest, c).0, digest)
  {
    var a, ruleId := c.op.add, c.op.ruleId;
    var name := a.policyName.GetOr(DEFAULT_POLICY_NAME);
    var existing := FindByName(t.policies, a.projectId, name);
    var id := if existing.Some? then existing.value.id else c.op.policyId;
    var policies := if existing.Some? then t.policies else t.policies + [NewPolicy(a, c.op.policyId)];
    var priority := a.priority.GetOr(NextPriority(Filter(t.rules, RuleOf(id))));
    var fields := ToFields(a.rule, priority, a.matchEventType.GetOr("PreToolUse"));
    var rule := Rule(ruleId, id, c.now, fields);
    var t' := t.(policies := policies, rules := t.rules + [rule]);
    var r := Apply(t, digest, c);
    if Trim(a.rule.reason) == "" || Trim(a.rule.matchToolName) == "" {
      assert r.0 == t;
    } else if Duplicates(t.rules, id, ruleId, fields) {
      if existing.None? { NewPolicyHasNoRules(t, id, ruleId, fields); }
      assert r.0 == t;
    } else {
      var p := if existing.Some? then existing.value else NewPolicy(a, c.op.policyId);
      AddPending(t, digest, p, rule, policies);
      PublishInv(t', digest, p, c.versionId, c.now);
      assert r == Publish(t', digest, id, c.versionId, c.now);
    }
  }

  lemma NewPolicyHasNoRules(t: Tables, id: string, ruleId: string, f: RuleFields)
    requires Keyed(t) && !HasPolicy(t.policies, id)
    ensures !Duplicates(t.rules, id, ruleId, f)
  {
  }

  ghost predicate Joins(t: Tables, p: Policy) {
    p in t.policies
    || (p.id != p.name && forall q :: q in t.policies ==> p.id !in {q.id, q.name} && p.name != q.id)
  }

  lemma AddPending(t: Tables, digest: Digest, p: Policy, rule: Rule, policies: seq<Policy>)
    requires Inv(t, digest) && rule.policyId == p.id && p.id != "" && Joins(t, p)
    requires forall r :: r in t.rules ==> r.id != rule.id
    requires policies == (if p in t.policies then t.policies else t.policies + [p])
    ensures Pending(t.(policies := policies, rules := t.rules + [rule]), digest, p.id) && p in policies
  {
    var t' := t.(policies := policies, rules := t.rules + [rule]);
    AddKeyed(t, p, rule, policies);
    forall q | q in policies
      ensures Numbered(digest, VersionsOf(t', q.id)) && (q.id != p.id ==> Current(t', q))
    {
      if q in t.policies {
        FilterSnoc(t.rules, rule, RuleOf(q.id));
        if q.id != p.id { LiveUnchanged(t, t', q); }
      } else {
        FilterKeepsNone(t.versions, OfPolicy(p.id));
      }
    }
  }

  lemma AddKeyed(t: Tables, p: Policy, rule: Rule, policies: seq<Policy>)
    requires Keyed(t) && rule.policyId == p.id && p.id != "" && Joins(t, p)
    requires forall r :: r in t.rules ==> r.id != rule.id
    requires policies == (if p in t.policies then t.policies else t.policies + [p])
    ensures Keyed(t.(policies := policies, rules := t.rules + [rule])) && p in policies
    ensures p !in t.policies ==> forall v :: v in t.versions ==> v.policyId != p.id
  {
    forall id | HasPolicy(t.policies, id) ensures HasPolicy(policies, id) {
      var q :| q in t.policies && q.id == id;
      assert q in policies;
    }
    assert p in policies;
    assert HasPolicy(policies, p.id);
  }

  lemma {:induction false} SetRuleEach(rules: seq<Rule>, ruleId: string, f: RuleFields)
    ensures |SetRule(rules, ruleId, f)| == |rules|
    ensures forall i :: 0 <= i < |rules| ==>
              SetRule(rules, ruleId, f)[i] == if rules[i].id == ruleId then rules[i].(fields := f) else rules[i]
  {
    if rules != [] { SetRuleEach(rules[..|rules| - 1], ruleId, f); }
  }

  lemma {:induction false} SetRuleElsewhere(rules: seq<Rule>, ruleId: string, f: RuleFields, other: string)
    requires forall r :: r in rules && r.id == ruleId ==> r.policyId != other
    ensures Filter(SetRule(rules, ruleId, f), RuleOf(other)) == Filter(rules, RuleOf(other))
  {
    if rules != [] {
      var n := |rules| - 1;
      assert rules[n] in rules && rules == rules[..n] + [rules[n]];
      SetRuleElsewhere(rules[..n], ruleId, f, other);
      FilterSnoc(SetRule(rules[..n], ruleId, f),
                 if rules[n].id == ruleId then rules[n].(fields := f) else rules[n], RuleOf(other));
    }
  }

  /** Changing or removing one rule leaves only its policy pending. */
  lemma RulesChanged(t: Tables, digest: Digest, rules: seq<Rule>, id: string)
    requires Inv(t, digest)
    requires forall r, s :: r in rules && s in rules && r.id == s.id ==> r == s
    requires forall r :: r in rules ==> HasPolicy(t.policies, r.policyId)
    requires forall other :: other != id ==> Filter(rules, RuleOf(other)) == Filter(t.rules, RuleOf(other))
    ensures Pending(t.(rules := rules), digest, id)
  {
    var t' := t.(rules := rules);
    forall q | q in t'.policies
      ensures Numbered(digest, VersionsOf(t', q.id)) && (q.id != id ==> Current(t', q))
    {
      if q.id != id { LiveUnchanged(t, t', q); }
    }
  }

  lemma RulesRepublished(t: Tables, digest: Digest, rules: seq<Rule>, id: string, versionId: string, now: nat)
    requires Injective(digest) && Inv(t, digest) && HasPolicy(t.policies, id)
    requires forall r, s :: r in rules && s in rules && r.id == s.id ==> r == s
    requires forall r :: r in rules ==> HasPolicy(t.policies, r.policyId)
    requires forall other :: other != id ==> Filter(rules, RuleOf(other)) == Filter(t.rules, RuleOf(other))
    ensures Inv(Publish(t.(rules := rules), digest, id, versionId, now).0, digest)
  {
    RulesChanged(t, digest, rules, id);
    var p :| p in t.policies && p.id == id;
    PublishInv(t.(rules := rules), digest, p, versionId, now);
  }

  lemma SetRuleKeyed(t: Tables, ruleId: string, f: RuleFields)
    requires Keyed(t)
    ensures var rules := SetRule(t.rules, ruleId, f);
            && (forall r, s :: r in rules && s in rules && r.id == s.id ==> r == s)
            && (forall r :: r in rules ==> HasPolicy(t.policies, r.policyId))
  {
    var rules := SetRule(t.rules, ruleId, f);
    SetRuleEach(t.rules, ruleId, f);
    forall s | s in rules
      ensures exists u :: u in t.rules && s == (if u.id == ruleId then u.(fields := f) else u)
    {
      var i :| 0 <= i < |rules| && rules[i] == s;
      assert t.rules[i] in t.rules;
    }
  }

  lemma UpdateInv(t: Tables, digest: Digest, c: Call)
    requires Injective(digest) && Inv(t, digest) && c.op.Update?
    ensures Inv(Apply(t, digest, c).0, digest)
  {
    var existing := FindRule(t.rules, c.op.ruleId);
    UpdateCases(t, digest, c);
    if Apply(t, digest, c).0 != t {
      UpdatedRuleInv(t, digest, existing.value, ToFields(c.op.rule, c.op.priority, c.op.matchEventType),
                     c.versionId, c.now);
    }
  }

  lemma UpdateCases(t: Tables, digest: Digest, c: Call)
    requires c.op.Update?
    ensures var existing := FindRule(t.rules, c.op.ruleId);
            var f := ToFields(c.op.rule, c.op.priority, c.op.matchEventType);
            || Apply(t, digest, c).0 == t
            || (&& existing.Some? && existing.value in t.rules && existing.value.id == c.op.ruleId
                && Apply(t, digest, c) == Publish(t.(rules := SetRule(t.rules, c.op.ruleId, f)), digest,
                                                  existing.value.policyId, c.versionId, c.now))
  {
  }

  lemma UpdatedRuleInv(t: Tables, digest: Digest, r: Rule, f: RuleFields, versionId: string, now: nat)
    requires Injective(digest) && Inv(t, digest) && r in t.rules
    ensures Inv(Publish(t.(rules := SetRule(t.rules, r.id, f)), digest, r.policyId, versionId, now).0, digest)
  {
    var rules := SetRule(t.rules, r.id, f);
    SetRuleKeyed(t, r.id, f);
    forall other | other != r.policyId ensures Filter(rules, RuleOf(other)) == Filter(t.rules, RuleOf(other)) {
      SetRuleElsewhere(t.rules, r.id, f, other);
    }
    RulesRepublished(t, digest, rules, r.policyId, versionId, now);
  }

  lemma DeleteCases(t: Tables, digest: Digest, c: Call)
    requires c.op.Delete?
    ensures var existing := FindRule(t.rules, c.op.ruleId);
            || Apply(t, digest, c).0 == t
            || (&& existing.Some? && existing.value in t.rules && existing.value.id == c.op.ruleId
                && Apply(t, digest, c) == Publish(t.(rules := Filter(t.rules, NotRule(c.op.ruleId))), digest,
                                                  existing.value.policyId, c.versionId, c.now))
  {
  }

  lemma DeleteInv(t: Tables, digest: Digest, c: Call)
    requires Injective(digest) && Inv(t, digest) && c.op.Delete?
    ensures Inv(Apply(t, digest, c).0, digest)
  {
    DeleteCases(t, digest, c);
    if Apply(t, digest, c).0 != t {
      DeletedRuleInv(t, digest, FindRule(t.rules, c.op.ruleId).value, c.versionId, c.now);
    }
  }

  lemma DeletedRuleInv(t: Tables, digest: Digest, r: Rule, versionId: string, now: nat)
    requires Injective(digest) && Inv(t, digest) && r in t.rules
    ensures Inv(Publish(t.(rules := Filter(t.rules, NotRule(r.id))), digest, r.policyId, versionId, now).0, digest)
  {
    var rules := Filter(t.rules, NotRule(r.id));
    FilterMembers(t.rules, NotRule(r.id));
    forall other | other != r.policyId ensures Filter(rules, RuleOf(other)) == Filter(t.rules, RuleOf(other)) {
      FilterStronger(t.rules, NotRule(r.id), RuleOf(other));
    }
    RulesRepublished(t, digest, rules, r.policyId, versionId, now);
  }

  lemma {:induction false} SetActiveEach(policies: seq<Policy>, id: string, active: bool)
    ensures forall p :: p in SetActive(policies, id, active)
                        <==> (p in policies && p.id != id)
                             || (exists q :: q in policies && q.id == id && p == q.(isActive := active))
  {
    if policies != [] {
      var n := |policies| - 1;
      SetActiveEach(policies[..n], id, active);
      assert policies == policies[..n] + [policies[n]];
    }
  }

  lemma SetActiveToggles(t: Tables, before: Policy, active: bool)
    requires Keyed(t) && before in t.policies
    ensures Toggled(t, before, SetActive(t.policies, before.id, active), before.(isActive := active))
  {
    SetActiveEach(t.policies, before.id, active);
  }

  lemma EnableCases(t: Tables, digest: Digest, c: Call)
    requires c.op.Enable?
    ensures var found := FindPolicy(t.policies, c.op.identifier, c.op.projectId);
            || Apply(t, digest, c).0 == t
            || (&& found.Some? && found.value in t.policies
                && Apply(t, digest, c) == Publish(t.(policies := SetActive(t.policies, found.value.id, c.op.active)),
                                                  digest, found.value.id, c.versionId, c.now))
  {
  }

  lemma EnableInv(t: Tables, digest: Digest, c: Call)
    requires Injective(digest) && Inv(t, digest) && c.op.Enable?
    ensures Inv(Apply(t, digest, c).0, digest)
  {
    EnableCases(t, digest, c);
    if Apply(t, digest, c).0 != t {
      var found := FindPolicy(t.policies, c.op.identifier, c.op.projectId);
      ToggledInv(t, digest, found.value, c.op.active, c.versionId, c.now);
    }
  }

  lemma ToggledInv(t: Tables, digest: Digest, before: Policy, active: bool, versionId: string, now: nat)
    requires Injective(digest) && Inv(t, digest) && before in t.policies
    ensures var policies := SetActive(t.policies, before.id, active);
            Inv(Publish(t.(policies := policies), digest, before.id, versionId, now).0, digest)
  {
    var policies, after := SetActive(t.policies, before.id, active), before.(isActive := active);
    SetActiveToggles(t, before, active);
    SetActivePending(t, digest, before, policies, after);
    PublishInv(t.(policies := policies), digest, after, versionId, now);
  }

  /** The rows of `policies` are those of `t` with `before` replaced by `after`. */
  ghost predicate Toggled(t: Tables, before: Policy, policies: seq<Policy>, after: Policy) {
    forall p :: p in policies <==> (p in t.policies && p.id != before.id) || p == after
  }

  lemma SetActiveKeyed(t: Tables, before: Policy, policies: seq<Policy>, after: Policy)
    requires Keyed(t) && before in t.policies && after == before.(isActive := after.isActive)
    requires Toggled(t, before, policies, after)
    ensures Keyed(t.(policies := policies))
  {
    forall id | HasPolicy(t.policies, id) ensures HasPolicy(policies, id) {
      var q :| q in t.policies && q.id == id;
      assert (if q.id == before.id then after else q) in policies;
    }
    forall p, q | p in policies && q in policies && p.name == q.id ensures p == q {
      var x, y := if p == after then before else p, if q == after then before else q;
      assert x in t.policies && y in t.policies && x.name == y.id;
    }
  }

  lemma SetActivePending(t: Tables, digest: Digest, before: Policy, policies: seq<Policy>, after: Policy)
    requires Inv(t, digest) && before in t.policies && after == before.(isActive := after.isActive)
    requires Toggled(t, before, policies, after)
    ensures Pending(t.(policies := policies), digest, after.id) && after in policies
  {
    var t' := t.(policies := policies);
    SetActiveKeyed(t, before, policies, after);
    forall q | q in policies
      ensures Numbered(digest, VersionsOf(t', q.id)) && (q.id != after.id ==> Current(t', q))
    {
      if q == after { assert Numbered(digest, VersionsOf(t, before.id)); } else { LiveUnchanged(t, t', q); }
    }
  }

  lemma ApplyInv(t: Tables, digest: Digest, c: Call)
    requires Injective(digest) && Inv(t, digest) && Admissible(t, c.op)
    ensures Inv(Apply(t, digest, c).0, digest)
  {
    match c.op
    case Add(_, _, _) => AddInv(t, digest, c);
    case Update(_, _, _, _) => UpdateInv(t, digest, c);
    case Delete(_) => DeleteInv(t, digest, c);
    case Enable(_, _, _) => EnableInv(t, digest, c);
  }

  lemma PublishKeepsRows(t: Tables, digest: Digest, policyId: string, versionId: string, now: nat)
    ensures var t' := Publish(t, digest, policyId, versionId, now).0; t'.policies == t.policies && t'.rules == t.rules
  {
  }

  lemma {:induction false} FindsById(policies: seq<Policy>, id: string)
    requires HasPolicy(policies, id)
    ensures FindPolicy(policies, id, None).Some?
  {
    var p :| p in policies && p.id == id;
    if policies[0] != p {
      assert policies == [policies[0]] + policies[1..];
      FindsById(policies[1..], id);
    }
  }

  lemma PublishSucceeds(t: Tables, digest: Digest, id: string, versionId: string, now: nat)
    requires HasPolicy(t.policies, id) && id != ""
    ensures Publish(t, digest, id, versionId, now).1 == Done
  {
    FindsById(t.policies, id);
  }

  /** In a keyed store a publish never throws, so a call fails only before it has written anything. */
  lemma DoneOrUntouched(t: Tables, digest: Digest, c: Call)
    requires Keyed(t) && Admissible(t, c.op)
    ensures Apply(t, digest, c).1 == Done || Apply(t, digest, c).0 == t
  {
    match c.op {
      case Add(_, _, _) => AddDoneOrUntouched(t, digest, c);
      case Update(ruleId, priority, event, rule) =>
        UpdateCases(t, digest, c);
        var existing := FindRule(t.rules, ruleId);
        if existing.Some? {
          PublishSucceeds(t.(rules := SetRule(t.rules, ruleId, ToFields(rule, priority, event))), digest,
                          existing.value.policyId, c.versionId, c.now);
        }
      case Delete(ruleId) =>
        DeleteCases(t, digest, c);
        var existing := FindRule(t.rules, ruleId);
        if existing.Some? {
          PublishSucceeds(t.(rules := Filter(t.rules, NotRule(ruleId))), digest, existing.value.policyId,
                          c.versionId, c.now);
        }
      case Enable(identifier, active, projectId) =>
        EnableCases(t, digest, c);
        var found := FindPolicy(t.policies, identifier, projectId);
        if found.Some? {
          SetActiveToggles(t, found.value, active);
          var policies := SetActive(t.policies, found.value.id, active);
          assert found.value.(isActive := active) in policies;
          PublishSucceeds(t.(policies := policies), digest, found.value.id, c.versionId, c.now);
        }
    }
  }

  lemma AddDoneOrUntouched(t: Tables, digest: Digest, c: Call)
    requires Keyed(t) && c.op.Add? && Admissible(t, c.op)
    ensures Apply(t, digest, c).1 == Done || Apply(t, digest, c).0 == t
  {
    var a, ruleId := c.op.add, c.op.ruleId;
    var existing := FindByName(t.policies, a.projectId, a.policyName.GetOr(DEFAULT_POLICY_NAME));
    var p := if existing.Some? then existing.value else NewPolicy(a, c.op.policyId);
    var policies := if existing.Some? then t.policies else t.policies + [p];
    var priority := a.priority.GetOr(NextPriority(Filter(t.rules, RuleOf(p.id))));
    var f := ToFields(a.rule, priority, a.matchEventType.GetOr("PreToolUse"));
    assert p in policies;
    if existing.None? { NewPolicyHasNoRules(t, p.id, ruleId, f); }
    PublishSucceeds(t.(policies := policies, rules := t.rules + [Rule(ruleId, p.id, c.now, f)]), digest, p.id,
                    c.versionId, c.now);
  }

  // ---------------------------------------------------------- whole runs

  function Run(digest: Digest, calls: seq<Call>): Tables {
    if calls == [] then Tables([], [], [])
    else Apply(Run(digest, calls[..|calls| - 1]), digest, calls[|calls| - 1]).0
  }

  ghost predicate AllAdmissible(digest: Digest, calls: seq<Call>) {
    forall i :: 0 <= i < |calls| ==> Admissible(Run(digest, calls[..i]), calls[i].op)
  }

  lemma {:induction false} RunInv(digest: Digest, calls: seq<Call>)
    requires Injective(digest) && AllAdmissible(digest, calls)
    ensures Inv(Run(digest, calls), digest)
  {
    if calls != [] {
      var n := |calls| - 1;
      assert forall i :: 0 <= i < n ==> calls[..n][..i] == calls[..i];
      RunInv(digest, calls[..n]);
      ApplyInv(Run(digest, calls[..n]), digest, calls[n]);
    }
  }

  lemma {:induction false} OnlyLastActive(digest: Digest, vs: seq<Version>)
    requires vs != [] && forall i :: 0 <= i < |vs| ==> vs[i].status == (if i == |vs| - 1 then Active else Retired)
    ensures NewestActive(vs) == Some(vs[|vs| - 1])
  {
    var n := |vs| - 1;
    var keep := (v: Version) => v.status == Active;
    FilterKeepsNone(vs[..n], keep);
    assert vs == vs[..n] + [vs[n]];
    FilterSnoc(vs[..n], vs[n], keep);
    assert [] + [vs[n]] == [vs[n]];
    assert Latest([vs[n]]) == Some(vs[n]);
  }

  /** From an empty store, after any admissible sequence of calls: versions 1..n without gaps, only n
      active, neighbours different, and the version a reader gets is n, a snapshot of the live rows. */
  lemma HistoryIsFaithful(digest: Digest, calls: seq<Call>, p: Policy)
    requires Injective(digest) && AllAdmissible(digest, calls) && p in Run(digest, calls).policies
    ensures var t := Run(digest, calls);
            var vs := VersionsOf(t, p.id);
            && vs != [] && Numbered(digest, vs)
            && GetActivePolicyVersion(t, p.id) == Some(vs[|vs| - 1])
            && vs[|vs| - 1].number == |vs|
            && vs[|vs| - 1].snapshot == Live(t, p)
  {
    RunInv(digest, calls);
    OnlyLastActive(digest, VersionsOf(Run(digest, calls), p.id));
  }
}
