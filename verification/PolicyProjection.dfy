/**
  The policy projection of a project (packages/db/src/policy-projection.ts):
  the active policies, exceptions and grants in one payload, hashed. `sha256` is
  a parameter and `locale` is the order of String.localeCompare.
*/
module PolicyProjection {
  import opened Collections
  import opened Text
  import opened PolicyTables
  import opened PolicyViews
  import opened ProjectionPayload
  import opened JsonRecords
  import PolicyVersions
  import Claude = ClaudePermissions
  import Codex = CodexPermissions

  datatype ExceptionRow = ExceptionRow(id: string, projectId: Option<string>, status: string,
                                       startsAt: Option<int>, expiresAt: Option<int>, createdAt: int)

  datatype GrantRow = GrantRow(id: string, projectId: Option<string>, targetCapability: Option<string>,
                               expiresAt: Option<int>, revokedAt: Option<int>, createdAt: int)

  /** The tables a projection is read from. */
  datatype Source = Source(tables: Tables, exceptions: seq<ExceptionRow>, grants: seq<GrantRow>)

  datatype Projection = Projection(payload: Payload, generatedAt: int, hash: string)

  datatype Args = Args(projectId: string, projectSlug: Option<string>, now: int, locale: Codex.Locale,
                       sha256: string -> string)

  // ------------------------------------------------------------ active rows

  predicate ExceptionActive(row: ExceptionRow, now: int) {
    && row.status == "active"
    && !(row.startsAt.Some? && row.startsAt.value > now)
    && !(row.expiresAt.Some? && row.expiresAt.value <= now)
  }

  predicate GrantActive(row: GrantRow, now: int) {
    row.revokedAt.None? && !(row.expiresAt.Some? && row.expiresAt.value <= now)
  }

  function ExceptionsAt(now: int): ExceptionRow -> bool { (row: ExceptionRow) => ExceptionActive(row, now) }
  function GrantsAt(now: int): GrantRow -> bool { (row: GrantRow) => GrantActive(row, now) }

  // ------------------------------------------------------------ list queries

  function PolicyIn(projectId: string): Policy -> bool { (p: Policy) => p.projectId == projectId }
  predicate NameLe(a: Policy, b: Policy) { StringLe(a.name, b.name) }

  function WithRules(rules: seq<Rule>): Policy -> PolicyWithRules {
    (p: Policy) => PolicyWithRules(p, Sort(Filter(rules, RuleOf(p.id)), RuleLe))
  }

  /** ORDER BY name; each policy with its rules ORDER BY priority, created_at. */
  function ListPolicies(t: Tables, projectId: string): seq<PolicyWithRules> {
    Map(Sort(Filter(t.policies, PolicyIn(projectId)), NameLe), WithRules(t.rules))
  }

  function ExceptionIn(projectId: string): ExceptionRow -> bool {
    (row: ExceptionRow) => row.projectId == Some(projectId)
  }
  predicate NewerException(a: ExceptionRow, b: ExceptionRow) { a.createdAt >= b.createdAt }

  function ListExceptions(rows: seq<ExceptionRow>, projectId: string): seq<ExceptionRow> {
    Sort(Filter(rows, ExceptionIn(projectId)), NewerException)
  }

  function GrantIn(projectId: string): GrantRow -> bool { (row: GrantRow) => row.projectId == Some(projectId) }
  predicate NewerGrant(a: GrantRow, b: GrantRow) { a.createdAt >= b.createdAt }

  function ListGrants(rows: seq<GrantRow>, projectId: string): seq<GrantRow> {
    Sort(Filter(rows, GrantIn(projectId)), NewerGrant)
  }

  // --------------------------------------------------------------- building

  function RuleIdOf(r: Rule): string { r.id }
  function ExceptionId(row: ExceptionRow): string { row.id }
  function GrantId(row: GrantRow): string { row.id }

  function EntryOf(t: Tables): PolicyWithRules -> Entry {
    (p: PolicyWithRules) =>
      var version := GetActivePolicyVersion(t, p.policy.id);
      var ruleIds := Sort(Map(p.rules, RuleIdOf), StringLe);
      match version
      case Some(v) => Entry(p.policy.id, p.policy.name, p.policy.groupKey, p.policy.profile, p.policy.enforcementMode,
                            Some(v.id), Some(v.number), Some(v.hash), ruleIds)
      case None => Entry(p.policy.id, p.policy.name, p.policy.groupKey, p.policy.profile, p.policy.enforcementMode,
                         None, None, None, ruleIds)
  }

  predicate EntryLe(locale: Codex.Locale, a: Entry, b: Entry) { locale(a.policyId, b.policyId) }

  function EntryOrder(locale: Codex.Locale): (Entry, Entry) -> bool {
    (a: Entry, b: Entry) => EntryLe(locale, a, b)
  }

  /** `[value].filter(Boolean)`: null and the empty string are dropped. */
  function Present(o: Option<string>): seq<string> {
    if o.Some? && o.value != "" then [o.value] else []
  }

  function RuleCapabilities(r: Rule): seq<string> {
    Present(r.fields.requiredCapability) + Present(r.fields.excludedCapability)
  }

  function GrantCapability(row: GrantRow): seq<string> { Present(row.targetCapability) }

  function VersionIds(e: Entry): seq<string> {
    if e.activeVersionId.Some? then [e.activeVersionId.value] else []
  }

  /** The payload for the listed rows that are active. */
  function PayloadFor(t: Tables, ps: seq<PolicyWithRules>, exceptions: seq<ExceptionRow>, grants: seq<GrantRow>,
                      a: Args): Payload {
    var entries := Map(ps, EntryOf(t));
    Payload(a.projectId, a.projectSlug, Sort(entries, EntryOrder(a.locale)),
            Sort(Each(ps, RuleId), StringLe),
            Sort(Map(exceptions, ExceptionId), StringLe), Sort(Map(grants, GrantId), StringLe),
            UniqueSorted(Each(ps, RuleCapabilities) + FlatMap(grants, GrantCapability)),
            Sort(FlatMap(entries, VersionIds), StringLe),
            Claude.ProjectionOf(ps, a.sha256), Codex.ProjectionOf(ps, a.locale, a.sha256))
  }

  function ActivePolicies(s: Source, a: Args): seq<PolicyWithRules> {
    Filter(ListPolicies(s.tables, a.projectId), IsActive)
  }

  function ActiveExceptions(s: Source, a: Args): seq<ExceptionRow> {
    Filter(ListExceptions(s.exceptions, a.projectId), ExceptionsAt(a.now))
  }

  function ActiveGrants(s: Source, a: Args): seq<GrantRow> {
    Filter(ListGrants(s.grants, a.projectId), GrantsAt(a.now))
  }

  function PayloadOf(s: Source, a: Args): Payload {
    PayloadFor(s.tables, ActivePolicies(s, a), ActiveExceptions(s, a), ActiveGrants(s, a), a)
  }

  method CollectEntries(t: Tables, policies: seq<PolicyWithRules>) returns (entries: seq<Entry>)
    ensures entries == Map(policies, EntryOf(t))
  {
    entries := [];
    for i := 0 to |policies|
      invariant entries == Map(policies[..i], EntryOf(t))
    {
      assert policies[..i + 1] == policies[..i] + [policies[i]];
      entries := entries + [EntryOf(t)(policies[i])];
    }
    assert policies[..|policies|] == policies;
  }

  method BuildPolicyProjection(s: Source, a: Args) returns (p: Projection)
    ensures p == Projection(PayloadOf(s, a), a.now, HashOf(a.sha256, PayloadOf(s, a)))
  {
    var policies := Filter(ListPolicies(s.tables, a.projectId), IsActive);
    var exceptions := Filter(ListExceptions(s.exceptions, a.projectId), ExceptionsAt(a.now));
    var grants := Filter(ListGrants(s.grants, a.projectId), GrantsAt(a.now));
    var entries := CollectEntries(s.tables, policies);
    var claude := Claude.BuildClaudeNativePermissionsProjection(policies, a.sha256);
    var codex := Codex.BuildCodexNativePermissionsProjection(policies, a.locale, a.sha256);
    var payload := Payload(a.projectId, a.projectSlug, Sort(entries, EntryOrder(a.locale)),
                           Sort(Each(policies, RuleId), StringLe),
                           Sort(Map(exceptions, ExceptionId), StringLe), Sort(Map(grants, GrantId), StringLe),
                           UniqueSorted(Each(policies, RuleCapabilities) + FlatMap(grants, GrantCapability)),
                           Sort(FlatMap(entries, VersionIds), StringLe), claude, codex);
    p := Projection(payload, a.now, HashOf(a.sha256, payload));
  }

  // -------------------------------------------- reordered lists, same payload

  lemma SameEntry(t: Tables, p: PolicyWithRules, q: PolicyWithRules)
    requires View(p) == View(q)
    ensures EntryOf(t)(p) == EntryOf(t)(q)
  {
    MapItself(p.rules);
    MapItself(q.rules);
    MapPermutes(p.rules, q.rules, Itself, RuleIdOf);
    SortedExactly(Map(p.rules, RuleIdOf), Map(q.rules, RuleIdOf));
  }

  lemma EntriesPermute(t: Tables, ps: seq<PolicyWithRules>, qs: seq<PolicyWithRules>)
    requires Reordered(ps, qs)
    ensures multiset(Map(ps, EntryOf(t))) == multiset(Map(qs, EntryOf(t)))
  {
    forall p, q | p in ps && q in qs && View(p) == View(q) ensures EntryOf(t)(p) == EntryOf(t)(q) {
      SameEntry(t, p, q);
    }
    MapPermutes(ps, qs, View, EntryOf(t));
  }

  /** Different entries never tie in the locale order of their policy ids. */
  ghost predicate EntriesToldApart(t: Tables, ps: seq<PolicyWithRules>, locale: Codex.Locale) {
    TiesEqual(multiset(Map(ps, EntryOf(t))), EntryOrder(locale))
  }

  lemma EntryOrdered(locale: Codex.Locale)
    requires TotalPreorder(locale)
    ensures TotalPreorder(EntryOrder(locale))
  {
    forall a, b ensures EntryLe(locale, a, b) || EntryLe(locale, b, a) { }
    forall a, b, c | EntryLe(locale, a, b) && EntryLe(locale, b, c) ensures EntryLe(locale, a, c) { }
  }

  lemma IdsPermute<T(!new)>(a: seq<T>, b: seq<T>, id: T -> string)
    requires multiset(a) == multiset(b)
    ensures Sort(Map(a, id), StringLe) == Sort(Map(b, id), StringLe)
  {
    var same := (x: T) => x;
    assert Map(a, same) == a && Map(b, same) == b;
    MapPermutes(a, b, same, id);
    SortedExactly(Map(a, id), Map(b, id));
  }

  lemma FlatPermutes<T(!new), U>(a: seq<T>, b: seq<T>, f: T -> seq<U>)
    requires multiset(a) == multiset(b)
    ensures multiset(FlatMap(a, f)) == multiset(FlatMap(b, f))
  {
    var same := (x: T) => x;
    assert Map(a, same) == a && Map(b, same) == b;
    FlatMapPermutes(a, b, same, f);
  }

  /** The payload forgets the order of policies, of rules, of exceptions and of grants. */
  lemma PayloadIgnoresOrder(t: Tables, ps: seq<PolicyWithRules>, qs: seq<PolicyWithRules>,
                            ex: seq<ExceptionRow>, fx: seq<ExceptionRow>, gs: seq<GrantRow>, hs: seq<GrantRow>, a: Args)
    requires Reordered(ps, qs) && multiset(ex) == multiset(fx) && multiset(gs) == multiset(hs)
    requires TotalPreorder(a.locale) && EntriesToldApart(t, ps, a.locale)
    requires Codex.NoTies(Codex.BASELINE, Codex.FromRules(ps), a.locale)
    ensures PayloadFor(t, ps, ex, gs, a) == PayloadFor(t, qs, fx, hs, a)
  {
    var es, fs := Map(ps, EntryOf(t)), Map(qs, EntryOf(t));
    EntriesPermute(t, ps, qs);
    EntryOrdered(a.locale);
    SortCanonical(es, fs, EntryOrder(a.locale));
    FlatPermutes(es, fs, VersionIds);
    SortedExactly(FlatMap(es, VersionIds), FlatMap(fs, VersionIds));
    EachPermutes(ps, qs, RuleId);
    SortedExactly(Each(ps, RuleId), Each(qs, RuleId));
    IdsPermute(ex, fx, ExceptionId);
    IdsPermute(gs, hs, GrantId);
    EachPermutes(ps, qs, RuleCapabilities);
    FlatPermutes(gs, hs, GrantCapability);
    UniqueSortedPermutes(Each(ps, RuleCapabilities) + FlatMap(gs, GrantCapability),
                         Each(qs, RuleCapabilities) + FlatMap(hs, GrantCapability));
    Claude.PayloadIgnoresOrder(ps, qs);
    Codex.ProjectionIgnoresOrder(ps, qs, a.locale, a.sha256);
  }

  ghost predicate OrderForgotten(t: Tables, ps: seq<PolicyWithRules>, locale: Codex.Locale) {
    forall qs :: Reordered(ps, qs)
      ==> Sort(Map(qs, EntryOf(t)), EntryOrder(locale)) == Sort(Map(ps, EntryOf(t)), EntryOrder(locale))
  }

  /** The published policy list forgets the order of policies exactly when no two different entries tie. */
  lemma EntryOrderExactly(t: Tables, ps: seq<PolicyWithRules>, locale: Codex.Locale)
    requires TotalPreorder(locale)
    ensures OrderForgotten(t, ps, locale) <==> EntriesToldApart(t, ps, locale)
  {
    EntryOrdered(locale);
    if EntriesToldApart(t, ps, locale) {
      forall qs | Reordered(ps, qs)
        ensures Sort(Map(qs, EntryOf(t)), EntryOrder(locale)) == Sort(Map(ps, EntryOf(t)), EntryOrder(locale)) {
        EntriesPermute(t, ps, qs);
        SortCanonical(Map(ps, EntryOf(t)), Map(qs, EntryOf(t)), EntryOrder(locale));
      }
    } else {
      var x, y :| x in multiset(Map(ps, EntryOf(t))) && y in multiset(Map(ps, EntryOf(t)))
                  && EntryOrder(locale)(x, y) && EntryOrder(locale)(y, x) && x != y;
      var qs, rs := TwoListings(t, ps, x, y, locale);
      assert Reordered(ps, qs) && Reordered(ps, rs);
    }
  }

  lemma TwoListings(t: Tables, ps: seq<PolicyWithRules>, x: Entry, y: Entry, locale: Codex.Locale)
      returns (qs: seq<PolicyWithRules>, rs: seq<PolicyWithRules>)
    requires TotalPreorder(locale) && x != y && EntryOrder(locale)(x, y) && EntryOrder(locale)(y, x)
    requires x in multiset(Map(ps, EntryOf(t))) && y in multiset(Map(ps, EntryOf(t)))
    ensures Reordered(ps, qs) && Reordered(ps, rs)
    ensures Sort(Map(qs, EntryOf(t)), EntryOrder(locale)) != Sort(Map(rs, EntryOf(t)), EntryOrder(locale))
  {
    MapMember(ps, EntryOf(t), x);
    MapMember(ps, EntryOf(t), y);
    var p :| p in ps && EntryOf(t)(p) == x;
    var q :| q in ps && EntryOf(t)(q) == y;
    var rest := PickTwo(ps, p, q);
    qs, rs := [p, q] + rest, [q, p] + rest;
    SameListing(ps, qs);
    SameListing(ps, rs);
    EntryOrdered(locale);
    TieShows(x, y, Map(rest, EntryOf(t)), EntryOrder(locale));
    MapPair(p, q, rest, EntryOf(t));
    MapPair(q, p, rest, EntryOf(t));
  }

  lemma MapPair<T, U>(p: T, q: T, rest: seq<T>, f: T -> U)
    ensures Map([p, q] + rest, f) == [f(p), f(q)] + Map(rest, f)
  {
    MapAppend([p, q], rest, f);
    assert Map([p, q], f) == [f(p), f(q)];
  }

  /** Permuting the listed rows leaves the payload as it is. */
  ghost predicate PayloadForgets(t: Tables, ps: seq<PolicyWithRules>, ex: seq<ExceptionRow>, gs: seq<GrantRow>,
                                 a: Args) {
    forall qs, fx, hs :: Reordered(ps, qs) && multiset(ex) == multiset(fx) && multiset(gs) == multiset(hs)
      ==> PayloadFor(t, qs, fx, hs, a) == PayloadFor(t, ps, ex, gs, a)
  }

  ghost predicate HashForgets(t: Tables, ps: seq<PolicyWithRules>, ex: seq<ExceptionRow>, gs: seq<GrantRow>, a: Args) {
    forall qs, fx, hs :: Reordered(ps, qs) && multiset(ex) == multiset(fx) && multiset(gs) == multiset(hs)
      ==> HashOf(a.sha256, PayloadFor(t, qs, fx, hs, a)) == HashOf(a.sha256, PayloadFor(t, ps, ex, gs, a))
  }

  /** Nothing the two locale sorts compare ties: neither two different entries, nor two different compiled rules
      outside the baseline. */
  ghost predicate LocaleTellsApart(t: Tables, ps: seq<PolicyWithRules>, locale: Codex.Locale) {
    EntriesToldApart(t, ps, locale) && Codex.NoTies(Codex.BASELINE, Codex.FromRules(ps), locale)
  }

  /** The payload forgets the order of the listed rows exactly when the locale order tells apart what it sorts. */
  lemma PayloadOrderExactly(t: Tables, ps: seq<PolicyWithRules>, ex: seq<ExceptionRow>, gs: seq<GrantRow>, a: Args)
    requires TotalPreorder(a.locale)
    ensures PayloadForgets(t, ps, ex, gs, a) <==> LocaleTellsApart(t, ps, a.locale)
  {
    if LocaleTellsApart(t, ps, a.locale) {
      forall qs, fx, hs | Reordered(ps, qs) && multiset(ex) == multiset(fx) && multiset(gs) == multiset(hs)
        ensures PayloadFor(t, qs, fx, hs, a) == PayloadFor(t, ps, ex, gs, a) {
        PayloadIgnoresOrder(t, ps, qs, ex, fx, gs, hs, a);
      }
    } else {
      var qs := OrderShows(t, ps, ex, gs, a);
      assert PayloadFor(t, qs, ex, gs, a) != PayloadFor(t, ps, ex, gs, a);
    }
  }

  lemma OrderShows(t: Tables, ps: seq<PolicyWithRules>, ex: seq<ExceptionRow>, gs: seq<GrantRow>, a: Args)
      returns (qs: seq<PolicyWithRules>)
    requires TotalPreorder(a.locale) && !LocaleTellsApart(t, ps, a.locale)
    ensures Reordered(ps, qs) && PayloadFor(t, qs, ex, gs, a) != PayloadFor(t, ps, ex, gs, a)
  {
    if !EntriesToldApart(t, ps, a.locale) {
      EntryOrderExactly(t, ps, a.locale);
      qs :| Reordered(ps, qs)
            && Sort(Map(qs, EntryOf(t)), EntryOrder(a.locale)) != Sort(Map(ps, EntryOf(t)), EntryOrder(a.locale));
      assert PayloadFor(t, qs, ex, gs, a).policies != PayloadFor(t, ps, ex, gs, a).policies;
    } else {
      Codex.ProjectionOrderExactly(ps, a.locale, a.sha256);
      qs :| Reordered(ps, qs)
            && Codex.ProjectionOf(qs, a.locale, a.sha256) != Codex.ProjectionOf(ps, a.locale, a.sha256);
      assert PayloadFor(t, qs, ex, gs, a).codex != PayloadFor(t, ps, ex, gs, a).codex;
    }
  }

  /** And so does the published hash, sha256 being injective. */
  lemma HashOrderExactly(t: Tables, ps: seq<PolicyWithRules>, ex: seq<ExceptionRow>, gs: seq<GrantRow>, a: Args)
    requires TotalPreorder(a.locale) && Injective(a.sha256)
    ensures HashForgets(t, ps, ex, gs, a) <==> LocaleTellsApart(t, ps, a.locale)
  {
    PayloadOrderExactly(t, ps, ex, gs, a);
    if LocaleTellsApart(t, ps, a.locale) {
      assert PayloadForgets(t, ps, ex, gs, a);
    } else {
      var qs := OrderShows(t, ps, ex, gs, a);
      var x, y := PayloadFor(t, qs, ex, gs, a), PayloadFor(t, ps, ex, gs, a);
      if HashOf(a.sha256, x) == HashOf(a.sha256, y) { EqualHashEqualPayload(a.sha256, x, y); }
      assert HashOf(a.sha256, PayloadFor(t, qs, ex, gs, a)) != HashOf(a.sha256, PayloadFor(t, ps, ex, gs, a));
    }
  }

  // ---------------------------------------------- reordered tables, same hash

  /** The same rows in any order. */
  ghost predicate SameRows(s: Source, r: Source) {
    && multiset(s.tables.policies) == multiset(r.tables.policies)
    && multiset(s.tables.rules) == multiset(r.tables.rules)
    && multiset(s.tables.versions) == multiset(r.tables.versions)
    && multiset(s.exceptions) == multiset(r.exceptions)
    && multiset(s.grants) == multiset(r.grants)
  }

  lemma SameView(a: seq<Rule>, b: seq<Rule>, p: Policy)
    requires multiset(a) == multiset(b)
    ensures View(WithRules(a)(p)) == View(WithRules(b)(p))
  {
    FilterPermutes(a, b, RuleOf(p.id));
    SortPermutes(Filter(a, RuleOf(p.id)), RuleLe);
    SortPermutes(Filter(b, RuleOf(p.id)), RuleLe);
  }

  /** What the listing shows of one policy. */
  function Shown(rules: seq<Rule>): Policy -> (Policy, multiset<Rule>) {
    (p: Policy) => View(WithRules(rules)(p))
  }

  lemma PoliciesPermute(a: seq<Policy>, b: seq<Policy>, keep: Policy -> bool)
    requires multiset(a) == multiset(b)
    ensures multiset(Sort(Filter(a, keep), NameLe)) == multiset(Sort(Filter(b, keep), NameLe))
  {
    FilterPermutes(a, b, keep);
    SortPermutes(Filter(a, keep), NameLe);
    SortPermutes(Filter(b, keep), NameLe);
  }

  lemma ShownAlike(a: seq<Policy>, b: seq<Policy>, f: seq<Rule>, g: seq<Rule>)
    requires multiset(a) == multiset(b) && multiset(f) == multiset(g)
    ensures multiset(Map(a, Shown(f))) == multiset(Map(b, Shown(g)))
  {
    var same := (p: Policy) => p;
    assert Map(a, same) == a && Map(b, same) == b;
    MapPermutes(a, b, same, Shown(f));
    forall p: Policy ensures Shown(f)(p) == Shown(g)(p) { SameView(f, g, p); }
    assert Map(b, Shown(f)) == Map(b, Shown(g));
  }

  lemma ShownIsView(a: seq<Policy>, f: seq<Rule>)
    ensures Map(Map(a, WithRules(f)), View) == Map(a, Shown(f))
  {
  }

  lemma ListingReordered(s: Tables, r: Tables, projectId: string)
    requires multiset(s.policies) == multiset(r.policies) && multiset(s.rules) == multiset(r.rules)
    ensures Reordered(ListPolicies(s, projectId), ListPolicies(r, projectId))
  {
    PoliciesPermute(s.policies, r.policies, PolicyIn(projectId));
    var a := Sort(Filter(s.policies, PolicyIn(projectId)), NameLe);
    var b := Sort(Filter(r.policies, PolicyIn(projectId)), NameLe);
    ShownAlike(a, b, s.rules, r.rules);
    ShownIsView(a, s.rules);
    ShownIsView(b, r.rules);
  }

  /** The unique index of the version table. */
  ghost predicate NumbersDistinct(versions: seq<Version>) {
    forall v, w :: v in versions && w in versions && v.policyId == w.policyId && v.number == w.number ==> v == w
  }

  lemma LatestPermutes(x: seq<Version>, y: seq<Version>)
    requires multiset(x) == multiset(y)
    requires forall v, w :: v in x && w in x && v.number == w.number ==> v == w
    ensures Latest(x) == Latest(y)
  {
    PolicyVersions.LatestIsNewest(x);
    PolicyVersions.LatestIsNewest(y);
    forall v ensures v in x <==> v in y { assert v in multiset(x) <==> v in multiset(y); }
    assert |x| == |multiset(x)| == |multiset(y)| == |y|;
  }

  lemma ActiveVersionPermutes(s: Tables, r: Tables, id: string)
    requires multiset(s.versions) == multiset(r.versions) && NumbersDistinct(s.versions)
    ensures GetActivePolicyVersion(s, id) == GetActivePolicyVersion(r, id)
  {
    var active := (v: Version) => v.status == VersionStatus.Active;
    FilterPermutes(s.versions, r.versions, OfPolicy(id));
    FilterMembers(s.versions, OfPolicy(id));
    LatestPermutes(VersionsOf(s, id), VersionsOf(r, id));
    FilterPermutes(VersionsOf(s, id), VersionsOf(r, id), active);
    FilterMembers(VersionsOf(s, id), active);
    LatestPermutes(Filter(VersionsOf(s, id), active), Filter(VersionsOf(r, id), active));
    NewestActiveIs(VersionsOf(s, id), active);
    NewestActiveIs(VersionsOf(r, id), active);
  }

  lemma NewestActiveIs(versions: seq<Version>, active: Version -> bool)
    requires forall v :: active(v) <==> v.status == VersionStatus.Active
    ensures NewestActive(versions) == Latest(Filter(versions, active))
  {
    var own := (v: Version) => v.status == VersionStatus.Active;
    FilterCongruent(versions, own, active);
  }

  lemma EntryReadsVersions(s: Tables, r: Tables, ps: seq<PolicyWithRules>)
    requires multiset(s.versions) == multiset(r.versions) && NumbersDistinct(s.versions)
    ensures Map(ps, EntryOf(s)) == Map(ps, EntryOf(r))
  {
    forall p: PolicyWithRules ensures EntryOf(s)(p) == EntryOf(r)(p) {
      ActiveVersionPermutes(s, r, p.policy.id);
    }
  }

  lemma ExceptionRows(x: seq<ExceptionRow>, y: seq<ExceptionRow>, a: Args)
    requires multiset(x) == multiset(y)
    ensures multiset(Filter(ListExceptions(x, a.projectId), ExceptionsAt(a.now)))
         == multiset(Filter(ListExceptions(y, a.projectId), ExceptionsAt(a.now)))
  {
    FilterPermutes(x, y, ExceptionIn(a.projectId));
    SortPermutes(Filter(x, ExceptionIn(a.projectId)), NewerException);
    SortPermutes(Filter(y, ExceptionIn(a.projectId)), NewerException);
    FilterPermutes(ListExceptions(x, a.projectId), ListExceptions(y, a.projectId), ExceptionsAt(a.now));
  }

  lemma GrantRows(x: seq<GrantRow>, y: seq<GrantRow>, a: Args)
    requires multiset(x) == multiset(y)
    ensures multiset(Filter(ListGrants(x, a.projectId), GrantsAt(a.now)))
         == multiset(Filter(ListGrants(y, a.projectId), GrantsAt(a.now)))
  {
    FilterPermutes(x, y, GrantIn(a.projectId));
    SortPermutes(Filter(x, GrantIn(a.projectId)), NewerGrant);
    SortPermutes(Filter(y, GrantIn(a.projectId)), NewerGrant);
    FilterPermutes(ListGrants(x, a.projectId), ListGrants(y, a.projectId), GrantsAt(a.now));
  }

  // -------------------------------------------------------- what is published

  /** An exception row of the project that applies at the time: active, started, not yet expired. */
  ghost predicate Applies(s: Source, a: Args, row: ExceptionRow) {
    && row in s.exceptions && row.projectId == Some(a.projectId) && row.status == "active"
    && (row.startsAt.Some? ==> row.startsAt.value <= a.now)
    && (row.expiresAt.Some? ==> a.now < row.expiresAt.value)
  }

  ghost predicate Granted(s: Source, a: Args, row: GrantRow) {
    && row in s.grants && row.projectId == Some(a.projectId) && row.revokedAt == None
    && (row.expiresAt.Some? ==> a.now < row.expiresAt.value)
  }

  /** A rule of an active policy of the project. */
  ghost predicate Enforced(s: Source, a: Args, r: Rule) {
    r in s.tables.rules
    && exists p :: p in s.tables.policies && p.id == r.policyId && p.projectId == a.projectId && p.isActive
  }

  lemma ExceptionsExactly(s: Source, a: Args, id: string)
    ensures id in PayloadOf(s, a).activeExceptionIds <==> exists row :: Applies(s, a, row) && row.id == id
  {
    var rows := ActiveExceptions(s, a);
    FilterMembers(s.exceptions, ExceptionIn(a.projectId));
    SortMembers(Filter(s.exceptions, ExceptionIn(a.projectId)), NewerException);
    FilterMembers(ListExceptions(s.exceptions, a.projectId), ExceptionsAt(a.now));
    assert forall row :: row in rows <==> Applies(s, a, row);
    MapMember(rows, ExceptionId, id);
    SortMembers(Map(rows, ExceptionId), StringLe);
    if row :| Applies(s, a, row) && row.id == id { assert ExceptionId(row) == id; }
  }

  lemma GrantedRows(s: Source, a: Args)
    ensures forall row :: row in ActiveGrants(s, a) <==> Granted(s, a, row)
  {
    FilterMembers(s.grants, GrantIn(a.projectId));
    SortMembers(Filter(s.grants, GrantIn(a.projectId)), NewerGrant);
    FilterMembers(ListGrants(s.grants, a.projectId), GrantsAt(a.now));
  }

  lemma GrantsExactly(s: Source, a: Args, id: string)
    ensures id in PayloadOf(s, a).activeGrantIds <==> exists row :: Granted(s, a, row) && row.id == id
  {
    var rows := ActiveGrants(s, a);
    GrantedRows(s, a);
    MapMember(rows, GrantId, id);
    SortMembers(Map(rows, GrantId), StringLe);
    if row :| Granted(s, a, row) && row.id == id { assert GrantId(row) == id; }
  }

  lemma ListedExactly(s: Source, a: Args, q: PolicyWithRules)
    ensures q in ActivePolicies(s, a)
            <==> exists p :: p in s.tables.policies && p.projectId == a.projectId && p.isActive
                             && q == WithRules(s.tables.rules)(p)
  {
    var listed := Sort(Filter(s.tables.policies, PolicyIn(a.projectId)), NameLe);
    SortMembers(Filter(s.tables.policies, PolicyIn(a.projectId)), NameLe);
    FilterMembers(s.tables.policies, PolicyIn(a.projectId));
    FilterMembers(ListPolicies(s.tables, a.projectId), IsActive);
    MapMember(listed, WithRules(s.tables.rules), q);
  }

  lemma RulesInForce<T>(s: Source, a: Args, f: Rule -> seq<T>, x: T)
    ensures x in Each(ActivePolicies(s, a), f) <==> exists r :: Enforced(s, a, r) && x in f(r)
  {
    EachMember(ActivePolicies(s, a), f, x);
    if x in Each(ActivePolicies(s, a), f) {
      var q, r :| q in ActivePolicies(s, a) && r in q.rules && x in f(r);
      ListedExactly(s, a, q);
      ListedRules(s.tables.rules, q.policy, r);
      assert Enforced(s, a, r);
    }
    if r :| Enforced(s, a, r) && x in f(r) {
      var p :| p in s.tables.policies && p.id == r.policyId && p.projectId == a.projectId && p.isActive;
      ListedRules(s.tables.rules, p, r);
      ListedExactly(s, a, WithRules(s.tables.rules)(p));
      assert r in WithRules(s.tables.rules)(p).rules;
    }
  }

  lemma ListedRules(rules: seq<Rule>, p: Policy, r: Rule)
    ensures r in WithRules(rules)(p).rules <==> r in rules && r.policyId == p.id
  {
    FilterMembers(rules, RuleOf(p.id));
    SortMembers(Filter(rules, RuleOf(p.id)), RuleLe);
  }

  lemma PublishedRuleIds(s: Source, a: Args)
    ensures PayloadOf(s, a).activeRuleIds == Sort(Each(ActivePolicies(s, a), RuleId), StringLe)
  {
  }

  lemma IdsInForce(s: Source, a: Args, id: string)
    ensures id in Sort(Each(ActivePolicies(s, a), RuleId), StringLe) <==> exists r :: Enforced(s, a, r) && r.id == id
  {
    SortMembers(Each(ActivePolicies(s, a), RuleId), StringLe);
    RulesInForce(s, a, RuleId, id);
    if r :| Enforced(s, a, r) && r.id == id { assert id in RuleId(r); }
  }

  lemma RuleIdsExactly(s: Source, a: Args, id: string)
    ensures id in PayloadOf(s, a).activeRuleIds <==> exists r :: Enforced(s, a, r) && r.id == id
  {
    PublishedRuleIds(s, a);
    IdsInForce(s, a, id);
  }

  ghost predicate ClaimedByRule(s: Source, a: Args, cap: string) {
    exists r :: Enforced(s, a, r) && Some(cap) in {r.fields.requiredCapability, r.fields.excludedCapability}
  }

  ghost predicate ClaimedByGrant(s: Source, a: Args, cap: string) {
    exists row :: Granted(s, a, row) && row.targetCapability == Some(cap)
  }

  lemma RuleCapabilitiesExactly(s: Source, a: Args, cap: string)
    ensures cap in Each(ActivePolicies(s, a), RuleCapabilities) <==> cap != "" && ClaimedByRule(s, a, cap)
  {
    RulesInForce(s, a, RuleCapabilities, cap);
    forall r ensures cap in RuleCapabilities(r)
                     <==> cap != "" && Some(cap) in {r.fields.requiredCapability, r.fields.excludedCapability} {
      PresentExactly(r.fields.requiredCapability, cap);
      PresentExactly(r.fields.excludedCapability, cap);
    }
  }

  lemma GrantCapabilitiesExactly(s: Source, a: Args, cap: string)
    ensures cap in FlatMap(ActiveGrants(s, a), GrantCapability) <==> cap != "" && ClaimedByGrant(s, a, cap)
  {
    FlatMapMember(ActiveGrants(s, a), GrantCapability, cap);
    GrantedRows(s, a);
    forall row ensures cap in GrantCapability(row) <==> cap != "" && row.targetCapability == Some(cap) {
      PresentExactly(row.targetCapability, cap);
    }
  }

  /** A capability is published when a rule in force requires or excludes it or a grant activates it. */
  lemma CapabilitiesExactly(s: Source, a: Args, cap: string)
    ensures cap in PayloadOf(s, a).activeCapabilities
            <==> cap != "" && (ClaimedByRule(s, a, cap) || ClaimedByGrant(s, a, cap))
  {
    UniqueSortedShape(Each(ActivePolicies(s, a), RuleCapabilities) + FlatMap(ActiveGrants(s, a), GrantCapability));
    RuleCapabilitiesExactly(s, a, cap);
    GrantCapabilitiesExactly(s, a, cap);
  }

  lemma PresentExactly(o: Option<string>, cap: string)
    ensures cap in Present(o) <==> cap != "" && o == Some(cap)
  {
  }

  /** The entry describes this policy as it is now: its newest version, which is the only active one, and
      whose snapshot is the live policy and rules. */
  ghost predicate Describes(e: Entry, t: Tables, p: Policy, digest: Digest) {
    var versions := VersionsOf(t, p.id);
    && e.policyId == p.id && e.name == p.name && e.groupKey == p.groupKey && e.profile == p.profile
    && e.enforcementMode == p.enforcementMode
    && versions != [] && e.activeVersionId == Some(versions[|versions| - 1].id)
    && e.versionNumber == Some(|versions|) && e.snapshotHash == Some(digest(Live(t, p)))
    && SortedBy(e.ruleIds, StringLe)
    && multiset(e.ruleIds) == multiset(Map(Filter(t.rules, RuleOf(p.id)), RuleIdOf))
  }

  lemma EntryDescribes(t: Tables, digest: Digest, p: Policy)
    requires PolicyVersions.Inv(t, digest) && p in t.policies
    ensures Describes(EntryOf(t)(WithRules(t.rules)(p)), t, p, digest)
  {
    var versions := VersionsOf(t, p.id);
    PolicyVersions.OnlyLastActive(digest, versions);
    var own, listed := Filter(t.rules, RuleOf(p.id)), WithRules(t.rules)(p).rules;
    SortPermutes(own, RuleLe);
    SortPermutes(Map(listed, RuleIdOf), StringLe);
    StringOrder();
    SortSorts(Map(listed, RuleIdOf), StringLe);
    MapItself(own);
    MapItself(listed);
    MapPermutes(listed, own, Itself, RuleIdOf);
  }

  /** The entry has the columns of this policy and the version a reader of it gets, if any. */
  ghost predicate HasColumns(e: Entry, t: Tables, p: Policy) {
    && e.policyId == p.id && e.name == p.name && e.groupKey == p.groupKey && e.profile == p.profile
    && e.enforcementMode == p.enforcementMode
    && match GetActivePolicyVersion(t, p.id)
       case Some(v) => e.activeVersionId == Some(v.id) && e.versionNumber == Some(v.number)
                       && e.snapshotHash == Some(v.hash)
       case None => e.activeVersionId == None && e.versionNumber == None && e.snapshotHash == None
  }

  lemma EntryHasColumns(t: Tables, p: Policy)
    ensures HasColumns(EntryOf(t)(WithRules(t.rules)(p)), t, p)
  {
  }

  /** Whatever the tables hold, an entry has the columns of an active policy of the project. */
  lemma EntriesShowPolicies(s: Source, a: Args, e: Entry)
    requires e in PayloadOf(s, a).policies
    ensures exists p :: p in s.tables.policies && p.projectId == a.projectId && p.isActive
                        && HasColumns(e, s.tables, p)
  {
    var entries := Map(ActivePolicies(s, a), EntryOf(s.tables));
    SortMembers(entries, EntryOrder(a.locale));
    MapMember(ActivePolicies(s, a), EntryOf(s.tables), e);
    var q :| q in ActivePolicies(s, a) && EntryOf(s.tables)(q) == e;
    var p := ActiveIsListed(s, a, q);
    EntryHasColumns(s.tables, p);
  }

  /** After any admissible sequence of policy calls, each published entry describes an active policy of the
      project as it is now. */
  lemma EntriesDescribeLivePolicies(s: Source, a: Args, digest: Digest, calls: seq<PolicyVersions.Call>, e: Entry)
    requires PolicyVersions.Injective(digest) && PolicyVersions.AllAdmissible(digest, calls)
    requires s.tables == PolicyVersions.Run(digest, calls) && e in PayloadOf(s, a).policies
    ensures exists p :: p in s.tables.policies && p.projectId == a.projectId && p.isActive
                        && Describes(e, s.tables, p, digest)
  {
    PolicyVersions.RunInv(digest, calls);
    var entries := Map(ActivePolicies(s, a), EntryOf(s.tables));
    SortMembers(entries, EntryOrder(a.locale));
    MapMember(ActivePolicies(s, a), EntryOf(s.tables), e);
    var q :| q in ActivePolicies(s, a) && EntryOf(s.tables)(q) == e;
    var p := ActiveIsListed(s, a, q);
    EntryDescribes(s.tables, digest, p);
  }

  lemma ActiveIsListed(s: Source, a: Args, q: PolicyWithRules) returns (p: Policy)
    requires q in ActivePolicies(s, a)
    ensures p in s.tables.policies && p.projectId == a.projectId && p.isActive && q == WithRules(s.tables.rules)(p)
  {
    ListedExactly(s, a, q);
    p :| p in s.tables.policies && p.projectId == a.projectId && p.isActive && q == WithRules(s.tables.rules)(p);
  }

  /** Every active policy of the project has an entry. */
  lemma EveryPolicyHasEntry(s: Source, a: Args, digest: Digest, p: Policy)
    requires PolicyVersions.Inv(s.tables, digest)
    requires p in s.tables.policies && p.projectId == a.projectId && p.isActive
    ensures exists e :: e in PayloadOf(s, a).policies && Describes(e, s.tables, p, digest)
  {
    var q := WithRules(s.tables.rules)(p);
    var entries := Map(ActivePolicies(s, a), EntryOf(s.tables));
    ListedExactly(s, a, q);
    MapMember(ActivePolicies(s, a), EntryOf(s.tables), EntryOf(s.tables)(q));
    SortMembers(entries, EntryOrder(a.locale));
    EntryDescribes(s.tables, digest, p);
  }

  /** A version is listed exactly when a reader of an active policy of the project gets it. */
  lemma VersionIdsExactly(s: Source, a: Args, id: string)
    ensures id in PayloadOf(s, a).policyVersionIds
            <==> exists p, v :: p in s.tables.policies && p.projectId == a.projectId && p.isActive
                                && GetActivePolicyVersion(s.tables, p.id) == Some(v) && v.id == id
  {
    var ps := ActivePolicies(s, a);
    var entries := Map(ps, EntryOf(s.tables));
    SortMembers(FlatMap(entries, VersionIds), StringLe);
    FlatMapMember(entries, VersionIds, id);
    if e :| e in entries && id in VersionIds(e) { var p, v := ReadOfEntry(s, a, e, id); }
    if p, v :| p in s.tables.policies && p.projectId == a.projectId && p.isActive
               && GetActivePolicyVersion(s.tables, p.id) == Some(v) && v.id == id {
      var e := EntryOfRead(s, a, p, v);
    }
  }

  lemma EntryOfRead(s: Source, a: Args, p: Policy, v: Version) returns (e: Entry)
    requires p in s.tables.policies && p.projectId == a.projectId && p.isActive
    requires GetActivePolicyVersion(s.tables, p.id) == Some(v)
    ensures e in Map(ActivePolicies(s, a), EntryOf(s.tables)) && v.id in VersionIds(e)
  {
    var q := WithRules(s.tables.rules)(p);
    e := EntryOf(s.tables)(q);
    ListedExactly(s, a, q);
    MapMember(ActivePolicies(s, a), EntryOf(s.tables), e);
  }

  lemma ReadOfEntry(s: Source, a: Args, e: Entry, id: string) returns (p: Policy, v: Version)
    requires e in Map(ActivePolicies(s, a), EntryOf(s.tables)) && id in VersionIds(e)
    ensures p in s.tables.policies && p.projectId == a.projectId && p.isActive
    ensures GetActivePolicyVersion(s.tables, p.id) == Some(v) && v.id == id
  {
    MapMember(ActivePolicies(s, a), EntryOf(s.tables), e);
    var q :| q in ActivePolicies(s, a) && EntryOf(s.tables)(q) == e;
    p := ActiveIsListed(s, a, q);
    v := GetActivePolicyVersion(s.tables, p.id).value;
  }

  /** The entries are in the locale's order of policy ids, and every list of ids in code-point order; a capability is
      listed once. */
  lemma ListsInOrder(s: Source, a: Args)
    requires TotalPreorder(a.locale)
    ensures var p := PayloadOf(s, a);
            && (forall i, j :: 0 <= i < j < |p.policies| ==> a.locale(p.policies[i].policyId, p.policies[j].policyId))
            && SortedBy(p.activeRuleIds, StringLe) && SortedBy(p.activeExceptionIds, StringLe)
            && SortedBy(p.activeGrantIds, StringLe) && SortedBy(p.policyVersionIds, StringLe)
            && SortedBy(p.activeCapabilities, StringLe) && Distinct(p.activeCapabilities)
  {
    var ps := ActivePolicies(s, a);
    var entries := Map(ps, EntryOf(s.tables));
    StringOrder();
    EntryOrdered(a.locale);
    SortSorts(entries, EntryOrder(a.locale));
    EntriesByLocale(Sort(entries, EntryOrder(a.locale)), a.locale);
    SortSorts(Each(ps, RuleId), StringLe);
    SortSorts(Map(ActiveExceptions(s, a), ExceptionId), StringLe);
    SortSorts(Map(ActiveGrants(s, a), GrantId), StringLe);
    SortSorts(FlatMap(entries, VersionIds), StringLe);
    UniqueSortedShape(Each(ps, RuleCapabilities) + FlatMap(ActiveGrants(s, a), GrantCapability));
  }

  lemma EntriesByLocale(entries: seq<Entry>, locale: Codex.Locale)
    requires SortedBy(entries, EntryOrder(locale))
    ensures forall i, j :: 0 <= i < j < |entries| ==> locale(entries[i].policyId, entries[j].policyId)
  {
    forall i, j | 0 <= i < j < |entries| ensures locale(entries[i].policyId, entries[j].policyId) {
      assert EntryOrder(locale)(entries[i], entries[j]);
    }
  }

  /** Entries that tie for the locale come by name. */
  lemma TiesComeByName(s: Source, a: Args, e: Entry, f: Entry)
    requires Distinct(PayloadOf(s, a).policies) && Precedes(PayloadOf(s, a).policies, e, f)
    requires a.locale(e.policyId, f.policyId) && a.locale(f.policyId, e.policyId)
    ensures StringLe(e.name, f.name)
  {
    PublishedEntries(s, a);
    TiedEntries(s, a, PayloadOf(s, a).policies, e, f);
  }

  lemma TiedEntries(s: Source, a: Args, published: seq<Entry>, e: Entry, f: Entry)
    requires published == Sort(Map(ActivePolicies(s, a), EntryOf(s.tables)), EntryOrder(a.locale))
    requires Distinct(published) && Precedes(published, e, f)
    requires a.locale(e.policyId, f.policyId) && a.locale(f.policyId, e.policyId)
    ensures StringLe(e.name, f.name)
  {
    var entries := Map(ActivePolicies(s, a), EntryOf(s.tables));
    SortMembers(entries, EntryOrder(a.locale));
    if !StringLe(e.name, f.name) {
      ListedByName(s, a, f, e);
      TieStays(entries, f, e, a.locale);
    }
  }

  lemma PublishedEntries(s: Source, a: Args)
    ensures PayloadOf(s, a).policies == Sort(Map(ActivePolicies(s, a), EntryOf(s.tables)), EntryOrder(a.locale))
  {
  }

  lemma TieStays(entries: seq<Entry>, f: Entry, e: Entry, locale: Codex.Locale)
    requires Precedes(entries, f, e) && locale(f.policyId, e.policyId)
    requires Distinct(Sort(entries, EntryOrder(locale)))
    ensures !Precedes(Sort(entries, EntryOrder(locale)), e, f)
  {
    SortIsStable(entries, f, e, EntryOrder(locale));
    OneOrder(Sort(entries, EntryOrder(locale)), f, e);
  }

  lemma ListedByName(s: Source, a: Args, f: Entry, e: Entry)
    requires var entries := Map(ActivePolicies(s, a), EntryOf(s.tables)); e in entries && f in entries
    requires !StringLe(e.name, f.name)
    ensures Precedes(Map(ActivePolicies(s, a), EntryOf(s.tables)), f, e)
  {
    var ps := ActivePolicies(s, a);
    var entries := Map(ps, EntryOf(s.tables));
    var i :| 0 <= i < |entries| && entries[i] == e;
    var j :| 0 <= j < |entries| && entries[j] == f;
    ActiveByName(s, a);
    assert forall x, y :: 0 <= x < y < |ps| ==> StringLe(ps[x].policy.name, ps[y].policy.name);
    assert ps[i].policy.name == e.name && ps[j].policy.name == f.name;
    if i == j { StringLeTotal(e.name, e.name); }
    assert j < i;
  }

  ghost predicate ByName(ps: seq<PolicyWithRules>) {
    forall i, j :: 0 <= i < j < |ps| ==> StringLe(ps[i].policy.name, ps[j].policy.name)
  }

  lemma ActiveByName(s: Source, a: Args)
    ensures ByName(ActivePolicies(s, a))
  {
    var mine := Filter(s.tables.policies, PolicyIn(a.projectId));
    var listed := Sort(mine, NameLe);
    forall p, q ensures NameLe(p, q) || NameLe(q, p) { StringLeTotal(p.name, q.name); }
    forall p, q, r | NameLe(p, q) && NameLe(q, r) ensures NameLe(p, r) { StringLeTransitive(p.name, q.name, r.name); }
    SortSorts(mine, NameLe);
    var ps := ListPolicies(s.tables, a.projectId);
    forall i, j | 0 <= i < j < |ps| ensures StringLe(ps[i].policy.name, ps[j].policy.name) {
      assert ps[i].policy == listed[i] && ps[j].policy == listed[j];
      assert NameLe(listed[i], listed[j]);
    }
    FilterByName(ps);
  }

  lemma {:induction false} FilterByName(ps: seq<PolicyWithRules>)
    requires ByName(ps)
    ensures ByName(Filter(ps, IsActive))
  {
    if ps != [] {
      var n := |ps| - 1;
      var h, qs := ps[..n], Filter(ps[..n], IsActive);
      FilterByName(h);
      FilterMembers(h, IsActive);
      forall i | 0 <= i < |qs| ensures StringLe(qs[i].policy.name, ps[n].policy.name) {
        assert qs[i] in qs;
        var j :| 0 <= j < n && h[j] == qs[i];
        assert ps[j] == qs[i];
      }
    }
  }

  /** Each text of Claude Code's lists comes from a rule in force, */
  lemma ClaudeExactly(s: Source, a: Args, d: Decision, v: string)
    ensures v in Claude.ListOf(PayloadOf(s, a).claude.payload, d)
            <==> exists r :: Enforced(s, a, r) && Claude.Translatable(r) && r.fields.decision == d
                             && Claude.ReadsAs(r, v)
  {
    var ps := ActivePolicies(s, a);
    Claude.ListHoldsExactly(ps, d, v);
    if r :| Enforced(s, a, r) && Claude.Translatable(r) && r.fields.decision == d && Claude.ReadsAs(r, v) {
      EnforcedIsInForce(s, a, r);
      var p :| InForce(ps, p, r);
      assert Claude.Grants(ps, p, r, d, v);
    }
    if p, r :| Claude.Grants(ps, p, r, d, v) {
      assert InForce(ps, p, r);
      EnforcedIsInForce(s, a, r);
    }
  }

  /** and each filesystem rule of Codex that is not fixed. */
  lemma CodexExactly(s: Source, a: Args, root: Codex.FsRule)
    ensures root in PayloadOf(s, a).codex.roots
            <==> Codex.Fixed(root) || exists r :: Enforced(s, a, r) && Codex.Becomes(r, root)
  {
    var ps := ActivePolicies(s, a);
    Codex.RootsExactly(ps, a.locale, root);
    if r :| Enforced(s, a, r) && Codex.Becomes(r, root) { EnforcedIsInForce(s, a, r); }
    if p, r :| InForce(ps, p, r) && Codex.Becomes(r, root) { EnforcedIsInForce(s, a, r); }
  }

  lemma EnforcedIsInForce(s: Source, a: Args, r: Rule)
    ensures Enforced(s, a, r) <==> exists p :: InForce(ActivePolicies(s, a), p, r)
  {
    var ps := ActivePolicies(s, a);
    FilterMembers(ListPolicies(s.tables, a.projectId), IsActive);
    if p :| InForce(ps, p, r) {
      ListedExactly(s, a, p);
      ListedRules(s.tables.rules, p.policy, r);
    }
    if Enforced(s, a, r) {
      var p :| p in s.tables.policies && p.id == r.policyId && p.projectId == a.projectId && p.isActive;
      var q := WithRules(s.tables.rules)(p);
      ListedRules(s.tables.rules, p, r);
      ListedExactly(s, a, q);
      assert InForce(ps, q, r);
    }
  }

  // ---------------------------------------------------------------- the clock

  /** The project's exceptions and grants that are active at the two times are the same rows. */
  ghost predicate SameActiveRows(s: Source, a: Args, b: Args) {
    && (forall row :: row in s.exceptions && row.projectId == Some(a.projectId)
                      ==> ExceptionActive(row, a.now) == ExceptionActive(row, b.now))
    && (forall row :: row in s.grants && row.projectId == Some(a.projectId)
                      ==> GrantActive(row, a.now) == GrantActive(row, b.now))
  }

  /** Time enters a projection only through which exceptions and grants are active. */
  lemma ClockReadsActivityOnly(s: Source, a: Args, later: int)
    requires SameActiveRows(s, a, a.(now := later))
    ensures PayloadOf(s, a) == PayloadOf(s, a.(now := later))
  {
    SortMembers(Filter(s.exceptions, ExceptionIn(a.projectId)), NewerException);
    FilterMembers(s.exceptions, ExceptionIn(a.projectId));
    FilterCongruent(ListExceptions(s.exceptions, a.projectId), ExceptionsAt(a.now), ExceptionsAt(later));
    SortMembers(Filter(s.grants, GrantIn(a.projectId)), NewerGrant);
    FilterMembers(s.grants, GrantIn(a.projectId));
    FilterCongruent(ListGrants(s.grants, a.projectId), GrantsAt(a.now), GrantsAt(later));
  }

  predicate Passed(o: Option<int>, a: int, b: int) { o.Some? && a < o.value <= b }

  /** A projection changes by the clock alone only when a start or an expiry has been passed. */
  lemma QuietInterval(s: Source, a: Args, later: int)
    requires a.now <= later
    requires forall row :: row in s.exceptions ==>
               !Passed(row.startsAt, a.now, later) && !Passed(row.expiresAt, a.now, later)
    requires forall row :: row in s.grants ==> !Passed(row.expiresAt, a.now, later)
    ensures PayloadOf(s, a) == PayloadOf(s, a.(now := later))
  {
    ClockReadsActivityOnly(s, a, later);
  }

  // --------------------------------------------------- what a hash determines

  /** Equal hashes mean the same active rules, exceptions, grants, capabilities and policy versions. */
  lemma EqualHashEqualRows(s: Source, a: Args, r: Source, b: Args)
    requires a.sha256 == b.sha256 && Injective(a.sha256)
    requires HashOf(a.sha256, PayloadOf(s, a)) == HashOf(b.sha256, PayloadOf(r, b))
    ensures multiset(Map(ActivePolicies(s, a), EntryOf(s.tables)))
         == multiset(Map(ActivePolicies(r, b), EntryOf(r.tables)))
    ensures multiset(Each(ActivePolicies(s, a), RuleId)) == multiset(Each(ActivePolicies(r, b), RuleId))
    ensures multiset(Map(ActiveExceptions(s, a), ExceptionId)) == multiset(Map(ActiveExceptions(r, b), ExceptionId))
    ensures multiset(Map(ActiveGrants(s, a), GrantId)) == multiset(Map(ActiveGrants(r, b), GrantId))
  {
    EqualHashEqualPayload(a.sha256, PayloadOf(s, a), PayloadOf(r, b));
    SortPermutes(Map(ActivePolicies(s, a), EntryOf(s.tables)), EntryOrder(a.locale));
    SortPermutes(Map(ActivePolicies(r, b), EntryOf(r.tables)), EntryOrder(b.locale));
    SortedExactly(Each(ActivePolicies(s, a), RuleId), Each(ActivePolicies(r, b), RuleId));
    SortedExactly(Map(ActiveExceptions(s, a), ExceptionId), Map(ActiveExceptions(r, b), ExceptionId));
    SortedExactly(Map(ActiveGrants(s, a), GrantId), Map(ActiveGrants(r, b), GrantId));
  }
}
