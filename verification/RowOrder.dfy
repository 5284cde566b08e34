/**
  Which orders of the table rows show in a policy projection
  (packages/db/src/policy-projection.ts). The list queries sort by name and by
  priority, so many ties of the two locale sorts come out in one order anyway.
*/
module RowOrder {
  import opened Collections
  import opened Text
  import opened PolicyTables
  import opened PolicyViews
  import opened PolicyProjection
  import opened ProjectionPayload
  import opened StableSort
  import Claude = ClaudePermissions
  import Codex = CodexPermissions

  // ------------------------------------------------------------- the listing

  /** An active policy of the project. */
  function Listable(a: Args): Policy -> bool { (p: Policy) => p.projectId == a.projectId && p.isActive }

  /** In query order. */
  function Listed(s: Source, a: Args): seq<Policy> { Sort(Filter(s.tables.policies, Listable(a)), NameLe) }

  function RulesOf(s: Source, p: Policy): seq<Rule> { Sort(Filter(s.tables.rules, RuleOf(p.id)), RuleLe) }

  lemma QueryOrders()
    ensures TotalPreorder(NameLe) && TotalPreorder(RuleLe)
  {
    StringOrder();
    forall a, b ensures NameLe(a, b) || NameLe(b, a) { assert StringLe(a.name, b.name) || StringLe(b.name, a.name); }
    forall a, b, c | NameLe(a, b) && NameLe(b, c) ensures NameLe(a, c) { StringLeTransitive(a.name, b.name, c.name); }
  }

  lemma {:induction false} FilterOfMap<T, U>(s: seq<T>, f: T -> U, keep: U -> bool, kept: T -> bool)
    requires forall x :: kept(x) == keep(f(x))
    ensures Filter(Map(s, f), keep) == Map(Filter(s, kept), f)
  {
    if s != [] {
      var m := |s| - 1;
      FilterOfMap(s[..m], f, keep, kept);
      assert Map(s, f) == Map(s[..m], f) + [f(s[m])];
      FilterSnoc(Map(s[..m], f), f(s[m]), keep);
      MapAppend(Filter(s[..m], kept), [s[m]], f);
      assert Map([s[m]], f) == [f(s[m])];
    }
  }

  lemma ActiveIsListed(s: Source, a: Args)
    ensures ActivePolicies(s, a) == Map(Listed(s, a), WithRules(s.tables.rules))
  {
    var active := (p: Policy) => p.isActive;
    var all := Filter(s.tables.policies, PolicyIn(a.projectId));
    QueryOrders();
    FilterOfMap(Sort(all, NameLe), WithRules(s.tables.rules), IsActive, active);
    FilterSort(all, NameLe, active);
    FilterTwice(s.tables.policies, PolicyIn(a.projectId), active, Listable(a));
  }

  // ------------------------------------------------- what depends on the order

  function EntryAt(s: Source): Policy -> Entry {
    (p: Policy) => EntryOf(s.tables)(WithRules(s.tables.rules)(p))
  }

  function Entries(s: Source, a: Args): seq<Entry> { Map(Listed(s, a), EntryAt(s)) }

  /** What the rules of a policy compile to, in query order. */
  function Emitted(s: Source): Policy -> seq<Codex.FsRule> {
    (p: Policy) => FlatMap(RulesOf(s, p), Permissions(Codex.CompileRule))
  }

  function Rules(s: Source, a: Args): seq<Codex.FsRule> { FlatMap(Listed(s, a), Emitted(s)) }

  function Roots(s: Source, a: Args): seq<Codex.FsRule> {
    Codex.UniqueSortedRules(Codex.BASELINE + Rules(s, a), a.locale)
  }

  lemma {:induction false} FlatMapOfMap<T, U, V>(s: seq<T>, f: T -> U, g: U -> seq<V>, both: T -> seq<V>)
    requires forall x :: both(x) == g(f(x))
    ensures FlatMap(Map(s, f), g) == FlatMap(s, both)
  {
    if s != [] {
      var m := |s| - 1;
      FlatMapOfMap(s[..m], f, g, both);
      assert Map(s, f)[..m] == Map(s[..m], f);
    }
  }

  lemma FromRulesIs(s: Source, a: Args)
    ensures Codex.FromRules(ActivePolicies(s, a)) == Rules(s, a)
  {
    var ps := ActivePolicies(s, a);
    FilterMembers(ListPolicies(s.tables, a.projectId), IsActive);
    FilterKeepsAll(ps, IsActive);
    ActiveIsListed(s, a);
    FlatMapOfMap(Listed(s, a), WithRules(s.tables.rules), InPolicy(Permissions(Codex.CompileRule)), Emitted(s));
  }

  lemma EntriesAre(s: Source, a: Args)
    ensures Map(ActivePolicies(s, a), EntryOf(s.tables)) == Entries(s, a)
  {
    ActiveIsListed(s, a);
  }

  /** Of a payload only the entry list and the Codex roots can depend on row order. */
  lemma OrderShowsIn(s: Source, r: Source, a: Args)
    requires SameRows(s, r) && NumbersDistinct(s.tables.versions)
    ensures PayloadOf(s, a) == PayloadOf(r, a)
            <==> Sort(Entries(s, a), EntryOrder(a.locale)) == Sort(Entries(r, a), EntryOrder(a.locale))
                 && Roots(s, a) == Roots(r, a)
  {
    var ps, qs := ActivePolicies(s, a), ActivePolicies(r, a);
    ListingReordered(s.tables, r.tables, a.projectId);
    PolicyViews.ActiveReordered(ListPolicies(s.tables, a.projectId), ListPolicies(r.tables, a.projectId));
    EntriesAre(s, a);
    EntriesAre(r, a);
    FromRulesIs(s, a);
    FromRulesIs(r, a);
    OtherPartsAgree(s, r, a);
    CodexByRoots(ps, qs, a);
  }

  lemma OtherPartsAgree(s: Source, r: Source, a: Args)
    requires SameRows(s, r) && NumbersDistinct(s.tables.versions)
    requires Reordered(ActivePolicies(s, a), ActivePolicies(r, a))
    ensures var x, y := PayloadOf(s, a), PayloadOf(r, a);
            x == y.(policies := x.policies, codex := x.codex)
  {
    var ps, qs := ActivePolicies(s, a), ActivePolicies(r, a);
    ExceptionRows(s.exceptions, r.exceptions, a);
    GrantRows(s.grants, r.grants, a);
    EntryReadsVersions(s.tables, r.tables, qs);
    OtherParts(s.tables, ps, qs, ActiveExceptions(s, a), ActiveExceptions(r, a), ActiveGrants(s, a),
               ActiveGrants(r, a), a);
  }

  lemma OtherParts(t: Tables, ps: seq<PolicyWithRules>, qs: seq<PolicyWithRules>, ex: seq<ExceptionRow>,
                   fx: seq<ExceptionRow>, gs: seq<GrantRow>, hs: seq<GrantRow>, a: Args)
    requires Reordered(ps, qs) && multiset(ex) == multiset(fx) && multiset(gs) == multiset(hs)
    ensures var x, y := PayloadFor(t, ps, ex, gs, a), PayloadFor(t, qs, fx, hs, a);
            x == y.(policies := x.policies, codex := x.codex)
  {
    var es, fs := Map(ps, EntryOf(t)), Map(qs, EntryOf(t));
    EntriesPermute(t, ps, qs);
    FlatPermutes(es, fs, VersionIds);
    SortedExactly(FlatMap(es, VersionIds), FlatMap(fs, VersionIds));
    EachPermutes(ps, qs, RuleId);
    SortedExactly(Each(ps, RuleId), Each(qs, RuleId));
    IdsPermute(ex, fx, ExceptionId);
    IdsPermute(gs, hs, GrantId);
    EachPermutes(ps, qs, RuleCapabilities);
    FlatPermutes(gs, hs, GrantCapability);
    UniqueSortedPermutes(Each(ps, RuleCapabilities) + FlatMap(gs, GrantCapability),
                         Each(qs, RuleCapabilities) + FlatMap(hs, GrantCapability));
    Claude.PayloadIgnoresOrder(ps, qs);
  }

  lemma CodexByRoots(ps: seq<PolicyWithRules>, qs: seq<PolicyWithRules>, a: Args)
    requires Reordered(ps, qs)
    ensures Codex.ProjectionOf(ps, a.locale, a.sha256) == Codex.ProjectionOf(qs, a.locale, a.sha256)
            <==> Codex.UniqueSortedRules(Codex.Compiled(ps), a.locale)
                 == Codex.UniqueSortedRules(Codex.Compiled(qs), a.locale)
  {
    PolicyViews.ActiveReordered(ps, qs);
    var x, y := Filter(ps, IsActive), Filter(qs, IsActive);
    var f, g := TranslatedId(Codex.CompileRule), UntranslatedId(Codex.CompileRule);
    EachPermutes(x, y, f);
    EachPermutes(x, y, g);
    UniqueSortedPermutes(Each(x, f), Each(y, f));
    UniqueSortedPermutes(Each(x, g), Each(y, g));
  }

  lemma SameMembers<T>(x: seq<T>, y: seq<T>)
    requires multiset(x) == multiset(y)
    ensures forall e :: e in x <==> e in y
  {
    forall e ensures e in x <==> e in y { assert e in multiset(x) <==> e in multiset(y); }
  }

  lemma ListedMembers(s: Source, a: Args)
    ensures forall p :: p in Listed(s, a) <==> p in s.tables.policies && Listable(a)(p)
  {
    FilterMembers(s.tables.policies, Listable(a));
    SortMembers(Filter(s.tables.policies, Listable(a)), NameLe);
  }

  // ----------------------------------------------------------- the entry list

  predicate NamesLe(x: Entry, y: Entry) { StringLe(x.name, y.name) }

  /** No two different entries have one name and tie in the locale order of their ids. */
  ghost predicate NamesakesApart(s: Source, a: Args) {
    forall x, y :: x in Entries(s, a) && y in Entries(s, a) && TiedNamesakes(a, x, y) ==> x == y
  }

  predicate TiedNamesakes(a: Args, x: Entry, y: Entry) {
    x.name == y.name && EntryLe(a.locale, x, y) && EntryLe(a.locale, y, x)
  }

  lemma EntriesByName(s: Source, a: Args)
    ensures SortedBy(Entries(s, a), NamesLe)
  {
    ListedByName(s, a);
    var listed := Listed(s, a);
    forall i, j | 0 <= i < j < |listed| ensures NamesLe(EntryAt(s)(listed[i]), EntryAt(s)(listed[j])) {
      assert NameLe(listed[i], listed[j]);
      EntryName(s, listed[i]);
      EntryName(s, listed[j]);
    }
  }

  lemma EntryName(s: Source, p: Policy)
    ensures EntryAt(s)(p).name == p.name && EntryAt(s)(p).policyId == p.id
  {
    var w := WithRules(s.tables.rules)(p);
    assert EntryAt(s)(p) == EntryOf(s.tables)(w) && w.policy == p;
    match GetActivePolicyVersion(s.tables, w.policy.id)
    case Some(_) =>
    case None =>
  }

  lemma ListedByName(s: Source, a: Args)
    ensures SortedBy(Listed(s, a), NameLe)
  {
    QueryOrders();
    SortSorts(Filter(s.tables.policies, Listable(a)), NameLe);
  }

  lemma SameEntries(s: Source, r: Source, a: Args)
    requires SameRows(s, r) && NumbersDistinct(s.tables.versions)
    ensures multiset(Entries(s, a)) == multiset(Entries(r, a))
  {
    ListingReordered(s.tables, r.tables, a.projectId);
    PolicyViews.ActiveReordered(ListPolicies(s.tables, a.projectId), ListPolicies(r.tables, a.projectId));
    EntriesPermute(s.tables, ActivePolicies(s, a), ActivePolicies(r, a));
    EntryReadsVersions(s.tables, r.tables, ActivePolicies(r, a));
    EntriesAre(s, a);
    EntriesAre(r, a);
  }

  lemma NamesOrdered()
    ensures TotalPreorder(NamesLe)
  {
    StringOrder();
    forall a, b ensures NamesLe(a, b) || NamesLe(b, a) { assert StringLe(a.name, b.name) || StringLe(b.name, a.name); }
    forall a, b, c | NamesLe(a, b) && NamesLe(b, c) ensures NamesLe(a, c) {
      StringLeTransitive(a.name, b.name, c.name);
    }
  }

  lemma EntriesSettle(s: Source, r: Source, a: Args)
    requires SameRows(s, r) && NumbersDistinct(s.tables.versions) && TotalPreorder(a.locale) && NamesakesApart(s, a)
    ensures Sort(Entries(s, a), EntryOrder(a.locale)) == Sort(Entries(r, a), EntryOrder(a.locale))
  {
    EntriesByName(s, a);
    EntriesByName(r, a);
    SameEntries(s, r, a);
    SortSameEntries(Entries(s, a), Entries(r, a), a);
  }

  /** Lists in name order, sorted by the locale order of the ids. */
  lemma SortSameEntries(es: seq<Entry>, fs: seq<Entry>, a: Args)
    requires SortedBy(es, NamesLe) && SortedBy(fs, NamesLe) && multiset(es) == multiset(fs) && TotalPreorder(a.locale)
    requires forall x, y :: x in es && y in es && TiedNamesakes(a, x, y) ==> x == y
    ensures Sort(es, EntryOrder(a.locale)) == Sort(fs, EntryOrder(a.locale))
  {
    var le := EntryOrder(a.locale);
    EntryOrdered(a.locale);
    NamesOrdered();
    LexOrdered(le, NamesLe);
    SortTwice(es, le, NamesLe);
    SortTwice(fs, le, NamesLe);
    forall x, y | x in multiset(es) && y in multiset(es) && Lex(le, NamesLe)(x, y) && Lex(le, NamesLe)(y, x)
      ensures x == y
    {
      StringLeAntisymmetric(x.name, y.name);
      assert TiedNamesakes(a, x, y);
    }
    SortCanonical(es, fs, Lex(le, NamesLe));
  }

  lemma WithPolicies(s: Source, policies: seq<Policy>) returns (r: Source)
    requires multiset(policies) == multiset(s.tables.policies)
    ensures r == s.(tables := s.tables.(policies := policies)) && SameRows(s, r)
  {
    r := s.(tables := s.tables.(policies := policies));
  }

  lemma MidTieShows<T(!new)>(a: seq<T>, x: T, y: T, b: seq<T>, le: (T, T) -> bool)
    requires TotalPreorder(le) && x != y && le(x, y) && le(y, x)
    ensures Sort(a + [x, y] + b, le) != Sort(a + [y, x] + b, le)
  {
    var keep := (z: T) => z == x || z == y;
    FilterSort(a + [x, y] + b, le, keep);
    FilterSort(a + [y, x] + b, le, keep);
    PairKept(a, x, y, b, le, keep);
    PairKept(a, y, x, b, le, keep);
    assert Filter(a, keep) + [x, y] + Filter(b, keep) != Filter(a, keep) + [y, x] + Filter(b, keep) by {
      assert (Filter(a, keep) + [x, y] + Filter(b, keep))[|Filter(a, keep)|] == x;
      assert (Filter(a, keep) + [y, x] + Filter(b, keep))[|Filter(a, keep)|] == y;
    }
  }

  lemma PairKept<T(!new)>(a: seq<T>, x: T, y: T, b: seq<T>, le: (T, T) -> bool, keep: T -> bool)
    requires TotalPreorder(le) && le(x, y) && le(y, x) && forall z :: keep(z) <==> z == x || z == y
    ensures Sort(Filter(a + [x, y] + b, keep), le) == Filter(a, keep) + [x, y] + Filter(b, keep)
  {
    FilterAppend(a + [x, y], b, keep);
    FilterAppend(a, [x, y], keep);
    FilterKeepsAll([x, y], keep);
    KeptAreKept(a, keep);
    KeptAreKept(b, keep);
    TiedAreSorted(Filter(a, keep) + [x, y] + Filter(b, keep), x, y, le);
  }

  lemma {:induction false} KeptAreKept<T>(s: seq<T>, keep: T -> bool)
    ensures forall i :: 0 <= i < |Filter(s, keep)| ==> keep(Filter(s, keep)[i])
  {
    if s != [] { KeptAreKept(s[..|s| - 1], keep); }
  }

  lemma TiedAreSorted<T(!new)>(r: seq<T>, x: T, y: T, le: (T, T) -> bool)
    requires TotalPreorder(le) && le(x, y) && le(y, x) && forall i :: 0 <= i < |r| ==> r[i] == x || r[i] == y
    ensures Sort(r, le) == r
  {
    assert le(x, x) && le(y, y);
    SortOfSorted(r, le);
  }

  /** Two namesakes that tie: put first in the table, one way round and the other. */
  lemma EntriesShow(s: Source, a: Args) returns (r: Source)
    requires TotalPreorder(a.locale) && !NamesakesApart(s, a)
    ensures SameRows(s, r)
    ensures Sort(Entries(s, a), EntryOrder(a.locale)) != Sort(Entries(r, a), EntryOrder(a.locale))
  {
    var x, y :| x in Entries(s, a) && y in Entries(s, a) && TiedNamesakes(a, x, y) && x != y;
    var p := ListedWith(s, a, x);
    var q := ListedWith(s, a, y);
    var rest := PickTwo(s.tables.policies, p, q);
    PairAndRest(p, q, rest);
    var r1 := WithPolicies(s, [p, q] + rest);
    var r2 := WithPolicies(s, [q, p] + rest);
    TwoNamesakes(s, a, p, q, rest, r1, r2);
    r := if Sort(Entries(s, a), EntryOrder(a.locale)) != Sort(Entries(r1, a), EntryOrder(a.locale)) then r1 else r2;
  }

  lemma PairAndRest<T>(p: T, q: T, rest: seq<T>)
    ensures multiset([p, q] + rest) == multiset([q, p] + rest) == multiset{p, q} + multiset(rest)
  {
  }

  lemma ListedWith(s: Source, a: Args, x: Entry) returns (p: Policy)
    requires x in Entries(s, a)
    ensures p in multiset(s.tables.policies) && Listable(a)(p) && EntryAt(s)(p) == x && p.name == x.name
  {
    ListedMembers(s, a);
    MapMember(Listed(s, a), EntryAt(s), x);
    p :| p in Listed(s, a) && EntryAt(s)(p) == x;
    EntryName(s, p);
  }

  lemma TwoNamesakes(s: Source, a: Args, p: Policy, q: Policy, rest: seq<Policy>, r1: Source, r2: Source)
    requires TotalPreorder(a.locale) && Listable(a)(p) && Listable(a)(q) && p.name == q.name
    requires r1 == s.(tables := s.tables.(policies := [p, q] + rest))
    requires r2 == s.(tables := s.tables.(policies := [q, p] + rest))
    requires EntryLe(a.locale, EntryAt(s)(p), EntryAt(s)(q)) && EntryLe(a.locale, EntryAt(s)(q), EntryAt(s)(p))
    requires EntryAt(s)(p) != EntryAt(s)(q)
    ensures Sort(Entries(r1, a), EntryOrder(a.locale)) != Sort(Entries(r2, a), EntryOrder(a.locale))
  {
    QueryOrders();
    FilterAppend([p, q], rest, Listable(a));
    FilterAppend([q, p], rest, Listable(a));
    FilterKeepsAll([p, q], Listable(a));
    FilterKeepsAll([q, p], Listable(a));
    assert NameLe(p, p);
    var h, t := SortPairFirst(p, q, Filter(rest, Listable(a)), NameLe);
    EntryAtSame(s, r1);
    EntryAtSame(s, r2);
    MapMiddle(h, p, q, t, EntryAt(s));
    MapMiddle(h, q, p, t, EntryAt(s));
    EntryOrdered(a.locale);
    MidTieShows(Map(h, EntryAt(s)), EntryAt(s)(p), EntryAt(s)(q), Map(t, EntryAt(s)), EntryOrder(a.locale));
  }

  lemma EntryAtSame(s: Source, r: Source)
    requires r.tables.rules == s.tables.rules && r.tables.versions == s.tables.versions
    ensures forall ps: seq<Policy> :: Map(ps, EntryAt(r)) == Map(ps, EntryAt(s))
  {
    forall p: Policy ensures EntryAt(r)(p) == EntryAt(s)(p) {
      var w := WithRules(s.tables.rules)(p);
      assert WithRules(r.tables.rules)(p) == w;
      assert GetActivePolicyVersion(r.tables, w.policy.id) == GetActivePolicyVersion(s.tables, w.policy.id);
      assert EntryOf(r.tables)(w) == EntryOf(s.tables)(w);
    }
  }

  lemma MapMiddle<T, U>(h: seq<T>, p: T, q: T, t: seq<T>, f: T -> U)
    ensures Map(h + [p, q] + t, f) == Map(h, f) + [f(p), f(q)] + Map(t, f)
  {
    MapAppend(h + [p, q], t, f);
    MapAppend(h, [p, q], f);
    assert Map([p, q], f) == [f(p), f(q)];
  }

  // ---------------------------------------------------------- the Codex roots

  /** A rule of the policy compiles to this filesystem rule. */
  ghost predicate CompilesTo(s: Source, p: Policy, x: Codex.FsRule) {
    exists u :: u in s.tables.rules && u.policyId == p.id && Codex.CompileRule(u) == Some(x)
  }

  ghost predicate CanLeadFrom(s: Source, a: Args, p: Policy, q: Rule, x: Codex.FsRule, y: Codex.FsRule) {
    && p in s.tables.policies && Listable(a)(p)
    && q in s.tables.rules && q.policyId == p.id && Codex.CompileRule(q) == Some(x)
    && (forall u :: u in s.tables.rules && u.policyId == p.id && !RuleLe(q, u) ==> Codex.CompileRule(u) != Some(y))
    && (forall o :: o in s.tables.policies && Listable(a)(o) && !NameLe(p, o) ==>
          !CompilesTo(s, o, x) && !CompilesTo(s, o, y))
  }

  /** Some listed rule compiles to `x`, with nothing that compiles to `y` of lower priority or time in its policy and
      neither in a policy of lower name. */
  ghost predicate CanLead(s: Source, a: Args, x: Codex.FsRule, y: Codex.FsRule) {
    exists p, q :: CanLeadFrom(s, a, p, q, x, y)
  }

  lemma CanLeadSame(s: Source, r: Source, a: Args, x: Codex.FsRule, y: Codex.FsRule)
    requires SameRows(s, r)
    ensures CanLead(s, a, x, y) ==> CanLead(r, a, x, y)
  {
    SameMembers(s.tables.policies, r.tables.policies);
    SameMembers(s.tables.rules, r.tables.rules);
    if CanLead(s, a, x, y) {
      var p, q :| CanLeadFrom(s, a, p, q, x, y);
      assert CanLeadFrom(r, a, p, q, x, y);
    }
  }

  lemma RulesOfMembers(s: Source, p: Policy)
    ensures forall u :: u in RulesOf(s, p) <==> u in s.tables.rules && u.policyId == p.id
  {
    FilterMembers(s.tables.rules, RuleOf(p.id));
    SortMembers(Filter(s.tables.rules, RuleOf(p.id)), RuleLe);
  }

  lemma EmittedMember(s: Source, p: Policy, x: Codex.FsRule)
    ensures x in Emitted(s)(p) <==> CompilesTo(s, p, x)
  {
    RulesOfMembers(s, p);
    FlatMapMember(RulesOf(s, p), Permissions(Codex.CompileRule), x);
    if x in Emitted(s)(p) {
      var u :| u in RulesOf(s, p) && x in Permissions(Codex.CompileRule)(u);
    }
    if CompilesTo(s, p, x) {
      var u :| u in s.tables.rules && u.policyId == p.id && Codex.CompileRule(u) == Some(x);
      assert x in Permissions(Codex.CompileRule)(u);
    }
  }

  lemma LeadsOne(q: Rule, x: Codex.FsRule, y: Codex.FsRule)
    ensures Leads(Permissions(Codex.CompileRule)(q), x, y) <==> Codex.CompileRule(q) == Some(x)
  {
  }

  lemma BelowComesEarlier<T(!new)>(s: seq<T>, k: nat, o: T, le: (T, T) -> bool) returns (i: nat)
    requires TotalPreorder(le) && SortedBy(s, le) && k < |s| && o in s && !le(s[k], o)
    ensures i < k && s[i] == o
  {
    i :| i < |s| && s[i] == o;
    assert le(s[k], s[k]);
  }

  /** Who leads in a listing can lead. */
  lemma LeaderCan(s: Source, a: Args, x: Codex.FsRule, y: Codex.FsRule)
    requires Leads(Rules(s, a), x, y)
    ensures CanLead(s, a, x, y)
  {
    QueryOrders();
    ListedMembers(s, a);
    var k := FlatMapLeads(Listed(s, a), Emitted(s), x, y);
    var p := Listed(s, a)[k];
    RulesOfMembers(s, p);
    var m := FlatMapLeads(RulesOf(s, p), Permissions(Codex.CompileRule), x, y);
    var q := RulesOf(s, p)[m];
    LeadsOne(q, x, y);
    SortSorts(Filter(s.tables.policies, Listable(a)), NameLe);
    SortSorts(Filter(s.tables.rules, RuleOf(p.id)), RuleLe);
    forall u | u in s.tables.rules && u.policyId == p.id && !RuleLe(q, u) ensures Codex.CompileRule(u) != Some(y) {
      var i := BelowComesEarlier(RulesOf(s, p), m, u, RuleLe);
    }
    forall o | o in s.tables.policies && Listable(a)(o) && !NameLe(p, o)
      ensures !CompilesTo(s, o, x) && !CompilesTo(s, o, y)
    {
      var i := BelowComesEarlier(Listed(s, a), k, o, NameLe);
      EmittedMember(s, o, x);
      EmittedMember(s, o, y);
    }
    assert CanLeadFrom(s, a, p, q, x, y);
  }

  /** Who can lead does so when its rule and policy are first in the tables. */
  lemma CanMadeLeader(s: Source, a: Args, x: Codex.FsRule, y: Codex.FsRule) returns (r: Source)
    requires x != y && CanLead(s, a, x, y)
    ensures SameRows(s, r) && Leads(Rules(r, a), x, y)
  {
    var p, q :| CanLeadFrom(s, a, p, q, x, y);
    var ps := PickOne(s.tables.policies, p);
    var us := PickOne(s.tables.rules, q);
    r := s.(tables := s.tables.(policies := [p] + ps, rules := [q] + us));
    assert multiset([p] + ps) == multiset(ps) + multiset{p} && multiset([q] + us) == multiset(us) + multiset{q};
    SameMembers(s.tables.policies, r.tables.policies);
    SameMembers(s.tables.rules, r.tables.rules);
    assert CanLeadFrom(r, a, p, q, x, y);
    FirstLeads(r, a, p, ps, q, us, x, y);
  }

  lemma FirstLeads(r: Source, a: Args, p: Policy, ps: seq<Policy>, q: Rule, us: seq<Rule>, x: Codex.FsRule,
                   y: Codex.FsRule)
    requires r.tables.policies == [p] + ps && r.tables.rules == [q] + us
    requires x != y && CanLeadFrom(r, a, p, q, x, y)
    ensures Leads(Rules(r, a), x, y)
  {
    QueryOrders();
    FilterAppend([p], ps, Listable(a));
    FilterKeepsAll([p], Listable(a));
    var h, t := SortFirst(p, Filter(ps, Listable(a)), NameLe);
    FlatMapAround(h, p, t, Emitted(r));
    ListedMembers(r, a);
    forall o | o in h ensures x !in Emitted(r)(o) && y !in Emitted(r)(o) {
      assert o in Listed(r, a);
      EmittedMember(r, o, x);
      EmittedMember(r, o, y);
    }
    FlatMapMember(h, Emitted(r), x);
    FlatMapMember(h, Emitted(r), y);
    FirstRuleLeads(r, a, p, q, us, x, y);
    LeadsThere(FlatMap(h, Emitted(r)), Emitted(r)(p), FlatMap(t, Emitted(r)), x, y);
  }

  /** The rule that is first in the table comes before all of its policy that are not strictly below it. */
  lemma FirstRule(r: Source, p: Policy, q: Rule, us: seq<Rule>) returns (h: seq<Rule>, t: seq<Rule>)
    requires r.tables.rules == [q] + us && q.policyId == p.id
    ensures RulesOf(r, p) == h + [q] + t
    ensures forall u :: u in h ==> !RuleLe(q, u) && u in r.tables.rules && u.policyId == p.id
  {
    FilterAppend([q], us, RuleOf(p.id));
    FilterKeepsAll([q], RuleOf(p.id));
    h, t := SortFirst(q, Filter(us, RuleOf(p.id)), RuleLe);
    RulesOfMembers(r, p);
    forall u | u in h ensures u in RulesOf(r, p) { assert u in h + [q] + t; }
  }

  lemma FirstRuleLeads(r: Source, a: Args, p: Policy, q: Rule, us: seq<Rule>, x: Codex.FsRule, y: Codex.FsRule)
    requires r.tables.rules == [q] + us && x != y && CanLeadFrom(r, a, p, q, x, y)
    ensures Leads(Emitted(r)(p), x, y)
  {
    var f := Permissions(Codex.CompileRule);
    var h, t := FirstRule(r, p, q, us);
    FlatMapAround(h, q, t, f);
    forall u | u in h ensures y !in f(u) { }
    FlatMapMember(h, f, y);
    LeadsOne(q, x, y);
    LeadsThere(FlatMap(h, f), f(q), FlatMap(t, f), x, y);
  }

  lemma LeadsThere<T>(u: seq<T>, v: seq<T>, w: seq<T>, x: T, y: T)
    requires y !in u && Leads(v, x, y)
    ensures Leads(u + v + w, x, y)
  {
    LeadsOccurs(u, x, y);
    LeadsSum(u, v, x, y);
    LeadsSum(u + v, w, x, y);
  }

  /** No two different filesystem rules outside the baseline tie and can each come out before the other. */
  ghost predicate LeadersApart(s: Source, a: Args) {
    forall x, y :: CanLead(s, a, x, y) && CanLead(s, a, y, x) && NewTie(a, x, y) ==> x == y
  }

  predicate NewTie(a: Args, x: Codex.FsRule, y: Codex.FsRule) {
    x !in Codex.BASELINE && y !in Codex.BASELINE && Codex.Tied(a.locale, x, y)
  }

  lemma RulesMembers(s: Source, r: Source, a: Args)
    requires SameRows(s, r)
    ensures forall x :: x in Rules(s, a) <==> x in Rules(r, a)
  {
    ListingReordered(s.tables, r.tables, a.projectId);
    PolicyViews.ActiveReordered(ListPolicies(s.tables, a.projectId), ListPolicies(r.tables, a.projectId));
    Codex.SameFromRules(ActivePolicies(s, a), ActivePolicies(r, a));
    FromRulesIs(s, a);
    FromRulesIs(r, a);
  }

  lemma LeadsAlike(s: Source, r: Source, a: Args, x: Codex.FsRule, y: Codex.FsRule)
    requires SameRows(s, r) && x != y && !(CanLead(s, a, x, y) && CanLead(s, a, y, x))
    requires x in Rules(s, a)
    ensures Leads(Rules(s, a), x, y) <==> Leads(Rules(r, a), x, y)
  {
    RulesMembers(s, r, a);
    OneLeads(Rules(s, a), x, y);
    OneLeads(Rules(r, a), x, y);
    CanLeadSame(r, s, a, x, y);
    CanLeadSame(r, s, a, y, x);
    if Leads(Rules(s, a), x, y) { LeaderCan(s, a, x, y); } else { LeaderCan(s, a, y, x); }
    if Leads(Rules(r, a), x, y) { LeaderCan(r, a, x, y); } else { LeaderCan(r, a, y, x); }
  }

  function NewRules(s: Source, a: Args): seq<Codex.FsRule> {
    Filter(FirstSeen(Rules(s, a)), NotIn(Codex.BASELINE))
  }

  lemma RootsSettle(s: Source, r: Source, a: Args)
    requires SameRows(s, r) && TotalPreorder(a.locale) && LeadersApart(s, a)
    ensures Roots(s, a) == Roots(r, a)
  {
    var c, d := NewRules(s, a), NewRules(r, a);
    var le := Codex.RuleOrder(a.locale);
    RulesMembers(s, r, a);
    FirstSeenAppend(Codex.BASELINE, Rules(s, a));
    FirstSeenAppend(Codex.BASELINE, Rules(r, a));
    FirstSeenDistinct(Rules(s, a));
    FirstSeenDistinct(Rules(r, a));
    DistinctSameMembers(FirstSeen(Rules(s, a)), FirstSeen(Rules(r, a)));
    FilterPermutes(FirstSeen(Rules(s, a)), FirstSeen(Rules(r, a)), NotIn(Codex.BASELINE));
    FilterDistinct(FirstSeen(Rules(s, a)), NotIn(Codex.BASELINE));
    FilterMembers(FirstSeen(Rules(s, a)), NotIn(Codex.BASELINE));
    forall x, y | x in c && y in c ensures Settles(x, y, le) || (Precedes(c, x, y) <==> Precedes(d, x, y)) {
      if x == y || !Codex.Tied(a.locale, x, y) {
        Codex.RulesSettle(a.locale, x, y);
      } else {
        LeadsAlike(s, r, a, x, y);
        FirstSeenLeads(Codex.BASELINE, Rules(s, a), x, y);
        FirstSeenLeads(Codex.BASELINE, Rules(r, a), x, y);
      }
    }
    SortKeepsTies(FirstSeen(Codex.BASELINE), c, d, le);
  }

  /** The leader of two ties comes out first. */
  lemma LeaderPublished(r: Source, a: Args, x: Codex.FsRule, y: Codex.FsRule)
    requires x != y && NewTie(a, x, y) && y in Rules(r, a) && Leads(Rules(r, a), x, y)
    ensures Precedes(Roots(r, a), x, y)
  {
    LeadsOccurs(Rules(r, a), x, y);
    FirstSeenLeads(Codex.BASELINE, Rules(r, a), x, y);
    FirstSeenAppend(Codex.BASELINE, Rules(r, a));
    PrecedesBehind(FirstSeen(Codex.BASELINE), NewRules(r, a), x, y);
    SortIsStable(FirstSeen(Codex.BASELINE) + NewRules(r, a), x, y, Codex.RuleOrder(a.locale));
  }

  lemma PrecedesBehind<T>(h: seq<T>, c: seq<T>, x: T, y: T)
    requires Precedes(c, x, y)
    ensures Precedes(h + c, x, y)
  {
    var i, j :| 0 <= i < j < |c| && c[i] == x && c[j] == y;
    assert (h + c)[|h| + i] == x && (h + c)[|h| + j] == y;
  }

  lemma RootsShow(s: Source, a: Args) returns (r: Source)
    requires TotalPreorder(a.locale) && !LeadersApart(s, a)
    ensures SameRows(s, r) && Roots(s, a) != Roots(r, a)
  {
    var x, y :| CanLead(s, a, x, y) && CanLead(s, a, y, x) && NewTie(a, x, y) && x != y;
    var r1 := CanMadeLeader(s, a, x, y);
    var r2 := CanMadeLeader(s, a, y, x);
    RulesMembers(s, r1, a);
    RulesMembers(s, r2, a);
    LeadsOccurs(Rules(r1, a), x, y);
    LeadsOccurs(Rules(r2, a), y, x);
    LeaderPublished(r1, a, x, y);
    LeaderPublished(r2, a, y, x);
    Codex.UniqueRules(Codex.BASELINE + Rules(r1, a), a.locale);
    OneOrder(Roots(r1, a), x, y);
    r := if Roots(s, a) != Roots(r1, a) then r1 else r2;
  }

  // ------------------------------------------------------------- the results

  /** The payload is the same for the same rows in any order. */
  ghost predicate RowOrderForgotten(s: Source, a: Args) {
    forall r :: SameRows(s, r) ==> PayloadOf(r, a) == PayloadOf(s, a)
  }

  /** With the version numbers of a policy distinct, as their unique index makes them: the payload depends on the rows
      and not on their order exactly when no two different entries of one name tie in the locale order, and no two
      different filesystem rules that tie can each come first as far as names, priorities and times go. */
  lemma RowOrderExactly(s: Source, a: Args)
    requires TotalPreorder(a.locale) && NumbersDistinct(s.tables.versions)
    ensures RowOrderForgotten(s, a) <==> NamesakesApart(s, a) && LeadersApart(s, a)
  {
    if NamesakesApart(s, a) && LeadersApart(s, a) {
      forall r | SameRows(s, r) ensures PayloadOf(r, a) == PayloadOf(s, a) {
        OrderShowsIn(s, r, a);
        EntriesSettle(s, r, a);
        RootsSettle(s, r, a);
      }
    } else {
      var r := RowOrderShows(s, a);
    }
  }

  lemma RowOrderShows(s: Source, a: Args) returns (r: Source)
    requires TotalPreorder(a.locale) && NumbersDistinct(s.tables.versions)
    requires !NamesakesApart(s, a) || !LeadersApart(s, a)
    ensures SameRows(s, r) && PayloadOf(r, a) != PayloadOf(s, a)
  {
    if !NamesakesApart(s, a) { r := EntriesShow(s, a); } else { r := RootsShow(s, a); }
    OrderShowsIn(s, r, a);
  }
}
