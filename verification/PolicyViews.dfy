/**
  Policies joined with their rules, as the three projection builders read them,
  and the facts that make a projection forget row order: a flatMap over
  reordered policies is a permutation, and sort-and-dedupe is canonical.
*/
module PolicyViews {
  import opened Collections
  import opened Text
  import opened PolicyTables

  datatype PolicyWithRules = PolicyWithRules(policy: Policy, rules: seq<Rule>)

  // ------------------------------------------------------------ row order

  /** A policy with its rules as a collection. */
  function View(p: PolicyWithRules): (Policy, multiset<Rule>) {
    (p.policy, multiset(p.rules))
  }

  /** The same policies with the same rules, both in any order. */
  ghost predicate Reordered(ps: seq<PolicyWithRules>, qs: seq<PolicyWithRules>) {
    multiset(Map(ps, View)) == multiset(Map(qs, View))
  }

  function IsActive(p: PolicyWithRules): bool { p.policy.isActive }

  function InPolicy<T>(f: Rule -> seq<T>): PolicyWithRules -> seq<T> {
    (p: PolicyWithRules) => FlatMap(p.rules, f)
  }

  /** `policies.flatMap((policy) => policy.rules.flatMap(f))`. */
  function Each<T>(ps: seq<PolicyWithRules>, f: Rule -> seq<T>): seq<T> {
    FlatMap(ps, InPolicy(f))
  }

  lemma SameListing(ps: seq<PolicyWithRules>, qs: seq<PolicyWithRules>)
    requires multiset(ps) == multiset(qs)
    ensures Reordered(ps, qs)
  {
    var same := (p: PolicyWithRules) => p;
    assert Map(ps, same) == ps && Map(qs, same) == qs;
    MapPermutes(ps, qs, same, View);
  }

  lemma ActiveReordered(ps: seq<PolicyWithRules>, qs: seq<PolicyWithRules>)
    requires Reordered(ps, qs)
    ensures Reordered(Filter(ps, IsActive), Filter(qs, IsActive))
  {
    FilterReorders(ps, qs, View, IsActive);
  }

  function Itself(r: Rule): Rule { r }

  lemma MapItself(rules: seq<Rule>)
    ensures Map(rules, Itself) == rules
  {
    assert forall i :: 0 <= i < |rules| ==> Map(rules, Itself)[i] == Itself(rules[i]);
  }

  lemma EachPermutes<T>(ps: seq<PolicyWithRules>, qs: seq<PolicyWithRules>, f: Rule -> seq<T>)
    requires Reordered(ps, qs)
    ensures multiset(Each(ps, f)) == multiset(Each(qs, f))
  {
    forall p, q | p in ps && q in qs && View(p) == View(q)
      ensures multiset(InPolicy(f)(p)) == multiset(InPolicy(f)(q)) {
      MapItself(p.rules);
      MapItself(q.rules);
      FlatMapPermutes(p.rules, q.rules, Itself, f);
    }
    FlatMapPermutes(ps, qs, View, InPolicy(f));
  }

  lemma EachMember<T>(ps: seq<PolicyWithRules>, f: Rule -> seq<T>, x: T)
    ensures x in Each(ps, f) <==> exists p, r :: p in ps && r in p.rules && x in f(r)
  {
    FlatMapMember(ps, InPolicy(f), x);
    if x in Each(ps, f) {
      var p :| p in ps && x in InPolicy(f)(p);
      FlatMapMember(p.rules, f, x);
    }
    if p, r :| p in ps && r in p.rules && x in f(r) {
      FlatMapMember(p.rules, f, x);
      assert x in InPolicy(f)(p);
    }
  }

  lemma EachSplits<T>(ps: seq<PolicyWithRules>, f: Rule -> seq<T>, g: Rule -> seq<T>, both: Rule -> seq<T>)
    requires forall r :: multiset(f(r)) + multiset(g(r)) == multiset(both(r))
    ensures multiset(Each(ps, f)) + multiset(Each(ps, g)) == multiset(Each(ps, both))
  {
    forall p | p in ps
      ensures multiset(InPolicy(f)(p)) + multiset(InPolicy(g)(p)) == multiset(InPolicy(both)(p)) {
      FlatMapSplits(p.rules, f, g, both);
    }
    FlatMapSplits(ps, InPolicy(f), InPolicy(g), InPolicy(both));
  }

  lemma EachSnoc<T>(ps: seq<PolicyWithRules>, p: PolicyWithRules, f: Rule -> seq<T>)
    ensures Each(ps + [p], f) == Each(ps, f) + FlatMap(p.rules, f)
  {
    assert (ps + [p])[..|ps|] == ps;
  }

  lemma NextRule<T>(rules: seq<Rule>, j: nat, f: Rule -> seq<T>)
    requires j < |rules|
    ensures FlatMap(rules[..j + 1], f) == FlatMap(rules[..j], f) + f(rules[j])
  {
    assert rules[..j + 1][..j] == rules[..j];
  }

  lemma NextPolicy<T>(ps: seq<PolicyWithRules>, i: nat, f: Rule -> seq<T>)
    requires i < |ps|
    ensures var seen := Each(Filter(ps[..i], IsActive), f);
            Each(Filter(ps[..i + 1], IsActive), f) == if IsActive(ps[i]) then seen + FlatMap(ps[i].rules, f) else seen
  {
    assert ps[..i + 1] == ps[..i] + [ps[i]];
    FilterSnoc(ps[..i], ps[i], IsActive);
    EachSnoc(Filter(ps[..i], IsActive), ps[i], f);
  }

  // ------------------------------------------------------ sort and dedupe

  /** `[...new Set(values)].sort()`. */
  function UniqueSorted(values: seq<string>): seq<string> {
    Sort(FirstSeen(values), StringLe)
  }

  lemma UniqueSortedShape(values: seq<string>)
    ensures SortedBy(UniqueSorted(values), StringLe) && Distinct(UniqueSorted(values))
    ensures forall v :: v in UniqueSorted(values) <==> v in values
  {
    StringOrder();
    FirstSeenDistinct(values);
    SortSorts(FirstSeen(values), StringLe);
    SortMembers(FirstSeen(values), StringLe);
    SortPermutes(FirstSeen(values), StringLe);
    PermutedDistinct(FirstSeen(values), UniqueSorted(values));
  }

  /** Sorting and deduplicating keeps the set of values, and only that. */
  lemma UniqueSortedExactly(a: seq<string>, b: seq<string>)
    ensures UniqueSorted(a) == UniqueSorted(b) <==> forall v :: v in a <==> v in b
  {
    UniqueSortedShape(a);
    UniqueSortedShape(b);
    if forall v :: v in a <==> v in b {
      FirstSeenDistinct(a);
      FirstSeenDistinct(b);
      DistinctSameMembers(FirstSeen(a), FirstSeen(b));
      StringOrder();
      SortCanonical(FirstSeen(a), FirstSeen(b), StringLe);
    } else {
      var v :| (v in a) != (v in b);
      assert (v in UniqueSorted(a)) != (v in UniqueSorted(b));
    }
  }

  lemma UniqueSortedPermutes(a: seq<string>, b: seq<string>)
    requires multiset(a) == multiset(b)
    ensures UniqueSorted(a) == UniqueSorted(b)
  {
    forall v ensures v in a <==> v in b { assert v in multiset(a) <==> v in multiset(b); }
    UniqueSortedExactly(a, b);
  }

  /** `.sort()` keeps the multiset of values, and only that. */
  lemma SortedExactly(a: seq<string>, b: seq<string>)
    ensures Sort(a, StringLe) == Sort(b, StringLe) <==> multiset(a) == multiset(b)
  {
    SortPermutes(a, StringLe);
    SortPermutes(b, StringLe);
    StringOrder();
    if multiset(a) == multiset(b) { SortCanonical(a, b, StringLe); }
  }

  // ---------------------------------------------------------- translation

  function RuleId(r: Rule): seq<string> { [r.id] }

  function Permissions<T>(compile: Rule -> Option<T>): Rule -> seq<T> {
    (r: Rule) => match compile(r) case Some(c) => [c] case None => []
  }

  function TranslatedId<T>(compile: Rule -> Option<T>): Rule -> seq<string> {
    (r: Rule) => if compile(r).Some? then [r.id] else []
  }

  function UntranslatedId<T>(compile: Rule -> Option<T>): Rule -> seq<string> {
    (r: Rule) => if compile(r).Some? then [] else [r.id]
  }

  /** The inner loop of the two native builders, over the compiler of one agent. */
  method CompileRules<T>(rules: seq<Rule>, compile: Rule -> Option<T>)
      returns (compiled: seq<T>, translated: seq<string>, untranslated: seq<string>)
    ensures compiled == FlatMap(rules, Permissions(compile))
    ensures translated == FlatMap(rules, TranslatedId(compile))
    ensures untranslated == FlatMap(rules, UntranslatedId(compile))
  {
    compiled, translated, untranslated := [], [], [];
    for j := 0 to |rules|
      invariant compiled == FlatMap(rules[..j], Permissions(compile))
      invariant translated == FlatMap(rules[..j], TranslatedId(compile))
      invariant untranslated == FlatMap(rules[..j], UntranslatedId(compile))
    {
      NextRule(rules, j, Permissions(compile));
      NextRule(rules, j, TranslatedId(compile));
      NextRule(rules, j, UntranslatedId(compile));
      var permission := compile(rules[j]);
      if permission.None? {
        untranslated := untranslated + [rules[j].id];
      } else {
        compiled := compiled + [permission.value];
        translated := translated + [rules[j].id];
      }
    }
    assert rules[..|rules|] == rules;
  }

  /** The outer loop: policies that are switched off are skipped. */
  method CompilePolicies<T>(policies: seq<PolicyWithRules>, compile: Rule -> Option<T>)
      returns (compiled: seq<T>, translated: seq<string>, untranslated: seq<string>)
    ensures compiled == Each(Filter(policies, IsActive), Permissions(compile))
    ensures translated == Each(Filter(policies, IsActive), TranslatedId(compile))
    ensures untranslated == Each(Filter(policies, IsActive), UntranslatedId(compile))
  {
    compiled, translated, untranslated := [], [], [];
    for i := 0 to |policies|
      invariant compiled == Each(Filter(policies[..i], IsActive), Permissions(compile))
      invariant translated == Each(Filter(policies[..i], IsActive), TranslatedId(compile))
      invariant untranslated == Each(Filter(policies[..i], IsActive), UntranslatedId(compile))
    {
      NextPolicy(policies, i, Permissions(compile));
      NextPolicy(policies, i, TranslatedId(compile));
      NextPolicy(policies, i, UntranslatedId(compile));
      if !policies[i].policy.isActive { continue; }
      var c, t, u := CompileRules(policies[i].rules, compile);
      compiled, translated, untranslated := compiled + c, translated + t, untranslated + u;
    }
    assert policies[..|policies|] == policies;
  }

  /** Every active rule is reported exactly once, as translated or as untranslated. */
  lemma TranslationConserves<T>(ps: seq<PolicyWithRules>, compile: Rule -> Option<T>)
    ensures multiset(Each(ps, TranslatedId(compile))) + multiset(Each(ps, UntranslatedId(compile)))
            == multiset(Each(ps, RuleId))
  {
    EachSplits(ps, TranslatedId(compile), UntranslatedId(compile), RuleId);
  }

  /** A path or command that the rule names. */
  predicate Given(pattern: Option<string>) { pattern.Some? && !Blank(pattern.value) }

  predicate EditsFiles(tool: string) {
    tool == "Write" || tool == "Edit" || tool == "MultiEdit" || tool == "NotebookEdit"
  }

  predicate ReadsFiles(tool: string) { tool == "Read" || tool == "Grep" || tool == "Glob" }

  /** A rule of a policy that is switched on. */
  predicate InForce(ps: seq<PolicyWithRules>, p: PolicyWithRules, r: Rule) {
    p in ps && p.policy.isActive && r in p.rules
  }

  ghost predicate SomeInForce(ps: seq<PolicyWithRules>, id: string, chosen: Rule -> bool) {
    exists p, r :: InForce(ps, p, r) && r.id == id && chosen(r)
  }

  lemma ActiveIds(ps: seq<PolicyWithRules>, f: Rule -> seq<string>, id: string, chosen: Rule -> bool)
    requires forall r :: f(r) == if chosen(r) then [r.id] else []
    ensures id in Each(Filter(ps, IsActive), f) <==> SomeInForce(ps, id, chosen)
  {
    FilterMembers(ps, IsActive);
    EachMember(Filter(ps, IsActive), f, id);
    if p, r :| p in Filter(ps, IsActive) && r in p.rules && id in f(r) { assert InForce(ps, p, r); }
    if p, r :| InForce(ps, p, r) && r.id == id && chosen(r) {
      assert p in Filter(ps, IsActive) && id in f(r);
    }
  }

  /** The two published lists hold exactly the ids of the rules in force that are translatable and that are not, once
      each and in order. */
  lemma TranslatedIds<T>(ps: seq<PolicyWithRules>, compile: Rule -> Option<T>, able: Rule -> bool, id: string)
    requires forall r :: compile(r).Some? <==> able(r)
    ensures var active := Filter(ps, IsActive);
            var t, u := UniqueSorted(Each(active, TranslatedId(compile))),
                        UniqueSorted(Each(active, UntranslatedId(compile)));
            && SortedBy(t, StringLe) && Distinct(t) && SortedBy(u, StringLe) && Distinct(u)
            && (id in t <==> SomeInForce(ps, id, able)) && (id in u <==> SomeInForce(ps, id, r => !able(r)))
  {
    var active := Filter(ps, IsActive);
    UniqueSortedShape(Each(active, TranslatedId(compile)));
    UniqueSortedShape(Each(active, UntranslatedId(compile)));
    ActiveIds(ps, TranslatedId(compile), id, able);
    ActiveIds(ps, UntranslatedId(compile), id, r => !able(r));
  }

  /** With distinct rule ids the two published lists partition the active ids. */
  lemma TranslationPartitions<T>(ps: seq<PolicyWithRules>, compile: Rule -> Option<T>, id: string)
    requires Distinct(Each(ps, RuleId))
    ensures var translated := id in UniqueSorted(Each(ps, TranslatedId(compile)));
            var untranslated := id in UniqueSorted(Each(ps, UntranslatedId(compile)));
            !(translated && untranslated) && (id in Each(ps, RuleId) <==> translated || untranslated)
  {
    var t, u := Each(ps, TranslatedId(compile)), Each(ps, UntranslatedId(compile));
    TranslationConserves(ps, compile);
    UniqueSortedShape(t);
    UniqueSortedShape(u);
    DistinctCount(Each(ps, RuleId), id);
    assert multiset(t)[id] + multiset(u)[id] == multiset(Each(ps, RuleId))[id];
    assert id in t <==> multiset(t)[id] > 0;
    assert id in u <==> multiset(u)[id] > 0;
  }
}
