/**
  Compiling project policies into Codex's filesystem rules
  (packages/db/src/codex-permissions.ts), and the hash of the result
  (packages/shared/src/policy-projection-files.ts). `locale` is the order of
  String.localeCompare, a total preorder in which different strings may tie;
  `sha256` is a parameter.
*/
module CodexPermissions {
  import opened Collections
  import opened Text
  import opened CanonicalJson
  import opened JsonRecords
  import opened PolicyTables
  import opened PolicyViews

  datatype Access = ReadAccess | WriteAccess | DenyAccess
  datatype FsRule = FsRule(path: string, access: Access)
  datatype Projection = Projection(roots: seq<FsRule>, translatedRuleIds: seq<string>,
                                   untranslatedRuleIds: seq<string>, hash: string)

  type Locale = (string, string) -> bool

  const EDIT_TOOLS := {"Write", "Edit", "MultiEdit", "NotebookEdit"}
  const READ_TOOLS := {"Read", "Grep", "Glob"}

  // ------------------------------------------------------------- compiling

  predicate Scoped(agent: Option<string>) {
    agent.None? || agent.value in {"*", "codex"}
  }

  function NormalizePattern(pattern: string): string {
    var trimmed := Trim(pattern);
    var relative := if "./" <= trimmed then trimmed[2..] else trimmed;
    if "/" <= relative then relative[1..] else relative
  }

  /** toLowerCase, on the characters whose lower case is an ASCII letter (the last one is the Kelvin sign). */
  function LowerChar(c: char): char {
    if 'A' <= c <= 'Z' then c + ' ' else if c == '\U{212A}' then 'k' else c
  }

  function Lower(s: string): string {
    seq(|s|, i requires 0 <= i < |s| => LowerChar(s[i]))
  }

  const SENSITIVE := [".env", "secret", "token", "credential", "private_key"]

  predicate LooksSensitive(pattern: string) {
    exists k :: 0 <= k < |SENSITIVE| && IndexOf(Lower(pattern), SENSITIVE[k]) >= 0
  }

  predicate Anywhere(path: string) { "**/" <= path }

  function AccessForGlob(path: string, wanted: Access): Access {
    if wanted == ReadAccess && Anywhere(path) then DenyAccess else wanted
  }

  function AccessForRule(f: RuleFields, path: string): Option<Access> {
    if f.decision == Allow || f.decision == Ask then None
    else if f.matchToolName in READ_TOOLS then Some(DenyAccess)
    else if f.matchToolName in EDIT_TOOLS then
      Some(AccessForGlob(path, if LooksSensitive(path) then DenyAccess else ReadAccess))
    else None
  }

  function CompileRule(rule: Rule): Option<FsRule> {
    var f := rule.fields;
    if f.matchEventType != "PreToolUse" then None
    else if !Scoped(f.matchAgentType) then None
    else if f.matchPathGlob.None? || Trim(f.matchPathGlob.value) == "" then None
    else
      var path := NormalizePattern(f.matchPathGlob.value);
      var access := AccessForRule(f, path);
      if access.None? || path == "" then None else Some(FsRule(path, access.value))
  }

  const BASELINE := [
    FsRule(".env", DenyAccess), FsRule("**/.env", DenyAccess),
    FsRule(".git/**", ReadAccess), FsRule("**/.git/**", AccessForGlob("**/.git/**", ReadAccess)),
    FsRule("node_modules/**", ReadAccess),
    FsRule("**/node_modules/**", AccessForGlob("**/node_modules/**", ReadAccess))]

  // ------------------------------------------------------ dedupe and sort

  function AccessName(a: Access): string {
    match a
    case ReadAccess => "read"
    case WriteAccess => "write"
    case DenyAccess => "deny"
  }

  function Key(r: FsRule): string { r.path + ":" + AccessName(r.access) }

  lemma KeyInjective(r: FsRule, s: FsRule)
    requires Key(r) == Key(s)
    ensures r == s
  {
    var k := Key(r);
    assert k[|k| - 1] == AccessName(r.access)[|AccessName(r.access)| - 1];
    assert k[|k| - 1] == AccessName(s.access)[|AccessName(s.access)| - 1];
    assert r.access == s.access;
    assert r.path == k[..|k| - 1 - |AccessName(r.access)|] == s.path;
  }

  /** The comparator: by path, and by access name within one path. */
  predicate RuleLe(locale: Locale, a: FsRule, b: FsRule) {
    if a.path == b.path then locale(AccessName(a.access), AccessName(b.access)) else locale(a.path, b.path)
  }

  function RuleOrder(locale: Locale): (FsRule, FsRule) -> bool {
    (a: FsRule, b: FsRule) => RuleLe(locale, a, b)
  }

  function UniqueSortedRules(rules: seq<FsRule>, locale: Locale): seq<FsRule> {
    Sort(FirstSeen(rules), RuleOrder(locale))
  }

  /** Every rule collected so far sits in the map under its key, and nothing else does. */
  ghost predicate Collected(byKey: map<string, FsRule>, order: seq<string>, seen: seq<FsRule>) {
    && order == Map(seen, Key)
    && (forall k :: k in byKey <==> k in order)
    && forall r :: r in seen ==> Key(r) in byKey && byKey[Key(r)] == r
  }

  lemma CollectNext(byKey: map<string, FsRule>, order: seq<string>, seen: seq<FsRule>, r: FsRule)
    requires Collected(byKey, order, seen)
    ensures Key(r) in byKey <==> r in seen
    ensures r in seen ==> Collected(byKey[Key(r) := r], order, seen)
    ensures r !in seen ==> Collected(byKey[Key(r) := r], order + [Key(r)], seen + [r])
  {
    if Key(r) in byKey {
      MapMember(seen, Key, Key(r));
      var s :| s in seen && Key(s) == Key(r);
      KeyInjective(r, s);
    }
    forall s | s in seen && Key(s) == Key(r) ensures s == r { KeyInjective(s, r); }
    assert Map(seen + [r], Key) == Map(seen, Key) + [Key(r)];
  }

  /** The Map keyed by `path:access`, its keys in insertion order, then the sort. */
  method SortUniqueRules(rules: seq<FsRule>, locale: Locale) returns (sorted: seq<FsRule>)
    ensures sorted == UniqueSortedRules(rules, locale)
  {
    var byKey: map<string, FsRule> := map[];
    var order: seq<string> := [];
    for i := 0 to |rules|
      invariant Collected(byKey, order, FirstSeen(rules[..i]))
    {
      assert rules[..i + 1] == rules[..i] + [rules[i]];
      FirstSeenSnoc(rules[..i], rules[i]);
      CollectNext(byKey, order, FirstSeen(rules[..i]), rules[i]);
      if Key(rules[i]) !in byKey { order := order + [Key(rules[i])]; }
      byKey := byKey[Key(rules[i]) := rules[i]];
    }
    assert rules[..|rules|] == rules;
    var values := seq(|order|, j requires 0 <= j < |order| && order[j] in byKey => byKey[order[j]]);
    assert values == FirstSeen(rules) by {
      forall j | 0 <= j < |order| ensures values[j] == FirstSeen(rules)[j] {
        assert FirstSeen(rules)[j] in FirstSeen(rules);
      }
    }
    sorted := Sort(values, RuleOrder(locale));
  }

  // ---------------------------------------------------------------- the hash

  const PROFILE_NAME := "coodra-project"
  const DESCRIPTION := "Coodra-managed project policy projection. "
                       + "DB hooks remain authoritative for per-tool decisions."

  const SURFACE_KEYS := ["schemaVersion", "profileName", "defaultPermissions", "extends",
                         "filesystemGlobScanMaxDepth", "filesystemWorkspaceRoots", "network"]

  lemma SurfaceKeysDistinct()
    ensures |SURFACE_KEYS| == 7 && Distinct(SURFACE_KEYS)
  {
    DistinctByCode(SURFACE_KEYS, [13115086, 11112108, 18100114, 7101101, 26102098, 24102114, 7110119]);
  }

  const PROJECTION_KEYS := ["schemaVersion", "profileName", "defaultPermissions", "description", "extends",
                            "filesystemGlobScanMaxDepth", "filesystemWorkspaceRoots", "network",
                            "translatedRuleIds", "untranslatedRuleIds", "projectionHash"]

  lemma ProjectionKeysDistinct()
    ensures |PROJECTION_KEYS| == 11 && Distinct(PROJECTION_KEYS)
  {
    DistinctByCode(PROJECTION_KEYS, [13115086, 11112108, 18100114, 11100105, 7101101, 26102098, 24102114,
                                      7110119, 17116101, 19117116, 14112105]);
  }

  function RuleJson(r: FsRule): Json {
    JsonRecord(["path", "access"], [JString(r.path), JString(AccessName(r.access))])
  }

  lemma RuleJsonWellFormed(r: FsRule)
    ensures WellFormed(RuleJson(r))
  {
    RecordWellFormed(["path", "access"], [JString(r.path), JString(AccessName(r.access))]);
  }

  lemma RuleJsonDetermines(r: FsRule, s: FsRule)
    requires Same(RuleJson(r), RuleJson(s))
    ensures r == s
  {
    var u, v := [JString(r.path), JString(AccessName(r.access))], [JString(s.path), JString(AccessName(s.access))];
    RecordsSame(["path", "access"], u, v);
    assert Same(u[0], v[0]) && Same(u[1], v[1]);
    assert AccessName(r.access)[0] == AccessName(s.access)[0];
  }

  function Roots(roots: seq<FsRule>): Json { Objects(roots, RuleJson) }

  lemma RootsWellFormed(roots: seq<FsRule>)
    ensures WellFormed(Roots(roots))
  {
    forall r ensures WellFormed(RuleJson(r)) { RuleJsonWellFormed(r); }
    ObjectsWellFormed(roots, RuleJson);
  }

  lemma RootsDetermine(x: seq<FsRule>, y: seq<FsRule>)
    requires Same(Roots(x), Roots(y))
    ensures x == y
  {
    forall u, v | Same(RuleJson(u), RuleJson(v)) ensures u == v { RuleJsonDetermines(u, v); }
    ObjectsDetermine(x, y, RuleJson);
  }

  const NETWORK := JsonRecord(["enabled"], [JBool(false)])

  lemma NetworkWellFormed()
    ensures WellFormed(NETWORK)
  {
    RecordWellFormed(["enabled"], [JBool(false)]);
  }

  function SurfaceValues(roots: seq<FsRule>): seq<Json> {
    [Number(1), JString(PROFILE_NAME), JString(PROFILE_NAME), JString(":workspace"), Number(3), Roots(roots), NETWORK]
  }

  function SurfaceJson(roots: seq<FsRule>): (j: Json)
    ensures WellFormed(j)
  {
    SurfaceKeysDistinct();
    NumberWellFormed(1);
    NumberWellFormed(3);
    RootsWellFormed(roots);
    NetworkWellFormed();
    RecordWellFormed(SURFACE_KEYS, SurfaceValues(roots));
    JsonRecord(SURFACE_KEYS, SurfaceValues(roots))
  }

  /** The hash covers what Codex reads: not the description and not the two id lists. */
  function SurfaceHash(sha256: string -> string, roots: seq<FsRule>, locale: Locale): string {
    sha256(Stringify(SurfaceJson(Sort(roots, RuleOrder(locale)))))
  }

  /** A rule under the names `path` and `access`. */
  predicate ShowsRule(j: Json, r: FsRule) {
    && Member(j, "path", JString(r.path)) && |j.fields| == 2
    && Member(j, "access", JString(if r.access == DenyAccess then "deny"
                                   else if r.access == ReadAccess then "read" else "write"))
  }

  lemma RuleShows(r: FsRule)
    ensures ShowsRule(RuleJson(r), r)
  {
    var keys, values := ["path", "access"], [JString(r.path), JString(AccessName(r.access))];
    NamedMember(keys, values, 0, "path");
    NamedMember(keys, values, 1, "access");
    var j := RuleJson(r);
    assert j.fields.Keys == {"path", "access"};
  }

  /** The rules under their name, in this order, and the fixed members. */
  predicate ShowsSurface(j: Json, roots: seq<FsRule>) {
    && Member(j, "schemaVersion", JNumber("1"))
    && Member(j, "profileName", JString("coodra-project")) && Member(j, "defaultPermissions", JString("coodra-project"))
    && Member(j, "extends", JString(":workspace")) && Member(j, "filesystemGlobScanMaxDepth", JNumber("3"))
    && Member(j, "network", JObject(["enabled"], map["enabled" := JBool(false)]))
    && "filesystemWorkspaceRoots" in j.fields && ShowsRoots(j.fields["filesystemWorkspaceRoots"], roots)
  }

  predicate ShowsRoots(j: Json, roots: seq<FsRule>) {
    j.JArray? && |j.items| == |roots| && forall i :: 0 <= i < |roots| ==> ShowsRule(j.items[i], roots[i])
  }

  lemma RootsShow(roots: seq<FsRule>)
    ensures ShowsRoots(Roots(roots), roots)
  {
    forall i | 0 <= i < |roots| ensures ShowsRule(Roots(roots).items[i], roots[i]) { RuleShows(roots[i]); }
  }

  lemma NetworkIs()
    ensures NETWORK == JObject(["enabled"], map["enabled" := JBool(false)])
  {
    var keys, values := ["enabled"], [JBool(false)];
    assert keys[..0] == [] && values[..0] == [];
    assert Zip(keys, values) == Zip(keys[..0], values[..0])["enabled" := JBool(false)];
  }

  lemma RecordShowsSurface(keys: seq<string>, values: seq<Json>, roots: seq<FsRule>, at: seq<nat>)
    requires |keys| == |values| && Distinct(keys) && |at| == 7 && forall i :: 0 <= i < 7 ==> at[i] < |keys|
    requires keys[at[0]] == "schemaVersion" && keys[at[1]] == "profileName" && keys[at[2]] == "defaultPermissions"
    requires keys[at[3]] == "extends" && keys[at[4]] == "filesystemGlobScanMaxDepth" && keys[at[6]] == "network"
    requires keys[at[5]] == "filesystemWorkspaceRoots"
    requires values[at[0]] == JNumber("1") && values[at[1]] == values[at[2]] == JString("coodra-project")
    requires values[at[3]] == JString(":workspace") && values[at[4]] == JNumber("3")
    requires values[at[5]] == Roots(roots) && values[at[6]] == NETWORK
    ensures ShowsSurface(JsonRecord(keys, values), roots)
  {
    RootsShow(roots);
    NetworkIs();
    NamedMember(keys, values, at[0], "schemaVersion");
    NamedMember(keys, values, at[1], "profileName");
    NamedMember(keys, values, at[2], "defaultPermissions");
    NamedMember(keys, values, at[3], "extends");
    NamedMember(keys, values, at[4], "filesystemGlobScanMaxDepth");
    NamedMember(keys, values, at[5], "filesystemWorkspaceRoots");
    NamedMember(keys, values, at[6], "network");
  }

  lemma SurfaceShows(roots: seq<FsRule>)
    ensures ShowsSurface(SurfaceJson(roots), roots)
  {
    SurfaceKeysDistinct();
    RecordShowsSurface(SURFACE_KEYS, SurfaceValues(roots), roots, [0, 1, 2, 3, 4, 5, 6]);
  }

  /** What is hashed is JSON text of what Codex reads. */
  lemma HashedText(sha256: string -> string, roots: seq<FsRule>, locale: Locale) returns (text: string, w: Json)
    ensures SurfaceHash(sha256, roots, locale) == sha256(text) && Read(text) == Some(w) && KeysAscend(w)
    ensures var sorted := Sort(roots, RuleOrder(locale));
            Same(w, SurfaceJson(sorted)) && ShowsSurface(SurfaceJson(sorted), sorted)
  {
    var j := SurfaceJson(Sort(roots, RuleOrder(locale)));
    text := Stringify(j);
    w := StringifyReadsBack(j);
    SurfaceShows(Sort(roots, RuleOrder(locale)));
  }

  /** With sha256 injective the hash determines the set of roots. */
  lemma EqualHashEqualRoots(sha256: string -> string, x: seq<FsRule>, y: seq<FsRule>, locale: Locale)
    requires Injective(sha256) && SurfaceHash(sha256, x, locale) == SurfaceHash(sha256, y, locale)
    ensures multiset(x) == multiset(y)
  {
    var u, v := Sort(x, RuleOrder(locale)), Sort(y, RuleOrder(locale));
    StringifyCanonical(SurfaceJson(u), SurfaceJson(v));
    SurfaceKeysDistinct();
    RecordsSame(SURFACE_KEYS, SurfaceValues(u), SurfaceValues(v));
    assert Same(SurfaceValues(u)[5], SurfaceValues(v)[5]);
    RootsDetermine(u, v);
    SortPermutes(x, RuleOrder(locale));
    SortPermutes(y, RuleOrder(locale));
  }

  function ProjectionValues(p: Projection): seq<Json> {
    [Number(1), JString(PROFILE_NAME), JString(PROFILE_NAME), JString(DESCRIPTION), JString(":workspace"), Number(3),
     Roots(p.roots), NETWORK, Strings(p.translatedRuleIds), Strings(p.untranslatedRuleIds), JString(p.hash)]
  }

  /** The projection as part of a larger payload. */
  function ProjectionJson(p: Projection): (j: Json)
    ensures WellFormed(j)
  {
    ProjectionKeysDistinct();
    NumberWellFormed(1);
    NumberWellFormed(3);
    RootsWellFormed(p.roots);
    NetworkWellFormed();
    StringsWellFormed(p.translatedRuleIds);
    StringsWellFormed(p.untranslatedRuleIds);
    RecordWellFormed(PROJECTION_KEYS, ProjectionValues(p));
    JsonRecord(PROJECTION_KEYS, ProjectionValues(p))
  }

  lemma ProjectionJsonDetermines(p: Projection, q: Projection)
    requires Same(ProjectionJson(p), ProjectionJson(q))
    ensures p == q
  {
    var u, v := ProjectionValues(p), ProjectionValues(q);
    ProjectionKeysDistinct();
    RecordsSame(PROJECTION_KEYS, u, v);
    assert Same(u[6], v[6]) && Same(u[8], v[8]) && Same(u[9], v[9]) && Same(u[10], v[10]);
    RootsDetermine(p.roots, q.roots);
    StringsDetermine(p.translatedRuleIds, q.translatedRuleIds);
    StringsDetermine(p.untranslatedRuleIds, q.untranslatedRuleIds);
  }

  lemma ProjectionShowsSurface(p: Projection)
    ensures ShowsSurface(ProjectionJson(p), p.roots)
  {
    ProjectionKeysDistinct();
    RecordShowsSurface(PROJECTION_KEYS, ProjectionValues(p), p.roots, [0, 1, 2, 4, 5, 6, 7]);
  }

  lemma ProjectionShowsHash(p: Projection)
    ensures Member(ProjectionJson(p), "projectionHash", JString(p.hash))
  {
    ProjectionKeysDistinct();
    NamedMember(PROJECTION_KEYS, ProjectionValues(p), 10, "projectionHash");
  }

  lemma ProjectionShowsIds(p: Projection)
    ensures HasTexts(ProjectionJson(p), "translatedRuleIds", p.translatedRuleIds)
    ensures HasTexts(ProjectionJson(p), "untranslatedRuleIds", p.untranslatedRuleIds)
  {
    ProjectionKeysDistinct();
    NamedTexts(PROJECTION_KEYS, ProjectionValues(p), 8, "translatedRuleIds", p.translatedRuleIds);
    NamedTexts(PROJECTION_KEYS, ProjectionValues(p), 9, "untranslatedRuleIds", p.untranslatedRuleIds);
  }

  predicate Shows(j: Json, p: Projection) {
    && ShowsSurface(j, p.roots) && Member(j, "projectionHash", JString(p.hash))
    && HasTexts(j, "translatedRuleIds", p.translatedRuleIds)
    && HasTexts(j, "untranslatedRuleIds", p.untranslatedRuleIds)
  }

  lemma ProjectionShows(p: Projection)
    ensures Shows(ProjectionJson(p), p)
  {
    ProjectionShowsSurface(p);
    ProjectionShowsHash(p);
    ProjectionShowsIds(p);
  }

  /** What the active rules compile to. */
  function FromRules(ps: seq<PolicyWithRules>): seq<FsRule> {
    Each(Filter(ps, IsActive), Permissions(CompileRule))
  }

  function Compiled(ps: seq<PolicyWithRules>): seq<FsRule> {
    BASELINE + FromRules(ps)
  }

  function ProjectionOf(ps: seq<PolicyWithRules>, locale: Locale, sha256: string -> string): Projection {
    var active := Filter(ps, IsActive);
    var roots := UniqueSortedRules(Compiled(ps), locale);
    Projection(roots, UniqueSorted(Each(active, TranslatedId(CompileRule))),
               UniqueSorted(Each(active, UntranslatedId(CompileRule))), SurfaceHash(sha256, roots, locale))
  }

  method BuildCodexNativePermissionsProjection(policies: seq<PolicyWithRules>, locale: Locale,
                                               sha256: string -> string) returns (p: Projection)
    ensures p == ProjectionOf(policies, locale, sha256)
  {
    var compiled, translated, untranslated := CompilePolicies(policies, CompileRule);
    var roots := SortUniqueRules(BASELINE + compiled, locale);
    p := Projection(roots, UniqueSorted(translated), UniqueSorted(untranslated), SurfaceHash(sha256, roots, locale));
  }

  // ------------------------------------------------------------ properties

  lemma UniqueRules(rules: seq<FsRule>, locale: Locale)
    ensures Distinct(UniqueSortedRules(rules, locale))
    ensures forall r :: r in UniqueSortedRules(rules, locale) <==> r in rules
  {
    var first := FirstSeen(rules);
    FirstSeenDistinct(rules);
    SortMembers(first, RuleOrder(locale));
    SortPermutes(first, RuleOrder(locale));
    PermutedDistinct(first, Sort(first, RuleOrder(locale)));
  }

  /** A pattern relative to the workspace: without `./` and then a slash in front. */
  ghost predicate RelativeTo(path: string, pattern: string) {
    var t := Trim(pattern);
    || t == "/" + path || t == ".//" + path
    || (t == "./" + path && !("/" <= path)) || (t == path && !("/" <= path) && !("./" <= path))
  }

  lemma NormalizedExactly(pattern: string, path: string)
    ensures RelativeTo(path, pattern) <==> path == NormalizePattern(pattern)
  {
    var t := Trim(pattern);
    Prefixed("/", t, path);
    Prefixed("./", t, path);
    Prefixed("./", t, "/" + path);
    assert "./" + ("/" + path) == ".//" + path;
    if "./" <= t {
      Prefixed("/", t[2..], path);
      assert t[0] == '.';
    }
  }

  /** A text starts with the prefix and goes on with the path exactly when the path is what is behind the prefix. */
  lemma Prefixed(prefix: string, t: string, path: string)
    ensures t == prefix + path <==> prefix <= t && t[|prefix|..] == path
  {
    if prefix <= t { assert t == prefix + t[|prefix|..]; }
  }

  /** The same letter, whatever its case; the sign of degrees Kelvin is lower-cased to a k. */
  predicate SameLetter(c: char, w: char) {
    c == w || ('a' <= w <= 'z' && c as int + 32 == w as int) || (w == 'k' && c == '\U{212A}')
  }

  /** The word stands in the text at `i`, in capitals or not. */
  predicate SpeltAt(s: string, word: string, i: nat) {
    i + |word| <= |s| && forall k :: 0 <= k < |word| ==> SameLetter(s[i + k], word[k])
  }

  /** The path names a file of environment variables, secrets, tokens, credentials or private keys. */
  ghost predicate Sensitive(path: string) {
    exists i: nat :: SpeltAt(path, ".env", i) || SpeltAt(path, "secret", i) || SpeltAt(path, "token", i)
                || SpeltAt(path, "credential", i) || SpeltAt(path, "private_key", i)
  }

  predicate LowerCase(word: string) {
    forall k :: 0 <= k < |word| ==> 'a' <= word[k] <= 'z' || word[k] in {'.', '_'}
  }

  lemma SpeltExactly(s: string, word: string)
    requires LowerCase(word)
    ensures IndexOf(Lower(s), word) >= 0 <==> exists i: nat :: SpeltAt(s, word, i)
  {
    var l := Lower(s);
    forall i: nat ensures SpeltAt(s, word, i) <==> OccursAt(l, word, i) {
      if i + |word| <= |s| {
        forall k | 0 <= k < |word| ensures SameLetter(s[i + k], word[k]) <==> l[i + k] == word[k] { }
        assert l[i..i + |word|] == word <==> forall k :: 0 <= k < |word| ==> l[i + k] == word[k];
      }
    }
    var at := IndexOf(l, word);
    if at >= 0 { assert SpeltAt(s, word, at); }
    if i: nat :| SpeltAt(s, word, i) { assert OccursAt(l, word, i); }
  }

  lemma SensitiveWords()
    ensures |SENSITIVE| == 5 && SENSITIVE[0] == ".env" && SENSITIVE[1] == "secret" && SENSITIVE[2] == "token"
    ensures SENSITIVE[3] == "credential" && SENSITIVE[4] == "private_key"
    ensures forall k :: 0 <= k < 5 ==> LowerCase(SENSITIVE[k])
  {
  }

  lemma SensitiveExactly(path: string)
    ensures LooksSensitive(path) <==> Sensitive(path)
  {
    SensitiveWords();
    forall k | 0 <= k < 5
      ensures IndexOf(Lower(path), SENSITIVE[k]) >= 0 <==> exists i: nat :: SpeltAt(path, SENSITIVE[k], i)
    {
      SpeltExactly(path, SENSITIVE[k]);
    }
  }

  /** Only a denial of a file tool, in scope of Codex and with a path, becomes a filesystem rule; it takes reading away
      for a read tool, a sensitive path or a recursive-anywhere glob, and writing alone otherwise. */
  ghost predicate Becomes(q: Rule, r: FsRule) {
    var f := q.fields;
    && f.matchEventType == "PreToolUse" && f.decision == Deny
    && (f.matchAgentType == None || f.matchAgentType == Some("*") || f.matchAgentType == Some("codex"))
    && (EditsFiles(f.matchToolName) || ReadsFiles(f.matchToolName))
    && Given(f.matchPathGlob) && RelativeTo(r.path, f.matchPathGlob.value) && r.path != ""
    && r.access == if ReadsFiles(f.matchToolName) || Sensitive(r.path) || "**/" <= r.path then DenyAccess
                   else ReadAccess
  }

  lemma CompiledExactly(q: Rule, r: FsRule)
    ensures CompileRule(q) == Some(r) <==> Becomes(q, r)
  {
    SensitiveExactly(r.path);
    if q.fields.matchPathGlob.Some? {
      BlankExactly(q.fields.matchPathGlob.value);
      NormalizedExactly(q.fields.matchPathGlob.value, r.path);
    }
  }

  /** What every project is given: environment files are closed, the repository and its packages are read-only. */
  ghost predicate Fixed(r: FsRule) {
    || r == FsRule(".env", DenyAccess) || r == FsRule("**/.env", DenyAccess)
    || r == FsRule(".git/**", ReadAccess) || r == FsRule("**/.git/**", DenyAccess)
    || r == FsRule("node_modules/**", ReadAccess) || r == FsRule("**/node_modules/**", DenyAccess)
  }

  lemma BaselineExactly(r: FsRule)
    ensures r in BASELINE <==> Fixed(r)
  {
    var b := BASELINE;
    assert b[0] == FsRule(".env", DenyAccess) && b[1] == FsRule("**/.env", DenyAccess);
    assert b[2] == FsRule(".git/**", ReadAccess) && b[3] == FsRule("**/.git/**", DenyAccess);
    assert b[4] == FsRule("node_modules/**", ReadAccess) && b[5] == FsRule("**/node_modules/**", DenyAccess);
    assert |b| == 6;
  }

  /** The published rules are the fixed ones and what the rules in force become, each once. */
  lemma RootsExactly(ps: seq<PolicyWithRules>, locale: Locale, r: FsRule)
    ensures Distinct(UniqueSortedRules(Compiled(ps), locale))
    ensures r in UniqueSortedRules(Compiled(ps), locale)
            <==> Fixed(r) || exists p, q :: InForce(ps, p, q) && Becomes(q, r)
  {
    UniqueRules(Compiled(ps), locale);
    BaselineExactly(r);
    EachMember(Filter(ps, IsActive), Permissions(CompileRule), r);
    FilterMembers(ps, IsActive);
    forall q ensures CompileRule(q) == Some(r) <==> Becomes(q, r) { CompiledExactly(q, r); }
    if p, q :| p in Filter(ps, IsActive) && q in p.rules && r in Permissions(CompileRule)(q) {
      assert InForce(ps, p, q) && Becomes(q, r);
    }
    if p, q :| InForce(ps, p, q) && Becomes(q, r) {
      assert p in Filter(ps, IsActive) && r in Permissions(CompileRule)(q);
    }
  }

  /** The published rules are in the locale's order of their paths; the rules of one path are in the order of their
      access where the locale takes no other published path for it. */
  ghost predicate InOrder(roots: seq<FsRule>, locale: Locale) {
    forall i, j :: 0 <= i < j < |roots| ==>
      && locale(roots[i].path, roots[j].path)
      && (roots[i].path == roots[j].path && Alone(roots, roots[i].path, locale) ==>
            locale(AccessName(roots[i].access), AccessName(roots[j].access)))
  }

  ghost predicate Alone(roots: seq<FsRule>, path: string, locale: Locale) {
    forall r :: r in roots && locale(r.path, path) && locale(path, r.path) ==> r.path == path
  }

  lemma RootsInOrder(rules: seq<FsRule>, locale: Locale)
    requires TotalPreorder(locale)
    ensures InOrder(UniqueSortedRules(rules, locale), locale)
  {
    var first, roots := FirstSeen(rules), UniqueSortedRules(rules, locale);
    SortMembers(first, RuleOrder(locale));
    forall i, j | 0 <= i < j < |roots| ensures locale(roots[i].path, roots[j].path) {
      if !locale(roots[i].path, roots[j].path) { PathsInOrder(first, roots[i], roots[j], locale); }
    }
    forall i, j | 0 <= i < j < |roots| && roots[i].path == roots[j].path && Alone(roots, roots[i].path, locale)
      ensures locale(AccessName(roots[i].access), AccessName(roots[j].access))
    {
      if !locale(AccessName(roots[i].access), AccessName(roots[j].access)) {
        AccessInOrder(first, roots[i], roots[j], locale);
      }
    }
  }

  lemma PathsInOrder(first: seq<FsRule>, y: FsRule, e: FsRule, locale: Locale)
    requires TotalPreorder(locale) && y in first && e in first && !locale(y.path, e.path)
    ensures !Precedes(Sort(first, RuleOrder(locale)), y, e)
  {
    SortMembers(first, RuleOrder(locale));
    SortNoneBehind(first, first, y, (r: FsRule) => !locale(y.path, r.path), RuleOrder(locale));
  }

  lemma AccessInOrder(first: seq<FsRule>, y: FsRule, e: FsRule, locale: Locale)
    requires TotalPreorder(locale) && y in first && e in first && y.path == e.path
    requires Alone(first, y.path, locale) && !locale(AccessName(y.access), AccessName(e.access))
    ensures !Precedes(Sort(first, RuleOrder(locale)), y, e)
  {
    var below := (r: FsRule) => if r.path == y.path then !locale(AccessName(y.access), AccessName(r.access))
                                else locale(r.path, y.path);
    SortMembers(first, RuleOrder(locale));
    SortNoneBehind(first, first, y, below, RuleOrder(locale));
  }

  /** Codex rejects `read` on a recursive-anywhere glob: no published rule has that shape, and none grants write. */
  lemma NoReadAnywhere(ps: seq<PolicyWithRules>, locale: Locale, r: FsRule)
    requires r in UniqueSortedRules(Compiled(ps), locale)
    ensures r.access != WriteAccess && ("**/" <= r.path ==> r.access == DenyAccess)
  {
    RootsExactly(ps, locale, r);
    if Fixed(r) { assert r.path[0] == '*' ==> r.access == DenyAccess; }
  }

  /** A path is published twice exactly when two compiled rules give it different access. */
  lemma PathsRepeatExactly(rules: seq<FsRule>, locale: Locale)
    ensures Distinct(Map(UniqueSortedRules(rules, locale), PathOf))
       <==> forall r, s :: r in rules && s in rules && r.path == s.path ==> r.access == s.access
  {
    var sorted := UniqueSortedRules(rules, locale);
    UniqueRules(rules, locale);
    assert forall k :: 0 <= k < |sorted| ==> Map(sorted, PathOf)[k] == PathOf(sorted[k]);
    if Distinct(Map(sorted, PathOf)) {
      forall r, s | r in rules && s in rules && r.path == s.path ensures r.access == s.access {
        assert r in sorted && s in sorted;
        var i :| 0 <= i < |sorted| && sorted[i] == r;
        var j :| 0 <= j < |sorted| && sorted[j] == s;
        assert Map(sorted, PathOf)[i] == Map(sorted, PathOf)[j];
      }
    } else {
      var i, j :| 0 <= i < j < |sorted| && Map(sorted, PathOf)[i] == Map(sorted, PathOf)[j];
      assert sorted[i] != sorted[j] && sorted[i] in sorted && sorted[j] in sorted;
    }
  }

  function PathOf(r: FsRule): string { r.path }

  // ------------------------------------------------------------- row order

  predicate Tied(locale: Locale, a: FsRule, b: FsRule) {
    RuleLe(locale, a, b) && RuleLe(locale, b, a)
  }

  /** No two different rules outside `base` compare as equal. */
  ghost predicate NoTies(base: seq<FsRule>, rules: seq<FsRule>, locale: Locale) {
    forall a, b :: a in rules && b in rules && a !in base && b !in base && Tied(locale, a, b) ==> a == b
  }

  /** The comparator is not transitive across ties, but rules it tells apart are told apart for good. */
  lemma RulesSettle(locale: Locale, a: FsRule, b: FsRule)
    requires TotalPreorder(locale) && (a == b || !Tied(locale, a, b))
    ensures Settles(a, b, RuleOrder(locale))
  {
    assert RuleLe(locale, a, b) || RuleLe(locale, b, a);
    if a != b {
      forall z | RuleLe(locale, z, a) && RuleLe(locale, a, b) ensures RuleLe(locale, z, b) { }
      forall z | RuleLe(locale, z, b) && RuleLe(locale, b, a) ensures RuleLe(locale, z, a) { }
    }
  }

  lemma SameRulesSameOrder(base: seq<FsRule>, a: seq<FsRule>, b: seq<FsRule>, locale: Locale)
    requires TotalPreorder(locale) && NoTies(base, a, locale)
    requires forall r :: r in a <==> r in b
    ensures UniqueSortedRules(base + a, locale) == UniqueSortedRules(base + b, locale)
  {
    var x, y := Filter(FirstSeen(a), NotIn(base)), Filter(FirstSeen(b), NotIn(base));
    FirstSeenAppend(base, a);
    FirstSeenAppend(base, b);
    FirstSeenDistinct(a);
    FirstSeenDistinct(b);
    DistinctSameMembers(FirstSeen(a), FirstSeen(b));
    FilterPermutes(FirstSeen(a), FirstSeen(b), NotIn(base));
    FilterMembers(FirstSeen(a), NotIn(base));
    forall r, s | r in x && s in x ensures Settles(r, s, RuleOrder(locale)) { RulesSettle(locale, r, s); }
    SortTailPermutes(FirstSeen(base), x, y, RuleOrder(locale));
  }

  lemma FirstBefore(h: seq<FsRule>, a: FsRule, t: seq<FsRule>, b: FsRule)
    requires b in t
    ensures Precedes(h + [a] + t, a, b)
  {
    var j :| 0 <= j < |t| && t[j] == b;
    assert (h + [a] + t)[|h|] == a && (h + [a] + t)[|h| + 1 + j] == b;
  }

  /** A rule that is first after `base` comes before any other it ties with. */
  lemma FirstRuleStaysFirst(base: seq<FsRule>, a: FsRule, b: FsRule, rest: seq<FsRule>, locale: Locale)
    requires a !in base && b !in base && a != b && b in rest && Tied(locale, a, b)
    ensures Precedes(UniqueSortedRules(base + ([a] + rest), locale), a, b)
  {
    var first := FirstSeen(base + ([a] + rest));
    assert base + ([a] + rest) == (base + [a]) + rest;
    FirstSeenAppend(base + [a], rest);
    FirstSeenSnoc(base, a);
    FirstSeenDistinct(base);
    FirstSeenDistinct(rest);
    FilterMember(FirstSeen(rest), NotIn(base + [a]), b);
    var h, t := FirstSeen(base), Filter(FirstSeen(rest), NotIn(base + [a]));
    assert first == h + [a] + t;
    FirstBefore(h, a, t, b);
    SortIsStable(first, a, b, RuleOrder(locale));
  }

  lemma OrdersDiffer(base: seq<FsRule>, a: FsRule, b: FsRule, c: seq<FsRule>, d: seq<FsRule>, locale: Locale)
    requires a !in base && b !in base && a != b && Tied(locale, a, b) && b in c && a in d
    ensures UniqueSortedRules(base + ([a] + c), locale) != UniqueSortedRules(base + ([b] + d), locale)
  {
    FirstRuleStaysFirst(base, a, b, c, locale);
    FirstRuleStaysFirst(base, b, a, d, locale);
    UniqueRules(base + ([a] + c), locale);
    OneOrder(UniqueSortedRules(base + ([a] + c), locale), a, b);
  }

  ghost predicate RuleOrderForgotten(base: seq<FsRule>, rules: seq<FsRule>, locale: Locale) {
    forall t: seq<FsRule> :: (forall r :: r in t <==> r in rules)
      ==> UniqueSortedRules(base + t, locale) == UniqueSortedRules(base + rules, locale)
  }

  /** After any fixed rules, a list of rules comes out in one order however it came in, exactly when no two
      different rules of it that are not among the fixed ones compare as equal. */
  lemma RulesOrderExactly(base: seq<FsRule>, rules: seq<FsRule>, locale: Locale)
    requires TotalPreorder(locale)
    ensures RuleOrderForgotten(base, rules, locale) <==> NoTies(base, rules, locale)
  {
    if NoTies(base, rules, locale) {
      forall t: seq<FsRule> | forall r :: r in t <==> r in rules
        ensures UniqueSortedRules(base + t, locale) == UniqueSortedRules(base + rules, locale) {
        SameRulesSameOrder(base, rules, t, locale);
      }
    } else {
      var a, b :| a in rules && b in rules && a !in base && b !in base && Tied(locale, a, b) && a != b;
      OrdersDiffer(base, a, b, rules, rules, locale);
      assert forall r :: r in [a] + rules <==> r in rules;
      assert forall r :: r in [b] + rules <==> r in rules;
    }
  }

  lemma SameFromRules(ps: seq<PolicyWithRules>, qs: seq<PolicyWithRules>)
    requires Reordered(ps, qs)
    ensures forall r :: r in FromRules(ps) <==> r in FromRules(qs)
  {
    ActiveReordered(ps, qs);
    EachPermutes(Filter(ps, IsActive), Filter(qs, IsActive), Permissions(CompileRule));
    forall r ensures r in FromRules(ps) <==> r in FromRules(qs) {
      assert r in FromRules(ps) <==> r in multiset(FromRules(ps));
      assert r in FromRules(qs) <==> r in multiset(FromRules(qs));
    }
  }

  /** Where no two different compiled rules tie, the projection forgets the order of rows. */
  lemma ProjectionIgnoresOrder(ps: seq<PolicyWithRules>, qs: seq<PolicyWithRules>, locale: Locale,
                               sha256: string -> string)
    requires Reordered(ps, qs)
    requires TotalPreorder(locale) && NoTies(BASELINE, FromRules(ps), locale)
    ensures ProjectionOf(ps, locale, sha256) == ProjectionOf(qs, locale, sha256)
  {
    ActiveReordered(ps, qs);
    var a, b := Filter(ps, IsActive), Filter(qs, IsActive);
    EachPermutes(a, b, TranslatedId(CompileRule));
    EachPermutes(a, b, UntranslatedId(CompileRule));
    UniqueSortedPermutes(Each(a, TranslatedId(CompileRule)), Each(b, TranslatedId(CompileRule)));
    UniqueSortedPermutes(Each(a, UntranslatedId(CompileRule)), Each(b, UntranslatedId(CompileRule)));
    SameFromRules(ps, qs);
    SameRulesSameOrder(BASELINE, FromRules(ps), FromRules(qs), locale);
  }

  /** The policies can be listed with the rule that compiles to `r` first of all. */
  lemma ListedFirst(ps: seq<PolicyWithRules>, r: FsRule) returns (qs: seq<PolicyWithRules>, rest: seq<FsRule>)
    requires r in FromRules(ps)
    ensures Reordered(ps, qs) && FromRules(qs) == [r] + rest
  {
    var active := Filter(ps, IsActive);
    EachMember(active, Permissions(CompileRule), r);
    FilterMembers(ps, IsActive);
    var p, q :| p in active && q in p.rules && r in Permissions(CompileRule)(q);
    var tail := PickOne(p.rules, q);
    var others := PickOne(ps, p);
    var p' := p.(rules := [q] + tail);
    qs := [p'] + others;
    rest := FlatMap(tail, Permissions(CompileRule)) + FromRules(others);
    SameViewFirst(p, q, tail);
    ListingWith(ps, p, others, p');
    FromRulesOf(p', q, tail, others);
  }

  lemma SameViewFirst(p: PolicyWithRules, q: Rule, tail: seq<Rule>)
    requires multiset(p.rules) == multiset(tail) + multiset{q}
    ensures View(p.(rules := [q] + tail)) == View(p)
  {
    assert multiset([q] + tail) == multiset(tail) + multiset{q};
  }

  lemma ListingWith(ps: seq<PolicyWithRules>, p: PolicyWithRules, others: seq<PolicyWithRules>, p': PolicyWithRules)
    requires multiset(ps) == multiset(others) + multiset{p} && View(p') == View(p)
    ensures Reordered(ps, [p'] + others)
  {
    SameListing(ps, [p] + others);
    MapAppend([p], others, View);
    MapAppend([p'], others, View);
    assert Map([p], View) == [View(p)] == Map([p'], View);
  }

  lemma FromRulesOf(p: PolicyWithRules, q: Rule, tail: seq<Rule>, others: seq<PolicyWithRules>)
    requires IsActive(p) && p.rules == [q] + tail
    ensures FromRules([p] + others)
         == Permissions(CompileRule)(q) + (FlatMap(tail, Permissions(CompileRule)) + FromRules(others))
  {
    var f := Permissions(CompileRule);
    FilterAppend([p], others, IsActive);
    FilterKeepsAll([p], IsActive);
    FlatMapAppend([p], Filter(others, IsActive), InPolicy(f));
    FlatMapOne(p, InPolicy(f));
    FlatMapAppend([q], tail, f);
    FlatMapOne(q, f);
  }

  ghost predicate OrderForgotten(ps: seq<PolicyWithRules>, locale: Locale, sha256: string -> string) {
    forall qs :: Reordered(ps, qs) ==> ProjectionOf(qs, locale, sha256) == ProjectionOf(ps, locale, sha256)
  }

  /** The projection forgets the order of policies and rules exactly when no two different compiled rules
      outside the baseline compare as equal. */
  lemma ProjectionOrderExactly(ps: seq<PolicyWithRules>, locale: Locale, sha256: string -> string)
    requires TotalPreorder(locale)
    ensures OrderForgotten(ps, locale, sha256) <==> NoTies(BASELINE, FromRules(ps), locale)
  {
    if NoTies(BASELINE, FromRules(ps), locale) {
      forall qs | Reordered(ps, qs) ensures ProjectionOf(qs, locale, sha256) == ProjectionOf(ps, locale, sha256) {
        ProjectionIgnoresOrder(ps, qs, locale, sha256);
      }
    } else {
      var a, b :| a in FromRules(ps) && b in FromRules(ps) && a !in BASELINE && b !in BASELINE
                  && Tied(locale, a, b) && a != b;
      var qs, rs := TwoOrders(ps, a, b, locale);
      assert ProjectionOf(qs, locale, sha256).roots != ProjectionOf(rs, locale, sha256).roots;
    }
  }

  lemma TwoOrders(ps: seq<PolicyWithRules>, a: FsRule, b: FsRule, locale: Locale)
      returns (qs: seq<PolicyWithRules>, rs: seq<PolicyWithRules>)
    requires a in FromRules(ps) && b in FromRules(ps) && a !in BASELINE && b !in BASELINE
    requires Tied(locale, a, b) && a != b
    ensures Reordered(ps, qs) && Reordered(ps, rs)
    ensures UniqueSortedRules(Compiled(qs), locale) != UniqueSortedRules(Compiled(rs), locale)
  {
    var c, d;
    qs, c := ListedFirst(ps, a);
    rs, d := ListedFirst(ps, b);
    SameFromRules(ps, qs);
    SameFromRules(ps, rs);
    assert b in [a] + c && a in [b] + d;
    OrdersDiffer(BASELINE, a, b, c, d, locale);
  }

  /** The two id lists hold exactly the ids of the rules in force that become a filesystem rule and that do not, once
      each and in order: where ids do not repeat they are apart. */
  lemma ReportsEveryRule(ps: seq<PolicyWithRules>, locale: Locale, sha256: string -> string, id: string)
    ensures var p := ProjectionOf(ps, locale, sha256);
            var t, u := p.translatedRuleIds, p.untranslatedRuleIds;
            && SortedBy(t, StringLe) && Distinct(t) && SortedBy(u, StringLe) && Distinct(u)
            && (id in t <==> exists q, r :: InForce(ps, q, r) && r.id == id && BecomesSome(r))
            && (id in u <==> exists q, r :: InForce(ps, q, r) && r.id == id && !BecomesSome(r))
            && (Distinct(Each(Filter(ps, IsActive), RuleId)) ==> !(id in t && id in u))
  {
    var able := (r: Rule) => CompileRule(r).Some?;
    if Distinct(Each(Filter(ps, IsActive), RuleId)) { TranslationPartitions(Filter(ps, IsActive), CompileRule, id); }
    forall r ensures able(r) <==> BecomesSome(r) { SomeExactly(r); }
    TranslatedIds(ps, CompileRule, able, id);
  }

  ghost predicate BecomesSome(q: Rule) { exists r :: Becomes(q, r) }

  lemma SomeExactly(q: Rule)
    ensures CompileRule(q).Some? <==> BecomesSome(q)
  {
    if CompileRule(q).Some? { CompiledExactly(q, CompileRule(q).value); }
    if r :| Becomes(q, r) { CompiledExactly(q, r); }
  }
}
