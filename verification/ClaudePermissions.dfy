/**
  Compiling project policies into Claude Code's allow, ask and deny lists
  (packages/db/src/claude-permissions.ts), and the hash of the result: sha256,
  a parameter, of the canonical text.
*/
module ClaudePermissions {
  import opened Collections
  import opened Text
  import opened CanonicalJson
  import opened JsonRecords
  import opened PolicyTables
  import opened PolicyViews

  datatype Permission = Permission(decision: Decision, value: string, ruleId: string)

  datatype Payload = Payload(allow: seq<string>, ask: seq<string>, deny: seq<string>,
                             translatedRuleIds: seq<string>, untranslatedRuleIds: seq<string>)

  datatype Projection = Projection(payload: Payload, hash: string)

  const EDIT_TOOLS := {"Write", "Edit", "MultiEdit", "NotebookEdit"}
  const READ_TOOLS := {"Read", "Grep", "Glob"}

  // ------------------------------------------------------------- compiling

  predicate Scoped(agent: Option<string>) {
    agent.None? || agent.value in {"*", "claude", "claude_code"}
  }

  /** The pattern `^mcp__[^*_]+__`; the wildcard stays behind one named server. */
  predicate NamesMcpServer(tool: string) {
    "mcp__" <= tool
    && exists n :: 6 <= n < |tool| && OccursAt(tool, "__", n) && forall i :: 5 <= i < n ==> tool[i] !in {'*', '_'}
  }

  predicate SafeAllowToolGlob(tool: string) {
    '*' !in tool || NamesMcpServer(tool)
  }

  function NormalizePath(pattern: string): string {
    var trimmed := Trim(pattern);
    if trimmed == "" || "//" <= trimmed || "~/" <= trimmed || "/" <= trimmed then trimmed
    else if "./" <= trimmed then "/" + trimmed[2..]
    else "/" + trimmed
  }

  function CompileRule(rule: Rule): Option<Permission> {
    var f := rule.fields;
    if f.matchEventType != "PreToolUse" then None
    else if !Scoped(f.matchAgentType) then None
    else if f.decision == Allow && !SafeAllowToolGlob(f.matchToolName) then None
    else if f.matchToolName == "Bash" then
      if f.matchCommandPattern.None? || Trim(f.matchCommandPattern.value) == "" then None
      else Some(Permission(f.decision, "Bash(" + Trim(Trim(f.matchCommandPattern.value)) + ")", rule.id))
    else if f.matchPathGlob.Some? && Trim(f.matchPathGlob.value) != "" then
      var pattern := NormalizePath(f.matchPathGlob.value);
      if f.matchToolName in EDIT_TOOLS then Some(Permission(f.decision, "Edit(" + pattern + ")", rule.id))
      else if f.matchToolName in READ_TOOLS then Some(Permission(f.decision, "Read(" + pattern + ")", rule.id))
      else None
    else Some(Permission(f.decision, f.matchToolName, rule.id))
  }

  /** The anchored form of a path: as it is when it starts with a slash or the home directory, and otherwise with a
      slash in place of a leading `./` or in front. */
  ghost predicate Anchors(path: string, pattern: string) {
    var t := Trim(pattern);
    if "/" <= t || "~/" <= t then path == t else if "./" <= t then t == "." + path else path == "/" + t
  }

  lemma NormalizedExactly(pattern: string)
    requires !Blank(pattern)
    ensures Anchors(NormalizePath(pattern), pattern)
  {
    BlankExactly(pattern);
    var t := Trim(pattern);
    if "./" <= t { assert t == "." + ("/" + t[2..]); }
  }

  /** A normalised path is anchored, and normalising it again changes nothing. */
  lemma NormalizedIsAnchored(pattern: string)
    requires !Blank(pattern)
    ensures var path := NormalizePath(pattern);
            ("/" <= path || "~/" <= path) && Anchors(path, pattern) && NormalizePath(path) == path
  {
    BlankExactly(pattern);
    NormalizedExactly(pattern);
    var a, b := TrimMeaning(pattern);
    var path := NormalizePath(pattern);
    assert !IsSpace('/');
    assert path != "" && !IsSpace(path[0]) && !IsSpace(path[|path| - 1]);
    assert TrimEnd(path) == path && Trim(path) == path;
  }

  // ------------------------------------------------- what a rule compiles to

  /** A tool of one MCP server: a wildcard can only be behind the server's name. */
  ghost predicate OfOneServer(tool: string, server: string, rest: string) {
    server != "" && '*' !in server && '_' !in server && tool == "mcp__" + server + "__" + rest
  }

  lemma NamesServerExactly(tool: string)
    ensures NamesMcpServer(tool) <==> exists server, rest :: OfOneServer(tool, server, rest)
  {
    if NamesMcpServer(tool) {
      var n :| 6 <= n < |tool| && OccursAt(tool, "__", n) && forall i :: 5 <= i < n ==> tool[i] !in {'*', '_'};
      assert forall i :: 0 <= i < n - 5 ==> tool[5..n][i] == tool[i + 5];
      assert tool == tool[..5] + tool[5..n] + tool[n..n + 2] + tool[n + 2..];
      assert OfOneServer(tool, tool[5..n], tool[n + 2..]);
    }
    if server, rest :| OfOneServer(tool, server, rest) {
      var n := 5 + |server|;
      assert tool[n..n + 2] == "__";
      forall i | 5 <= i < n ensures tool[i] !in {'*', '_'} { assert tool[i] == server[i - 5]; }
      assert "mcp__" <= tool && OccursAt(tool, "__", n);
    }
  }

  /** Claude Code can express the rule: it is for tool calls and this agent, a tool it allows is one tool or of one
      server, a shell rule has a command, and a path is of a file tool. */
  ghost predicate Translatable(r: Rule) {
    var f := r.fields;
    && f.matchEventType == "PreToolUse"
    && (f.matchAgentType == None || f.matchAgentType == Some("*") || f.matchAgentType == Some("claude")
        || f.matchAgentType == Some("claude_code"))
    && (f.decision == Allow && '*' in f.matchToolName ==>
          exists server, rest :: OfOneServer(f.matchToolName, server, rest))
    && (if f.matchToolName == "Bash" then Given(f.matchCommandPattern)
        else Given(f.matchPathGlob) ==> EditsFiles(f.matchToolName) || ReadsFiles(f.matchToolName))
  }

  /** The text of the permission: a command or an anchored path in the brackets of its tool, else the tool itself. */
  ghost predicate ReadsAs(r: Rule, v: string) {
    var f := r.fields;
    if f.matchToolName == "Bash" then
      f.matchCommandPattern.Some? && v == "Bash(" + Trim(f.matchCommandPattern.value) + ")"
    else if Given(f.matchPathGlob) then
      exists path :: Anchors(path, f.matchPathGlob.value)
                     && v == (if EditsFiles(f.matchToolName) then "Edit(" else "Read(") + path + ")"
    else v == f.matchToolName
  }

  lemma TrimTwice(s: string)
    ensures Trim(Trim(s)) == Trim(s)
  {
    var a, b := TrimMeaning(s);
  }

  /** Which rules Claude Code is given, and as what: the rule's own decision and id, and its text. */
  lemma CompiledExactly(r: Rule)
    ensures CompileRule(r).Some? <==> Translatable(r)
    ensures CompileRule(r).Some? ==>
              var c := CompileRule(r).value;
              c.decision == r.fields.decision && c.ruleId == r.id && ReadsAs(r, c.value)
  {
    var f := r.fields;
    NamesServerExactly(f.matchToolName);
    if f.matchCommandPattern.Some? {
      BlankExactly(f.matchCommandPattern.value);
      TrimTwice(f.matchCommandPattern.value);
    }
    if f.matchPathGlob.Some? {
      BlankExactly(f.matchPathGlob.value);
      if !Blank(f.matchPathGlob.value) { NormalizedExactly(f.matchPathGlob.value); }
    }
  }

  // -------------------------------------------------------------- building

  function Decided(d: Decision): Permission -> bool { (c: Permission) => c.decision == d }
  function Value(c: Permission): string { c.value }
  function IdOf(c: Permission): string { c.ruleId }

  function ListFor(compiled: seq<Permission>, d: Decision): seq<string> {
    UniqueSorted(Map(Filter(compiled, Decided(d)), Value))
  }

  function PayloadOf(ps: seq<PolicyWithRules>): Payload {
    var active := Filter(ps, IsActive);
    var compiled := Each(active, Permissions(CompileRule));
    Payload(ListFor(compiled, Allow), ListFor(compiled, Ask), ListFor(compiled, Deny),
            UniqueSorted(Map(compiled, IdOf)), UniqueSorted(Each(active, UntranslatedId(CompileRule))))
  }

  // ---------------------------------------------------------------- the hash

  const PROJECTION_KEYS := ["schemaVersion", "allow", "ask", "deny", "translatedRuleIds", "untranslatedRuleIds",
                            "settings", "projectionHash"]

  lemma ProjectionKeysDistinct()
    ensures |PROJECTION_KEYS| == 8 && Distinct(PROJECTION_KEYS)
  {
    DistinctByCode(PROJECTION_KEYS, [13115086, 5097108, 3097115, 4100110, 17116101, 19117116, 8115105,
                                      14112105]);
  }

  /** The one setting that is emitted. */
  const SETTINGS := JsonRecord(["disableAutoMode"], [JString("disable")])

  lemma SettingsWellFormed()
    ensures WellFormed(SETTINGS)
  {
    RecordWellFormed(["disableAutoMode"], [JString("disable")]);
  }

  function PayloadValues(p: Payload): seq<Json> {
    [Number(1), Strings(p.allow), Strings(p.ask), Strings(p.deny), Strings(p.translatedRuleIds),
     Strings(p.untranslatedRuleIds), SETTINGS]
  }

  lemma ValuesWellFormed(p: Payload)
    ensures |PayloadValues(p)| == 7
    ensures forall i :: 0 <= i < 7 ==> WellFormed(PayloadValues(p)[i])
  {
    NumberWellFormed(1);
    StringsWellFormed(p.allow);
    StringsWellFormed(p.ask);
    StringsWellFormed(p.deny);
    StringsWellFormed(p.translatedRuleIds);
    StringsWellFormed(p.untranslatedRuleIds);
    SettingsWellFormed();
  }

  lemma ValuesDetermine(p: Payload, q: Payload)
    requires forall i :: 0 <= i < 7 ==> Same(PayloadValues(p)[i], PayloadValues(q)[i])
    ensures p == q
  {
    var u, v := PayloadValues(p), PayloadValues(q);
    assert Same(u[1], v[1]) && Same(u[2], v[2]) && Same(u[3], v[3]) && Same(u[4], v[4]) && Same(u[5], v[5]);
    StringsDetermine(p.allow, q.allow);
    StringsDetermine(p.ask, q.ask);
    StringsDetermine(p.deny, q.deny);
    StringsDetermine(p.translatedRuleIds, q.translatedRuleIds);
    StringsDetermine(p.untranslatedRuleIds, q.untranslatedRuleIds);
  }

  function PayloadJson(p: Payload): (j: Json)
    ensures WellFormed(j)
  {
    ProjectionKeysDistinct();
    ValuesWellFormed(p);
    RecordWellFormed(PROJECTION_KEYS[..7], PayloadValues(p));
    JsonRecord(PROJECTION_KEYS[..7], PayloadValues(p))
  }

  /** The lists under their names, and the one setting. */
  predicate ShowsLists(j: Json, p: Payload) {
    && Member(j, "schemaVersion", JNumber("1"))
    && HasTexts(j, "allow", p.allow) && HasTexts(j, "ask", p.ask) && HasTexts(j, "deny", p.deny)
    && HasTexts(j, "translatedRuleIds", p.translatedRuleIds)
    && HasTexts(j, "untranslatedRuleIds", p.untranslatedRuleIds)
    && Member(j, "settings", JObject(["disableAutoMode"], map["disableAutoMode" := JString("disable")]))
  }

  lemma SettingsAre()
    ensures SETTINGS == JObject(["disableAutoMode"], map["disableAutoMode" := JString("disable")])
  {
    var keys, values := ["disableAutoMode"], [JString("disable")];
    assert keys[..0] == [] && values[..0] == [];
    assert Zip(keys, values) == Zip(keys[..0], values[..0])["disableAutoMode" := JString("disable")];
  }

  lemma ValuesAre(p: Payload)
    ensures var v := PayloadValues(p);
            && |v| == 7 && v[0] == JNumber("1") && v[1] == Strings(p.allow) && v[2] == Strings(p.ask)
            && v[3] == Strings(p.deny) && v[4] == Strings(p.translatedRuleIds)
            && v[5] == Strings(p.untranslatedRuleIds) && v[6] == SETTINGS
  {
  }

  ghost predicate Keyed(keys: seq<string>) {
    && |keys| >= 7 && Distinct(keys)
    && keys[0] == "schemaVersion" && keys[1] == "allow" && keys[2] == "ask" && keys[3] == "deny"
    && keys[4] == "translatedRuleIds" && keys[5] == "untranslatedRuleIds" && keys[6] == "settings"
  }

  lemma RecordShowsLists(keys: seq<string>, values: seq<Json>, p: Payload)
    requires Keyed(keys) && |keys| == |values| && PayloadValues(p) <= values
    ensures ShowsLists(JsonRecord(keys, values), p)
  {
    ValuesAre(p);
    SettingsAre();
    NamedMember(keys, values, 0, "schemaVersion");
    NamedMember(keys, values, 6, "settings");
    NamedTexts(keys, values, 1, "allow", p.allow);
    NamedTexts(keys, values, 2, "ask", p.ask);
    NamedTexts(keys, values, 3, "deny", p.deny);
    NamedTexts(keys, values, 4, "translatedRuleIds", p.translatedRuleIds);
    NamedTexts(keys, values, 5, "untranslatedRuleIds", p.untranslatedRuleIds);
  }

  function HashOf(sha256: string -> string, p: Payload): string {
    sha256(Stringify(PayloadJson(p)))
  }

  /** With sha256 injective the hash determines the five lists. */
  lemma EqualHashEqualPayload(sha256: string -> string, p: Payload, q: Payload)
    requires Injective(sha256) && HashOf(sha256, p) == HashOf(sha256, q)
    ensures p == q
  {
    StringifyCanonical(PayloadJson(p), PayloadJson(q));
    ProjectionKeysDistinct();
    RecordsSame(PROJECTION_KEYS[..7], PayloadValues(p), PayloadValues(q));
    ValuesDetermine(p, q);
  }

  /** The projection as part of a larger payload. */
  function ProjectionJson(p: Projection): (j: Json)
    ensures WellFormed(j)
  {
    ProjectionKeysDistinct();
    ValuesWellFormed(p.payload);
    RecordWellFormed(PROJECTION_KEYS, PayloadValues(p.payload) + [JString(p.hash)]);
    JsonRecord(PROJECTION_KEYS, PayloadValues(p.payload) + [JString(p.hash)])
  }

  lemma ProjectionJsonDetermines(p: Projection, q: Projection)
    requires Same(ProjectionJson(p), ProjectionJson(q))
    ensures p == q
  {
    var u, v := PayloadValues(p.payload), PayloadValues(q.payload);
    ProjectionKeysDistinct();
    RecordsSame(PROJECTION_KEYS, u + [JString(p.hash)], v + [JString(q.hash)]);
    assert Same((u + [JString(p.hash)])[7], (v + [JString(q.hash)])[7]);
    forall i | 0 <= i < 7 ensures Same(u[i], v[i]) {
      assert Same((u + [JString(p.hash)])[i], (v + [JString(q.hash)])[i]);
    }
    ValuesDetermine(p.payload, q.payload);
  }

  lemma KeysAreNamed()
    ensures Keyed(PROJECTION_KEYS) && Keyed(PROJECTION_KEYS[..7])
    ensures |PROJECTION_KEYS| == 8 && PROJECTION_KEYS[7] == "projectionHash"
  {
    ProjectionKeysDistinct();
  }

  /** What is hashed is JSON text of the lists under their names. */
  lemma HashedText(sha256: string -> string, p: Payload) returns (text: string, w: Json)
    ensures HashOf(sha256, p) == sha256(text) && Read(text) == Some(w)
    ensures KeysAscend(w) && Same(w, PayloadJson(p)) && ShowsLists(PayloadJson(p), p)
  {
    text := Stringify(PayloadJson(p));
    w := StringifyReadsBack(PayloadJson(p));
    KeysAreNamed();
    ValuesAre(p);
    RecordShowsLists(PROJECTION_KEYS[..7], PayloadValues(p), p);
  }

  predicate Shows(j: Json, p: Projection) {
    ShowsLists(j, p.payload) && Member(j, "projectionHash", JString(p.hash))
  }

  lemma ProjectionShows(p: Projection)
    ensures Shows(ProjectionJson(p), p)
  {
    var values := PayloadValues(p.payload) + [JString(p.hash)];
    KeysAreNamed();
    ValuesAre(p.payload);
    RecordShowsLists(PROJECTION_KEYS, values, p.payload);
    NamedMember(PROJECTION_KEYS, values, 7, "projectionHash");
  }

  function ProjectionOf(ps: seq<PolicyWithRules>, sha256: string -> string): Projection {
    Projection(PayloadOf(ps), HashOf(sha256, PayloadOf(ps)))
  }

  method BuildClaudeNativePermissionsProjection(policies: seq<PolicyWithRules>, sha256: string -> string)
      returns (p: Projection)
    ensures p == ProjectionOf(policies, sha256)
  {
    var compiled, _, untranslated := CompilePolicies(policies, CompileRule);
    var allow := UniqueSorted(Map(Filter(compiled, Decided(Allow)), Value));
    var ask := UniqueSorted(Map(Filter(compiled, Decided(Ask)), Value));
    var deny := UniqueSorted(Map(Filter(compiled, Decided(Deny)), Value));
    var payload := Payload(allow, ask, deny, UniqueSorted(Map(compiled, IdOf)), UniqueSorted(untranslated));
    p := Projection(payload, HashOf(sha256, payload));
  }

  // ------------------------------------------------------------ properties

  lemma CompiledMember(ps: seq<PolicyWithRules>, c: Permission)
    ensures c in Each(Filter(ps, IsActive), Permissions(CompileRule))
            <==> exists p, r :: p in ps && IsActive(p) && r in p.rules && CompileRule(r) == Some(c)
  {
    EachMember(Filter(ps, IsActive), Permissions(CompileRule), c);
    FilterMembers(ps, IsActive);
    if p, r :| p in ps && IsActive(p) && r in p.rules && CompileRule(r) == Some(c) {
      assert p in Filter(ps, IsActive) && c in Permissions(CompileRule)(r);
    }
  }

  /** A rule of a policy that is switched on, with this decision and this text. */
  ghost predicate Grants(ps: seq<PolicyWithRules>, p: PolicyWithRules, r: Rule, d: Decision, v: string) {
    p in ps && p.policy.isActive && r in p.rules && Translatable(r) && r.fields.decision == d && ReadsAs(r, v)
  }

  function ListOf(p: Payload, d: Decision): seq<string> {
    match d case Allow => p.allow case Ask => p.ask case Deny => p.deny
  }

  lemma ListMember(ps: seq<PolicyWithRules>, d: Decision, v: string)
    ensures v in ListFor(Each(Filter(ps, IsActive), Permissions(CompileRule)), d)
            <==> exists p, r, c :: p in ps && IsActive(p) && r in p.rules && CompileRule(r) == Some(c)
                                   && c.decision == d && c.value == v
  {
    var compiled := Each(Filter(ps, IsActive), Permissions(CompileRule));
    var chosen := Filter(compiled, Decided(d));
    UniqueSortedShape(Map(chosen, Value));
    MapMember(chosen, Value, v);
    FilterMembers(compiled, Decided(d));
    if c :| c in chosen && Value(c) == v { CompiledMember(ps, c); }
    if p, r, c :| p in ps && IsActive(p) && r in p.rules && CompileRule(r) == Some(c) && c.decision == d
                  && c.value == v {
      CompiledMember(ps, c);
      assert c in chosen && Value(c) == v;
    }
  }

  /** The text of a rule is unique. */
  lemma OneText(r: Rule, v: string, w: string)
    requires ReadsAs(r, v) && ReadsAs(r, w)
    ensures v == w
  {
    var f := r.fields;
    if f.matchToolName != "Bash" && Given(f.matchPathGlob) {
      var prefix := if EditsFiles(f.matchToolName) then "Edit(" else "Read(";
      var x :| Anchors(x, f.matchPathGlob.value) && v == prefix + x + ")";
      var y :| Anchors(y, f.matchPathGlob.value) && w == prefix + y + ")";
      if "./" <= Trim(f.matchPathGlob.value) { assert ("." + x)[1..] == x && ("." + y)[1..] == y; }
      assert x == y;
    }
  }

  /** Each published list holds exactly the texts of the translatable rules of its decision in policies that are
      switched on, once each and in order. */
  lemma ListHoldsExactly(ps: seq<PolicyWithRules>, d: Decision, v: string)
    ensures var list := ListOf(PayloadOf(ps), d);
            && SortedBy(list, StringLe) && Distinct(list)
            && (v in list <==> exists p, r :: Grants(ps, p, r, d, v))
  {
    var chosen := Filter(Each(Filter(ps, IsActive), Permissions(CompileRule)), Decided(d));
    UniqueSortedShape(Map(chosen, Value));
    ListMember(ps, d, v);
    if p, r, c :| p in ps && IsActive(p) && r in p.rules && CompileRule(r) == Some(c) && c.decision == d
                  && c.value == v {
      CompiledExactly(r);
      assert Grants(ps, p, r, d, v);
    }
    if p, r :| Grants(ps, p, r, d, v) {
      CompiledExactly(r);
      OneText(r, v, CompileRule(r).value.value);
    }
  }

  predicate Narrow(v: string) {
    '*' !in v || NamesMcpServer(v) || "Bash(" <= v || "Edit(" <= v || "Read(" <= v
  }

  /** No bare wildcard is ever pre-approved: it is behind a command, a path or one named server. */
  lemma AllowIsNarrow(ps: seq<PolicyWithRules>, v: string)
    requires v in PayloadOf(ps).allow
    ensures Narrow(v)
  {
    ListHoldsExactly(ps, Allow, v);
    var p, r :| Grants(ps, p, r, Allow, v);
    var f := r.fields;
    NamesServerExactly(f.matchToolName);
    if f.matchToolName == "Bash" {
      assert "Bash(" <= v;
    } else if Given(f.matchPathGlob) {
      assert "Edit(" <= v || "Read(" <= v;
    }
  }

  /** The projection forgets the order of policies and of rules. */
  lemma PayloadIgnoresOrder(ps: seq<PolicyWithRules>, qs: seq<PolicyWithRules>)
    requires Reordered(ps, qs)
    ensures PayloadOf(ps) == PayloadOf(qs)
  {
    ActiveReordered(ps, qs);
    var a, b := Filter(ps, IsActive), Filter(qs, IsActive);
    EachPermutes(a, b, Permissions(CompileRule));
    EachPermutes(a, b, UntranslatedId(CompileRule));
    var x, y := Each(a, Permissions(CompileRule)), Each(b, Permissions(CompileRule));
    ListIgnoresOrder(x, y, Allow);
    ListIgnoresOrder(x, y, Ask);
    ListIgnoresOrder(x, y, Deny);
    MapOfPermuted(x, y, IdOf);
    UniqueSortedPermutes(Map(x, IdOf), Map(y, IdOf));
    UniqueSortedPermutes(Each(a, UntranslatedId(CompileRule)), Each(b, UntranslatedId(CompileRule)));
  }

  lemma MapOfPermuted(x: seq<Permission>, y: seq<Permission>, f: Permission -> string)
    requires multiset(x) == multiset(y)
    ensures multiset(Map(x, f)) == multiset(Map(y, f))
  {
    var same := (c: Permission) => c;
    assert Map(x, same) == x && Map(y, same) == y;
    MapPermutes(x, y, same, f);
  }

  lemma ListIgnoresOrder(x: seq<Permission>, y: seq<Permission>, d: Decision)
    requires multiset(x) == multiset(y)
    ensures ListFor(x, d) == ListFor(y, d)
  {
    FilterPermutes(x, y, Decided(d));
    MapOfPermuted(Filter(x, Decided(d)), Filter(y, Decided(d)), Value);
    UniqueSortedPermutes(Map(Filter(x, Decided(d)), Value), Map(Filter(y, Decided(d)), Value));
  }

  /** The two id lists hold exactly the ids of the rules in force that are translatable and that are not, once each and
      in order: where ids do not repeat they are apart. */
  lemma ReportsEveryRule(ps: seq<PolicyWithRules>, id: string)
    ensures var t, u := PayloadOf(ps).translatedRuleIds, PayloadOf(ps).untranslatedRuleIds;
            && SortedBy(t, StringLe) && Distinct(t) && SortedBy(u, StringLe) && Distinct(u)
            && (id in t <==> exists p, r :: InForce(ps, p, r) && r.id == id && Translatable(r))
            && (id in u <==> exists p, r :: InForce(ps, p, r) && r.id == id && !Translatable(r))
            && (Distinct(Each(Filter(ps, IsActive), RuleId)) ==> !(id in t && id in u))
  {
    var active := Filter(ps, IsActive);
    var able := (r: Rule) => CompileRule(r).Some?;
    IdsOfCompiled(active);
    if Distinct(Each(active, RuleId)) { TranslationPartitions(active, CompileRule, id); }
    forall r ensures able(r) <==> Translatable(r) { CompiledExactly(r); }
    TranslatedIds(ps, CompileRule, able, id);
  }

  lemma IdsOfCompiled(ps: seq<PolicyWithRules>)
    ensures Map(Each(ps, Permissions(CompileRule)), IdOf) == Each(ps, TranslatedId(CompileRule))
  {
    if ps != [] {
      var m := |ps| - 1;
      IdsOfCompiled(ps[..m]);
      IdsOfRules(ps[m].rules);
      MapAppend(Each(ps[..m], Permissions(CompileRule)), FlatMap(ps[m].rules, Permissions(CompileRule)), IdOf);
    }
  }

  lemma {:induction false} IdsOfRules(rules: seq<Rule>)
    ensures Map(FlatMap(rules, Permissions(CompileRule)), IdOf) == FlatMap(rules, TranslatedId(CompileRule))
  {
    if rules != [] {
      var m := |rules| - 1;
      IdsOfRules(rules[..m]);
      MapAppend(FlatMap(rules[..m], Permissions(CompileRule)), Permissions(CompileRule)(rules[m]), IdOf);
      IdOfOne(rules[m]);
    }
  }

  lemma IdOfOne(r: Rule)
    ensures Map(Permissions(CompileRule)(r), IdOf) == TranslatedId(CompileRule)(r)
  {
    var ids := Map(Permissions(CompileRule)(r), IdOf);
    if CompileRule(r).Some? {
      assert |ids| == 1 && ids[0] == IdOf(CompileRule(r).value) == r.id;
    }
  }
}
