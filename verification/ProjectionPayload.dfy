/**
  The payload of a policy projection and its hash
  (packages/db/src/policy-projection.ts): sha256, a parameter, of the canonical
  text of the whole payload, native permissions and their hashes included.
*/
module ProjectionPayload {
  import opened Collections
  import opened CanonicalJson
  import opened JsonRecords
  import opened Text
  import Claude = ClaudePermissions
  import Codex = CodexPermissions

  datatype Entry = Entry(policyId: string, name: string, groupKey: string, profile: string, enforcementMode: string,
                         activeVersionId: Option<string>, versionNumber: Option<nat>, snapshotHash: Option<string>,
                         ruleIds: seq<string>)

  datatype Payload = Payload(projectId: string, projectSlug: Option<string>, policies: seq<Entry>,
                             activeRuleIds: seq<string>, activeExceptionIds: seq<string>, activeGrantIds: seq<string>,
                             activeCapabilities: seq<string>, policyVersionIds: seq<string>,
                             claude: Claude.Projection, codex: Codex.Projection)

  // ---------------------------------------------------------------- entries

  const ENTRY_KEYS := ["policyId", "name", "groupKey", "profile", "enforcementMode", "activeVersionId",
                       "versionNumber", "snapshotHash", "ruleIds"]

  lemma EntryKeysDistinct()
    ensures |ENTRY_KEYS| == 9 && Distinct(ENTRY_KEYS)
  {
    DistinctByCode(ENTRY_KEYS, [8112099, 4110109, 8103112, 7112102, 15101109, 15097101, 13118110,
                                 12115111, 7114101]);
  }

  function EntryValues(e: Entry): seq<Json> {
    [JString(e.policyId), JString(e.name), JString(e.groupKey), JString(e.profile), JString(e.enforcementMode),
     Nullable(e.activeVersionId), NullableNumber(e.versionNumber), Nullable(e.snapshotHash), Strings(e.ruleIds)]
  }

  function EntryJson(e: Entry): Json {
    EntryKeysDistinct();
    JsonRecord(ENTRY_KEYS, EntryValues(e))
  }

  lemma EntryWellFormed(e: Entry)
    ensures WellFormed(EntryJson(e))
  {
    EntryKeysDistinct();
    if e.versionNumber.Some? { NumberWellFormed(e.versionNumber.value); }
    StringsWellFormed(e.ruleIds);
    RecordWellFormed(ENTRY_KEYS, EntryValues(e));
  }

  /** An entry's columns under their names, a missing version as three nulls. */
  predicate ShowsEntry(j: Json, e: Entry) {
    && HasText(j, "policyId", Some(e.policyId)) && HasText(j, "name", Some(e.name))
    && HasText(j, "groupKey", Some(e.groupKey)) && HasText(j, "profile", Some(e.profile))
    && HasText(j, "enforcementMode", Some(e.enforcementMode)) && HasText(j, "activeVersionId", e.activeVersionId)
    && Member(j, "versionNumber", match e.versionNumber case Some(n) => JNumber(Decimal(n)) case None => JNull)
    && HasText(j, "snapshotHash", e.snapshotHash) && HasTexts(j, "ruleIds", e.ruleIds)
  }

  lemma EntryShowsPolicy(e: Entry)
    ensures var j := EntryJson(e);
            && HasText(j, "policyId", Some(e.policyId)) && HasText(j, "name", Some(e.name))
            && HasText(j, "groupKey", Some(e.groupKey))
  {
    EntryKeysDistinct();
    NamedText(ENTRY_KEYS, EntryValues(e), 0, "policyId", Some(e.policyId));
    NamedText(ENTRY_KEYS, EntryValues(e), 1, "name", Some(e.name));
    NamedText(ENTRY_KEYS, EntryValues(e), 2, "groupKey", Some(e.groupKey));
  }

  lemma EntryShowsMode(e: Entry)
    ensures HasText(EntryJson(e), "profile", Some(e.profile))
    ensures HasText(EntryJson(e), "enforcementMode", Some(e.enforcementMode))
    ensures HasTexts(EntryJson(e), "ruleIds", e.ruleIds)
  {
    EntryKeysDistinct();
    NamedText(ENTRY_KEYS, EntryValues(e), 3, "profile", Some(e.profile));
    NamedText(ENTRY_KEYS, EntryValues(e), 4, "enforcementMode", Some(e.enforcementMode));
    NamedTexts(ENTRY_KEYS, EntryValues(e), 8, "ruleIds", e.ruleIds);
  }

  lemma EntryShowsVersion(e: Entry)
    ensures HasText(EntryJson(e), "activeVersionId", e.activeVersionId)
    ensures Member(EntryJson(e), "versionNumber", NullableNumber(e.versionNumber))
    ensures HasText(EntryJson(e), "snapshotHash", e.snapshotHash)
  {
    EntryKeysDistinct();
    NamedText(ENTRY_KEYS, EntryValues(e), 5, "activeVersionId", e.activeVersionId);
    NamedMember(ENTRY_KEYS, EntryValues(e), 6, "versionNumber");
    NamedText(ENTRY_KEYS, EntryValues(e), 7, "snapshotHash", e.snapshotHash);
  }

  lemma EntryShows(e: Entry)
    ensures ShowsEntry(EntryJson(e), e)
  {
    EntryShowsPolicy(e);
    EntryShowsMode(e);
    EntryShowsVersion(e);
  }

  lemma EntryDetermines(e: Entry, f: Entry)
    requires Same(EntryJson(e), EntryJson(f))
    ensures e == f
  {
    var u, v := EntryValues(e), EntryValues(f);
    EntryKeysDistinct();
    RecordsSame(ENTRY_KEYS, u, v);
    assert Same(u[0], v[0]) && Same(u[1], v[1]) && Same(u[2], v[2]) && Same(u[3], v[3]) && Same(u[4], v[4]);
    assert Same(u[5], v[5]) && Same(u[6], v[6]) && Same(u[7], v[7]) && Same(u[8], v[8]);
    NullableDetermines(e.activeVersionId, f.activeVersionId);
    NullableNumberDetermines(e.versionNumber, f.versionNumber);
    NullableDetermines(e.snapshotHash, f.snapshotHash);
    StringsDetermine(e.ruleIds, f.ruleIds);
  }

  function Entries(entries: seq<Entry>): Json { Objects(entries, EntryJson) }

  lemma EntriesWellFormed(entries: seq<Entry>)
    ensures WellFormed(Entries(entries))
  {
    forall e ensures WellFormed(EntryJson(e)) { EntryWellFormed(e); }
    ObjectsWellFormed(entries, EntryJson);
  }

  predicate ShowsEntries(j: Json, entries: seq<Entry>) {
    j.JArray? && |j.items| == |entries| && forall i :: 0 <= i < |entries| ==> ShowsEntry(j.items[i], entries[i])
  }

  lemma EntriesShow(entries: seq<Entry>)
    ensures ShowsEntries(Entries(entries), entries)
  {
    forall i | 0 <= i < |entries| ensures ShowsEntry(Entries(entries).items[i], entries[i]) { EntryShows(entries[i]); }
  }

  lemma EntriesDetermine(x: seq<Entry>, y: seq<Entry>)
    requires Same(Entries(x), Entries(y))
    ensures x == y
  {
    forall u, v | Same(EntryJson(u), EntryJson(v)) ensures u == v { EntryDetermines(u, v); }
    ObjectsDetermine(x, y, EntryJson);
  }

  // ---------------------------------------------------- native permissions

  function NativeJson(claude: Claude.Projection, codex: Codex.Projection): (j: Json)
    ensures WellFormed(j)
  {
    var values := [Claude.ProjectionJson(claude), Codex.ProjectionJson(codex)];
    RecordWellFormed(["claude", "codex"], values);
    JsonRecord(["claude", "codex"], values)
  }

  lemma NativeDetermines(c: Claude.Projection, x: Codex.Projection, d: Claude.Projection, y: Codex.Projection)
    requires Same(NativeJson(c, x), NativeJson(d, y))
    ensures c == d && x == y
  {
    var u := [Claude.ProjectionJson(c), Codex.ProjectionJson(x)];
    var v := [Claude.ProjectionJson(d), Codex.ProjectionJson(y)];
    RecordsSame(["claude", "codex"], u, v);
    assert Same(u[0], v[0]) && Same(u[1], v[1]);
    Claude.ProjectionJsonDetermines(c, d);
    Codex.ProjectionJsonDetermines(x, y);
  }

  predicate ShowsNative(j: Json, claude: Claude.Projection, codex: Codex.Projection) {
    && j.JObject? && "claude" in j.fields && "codex" in j.fields
    && Claude.Shows(j.fields["claude"], claude) && Codex.Shows(j.fields["codex"], codex)
  }

  lemma NativeShows(claude: Claude.Projection, codex: Codex.Projection)
    ensures ShowsNative(NativeJson(claude, codex), claude, codex)
  {
    var keys, values := ["claude", "codex"], [Claude.ProjectionJson(claude), Codex.ProjectionJson(codex)];
    NamedMember(keys, values, 0, "claude");
    NamedMember(keys, values, 1, "codex");
    Claude.ProjectionShows(claude);
    Codex.ProjectionShows(codex);
  }

  // ---------------------------------------------------------------- payload

  const PAYLOAD_KEYS := ["schemaVersion", "managedBy", "projectId", "projectSlug", "policies", "activeRuleIds",
                         "activeExceptionIds", "activeGrantIds", "activeCapabilities", "policyVersionIds",
                         "nativePermissions"]

  lemma PayloadKeysDistinct()
    ensures |PAYLOAD_KEYS| == 11 && Distinct(PAYLOAD_KEYS)
  {
    DistinctByCode(PAYLOAD_KEYS, [13115086, 9109103, 9112101, 11112099, 8112099, 13097082, 18097101,
                                   14097114, 18097097, 16112114, 17110114]);
  }

  function PayloadValues(p: Payload): seq<Json> {
    [Number(1), JString("coodra"), JString(p.projectId), Nullable(p.projectSlug), Entries(p.policies),
     Strings(p.activeRuleIds), Strings(p.activeExceptionIds), Strings(p.activeGrantIds),
     Strings(p.activeCapabilities), Strings(p.policyVersionIds), NativeJson(p.claude, p.codex)]
  }

  lemma ValuesWellFormed(p: Payload)
    ensures |PayloadValues(p)| == 11
    ensures forall i :: 0 <= i < 11 ==> WellFormed(PayloadValues(p)[i])
  {
    var native := NativeJson(p.claude, p.codex);
    assert WellFormed(native) && WellFormed(Nullable(p.projectSlug));
    NumberWellFormed(1);
    EntriesWellFormed(p.policies);
    StringsWellFormed(p.activeRuleIds);
    StringsWellFormed(p.activeExceptionIds);
    StringsWellFormed(p.activeGrantIds);
    StringsWellFormed(p.activeCapabilities);
    StringsWellFormed(p.policyVersionIds);
  }

  function PayloadJson(p: Payload): (j: Json)
    ensures WellFormed(j)
  {
    PayloadKeysDistinct();
    ValuesWellFormed(p);
    RecordWellFormed(PAYLOAD_KEYS, PayloadValues(p));
    JsonRecord(PAYLOAD_KEYS, PayloadValues(p))
  }

  function HashOf(sha256: string -> string, p: Payload): string {
    sha256(Stringify(PayloadJson(p)))
  }

  /** The payload's columns under their names. */
  predicate Shows(j: Json, p: Payload) {
    && Member(j, "schemaVersion", JNumber("1")) && HasText(j, "managedBy", Some("coodra"))
    && HasText(j, "projectId", Some(p.projectId)) && HasText(j, "projectSlug", p.projectSlug)
    && "policies" in j.fields && ShowsEntries(j.fields["policies"], p.policies)
    && "nativePermissions" in j.fields && ShowsNative(j.fields["nativePermissions"], p.claude, p.codex)
    && ShowsIds(j, p)
  }

  predicate ShowsIds(j: Json, p: Payload) {
    && HasTexts(j, "activeRuleIds", p.activeRuleIds) && HasTexts(j, "activeExceptionIds", p.activeExceptionIds)
    && HasTexts(j, "activeGrantIds", p.activeGrantIds) && HasTexts(j, "activeCapabilities", p.activeCapabilities)
    && HasTexts(j, "policyVersionIds", p.policyVersionIds)
  }

  lemma PayloadShowsRules(p: Payload)
    ensures HasTexts(PayloadJson(p), "activeRuleIds", p.activeRuleIds)
  {
    PayloadKeysDistinct();
    NamedTexts(PAYLOAD_KEYS, PayloadValues(p), 5, "activeRuleIds", p.activeRuleIds);
  }

  lemma PayloadShowsActive(p: Payload)
    ensures HasTexts(PayloadJson(p), "activeExceptionIds", p.activeExceptionIds)
    ensures HasTexts(PayloadJson(p), "activeGrantIds", p.activeGrantIds)
  {
    PayloadKeysDistinct();
    NamedTexts(PAYLOAD_KEYS, PayloadValues(p), 6, "activeExceptionIds", p.activeExceptionIds);
    NamedTexts(PAYLOAD_KEYS, PayloadValues(p), 7, "activeGrantIds", p.activeGrantIds);
  }

  lemma PayloadShowsIds(p: Payload)
    ensures ShowsIds(PayloadJson(p), p)
  {
    PayloadKeysDistinct();
    PayloadShowsRules(p);
    PayloadShowsActive(p);
    NamedTexts(PAYLOAD_KEYS, PayloadValues(p), 8, "activeCapabilities", p.activeCapabilities);
    NamedTexts(PAYLOAD_KEYS, PayloadValues(p), 9, "policyVersionIds", p.policyVersionIds);
  }

  lemma PayloadShowsPolicies(p: Payload)
    ensures Member(PayloadJson(p), "policies", Entries(p.policies))
    ensures Member(PayloadJson(p), "nativePermissions", NativeJson(p.claude, p.codex))
  {
    PayloadKeysDistinct();
    NamedMember(PAYLOAD_KEYS, PayloadValues(p), 4, "policies");
    NamedMember(PAYLOAD_KEYS, PayloadValues(p), 10, "nativePermissions");
  }

  lemma PayloadShowsSchema(p: Payload)
    ensures Member(PayloadJson(p), "schemaVersion", JNumber("1"))
    ensures HasText(PayloadJson(p), "managedBy", Some("coodra"))
  {
    PayloadKeysDistinct();
    assert Number(1) == JNumber("1");
    NamedMember(PAYLOAD_KEYS, PayloadValues(p), 0, "schemaVersion");
    NamedText(PAYLOAD_KEYS, PayloadValues(p), 1, "managedBy", Some("coodra"));
  }

  lemma PayloadShowsProject(p: Payload)
    ensures HasText(PayloadJson(p), "projectId", Some(p.projectId))
    ensures HasText(PayloadJson(p), "projectSlug", p.projectSlug)
  {
    PayloadKeysDistinct();
    NamedText(PAYLOAD_KEYS, PayloadValues(p), 2, "projectId", Some(p.projectId));
    NamedText(PAYLOAD_KEYS, PayloadValues(p), 3, "projectSlug", p.projectSlug);
  }

  /** What is hashed is JSON text of the payload's columns under their names. */
  lemma HashedText(sha256: string -> string, p: Payload) returns (text: string, w: Json)
    ensures HashOf(sha256, p) == sha256(text) && Read(text) == Some(w)
    ensures KeysAscend(w) && Same(w, PayloadJson(p)) && Shows(PayloadJson(p), p)
  {
    text := Stringify(PayloadJson(p));
    w := StringifyReadsBack(PayloadJson(p));
    PayloadShowsSchema(p);
    PayloadShowsProject(p);
    PayloadShowsPolicies(p);
    PayloadShowsIds(p);
    EntriesShow(p.policies);
    NativeShows(p.claude, p.codex);
  }

  lemma ValuesDetermine(p: Payload, q: Payload)
    requires |PayloadValues(p)| == 11 == |PayloadValues(q)|
    requires forall i :: 0 <= i < 11 ==> Same(PayloadValues(p)[i], PayloadValues(q)[i])
    ensures p == q
  {
    var u, v := PayloadValues(p), PayloadValues(q);
    assert Same(u[2], v[2]) && Same(u[3], v[3]) && Same(u[4], v[4]) && Same(u[5], v[5]) && Same(u[6], v[6]);
    assert Same(u[7], v[7]) && Same(u[8], v[8]) && Same(u[9], v[9]) && Same(u[10], v[10]);
    NullableDetermines(p.projectSlug, q.projectSlug);
    EntriesDetermine(p.policies, q.policies);
    StringsDetermine(p.activeRuleIds, q.activeRuleIds);
    StringsDetermine(p.activeExceptionIds, q.activeExceptionIds);
    StringsDetermine(p.activeGrantIds, q.activeGrantIds);
    StringsDetermine(p.activeCapabilities, q.activeCapabilities);
    StringsDetermine(p.policyVersionIds, q.policyVersionIds);
    NativeDetermines(p.claude, p.codex, q.claude, q.codex);
  }

  /** With sha256 injective the hash determines the whole payload. */
  lemma EqualHashEqualPayload(sha256: string -> string, p: Payload, q: Payload)
    requires Injective(sha256) && HashOf(sha256, p) == HashOf(sha256, q)
    ensures p == q
  {
    StringifyCanonical(PayloadJson(p), PayloadJson(q));
    PayloadKeysDistinct();
    ValuesWellFormed(p);
    ValuesWellFormed(q);
    RecordsSame(PAYLOAD_KEYS, PayloadValues(p), PayloadValues(q));
    ValuesDetermine(p, q);
  }
}
