/**
  One row of the audit log (packages/db/src/audit-events.ts) and its hash: the
  canonical text of its own fields and of the previous hash, through sha256.

  sha256 is a parameter, assumed injective where a result needs it.
*/
module AuditRows {
  import opened Collections
  import opened CanonicalJson
  import opened JsonRecords

  const SOLO_ORG_ID := "__solo__"

  datatype AuditRow = AuditRow(
    id: string, orgId: string, projectId: Option<string>, runId: Option<string>,
    actorUserId: Option<string>, actorRunId: Option<string>, eventType: string,
    subjectTable: string, subjectId: string, action: string, result: string, reason: Option<string>,
    metadataJson: string, beforeHash: Option<string>, afterHash: Option<string>,
    prevHash: Option<string>, hash: string, createdAt: nat)

  /** The caller's arguments; absent ones take the defaults of `Prepare`. */
  datatype AuditArgs = AuditArgs(
    orgId: Option<string>, projectId: Option<string>, runId: Option<string>,
    actorUserId: Option<string>, actorRunId: Option<string>, eventType: string,
    subjectTable: string, subjectId: string, action: string, result: Option<string>, reason: Option<string>,
    metadataJson: Option<string>, beforeHash: Option<string>, afterHash: Option<string>)

  // ------------------------------------------------------- the hashed payload

  const PAYLOAD_KEYS := ["id", "orgId", "projectId", "runId", "actorUserId", "actorRunId", "eventType",
                         "subjectTable", "subjectId", "action", "result", "reason", "metadataJson",
                         "beforeHash", "afterHash", "prevHash"]

  function PayloadValues(row: AuditRow): seq<Json> {
    [JString(row.id), JString(row.orgId), Nullable(row.projectId), Nullable(row.runId),
     Nullable(row.actorUserId), Nullable(row.actorRunId), JString(row.eventType),
     JString(row.subjectTable), JString(row.subjectId), JString(row.action), JString(row.result),
     Nullable(row.reason), JString(row.metadataJson), Nullable(row.beforeHash), Nullable(row.afterHash),
     Nullable(row.prevHash)]
  }

  lemma PayloadKeysDistinct()
    ensures |PAYLOAD_KEYS| == 16 && Distinct(PAYLOAD_KEYS)
  {
    DistinctByCode(PAYLOAD_KEYS, [2105100, 5111103, 9112101, 5114110, 11097085, 10097082, 9101116,
                                  12115116, 9115101, 6097105, 6114117, 6114115, 12109116, 10098101,
                                  9097114, 8112072]);
  }

  function Payload(row: AuditRow): (p: Json)
    ensures WellFormed(p)
  {
    PayloadKeysDistinct();
    RecordWellFormed(PAYLOAD_KEYS, PayloadValues(row));
    JsonRecord(PAYLOAD_KEYS, PayloadValues(row))
  }

  function HashOf(sha256: string -> string, row: AuditRow): string {
    sha256(Stringify(Payload(row)))
  }

  /** The fields the hash covers: all but the hash itself and the time. */
  function HashedFields(row: AuditRow): AuditRow {
    row.(hash := "", createdAt := 0)
  }

  predicate Holds(w: Json, row: AuditRow, i: nat) {
    i < |PAYLOAD_KEYS| && i < |PayloadValues(row)| && w.JObject? && PAYLOAD_KEYS[i] in w.fields
    && w.fields[PAYLOAD_KEYS[i]] == PayloadValues(row)[i]
  }

  lemma MemberHasText(w: Json, row: AuditRow, i: nat, name: string, text: Option<string>)
    requires Holds(w, row, i) && PAYLOAD_KEYS[i] == name && PayloadValues(row)[i] == Nullable(text)
    ensures HasText(w, name, text)
  {
  }

  ghost predicate NamesWhoAndWhere(w: Json, row: AuditRow) {
    && HasText(w, "id", Some(row.id)) && HasText(w, "orgId", Some(row.orgId))
    && HasText(w, "projectId", row.projectId) && HasText(w, "runId", row.runId)
    && HasText(w, "actorUserId", row.actorUserId) && HasText(w, "actorRunId", row.actorRunId)
  }

  ghost predicate NamesWhat(w: Json, row: AuditRow) {
    && HasText(w, "eventType", Some(row.eventType)) && HasText(w, "subjectTable", Some(row.subjectTable))
    && HasText(w, "subjectId", Some(row.subjectId)) && HasText(w, "action", Some(row.action))
    && HasText(w, "result", Some(row.result))
  }

  ghost predicate NamesWhyAndChange(w: Json, row: AuditRow) {
    && HasText(w, "reason", row.reason) && HasText(w, "metadataJson", Some(row.metadataJson))
    && HasText(w, "beforeHash", row.beforeHash) && HasText(w, "afterHash", row.afterHash)
    && HasText(w, "prevHash", row.prevHash)
  }

  lemma Where(w: Json, row: AuditRow)
    requires forall i :: 0 <= i < 16 ==> Holds(w, row, i)
    ensures HasText(w, "id", Some(row.id)) && HasText(w, "orgId", Some(row.orgId))
    ensures HasText(w, "projectId", row.projectId)
  {
    MemberHasText(w, row, 0, "id", Some(row.id));
    MemberHasText(w, row, 1, "orgId", Some(row.orgId));
    MemberHasText(w, row, 2, "projectId", row.projectId);
  }

  lemma WhoAndWhere(w: Json, row: AuditRow)
    requires forall i :: 0 <= i < 16 ==> Holds(w, row, i)
    ensures NamesWhoAndWhere(w, row)
  {
    Where(w, row);
    MemberHasText(w, row, 3, "runId", row.runId);
    MemberHasText(w, row, 4, "actorUserId", row.actorUserId);
    MemberHasText(w, row, 5, "actorRunId", row.actorRunId);
  }

  lemma What(w: Json, row: AuditRow)
    requires forall i :: 0 <= i < 16 ==> Holds(w, row, i)
    ensures NamesWhat(w, row)
  {
    MemberHasText(w, row, 6, "eventType", Some(row.eventType));
    MemberHasText(w, row, 7, "subjectTable", Some(row.subjectTable));
    MemberHasText(w, row, 8, "subjectId", Some(row.subjectId));
    MemberHasText(w, row, 9, "action", Some(row.action));
    MemberHasText(w, row, 10, "result", Some(row.result));
  }

  lemma WhyAndChange(w: Json, row: AuditRow)
    requires forall i :: 0 <= i < 16 ==> Holds(w, row, i)
    ensures NamesWhyAndChange(w, row)
  {
    MemberHasText(w, row, 11, "reason", row.reason);
    MemberHasText(w, row, 12, "metadataJson", Some(row.metadataJson));
    MemberHasText(w, row, 13, "beforeHash", row.beforeHash);
    MemberHasText(w, row, 14, "afterHash", row.afterHash);
    MemberHasText(w, row, 15, "prevHash", row.prevHash);
  }

  lemma ScalarMember(w: Json, row: AuditRow, i: nat)
    requires i < |PAYLOAD_KEYS| && i < |PayloadValues(row)| && w.JObject? && PAYLOAD_KEYS[i] in w.fields
    requires Same(w.fields[PAYLOAD_KEYS[i]], PayloadValues(row)[i])
    ensures Holds(w, row, i)
  {
  }

  lemma PayloadReadsBack(row: AuditRow) returns (w: Json)
    ensures Read(Stringify(Payload(row))) == Some(w) && KeysAscend(w)
    ensures w.JObject? && forall k :: k in w.fields ==> k in PAYLOAD_KEYS
    ensures forall i :: 0 <= i < 16 ==> Holds(w, row, i)
  {
    PayloadKeysDistinct();
    assert WellFormed(Payload(row));
    w := RecordReadsBack(PAYLOAD_KEYS, PayloadValues(row));
    forall i | 0 <= i < 16 ensures Holds(w, row, i) { ScalarMember(w, row, i); }
  }

  /** What is hashed is JSON text: an object of the sixteen members, in ascending order of their names. */
  lemma HashedText(sha256: string -> string, row: AuditRow) returns (text: string, w: Json)
    ensures HashOf(sha256, row) == sha256(text) && Read(text) == Some(w) && KeysAscend(w)
    ensures w.JObject? && forall k :: k in w.fields ==> k in PAYLOAD_KEYS
    ensures NamesWhoAndWhere(w, row) && NamesWhat(w, row) && NamesWhyAndChange(w, row)
  {
    text := Stringify(Payload(row));
    w := PayloadReadsBack(row);
    WhoAndWhere(w, row);
    What(w, row);
    WhyAndChange(w, row);
  }

  lemma SamePayloadValues(a: AuditRow, b: AuditRow)
    requires Same(Payload(a), Payload(b))
    ensures PayloadValues(a) == PayloadValues(b)
  {
    PayloadKeysDistinct();
    RecordsSame(PAYLOAD_KEYS, PayloadValues(a), PayloadValues(b));
    ScalarsEqual(PayloadValues(a), PayloadValues(b));
  }

  lemma EqualHashEqualFields(sha256: string -> string, a: AuditRow, b: AuditRow)
    requires Injective(sha256) && HashOf(sha256, a) == HashOf(sha256, b)
    ensures HashedFields(a) == HashedFields(b)
  {
    StringifyCanonical(Payload(a), Payload(b));
    SamePayloadValues(a, b);
    ValuesDetermineFields(a, b);
  }

  lemma ValuesDetermineFields(a: AuditRow, b: AuditRow)
    requires PayloadValues(a) == PayloadValues(b)
    ensures HashedFields(a) == HashedFields(b)
  {
    var u, v := PayloadValues(a), PayloadValues(b);
    assert u[0] == v[0] && u[1] == v[1] && u[2] == v[2] && u[3] == v[3] && u[4] == v[4] && u[5] == v[5];
    assert u[6] == v[6] && u[7] == v[7] && u[8] == v[8] && u[9] == v[9] && u[10] == v[10] && u[11] == v[11];
    assert u[12] == v[12] && u[13] == v[13] && u[14] == v[14] && u[15] == v[15];
    NullableInjective(a.projectId, b.projectId);
    NullableInjective(a.runId, b.runId);
    NullableInjective(a.actorUserId, b.actorUserId);
    NullableInjective(a.actorRunId, b.actorRunId);
    NullableInjective(a.reason, b.reason);
    NullableInjective(a.beforeHash, b.beforeHash);
    NullableInjective(a.afterHash, b.afterHash);
    NullableInjective(a.prevHash, b.prevHash);
  }

  /** The hash of a row, as a function of the row. */
  function RowHash(sha256: string -> string): AuditRow -> string {
    (row: AuditRow) => HashOf(sha256, row)
  }

  /** A row hash covers exactly the hashed fields. */
  ghost predicate Covers(hash: AuditRow -> string) {
    forall a, b :: hash(a) == hash(b) <==> HashedFields(a) == HashedFields(b)
  }

  lemma RowHashCovers(sha256: string -> string)
    requires Injective(sha256)
    ensures Covers(RowHash(sha256))
  {
    forall a, b ensures RowHash(sha256)(a) == RowHash(sha256)(b) <==> HashedFields(a) == HashedFields(b) {
      if HashOf(sha256, a) == HashOf(sha256, b) { EqualHashEqualFields(sha256, a, b); }
      if HashedFields(a) == HashedFields(b) { assert PayloadValues(a) == PayloadValues(b); }
    }
  }
}
