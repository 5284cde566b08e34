/**
  The tamper-evident audit log (packages/db/src/audit-events.ts): each row
  carries the hash of the latest row of its organisation. The hash of a row is
  a function that covers exactly its hashed fields (`AuditRows.RowHashCovers`).
*/
module AuditChain {
  import opened Collections
  import opened AuditRows
  import opened JsonRecords

  // ------------------------------------------------------------- the table

  function OfOrg(orgId: string): AuditRow -> bool {
    (row: AuditRow) => row.orgId == orgId
  }

  function OrgRows(rows: seq<AuditRow>, orgId: string): seq<AuditRow> {
    Filter(rows, OfOrg(orgId))
  }

  /** What `SELECT hash … WHERE org_id = ? ORDER BY created_at DESC LIMIT 1` may return; ties are the
      database's choice. */
  ghost predicate IsLatest(rows: seq<AuditRow>, orgId: string, latest: Option<string>) {
    if OrgRows(rows, orgId) == [] then latest == None
    else exists r :: r in OrgRows(rows, orgId) && latest == Some(r.hash)
                     && forall q :: q in OrgRows(rows, orgId) ==> q.createdAt <= r.createdAt
  }

  function Prepare(hash: AuditRow -> string, args: AuditArgs, id: string, now: nat, prevHash: Option<string>)
    : AuditRow
  {
    var row := AuditRow(id, args.orgId.GetOr(SOLO_ORG_ID), args.projectId, args.runId, args.actorUserId,
                        args.actorRunId, args.eventType, args.subjectTable, args.subjectId, args.action,
                        args.result.GetOr("success"), args.reason, args.metadataJson.GetOr("{}"),
                        args.beforeHash, args.afterHash, prevHash, "", now);
    row.(hash := hash(row))
  }

  function TipHash(chain: seq<AuditRow>): Option<string> {
    if chain == [] then None else Some(chain[|chain| - 1].hash)
  }

  /** One chain: every row carries its own hash and the hash of the row before it. */
  ghost predicate Linked(hash: AuditRow -> string, chain: seq<AuditRow>) {
    chain != [] ==>
      var n := |chain| - 1;
      && chain[n].hash == hash(chain[n])
      && chain[n].prevHash == TipHash(chain[..n])
      && Linked(hash, chain[..n])
  }

  /** The same, read row by row. */
  lemma {:induction false} LinkedRows(hash: AuditRow -> string, chain: seq<AuditRow>, i: nat)
    requires Linked(hash, chain) && i < |chain|
    ensures chain[i].hash == hash(chain[i])
    ensures chain[i].prevHash == if i == 0 then None else Some(chain[i - 1].hash)
  {
    var n := |chain| - 1;
    if i < n { LinkedRows(hash, chain[..n], i); }
  }

  ghost predicate TimesIncrease(rows: seq<AuditRow>) {
    forall i, j :: 0 <= i < j < |rows| && rows[i].orgId == rows[j].orgId ==> rows[i].createdAt < rows[j].createdAt
  }

  /** The newest row of the chain is strictly newer than every other one: checkable before an insert. */
  predicate TipIsNewest(chain: seq<AuditRow>) {
    forall i :: 0 <= i < |chain| - 1 ==> chain[i].createdAt < chain[|chain| - 1].createdAt
  }

  lemma LinkedSnoc(hash: AuditRow -> string, chain: seq<AuditRow>, row: AuditRow)
    requires Linked(hash, chain)
    ensures Linked(hash, chain + [row]) <==>
              && row.hash == hash(row)
              && row.prevHash == TipHash(chain)
  {
    assert (chain + [row])[..|chain|] == chain;
  }

  /** Two linked chains that end in the same hash agree row by row in every hashed field. */
  lemma {:induction false} SameTipSameHistory(hash: AuditRow -> string, a: seq<AuditRow>, b: seq<AuditRow>)
    requires Covers(hash) && Linked(hash, a) && Linked(hash, b)
    requires a != [] && b != [] && a[|a| - 1].hash == b[|b| - 1].hash
    ensures |a| == |b|
    ensures forall i :: 0 <= i < |a| ==> HashedFields(a[i]) == HashedFields(b[i]) && a[i].hash == b[i].hash
  {
    var m, n := |a| - 1, |b| - 1;
    assert HashedFields(a[m]) == HashedFields(b[n]);
    assert a[m].prevHash == HashedFields(a[m]).prevHash == HashedFields(b[n]).prevHash == b[n].prevHash;
    if m > 0 && n > 0 {
      SameTipSameHistory(hash, a[..m], b[..n]);
      assert forall i :: 0 <= i < m ==> a[i] == a[..m][i] && b[i] == b[..n][i];
    }
  }

  lemma {:induction false} LinkedPrefix(hash: AuditRow -> string, chain: seq<AuditRow>, n: nat)
    requires Linked(hash, chain) && n <= |chain|
    ensures Linked(hash, chain[..n])
  {
    if n < |chain| {
      LinkedPrefix(hash, chain[..|chain| - 1], n);
      assert chain[..|chain| - 1][..n] == chain[..n];
    } else {
      assert chain[..n] == chain;
    }
  }

  /** Within one chain no hash repeats. */
  lemma HashFindsItsRow(hash: AuditRow -> string, chain: seq<AuditRow>, i: nat, j: nat)
    requires Covers(hash) && Linked(hash, chain) && i < |chain| && j < |chain|
    requires chain[i].hash == chain[j].hash
    ensures i == j
  {
    assert |chain[..i + 1]| == |chain[..j + 1]| by {
      LinkedUpTo(hash, chain, i);
      LinkedUpTo(hash, chain, j);
      SameTipSameHistory(hash, chain[..i + 1], chain[..j + 1]);
    }
  }

  lemma LinkedUpTo(hash: AuditRow -> string, chain: seq<AuditRow>, i: nat)
    requires Linked(hash, chain) && i < |chain|
    ensures var a := chain[..i + 1]; Linked(hash, a) && a != [] && a[|a| - 1] == chain[i]
  {
    LinkedPrefix(hash, chain, i + 1);
  }

  lemma Prepared(hash: AuditRow -> string, args: AuditArgs, id: string, now: nat, prev: Option<string>)
    returns (row: AuditRow)
    requires Covers(hash)
    ensures row == Prepare(hash, args, id, now, prev)
    ensures row.hash == hash(row) && row.prevHash == prev && row.createdAt == now
    ensures row.orgId == args.orgId.GetOr(SOLO_ORG_ID)
  {
    row := Prepare(hash, args, id, now, prev);
    assert HashedFields(row) == HashedFields(row.(hash := ""));
  }

  // ------------------------------------------- one insert, read and written

  function OrgOf(args: AuditArgs): string { args.orgId.GetOr(SOLO_ORG_ID) }

  /** No row of the organisation was written from row `j` on. */
  predicate NoneSince(rows: seq<AuditRow>, j: nat, org: string)
    requires j <= |rows|
  {
    forall i :: j <= i < |rows| ==> rows[i].orgId != org
  }

  /** The SELECT ran when the table had `j` rows; whatever row the database picked among the newest then, the INSERT
      leaves a linked chain. */
  ghost predicate EveryInsertLinks(hash: AuditRow -> string, rows: seq<AuditRow>, j: nat, args: AuditArgs,
                                   id: string, now: nat)
    requires j <= |rows|
  {
    forall latest :: IsLatest(rows[..j], OrgOf(args), latest)
      ==> Linked(hash, OrgRows(rows + [Prepare(hash, args, id, now, latest)], OrgOf(args)))
  }

  /** An insert extends the chain, whatever the database picks, exactly when at its read the tip was strictly the
      newest row and no other call has written a row of the organisation since. */
  lemma InsertExtendsChainExactly(hash: AuditRow -> string, rows: seq<AuditRow>, j: nat, args: AuditArgs,
                                  id: string, now: nat)
    requires Covers(hash) && j <= |rows|
    requires Linked(hash, OrgRows(rows, OrgOf(args)))
    ensures EveryInsertLinks(hash, rows, j, args, id, now)
            <==> TipIsNewest(OrgRows(rows[..j], OrgOf(args))) && NoneSince(rows, j, OrgOf(args))
  {
    var org := OrgOf(args);
    OrgRowsGrow(rows, j, org);
    LinkedPrefix(hash, OrgRows(rows, org), |OrgRows(rows[..j], org)|);
    if TipIsNewest(OrgRows(rows[..j], org)) {
      forall latest | IsLatest(rows[..j], org, latest)
        ensures Linked(hash, OrgRows(rows + [Prepare(hash, args, id, now, latest)], org))
                <==> NoneSince(rows, j, org)
      {
        ReadLinksExactly(hash, rows, j, org, latest);
        ExtendOrg(hash, rows, args, id, now, latest);
      }
      var latest := SomeLatest(rows[..j], org);
    } else {
      var latest := StaleInsert(hash, rows, j, args, id, now);
      assert IsLatest(rows[..j], org, latest);
    }
  }

  lemma OrgRowsGrow(rows: seq<AuditRow>, j: nat, org: string)
    requires j <= |rows|
    ensures OrgRows(rows[..j], org) <= OrgRows(rows, org)
    ensures OrgRows(rows[..j], org) == OrgRows(rows, org) <==> NoneSince(rows, j, org)
  {
    var a, b := rows[..j], rows[j..];
    assert rows == a + b;
    FilterAppend(a, b, OfOrg(org));
    FilterMembers(b, OfOrg(org));
    if NoneSince(rows, j, org) {
      FilterKeepsNone(b, OfOrg(org));
    } else {
      var i :| j <= i < |rows| && rows[i].orgId == org;
      assert b[i - j] in b;
      assert b[i - j] in OrgRows(b, org);
    }
  }

  /** The hash read is still that of the tip exactly when nothing was written in between. */
  lemma ReadLinksExactly(hash: AuditRow -> string, rows: seq<AuditRow>, j: nat, org: string, latest: Option<string>)
    requires Covers(hash) && j <= |rows| && Linked(hash, OrgRows(rows, org))
    requires IsLatest(rows[..j], org, latest) && TipIsNewest(OrgRows(rows[..j], org))
    ensures latest == TipHash(OrgRows(rows, org)) <==> NoneSince(rows, j, org)
  {
    OrgRowsGrow(rows, j, org);
    LatestIsTip(rows[..j], org, latest);
    var was, chain := OrgRows(rows[..j], org), OrgRows(rows, org);
    if |was| < |chain| && was != [] {
      assert chain[|was| - 1] == was[|was| - 1];
      NotTheTip(hash, chain, |was| - 1);
    }
  }

  lemma SomeLatest(rows: seq<AuditRow>, org: string) returns (latest: Option<string>)
    ensures IsLatest(rows, org, latest)
  {
    var chain := OrgRows(rows, org);
    if chain == [] {
      latest := None;
    } else {
      var k := NewestIndex(chain);
      assert chain[k] in chain;
      latest := Some(chain[k].hash);
    }
  }

  /** A tie for the newest: the database may pick a row other than the tip, and the insert forks. */
  lemma StaleInsert(hash: AuditRow -> string, rows: seq<AuditRow>, j: nat, args: AuditArgs, id: string, now: nat)
    returns (latest: Option<string>)
    requires Covers(hash) && j <= |rows|
    requires Linked(hash, OrgRows(rows, OrgOf(args)))
    requires !TipIsNewest(OrgRows(rows[..j], OrgOf(args)))
    ensures IsLatest(rows[..j], OrgOf(args), latest)
    ensures !Linked(hash, OrgRows(rows + [Prepare(hash, args, id, now, latest)], OrgOf(args)))
  {
    var org := OrgOf(args);
    var chain, was := OrgRows(rows, org), OrgRows(rows[..j], org);
    OrgRowsGrow(rows, j, org);
    latest := StaleChoice(rows[..j], org);
    var i: nat :| i < |was| - 1 && latest == Some(was[i].hash);
    assert chain[i] == was[i];
    NotTheTip(hash, chain, i);
    ExtendOrg(hash, rows, args, id, now, latest);
  }

  lemma NotTheTip(hash: AuditRow -> string, chain: seq<AuditRow>, i: nat)
    requires Covers(hash) && Linked(hash, chain) && i + 1 < |chain|
    ensures TipHash(chain) != Some(chain[i].hash)
  {
    if chain[i].hash == chain[|chain| - 1].hash { HashFindsItsRow(hash, chain, i, |chain| - 1); }
  }

  lemma ExtendOrg(hash: AuditRow -> string, rows: seq<AuditRow>, args: AuditArgs, id: string, now: nat,
                  latest: Option<string>)
    requires Covers(hash)
    requires Linked(hash, OrgRows(rows, OrgOf(args)))
    ensures Linked(hash, OrgRows(rows + [Prepare(hash, args, id, now, latest)], OrgOf(args)))
            <==> latest == TipHash(OrgRows(rows, OrgOf(args)))
  {
    var org := OrgOf(args);
    var row := Prepared(hash, args, id, now, latest);
    FilterSnoc(rows, row, OfOrg(org));
    LinkedSnoc(hash, OrgRows(rows, org), row);
  }

  lemma LatestIsTip(rows: seq<AuditRow>, org: string, latest: Option<string>)
    requires IsLatest(rows, org, latest) && TipIsNewest(OrgRows(rows, org))
    ensures var chain := OrgRows(rows, org);
            latest == TipHash(chain)
  {
    var chain := OrgRows(rows, org);
    if chain != [] {
      var r :| r in chain && latest == Some(r.hash) && forall q :: q in chain ==> q.createdAt <= r.createdAt;
      var i :| 0 <= i < |chain| && chain[i] == r;
      assert chain[|chain| - 1] in chain;
    }
  }

  /** A row other than the tip that ties for the newest. */
  lemma StaleChoice(rows: seq<AuditRow>, org: string) returns (latest: Option<string>)
    requires !TipIsNewest(OrgRows(rows, org))
    ensures IsLatest(rows, org, latest)
    ensures var chain := OrgRows(rows, org);
            exists i: nat :: i < |chain| - 1 && latest == Some(chain[i].hash)
  {
    var chain := OrgRows(rows, org);
    var n := |chain| - 1;
    var k := NewestIndex(chain[..n]);
    assert chain[..n][k] == chain[k];
    var r := chain[k];
    var i :| 0 <= i < n && chain[i].createdAt >= chain[n].createdAt;
    assert chain[..n][i] == chain[i];
    forall q | q in chain ensures q.createdAt <= r.createdAt {
      var j :| 0 <= j <= n && chain[j] == q;
      if j < n { assert chain[..n][j] == q; }
    }
    assert r in chain;
    latest := Some(r.hash);
  }

  lemma {:induction false} NewestIndex(chain: seq<AuditRow>) returns (k: nat)
    requires chain != []
    ensures k < |chain| && forall i :: 0 <= i < |chain| ==> chain[i].createdAt <= chain[k].createdAt
  {
    var n := |chain| - 1;
    if n == 0 {
      k := 0;
    } else {
      var j := NewestIndex(chain[..n]);
      assert forall i :: 0 <= i < n ==> chain[i] == chain[..n][i];
      k := if chain[j].createdAt <= chain[n].createdAt then n else j;
    }
  }

  lemma {:induction false} OrgTimesIncrease(rows: seq<AuditRow>, org: string)
    requires TimesIncrease(rows)
    ensures TimesIncrease(OrgRows(rows, org))
    ensures forall r :: r in OrgRows(rows, org) ==> r in rows
    ensures TipIsNewest(OrgRows(rows, org))
  {
    FilterMembers(rows, OfOrg(org));
    if rows != [] {
      var n := |rows| - 1;
      OrgTimesIncrease(rows[..n], org);
      FilterMembers(rows[..n], OfOrg(org));
      var c := OrgRows(rows[..n], org);
      forall i | 0 <= i < |c| && rows[n].orgId == org ensures c[i].createdAt < rows[n].createdAt {
        assert c[i] in c;
        assert c[i] in rows[..n];
        var j :| 0 <= j < n && rows[j] == c[i];
      }
      var d := OrgRows(rows, org);
      forall i | 0 <= i < |d| ensures d[i].orgId == org { assert d[i] in d; }
    }
  }
}
