/**
  The calls of `insertAuditEvent` (packages/db/src/audit-events.ts) over whole
  runs. A call is two statements with an await between them: the SELECT of the
  latest hash, and the INSERT. Calls of several sessions and processes may
  interleave, and a call may never get to its INSERT.
*/
module AuditCalls {
  import opened Collections
  import opened AuditChain
  import opened AuditRows
  import opened JsonRecords

  /** One call: the hash its SELECT returned when the table had `readAt` rows, and the row its INSERT became. */
  datatype Call = Call(args: AuditArgs, latest: Option<string>, readAt: nat, writtenAt: Option<nat>)

  /** The table, and history: every call so far, and which call wrote each row. */
  datatype World = World(rows: seq<AuditRow>, calls: seq<Call>, writers: seq<nat>)

  datatype Step =
    | Read(args: AuditArgs, latest: Option<string>)
    | Write(call: nat, id: string, now: nat)

  /** A SELECT returns one of the newest rows, whichever the database picks; a call inserts once. */
  ghost predicate Allowed(w: World, step: Step) {
    match step
    case Read(args, latest) => IsLatest(w.rows, OrgOf(args), latest)
    case Write(call, _, _) => call < |w.calls| && w.calls[call].writtenAt == None
  }

  function AfterRead(w: World, args: AuditArgs, latest: Option<string>): World {
    w.(calls := w.calls + [Call(args, latest, |w.rows|, None)])
  }

  function AfterWrite(hash: AuditRow -> string, w: World, call: nat, id: string, now: nat): World
    requires call < |w.calls|
  {
    var c := w.calls[call];
    World(w.rows + [Prepare(hash, c.args, id, now, c.latest)], w.calls[call := c.(writtenAt := Some(|w.rows|))],
          w.writers + [call])
  }

  function Apply(hash: AuditRow -> string, w: World, step: Step): World {
    match step
    case Read(args, latest) => AfterRead(w, args, latest)
    case Write(call, id, now) => if call < |w.calls| then AfterWrite(hash, w, call, id, now) else w
  }

  function Run(hash: AuditRow -> string, steps: seq<Step>): World {
    if steps == [] then World([], [], [])
    else Apply(hash, Run(hash, steps[..|steps| - 1]), steps[|steps| - 1])
  }

  ghost predicate Legal(hash: AuditRow -> string, steps: seq<Step>) {
    forall i :: 0 <= i < |steps| ==> Allowed(Run(hash, steps[..i]), steps[i])
  }

  // ------------------------------------------------------------- invariant

  ghost predicate CallSound(rows: seq<AuditRow>, c: Call) {
    && c.readAt <= |rows| && IsLatest(rows[..c.readAt], OrgOf(c.args), c.latest)
    && (c.writtenAt.Some? ==>
          && c.readAt <= c.writtenAt.value < |rows|
          && rows[c.writtenAt.value].orgId == OrgOf(c.args) && rows[c.writtenAt.value].prevHash == c.latest)
  }

  /** Every call read what it says and wrote what it read; every row carries its own hash and is of one call. */
  ghost predicate Sound(hash: AuditRow -> string, w: World) {
    && |w.writers| == |w.rows|
    && (forall c :: 0 <= c < |w.calls| ==> CallSound(w.rows, w.calls[c]))
    && (forall c :: 0 <= c < |w.calls| && w.calls[c].writtenAt.Some? ==> w.writers[w.calls[c].writtenAt.value] == c)
    && (forall k :: 0 <= k < |w.rows| ==> w.rows[k].hash == hash(w.rows[k]))
    && (forall k :: 0 <= k < |w.writers| ==> w.writers[k] < |w.calls| && w.calls[w.writers[k]].writtenAt == Some(k))
  }

  /** The call that wrote row `k`. */
  function Writer(w: World, k: nat): Call
    requires k < |w.writers| && w.writers[k] < |w.calls|
  {
    w.calls[w.writers[k]]
  }

  lemma CallStaysSound(rows: seq<AuditRow>, row: AuditRow, c: Call)
    requires CallSound(rows, c)
    ensures CallSound(rows + [row], c)
  {
    assert (rows + [row])[..c.readAt] == rows[..c.readAt];
  }

  lemma ReadIsSound(hash: AuditRow -> string, w: World, args: AuditArgs, latest: Option<string>)
    requires Sound(hash, w) && IsLatest(w.rows, OrgOf(args), latest)
    ensures Sound(hash, AfterRead(w, args, latest))
  {
    assert w.rows[..|w.rows|] == w.rows;
  }

  lemma WriteIsSound(hash: AuditRow -> string, w: World, call: nat, id: string, now: nat)
    requires Covers(hash) && Sound(hash, w) && call < |w.calls| && w.calls[call].writtenAt == None
    ensures Sound(hash, AfterWrite(hash, w, call, id, now))
  {
    var c := w.calls[call];
    var row := Prepared(hash, c.args, id, now, c.latest);
    forall d | 0 <= d < |w.calls| ensures CallSound(w.rows + [row], w.calls[d]) {
      CallStaysSound(w.rows, row, w.calls[d]);
    }
    assert CallSound(w.rows + [row], c.(writtenAt := Some(|w.rows|)));
  }

  lemma LegalPrefix(hash: AuditRow -> string, steps: seq<Step>, n: nat)
    requires Legal(hash, steps) && n <= |steps|
    ensures Legal(hash, steps[..n])
  {
    forall i | 0 <= i < n ensures Allowed(Run(hash, steps[..n][..i]), steps[..n][i]) {
      assert steps[..n][..i] == steps[..i];
    }
  }

  lemma {:induction false} RunIsSound(hash: AuditRow -> string, steps: seq<Step>)
    requires Covers(hash) && Legal(hash, steps)
    ensures Sound(hash, Run(hash, steps))
  {
    if steps != [] {
      var n := |steps| - 1;
      LegalPrefix(hash, steps, n);
      RunIsSound(hash, steps[..n]);
      var w := Run(hash, steps[..n]);
      assert Allowed(w, steps[n]);
      match steps[n]
      case Read(args, latest) => ReadIsSound(hash, w, args, latest);
      case Write(call, id, now) => WriteIsSound(hash, w, call, id, now);
    }
  }

  // -------------------------------------------- one chain per organisation

  predicate WroteFor(c: Call, org: string) { c.writtenAt.Some? && OrgOf(c.args) == org }

  /** One call had written before the other read. */
  predicate Apart(c: Call, d: Call)
    requires c.writtenAt.Some? && d.writtenAt.Some?
  {
    c.writtenAt.value < d.readAt || d.writtenAt.value < c.readAt
  }

  /** No two completed calls of the organisation overlap. */
  ghost predicate NoOverlap(w: World, org: string) {
    forall c: nat, d: nat :: c < d < |w.calls| && WroteFor(w.calls[c], org) && WroteFor(w.calls[d], org)
      ==> Apart(w.calls[c], w.calls[d])
  }

  /** No row of the organisation came between the read of the call that wrote row `k` and the row. */
  ghost predicate Undisturbed(w: World, org: string, k: nat)
    requires k < |w.rows| && k < |w.writers| && w.writers[k] < |w.calls|
  {
    w.rows[k].orgId == org && Writer(w, k).readAt <= k ==> NoneSince(w.rows[..k], Writer(w, k).readAt, org)
  }

  ghost predicate AllUndisturbed(hash: AuditRow -> string, w: World, org: string, n: nat)
    requires Sound(hash, w) && n <= |w.rows|
  {
    forall k :: 0 <= k < n ==> Undisturbed(w, org, k)
  }

  lemma ApartWrites(hash: AuditRow -> string, w: World, org: string, i: nat, k: nat)
    requires Sound(hash, w) && NoOverlap(w, org) && i < k < |w.rows|
    requires w.rows[i].orgId == w.rows[k].orgId == org
    ensures i < Writer(w, k).readAt
  {
    var c, d := w.writers[i], w.writers[k];
    assert CallSound(w.rows, w.calls[c]) && CallSound(w.rows, w.calls[d]);
    if c < d { assert Apart(w.calls[c], w.calls[d]); } else { assert Apart(w.calls[d], w.calls[c]); }
  }

  lemma ApartIsUndisturbed(hash: AuditRow -> string, w: World, org: string, k: nat)
    requires Sound(hash, w) && NoOverlap(w, org) && k < |w.rows|
    ensures Undisturbed(w, org, k)
  {
    if w.rows[k].orgId == org {
      forall i | Writer(w, k).readAt <= i < k ensures w.rows[i].orgId != org {
        if w.rows[i].orgId == org { ApartWrites(hash, w, org, i, k); }
      }
    }
  }

  /** Of two completed calls the later one read after the earlier one had written. */
  lemma UndisturbedIsApart(hash: AuditRow -> string, w: World, org: string, i: nat, k: nat)
    requires Sound(hash, w) && i < k < |w.rows| && Undisturbed(w, org, k)
    requires w.rows[i].orgId == w.rows[k].orgId == org
    ensures i < Writer(w, k).readAt
  {
    assert CallSound(w.rows, Writer(w, k));
    assert w.rows[..k][i].orgId == org;
  }

  lemma OverlapDisturbs(hash: AuditRow -> string, w: World, org: string)
    requires Sound(hash, w)
    ensures NoOverlap(w, org) <==> AllUndisturbed(hash, w, org, |w.rows|)
  {
    if NoOverlap(w, org) {
      forall k | 0 <= k < |w.rows| ensures Undisturbed(w, org, k) { ApartIsUndisturbed(hash, w, org, k); }
    }
    if AllUndisturbed(hash, w, org, |w.rows|) {
      forall c: nat, d: nat | c < d < |w.calls| && WroteFor(w.calls[c], org) && WroteFor(w.calls[d], org)
        ensures Apart(w.calls[c], w.calls[d])
      {
        var i, k := w.calls[c].writtenAt.value, w.calls[d].writtenAt.value;
        assert CallSound(w.rows, w.calls[c]) && CallSound(w.rows, w.calls[d]);
        if i < k { UndisturbedIsApart(hash, w, org, i, k); } else { UndisturbedIsApart(hash, w, org, k, i); }
      }
    }
  }

  /** The row at `n` links exactly when nothing was written since its call read. */
  lemma RowLinksExactly(hash: AuditRow -> string, w: World, org: string, n: nat)
    requires Covers(hash) && Sound(hash, w) && TimesIncrease(w.rows)
    requires n < |w.rows| && w.rows[n].orgId == org
    requires Linked(hash, OrgRows(w.rows[..n], org))
    ensures Linked(hash, OrgRows(w.rows[..n + 1], org)) <==> Undisturbed(w, org, n)
  {
    var before, row, c := w.rows[..n], w.rows[n], Writer(w, n);
    assert CallSound(w.rows, c);
    assert w.rows[..n + 1] == before + [row];
    LinksByPrev(hash, before, row);
    assert before[..c.readAt] == w.rows[..c.readAt];
    OrgTimesIncrease(before[..c.readAt], org);
    ReadLinksExactly(hash, before, c.readAt, org, c.latest);
  }

  lemma LinksByPrev(hash: AuditRow -> string, rows: seq<AuditRow>, row: AuditRow)
    requires Linked(hash, OrgRows(rows, row.orgId)) && row.hash == hash(row)
    ensures Linked(hash, OrgRows(rows + [row], row.orgId)) <==> row.prevHash == TipHash(OrgRows(rows, row.orgId))
  {
    FilterSnoc(rows, row, OfOrg(row.orgId));
    LinkedSnoc(hash, OrgRows(rows, row.orgId), row);
  }

  lemma PrefixLinks(hash: AuditRow -> string, rows: seq<AuditRow>, org: string, n: nat)
    requires n < |rows| && Linked(hash, OrgRows(rows[..n + 1], org))
    ensures Linked(hash, OrgRows(rows[..n], org))
  {
    assert rows[..n + 1][..n] == rows[..n];
    OrgRowsGrow(rows[..n + 1], n, org);
    LinkedPrefix(hash, OrgRows(rows[..n + 1], org), |OrgRows(rows[..n], org)|);
  }

  lemma OneMoreRow(hash: AuditRow -> string, w: World, org: string, n: nat)
    requires Covers(hash) && Sound(hash, w) && TimesIncrease(w.rows) && n < |w.rows|
    ensures Linked(hash, OrgRows(w.rows[..n + 1], org))
            <==> Linked(hash, OrgRows(w.rows[..n], org)) && Undisturbed(w, org, n)
  {
    if Linked(hash, OrgRows(w.rows[..n + 1], org)) { PrefixLinks(hash, w.rows, org, n); }
    if Linked(hash, OrgRows(w.rows[..n], org)) {
      if w.rows[n].orgId == org {
        RowLinksExactly(hash, w, org, n);
      } else {
        assert w.rows[..n + 1] == w.rows[..n] + [w.rows[n]];
        FilterSnoc(w.rows[..n], w.rows[n], OfOrg(org));
      }
    }
  }

  lemma {:induction false} LinkedExactly(hash: AuditRow -> string, w: World, org: string, n: nat)
    requires Covers(hash) && Sound(hash, w) && TimesIncrease(w.rows) && n <= |w.rows|
    ensures Linked(hash, OrgRows(w.rows[..n], org)) <==> AllUndisturbed(hash, w, org, n)
  {
    if n > 0 {
      var m: nat := n - 1;
      LinkedExactly(hash, w, org, m);
      OneMoreRow(hash, w, org, m);
      OneMoreUndisturbed(hash, w, org, m);
    }
  }

  lemma OneMoreUndisturbed(hash: AuditRow -> string, w: World, org: string, m: nat)
    requires Sound(hash, w) && m < |w.rows|
    ensures AllUndisturbed(hash, w, org, m + 1) <==> AllUndisturbed(hash, w, org, m) && Undisturbed(w, org, m)
  {
  }

  /** Over every run of calls whose rows have increasing times: the rows of an organisation are one chain exactly
      when no two completed calls of it overlap. */
  lemma ChainedExactly(hash: AuditRow -> string, steps: seq<Step>, w: World, org: string)
    requires Covers(hash) && Legal(hash, steps) && w == Run(hash, steps) && TimesIncrease(w.rows)
    ensures Linked(hash, OrgRows(w.rows, org)) <==> NoOverlap(w, org)
  {
    RunIsSound(hash, steps);
    assert w.rows[..|w.rows|] == w.rows;
    LinkedExactly(hash, w, org, |w.rows|);
    OverlapDisturbs(hash, w, org);
  }

  /** Two runs with increasing times and no overlapping calls of an organisation that show the same latest hash for
      it have the same history of it, field by field. */
  lemma SameLatestSameLog(hash: AuditRow -> string, a: seq<Step>, v: World, b: seq<Step>, w: World, org: string)
    requires Covers(hash)
    requires Legal(hash, a) && v == Run(hash, a) && TimesIncrease(v.rows) && NoOverlap(v, org)
    requires Legal(hash, b) && w == Run(hash, b) && TimesIncrease(w.rows) && NoOverlap(w, org)
    requires TipHash(OrgRows(v.rows, org)) == TipHash(OrgRows(w.rows, org))
    ensures var x, y := OrgRows(v.rows, org), OrgRows(w.rows, org);
            |x| == |y| && forall i :: 0 <= i < |x| ==> HashedFields(x[i]) == HashedFields(y[i])
  {
    ChainedExactly(hash, a, v, org);
    ChainedExactly(hash, b, w, org);
    SameTip(hash, OrgRows(v.rows, org), OrgRows(w.rows, org));
  }

  lemma SameTip(hash: AuditRow -> string, x: seq<AuditRow>, y: seq<AuditRow>)
    requires Covers(hash) && Linked(hash, x) && Linked(hash, y) && TipHash(x) == TipHash(y)
    ensures |x| == |y| && forall i :: 0 <= i < |x| ==> HashedFields(x[i]) == HashedFields(y[i])
  {
    if x != [] { SameTipSameHistory(hash, x, y); }
  }

  /** The same for the hash the code computes, sha256 of the canonical payload, with sha256 injective. */
  lemma SameLatestHashSameLog(sha256: string -> string, a: seq<Step>, v: World, b: seq<Step>, w: World, org: string)
    requires Injective(sha256)
    requires Legal(RowHash(sha256), a) && v == Run(RowHash(sha256), a) && TimesIncrease(v.rows) && NoOverlap(v, org)
    requires Legal(RowHash(sha256), b) && w == Run(RowHash(sha256), b) && TimesIncrease(w.rows) && NoOverlap(w, org)
    requires TipHash(OrgRows(v.rows, org)) == TipHash(OrgRows(w.rows, org))
    ensures var x, y := OrgRows(v.rows, org), OrgRows(w.rows, org);
            |x| == |y| && forall i :: 0 <= i < |x| ==> HashedFields(x[i]) == HashedFields(y[i])
  {
    RowHashCovers(sha256);
    SameLatestSameLog(RowHash(sha256), a, v, b, w, org);
  }

  // --------------------------------------------------------------- two forks

  /** Three rows, the last two both behind the first; `t` are their times. */
  function Fork(hash: AuditRow -> string, args: AuditArgs, ids: (string, string, string), t: (nat, nat, nat))
    : seq<AuditRow>
  {
    var r0 := Prepare(hash, args, ids.0, t.0, None);
    [r0, Prepare(hash, args, ids.1, t.1, Some(r0.hash)), Prepare(hash, args, ids.2, t.2, Some(r0.hash))]
  }

  lemma ForkIsNoChain(hash: AuditRow -> string, args: AuditArgs, ids: (string, string, string), t: (nat, nat, nat))
    requires Covers(hash)
    ensures !Linked(hash, OrgRows(Fork(hash, args, ids, t), OrgOf(args)))
  {
    var r0 := Prepared(hash, args, ids.0, t.0, None);
    var r1 := Prepared(hash, args, ids.1, t.1, Some(r0.hash));
    var r2 := Prepared(hash, args, ids.2, t.2, Some(r0.hash));
    FilterKeepsAll(Fork(hash, args, ids, t), OfOrg(OrgOf(args)));
    assert Fork(hash, args, ids, t) == [r0, r1, r2];
    BothBehindFirst(hash, r0, r1, r2);
  }

  lemma BothBehindFirst(hash: AuditRow -> string, r0: AuditRow, r1: AuditRow, r2: AuditRow)
    requires Covers(hash) && r1.prevHash == r2.prevHash == Some(r0.hash)
    ensures !Linked(hash, [r0, r1, r2])
  {
    if Linked(hash, [r0, r1, r2]) {
      LinkedRows(hash, [r0, r1, r2], 2);
      HashFindsItsRow(hash, [r0, r1, r2], 0, 1);
    }
  }

  lemma RunSnoc(hash: AuditRow -> string, steps: seq<Step>, step: Step, w: World)
    requires Legal(hash, steps) && w == Run(hash, steps) && Allowed(w, step)
    ensures Legal(hash, steps + [step]) && Run(hash, steps + [step]) == Apply(hash, w, step)
  {
    var t := steps + [step];
    assert t[..|steps|] == steps;
    forall i | 0 <= i < |t| ensures Allowed(Run(hash, t[..i]), t[i]) {
      if i < |steps| { assert t[..i] == steps[..i]; }
    }
  }

  /** The first of some rows of one organisation none of which is newer. */
  lemma FirstIsLatest(org: string, rows: seq<AuditRow>)
    requires rows != []
    requires forall i :: 0 <= i < |rows| ==> rows[i].orgId == org && rows[i].createdAt <= rows[0].createdAt
    ensures IsLatest(rows, org, Some(rows[0].hash))
  {
    FilterKeepsAll(rows, OfOrg(org));
    assert rows[0] in OrgRows(rows, org);
  }

  lemma CallByItself(hash: AuditRow -> string, steps: seq<Step>, w: World, args: AuditArgs, latest: Option<string>,
                     id: string, now: nat) returns (more: seq<Step>, w': World)
    requires Legal(hash, steps) && w == Run(hash, steps) && IsLatest(w.rows, OrgOf(args), latest)
    ensures Legal(hash, more) && w' == Run(hash, more)
    ensures w' == World(w.rows + [Prepare(hash, args, id, now, latest)],
                        w.calls + [Call(args, latest, |w.rows|, Some(|w.rows|))], w.writers + [|w.calls|])
  {
    var read := AfterRead(w, args, latest);
    RunSnoc(hash, steps, Read(args, latest), w);
    RunSnoc(hash, steps + [Read(args, latest)], Write(|w.calls|, id, now), read);
    more := steps + [Read(args, latest)] + [Write(|w.calls|, id, now)];
    w' := AfterWrite(hash, read, |w.calls|, id, now);
  }

  lemma FirstCall(hash: AuditRow -> string, args: AuditArgs, id: string, now: nat)
    returns (steps: seq<Step>, w: World)
    ensures Legal(hash, steps) && w == Run(hash, steps)
    ensures w == World([Prepare(hash, args, id, now, None)], [Call(args, None, 0, Some(0))], [0])
    ensures IsLatest(w.rows, OrgOf(args), Some(w.rows[0].hash))
  {
    steps, w := CallByItself(hash, [], World([], [], []), args, None, id, now);
    FirstIsLatest(OrgOf(args), w.rows);
  }

  /** Two calls one after the other. */
  lemma TwoCalls(hash: AuditRow -> string, args: AuditArgs, ids: (string, string), t: (nat, nat))
    returns (steps: seq<Step>, w: World)
    ensures Legal(hash, steps) && w == Run(hash, steps)
    ensures |w.rows| == 2 && w.rows[0] == Prepare(hash, args, ids.0, t.0, None)
    ensures w.rows[1] == Prepare(hash, args, ids.1, t.1, Some(w.rows[0].hash))
    ensures w.calls == [Call(args, None, 0, Some(0)), Call(args, Some(w.rows[0].hash), 1, Some(1))]
    ensures t.0 == t.1 ==> IsLatest(w.rows, OrgOf(args), Some(w.rows[0].hash))
  {
    var one, w1 := FirstCall(hash, args, ids.0, t.0);
    steps, w := CallByItself(hash, one, w1, args, Some(w1.rows[0].hash), ids.1, t.1);
    if t.0 == t.1 { TwoLatest(OrgOf(args), w.rows); }
  }

  lemma TwoLatest(org: string, rows: seq<AuditRow>)
    requires |rows| == 2 && rows[0].orgId == rows[1].orgId == org && rows[0].createdAt == rows[1].createdAt
    ensures IsLatest(rows, org, Some(rows[0].hash))
  {
    FirstIsLatest(org, rows);
  }

  /** Two calls that both read before either writes. */
  lemma TwoOverlap(hash: AuditRow -> string, steps: seq<Step>, w: World, args: AuditArgs, latest: Option<string>,
                   ids: (string, string), t: (nat, nat)) returns (more: seq<Step>, w': World)
    requires Legal(hash, steps) && w == Run(hash, steps) && IsLatest(w.rows, OrgOf(args), latest)
    ensures Legal(hash, more) && w' == Run(hash, more)
    ensures w'.rows == w.rows + [Prepare(hash, args, ids.0, t.0, latest), Prepare(hash, args, ids.1, t.1, latest)]
  {
    var n, read := |w.calls|, Read(args, latest);
    var w1 := AfterRead(w, args, latest);
    var w2 := AfterRead(w1, args, latest);
    RunSnoc(hash, steps, read, w);
    RunSnoc(hash, steps + [read], read, w1);
    more, w' := WriteBoth(hash, steps + [read] + [read], w2, n, ids, t);
  }

  lemma WriteBoth(hash: AuditRow -> string, steps: seq<Step>, w: World, n: nat, ids: (string, string), t: (nat, nat))
    returns (more: seq<Step>, w': World)
    requires Legal(hash, steps) && w == Run(hash, steps) && n + 1 < |w.calls|
    requires w.calls[n].writtenAt == w.calls[n + 1].writtenAt == None
    ensures Legal(hash, more) && w' == Run(hash, more)
    ensures var c, d := w.calls[n], w.calls[n + 1];
            w'.rows == w.rows + [Prepare(hash, c.args, ids.0, t.0, c.latest),
                                 Prepare(hash, d.args, ids.1, t.1, d.latest)]
  {
    var w1 := AfterWrite(hash, w, n, ids.0, t.0);
    RunSnoc(hash, steps, Write(n, ids.0, t.0), w);
    RunSnoc(hash, steps + [Write(n, ids.0, t.0)], Write(n + 1, ids.1, t.1), w1);
    more := steps + [Write(n, ids.0, t.0)] + [Write(n + 1, ids.1, t.1)];
    w' := AfterWrite(hash, w1, n + 1, ids.1, t.1);
  }

  /** Two calls that both read before either writes fork the chain, although every row is strictly newer than the
      one before it: `ChainedExactly` fails on `NoOverlap` only. */
  lemma OverlapForksTheChain(hash: AuditRow -> string, args: AuditArgs, ids: (string, string, string),
                             t: (nat, nat, nat)) returns (steps: seq<Step>)
    requires Covers(hash) && t.0 < t.1 < t.2
    ensures Legal(hash, steps) && Run(hash, steps).rows == Fork(hash, args, ids, t)
    ensures TimesIncrease(Fork(hash, args, ids, t)) && !Linked(hash, OrgRows(Fork(hash, args, ids, t), OrgOf(args)))
  {
    var one, w1 := FirstCall(hash, args, ids.0, t.0);
    var w;
    steps, w := TwoOverlap(hash, one, w1, args, Some(w1.rows[0].hash), (ids.1, ids.2), (t.1, t.2));
    assert w.rows == Fork(hash, args, ids, t);
    ForkIsNoChain(hash, args, ids, t);
  }

  /** `createdAt` has whole seconds: three calls in one second, one after the other, can fork it too, the third being
      given the first row again. */
  lemma TieForksTheChain(hash: AuditRow -> string, args: AuditArgs, ids: (string, string, string), now: nat)
    returns (steps: seq<Step>)
    requires Covers(hash)
    ensures Legal(hash, steps) && NoOverlap(Run(hash, steps), OrgOf(args))
    ensures Run(hash, steps).rows == Fork(hash, args, ids, (now, now, now))
    ensures !Linked(hash, OrgRows(Fork(hash, args, ids, (now, now, now)), OrgOf(args)))
  {
    var w;
    steps, w := ThreeCalls(hash, args, ids, now);
    InTurnIsApart(w, OrgOf(args));
    ForkIsNoChain(hash, args, ids, (now, now, now));
  }

  ghost predicate InTurn(w: World) {
    forall c :: 0 <= c < |w.calls| ==> w.calls[c].readAt == c && w.calls[c].writtenAt == Some(c)
  }

  lemma InTurnIsApart(w: World, org: string)
    requires InTurn(w)
    ensures NoOverlap(w, org)
  {
  }

  lemma ThreeCalls(hash: AuditRow -> string, args: AuditArgs, ids: (string, string, string), now: nat)
    returns (steps: seq<Step>, w: World)
    ensures Legal(hash, steps) && w == Run(hash, steps) && InTurn(w)
    ensures w.rows == Fork(hash, args, ids, (now, now, now))
  {
    var two, w2 := TwoCalls(hash, args, (ids.0, ids.1), (now, now));
    var latest := Some(w2.rows[0].hash);
    var last := Prepare(hash, args, ids.2, now, latest);
    ThreeRows(w2.rows, last, Fork(hash, args, ids, (now, now, now)));
    steps, w := CallByItself(hash, two, w2, args, latest, ids.2, now);
    LastInTurn(w2, w);
  }

  lemma LastInTurn(w: World, w': World)
    requires InTurn(w) && |w.calls| == |w.rows| == |w'.calls| - 1 && w.calls < w'.calls
    requires w'.calls[|w.calls|].readAt == |w.rows| && w'.calls[|w.calls|].writtenAt == Some(|w.rows|)
    ensures InTurn(w')
  {
  }

  lemma ThreeRows(two: seq<AuditRow>, last: AuditRow, rows: seq<AuditRow>)
    requires |two| == 2 && |rows| == 3 && two[0] == rows[0] && two[1] == rows[1] && last == rows[2]
    ensures two + [last] == rows
  {
  }

  // ----------------------------------------------------------- the operation

  /** The row stores what the caller passed, field by field; what was left out is null, or has its default. */
  predicate Carries(row: AuditRow, args: AuditArgs) {
    && row.eventType == args.eventType && row.subjectTable == args.subjectTable && row.subjectId == args.subjectId
    && row.action == args.action && row.reason == args.reason && row.projectId == args.projectId
    && row.runId == args.runId && row.actorRunId == args.actorRunId && row.actorUserId == args.actorUserId
    && row.beforeHash == args.beforeHash && row.afterHash == args.afterHash
    && (if args.orgId == None then row.orgId == "__solo__" else args.orgId == Some(row.orgId))
    && (if args.result == None then row.result == "success" else args.result == Some(row.result))
    && (if args.metadataJson == None then row.metadataJson == "{}" else args.metadataJson == Some(row.metadataJson))
  }

  class AuditLog {
    const hash: AuditRow -> string
    var rows: seq<AuditRow>
    // The calls under way and done; a call keeps its arguments and what it read across the await.
    var calls: seq<Call>
    ghost var writers: seq<nat>

    ghost function Contents(): World
      reads this
    {
      World(rows, calls, writers)
    }

    ghost predicate Valid()
      reads this
    {
      Sound(hash, Contents())
    }

    constructor (hash: AuditRow -> string)
      ensures this.hash == hash && Valid() && Contents() == World([], [], [])
    {
      this.hash := hash;
      rows, calls, writers := [], [], [];
    }

    method LatestAuditHash(orgId: string) returns (latest: Option<string>)
      ensures IsLatest(rows, orgId, latest)
    {
      var found := OrgRows(rows, orgId);
      latest := None;
      ghost var best: Option<AuditRow> := None;
      var bestTime := 0;
      for i := 0 to |found|
        invariant i == 0 ==> latest == None
        invariant i > 0 ==> best.Some? && best.value in found && latest == Some(best.value.hash)
                            && best.value.createdAt == bestTime
        invariant forall j :: 0 <= j < i ==> found[j].createdAt <= bestTime
      {
        if latest.None? || found[i].createdAt > bestTime {
          latest, bestTime, best := Some(found[i].hash), found[i].createdAt, Some(found[i]);
        }
      }
    }

    /** insertAuditEvent up to its INSERT: the latest hash is read. */
    method BeginInsert(args: AuditArgs) returns (call: nat)
      requires Valid()
      modifies this`calls
      ensures Valid() && call == |old(calls)|
      ensures exists latest :: IsLatest(rows, OrgOf(args), latest)
                               && Contents() == AfterRead(old(Contents()), args, latest)
    {
      var latest := LatestAuditHash(args.orgId.GetOr(SOLO_ORG_ID));
      ReadIsSound(hash, Contents(), args, latest);
      call := |calls|;
      calls := calls + [Call(args, latest, |rows|, None)];
    }

    /** insertAuditEvent after its await, other calls having run meanwhile. */
    method FinishInsert(call: nat, id: string, now: nat) returns (r: string)
      requires Covers(hash) && Valid() && call < |calls| && calls[call].writtenAt == None
      modifies this
      ensures Valid() && r == id && Contents() == old(AfterWrite(hash, Contents(), call, id, now))
      ensures |rows| == |old(rows)| + 1 && old(rows) < rows
      ensures var row, c := rows[|old(rows)|], old(calls)[call];
              Carries(row, c.args) && row.id == id && row.createdAt == now
              && row.prevHash == c.latest && row.hash == hash(row)
    {
      WriteIsSound(hash, Contents(), call, id, now);
      var c := calls[call];
      calls := calls[call := c.(writtenAt := Some(|rows|))];
      rows := rows + [Prepare(hash, c.args, id, now, c.latest)];
      writers := writers + [call];
      r := id;
    }

    /** One call with no other between its two statements. */
    method InsertAuditEvent(args: AuditArgs, id: string, now: nat) returns (r: string)
      requires Covers(hash) && Valid()
      modifies this
      ensures Valid() && r == id
      ensures |rows| == |old(rows)| + 1 && old(rows) < rows
      ensures var row := rows[|old(rows)|];
              Carries(row, args) && row.id == id && row.createdAt == now
              && IsLatest(old(rows), row.orgId, row.prevHash) && row.hash == hash(row)
    {
      var call := BeginInsert(args);
      r := FinishInsert(call, id, now);
    }
  }
}
