/**
  Resolving abbreviated decision ids (packages/db/src/resolve-decision-ids.ts):
  an exact match, else a unique prefix extension found by LIKE with LIMIT 2.
*/
module DecisionIds {
  import opened Collections
  import opened Text

  // ------------------------------------------------------------------ LIKE

  function Lower(c: char): char {
    if 'A' <= c <= 'Z' then 'a' + (c - 'A') else c
  }

  /** SQLite LIKE: `%` is any run, `_` any one character, ASCII letters without case. */
  predicate Like(s: string, pattern: string)
    decreases |pattern|, |s|
  {
    if pattern == "" then s == ""
    else if pattern[0] == '%' then Like(s, pattern[1..]) || (s != "" && Like(s[1..], pattern))
    else s != "" && (pattern[0] == '_' || Lower(pattern[0]) == Lower(s[0])) && Like(s[1..], pattern[1..])
  }

  predicate IdChar(c: char) { '0' <= c <= '9' || 'a' <= c <= 'f' || c == '-' }

  const PREFIX := "dec_"

  /** `dec_` and then only lowercase hex and dashes. */
  predicate IdShape(s: string) {
    PREFIX <= s && forall i :: |PREFIX| <= i < |s| ==> IdChar(s[i])
  }

  /** The source's ID_PREFIX: at least four characters after `dec_`. */
  predicate Expandable(s: string) {
    IdShape(s) && |s| >= |PREFIX| + 4
  }

  const ID_LETTERS := "0123456789abcdef-"

  lemma IdCharExactly(c: char)
    ensures IdChar(c) <==> c in ID_LETTERS
  {
    if c in ID_LETTERS { var k :| 0 <= k < |ID_LETTERS| && c == ID_LETTERS[k]; }
    if '0' <= c <= '9' { assert c == ID_LETTERS[c as int - '0' as int]; }
    if 'a' <= c <= 'f' { assert c == ID_LETTERS[c as int - 'a' as int + 10]; }
    if c == '-' { assert c == ID_LETTERS[16]; }
  }

  /** Which ids are expanded: `dec_` and four or more of the letters. */
  lemma ExpandableExactly(id: string)
    ensures Expandable(id) <==> |id| >= 8 && id[..4] == "dec_" && forall i :: 4 <= i < |id| ==> id[i] in ID_LETTERS
  {
    forall i | 0 <= i < |id| ensures IdChar(id[i]) <==> id[i] in ID_LETTERS { IdCharExactly(id[i]); }
  }

  /** The same character, or one ASCII letter in its two cases. */
  predicate SameButCase(c: char, d: char) {
    c == d || ('a' <= c <= 'z' && d as int + 32 == c as int) || ('a' <= d <= 'z' && c as int + 32 == d as int)
  }

  lemma LowerExactly(c: char, d: char)
    ensures Lower(c) == Lower(d) <==> SameButCase(c, d)
  {
  }

  lemma {:induction false} AnySuffix(s: string)
    ensures Like(s, "%")
  {
    assert "%"[1..] == "";
    if s != "" { AnySuffix(s[1..]); }
  }

  /** `s` starts with `p` up to letter case, `_` in `p` standing for any character. */
  predicate HeadMatches(s: string, p: string) {
    |p| <= |s| && forall i :: 0 <= i < |p| ==> p[i] == '_' || SameButCase(p[i], s[i])
  }

  lemma {:induction false} LikeHead(s: string, p: string)
    requires '%' !in p
    ensures Like(s, p + "%") <==> HeadMatches(s, p)
  {
    if p == "" {
      assert p + "%" == "%";
      AnySuffix(s);
    } else {
      assert (p + "%")[1..] == p[1..] + "%" && (p + "%")[0] == p[0] && p[0] in p;
      if s != "" {
        LikeHead(s[1..], p[1..]);
        HeadStep(s, p);
      }
    }
  }

  lemma HeadStep(s: string, p: string)
    requires s != "" && p != ""
    ensures HeadMatches(s, p) <==> (p[0] == '_' || Lower(p[0]) == Lower(s[0])) && HeadMatches(s[1..], p[1..])
  {
    LowerExactly(p[0], s[0]);
    if HeadMatches(s, p) {
      forall i | 0 <= i < |p[1..]| ensures p[1..][i] == '_' || SameButCase(p[1..][i], s[1..][i]) {
        assert p[1..][i] == p[i + 1] && s[1..][i] == s[i + 1];
      }
    }
    if HeadMatches(s[1..], p[1..]) {
      forall i | 1 <= i < |p| ensures p[i] == '_' || SameButCase(p[i], s[i]) {
        assert p[1..][i - 1] == p[i] && s[1..][i - 1] == s[i];
      }
    }
  }

  /** Some head of `s` reads as an id if letter case and the character after `dec` are overlooked, and is not one. */
  predicate Confusable(s: string) {
    |s| >= 8 && Lower(s[0]) == 'd' && Lower(s[1]) == 'e' && Lower(s[2]) == 'c'
    && exists n :: 8 <= n <= |s| && (forall i :: 4 <= i < n ==> IdChar(Lower(s[i]))) && !IdShape(s[..n])
  }

  /** The pattern of every expandable id finds `s` exactly when it should, if and only if `s` is not confusable. */
  lemma LikeIsPrefixExactly(s: string)
    ensures (forall id :: Expandable(id) ==> (Like(s, id + "%") <==> id <= s)) <==> !Confusable(s)
  {
    if Confusable(s) {
      var n :| 8 <= n <= |s| && (forall i :: 4 <= i < n ==> IdChar(Lower(s[i]))) && !IdShape(s[..n]);
      var id := LowerId(s, n);
      LikeHead(s, id);
      PrefixIsSlice(id, s);
    } else {
      forall id | Expandable(id) ensures Like(s, id + "%") <==> id <= s {
        LikeIsPrefix(s, id);
      }
    }
  }

  lemma PrefixIsSlice(id: string, s: string)
    ensures id <= s ==> |id| <= |s| && s[..|id|] == id
  {
  }

  /** The id that `s` is confused with. */
  lemma LowerId(s: string, n: nat) returns (id: string)
    requires 8 <= n <= |s| && forall i :: 4 <= i < n ==> IdChar(Lower(s[i]))
    requires Lower(s[0]) == 'd' && Lower(s[1]) == 'e' && Lower(s[2]) == 'c'
    ensures Expandable(id) && |id| == n && HeadMatches(s, id) && '%' !in id
  {
    var tail := seq(n - 4, i requires 0 <= i < n - 4 => Lower(s[i + 4]));
    id := PREFIX + tail;
    forall i | 4 <= i < n ensures IdChar(id[i]) && Lower(id[i]) == Lower(s[i]) {
      assert id[i] == tail[i - 4];
    }
    IdIsPlain(id);
  }

  lemma IdIsPlain(id: string)
    requires IdShape(id)
    ensures '%' !in id && forall i :: 0 <= i < |id| ==> Lower(id[i]) == id[i] && (id[i] == '_' <==> i == 3)
  {
    forall i | 0 <= i < |id| ensures id[i] != '%' && Lower(id[i]) == id[i] && (id[i] == '_' <==> i == 3) {
      if i < 4 { assert id[i] == PREFIX[i]; }
    }
  }

  /** For a string that is not confusable, and so for every stored id of the known shape, the pattern is a
      prefix test. */
  lemma LikeIsPrefix(s: string, id: string)
    requires !Confusable(s) && Expandable(id)
    ensures Like(s, id + "%") <==> id <= s
  {
    IdIsPlain(id);
    LikeHead(s, id);
    var n := |id|;
    if HeadMatches(s, id) {
      assert Lower(s[0]) == 'd' && Lower(s[1]) == 'e' && Lower(s[2]) == 'c' by {
        assert id[0] == PREFIX[0] && id[1] == PREFIX[1] && id[2] == PREFIX[2];
      }
      forall i | 4 <= i < n ensures IdChar(Lower(s[i])) { assert IdChar(id[i]); }
      assert IdShape(s[..n]);
      IdIsPlain(s[..n]);
      forall i | 0 <= i < n ensures s[i] == id[i] { assert s[..n][i] == s[i]; }
      assert s[..n] == id;
    }
  }

  lemma IdsAreNotConfusable(s: string)
    requires IdShape(s)
    ensures !Confusable(s)
  {
    forall n | 8 <= n <= |s| ensures IdShape(s[..n]) {
      assert PREFIX <= s[..n];
    }
  }

  /** Elsewhere `_` in the pattern is a wildcard. */
  lemma UnderscoreIsWild()
    ensures Like("decX12345", "dec_1234" + "%") && !("dec_1234" <= "decX12345")
  {
    var p, s := "dec_1234", "decX12345";
    LikeHead(s, p);
    assert s[3] != p[3];
  }

  // ------------------------------------------------------------- resolution

  function NonEmptyText(): string -> bool { (s: string) => s != "" }

  function TrimAll(ids: seq<string>): seq<string> {
    seq(|ids|, i requires 0 <= i < |ids| => Trim(ids[i]))
  }

  /** The trimmed, non-empty, distinct inputs in order. */
  function Inputs(ids: seq<string>): seq<string> {
    FirstSeen(Filter(TrimAll(ids), NonEmptyText()))
  }

  lemma InputsExactly(ids: seq<string>)
    ensures forall x :: x in Inputs(ids) <==> x != "" && exists k :: 0 <= k < |ids| && Trim(ids[k]) == x
    ensures Distinct(Inputs(ids))
  {
    FirstSeenDistinct(Filter(TrimAll(ids), NonEmptyText()));
    FilterMembers(TrimAll(ids), NonEmptyText());
    forall x | x in TrimAll(ids) ensures exists k :: 0 <= k < |ids| && Trim(ids[k]) == x {
      var k :| 0 <= k < |ids| && TrimAll(ids)[k] == x;
    }
    forall x, k | 0 <= k < |ids| && Trim(ids[k]) == x ensures x in TrimAll(ids) { assert TrimAll(ids)[k] == x; }
  }

  function LikeId(id: string): string -> bool { (s: string) => Like(s, id + "%") }

  function Extends(id: string): string -> bool { (s: string) => id <= s }

  function FirstTwo<T>(s: seq<T>): seq<T> { if |s| <= 2 then s else s[..2] }

  datatype Answer = Resolved(full: string) | Unresolved | Ambiguous

  /** A full scan: the id itself when stored, else the one stored id that `expands` accepts. */
  function ScanBy(stored: seq<string>, id: string, expands: string -> bool): Answer {
    if id in stored then Resolved(id)
    else if !Expandable(id) then Unresolved
    else
      var matches := Filter(stored, expands);
      if |matches| == 1 then Resolved(matches[0]) else if matches == [] then Unresolved else Ambiguous
  }

  function LikeScan(stored: seq<string>, id: string): Answer { ScanBy(stored, id, LikeId(id)) }

  /** What the resolution promises: exact, else the only id it abbreviates. */
  function PrefixScan(stored: seq<string>, id: string): Answer { ScanBy(stored, id, Extends(id)) }

  /** With no confusable id stored the LIKE query answers as a prefix scan. */
  lemma LikeScanIsPrefixScan(stored: seq<string>, id: string)
    requires forall s :: s in stored ==> !Confusable(s)
    ensures LikeScan(stored, id) == PrefixScan(stored, id)
  {
    if Expandable(id) {
      forall s | s in stored ensures LikeId(id)(s) == Extends(id)(s) { LikeIsPrefix(s, id); }
      FilterCongruent(stored, LikeId(id), Extends(id));
    }
  }

  function IsUnresolved(stored: seq<string>): string -> bool { (id: string) => LikeScan(stored, id).Unresolved? }

  function IsAmbiguous(stored: seq<string>): string -> bool { (id: string) => LikeScan(stored, id).Ambiguous? }

  ghost predicate Answers(stored: seq<string>, done: seq<string>, resolved: map<string, string>,
                          unresolved: seq<string>, ambiguous: seq<string>)
  {
    && (forall id :: id in resolved <==> id in done && LikeScan(stored, id).Resolved?)
    && (forall id :: id in resolved ==> resolved[id] == LikeScan(stored, id).full)
    && unresolved == Filter(done, IsUnresolved(stored))
    && ambiguous == Filter(done, IsAmbiguous(stored))
  }

  /** What the map holds once the first `i` inputs have been looked at. */
  ghost predicate ResolvedUpTo(stored: seq<string>, unique: seq<string>, i: nat, resolved: map<string, string>)
    requires i <= |unique|
  {
    && (forall id :: id in resolved <==>
          (id in unique && id in stored) || (id in unique[..i] && LikeScan(stored, id).Resolved?))
    && (forall id :: id in resolved ==> LikeScan(stored, id) == Resolved(resolved[id]))
  }

  lemma ResolvedNext(stored: seq<string>, unique: seq<string>, i: nat, resolved: map<string, string>)
    requires i < |unique| && ResolvedUpTo(stored, unique, i, resolved)
    ensures var answer := LikeScan(stored, unique[i]);
            ResolvedUpTo(stored, unique, i + 1,
                         if answer.Resolved? then resolved[unique[i] := answer.full] else resolved)
    ensures unique[i] in resolved ==> ResolvedUpTo(stored, unique, i + 1, resolved)
  {
    assert unique[..i + 1] == unique[..i] + [unique[i]];
    if unique[i] in resolved { assert resolved[unique[i] := resolved[unique[i]]] == resolved; }
  }

  /** The two loops, with the query limited to two rows, answer as unlimited scans. */
  method ResolveDecisionIds(stored: seq<string>, ids: seq<string>)
    returns (resolved: map<string, string>, unresolved: seq<string>, ambiguous: seq<string>)
    ensures Answers(stored, Inputs(ids), resolved, unresolved, ambiguous)
  {
    unresolved, ambiguous := [], [];
    var unique := Inputs(ids);
    resolved := ExactMatches(stored, unique);
    for i := 0 to |unique|
      invariant ResolvedUpTo(stored, unique, i, resolved)
      invariant unresolved == Filter(unique[..i], IsUnresolved(stored))
      invariant ambiguous == Filter(unique[..i], IsAmbiguous(stored))
    {
      var id := unique[i];
      assert unique[..i + 1] == unique[..i] + [id];
      FilterSnoc(unique[..i], id, IsUnresolved(stored));
      FilterSnoc(unique[..i], id, IsAmbiguous(stored));
      ResolvedNext(stored, unique, i, resolved);
      if id in resolved { continue; }
      var answer := Expand(stored, id);
      match answer
      case Resolved(full) => resolved := resolved[id := full];
      case Unresolved => unresolved := unresolved + [id];
      case Ambiguous => ambiguous := ambiguous + [id];
    }
    assert unique[..|unique|] == unique;
  }

  method ExactMatches(stored: seq<string>, unique: seq<string>) returns (resolved: map<string, string>)
    ensures forall id :: id in resolved <==> id in unique && id in stored
    ensures forall id :: id in resolved ==> resolved[id] == id
  {
    resolved := map[];
    var exact := set s | s in stored && s in unique;
    for i := 0 to |unique|
      invariant forall id :: id in resolved <==> id in unique[..i] && id in stored
      invariant forall id :: id in resolved ==> resolved[id] == id
    {
      var id := unique[i];
      if id in exact { resolved := resolved[id := id]; }
    }
    assert unique[..|unique|] == unique;
  }

  /** The prefix query of one id that is not stored itself. */
  method Expand(stored: seq<string>, id: string) returns (answer: Answer)
    requires id !in stored
    ensures answer == LikeScan(stored, id)
  {
    if !Expandable(id) { return Unresolved; }
    var matches := FirstTwo(Filter(stored, LikeId(id)));
    if |matches| == 1 { return Resolved(matches[0]); }
    return if |matches| > 1 then Ambiguous else Unresolved;
  }

  /** Every trimmed distinct input is in exactly one of the three outputs, once, and with no confusable id
      stored it is the one a scan for prefix extensions says. */
  lemma OutputsPartition(stored: seq<string>, ids: seq<string>, resolved: map<string, string>,
                         unresolved: seq<string>, ambiguous: seq<string>)
    requires Answers(stored, Inputs(ids), resolved, unresolved, ambiguous)
    ensures resolved.Keys !! (set x | x in unresolved) !! (set x | x in ambiguous)
    ensures resolved.Keys + (set x | x in unresolved) + (set x | x in ambiguous) == set x | x in Inputs(ids)
    ensures forall x :: x in Inputs(ids) <==> x != "" && exists k :: 0 <= k < |ids| && Trim(ids[k]) == x
    ensures Distinct(unresolved) && Distinct(ambiguous)
    ensures (forall s :: s in stored ==> !Confusable(s)) ==>
              forall id :: id in Inputs(ids) ==>
                && (id in resolved <==> PrefixScan(stored, id).Resolved?)
                && (id in resolved ==> PrefixScan(stored, id) == Resolved(resolved[id]))
                && (id in unresolved <==> PrefixScan(stored, id).Unresolved?)
                && (id in ambiguous <==> PrefixScan(stored, id).Ambiguous?)
  {
    FilterMembers(Inputs(ids), IsUnresolved(stored));
    FilterMembers(Inputs(ids), IsAmbiguous(stored));
    InputsExactly(ids);
    FilterDistinct(Inputs(ids), IsUnresolved(stored));
    FilterDistinct(Inputs(ids), IsAmbiguous(stored));
    if forall s :: s in stored ==> !Confusable(s) {
      forall id | id in Inputs(ids) ensures LikeScan(stored, id) == PrefixScan(stored, id) {
        LikeScanIsPrefixScan(stored, id);
      }
    }
  }
}
