/**
  Run diffs (packages/lifecycle/src/run-diff-runner.ts): the parser of
  `git diff --name-status -z`, the synthesised new-file stanza, and the join
  of the three sources of per-file metadata.
*/
module RunDiff {
  import opened Collections
  import opened Text

  datatype Status = Added | Modified | Deleted | Renamed | Copied | TypeChanged

  datatype NameStatusRow = NameStatusRow(path: string, oldPath: Option<string>, status: Status)

  const NUL := '\0'

  // ------------------------------------------------- --name-status -z parser

  function Upper(c: char): char {
    if 'a' <= c <= 'z' then 'A' + (c - 'a') else c
  }

  function PlainStatus(head: char): Status {
    match head
    case 'A' => Added
    case 'M' => Modified
    case 'D' => Deleted
    case 'T' => TypeChanged
    case _ => Modified
  }

  /** What the tokens from some position on stand for. */
  function Rows(tokens: seq<string>): seq<NameStatusRow> {
    if tokens == [] then []
    else if tokens[0] == "" then Rows(tokens[1..])
    else
      var head := Upper(tokens[0][0]);
      if head == 'R' || head == 'C' then
        if |tokens| < 3 then []
        else (if tokens[2] == "" then []
              else [NameStatusRow(tokens[2], Some(tokens[1]), if head == 'R' then Renamed else Copied)])
             + Rows(tokens[3..])
      else if |tokens| < 2 then []
      else (if tokens[1] == "" then [] else [NameStatusRow(tokens[1], None, PlainStatus(head))])
           + Rows(tokens[2..])
  }

  function TokensFrom(tokens: seq<string>, i: nat): seq<string> {
    if i <= |tokens| then tokens[i..] else []
  }

  lemma RowsUnfold(tokens: seq<string>, i: nat)
    requires i < |tokens| && tokens[i] != ""
    ensures var head := Upper(tokens[i][0]);
            Rows(TokensFrom(tokens, i)) ==
              if head == 'R' || head == 'C' then
                (if i + 2 < |tokens| && tokens[i + 2] != ""
                 then [NameStatusRow(tokens[i + 2], Some(tokens[i + 1]), if head == 'R' then Renamed else Copied)]
                 else []) + Rows(TokensFrom(tokens, i + 3))
              else
                (if i + 1 < |tokens| && tokens[i + 1] != ""
                 then [NameStatusRow(tokens[i + 1], None, PlainStatus(head))]
                 else []) + Rows(TokensFrom(tokens, i + 2))
  {
    var rest := TokensFrom(tokens, i);
    assert rest[0] == tokens[i];
    if i + 1 < |tokens| { assert rest[1] == tokens[i + 1] && rest[2..] == TokensFrom(tokens, i + 2); }
    if i + 2 < |tokens| { assert rest[2] == tokens[i + 2] && rest[3..] == TokensFrom(tokens, i + 3); }
  }

  /** The index-jumping loop over the tokens; it terminates and reads what `Rows` says. */
  method ParseNameStatus(stdout: string) returns (rows: seq<NameStatusRow>)
    ensures rows == Rows(Split(stdout, NUL))
  {
    var tokens := Split(stdout, NUL);
    rows := [];
    var i := 0;
    assert TokensFrom(tokens, 0) == tokens;
    while i < |tokens|
      invariant rows + Rows(TokensFrom(tokens, i)) == Rows(tokens)
      decreases |tokens| - i
    {
      var code := tokens[i];
      if code == "" {
        assert TokensFrom(tokens, i)[1..] == TokensFrom(tokens, i + 1);
        i := i + 1;
        continue;
      }
      RowsUnfold(tokens, i);
      ghost var seen := rows;
      var head := Upper(code[0]);
      if head == 'R' || head == 'C' {
        if i + 2 < |tokens| && tokens[i + 2] != "" {
          var row := NameStatusRow(tokens[i + 2], Some(tokens[i + 1]), if head == 'R' then Renamed else Copied);
          rows := rows + [row];
          Regroup(seen, row, Rows(TokensFrom(tokens, i + 3)));
        } else {
          assert [] + Rows(TokensFrom(tokens, i + 3)) == Rows(TokensFrom(tokens, i + 3));
        }
        i := i + 3;
        continue;
      }
      if i + 1 < |tokens| && tokens[i + 1] != "" {
        var row := NameStatusRow(tokens[i + 1], None, PlainStatus(head));
        rows := rows + [row];
        Regroup(seen, row, Rows(TokensFrom(tokens, i + 2)));
      } else {
        assert [] + Rows(TokensFrom(tokens, i + 2)) == Rows(TokensFrom(tokens, i + 2));
      }
      i := i + 2;
    }
    assert TokensFrom(tokens, i) == [] && rows + [] == rows;
  }

  lemma Regroup<T>(a: seq<T>, x: T, b: seq<T>)
    ensures (a + [x]) + b == a + ([x] + b)
  {
  }

  /** A change as git reports it: a status code and a path, or a rename or copy with a score. */
  datatype Change =
    | Plain(code: string, path: string)
    | Moved(letter: char, score: string, oldPath: string, newPath: string)

  predicate ValidChange(c: Change) {
    match c
    case Plain(code, path) =>
      code != "" && code[0] !in {'R', 'r', 'C', 'c'} && path != "" && NUL !in code && NUL !in path
    case Moved(letter, score, oldPath, newPath) =>
      letter in {'R', 'r', 'C', 'c'} && oldPath != "" && newPath != ""
      && NUL !in score && NUL !in oldPath && NUL !in newPath
  }

  function Tokens(c: Change): seq<string> {
    match c
    case Plain(code, path) => [code, path]
    case Moved(letter, score, oldPath, newPath) => [[letter] + score, oldPath, newPath]
  }

  function RowOf(c: Change): NameStatusRow
    requires ValidChange(c)
  {
    match c
    case Plain(code, path) => NameStatusRow(path, None, PlainStatus(Upper(code[0])))
    case Moved(letter, _, oldPath, newPath) =>
      NameStatusRow(newPath, Some(oldPath), if Upper(letter) == 'R' then Renamed else Copied)
  }

  /** The kind a status letter stands for, in either case; an unknown letter counts as a modification. */
  predicate Means(letter: char, status: Status) {
    match status
    case Added => letter == 'A' || letter == 'a'
    case Deleted => letter == 'D' || letter == 'd'
    case TypeChanged => letter == 'T' || letter == 't'
    case Renamed => letter == 'R' || letter == 'r'
    case Copied => letter == 'C' || letter == 'c'
    case Modified => letter !in {'A', 'a', 'D', 'd', 'T', 't', 'R', 'r', 'C', 'c'}
  }

  /** The row says what git reported: the path, where it was before, and the kind of change. */
  predicate Reports(row: NameStatusRow, c: Change)
    requires ValidChange(c)
  {
    match c
    case Plain(code, path) => row.path == path && row.oldPath == None && Means(code[0], row.status)
    case Moved(letter, _, oldPath, newPath) =>
      row.path == newPath && row.oldPath == Some(oldPath) && Means(letter, row.status)
  }

  lemma RowReports(c: Change)
    requires ValidChange(c)
    ensures Reports(RowOf(c), c)
  {
  }

  /** git's output: every token followed by NUL. */
  function PrintTokens(tokens: seq<string>): string {
    if tokens == [] then "" else tokens[0] + [NUL] + PrintTokens(tokens[1..])
  }

  function AllTokens(changes: seq<Change>): seq<string> {
    if changes == [] then [] else Tokens(changes[0]) + AllTokens(changes[1..])
  }

  function PrintChanges(changes: seq<Change>): string {
    PrintTokens(AllTokens(changes))
  }

  lemma {:induction false} SplitPrinted(tokens: seq<string>)
    requires forall t :: t in tokens ==> NUL !in t
    ensures Split(PrintTokens(tokens), NUL) == tokens + [""]
  {
    if tokens != [] {
      assert tokens[0] in tokens;
      SplitPrinted(tokens[1..]);
      SplitNone(tokens[0], NUL);
      SplitAt(tokens[0], PrintTokens(tokens[1..]), NUL);
      HeadThenRest(tokens);
    }
  }

  lemma HeadThenRest(tokens: seq<string>)
    requires tokens != []
    ensures [tokens[0]] + (tokens[1..] + [""]) == tokens + [""]
  {
  }

  lemma {:induction false} TokensAreNulFree(changes: seq<Change>)
    requires forall c :: c in changes ==> ValidChange(c)
    ensures forall t :: t in AllTokens(changes) ==> NUL !in t
  {
    if changes != [] {
      assert ValidChange(changes[0]) by { assert changes[0] in changes; }
      assert forall t :: t in Tokens(changes[0]) ==> NUL !in t;
      TokensAreNulFree(changes[1..]);
    }
  }

  lemma {:induction false} RowsOfTokens(changes: seq<Change>)
    requires forall c :: c in changes ==> ValidChange(c)
    ensures |Rows(AllTokens(changes) + [""])| == |changes|
    ensures forall i :: 0 <= i < |changes| ==> Rows(AllTokens(changes) + [""])[i] == RowOf(changes[i])
  {
    if changes == [] {
      assert AllTokens(changes) + [""] == [""];
      assert Rows([""]) == Rows([""][1..]) == [];
    } else {
      var c := changes[0];
      assert c in changes;
      RowsOfTokens(changes[1..]);
      var tail := AllTokens(changes[1..]) + [""];
      assert AllTokens(changes) + [""] == Tokens(c) + tail;
      assert (Tokens(c) + tail)[|Tokens(c)|..] == tail;
      assert Rows(Tokens(c) + tail) == [RowOf(c)] + Rows(tail);
    }
  }

  /** Printing change records in git's form and parsing them returns the same records, with their kinds, in order. */
  lemma NameStatusRoundTrip(changes: seq<Change>)
    requires forall c :: c in changes ==> ValidChange(c)
    ensures var rows := Rows(Split(PrintChanges(changes), NUL));
            |rows| == |changes| && forall i :: 0 <= i < |changes| ==> Reports(rows[i], changes[i])
  {
    forall i | 0 <= i < |changes| ensures Reports(RowOf(changes[i]), changes[i]) { RowReports(changes[i]); }
    TokensAreNulFree(changes);
    SplitPrinted(AllTokens(changes));
    RowsOfTokens(changes);
  }

  /** Whatever the input, a reported path is a non-empty token of it. */
  lemma {:induction false} RowsAreTokens(tokens: seq<string>)
    ensures forall r :: r in Rows(tokens) ==> r.path != "" && r.path in tokens
    ensures forall r :: r in Rows(tokens) && r.oldPath.Some? ==> r.oldPath.value in tokens
  {
    if tokens == [] {
    } else if tokens[0] == "" {
      RowsAreTokens(tokens[1..]);
    } else if Upper(tokens[0][0]) in {'R', 'C'} {
      if |tokens| >= 3 { RowsAreTokens(tokens[3..]); }
    } else {
      if |tokens| >= 2 { RowsAreTokens(tokens[2..]); }
    }
  }

  // ------------------------------------------------- the new-file stanza

  function NewFileLines(content: string): seq<string> {
    var lines := if content == "" then [] else Split(content, '\n');
    if |lines| > 0 && lines[|lines| - 1] == "" then lines[..|lines| - 1] else lines
  }

  function PlusLines(lines: seq<string>): seq<string> {
    seq(|lines|, i requires 0 <= i < |lines| => "+" + lines[i])
  }

  function StanzaHeader(path: string, count: nat): string {
    "diff --git a/" + path + " b/" + path + "\n" + "new file mode 100644\n" + "--- /dev/null\n"
    + "+++ b/" + path + "\n" + "@@ -0,0 +1," + Decimal(count) + " @@\n"
  }

  function StanzaBody(lines: seq<string>): string {
    var body := Join(PlusLines(lines), '\n');
    body + (if |body| > 0 then "\n" else "")
  }

  function SynthesizeNewFileDiff(path: string, content: string): string {
    var lines := NewFileLines(content);
    StanzaHeader(path, |lines|) + StanzaBody(lines)
  }

  /** The `additions` recorded for an untracked file. */
  function LineCount(content: string): int {
    if content == "" then 0
    else |Split(content, '\n')| - (if content[|content| - 1] == '\n' then 1 else 0)
  }

  /** Reading a stanza body back: its newline-terminated lines. */
  function BodyLines(body: string): seq<string> {
    var pieces := Split(body, '\n');
    pieces[..|pieces| - 1]
  }

  /** Strip one leading character from every line and terminate each line. */
  function StripPlus(lines: seq<string>): string {
    if lines == [] then ""
    else
      var last := lines[|lines| - 1];
      StripPlus(lines[..|lines| - 1]) + (if last == "" then "" else last[1..]) + "\n"
  }

  lemma {:induction false} SplitLastEmpty(s: string)
    requires s != ""
    ensures Split(s, '\n')[|Split(s, '\n')| - 1] == "" <==> s[|s| - 1] == '\n'
  {
  }

  lemma {:induction false} JoinTerminates(lines: seq<string>)
    ensures StripPlus(PlusLines(lines)) == if lines == [] then "" else Join(lines, '\n') + "\n"
  {
    if lines != [] {
      var m := |lines| - 1;
      JoinTerminates(lines[..m]);
      assert PlusLines(lines)[..m] == PlusLines(lines[..m]);
      assert ("+" + lines[m])[1..] == lines[m];
      assert lines == lines[..m] + [lines[m]];
      assert lines[..m] == [] ==> "" + lines[m] + "\n" == lines[m] + "\n";
    }
  }

  lemma BodyReadsBack(lines: seq<string>)
    requires forall l :: l in lines ==> '\n' !in l
    ensures BodyLines(StanzaBody(lines)) == PlusLines(lines)
    ensures Split(StanzaBody(lines), '\n') == PlusLines(lines) + [""]
  {
    var plus := PlusLines(lines);
    if lines == [] {
      assert Split("", '\n') == [""];
    } else {
      forall p | p in plus ensures '\n' !in p {
        var i :| 0 <= i < |plus| && plus[i] == p;
        assert lines[i] in lines;
      }
      SplitJoin(plus, '\n');
      var body := Join(plus, '\n');
      assert |body| >= |plus[|plus| - 1]| == 1 + |lines[|lines| - 1]|;
      SplitAt(body, "", '\n');
      assert body + ['\n'] + "" == StanzaBody(lines);
      assert (plus + [""])[..|plus|] == plus;
    }
  }

  /** The lines of a file, put back together. */
  lemma LinesReassemble(content: string)
    ensures var lines := NewFileLines(content);
            && (forall l :: l in lines ==> '\n' !in l)
            && (lines == [] <==> content == "")
            && (content != "" ==> Join(lines, '\n') + "\n"
                                  == if content[|content| - 1] == '\n' then content else content + "\n")
  {
    if content != "" {
      var pieces := Split(content, '\n');
      SplitPieces(content, '\n');
      JoinSplit(content, '\n');
      SplitLastEmpty(content);
      if content[|content| - 1] == '\n' {
        var lines := pieces[..|pieces| - 1];
        SplitSnoc(content[..|content| - 1], '\n', '\n');
        assert content == content[..|content| - 1] + ['\n'];
        assert pieces == lines + [""] && lines == Split(content[..|content| - 1], '\n');
        JoinSplit(content[..|content| - 1], '\n');
      }
    }
  }

  /** For every file: the hunk count, the number of `+` lines and the recorded additions agree, and
      the body gives the content back, with a final newline added when it had none. */
  lemma NewFileStanzaFaithful(path: string, content: string)
    ensures var n := LineCount(content);
            var stanza := SynthesizeNewFileDiff(path, content);
            && n >= 0
            && StanzaHeader(path, n) <= stanza
            && var body := BodyLines(stanza[|StanzaHeader(path, n)|..]);
               && |body| == n
               && (forall l :: l in body ==> l != "" && l[0] == '+')
               && StripPlus(body)
                  == (if content == "" || content[|content| - 1] == '\n' then content else content + "\n")
  {
    var lines := NewFileLines(content);
    if content != "" { SplitLastEmpty(content); }
    assert LineCount(content) == |lines|;
    LinesReassemble(content);
    BodyReadsBack(lines);
    JoinTerminates(lines);
    var header, rest := StanzaHeader(path, |lines|), StanzaBody(lines);
    assert (header + rest)[|header|..] == rest;
  }

  lemma LineThen(line: string, rest: string)
    requires '\n' !in line
    ensures Split(line + "\n" + rest, '\n') == [line] + Split(rest, '\n')
  {
    SplitNone(line, '\n');
    SplitAt(line, rest, '\n');
  }

  lemma {:induction false} DigitsHaveNoNewline(n: nat)
    ensures '\n' !in Decimal(n)
  {
    if n >= 10 { DigitsHaveNoNewline(n / 10); }
  }

  lemma FiveLinesSplit(l0: string, l1: string, l2: string, l3: string, l4: string, rest: string)
    requires '\n' !in l0 && '\n' !in l1 && '\n' !in l2 && '\n' !in l3 && '\n' !in l4
    ensures Split((l0 + "\n" + l1 + "\n" + l2 + "\n" + l3 + "\n" + l4 + "\n") + rest, '\n')
            == [l0, l1, l2, l3, l4] + Split(rest, '\n')
  {
    var t4 := l4 + "\n" + rest;
    var t3 := l3 + "\n" + t4;
    var t2 := l2 + "\n" + t3;
    var t1 := l1 + "\n" + t2;
    LineThen(l4, rest);
    LineThen(l3, t4);
    LineThen(l2, t3);
    LineThen(l1, t2);
    LineThen(l0, t1);
    FiveLines(l0, l1, l2, l3, l4, rest);
    assert [l0] + ([l1] + ([l2] + ([l3] + ([l4] + Split(rest, '\n'))))) == [l0, l1, l2, l3, l4] + Split(rest, '\n');
  }

  /** The five lines of the header. */
  function HeaderLines(path: string, count: nat): seq<string> {
    ["diff --git a/" + path + " b/" + path, "new file mode 100644", "--- /dev/null", "+++ b/" + path,
     "@@ -0,0 +1," + Decimal(count) + " @@"]
  }

  lemma HeaderIsLines(path: string, count: nat)
    requires '\n' !in path
    ensures forall k :: 0 <= k < 5 ==> '\n' !in HeaderLines(path, count)[k]
  {
    DigitsHaveNoNewline(count);
  }

  lemma HeaderByLine(path: string, count: nat, rest: string)
    requires '\n' !in path
    ensures Split(StanzaHeader(path, count) + rest, '\n') == HeaderLines(path, count) + Split(rest, '\n')
  {
    var l := HeaderLines(path, count);
    HeaderIs(path, count);
    HeaderIsLines(path, count);
    FiveLinesSplit(l[0], l[1], l[2], l[3], l[4], rest);
    assert l == [l[0], l[1], l[2], l[3], l[4]];
  }

  lemma HeaderIs(path: string, count: nat)
    ensures var l := HeaderLines(path, count);
            StanzaHeader(path, count)
            == l[0] + "\n" + l[1] + "\n" + l[2] + "\n" + l[3] + "\n" + l[4] + "\n"
  {
  }

  lemma FiveLines(l0: string, l1: string, l2: string, l3: string, l4: string, rest: string)
    ensures (l0 + "\n" + l1 + "\n" + l2 + "\n" + l3 + "\n" + l4 + "\n") + rest
            == l0 + "\n" + (l1 + "\n" + (l2 + "\n" + (l3 + "\n" + (l4 + "\n" + rest))))
  {
  }

  /** The stanza line by line: five lines of header that name the path and the count, and the content's lines. */
  lemma StanzaByLine(path: string, content: string)
    requires '\n' !in path
    ensures LineCount(content) >= 0
    ensures Split(SynthesizeNewFileDiff(path, content), '\n')
            == HeaderLines(path, LineCount(content)) + (PlusLines(NewFileLines(content)) + [""])
  {
    var lines := NewFileLines(content);
    if content != "" { SplitLastEmpty(content); }
    assert LineCount(content) == |lines|;
    LinesReassemble(content);
    BodyReadsBack(lines);
    HeaderByLine(path, |lines|, StanzaBody(lines));
  }

  // --------------------------------------------------- joining the sources

  datatype NumstatRow = NumstatRow(path: string, additions: nat, deletions: nat)

  datatype FileEntry =
    FileEntry(path: string, oldPath: Option<string>, status: Status, additions: nat, deletions: nat)

  /** The last name-status row for a path; later rows overwrite earlier ones. */
  function LastStatus(rows: seq<NameStatusRow>, path: string): Option<NameStatusRow> {
    if rows == [] then None
    else if rows[|rows| - 1].path == path then Some(rows[|rows| - 1])
    else LastStatus(rows[..|rows| - 1], path)
  }

  function LastNumstat(rows: seq<NumstatRow>, path: string): Option<NumstatRow> {
    if rows == [] then None
    else if rows[|rows| - 1].path == path then Some(rows[|rows| - 1])
    else LastNumstat(rows[..|rows| - 1], path)
  }

  /** The first untracked entry for a path; later ones are ignored. */
  function FirstUntracked(rows: seq<FileEntry>, path: string): Option<FileEntry> {
    if rows == [] then None
    else
      var earlier := FirstUntracked(rows[..|rows| - 1], path);
      if earlier.None? && rows[|rows| - 1].path == path then Some(rows[|rows| - 1]) else earlier
  }

  /** The entry for one path, from the three sources: the kind of change from name-status, the line
      counts from numstat, and an untracked file only where git knows nothing of the path. */
  function JoinedEntry(ns: seq<NameStatusRow>, num: seq<NumstatRow>, un: seq<FileEntry>, path: string)
    : Option<FileEntry>
  {
    var kind, counts := LastStatus(ns, path), LastNumstat(num, path);
    if kind.None? && counts.None? then FirstUntracked(un, path)
    else Some(FileEntry(path,
                        if kind.Some? then kind.value.oldPath else None,
                        if kind.Some? then kind.value.status else Modified,
                        if counts.Some? then counts.value.additions else 0,
                        if counts.Some? then counts.value.deletions else 0))
  }

  ghost predicate Joined(byPath: map<string, FileEntry>, ns: seq<NameStatusRow>, num: seq<NumstatRow>,
                         un: seq<FileEntry>)
  {
    forall p :: JoinedEntry(ns, num, un, p) == if p in byPath then Some(byPath[p]) else None
  }

  /** The paths in the order the three loops meet them. */
  function MetPaths(ns: seq<NameStatusRow>, num: seq<NumstatRow>, un: seq<FileEntry>): seq<string> {
    seq(|ns|, i requires 0 <= i < |ns| => ns[i].path)
    + seq(|num|, i requires 0 <= i < |num| => num[i].path)
    + seq(|un|, i requires 0 <= i < |un| => un[i].path)
  }

  /** The Map built so far: what it holds, and its insertion order (each path where it was first set). */
  ghost predicate Built(byPath: map<string, FileEntry>, order: seq<string>,
                        ns: seq<NameStatusRow>, num: seq<NumstatRow>, un: seq<FileEntry>)
  {
    && Joined(byPath, ns, num, un)
    && order == FirstSeen(MetPaths(ns, num, un))
    && forall p :: p in byPath <==> p in order
  }

  method JoinFilesChanged(nameStatusRows: seq<NameStatusRow>, numstatRows: seq<NumstatRow>,
                          untrackedEntries: seq<FileEntry>)
    returns (byPath: map<string, FileEntry>, order: seq<string>)
    ensures order == FirstSeen(MetPaths(nameStatusRows, numstatRows, untrackedEntries))
    ensures forall p :: p in byPath <==> p in order
    ensures forall p :: JoinedEntry(nameStatusRows, numstatRows, untrackedEntries, p)
                        == if p in byPath then Some(byPath[p]) else None
  {
    byPath, order := AddNameStatus(nameStatusRows);
    byPath, order := AddNumstat(byPath, order, nameStatusRows, numstatRows);
    byPath, order := AddUntracked(byPath, order, nameStatusRows, numstatRows, untrackedEntries);
  }

  lemma MetStatus(rows: seq<NameStatusRow>, r: NameStatusRow)
    ensures MetPaths(rows + [r], [], []) == MetPaths(rows, [], []) + [r.path]
  {
  }

  lemma MetNumstat(ns: seq<NameStatusRow>, rows: seq<NumstatRow>, r: NumstatRow)
    ensures MetPaths(ns, rows + [r], []) == MetPaths(ns, rows, []) + [r.path]
  {
  }

  lemma MetUntracked(ns: seq<NameStatusRow>, num: seq<NumstatRow>, rows: seq<FileEntry>, r: FileEntry)
    ensures MetPaths(ns, num, rows + [r]) == MetPaths(ns, num, rows) + [r.path]
  {
  }

  function SetStatus(byPath: map<string, FileEntry>, ns: NameStatusRow): map<string, FileEntry> {
    byPath[ns.path := FileEntry(ns.path, ns.oldPath, ns.status, 0, 0)]
  }

  lemma StatusStep(byPath: map<string, FileEntry>, seen: seq<NameStatusRow>, ns: NameStatusRow)
    requires Joined(byPath, seen, [], [])
    ensures Joined(SetStatus(byPath, ns), seen + [ns], [], [])
  {
    assert (seen + [ns])[..|seen|] == seen;
    forall p ensures JoinedEntry(seen + [ns], [], [], p)
                     == if p in SetStatus(byPath, ns) then Some(SetStatus(byPath, ns)[p]) else None
    {
      assert JoinedEntry(seen, [], [], p) == if p in byPath then Some(byPath[p]) else None;
    }
  }

  method AddNameStatus(rows: seq<NameStatusRow>) returns (byPath: map<string, FileEntry>, order: seq<string>)
    ensures Built(byPath, order, rows, [], [])
  {
    byPath, order := map[], [];
    for i := 0 to |rows|
      invariant Built(byPath, order, rows[..i], [], [])
    {
      var ns := rows[i];
      assert rows[..i + 1] == rows[..i] + [ns];
      MetStatus(rows[..i], ns);
      FirstSeenSnoc(MetPaths(rows[..i], [], []), ns.path);
      StatusStep(byPath, rows[..i], ns);
      if ns.path !in byPath { order := order + [ns.path]; }
      byPath := SetStatus(byPath, ns);
    }
    assert rows[..|rows|] == rows;
  }

  function SetNumstat(byPath: map<string, FileEntry>, num: NumstatRow): map<string, FileEntry> {
    byPath[num.path :=
      if num.path in byPath then byPath[num.path].(additions := num.additions, deletions := num.deletions)
      else FileEntry(num.path, None, Modified, num.additions, num.deletions)]
  }

  lemma NumstatStep(byPath: map<string, FileEntry>, ns: seq<NameStatusRow>, seen: seq<NumstatRow>, num: NumstatRow)
    requires Joined(byPath, ns, seen, [])
    ensures Joined(SetNumstat(byPath, num), ns, seen + [num], [])
  {
    assert (seen + [num])[..|seen|] == seen;
    forall p ensures JoinedEntry(ns, seen + [num], [], p)
                     == if p in SetNumstat(byPath, num) then Some(SetNumstat(byPath, num)[p]) else None
    {
      assert JoinedEntry(ns, seen, [], p) == if p in byPath then Some(byPath[p]) else None;
      assert LastNumstat(seen + [num], p) == if num.path == p then Some(num) else LastNumstat(seen, p);
    }
  }

  method AddNumstat(byPath0: map<string, FileEntry>, order0: seq<string>,
                    ghost ns: seq<NameStatusRow>, rows: seq<NumstatRow>)
    returns (byPath: map<string, FileEntry>, order: seq<string>)
    requires Built(byPath0, order0, ns, [], [])
    ensures Built(byPath, order, ns, rows, [])
  {
    byPath, order := byPath0, order0;
    for i := 0 to |rows|
      invariant Built(byPath, order, ns, rows[..i], [])
    {
      var num := rows[i];
      assert rows[..i + 1] == rows[..i] + [num];
      MetNumstat(ns, rows[..i], num);
      FirstSeenSnoc(MetPaths(ns, rows[..i], []), num.path);
      NumstatStep(byPath, ns, rows[..i], num);
      if num.path !in byPath { order := order + [num.path]; }
      byPath := SetNumstat(byPath, num);
    }
    assert rows[..|rows|] == rows;
  }

  function SetUntracked(byPath: map<string, FileEntry>, u: FileEntry): map<string, FileEntry> {
    if u.path in byPath then byPath else byPath[u.path := u]
  }

  lemma UntrackedStep(byPath: map<string, FileEntry>, ns: seq<NameStatusRow>, num: seq<NumstatRow>,
                      seen: seq<FileEntry>, u: FileEntry)
    requires Joined(byPath, ns, num, seen)
    ensures Joined(SetUntracked(byPath, u), ns, num, seen + [u])
  {
    assert (seen + [u])[..|seen|] == seen;
    forall p ensures JoinedEntry(ns, num, seen + [u], p)
                     == if p in SetUntracked(byPath, u) then Some(SetUntracked(byPath, u)[p]) else None
    {
      assert JoinedEntry(ns, num, seen, p) == if p in byPath then Some(byPath[p]) else None;
    }
  }

  method AddUntracked(byPath0: map<string, FileEntry>, order0: seq<string>,
                      ghost ns: seq<NameStatusRow>, ghost num: seq<NumstatRow>, rows: seq<FileEntry>)
    returns (byPath: map<string, FileEntry>, order: seq<string>)
    requires Built(byPath0, order0, ns, num, [])
    ensures Built(byPath, order, ns, num, rows)
  {
    byPath, order := byPath0, order0;
    for i := 0 to |rows|
      invariant Built(byPath, order, ns, num, rows[..i])
    {
      var u := rows[i];
      assert rows[..i + 1] == rows[..i] + [u];
      MetUntracked(ns, num, rows[..i], u);
      FirstSeenSnoc(MetPaths(ns, num, rows[..i]), u.path);
      UntrackedStep(byPath, ns, num, rows[..i], u);
      if u.path !in byPath {
        order := order + [u.path];
        byPath := byPath[u.path := u];
      }
    }
    assert rows[..|rows|] == rows;
  }
}
