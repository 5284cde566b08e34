/**
  The incremental tailer of a growing log file (apps/web-v2/lib/log-tail.ts).
  Offsets count bytes and lines are decoded text. `None` is a file that cannot
  be read.
*/
module LogTailer {
  import opened Collections
  import opened Text
  import opened Utf8Chunks

  /** A prefix of a valid UTF-8 stream: a text, and `torn` bytes of the character that comes next. */
  datatype File = File(text: string, next: char, torn: nat) {
    predicate Valid() { torn < Utf8Bytes(next) }

    function Bytes(): (bytes: seq<Byte>)
      requires Valid()
      ensures |bytes| == ByteLength(text) + torn
    {
      EncodeLength(text);
      Encode(text) + CharBytes(next)[..torn]
    }
  }

  type Utf8File = f: File | f.Valid() witness File("", 'a', 0)

  lemma BytesOfSlice(text: string, p: nat, q: nat)
    requires p <= q <= |text|
    ensures ByteLength(text[..q]) == ByteLength(text[..p]) + ByteLength(text[p..q])
  {
    assert text[..q] == text[..p] + text[p..q];
    ByteLengthAppend(text[..p], text[p..q]);
  }

  // ------------------------------------------------------------------- a poll

  function LastIndexOfNewline(s: string): (r: int)
    ensures -1 <= r < |s|
    ensures r >= 0 ==> s[r] == '\n'
    ensures forall i :: r < i < |s| ==> s[i] != '\n'
  {
    if s == "" then -1 else if s[|s| - 1] == '\n' then |s| - 1 else LastIndexOfNewline(s[..|s| - 1])
  }

  function NotEmpty(): string -> bool { (line: string) => line != "" }

  datatype TailResult = TailResult(lines: seq<string>, newOffset: nat)

  /** The complete lines of the decoded text from the offset; a partial last line is left for the next poll. */
  function TakeLines(text: string, fromOffset: nat): TailResult {
    var lastNewline := LastIndexOfNewline(text);
    if lastNewline < 0 then TailResult([], fromOffset)
    else TailResult(Filter(Split(text[..lastNewline], '\n'), NotEmpty()),
                    fromOffset + ByteLength(text[..lastNewline + 1]))
  }

  function TailFromOffset(file: Option<Utf8File>, fromOffset: nat): TailResult {
    if file.None? then TailResult([], fromOffset)
    else
      var bytes := file.value.Bytes();
      if |bytes| <= fromOffset then TailResult([], |bytes|) else TakeLines(Decode(bytes[fromOffset..]), fromOffset)
  }

  // -------------------------------------------------- what the bytes decode to

  /** The unfinished character, if any, shows as one replacement character. */
  function Ending(f: Utf8File): string { if f.torn == 0 then "" else [REPLACEMENT] }

  lemma FileByte(f: Utf8File, i: nat, k: nat)
    requires i < |f.text| && k < Utf8Bytes(f.text[i])
    ensures Start(f.text, i) + k < |f.Bytes()| && f.Bytes()[Start(f.text, i) + k] == Byte(f.text[i], k)
  {
    BytesAt(f.text, i, k);
  }

  lemma {:induction false} DecodeFrom(f: Utf8File, i: nat)
    requires i <= |f.text|
    ensures Start(f.text, i) <= |f.Bytes()| && Decode(f.Bytes()[Start(f.text, i)..]) == f.text[i..] + Ending(f)
    decreases |f.text| - i
  {
    StartGrows(f.text, i, |f.text|);
    if i < |f.text| {
      DecodeFrom(f, i + 1);
      DecodeOne(f, i);
      FirstOff(f.text, i, Ending(f));
    } else {
      DecodeEnding(f);
      assert f.text[i..] + Ending(f) == Ending(f);
    }
  }

  lemma FirstOff(text: string, i: nat, tail: string)
    requires i < |text|
    ensures text[i..] + tail == [text[i]] + (text[i + 1..] + tail)
  {
  }

  lemma DecodeOne(f: Utf8File, i: nat)
    requires i < |f.text|
    ensures Start(f.text, i) <= Start(f.text, i + 1) <= |f.Bytes()|
    ensures Decode(f.Bytes()[Start(f.text, i)..]) == [f.text[i]] + Decode(f.Bytes()[Start(f.text, i + 1)..])
  {
    StartStep(f.text, i);
    StartGrows(f.text, i + 1, |f.text|);
    FileByte(f, i, 0);
    var rest := f.Bytes()[Start(f.text, i)..];
    assert rest[0] == Byte(f.text[i], 0);
    assert rest[Utf8Bytes(f.text[i])..] == f.Bytes()[Start(f.text, i + 1)..];
  }

  lemma DecodeEnding(f: Utf8File)
    ensures Decode(f.Bytes()[ByteLength(f.text)..]) == Ending(f)
  {
    EncodeLength(f.text);
    assert f.Bytes()[ByteLength(f.text)..] == CharBytes(f.next)[..f.torn];
  }

  lemma DecodeStep(f: Utf8File, i: nat, t: nat)
    requires i < |f.text| && 0 < t < Utf8Bytes(f.text[i])
    ensures Start(f.text, i) + t < |f.Bytes()|
    ensures Decode(f.Bytes()[Start(f.text, i) + t..]) == [REPLACEMENT] + Decode(f.Bytes()[Start(f.text, i) + t + 1..])
  {
    FileByte(f, i, t);
    assert f.Bytes()[Start(f.text, i) + t..][1..] == f.Bytes()[Start(f.text, i) + t + 1..];
  }

  lemma RepeatMore(n: nat, tail: string)
    ensures [REPLACEMENT] + (Repeat(REPLACEMENT, n) + tail) == Repeat(REPLACEMENT, n + 1) + tail
    ensures Repeat(REPLACEMENT, 0) + tail == tail
  {
    assert Repeat(REPLACEMENT, n + 1) == [REPLACEMENT] + Repeat(REPLACEMENT, n);
  }

  /** From inside a character its remaining bytes decode one by one. */
  lemma {:induction false} DecodeInside(f: Utf8File, i: nat, t: nat)
    requires i < |f.text| && 0 < t <= Utf8Bytes(f.text[i])
    ensures Start(f.text, i) + t <= |f.Bytes()|
    ensures Decode(f.Bytes()[Start(f.text, i) + t..])
            == Repeat(REPLACEMENT, Utf8Bytes(f.text[i]) - t) + (f.text[i + 1..] + Ending(f))
    decreases Utf8Bytes(f.text[i]) - t
  {
    if t < Utf8Bytes(f.text[i]) {
      DecodeInside(f, i, t + 1);
      DecodeStep(f, i, t);
      RepeatMore(Utf8Bytes(f.text[i]) - t - 1, f.text[i + 1..] + Ending(f));
    } else {
      StartStep(f.text, i);
      DecodeFrom(f, i + 1);
      RepeatMore(0, f.text[i + 1..] + Ending(f));
    }
  }

  lemma {:induction false} LastNewlineOfSum(s: string, r: string)
    requires forall i :: 0 <= i < |r| ==> r[i] != '\n'
    ensures LastIndexOfNewline(s + r) == LastIndexOfNewline(s)
  {
    if r == "" {
      assert s + r == s;
    } else {
      var m := |r| - 1;
      LastNewlineOfSum(s, r[..m]);
      assert (s + r)[..|s + r| - 1] == s + r[..m];
    }
  }

  /** What follows the last newline does not matter. */
  lemma TakeLinesOfSum(s: string, r: string, offset: nat)
    requires forall i :: 0 <= i < |r| ==> r[i] != '\n'
    ensures TakeLines(s + r, offset) == TakeLines(s, offset)
  {
    LastNewlineOfSum(s, r);
    var k := LastIndexOfNewline(s);
    if k >= 0 { assert (s + r)[..k] == s[..k] && (s + r)[..k + 1] == s[..k + 1]; }
  }

  /** The non-empty newline-terminated lines of a text: every piece but the unterminated last one. */
  function TerminatedLines(s: string): seq<string> {
    var pieces := Split(s, '\n');
    Filter(pieces[..|pieces| - 1], (line: string) => |line| > 0)
  }

  lemma TerminatedPieces(s: string)
    ensures var pieces := Split(s, '\n'); TerminatedLines(s) == Filter(pieces[..|pieces| - 1], NotEmpty())
  {
    var pieces := Split(s, '\n');
    FilterCongruent(pieces[..|pieces| - 1], (line: string) => |line| > 0, NotEmpty());
  }

  lemma ButLast<T>(x: seq<T>, y: seq<T>)
    requires y != []
    ensures (x + y)[..|x + y| - 1] == x + y[..|y| - 1]
  {
  }

  lemma NoTerminatedLines()
    ensures TerminatedLines("") == []
  {
    assert Split("", '\n') == [""];
  }

  /** A newline ends everything before it: the pieces there are all terminated. */
  lemma AfterTerminator(h: string, b: string)
    ensures TerminatedLines(h + ['\n'] + b) == Filter(Split(h, '\n'), NotEmpty()) + TerminatedLines(b)
  {
    var x, y := Split(h, '\n'), Split(b, '\n');
    TerminatedPieces(h + ['\n'] + b);
    TerminatedPieces(b);
    SplitAt(h, b, '\n');
    ButLast(x, y);
    FilterAppend(x, y[..|y| - 1], NotEmpty());
  }

  lemma TerminatedLinesOfSum(a: string, b: string)
    requires a == "" || a[|a| - 1] == '\n'
    ensures TerminatedLines(a + b) == TerminatedLines(a) + TerminatedLines(b)
  {
    NoTerminatedLines();
    if a == "" {
      assert a + b == b;
    } else {
      var h := a[..|a| - 1];
      SnocLast(a);
      AfterTerminator(h, b);
      AfterTerminator(h, "");
      assert h + ['\n'] + "" == a;
    }
  }

  lemma TerminatedLinesOfRest(s: string)
    requires forall i :: 0 <= i < |s| ==> s[i] != '\n'
    ensures TerminatedLines(s) == []
  {
    SplitNone(s, '\n');
  }

  lemma PollSlices(content: string, start: nat, offset: nat, k: int)
    requires start <= offset <= |content| && -1 <= k < |content| - offset
    ensures content[start..offset] + content[offset..][..k + 1] == content[start..offset + k + 1]
    ensures content[start..offset] + content[offset..][..k + 1] + content[offset..][k + 1..] == content[start..]
  {
  }

  /** The lines before the offset, then those up to the last newline, are all the terminated lines. */
  lemma PollLines(content: string, start: nat, offset: nat, k: int)
    requires start <= offset <= |content| && k == LastIndexOfNewline(content[offset..])
    requires offset == start || content[offset - 1] == '\n'
    ensures TerminatedLines(content[start..offset]) + TerminatedLines(content[offset..][..k + 1])
         == TerminatedLines(content[start..offset + k + 1]) == TerminatedLines(content[start..])
  {
    var emitted, done, rest := content[start..offset], content[offset..][..k + 1], content[offset..][k + 1..];
    PollSlices(content, start, offset, k);
    LinesSoFar(emitted, done, rest);
  }

  lemma LinesSoFar(emitted: string, done: string, rest: string)
    requires emitted == "" || emitted[|emitted| - 1] == '\n'
    requires done == "" || done[|done| - 1] == '\n'
    requires forall i :: 0 <= i < |rest| ==> rest[i] != '\n'
    ensures TerminatedLines(emitted + done) == TerminatedLines(emitted) + TerminatedLines(done)
    ensures TerminatedLines(emitted + done + rest) == TerminatedLines(emitted + done)
  {
    TerminatedLinesOfSum(emitted, done);
    SumEnds(emitted, done);
    TerminatedLinesOfSum(emitted + done, rest);
    TerminatedLinesOfRest(rest);
  }

  lemma SumEnds(a: string, b: string)
    requires (a == "" || a[|a| - 1] == '\n') && (b == "" || b[|b| - 1] == '\n')
    ensures a + b == "" || (a + b)[|a + b| - 1] == '\n'
  {
  }

  /** The lines one poll hands over are the terminated lines of the text up to its last newline. */
  lemma PolledLines(text: string, k: nat)
    requires k < |text| && text[k] == '\n'
    ensures TerminatedLines(text[..k + 1]) == Filter(Split(text[..k], '\n'), NotEmpty())
  {
    AfterTerminator(text[..k], "");
    NoTerminatedLines();
    assert text[..k] + ['\n'] + "" == text[..k + 1];
  }

  lemma TakenBytes(text: string, p: nat, k: int)
    requires p <= |text| && -1 <= k < |text| - p
    ensures ByteLength(text[..p]) + ByteLength(text[p..][..k + 1]) == ByteLength(text[..p + k + 1])
  {
    BytesOfSlice(text, p, p + k + 1);
    assert text[p..][..k + 1] == text[p..p + k + 1];
  }

  lemma TakenLines(text: string, offset: nat)
    ensures var k := LastIndexOfNewline(text);
            TakeLines(text, offset) == TailResult(TerminatedLines(text[..k + 1]), offset + ByteLength(text[..k + 1]))
  {
    NoTerminatedLines();
    var k := LastIndexOfNewline(text);
    if k >= 0 { PolledLines(text, k); }
  }

  lemma TailTakes(f: Utf8File, p: nat)
    requires p <= |f.text|
    ensures var offset := ByteLength(f.text[..p]);
            TailFromOffset(Some(f), offset) == TakeLines(f.text[p..], offset)
  {
    StartGrows(f.text, p, |f.text|);
    DecodeFrom(f, p);
    TakeLinesOfSum(f.text[p..], Ending(f), ByteLength(f.text[..p]));
    if |f.Bytes()| <= Start(f.text, p) { assert p == |f.text|; }
  }

  /** What one poll hands over, and where it leaves the offset. */
  lemma PollTakes(f: Utf8File, p: nat)
    requires p <= |f.text|
    ensures var offset := ByteLength(f.text[..p]);
            var k := LastIndexOfNewline(f.text[p..]);
            TailFromOffset(Some(f), offset)
            == TailResult(TerminatedLines(f.text[p..][..k + 1]), ByteLength(f.text[..p + k + 1]))
  {
    TailTakes(f, p);
    TakenFrom(f.text, f.text[p..], p);
  }

  lemma TakenFrom(text: string, rest: string, p: nat)
    requires p <= |text| && rest == text[p..]
    ensures var k := LastIndexOfNewline(rest);
            TakeLines(rest, ByteLength(text[..p]))
            == TailResult(TerminatedLines(rest[..k + 1]), ByteLength(text[..p + k + 1]))
  {
    TakenLines(rest, ByteLength(text[..p]));
    TakenBytes(text, p, LastIndexOfNewline(rest));
  }

  // ----------------------------------------------------------- never behind

  /** The tailer stands `p` characters into the text: at `start` or just past a newline. It has delivered
      exactly the non-empty terminated lines between the two. */
  ghost predicate CaughtAt(text: string, start: nat, p: nat, offset: nat, delivered: seq<string>) {
    && start <= p <= |text| && offset == ByteLength(text[..p])
    && (p == start || text[p - 1] == '\n')
    && delivered == TerminatedLines(text[start..p])
  }

  ghost predicate Caught(text: string, start: nat, offset: nat, delivered: seq<string>) {
    exists p: nat :: CaughtAt(text, start, p, offset, delivered)
  }

  lemma SamePrefix(before: string, text: string, start: nat, p: nat)
    requires start <= p <= |before| && before <= text
    ensures before[start..p] == text[start..p] && before[..p] == text[..p]
    ensures p > 0 ==> before[p - 1] == text[p - 1]
  {
  }

  lemma PollAdvances(before: string, f: Utf8File, start: nat, p: nat, offset: nat, delivered: seq<string>)
    requires CaughtAt(before, start, p, offset, delivered) && before <= f.text
    ensures var k := LastIndexOfNewline(f.text[p..]);
            var all := delivered + TerminatedLines(f.text[p..][..k + 1]);
            && CaughtAt(f.text, start, p + k + 1, ByteLength(f.text[..p + k + 1]), all)
            && all == TerminatedLines(f.text[start..])
            && offset == ByteLength(f.text[..p])
  {
    SamePrefix(before, f.text, start, p);
    PollLines(f.text, start, p, LastIndexOfNewline(f.text[p..]));
  }

  /** One poll of a file that has only grown since the last one. */
  lemma PollCatchesUp(before: string, f: Utf8File, start: nat, offset: nat, delivered: seq<string>)
    requires Caught(before, start, offset, delivered) && before <= f.text
    ensures var r := TailFromOffset(Some(f), offset);
            && Caught(f.text, start, r.newOffset, delivered + r.lines)
            && delivered + r.lines == TerminatedLines(f.text[start..])
  {
    var p: nat :| CaughtAt(before, start, p, offset, delivered);
    PollAdvances(before, f, start, p, offset, delivered);
    PollTakes(f, p);
  }

  /** watchTail: the offset it keeps across polls and the lines handed to `onLines` so far. */
  class TailWatcher {
    var offset: nat
    var closed: bool
    ghost var delivered: seq<string>

    constructor (fromOffset: nat)
      ensures offset == fromOffset && !closed && delivered == []
    {
      offset, closed, delivered := fromOffset, false, [];
    }

    method Pump(file: Option<Utf8File>) returns (handed: seq<string>)
      modifies this
      ensures closed == old(closed)
      ensures closed ==> handed == [] && offset == old(offset)
      ensures !closed ==> TailResult(handed, offset) == TailFromOffset(file, old(offset))
      ensures delivered == old(delivered) + handed
      ensures forall before: string, start: nat :: !closed && file.Some? && before <= file.value.text
                && Caught(before, start, old(offset), old(delivered))
                ==> Caught(file.value.text, start, offset, delivered)
                    && delivered == TerminatedLines(file.value.text[start..])
    {
      handed := [];
      if !closed {
        var r := TailFromOffset(file, offset);
        forall before: string, start: nat
          | file.Some? && before <= file.value.text && Caught(before, start, offset, delivered)
          ensures Caught(file.value.text, start, r.newOffset, delivered + r.lines)
                  && delivered + r.lines == TerminatedLines(file.value.text[start..])
        {
          PollCatchesUp(before, file.value, start, offset, delivered);
        }
        offset := r.newOffset;
        handed := r.lines;
      }
      delivered := delivered + handed;
    }

    method Close()
      modifies this`closed
      ensures closed
    {
      closed := true;
    }
  }

  // ------------------------------------------------- over a whole run of polls

  /** The text last seen, starting from `initial`. */
  function LatestText(initial: string, polls: seq<Option<Utf8File>>): string {
    if polls == [] then initial
    else
      var earlier := LatestText(initial, polls[..|polls| - 1]);
      if polls[|polls| - 1].Some? then polls[|polls| - 1].value.text else earlier
  }

  ghost predicate Growing(initial: string, polls: seq<Option<Utf8File>>) {
    polls != [] ==>
      && Growing(initial, polls[..|polls| - 1])
      && LatestText(initial, polls[..|polls| - 1]) <= LatestText(initial, polls)
  }

  ghost predicate Seen(polls: seq<Option<Utf8File>>) {
    exists i :: 0 <= i < |polls| && polls[i].Some?
  }

  /** The result of polling each of `polls` in turn. */
  function Poll(offset: nat, polls: seq<Option<Utf8File>>): TailResult {
    if polls == [] then TailResult([], offset)
    else
      var before := Poll(offset, polls[..|polls| - 1]);
      var next := TailFromOffset(polls[|polls| - 1], before.newOffset);
      TailResult(before.lines + next.lines, next.newOffset)
  }

  /** Over any sequence of polls of a file that only grows, unreadable moments and half-written characters
      included: the lines handed over are the non-empty terminated lines after the start, none lost, split
      or repeated, and the offset is the start or just past a newline, never inside a character. */
  lemma {:induction false} TailDeliversEveryLineOnce(initial: string, start: nat, polls: seq<Option<Utf8File>>)
    requires start <= |initial| && Growing(initial, polls)
    ensures var text, r := LatestText(initial, polls), Poll(ByteLength(initial[..start]), polls);
            && Caught(text, start, r.newOffset, r.lines)
            && (Seen(polls) ==> r.lines == TerminatedLines(text[start..]))
  {
    var offset := ByteLength(initial[..start]);
    if polls == [] {
      NothingYet(initial, start);
    } else {
      var m := |polls| - 1;
      TailDeliversEveryLineOnce(initial, start, polls[..m]);
      var before := Poll(offset, polls[..m]);
      if polls[m].Some? {
        PollCatchesUp(LatestText(initial, polls[..m]), polls[m].value, start, before.newOffset, before.lines);
      } else {
        assert before.lines + [] == before.lines;
        SeenBefore(polls, m);
      }
    }
  }

  /** A file that is no longer than the offset, as after a rotation: nothing is handed over, and from its end on every
      later line is, once. */
  lemma RotationStartsOver(f: Utf8File, offset: nat, polls: seq<Option<Utf8File>>)
    requires |f.Bytes()| <= offset && f.torn == 0 && Growing(f.text, polls)
    ensures var r := TailFromOffset(Some(f), offset);
            var q, text := Poll(r.newOffset, polls), LatestText(f.text, polls);
            && r.lines == [] && r.newOffset == |f.Bytes()|
            && Caught(text, |f.text|, q.newOffset, q.lines)
            && (Seen(polls) ==> q.lines == TerminatedLines(text[|f.text|..]))
  {
    assert f.text[..|f.text|] == f.text;
    PollTakes(f, |f.text|);
    TailDeliversEveryLineOnce(f.text, |f.text|, polls);
  }

  lemma NothingYet(initial: string, start: nat)
    requires start <= |initial|
    ensures Caught(initial, start, ByteLength(initial[..start]), [])
  {
    NoTerminatedLines();
    assert initial[start..start] == "";
    assert CaughtAt(initial, start, start, ByteLength(initial[..start]), []);
  }

  lemma SeenBefore(polls: seq<Option<Utf8File>>, m: nat)
    requires m == |polls| - 1 && polls[m].None?
    ensures Seen(polls) ==> Seen(polls[..m])
  {
    if i :| 0 <= i < |polls| && polls[i].Some? { assert polls[..m][i].Some?; }
  }

  // ------------------------------------------- a start inside a character

  /** Bytes of the unfinished character that are still to come. */
  function Missing(f: Utf8File): nat { if f.torn == 0 then 0 else Utf8Bytes(f.next) - f.torn }

  /** The file has grown since it was `initial`. */
  predicate GrownFrom(initial: Utf8File, f: Utf8File) {
    && initial.text <= f.text
    && (initial.torn > 0 && |initial.text| < |f.text| ==> f.text[|initial.text|] == initial.next)
  }

  /** The page reader hands its byte size over as the start. At the first poll that finds a new line end the offset
      goes two bytes too far for every byte that was missing, so it stands just past the newline exactly when the file
      did not end inside a character. */
  lemma HandOverExactly(initial: Utf8File, f: Utf8File)
    requires GrownFrom(initial, f) && LastIndexOfNewline(f.text[|initial.text|..]) >= 0
    ensures var k := |initial.text| + LastIndexOfNewline(f.text[|initial.text|..]) + 1;
            var r := TailFromOffset(Some(f), |initial.Bytes()|);
            && r.newOffset == ByteLength(f.text[..k]) + 2 * Missing(initial)
            && (r.newOffset == ByteLength(f.text[..k]) <==> initial.torn == 0)
  {
    var i := |initial.text|;
    assert f.text[..i] == initial.text;
    if initial.torn == 0 {
      PollTakes(f, i);
    } else {
      TornHandOver(initial, f);
    }
  }

  lemma {:induction false} BytesOfRepeat(n: nat)
    ensures ByteLength(Repeat(REPLACEMENT, n)) == 3 * n
  {
    if n > 0 {
      BytesOfRepeat(n - 1);
      assert Repeat(REPLACEMENT, n)[..n - 1] == Repeat(REPLACEMENT, n - 1);
    }
  }

  lemma TornHandOver(initial: Utf8File, f: Utf8File)
    requires GrownFrom(initial, f) && initial.torn > 0 && f.text[..|initial.text|] == initial.text
    requires LastIndexOfNewline(f.text[|initial.text|..]) >= 0
    ensures var k := |initial.text| + LastIndexOfNewline(f.text[|initial.text|..]) + 1;
            TailFromOffset(Some(f), |initial.Bytes()|).newOffset == ByteLength(f.text[..k]) + 2 * Missing(initial)
  {
    TornGrows(initial, f);
    AfterFirst(f.text, |initial.text|);
    TornPoll(f, |initial.text|, initial.torn, Missing(initial));
  }

  lemma TornPoll(f: Utf8File, i: nat, torn: nat, n: nat)
    requires i < |f.text| && torn > 0 && n > 0 && torn + n == Utf8Bytes(f.text[i])
    requires LastIndexOfNewline(f.text[i + 1..]) >= 0
    ensures TailFromOffset(Some(f), Start(f.text, i) + torn).newOffset
            == ByteLength(f.text[..i + 1 + LastIndexOfNewline(f.text[i + 1..]) + 1]) + 2 * n
  {
    var rest, strays := f.text[i + 1..], Repeat(REPLACEMENT, n);
    TornTakes(f, i, torn, n, rest, strays);
    TornOffset(f.text, i, torn, n, rest, strays);
  }

  /** The file has since got the whole of the unfinished character. */
  lemma TornGrows(initial: Utf8File, f: Utf8File)
    requires GrownFrom(initial, f) && initial.torn > 0 && LastIndexOfNewline(f.text[|initial.text|..]) >= 0
    ensures var i := |initial.text|;
            && i < |f.text| && f.text[i] != '\n' && |initial.Bytes()| == Start(f.text, i) + initial.torn
            && Missing(initial) > 0 && initial.torn + Missing(initial) == Utf8Bytes(f.text[i])
  {
    assert f.text[..|initial.text|] == initial.text;
  }

  lemma AfterFirst(text: string, i: nat)
    requires i < |text| && text[i] != '\n'
    ensures LastIndexOfNewline(text[i..])
            == if LastIndexOfNewline(text[i + 1..]) < 0 then -1 else 1 + LastIndexOfNewline(text[i + 1..])
  {
    assert text[i..] == [text[i]] + text[i + 1..];
    LastNewlineBehind([text[i]], text[i + 1..]);
  }

  lemma StrayNewlines(n: nat, rest: string)
    requires LastIndexOfNewline(rest) >= 0
    ensures LastIndexOfNewline(Repeat(REPLACEMENT, n) + rest) == n + LastIndexOfNewline(rest)
  {
    LastNewlineBehind(Repeat(REPLACEMENT, n), rest);
  }

  lemma TornOffset(text: string, i: nat, torn: nat, n: nat, rest: string, strays: string)
    requires i < |text| && torn + n == Utf8Bytes(text[i]) && rest == text[i + 1..] && LastIndexOfNewline(rest) >= 0
    requires strays == Repeat(REPLACEMENT, n)
    ensures TakeLines(strays + rest, Start(text, i) + torn).newOffset
            == ByteLength(text[..i + 1 + LastIndexOfNewline(rest) + 1]) + 2 * n
  {
    StrayNewlines(n, rest);
    TakenOffset(strays + rest, Start(text, i) + torn);
    StrayBytesCount(text, i, rest, strays, LastIndexOfNewline(rest), n, Start(text, i) + torn, torn);
  }

  lemma TakenOffset(text: string, offset: nat)
    requires LastIndexOfNewline(text) >= 0
    ensures TakeLines(text, offset).newOffset == offset + ByteLength(text[..LastIndexOfNewline(text) + 1])
  {
  }

  lemma TornTakes(f: Utf8File, i: nat, torn: nat, n: nat, rest: string, strays: string)
    requires i < |f.text| && 0 < torn && torn + n == Utf8Bytes(f.text[i]) && n > 0
    requires rest == f.text[i + 1..] && strays == Repeat(REPLACEMENT, n)
    ensures var offset := Start(f.text, i) + torn;
            TailFromOffset(Some(f), offset) == TakeLines(strays + rest, offset)
  {
    var offset := Start(f.text, i) + torn;
    FileByte(f, i, torn);
    DecodeInside(f, i, torn);
    assert strays + (rest + Ending(f)) == (strays + rest) + Ending(f);
    TakeLinesOfSum(strays + rest, Ending(f), offset);
  }

  lemma {:induction false} LastNewlineBehind(a: string, b: string)
    requires forall i :: 0 <= i < |a| ==> a[i] != '\n'
    ensures LastIndexOfNewline(a + b) == if LastIndexOfNewline(b) < 0 then -1 else |a| + LastIndexOfNewline(b)
  {
    if b == "" {
      LastNewlineOfSum("", a);
      assert a + b == "" + a;
    } else {
      var m := |b| - 1;
      LastNewlineBehind(a, b[..m]);
      assert (a + b)[..|a + b| - 1] == a + b[..m];
    }
  }

  /** The replacement characters are three bytes long each, the bytes they stand for one. */
  lemma StrayBytesCount(text: string, i: nat, rest: string, strays: string, j: nat, n: nat, offset: nat, torn: nat)
    requires i < |text| && rest == text[i + 1..] && j < |rest| && strays == Repeat(REPLACEMENT, n)
    requires offset == ByteLength(text[..i]) + torn && torn + n == Utf8Bytes(text[i])
    ensures offset + ByteLength((strays + rest)[..n + j + 1]) == ByteLength(text[..i + 1 + j + 1]) + 2 * n
  {
    assert (strays + rest)[..n + j + 1] == strays + rest[..j + 1];
    ByteLengthAppend(strays, rest[..j + 1]);
    BytesOfRepeat(n);
    StartStep(text, i);
    assert text[..i + 1 + j + 1] == text[..i + 1] + rest[..j + 1];
    ByteLengthAppend(text[..i + 1], rest[..j + 1]);
  }
}
