/**
  Reading the end of a log file (apps/web-v2/lib/log-tail.ts): the backward
  chunked reader. A file is a text encoded in UTF-8; `None` is a file that cannot
  be read.
*/
module LogTail {
  import opened Collections
  import opened Text
  import opened Utf8Chunks

  // ------------------------------------------------------- the last n lines

  function DropTrailingNewline(s: string): string {
    if s != "" && s[|s| - 1] == '\n' then s[..|s| - 1] else s
  }

  function LastN<T>(s: seq<T>, n: nat): seq<T> {
    if |s| <= n then s else s[|s| - n..]
  }

  /** The whole-file answer: drop one trailing newline, split, keep the last n. */
  function NaiveLastLines(file: string, n: nat): seq<string> {
    LastN(Split(DropTrailingNewline(file), '\n'), n)
  }

  lemma {:induction false} FirstNewline(s: string) returns (k: nat)
    requires Count(s, '\n') > 0
    ensures k < |s| && s[k] == '\n' && Count(s[..k], '\n') == 0
  {
    var m := |s| - 1;
    if Count(s[..m], '\n') > 0 {
      k := FirstNewline(s[..m]);
      assert s[..m][..k] == s[..k];
    } else {
      k := m;
    }
  }

  /** With n newlines in `t`, what precedes `t` cannot show in the last n lines. */
  lemma PrefixIsInvisible(p: string, t: string, n: nat)
    requires Count(t, '\n') >= n > 0
    ensures LastN(Split(p + t, '\n'), n) == LastN(Split(t, '\n'), n)
  {
    var k := FirstNewline(t);
    Cut(t, k);
    CountAfterFirst(t[..k], t[k + 1..]);
    PrefixBeforeNewline(p, t[..k], t[k + 1..], n);
  }

  lemma PrefixBeforeNewline(p: string, t0: string, t1: string, n: nat)
    requires Count(t1, '\n') + 1 >= n
    ensures LastN(Split(p + (t0 + ['\n'] + t1), '\n'), n) == LastN(Split(t0 + ['\n'] + t1, '\n'), n)
  {
    LinesAfterNewline(t0, t1, n);
    LinesAfterNewline(p + t0, t1, n);
    assert p + (t0 + ['\n'] + t1) == (p + t0) + ['\n'] + t1;
  }

  lemma LinesAfterNewline(a: string, b: string, n: nat)
    requires Count(b, '\n') + 1 >= n
    ensures LastN(Split(a + ['\n'] + b, '\n'), n) == LastN(Split(b, '\n'), n)
  {
    SplitAt(a, b, '\n');
    SplitPieces(b, '\n');
    LastNOfSum(Split(a, '\n'), Split(b, '\n'), n);
  }

  lemma CountAfterFirst(t0: string, t1: string)
    requires Count(t0, '\n') == 0
    ensures Count(t0 + ['\n'] + t1, '\n') == Count(t1, '\n') + 1
  {
    CountAppend(t0 + ['\n'], t1, '\n');
    CountAppend(t0, ['\n'], '\n');
  }

  lemma LastNOfSum<T>(a: seq<T>, b: seq<T>, n: nat)
    requires |b| >= n
    ensures LastN(a + b, n) == LastN(b, n)
  {
    assert (a + b)[|a + b| - n..] == b[|b| - n..];
  }

  lemma SuffixSuffices(file: string, position: nat, n: nat)
    requires position <= |file| && 0 < n < Count(file[position..], '\n')
    ensures NaiveLastLines(file, n) == NaiveLastLines(file[position..], n)
  {
    var p, s := file[..position], file[position..];
    var t := DropTrailingNewline(s);
    assert file == p + s;
    assert DropTrailingNewline(file) == p + t;
    PrefixIsInvisible(p, t, n);
  }

  // --------------------------------------------- characters cut by a chunk

  /** The whole text as the reader decodes it. */
  function Seen(text: string, chunk: nat): string
    requires chunk > 0
  {
    Glyphs(text, chunk, 0, |text|)
  }

  /** Fewer than n line ends follow the character, the final one of the file aside. */
  predicate InLastLines(text: string, n: nat, i: nat)
    requires i < |text|
  {
    i < |DropTrailingNewline(text)| && Count(DropTrailingNewline(text)[i..], '\n') < n
  }

  ghost predicate LastLinesUncut(text: string, chunk: nat, n: nat) {
    forall i :: 0 <= i < |text| && InLastLines(text, n, i) ==> !CutAt(text, chunk, i)
  }

  /** Where the last n lines begin: at the start, or behind the n-th line end from the back. */
  lemma {:induction false} LinesBegin(t: string, n: nat) returns (i: nat)
    requires n > 0
    ensures i <= |t| && Count(t[i..], '\n') < n
    ensures i > 0 ==> t[i - 1] == '\n' && Count(t[i..], '\n') + 1 == n
    decreases |t|
  {
    if Count(t, '\n') < n {
      i := 0;
      assert t[0..] == t;
    } else {
      var k := FirstNewline(t);
      var rest := t[k + 1..];
      Cut(t, k);
      CountAfterFirst(t[..k], rest);
      i := LinesBegin(rest, n);
      assert t[k + 1 + i..] == rest[i..] && rest[0..] == rest;
      i := i + k + 1;
    }
  }

  /** From there on, and only from there on, fewer than n line ends follow. */
  lemma BeginsExactly(t: string, n: nat, i: nat, j: nat)
    requires i <= |t| && j < |t| && Count(t[i..], '\n') < n
    requires i > 0 ==> t[i - 1] == '\n' && Count(t[i..], '\n') + 1 == n
    ensures Count(t[j..], '\n') < n <==> i <= j
  {
    if i <= j {
      assert t[i..] == t[i..j] + t[j..];
      CountAppend(t[i..j], t[j..], '\n');
    } else {
      assert t[j..] == t[j..i - 1] + ['\n'] + t[i..];
      CountAppend(t[j..i - 1] + ['\n'], t[i..], '\n');
      CountAppend(t[j..i - 1], ['\n'], '\n');
    }
  }

  /** What follows the n-th line end from the back makes the last n lines. */
  lemma LastLinesBehind(head: string, rest: string, n: nat)
    requires Count(rest, '\n') + 1 == n
    ensures LastN(Split(head + ['\n'] + rest, '\n'), n) == Split(rest, '\n')
  {
    LinesAfterNewline(head, rest, n);
    SplitPieces(rest, '\n');
  }

  /** The last n lines of a text are the pieces of what follows that point. */
  lemma LastLinesFrom(t: string, n: nat, i: nat)
    requires i <= |t| && Count(t[i..], '\n') < n
    requires i > 0 ==> t[i - 1] == '\n' && Count(t[i..], '\n') + 1 == n
    ensures LastN(Split(t, '\n'), n) == Split(t[i..], '\n')
  {
    if i > 0 {
      assert t == t[..i - 1] + ['\n'] + t[i..];
      LastLinesBehind(t[..i - 1], t[i..], n);
    } else {
      assert t[0..] == t;
      SplitPieces(t, '\n');
    }
  }

  lemma LineEndSeen(text: string, chunk: nat, i: nat, m: nat)
    requires chunk > 0 && 0 < i <= m <= |text| && text[i - 1] == '\n'
    ensures Glyphs(text, chunk, 0, m) == Glyphs(text, chunk, 0, i - 1) + ['\n'] + Glyphs(text, chunk, i, m)
  {
    GlyphsJoin(text, chunk, 0, i - 1, m);
    GlyphLineEnds(text, chunk, i - 1);
    var rest := Glyphs(text, chunk, i, m);
    assert Glyphs(text, chunk, i - 1, m) == ['\n'] + rest;
    assert Glyphs(text, chunk, 0, i - 1) + (['\n'] + rest) == Glyphs(text, chunk, 0, i - 1) + ['\n'] + rest;
  }

  /** And so they are of the text as the reader decodes it. */
  lemma SeenLinesFrom(text: string, chunk: nat, n: nat, i: nat, m: nat)
    requires chunk > 0 && i <= m <= |text| && Count(text[i..m], '\n') < n
    requires i > 0 ==> text[i - 1] == '\n' && Count(text[i..m], '\n') + 1 == n
    ensures LastN(Split(Glyphs(text, chunk, 0, m), '\n'), n) == Split(Glyphs(text, chunk, i, m), '\n')
  {
    var seen := Glyphs(text, chunk, i, m);
    GlyphsKeepLineEnds(text, chunk, i, m);
    if i > 0 {
      LineEndSeen(text, chunk, i, m);
      LastLinesBehind(Glyphs(text, chunk, 0, i - 1), seen, n);
    } else {
      SplitPieces(seen, '\n');
    }
  }

  lemma DropSeen(text: string, chunk: nat)
    requires chunk > 0
    ensures var t := DropTrailingNewline(text);
            t <= text && DropTrailingNewline(Seen(text, chunk)) == Glyphs(text, chunk, 0, |t|)
  {
    var m := |text| - 1;
    if text != "" {
      GlyphsJoin(text, chunk, 0, m, |text|);
      assert Glyphs(text, chunk, m, |text|) == Glyph(text, chunk, m) + "" == Glyph(text, chunk, m);
      GlyphLineEnds(text, chunk, m);
      LastGlyph(text, chunk, m);
    }
  }

  lemma LastGlyph(text: string, chunk: nat, i: nat)
    requires chunk > 0 && i < |text|
    ensures var g := Glyph(text, chunk, i); g != "" && (g[|g| - 1] == '\n' <==> text[i] == '\n')
  {
    CutExactly(text, chunk, i);
    GlyphLineEnds(text, chunk, i);
    var g := Glyph(text, chunk, i);
    if |g| > 1 { assert g[|g| - 1] == REPLACEMENT; }
  }

  /** The decoded last lines are those of the file exactly when no chunk boundary cuts a character in them. */
  lemma LastLinesExactly(text: string, chunk: nat, n: nat)
    requires chunk > 0 && n > 0
    ensures NaiveLastLines(Seen(text, chunk), n) == NaiveLastLines(text, n) <==> LastLinesUncut(text, chunk, n)
  {
    var t := DropTrailingNewline(text);
    DropSeen(text, chunk);
    var i := LinesBegin(t, n);
    assert t[i..] == text[i..|t|];
    LastLinesFrom(t, n, i);
    SeenLinesFrom(text, chunk, n, i, |t|);
    SamePieces(text[i..|t|], Glyphs(text, chunk, i, |t|));
    GlyphsExactly(text, chunk, i, |t|);
    UncutFrom(text, chunk, n, i);
  }

  lemma SamePieces(a: string, b: string)
    ensures Split(a, '\n') == Split(b, '\n') <==> a == b
  {
    JoinSplit(a, '\n');
    JoinSplit(b, '\n');
  }

  lemma UncutFrom(text: string, chunk: nat, n: nat, i: nat)
    requires chunk > 0 && i <= |DropTrailingNewline(text)|
    requires var t := DropTrailingNewline(text);
             Count(t[i..], '\n') < n && (i > 0 ==> t[i - 1] == '\n' && Count(t[i..], '\n') + 1 == n)
    ensures LastLinesUncut(text, chunk, n) <==> NoneCut(text, chunk, i, |DropTrailingNewline(text)|)
  {
    var t := DropTrailingNewline(text);
    forall j | 0 <= j < |t| ensures InLastLines(text, n, j) <==> i <= j { BeginsExactly(t, n, i, j); }
  }

  // ------------------------------------------------------------- the reader

  datatype LastLines = LastLines(lines: seq<string>, endOffset: nat, missing: bool)

  /** readSync: copy `length` bytes from `position` to the front of the buffer. */
  method ReadSync(file: seq<Byte>, buffer: array<Byte>, length: nat, position: nat)
    requires length <= buffer.Length && position + length <= |file|
    modifies buffer
    ensures buffer[..length] == file[position..position + length]
  {
    for i := 0 to length
      invariant buffer[..i] == file[position..position + i]
    {
      buffer[i] := file[position + i];
    }
  }

  /** A boundary was reached where the text read so far already has the lines wanted. */
  lemma EnoughIsRead(text: string, chunk: nat, n: nat, position: nat)
    requires chunk > 0 && n > 0 && position <= |Encode(text)| && Boundary(|Encode(text)|, chunk, position)
    requires Count(Collected(Encode(text), chunk, position), '\n') > n
    ensures NaiveLastLines(Collected(Encode(text), chunk, position), n) == NaiveLastLines(Seen(text, chunk), n)
  {
    AllCollected(text, chunk);
    var before := CollectedSuffix(Encode(text), chunk, 0, position);
    assert Seen(text, chunk)[|before|..] == Collected(Encode(text), chunk, position);
    SuffixSuffices(Seen(text, chunk), |before|, n);
  }

  lemma AllCollected(text: string, chunk: nat)
    requires chunk > 0
    ensures Collected(Encode(text), chunk, 0) == Seen(text, chunk)
  {
    assert text[..0] == "";
    CollectedGlyphs(text, chunk, 0);
  }

  method ReadLastLines(file: Option<string>, n: int, readChunk: nat) returns (r: LastLines)
    requires readChunk > 0
    ensures file.None? ==> r == LastLines([], 0, true)
    ensures file.Some? && (n <= 0 || file.value == "") ==> r == LastLines([], ByteLength(file.value), false)
    ensures file.Some? && n > 0 && file.value != "" ==>
              && r == LastLines(NaiveLastLines(Seen(file.value, readChunk), n), ByteLength(file.value), false)
              && (r.lines == NaiveLastLines(file.value, n) <==> LastLinesUncut(file.value, readChunk, n))
  {
    if file.None? { return LastLines([], 0, true); }
    var content := Encode(file.value);
    EncodeLength(file.value);
    var size := |content|;
    if n <= 0 || size == 0 { return LastLines([], size, false); }

    var position := size;
    var collected := "";
    var newlineCount := 0;
    var buffer := new Byte[readChunk];
    AtEnd(size, readChunk);
    while position > 0 && newlineCount <= n
      invariant 0 <= position <= size
      invariant position > 0 ==> Boundary(size, readChunk, position)
      invariant collected == Collected(content, readChunk, position)
      invariant newlineCount == Count(collected, '\n')
    {
      var readBytes := if readChunk < position then readChunk else position;
      ChunkBefore(size, readChunk, position);
      position := position - readBytes;
      ReadSync(content, buffer, readBytes, position);
      var chunk := buffer[..readBytes];
      collected := Decode(chunk) + collected;
      newlineCount := Count(collected, '\n');
    }
    if position > 0 {
      EnoughIsRead(file.value, readChunk, n, position);
    } else {
      AllCollected(file.value, readChunk);
    }
    LastLinesExactly(file.value, readChunk, n);
    collected := DropTrailingNewline(collected);
    var allLines := Split(collected, '\n');
    r := LastLines(LastN(allLines, n), size, false);
  }
}
