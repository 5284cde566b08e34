/**
  Decoding a UTF-8 text chunk by chunk (apps/web-v2/lib/log-tail.ts): what
  `toString('utf8')` makes of a character whose bytes fall into two chunks.
  Chunks are counted from the end of the text.
*/
module Utf8Chunks {
  import opened Text

  /** One byte of an encoded text: the `index`-th of the character `of`. */
  datatype Byte = Byte(of: char, index: nat)

  const REPLACEMENT: char := '\U{FFFD}'

  function CharBytes(c: char): seq<Byte> { seq(Utf8Bytes(c), i requires 0 <= i < Utf8Bytes(c) => Byte(c, i)) }

  function Encode(text: string): seq<Byte> {
    if text == "" then [] else Encode(text[..|text| - 1]) + CharBytes(text[|text| - 1])
  }

  /** Decoding a slice of an encoded text: the beginning of a character that is not complete is one replacement
      character, and so is each of its other bytes. */
  function Decode(bytes: seq<Byte>): string {
    if bytes == [] then ""
    else if bytes[0].index > 0 then [REPLACEMENT] + Decode(bytes[1..])
    else if Utf8Bytes(bytes[0].of) <= |bytes| then [bytes[0].of] + Decode(bytes[Utf8Bytes(bytes[0].of)..])
    else [REPLACEMENT]
  }

  // ------------------------------------------------------------ byte offsets

  /** The offset of the first byte of the character at `i`. */
  function Start(text: string, i: nat): nat
    requires i <= |text|
  {
    ByteLength(text[..i])
  }

  lemma StartStep(text: string, i: nat)
    requires i < |text|
    ensures Start(text, i + 1) == Start(text, i) + Utf8Bytes(text[i])
  {
    assert text[..i + 1][..i] == text[..i];
  }

  lemma {:induction false} StartGrows(text: string, i: nat, j: nat)
    requires i <= j <= |text|
    ensures Start(text, i) + (j - i) <= Start(text, j)
    ensures Start(text, |text|) == ByteLength(text) == |Encode(text)|
  {
    EncodeLength(text);
    assert text[..|text|] == text;
    if i < j {
      StartGrows(text, i, j - 1);
      StartStep(text, j - 1);
    }
  }

  lemma {:induction false} EncodeLength(text: string)
    ensures |Encode(text)| == ByteLength(text)
  {
    if text != "" { EncodeLength(text[..|text| - 1]); }
  }

  lemma {:induction false} BytesAt(text: string, i: nat, k: nat)
    requires i < |text| && k < Utf8Bytes(text[i])
    ensures Start(text, i) + k < |Encode(text)| && Encode(text)[Start(text, i) + k] == Byte(text[i], k)
  {
    var m := |text| - 1;
    EncodeLength(text);
    EncodeLength(text[..m]);
    if i < m {
      BytesAt(text[..m], i, k);
      assert text[..m][..i] == text[..i];
    } else {
      assert text[..i] == text[..m];
    }
  }

  // ------------------------------------------------------------- boundaries

  /** The first chunk boundary after offset `p`. */
  function NextCut(size: nat, chunk: nat, p: nat): (q: nat)
    requires chunk > 0 && p < size
    ensures p < q <= size
  {
    p + 1 + (size - p - 1) % chunk
  }

  lemma OneQuotient(m: nat, a: int, r: nat, b: int, s: nat)
    requires a * m + r == b * m + s && r < m && s < m
    ensures a == b && r == s
  {
    if a < b { AtLeastOne(b - a, m); } else if b < a { AtLeastOne(a - b, m); }
  }

  lemma AtLeastOne(d: nat, m: nat)
    requires d > 0
    ensures d * m >= m
  {
  }

  lemma RemainderIs(x: int, d: int, m: nat, r: nat)
    requires m > 0 && x == d * m + r && r < m
    ensures x % m == r && x / m == d
  {
    OneQuotient(m, x / m, x % m, d, r);
  }

  lemma NextCutShared(size: nat, chunk: nat, p: nat, p': nat)
    requires chunk > 0 && p < size && p <= p' < NextCut(size, chunk, p)
    ensures NextCut(size, chunk, p') == NextCut(size, chunk, p)
  {
    var x := size - p - 1;
    RemainderIs(x - (p' - p), x / chunk, chunk, x % chunk - (p' - p));
  }

  /** Offset `p` is where a chunk starts, counting whole chunks from the end. */
  ghost predicate Boundary(size: nat, chunk: nat, p: nat) {
    exists k: nat :: p == size - k * chunk
  }

  lemma NextCutIsBoundary(size: nat, chunk: nat, p: nat)
    requires chunk > 0 && p < size
    ensures Boundary(size, chunk, NextCut(size, chunk, p))
  {
    var x := size - p - 1;
    var k: nat := x / chunk;
    assert NextCut(size, chunk, p) == size - k * chunk;
  }

  lemma NextCutIsNext(size: nat, chunk: nat, p: nat, q: nat)
    requires chunk > 0 && p < q <= size && Boundary(size, chunk, q)
    ensures NextCut(size, chunk, p) <= q
  {
    if q < NextCut(size, chunk, p) {
      NextCutShared(size, chunk, p, q);
      var k: nat :| q == size - k * chunk;
      NextCutAtBoundary(size, chunk, q - 1, k);
      if q - 1 > p { NextCutShared(size, chunk, p, q - 1); }
    }
  }

  lemma NextCutAtBoundary(size: nat, chunk: nat, p: nat, k: nat)
    requires chunk > 0 && p < size && p + 1 == size - k * chunk
    ensures NextCut(size, chunk, p) == p + 1
  {
    RemainderIs(size - p - 1, k, chunk, 0);
  }

  lemma AtEnd(size: nat, chunk: nat)
    ensures Boundary(size, chunk, size)
  {
    assert size == size - 0 * chunk;
  }

  /** The chunk that ends at a boundary begins at the boundary before, or at the start of the text. */
  lemma ChunkBefore(size: nat, chunk: nat, p: nat)
    requires chunk > 0 && 0 < p <= size && Boundary(size, chunk, p)
    ensures var q := p - (if chunk < p then chunk else p);
            NextCut(size, chunk, q) == p && (q > 0 ==> Boundary(size, chunk, q))
  {
    var q := p - (if chunk < p then chunk else p);
    var k: nat :| p == size - k * chunk;
    RemainderIs(size - q - 1, k, chunk, p - q - 1);
    assert p - chunk == size - (k + 1) * chunk;
  }

  // ---------------------------------------------------------- what is decoded

  /** The chunks from offset `p` on, each decoded by itself. */
  function Collected(bytes: seq<Byte>, chunk: nat, p: nat): string
    requires chunk > 0 && p <= |bytes|
    decreases |bytes| - p
  {
    if p == |bytes| then ""
    else
      var q := NextCut(|bytes|, chunk, p);
      Decode(bytes[p..q]) + Collected(bytes, chunk, q)
  }

  lemma {:induction false} CollectedSuffix(bytes: seq<Byte>, chunk: nat, s: nat, p: nat) returns (before: string)
    requires chunk > 0 && s <= p <= |bytes| && Boundary(|bytes|, chunk, p)
    ensures Collected(bytes, chunk, s) == before + Collected(bytes, chunk, p)
    decreases p - s
  {
    if s == p {
      before := "";
    } else {
      var q := NextCut(|bytes|, chunk, s);
      NextCutIsNext(|bytes|, chunk, s, p);
      var rest := CollectedSuffix(bytes, chunk, q, p);
      before := Decode(bytes[s..q]) + rest;
      assert Decode(bytes[s..q]) + (rest + Collected(bytes, chunk, p)) == before + Collected(bytes, chunk, p);
    }
  }

  function Repeat(c: char, n: nat): string { seq(n, _ => c) }

  /** A chunk boundary falls between two bytes of the character at `i`. */
  ghost predicate CutAt(text: string, chunk: nat, i: nat)
    requires i < |text|
  {
    exists k: nat :: Start(text, i) < ByteLength(text) - k * chunk < Start(text, i + 1)
  }

  /** What the reader makes of the character at `i`. */
  function Glyph(text: string, chunk: nat, i: nat): string
    requires chunk > 0 && i < |text|
  {
    StartGrows(text, i, |text|);
    StartStep(text, i);
    var q := NextCut(ByteLength(text), chunk, Start(text, i));
    var end := Start(text, i) + Utf8Bytes(text[i]);
    if end <= q then [text[i]] else Repeat(REPLACEMENT, 1 + end - q)
  }

  lemma CutExactly(text: string, chunk: nat, i: nat)
    requires chunk > 0 && i < |text|
    ensures CutAt(text, chunk, i) ==> |Glyph(text, chunk, i)| > 1
    ensures !CutAt(text, chunk, i) ==> Glyph(text, chunk, i) == [text[i]]
  {
    StartGrows(text, i, |text|);
    StartStep(text, i);
    StartGrows(text, i + 1, |text|);
    var size, p, end := ByteLength(text), Start(text, i), Start(text, i + 1);
    var q := NextCut(size, chunk, p);
    if CutAt(text, chunk, i) {
      var k: nat :| p < size - k * chunk < end;
      NextCutIsNext(size, chunk, p, size - k * chunk);
    } else {
      NextCutIsBoundary(size, chunk, p);
      var k: nat :| q == size - k * chunk;
    }
  }

  /** What the reader makes of the characters from `i` to before `j`. */
  function Glyphs(text: string, chunk: nat, i: nat, j: nat): string
    requires chunk > 0 && i <= j <= |text|
    decreases j - i
  {
    if i == j then "" else Glyph(text, chunk, i) + Glyphs(text, chunk, i + 1, j)
  }

  lemma DecodeStray(bytes: seq<Byte>, p: nat, q: nat)
    requires p < q <= |bytes| && bytes[p].index > 0
    ensures Decode(bytes[p..q]) == [REPLACEMENT] + Decode(bytes[p + 1..q])
  {
    assert bytes[p..q][1..] == bytes[p + 1..q];
  }

  /** A byte inside a character is decoded by itself. */
  lemma StrayByte(bytes: seq<Byte>, chunk: nat, p: nat)
    requires chunk > 0 && p < |bytes| && bytes[p].index > 0
    ensures Collected(bytes, chunk, p) == [REPLACEMENT] + Collected(bytes, chunk, p + 1)
  {
    var q := NextCut(|bytes|, chunk, p);
    DecodeStray(bytes, p, q);
    StepInChunk(bytes, chunk, p, p + 1);
  }

  /** From inside a chunk the rest of it is decoded first. */
  lemma StepInChunk(bytes: seq<Byte>, chunk: nat, p: nat, p': nat)
    requires chunk > 0 && p < |bytes| && p < p' <= NextCut(|bytes|, chunk, p)
    ensures var q := NextCut(|bytes|, chunk, p);
            Collected(bytes, chunk, p') == Decode(bytes[p'..q]) + Collected(bytes, chunk, q)
  {
    var q := NextCut(|bytes|, chunk, p);
    if p' < q { NextCutShared(|bytes|, chunk, p, p'); } else { assert bytes[p'..q] == []; }
  }

  lemma {:induction false} StrayBytes(bytes: seq<Byte>, chunk: nat, p: nat, end: nat)
    requires chunk > 0 && p <= end <= |bytes| && forall x :: p <= x < end ==> bytes[x].index > 0
    ensures Collected(bytes, chunk, p) == Repeat(REPLACEMENT, end - p) + Collected(bytes, chunk, end)
    decreases end - p
  {
    if p < end {
      StrayByte(bytes, chunk, p);
      StrayBytes(bytes, chunk, p + 1, end);
      assert Repeat(REPLACEMENT, end - p) == [REPLACEMENT] + Repeat(REPLACEMENT, end - p - 1);
    }
  }

  /** At the first byte of a character that is whole in its chunk. */
  lemma WholeChar(bytes: seq<Byte>, chunk: nat, p: nat)
    requires chunk > 0 && p < |bytes| && bytes[p].index == 0
    requires p + Utf8Bytes(bytes[p].of) <= NextCut(|bytes|, chunk, p)
    ensures Collected(bytes, chunk, p) == [bytes[p].of] + Collected(bytes, chunk, p + Utf8Bytes(bytes[p].of))
  {
    var q, end := NextCut(|bytes|, chunk, p), p + Utf8Bytes(bytes[p].of);
    assert bytes[p..q][Utf8Bytes(bytes[p].of)..] == bytes[end..q];
    assert Decode(bytes[p..q]) == [bytes[p].of] + Decode(bytes[end..q]);
    StepInChunk(bytes, chunk, p, end);
  }

  /** At the first byte of a character that ends in a later chunk. */
  lemma CutChar(bytes: seq<Byte>, chunk: nat, p: nat)
    requires chunk > 0 && p < |bytes| && bytes[p].index == 0
    requires NextCut(|bytes|, chunk, p) < p + Utf8Bytes(bytes[p].of) <= |bytes|
    requires forall x :: p < x < p + Utf8Bytes(bytes[p].of) ==> bytes[x].index > 0
    ensures var end := p + Utf8Bytes(bytes[p].of);
            Collected(bytes, chunk, p)
            == Repeat(REPLACEMENT, 1 + end - NextCut(|bytes|, chunk, p)) + Collected(bytes, chunk, end)
  {
    var q, end := NextCut(|bytes|, chunk, p), p + Utf8Bytes(bytes[p].of);
    assert bytes[p..q][0] == bytes[p];
    assert Decode(bytes[p..q]) == [REPLACEMENT];
    StrayBytes(bytes, chunk, q, end);
    assert Repeat(REPLACEMENT, 1 + end - q) == [REPLACEMENT] + Repeat(REPLACEMENT, end - q);
  }

  lemma OneChar(text: string, chunk: nat, i: nat)
    requires chunk > 0 && i < |text|
    ensures Start(text, i) <= |Encode(text)| && Start(text, i + 1) <= |Encode(text)|
    ensures Collected(Encode(text), chunk, Start(text, i))
            == Glyph(text, chunk, i) + Collected(Encode(text), chunk, Start(text, i + 1))
  {
    var bytes, p := Encode(text), Start(text, i);
    StartGrows(text, i, |text|);
    StartGrows(text, i + 1, |text|);
    StartStep(text, i);
    BytesAt(text, i, 0);
    var end := p + Utf8Bytes(text[i]);
    if end <= NextCut(|bytes|, chunk, p) {
      WholeChar(bytes, chunk, p);
    } else {
      forall x | p < x < end ensures bytes[x].index > 0 { BytesAt(text, i, x - p); }
      CutChar(bytes, chunk, p);
    }
  }

  lemma {:induction false} CollectedGlyphs(text: string, chunk: nat, i: nat)
    requires chunk > 0 && i <= |text|
    ensures Start(text, i) <= |Encode(text)|
    ensures Collected(Encode(text), chunk, Start(text, i)) == Glyphs(text, chunk, i, |text|)
    decreases |text| - i
  {
    StartGrows(text, i, |text|);
    if i < |text| {
      OneChar(text, chunk, i);
      CollectedGlyphs(text, chunk, i + 1);
    }
  }

  lemma {:induction false} GlyphsJoin(text: string, chunk: nat, i: nat, j: nat, k: nat)
    requires chunk > 0 && i <= j <= k <= |text|
    ensures Glyphs(text, chunk, i, k) == Glyphs(text, chunk, i, j) + Glyphs(text, chunk, j, k)
    decreases j - i
  {
    if i < j { GlyphsJoin(text, chunk, i + 1, j, k); }
  }

  ghost predicate NoneCut(text: string, chunk: nat, i: nat, j: nat)
    requires i <= j <= |text|
  {
    forall x :: i <= x < j ==> !CutAt(text, chunk, x)
  }

  lemma {:induction false} GlyphsWhole(text: string, chunk: nat, i: nat, j: nat)
    requires chunk > 0 && i <= j <= |text| && NoneCut(text, chunk, i, j)
    ensures Glyphs(text, chunk, i, j) == text[i..j]
    decreases j - i
  {
    if i < j {
      GlyphsWhole(text, chunk, i + 1, j);
      CutExactly(text, chunk, i);
      assert text[i..j] == [text[i]] + text[i + 1..j];
    }
  }

  lemma {:induction false} GlyphsLength(text: string, chunk: nat, i: nat, j: nat)
    requires chunk > 0 && i <= j <= |text|
    ensures |Glyphs(text, chunk, i, j)| >= j - i
    ensures |Glyphs(text, chunk, i, j)| == j - i ==> NoneCut(text, chunk, i, j)
    decreases j - i
  {
    if i < j {
      GlyphsLength(text, chunk, i + 1, j);
      CutExactly(text, chunk, i);
    }
  }

  /** The decoded text is the text exactly when no character of it was cut. */
  lemma GlyphsExactly(text: string, chunk: nat, i: nat, j: nat)
    requires chunk > 0 && i <= j <= |text|
    ensures Glyphs(text, chunk, i, j) == text[i..j] <==> NoneCut(text, chunk, i, j)
  {
    GlyphsLength(text, chunk, i, j);
    if NoneCut(text, chunk, i, j) { GlyphsWhole(text, chunk, i, j); }
  }

  lemma CountFirst(text: string, i: nat, j: nat)
    requires i < j <= |text|
    ensures Count(text[i..j], '\n') == Count([text[i]], '\n') + Count(text[i + 1..j], '\n')
  {
    assert text[i..j] == [text[i]] + text[i + 1..j];
    CountAppend([text[i]], text[i + 1..j], '\n');
  }

  /** Line ends are single bytes, and nothing else becomes one. */
  lemma {:induction false} GlyphsKeepLineEnds(text: string, chunk: nat, i: nat, j: nat)
    requires chunk > 0 && i <= j <= |text|
    ensures Count(Glyphs(text, chunk, i, j), '\n') == Count(text[i..j], '\n')
    decreases j - i
  {
    if i < j {
      GlyphsKeepLineEnds(text, chunk, i + 1, j);
      GlyphLineEnds(text, chunk, i);
      CountAppend(Glyph(text, chunk, i), Glyphs(text, chunk, i + 1, j), '\n');
      CountFirst(text, i, j);
    }
  }

  lemma GlyphLineEnds(text: string, chunk: nat, i: nat)
    requires chunk > 0 && i < |text|
    ensures Count(Glyph(text, chunk, i), '\n') == Count([text[i]], '\n')
    ensures text[i] == '\n' ==> Glyph(text, chunk, i) == ['\n']
  {
    StartGrows(text, i, |text|);
    var q := NextCut(ByteLength(text), chunk, Start(text, i));
    var end := Start(text, i) + Utf8Bytes(text[i]);
    if q < end { NoneInRepeat(1 + end - q); }
  }

  lemma {:induction false} NoneInRepeat(n: nat)
    ensures Count(Repeat(REPLACEMENT, n), '\n') == 0
  {
    if n > 0 {
      NoneInRepeat(n - 1);
      assert Repeat(REPLACEMENT, n)[..n - 1] == Repeat(REPLACEMENT, n - 1);
    }
  }
}
