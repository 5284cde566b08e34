/**
  The generated section of a Work Pack's sync notes
  (packages/lifecycle/src/work-pack-session-update.ts): one marker-delimited
  block that each session's overview replaces.
*/
module WorkPackSection {
  import opened Text

  /** A start and an end marker. */
  datatype Markers = Markers(start: string, end: string) {
    predicate Valid() {
      && Marker(start) && Marker(end)
      && |end| <= |start| && start[..|end|] != end
    }
  }

  /** `<` opens a marker, `>` closes it, neither is anywhere else in it, and it is on one line. */
  predicate Marker(m: string) {
    |m| > 1 && forall i :: 0 <= i < |m| ==>
      m[i] != '\n' && ((m[i] == '<') <==> (i == 0)) && ((m[i] == '>') <==> (i == |m| - 1))
  }

  // Split so that `SectionNameIsPlain` can go piece by piece: a fact about every character of one long literal is
  // too much for the verifier at once.
  const SECTION_NAME := "!-- coodra:work-" + "pack-session-" + "overview:"
  const SESSION_OVERVIEW := Markers("<" + (SECTION_NAME + "start --") + ">", "<" + (SECTION_NAME + "end --") + ">")

  function ReplaceGeneratedSection(existing: string, generated: string): string {
    Replace(SESSION_OVERVIEW, existing, generated)
  }

  function Block(k: Markers, generated: string): string {
    k.start + "\n" + Trim(generated) + "\n" + k.end
  }

  function Replace(k: Markers, existing: string, generated: string): string {
    var start := IndexOf(existing, k.start);
    var end := IndexOf(existing, k.end);
    if start >= 0 && end > start then
      TrimEnd(existing[..start]) + "\n\n" + Block(k, generated) + "\n" + TrimStart(existing[end + |k.end|..])
    else if |Trim(existing)| > 0 then TrimEnd(existing) + "\n\n" + Block(k, generated) + "\n"
    else Block(k, generated) + "\n"
  }

  /** The guard of the replacing branch: a start marker with the first end marker after it. */
  predicate HasSection(k: Markers, text: string) {
    var start := IndexOf(text, k.start);
    start >= 0 && IndexOf(text, k.end) > start
  }

  ghost predicate MarkerFree(k: Markers, text: string) {
    Free(text, k.start) && Free(text, k.end)
  }

  /** What a reader finds between the markers, before them and after them. */
  function Before(k: Markers, text: string): string
    requires HasSection(k, text)
  {
    text[..IndexOf(text, k.start)]
  }

  function Inside(k: Markers, text: string): string
    requires k.Valid() && HasSection(k, text)
  {
    MarkersApart(k, text);
    text[IndexOf(text, k.start) + |k.start|..IndexOf(text, k.end)]
  }

  function After(k: Markers, text: string): string
    requires HasSection(k, text)
  {
    text[IndexOf(text, k.end) + |k.end|..]
  }

  // ------------------------------------------------------------- markers

  lemma MarkerFromText(text: string)
    requires '<' !in text && '>' !in text && '\n' !in text
    ensures Marker("<" + text + ">")
  {
    var m := "<" + text + ">";
    forall i | 0 <= i < |m|
      ensures m[i] != '\n' && ((m[i] == '<') <==> (i == 0)) && ((m[i] == '>') <==> (i == |m| - 1))
    {
      if 0 < i < |m| - 1 { assert m[i] == text[i - 1] && text[i - 1] in text; }
    }
  }

  predicate Plain(s: string) {
    '<' !in s && '>' !in s && '\n' !in s
  }

  lemma PlainSum(a: string, b: string)
    requires Plain(a) && Plain(b)
    ensures Plain(a + b)
  {
  }

  lemma SectionNameIsPlain()
    ensures Plain(SECTION_NAME)
  {
    PlainSum("!-- coodra:work-", "pack-session-");
    PlainSum("!-- coodra:work-" + "pack-session-", "overview:");
  }

  lemma MarkerOf(name: string, suffix: string)
    requires '<' !in name && '>' !in name && '\n' !in name
    requires '<' !in suffix && '>' !in suffix && '\n' !in suffix
    ensures Marker("<" + (name + suffix) + ">")
  {
    MarkerFromText(name + suffix);
  }

  lemma MarkersDiffer(name: string, a: string, b: string)
    requires |a| > 0 && |b| > 0 && |a| >= |b| && a[0] != b[0]
    ensures var s, e := "<" + (name + a) + ">", "<" + (name + b) + ">"; |e| <= |s| && s[..|e|] != e
  {
    var s, e := "<" + (name + a) + ">", "<" + (name + b) + ">";
    assert s[..|e|][1 + |name|] == a[0] && e[1 + |name|] == b[0];
  }

  lemma SessionOverviewValid()
    ensures SESSION_OVERVIEW.Valid()
  {
    SectionNameIsPlain();
    var name, a, b := SECTION_NAME, "start --", "end --";
    MarkerOf(name, a);
    MarkerOf(name, b);
    MarkersDiffer(name, a, b);
  }

  lemma OccursChar(s: string, m: string, i: int, j: int)
    requires OccursAt(s, m, i) && i <= j < i + |m|
    ensures s[j] == m[j - i]
  {
    assert s[j] == s[i..i + |m|][j - i];
  }

  lemma OccurrenceChars(s: string, m: string, i: int, j: int)
    requires Marker(m) && OccursAt(s, m, i) && i <= j < i + |m|
    ensures s[j] == '<' <==> j == i
    ensures s[j] == '>' <==> j == i + |m| - 1
    ensures s[j] != '\n'
  {
    OccursChar(s, m, i, j);
  }

  lemma OccursLeft(a: string, b: string, m: string, i: int)
    requires i + |m| <= |a|
    ensures OccursAt(a + b, m, i) <==> OccursAt(a, m, i)
  {
    if 0 <= i { assert (a + b)[i..i + |m|] == a[i..i + |m|]; }
  }

  lemma OccursRight(a: string, b: string, m: string, i: int)
    requires i >= |a|
    ensures OccursAt(a + b, m, i) <==> OccursAt(b, m, i - |a|)
  {
    if i + |m| <= |a + b| { assert (a + b)[i..i + |m|] == b[i - |a|..i - |a| + |m|]; }
  }

  /** No occurrence crosses into a part that starts with `<`. */
  lemma FreeBefore(a: string, b: string, m: string, i: int)
    requires Marker(m) && Free(a, m)
    requires b != "" && b[0] == '<'
    requires OccursAt(a + b, m, i)
    ensures i >= |a| && OccursAt(b, m, i - |a|)
  {
    if i + |m| <= |a| {
      OccursLeft(a, b, m, i);
    } else if i < |a| {
      OccurrenceChars(a + b, m, i, |a|);
    } else {
      OccursRight(a, b, m, i);
    }
  }

  lemma StartBeforeEnd(k: Markers, rest: string, i: int)
    requires k.Valid()
    requires OccursAt(k.start + rest, k.end, i)
    ensures i >= |k.start| && OccursAt(rest, k.end, i - |k.start|)
  {
    var t := k.start + rest;
    assert t[0..|k.end|] == k.start[..|k.end|];
    if 0 < i < |k.start| {
      OccurrenceChars(t, k.end, i, i);
      assert false;
    }
    OccursRight(k.start, rest, k.end, i);
  }

  /** In any text with a section the two first markers do not overlap. */
  lemma MarkersApart(k: Markers, text: string)
    requires k.Valid()
    requires HasSection(k, text)
    ensures IndexOf(text, k.start) + |k.start| <= IndexOf(text, k.end)
    ensures IndexOf(text, k.end) + |k.end| <= |text|
  {
    var s, e := IndexOf(text, k.start), IndexOf(text, k.end);
    if e < s + |k.start| {
      OccurrenceChars(text, k.start, s, e);
      OccurrenceChars(text, k.end, e, e);
    }
  }

  /** The text before the first marker holds neither. */
  lemma BeforeIsMarkerFree(k: Markers, text: string)
    requires k.Valid()
    requires HasSection(k, text)
    ensures MarkerFree(k, Before(k, text))
  {
    var p, q := Before(k, text), text[IndexOf(text, k.start)..];
    assert text == p + q;
    forall i ensures !OccursAt(p, k.start, i) && !OccursAt(p, k.end, i) {
      if i + |k.start| <= |p| { OccursLeft(p, q, k.start, i); }
      if i + |k.end| <= |p| { OccursLeft(p, q, k.end, i); }
    }
  }

  function Wrap(k: Markers, p: string, m: string, q: string): string {
    p + (k.start + (m + (k.end + q)))
  }

  lemma Assoc(a: string, b: string, c: string)
    ensures (a + b) + c == a + (b + c)
  {
  }

  lemma WrapLeft(k: Markers, p: string, m: string, q: string)
    ensures Wrap(k, p, m, q) == (p + k.start) + (m + (k.end + q))
    ensures Wrap(k, p, m, q) == ((p + k.start) + m) + (k.end + q)
  {
    Assoc(p, k.start, m + (k.end + q));
    Assoc(p + k.start, m, k.end + q);
  }

  lemma SliceOfSum(a: string, b: string, c: string)
    ensures (a + (b + c))[|a|..|a| + |b|] == b && (a + (b + c))[..|a|] == a && (a + (b + c))[|a| + |b|..] == c
  {
  }

  lemma SectionStart(k: Markers, p: string, m: string, q: string)
    requires k.Valid() && Free(p, k.start)
    ensures IndexOf(Wrap(k, p, m, q), k.start) == |p|
  {
    var b := k.start + (m + (k.end + q));
    SliceOfSum(p, k.start, m + (k.end + q));
    assert OccursAt(p + b, k.start, |p|);
    var i := IndexOf(p + b, k.start);
    FreeBefore(p, b, k.start, i);
  }

  lemma SectionEnd(k: Markers, p: string, m: string, q: string)
    requires k.Valid() && Free(p, k.end) && Free(m, k.end)
    ensures IndexOf(Wrap(k, p, m, q), k.end) == |p| + |k.start| + |m|
  {
    var t := Wrap(k, p, m, q);
    var e := |p| + |k.start| + |m|;
    assert OccursAt(t, k.end, e) by {
      WrapLeft(k, p, m, q);
      SliceOfSum((p + k.start) + m, k.end, q);
    }
    NoEarlierEnd(k, p, m, q, IndexOf(t, k.end));
  }

  lemma NoEarlierEnd(k: Markers, p: string, m: string, q: string, i: int)
    requires k.Valid() && Free(p, k.end) && Free(m, k.end)
    requires OccursAt(Wrap(k, p, m, q), k.end, i)
    ensures i >= |p| + |k.start| + |m|
  {
    var r := k.end + q;
    assert k.start[0] == '<' && r[0] == '<';
    FreeBefore(p, k.start + (m + r), k.end, i);
    StartBeforeEnd(k, m + r, i - |p|);
    FreeBefore(m, r, k.end, i - |p| - |k.start|);
  }

  lemma WrapSlices(k: Markers, p: string, m: string, q: string)
    ensures var t, s := Wrap(k, p, m, q), |p| + |k.start|;
            t[..|p|] == p && t[s..s + |m|] == m && t[s + |m| + |k.end|..] == q
  {
    WrapLeft(k, p, m, q);
    SliceOfSum(p, k.start, m + (k.end + q));
    SliceOfSum(p + k.start, m, k.end + q);
    SliceOfSum((p + k.start) + m, k.end, q);
  }

  /** The parts of `p START m END q` are what a reader finds. */
  lemma ReadWrapped(k: Markers, p: string, m: string, q: string)
    requires k.Valid() && MarkerFree(k, p) && Free(m, k.end)
    ensures var t := Wrap(k, p, m, q);
            HasSection(k, t) && Before(k, t) == p && Inside(k, t) == m && After(k, t) == q
  {
    SectionStart(k, p, m, q);
    SectionEnd(k, p, m, q);
    WrapSlices(k, p, m, q);
  }

  lemma SliceOfSlice(s: string, lo: nat, hi: nat, i: nat, j: nat)
    requires lo <= hi <= |s| && i <= j <= hi - lo
    ensures s[lo..hi][i..j] == s[lo + i..lo + j]
  {
    var mid := s[lo..hi];
    forall t | 0 <= t < j - i ensures mid[i..j][t] == s[lo + i..lo + j][t] {
      assert mid[i..j][t] == mid[i + t] == s[lo + i + t];
    }
  }

  lemma FreePart(s: string, m: string, lo: nat, hi: nat)
    requires Free(s, m) && lo <= hi <= |s|
    ensures Free(s[lo..hi], m)
  {
    forall i ensures !OccursAt(s[lo..hi], m, i) {
      if 0 <= i && i + |m| <= hi - lo {
        SliceOfSlice(s, lo, hi, i, i + |m|);
        assert !OccursAt(s, m, lo + i);
      }
    }
  }

  /** A seam no marker can cross. */
  predicate Seam(a: string, b: string) {
    a == "" || b == "" || a[|a| - 1] in {'\n', '>'} || b[0] in {'\n', '<'}
  }

  lemma FreeConcat(a: string, b: string, m: string)
    requires Marker(m) && Free(a, m) && Free(b, m) && Seam(a, b)
    ensures Free(a + b, m)
  {
    if a != "" && b != "" {
      assert (a + b)[|a| - 1] == a[|a| - 1] && (a + b)[|a|] == b[0];
    }
    forall i ensures !OccursAt(a + b, m, i) {
      if OccursAt(a + b, m, i) {
        if i + |m| <= |a| {
          OccursLeft(a, b, m, i);
        } else if i >= |a| {
          OccursRight(a, b, m, i);
        } else {
          OccurrenceChars(a + b, m, i, |a| - 1);
          OccurrenceChars(a + b, m, i, |a|);
          assert false;
        }
      }
    }
  }

  /** A newline on either side keeps a text free of markers. */
  lemma FreeInLines(s: string, m: string)
    requires Marker(m) && Free(s, m)
    ensures Free("\n" + s + "\n", m) && Free(s + "\n\n", m)
  {
    FreeConcat("\n", s, m);
    FreeConcat("\n" + s, "\n", m);
    FreeConcat(s, "\n", m);
    FreeConcat(s + "\n", "\n", m);
    assert s + "\n" + "\n" == s + "\n\n";
  }

  lemma TrimEndIsFree(m: string, g: string)
    requires Free(g, m)
    ensures Free(TrimEnd(g), m)
  {
    TrimEndIdempotent(g);
    FreePart(g, m, 0, |TrimEnd(g)|);
    assert TrimEnd(g) == g[0..|TrimEnd(g)|];
  }

  lemma TrimStartIsFree(m: string, g: string)
    requires Free(g, m)
    ensures Free(TrimStart(g), m)
  {
    TrimStartIdempotent(g);
    var k: nat :| k <= |g| && TrimStart(g) == g[k..];
    FreePart(g, m, k, |g|);
    assert g[k..] == g[k..|g|];
  }

  lemma TrimIsMarkerFree(k: Markers, g: string)
    requires MarkerFree(k, g)
    ensures MarkerFree(k, TrimEnd(g)) && MarkerFree(k, TrimStart(g)) && MarkerFree(k, Trim(g))
  {
    forall m | m in {k.start, k.end}
      ensures Free(TrimEnd(g), m) && Free(TrimStart(g), m) && Free(Trim(g), m)
    {
      TrimEndIsFree(m, g);
      TrimStartIsFree(m, g);
      TrimStartIsFree(m, TrimEnd(g));
    }
  }

  // ------------------------------------------------------------- results

  function Assemble(k: Markers, before: string, generated: string, after: string): string {
    before + "\n\n" + Block(k, generated) + "\n" + after
  }

  lemma BlockWraps(k: Markers, before: string, g: string, after: string)
    ensures (before + Block(k, g)) + "\n" + after == Wrap(k, before, "\n" + Trim(g) + "\n", "\n" + after)
  {
    var m, q := "\n" + Trim(g) + "\n", "\n" + after;
    assert k.start + "\n" + Trim(g) + "\n" == k.start + m;
    Assoc(before + Block(k, g), "\n", after);
    Assoc(before, (k.start + m) + k.end, q);
    Assoc(k.start + m, k.end, q);
    Assoc(k.start, m, k.end + q);
  }

  /** Reading an assembled text back: the section and its two sides. */
  lemma ReadAssembled(k: Markers, before: string, g: string, after: string)
    requires k.Valid()
    requires MarkerFree(k, before) && Free(Trim(g), k.end)
    ensures var t := Assemble(k, before, g, after);
            HasSection(k, t) && Before(k, t) == before + "\n\n" && Inside(k, t) == "\n" + Trim(g) + "\n"
            && After(k, t) == "\n" + after
  {
    var p, m, q := before + "\n\n", "\n" + Trim(g) + "\n", "\n" + after;
    FreeInLines(before, k.start);
    FreeInLines(before, k.end);
    FreeInLines(Trim(g), k.end);
    ReadWrapped(k, p, m, q);
    BlockWraps(k, p, g, after);
  }

  /** The text the section sits in: what is before and after it, to be kept. */
  ghost predicate Hosts(k: Markers, x: string) {
    HasSection(k, x) || (MarkerFree(k, x) && Trim(x) != "")
  }

  function KeptBefore(k: Markers, x: string): string {
    TrimEnd(if HasSection(k, x) then Before(k, x) else x)
  }

  function KeptAfter(k: Markers, x: string): string {
    if HasSection(k, x) then TrimStart(After(k, x)) else ""
  }

  lemma ReplaceAssembles(k: Markers, x: string, g: string)
    requires k.Valid()
    requires Hosts(k, x)
    ensures Replace(k, x, g) == Assemble(k, KeptBefore(k, x), g, KeptAfter(k, x))
    ensures MarkerFree(k, KeptBefore(k, x))
  {
    if HasSection(k, x) {
      BeforeIsMarkerFree(k, x);
      TrimIsMarkerFree(k, Before(k, x));
    } else {
      TrimIsMarkerFree(k, x);
    }
  }

  /** One update: the new section is what a reader finds, and the text on either side of the
      old one survives up to the white space next to it. */
  lemma UpdateReadsBack(k: Markers, x: string, g: string)
    requires k.Valid()
    requires Hosts(k, x) && Free(Trim(g), k.end)
    ensures var y := Replace(k, x, g);
            && HasSection(k, y)
            && Inside(k, y) == "\n" + Trim(g) + "\n"
            && TrimEnd(Before(k, y)) == KeptBefore(k, x) && Before(k, y) == KeptBefore(k, x) + "\n\n"
            && TrimStart(After(k, y)) == KeptAfter(k, x) && After(k, y) == "\n" + KeptAfter(k, x)
  {
    ReplaceAssembles(k, x, g);
    ReadAssembled(k, KeptBefore(k, x), g, KeptAfter(k, x));
    var h := if HasSection(k, x) then Before(k, x) else x;
    TrimEndOfSpaces(KeptBefore(k, x), "\n\n");
    TrimEndIdempotent(h);
    var y := Replace(k, x, g);
    assert After(k, y)[1..] == KeptAfter(k, x);
    if HasSection(k, x) { TrimStartIdempotent(After(k, x)); }
  }

  lemma LastWriterWins(k: Markers, x: string, g1: string, g2: string)
    requires k.Valid()
    requires Hosts(k, x) && Free(Trim(g1), k.end)
    ensures Replace(k, Replace(k, x, g1), g2) == Replace(k, x, g2)
  {
    UpdateReadsBack(k, x, g1);
    ReplaceAssembles(k, x, g2);
    ReplaceAssembles(k, Replace(k, x, g1), g2);
  }

  /** Blank text, a stray start marker, or a stray or early end marker: the second update differs. */
  lemma StrayMarkersBreakReplacement(k: Markers, x: string, g1: string, g2: string)
    requires k.Valid()
    requires !Hosts(k, x)
    ensures Replace(k, Replace(k, x, g1), g2) != Replace(k, x, g2)
  {
    if MarkerFree(k, x) {
      BlankHost(k, x, g1, g2);
    } else if Free(x, k.end) {
      StrayStart(k, x, g1, g2);
    } else {
      StrayEnd(k, x, g1, g2);
    }
  }

  lemma BlankWraps(k: Markers, x: string, g: string)
    requires MarkerFree(k, x) && Trim(x) == ""
    ensures Replace(k, x, g) == Wrap(k, "", "\n" + Trim(g) + "\n", "\n")
  {
    BlockWraps(k, "", g, "");
    assert "" + Block(k, g) == Block(k, g) && "\n" + "" == "\n";
    assert Block(k, g) + "\n" + "" == Block(k, g) + "\n";
  }

  /** The first update of blank notes leaves the section alone. */
  lemma FirstUpdateReadsBack(k: Markers, x: string, g: string)
    requires k.Valid() && Blank(x) && Free(Trim(g), k.end)
    ensures var y := Replace(k, x, g);
            && HasSection(k, y) && Before(k, y) == "" && Inside(k, y) == "\n" + Trim(g) + "\n" && After(k, y) == "\n"
  {
    BlankExactly(x);
    NoMarkerInBlank(k, x);
    BlankWraps(k, x, g);
    FreeInLines(Trim(g), k.end);
    ReadWrapped(k, "", "\n" + Trim(g) + "\n", "\n");
  }

  lemma NoMarkerInBlank(k: Markers, x: string)
    requires k.Valid() && Blank(x)
    ensures MarkerFree(k, x)
  {
    forall m, i | m in {k.start, k.end} && OccursAt(x, m, i) ensures false {
      OccursChar(x, m, i, i);
    }
  }

  lemma BlankHost(k: Markers, x: string, g1: string, g2: string)
    requires k.Valid()
    requires MarkerFree(k, x) && Trim(x) == ""
    ensures |Replace(k, Replace(k, x, g1), g2)| > |Replace(k, x, g2)|
  {
    var m := "\n" + Trim(g1) + "\n";
    SectionReaches(k, "", m, "\n");
    BlankWraps(k, x, g1);
    ReplaceLengths(k, Wrap(k, "", m, "\n"), g2);
    BlankLength(k, x, g2);
  }

  lemma BlankLength(k: Markers, x: string, g: string)
    requires MarkerFree(k, x) && Trim(x) == ""
    ensures |Replace(k, x, g)| == |Block(k, g)| + 1
  {
  }

  lemma TrimKeepsMarker(k: Markers, x: string, m: string, i: int)
    requires k.Valid() && m in {k.start, k.end} && OccursAt(x, m, i)
    ensures OccursAt(TrimEnd(x), m, i) && Trim(x) != ""
    ensures TrimEnd(x) <= x
    decreases x
  {
    var j := i + |m| - 1;
    OccurrenceChars(x, m, i, i);
    OccurrenceChars(x, m, i, j);
    if IsSpace(x[|x| - 1]) {
      var h := x[..|x| - 1];
      assert x[j] == '>' && j != |x| - 1;
      assert x == h + [x[|x| - 1]];
      OccursLeft(h, [x[|x| - 1]], m, i);
      TrimKeepsMarker(k, h, m, i);
    } else {
      assert Trim(x) == TrimStart(x);
      TrimStartKeeps(x, i);
    }
  }

  lemma {:induction false} TrimStartKeeps(x: string, i: int)
    requires 0 <= i < |x| && !IsSpace(x[i])
    ensures |TrimStart(x)| >= |x| - i
  {
    if IsSpace(x[0]) { TrimStartKeeps(x[1..], i - 1); }
  }

  lemma ReplaceLengths(k: Markers, x: string, g: string)
    ensures HasSection(k, x) ==>
              |Replace(k, x, g)| == |TrimEnd(Before(k, x))| + |Block(k, g)| + 3 + |TrimStart(After(k, x))|
    ensures !HasSection(k, x) && Trim(x) != "" ==> |Replace(k, x, g)| == |TrimEnd(x)| + |Block(k, g)| + 3
  {
  }

  lemma StrayPrefixFree(k: Markers, x: string, s: int)
    requires k.Valid()
    requires Free(x, k.end) && s == IndexOf(x, k.start) >= 0
    ensures MarkerFree(k, x[..s])
  {
    FreePart(x, k.end, 0, s);
    assert x[0..s] == x[..s];
    forall i ensures !OccursAt(x[..s], k.start, i) {
      if i + |k.start| <= s {
        OccursLeft(x[..s], x[s..], k.start, i);
        assert x == x[..s] + x[s..];
      }
    }
  }

  /** In a text that holds no end marker, one update puts the only ones behind the stray start marker. */
  lemma StrayReads(k: Markers, x: string, s: int, g: string)
    requires k.Valid() && s == IndexOf(x, k.start) >= 0 && Free(x, k.end)
    ensures Trim(x) != "" && s < |TrimEnd(x)|
    ensures var y := Replace(k, x, g); HasSection(k, y) && Before(k, y) == x[..s]
  {
    TrimKeepsMarker(k, x, k.start, s);
    BlockEnds(k, TrimEnd(x), g);
    StrayAppended(k, x, TrimEnd(x), s, "\n\n" + Block(k, g) + "\n", |TrimEnd(x)| + 2 + |k.start| + 1 + |Trim(g)| + 1);
    NoSection(k, x);
    Appends(k, x, g);
  }

  lemma NoSection(k: Markers, x: string)
    requires Free(x, k.end)
    ensures !HasSection(k, x)
  {
  }

  lemma StrayAppended(k: Markers, x: string, h: string, s: int, tail: string, e: int)
    requires k.Valid() && s == IndexOf(x, k.start) >= 0 && Free(x, k.end)
    requires h <= x && OccursAt(h, k.start, s) && OccursAt(h + tail, k.end, e)
    ensures HasSection(k, h + tail) && Before(k, h + tail) == x[..s]
  {
    OccursLeft(h, tail, k.start, s);
    StartIsFirst(k, x, h, tail, s);
    EndsBehind(k, x, h, tail, s);
    FoundAt(k, h + tail, s, e);
    assert (h + tail)[..s] == h[..s] == x[..s];
  }

  lemma FoundAt(k: Markers, y: string, s: int, e: int)
    requires IndexOf(y, k.start) == s >= 0 && OccursAt(y, k.end, e)
    requires forall i :: OccursAt(y, k.end, i) ==> i > s
    ensures HasSection(k, y) && Before(k, y) == y[..s]
  {
  }

  lemma Appends(k: Markers, x: string, g: string)
    requires !HasSection(k, x) && Trim(x) != ""
    ensures Replace(k, x, g) == TrimEnd(x) + ("\n\n" + Block(k, g) + "\n")
  {
  }

  lemma StartIsFirst(k: Markers, x: string, h: string, tail: string, s: int)
    requires k.Valid() && s == IndexOf(x, k.start) && h <= x && OccursAt(h + tail, k.start, s) && s + |k.start| <= |h|
    ensures IndexOf(h + tail, k.start) == s
  {
    var i := IndexOf(h + tail, k.start);
    if i < s { SameInPrefix(x, h, tail, k.start, i); }
  }

  lemma EndsBehind(k: Markers, x: string, h: string, tail: string, s: int)
    requires k.Valid() && Free(x, k.end) && h <= x && 0 <= s && s + |k.start| <= |h|
    ensures forall i :: OccursAt(h + tail, k.end, i) ==> i > s
  {
    forall i | OccursAt(h + tail, k.end, i) ensures i > s {
      if i + |k.end| <= |h| { SameInPrefix(x, h, tail, k.end, i); }
    }
  }

  lemma BlockEnds(k: Markers, h: string, g: string)
    ensures OccursAt(h + ("\n\n" + Block(k, g) + "\n"), k.end, |h| + 2 + |k.start| + 1 + |Trim(g)| + 1)
  {
    var a := h + "\n\n" + (k.start + "\n" + Trim(g) + "\n");
    SliceOfSum(a, k.end, "\n");
    assert h + ("\n\n" + Block(k, g) + "\n") == a + (k.end + "\n");
  }

  lemma SameInPrefix(x: string, h: string, tail: string, m: string, i: int)
    requires h <= x && OccursAt(h + tail, m, i) && i + |m| <= |h|
    ensures OccursAt(x, m, i)
  {
    OccursLeft(h, tail, m, i);
    assert x[i..i + |m|] == h[i..i + |m|];
  }

  /** Where the first end marker is depends on what is before the section and on the section only. */
  lemma FirstEnd(k: Markers, p: string, m: string, q: string)
    requires k.Valid() && Free(p, k.end)
    ensures IndexOf(Wrap(k, p, m, q), k.end) == |p| + |k.start| + IndexOf(m + k.end, k.end)
  {
    var n, r := |p| + |k.start|, m + (k.end + q);
    var t := Wrap(k, p, m, q);
    var e := IndexOf(m + k.end, k.end);
    SliceOfSum(m, k.end, "");
    assert OccursAt(m + k.end, k.end, |m|) by { assert m + (k.end + "") == m + k.end; }
    assert r == (m + k.end) + q;
    OccursLeft(m + k.end, q, k.end, e);
    WrapLeft(k, p, m, q);
    OccursRight(p + k.start, r, k.end, n + e);
    FirstEndFrom(k, p, m, q, IndexOf(t, k.end));
  }

  lemma FirstEndFrom(k: Markers, p: string, m: string, q: string, i: int)
    requires k.Valid() && Free(p, k.end) && OccursAt(Wrap(k, p, m, q), k.end, i)
    ensures i >= |p| + |k.start| + IndexOf(m + k.end, k.end)
  {
    var n, r := |p| + |k.start|, m + (k.end + q);
    assert (k.start + r)[0] == '<';
    FreeBefore(p, k.start + r, k.end, i);
    StartBeforeEnd(k, r, i - |p|);
    var j := i - n;
    if j < IndexOf(m + k.end, k.end) {
      assert r == (m + k.end) + q;
      OccursLeft(m + k.end, q, k.end, j);
    }
  }

  /** Any text put between the markers: there is a section, and it ends with the marker behind the text or before. */
  lemma SectionReaches(k: Markers, p: string, m: string, q: string)
    requires k.Valid() && MarkerFree(k, p)
    ensures var t := Wrap(k, p, m, q);
            && HasSection(k, t) && Before(k, t) == p
            && IndexOf(t, k.end) == |p| + |k.start| + IndexOf(m + k.end, k.end)
  {
    SectionStart(k, p, m, q);
    FirstEnd(k, p, m, q);
    WrapSlices(k, p, m, q);
  }

  lemma StrayStart(k: Markers, x: string, g1: string, g2: string)
    requires k.Valid()
    requires !MarkerFree(k, x) && Free(x, k.end)
    ensures IndexOf(Replace(k, Replace(k, x, g1), g2), k.end) < IndexOf(Replace(k, x, g2), k.end)
  {
    var s := IndexOf(x, k.start);
    var y, m := Replace(k, x, g1), "\n" + Trim(g2) + "\n";
    StrayReads(k, x, s, g1);
    StrayPrefixFree(k, x, s);
    TrimIsMarkerFree(k, x[..s]);
    TrimEndIsFree(k.end, x);
    EndOfAssembled(k, TrimEnd(x[..s]), g2, TrimStart(After(k, y)));
    EndOfAssembled(k, TrimEnd(x), g2, "");
    TrimEndIdempotent(x[..s]);
    assert Replace(k, x, g2) == Assemble(k, TrimEnd(x), g2, "");
  }

  lemma EndOfAssembled(k: Markers, before: string, g: string, after: string)
    requires k.Valid() && Free(before, k.end)
    ensures IndexOf(Assemble(k, before, g, after), k.end)
            == |before| + 2 + |k.start| + IndexOf("\n" + Trim(g) + "\n" + k.end, k.end)
  {
    FreeInLines(before, k.end);
    BlockWraps(k, before + "\n\n", g, after);
    FirstEnd(k, before + "\n\n", "\n" + Trim(g) + "\n", "\n" + after);
  }

  lemma StrayEnd(k: Markers, x: string, g1: string, g2: string)
    requires k.Valid()
    requires !HasSection(k, x) && !Free(x, k.end)
    ensures |Replace(k, Replace(k, x, g1), g2)| > |Replace(k, x, g2)|
  {
    var e := IndexOf(x, k.end);
    TrimKeepsMarker(k, x, k.end, e);
    var h, tail := TrimEnd(x), "\n\n" + Block(k, g1) + "\n";
    var y := h + tail;
    assert Replace(k, x, g1) == y;
    OccursLeft(h, tail, k.end, e);
    forall i | OccursAt(y, k.start, i) ensures i >= e {
      if i < e { NoEarlyStart(k, x, h, tail, e, i); }
    }
    assert !HasSection(k, y);
    TrimKeepsMarker(k, y, k.end, e);
    LongerTrim(k, h, g1);
    ReplaceLengths(k, y, g2);
    ReplaceLengths(k, x, g2);
  }

  lemma NoEarlyStart(k: Markers, x: string, h: string, tail: string, e: int, i: int)
    requires k.Valid() && !HasSection(k, x)
    requires e == IndexOf(x, k.end) && h <= x && OccursAt(h, k.end, e)
    requires OccursAt(h + tail, k.start, i)
    ensures i >= e
  {
    var y := h + tail;
    if i < e {
      OccursLeft(h, tail, k.end, e);
      if i + |k.start| <= |h| {
        OccursLeft(h, tail, k.start, i);
        assert OccursAt(x, k.start, i) by { assert x[i..i + |k.start|] == h[i..i + |k.start|]; }
      } else {
        OccurrenceChars(y, k.start, i, e);
        OccurrenceChars(y, k.end, e, e);
      }
      assert false;
    }
  }

  lemma LongerTrim(k: Markers, h: string, g: string)
    requires k.Valid()
    ensures |TrimEnd(h + ("\n\n" + Block(k, g) + "\n"))| > |h|
  {
    var b := h + ("\n\n" + Block(k, g));
    var y := h + ("\n\n" + Block(k, g) + "\n");
    assert y[..|y| - 1] == b;
    assert b[|b| - 1] == k.end[|k.end| - 1] == '>';
    assert TrimEnd(b) == b;
  }

  /** A first text that holds the end marker ends its own section early, and the rest of it stays. */
  lemma EarlyEnd(k: Markers, x: string, g1: string, g2: string)
    requires k.Valid()
    requires Hosts(k, x) && !Free(Trim(g1), k.end)
    ensures |Replace(k, Replace(k, x, g1), g2)| > |Replace(k, x, g2)|
  {
    var b, a, t1 := KeptBefore(k, x), KeptAfter(k, x), Trim(g1);
    var y, p, m := Assemble(k, b, g1, a), b + "\n\n", "\n" + t1 + "\n";
    ReplaceAssembles(k, x, g1);
    ReplaceAssembles(k, x, g2);
    FreeInLines(b, k.start);
    FreeInLines(b, k.end);
    BlockWraps(k, p, g1, a);
    SectionReaches(k, p, m, "\n" + a);
    EndInside(k, t1);
    RestStays(k, p, m, "\n" + a);
    TrimEndOfSpaces(b, "\n\n");
    TrimEndIdempotent(if HasSection(k, x) then Before(k, x) else x);
    ReplaceLengths(k, y, g2);
  }

  lemma EndInside(k: Markers, t: string)
    requires !Free(t, k.end)
    ensures var m := "\n" + t + "\n"; IndexOf(m + k.end, k.end) + |k.end| < |m|
  {
    var m, e := "\n" + t + "\n", IndexOf(t, k.end);
    var n := m + k.end;
    assert n == "\n" + (t + ("\n" + k.end));
    OccursLeft(t, "\n" + k.end, k.end, e);
    OccursRight("\n", t + ("\n" + k.end), k.end, 1 + e);
    assert OccursAt(n, k.end, 1 + e);
  }

  lemma RestStays(k: Markers, p: string, m: string, q: string)
    requires k.Valid() && HasSection(k, Wrap(k, p, m, q))
    requires IndexOf(Wrap(k, p, m, q), k.end) + |k.end| <= |p| + |k.start| + |m|
    ensures |TrimStart(After(k, Wrap(k, p, m, q)))| >= |k.end| + |q|
  {
    var t, n := Wrap(k, p, m, q), |p| + |k.start| + |m|;
    var rest := After(k, t);
    WrapLeft(k, p, m, q);
    SliceOfSum((p + k.start) + m, k.end, q);
    assert t[n] == k.end[0] == '<';
    var i := n - (IndexOf(t, k.end) + |k.end|);
    assert rest[i] == t[n];
    TrimStartKeeps(rest, i);
  }

  /** For every text and every two updates: the second erases the first exactly when the text has a section (the
      guard of the replacing branch) or is non-blank without markers, and the first text holds no end marker. */
  lemma LastWriterWinsExactly(k: Markers, x: string, g1: string, g2: string)
    requires k.Valid()
    ensures Replace(k, Replace(k, x, g1), g2) == Replace(k, x, g2)
            <==> (HasSection(k, x) || (MarkerFree(k, x) && Trim(x) != "")) && Free(Trim(g1), k.end)
  {
    if !Hosts(k, x) {
      StrayMarkersBreakReplacement(k, x, g1, g2);
    } else if Free(Trim(g1), k.end) {
      LastWriterWins(k, x, g1, g2);
    } else {
      EarlyEnd(k, x, g1, g2);
    }
  }

  /** The same for the markers in use. */
  lemma SessionOverviewLastWriterWins(x: string, g1: string, g2: string)
    ensures ReplaceGeneratedSection(ReplaceGeneratedSection(x, g1), g2) == ReplaceGeneratedSection(x, g2)
            <==> (HasSection(SESSION_OVERVIEW, x) || (MarkerFree(SESSION_OVERVIEW, x) && Trim(x) != ""))
                 && Free(Trim(g1), SESSION_OVERVIEW.end)
  {
    SessionOverviewValid();
    LastWriterWinsExactly(SESSION_OVERVIEW, x, g1, g2);
  }
}
