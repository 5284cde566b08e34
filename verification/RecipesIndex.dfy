/**
  The recipe index injected at session start
  (packages/lifecycle/src/features-index-loader.ts): a markdown block within a
  byte budget, newest recipes first when not all of them fit.
*/
module RecipesIndex {
  import opened Collections
  import opened Text

  const MAX_INDEX_BYTES := 12288
  const FOOTER_RESERVATION_BYTES := 256

  datatype Recipe = Recipe(slug: string, maturity: string, description: string, whenNotToUse: Option<string>,
                           tags: seq<string>, fileCount: nat, lastUpdatedAt: string)

  // ------------------------------------------------------------ byte lengths

  predicate Ascii(s: string) {
    forall c :: c in s ==> c < '\U{0080}'
  }

  lemma {:induction false} AsciiBytes(s: string)
    requires Ascii(s)
    ensures ByteLength(s) == |s|
  {
    if s != "" {
      var h := s[..|s| - 1];
      forall c | c in h ensures c < '\U{0080}' { assert c in s; }
      assert s[|s| - 1] in s;
      AsciiBytes(h);
    }
  }

  // -------------------------------------------------------------- rendering

  /** `value.replace(/\s+/g, ' ')`, not yet trimmed. */
  function SquashSpaces(s: string): string {
    if s == "" then ""
    else
      var r := SquashSpaces(s[..|s| - 1]);
      var c := s[|s| - 1];
      if !IsSpace(c) then r + [c]
      else if |s| > 1 && IsSpace(s[|s| - 2]) then r
      else r + " "
  }

  function NormaliseWhitespace(s: string): string { Trim(SquashSpaces(s)) }

  function Plural(n: nat): string { if n == 1 then "" else "s" }

  const HEADER_1 := "## Available Agent Recipes\n\nThis project ("
  const HEADER_2 := " available on demand. Each entry below\n"
  const HEADER_3 := "declares **when to use it** — read the trigger description and call\n"
  const HEADER_4 := "`coodra__get_recipe({slug:\"<slug>\"})` to load the body of any that fits the current task.\n"

  function HeaderEnd(total: nat): string { Plural(total) + HEADER_2 + HEADER_3 + HEADER_4 }

  function RenderHeader(projectSlug: string, total: nat): string {
    HEADER_1 + projectSlug + ") has " + Decimal(total) + " Agent Recipe" + HeaderEnd(total)
  }

  function JoinTags(tags: seq<string>): string {
    if tags == [] then "" else if |tags| == 1 then tags[0]
    else JoinTags(tags[..|tags| - 1]) + ", " + tags[|tags| - 1]
  }

  function RenderEntry(f: Recipe): string {
    "### " + f.slug + "\n"
    + (if f.maturity != "stable" then "> _" + f.maturity + "_\n" else "")
    + "**When:** " + NormaliseWhitespace(f.description) + "\n"
    + (if f.whenNotToUse.GetOr("") != "" then "**Not for:** " + NormaliseWhitespace(f.whenNotToUse.value) + "\n"
       else "")
    + (if f.tags != [] then "**Tags:** " + JoinTags(f.tags) + "\n" else "")
    + "**Files:** " + Decimal(f.fileCount) + "\n\n"
  }

  // ----------------------------------------------------- an entry line by line

  /** The words of a text: what stands between white space. */
  function Words(s: string): seq<string> {
    if s == "" then []
    else
      var n := |s| - 1;
      var r := Words(s[..n]);
      if IsSpace(s[n]) then r
      else if n > 0 && !IsSpace(s[n - 1]) && r != [] then r[..|r| - 1] + [r[|r| - 1] + [s[n]]]
      else r + [[s[n]]]
  }

  predicate Word(w: string) { w != "" && forall i :: 0 <= i < |w| ==> !IsSpace(w[i]) }

  lemma {:induction false} WordsAreWords(s: string)
    ensures forall i :: 0 <= i < |Words(s)| ==> Word(Words(s)[i])
    ensures s != "" && !IsSpace(s[|s| - 1]) ==> Words(s) != []
  {
    if s != "" {
      var n := |s| - 1;
      var r := Words(s[..n]);
      WordsAreWords(s[..n]);
      if !IsSpace(s[n]) {
        WordGrows("", s[n]);
        if n > 0 && !IsSpace(s[n - 1]) { WordGrows(r[|r| - 1], s[n]); }
      }
    }
  }

  lemma WordGrows(w: string, c: char)
    requires (w == "" || Word(w)) && !IsSpace(c)
    ensures Word(w + [c])
  {
  }

  /** The white space that squashing leaves in front and behind. */
  function Lead(s: string): string { if s != "" && IsSpace(s[0]) then " " else "" }

  function Trail(s: string): string { if Words(s) != [] && s != "" && IsSpace(s[|s| - 1]) then " " else "" }

  ghost predicate Squashed(s: string) { SquashSpaces(s) == Lead(s) + Join(Words(s), ' ') + Trail(s) }

  lemma LeadStays(h: string, c: char)
    requires h != ""
    ensures Lead(h + [c]) == Lead(h)
  {
  }

  lemma SquashStep(h: string, c: char)
    ensures SquashSpaces(h + [c]) == if !IsSpace(c) then SquashSpaces(h) + [c]
                                     else if h != "" && IsSpace(h[|h| - 1]) then SquashSpaces(h)
                                     else SquashSpaces(h) + " "
    ensures var r := Words(h);
            Words(h + [c]) == if IsSpace(c) then r
                              else if h != "" && !IsSpace(h[|h| - 1]) && r != []
                                   then r[..|r| - 1] + [r[|r| - 1] + [c]]
                              else r + [[c]]
  {
    assert (h + [c])[..|h|] == h;
  }

  lemma SquashedSpace(h: string, c: char)
    requires Squashed(h) && IsSpace(c)
    ensures Squashed(h + [c])
  {
    SquashStep(h, c);
    WordsAreWords(h);
    if h == "" {
      assert Join([], ' ') == "";
    } else {
      LeadStays(h, c);
    }
  }

  lemma SquashedInWord(h: string, c: char)
    requires Squashed(h) && !IsSpace(c) && h != "" && !IsSpace(h[|h| - 1])
    ensures Squashed(h + [c])
  {
    var r := Words(h);
    SquashStep(h, c);
    WordsAreWords(h);
    LeadStays(h, c);
    OneMore(r, c);
    Behind(Lead(h), Join(r, ' '), [c]);
    assert Trail(h) == "" && Trail(h + [c]) == "";
  }

  lemma OneMore(r: seq<string>, c: char)
    requires r != []
    ensures Join(r[..|r| - 1] + [r[|r| - 1] + [c]], ' ') == Join(r, ' ') + [c]
  {
    SnocLast(r);
    JoinGrow(r[..|r| - 1], r[|r| - 1], c, ' ');
  }

  lemma Behind(lead: string, j: string, end: string)
    ensures lead + j + "" + end == lead + (j + end) + ""
    ensures lead + j + " " + end == lead + (j + " " + end) + ""
  {
  }

  lemma SquashedNewWord(h: string, c: char)
    requires Squashed(h) && !IsSpace(c) && h != "" && IsSpace(h[|h| - 1])
    ensures Squashed(h + [c])
  {
    var r := Words(h);
    SquashStep(h, c);
    LeadStays(h, c);
    assert Trail(h + [c]) == "" && Join([[c]], ' ') == [c] && Join([], ' ') == "";
    if r != [] {
      JoinSnoc(r, [c], ' ');
      Behind(Lead(h), Join(r, ' '), [c]);
    }
  }

  lemma {:induction false} SquashedWords(s: string)
    ensures Squashed(s)
  {
    if s == "" {
      assert Join([], ' ') == "";
    } else {
      var n := |s| - 1;
      SquashedWords(s[..n]);
      assert s == s[..n] + [s[n]];
      if IsSpace(s[n]) {
        SquashedSpace(s[..n], s[n]);
      } else if n > 0 && !IsSpace(s[n - 1]) {
        SquashedInWord(s[..n], s[n]);
      } else if n > 0 {
        SquashedNewWord(s[..n], s[n]);
      } else {
        assert Join([[s[n]]], ' ') == [s[n]];
      }
    }
  }

  lemma {:induction false} JoinedEnds(words: seq<string>)
    requires words != [] && forall i :: 0 <= i < |words| ==> Word(words[i])
    ensures var j := Join(words, ' '); j != "" && !IsSpace(j[0]) && !IsSpace(j[|j| - 1])
  {
    var n := |words| - 1;
    assert Word(words[n]);
    if n > 0 {
      assert forall i :: 0 <= i < n ==> words[..n][i] == words[i];
      JoinedEnds(words[..n]);
      var j, w := Join(words, ' '), words[n];
      assert j == Join(words[..n], ' ') + [' '] + w;
      assert j[0] == Join(words[..n], ' ')[0];
      assert j[|j| - 1] == w[|w| - 1];
    }
  }

  lemma TrimAround(lead: string, j: string, trail: string)
    requires Blank(lead) && Blank(trail)
    requires j != "" ==> !IsSpace(j[0]) && !IsSpace(j[|j| - 1])
    ensures Trim(lead + j + trail) == j
  {
    assert forall c :: c in trail ==> IsSpace(c);
    TrimEndOfSpaces(lead + j, trail);
    if j == "" {
      assert lead + j == lead;
      BlankExactly(lead);
    } else {
      assert TrimEnd(lead + j) == lead + j;
      TrimStartOfSpaces(lead, j);
    }
  }

  lemma {:induction false} TrimStartOfSpaces(lead: string, j: string)
    requires Blank(lead) && j != "" && !IsSpace(j[0])
    ensures TrimStart(lead + j) == j
  {
    if lead == "" {
      assert lead + j == j;
    } else {
      assert (lead + j)[1..] == lead[1..] + j;
      TrimStartOfSpaces(lead[1..], j);
    }
  }

  /** Normalised text is the words with one space between two of them. */
  lemma NormalisedWords(s: string)
    ensures NormaliseWhitespace(s) == Join(Words(s), ' ')
  {
    SquashedWords(s);
    WordsAreWords(s);
    if Words(s) != [] { JoinedEnds(Words(s)); }
    TrimAround(Lead(s), Join(Words(s), ' '), Trail(s));
  }

  function MaturityLine(f: Recipe): seq<string> {
    if f.maturity == "stable" then [] else ["> _" + f.maturity + "_"]
  }

  function NotForLine(f: Recipe): seq<string> {
    match f.whenNotToUse
    case Some(text) => if text == "" then [] else ["**Not for:** " + Join(Words(text), ' ')]
    case None => []
  }

  function TagsLine(f: Recipe): seq<string> {
    if f.tags == [] then [] else ["**Tags:** " + Join(Spaced(f.tags), ',')]
  }

  /** Every tag but the first with a space in front. */
  function Spaced(tags: seq<string>): seq<string> {
    seq(|tags|, i requires 0 <= i < |tags| => if i == 0 then tags[0] else " " + tags[i])
  }

  lemma {:induction false} TagsJoined(tags: seq<string>)
    ensures JoinTags(tags) == Join(Spaced(tags), ',')
  {
    var n := |tags| - 1;
    if n > 0 {
      TagsJoined(tags[..n]);
      assert Spaced(tags)[..n] == Spaced(tags[..n]);
      assert Join(Spaced(tags), ',') == Join(Spaced(tags[..n]), ',') + [','] + (" " + tags[n]);
    }
  }

  /** The lines of an entry; what is missing, or the usual maturity, has none. */
  function EntryLines(f: Recipe): seq<string> {
    ["### " + f.slug] + MaturityLine(f) + ["**When:** " + Join(Words(f.description), ' ')] + NotForLine(f)
    + TagsLine(f) + ["**Files:** " + Decimal(f.fileCount), ""]
  }

  function Terminated(lines: seq<string>): string {
    if lines == [] then "" else Terminated(lines[..|lines| - 1]) + lines[|lines| - 1] + "\n"
  }

  lemma {:induction false} TerminatedSum(a: seq<string>, b: seq<string>)
    ensures Terminated(a + b) == Terminated(a) + Terminated(b)
  {
    if b == [] {
      assert a + b == a;
    } else {
      var n := |b| - 1;
      TerminatedSum(a, b[..n]);
      assert (a + b)[..|a + b| - 1] == a + b[..n];
    }
  }

  lemma TerminatedOne(l: string)
    ensures Terminated([l]) == l + "\n"
  {
    assert [l][..0] == [];
    assert Terminated([l]) == Terminated([l][..0]) + l + "\n";
  }

  lemma OptionalLines(f: Recipe)
    ensures Terminated(MaturityLine(f)) == if f.maturity != "stable" then "> _" + f.maturity + "_\n" else ""
    ensures Terminated(NotForLine(f))
            == if f.whenNotToUse.GetOr("") != "" then "**Not for:** " + NormaliseWhitespace(f.whenNotToUse.value) + "\n"
               else ""
    ensures Terminated(TagsLine(f)) == if f.tags != [] then "**Tags:** " + JoinTags(f.tags) + "\n" else ""
  {
    if f.maturity != "stable" { TerminatedOne("> _" + f.maturity + "_"); }
    if f.whenNotToUse.Some? {
      NormalisedWords(f.whenNotToUse.value);
      TerminatedOne("**Not for:** " + Join(Words(f.whenNotToUse.value), ' '));
    }
    TagsJoined(f.tags);
    if f.tags != [] { TerminatedOne("**Tags:** " + JoinTags(f.tags)); }
  }

  lemma LastLines(l: string)
    ensures Terminated([l, ""]) == l + "\n\n"
  {
    assert [l, ""][..1] == [l];
    TerminatedOne(l);
    assert Terminated([l, ""]) == Terminated([l]) + "" + "\n";
  }

  lemma SixParts(a: seq<string>, b: seq<string>, c: seq<string>, d: seq<string>, e: seq<string>, g: seq<string>)
    ensures Terminated(a + b + c + d + e + g)
            == Terminated(a) + Terminated(b) + Terminated(c) + Terminated(d) + Terminated(e) + Terminated(g)
  {
    TerminatedSum(a + b + c + d + e, g);
    TerminatedSum(a + b + c + d, e);
    TerminatedSum(a + b + c, d);
    TerminatedSum(a + b, c);
    TerminatedSum(a, b);
  }

  lemma Grouped(head: string, slug: string, b: string, say: string, text: string, d: string, e: string, files: string,
                count: string)
    ensures head + slug + "\n" + b + say + text + "\n" + d + e + files + count + "\n\n"
            == (head + slug + "\n") + b + (say + text + "\n") + d + e + ((files + count) + "\n\n")
  {
  }

  lemma EntryParts(f: Recipe)
    ensures Terminated(EntryLines(f))
            == ("### " + f.slug + "\n") + Terminated(MaturityLine(f))
               + ("**When:** " + NormaliseWhitespace(f.description) + "\n") + Terminated(NotForLine(f))
               + Terminated(TagsLine(f)) + (("**Files:** " + Decimal(f.fileCount)) + "\n\n")
  {
    NormalisedWords(f.description);
    TerminatedOne("### " + f.slug);
    TerminatedOne("**When:** " + Join(Words(f.description), ' '));
    LastLines("**Files:** " + Decimal(f.fileCount));
    SixParts(["### " + f.slug], MaturityLine(f), ["**When:** " + Join(Words(f.description), ' ')], NotForLine(f),
             TagsLine(f), ["**Files:** " + Decimal(f.fileCount), ""]);
  }

  /** An entry is its lines, each ended by a newline. */
  lemma EntryByLine(f: Recipe)
    ensures RenderEntry(f) == Terminated(EntryLines(f))
  {
    EntryParts(f);
    OptionalLines(f);
    Grouped("### ", f.slug, Terminated(MaturityLine(f)), "**When:** ", NormaliseWhitespace(f.description),
            Terminated(NotForLine(f)), Terminated(TagsLine(f)), "**Files:** ", Decimal(f.fileCount));
  }

  const FOOTER_1 := " more Agent Recipe"
  const FOOTER_2 := " omitted to fit the context budget._\n"
  // Split so that the lemmas about single characters can go piece by piece.
  const FOOTER_3 := "_Call `coodra__" + "list_recipes({" + "projectSlug:"
  const FOOTER_4 := "\"<slug>\"})` to " + "see the full " + "list._\n"

  function RenderFooter(dropped: nat): string {
    if dropped == 0 then ""
    else "\n_+" + Decimal(dropped) + FOOTER_1 + Plural(dropped) + FOOTER_2 + FOOTER_3 + FOOTER_4
  }

  lemma Nouns(n: nat, noun: string, a: string, b: string, c: string, head: string)
    ensures head + noun + (Plural(n) + a + b + c) == head + (if n == 1 then noun else noun + "s") + (a + b + c)
    ensures head + noun + Plural(n) + a + b + c == head + (if n == 1 then noun else noun + "s") + (a + b + c)
  {
    var p := Plural(n);
    assert p + a + b + c == p + (a + b + c);
    assert head + noun + p == head + (noun + p);
    assert noun + p == if n == 1 then noun else noun + "s";
    assert head + noun + (p + (a + b + c)) == head + noun + p + (a + b + c);
    assert head + noun + p + a + b + c == head + noun + p + (a + b + c);
  }

  /** The count agrees with its noun, in the heading and below. */
  lemma CountsAgree(projectSlug: string, n: nat)
    ensures RenderHeader(projectSlug, n)
            == HEADER_1 + projectSlug + ") has " + Decimal(n)
               + (if n == 1 then " Agent Recipe" else " Agent Recipes") + (HEADER_2 + HEADER_3 + HEADER_4)
    ensures n > 0 ==>
              RenderFooter(n) == "\n_+" + Decimal(n)
                                 + (if n == 1 then FOOTER_1 else FOOTER_1 + "s") + (FOOTER_2 + FOOTER_3 + FOOTER_4)
    ensures RenderFooter(0) == ""
  {
    Nouns(n, " Agent Recipe", HEADER_2, HEADER_3, HEADER_4, HEADER_1 + projectSlug + ") has " + Decimal(n));
    Nouns(n, FOOTER_1, FOOTER_2, FOOTER_3, FOOTER_4, "\n_+" + Decimal(n));
    assert " Agent Recipe" + "s" == " Agent Recipes";
  }

  function RenderEntries(entries: seq<Recipe>): string {
    if entries == [] then "" else RenderEntries(entries[..|entries| - 1]) + RenderEntry(entries[|entries| - 1])
  }

  // ------------------------------------------------- bytes of what is rendered

  function EntriesBytes(entries: seq<Recipe>): nat {
    if entries == [] then 0
    else EntriesBytes(entries[..|entries| - 1]) + ByteLength(RenderEntry(entries[|entries| - 1]))
  }

  lemma {:induction false} RenderedBytes(header: string, entries: seq<Recipe>)
    ensures ByteLength(header + RenderEntries(entries)) == ByteLength(header) + EntriesBytes(entries)
    decreases |entries|
  {
    ByteLengthAppend(header, RenderEntries(entries));
    if entries != [] {
      var n := |entries| - 1;
      RenderedBytes("", entries[..n]);
      assert "" + RenderEntries(entries[..n]) == RenderEntries(entries[..n]);
      ByteLengthAppend(RenderEntries(entries[..n]), RenderEntry(entries[n]));
    }
  }

  lemma {:induction false} InsertBytes(x: Recipe, s: seq<Recipe>, le: (Recipe, Recipe) -> bool)
    ensures EntriesBytes(Insert(x, s, le)) == EntriesBytes(s) + ByteLength(RenderEntry(x))
    decreases |s|
  {
    if s != [] {
      var m := |s| - 1;
      InsertBytes(x, s[..m], le);
      assert (s + [x])[..|s|] == s;
      var r := Insert(x, s[..m], le);
      assert (r + [s[m]])[..|r|] == r;
    }
  }

  /** The total does not depend on the order. */
  lemma {:induction false} SortBytes(s: seq<Recipe>, le: (Recipe, Recipe) -> bool)
    ensures EntriesBytes(Sort(s, le)) == EntriesBytes(s)
  {
    if s != [] {
      SortBytes(s[..|s| - 1], le);
      InsertBytes(s[|s| - 1], Sort(s[..|s| - 1], le), le);
    }
  }

  lemma {:induction false} PrefixBytes(entries: seq<Recipe>, k: nat)
    requires k <= |entries|
    ensures EntriesBytes(entries[..k]) <= EntriesBytes(entries)
  {
    if k < |entries| {
      PrefixBytes(entries[..|entries| - 1], k);
      assert entries[..|entries| - 1][..k] == entries[..k];
    } else {
      assert entries[..k] == entries;
    }
  }

  lemma Footer1() ensures Ascii(FOOTER_1) && |FOOTER_1| == 18 { }

  lemma Footer2() ensures Ascii(FOOTER_2) && |FOOTER_2| == 37 { }

  lemma AsciiSum(a: string, b: string, c: string)
    requires Ascii(a) && Ascii(b) && Ascii(c)
    ensures Ascii(a + b + c)
  {
  }

  lemma Footer3()
    ensures Ascii(FOOTER_3) && |FOOTER_3| == 41
  {
    AsciiSum("_Call `coodra__", "list_recipes({", "projectSlug:");
  }

  lemma Footer4()
    ensures Ascii(FOOTER_4) && |FOOTER_4| == 35
  {
    AsciiSum("\"<slug>\"})` to ", "see the full ", "list._\n");
  }

  lemma FooterTextAscii()
    ensures Ascii(FOOTER_1) && Ascii(FOOTER_2) && Ascii(FOOTER_3) && Ascii(FOOTER_4)
    ensures |FOOTER_1| + |FOOTER_2| + |FOOTER_3| + |FOOTER_4| <= 150
  {
    Footer1();
    Footer2();
    Footer3();
    Footer4();
  }

  lemma {:induction false} DecimalBytes(n: nat, digits: nat, limit: nat)
    requires digits > 0 && n < limit && limit == Power10(digits)
    ensures ByteLength(Decimal(n)) <= digits
    decreases digits
  {
    if n < 10 {
      assert Decimal(n) == [Digit(n)];
      DigitByte(n);
    } else {
      DecimalBytes(n / 10, digits - 1, limit / 10);
      ByteLengthAppend(Decimal(n / 10), [Digit(n % 10)]);
      DigitByte(n % 10);
    }
  }

  lemma DigitByte(d: nat)
    requires d < 10
    ensures ByteLength([Digit(d)]) == 1
  {
    assert [Digit(d)][..0] == "";
    assert ByteLength("") == 0;
  }

  function Power10(k: nat): nat { if k == 0 then 1 else 10 * Power10(k - 1) }

  /** An array length has at most ten digits. */
  lemma CountBytes(n: nat)
    requires n < 0x1_0000_0000
    ensures ByteLength(Decimal(n)) <= 10
  {
    assert Power10(10) == 10_000_000_000 by {
      assert Power10(2) == 100 && Power10(4) == 10000 && Power10(6) == 1000000 && Power10(8) == 100000000;
    }
    DecimalBytes(n, 10, 10_000_000_000);
  }

  /** The reservation covers the footer for any number of entries a JavaScript array can hold. */
  lemma FooterFits(dropped: nat)
    requires dropped < 0x1_0000_0000
    ensures ByteLength(RenderFooter(dropped)) <= FOOTER_RESERVATION_BYTES
  {
    if dropped > 0 {
      CountBytes(dropped);
      FooterTextAscii();
      AsciiBytes(FOOTER_1);
      AsciiBytes(FOOTER_2);
      AsciiBytes(FOOTER_3);
      AsciiBytes(FOOTER_4);
      AsciiBytes("\n_+");
      AsciiBytes(Plural(dropped));
      var a := "\n_+" + Decimal(dropped);
      ByteLengthAppend("\n_+", Decimal(dropped));
      ByteLengthAppend(a, FOOTER_1);
      ByteLengthAppend(a + FOOTER_1, Plural(dropped));
      ByteLengthAppend(a + FOOTER_1 + Plural(dropped), FOOTER_2);
      ByteLengthAppend(a + FOOTER_1 + Plural(dropped) + FOOTER_2, FOOTER_3);
      ByteLengthAppend(a + FOOTER_1 + Plural(dropped) + FOOTER_2 + FOOTER_3, FOOTER_4);
    }
  }

  // -------------------------------------------------------------- the budget

  predicate NewestFirst(a: Recipe, b: Recipe) { StringLe(b.lastUpdatedAt, a.lastUpdatedAt) }

  lemma NewestFirstOrder()
    ensures TotalPreorder(NewestFirst)
  {
    StringOrder();
    forall a: Recipe, b: Recipe ensures NewestFirst(a, b) || NewestFirst(b, a) {
      StringLeTotal(a.lastUpdatedAt, b.lastUpdatedAt);
    }
    forall a: Recipe, b: Recipe, c: Recipe | NewestFirst(a, b) && NewestFirst(b, c) ensures NewestFirst(a, c) {
      StringLeTransitive(c.lastUpdatedAt, b.lastUpdatedAt, a.lastUpdatedAt);
    }
  }

  function EntryBudget(maxBytes: nat): nat {
    if maxBytes - FOOTER_RESERVATION_BYTES >= maxBytes / 2 then maxBytes - FOOTER_RESERVATION_BYTES else maxBytes / 2
  }

  lemma BudgetIsLarger(maxBytes: nat)
    ensures EntryBudget(maxBytes) >= maxBytes - 256 && EntryBudget(maxBytes) >= maxBytes / 2
    ensures EntryBudget(maxBytes) == maxBytes - 256 || EntryBudget(maxBytes) == maxBytes / 2
  {
  }

  datatype Rendered = Rendered(content: string, shown: nat, total: nat)

  /** Every non-empty prefix up to k fits the limit together with the header. */
  ghost predicate PrefixFits(header: string, entries: seq<Recipe>, k: nat, limit: nat) {
    k <= |entries| && (k > 0 ==> ByteLength(header + RenderEntries(entries[..k])) <= limit)
  }

  /** k is the longest prefix that fits. */
  ghost predicate LongestFit(header: string, entries: seq<Recipe>, k: nat, limit: nat) {
    PrefixFits(header, entries, k, limit) && forall j :: k < j <= |entries| ==> !PrefixFits(header, entries, j, limit)
  }

  /** The loop both passes share: entries are added while the candidate fits. */
  method FillBudget(header: string, entries: seq<Recipe>, limit: nat) returns (content: string, shown: nat)
    ensures LongestFit(header, entries, shown, limit)
    ensures content == header + RenderEntries(entries[..shown])
  {
    content, shown := header, 0;
    assert header + "" == header;
    while shown < |entries|
      invariant PrefixFits(header, entries, shown, limit)
      invariant content == header + RenderEntries(entries[..shown])
    {
      var candidate := content + RenderEntry(entries[shown]);
      RenderOneMore(header, entries, shown);
      if ByteLength(candidate) > limit {
        LongerIsBigger(header, entries, shown + 1, limit);
        return;
      }
      content := candidate;
      shown := shown + 1;
    }
  }

  lemma RenderOneMore(header: string, entries: seq<Recipe>, k: nat)
    requires k < |entries|
    ensures header + RenderEntries(entries[..k]) + RenderEntry(entries[k]) == header + RenderEntries(entries[..k + 1])
  {
    assert entries[..k + 1][..k] == entries[..k];
  }

  lemma LongerIsBigger(header: string, entries: seq<Recipe>, k: nat, limit: nat)
    requires 0 < k <= |entries| && ByteLength(header + RenderEntries(entries[..k])) > limit
    ensures forall j :: k <= j <= |entries| ==> !PrefixFits(header, entries, j, limit)
  {
    forall j | k <= j <= |entries| ensures !PrefixFits(header, entries, j, limit) {
      PrefixIsSmaller(header, entries, k, j);
    }
  }

  lemma PrefixIsSmaller(header: string, entries: seq<Recipe>, k: nat, j: nat)
    requires 0 < k <= j <= |entries|
    ensures ByteLength(header + RenderEntries(entries[..k])) <= ByteLength(header + RenderEntries(entries[..j]))
  {
    RenderedBytes(header, entries[..k]);
    RenderedBytes(header, entries[..j]);
    PrefixBytes(entries[..j], k);
    assert entries[..j][..k] == entries[..k];
  }

  /** The byte sum does not depend on the order: what overflowed once overflows the smaller budget. */
  lemma NotAllFit(header: string, ordered: seq<Recipe>, byRecency: seq<Recipe>, maxBytes: nat)
    requires byRecency == Sort(ordered, NewestFirst) && |byRecency| == |ordered|
    requires !PrefixFits(header, ordered, |ordered|, maxBytes)
    ensures !PrefixFits(header, byRecency, |byRecency|, EntryBudget(maxBytes))
    ensures ordered != [] && ByteLength(header + RenderEntries(ordered)) > maxBytes
  {
    assert ordered[..|ordered|] == ordered && byRecency[..|byRecency|] == byRecency;
    RenderedBytes(header, ordered);
    RenderedBytes(header, byRecency);
    SortBytes(ordered, NewestFirst);
  }

  /** What a rendering is: every recipe in slug order when that fits the cap, else the longest
      newest-first prefix that fits the entry budget and a footer with the number omitted. */
  ghost predicate IsRendering(r: Rendered, header: string, features: seq<Recipe>, maxBytes: nat,
                              slugLe: (Recipe, Recipe) -> bool)
  {
    var ordered := Sort(features, slugLe);
    var whole := header + RenderEntries(ordered);
    var byRecency := Sort(ordered, NewestFirst);
    && r.total == |features| == |ordered| == |byRecency|
    && if features == [] || ByteLength(whole) <= maxBytes then r.shown == r.total && r.content == whole
       else IsTruncated(r, header, byRecency, EntryBudget(maxBytes))
  }

  ghost predicate IsTruncated(r: Rendered, header: string, byRecency: seq<Recipe>, budget: nat) {
    && r.shown < r.total == |byRecency|
    && LongestFit(header, byRecency, r.shown, budget)
    && r.content == header + RenderEntries(byRecency[..r.shown]) + RenderFooter(r.total - r.shown)
  }

  method Render(header: string, features: seq<Recipe>, maxBytes: nat, slugLe: (Recipe, Recipe) -> bool)
    returns (r: Rendered)
    ensures IsRendering(r, header, features, maxBytes, slugLe)
  {
    var total := |features|;
    var ordered := Sort(features, slugLe);
    SortPermutes(features, slugLe);
    var byRecency := Sort(ordered, NewestFirst);
    SortPermutes(ordered, NewestFirst);
    var content, fitting := FillBudget(header, ordered, maxBytes);
    assert ordered[..total] == ordered;
    if fitting == total {
      r := Rendered(content, total, total);
    } else {
      NotAllFit(header, ordered, byRecency, maxBytes);
      var recencyContent, recencyShown := FillBudget(header, byRecency, EntryBudget(maxBytes));
      r := Rendered(recencyContent + RenderFooter(total - recencyShown), recencyShown, total);
    }
  }

  /** renderForInjection; `slugLe` is the locale's order on slugs. */
  method RenderForInjection(projectSlug: string, features: seq<Recipe>, maxBytes: nat,
                            slugLe: (Recipe, Recipe) -> bool) returns (r: Rendered)
    ensures IsRendering(r, RenderHeader(projectSlug, |features|), features, maxBytes, slugLe)
  {
    r := Render(RenderHeader(projectSlug, |features|), features, maxBytes, slugLe);
  }

  /** Within the cap whenever the header fits the entry budget, truncated or not. */
  lemma RenderingFitsCap(r: Rendered, header: string, features: seq<Recipe>, maxBytes: nat,
                         slugLe: (Recipe, Recipe) -> bool)
    requires IsRendering(r, header, features, maxBytes, slugLe)
    requires maxBytes >= 2 * FOOTER_RESERVATION_BYTES && |features| < 0x1_0000_0000
    requires ByteLength(header) <= EntryBudget(maxBytes)
    ensures ByteLength(r.content) <= maxBytes
  {
    var byRecency := Sort(Sort(features, slugLe), NewestFirst);
    if features == [] {
      assert RenderEntries(Sort(features, slugLe)) == "" && header + "" == header;
    } else if IsTruncated(r, header, byRecency, EntryBudget(maxBytes)) {
      TruncatedFits(r, header, byRecency, maxBytes);
    }
  }

  lemma {:induction false} BytesAtMost(s: string)
    ensures ByteLength(s) <= 4 * |s|
  {
    if s != "" { BytesAtMost(s[..|s| - 1]); }
  }

  lemma Header1() ensures |HEADER_1| == 42 { }

  lemma Header2() ensures |HEADER_2| == 39 { }

  lemma Header3() ensures |HEADER_3| == 68 { }

  lemma Header4() ensures |HEADER_4| == 90 { }

  lemma HeaderEndLength(total: nat)
    ensures |HeaderEnd(total)| <= 198
  {
    Header2();
    Header3();
    Header4();
  }

  lemma HeaderBytes(projectSlug: string, total: nat)
    requires total < 0x1_0000_0000
    ensures ByteLength(RenderHeader(projectSlug, total)) <= ByteLength(projectSlug) + 1100
  {
    var head, end := HEADER_1 + projectSlug, HeaderEnd(total);
    Header1();
    HeaderEndLength(total);
    BytesAtMost(HEADER_1);
    BytesAtMost(") has ");
    BytesAtMost(" Agent Recipe");
    BytesAtMost(end);
    CountBytes(total);
    ByteLengthAppend(HEADER_1, projectSlug);
    ByteLengthAppend(head, ") has ");
    ByteLengthAppend(head + ") has ", Decimal(total));
    ByteLengthAppend(head + ") has " + Decimal(total), " Agent Recipe");
    ByteLengthAppend(head + ") has " + Decimal(total) + " Agent Recipe", end);
  }

  /** What a session is given is within the shipped cap, for every project slug of up to ten thousand bytes. */
  lemma LoadedIndexFitsCap(r: Rendered, projectSlug: string, features: seq<Recipe>,
                           slugLe: (Recipe, Recipe) -> bool)
    requires IsRendering(r, RenderHeader(projectSlug, |features|), features, MAX_INDEX_BYTES, slugLe)
    requires |features| < 0x1_0000_0000 && ByteLength(projectSlug) <= 10000
    ensures ByteLength(r.content) <= 12288
  {
    HeaderBytes(projectSlug, |features|);
    RenderingFitsCap(r, RenderHeader(projectSlug, |features|), features, MAX_INDEX_BYTES, slugLe);
  }

  /** No omitted recipe is newer than a shown one, and the shown ones are all there is when nothing is omitted. */
  lemma NoOmittedIsNewer(features: seq<Recipe>, slugLe: (Recipe, Recipe) -> bool, shown: nat)
    ensures var byRecency := Sort(Sort(features, slugLe), NewestFirst);
            && multiset(byRecency) == multiset(features)
            && forall i, j :: 0 <= i < shown <= j < |byRecency| ==>
                 StringLe(byRecency[j].lastUpdatedAt, byRecency[i].lastUpdatedAt)
  {
    var ordered := Sort(features, slugLe);
    var byRecency := Sort(ordered, NewestFirst);
    SortPermutes(features, slugLe);
    SortPermutes(ordered, NewestFirst);
    NewestFirstOrder();
    SortSorts(ordered, NewestFirst);
    forall i, j | 0 <= i < shown <= j < |byRecency|
      ensures StringLe(byRecency[j].lastUpdatedAt, byRecency[i].lastUpdatedAt)
    {
      assert NewestFirst(byRecency[i], byRecency[j]);
    }
  }

  lemma TruncatedFits(r: Rendered, header: string, byRecency: seq<Recipe>, maxBytes: nat)
    requires maxBytes >= 2 * FOOTER_RESERVATION_BYTES && |byRecency| < 0x1_0000_0000
    requires IsTruncated(r, header, byRecency, EntryBudget(maxBytes))
    requires ByteLength(header) <= EntryBudget(maxBytes)
    ensures ByteLength(r.content) <= maxBytes
  {
    var body := header + RenderEntries(byRecency[..r.shown]);
    FooterFits(|byRecency| - r.shown);
    ByteLengthAppend(body, RenderFooter(|byRecency| - r.shown));
    if r.shown == 0 { assert body == header + "" == header; }
  }
}
