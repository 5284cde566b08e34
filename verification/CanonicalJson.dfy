/**
  The canonical serialiser `stableStringify` (packages/db/src/audit-events.ts,
  repeated in policy-projection.ts and claude-permissions.ts): JSON text with
  the keys of every object sorted.

  A number stands as its printed numeral, which is how number printing being
  injective enters the model. An object is its own keys in insertion order
  and the value of each key.
*/
module CanonicalJson {
  import opened Collections
  import opened Text

  datatype Json =
    | JNull
    | JBool(b: bool)
    | JNumber(numeral: string)
    | JString(s: string)
    | JArray(items: seq<Json>)
    | JObject(keys: seq<string>, fields: map<string, Json>)

  predicate NumeralChar(c: char) {
    '0' <= c <= '9' || c in {'+', '-', '.', 'e', 'E'}
  }

  /** How many leading characters are digits. */
  function Digits(s: string): (n: nat)
    ensures n <= |s|
  {
    if s == "" || !('0' <= s[0] <= '9') then 0 else 1 + Digits(s[1..])
  }

  /** A number of section 6 of RFC 8259: an optional minus, digits without a leading zero, a fraction, an exponent. */
  predicate Numeral(s: string) {
    var t := if "-" <= s then s[1..] else s;
    var n := Digits(t);
    n > 0 && (t[0] == '0' ==> n == 1) && Fraction(t[n..])
  }

  predicate Fraction(s: string) {
    if "." <= s then Digits(s[1..]) > 0 && Exponent(s[1 + Digits(s[1..])..]) else Exponent(s)
  }

  predicate Exponent(s: string) {
    s == ""
    || ((s[0] == 'e' || s[0] == 'E')
        && var t := if |s| > 1 && (s[1] == '+' || s[1] == '-') then s[2..] else s[1..];
           t != "" && Digits(t) == |t|)
  }

  ghost predicate WellFormed(v: Json) {
    match v
    case JNumber(n) => Numeral(n)
    case JArray(items) => forall i :: 0 <= i < |items| ==> WellFormed(items[i])
    case JObject(keys, fields) =>
      && Distinct(keys)
      && (forall k :: k in keys <==> k in fields)
      && forall k :: k in fields ==> WellFormed(fields[k])
    case _ => true
  }

  // ------------------------------------------------------------- strings

  function HexDigit(n: nat): char
    requires n < 16
  {
    "0123456789abcdef"[n]
  }

  /** Escapes of section 7 of RFC 8259, as JSON.stringify chooses them. */
  function Escape(c: char): string {
    if c == '"' then "\\\""
    else if c == '\\' then "\\\\"
    else if c == '\U{0008}' then "\\b"
    else if c == '\t' then "\\t"
    else if c == '\n' then "\\n"
    else if c == '\U{000C}' then "\\f"
    else if c == '\r' then "\\r"
    else if c < ' ' then "\\u00" + [HexDigit(c as int / 16), HexDigit(c as int % 16)]
    else [c]
  }

  function EscapeAll(s: string): string {
    if s == "" then "" else Escape(s[0]) + EscapeAll(s[1..])
  }

  function Quote(s: string): string {
    "\"" + EscapeAll(s) + "\""
  }

  // ---------------------------------------------------------- serialiser

  function Commas(parts: seq<string>): string {
    if parts == [] then ""
    else if |parts| == 1 then parts[0]
    else parts[0] + "," + Commas(parts[1..])
  }

  function Stringify(v: Json): string
    requires WellFormed(v)
  {
    match v
    case JNull => "null"
    case JBool(b) => if b then "true" else "false"
    case JNumber(n) => n
    case JString(s) => Quote(s)
    case JArray(items) => "[" + Commas(seq(|items|, i requires 0 <= i < |items| => Stringify(items[i]))) + "]"
    case JObject(keys, fields) =>
      SortMembers(keys, StringLe);
      var sorted := Sort(keys, StringLe);
      assert forall i :: 0 <= i < |sorted| ==> sorted[i] in keys;
      "{" + Commas(seq(|sorted|, i requires 0 <= i < |sorted| =>
                                   Quote(sorted[i]) + ":" + Stringify(fields[sorted[i]]))) + "}"
  }

  /** Equal up to the order of object keys. */
  ghost predicate Same(u: Json, v: Json) {
    match (u, v)
    case (JArray(a), JArray(b)) => |a| == |b| && forall i :: 0 <= i < |a| ==> Same(a[i], b[i])
    case (JObject(_, f), JObject(_, g)) => f.Keys == g.Keys && forall k :: k in f ==> Same(f[k], g[k])
    case _ => u == v
  }

  // ----------------------------------------- same value, therefore same text

  lemma SortedKeysAgree(a: seq<string>, b: seq<string>)
    requires Distinct(a) && Distinct(b) && forall k :: k in a <==> k in b
    ensures Sort(a, StringLe) == Sort(b, StringLe)
  {
    DistinctSameMembers(a, b);
    StringOrder();
    SortCanonical(a, b, StringLe);
  }

  lemma {:induction false} SameText(u: Json, v: Json)
    requires WellFormed(u) && WellFormed(v) && Same(u, v)
    ensures Stringify(u) == Stringify(v)
    decreases u
  {
    match u {
      case JArray(a) =>
        var b := v.items;
        forall i | 0 <= i < |a| ensures Stringify(a[i]) == Stringify(b[i]) { SameText(a[i], b[i]); }
        assert seq(|a|, i requires 0 <= i < |a| => Stringify(a[i]))
            == seq(|b|, i requires 0 <= i < |b| => Stringify(b[i]));
      case JObject(keys, f) =>
        var g := v.fields;
        SortedKeysAgree(keys, v.keys);
        SortMembers(keys, StringLe);
        var sorted := Sort(keys, StringLe);
        forall k | k in f ensures Stringify(f[k]) == Stringify(g[k]) { SameText(f[k], g[k]); }
        forall i | 0 <= i < |sorted| ensures sorted[i] in f { assert sorted[i] in sorted; }
        assert seq(|sorted|, i requires 0 <= i < |sorted| => Quote(sorted[i]) + ":" + Stringify(f[sorted[i]]))
            == seq(|sorted|, i requires 0 <= i < |sorted| => Quote(sorted[i]) + ":" + Stringify(g[sorted[i]]));
      case _ =>
    }
  }

  // ------------------------------------------------- reading JSON text back

  /** What a reader makes of the front of a text, and the text after it. */
  datatype Parsed<+T> = Bad | Got(value: T, rest: string)

  /** The characters that may follow a backslash, `u` apart, and what they stand for (section 7 of RFC 8259). */
  function Unescaped(c: char): Option<char> {
    match c
    case '"' => Some('"')
    case '\\' => Some('\\')
    case '/' => Some('/')
    case 'b' => Some('\U{0008}')
    case 'f' => Some('\U{000C}')
    case 'n' => Some('\n')
    case 'r' => Some('\r')
    case 't' => Some('\t')
    case _ => None
  }

  function HexValue(c: char): Option<nat> {
    if '0' <= c <= '9' then Some(c as int - '0' as int)
    else if 'a' <= c <= 'f' then Some(10 + c as int - 'a' as int)
    else if 'A' <= c <= 'F' then Some(10 + c as int - 'A' as int)
    else None
  }

  /** Four hexadecimal digits; surrogates are not characters here. */
  function ReadHex(s: string): Option<char>
    requires |s| >= 4
  {
    var a, b, c, d := HexValue(s[0]), HexValue(s[1]), HexValue(s[2]), HexValue(s[3]);
    if a.None? || b.None? || c.None? || d.None? then None
    else
      var code := ((a.value * 16 + b.value) * 16 + c.value) * 16 + d.value;
      if code < 0xD800 || 0xE000 <= code < 0x10000 then Some(code as char) else None
  }

  /** One character of a string. */
  function ReadChar(s: string): (p: Parsed<char>)
    ensures p.Got? ==> |p.rest| < |s|
  {
    if s == "" || s[0] == '"' || s[0] < ' ' then Bad
    else if s[0] != '\\' then Got(s[0], s[1..])
    else if |s| == 1 then Bad
    else if s[1] == 'u' then
      if |s| < 6 || ReadHex(s[2..]).None? then Bad else Got(ReadHex(s[2..]).value, s[6..])
    else if Unescaped(s[1]).None? then Bad
    else Got(Unescaped(s[1]).value, s[2..])
  }

  /** Characters up to the closing quote. */
  function ReadChars(s: string): (p: Parsed<string>)
    ensures p.Got? ==> |p.rest| < |s|
    decreases |s|
  {
    if s != "" && s[0] == '"' then Got("", s[1..])
    else
      var first := ReadChar(s);
      if first.Bad? then Bad
      else
        var more := ReadChars(first.rest);
        if more.Bad? then Bad else Got([first.value] + more.value, more.rest)
  }

  function ReadString(s: string): (p: Parsed<string>)
    ensures p.Got? ==> |p.rest| < |s|
  {
    if s != "" && s[0] == '"' then ReadChars(s[1..]) else Bad
  }

  /** How many leading characters can belong to a numeral. */
  function NumeralSpan(s: string): (n: nat)
    ensures n <= |s|
  {
    if s == "" || !NumeralChar(s[0]) then 0 else 1 + NumeralSpan(s[1..])
  }

  function ReadText(s: string): (p: Parsed<Json>)
    ensures p.Got? ==> |p.rest| < |s|
  {
    var p := ReadString(s);
    if p.Bad? then Bad else Got(JString(p.value), p.rest)
  }

  function ReadNumeral(s: string): (p: Parsed<Json>)
    ensures p.Got? ==> |p.rest| < |s|
  {
    var n := NumeralSpan(s);
    if Numeral(s[..n]) then Got(JNumber(s[..n]), s[n..]) else Bad
  }

  function ReadWord(word: string, v: Json, s: string): (p: Parsed<Json>)
    requires word != ""
    ensures p.Got? ==> |p.rest| < |s|
  {
    if word <= s then Got(v, s[|word|..]) else Bad
  }

  /** One value: text of section 2 of RFC 8259 without white space, which the printer never writes. */
  function ReadValue(s: string): (p: Parsed<Json>)
    ensures p.Got? ==> |p.rest| < |s|
    decreases |s|, 0
  {
    if s == "" then Bad
    else if s[0] == 'n' then ReadWord("null", JNull, s)
    else if s[0] == 't' then ReadWord("true", JBool(true), s)
    else if s[0] == 'f' then ReadWord("false", JBool(false), s)
    else if s[0] == '"' then ReadText(s)
    else if s[0] == '[' then ReadArray(s[1..])
    else if s[0] == '{' then ReadObject(s[1..])
    else ReadNumeral(s)
  }

  /** What follows an opening bracket. */
  function ReadArray(s: string): (p: Parsed<Json>)
    ensures p.Got? ==> |p.rest| < |s|
    decreases |s|, 2
  {
    if s != "" && s[0] == ']' then Got(JArray([]), s[1..])
    else
      var p := ReadItems(s);
      if p.Bad? then Bad else Got(JArray(p.value), p.rest)
  }

  /** What follows an opening brace. */
  function ReadObject(s: string): (p: Parsed<Json>)
    ensures p.Got? ==> |p.rest| < |s|
    decreases |s|, 2
  {
    if s != "" && s[0] == '}' then Got(JObject([], map[]), s[1..])
    else
      var p := ReadMembers(s);
      if p.Bad? then Bad else Got(JObject(Map(p.value, Name), FieldsOf(p.value)), p.rest)
  }

  /** Values separated by commas, and the closing bracket. */
  function ReadItems(s: string): (p: Parsed<seq<Json>>)
    ensures p.Got? ==> |p.rest| < |s|
    decreases |s|, 1
  {
    var first := ReadValue(s);
    if first.Bad? || first.rest == "" then Bad
    else if first.rest[0] == ']' then Got([first.value], first.rest[1..])
    else if first.rest[0] == ',' then
      var more := ReadItems(first.rest[1..]);
      if more.Bad? then Bad else Got([first.value] + more.value, more.rest)
    else Bad
  }

  /** Members separated by commas, and the closing brace. */
  function ReadMembers(s: string): (p: Parsed<seq<(string, Json)>>)
    ensures p.Got? ==> |p.rest| < |s|
    decreases |s|, 1
  {
    var name := ReadString(s);
    if name.Bad? || name.rest == "" || name.rest[0] != ':' then Bad
    else
      var v := ReadValue(name.rest[1..]);
      if v.Bad? || v.rest == "" then Bad
      else if v.rest[0] == '}' then Got([(name.value, v.value)], v.rest[1..])
      else if v.rest[0] == ',' then
        var more := ReadMembers(v.rest[1..]);
        if more.Bad? then Bad else Got([(name.value, v.value)] + more.value, more.rest)
      else Bad
  }

  function Name(m: (string, Json)): string { m.0 }

  /** The value of each name; a repeated name counts last. */
  function FieldsOf(members: seq<(string, Json)>): map<string, Json> {
    if members == [] then map[]
    else FieldsOf(members[..|members| - 1])[members[|members| - 1].0 := members[|members| - 1].1]
  }

  function Read(s: string): Option<Json> {
    var p := ReadValue(s);
    if p.Got? && p.rest == "" then Some(p.value) else None
  }

  // ------------------------------------------------ what is printed, read back

  lemma Cancel(a: string, s: string, t: string)
    requires a + s == a + t
    ensures s == t
  {
    assert (a + s)[|a|..] == s && (a + t)[|a|..] == t;
  }

  lemma Shift(a: string, b: string, c: string, d: string)
    ensures a + b + c + d == a + (b + (c + d))
  {
  }

  /** The value with the keys of every object in order. */
  function Canon(v: Json): Json {
    match v
    case JArray(items) => JArray(seq(|items|, i requires 0 <= i < |items| => Canon(items[i])))
    case JObject(keys, fields) => JObject(Sort(keys, StringLe), map k | k in fields :: Canon(fields[k]))
    case _ => v
  }

  lemma ReadsEscape(c: char, s: string)
    ensures ReadChar(Escape(c) + s) == Got(c, s)
    ensures Escape(c) + s != "" && (Escape(c) + s)[0] != '"'
  {
    var t := Escape(c) + s;
    assert t[|Escape(c)|..] == s;
    if c < ' ' && |Escape(c)| == 6 {
      assert t[2..][0] == '0' && t[2..][1] == '0';
      assert t[2..][2] == HexDigit(c as int / 16) && t[2..][3] == HexDigit(c as int % 16);
      HexDigitValue(c as int / 16);
      HexDigitValue(c as int % 16);
    }
  }

  lemma HexDigitValue(n: nat)
    requires n < 16
    ensures HexValue(HexDigit(n)) == Some(n)
  {
  }

  lemma EscapesFirst(a: string, t: string)
    requires a != ""
    ensures EscapeAll(a) + t == Escape(a[0]) + (EscapeAll(a[1..]) + t)
  {
  }

  lemma CharThenChars(s: string, c: char, rest: string)
    requires s != "" && s[0] != '"' && ReadChar(s) == Got(c, rest)
    ensures ReadChars(s)
            == if ReadChars(rest).Bad? then Bad else Got([c] + ReadChars(rest).value, ReadChars(rest).rest)
  {
  }

  lemma {:induction false} ReadsEscapes(a: string, s: string)
    ensures ReadChars(EscapeAll(a) + ("\"" + s)) == Got(a, s)
  {
    var end := "\"" + s;
    if a == "" {
      assert EscapeAll(a) + end == end && end[1..] == s;
    } else {
      var more := EscapeAll(a[1..]) + end;
      EscapesFirst(a, end);
      ReadsEscape(a[0], more);
      CharThenChars(Escape(a[0]) + more, a[0], more);
      ReadsEscapes(a[1..], s);
      assert a == [a[0]] + a[1..];
    }
  }

  /** Every string reads back from its quoted form. */
  lemma ReadsQuote(a: string, s: string)
    ensures ReadString(Quote(a) + s) == Got(a, s)
  {
    Shift("\"", EscapeAll(a), "\"", s);
    ReadsEscapes(a, s);
  }

  /** What may follow a value inside a larger text. */
  predicate Ends(s: string) {
    s == "" || s[0] in {',', ']', '}'}
  }

  lemma {:induction false} SpanOfNumeral(m: string, s: string)
    requires Ends(s) && forall i :: 0 <= i < |m| ==> NumeralChar(m[i])
    ensures NumeralSpan(m + s) == |m|
  {
    if m == "" {
      assert m + s == s;
    } else {
      assert (m + s)[1..] == m[1..] + s;
      SpanOfNumeral(m[1..], s);
    }
  }

  lemma {:induction false} DigitsAreDigits(s: string)
    ensures forall i :: 0 <= i < Digits(s) ==> '0' <= s[i] <= '9'
  {
    if s != "" && '0' <= s[0] <= '9' { DigitsAreDigits(s[1..]); }
  }

  predicate AllNumeralChars(s: string) { forall i :: 0 <= i < |s| ==> NumeralChar(s[i]) }

  lemma DigitsThen(s: string)
    requires AllNumeralChars(s[Digits(s)..])
    ensures AllNumeralChars(s)
  {
    DigitsAreDigits(s);
    forall i | 0 <= i < |s| ensures NumeralChar(s[i]) {
      if i >= Digits(s) { assert s[i] == s[Digits(s)..][i - Digits(s)]; }
    }
  }

  lemma CharThen(s: string)
    requires s != "" && NumeralChar(s[0]) && AllNumeralChars(s[1..])
    ensures AllNumeralChars(s)
  {
    forall i | 0 <= i < |s| ensures NumeralChar(s[i]) {
      if i > 0 { assert s[i] == s[1..][i - 1]; }
    }
  }

  lemma ExponentChars(s: string)
    requires Exponent(s)
    ensures AllNumeralChars(s)
  {
    if s != "" {
      var signed := |s| > 1 && (s[1] == '+' || s[1] == '-');
      var t := if signed then s[2..] else s[1..];
      DigitsThen(t);
      if signed {
        assert s[1..][1..] == s[2..];
        CharThen(s[1..]);
      }
      CharThen(s);
    }
  }

  lemma FractionChars(s: string)
    requires Fraction(s)
    ensures AllNumeralChars(s)
  {
    if "." <= s {
      var t := s[1..];
      assert s[1 + Digits(t)..] == t[Digits(t)..];
      ExponentChars(t[Digits(t)..]);
      DigitsThen(t);
      CharThen(s);
    } else {
      ExponentChars(s);
    }
  }

  lemma NumeralChars(s: string)
    requires Numeral(s)
    ensures AllNumeralChars(s) && s != "" && ('0' <= s[0] <= '9' || s[0] == '-')
  {
    var t := if "-" <= s then s[1..] else s;
    DigitsAreDigits(t);
    FractionChars(t[Digits(t)..]);
    DigitsThen(t);
    if "-" <= s { CharThen(s); }
  }

  lemma ReadsNumeral(m: string, s: string)
    requires Numeral(m) && Ends(s)
    ensures ReadValue(m + s) == Got(JNumber(m), s)
  {
    NumeralChars(m);
    SpanOfNumeral(m, s);
    var t := m + s;
    assert t[0] == m[0] && t[..|m|] == m && t[|m|..] == s;
  }

  function ItemTexts(items: seq<Json>): seq<string>
    requires forall i :: 0 <= i < |items| ==> WellFormed(items[i])
  {
    seq(|items|, i requires 0 <= i < |items| => Stringify(items[i]))
  }

  function FieldTexts(keys: seq<string>, f: map<string, Json>): seq<string>
    requires forall i :: 0 <= i < |keys| ==> keys[i] in f && WellFormed(f[keys[i]])
  {
    seq(|keys|, i requires 0 <= i < |keys| => Quote(keys[i]) + ":" + Stringify(f[keys[i]]))
  }

  function SortedKeys(u: Json): (r: seq<string>)
    requires u.JObject? && WellFormed(u)
    ensures forall x :: x in r <==> x in u.fields
    ensures |r| == |u.keys|
  {
    SortMembers(u.keys, StringLe);
    SortPermutes(u.keys, StringLe);
    Sort(u.keys, StringLe)
  }

  lemma Peel(head: string, rest: seq<string>, close: string, s: string)
    ensures Commas([head] + rest) + (close + s)
            == head + ((if rest == [] then close else "," + Commas(rest) + close) + s)
  {
    assert ([head] + rest)[1..] == rest;
  }

  lemma PeelItem(a: seq<Json>, s: string)
    requires a != [] && forall i :: 0 <= i < |a| ==> WellFormed(a[i])
    ensures var x := ItemTexts(a[1..]);
            Commas(ItemTexts(a)) + ("]" + s)
            == Stringify(a[0]) + ((if x == [] then "]" else "," + Commas(x) + "]") + s)
  {
    assert ItemTexts(a) == [Stringify(a[0])] + ItemTexts(a[1..]);
    Peel(Stringify(a[0]), ItemTexts(a[1..]), "]", s);
  }

  lemma PeelField(j: seq<string>, f: map<string, Json>, s: string)
    requires j != [] && forall i :: 0 <= i < |j| ==> j[i] in f && WellFormed(f[j[i]])
    ensures var x := FieldTexts(j[1..], f);
            Commas(FieldTexts(j, f)) + ("}" + s)
            == Quote(j[0]) + (":" + (Stringify(f[j[0]]) + ((if x == [] then "}" else "," + Commas(x) + "}") + s)))
  {
    var x := FieldTexts(j[1..], f);
    var c := Quote(j[0]) + ":" + Stringify(f[j[0]]);
    FieldTextsCons(j, f);
    Peel(c, x, "}", s);
    Shift(Quote(j[0]), ":", Stringify(f[j[0]]), (if x == [] then "}" else "," + Commas(x) + "}") + s);
  }

  lemma FieldTextsCons(j: seq<string>, f: map<string, Json>)
    requires j != [] && forall i :: 0 <= i < |j| ==> j[i] in f && WellFormed(f[j[i]])
    ensures FieldTexts(j, f) == [Quote(j[0]) + ":" + Stringify(f[j[0]])] + FieldTexts(j[1..], f)
  {
    assert forall i :: 0 < i < |j| ==> j[1..][i - 1] == j[i];
  }

  lemma ArrayText(u: Json, s: string)
    requires u.JArray? && WellFormed(u)
    ensures Stringify(u) + s == "[" + (Commas(ItemTexts(u.items)) + ("]" + s))
  {
    Shift("[", Commas(ItemTexts(u.items)), "]", s);
  }

  lemma ObjectPrints(u: Json)
    requires u.JObject? && WellFormed(u)
    ensures Stringify(u) == "{" + Commas(FieldTexts(SortedKeys(u), u.fields)) + "}"
  {
    var sorted := SortedKeys(u);
    assert seq(|sorted|, i requires 0 <= i < |sorted| => Quote(sorted[i]) + ":" + Stringify(u.fields[sorted[i]]))
        == FieldTexts(sorted, u.fields);
  }

  lemma ObjectText(u: Json, s: string)
    requires u.JObject? && WellFormed(u)
    ensures Stringify(u) + s == ['{'] + (Commas(FieldTexts(SortedKeys(u), u.fields)) + ("}" + s))
  {
    ObjectPrints(u);
    Shift("{", Commas(FieldTexts(SortedKeys(u), u.fields)), "}", s);
  }

  function Canons(items: seq<Json>): seq<Json> {
    seq(|items|, i requires 0 <= i < |items| => Canon(items[i]))
  }

  lemma {:induction false} ReadsValue(v: Json, s: string)
    requires WellFormed(v) && Ends(s)
    ensures ReadValue(Stringify(v) + s) == Got(Canon(v), s)
    decreases v, 1
  {
    match v {
      case JNumber(n) => ReadsNumeral(n, s);
      case JString(x) =>
        ReadsQuote(x, s);
        assert (Quote(x) + s)[0] == '"';
      case JBool(b) => ReadsLiteral(if b then "true" else "false", s);
      case JArray(_) => ReadsArray(v, s);
      case JObject(_, _) => ReadsObject(v, s);
      case JNull => ReadsLiteral("null", s);
    }
  }

  lemma ReadsLiteral(word: string, s: string)
    requires word in {"null", "true", "false"}
    ensures ReadValue(word + s)
            == Got(if word == "null" then JNull else if word == "true" then JBool(true) else JBool(false), s)
  {
    var t := word + s;
    assert t[|word|..] == s && t[0] == word[0] && word <= t;
  }

  lemma Opened(c: char, inner: string)
    ensures ([c] + inner)[0] == c && ([c] + inner)[1..] == inner
    ensures c == '{' ==> ReadValue([c] + inner) == ReadObject(inner)
    ensures c == '[' ==> ReadValue([c] + inner) == ReadArray(inner)
  {
  }

  lemma {:induction false} ReadsArray(v: Json, s: string)
    requires v.JArray? && WellFormed(v) && Ends(s)
    ensures ReadValue(Stringify(v) + s) == Got(Canon(v), s)
    decreases v, 0, |v.items| + 1
  {
    ArrayText(v, s);
    var inner := Commas(ItemTexts(v.items)) + ("]" + s);
    if v.items == [] {
      assert inner == "]" + s;
    } else {
      ItemsStart(v.items, s);
      ReadsItems(v, v.items, s);
    }
    Opened('[', inner);
    assert Canon(v).items == Canons(v.items);
  }

  /** What follows the first item or member: more of them behind a comma, or the end. */
  function Tail(x: seq<string>, close: string): string {
    if x == [] then close else "," + Commas(x) + close
  }

  lemma TailEnds(close: string, s: string)
    requires close == "]" || close == "}"
    ensures Ends(close + s) && close + s != "" && (close + s)[0] == close[0] && (close + s)[1..] == s
  {
    assert |close| == 1;
    assert (close + s)[|close|..] == s;
  }

  lemma TailGoesOn(x: seq<string>, close: string, s: string)
    requires x != []
    ensures var t := Tail(x, close) + s;
            Ends(t) && t != "" && t[0] == ',' && t[1..] == Commas(x) + (close + s)
  {
    var more := Commas(x) + (close + s);
    assert Tail(x, close) + s == "," + more;
    assert ("," + more)[1..] == more;
  }

  lemma CanonsCons(a: seq<Json>)
    requires a != []
    ensures Canons(a) == [Canon(a[0])] + Canons(a[1..])
    ensures |a| == 1 ==> Canons(a) == [Canon(a[0])]
  {
  }

  lemma LastItem(s: string, v: Json, t: string)
    requires ReadValue(s) == Got(v, t) && t != "" && t[0] == ']'
    ensures ReadItems(s) == Got([v], t[1..])
  {
  }

  lemma NextItem(s: string, v: Json, t: string, more: seq<Json>, rest: string)
    requires ReadValue(s) == Got(v, t) && t != "" && t[0] == ',' && ReadItems(t[1..]) == Got(more, rest)
    ensures ReadItems(s) == Got([v] + more, rest)
  {
  }

  lemma {:induction false} ReadsItems(v: Json, a: seq<Json>, s: string)
    requires a != [] && forall i :: 0 <= i < |a| ==> WellFormed(a[i]) && a[i] < v
    ensures ReadItems(Commas(ItemTexts(a)) + ("]" + s)) == Got(Canons(a), s)
    decreases v, 0, |a|
  {
    var x := ItemTexts(a[1..]);
    var rest := Tail(x, "]") + s;
    PeelItem(a, s);
    if |a| == 1 {
      TailEnds("]", s);
      ReadsValue(a[0], rest);
      LastItem(Stringify(a[0]) + rest, Canon(a[0]), rest);
    } else {
      TailGoesOn(x, "]", s);
      ReadsValue(a[0], rest);
      ReadsItems(v, a[1..], s);
      NextItem(Stringify(a[0]) + rest, Canon(a[0]), rest, Canons(a[1..]), s);
    }
    CanonsCons(a);
  }

  lemma FirstChar(v: Json)
    requires WellFormed(v)
    ensures Stringify(v) != "" && Stringify(v)[0] !in {']', '}'}
  {
    if v.JNumber? { NumeralChars(v.numeral); }
    if v.JArray? || v.JObject? || v.JString? {
      assert Stringify(v)[0] == if v.JArray? then '[' else if v.JObject? then '{' else '"';
    }
  }

  lemma ItemsStart(a: seq<Json>, s: string)
    requires a != [] && forall i :: 0 <= i < |a| ==> WellFormed(a[i])
    ensures var t := Commas(ItemTexts(a)) + ("]" + s); t != "" && t[0] != ']'
  {
    PeelItem(a, s);
    FirstChar(a[0]);
  }

  function Members(j: seq<string>, f: map<string, Json>): seq<(string, Json)>
    requires forall i :: 0 <= i < |j| ==> j[i] in f
  {
    seq(|j|, i requires 0 <= i < |j| => (j[i], Canon(f[j[i]])))
  }

  lemma {:induction false} ReadsObject(v: Json, s: string)
    requires v.JObject? && WellFormed(v) && Ends(s)
    ensures ReadValue(Stringify(v) + s) == Got(Canon(v), s)
    decreases v, 0, |v.keys| + 2
  {
    var inner := Commas(FieldTexts(SortedKeys(v), v.fields)) + ("}" + s);
    ObjectText(v, s);
    Opened('{', inner);
    ReadsFields(v, s);
  }

  lemma {:induction false} ReadsFields(v: Json, s: string)
    requires v.JObject? && WellFormed(v) && Ends(s)
    ensures ReadObject(Commas(FieldTexts(SortedKeys(v), v.fields)) + ("}" + s)) == Got(Canon(v), s)
    decreases v, 0, |v.keys| + 1
  {
    var j := SortedKeys(v);
    if j == [] {
      TailEnds("}", s);
      assert v.fields == map[];
      assert Commas(FieldTexts(j, v.fields)) + ("}" + s) == "}" + s;
    } else {
      FieldsStart(j, v.fields, s);
      ReadsMembers(v, j, v.fields, s);
      MembersMakeObject(v);
    }
  }

  lemma FieldsStart(j: seq<string>, f: map<string, Json>, s: string)
    requires j != [] && forall i :: 0 <= i < |j| ==> j[i] in f && WellFormed(f[j[i]])
    ensures var t := Commas(FieldTexts(j, f)) + ("}" + s); t != "" && t[0] == '"'
  {
    PeelField(j, f, s);
  }

  lemma MembersCons(j: seq<string>, f: map<string, Json>)
    requires j != [] && forall i :: 0 <= i < |j| ==> j[i] in f
    ensures Members(j, f) == [(j[0], Canon(f[j[0]]))] + Members(j[1..], f)
    ensures |j| == 1 ==> Members(j, f) == [(j[0], Canon(f[j[0]]))]
  {
  }

  lemma LastMember(s: string, name: string, after: string, v: Json, t: string)
    requires ReadString(s) == Got(name, ":" + after) && ReadValue(after) == Got(v, t) && t != "" && t[0] == '}'
    ensures ReadMembers(s) == Got([(name, v)], t[1..])
  {
    assert (":" + after)[1..] == after;
  }

  lemma NextMember(s: string, name: string, after: string, v: Json, t: string, more: seq<(string, Json)>, rest: string)
    requires ReadString(s) == Got(name, ":" + after) && ReadValue(after) == Got(v, t)
    requires t != "" && t[0] == ',' && ReadMembers(t[1..]) == Got(more, rest)
    ensures ReadMembers(s) == Got([(name, v)] + more, rest)
  {
    assert (":" + after)[1..] == after;
  }

  lemma {:induction false} ReadsMembers(v: Json, j: seq<string>, f: map<string, Json>, s: string)
    requires j != [] && forall i :: 0 <= i < |j| ==> j[i] in f && WellFormed(f[j[i]]) && f[j[i]] < v
    ensures ReadMembers(Commas(FieldTexts(j, f)) + ("}" + s)) == Got(Members(j, f), s)
    decreases v, 0, |j|
  {
    var x := FieldTexts(j[1..], f);
    var rest := Tail(x, "}") + s;
    var u := f[j[0]];
    var after := Stringify(u) + rest;
    PeelField(j, f, s);
    ReadsQuote(j[0], ":" + after);
    if |j| == 1 {
      TailEnds("}", s);
      ReadsValue(u, rest);
      LastMember(Quote(j[0]) + (":" + after), j[0], after, Canon(u), rest);
    } else {
      TailGoesOn(x, "}", s);
      ReadsValue(u, rest);
      ReadsMembers(v, j[1..], f, s);
      NextMember(Quote(j[0]) + (":" + after), j[0], after, Canon(u), rest, Members(j[1..], f), s);
    }
    MembersCons(j, f);
  }

  lemma {:induction false} FieldsOfMembers(j: seq<string>, f: map<string, Json>)
    requires forall i :: 0 <= i < |j| ==> j[i] in f
    ensures forall k :: k in FieldsOf(Members(j, f)) <==> k in j
    ensures forall k :: k in j ==> FieldsOf(Members(j, f))[k] == Canon(f[k])
  {
    if j != [] {
      var n := |j| - 1;
      FieldsOfMembers(j[..n], f);
      assert j == j[..n] + [j[n]];
      assert Members(j, f)[..n] == Members(j[..n], f);
    }
  }

  lemma MembersMakeObject(v: Json)
    requires v.JObject? && WellFormed(v)
    ensures var ms := Members(SortedKeys(v), v.fields); JObject(Map(ms, Name), FieldsOf(ms)) == Canon(v)
  {
    var j := SortedKeys(v);
    var ms := Members(j, v.fields);
    FieldsOfMembers(j, v.fields);
    assert Map(ms, Name) == j;
    assert FieldsOf(ms) == map k | k in v.fields :: Canon(v.fields[k]);
  }

  /** Every object has its keys, at every depth, once each and in ascending order. */
  ghost predicate KeysAscend(v: Json) {
    match v
    case JArray(items) => forall i :: 0 <= i < |items| ==> KeysAscend(items[i])
    case JObject(keys, fields) =>
      && (forall k :: k in keys <==> k in fields)
      && (forall i, j :: 0 <= i < j < |keys| ==> keys[i] != keys[j] && StringLe(keys[i], keys[j]))
      && forall k :: k in fields ==> KeysAscend(fields[k])
    case _ => true
  }

  lemma {:induction false} CanonAscends(v: Json)
    requires WellFormed(v)
    ensures Same(Canon(v), v) && KeysAscend(Canon(v))
    decreases v
  {
    match v {
      case JArray(items) =>
        forall i | 0 <= i < |items| ensures Same(Canon(items[i]), items[i]) && KeysAscend(Canon(items[i])) {
          CanonAscends(items[i]);
        }
      case JObject(keys, fields) =>
        forall k | k in fields ensures Same(Canon(fields[k]), fields[k]) && KeysAscend(Canon(fields[k])) {
          CanonAscends(fields[k]);
        }
        StringOrder();
        SortSorts(keys, StringLe);
        SortMembers(keys, StringLe);
        SortPermutes(keys, StringLe);
        PermutedDistinct(keys, Sort(keys, StringLe));
      case _ =>
    }
  }

  /** The printed text is JSON, and reading it back by the grammar gives the value, with the members of every object
      in ascending order of their names. */
  lemma StringifyReadsBack(v: Json) returns (w: Json)
    requires WellFormed(v)
    ensures Read(Stringify(v)) == Some(w) && Same(w, v) && KeysAscend(w)
  {
    w := Canon(v);
    ReadsValue(v, "");
    assert Stringify(v) + "" == Stringify(v);
    CanonAscends(v);
  }

  // ----------------------------------------- same text, therefore same value

  lemma {:induction false} CanonDetermines(u: Json, v: Json)
    requires Canon(u) == Canon(v)
    ensures Same(u, v)
    decreases u
  {
    match u {
      case JArray(a) =>
        var b := v.items;
        assert |a| == |Canon(u).items| == |Canon(v).items| == |b|;
        forall i | 0 <= i < |a| ensures Same(a[i], b[i]) {
          assert Canon(u).items[i] == Canon(v).items[i];
          CanonDetermines(a[i], b[i]);
        }
      case JObject(_, f) =>
        var g := v.fields;
        assert f.Keys == Canon(u).fields.Keys == Canon(v).fields.Keys == g.Keys;
        forall k | k in f ensures Same(f[k], g[k]) {
          assert Canon(u).fields[k] == Canon(v).fields[k];
          CanonDetermines(f[k], g[k]);
        }
      case _ =>
    }
  }

  /** The text of a value, with anything behind it that can follow a value, determines both. */
  lemma Unambiguous(u: Json, v: Json, s: string, t: string)
    requires WellFormed(u) && WellFormed(v) && Ends(s) && Ends(t)
    requires Stringify(u) + s == Stringify(v) + t
    ensures Same(u, v) && s == t
  {
    ReadsValue(u, s);
    ReadsValue(v, t);
    CanonDetermines(u, v);
  }

  /** Equal text exactly when equal up to object key order. */
  lemma StringifyCanonical(u: Json, v: Json)
    requires WellFormed(u) && WellFormed(v)
    ensures Stringify(u) == Stringify(v) <==> Same(u, v)
  {
    if Same(u, v) { SameText(u, v); }
    if Stringify(u) == Stringify(v) {
      Unambiguous(u, v, "", "");
    }
  }
}
