/**
  JSON objects with a fixed list of keys, and what it takes to read their values
  back from their canonical text: the payloads that are hashed are built of these.
*/
module JsonRecords {
  import opened Collections
  import opened Text
  import opened CanonicalJson

  ghost predicate Injective(sha256: string -> string) {
    forall s, t :: sha256(s) == sha256(t) ==> s == t
  }

  function Nullable(v: Option<string>): Json {
    if v.None? then JNull else JString(v.value)
  }

  lemma NullableInjective(x: Option<string>, y: Option<string>)
    requires Nullable(x) == Nullable(y)
    ensures x == y
  {
  }

  function Zip(keys: seq<string>, values: seq<Json>): (m: map<string, Json>)
    requires |keys| == |values|
    ensures forall k :: k in m <==> k in keys
  {
    if keys == [] then map[]
    else
      var n := |keys| - 1;
      assert keys == keys[..n] + [keys[n]];
      Zip(keys[..n], values[..n])[keys[n] := values[n]]
  }

  lemma {:induction false} ZipAt(keys: seq<string>, values: seq<Json>, i: nat)
    requires |keys| == |values| && i < |keys| && Distinct(keys)
    ensures Zip(keys, values)[keys[i]] == values[i]
  {
    var n := |keys| - 1;
    if i < n {
      assert keys[..n][i] == keys[i] && keys[i] != keys[n];
      ZipAt(keys[..n], values[..n], i);
    }
  }

  function JsonRecord(keys: seq<string>, values: seq<Json>): Json
    requires |keys| == |values|
  {
    JObject(keys, Zip(keys, values))
  }

  lemma RecordWellFormed(keys: seq<string>, values: seq<Json>)
    requires |keys| == |values| && Distinct(keys)
    requires forall i :: 0 <= i < |values| ==> WellFormed(values[i])
    ensures WellFormed(JsonRecord(keys, values))
  {
    var m := Zip(keys, values);
    forall k | k in m ensures WellFormed(m[k]) {
      var i: nat :| i < |keys| && keys[i] == k;
      ZipAt(keys, values, i);
    }
  }

  /** The member of each name is the value at the place of the name. */
  lemma RecordAt(keys: seq<string>, values: seq<Json>, i: nat)
    requires |keys| == |values| && i < |keys| && Distinct(keys)
    ensures keys[i] in JsonRecord(keys, values).fields && JsonRecord(keys, values).fields[keys[i]] == values[i]
  {
    ZipAt(keys, values, i);
  }

  predicate Member(j: Json, name: string, v: Json) {
    j.JObject? && name in j.fields && j.fields[name] == v
  }

  predicate HasTexts(j: Json, name: string, texts: seq<string>) {
    j.JObject? && name in j.fields && ListsTexts(j.fields[name], texts)
  }

  lemma NamedMember(keys: seq<string>, values: seq<Json>, i: nat, name: string)
    requires |keys| == |values| && i < |keys| && Distinct(keys) && keys[i] == name
    ensures Member(JsonRecord(keys, values), name, values[i])
  {
    RecordAt(keys, values, i);
  }

  /** The printed record reads back as an object with these members. */
  lemma RecordReadsBack(keys: seq<string>, values: seq<Json>) returns (w: Json)
    requires |keys| == |values| && Distinct(keys) && WellFormed(JsonRecord(keys, values))
    ensures Read(Stringify(JsonRecord(keys, values))) == Some(w) && w.JObject? && KeysAscend(w)
    ensures forall k :: k in w.fields <==> k in keys
    ensures forall i :: 0 <= i < |keys| ==> keys[i] in w.fields && Same(w.fields[keys[i]], values[i])
  {
    var v := JsonRecord(keys, values);
    w := StringifyReadsBack(v);
    assert w.fields.Keys == v.fields.Keys;
    forall k ensures k in w.fields <==> k in keys { assert k in v.fields <==> k in keys; }
    forall i | 0 <= i < |keys| ensures keys[i] in w.fields && Same(w.fields[keys[i]], values[i]) {
      RecordAt(keys, values, i);
    }
  }

  /** The member is the text, or null when there is none. */
  predicate HasText(w: Json, name: string, text: Option<string>) {
    w.JObject? && name in w.fields && w.fields[name] == match text case Some(t) => JString(t) case None => JNull
  }

  lemma RecordsSame(keys: seq<string>, a: seq<Json>, b: seq<Json>)
    requires |keys| == |a| == |b| && Distinct(keys)
    requires Same(JsonRecord(keys, a), JsonRecord(keys, b))
    ensures forall i :: 0 <= i < |a| ==> Same(a[i], b[i])
  {
    forall i | 0 <= i < |a| ensures Same(a[i], b[i]) {
      ZipAt(keys, a, i);
      ZipAt(keys, b, i);
      assert keys[i] in Zip(keys, a);
    }
  }

  lemma ScalarsEqual(u: seq<Json>, v: seq<Json>)
    requires |u| == |v| && forall i :: 0 <= i < |u| ==> Same(u[i], v[i])
    requires forall i :: 0 <= i < |u| ==> u[i].JString? || u[i].JNull?
    ensures u == v
  {
    forall i | 0 <= i < |u| ensures u[i] == v[i] {
      assert Same(u[i], v[i]);
    }
  }

  /** Length, first and middle character tell the keys of one payload apart. */
  function KeyCode(k: string): int {
    if k == "" then 0 else |k| * 1000000 + k[0] as int * 1000 + k[|k| / 2] as int
  }

  lemma DistinctByCode(keys: seq<string>, codes: seq<int>)
    requires |keys| == |codes|
    requires forall i :: 0 <= i < |keys| ==> KeyCode(keys[i]) == codes[i]
    requires forall i, j :: 0 <= i < j < |codes| ==> codes[i] != codes[j]
    ensures Distinct(keys)
  {
    forall i, j | 0 <= i < j < |keys| ensures keys[i] != keys[j] {
      assert KeyCode(keys[i]) != KeyCode(keys[j]);
    }
  }

  // ----------------------------------------------------------------- values

  function Strings(values: seq<string>): Json {
    JArray(seq(|values|, i requires 0 <= i < |values| => JString(values[i])))
  }

  lemma StringsWellFormed(values: seq<string>)
    ensures WellFormed(Strings(values))
  {
  }

  lemma StringsDetermine(x: seq<string>, y: seq<string>)
    requires Same(Strings(x), Strings(y))
    ensures x == y
  {
    forall i | 0 <= i < |x| ensures |x| == |y| && x[i] == y[i] {
      assert Same(Strings(x).items[i], Strings(y).items[i]);
    }
    assert |x| == |Strings(x).items| == |Strings(y).items| == |y|;
  }

  function Number(n: nat): Json { JNumber(Decimal(n)) }

  lemma {:induction false} DecimalDigits(n: nat)
    ensures var s := Decimal(n);
            && s != "" && (forall i :: 0 <= i < |s| ==> '0' <= s[i] <= '9')
            && (s[0] == '0' <==> n == 0) && (n == 0 ==> |s| == 1)
  {
    if n >= 10 { DecimalDigits(n / 10); }
  }

  lemma {:induction false} AllDigits(s: string)
    requires forall i :: 0 <= i < |s| ==> '0' <= s[i] <= '9'
    ensures Digits(s) == |s|
  {
    if s != "" { AllDigits(s[1..]); }
  }

  lemma NumberWellFormed(n: nat)
    ensures WellFormed(Number(n))
  {
    DecimalDigits(n);
    AllDigits(Decimal(n));
  }

  function NullableNumber(v: Option<nat>): Json {
    if v.None? then JNull else Number(v.value)
  }

  lemma NumberDetermines(m: nat, n: nat)
    requires Same(Number(m), Number(n))
    ensures m == n
  {
    DecimalReadsBack(m);
    DecimalReadsBack(n);
  }

  lemma NullableNumberDetermines(x: Option<nat>, y: Option<nat>)
    requires Same(NullableNumber(x), NullableNumber(y))
    ensures x == y
  {
    if x.Some? && y.Some? { NumberDetermines(x.value, y.value); }
  }

  lemma NullableDetermines(x: Option<string>, y: Option<string>)
    requires Same(Nullable(x), Nullable(y))
    ensures x == y
  {
  }

  /** An array of these texts, in this order. */
  predicate ListsTexts(j: Json, texts: seq<string>) {
    j.JArray? && |j.items| == |texts| && forall i :: 0 <= i < |texts| ==> j.items[i] == JString(texts[i])
  }

  lemma NamedTexts(keys: seq<string>, values: seq<Json>, i: nat, name: string, texts: seq<string>)
    requires |keys| == |values| && i < |keys| && Distinct(keys) && keys[i] == name && values[i] == Strings(texts)
    ensures HasTexts(JsonRecord(keys, values), name, texts)
  {
    RecordAt(keys, values, i);
  }

  lemma NamedText(keys: seq<string>, values: seq<Json>, i: nat, name: string, text: Option<string>)
    requires |keys| == |values| && i < |keys| && Distinct(keys) && keys[i] == name && values[i] == Nullable(text)
    ensures HasText(JsonRecord(keys, values), name, text)
  {
    RecordAt(keys, values, i);
  }

  // ------------------------------------------------------ lists of objects

  function Objects<T>(items: seq<T>, json: T -> Json): Json {
    JArray(Map(items, json))
  }

  lemma ObjectsWellFormed<T>(items: seq<T>, json: T -> Json)
    requires forall x :: x in items ==> WellFormed(json(x))
    ensures WellFormed(Objects(items, json))
  {
    forall i | 0 <= i < |items| ensures WellFormed(Map(items, json)[i]) {
      assert items[i] in items;
    }
  }

  lemma ObjectsDetermine<T>(x: seq<T>, y: seq<T>, json: T -> Json)
    requires Same(Objects(x, json), Objects(y, json))
    requires forall u, v :: u in x && v in y && Same(json(u), json(v)) ==> u == v
    ensures x == y
  {
    assert |x| == |Map(x, json)| == |Map(y, json)| == |y|;
    forall i | 0 <= i < |x| ensures x[i] == y[i] {
      assert x[i] in x && y[i] in y;
      assert Same(Map(x, json)[i], Map(y, json)[i]);
    }
  }
}
