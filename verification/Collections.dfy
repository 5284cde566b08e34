/**
  Order-preserving operations on sequences that the table and list models share:
  filtering, stable sorting, and the facts that make a sorted list canonical.
*/
module Collections {

  datatype Option<+T> = None | Some(value: T) {
    function GetOr(default: T): T {
      match this
      case None => default
      case Some(v) => v
    }
  }

  /** The elements of `s` that satisfy `keep`, in order (a SQL WHERE, or Array.filter). */
  function Filter<T>(s: seq<T>, keep: T -> bool): seq<T> {
    if s == [] then []
    else
      var x := s[|s| - 1];
      var r := Filter(s[..|s| - 1], keep);
      if keep(x) then r + [x] else r
  }

  lemma {:induction false} FilterSnoc<T>(s: seq<T>, x: T, keep: T -> bool)
    ensures Filter(s + [x], keep) == if keep(x) then Filter(s, keep) + [x] else Filter(s, keep)
  {
    assert (s + [x])[..|s|] == s;
  }

  lemma {:induction false} FilterAppend<T>(a: seq<T>, b: seq<T>, keep: T -> bool)
    ensures Filter(a + b, keep) == Filter(a, keep) + Filter(b, keep)
  {
    if b == [] {
      assert a + b == a;
    } else {
      var m := |b| - 1;
      assert a + b == (a + b[..m]) + [b[m]];
      FilterSnoc(a + b[..m], b[m], keep);
      FilterAppend(a, b[..m], keep);
      var f, g := Filter(a, keep), Filter(b[..m], keep);
      assert (f + g) + [b[m]] == f + (g + [b[m]]);
    }
  }

  lemma {:induction false} FilterMember<T>(s: seq<T>, keep: T -> bool, x: T)
    ensures x in Filter(s, keep) <==> x in s && keep(x)
  {
    if s != [] {
      FilterMember(s[..|s| - 1], keep, x);
      assert s == s[..|s| - 1] + [s[|s| - 1]];
    }
  }

  lemma {:induction false} FilterMembers<T>(s: seq<T>, keep: T -> bool)
    ensures forall x :: x in Filter(s, keep) <==> x in s && keep(x)
  {
    forall x ensures x in Filter(s, keep) <==> x in s && keep(x) {
      FilterMember(s, keep, x);
    }
  }

  /** Filters that agree on the elements present give the same result. */
  lemma {:induction false} FilterCongruent<T>(s: seq<T>, p: T -> bool, q: T -> bool)
    requires forall x :: x in s ==> p(x) == q(x)
    ensures Filter(s, p) == Filter(s, q)
  {
    if s != [] {
      assert s[|s| - 1] in s;
      FilterCongruent(s[..|s| - 1], p, q);
    }
  }

  lemma {:induction false} FilterKeepsAll<T>(s: seq<T>, keep: T -> bool)
    requires forall x :: x in s ==> keep(x)
    ensures Filter(s, keep) == s
  {
    if s != [] {
      assert s[|s| - 1] in s;
      FilterKeepsAll(s[..|s| - 1], keep);
      assert s == s[..|s| - 1] + [s[|s| - 1]];
    }
  }

  lemma {:induction false} FilterKeepsNone<T>(s: seq<T>, keep: T -> bool)
    requires forall x :: x in s ==> !keep(x)
    ensures Filter(s, keep) == []
  {
    if s != [] {
      assert s[|s| - 1] in s;
      FilterKeepsNone(s[..|s| - 1], keep);
    }
  }

  /** Filtering twice keeps what both filters keep; `both` is the conjunction. */
  lemma {:induction false} FilterTwice<T>(s: seq<T>, p: T -> bool, q: T -> bool, both: T -> bool)
    requires forall x :: x in s ==> both(x) == (p(x) && q(x))
    ensures Filter(Filter(s, p), q) == Filter(s, both)
  {
    if s != [] {
      var m := |s| - 1;
      assert s[m] in s;
      FilterTwice(s[..m], p, q, both);
      FilterSnoc(Filter(s[..m], p), s[m], q);
    }
  }

  /** A filter that only drops elements `q` would drop anyway changes nothing for `q`. */
  lemma {:induction false} FilterStronger<T>(s: seq<T>, p: T -> bool, q: T -> bool)
    requires forall x :: x in s && q(x) ==> p(x)
    ensures Filter(Filter(s, p), q) == Filter(s, q)
  {
    FilterTwice(s, p, q, q);
  }

  lemma {:induction false} FilterCount<T>(s: seq<T>, keep: T -> bool, x: T)
    ensures multiset(Filter(s, keep))[x] == if keep(x) then multiset(s)[x] else 0
  {
    if s != [] {
      var m := |s| - 1;
      FilterCount(s[..m], keep, x);
      MultisetLast(s);
    }
  }

  /** Filtering a permutation gives a permutation. */
  lemma FilterPermutes<T(!new)>(a: seq<T>, b: seq<T>, keep: T -> bool)
    requires multiset(a) == multiset(b)
    ensures multiset(Filter(a, keep)) == multiset(Filter(b, keep))
  {
    forall x ensures multiset(Filter(a, keep))[x] == multiset(Filter(b, keep))[x] {
      FilterCount(a, keep, x);
      FilterCount(b, keep, x);
    }
  }

  predicate Distinct<T(==)>(s: seq<T>) {
    forall i, j :: 0 <= i < j < |s| ==> s[i] != s[j]
  }

  lemma {:induction false} FilterDistinct<T>(s: seq<T>, keep: T -> bool)
    requires Distinct(s)
    ensures Distinct(Filter(s, keep))
  {
    if s != [] {
      var m := |s| - 1;
      FilterDistinct(s[..m], keep);
      FilterMember(s[..m], keep, s[m]);
    }
  }

  /** The distinct elements in order of first appearance (a Set or Map filled in a loop, GROUP BY keys). */
  function FirstSeen<T(==)>(s: seq<T>): seq<T> {
    if s == [] then []
    else
      var r := FirstSeen(s[..|s| - 1]);
      if s[|s| - 1] in r then r else r + [s[|s| - 1]]
  }

  lemma {:induction false} FirstSeenSnoc<T>(s: seq<T>, x: T)
    ensures FirstSeen(s + [x]) == if x in FirstSeen(s) then FirstSeen(s) else FirstSeen(s) + [x]
  {
    assert (s + [x])[..|s|] == s;
  }

  lemma {:induction false} FirstSeenDistinct<T>(s: seq<T>)
    ensures Distinct(FirstSeen(s))
    ensures forall x :: x in FirstSeen(s) <==> x in s
  {
    if s != [] {
      FirstSeenDistinct(s[..|s| - 1]);
      assert s == s[..|s| - 1] + [s[|s| - 1]];
    }
  }

  lemma SeenIsThere<T>(s: seq<T>, x: T)
    ensures x in FirstSeen(s) <==> x in s
  {
    FirstSeenDistinct(s);
  }

  /** The first of two kept elements stands in front of every occurrence of the second. */
  lemma {:induction false} FirstSeenInOrder<T>(s: seq<T>, i: nat, j: nat, q: nat)
    requires i < j < |FirstSeen(s)| && q < |s| && s[q] == FirstSeen(s)[j]
    ensures FirstSeen(s)[i] in s[..q]
  {
    var n := |s| - 1;
    var r := FirstSeen(s[..n]);
    assert FirstSeen(s)[i] == r[i] && r[i] in r;
    SeenIsThere(s[..n], r[i]);
    if q < n {
      assert s[..n][q] == s[q];
      SeenIsThere(s[..n], s[q]);
      FirstSeenInOrder(s[..n], i, j, q);
      assert s[..n][..q] == s[..q];
    }
  }

  lemma {:induction false} FirstSeenFilter<T>(s: seq<T>, keep: T -> bool)
    ensures FirstSeen(Filter(s, keep)) == Filter(FirstSeen(s), keep)
  {
    if s != [] {
      var n := |s| - 1;
      var r := FirstSeen(s[..n]);
      FirstSeenFilter(s[..n], keep);
      FilterMember(r, keep, s[n]);
      FilterSnoc(r, s[n], keep);
      FirstSeenSnoc(Filter(s[..n], keep), s[n]);
    }
  }

  lemma {:induction false} DistinctCount<T>(a: seq<T>, k: T)
    requires Distinct(a)
    ensures multiset(a)[k] == if k in a then 1 else 0
  {
    if a != [] {
      var m := |a| - 1;
      DistinctCount(a[..m], k);
      assert a == a[..m] + [a[m]];
    }
  }

  /** Lists without repeats and with the same members are permutations of each other. */
  lemma DistinctSameMembers<T(!new)>(a: seq<T>, b: seq<T>)
    requires Distinct(a) && Distinct(b) && forall k :: k in a <==> k in b
    ensures multiset(a) == multiset(b)
  {
    forall k ensures multiset(a)[k] == multiset(b)[k] {
      DistinctCount(a, k);
      DistinctCount(b, k);
    }
  }

  lemma PermutedDistinct<T>(a: seq<T>, b: seq<T>)
    requires Distinct(a) && multiset(a) == multiset(b)
    ensures Distinct(b)
  {
    forall i, j | 0 <= i < j < |b| ensures b[i] != b[j] {
      DistinctCount(a, b[j]);
      CountAround(b, j);
    }
  }

  lemma CountAround<T>(b: seq<T>, j: nat)
    requires j < |b|
    ensures multiset(b)[b[j]] == multiset(b[..j])[b[j]] + 1 + multiset(b[j + 1..])[b[j]]
    ensures forall i :: 0 <= i < j && b[i] == b[j] ==> multiset(b[..j])[b[j]] > 0
  {
    assert b == b[..j] + [b[j]] + b[j + 1..];
    forall i | 0 <= i < j && b[i] == b[j] ensures multiset(b[..j])[b[j]] > 0 {
      assert b[..j][i] == b[j];
    }
  }

  // ---------------------------------------------------------------- mapping

  function Map<T, U>(s: seq<T>, f: T -> U): seq<U> {
    seq(|s|, i requires 0 <= i < |s| => f(s[i]))
  }

  lemma MapAppend<T, U>(a: seq<T>, b: seq<T>, f: T -> U)
    ensures Map(a + b, f) == Map(a, f) + Map(b, f)
  {
  }

  /** Array.flatMap. */
  function FlatMap<T, U>(s: seq<T>, f: T -> seq<U>): seq<U> {
    if s == [] then [] else FlatMap(s[..|s| - 1], f) + f(s[|s| - 1])
  }

  lemma {:induction false} FlatMapAppend<T, U>(a: seq<T>, b: seq<T>, f: T -> seq<U>)
    ensures FlatMap(a + b, f) == FlatMap(a, f) + FlatMap(b, f)
  {
    if b == [] {
      assert a + b == a;
    } else {
      var m := |b| - 1;
      assert (a + b)[..|a + b| - 1] == a + b[..m];
      FlatMapAppend(a, b[..m], f);
      assert FlatMap(a, f) + FlatMap(b[..m], f) + f(b[m]) == FlatMap(a, f) + (FlatMap(b[..m], f) + f(b[m]));
    }
  }

  function Without<T>(s: seq<T>, j: nat): seq<T>
    requires j < |s|
  {
    s[..j] + s[j + 1..]
  }

  lemma FlatMapOne<T, U>(x: T, f: T -> seq<U>)
    ensures FlatMap([x], f) == f(x)
  {
    assert [x][..0] == [];
    assert FlatMap([], f) == [];
    assert FlatMap([x], f) == FlatMap([x][..0], f) + f(x);
  }

  lemma FlatMapAround<T, U>(a: seq<T>, x: T, b: seq<T>, f: T -> seq<U>)
    ensures FlatMap(a + [x] + b, f) == FlatMap(a, f) + f(x) + FlatMap(b, f)
  {
    FlatMapAppend(a + [x], b, f);
    FlatMapAppend(a, [x], f);
    FlatMapOne(x, f);
  }

  lemma MiddleOut<T>(a: seq<T>, x: seq<T>, b: seq<T>)
    ensures multiset(a + x + b) == multiset(x) + multiset(a + b)
  {
  }

  lemma Cut<T>(s: seq<T>, j: nat)
    requires j < |s|
    ensures s == s[..j] + [s[j]] + s[j + 1..]
  {
  }

  lemma FlatMapCut<T, U>(s: seq<T>, j: nat, f: T -> seq<U>)
    requires j < |s|
    ensures FlatMap(s, f) == FlatMap(s[..j], f) + f(s[j]) + FlatMap(s[j + 1..], f)
    ensures FlatMap(Without(s, j), f) == FlatMap(s[..j], f) + FlatMap(s[j + 1..], f)
  {
    Cut(s, j);
    FlatMapAround(s[..j], s[j], s[j + 1..], f);
    FlatMapAppend(s[..j], s[j + 1..], f);
  }

  lemma FlatMapPick<T, U>(s: seq<T>, j: nat, f: T -> seq<U>)
    requires j < |s|
    ensures multiset(FlatMap(s, f)) == multiset(f(s[j])) + multiset(FlatMap(Without(s, j), f))
  {
    FlatMapCut(s, j, f);
    MiddleOut(FlatMap(s[..j], f), f(s[j]), FlatMap(s[j + 1..], f));
  }

  /** Reordering a list, and replacing elements by ones with the same key, permutes its flatMap when `f`
      depends on the key alone up to order. */
  lemma {:induction false} FlatMapPermutes<T, K(!new), U>(a: seq<T>, b: seq<T>, key: T -> K, f: T -> seq<U>)
    requires multiset(Map(a, key)) == multiset(Map(b, key))
    requires forall x, y :: x in a && y in b && key(x) == key(y) ==> multiset(f(x)) == multiset(f(y))
    ensures multiset(FlatMap(a, f)) == multiset(FlatMap(b, f))
    decreases |a|
  {
    assert |a| == |multiset(Map(a, key))| == |multiset(Map(b, key))| == |b|;
    if a != [] {
      var m := |a| - 1;
      var j := SameKey(a, m, b, key);
      MapPick(a, m, key);
      MapPick(b, j, key);
      var a', b' := Without(a, m), Without(b, j);
      SameRest(multiset(Map(a', key)), multiset(Map(b', key)), key(a[m]));
      forall x, y | x in a' && y in b' && key(x) == key(y) ensures multiset(f(x)) == multiset(f(y)) {
        assert x in a && y in b;
      }
      FlatMapPermutes(a', b', key, f);
      FlatMapPick(a, m, f);
      FlatMapPick(b, j, f);
      assert a[m] in a && b[j] in b;
    }
  }

  lemma SameRest<K(!new)>(a: multiset<K>, b: multiset<K>, k: K)
    requires a + multiset{k} == b + multiset{k}
    ensures a == b
  {
    forall x ensures a[x] == b[x] {
      assert (a + multiset{k})[x] == (b + multiset{k})[x];
    }
  }

  lemma SameKey<T, K>(a: seq<T>, m: nat, b: seq<T>, key: T -> K) returns (j: nat)
    requires multiset(Map(a, key)) == multiset(Map(b, key)) && m < |a|
    ensures j < |b| && key(b[j]) == key(a[m])
  {
    var ka, kb := Map(a, key), Map(b, key);
    assert ka[m] in multiset(ka);
    assert ka[m] in kb;
    j :| j < |kb| && kb[j] == ka[m];
  }

  lemma MapMember<T, U>(s: seq<T>, f: T -> U, y: U)
    ensures y in Map(s, f) <==> exists x :: x in s && f(x) == y
  {
    if y in Map(s, f) {
      var i :| 0 <= i < |Map(s, f)| && Map(s, f)[i] == y;
      assert s[i] in s && f(s[i]) == y;
    }
    if x :| x in s && f(x) == y {
      var i :| 0 <= i < |s| && s[i] == x;
      assert Map(s, f)[i] == y;
    }
  }

  lemma {:induction false} FlatMapMember<T, U>(s: seq<T>, f: T -> seq<U>, y: U)
    ensures y in FlatMap(s, f) <==> exists x :: x in s && y in f(x)
  {
    if s != [] {
      var m := |s| - 1;
      FlatMapMember(s[..m], f, y);
      assert s == s[..m] + [s[m]];
      assert s[m] in s;
    }
  }

  lemma {:induction false} FlatMapOfSingles<T, U>(s: seq<T>, f: T -> U, g: T -> seq<U>)
    requires forall x :: x in s ==> g(x) == [f(x)]
    ensures FlatMap(s, g) == Map(s, f)
  {
    if s != [] {
      var m := |s| - 1;
      assert s[m] in s;
      FlatMapOfSingles(s[..m], f, g);
      assert Map(s, f) == Map(s[..m], f) + [f(s[m])];
    }
  }

  /** Mapping a reordered list by something that depends on the key alone permutes the result. */
  lemma MapPermutes<T, K(!new), U>(a: seq<T>, b: seq<T>, key: T -> K, f: T -> U)
    requires multiset(Map(a, key)) == multiset(Map(b, key))
    requires forall x, y :: x in a && y in b && key(x) == key(y) ==> f(x) == f(y)
    ensures multiset(Map(a, f)) == multiset(Map(b, f))
  {
    var g := (x: T) => [f(x)];
    FlatMapOfSingles(a, f, g);
    FlatMapOfSingles(b, f, g);
    FlatMapPermutes(a, b, key, g);
  }

  lemma {:induction false} FlatMapOfFilter<T, U>(s: seq<T>, keep: T -> bool, f: T -> U, g: T -> seq<U>)
    requires forall x :: x in s ==> g(x) == if keep(x) then [f(x)] else []
    ensures FlatMap(s, g) == Map(Filter(s, keep), f)
  {
    if s != [] {
      var m := |s| - 1;
      assert s[m] in s;
      FlatMapOfFilter(s[..m], keep, f, g);
      var r := Filter(s[..m], keep);
      assert Map(r + [s[m]], f) == Map(r, f) + [f(s[m])];
    }
  }

  /** A filter that looks only at the key keeps lists reorderings of each other. */
  lemma FilterReorders<T, K(!new)>(a: seq<T>, b: seq<T>, key: T -> K, keep: T -> bool)
    requires multiset(Map(a, key)) == multiset(Map(b, key))
    requires forall x, y :: x in a && y in b && key(x) == key(y) ==> keep(x) == keep(y)
    ensures multiset(Map(Filter(a, keep), key)) == multiset(Map(Filter(b, keep), key))
  {
    var g := (x: T) => if keep(x) then [key(x)] else [];
    FlatMapOfFilter(a, keep, key, g);
    FlatMapOfFilter(b, keep, key, g);
    FlatMapPermutes(a, b, key, g);
  }

  /** Two flatMaps that split a third element by element split it as a whole. */
  lemma {:induction false} FlatMapSplits<T, U>(s: seq<T>, f: T -> seq<U>, g: T -> seq<U>, both: T -> seq<U>)
    requires forall x :: x in s ==> multiset(f(x)) + multiset(g(x)) == multiset(both(x))
    ensures multiset(FlatMap(s, f)) + multiset(FlatMap(s, g)) == multiset(FlatMap(s, both))
  {
    if s != [] {
      assert s[|s| - 1] in s;
      FlatMapSplits(s[..|s| - 1], f, g, both);
    }
  }

  lemma MapPick<T, K>(s: seq<T>, j: nat, key: T -> K)
    requires j < |s|
    ensures multiset(Map(s, key)) == multiset(Map(Without(s, j), key)) + multiset{key(s[j])}
  {
    Cut(s, j);
    MapAppend(s[..j] + [s[j]], s[j + 1..], key);
    MapAppend(s[..j], [s[j]], key);
    MapAppend(s[..j], s[j + 1..], key);
    assert Map([s[j]], key) == [key(s[j])];
    MiddleOut(Map(s[..j], key), [key(s[j])], Map(s[j + 1..], key));
  }

  // ---------------------------------------------------------------- sorting

  ghost predicate TotalPreorder<T(!new)>(le: (T, T) -> bool) {
    && (forall x, y :: le(x, y) || le(y, x))
    && (forall x, y, z :: le(x, y) && le(y, z) ==> le(x, z))
  }

  ghost predicate TotalOrder<T(!new)>(le: (T, T) -> bool) {
    TotalPreorder(le) && forall x, y :: le(x, y) && le(y, x) ==> x == y
  }

  ghost predicate SortedBy<T>(s: seq<T>, le: (T, T) -> bool) {
    forall i, j :: 0 <= i < j < |s| ==> le(s[i], s[j])
  }

  /** Insert after every element that is not above `x`, so equal elements keep their order. */
  function Insert<T>(x: T, s: seq<T>, le: (T, T) -> bool): seq<T> {
    if s == [] then [x]
    else
      var m := |s| - 1;
      if le(s[m], x) then s + [x] else Insert(x, s[..m], le) + [s[m]]
  }

  /** A stable sort (Array.sort, ORDER BY with table order breaking ties). */
  function Sort<T>(s: seq<T>, le: (T, T) -> bool): seq<T> {
    if s == [] then [] else Insert(s[|s| - 1], Sort(s[..|s| - 1], le), le)
  }

  lemma MultisetSnoc<T>(s: seq<T>, x: T)
    ensures multiset(s + [x]) == multiset(s) + multiset{x}
  {
  }

  lemma MultisetLast<T>(s: seq<T>)
    requires s != []
    ensures multiset(s) == multiset(s[..|s| - 1]) + multiset{s[|s| - 1]}
  {
    SnocLast(s);
    MultisetSnoc(s[..|s| - 1], s[|s| - 1]);
  }

  lemma {:induction false} InsertPermutes<T>(x: T, s: seq<T>, le: (T, T) -> bool)
    ensures multiset(Insert(x, s, le)) == multiset(s) + multiset{x}
  {
    if s != [] {
      var m := |s| - 1;
      if le(s[m], x) {
        MultisetSnoc(s, x);
      } else {
        InsertPermutes(x, s[..m], le);
        MultisetSnoc(Insert(x, s[..m], le), s[m]);
        MultisetLast(s);
      }
    }
  }

  lemma {:induction false} SortKeepsAll<T>(s: seq<T>, le: (T, T) -> bool)
    ensures multiset(Sort(s, le)) == multiset(s)
  {
    if s != [] {
      var m := |s| - 1;
      SortKeepsAll(s[..m], le);
      InsertPermutes(s[m], Sort(s[..m], le), le);
      MultisetLast(s);
    }
  }

  lemma SortPermutes<T>(s: seq<T>, le: (T, T) -> bool)
    ensures multiset(Sort(s, le)) == multiset(s)
    ensures |Sort(s, le)| == |s|
  {
    SortKeepsAll(s, le);
    assert |multiset(Sort(s, le))| == |multiset(s)|;
  }

  lemma SortMembers<T>(s: seq<T>, le: (T, T) -> bool)
    ensures forall x :: x in Sort(s, le) <==> x in s
  {
    SortPermutes(s, le);
    forall x ensures x in Sort(s, le) <==> x in s {
      assert x in Sort(s, le) <==> x in multiset(Sort(s, le));
      assert x in s <==> x in multiset(s);
    }
  }

  lemma SortedSnoc<T(!new)>(s: seq<T>, x: T, le: (T, T) -> bool)
    requires SortedBy(s, le) && forall y :: y in s ==> le(y, x)
    ensures SortedBy(s + [x], le)
  {
    forall i, j | 0 <= i < j < |s + [x]| ensures le((s + [x])[i], (s + [x])[j]) {
      assert s[i] in s;
    }
  }

  lemma SortedBelow<T(!new)>(s: seq<T>, x: T, le: (T, T) -> bool)
    requires TotalPreorder(le) && SortedBy(s, le) && (s != [] ==> le(s[|s| - 1], x))
    ensures forall y :: y in s ==> le(y, x)
  {
    forall y | y in s ensures le(y, x) {
      var i :| 0 <= i < |s| && s[i] == y;
      if i < |s| - 1 { assert le(s[i], s[|s| - 1]); }
    }
  }

  lemma {:induction false} InsertSorts<T(!new)>(x: T, s: seq<T>, le: (T, T) -> bool)
    requires TotalPreorder(le) && SortedBy(s, le)
    ensures SortedBy(Insert(x, s, le), le)
  {
    if s == [] || le(s[|s| - 1], x) {
      SortedBelow(s, x, le);
      SortedSnoc(s, x, le);
    } else {
      var m := |s| - 1;
      SortedPrefix(s, m, le);
      InsertSorts(x, s[..m], le);
      var r := Insert(x, s[..m], le);
      InsertPermutes(x, s[..m], le);
      forall y | y in r ensures le(y, s[m]) {
        assert y in multiset(r);
        assert y == x || y in s[..m];
      }
      SortedSnoc(r, s[m], le);
    }
  }

  lemma {:induction false} SortSorts<T(!new)>(s: seq<T>, le: (T, T) -> bool)
    requires TotalPreorder(le)
    ensures SortedBy(Sort(s, le), le)
  {
    if s != [] {
      SortSorts(s[..|s| - 1], le);
      InsertSorts(s[|s| - 1], Sort(s[..|s| - 1], le), le);
    }
  }

  /** A list that is already in order is left alone. */
  lemma {:induction false} SortOfSorted<T(!new)>(s: seq<T>, le: (T, T) -> bool)
    requires SortedBy(s, le)
    ensures Sort(s, le) == s
  {
    if s != [] {
      var m := |s| - 1;
      SortOfSorted(s[..m], le);
      assert s == s[..m] + [s[m]];
      assert m > 0 ==> le(s[..m][m - 1], s[m]);
    }
  }

  lemma LastIsGreatest<T(!new)>(s: seq<T>, x: T, le: (T, T) -> bool)
    requires SortedBy(s, le) && x in multiset(s)
    ensures s != [] && (le(x, s[|s| - 1]) || x == s[|s| - 1])
  {
    var j :| 0 <= j < |s| && s[j] == x;
  }

  ghost predicate TiesEqual<T(!new)>(s: multiset<T>, le: (T, T) -> bool) {
    forall x, y :: x in s && y in s && le(x, y) && le(y, x) ==> x == y
  }

  lemma DropLastSame<T(!new)>(a: seq<T>, b: seq<T>)
    requires multiset(a) == multiset(b) && a != [] && b != [] && a[|a| - 1] == b[|b| - 1]
    ensures multiset(a[..|a| - 1]) == multiset(b[..|b| - 1])
    ensures multiset(a[..|a| - 1]) <= multiset(a)
  {
    MultisetLast(a);
    MultisetLast(b);
    SameRest(multiset(a[..|a| - 1]), multiset(b[..|b| - 1]), a[|a| - 1]);
  }

  lemma SortedPrefix<T>(s: seq<T>, n: nat, le: (T, T) -> bool)
    requires SortedBy(s, le) && n <= |s|
    ensures SortedBy(s[..n], le)
  {
  }

  lemma SnocLast<T>(s: seq<T>)
    requires s != []
    ensures s == s[..|s| - 1] + [s[|s| - 1]]
  {
  }

  lemma SameLast<T(!new)>(a: seq<T>, b: seq<T>, le: (T, T) -> bool)
    requires SortedBy(a, le) && SortedBy(b, le) && a != []
    requires multiset(a) == multiset(b)
    requires TiesEqual(multiset(a), le)
    ensures b != [] && a[|a| - 1] == b[|b| - 1]
  {
    assert |b| == |multiset(b)| == |multiset(a)| == |a|;
    var x, y := a[|a| - 1], b[|b| - 1];
    assert x in a && y in b;
    assert x in multiset(a) && y in multiset(b);
    LastIsGreatest(b, x, le);
    LastIsGreatest(a, y, le);
  }

  /** Sorted lists with the same elements are the same list. */
  lemma {:induction false} SortedUnique<T(!new)>(a: seq<T>, b: seq<T>, le: (T, T) -> bool)
    requires SortedBy(a, le) && SortedBy(b, le)
    requires multiset(a) == multiset(b)
    requires TiesEqual(multiset(a), le)
    ensures a == b
  {
    if a == [] {
      assert |b| == |multiset(b)| == |multiset(a)| == 0;
    } else {
      SameLast(a, b, le);
      var m, n := |a| - 1, |b| - 1;
      DropLastSame(a, b);
      SortedPrefix(a, m, le);
      SortedPrefix(b, n, le);
      SortedUnique(a[..m], b[..n], le);
      SnocLast(a);
      SnocLast(b);
    }
  }

  /** Sorting forgets the order of its input when ties are equal. */
  lemma SortCanonical<T(!new)>(a: seq<T>, b: seq<T>, le: (T, T) -> bool)
    requires TotalPreorder(le)
    requires multiset(a) == multiset(b)
    requires TiesEqual(multiset(a), le)
    ensures Sort(a, le) == Sort(b, le)
  {
    SortPermutes(a, le);
    SortPermutes(b, le);
    SortSorts(a, le);
    SortSorts(b, le);
    SortedUnique(Sort(a, le), Sort(b, le), le);
  }

  lemma InsertSnoc<T>(x: T, s: seq<T>, y: T, le: (T, T) -> bool)
    ensures Insert(x, s + [y], le) == if le(y, x) then s + [y, x] else Insert(x, s, le) + [y]
  {
    assert (s + [y])[..|s|] == s;
    assert s + [y] + [x] == s + [y, x];
  }

  /** When `x` is on or above everything in sorted `s`, it is appended. */
  lemma InsertAtEnd<T(!new)>(x: T, s: seq<T>, le: (T, T) -> bool)
    requires forall y :: y in s ==> le(y, x)
    ensures Insert(x, s, le) == s + [x]
  {
    if s != [] { assert s[|s| - 1] in s; }
  }

  lemma {:induction false} FilterInsert<T(!new)>(x: T, s: seq<T>, le: (T, T) -> bool, keep: T -> bool)
    requires TotalPreorder(le) && SortedBy(s, le)
    ensures Filter(Insert(x, s, le), keep)
            == if keep(x) then Insert(x, Filter(s, keep), le) else Filter(s, keep)
  {
    if s == [] {
      FilterSnoc([], x, keep);
      assert [] + [x] == [x];
    } else {
      var m := |s| - 1;
      if le(s[m], x) {
        FilterSnoc(s, x, keep);
        forall y | y in Filter(s, keep) ensures le(y, x) {
          FilterMember(s, keep, y);
          var j :| 0 <= j <= m && s[j] == y;
        }
        InsertAtEnd(x, Filter(s, keep), le);
      } else {
        FilterInsert(x, s[..m], le, keep);
        FilterSnoc(Insert(x, s[..m], le), s[m], keep);
        InsertSnoc(x, Filter(s[..m], keep), s[m], le);
      }
    }
  }

  lemma SortSnoc<T>(s: seq<T>, x: T, le: (T, T) -> bool)
    ensures Sort(s + [x], le) == Insert(x, Sort(s, le), le)
  {
    assert (s + [x])[..|s|] == s;
  }

  /** A WHERE clause may be applied before or after an ORDER BY. */
  lemma {:induction false} FilterSort<T(!new)>(s: seq<T>, le: (T, T) -> bool, keep: T -> bool)
    requires TotalPreorder(le)
    ensures Filter(Sort(s, le), keep) == Sort(Filter(s, keep), le)
  {
    if s != [] {
      var m := |s| - 1;
      FilterSort(s[..m], le, keep);
      SortSorts(s[..m], le);
      FilterInsert(s[m], Sort(s[..m], le), le, keep);
      SortSnoc(Filter(s[..m], keep), s[m], le);
    }
  }

  /** A tie between different elements lets the input order through a stable sort. */
  lemma TieShows<T(!new)>(x: T, y: T, rest: seq<T>, le: (T, T) -> bool)
    requires TotalPreorder(le) && x != y && le(x, y) && le(y, x)
    ensures Sort([x, y] + rest, le) != Sort([y, x] + rest, le)
  {
    var keep := (z: T) => z == x || z == y;
    FilterSort([x, y] + rest, le, keep);
    FilterSort([y, x] + rest, le, keep);
    KeepsPair(x, y, rest, le, keep);
    KeepsPair(y, x, rest, le, keep);
  }

  lemma KeepsPair<T(!new)>(x: T, y: T, rest: seq<T>, le: (T, T) -> bool, keep: T -> bool)
    requires TotalPreorder(le) && le(x, y) && le(y, x) && forall z :: keep(z) <==> z == x || z == y
    ensures |Sort(Filter([x, y] + rest, keep), le)| >= 2
    ensures Sort(Filter([x, y] + rest, keep), le)[0] == x
  {
    FilterAppend([x, y], rest, keep);
    FilterKeepsAll([x, y], keep);
    var r := [x, y] + Filter(rest, keep);
    FilterMembers(rest, keep);
    assert forall z :: z in r ==> z == x || z == y;
    assert SortedBy(r, le) by {
      assert le(x, x) && le(y, y);
      forall i, j | 0 <= i < j < |r| ensures le(r[i], r[j]) {
        assert r[i] in r && r[j] in r;
      }
    }
    SortOfSorted(r, le);
  }

  lemma PickOne<T>(s: seq<T>, x: T) returns (rest: seq<T>)
    requires x in s
    ensures multiset(s) == multiset(rest) + multiset{x}
  {
    var i :| 0 <= i < |s| && s[i] == x;
    Cut(s, i);
    rest := Without(s, i);
    MiddleOut(s[..i], [x], s[i + 1..]);
  }

  lemma PickTwo<T>(s: seq<T>, x: T, y: T) returns (rest: seq<T>)
    requires x in multiset(s) && y in multiset(s) && x != y
    ensures multiset(s) == multiset{x, y} + multiset(rest)
  {
    var t := PickOne(s, x);
    assert y in multiset(t);
    rest := PickOne(t, y);
  }

  // ------------------------------------- sorting by a relation with ties

  /** One of the two is strictly below the other, and below what is above it: inserting one does not care
      where the other is. */
  ghost predicate Settles<T(!new)>(x: T, y: T, le: (T, T) -> bool) {
    x == y
    || (le(x, y) && !le(y, x) && forall z :: le(z, x) ==> le(z, y))
    || (le(y, x) && !le(x, y) && forall z :: le(z, y) ==> le(z, x))
  }

  lemma {:induction false} InsertCommutes<T(!new)>(x: T, y: T, s: seq<T>, le: (T, T) -> bool)
    requires le(y, x) && !le(x, y) && forall z :: le(z, y) ==> le(z, x)
    ensures Insert(x, Insert(y, s, le), le) == Insert(y, Insert(x, s, le), le)
  {
    if s == [] {
      InsertSnoc(x, [], y, le);
      InsertSnoc(y, [], x, le);
      assert [] + [y] == [y] && [] + [x] == [x] && [] + [y, x] == [y, x] && [y] + [x] == [y, x];
    } else {
      var m := |s| - 1;
      var l := s[m];
      if le(l, y) {
        InsertSnoc(x, s, y, le);
        InsertSnoc(y, s, x, le);
        assert s + [y, x] == s + [y] + [x];
      } else if le(l, x) {
        InsertSnoc(y, s, x, le);
        InsertSnoc(x, Insert(y, s[..m], le), l, le);
        assert Insert(y, s[..m], le) + [l, x] == Insert(y, s[..m], le) + [l] + [x];
      } else {
        InsertCommutes(x, y, s[..m], le);
        InsertSnoc(x, Insert(y, s[..m], le), l, le);
        InsertSnoc(y, Insert(x, s[..m], le), l, le);
      }
    }
  }

  lemma InsertSwaps<T(!new)>(x: T, y: T, s: seq<T>, le: (T, T) -> bool)
    requires Settles(x, y, le)
    ensures Insert(x, Insert(y, s, le), le) == Insert(y, Insert(x, s, le), le)
  {
    if x != y {
      if le(y, x) && !le(x, y) { InsertCommutes(x, y, s, le); } else { InsertCommutes(y, x, s, le); }
    }
  }

  /** An element that settles with all that follow it may as well come last. */
  lemma {:induction false} SortMovesLast<T(!new)>(a: seq<T>, x: T, b: seq<T>, le: (T, T) -> bool)
    requires forall y :: y in b ==> Settles(x, y, le)
    ensures Sort(a + [x] + b, le) == Insert(x, Sort(a + b, le), le)
  {
    if b == [] {
      assert a + [x] + b == a + [x] && a + b == a;
      SortSnoc(a, x, le);
    } else {
      var m := |b| - 1;
      SnocLast(b);
      assert b[m] in b;
      assert a + [x] + b == (a + [x] + b[..m]) + [b[m]] && a + b == (a + b[..m]) + [b[m]];
      SortSnoc(a + [x] + b[..m], b[m], le);
      SortSnoc(a + b[..m], b[m], le);
      SortMovesLast(a, x, b[..m], le);
      InsertSwaps(x, b[m], Sort(a + b[..m], le), le);
    }
  }

  /** Permuting a tail whose elements settle pairwise does not change the sorted list, whatever the relation. */
  lemma {:induction false} SortTailPermutes<T(!new)>(a: seq<T>, c: seq<T>, d: seq<T>, le: (T, T) -> bool)
    requires multiset(c) == multiset(d)
    requires forall x, y :: x in c && y in c ==> Settles(x, y, le)
    ensures Sort(a + c, le) == Sort(a + d, le)
    decreases |c|
  {
    assert |c| == |multiset(c)| == |multiset(d)| == |d|;
    if c != [] {
      var m := |c| - 1;
      var j := LastIn(c, d);
      var rest := d[..j] + d[j + 1..];
      WithoutLast(c, d, j);
      forall x | x in c[..m] ensures x in c { }
      SortTailPermutes(a, c[..m], rest, le);
      SortMovesElement(a, c, d, j, le);
      SnocLast(c);
      assert a + c == (a + c[..m]) + [c[m]];
      SortSnoc(a + c[..m], c[m], le);
    }
  }

  lemma LastIn<T>(c: seq<T>, d: seq<T>) returns (j: nat)
    requires multiset(c) == multiset(d) && c != []
    ensures j < |d| && d[j] == c[|c| - 1]
  {
    assert c[|c| - 1] in multiset(c);
    assert c[|c| - 1] in d;
    j :| j < |d| && d[j] == c[|c| - 1];
  }

  lemma WithoutLast<T(!new)>(c: seq<T>, d: seq<T>, j: nat)
    requires multiset(c) == multiset(d) && j < |d| && c != [] && d[j] == c[|c| - 1]
    ensures multiset(c[..|c| - 1]) == multiset(d[..j] + d[j + 1..])
  {
    MultisetLast(c);
    Cut(d, j);
    MiddleOut(d[..j], [d[j]], d[j + 1..]);
    SameRest(multiset(c[..|c| - 1]), multiset(d[..j] + d[j + 1..]), c[|c| - 1]);
  }

  lemma SortMovesElement<T(!new)>(a: seq<T>, c: seq<T>, d: seq<T>, j: nat, le: (T, T) -> bool)
    requires multiset(c) == multiset(d) && j < |d| && c != [] && d[j] == c[|c| - 1]
    requires forall x, y :: x in c && y in c ==> Settles(x, y, le)
    ensures Sort(a + d, le) == Insert(d[j], Sort(a + (d[..j] + d[j + 1..]), le), le)
  {
    forall y | y in d[j + 1..] ensures Settles(d[j], y, le) {
      assert y in d && y in multiset(d);
      assert y in c;
    }
    SortMovesLast(a + d[..j], d[j], d[j + 1..], le);
    Regrouped(a, d, j);
  }

  lemma Regrouped<T>(a: seq<T>, d: seq<T>, j: nat)
    requires j < |d|
    ensures a + d[..j] + [d[j]] + d[j + 1..] == a + d
    ensures a + d[..j] + d[j + 1..] == a + (d[..j] + d[j + 1..])
  {
  }

  ghost predicate Precedes<T>(s: seq<T>, x: T, y: T) {
    exists i, j :: 0 <= i < j < |s| && s[i] == x && s[j] == y
  }

  lemma PrecedesSnoc<T>(s: seq<T>, x: T, y: T, l: T)
    ensures Precedes(s, x, y) ==> Precedes(s + [l], x, y)
    ensures x in s && l == y ==> Precedes(s + [l], x, y)
  {
    if i, j :| 0 <= i < j < |s| && s[i] == x && s[j] == y {
      assert (s + [l])[i] == x && (s + [l])[j] == y;
    }
    if x in s {
      var i :| 0 <= i < |s| && s[i] == x;
      assert (s + [l])[i] == x && (s + [l])[|s|] == l;
    }
  }

  lemma PrecedesInit<T>(s: seq<T>, x: T, y: T)
    requires Precedes(s, x, y)
    ensures s != []
    ensures Precedes(s[..|s| - 1], x, y) || (x in s[..|s| - 1] && s[|s| - 1] == y)
  {
    var i, j :| 0 <= i < j < |s| && s[i] == x && s[j] == y;
    var h := s[..|s| - 1];
    assert h[i] == x;
    if j < |s| - 1 { assert h[j] == y; }
  }

  lemma {:induction false} InsertKeepsOrder<T>(z: T, s: seq<T>, x: T, y: T, le: (T, T) -> bool)
    requires Precedes(s, x, y)
    ensures Precedes(Insert(z, s, le), x, y)
  {
    var m := |s| - 1;
    PrecedesInit(s, x, y);
    if le(s[m], z) {
      PrecedesSnoc(s, x, y, z);
    } else {
      if Precedes(s[..m], x, y) {
        InsertKeepsOrder(z, s[..m], x, y, le);
      } else {
        InsertPermutes(z, s[..m], le);
        assert x in multiset(s[..m]);
        assert x in multiset(Insert(z, s[..m], le));
      }
      PrecedesSnoc(Insert(z, s[..m], le), x, y, s[m]);
    }
  }

  lemma {:induction false} InsertedBehind<T>(y: T, s: seq<T>, x: T, le: (T, T) -> bool)
    requires x in s && le(x, y)
    ensures Precedes(Insert(y, s, le), x, y)
  {
    var m := |s| - 1;
    PrecedesSnoc(s, x, y, y);
    if !le(s[m], y) {
      SnocLast(s);
      InsertedBehind(y, s[..m], x, le);
      PrecedesSnoc(Insert(y, s[..m], le), x, y, s[m]);
    }
  }

  /** A tie keeps its input order, whatever the relation. */
  lemma {:induction false} SortIsStable<T>(s: seq<T>, x: T, y: T, le: (T, T) -> bool)
    requires Precedes(s, x, y) && le(x, y)
    ensures Precedes(Sort(s, le), x, y)
  {
    var m := |s| - 1;
    PrecedesInit(s, x, y);
    if Precedes(s[..m], x, y) {
      SortIsStable(s[..m], x, y, le);
      InsertKeepsOrder(s[m], Sort(s[..m], le), x, y, le);
    } else {
      SortMembers(s[..m], le);
      InsertedBehind(y, Sort(s[..m], le), x, le);
    }
  }

  lemma OneOrder<T>(s: seq<T>, x: T, y: T)
    requires Distinct(s) && Precedes(s, x, y)
    ensures !Precedes(s, y, x)
  {
    DistinctIndex(s);
  }

  lemma DistinctIndex<T>(s: seq<T>)
    requires Distinct(s)
    ensures forall i, j :: 0 <= i < |s| && 0 <= j < |s| && s[i] == s[j] ==> i == j
  {
  }

  // --------------------------------------------- first appearances of a sum

  function NotIn<T(==)>(a: seq<T>): T -> bool { (x: T) => x !in a }

  lemma {:induction false} FirstSeenAppend<T>(a: seq<T>, b: seq<T>)
    ensures FirstSeen(a + b) == FirstSeen(a) + Filter(FirstSeen(b), NotIn(a))
  {
    if b == [] {
      assert a + b == a;
    } else {
      var m := |b| - 1;
      assert a + b == (a + b[..m]) + [b[m]];
      FirstSeenSnoc(a + b[..m], b[m]);
      FirstSeenAppend(a, b[..m]);
      FirstSeenDistinct(a + b[..m]);
      FirstSeenDistinct(b[..m]);
      FilterSnoc(FirstSeen(b[..m]), b[m], NotIn(a));
    }
  }

  /** No element that is `below` comes behind `y`. */
  ghost predicate NoneBehind<T(!new)>(s: seq<T>, y: T, below: T -> bool) {
    forall e :: e in s && below(e) ==> !Precedes(s, y, e)
  }

  /** Elements that are all above `y`, and nothing of what they are above is not. */
  ghost predicate LowerPart<T(!new)>(s: seq<T>, y: T, below: T -> bool, le: (T, T) -> bool) {
    && (forall f, e :: f in s && e in s && le(f, e) && below(e) ==> below(f))
    && forall e :: e in s && below(e) ==> le(e, y) && !le(y, e)
  }

  lemma {:induction false} InsertNoneBehind<T(!new)>(z: T, s: seq<T>, all: seq<T>, y: T, below: T -> bool,
                                                     le: (T, T) -> bool)
    requires LowerPart(all, y, below, le) && z in all && y in all && forall e :: e in s ==> e in all
    requires NoneBehind(s, y, below)
    ensures NoneBehind(Insert(z, s, le), y, below)
  {
    if s != [] {
      var m := |s| - 1;
      var h, l := s[..m], s[m];
      assert s == h + [l] && l in s;
      forall e | e in h && below(e) ensures !Precedes(h, y, e) {
        if Precedes(h, y, e) { PrecedesSnoc(h, y, e, l); }
      }
      if le(l, z) {
        NoneBehindSnoc(s, z, l, all, y, below, le);
      } else {
        InsertNoneBehind(z, h, all, y, below, le);
        NoneBehindLast(z, h, l, all, y, below, le);
      }
    }
  }

  lemma NoneBehindSnoc<T(!new)>(s: seq<T>, z: T, l: T, all: seq<T>, y: T, below: T -> bool, le: (T, T) -> bool)
    requires LowerPart(all, y, below, le) && z in all && y in all && forall e :: e in s ==> e in all
    requires NoneBehind(s, y, below) && s != [] && l == s[|s| - 1] && le(l, z)
    ensures NoneBehind(s + [z], y, below)
  {
    if below(z) { InFrontOfLast(s, y); }
    assert (s + [z])[..|s|] == s;
    forall e | e in s + [z] && below(e) ensures !Precedes(s + [z], y, e) {
      if Precedes(s + [z], y, e) {
        PrecedesInit(s + [z], y, e);
      }
    }
  }

  lemma InFrontOfLast<T>(s: seq<T>, y: T)
    requires s != []
    ensures y in s && y != s[|s| - 1] ==> Precedes(s, y, s[|s| - 1])
  {
    if y in s {
      var i :| 0 <= i < |s| && s[i] == y;
    }
  }

  lemma NoneBehindLast<T(!new)>(z: T, h: seq<T>, l: T, all: seq<T>, y: T, below: T -> bool, le: (T, T) -> bool)
    requires LowerPart(all, y, below, le) && z in all && y in all && l in all && forall e :: e in h ==> e in all
    requires NoneBehind(h + [l], y, below) && NoneBehind(Insert(z, h, le), y, below) && !le(l, z)
    ensures NoneBehind(Insert(z, h, le) + [l], y, below)
  {
    var r := Insert(z, h, le);
    InsertPermutes(z, h, le);
    assert y in multiset(r) <==> y in r;
    PrecedesSnoc(h, y, l, l);
    assert (r + [l])[..|r|] == r;
    forall e | e in r + [l] && below(e) ensures !Precedes(r + [l], y, e) {
      if Precedes(r + [l], y, e) {
        PrecedesInit(r + [l], y, e);
      }
    }
  }

  /** A sort puts nothing behind `y` that belongs in front of it. */
  lemma {:induction false} SortNoneBehind<T(!new)>(s: seq<T>, all: seq<T>, y: T, below: T -> bool, le: (T, T) -> bool)
    requires LowerPart(all, y, below, le) && y in all && forall e :: e in s ==> e in all
    ensures NoneBehind(Sort(s, le), y, below)
  {
    if s != [] {
      var m := |s| - 1;
      assert s[m] in s;
      SortNoneBehind(s[..m], all, y, below, le);
      SortMembers(s[..m], le);
      InsertNoneBehind(s[m], Sort(s[..m], le), all, y, below, le);
    }
  }
}
