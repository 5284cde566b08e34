/**
  What a stable sort does to elements that tie: which input orders show in its
  result, and which do not.
*/
module StableSort {
  import opened Collections

  ghost predicate SomeBelow<T>(x: T, t: seq<T>, le: (T, T) -> bool) {
    exists y :: y in t && le(y, x)
  }

  lemma SomeBelowSnoc<T>(x: T, t: seq<T>, l: T, le: (T, T) -> bool)
    ensures SomeBelow(x, t + [l], le) <==> SomeBelow(x, t, le) || le(l, x)
  {
    assert l in t + [l];
    if y :| y in t && le(y, x) { assert y in t + [l]; }
  }

  /** An element goes behind the last one it is not below. */
  lemma {:induction false} InsertSum<T>(x: T, s: seq<T>, t: seq<T>, le: (T, T) -> bool)
    ensures Insert(x, s + t, le) == if SomeBelow(x, t, le) then s + Insert(x, t, le) else Insert(x, s, le) + t
  {
    if t == [] {
      assert s + t == s;
    } else {
      var m := |t| - 1;
      var h, l := t[..m], t[m];
      SnocLast(t);
      SomeBelowSnoc(x, h, l, le);
      Assoc(s, h, [l]);
      InsertSnoc(x, s + h, l, le);
      InsertSnoc(x, h, l, le);
      if le(l, x) {
        Assoc(s, h, [l, x]);
      } else {
        InsertSum(x, s, h, le);
        Assoc(s, Insert(x, h, le), [l]);
        Assoc(Insert(x, s, le), h, [l]);
      }
    }
  }

  lemma Assoc<T>(a: seq<T>, b: seq<T>, c: seq<T>)
    ensures a + b + c == a + (b + c)
  {
  }

  lemma InsertMembers<T>(x: T, s: seq<T>, le: (T, T) -> bool)
    ensures forall y :: y in Insert(x, s, le) <==> y in s || y == x
  {
    InsertPermutes(x, s, le);
    forall y ensures y in Insert(x, s, le) <==> y in s || y == x {
      assert y in multiset(Insert(x, s, le)) <==> y in multiset(s) || y == x;
    }
  }

  /** What is first in the input comes before everything that is not strictly below it. */
  lemma {:induction false} SortFirst<T(!new)>(x: T, rest: seq<T>, le: (T, T) -> bool) returns (a: seq<T>, b: seq<T>)
    ensures Sort([x] + rest, le) == a + [x] + b
    ensures forall y :: y in a ==> !le(x, y)
    decreases |rest|
  {
    if rest == [] {
      a, b := [], [];
      assert [x] + rest == [x] && Sort([x], le) == [x];
    } else {
      var m := |rest| - 1;
      a, b := SortFirst(x, rest[..m], le);
      assert [x] + rest == ([x] + rest[..m]) + [rest[m]];
      SortSnoc([x] + rest[..m], rest[m], le);
      a, b := OneMoreAround(rest[m], x, a, b, le);
    }
  }

  lemma OneMoreAround<T(!new)>(l: T, x: T, a: seq<T>, b: seq<T>, le: (T, T) -> bool) returns (a': seq<T>, b': seq<T>)
    requires forall y :: y in a ==> !le(x, y)
    ensures Insert(l, a + [x] + b, le) == a' + [x] + b'
    ensures forall y :: y in a' ==> !le(x, y)
  {
    InsertSum(l, a + [x], b, le);
    InsertSnoc(l, a, x, le);
    if SomeBelow(l, b, le) {
      a', b' := a, Insert(l, b, le);
    } else if le(x, l) {
      a', b' := a, [l] + b;
    } else {
      a', b' := Insert(l, a, le), b;
      InsertMembers(l, a, le);
    }
  }

  /** Two ties that are first in the input come out side by side, in input order, at one place. */
  lemma {:induction false} SortPairFirst<T(!new)>(x: T, y: T, rest: seq<T>, le: (T, T) -> bool)
    returns (a: seq<T>, b: seq<T>)
    requires TotalPreorder(le) && le(x, y) && le(y, x)
    ensures Sort([x, y] + rest, le) == a + [x, y] + b && Sort([y, x] + rest, le) == a + [y, x] + b
    decreases |rest|
  {
    if rest == [] {
      a, b := [], [];
      TwoTies(x, y, le);
      TwoTies(y, x, le);
      assert [x, y] + rest == [x, y] && [y, x] + rest == [y, x];
    } else {
      var m := |rest| - 1;
      var l := rest[m];
      a, b := SortPairFirst(x, y, rest[..m], le);
      assert [x, y] + rest == ([x, y] + rest[..m]) + [l] && [y, x] + rest == ([y, x] + rest[..m]) + [l];
      SortSnoc([x, y] + rest[..m], l, le);
      SortSnoc([y, x] + rest[..m], l, le);
      assert le(x, l) == le(y, l);
      InsertAroundPair(l, x, y, a, b, le);
      InsertAroundPair(l, y, x, a, b, le);
      if SomeBelow(l, b, le) {
        b := Insert(l, b, le);
      } else if le(x, l) {
        b := [l] + b;
      } else {
        a := Insert(l, a, le);
      }
    }
  }

  lemma TwoTies<T>(x: T, y: T, le: (T, T) -> bool)
    requires le(x, y)
    ensures Sort([x, y], le) == [x, y]
  {
    assert [x, y][..1] == [x] && Sort([x], le) == [x];
  }

  lemma InsertAroundPair<T>(l: T, x: T, y: T, a: seq<T>, b: seq<T>, le: (T, T) -> bool)
    requires le(x, l) == le(y, l)
    ensures Insert(l, a + [x, y] + b, le)
            == if SomeBelow(l, b, le) then a + [x, y] + Insert(l, b, le)
               else if le(x, l) then a + [x, y] + ([l] + b) else Insert(l, a, le) + [x, y] + b
  {
    InsertSum(l, a + [x, y], b, le);
    assert a + [x, y] == (a + [x]) + [y];
    InsertSnoc(l, a + [x], y, le);
    InsertSnoc(l, a, x, le);
    assert (a + [x]) + [y, l] == a + [x, y] + [l];
    assert (a + [x, y] + [l]) + b == a + [x, y] + ([l] + b);
    assert Insert(l, a, le) + [x] + [y] == Insert(l, a, le) + [x, y];
  }

  /** Two relations that agree on each element and those before it sort alike. */
  lemma {:induction false} SortAgrees<T(!new)>(s: seq<T>, le: (T, T) -> bool, other: (T, T) -> bool)
    requires forall i, j :: 0 <= i < j < |s| ==> le(s[i], s[j]) == other(s[i], s[j])
    ensures Sort(s, le) == Sort(s, other)
  {
    if s != [] {
      var m := |s| - 1;
      SortAgrees(s[..m], le, other);
      SortMembers(s[..m], le);
      forall y | y in Sort(s[..m], le) ensures le(y, s[m]) == other(y, s[m]) {
        var i :| 0 <= i < m && s[..m][i] == y;
      }
      InsertAgrees(s[m], Sort(s[..m], le), le, other);
    }
  }

  lemma {:induction false} InsertAgrees<T>(x: T, s: seq<T>, le: (T, T) -> bool, other: (T, T) -> bool)
    requires forall y :: y in s ==> le(y, x) == other(y, x)
    ensures Insert(x, s, le) == Insert(x, s, other)
  {
    if s != [] {
      assert s[|s| - 1] in s;
      InsertAgrees(x, s[..|s| - 1], le, other);
    }
  }

  /** The first relation, its ties broken by the second. */
  function Lex<T>(le: (T, T) -> bool, second: (T, T) -> bool): (T, T) -> bool {
    (a: T, b: T) => le(a, b) && (!le(b, a) || second(a, b))
  }

  lemma LexOrdered<T(!new)>(le: (T, T) -> bool, second: (T, T) -> bool)
    requires TotalPreorder(le) && TotalPreorder(second)
    ensures TotalPreorder(Lex(le, second))
  {
    var lex := Lex(le, second);
    forall a, b ensures lex(a, b) || lex(b, a) { assert le(a, b) || le(b, a); assert second(a, b) || second(b, a); }
    forall a, b, c | lex(a, b) && lex(b, c) ensures lex(a, c) {
      assert le(a, b) && le(b, c);
      if le(c, a) { assert le(b, a) && le(c, b); }
    }
  }

  /** Sorting a list that is in one order by another. */
  lemma SortTwice<T(!new)>(s: seq<T>, le: (T, T) -> bool, second: (T, T) -> bool)
    requires SortedBy(s, second)
    ensures Sort(s, le) == Sort(s, Lex(le, second))
  {
    forall i, j | 0 <= i < j < |s| ensures le(s[i], s[j]) == Lex(le, second)(s[i], s[j]) {
      assert second(s[i], s[j]);
    }
    SortAgrees(s, le, Lex(le, second));
  }

  // ------------------------------------------------------ ties in input order

  ghost predicate SettledOrAlike<T(!new)>(c: seq<T>, d: seq<T>, le: (T, T) -> bool) {
    forall x, y :: x in c && y in c ==> Settles(x, y, le) || (Precedes(c, x, y) <==> Precedes(d, x, y))
  }

  /** Permuting a tail in which elements that do not settle keep their order changes nothing. */
  lemma {:induction false} SortKeepsTies<T(!new)>(a: seq<T>, c: seq<T>, d: seq<T>, le: (T, T) -> bool)
    requires multiset(c) == multiset(d) && Distinct(c) && SettledOrAlike(c, d, le)
    ensures Sort(a + c, le) == Sort(a + d, le)
    decreases |c|
  {
    assert |c| == |multiset(c)| == |multiset(d)| == |d|;
    if c != [] {
      var m := |c| - 1;
      var j := LastIn(c, d);
      var rest := d[..j] + d[j + 1..];
      RestPermutes(c, d, j);
      RestAlike(c, d, j, le);
      SortKeepsTies(a, c[..m], rest, le);
      LastSettles(c, d, j, le);
      SortMovesLast(a + d[..j], d[j], d[j + 1..], le);
      Regrouped(a, d, j);
      SnocLast(c);
      assert a + c == (a + c[..m]) + [c[m]];
      SortSnoc(a + c[..m], c[m], le);
    }
  }

  lemma RestPermutes<T(!new)>(c: seq<T>, d: seq<T>, j: nat)
    requires multiset(c) == multiset(d) && c != [] && j < |d| && d[j] == c[|c| - 1]
    ensures multiset(c[..|c| - 1]) == multiset(d[..j] + d[j + 1..])
  {
    MultisetLast(c);
    Cut(d, j);
    MiddleOut(d[..j], [d[j]], d[j + 1..]);
    SameRest(multiset(c[..|c| - 1]), multiset(d[..j] + d[j + 1..]), d[j]);
  }

  lemma LastSettles<T(!new)>(c: seq<T>, d: seq<T>, j: nat, le: (T, T) -> bool)
    requires multiset(c) == multiset(d) && Distinct(c) && SettledOrAlike(c, d, le)
    requires c != [] && j < |d| && d[j] == c[|c| - 1]
    ensures forall y :: y in d[j + 1..] ==> Settles(d[j], y, le)
  {
    forall y | y in d[j + 1..] ensures Settles(d[j], y, le) {
      var i :| 0 <= i < |d| - j - 1 && d[j + 1..][i] == y;
      assert d[j + 1 + i] == y;
      assert Precedes(d, d[j], y);
      assert y in multiset(d);
      assert y in c && d[j] in c;
      LastPrecedesNone(c, y);
    }
  }

  lemma LastPrecedesNone<T>(c: seq<T>, y: T)
    requires Distinct(c) && c != []
    ensures !Precedes(c, c[|c| - 1], y)
  {
    DistinctIndex(c);
  }

  lemma RestAlike<T(!new)>(c: seq<T>, d: seq<T>, j: nat, le: (T, T) -> bool)
    requires multiset(c) == multiset(d) && Distinct(c) && SettledOrAlike(c, d, le)
    requires c != [] && j < |d| && d[j] == c[|c| - 1]
    ensures SettledOrAlike(c[..|c| - 1], d[..j] + d[j + 1..], le) && Distinct(c[..|c| - 1])
  {
    var m := |c| - 1;
    forall x, y | x in c[..m] && y in c[..m]
      ensures Settles(x, y, le) || (Precedes(c[..m], x, y) <==> Precedes(d[..j] + d[j + 1..], x, y))
    {
      assert x in c && y in c && x != c[m] && y != c[m];
      WithoutOther(c, m, x, y);
      WithoutOther(d, j, x, y);
      assert c[..m] + c[m + 1..] == c[..m];
    }
  }

  /** Leaving out a third element does not change which of two is first. */
  lemma WithoutOther<T>(s: seq<T>, j: nat, x: T, y: T)
    requires j < |s| && x != s[j] && y != s[j]
    ensures Precedes(s[..j] + s[j + 1..], x, y) <==> Precedes(s, x, y)
  {
    var t := s[..j] + s[j + 1..];
    if k, l :| 0 <= k < l < |s| && s[k] == x && s[l] == y {
      assert t[if k < j then k else k - 1] == x && t[if l < j then l else l - 1] == y;
    }
    if k, l :| 0 <= k < l < |t| && t[k] == x && t[l] == y {
      assert s[if k < j then k else k + 1] == x && s[if l < j then l else l + 1] == y;
    }
  }

  // ------------------------------------------------------- who comes first

  /** `x` occurs, and before any `y`. */
  predicate Leads<T(==)>(s: seq<T>, x: T, y: T) {
    s != [] && (Leads(s[..|s| - 1], x, y) || (s[|s| - 1] == x && x !in s[..|s| - 1] && y !in s[..|s| - 1]))
  }

  lemma {:induction false} LeadsSum<T>(s: seq<T>, t: seq<T>, x: T, y: T)
    ensures Leads(s + t, x, y) <==> Leads(s, x, y) || (x !in s && y !in s && Leads(t, x, y))
  {
    if t == [] {
      assert s + t == s;
    } else {
      var m := |t| - 1;
      LeadsSum(s, t[..m], x, y);
      assert (s + t)[..|s + t| - 1] == s + t[..m];
      LeadsOccurs(s, x, y);
    }
  }

  lemma {:induction false} LeadsOccurs<T>(s: seq<T>, x: T, y: T)
    ensures Leads(s, x, y) ==> x in s
    ensures x in s && y !in s ==> Leads(s, x, y)
  {
    if s != [] {
      LeadsOccurs(s[..|s| - 1], x, y);
      SnocLast(s);
    }
  }

  /** Only one of two can lead, and one does when either occurs. */
  lemma {:induction false} OneLeads<T>(s: seq<T>, x: T, y: T)
    requires x != y
    ensures !(Leads(s, x, y) && Leads(s, y, x))
    ensures x in s || y in s ==> Leads(s, x, y) || Leads(s, y, x)
  {
    if s != [] {
      var m := |s| - 1;
      OneLeads(s[..m], x, y);
      LeadsOccurs(s[..m], x, y);
      LeadsOccurs(s[..m], y, x);
      SnocLast(s);
    }
  }

  lemma {:induction false} FlatMapLeads<T, U>(s: seq<T>, f: T -> seq<U>, x: U, y: U) returns (k: nat)
    requires Leads(FlatMap(s, f), x, y)
    ensures k < |s| && Leads(f(s[k]), x, y)
    ensures forall j :: 0 <= j < k ==> x !in f(s[j]) && y !in f(s[j])
  {
    var m := |s| - 1;
    LeadsSum(FlatMap(s[..m], f), f(s[m]), x, y);
    if Leads(FlatMap(s[..m], f), x, y) {
      k := FlatMapLeads(s[..m], f, x, y);
    } else {
      k := m;
      forall j | 0 <= j < m ensures x !in f(s[j]) && y !in f(s[j]) {
        assert s[..m][j] in s[..m];
        FlatMapMember(s[..m], f, x);
        FlatMapMember(s[..m], f, y);
      }
    }
  }

  /** Among the first appearances outside `base`, the one that leads the list comes first. */
  lemma {:induction false} FirstSeenLeads<T>(base: seq<T>, s: seq<T>, x: T, y: T)
    requires x != y && x !in base && y !in base && x in s && y in s
    ensures Precedes(Filter(FirstSeen(s), NotIn(base)), x, y) <==> Leads(s, x, y)
  {
    var c := Filter(FirstSeen(s), NotIn(base));
    FirstSeenDistinct(s);
    FilterDistinct(FirstSeen(s), NotIn(base));
    OneLeads(s, x, y);
    if Leads(s, x, y) {
      LeaderFirst(base, s, x, y);
    } else {
      LeaderFirst(base, s, y, x);
      OneOrder(c, y, x);
    }
  }

  lemma {:induction false} LeaderFirst<T>(base: seq<T>, s: seq<T>, x: T, y: T)
    requires x != y && x !in base && y !in base && y in s && Leads(s, x, y)
    ensures Precedes(Filter(FirstSeen(s), NotIn(base)), x, y)
  {
    var m := |s| - 1;
    var h := s[..m];
    SnocLast(s);
    FirstSeenSnoc(h, s[m]);
    FilterSnoc(FirstSeen(h), s[m], NotIn(base));
    LeadsOccurs(h, x, y);
    var before := Filter(FirstSeen(h), NotIn(base));
    if y in h {
      LeaderFirst(base, h, x, y);
      PrecedesSnoc(before, x, y, s[m]);
    } else {
      FirstSeenDistinct(h);
      FilterMember(FirstSeen(h), NotIn(base), x);
      PrecedesSnoc(before, x, y, y);
    }
  }
}
