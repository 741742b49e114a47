/** Python's `list.sort(key=...)` on lists of names: a stable sort by a
    string key under Python's string order, written here as insertion sort. */
module Sorting {
  import opened Strings
  import opened Seqs

  /** Every element's key is at most every later element's key. */
  predicate SortedBy(s: seq<string>, key: string -> string)
  {
    forall i, j :: 0 <= i < j < |s| ==> Le(key(s[i]), key(s[j]))
  }

  /** No two different elements share a key, so the key order is total on them. */
  predicate KeyInjective(s: seq<string>, key: string -> string)
  {
    forall x, y :: x in s && y in s && key(x) == key(y) ==> x == y
  }

  /** Insert `x` into `s` before the first element whose key is not below
      its own; placed in front of equal keys, it keeps the input order of
      ties when `SortBy` inserts the earlier elements last. */
  function Insert(x: string, s: seq<string>, key: string -> string): (r: seq<string>)
    ensures |r| == |s| + 1
    ensures multiset(r) == multiset(s) + multiset{x}
  {
    if |s| == 0 then [x]
    else if Le(key(x), key(s[0])) then [x] + s
    else
      assert s == [s[0]] + s[1..];
      [s[0]] + Insert(x, s[1..], key)
  }

  /** `sorted(s, key=key)`. */
  function SortBy(s: seq<string>, key: string -> string): (r: seq<string>)
    ensures |r| == |s|
    ensures multiset(r) == multiset(s)
  {
    if |s| == 0 then []
    else
      assert s == [s[0]] + s[1..];
      Insert(s[0], SortBy(s[1..], key), key)
  }

  /** A lower bound on every key of `s` and on `x` bounds the keys after insertion. */
  lemma InsertBounded(x: string, s: seq<string>, key: string -> string, lo: string)
    requires Le(lo, key(x))
    requires forall y :: y in s ==> Le(lo, key(y))
    ensures forall y :: y in Insert(x, s, key) ==> Le(lo, key(y))
  {
    forall y | y in Insert(x, s, key) ensures Le(lo, key(y)) {
      assert y in multiset(Insert(x, s, key));
      if y != x { assert y in multiset(s); }
    }
  }

  /** Putting an element in front of a sorted list whose keys it bounds. */
  lemma SortedCons(h: string, t: seq<string>, key: string -> string)
    requires SortedBy(t, key)
    requires forall y :: y in t ==> Le(key(h), key(y))
    ensures SortedBy([h] + t, key)
  {
    var r := [h] + t;
    forall i, j | 0 <= i < j < |r| ensures Le(key(r[i]), key(r[j])) {
      assert r[j] == t[j - 1];
      if i > 0 { assert r[i] == t[i - 1]; }
    }
  }

  lemma {:induction false} InsertSorted(x: string, s: seq<string>, key: string -> string)
    requires SortedBy(s, key)
    ensures SortedBy(Insert(x, s, key), key)
  {
    if |s| > 0 {
      if Le(key(x), key(s[0])) {
        forall y | y in s ensures Le(key(x), key(y)) {
          SortedFirst(s, key, y);
          LeTransitive(key(x), key(s[0]), key(y));
        }
        SortedCons(x, s, key);
      } else {
        LeTotal(key(x), key(s[0]));
        var tail := s[1..];
        assert SortedBy(tail, key) by {
          forall i, j | 0 <= i < j < |tail| ensures Le(key(tail[i]), key(tail[j])) {
            assert tail[i] == s[i + 1] && tail[j] == s[j + 1];
          }
        }
        InsertSorted(x, tail, key);
        forall y | y in tail ensures Le(key(s[0]), key(y)) {
          var k :| 0 <= k < |tail| && tail[k] == y;
          assert s[k + 1] == y;
        }
        InsertBounded(x, tail, key, key(s[0]));
        SortedCons(s[0], Insert(x, tail, key), key);
      }
    }
  }

  /** The sort's result is ordered by key. */
  lemma {:induction false} SortBySorted(s: seq<string>, key: string -> string)
    ensures SortedBy(SortBy(s, key), key)
  {
    if |s| > 0 {
      SortBySorted(s[1..], key);
      InsertSorted(s[0], SortBy(s[1..], key), key);
    }
  }

  lemma MultisetTail(a: seq<string>)
    requires |a| > 0
    ensures multiset(a[1..]) == multiset(a) - multiset{a[0]}
  {
    assert a == [a[0]] + a[1..];
  }

  /** In a sorted list the first key is the least one. */
  lemma SortedFirst(a: seq<string>, key: string -> string, x: string)
    requires SortedBy(a, key) && x in a
    ensures Le(key(a[0]), key(x))
  {
    var i :| 0 <= i < |a| && a[i] == x;
    if i == 0 { LeRefl(key(x)); }
  }

  /** Two orderings of the same names by an injective key start alike. */
  lemma SortedHeads(a: seq<string>, b: seq<string>, key: string -> string)
    requires |a| > 0 && |b| > 0
    requires SortedBy(a, key) && SortedBy(b, key)
    requires multiset(a) == multiset(b)
    requires KeyInjective(a, key)
    ensures a[0] == b[0]
  {
    assert a[0] in multiset(b) && b[0] in multiset(a);
    SortedFirst(b, key, a[0]);
    SortedFirst(a, key, b[0]);
    LeAntisymmetric(key(a[0]), key(b[0]));
  }

  /** Dropping the first element keeps a list sorted and its key injective. */
  lemma SortedTail(a: seq<string>, key: string -> string)
    requires |a| > 0 && SortedBy(a, key) && KeyInjective(a, key)
    ensures SortedBy(a[1..], key) && KeyInjective(a[1..], key)
  {
    forall i, j | 0 <= i < j < |a| - 1 ensures Le(key(a[1..][i]), key(a[1..][j])) {
      assert a[1..][i] == a[i + 1] && a[1..][j] == a[j + 1];
    }
    forall x | x in a[1..] ensures x in a { }
  }

  /** Two orderings of the same names by an injective key are the same list. */
  lemma {:induction false} SortedUnique(a: seq<string>, b: seq<string>, key: string -> string)
    requires SortedBy(a, key) && SortedBy(b, key)
    requires multiset(a) == multiset(b)
    requires KeyInjective(a, key)
    ensures a == b
    decreases |a|
  {
    if |a| == 0 {
      assert |b| == |multiset(b)| == 0;
    } else {
      assert |b| == |multiset(b)| == |a|;
      SortedHeads(a, b, key);
      MultisetTail(a);
      MultisetTail(b);
      SortedTail(a, key);
      assert KeyInjective(b, key) by {
        forall x | x in b ensures x in a {
          assert x in multiset(b);
        }
      }
      SortedTail(b, key);
      SortedUnique(a[1..], b[1..], key);
      assert a == [a[0]] + a[1..] && b == [b[0]] + b[1..];
    }
  }

  /** Sorting by an injective key forgets the order the names came in. */
  lemma SortByOrderIndependent(a: seq<string>, b: seq<string>, key: string -> string)
    requires multiset(a) == multiset(b)
    requires KeyInjective(a, key)
    ensures SortBy(a, key) == SortBy(b, key)
  {
    SortBySorted(a, key);
    SortBySorted(b, key);
    var sa := SortBy(a, key);
    forall x, y | x in sa && y in sa && key(x) == key(y) ensures x == y {
      assert x in multiset(a) && y in multiset(a);
    }
    SortedUnique(sa, SortBy(b, key), key);
  }

  /** A list ordered by an injective key is what sorting any of its orderings gives. */
  lemma SortByIsSorted(a: seq<string>, b: seq<string>, key: string -> string)
    requires SortedBy(a, key)
    requires multiset(a) == multiset(b)
    requires KeyInjective(a, key)
    ensures SortBy(b, key) == a
  {
    SortBySorted(b, key);
    SortedUnique(a, SortBy(b, key), key);
  }

  /** Two sorted lists, every key of the first at most every key of the second. */
  lemma SortedConcat(a: seq<string>, b: seq<string>, key: string -> string)
    requires SortedBy(a, key) && SortedBy(b, key)
    requires forall i, j :: 0 <= i < |a| && 0 <= j < |b| ==> Le(key(a[i]), key(b[j]))
    ensures SortedBy(a + b, key)
  {
    var ab := a + b;
    forall i, j | 0 <= i < j < |ab| ensures Le(key(ab[i]), key(ab[j])) {
      if j < |a| {
        assert ab[i] == a[i] && ab[j] == a[j];
      } else if i >= |a| {
        assert ab[i] == b[i - |a|] && ab[j] == b[j - |a|];
      } else {
        assert ab[i] == a[i] && ab[j] == b[j - |a|];
      }
    }
  }

  /** Dropping elements keeps a list sorted. */
  lemma {:induction false} FilterSorted(p: string -> bool, s: seq<string>, key: string -> string)
    requires SortedBy(s, key)
    ensures SortedBy(Filter(p, s), key)
  {
    if |s| > 0 {
      var s' := s[..|s| - 1];
      var y := s[|s| - 1];
      assert SortedBy(s', key);
      FilterSorted(p, s', key);
      var f := Filter(p, s');
      FilterContents(p, s');
      if p(y) {
        forall i | 0 <= i < |f| ensures Le(key(f[i]), key(y)) {
          assert f[i] in s';
          var k :| 0 <= k < |s'| && s'[k] == f[i];
          assert s[k] == f[i];
        }
        SortedConcat(f, [y], key);
      } else {
        assert Filter(p, s) == f + [];
        assert f + [] == f;
      }
    }
  }

  /** Holds when ordering `f(x)` by `k1` is ordering `x` by `k2`, on the names of `s`. */
  predicate OrderCompatible(f: string -> string, s: seq<string>, k1: string -> string, k2: string -> string)
  {
    forall x, y :: x in s && y in s ==> (Le(k1(f(x)), k1(f(y))) <==> Le(k2(x), k2(y)))
  }

  lemma {:induction false} InsertMap(f: string -> string, x: string, s: seq<string>, k1: string -> string, k2: string -> string)
    requires OrderCompatible(f, [x] + s, k1, k2)
    ensures Insert(f(x), Map(f, s), k1) == Map(f, Insert(x, s, k2))
  {
    if |s| == 0 {
      MapSingleton(f, x);
    } else {
      var m := Map(f, s);
      assert m[0] == f(s[0]);
      assert Le(k1(f(x)), k1(m[0])) <==> Le(k2(x), k2(s[0])) by {
        assert x in [x] + s && s[0] in [x] + s;
      }
      if Le(k2(x), k2(s[0])) {
        assert Insert(f(x), m, k1) == [f(x)] + m;
        assert Insert(x, s, k2) == [x] + s;
        MapConcat(f, [x], s);
        MapSingleton(f, x);
      } else {
        var t := Insert(x, s[1..], k2);
        assert Insert(x, s, k2) == [s[0]] + t;
        assert m[1..] == Map(f, s[1..]);
        assert Insert(f(x), m, k1) == [m[0]] + Insert(f(x), m[1..], k1);
        assert OrderCompatible(f, [x] + s[1..], k1, k2) by {
          assert forall y :: y in [x] + s[1..] ==> y in [x] + s;
          OrderCompatibleSubset(f, [x] + s, [x] + s[1..], k1, k2);
        }
        InsertMap(f, x, s[1..], k1, k2);
        MapConcat(f, [s[0]], t);
        MapSingleton(f, s[0]);
      }
    }
  }

  lemma OrderCompatibleSubset(f: string -> string, s: seq<string>, t: seq<string>, k1: string -> string, k2: string -> string)
    requires OrderCompatible(f, s, k1, k2)
    requires forall x :: x in t ==> x in s
    ensures OrderCompatible(f, t, k1, k2)
  {
  }

  lemma MapTail(f: string -> string, s: seq<string>)
    requires |s| > 0
    ensures Map(f, s) == [f(s[0])] + Map(f, s[1..])
  {
  }

  lemma InSortBy(s: seq<string>, key: string -> string, x: string)
    requires x in SortBy(s, key)
    ensures x in s
  {
    assert x in multiset(SortBy(s, key));
  }

  /** Sorting the images of `f` is taking the images of the sorted list. */
  lemma {:induction false} SortByMap(f: string -> string, s: seq<string>, k1: string -> string, k2: string -> string)
    requires OrderCompatible(f, s, k1, k2)
    ensures SortBy(Map(f, s), k1) == Map(f, SortBy(s, k2))
  {
    if |s| > 0 {
      MapTail(f, s);
      OrderCompatibleSubset(f, s, s[1..], k1, k2);
      SortByMap(f, s[1..], k1, k2);
      var t := SortBy(s[1..], k2);
      forall x | x in [s[0]] + t ensures x in s {
        if x != s[0] { InSortBy(s[1..], k2, x); }
      }
      OrderCompatibleSubset(f, s, [s[0]] + t, k1, k2);
      InsertMap(f, s[0], t, k1, k2);
    }
  }
}
