/** Generic sequence vocabulary: the option type, `map`, list flattening,
    sums and the index range `range(n)`. */
module Seqs {

  datatype Option<T> = None | Some(value: T)

  /** `list(map(f, s))`. */
  function Map<A, B>(f: A -> B, s: seq<A>): seq<B>
  {
    seq(|s|, i requires 0 <= i < |s| => f(s[i]))
  }

  lemma MapConcat<A, B>(f: A -> B, a: seq<A>, b: seq<A>)
    ensures Map(f, a + b) == Map(f, a) + Map(f, b)
  {
  }

  lemma MapSingleton<A, B>(f: A -> B, x: A)
    ensures Map(f, [x]) == [f(x)]
  {
  }

  /** `list(filter(p, s))`: the elements satisfying `p`, in order. */
  function Filter<T>(p: T -> bool, s: seq<T>): (r: seq<T>)
    ensures |r| <= |s|
  {
    if |s| == 0 then []
    else Filter(p, s[..|s| - 1]) + (if p(s[|s| - 1]) then [s[|s| - 1]] else [])
  }

  lemma FilterStep<T>(p: T -> bool, s: seq<T>, i: nat)
    requires i < |s|
    ensures Filter(p, s[..i + 1]) == Filter(p, s[..i]) + (if p(s[i]) then [s[i]] else [])
  {
    assert s[..i + 1][..i] == s[..i];
  }

  /** Filtering keeps each element satisfying `p` as often as it occurs, and nothing else. */
  lemma {:induction false} FilterContents<T(!new)>(p: T -> bool, s: seq<T>)
    ensures forall x :: multiset(Filter(p, s))[x] == if p(x) then multiset(s)[x] else 0
    ensures forall x :: x in Filter(p, s) <==> x in s && p(x)
  {
    if |s| > 0 {
      var s', y := s[..|s| - 1], s[|s| - 1];
      assert s == s' + [y];
      FilterContents(p, s');
      forall x ensures x in Filter(p, s) <==> x in s && p(x) {
        assert x in Filter(p, s) <==> x in multiset(Filter(p, s));
        assert x in s <==> x in multiset(s);
      }
    }
  }

  /** Filtering keeps only what the multiset of its input says. */
  lemma FilterPermutation<T(!new)>(p: T -> bool, a: seq<T>, b: seq<T>)
    requires multiset(a) == multiset(b)
    ensures multiset(Filter(p, a)) == multiset(Filter(p, b))
  {
    FilterContents(p, a);
    FilterContents(p, b);
    forall x ensures multiset(Filter(p, a))[x] == multiset(Filter(p, b))[x] {
      assert multiset(a)[x] == multiset(b)[x];
    }
  }

  /** The concatenation of a list of lists, in order. */
  function Flatten<T>(gs: seq<seq<T>>): seq<T>
  {
    if |gs| == 0 then [] else Flatten(gs[..|gs| - 1]) + gs[|gs| - 1]
  }

  lemma FlattenAppend<T>(gs: seq<seq<T>>, g: seq<T>)
    ensures Flatten(gs + [g]) == Flatten(gs) + g
  {
    assert (gs + [g])[..|gs|] == gs;
  }

  lemma FlattenSingleton<T>(g: seq<T>)
    ensures Flatten([g]) == g
  {
    assert [g][..0] == [];
  }

  /** Flattening does not see where the list is cut. */
  lemma {:induction false} FlattenConcat<T>(a: seq<seq<T>>, b: seq<seq<T>>)
    ensures Flatten(a + b) == Flatten(a) + Flatten(b)
    decreases |b|
  {
    if |b| == 0 {
      assert a + b == a;
    } else {
      var b' := b[..|b| - 1];
      assert a + b == (a + b') + [b[|b| - 1]];
      assert b == b' + [b[|b| - 1]];
      FlattenAppend(a + b', b[|b| - 1]);
      FlattenAppend(b', b[|b| - 1]);
      FlattenConcat(a, b');
    }
  }

  /** `sum(s)`. */
  function Sum(s: seq<nat>): nat
  {
    if |s| == 0 then 0 else Sum(s[..|s| - 1]) + s[|s| - 1]
  }

  lemma {:induction false} SumConcat(a: seq<nat>, b: seq<nat>)
    ensures Sum(a + b) == Sum(a) + Sum(b)
    decreases |b|
  {
    if |b| == 0 {
      assert a + b == a;
    } else {
      var b' := b[..|b| - 1];
      assert (a + b)[..|a + b| - 1] == a + b';
      SumConcat(a, b');
    }
  }

  lemma SumAppend(l: seq<nat>, x: nat)
    ensures Sum(l + [x]) == Sum(l) + x
  {
    assert (l + [x])[..|l|] == l;
  }

  /** Taking out one term lowers the sum by that term. */
  lemma SumMiddle(l: seq<nat>, x: nat, r: seq<nat>)
    ensures Sum(l + [x] + r) == Sum(l + r) + x
  {
    SumConcat(l + [x], r);
    SumAppend(l, x);
    SumConcat(l, r);
  }

  /** Removing the same element from two reorderings leaves reorderings. */
  lemma MultisetMiddle<T>(a: seq<T>, x: T, l: seq<T>, r: seq<T>)
    requires multiset(a + [x]) == multiset(l + [x] + r)
    ensures multiset(a) == multiset(l + r)
  {
    assert multiset(a + [x]) == multiset(a) + multiset{x};
    assert multiset(l + [x] + r) == multiset(l) + multiset{x} + multiset(r);
    assert multiset(l + r) == multiset(l) + multiset(r);
    assert multiset(a) == multiset(a + [x]) - multiset{x};
  }

  /** A sum does not depend on the order of its terms. */
  lemma {:induction false} SumPermutation(a: seq<nat>, b: seq<nat>)
    requires multiset(a) == multiset(b)
    ensures Sum(a) == Sum(b)
    decreases |a|
  {
    if |a| > 0 {
      var x := a[|a| - 1];
      var a' := a[..|a| - 1];
      assert Sum(a) == Sum(a') + x by {
        assert a == a' + [x];
        SumAppend(a', x);
      }
      assert x in multiset(b);
      var k :| 0 <= k < |b| && b[k] == x;
      var l, r := b[..k], b[k + 1..];
      assert Sum(b) == Sum(l + r) + x by {
        assert b == l + [x] + r;
        SumMiddle(l, x, r);
      }
      assert multiset(a' + [x]) == multiset(l + [x] + r) by {
        assert a == a' + [x];
        assert b == l + [x] + r;
      }
      MultisetMiddle(a', x, l, r);
      SumPermutation(a', l + r);
    } else {
      assert |b| == |multiset(b)| == 0;
    }
  }

  /** `[f(0), ..., f(n - 1)]`, built one element at a time as a loop over
      `range(n)` appends them. */
  function Tabulate<T>(f: nat -> T, n: nat): seq<T>
  {
    if n == 0 then [] else Tabulate(f, n - 1) + [f(n - 1)]
  }

  lemma {:induction false} TabulateIndex<T>(f: nat -> T, n: nat)
    ensures |Tabulate(f, n)| == n
    ensures forall i :: 0 <= i < n ==> Tabulate(f, n)[i] == f(i)
  {
    if n > 0 {
      TabulateIndex(f, n - 1);
    }
  }

  /** `list(range(n))`. */
  function Indices(n: nat): (r: seq<nat>)
    ensures |r| == n
    ensures forall i :: 0 <= i < n ==> r[i] == i
  {
    if n == 0 then [] else Indices(n - 1) + [n - 1]
  }
}
