/** Ascending iteration over a finite set of ids, as an ordered map yields its keys, and what a
    permutation keeps. */
module Ordering {
  import opened Words

  /** The least id of a non-empty set. */
  function MinId(s: set<U64>): (m: U64)
    requires s != {}
    ensures m in s && forall x | x in s :: m <= x
  {
    LeastExists(s);
    var m :| m in s && forall x | x in s :: m <= x;
    m
  }

  lemma LeastExists(s: set<U64>)
    requires s != {}
    ensures exists m :: m in s && forall x | x in s :: m <= x
  {
    var m := FindLeast(s);
  }

  lemma {:induction false} FindLeast(s: set<U64>) returns (m: U64)
    requires s != {}
    ensures m in s && forall x | x in s :: m <= x
  {
    var x :| x in s;
    m := x;
    var rest := s - {x};
    assert s == rest + {x};
    if rest != {} {
      var least := FindLeast(rest);
      m := if least <= x then least else x;
      assert forall y | y in s :: y in rest || y == x;
    }
  }

  predicate Ascending(ids: seq<U64>) {
    forall i, j | 0 <= i < j < |ids| :: ids[i] < ids[j]
  }

  /** The ids of s in strictly ascending order. */
  function SortedIds(s: set<U64>): (ids: seq<U64>)
    ensures Ascending(ids)
    ensures forall x :: x in ids <==> x in s
    ensures |ids| == |s|
  {
    if s == {} then [] else var m := MinId(s); [m] + SortedIds(s - {m})
  }

  /** A sequence without repetition is no longer than any set that holds its elements. */
  lemma {:induction false} Pigeonhole<T>(p: seq<T>, s: set<T>)
    requires forall i | 0 <= i < |p| :: p[i] in s
    requires forall i, j | 0 <= i < j < |p| :: p[i] != p[j]
    ensures |p| <= |s|
  {
    if p != [] {
      var last := p[|p| - 1];
      Pigeonhole(p[..|p| - 1], s - {last});
    }
  }

  // ---------------------------------------------------------------- permutations

  lemma {:induction false} OnceEach<T>(xs: seq<T>, x: T)
    requires forall i, j | 0 <= i < j < |xs| :: xs[i] != xs[j]
    ensures multiset(xs)[x] <= 1
  {
    if xs != [] {
      OnceEach(xs[1..], x);
      assert xs == [xs[0]] + xs[1..];
      if x == xs[0] {
        assert x !in xs[1..];
        assert x !in multiset(xs[1..]);
      }
    }
  }

  lemma TwiceCounts<T>(xs: seq<T>, i: nat, j: nat)
    requires i < j < |xs| && xs[i] == xs[j]
    ensures multiset(xs)[xs[i]] >= 2
  {
    assert xs == xs[..j] + xs[j..];
    assert xs[i] == xs[..j][i] && xs[j] == xs[j..][0];
    assert xs[i] in xs[..j] && xs[i] in xs[j..];
    assert multiset(xs) == multiset(xs[..j]) + multiset(xs[j..]);
  }

  lemma MembersOfPermutation<T>(xs: seq<T>, ys: seq<T>, j: nat) returns (i: nat)
    requires multiset(xs) == multiset(ys) && j < |ys|
    ensures i < |xs| && xs[i] == ys[j]
  {
    assert ys[j] in ys;
    assert ys[j] in multiset(ys);
    assert ys[j] in multiset(xs);
    i :| 0 <= i < |xs| && xs[i] == ys[j];
  }

  lemma SameLength<T>(xs: seq<T>, ys: seq<T>)
    requires multiset(xs) == multiset(ys)
    ensures |xs| == |ys|
  {
    assert |multiset(xs)| == |xs| && |multiset(ys)| == |ys|;
  }

  lemma SameMembers<T>(a: seq<T>, b: seq<T>)
    requires multiset(a) == multiset(b)
    ensures forall x :: x in a <==> x in b
    ensures |a| == |b|
  {
    forall x
      ensures x in a <==> x in b
    {
      assert x in a <==> x in multiset(a);
      assert x in b <==> x in multiset(b);
    }
    assert |a| == |multiset(a)| && |b| == |multiset(b)|;
  }

  ghost predicate DistinctBy<T>(id: T -> U64, xs: seq<T>) {
    forall i, j | 0 <= i < j < |xs| :: id(xs[i]) != id(xs[j])
  }

  /** Whether ids repeat does not depend on the order. */
  lemma DistinctInAnyOrder<T>(id: T -> U64, xs: seq<T>, ys: seq<T>)
    requires multiset(xs) == multiset(ys) && DistinctBy(id, xs)
    ensures DistinctBy(id, ys)
  {
    forall i, j | 0 <= i < j < |ys|
      ensures id(ys[i]) != id(ys[j])
    {
      var k := MembersOfPermutation(xs, ys, i);
      var l := MembersOfPermutation(xs, ys, j);
      if id(ys[i]) == id(ys[j]) {
        TwiceCounts(ys, i, j);
        OnceEach(xs, ys[i]);
      }
    }
  }

  /** Nor does whether all elements have a property. */
  lemma AllInAnyOrder<T>(holds: T -> bool, xs: seq<T>, ys: seq<T>)
    requires multiset(xs) == multiset(ys)
    ensures (forall i | 0 <= i < |xs| :: holds(xs[i])) <==> (forall i | 0 <= i < |ys| :: holds(ys[i]))
  {
    SameMembers(xs, ys);
    assert (forall i | 0 <= i < |xs| :: holds(xs[i])) <==> (forall x | x in xs :: holds(x));
    assert (forall i | 0 <= i < |ys| :: holds(ys[i])) <==> (forall y | y in ys :: holds(y));
  }
}
