// Byte-wise string order, the in-place insertion sort of the jsonpath package
// and the sorted key list of a map.
module Ordering {

  /** Go's <= on strings. */
  predicate Leq(a: string, b: string) {
    a == [] || (b != [] && (a[0] < b[0] || (a[0] == b[0] && Leq(a[1..], b[1..]))))
  }

  lemma {:induction false} LeqTotal(a: string, b: string)
    ensures Leq(a, b) || Leq(b, a)
    ensures Leq(a, a)
    ensures Leq(a, b) && Leq(b, a) ==> a == b
  {
    if a != [] {
      LeqTotal(a[1..], if b == [] then [] else b[1..]);
      if b != [] && Leq(a, b) && Leq(b, a) {
        assert a == [a[0]] + a[1..] && b == [b[0]] + b[1..];
      }
    }
  }

  /** The order is decided by the first difference: the smaller character, or the shorter text. */
  lemma {:induction false} LeqByFirstDifference(a: string, b: string, n: nat)
    requires n <= |a| && n <= |b| && a[..n] == b[..n]
    ensures n == |a| ==> Leq(a, b)
    ensures n == |b| && n < |a| ==> !Leq(a, b)
    ensures n < |a| && n < |b| && a[n] != b[n] ==> (Leq(a, b) <==> a[n] < b[n])
  {
    if n > 0 {
      assert a[0] == a[..n][0] && b[0] == b[..n][0];
      assert a[1..][..n - 1] == a[..n][1..] && b[1..][..n - 1] == b[..n][1..];
      LeqByFirstDifference(a[1..], b[1..], n - 1);
    }
  }

  lemma {:induction false} LeqTransitive(a: string, b: string, c: string)
    requires Leq(a, b) && Leq(b, c)
    ensures Leq(a, c)
  {
    if a != [] && a[0] == b[0] == c[0] {
      LeqTransitive(a[1..], b[1..], c[1..]);
    }
  }

  predicate Sorted(s: seq<string>) {
    forall p, q :: 0 <= p < q < |s| ==> Leq(s[p], s[q])
  }

  predicate Distinct<T(==)>(s: seq<T>) {
    forall p, q :: 0 <= p < q < |s| ==> s[p] != s[q]
  }

  /** sortStrings: insertion sort by adjacent swaps, in place. */
  method SortStrings(s: array<string>)
    modifies s
    ensures Sorted(s[..])
    ensures multiset(s[..]) == multiset(old(s[..]))
  {
    if s.Length == 0 {
      return;
    }
    var i := 1;
    while i < s.Length
      invariant 1 <= i <= s.Length
      invariant forall p, q :: 0 <= p < q < i ==> Leq(s[p], s[q])
      invariant multiset(s[..]) == multiset(old(s[..]))
    {
      var j := i;
      while j > 0 && !Leq(s[j - 1], s[j])
        invariant 0 <= j <= i
        invariant forall p, q :: 0 <= p < q <= i && q != j ==> Leq(s[p], s[q])
        invariant multiset(s[..]) == multiset(old(s[..]))
      {
        LeqTotal(s[j - 1], s[j]);
        s[j - 1], s[j] := s[j], s[j - 1];
        j := j - 1;
      }
      forall p | 0 <= p < j
        ensures Leq(s[p], s[j])
      {
        if p < j - 1 {
          LeqTransitive(s[p], s[j - 1], s[j]);
        }
      }
      i := i + 1;
    }
  }

  // ---------------------------------------------------------- sorted keys

  ghost predicate IsLeast(m: string, s: set<string>) {
    m in s && forall x :: x in s ==> Leq(m, x)
  }

  lemma {:induction false} HasLeast(s: set<string>)
    requires s != {}
    ensures exists m :: IsLeast(m, s)
  {
    var x :| x in s;
    LeqTotal(x, x);
    if s == {x} {
      assert IsLeast(x, s);
    } else {
      HasLeast(s - {x});
      var m :| IsLeast(m, s - {x});
      LeqTotal(m, x);
      if Leq(m, x) {
        assert IsLeast(m, s);
      } else {
        forall y | y in s
          ensures Leq(x, y)
        {
          if y != x {
            LeqTransitive(x, m, y);
          }
        }
        assert IsLeast(x, s);
      }
    }
  }

  /** The keys of a map in sorted order. */
  ghost function SortedKeys(s: set<string>): (r: seq<string>)
    ensures Sorted(r) && Distinct(r)
    ensures forall x :: x in r <==> x in s
  {
    if s == {} then []
    else
      HasLeast(s);
      var m :| IsLeast(m, s);
      [m] + SortedKeys(s - {m})
  }

  /** Sorting leaves no freedom: any sorted, duplicate-free listing is the same list. */
  lemma {:induction false} SortedUnique(a: seq<string>, b: seq<string>)
    requires Sorted(a) && Sorted(b) && Distinct(a) && Distinct(b)
    requires forall x :: x in a <==> x in b
    ensures a == b
  {
    assert b != [] ==> b[0] in b;
    if a != [] {
      assert a[0] in b;
      assert b[0] in a;
      var i :| 0 <= i < |b| && b[i] == a[0];
      var j :| 0 <= j < |a| && a[j] == b[0];
      LeqTotal(a[0], b[0]);
      assert a[0] == b[0];
      forall x
        ensures x in a[1..] <==> x in b[1..]
      {
        assert x in a <==> x == a[0] || x in a[1..];
        assert x in b <==> x == b[0] || x in b[1..];
        assert a[0] !in a[1..] && b[0] !in b[1..];
      }
      SortedUnique(a[1..], b[1..]);
      assert a == [a[0]] + a[1..] && b == [b[0]] + b[1..];
    }
  }

  /** Lists a set in an arbitrary order, as Go ranges over a map, then sorts the list. */
  method ListSorted(keys: set<string>) returns (r: seq<string>)
    ensures r == SortedKeys(keys)
  {
    var rest, listed := keys, [];
    while rest != {}
      invariant rest <= keys
      invariant forall x :: x in listed <==> x in keys && x !in rest
      invariant Distinct(listed)
      decreases |rest|
    {
      var k :| k in rest;
      listed := listed + [k];
      rest := rest - {k};
    }
    var a := new string[|listed|](i requires 0 <= i < |listed| => listed[i]);
    assert a[..] == listed;
    SortStrings(a);
    r := a[..];
    SamePermutation(listed, r);
    SortedUnique(r, SortedKeys(keys));
  }

  lemma SamePermutation(a: seq<string>, b: seq<string>)
    requires multiset(a) == multiset(b) && Distinct(a)
    ensures Distinct(b) && forall x :: x in a <==> x in b
  {
    forall x
      ensures x in a <==> x in b
    {
      assert x in a <==> x in multiset(a);
      assert x in b <==> x in multiset(b);
    }
    DistinctCounts(a);
    forall p, q | 0 <= p < q < |b|
      ensures b[p] != b[q]
    {
      if b[p] == b[q] {
        RepeatCounts(b, p, q);
      }
    }
  }

  lemma RepeatCounts(b: seq<string>, p: nat, q: nat)
    requires p < q < |b| && b[p] == b[q]
    ensures multiset(b)[b[p]] >= 2
  {
    assert b == b[..p] + [b[p]] + b[p + 1..q] + [b[q]] + b[q + 1..];
  }

  lemma {:induction false} DistinctCounts(a: seq<string>)
    requires Distinct(a)
    ensures forall x :: x in a ==> multiset(a)[x] == 1
  {
    if a != [] {
      DistinctCounts(a[1..]);
      assert a == [a[0]] + a[1..];
      assert a[0] !in a[1..];
    }
  }
}
