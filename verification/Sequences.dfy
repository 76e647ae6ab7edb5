// Lists of lists, and lists that an order relation determines.
module Sequences {
  import opened Ordering

  /** The concatenation of a list of lists. */
  function Flatten<T>(xss: seq<seq<T>>): seq<T> {
    if xss == [] then [] else Flatten(xss[..|xss| - 1]) + xss[|xss| - 1]
  }

  lemma FlattenAppend<T>(xss: seq<seq<T>>, xs: seq<T>)
    ensures Flatten(xss + [xs]) == Flatten(xss) + xs
  {
    assert (xss + [xs])[..|xss|] == xss;
  }

  /** Where block m starts in the concatenation. */
  function Offset<T>(xss: seq<seq<T>>, m: nat): nat
    requires m <= |xss|
  {
    if m == 0 then 0 else Offset(xss, m - 1) + |xss[m - 1]|
  }

  lemma {:induction false} OffsetPrefix<T>(xss: seq<seq<T>>, n: nat, m: nat)
    requires m <= n <= |xss|
    ensures Offset(xss[..n], m) == Offset(xss, m)
  {
    if m > 0 {
      OffsetPrefix(xss, n, m - 1);
    }
  }

  lemma {:induction false} OffsetGrows<T>(xss: seq<seq<T>>, m: nat, n: nat)
    requires m < n <= |xss|
    ensures Offset(xss, m) + |xss[m]| <= Offset(xss, n)
  {
    if m < n - 1 {
      OffsetGrows(xss, m, n - 1);
    }
  }

  lemma {:induction false} FlattenLength<T>(xss: seq<seq<T>>)
    ensures |Flatten(xss)| == Offset(xss, |xss|)
  {
    if xss != [] {
      var k := |xss| - 1;
      FlattenLength(xss[..k]);
      OffsetPrefix(xss, k, k);
    }
  }

  /** Item p of block m is at its block's offset plus p. */
  lemma {:induction false} FlattenAt<T>(xss: seq<seq<T>>, m: nat, p: nat)
    requires m < |xss| && p < |xss[m]|
    ensures Offset(xss, m) + p < |Flatten(xss)| && Flatten(xss)[Offset(xss, m) + p] == xss[m][p]
  {
    var k := |xss| - 1;
    FlattenLength(xss[..k]);
    OffsetPrefix(xss, k, k);
    if m < k {
      FlattenAt(xss[..k], m, p);
      OffsetPrefix(xss, k, m);
    }
  }

  /** Every item of the concatenation is some item of some block. */
  lemma {:induction false} FlattenFind<T>(xss: seq<seq<T>>, i: nat) returns (m: nat, p: nat)
    requires i < |Flatten(xss)|
    ensures m < |xss| && p < |xss[m]| && i == Offset(xss, m) + p && Flatten(xss)[i] == xss[m][p]
  {
    var k := |xss| - 1;
    FlattenLength(xss[..k]);
    OffsetPrefix(xss, k, k);
    if i < |Flatten(xss[..k])| {
      m, p := FlattenFind(xss[..k], i);
      OffsetPrefix(xss, k, m);
    } else {
      m, p := k, i - |Flatten(xss[..k])|;
    }
  }

  /** Two items of the concatenation are in order by block, and within a block by place. */
  lemma FlattenPair<T>(xss: seq<seq<T>>, i: nat, j: nat) returns (m: nat, p: nat, n: nat, q: nat)
    requires i < j < |Flatten(xss)|
    ensures m < |xss| && p < |xss[m]| && Flatten(xss)[i] == xss[m][p]
    ensures n < |xss| && q < |xss[n]| && Flatten(xss)[j] == xss[n][q]
    ensures m < n || (m == n && p < q)
  {
    m, p := FlattenFind(xss, i);
    n, q := FlattenFind(xss, j);
    if n < m {
      OffsetGrows(xss, n, m);
    }
  }

  /** x comes before y in the list. */
  predicate InOrder<T(==)>(s: seq<T>, x: T, y: T) {
    exists i, j :: 0 <= i < j < |s| && s[i] == x && s[j] == y
  }

  lemma FlattenInOrder<T>(xss: seq<seq<T>>, m: nat, p: nat, n: nat, q: nat)
    requires m < |xss| && p < |xss[m]| && n < |xss| && q < |xss[n]|
    requires m < n || (m == n && p < q)
    ensures InOrder(Flatten(xss), xss[m][p], xss[n][q])
  {
    FlattenAt(xss, m, p);
    FlattenAt(xss, n, q);
    if m < n {
      OffsetGrows(xss, m, n);
    }
  }

  lemma InOrderAfter<T>(pre: seq<T>, s: seq<T>, x: T, y: T)
    requires InOrder(s, x, y)
    ensures InOrder(pre + s, x, y)
  {
    var i, j :| 0 <= i < j < |s| && s[i] == x && s[j] == y;
    assert (pre + s)[|pre| + i] == x && (pre + s)[|pre| + j] == y;
  }

  /** A duplicate-free list never has two items in both orders. */
  lemma InOrderOnce<T>(s: seq<T>, x: T, y: T)
    requires Distinct(s) && InOrder(s, x, y)
    ensures !InOrder(s, y, x)
  {
  }

  /** No item is listed after one that must follow it. */
  ghost predicate Respects<T(!new)>(s: seq<T>, before: (T, T) -> bool) {
    forall i, j :: 0 <= i < j < |s| ==> !before(s[j], s[i])
  }

  /** If the relation orders every two items, only one duplicate-free list of them respects it. */
  lemma {:induction false} RespectsUnique<T(!new)>(a: seq<T>, b: seq<T>, before: (T, T) -> bool)
    requires Distinct(a) && Distinct(b) && Respects(a, before) && Respects(b, before)
    requires forall x :: x in a <==> x in b
    requires forall x, y :: x in a && y in a && x != y ==> before(x, y) || before(y, x)
    ensures a == b
    decreases |a|
  {
    assert b != [] ==> b[0] in b;
    if a != [] {
      assert a[0] in b && b[0] in a;
      assert a[0] == b[0] by {
        var i :| 0 <= i < |b| && b[i] == a[0];
        var j :| 0 <= j < |a| && a[j] == b[0];
      }
      forall x
        ensures x in a[1..] <==> x in b[1..]
      {
        assert x in a <==> x == a[0] || x in a[1..];
        assert x in b <==> x == b[0] || x in b[1..];
        assert a[0] !in a[1..] && b[0] !in b[1..];
      }
      RespectsUnique(a[1..], b[1..], before);
      assert a == [a[0]] + a[1..] && b == [b[0]] + b[1..];
    }
  }
}
