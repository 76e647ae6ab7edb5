// The order of JSONPath results: which pairs of results every run lists in the same
// order, which can come out either way, and hence exactly when the order is fixed.
module JsonPathOrder {
  import opened Prelude
  import opened JsonPathParser
  import opened Ordering
  import opened Sequences
  import opened JsonPathEval

  // ------------------------------------------------------ one recursive step

  /** Every run lists a before b: a node's own field comes before anything below the node, and array
      elements are visited in order. */
  predicate LocBefore(a: Location, b: Location) {
    a != [] && |b| > 1 &&
    (|a| == 1 ||
     if a[0] == b[0] then LocBefore(a[1..], b[1..]) else a[0].Elem? && b[0].Elem? && a[0].pos < b[0].pos)
  }

  /** a and b part at an object, into two different fields, and both go on below them. */
  predicate LocFree(a: Location, b: Location) {
    |a| > 1 && |b| > 1 && if a[0] == b[0] then LocFree(a[1..], b[1..]) else a[0].Field? && b[0].Field?
  }

  /** Two results of one descent are either in a fixed order or free. */
  lemma {:induction false} LocCases(v: Json, name: string, a: Location, b: Location)
    requires Reaches(v, Recursive(name), a) && Reaches(v, Recursive(name), b) && a != b
    ensures LocBefore(a, b) || LocBefore(b, a) || LocFree(a, b)
  {
    assert Child(v, a[0]).Some? && Child(v, b[0]).Some?;
    assert (|a| == 1 ==> a == [Field(name)]) && (|b| == 1 ==> b == [Field(name)]);
    if |a| > 1 && |b| > 1 && a[0] == b[0] {
      assert a == [a[0]] + a[1..] && b == [b[0]] + b[1..];
      LocCases(Child(v, a[0]).value, name, a[1..], b[1..]);
    }
  }

  // --------------------------------------- what a run lists is a complete listing

  lemma {:induction false} TrailOf(v: Json, name: string, order: seq<Edge>, parts: seq<seq<Location>>, n: nat)
    returns (t: Trail)
    requires VisitOrder(v, order) && CollectsAll(v, name, order, parts) && n <= |order|
    ensures OnTrail(v, name, t) && t.order == order[..n] && t.parts == parts[..n]
    decreases v, 0, n
  {
    if n == 0 {
      t := StartTrail(v, name);
    } else {
      var e := order[n - 1];
      t := TrailOf(v, name, order, parts, n - 1);
      var found := CollectsIsListing(Child(v, e).value, name, parts[n - 1]);
      FollowTrail(v, name, t, e, parts[n - 1], found);
      t := Further(t, e, parts[n - 1], found);
    }
  }

  lemma {:induction false} CollectsIsListing(v: Json, name: string, locs: seq<Location>) returns (vals: seq<Json>)
    requires Collects(v, name, locs)
    ensures Lists(v, Recursive(name), locs, vals)
    decreases v, 1
  {
    var order, parts :| Assembled(v, name, order, parts, locs);
    var t := TrailOf(v, name, order, parts, |order|);
    assert order[..|order|] == order && parts[..|order|] == parts;
    EndTrail(v, name, t);
    vals := t.vals;
  }

  // ------------------------------------------------- fixed pairs keep their order

  lemma {:induction false} CollectsRespects(v: Json, name: string, locs: seq<Location>)
    requires Collects(v, name, locs)
    ensures Respects(locs, LocBefore)
    decreases v
  {
    var order, parts :| Assembled(v, name, order, parts, locs);
    assert CollectsAll(v, name, order, parts);
    forall n | 0 <= n < |order|
      ensures Respects(parts[n], LocBefore)
    {
      CollectsRespects(Child(v, order[n]).value, name, parts[n]);
    }
    var own := Own(v, name);
    forall i, j | 0 <= i < j < |locs|
      ensures !LocBefore(locs[j], locs[i])
    {
      if i >= |own| {
        GatherRespects(v, name, order, parts, i - |own|, j - |own|);
      }
    }
  }

  lemma GatherRespects(v: Json, name: string, order: seq<Edge>, parts: seq<seq<Location>>, i: nat, j: nat)
    requires VisitOrder(v, order) && CollectsAll(v, name, order, parts) && i < j < |Gather(order, parts)|
    requires forall n :: 0 <= n < |order| ==> Respects(parts[n], LocBefore)
    ensures !LocBefore(Gather(order, parts)[j], Gather(order, parts)[i])
  {
    var m, p, n, q := FlattenPair(Blocks(order, parts), i, j);
    var vals := CollectsIsListing(Child(v, order[n]).value, name, parts[n]);
    var a, b := parts[m][p], parts[n][q];
    assert Reaches(Child(v, order[n]).value, Recursive(name), b);
    if m == n {
      BelowBefore(order[n], b, a);
    } else {
      LaterChild(v, order, m, n, a, b);
    }
  }

  lemma LaterChild(v: Json, order: seq<Edge>, m: nat, n: nat, a: Location, b: Location)
    requires VisitOrder(v, order) && m < n < |order|
    ensures b != [] ==> !LocBefore([order[n]] + b, [order[m]] + a)
  {
    assert Child(v, order[m]).Some? && Child(v, order[n]).Some?;
  }

  lemma BelowBefore(e: Edge, a: Location, b: Location)
    requires a != []
    ensures LocBefore([e] + a, [e] + b) ==> LocBefore(a, b)
  {
    assert ([e] + a)[1..] == a && ([e] + b)[1..] == b;
  }

  // ----------------------------------------------- free pairs come in both orders

  lemma AnyOrder(v: Json) returns (order: seq<Edge>)
    ensures VisitOrder(v, order)
  {
    if v.Array? {
      order := seq(|v.elems|, i requires 0 <= i => Elem(i));
      assert forall e :: Child(v, e).Some? ==> order[e.pos] == e;
    } else if v.Object? {
      var keys := SortedKeys(v.fields.Keys);
      order := seq(|keys|, i requires 0 <= i < |keys| => Field(keys[i]));
      forall e | Child(v, e).Some?
        ensures e in order
      {
        var i :| 0 <= i < |keys| && keys[i] == e.name;
        assert order[i] == e;
      }
    } else {
      order := [];
    }
  }

  lemma {:induction false} AnyParts(v: Json, name: string, order: seq<Edge>, n: nat) returns (parts: seq<seq<Location>>)
    requires VisitOrder(v, order) && n <= |order|
    ensures CollectsAll(v, name, order[..n], parts)
    decreases v, 0, n
  {
    if n == 0 {
      parts := [];
    } else {
      parts := AnyParts(v, name, order, n - 1);
      assert order[n - 1] in order;
      var last := AnyCollects(Child(v, order[n - 1]).value, name);
      parts := parts + [last];
    }
  }

  lemma {:induction false} AnyCollects(v: Json, name: string) returns (locs: seq<Location>)
    ensures Collects(v, name, locs)
    decreases v, 1
  {
    var order := AnyOrder(v);
    var parts := AnyParts(v, name, order, |order|);
    assert order[..|order|] == order;
    locs := Own(v, name) + Gather(order, parts);
    assert Assembled(v, name, order, parts, locs);
  }

  /** An object's fields can be visited starting with any one of them. */
  lemma OrderFrom(v: Json, e: Edge) returns (order: seq<Edge>)
    requires v.Object? && Child(v, e).Some?
    ensures VisitOrder(v, order) && order != [] && order[0] == e
  {
    var any := AnyOrder(v);
    var m :| 0 <= m < |any| && any[m] == e;
    order := [e] + any[..m] + any[m + 1..];
    assert any == any[..m] + [e] + any[m + 1..];
  }

  /** A run can visit in a given order and list given parts. */
  lemma AssembleInOrder(v: Json, name: string, order: seq<Edge>, parts: seq<seq<Location>>,
                        m: nat, p: nat, n: nat, q: nat) returns (locs: seq<Location>)
    requires VisitOrder(v, order) && CollectsAll(v, name, order, parts)
    requires m < |order| && n < |order| && p < |parts[m]| && q < |parts[n]|
    requires m < n || (m == n && p < q)
    ensures Collects(v, name, locs) && InOrder(locs, [order[m]] + parts[m][p], [order[n]] + parts[n][q])
  {
    locs := Own(v, name) + Gather(order, parts);
    assert Assembled(v, name, order, parts, locs);
    var blocks := Blocks(order, parts);
    assert blocks[m][p] == [order[m]] + parts[m][p] && blocks[n][q] == [order[n]] + parts[n][q];
    FlattenInOrder(blocks, m, p, n, q);
    InOrderAfter(Own(v, name), Flatten(blocks), blocks[m][p], blocks[n][q]);
  }

  /** Where a location below a child appears in what the child lists. */
  lemma PlaceOf(v: Json, name: string, e: Edge, part: seq<Location>, a: Location) returns (p: nat)
    requires Child(v, e).Some? && Collects(Child(v, e).value, name, part)
    requires |a| > 1 && a[0] == e && Reaches(v, Recursive(name), a)
    ensures p < |part| && [e] + part[p] == a
  {
    var vals := CollectsIsListing(Child(v, e).value, name, part);
    assert a == [e] + a[1..];
    ReachesBelow(v, name, e, a[1..]);
    p :| 0 <= p < |part| && part[p] == a[1..];
  }

  lemma {:induction false} FreeEitherWay(v: Json, name: string, a: Location, b: Location) returns (locs: seq<Location>)
    requires Reaches(v, Recursive(name), a) && Reaches(v, Recursive(name), b) && LocFree(a, b)
    ensures Collects(v, name, locs) && InOrder(locs, a, b)
    decreases v
  {
    var e := a[0];
    assert Child(v, e).Some? && Child(v, b[0]).Some?;
    if e == b[0] {
      var c := Child(v, e).value;
      assert a == [e] + a[1..] && b == [e] + b[1..];
      var part := FreeEitherWay(c, name, a[1..], b[1..]);
      var order := AnyOrder(v);
      var parts := AnyParts(v, name, order, |order|);
      assert order[..|order|] == order;
      var m :| 0 <= m < |order| && order[m] == e;
      var p, q :| 0 <= p < q < |part| && part[p] == a[1..] && part[q] == b[1..];
      locs := AssembleInOrder(v, name, order, parts[m := part], m, p, m, q);
    } else {
      var order := OrderFrom(v, e);
      var parts := AnyParts(v, name, order, |order|);
      assert order[..|order|] == order;
      var n :| 0 <= n < |order| && order[n] == b[0];
      var p := PlaceOf(v, name, e, parts[0], a);
      var q := PlaceOf(v, name, b[0], parts[n], b);
      locs := AssembleInOrder(v, name, order, parts, 0, p, n, q);
    }
  }

  // --------------------------------------------------- the condition on the tree

  ghost predicate Contributes(v: Json, name: string) {
    exists loc :: Reaches(v, Recursive(name), loc)
  }

  /** The object at p has two fields with results below them. */
  ghost predicate Forks(v: Json, name: string, p: Location, f: string, g: string) {
    && f != g && At(v, p).Some? && At(v, p).value.Object?
    && var fields := At(v, p).value.fields;
       f in fields && g in fields && Contributes(fields[f], name) && Contributes(fields[g], name)
  }

  lemma {:induction false} FreeForks(v: Json, name: string, a: Location, b: Location)
    returns (p: Location, f: string, g: string)
    requires Reaches(v, Recursive(name), a) && Reaches(v, Recursive(name), b) && LocFree(a, b)
    ensures Forks(v, name, p, f, g)
    decreases |a|
  {
    var e := a[0];
    assert Child(v, e).Some? && Child(v, b[0]).Some?;
    assert a == [e] + a[1..] && b == [b[0]] + b[1..];
    ReachesBelow(v, name, e, a[1..]);
    ReachesBelow(v, name, b[0], b[1..]);
    if e == b[0] {
      p, f, g := FreeForks(Child(v, e).value, name, a[1..], b[1..]);
      AtBelow(v, e, p);
      p := [e] + p;
    } else {
      p, f, g := [], e.name, b[0].name;
    }
  }

  lemma {:induction false} ForksFree(v: Json, name: string, p: Location, f: string, g: string)
    returns (a: Location, b: Location)
    requires Forks(v, name, p, f, g)
    ensures Reaches(v, Recursive(name), a) && Reaches(v, Recursive(name), b) && LocFree(a, b)
    decreases |p|
  {
    if p == [] {
      var x :| Reaches(v.fields[f], Recursive(name), x);
      var y :| Reaches(v.fields[g], Recursive(name), y);
      a, b := [Field(f)] + x, [Field(g)] + y;
      ReachesBelow(v, name, Field(f), x);
      ReachesBelow(v, name, Field(g), y);
    } else {
      var e := p[0];
      a, b := ForksFree(Child(v, e).value, name, p[1..], f, g);
      ReachesBelow(v, name, e, a);
      ReachesBelow(v, name, e, b);
      assert ([e] + a)[1..] == a && ([e] + b)[1..] == b;
      a, b := [e] + a, [e] + b;
    }
  }

  lemma UniqueWithoutFree(v: Json, name: string, l1: seq<Location>, l2: seq<Location>)
    requires Collects(v, name, l1) && Collects(v, name, l2)
    requires forall a, b :: Reaches(v, Recursive(name), a) && Reaches(v, Recursive(name), b) ==> !LocFree(a, b)
    ensures l1 == l2
  {
    var v1 := CollectsIsListing(v, name, l1);
    var v2 := CollectsIsListing(v, name, l2);
    CollectsRespects(v, name, l1);
    CollectsRespects(v, name, l2);
    forall a, b | a in l1 && b in l1 && a != b
      ensures LocBefore(a, b) || LocBefore(b, a)
    {
      LocCases(v, name, a, b);
    }
    RespectsUnique(l1, l2, LocBefore);
  }

  lemma ForksBothWays(v: Json, name: string, p: Location, f: string, g: string)
    returns (l1: seq<Location>, l2: seq<Location>)
    requires Forks(v, name, p, f, g)
    ensures Collects(v, name, l1) && Collects(v, name, l2) && l1 != l2
  {
    var a, b := ForksFree(v, name, p, f, g);
    LocFreeSymmetric(a, b);
    l1 := FreeEitherWay(v, name, a, b);
    l2 := FreeEitherWay(v, name, b, a);
    var vals := CollectsIsListing(v, name, l1);
    InOrderOnce(l1, a, b);
  }

  /** All runs list the same locations in the same order. */
  ghost predicate CollectsOneList(v: Json, name: string) {
    forall l1, l2 :: Collects(v, name, l1) && Collects(v, name, l2) ==> l1 == l2
  }

  /** Exactly when all runs of collectRecursive list the same locations in the same order: no object in
      the tree has two fields with results below them. */
  lemma CollectOrderFixedIff(v: Json, name: string)
    ensures CollectsOneList(v, name) <==> !exists p, f, g :: Forks(v, name, p, f, g)
  {
    if p, f, g :| Forks(v, name, p, f, g) {
      var l1, l2 := ForksBothWays(v, name, p, f, g);
    } else {
      forall a, b | Reaches(v, Recursive(name), a) && Reaches(v, Recursive(name), b)
        ensures !LocFree(a, b)
      {
        if LocFree(a, b) {
          var p, f, g := FreeForks(v, name, a, b);
        }
      }
      forall l1, l2 | Collects(v, name, l1) && Collects(v, name, l2)
        ensures l1 == l2
      {
        UniqueWithoutFree(v, name, l1, l2);
      }
    }
  }

  lemma {:induction false} LocFreeSymmetric(a: Location, b: Location)
    requires LocFree(a, b)
    ensures LocFree(b, a)
  {
    if a[0] == b[0] {
      LocFreeSymmetric(a[1..], b[1..]);
    }
  }

  // ------------------------------------------------------------- whole paths

  /** What a run lists for one step at one node is a complete listing. */
  lemma StepListing(v: Json, s: Step, locs: seq<Location>) returns (vals: seq<Json>)
    requires StepLists(v, s, locs)
    ensures Lists(v, s, locs, vals)
  {
    if s.Recursive? {
      vals := CollectsIsListing(v, s.name, locs);
    } else {
      SelectLists(v, s);
      vals := Select(v, s);
    }
  }

  lemma {:induction false} SpreadExtends(root: Json, steps: seq<Step>, ds: seq<Descent>, nodes: seq<Json>,
                                         parts: seq<seq<Location>>, n: nat) returns (vals: seq<Json>)
    requires steps != [] && Enumerates(root, steps[..|steps| - 1], ds, nodes) && n <= |ds|
    requires ExtendsAllBy(root, steps[|steps| - 1], ds, parts)
    ensures Extends(root, steps, ds, n, Spread(ds[..n], parts[..n]), vals)
    decreases n
  {
    if n == 0 {
      vals := [];
    } else {
      var i := n - 1;
      vals := SpreadExtends(root, steps, ds, nodes, parts, i);
      assert Leads(root, steps[..|steps| - 1], ds[i], nodes[i]);
      var found := StepListing(nodes[i], steps[|steps| - 1], parts[i]);
      ExtendNode(root, steps, ds, nodes, i, Spread(ds[..i], parts[..i]), vals, parts[i], found);
      assert parts[..n] == parts[..i] + [parts[i]];
      SpreadStep(root, steps[|steps| - 1], ds, i, parts[..i], parts[i]);
      vals := vals + found;
    }
  }

  /** What a run of Eval lists is a complete enumeration. */
  lemma {:induction false} ProducesEnumerates(root: Json, steps: seq<Step>, ds: seq<Descent>) returns (vals: seq<Json>)
    requires Produces(root, steps, ds)
    ensures Enumerates(root, steps, ds, vals)
    decreases |steps|
  {
    if steps == [] {
      vals := [root];
    } else {
      var ds0, parts :| Extended(root, steps, ds0, parts, ds);
      var nodes := ProducesEnumerates(root, steps[..|steps| - 1], ds0);
      vals := SpreadExtends(root, steps, ds0, nodes, parts, |ds0|);
      assert ds0[..|ds0|] == ds0 && parts[..|ds0|] == parts;
      ExtendsAll(root, steps, ds0, nodes, ds, vals);
    }
  }

  /** Array order, or sorted key order. */
  predicate EdgeBefore(e: Edge, f: Edge) {
    || (e.Elem? && f.Elem? && e.pos < f.pos)
    || (e.Field? && f.Field? && e.name != f.name && Leq(e.name, f.name))
  }

  predicate StepBefore(s: Step, a: Location, b: Location) {
    if s.Recursive? then LocBefore(a, b) else a != [] && b != [] && EdgeBefore(a[0], b[0])
  }

  /** Every run lists d before e: the step at which they part puts d's location first. */
  predicate Before(steps: seq<Step>, d: Descent, e: Descent) {
    steps != [] && |d| == |steps| == |e| &&
    var k := |steps| - 1;
    if d[..k] == e[..k] then StepBefore(steps[k], d[k], e[k]) else Before(steps[..k], d[..k], e[..k])
  }

  /** d and e part in a recursive step, at an object, into two different fields, and both go on below. */
  predicate Free(steps: seq<Step>, d: Descent, e: Descent) {
    steps != [] && |d| == |steps| == |e| &&
    var k := |steps| - 1;
    if d[..k] == e[..k] then steps[k].Recursive? && LocFree(d[k], e[k]) else Free(steps[..k], d[..k], e[..k])
  }

  lemma StepCases(v: Json, s: Step, a: Location, b: Location)
    requires Reaches(v, s, a) && Reaches(v, s, b) && a != b
    ensures StepBefore(s, a, b) || StepBefore(s, b, a) || (s.Recursive? && LocFree(a, b))
  {
    if s.Recursive? {
      LocCases(v, s.name, a, b);
    } else {
      assert Child(v, a[0]).Some? && Child(v, b[0]).Some?;
      assert s.Wildcard? && a == [a[0]] && b == [b[0]];
      if v.Object? {
        LeqTotal(a[0].name, b[0].name);
      }
    }
  }

  /** Two results of a path are either in a fixed order or free. */
  lemma {:induction false} Cases(root: Json, steps: seq<Step>, d: Descent, e: Descent)
    requires Matches(root, steps, d) && Matches(root, steps, e) && d != e
    ensures Before(steps, d, e) || Before(steps, e, d) || Free(steps, d, e)
    decreases |steps|
  {
    assert steps != [];
    var k := |steps| - 1;
    assert d == d[..k] + [d[k]] && e == e[..k] + [e[k]];
    if d[..k] == e[..k] {
      StepCases(Land(root, d[..k]).value, steps[k], d[k], e[k]);
    } else {
      Cases(root, steps[..k], d[..k], e[..k]);
    }
  }

  lemma StepRespects(v: Json, s: Step, locs: seq<Location>, i: nat, j: nat)
    requires StepLists(v, s, locs) && i < j < |locs|
    ensures !StepBefore(s, locs[j], locs[i])
  {
    if s.Recursive? {
      CollectsRespects(v, s.name, locs);
    } else if v.Object? && s.Wildcard? {
      LeqTotal(locs[i][0].name, locs[j][0].name);
    }
  }

  /** The items of Spread, by the descent they extend. */
  lemma SpreadPair(ds: seq<Descent>, parts: seq<seq<Location>>, i: nat, j: nat)
    returns (m: nat, p: nat, n: nat, q: nat)
    requires |ds| == |parts| && i < j < |Spread(ds, parts)|
    ensures m < |ds| && p < |parts[m]| && Spread(ds, parts)[i] == ds[m] + [parts[m][p]]
    ensures n < |ds| && q < |parts[n]| && Spread(ds, parts)[j] == ds[n] + [parts[n][q]]
    ensures m < n || (m == n && p < q)
  {
    m, p, n, q := FlattenPair(Fans(ds, parts), i, j);
  }

  lemma BeforeExtended(steps: seq<Step>, d: Descent, a: Location, e: Descent, b: Location)
    requires steps != [] && |d| == |steps| - 1 == |e|
    ensures Before(steps, d + [a], e + [b]) <==>
            if d == e then StepBefore(steps[|d|], a, b) else Before(steps[..|d|], d, e)
    ensures Free(steps, d + [a], e + [b]) <==>
            if d == e then steps[|d|].Recursive? && LocFree(a, b) else Free(steps[..|d|], d, e)
  {
    assert (d + [a])[..|d|] == d && (e + [b])[..|d|] == e;
  }

  /** No run lists two results against a fixed order. */
  lemma {:induction false} ProducesRespects(root: Json, steps: seq<Step>, ds: seq<Descent>, i: nat, j: nat)
    requires Produces(root, steps, ds) && i < j < |ds|
    ensures !Before(steps, ds[j], ds[i])
    decreases |steps|
  {
    if steps != [] {
      var k := |steps| - 1;
      var ds0, parts :| Extended(root, steps, ds0, parts, ds);
      var m, p, n, q := SpreadPair(ds0, parts, i, j);
      var vals := ProducesEnumerates(root, steps[..k], ds0);
      assert Leads(root, steps[..k], ds0[m], vals[m]) && Leads(root, steps[..k], ds0[n], vals[n]);
      BeforeExtended(steps, ds0[n], parts[n][q], ds0[m], parts[m][p]);
      if m == n {
        StepRespects(Land(root, ds0[m]).value, steps[k], parts[m], p, q);
      } else {
        ProducesRespects(root, steps[..k], ds0, m, n);
      }
    }
  }

  // ------------------------------------------ free results come in both orders

  lemma AnyStep(v: Json, s: Step) returns (locs: seq<Location>)
    ensures StepLists(v, s, locs)
  {
    if s.Recursive? {
      locs := AnyCollects(v, s.name);
    } else {
      locs := SelectLocations(v, s);
    }
  }

  lemma {:induction false} AnyFans(root: Json, s: Step, ds: seq<Descent>) returns (parts: seq<seq<Location>>)
    requires forall i :: 0 <= i < |ds| ==> Land(root, ds[i]).Some?
    ensures ExtendsAllBy(root, s, ds, parts)
    decreases |ds|
  {
    if ds == [] {
      parts := [];
    } else {
      var k := |ds| - 1;
      parts := AnyFans(root, s, ds[..k]);
      var last := AnyStep(Land(root, ds[k]).value, s);
      parts := parts + [last];
    }
  }

  lemma {:induction false} AnyProduces(root: Json, steps: seq<Step>) returns (ds: seq<Descent>)
    ensures Produces(root, steps, ds)
    decreases |steps|
  {
    if steps == [] {
      ds := [[]];
    } else {
      var k := |steps| - 1;
      var ds0 := AnyProduces(root, steps[..k]);
      var parts := AnyExtension(root, steps[..k], ds0, steps[k]);
      ds := Spread(ds0, parts);
      assert Extended(root, steps, ds0, parts, ds);
    }
  }

  /** Whatever descents a run follows, it can follow one more step. */
  lemma AnyExtension(root: Json, steps: seq<Step>, ds: seq<Descent>, s: Step) returns (parts: seq<seq<Location>>)
    requires Produces(root, steps, ds)
    ensures ExtendsAllBy(root, s, ds, parts) && forall d :: Matches(root, steps, d) ==> d in ds
  {
    var vals := ProducesEnumerates(root, steps, ds);
    forall i | 0 <= i < |ds|
      ensures Land(root, ds[i]).Some?
    {
      assert Leads(root, steps, ds[i], vals[i]);
    }
    parts := AnyFans(root, s, ds);
  }

  lemma ReplacePart(root: Json, s: Step, ds: seq<Descent>, parts: seq<seq<Location>>, m: nat, part: seq<Location>)
    requires ExtendsAllBy(root, s, ds, parts) && m < |ds| && StepLists(Land(root, ds[m]).value, s, part)
    ensures ExtendsAllBy(root, s, ds, parts[m := part])
  {
  }

  lemma SpreadInOrder(root: Json, steps: seq<Step>, ds: seq<Descent>, parts: seq<seq<Location>>,
                      m: nat, p: nat, n: nat, q: nat)
    requires steps != [] && Produces(root, steps[..|steps| - 1], ds)
    requires ExtendsAllBy(root, steps[|steps| - 1], ds, parts)
    requires m < |ds| && n < |ds| && p < |parts[m]| && q < |parts[n]| && (m < n || (m == n && p < q))
    ensures Produces(root, steps, Spread(ds, parts))
    ensures InOrder(Spread(ds, parts), ds[m] + [parts[m][p]], ds[n] + [parts[n][q]])
  {
    assert Extended(root, steps, ds, parts, Spread(ds, parts));
    var fans := Fans(ds, parts);
    assert fans[m][p] == ds[m] + [parts[m][p]] && fans[n][q] == ds[n] + [parts[n][q]];
    FlattenInOrder(fans, m, p, n, q);
  }

  /** Where a step's location appears in what a run lists at a node. */
  lemma StepPlace(v: Json, s: Step, locs: seq<Location>, a: Location) returns (p: nat)
    requires StepLists(v, s, locs) && Reaches(v, s, a)
    ensures p < |locs| && locs[p] == a
  {
    var vals := StepListing(v, s, locs);
    p :| 0 <= p < |locs| && locs[p] == a;
  }

  lemma DescentPlace(root: Json, steps: seq<Step>, ds: seq<Descent>, parts: seq<seq<Location>>, m: nat, d: Descent)
    returns (p: nat)
    requires Matches(root, steps, d) && steps != [] && m < |ds| && ds[m] == d[..|steps| - 1]
    requires ExtendsAllBy(root, steps[|steps| - 1], ds, parts)
    ensures p < |parts[m]| && ds[m] + [parts[m][p]] == d
  {
    var k := |steps| - 1;
    p := StepPlace(Land(root, d[..k]).value, steps[k], parts[m], d[k]);
    assert d == d[..k] + [d[k]];
  }

  /** Two results that part in the last step. */
  lemma FreeAtLast(root: Json, steps: seq<Step>, d: Descent, a: Location, b: Location) returns (ds: seq<Descent>)
    requires steps != [] && Matches(root, steps[..|steps| - 1], d) && Land(root, d).Some?
    requires var s, v := steps[|steps| - 1], Land(root, d).value;
             s.Recursive? && Reaches(v, s, a) && Reaches(v, s, b) && LocFree(a, b)
    ensures Produces(root, steps, ds) && InOrder(ds, d + [a], d + [b])
  {
    var init, s := steps[..|steps| - 1], steps[|steps| - 1];
    var part := FreeEitherWay(Land(root, d).value, s.name, a, b);
    var ds0 := AnyProduces(root, init);
    var parts := AnyExtension(root, init, ds0, s);
    assert d in ds0;
    var m :| 0 <= m < |ds0| && ds0[m] == d;
    ReplacePart(root, s, ds0, parts, m, part);
    ds := PartInOrder(root, steps, ds0, parts[m := part], m, a, b);
  }

  lemma PartInOrder(root: Json, steps: seq<Step>, ds0: seq<Descent>, parts: seq<seq<Location>>,
                    m: nat, a: Location, b: Location) returns (ds: seq<Descent>)
    requires steps != [] && Produces(root, steps[..|steps| - 1], ds0)
    requires ExtendsAllBy(root, steps[|steps| - 1], ds0, parts) && m < |ds0| && InOrder(parts[m], a, b)
    ensures Produces(root, steps, ds) && InOrder(ds, ds0[m] + [a], ds0[m] + [b])
  {
    var p, q :| 0 <= p < q < |parts[m]| && parts[m][p] == a && parts[m][q] == b;
    SpreadInOrder(root, steps, ds0, parts, m, p, m, q);
    ds := Spread(ds0, parts);
  }

  /** Two results that part earlier, once their beginnings are in order. */
  lemma FreeEarlier(root: Json, steps: seq<Step>, d: Descent, e: Descent, ds0: seq<Descent>) returns (ds: seq<Descent>)
    requires Matches(root, steps, d) && Matches(root, steps, e) && steps != []
    requires var k := |steps| - 1; Produces(root, steps[..k], ds0) && InOrder(ds0, d[..k], e[..k])
    ensures Produces(root, steps, ds) && InOrder(ds, d, e)
  {
    var k := |steps| - 1;
    var parts := AnyExtension(root, steps[..k], ds0, steps[k]);
    var m, n :| 0 <= m < n < |ds0| && ds0[m] == d[..k] && ds0[n] == e[..k];
    var p := DescentPlace(root, steps, ds0, parts, m, d);
    var q := DescentPlace(root, steps, ds0, parts, n, e);
    SpreadInOrder(root, steps, ds0, parts, m, p, n, q);
    ds := Spread(ds0, parts);
  }

  lemma {:induction false} EitherWay(root: Json, steps: seq<Step>, d: Descent, e: Descent) returns (ds: seq<Descent>)
    requires Matches(root, steps, d) && Matches(root, steps, e) && Free(steps, d, e)
    ensures Produces(root, steps, ds) && InOrder(ds, d, e)
    decreases |steps|
  {
    var k := |steps| - 1;
    if d[..k] == e[..k] {
      ds := FreeAtLast(root, steps, d[..k], d[k], e[k]);
      assert d == d[..k] + [d[k]] && e == e[..k] + [e[k]];
    } else {
      var ds0 := EitherWay(root, steps[..k], d[..k], e[..k]);
      ds := FreeEarlier(root, steps, d, e, ds0);
    }
  }

  lemma {:induction false} FreeSymmetric(steps: seq<Step>, d: Descent, e: Descent)
    requires Free(steps, d, e)
    ensures Free(steps, e, d)
    decreases |steps|
  {
    var k := |steps| - 1;
    if d[..k] == e[..k] {
      LocFreeSymmetric(d[k], e[k]);
    } else {
      FreeSymmetric(steps[..k], d[..k], e[..k]);
    }
  }

  // ------------------------------------------------------------ main results

  /** A pair of results is listed in one order by every run, or in either order by some run. */
  lemma PairOrder(root: Json, steps: seq<Step>, d: Descent, e: Descent)
    requires Matches(root, steps, d) && Matches(root, steps, e) && d != e
    ensures Free(steps, d, e) <==>
            && (exists ds :: Produces(root, steps, ds) && InOrder(ds, d, e))
            && (exists ds :: Produces(root, steps, ds) && InOrder(ds, e, d))
  {
    if Free(steps, d, e) {
      FreeSymmetric(steps, d, e);
      var l1 := EitherWay(root, steps, d, e);
      var l2 := EitherWay(root, steps, e, d);
    } else {
      Cases(root, steps, d, e);
      forall ds | Produces(root, steps, ds)
        ensures Before(steps, d, e) ==> !InOrder(ds, e, d)
        ensures Before(steps, e, d) ==> !InOrder(ds, d, e)
      {
        forall i, j | 0 <= i < j < |ds|
          ensures !Before(steps, ds[j], ds[i])
        {
          ProducesRespects(root, steps, ds, i, j);
        }
      }
    }
  }

  /** All runs of Eval follow the same descents in the same order. */
  ghost predicate ProducesOneList(root: Json, steps: seq<Step>) {
    forall l1, l2 :: Produces(root, steps, l1) && Produces(root, steps, l2) ==> l1 == l2
  }

  ghost predicate HasFreePair(root: Json, steps: seq<Step>) {
    exists d, e :: Matches(root, steps, d) && Matches(root, steps, e) && Free(steps, d, e)
  }

  function BeforeIn(steps: seq<Step>): (Descent, Descent) -> bool {
    (d: Descent, e: Descent) => Before(steps, d, e)
  }

  lemma AllRespect(root: Json, steps: seq<Step>, ds: seq<Descent>)
    requires Produces(root, steps, ds)
    ensures Respects(ds, BeforeIn(steps))
  {
    forall i, j | 0 <= i < j < |ds|
      ensures !BeforeIn(steps)(ds[j], ds[i])
    {
      ProducesRespects(root, steps, ds, i, j);
    }
  }

  lemma OneList(root: Json, steps: seq<Step>, l1: seq<Descent>, l2: seq<Descent>)
    requires Produces(root, steps, l1) && Produces(root, steps, l2) && !HasFreePair(root, steps)
    ensures l1 == l2
  {
    SameMembers(root, steps, l1);
    SameMembers(root, steps, l2);
    AllRespect(root, steps, l1);
    AllRespect(root, steps, l2);
    forall d, e | d in l1 && e in l1 && d != e
      ensures BeforeIn(steps)(d, e) || BeforeIn(steps)(e, d)
    {
      Cases(root, steps, d, e);
    }
    RespectsUnique(l1, l2, BeforeIn(steps));
  }

  lemma SameMembers(root: Json, steps: seq<Step>, ds: seq<Descent>)
    requires Produces(root, steps, ds)
    ensures Distinct(ds) && forall d :: d in ds <==> Matches(root, steps, d)
  {
    var vals := ProducesEnumerates(root, steps, ds);
    assert forall i :: 0 <= i < |ds| ==> Leads(root, steps, ds[i], vals[i]);
  }

  /** Exactly when the order of a path's results is fixed: no two results part in a recursive step, at
      an object, into two different fields, with both going on below. */
  lemma OrderFixedIff(root: Json, steps: seq<Step>)
    ensures ProducesOneList(root, steps) <==> !HasFreePair(root, steps)
  {
    if HasFreePair(root, steps) {
      var d, e :| Matches(root, steps, d) && Matches(root, steps, e) && Free(steps, d, e);
      FreeSymmetric(steps, d, e);
      var l1 := EitherWay(root, steps, d, e);
      var l2 := EitherWay(root, steps, e, d);
      var vals := ProducesEnumerates(root, steps, l1);
      InOrderOnce(l1, d, e);
    } else {
      forall l1, l2 | Produces(root, steps, l1) && Produces(root, steps, l2)
        ensures l1 == l2
      {
        OneList(root, steps, l1, l2);
      }
    }
  }

  /** So without such a pair any two runs return the same values in the same order. */
  lemma FixedOrderFixesResult(root: Json, steps: seq<Step>,
                              ds1: seq<Descent>, out1: seq<Json>, ds2: seq<Descent>, out2: seq<Json>)
    requires Produces(root, steps, ds1) && Enumerates(root, steps, ds1, out1)
    requires Produces(root, steps, ds2) && Enumerates(root, steps, ds2, out2)
    requires !HasFreePair(root, steps)
    ensures out1 == out2
  {
    OneList(root, steps, ds1, ds2);
    assert forall i :: 0 <= i < |ds1| ==> Leads(root, steps, ds1[i], out1[i]) && Leads(root, steps, ds1[i], out2[i]);
  }

  // ------------------------------------------------------------------ witness

  lemma GatherNone(e: Edge)
    ensures Gather([], []) == [] && Gather([e], [[]]) == []
  {
    var none: seq<Location> := [];
    FlattenAppend([], none);
    assert [] + [none] == [none] && Blocks([e], [none]) == [none];
  }

  lemma LeafCollects(b: bool)
    ensures Collects(Object(map["k" := Bool(b)]), "k", [[Field("k")]])
  {
    var leaf, none := Object(map["k" := Bool(b)]), [];
    GatherNone(Field("k"));
    assert Own(Bool(b), "k") + none == none;
    assert Assembled(Bool(b), "k", [], [], none);
    assert VisitOrder(leaf, [Field("k")]);
    assert CollectsAll(leaf, "k", [Field("k")], [none]);
    assert Own(leaf, "k") + none == [[Field("k")]];
    assert Assembled(leaf, "k", [Field("k")], [none], [[Field("k")]]);
  }

  /** Two runs on one tree that list the same two values in opposite orders. */
  lemma RecursiveOrderIsFree()
    ensures var yes, no := Object(map["k" := Bool(true)]), Object(map["k" := Bool(false)]);
            var root := Object(map["a" := yes, "b" := no]);
            var a, b := [Field("a"), Field("k")], [Field("b"), Field("k")];
            && Collects(root, "k", [a, b]) && Collects(root, "k", [b, a])
            && At(root, a) == Some(Bool(true)) && At(root, b) == Some(Bool(false))
  {
    var yes, no := Object(map["k" := Bool(true)]), Object(map["k" := Bool(false)]);
    var root := Object(map["a" := yes, "b" := no]);
    LeafCollects(true);
    LeafCollects(false);
    TwoFields(root, Field("a"), Field("b"));
    TwoFields(root, Field("b"), Field("a"));
    AtBelow(root, Field("a"), [Field("k")]);
    AtBelow(root, Field("b"), [Field("k")]);
    AtEdge(yes, Field("k"));
    AtEdge(no, Field("k"));
  }

  lemma GatherTwo(e: Edge, f: Edge, a: Location, b: Location)
    ensures Gather([e, f], [[a], [b]]) == [[e] + a, [f] + b]
  {
    var x, y := [[e] + a], [[f] + b];
    assert Below(e, [a]) == x && Below(f, [b]) == y;
    assert Blocks([e, f], [[a], [b]]) == [x] + [y];
    FlattenAppend([x], y);
    FlattenAppend([], x);
    assert [] + [x] == [x];
  }

  lemma TwoFields(v: Json, e: Edge, f: Edge)
    requires v.Object? && "k" !in v.fields && e != f && (forall x :: Child(v, x).Some? <==> x == e || x == f)
    requires Collects(Child(v, e).value, "k", [[Field("k")]]) && Collects(Child(v, f).value, "k", [[Field("k")]])
    ensures Collects(v, "k", [[e, Field("k")], [f, Field("k")]])
  {
    var one, locs := [[Field("k")]], [[e, Field("k")], [f, Field("k")]];
    GatherTwo(e, f, [Field("k")], [Field("k")]);
    assert [e] + [Field("k")] == [e, Field("k")] && [f] + [Field("k")] == [f, Field("k")];
    assert Own(v, "k") + Gather([e, f], [one, one]) == locs;
    assert VisitOrder(v, [e, f]);
    assert CollectsAll(v, "k", [e, f], [one, one]);
    assert Assembled(v, "k", [e, f], [one, one], locs);
  }
}
