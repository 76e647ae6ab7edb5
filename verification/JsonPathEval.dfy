// jsonpath.Eval: the values a path selects in a JSON tree, and why the
// unspecified iteration order of Go maps cannot change them.
module JsonPathEval {
  import opened Prelude
  import opened JsonPathParser
  import opened Ordering
  import opened Sequences

  datatype Json = Null | Bool(b: bool) | Number(n: real) | Text(s: string)
                | Array(elems: seq<Json>) | Object(fields: map<string, Json>)

  // ------------------------------------------- locations (the reference)

  /** One edge of the tree. */
  datatype Edge = Field(name: string) | Elem(pos: nat)

  type Location = seq<Edge>

  function Child(v: Json, e: Edge): (c: Option<Json>)
    ensures c.Some? ==> c.value < v
  {
    match e
    case Field(k) => if v.Object? && k in v.fields then Some(v.fields[k]) else None
    case Elem(i) => if v.Array? && i < |v.elems| then Some(v.elems[i]) else None
  }

  /** The value at a location, if the tree has one there. */
  function At(v: Json, loc: Location): Option<Json> {
    if loc == [] then Some(v)
    else
      var c := Child(v, loc[0]);
      if c.None? then None else At(c.value, loc[1..])
  }

  /** The locations one step selects below a node. A descendant segment reaches every
      location that ends with its name, at any depth (section 2.5.2 of RFC 9535). */
  predicate Reaches(v: Json, s: Step, loc: Location) {
    loc != [] && At(v, loc).Some? &&
    match s
    case Key(k) => loc == [Field(k)]
    case Index(i) => v.Array? && 0 <= Position(|v.elems|, i) < |v.elems| && loc == [Elem(Position(|v.elems|, i))]
    case Wildcard => |loc| == 1
    case Recursive(k) => loc[|loc| - 1] == Field(k)
  }

  /** Negative indices count from the end. */
  function Position(length: nat, i: int): int {
    if i < 0 then length + i else i
  }

  /** An index reaches one element: [i] the one at position i, [-k] the k-th from the end, if there is one. */
  lemma IndexReaches(v: Json, k: int, loc: Location)
    requires 0 <= k
    ensures Reaches(v, Index(k), loc) <==> v.Array? && k < |v.elems| && loc == [Elem(k)]
    ensures k > 0 ==> (Reaches(v, Index(-k), loc) <==>
                       v.Array? && k <= |v.elems| && loc == [Elem(|v.elems| - k)])
  {
    if v.Array? && k < |v.elems| && loc == [Elem(k)] {
      assert At(v, loc) == At(v.elems[k], []);
    }
    if v.Array? && 0 < k <= |v.elems| && loc == [Elem(|v.elems| - k)] {
      assert At(v, loc) == At(v.elems[|v.elems| - k], []);
    }
  }

  /** A descent: one location per step, each taken from where the previous one ended. */
  type Descent = seq<Location>

  function Land(root: Json, d: Descent): Option<Json> {
    if d == [] then Some(root)
    else
      var v := Land(root, d[..|d| - 1]);
      if v.None? then None else At(v.value, d[|d| - 1])
  }

  predicate Matches(root: Json, steps: seq<Step>, d: Descent) {
    |d| == |steps| &&
    (d == [] ||
     var k := |d| - 1;
     && Matches(root, steps[..k], d[..k])
     && Land(root, d[..k]).Some?
     && Reaches(Land(root, d[..k]).value, steps[k], d[k]))
  }

  /** The descent follows the steps and ends at v. */
  predicate Leads(root: Json, steps: seq<Step>, d: Descent, v: Json) {
    Matches(root, steps, d) && Land(root, d) == Some(v)
  }

  /** vals lists the value of every location selected by one step, each location once. */
  ghost predicate Lists(v: Json, s: Step, locs: seq<Location>, vals: seq<Json>) {
    && |locs| == |vals| && Distinct(locs)
    && (forall i :: 0 <= i < |locs| ==> Reaches(v, s, locs[i]) && At(v, locs[i]) == Some(vals[i]))
    && (forall loc :: Reaches(v, s, loc) ==> loc in locs)
  }

  /** vals lists the value reached by every matching descent, each descent once. */
  ghost predicate Enumerates(root: Json, steps: seq<Step>, ds: seq<Descent>, vals: seq<Json>) {
    && |ds| == |vals| && Distinct(ds)
    && (forall i :: 0 <= i < |ds| ==> Leads(root, steps, ds[i], vals[i]))
    && (forall d :: Matches(root, steps, d) ==> d in ds)
  }

  // ------------------------------------------------- recursive descent

  predicate ReachedVia(v: Json, name: string, heads: set<Edge>, loc: Location) {
    Reaches(v, Recursive(name), loc) && (|loc| == 1 || loc[0] in heads)
  }

  /** Progress of collectRecursive: own field, plus everything below the visited edges. */
  ghost predicate Visited(v: Json, name: string, heads: set<Edge>, locs: seq<Location>, vals: seq<Json>) {
    && Distinct(locs) && Found(v, name, heads, locs, vals)
    && (forall loc :: ReachedVia(v, name, heads, loc) ==> loc in locs)
  }

  predicate Found(v: Json, name: string, heads: set<Edge>, locs: seq<Location>, vals: seq<Json>) {
    && |locs| == |vals|
    && (forall i :: 0 <= i < |locs| ==> FoundAt(v, name, heads, locs[i], vals[i]))
  }

  predicate FoundAt(v: Json, name: string, heads: set<Edge>, loc: Location, val: Json) {
    ReachedVia(v, name, heads, loc) && At(v, loc) == Some(val)
  }

  lemma FoundConcat(v: Json, name: string, heads: set<Edge>, e: Edge,
                    locs: seq<Location>, vals: seq<Json>, more: seq<Location>, found: seq<Json>)
    requires Found(v, name, heads, locs, vals) && Found(v, name, heads + {e}, more, found)
    ensures Found(v, name, heads + {e}, locs + more, vals + found)
  {
    forall i | 0 <= i < |locs|
      ensures FoundAt(v, name, heads + {e}, locs[i], vals[i])
    {
      assert FoundAt(v, name, heads, locs[i], vals[i]);
    }
  }

  function Below(e: Edge, locs: seq<Location>): seq<Location> {
    seq(|locs|, i requires 0 <= i < |locs| => [e] + locs[i])
  }

  lemma AtBelow(v: Json, e: Edge, loc: Location)
    ensures At(v, [e] + loc) == if Child(v, e).Some? then At(Child(v, e).value, loc) else None
  {
    assert ([e] + loc)[1..] == loc;
  }

  lemma ReachesBelow(v: Json, name: string, e: Edge, loc: Location)
    requires Child(v, e).Some? && loc != []
    ensures Reaches(v, Recursive(name), [e] + loc) <==> Reaches(Child(v, e).value, Recursive(name), loc)
  {
    AtBelow(v, e, loc);
  }

  lemma BelowFound(v: Json, name: string, heads: set<Edge>, e: Edge, below: seq<Location>, found: seq<Json>)
    requires Child(v, e).Some? && Lists(Child(v, e).value, Recursive(name), below, found)
    ensures Found(v, name, heads + {e}, Below(e, below), found)
    ensures forall i :: 0 <= i < |below| ==> |Below(e, below)[i]| > 1 && Below(e, below)[i][0] == e
  {
    forall i | 0 <= i < |below|
      ensures FoundAt(v, name, heads + {e}, Below(e, below)[i], found[i])
      ensures |Below(e, below)[i]| > 1 && Below(e, below)[i][0] == e
    {
      AtBelow(v, e, below[i]);
      ReachesBelow(v, name, e, below[i]);
    }
  }

  lemma BelowComplete(v: Json, name: string, e: Edge, below: seq<Location>, found: seq<Json>, loc: Location)
    requires Child(v, e).Some? && Lists(Child(v, e).value, Recursive(name), below, found)
    requires |loc| > 1 && loc[0] == e && Reaches(v, Recursive(name), loc)
    ensures loc in Below(e, below)
  {
    assert loc == [e] + loc[1..];
    ReachesBelow(v, name, e, loc[1..]);
    var i :| 0 <= i < |below| && below[i] == loc[1..];
    assert Below(e, below)[i] == loc;
  }

  lemma VisitChild(v: Json, name: string, heads: set<Edge>, locs: seq<Location>, vals: seq<Json>,
                   e: Edge, below: seq<Location>, found: seq<Json>)
    requires Visited(v, name, heads, locs, vals)
    requires e !in heads && Child(v, e).Some?
    requires Lists(Child(v, e).value, Recursive(name), below, found)
    ensures Visited(v, name, heads + {e}, locs + Below(e, below), vals + found)
  {
    BelowFound(v, name, heads, e, below, found);
    FoundConcat(v, name, heads, e, locs, vals, Below(e, below), found);
    forall i | 0 <= i < |below|
      ensures Below(e, below)[i] !in locs
    {
      assert forall j :: 0 <= j < |locs| ==> FoundAt(v, name, heads, locs[j], vals[j]);
    }
    VisitDistinct(locs, e, below);
    forall loc | ReachedVia(v, name, heads + {e}, loc)
      ensures loc in locs + Below(e, below)
    {
      if |loc| > 1 && loc[0] !in heads {
        BelowComplete(v, name, e, below, found, loc);
      }
    }
  }

  lemma VisitDistinct(locs: seq<Location>, e: Edge, below: seq<Location>)
    requires Distinct(locs) && Distinct(below)
    requires forall i :: 0 <= i < |below| ==> Below(e, below)[i] !in locs
    ensures Distinct(locs + Below(e, below))
  {
    forall i, j | 0 <= i < j < |below|
      ensures Below(e, below)[i] != Below(e, below)[j]
    {
      assert ([e] + below[i])[1..] == below[i];
      assert ([e] + below[j])[1..] == below[j];
    }
  }

  lemma VisitNone(v: Json, name: string) returns (locs: seq<Location>, vals: seq<Json>)
    ensures Visited(v, name, {}, locs, vals) && locs == Own(v, name)
    ensures vals == if v.Object? && name in v.fields then [v.fields[name]] else []
  {
    AtBelow(v, Field(name), []);
    assert [Field(name)] + [] == [Field(name)];
    if v.Object? && name in v.fields {
      locs, vals := [[Field(name)]], [v.fields[name]];
    } else {
      locs, vals := [], [];
    }
    forall loc | ReachedVia(v, name, {}, loc)
      ensures loc in locs
    {
      assert loc == [Field(name)];
    }
    assert Found(v, name, {}, locs, vals);
  }

  lemma VisitedAll(v: Json, name: string, heads: set<Edge>, locs: seq<Location>, vals: seq<Json>)
    requires Visited(v, name, heads, locs, vals)
    requires forall e :: Child(v, e).Some? ==> e in heads
    ensures Lists(v, Recursive(name), locs, vals)
  {
    assert forall i :: 0 <= i < |locs| ==> FoundAt(v, name, heads, locs[i], vals[i]);
    forall loc | Reaches(v, Recursive(name), loc)
      ensures loc in locs
    {
      assert Child(v, loc[0]).Some?;
      assert ReachedVia(v, name, heads, loc);
    }
  }

  // ------------------------------------ what a run of collectRecursive may list

  /** The node's own field comes first. */
  function Own(v: Json, name: string): seq<Location> {
    if v.Object? && name in v.fields then [[Field(name)]] else []
  }

  /** An order in which a node's children may be visited: elements in array order, fields in any. */
  ghost predicate VisitOrder(v: Json, order: seq<Edge>) {
    && Distinct(order) && (forall e :: e in order <==> Child(v, e).Some?)
    && (v.Array? ==> forall j :: 0 <= j < |order| ==> order[j] == Elem(j))
  }

  function Blocks(order: seq<Edge>, parts: seq<seq<Location>>): seq<seq<Location>>
    requires |order| == |parts|
  {
    seq(|order|, i requires 0 <= i < |order| => Below(order[i], parts[i]))
  }

  function Gather(order: seq<Edge>, parts: seq<seq<Location>>): seq<Location>
    requires |order| == |parts|
  {
    Flatten(Blocks(order, parts))
  }

  /** locs can be the locations one run lists, in its order: a visiting order is chosen at each node. */
  ghost predicate Collects(v: Json, name: string, locs: seq<Location>)
    decreases v, 2
  {
    exists order, parts :: Assembled(v, name, order, parts, locs)
  }

  ghost predicate Assembled(v: Json, name: string, order: seq<Edge>, parts: seq<seq<Location>>, locs: seq<Location>)
    decreases v, 1
  {
    && VisitOrder(v, order) && CollectsAll(v, name, order, parts) && locs == Own(v, name) + Gather(order, parts)
  }

  ghost predicate CollectsAll(v: Json, name: string, order: seq<Edge>, parts: seq<seq<Location>>)
    decreases v, 0
  {
    && |parts| == |order|
    && forall i :: 0 <= i < |order| ==> Child(v, order[i]).Some? && Collects(Child(v, order[i]).value, name, parts[i])
  }

  /** Progress through the children of a node. */
  ghost predicate Collecting(v: Json, name: string, order: seq<Edge>, parts: seq<seq<Location>>, locs: seq<Location>) {
    Distinct(order) && CollectsAll(v, name, order, parts) && locs == Own(v, name) + Gather(order, parts)
  }

  lemma CollectNext(v: Json, name: string, order: seq<Edge>, parts: seq<seq<Location>>, locs: seq<Location>,
                    e: Edge, below: seq<Location>)
    requires Collecting(v, name, order, parts, locs)
    requires e !in order && Child(v, e).Some? && Collects(Child(v, e).value, name, below)
    ensures Collecting(v, name, order + [e], parts + [below], locs + Below(e, below))
  {
    var order', parts' := order + [e], parts + [below];
    assert Blocks(order', parts') == Blocks(order, parts) + [Below(e, below)];
    FlattenAppend(Blocks(order, parts), Below(e, below));
    ConcatAssociates(Own(v, name), Gather(order, parts), Below(e, below));
    CollectsOneMore(v, name, order, parts, e, below);
  }

  lemma CollectsOneMore(v: Json, name: string, order: seq<Edge>, parts: seq<seq<Location>>, e: Edge,
                        below: seq<Location>)
    requires CollectsAll(v, name, order, parts) && Child(v, e).Some? && Collects(Child(v, e).value, name, below)
    ensures CollectsAll(v, name, order + [e], parts + [below])
  {
    var order', parts' := order + [e], parts + [below];
    forall i | 0 <= i < |order'|
      ensures Child(v, order'[i]).Some? && Collects(Child(v, order'[i]).value, name, parts'[i])
    {
      if i < |order| {
        assert order'[i] == order[i] && parts'[i] == parts[i];
      }
    }
  }

  ghost function Elements(order: seq<Edge>): set<Edge> {
    set e | e in order
  }

  /** What a run has done so far at one node: the children visited, what each listed, and all of it. */
  datatype Trail = Trail(order: seq<Edge>, parts: seq<seq<Location>>, locs: seq<Location>, vals: seq<Json>)

  ghost predicate OnTrail(v: Json, name: string, t: Trail) {
    Visited(v, name, Elements(t.order), t.locs, t.vals) && Collecting(v, name, t.order, t.parts, t.locs)
  }

  function Further(t: Trail, e: Edge, below: seq<Location>, found: seq<Json>): Trail {
    Trail(t.order + [e], t.parts + [below], t.locs + Below(e, below), t.vals + found)
  }

  lemma StartTrail(v: Json, name: string) returns (t: Trail)
    ensures OnTrail(v, name, t) && t.order == []
    ensures t.vals == if v.Object? && name in v.fields then [v.fields[name]] else []
  {
    var locs, vals := VisitNone(v, name);
    t := Trail([], [], locs, vals);
    assert Elements([]) == {} && Gather([], []) == [] && Own(v, name) + [] == Own(v, name);
  }

  lemma FollowTrail(v: Json, name: string, t: Trail, e: Edge, below: seq<Location>, found: seq<Json>)
    requires OnTrail(v, name, t) && e !in t.order && Child(v, e).Some?
    requires Lists(Child(v, e).value, Recursive(name), below, found) && Collects(Child(v, e).value, name, below)
    ensures OnTrail(v, name, Further(t, e, below, found))
  {
    VisitChild(v, name, Elements(t.order), t.locs, t.vals, e, below, found);
    CollectNext(v, name, t.order, t.parts, t.locs, e, below);
    assert Elements(t.order + [e]) == Elements(t.order) + {e};
  }

  lemma EndTrail(v: Json, name: string, t: Trail)
    requires OnTrail(v, name, t) && VisitOrder(v, t.order)
    ensures Lists(v, Recursive(name), t.locs, t.vals) && Collects(v, name, t.locs)
  {
    VisitedAll(v, name, Elements(t.order), t.locs, t.vals);
    assert Assembled(v, name, t.order, t.parts, t.locs);
  }

  /** Visits one child and appends what it finds. */
  method CollectChild(n: Json, e: Edge, child: Json, name: string, out: seq<Json>, ghost base: seq<Json>,
                      ghost t: Trail)
    returns (out': seq<Json>, ghost t': Trail)
    requires child < n && Child(n, e) == Some(child) && e !in t.order
    requires OnTrail(n, name, t) && out == base + t.vals
    ensures OnTrail(n, name, t') && t'.order == t.order + [e]
    ensures out' == base + t'.vals
    decreases n, 0
  {
    ghost var below;
    out', below := CollectRecursive(child, name, out);
    ghost var found := out'[|out|..];
    FollowTrail(n, name, t, e, below, found);
    t' := Further(t, e, below, found);
    ConcatAssociates(base, t.vals, found);
    assert out' == out + found;
  }

  /** The fields of an object, in an arbitrary order. */
  method CollectFields(n: Json, name: string, out: seq<Json>, ghost base: seq<Json>, ghost t: Trail)
    returns (out': seq<Json>, ghost t': Trail)
    requires n.Object? && OnTrail(n, name, t) && t.order == [] && out == base + t.vals
    ensures OnTrail(n, name, t') && VisitOrder(n, t'.order)
    ensures out' == base + t'.vals
    decreases n, 1
  {
    out', t' := out, t;
    var rest := n.fields.Keys;
    while rest != {}
      invariant rest <= n.fields.Keys
      invariant forall e :: e in t'.order <==> e.Field? && e.name in n.fields && e.name !in rest
      invariant OnTrail(n, name, t') && out' == base + t'.vals
      decreases |rest|
    {
      var k :| k in rest;
      out', t' := CollectChild(n, Field(k), n.fields[k], name, out', base, t');
      rest := rest - {k};
    }
  }

  /** The elements of an array, in order. */
  method CollectElements(n: Json, name: string, out: seq<Json>, ghost base: seq<Json>, ghost t: Trail)
    returns (out': seq<Json>, ghost t': Trail)
    requires n.Array? && OnTrail(n, name, t) && t.order == [] && out == base + t.vals
    ensures OnTrail(n, name, t') && VisitOrder(n, t'.order)
    ensures out' == base + t'.vals
    decreases n, 1
  {
    out', t' := out, t;
    for i := 0 to |n.elems|
      invariant |t'.order| == i && forall j :: 0 <= j < i ==> t'.order[j] == Elem(j)
      invariant OnTrail(n, name, t') && out' == base + t'.vals
    {
      out', t' := CollectChild(n, Elem(i), n.elems[i], name, out', base, t');
    }
    assert forall i :: 0 <= i < |n.elems| ==> t'.order[i] == Elem(i);
  }

  /** collectRecursive: appends to out; objects are ranged over in an arbitrary order. */
  method CollectRecursive(n: Json, name: string, out: seq<Json>) returns (out': seq<Json>, ghost locs: seq<Location>)
    ensures out <= out'
    ensures Lists(n, Recursive(name), locs, out'[|out|..])
    ensures Collects(n, name, locs)
    decreases n, 2
  {
    ghost var t := StartTrail(n, name);
    out' := out;
    if n.Object? {
      if name in n.fields {
        out' := out' + [n.fields[name]];
      }
      out', t := CollectFields(n, name, out', out, t);
    } else if n.Array? {
      out', t := CollectElements(n, name, out', out, t);
    }
    EndTrail(n, name, t);
    locs := t.locs;
    assert out'[|out|..] == t.vals;
  }

  // --------------------------------------------------- the other steps

  /** The values a non-recursive step selects, in the documented order: array order,
      or sorted key order for the members of an object. */
  ghost function Select(v: Json, s: Step): seq<Json>
    requires !s.Recursive?
  {
    match s
    case Key(k) => if v.Object? && k in v.fields then [v.fields[k]] else []
    case Index(i) =>
      if v.Array? && 0 <= Position(|v.elems|, i) < |v.elems| then [v.elems[Position(|v.elems|, i)]] else []
    case Wildcard =>
      if v.Array? then v.elems
      else if v.Object? then
        var keys := SortedKeys(v.fields.Keys);
        seq(|keys|, i requires 0 <= i < |keys| => v.fields[keys[i]])
      else []
  }

  ghost function SelectLocations(v: Json, s: Step): seq<Location>
    requires !s.Recursive?
  {
    match s
    case Key(k) => if v.Object? && k in v.fields then [[Field(k)]] else []
    case Index(i) =>
      if v.Array? && 0 <= Position(|v.elems|, i) < |v.elems| then [[Elem(Position(|v.elems|, i))]] else []
    case Wildcard =>
      if v.Array? then seq(|v.elems|, i requires 0 <= i < |v.elems| => [Elem(i)])
      else if v.Object? then
        var keys := SortedKeys(v.fields.Keys);
        seq(|keys|, i requires 0 <= i < |keys| => [Field(keys[i])])
      else []
  }

  lemma AtEdge(v: Json, e: Edge)
    ensures At(v, [e]) == Child(v, e)
  {
    AtBelow(v, e, []);
    assert [e] + [] == [e];
  }

  lemma SelectLists(v: Json, s: Step)
    requires !s.Recursive?
    ensures Lists(v, s, SelectLocations(v, s), Select(v, s))
  {
    var locs, vals := SelectLocations(v, s), Select(v, s);
    forall e {
      AtEdge(v, e);
    }
    if s.Wildcard? {
      WildcardLists(v);
    } else {
      assert forall loc :: Reaches(v, s, loc) ==> loc == [loc[0]];
    }
  }

  lemma WildcardLists(v: Json)
    ensures Lists(v, Wildcard, SelectLocations(v, Wildcard), Select(v, Wildcard))
  {
    var locs, vals := SelectLocations(v, Wildcard), Select(v, Wildcard);
    forall e {
      AtEdge(v, e);
    }
    forall i, j | 0 <= i < j < |locs|
      ensures locs[i] != locs[j]
    {
      assert locs[i][0] != locs[j][0];
    }
    forall loc: Location | Reaches(v, Wildcard, loc)
      ensures loc in locs
    {
      assert loc == [loc[0]];
      if v.Array? {
        assert locs[loc[0].pos] == loc;
      } else {
        var keys := SortedKeys(v.fields.Keys);
        var i :| 0 <= i < |keys| && keys[i] == loc[0].name;
        assert locs[i] == loc;
      }
    }
  }

  /** The wildcard over an object: keys listed, sorted, then read back. */
  method ObjectValues(n: Json, next: seq<Json>) returns (next': seq<Json>)
    requires n.Object?
    ensures next' == next + Select(n, Wildcard)
  {
    next' := next;
    var keys := ListSorted(n.fields.Keys);
    for j := 0 to |keys|
      invariant next' == next + Select(n, Wildcard)[..j]
    {
      next' := next' + [n.fields[keys[j]]];
    }
    assert Select(n, Wildcard)[..|keys|] == Select(n, Wildcard);
  }

  /** One node under one non-recursive step. */
  method SelectValues(n: Json, s: Step, next: seq<Json>) returns (next': seq<Json>)
    requires !s.Recursive?
    ensures next' == next + Select(n, s)
  {
    next' := next;
    match s
    case Key(name) =>
      if n.Object? && name in n.fields {
        next' := next' + [n.fields[name]];
      }
    case Index(idx) =>
      if n.Array? {
        var i := idx;
        if i < 0 {
          i := |n.elems| + i;
        }
        if i >= 0 && i < |n.elems| {
          next' := next' + [n.elems[i]];
        }
      }
    case Wildcard =>
      if n.Array? {
        next' := next' + n.elems;
      } else if n.Object? {
        next' := ObjectValues(n, next);
      }
  }

  /** locs can be the locations one run lists for one step at one node. */
  ghost predicate StepLists(v: Json, s: Step, locs: seq<Location>) {
    if s.Recursive? then Collects(v, s.name, locs) else locs == SelectLocations(v, s)
  }

  /** One node under one step: what the switch inside the loops of Eval appends. */
  method ApplyStep(n: Json, s: Step) returns (more: seq<Json>, ghost locs: seq<Location>)
    ensures Lists(n, s, locs, more) && StepLists(n, s, locs)
    ensures !s.Recursive? ==> more == Select(n, s)
  {
    if s.Recursive? {
      more, locs := CollectRecursive(n, s.name, []);
      assert more[0..] == more;
    } else {
      more := SelectValues(n, s, []);
      SelectLists(n, s);
      locs := SelectLocations(n, s);
      assert [] + Select(n, s) == Select(n, s);
    }
  }

  // ------------------------------------------------------------ all steps

  /** The sequence a path without recursive steps denotes. */
  ghost function SelectAll(nodes: seq<Json>, s: Step): seq<Json>
    requires !s.Recursive?
  {
    if nodes == [] then [] else SelectAll(nodes[..|nodes| - 1], s) + Select(nodes[|nodes| - 1], s)
  }

  ghost predicate NoRecursive(steps: seq<Step>) {
    forall i :: 0 <= i < |steps| ==> !steps[i].Recursive?
  }

  ghost function Walk(root: Json, steps: seq<Step>): seq<Json>
    requires NoRecursive(steps)
  {
    if steps == [] then [root] else SelectAll(Walk(root, steps[..|steps| - 1]), steps[|steps| - 1])
  }

  lemma SelectAllStep(nodes: seq<Json>, i: nat, s: Step)
    requires i < |nodes|
    ensures !s.Recursive? ==> SelectAll(nodes[..i + 1], s) == SelectAll(nodes[..i], s) + Select(nodes[i], s)
  {
    assert nodes[..i + 1][..i] == nodes[..i];
  }

  /** Progress through the nodes of one step: the descents that extend the first i of ds. */
  ghost predicate Extends(root: Json, steps: seq<Step>, ds: seq<Descent>, i: nat, ds': seq<Descent>, vals: seq<Json>)
    requires i <= |ds| && steps != []
  {
    && |ds'| == |vals| && Distinct(ds')
    && (forall j :: 0 <= j < |ds'| ==> |ds'[j]| == |steps| && ds'[j][..|steps| - 1] in ds[..i])
    && (forall j :: 0 <= j < |ds'| ==> Leads(root, steps, ds'[j], vals[j]))
    && (forall d :: Matches(root, steps, d) && d[..|steps| - 1] in ds[..i] ==> d in ds')
  }

  function After(d: Descent, locs: seq<Location>): seq<Descent> {
    seq(|locs|, i requires 0 <= i < |locs| => d + [locs[i]])
  }

  lemma AfterMatches(root: Json, steps: seq<Step>, d: Descent, v: Json, loc: Location)
    requires steps != [] && Matches(root, steps[..|steps| - 1], d) && Land(root, d) == Some(v)
    ensures Matches(root, steps, d + [loc]) <==> Reaches(v, steps[|steps| - 1], loc)
    ensures Land(root, d + [loc]) == At(v, loc)
  {
    assert (d + [loc])[..|d|] == d;
  }

  lemma AfterLeads(root: Json, steps: seq<Step>, d: Descent, v: Json, locs: seq<Location>, found: seq<Json>, j: nat)
    requires steps != [] && Leads(root, steps[..|steps| - 1], d, v)
    requires Lists(v, steps[|steps| - 1], locs, found)
    requires j < |locs|
    ensures |After(d, locs)[j]| == |steps|
    ensures After(d, locs)[j][..|steps| - 1] == d && After(d, locs)[j][|steps| - 1] == locs[j]
    ensures Leads(root, steps, After(d, locs)[j], found[j])
  {
    AfterMatches(root, steps, d, v, locs[j]);
  }

  lemma ExtendNode(root: Json, steps: seq<Step>, ds: seq<Descent>, nodes: seq<Json>, i: nat,
                   ds': seq<Descent>, vals: seq<Json>, locs: seq<Location>, found: seq<Json>)
    requires steps != [] && i < |ds|
    requires Enumerates(root, steps[..|steps| - 1], ds, nodes)
    requires Extends(root, steps, ds, i, ds', vals)
    requires Lists(nodes[i], steps[|steps| - 1], locs, found)
    ensures Extends(root, steps, ds, i + 1, ds' + After(ds[i], locs), vals + found)
  {
    var k := |steps| - 1;
    var d, more := ds[i], After(ds[i], locs);
    assert ds[..i + 1] == ds[..i] + [d];
    assert d !in ds[..i];
    forall j | 0 <= j < |more|
      ensures |more[j]| == |steps| && more[j][..k] == d && more[j][k] == locs[j]
      ensures Leads(root, steps, more[j], found[j])
    {
      AfterLeads(root, steps, d, nodes[i], locs, found, j);
    }
    ExtendDistinct(ds', more, d, k);
    ExtendComplete(root, steps, ds, nodes, i, ds', vals, locs, found);
    forall j | 0 <= j < |ds' + more|
      ensures |(ds' + more)[j]| == |steps| && (ds' + more)[j][..k] in ds[..i + 1]
      ensures Leads(root, steps, (ds' + more)[j], (vals + found)[j])
    {
      if j >= |ds'| {
        assert (ds' + more)[j] == more[j - |ds'|];
      }
    }
  }

  lemma ExtendComplete(root: Json, steps: seq<Step>, ds: seq<Descent>, nodes: seq<Json>, i: nat,
                       ds': seq<Descent>, vals: seq<Json>, locs: seq<Location>, found: seq<Json>)
    requires steps != [] && i < |ds| == |nodes|
    requires Leads(root, steps[..|steps| - 1], ds[i], nodes[i])
    requires Extends(root, steps, ds, i, ds', vals)
    requires Lists(nodes[i], steps[|steps| - 1], locs, found)
    ensures forall x :: Matches(root, steps, x) && x[..|steps| - 1] in ds[..i + 1] ==> x in ds' + After(ds[i], locs)
  {
    forall x | Matches(root, steps, x) && x[..|steps| - 1] in ds[..i + 1]
      ensures x in ds' + After(ds[i], locs)
    {
      if x[..|steps| - 1] !in ds[..i] {
        AfterComplete(root, steps, ds[i], nodes[i], locs, found, x);
      }
    }
  }

  lemma AfterComplete(root: Json, steps: seq<Step>, d: Descent, v: Json, locs: seq<Location>, found: seq<Json>,
                      x: Descent)
    requires steps != [] && Leads(root, steps[..|steps| - 1], d, v)
    requires Lists(v, steps[|steps| - 1], locs, found)
    requires Matches(root, steps, x) && x[..|steps| - 1] == d
    ensures x in After(d, locs)
  {
    var k := |steps| - 1;
    assert x == d + [x[k]];
    var j :| 0 <= j < |locs| && locs[j] == x[k];
    assert After(d, locs)[j] == x;
  }

  lemma ExtendDistinct(ds': seq<Descent>, more: seq<Descent>, d: Descent, k: nat)
    requires Distinct(ds')
    requires forall j :: 0 <= j < |ds'| ==> |ds'[j]| == k + 1 && ds'[j][..k] != d
    requires forall j :: 0 <= j < |more| ==> |more[j]| == k + 1 && more[j][..k] == d
    requires forall j, l :: 0 <= j < l < |more| ==> more[j][k] != more[l][k]
    ensures Distinct(ds' + more)
  {
  }

  lemma ExtendsAll(root: Json, steps: seq<Step>, ds: seq<Descent>, nodes: seq<Json>, ds': seq<Descent>, vals: seq<Json>)
    requires steps != []
    requires Enumerates(root, steps[..|steps| - 1], ds, nodes)
    requires Extends(root, steps, ds, |ds|, ds', vals)
    ensures Enumerates(root, steps, ds', vals)
  {
    assert ds[..|ds|] == ds;
    forall d | Matches(root, steps, d)
      ensures d in ds'
    {
      assert d[..|steps| - 1] in ds;
    }
  }

  // --------------------------------------------- what a run of Eval may list

  function Fans(ds: seq<Descent>, parts: seq<seq<Location>>): seq<seq<Descent>>
    requires |ds| == |parts|
  {
    seq(|ds|, i requires 0 <= i < |ds| => After(ds[i], parts[i]))
  }

  function Spread(ds: seq<Descent>, parts: seq<seq<Location>>): seq<Descent>
    requires |ds| == |parts|
  {
    Flatten(Fans(ds, parts))
  }

  /** ds can be the descents one run of Eval follows, in its order. */
  ghost predicate Produces(root: Json, steps: seq<Step>, ds: seq<Descent>)
    decreases |steps|, 1
  {
    if steps == [] then ds == [[]] else exists ds0, parts :: Extended(root, steps, ds0, parts, ds)
  }

  ghost predicate Extended(root: Json, steps: seq<Step>, ds0: seq<Descent>, parts: seq<seq<Location>>, ds: seq<Descent>)
    requires steps != []
    decreases |steps|, 0
  {
    var k := |steps| - 1;
    Produces(root, steps[..k], ds0) && ExtendsAllBy(root, steps[k], ds0, parts) && ds == Spread(ds0, parts)
  }

  ghost predicate ExtendsAllBy(root: Json, s: Step, ds: seq<Descent>, parts: seq<seq<Location>>) {
    && |parts| == |ds|
    && forall i :: 0 <= i < |ds| ==> Land(root, ds[i]).Some? && StepLists(Land(root, ds[i]).value, s, parts[i])
  }

  lemma SpreadStep(root: Json, s: Step, ds: seq<Descent>, i: nat, parts: seq<seq<Location>>, locs: seq<Location>)
    requires i < |ds| && ExtendsAllBy(root, s, ds[..i], parts)
    requires Land(root, ds[i]).Some? && StepLists(Land(root, ds[i]).value, s, locs)
    ensures ExtendsAllBy(root, s, ds[..i + 1], parts + [locs])
    ensures Spread(ds[..i + 1], parts + [locs]) == Spread(ds[..i], parts) + After(ds[i], locs)
  {
    FansStep(ds, i, parts, locs);
    FlattenAppend(Fans(ds[..i], parts), After(ds[i], locs));
    ExtendsNext(root, s, ds, i, parts, locs);
  }

  lemma ExtendsNext(root: Json, s: Step, ds: seq<Descent>, i: nat, parts: seq<seq<Location>>, locs: seq<Location>)
    requires i < |ds| && ExtendsAllBy(root, s, ds[..i], parts)
    requires Land(root, ds[i]).Some? && StepLists(Land(root, ds[i]).value, s, locs)
    ensures ExtendsAllBy(root, s, ds[..i + 1], parts + [locs])
  {
    assert ds[..i + 1] == ds[..i] + [ds[i]];
  }

  lemma FansStep(ds: seq<Descent>, i: nat, parts: seq<seq<Location>>, locs: seq<Location>)
    requires i < |ds| && |parts| == i
    ensures Fans(ds[..i + 1], parts + [locs]) == Fans(ds[..i], parts) + [After(ds[i], locs)]
  {
  }

  /** One turn of the inner loop of Eval. */
  lemma EvalNode(root: Json, steps: seq<Step>, ds: seq<Descent>, nodes: seq<Json>, i: nat, ds': seq<Descent>,
                 vals: seq<Json>, parts: seq<seq<Location>>, locs: seq<Location>, found: seq<Json>)
    requires steps != [] && i < |ds| && Enumerates(root, steps[..|steps| - 1], ds, nodes)
    requires Extends(root, steps, ds, i, ds', vals)
    requires ExtendsAllBy(root, steps[|steps| - 1], ds[..i], parts) && ds' == Spread(ds[..i], parts)
    requires Lists(nodes[i], steps[|steps| - 1], locs, found) && StepLists(nodes[i], steps[|steps| - 1], locs)
    ensures Extends(root, steps, ds, i + 1, ds' + After(ds[i], locs), vals + found)
    ensures ExtendsAllBy(root, steps[|steps| - 1], ds[..i + 1], parts + [locs])
    ensures ds' + After(ds[i], locs) == Spread(ds[..i + 1], parts + [locs])
  {
    assert Leads(root, steps[..|steps| - 1], ds[i], nodes[i]);
    ExtendNode(root, steps, ds, nodes, i, ds', vals, locs, found);
    SpreadStep(root, steps[|steps| - 1], ds, i, parts, locs);
  }

  /** One step of Eval: the inner loop, which rebuilds the node list. */
  method EvalStep(ghost root: Json, ghost steps: seq<Step>, s: Step, nodes: seq<Json>, ghost ds: seq<Descent>)
    returns (next: seq<Json>, ghost ds': seq<Descent>)
    requires steps != [] && steps[|steps| - 1] == s
    requires Enumerates(root, steps[..|steps| - 1], ds, nodes) && Produces(root, steps[..|steps| - 1], ds)
    ensures Enumerates(root, steps, ds', next) && Produces(root, steps, ds')
    ensures !s.Recursive? ==> next == SelectAll(nodes, s)
  {
    next, ds' := [], [];
    ghost var parts := [];
    for i := 0 to |nodes|
      invariant Extends(root, steps, ds, i, ds', next)
      invariant ExtendsAllBy(root, s, ds[..i], parts) && ds' == Spread(ds[..i], parts)
      invariant !s.Recursive? ==> next == SelectAll(nodes[..i], s)
    {
      var more;
      ghost var locs;
      more, locs := ApplyStep(nodes[i], s);
      EvalNode(root, steps, ds, nodes, i, ds', next, parts, locs, more);
      SelectAllStep(nodes, i, s);
      ds', parts := ds' + After(ds[i], locs), parts + [locs];
      next := next + more;
    }
    assert nodes[..|nodes|] == nodes && ds[..|nodes|] == ds;
    assert Extended(root, steps, ds, parts, ds');
    ExtendsAll(root, steps, ds, nodes, ds', next);
  }

  /** Eval: whatever order maps are ranged over, the result lists the value reached by each matching
      descent exactly once, in an order Produces allows; without recursive steps it is one fixed list. */
  method Eval(steps: seq<Step>, root: Json) returns (nodes: seq<Json>, ghost ds: seq<Descent>)
    ensures Enumerates(root, steps, ds, nodes) && Produces(root, steps, ds)
    ensures NoRecursive(steps) ==> nodes == Walk(root, steps)
  {
    nodes, ds := [root], [[]];
    for k := 0 to |steps|
      invariant Enumerates(root, steps[..k], ds, nodes) && Produces(root, steps[..k], ds)
      invariant NoRecursive(steps) ==> nodes == Walk(root, steps[..k])
    {
      assert steps[..k + 1][..k] == steps[..k];
      nodes, ds := EvalStep(root, steps[..k + 1], steps[k], nodes, ds);
    }
    assert steps[..|steps|] == steps;
  }

  // ---------------------------------------------------------- determinism

  function Without<T>(s: seq<T>, j: nat): seq<T>
    requires j < |s|
  {
    s[..j] + s[j + 1..]
  }

  lemma WithoutOne(s: seq<Descent>, j: nat)
    requires j < |s| && Distinct(s)
    ensures Distinct(Without(s, j))
    ensures forall d :: d in Without(s, j) <==> d in s && d != s[j]
  {
  }

  lemma WithoutCounts(ys: seq<Json>, j: nat)
    requires j < |ys|
    ensures multiset(ys) == multiset(Without(ys, j)) + multiset{ys[j]}
  {
    assert ys == ys[..j] + [ys[j]] + ys[j + 1..];
  }

  predicate Landed(root: Json, ds: seq<Descent>, vals: seq<Json>) {
    |ds| == |vals| && forall i :: 0 <= i < |ds| ==> Land(root, ds[i]) == Some(vals[i])
  }

  lemma LandedWithout(root: Json, ds: seq<Descent>, vals: seq<Json>, j: nat)
    requires Landed(root, ds, vals) && j < |ds|
    ensures Landed(root, Without(ds, j), Without(vals, j))
  {
  }

  /** Two duplicate-free listings of the same descents carry the same values, up to order. */
  lemma {:induction false} SameListing(root: Json, ps: seq<Descent>, xs: seq<Json>, qs: seq<Descent>, ys: seq<Json>)
    requires Landed(root, ps, xs) && Landed(root, qs, ys) && Distinct(ps) && Distinct(qs)
    requires forall d :: d in ps <==> d in qs
    ensures multiset(xs) == multiset(ys)
    decreases |ps|
  {
    assert qs != [] ==> qs[0] in qs;
    if ps != [] {
      assert ps[0] in qs;
      var j :| 0 <= j < |qs| && qs[j] == ps[0];
      WithoutOne(ps, 0);
      WithoutOne(qs, j);
      LandedWithout(root, ps, xs, 0);
      LandedWithout(root, qs, ys, j);
      SameListing(root, Without(ps, 0), Without(xs, 0), Without(qs, j), Without(ys, j));
      WithoutCounts(xs, 0);
      WithoutCounts(ys, j);
    }
  }

  /** Any two runs of Eval on the same tree return the same multiset of values. */
  lemma EvalDeterministic(root: Json, steps: seq<Step>,
                          ds1: seq<Descent>, out1: seq<Json>, ds2: seq<Descent>, out2: seq<Json>)
    requires Enumerates(root, steps, ds1, out1)
    requires Enumerates(root, steps, ds2, out2)
    ensures multiset(out1) == multiset(out2)
  {
    assert forall i :: 0 <= i < |ds1| ==> Leads(root, steps, ds1[i], out1[i]);
    assert forall i :: 0 <= i < |ds2| ==> Leads(root, steps, ds2[i], out2[i]);
    SameListing(root, ds1, out1, ds2, out2);
  }
}
