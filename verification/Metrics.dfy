// httpserver/metrics.go: record under any interleaving. Each action is one
// atomic access or one critical section of `record`.
module Metrics {
  import opened Prelude
  import opened Transitions
  import opened HttpServer

  /** A sample is also the key of its counter: rule, outcome and dry-run flag. */
  type Key = Sample

  /** Progress of one call of record: about to add to the total, to read the map, to take the
      write lock after a miss, or to add to the counter it found. */
  datatype Pc = AtTotal | AtLookup | AtInsert | AtCount(counter: nat)

  datatype Call = Call(key: Key, pc: Pc)

  /** totalAllowed, totalDenied and totalErrors. */
  datatype Tally = Tally(allow: nat, deny: nat, error: nat) {
    function Of(o: Label): nat {
      match o
      case AllowLabel => allow
      case DenyLabel => deny
      case ErrorLabel => error
    }

    /** The switch of record: add one to the outcome's total. */
    function Add(o: Label): (t: Tally)
      ensures forall p :: t.Of(p) == Of(p) + if p == o then 1 else 0
    {
      match o
      case AllowLabel => this.(allow := allow + 1)
      case DenyLabel => this.(deny := deny + 1)
      case ErrorLabel => this.(error := error + 1)
    }
  }

  datatype State = State(
    totals: Tally,
    perRule: map<Key, nat>,       // published counters, by address
    counts: map<nat, nat>,        // the value at each address
    calls: map<nat, Call>,        // calls in flight
    begun: Tally,                 // calls started so far, for the specification
    done: multiset<Key>)          // calls finished so far, for the specification

  const INITIAL := State(Tally(0, 0, 0), map[], map[], map[], Tally(0, 0, 0), multiset{})

  datatype Step =
    | Begin(t: nat, key: Key) | AddTotal(t: nat) | Lookup(t: nat) | Insert(t: nat, address: nat) | AddCount(t: nat)

  /** The shape every reachable state has: addresses are live and never shared between keys. */
  predicate Shaped(s: State) {
    && (forall k :: k in s.perRule ==> s.perRule[k] in s.counts)
    && (forall k, l :: k in s.perRule && l in s.perRule && k != l ==> s.perRule[k] != s.perRule[l])
    && (forall t :: t in s.calls && s.calls[t].pc.AtCount? ==>
          s.calls[t].key in s.perRule && s.perRule[s.calls[t].key] == s.calls[t].pc.counter)
  }

  predicate At(s: State, t: nat, pc: Pc) {
    t in s.calls && s.calls[t].pc == pc
  }

  predicate Enabled(s: State, a: Step) {
    match a
    case Begin(t, _) => t !in s.calls
    case AddTotal(t) => At(s, t, AtTotal)
    case Lookup(t) => At(s, t, AtLookup)
    case Insert(t, address) => At(s, t, AtInsert) && address !in s.counts
    case AddCount(t) => t in s.calls && s.calls[t].pc.AtCount?
  }

  function Goto(s: State, t: nat, pc: Pc): map<nat, Call>
    requires t in s.calls
  {
    s.calls[t := s.calls[t].(pc := pc)]
  }

  function Apply(s: State, a: Step): State
    requires Shaped(s) && Enabled(s, a)
  {
    match a
    case Begin(t, key) =>
      s.(calls := s.calls[t := Call(key, AtTotal)], begun := s.begun.Add(key.outcome))
    case AddTotal(t) =>
      var o := s.calls[t].key.outcome;
      s.(totals := s.totals.Add(o), calls := Goto(s, t, AtLookup))
    case Lookup(t) =>
      var k := s.calls[t].key;
      s.(calls := Goto(s, t, if k in s.perRule then AtCount(s.perRule[k]) else AtInsert))
    case Insert(t, address) =>
      // the map is read again under the write lock
      var k := s.calls[t].key;
      if k in s.perRule then s.(calls := Goto(s, t, AtCount(s.perRule[k])))
      else s.(perRule := s.perRule[k := address], counts := s.counts[address := 0],
              calls := Goto(s, t, AtCount(address)))
    case AddCount(t) =>
      var c := s.calls[t].pc.counter;
      s.(counts := s.counts[c := s.counts[c] + 1], calls := s.calls - {t}, done := s.done + multiset{s.calls[t].key})
  }

  /** Every enabled step keeps the shape, so every enabled schedule is a run. */
  lemma ShapeIsInvariant(s: State, a: Step)
    requires Shaped(s) && Enabled(s, a)
    ensures Shaped(Apply(s, a))
  {
  }

  // ------------------------------------------------------------------ sums

  function CountAt(s: State, k: Key): nat {
    if k in s.perRule && s.perRule[k] in s.counts then s.counts[s.perRule[k]] else 0
  }

  /** Total of f over a finite set. */
  ghost function Sum(keys: set<Key>, f: Key -> nat): nat {
    if keys == {} then 0 else var k :| k in keys; f(k) + Sum(keys - {k}, f)
  }

  lemma {:induction false} SumRemove(keys: set<Key>, f: Key -> nat, x: Key)
    requires x in keys
    ensures Sum(keys, f) == f(x) + Sum(keys - {x}, f)
    decreases |keys|
  {
    var k :| k in keys && Sum(keys, f) == f(k) + Sum(keys - {k}, f);
    if k != x {
      SumRemove(keys - {k}, f, x);
      SumRemove(keys - {x}, f, k);
      assert keys - {k} - {x} == keys - {x} - {k};
    }
  }

  lemma {:induction false} SumSame(keys: set<Key>, f: Key -> nat, g: Key -> nat)
    requires forall k :: k in keys ==> f(k) == g(k)
    ensures Sum(keys, f) == Sum(keys, g)
    decreases |keys|
  {
    if keys != {} {
      var k :| k in keys;
      SumRemove(keys, f, k);
      SumRemove(keys, g, k);
      SumSame(keys - {k}, f, g);
    }
  }

  ghost function KeysOf(s: State, o: Label): set<Key> {
    set k | k in s.perRule && k.outcome == o
  }

  /** The sum of the per-rule counters of one outcome. */
  ghost function RuleSum(s: State, o: Label): nat {
    Sum(KeysOf(s, o), k => CountAt(s, k))
  }

  predicate Counts(c: Call, o: Label, atTotal: bool) {
    c.key.outcome == o && c.pc.AtTotal? == atTotal
  }

  ghost function Where(calls: map<nat, Call>, o: Label, atTotal: bool): set<nat> {
    set t | t in calls && Counts(calls[t], o, atTotal)
  }

  lemma SizeWithout(w: set<nat>, t: nat)
    ensures |w| == |w - {t}| + if t in w then 1 else 0
  {
    if t !in w {
      assert w - {t} == w;
    }
  }

  lemma WhereElsewhere(calls: map<nat, Call>, t: nat, c: Call, o: Label, atTotal: bool)
    ensures Where(calls, o, atTotal) - {t} == Where(calls[t := c], o, atTotal) - {t}
  {
  }

  /** Adding or changing one call changes each group of calls by at most that call. */
  lemma WhereUpdate(calls: map<nat, Call>, t: nat, c: Call, o: Label, atTotal: bool)
    ensures |Where(calls[t := c], o, atTotal)| ==
            |Where(calls, o, atTotal)|
            - (if t in calls && Counts(calls[t], o, atTotal) then 1 else 0)
            + if Counts(c, o, atTotal) then 1 else 0
  {
    var w, w' := Where(calls, o, atTotal), Where(calls[t := c], o, atTotal);
    WhereElsewhere(calls, t, c, o, atTotal);
    SizeWithout(w, t);
    SizeWithout(w', t);
  }

  lemma WhereRemove(calls: map<nat, Call>, t: nat, o: Label, atTotal: bool)
    requires t in calls
    ensures |Where(calls - {t}, o, atTotal)| ==
            |Where(calls, o, atTotal)| - if Counts(calls[t], o, atTotal) then 1 else 0
  {
    assert Where(calls - {t}, o, atTotal) == Where(calls, o, atTotal) - {t};
    assert t in Where(calls, o, atTotal) <==> Counts(calls[t], o, atTotal);
  }

  /** Calls of one outcome whose total is not yet added. */
  ghost function Waiting(s: State, o: Label): set<nat> {
    Where(s.calls, o, true)
  }

  /** Calls of one outcome between the two increments. */
  ghost function Between(s: State, o: Label): set<nat> {
    Where(s.calls, o, false)
  }

  /** Each total is the sum of its per-rule counters plus the calls between the two increments. */
  ghost predicate Balanced(s: State, o: Label) {
    && s.totals.Of(o) == RuleSum(s, o) + |Between(s, o)|
    && s.begun.Of(o) == s.totals.Of(o) + |Waiting(s, o)|
  }

  /** The per-rule sum depends only on the published counters. */
  lemma RuleSumFrame(s: State, s': State, o: Label)
    requires s'.perRule == s.perRule && s'.counts == s.counts
    ensures RuleSum(s', o) == RuleSum(s, o)
  {
    assert KeysOf(s', o) == KeysOf(s, o);
    SumSame(KeysOf(s, o), k => CountAt(s, k), k => CountAt(s', k));
  }

  /** A call that begins, or moves on, with the counters untouched. */
  lemma MoveBalances(s: State, s': State, t: nat, c: Call, o: Label)
    requires Balanced(s, o) && s'.calls == s.calls[t := c]
    requires s'.perRule == s.perRule && s'.counts == s.counts
    requires t in s.calls ==> c.key == s.calls[t].key
    requires var mine := c.key.outcome == o;
             && s'.begun.Of(o) == s.begun.Of(o) + (if mine && t !in s.calls then 1 else 0)
             && s'.totals.Of(o) == s.totals.Of(o) + (if mine && At(s, t, AtTotal) then 1 else 0)
    requires c.pc.AtTotal? <==> t !in s.calls
    ensures Balanced(s', o)
  {
    WhereUpdate(s.calls, t, c, o, true);
    WhereUpdate(s.calls, t, c, o, false);
    RuleSumFrame(s, s', o);
  }

  lemma PublishSum(s: State, t: nat, address: nat, o: Label)
    requires Shaped(s) && Enabled(s, Insert(t, address)) && s.calls[t].key !in s.perRule
    ensures RuleSum(Apply(s, Insert(t, address)), o) == RuleSum(s, o)
  {
    var s', k := Apply(s, Insert(t, address)), s.calls[t].key;
    var f, g := (x: Key) => CountAt(s, x), (x: Key) => CountAt(s', x);
    SumSame(KeysOf(s, o), f, g);
    if k.outcome == o {
      assert KeysOf(s', o) - {k} == KeysOf(s, o);
      SumRemove(KeysOf(s', o), g, k);
    } else {
      assert KeysOf(s', o) == KeysOf(s, o);
    }
  }

  lemma PublishBalances(s: State, t: nat, address: nat, o: Label)
    requires Shaped(s) && Enabled(s, Insert(t, address)) && Balanced(s, o) && s.calls[t].key !in s.perRule
    ensures Balanced(Apply(s, Insert(t, address)), o)
  {
    var c := s.calls[t].(pc := AtCount(address));
    WhereUpdate(s.calls, t, c, o, true);
    WhereUpdate(s.calls, t, c, o, false);
    PublishSum(s, t, address, o);
  }

  lemma AddCountSum(s: State, t: nat, o: Label)
    requires Shaped(s) && Enabled(s, AddCount(t))
    ensures RuleSum(Apply(s, AddCount(t)), o) == RuleSum(s, o) + if s.calls[t].key.outcome == o then 1 else 0
  {
    var s', k := Apply(s, AddCount(t)), s.calls[t].key;
    assert KeysOf(s', o) == KeysOf(s, o);
    var f, g := (x: Key) => CountAt(s, x), (x: Key) => CountAt(s', x);
    if k.outcome == o {
      assert k in KeysOf(s, o);
      SumRemove(KeysOf(s, o), f, k);
      SumRemove(KeysOf(s, o), g, k);
      SumSame(KeysOf(s, o) - {k}, f, g);
    } else {
      SumSame(KeysOf(s, o), f, g);
    }
  }

  lemma AddCountBalances(s: State, t: nat, o: Label)
    requires Shaped(s) && Enabled(s, AddCount(t)) && Balanced(s, o)
    ensures Balanced(Apply(s, AddCount(t)), o)
  {
    WhereRemove(s.calls, t, o, true);
    WhereRemove(s.calls, t, o, false);
    AddCountSum(s, t, o);
  }

  lemma StepBalances(s: State, a: Step, o: Label)
    requires Shaped(s) && Enabled(s, a) && Balanced(s, o)
    ensures Shaped(Apply(s, a)) && Balanced(Apply(s, a), o)
  {
    ShapeIsInvariant(s, a);
    var s' := Apply(s, a);
    match a
    case AddCount(t) => AddCountBalances(s, t, o);
    case Insert(t, address) =>
      if s.calls[t].key in s.perRule {
        MoveBalances(s, s', t, s'.calls[t], o);
      } else {
        PublishBalances(s, t, address, o);
      }
    case _ => MoveBalances(s, s', a.t, s'.calls[a.t], o);
  }

  /** A published counter is never replaced, and no counter ever decreases. */
  lemma PublishedStays(s: State, a: Step, k: Key)
    requires Shaped(s) && Enabled(s, a) && k in s.perRule
    ensures k in Apply(s, a).perRule && Apply(s, a).perRule[k] == s.perRule[k]
    ensures CountAt(s, k) <= CountAt(Apply(s, a), k)
  {
  }

  /** Every counter holds the number of finished calls with its own key, and no other. */
  ghost predicate Exact(s: State) {
    forall k :: CountAt(s, k) == s.done[k]
  }

  lemma StepExact(s: State, a: Step)
    requires Shaped(s) && Enabled(s, a) && Exact(s)
    ensures Exact(Apply(s, a))
  {
    var s' := Apply(s, a);
    forall k
      ensures CountAt(s', k) == s'.done[k]
    {
      assert CountAt(s, k) == s.done[k];
    }
  }

  // ------------------------------------------------------------------ runs

  function Next(s: State, a: Step): Option<State> {
    if Shaped(s) && Enabled(s, a) then Some(Apply(s, a)) else None
  }

  lemma {:induction false} RunBalances(s: State, run: seq<Step>, o: Label)
    requires Runs(Next, s, run) && Shaped(s) && Balanced(s, o) && Exact(s)
    ensures Shaped(Exec(Next, s, run)) && Balanced(Exec(Next, s, run), o) && Exact(Exec(Next, s, run))
    decreases |run|
  {
    if run != [] {
      StepBalances(s, run[0], o);
      StepExact(s, run[0]);
      RunBalances(Apply(s, run[0]), run[1..], o);
    }
  }

  lemma {:induction false} RunKeepsPublished(s: State, run: seq<Step>, k: Key)
    requires Runs(Next, s, run) && k in s.perRule
    ensures k in Exec(Next, s, run).perRule && Exec(Next, s, run).perRule[k] == s.perRule[k]
    ensures CountAt(s, k) <= CountAt(Exec(Next, s, run), k)
    decreases |run|
  {
    if run != [] {
      PublishedStays(s, run[0], k);
      RunKeepsPublished(Apply(s, run[0]), run[1..], k);
    }
  }

  /** Conservation under every interleaving: each total is the sum of its per-rule counters plus the
      calls between the two increments, and at quiescence both equal the number of calls made. */
  lemma RecordConserves(run: seq<Step>, o: Label)
    requires Runs(Next, INITIAL, run)
    ensures var s := Exec(Next, INITIAL, run);
            && Shaped(s) && Balanced(s, o) && Exact(s)
            && (s.calls == map[] ==> s.totals.Of(o) == RuleSum(s, o) == s.begun.Of(o))
  {
    assert KeysOf(INITIAL, o) == {} && Where(INITIAL.calls, o, true) == {} && Where(INITIAL.calls, o, false) == {};
    RunBalances(INITIAL, run, o);
    var s := Exec(Next, INITIAL, run);
    if s.calls == map[] {
      assert Between(s, o) == {} && Waiting(s, o) == {};
    }
  }
}
