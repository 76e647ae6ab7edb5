// facts.Registry: declaration checks, start-up, background refresh, snapshots and
// stop, under any interleaving of the starting goroutine, the refreshers, the
// readers and the stopper.
module Facts {
  import opened Prelude
  import opened Transitions

  /** What an entry holds: fetched or inline text, or the null of an inline entry without a value. */
  datatype Fact = Null | Text(text: string)

  // ----------------------------------------------------------- declarations

  datatype Method = ValueMethod | FileMethod | UrlMethod | OtherMethod

  /** One declared entry: value is Null, and path and address are None, where the text has none. */
  datatype Spec = Spec(name: string, how: Method, value: Fact, path: Option<string>, address: Option<string>)

  /** Where an accepted entry gets its values from. */
  datatype Source = Inline(value: Fact) | File | Url

  predicate Given(text: Option<string>) {
    text.Some? && text.value != ""
  }

  /** The fields fit the method: the method's own field is there and no other is. */
  predicate SpecOk(d: Spec) {
    d.name != "" &&
    match d.how
    case ValueMethod => d.path.None? && d.address.None?
    case FileMethod => Given(d.path) && d.value.Null? && d.address.None?
    case UrlMethod => Given(d.address) && d.value.Null? && d.path.None?
    case OtherMethod => false
  }

  predicate SpecsOk(specs: seq<Spec>) {
    && (forall i :: 0 <= i < |specs| ==> SpecOk(specs[i]))
    && (forall i, j :: 0 <= i < j < |specs| ==> specs[i].name != specs[j].name)
  }

  function SourceOf(d: Spec): Source {
    match d.how
    case ValueMethod => Inline(d.value)
    case FileMethod => File
    case _ => Url
  }

  /** The declared entries by name. */
  function SourcesOf(specs: seq<Spec>): map<string, Source> {
    if specs == [] then map[]
    else
      var k := |specs| - 1;
      SourcesOf(specs[..k])[specs[k].name := SourceOf(specs[k])]
  }

  predicate Declared(specs: seq<Spec>, name: string) {
    exists i :: 0 <= i < |specs| && specs[i].name == name
  }

  lemma {:induction false} DeclaredNames(specs: seq<Spec>, name: string)
    ensures name in SourcesOf(specs) <==> Declared(specs, name)
  {
    if specs != [] {
      var k := |specs| - 1;
      DeclaredNames(specs[..k], name);
      if Declared(specs[..k], name) {
        var i :| 0 <= i < k && specs[..k][i].name == name;
        assert specs[i].name == name;
      }
    }
  }

  lemma {:induction false} DeclaredSource(specs: seq<Spec>, i: nat)
    requires SpecsOk(specs) && i < |specs|
    ensures specs[i].name in SourcesOf(specs) && SourcesOf(specs)[specs[i].name] == SourceOf(specs[i])
  {
    var k := |specs| - 1;
    if i < k {
      DeclaredSource(specs[..k], i);
      assert specs[..k][i] == specs[i];
    }
  }

  /** The registry New returns has exactly the declared names; an inline entry holds its declared value,
      and an entry read from a file or a url holds nothing yet. */
  lemma FreshHoldsDeclared(specs: seq<Spec>)
    requires SpecsOk(specs)
    ensures var s := Fresh(SourcesOf(specs));
            && (forall n :: n in s.values <==> exists i :: 0 <= i < |specs| && specs[i].name == n)
            && forall i :: 0 <= i < |specs| ==>
                 var d := specs[i];
                 match d.how
                 case ValueMethod => s.sources[d.name] == Inline(d.value) && s.values[d.name] == Some(d.value)
                 case FileMethod => s.sources[d.name] == File && s.values[d.name] == None
                 case _ => d.how == UrlMethod && s.sources[d.name] == Url && s.values[d.name] == None
  {
    var s := Fresh(SourcesOf(specs));
    forall n
      ensures n in s.values <==> Declared(specs, n)
    {
      DeclaredNames(specs, n);
    }
    forall i | 0 <= i < |specs|
      ensures specs[i].name in s.sources && s.sources[specs[i].name] == SourceOf(specs[i]) && SpecOk(specs[i])
    {
      DeclaredSource(specs, i);
    }
  }

  /** The checks of one entry, without the one for duplicates. */
  method CheckSpec(d: Spec) returns (ok: bool)
    ensures ok <==> SpecOk(d)
  {
    if d.name == "" {
      return false;
    }
    match d.how
    case ValueMethod => return d.path.None? && d.address.None?;
    case FileMethod => return Given(d.path) && d.value.Null? && d.address.None?;
    case UrlMethod => return Given(d.address) && d.value.Null? && d.path.None?;
    case OtherMethod => return false;
  }

  lemma SpecsOkNext(specs: seq<Spec>, i: nat)
    requires i < |specs| && SpecsOk(specs[..i])
    ensures SpecsOk(specs[..i + 1]) <==> SpecOk(specs[i]) && !Declared(specs[..i], specs[i].name)
  {
    var init := specs[..i];
    assert forall j :: 0 <= j < i ==> specs[..i + 1][j] == init[j];
    if Declared(init, specs[i].name) {
      var j :| 0 <= j < |init| && init[j].name == specs[i].name;
      assert specs[..i + 1][j].name == specs[..i + 1][i].name;
    }
  }

  lemma SpecsOkPrefix(specs: seq<Spec>, i: nat)
    requires i <= |specs| && SpecsOk(specs)
    ensures SpecsOk(specs[..i])
  {
  }

  /** New: accepts exactly the well-formed declarations with distinct names, and returns a registry
      that holds every inline value. */
  method New(specs: seq<Spec>) returns (r: Option<State>)
    ensures r == if SpecsOk(specs) then Some(Fresh(SourcesOf(specs))) else None
  {
    var entries: map<string, Source> := map[];
    for i := 0 to |specs|
      invariant SpecsOk(specs[..i]) && entries == SourcesOf(specs[..i])
    {
      SpecsOkNext(specs, i);
      DeclaredNames(specs[..i], specs[i].name);
      assert specs[..i + 1][..i] == specs[..i];
      var ok := CheckSpec(specs[i]);
      if !ok || specs[i].name in entries {
        if SpecsOk(specs) {
          SpecsOkPrefix(specs, i + 1);
        }
        return None;
      }
      entries := entries[specs[i].name := SourceOf(specs[i])];
    }
    assert specs[..|specs|] == specs;
    return Some(Fresh(entries));
  }

  // --------------------------------------------------------------- protocol

  /** A refresher: waiting for its ticker, fetching, holding a fetched body, or gone. A fetch begun
      under a cancelled context is not alive and cannot succeed. */
  datatype Refresher = Waiting | Fetching(alive: bool) | Fetched(body: string) | Gone

  /** What Start is doing: about to visit an entry, in the first fetch of a url entry, or between
      that entry's first store and the launch of its refresher. */
  datatype Job = Idle | FirstFetch(name: string, alive: bool) | Launching(name: string)

  datatype Starter = Starting(rest: set<string>, job: Job) | Started | Failed

  datatype Stopper = NotStopping | Cancelling(taken: set<string>) | Joining | Stopped

  /** A call of Snapshot: the entries it has not loaded yet and what it loaded. */
  datatype Reader = Reader(pending: set<string>, got: map<string, Option<Fact>>)

  datatype State = State(
    sources: map<string, Source>,
    values: map<string, Option<Fact>>,    // the atomic cell of each entry
    starter: Starter,
    refreshers: map<string, Refresher>,   // goroutines added to the wait group
    registered: set<string>,              // r.cancels
    cancelled: set<string>,               // refreshers whose context is cancelled
    parentDone: bool,                     // the context given to Start is cancelled
    stopper: Stopper,
    readers: map<nat, Reader>)

  datatype Step =
    | VisitInline(n: string) | BeginFetch(n: string) | InitStore(n: string, body: string) | InitFails(n: string)
    | Launch | StartReturns
    | Tick(n: string) | FetchOk(n: string, body: string) | FetchFails(n: string)
    | Store(n: string, body: string) | Exit(n: string)
    | TakeCancels | CancelAll | StopReturns | CancelParent
    | BeginSnapshot(id: nat) | Load(id: nat, n: string)

  function InitialValue(s: Source): Option<Fact> {
    if s.Inline? then Some(s.value) else None
  }

  /** The registry New returns. */
  function Fresh(sources: map<string, Source>): State {
    State(sources, map n | n in sources :: InitialValue(sources[n]),
          Starting(sources.Keys, Idle), map[], {}, {}, false, NotStopping, map[])
  }

  predicate At(s: State, n: string, r: Refresher) {
    n in s.refreshers && s.refreshers[n] == r
  }

  predicate CanVisit(s: State, n: string) {
    s.starter.Starting? && s.starter.job.Idle? && n in s.starter.rest && n in s.sources
  }

  predicate Enabled(s: State, a: Step) {
    match a
    case VisitInline(n) => CanVisit(s, n) && s.sources[n].Inline?
    case BeginFetch(n) => CanVisit(s, n) && s.sources[n].Url?
    case InitStore(n, _) =>
      (CanVisit(s, n) && s.sources[n].File?) || (s.starter.Starting? && s.starter.job == FirstFetch(n, true))
    case InitFails(n) =>
      || (CanVisit(s, n) && s.sources[n].File?)
      || (s.starter.Starting? && s.starter.job.FirstFetch? && s.starter.job.name == n)
    case Launch => s.starter.Starting? && s.starter.job.Launching?
    case StartReturns => s.starter == Starting({}, Idle)
    case Tick(n) => At(s, n, Waiting)
    case FetchOk(n, _) => At(s, n, Fetching(true))
    case FetchFails(n) => n in s.refreshers && s.refreshers[n].Fetching?
    case Store(n, body) => At(s, n, Fetched(body))
    case Exit(n) => At(s, n, Waiting) && n in s.cancelled
    case TakeCancels => s.stopper.NotStopping?
    case CancelAll => s.stopper.Cancelling?
    case StopReturns => s.stopper.Joining? && forall n :: n in s.refreshers ==> s.refreshers[n].Gone?
    case CancelParent => true
    case BeginSnapshot(id) => id !in s.readers
    case Load(id, n) => id in s.readers && n in s.readers[id].pending && n in s.values
  }

  function Apply(s: State, a: Step): State
    requires Enabled(s, a)
  {
    match a
    case VisitInline(n) => s.(starter := Starting(s.starter.rest - {n}, Idle))
    case BeginFetch(n) => s.(starter := s.starter.(job := FirstFetch(n, !s.parentDone)))
    case InitStore(n, body) =>
      s.(values := s.values[n := Some(Text(body))],
         starter := Starting(s.starter.rest - {n}, if s.starter.job.FirstFetch? then Launching(n) else Idle))
    case InitFails(n) => s.(starter := Failed)
    case Launch =>
      var n := s.starter.job.name;
      s.(starter := s.starter.(job := Idle), refreshers := s.refreshers[n := Waiting],
         registered := s.registered + {n}, cancelled := s.cancelled + if s.parentDone then {n} else {})
    case StartReturns => s.(starter := Started)
    case Tick(n) => s.(refreshers := s.refreshers[n := Fetching(n !in s.cancelled)])
    case FetchOk(n, body) => s.(refreshers := s.refreshers[n := Fetched(body)])
    case FetchFails(n) => s.(refreshers := s.refreshers[n := Waiting])
    case Store(n, body) => s.(values := s.values[n := Some(Text(body))], refreshers := s.refreshers[n := Waiting])
    case Exit(n) => s.(refreshers := s.refreshers[n := Gone])
    case TakeCancels => s.(stopper := Cancelling(s.registered), registered := {})
    case CancelAll => s.(stopper := Joining, cancelled := s.cancelled + s.stopper.taken)
    case StopReturns => s.(stopper := Stopped)
    case CancelParent => s.(parentDone := true, cancelled := s.cancelled + s.refreshers.Keys)
    case BeginSnapshot(id) => s.(readers := s.readers[id := Reader(s.sources.Keys, map[])])
    case Load(id, n) =>
      var r := s.readers[id];
      s.(readers := s.readers[id := Reader(r.pending - {n}, r.got[n := s.values[n]])])
  }

  function Next(s: State, a: Step): Option<State> {
    if Enabled(s, a) then Some(Apply(s, a)) else None
  }

  // -------------------------------------------------------------- invariant

  /** Start has taken care of n. */
  predicate Visited(s: State, n: string) {
    s.starter.Started? || (s.starter.Starting? && n !in s.starter.rest)
  }

  predicate Populated(s: State, n: string) {
    n in s.values && s.values[n].Some?
  }

  predicate StarterOk(s: State) {
    s.starter.Starting? ==>
      && s.starter.rest <= s.sources.Keys
      && match s.starter.job
         case Idle => true
         case FirstFetch(n, alive) => n in s.starter.rest && n in s.sources && s.sources[n].Url?
         case Launching(n) => n in s.sources && s.sources[n].Url? && Populated(s, n)
  }

  predicate Inv(s: State) {
    && s.values.Keys == s.sources.Keys
    && (forall n :: n in s.sources && s.sources[n].Inline? ==> s.values[n] == Some(s.sources[n].value))
    && (forall n :: n in s.sources && Visited(s, n) ==> Populated(s, n))
    && (forall n :: n in s.refreshers ==> n in s.sources && s.sources[n].Url? && Populated(s, n))
    && StarterOk(s)
  }

  predicate Stores(a: Step, n: string) {
    (a.InitStore? || a.Store?) && a.n == n
  }

  /** The only writes are the two kinds of store. */
  lemma ValuesStep(s: State, a: Step)
    requires Enabled(s, a)
    ensures Apply(s, a).sources == s.sources
    ensures Apply(s, a).values == if a.InitStore? || a.Store? then s.values[a.n := Some(Text(a.body))] else s.values
  {
  }

  /** The only entries Start newly accounts for are the inline or stored one, or none when it returns. */
  lemma VisitedStep(s: State, a: Step, n: string)
    requires Inv(s) && Enabled(s, a) && n in s.sources && Visited(Apply(s, a), n)
    ensures Visited(s, n) || (a.VisitInline? && a.n == n) || Stores(a, n)
  {
  }

  lemma RefreshersStep(s: State, a: Step, n: string)
    requires Enabled(s, a) && n in Apply(s, a).refreshers
    ensures n in s.refreshers || (a.Launch? && s.starter.job.name == n)
  {
  }

  lemma StarterStep(s: State, a: Step)
    requires Inv(s) && Enabled(s, a)
    ensures StarterOk(Apply(s, a))
  {
    ValuesStep(s, a);
  }

  /** Stores go to file and url entries only. */
  lemma StoreTarget(s: State, a: Step, n: string)
    requires Inv(s) && Enabled(s, a) && Stores(a, n)
    ensures n in s.sources && !s.sources[n].Inline?
  {
  }

  lemma StepKeepsInv(s: State, a: Step)
    requires Inv(s) && Enabled(s, a)
    ensures Inv(Apply(s, a)) && Apply(s, a).sources == s.sources
  {
    ValuesStep(s, a);
    StarterStep(s, a);
    if a.InitStore? || a.Store? {
      StoreTarget(s, a, a.n);
    }
    forall n | n in s.sources && Visited(Apply(s, a), n)
      ensures Populated(Apply(s, a), n)
    {
      VisitedStep(s, a, n);
    }
    forall n | n in Apply(s, a).refreshers
      ensures n in s.sources && s.sources[n].Url? && Populated(Apply(s, a), n)
    {
      RefreshersStep(s, a, n);
    }
  }

  lemma RunKeepsInv(sources: map<string, Source>, run: seq<Step>)
    requires Runs(Next, Fresh(sources), run)
    ensures Inv(Exec(Next, Fresh(sources), run)) && Exec(Next, Fresh(sources), run).sources == sources
  {
    var inv := (s: State) => Inv(s) && s.sources == sources;
    forall s, a | inv(s) && Next(s, a).Some?
      ensures inv(Next(s, a).value)
    {
      StepKeepsInv(s, a);
    }
    RunsKeep(Next, inv, Fresh(sources), run);
  }

  /** The body of the latest store into entry n: the first read of Start, or a successful refresh. */
  function LastStored(run: seq<Step>, n: string): Option<Fact> {
    if run == [] then None
    else
      var a := run[|run| - 1];
      if Stores(a, n) then Some(Text(a.body)) else LastStored(run[..|run| - 1], n)
  }

  /** The entries are the declared ones; inline values are as declared; every other entry shows its
      latest stored body (so a failed refresh changes nothing); and once Start has returned
      successfully no entry is empty. */
  ghost predicate Truthful(sources: map<string, Source>, run: seq<Step>, s: State) {
    && s.values.Keys == sources.Keys
    && (forall n :: n in sources ==>
          && (sources[n].Inline? ==> s.values[n] == Some(sources[n].value))
          && (!sources[n].Inline? ==> s.values[n] == LastStored(run, n))
          && (s.starter.Started? ==> s.values[n].Some?))
  }

  lemma TruthfulStep(sources: map<string, Source>, run: seq<Step>, s: State, a: Step)
    requires Truthful(sources, run, s) && Inv(s) && s.sources == sources && Enabled(s, a)
    ensures Truthful(sources, run + [a], Apply(s, a))
  {
    ValuesStep(s, a);
    StepKeepsInv(s, a);
    assert (run + [a])[..|run|] == run;
    forall n | n in sources
      ensures LastStored(run + [a], n) == if Stores(a, n) then Some(Text(a.body)) else LastStored(run, n)
    {
    }
    if a.InitStore? || a.Store? {
      StoreTarget(s, a, a.n);
    }
  }

  /** This holds at every moment of every run. */
  lemma {:induction false} CellsAreTruthful(sources: map<string, Source>, run: seq<Step>)
    requires Runs(Next, Fresh(sources), run)
    ensures Truthful(sources, run, Exec(Next, Fresh(sources), run))
  {
    if run != [] {
      var k := |run| - 1;
      RunsLast(Next, Fresh(sources), run);
      RunKeepsInv(sources, run[..k]);
      CellsAreTruthful(sources, run[..k]);
      TruthfulStep(sources, run[..k], Exec(Next, Fresh(sources), run[..k]), run[k]);
      assert run[..k] + [run[k]] == run;
    }
  }

  // -------------------------------------------------------------- snapshots

  /** Entry n of the snapshot is what the cell held at a moment no earlier than b. */
  ghost predicate Seen(sources: map<string, Source>, run: seq<Step>, b: nat, r: Reader, n: string)
    requires Runs(Next, Fresh(sources), run)
  {
    n in r.got && exists k :: b <= k <= |run| && Shows(sources, run, k, n, r.got[n])
  }

  predicate Shows(sources: map<string, Source>, run: seq<Step>, k: nat, n: string, v: Option<Fact>)
    requires Runs(Next, Fresh(sources), run)
  {
    k <= |run| && var cells := After(Next, Fresh(sources), run, k).values; n in cells && cells[n] == v
  }

  lemma ShowsLater(sources: map<string, Source>, run: seq<Step>, b: nat, r: Reader, n: string)
    requires Runs(Next, Fresh(sources), run) && run != [] && Runs(Next, Fresh(sources), run[..|run| - 1])
    requires Seen(sources, run[..|run| - 1], b, r, n)
    ensures Seen(sources, run, b, r, n)
  {
    var init := run[..|run| - 1];
    var k :| b <= k <= |init| && Shows(sources, init, k, n, r.got[n]);
    assert init[..k] == run[..k];
    assert Shows(sources, run, k, n, r.got[n]);
  }

  /** What a step does to a snapshot in progress. */
  lemma ReaderStep(s: State, a: Step, id: nat)
    requires Enabled(s, a) && id in s.readers
    ensures id in Apply(s, a).readers
    ensures Apply(s, a).readers[id] ==
            if a.Load? && a.id == id
            then Reader(s.readers[id].pending - {a.n}, s.readers[id].got[a.n := s.values[a.n]])
            else s.readers[id]
  {
  }

  lemma {:induction false} ReaderSees(sources: map<string, Source>, run: seq<Step>, b: nat, id: nat)
    requires Runs(Next, Fresh(sources), run) && b < |run| && run[b] == BeginSnapshot(id)
    ensures var s := Exec(Next, Fresh(sources), run);
            && id in s.readers && s.readers[id].pending + s.readers[id].got.Keys == sources.Keys
            && forall n :: n in s.readers[id].got ==> Seen(sources, run, b, s.readers[id], n)
  {
    var k := |run| - 1;
    RunsLast(Next, Fresh(sources), run);
    var s, s' := Exec(Next, Fresh(sources), run[..k]), Exec(Next, Fresh(sources), run);
    if b < k {
      ReaderSees(sources, run[..k], b, id);
      ReaderStep(s, run[k], id);
      forall n | n in s'.readers[id].got
        ensures Seen(sources, run, b, s'.readers[id], n)
      {
        if run[k] == Load(id, n) {
          assert Shows(sources, run, k, n, s'.readers[id].got[n]);
        } else {
          assert Seen(sources, run[..k], b, s.readers[id], n);
          ShowsLater(sources, run, b, s.readers[id], n);
        }
      }
    } else {
      RunKeepsInv(sources, run[..k]);
    }
  }

  /** A finished snapshot covers exactly the declared names. Each entry is what its cell held at some
      moment of the call, hence as CellsAreTruthful says of that moment; and if Start had returned
      before the call began, no entry is empty. */
  lemma SnapshotSafety(sources: map<string, Source>, run: seq<Step>, b: nat, id: nat)
    requires Runs(Next, Fresh(sources), run) && b < |run| && run[b] == BeginSnapshot(id)
    ensures var s := Exec(Next, Fresh(sources), run);
            && id in s.readers && (s.readers[id].pending == {} ==> s.readers[id].got.Keys == sources.Keys)
            && forall n :: n in s.readers[id].got ==>
                 && n in sources && Seen(sources, run, b, s.readers[id], n)
                 && (sources[n].Inline? ==> s.readers[id].got[n] == Some(sources[n].value))
                 && (After(Next, Fresh(sources), run, b).starter.Started? ==> s.readers[id].got[n].Some?)
  {
    ReaderSees(sources, run, b, id);
    var r := Exec(Next, Fresh(sources), run).readers[id];
    forall n | n in r.got
      ensures n in sources
      ensures sources[n].Inline? ==> r.got[n] == Some(sources[n].value)
      ensures After(Next, Fresh(sources), run, b).starter.Started? ==> r.got[n].Some?
    {
      assert n in r.pending + r.got.Keys;
      EntrySafety(sources, run, b, r, n);
    }
  }

  lemma EntrySafety(sources: map<string, Source>, run: seq<Step>, b: nat, r: Reader, n: string)
    requires Runs(Next, Fresh(sources), run) && b <= |run| && n in sources && Seen(sources, run, b, r, n)
    ensures sources[n].Inline? ==> r.got[n] == Some(sources[n].value)
    ensures After(Next, Fresh(sources), run, b).starter.Started? ==> r.got[n].Some?
  {
    var k :| b <= k <= |run| && Shows(sources, run, k, n, r.got[n]);
    MomentIsTruthful(sources, run, k);
    if After(Next, Fresh(sources), run, b).starter.Started? {
      StartedStays(sources, run, b, k);
    }
  }

  lemma MomentIsTruthful(sources: map<string, Source>, run: seq<Step>, k: nat)
    requires Runs(Next, Fresh(sources), run) && k <= |run|
    ensures Truthful(sources, run[..k], After(Next, Fresh(sources), run, k))
  {
    assert run == run[..k] + run[k..];
    RunsPrefix(Next, Fresh(sources), run[..k], run[k..]);
    CellsAreTruthful(sources, run[..k]);
  }

  lemma StartedStep(s: State, a: Step)
    requires Enabled(s, a) && s.starter.Started?
    ensures Apply(s, a).starter.Started?
  {
  }

  lemma {:induction false} StartedStays(sources: map<string, Source>, run: seq<Step>, b: nat, k: nat)
    requires Runs(Next, Fresh(sources), run) && b <= k <= |run|
    requires After(Next, Fresh(sources), run, b).starter.Started?
    ensures After(Next, Fresh(sources), run, k).starter.Started?
    decreases k
  {
    if b < k {
      StartedStays(sources, run, b, k - 1);
      AfterStep(Next, Fresh(sources), run, k - 1);
      StartedStep(After(Next, Fresh(sources), run, k - 1), run[k - 1]);
    }
  }

  // ---------------------------------------------------------- cancellations

  /** What the bookkeeping of contexts guarantees: every launched refresher has its cancel function
      on record, taken by Stop, or already called; a refresher leaves only when cancelled; and those
      on record are not cancelled unless the parent is. */
  predicate Tracked(s: State) {
    && (forall n :: n in s.refreshers ==>
          n in s.registered || n in s.cancelled || (s.stopper.Cancelling? && n in s.stopper.taken))
    && (forall n :: n in s.refreshers && s.refreshers[n].Gone? ==> n in s.cancelled)
    && (s.parentDone ==> s.refreshers.Keys <= s.cancelled)
    && s.registered <= s.refreshers.Keys && s.cancelled <= s.refreshers.Keys
    && (!s.parentDone ==> s.registered !! s.cancelled)
    && (s.stopper.Cancelling? ==> s.stopper.taken <= s.refreshers.Keys && s.stopper.taken !! s.registered)
    && LaunchedOnce(s)
  }

  /** The entries Start has yet to launch are not launched. */
  predicate LaunchedOnce(s: State) {
    s.starter.Starting? ==>
      && s.starter.rest !! s.refreshers.Keys
      && (s.starter.job.Launching? ==> s.starter.job.name !in s.refreshers && s.starter.job.name !in s.starter.rest)
      && (s.starter.job.FirstFetch? ==> s.starter.job.name in s.starter.rest)
  }

  lemma StepKeepsTracked(s: State, a: Step)
    requires Enabled(s, a) && Tracked(s)
    ensures Tracked(Apply(s, a))
  {
    LaunchedOnceStep(s, a);
    match a
    case Launch =>
    case TakeCancels =>
    case CancelAll =>
    case CancelParent =>
    case _ => UntrackedStep(s, a);
  }

  lemma LaunchedOnceStep(s: State, a: Step)
    requires Enabled(s, a) && Tracked(s)
    ensures LaunchedOnce(Apply(s, a))
  {
  }

  /** Every other step leaves the contexts alone. */
  lemma UntrackedStep(s: State, a: Step)
    requires Enabled(s, a) && !a.Launch? && !a.TakeCancels? && !a.CancelAll? && !a.CancelParent?
    ensures var s' := Apply(s, a);
            && s'.refreshers.Keys == s.refreshers.Keys && s'.registered == s.registered
            && s'.cancelled == s.cancelled && s'.parentDone == s.parentDone
            && (s'.stopper == s.stopper || s'.stopper.Stopped?)
            && (forall n :: n in s.refreshers && s'.refreshers[n].Gone? ==>
                  s.refreshers[n].Gone? || n in s.cancelled)
  {
  }

  lemma RunKeepsTracked(sources: map<string, Source>, run: seq<Step>)
    requires Runs(Next, Fresh(sources), run)
    ensures Tracked(Exec(Next, Fresh(sources), run))
  {
    forall s, a | Tracked(s) && Next(s, a).Some?
      ensures Tracked(Next(s, a).value)
    {
      StepKeepsTracked(s, a);
    }
    RunsKeep(Next, Tracked, Fresh(sources), run);
  }

  // ------------------------------------------------------ when Stop is final

  /** Some entry can still be stored once every refresher is gone: Start is in a first fetch that can
      succeed, is about to launch a refresher that can fetch, or has an entry left that it can read.
      While the parent context lives, this is: Start is past an entry's first fetch and not yet past
      its launch, or has an entry left that is not inline. */
  predicate MayStore(s: State) {
    s.starter.Starting? &&
    match s.starter.job
    case FirstFetch(_, alive) => alive
    case Launching(_) => !s.parentDone || exists n :: n in s.starter.rest && Readable(s, n)
    case Idle => exists n :: n in s.starter.rest && Readable(s, n)
  }

  predicate Readable(s: State, n: string) {
    n in s.sources && (s.sources[n].File? || (s.sources[n].Url? && !s.parentDone))
  }

  /** A refresher that will never store again. */
  predicate Spent(s: State, n: string)
    requires n in s.refreshers
  {
    s.refreshers[n].Gone? ||
    (n in s.cancelled && (s.refreshers[n].Waiting? || s.refreshers[n] == Fetching(false)))
  }

  predicate Harmless(s: State) {
    !MayStore(s) && forall n :: n in s.refreshers ==> Spent(s, n)
  }

  lemma SpentStep(s: State, a: Step, n: string)
    requires Harmless(s) && Enabled(s, a) && n in Apply(s, a).refreshers
    ensures Spent(Apply(s, a), n)
  {
    assert n in s.refreshers ==> Spent(s, n);
  }

  lemma MayStoreStep(s: State, a: Step)
    requires !MayStore(s) && Enabled(s, a)
    ensures !MayStore(Apply(s, a)) && !a.InitStore?
  {
    var s' := Apply(s, a);
    assert forall n :: Readable(s', n) ==> Readable(s, n);
    assert s'.starter.Starting? ==> s'.starter.rest <= s.starter.rest;
  }

  lemma HarmlessStep(s: State, a: Step)
    requires Harmless(s) && Enabled(s, a)
    ensures Harmless(Apply(s, a)) && Apply(s, a).values == s.values
  {
    MayStoreStep(s, a);
    forall n | n in Apply(s, a).refreshers
      ensures Spent(Apply(s, a), n)
    {
      SpentStep(s, a, n);
    }
    assert a.Store? ==> Spent(s, a.n);
    ValuesStep(s, a);
  }

  lemma {:induction false} HarmlessStays(s: State, run: seq<Step>)
    requires Harmless(s) && Runs(Next, s, run)
    ensures Exec(Next, s, run).values == s.values
    decreases |run|
  {
    if run != [] {
      HarmlessStep(s, run[0]);
      HarmlessStays(Apply(s, run[0]), run[1..]);
    }
  }

  function Differing(v: Option<Fact>): (body: string)
    ensures Some(Text(body)) != v
  {
    if v == Some(Text("")) then "x" else ""
  }

  /** One store that changes a cell. */
  lemma StoreChanges(s: State, n: string) returns (body: string)
    requires n in s.values && forall b :: Enabled(s, InitStore(n, b))
    ensures Runs(Next, s, [InitStore(n, body)] + []) && Exec(Next, s, [InitStore(n, body)] + []).values != s.values
  {
    body := Differing(s.values[n]);
    OneStep(Next, s, InitStore(n, body), []);
    assert Apply(s, InitStore(n, body)).values[n] == Some(Text(body));
  }

  /** A refresher launched now can fetch and store. */
  lemma LaunchCanStore(s: State) returns (after: seq<Step>)
    requires s.starter.Starting? && s.starter.job.Launching? && s.starter.job.name in s.values
    requires !s.parentDone && s.starter.job.name !in s.cancelled
    ensures Runs(Next, s, after) && Exec(Next, s, after).values != s.values
  {
    var n := s.starter.job.name;
    var body := Differing(s.values[n]);
    var s1 := Apply(s, Launch);
    var s2 := Apply(s1, Tick(n));
    var s3 := Apply(s2, FetchOk(n, body));
    after := [Launch] + ([Tick(n)] + ([FetchOk(n, body)] + ([Store(n, body)] + [])));
    OneStep(Next, s3, Store(n, body), []);
    OneStep(Next, s2, FetchOk(n, body), [Store(n, body)] + []);
    OneStep(Next, s1, Tick(n), [FetchOk(n, body)] + ([Store(n, body)] + []));
    OneStep(Next, s, Launch, [Tick(n)] + ([FetchOk(n, body)] + ([Store(n, body)] + [])));
    assert Apply(s3, Store(n, body)).values[n] == Some(Text(body));
  }

  /** Start can read an entry it has left. */
  lemma ReadCanStore(s: State, n: string) returns (after: seq<Step>)
    requires CanVisit(s, n) && Readable(s, n) && n in s.values
    ensures Runs(Next, s, after) && Exec(Next, s, after).values != s.values
  {
    if s.sources[n].File? {
      var body := StoreChanges(s, n);
      after := [InitStore(n, body)] + [];
    } else {
      var s1 := Apply(s, BeginFetch(n));
      var body := StoreChanges(s1, n);
      after := [BeginFetch(n)] + ([InitStore(n, body)] + []);
      OneStep(Next, s, BeginFetch(n), [InitStore(n, body)] + []);
    }
  }

  lemma MayStoreDoes(s: State) returns (after: seq<Step>)
    requires Inv(s) && Tracked(s) && MayStore(s)
    ensures Runs(Next, s, after) && Exec(Next, s, after).values != s.values
  {
    var job := s.starter.job;
    if job.FirstFetch? {
      var body := StoreChanges(s, job.name);
      after := [InitStore(job.name, body)] + [];
    } else if job.Launching? && !s.parentDone {
      after := LaunchCanStore(s);
    } else {
      var n :| n in s.starter.rest && Readable(s, n);
      if job.Idle? {
        after := ReadCanStore(s, n);
      } else {
        var s1 := Apply(s, Launch);
        var rest := ReadCanStore(s1, n);
        after := [Launch] + rest;
        OneStep(Next, s, Launch, rest);
      }
    }
  }

  /** Exactly when a returned Stop is final: no value ever changes again if and only if, when Stop
      returned, Start had nothing left that it could store. */
  lemma StopFreezes(sources: map<string, Source>, before: seq<Step>)
    requires Runs(Next, Fresh(sources), before) && Enabled(Exec(Next, Fresh(sources), before), StopReturns)
    ensures var s := Apply(Exec(Next, Fresh(sources), before), StopReturns);
            (forall after :: Runs(Next, s, after) ==> Exec(Next, s, after).values == s.values) <==> !MayStore(s)
  {
    var s0 := Exec(Next, Fresh(sources), before);
    var s := Apply(s0, StopReturns);
    RunKeepsInv(sources, before);
    RunKeepsTracked(sources, before);
    StepKeepsInv(s0, StopReturns);
    StepKeepsTracked(s0, StopReturns);
    if MayStore(s) {
      var after := MayStoreDoes(s);
    } else {
      assert Harmless(s);
      forall after | Runs(Next, s, after)
        ensures Exec(Next, s, after).values == s.values
      {
        HarmlessStays(s, after);
      }
    }
  }

  /** A registry that is stopped before Start has visited anything. */
  lemma StopAtOnce(s: State)
    requires s.stopper.NotStopping? && s.refreshers == map[] && s.registered == {}
    ensures var run := [TakeCancels] + ([CancelAll] + ([StopReturns] + []));
            Runs(Next, s, run) && Exec(Next, s, run) == s.(stopper := Stopped)
  {
    var s1 := Apply(s, TakeCancels);
    var s2 := Apply(s1, CancelAll);
    OneStep(Next, s2, StopReturns, []);
    OneStep(Next, s1, CancelAll, [StopReturns] + []);
    OneStep(Next, s, TakeCancels, [CancelAll] + ([StopReturns] + []));
    assert s.cancelled + {} == s.cancelled;
  }

  /** The condition matters: after a Stop that returned while Start was still running, an entry can
      still change. */
  lemma StopDuringStartIsNotFinal(n: string, body: string)
    ensures var s := Fresh(map[n := File]);
            var stop, read := [TakeCancels] + ([CancelAll] + ([StopReturns] + [])), [InitStore(n, body)] + [];
            && Runs(Next, s, stop) && Exec(Next, s, stop).values == map[n := None]
            && Runs(Next, s, stop + read) && Exec(Next, s, stop + read).values == map[n := Some(Text(body))]
  {
    var s := Fresh(map[n := File]);
    var stop, read := [TakeCancels] + ([CancelAll] + ([StopReturns] + [])), [InitStore(n, body)] + [];
    StopAtOnce(s);
    OneStep(Next, s.(stopper := Stopped), InitStore(n, body), []);
    RunsConcat(Next, s, stop, read);
  }

  // ------------------------------------------------------ when Stop can return

  ghost function Running(s: State): set<string> {
    set n | n in s.refreshers && !s.refreshers[n].Gone?
  }

  /** What is left for one cancelled refresher to do before it exits. */
  function Wind(s: State, n: string): seq<Step>
    requires n in s.refreshers
  {
    match s.refreshers[n]
    case Waiting => [Exit(n)] + []
    case Fetching(_) => [FetchFails(n)] + ([Exit(n)] + [])
    case Fetched(body) => [Store(n, body)] + ([Exit(n)] + [])
    case Gone => []
  }

  /** A cancelled refresher that waits can leave. */
  lemma Leaves(s: State, n: string)
    requires At(s, n, Waiting) && n in s.cancelled
    ensures Runs(Next, s, [Exit(n)] + []) && Exec(Next, s, [Exit(n)] + []) == s.(refreshers := s.refreshers[n := Gone])
  {
    var a := Exit(n);
    assert Next(s, a) == Some(s.(refreshers := s.refreshers[n := Gone]));
    FinalStep(Next, s, a);
  }

  lemma Winds(s: State, n: string)
    requires n in Running(s) && n in s.cancelled
    ensures Runs(Next, s, Wind(s, n)) && CancelParent !in Wind(s, n)
    ensures var e := Exec(Next, s, Wind(s, n));
            && e.refreshers == s.refreshers[n := Gone] && e.cancelled == s.cancelled
            && e.stopper == s.stopper
  {
    if s.refreshers[n].Waiting? {
      Leaves(s, n);
    } else {
      var a := if s.refreshers[n].Fetching? then FetchFails(n) else Store(n, s.refreshers[n].body);
      var s1 := Apply(s, a);
      Leaves(s1, n);
      OneStep(Next, s, a, [Exit(n)] + []);
      assert s1.refreshers[n := Gone] == s.refreshers[n := Gone];
    }
  }

  /** Every refresher that still runs has been told to leave. */
  predicate Draining(s: State) {
    forall n :: n in s.refreshers && !s.refreshers[n].Gone? ==> n in s.cancelled
  }

  lemma {:induction false} DrainingReturns(s: State) returns (run: seq<Step>)
    requires s.stopper.Joining? && Draining(s)
    ensures Runs(Next, s, run) && CancelParent !in run && Enabled(Exec(Next, s, run), StopReturns)
    decreases |Running(s)|
  {
    if Running(s) == {} {
      run := [];
      assert forall n :: n in s.refreshers && !s.refreshers[n].Gone? ==> n in Running(s);
    } else {
      var n :| n in Running(s);
      Winds(s, n);
      var next := Exec(Next, s, Wind(s, n));
      assert Running(next) == Running(s) - {n};
      var rest := DrainingReturns(next);
      RunsConcat(Next, s, Wind(s, n), rest);
      run := Wind(s, n) + rest;
    }
  }

  /** A refresher nobody cancels keeps running. */
  predicate Uncancelled(s: State, n: string) {
    && n in s.refreshers && !s.refreshers[n].Gone? && n !in s.cancelled
    && !s.parentDone && (s.stopper.Joining? || s.stopper.Stopped?)
  }

  lemma {:induction false} UncancelledStays(s: State, run: seq<Step>, n: string)
    requires Runs(Next, s, run) && CancelParent !in run && Uncancelled(s, n)
    ensures Uncancelled(Exec(Next, s, run), n)
    decreases |run|
  {
    if run != [] {
      assert run[0] != CancelParent;
      UncancelledStays(Apply(s, run[0]), run[1..], n);
    }
  }

  /** Stop gets to return without help from the parent context. */
  ghost predicate CanReturn(s: State) {
    exists run :: Runs(Next, s, run) && CancelParent !in run && Enabled(Exec(Next, s, run), StopReturns)
  }

  /** Exactly when a Stop that has called its cancel functions can return by itself: the parent context
      is cancelled, or Start has launched no refresher since Stop took the cancel functions. That is
      when every refresher that still runs has been told to leave. Cancelling the parent always helps. */
  lemma StopReturnsIff(sources: map<string, Source>, before: seq<Step>)
    requires Runs(Next, Fresh(sources), before) && Exec(Next, Fresh(sources), before).stopper.Joining?
    ensures var s := Exec(Next, Fresh(sources), before);
            && (CanReturn(s) <==> s.parentDone || s.registered == {})
            && (CanReturn(s) <==> Draining(s))
            && CanReturn(Apply(s, CancelParent))
  {
    var s := Exec(Next, Fresh(sources), before);
    RunKeepsTracked(sources, before);
    var run := DrainingReturns(Apply(s, CancelParent));
    if s.parentDone || s.registered == {} {
      var own := DrainingReturns(s);
    } else {
      var n :| n in s.registered;
      assert Uncancelled(s, n);
      forall own | Runs(Next, s, own) && CancelParent !in own
        ensures !Enabled(Exec(Next, s, own), StopReturns)
      {
        UncancelledStays(s, own, n);
      }
    }
  }

  /** The two halves of Stop with a launch in between. */
  function LateLaunch(): seq<Step> {
    [TakeCancels] + ([Launch] + ([CancelAll] + []))
  }

  lemma LateLaunched(s: State)
    requires s.stopper.NotStopping? && s.starter.Starting? && s.starter.job.Launching? && !s.parentDone
    ensures Runs(Next, s, LateLaunch())
    ensures var e := Exec(Next, s, LateLaunch());
            e.stopper.Joining? && s.starter.job.name in e.registered && !e.parentDone
  {
    var s1 := Apply(s, TakeCancels);
    var s2 := Apply(s1, Launch);
    FinalStep(Next, s2, CancelAll);
    OneStep(Next, s1, Launch, [CancelAll] + []);
    OneStep(Next, s, TakeCancels, [Launch] + ([CancelAll] + []));
  }

  /** The first fetch of a registry's only entry. */
  lemma FirstFetched(n: string, body: string)
    ensures var s, run := Fresh(map[n := Url]), [BeginFetch(n)] + ([InitStore(n, body)] + []);
            && Runs(Next, s, run)
            && var e := Exec(Next, s, run);
               e.stopper.NotStopping? && e.starter.Starting? && e.starter.job == Launching(n) && !e.parentDone
  {
    var s := Fresh(map[n := Url]);
    var s1 := Apply(s, BeginFetch(n));
    FinalStep(Next, s1, InitStore(n, body));
    OneStep(Next, s, BeginFetch(n), [InitStore(n, body)] + []);
  }

  /** The condition matters: such a Stop does not return until the parent context is cancelled. */
  lemma StopCanWait(n: string, body: string)
    ensures var s, run := Fresh(map[n := Url]), [BeginFetch(n)] + ([InitStore(n, body)] + []) + LateLaunch();
            && Runs(Next, s, run)
            && Exec(Next, s, run).stopper.Joining? && !CanReturn(Exec(Next, s, run))
  {
    var s, fetch := Fresh(map[n := Url]), [BeginFetch(n)] + ([InitStore(n, body)] + []);
    FirstFetched(n, body);
    LateLaunched(Exec(Next, s, fetch));
    RunsConcat(Next, s, fetch, LateLaunch());
    assert n in Exec(Next, s, fetch + LateLaunch()).registered;
    StopReturnsIff(map[n := Url], fetch + LateLaunch());
  }
}
