// The whole process: reloads of cmd/main.go together with the facts registries of
// the policies they load, start and stop. Registry p belongs to policy p.
module Lifecycle {
  import opened Prelude
  import opened Transitions
  import Reload
  import Facts

  datatype State = State(main: Reload.State, registries: map<nat, Facts.State>)

  /** A step of the reloads, the load that creates a registry, or a step of one registry. */
  datatype Step =
    | Main(a: Reload.Step) | Load(t: nat, sources: map<string, Facts.Source>) | Registry(p: nat, act: Facts.Step)

  /** Some reload is inside its call of Stop on policy p. */
  predicate Stopping(m: Reload.State, p: nat) {
    exists t :: t in m.threads && m.threads[t] == Reload.Published(p)
  }

  /** A step taken by the goroutine that runs Start. */
  predicate OfStart(a: Facts.Step) {
    a.VisitInline? || a.BeginFetch? || a.InitStore? || a.InitFails? || a.Launch? || a.StartReturns?
  }

  predicate StarterIs(s: State, p: nat, starter: Facts.Starter) {
    p in s.registries && s.registries[p].starter == starter
  }

  predicate Stopped(s: State, p: nat) {
    p in s.registries && s.registries[p].stopper.Stopped?
  }

  /** reload runs Start before anything else, goes on according to its outcome, and finishes when the
      old policy's Stop has returned; Stop is called nowhere else before shutdown. */
  predicate Enabled(s: State, step: Step) {
    match step
    case Load(t, _) => Reload.Enabled(s.main, Reload.LoadSucceeds(t))
    case Main(a) =>
      && Reload.Enabled(s.main, a) && !a.LoadSucceeds?
      && (a.StartSucceeds? ==> StarterIs(s, a.t, Facts.Started))
      && (a.StartFails? ==> StarterIs(s, a.t, Facts.Failed))
      && (a.StopOld? ==> Stopped(s, s.main.threads[a.t].prev))
    case Registry(p, a) =>
      && p in s.registries && Facts.Enabled(s.registries[p], a)
      && (OfStart(a) ==> Reload.AtPc(s.main, p, Reload.Parsed))
      && (a.TakeCancels? ==> Stopping(s.main, p) || (s.main.down && s.main.stops[p] > 0))
  }

  function Apply(s: State, step: Step): State
    requires Enabled(s, step)
  {
    match step
    case Load(t, sources) =>
      State(Reload.Apply(s.main, Reload.LoadSucceeds(t)), s.registries[t := Facts.Fresh(sources)])
    case Main(a) => s.(main := Reload.Apply(s.main, a))
    case Registry(p, a) => s.(registries := s.registries[p := Facts.Apply(s.registries[p], a)])
  }

  function Next(s: State, step: Step): Option<State> {
    if Enabled(s, step) then Some(Apply(s, step)) else None
  }

  /** The process once policy 0 is loaded and its Start has returned. */
  predicate Boot(s: State) {
    && s.main == Reload.INITIAL && s.registries.Keys == {0}
    && var r := s.registries[0]; Facts.Inv(r) && r.starter.Started? && r.stopper.NotStopping?
  }

  // -------------------------------------------------------------- invariant

  /** Policies whose Start has returned successfully, as far as the reloads know. */
  predicate Ready(m: Reload.State, p: nat) {
    p in m.installed || Reload.AtPc(m, p, Reload.Started)
  }

  predicate RegistryOk(m: Reload.State, p: nat, r: Facts.State) {
    && Facts.Inv(r)
    && (!r.stopper.NotStopping? ==> r.starter.Started? && p in m.installed)
    && (!r.stopper.NotStopping? ==> m.down || Stopping(m, p) || m.stops[p] > 0)
    && (r.stopper.Stopped? ==> Facts.Harmless(r))
  }

  ghost predicate Covered(s: State) {
    && (forall p :: p in s.registries ==> RegistryOk(s.main, p, s.registries[p]))
    && (forall p :: Ready(s.main, p) ==> StarterIs(s, p, Facts.Started))
  }

  ghost predicate Inv(s: State) {
    Reload.Inv(s.main) && Covered(s)
  }

  lemma StoppingStep(m: Reload.State, a: Reload.Step, p: nat)
    requires Reload.Enabled(m, a) && Reload.Inv(m)
    ensures Stopping(m, p) || m.stops[p] > 0 ==> Stopping(Reload.Apply(m, a), p) || Reload.Apply(m, a).stops[p] > 0
    ensures m.installed <= Reload.Apply(m, a).installed && (m.down ==> Reload.Apply(m, a).down)
  {
    if Stopping(m, p) {
      var t :| t in m.threads && m.threads[t] == Reload.Published(p);
      if a != Reload.StopOld(t) {
        assert Reload.Apply(m, a).threads[t] == Reload.Published(p);
      }
    }
  }

  lemma ReadyStep(m: Reload.State, a: Reload.Step, p: nat)
    requires Reload.Enabled(m, a) && Ready(Reload.Apply(m, a), p)
    ensures Ready(m, p) || a == Reload.StartSucceeds(p)
  {
  }

  lemma MainStep(s: State, a: Reload.Step)
    requires Inv(s) && Enabled(s, Main(a))
    ensures Inv(Apply(s, Main(a)))
  {
    Reload.StepKeepsInv(s.main, a);
    var s' := Apply(s, Main(a));
    forall p | p in s.registries
      ensures RegistryOk(s'.main, p, s.registries[p])
    {
      MainKeepsOk(s.main, a, p, s.registries[p]);
    }
    forall p | Ready(s'.main, p)
      ensures StarterIs(s', p, Facts.Started)
    {
      ReadyStep(s.main, a, p);
    }
  }

  lemma LoadKeepsReady(s: State, t: nat, sources: map<string, Facts.Source>, p: nat)
    requires Inv(s) && Enabled(s, Load(t, sources)) && Ready(Reload.Apply(s.main, Reload.LoadSucceeds(t)), p)
    ensures StarterIs(Apply(s, Load(t, sources)), p, Facts.Started)
  {
    ReadyStep(s.main, Reload.LoadSucceeds(t), p);
    assert !Ready(s.main, t);
  }

  lemma LoadKeepsOk(s: State, t: nat, sources: map<string, Facts.Source>, p: nat)
    requires Inv(s) && Enabled(s, Load(t, sources)) && p in Apply(s, Load(t, sources)).registries
    ensures var s' := Apply(s, Load(t, sources)); RegistryOk(s'.main, p, s'.registries[p])
  {
    var a := Reload.LoadSucceeds(t);
    if p == t {
      FreshOk(Reload.Apply(s.main, a), t, sources);
    } else {
      MainKeepsOk(s.main, a, p, s.registries[p]);
    }
  }

  lemma LoadStep(s: State, t: nat, sources: map<string, Facts.Source>)
    requires Inv(s) && Enabled(s, Load(t, sources))
    ensures Inv(Apply(s, Load(t, sources)))
  {
    var s' := Apply(s, Load(t, sources));
    Reload.StepKeepsInv(s.main, Reload.LoadSucceeds(t));
    forall p | p in s'.registries
      ensures RegistryOk(s'.main, p, s'.registries[p])
    {
      LoadKeepsOk(s, t, sources, p);
    }
    forall p | Ready(s'.main, p)
      ensures StarterIs(s', p, Facts.Started)
    {
      LoadKeepsReady(s, t, sources, p);
    }
  }

  lemma MainKeepsOk(m: Reload.State, a: Reload.Step, p: nat, r: Facts.State)
    requires Reload.Inv(m) && Reload.Enabled(m, a) && RegistryOk(m, p, r)
    ensures RegistryOk(Reload.Apply(m, a), p, r)
  {
    StoppingStep(m, a, p);
  }

  lemma FreshOk(m: Reload.State, p: nat, sources: map<string, Facts.Source>)
    ensures RegistryOk(m, p, Facts.Fresh(sources))
  {
  }

  /** What a step of a registry does to its phase. */
  lemma PhaseStep(r: Facts.State, a: Facts.Step)
    requires Facts.Enabled(r, a)
    ensures r.starter.Started? ==> Facts.Apply(r, a).starter.Started?
    ensures r.stopper.NotStopping? && !a.TakeCancels? ==> Facts.Apply(r, a).stopper.NotStopping?
    ensures Facts.Apply(r, a).stopper.Stopped? ==> r.stopper.Stopped? || a.StopReturns?
    ensures r.stopper.Stopped? ==> Facts.Apply(r, a).stopper.Stopped?
    ensures !r.stopper.NotStopping? ==> !Facts.Apply(r, a).stopper.NotStopping?
  {
  }

  lemma StopReturnsHarmless(r: Facts.State)
    requires Facts.Enabled(r, Facts.StopReturns) && r.starter.Started?
    ensures Facts.Harmless(Facts.Apply(r, Facts.StopReturns))
  {
  }

  lemma StoppedAreInstalled(m: Reload.State, p: nat)
    requires Reload.Inv(m) && (Stopping(m, p) || m.stops[p] > 0)
    ensures p in m.installed
  {
    if Stopping(m, p) {
      var t :| t in m.threads && m.threads[t] == Reload.Published(p);
      assert Reload.Holds(m, t, p);
    }
  }

  lemma RegistryStaysOk(m: Reload.State, p: nat, r: Facts.State, a: Facts.Step)
    requires RegistryOk(m, p, r) && Facts.Enabled(r, a)
    requires a.TakeCancels? ==> r.starter.Started? && p in m.installed && (m.down || Stopping(m, p) || m.stops[p] > 0)
    ensures RegistryOk(m, p, Facts.Apply(r, a))
  {
    Facts.StepKeepsInv(r, a);
    PhaseStep(r, a);
    if r.stopper.Stopped? {
      Facts.HarmlessStep(r, a);
    } else if a.StopReturns? {
      StopReturnsHarmless(r);
    }
  }

  lemma TakenAreStarted(s: State, p: nat)
    requires Inv(s) && (Stopping(s.main, p) || s.main.stops[p] > 0)
    ensures p in s.main.installed && StarterIs(s, p, Facts.Started)
  {
    StoppedAreInstalled(s.main, p);
    assert Ready(s.main, p);
  }

  lemma RegistryCovered(s: State, p: nat, a: Facts.Step)
    requires Covered(s) && p in s.registries && Facts.Enabled(s.registries[p], a)
    requires RegistryOk(s.main, p, Facts.Apply(s.registries[p], a))
    ensures Covered(s.(registries := s.registries[p := Facts.Apply(s.registries[p], a)]))
  {
    PhaseStep(s.registries[p], a);
  }

  lemma RegistryStep(s: State, p: nat, a: Facts.Step)
    requires Inv(s) && Enabled(s, Registry(p, a))
    ensures Inv(Apply(s, Registry(p, a)))
  {
    if a.TakeCancels? {
      TakenAreStarted(s, p);
    }
    assert RegistryOk(s.main, p, s.registries[p]);
    RegistryStaysOk(s.main, p, s.registries[p], a);
    RegistryCovered(s, p, a);
  }

  lemma StepKeepsInv(s: State, step: Step)
    requires Inv(s) && Enabled(s, step)
    ensures Inv(Apply(s, step))
  {
    match step
    case Main(a) => MainStep(s, a);
    case Load(t, sources) => LoadStep(s, t, sources);
    case Registry(p, a) => RegistryStep(s, p, a);
  }

  lemma RunKeepsInv(s: State, run: seq<Step>)
    requires Boot(s) && Runs(Next, s, run)
    ensures Inv(Exec(Next, s, run))
  {
    forall s', a | Inv(s') && Next(s', a).Some?
      ensures Inv(Next(s', a).value)
    {
      StepKeepsInv(s', a);
    }
    RunsKeep(Next, Inv, s, run);
  }

  // ----------------------------------------------------------------- results

  predicate FullyPopulated(s: State, p: nat) {
    p in s.registries && forall n :: n in s.registries[p].sources ==> Facts.Populated(s.registries[p], n)
  }

  /** At every moment of every run of the process: the policy either server holds has all its facts;
      before shutdown nobody has begun to stop the HTTP server's; and Stop is only ever called on a
      registry whose Start has returned. */
  lemma ServedFactsAreLive(s: State, run: seq<Step>)
    requires Boot(s) && Runs(Next, s, run)
    ensures var e := Exec(Next, s, run);
            && FullyPopulated(e, e.main.http) && FullyPopulated(e, e.main.grpc)
            && (!e.main.down ==> e.registries[e.main.http].stopper.NotStopping?)
            && (forall p :: p in e.registries && !e.registries[p].stopper.NotStopping? ==>
                  e.registries[p].starter.Started?)
  {
    RunKeepsInv(s, run);
    var e := Exec(Next, s, run);
    assert Ready(e.main, e.main.http) && Ready(e.main, e.main.grpc);
    assert forall p :: p in e.registries ==> RegistryOk(e.main, p, e.registries[p]);
    if !e.main.down {
      CurrentIsNotStopping(e.main);
    }
  }

  lemma CurrentIsNotStopping(m: Reload.State)
    requires Reload.Inv(m) && !m.down
    ensures !Stopping(m, m.http) && m.stops[m.http] == 0
  {
    forall t | t in m.threads
      ensures m.threads[t] != Reload.Published(m.http)
    {
      assert !Reload.Holds(m, t, m.http);
    }
  }

  lemma FrozenStep(s: State, step: Step, p: nat)
    requires Inv(s) && Enabled(s, step) && Stopped(s, p)
    ensures Stopped(Apply(s, step), p) && Apply(s, step).registries[p].values == s.registries[p].values
  {
    var r := s.registries[p];
    assert RegistryOk(s.main, p, r);
    match step
    case Main(a) =>
    case Load(t, sources) => assert t != p;
    case Registry(q, a) =>
      if q == p {
        Facts.HarmlessStep(r, a);
        PhaseStep(r, a);
      }
  }

  lemma {:induction false} FrozenStays(s: State, run: seq<Step>, p: nat)
    requires Inv(s) && Runs(Next, s, run) && Stopped(s, p)
    ensures Stopped(Exec(Next, s, run), p)
    ensures Exec(Next, s, run).registries[p].values == s.registries[p].values
    decreases |run|
  {
    if run != [] {
      StepKeepsInv(s, run[0]);
      FrozenStep(s, run[0], p);
      FrozenStays(Apply(s, run[0]), run[1..], p);
    }
  }

  /** In the process every returned Stop is final: the values of a stopped registry never change. */
  lemma StoppedStaysFrozen(s: State, run: seq<Step>, more: seq<Step>, p: nat)
    requires Boot(s) && Runs(Next, s, run) && Runs(Next, Exec(Next, s, run), more)
    requires Stopped(Exec(Next, s, run), p)
    ensures Stopped(Exec(Next, Exec(Next, s, run), more), p)
    ensures var e := Exec(Next, s, run); Exec(Next, e, more).registries[p].values == e.registries[p].values
  {
    RunKeepsInv(s, run);
    FrozenStays(Exec(Next, s, run), more, p);
  }

  /** The reload schedule inside a run of the process. */
  function Reloads(run: seq<Step>): seq<Reload.Step> {
    if run == [] then []
    else if run[0].Registry? then Reloads(run[1..])
    else [if run[0].Load? then Reload.LoadSucceeds(run[0].t) else run[0].a] + Reloads(run[1..])
  }

  /** A run of the process contains a run of the reloads, so what holds of every reload schedule
      holds of the process. */
  lemma {:induction false} ProcessRunsReloads(s: State, run: seq<Step>)
    requires Runs(Next, s, run)
    ensures Runs(Reload.Next, s.main, Reloads(run))
    ensures Exec(Reload.Next, s.main, Reloads(run)) == Exec(Next, s, run).main
    decreases |run|
  {
    if run != [] {
      ProcessRunsReloads(Apply(s, run[0]), run[1..]);
      if !run[0].Registry? {
        var a := if run[0].Load? then Reload.LoadSucceeds(run[0].t) else run[0].a;
        OneStep(Reload.Next, s.main, a, Reloads(run[1..]));
      }
    }
  }
}
