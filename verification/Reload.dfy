// cmd/main.go: hot reload. SIGHUP and the file watcher both call `reload`, on
// goroutines of their own, so any number of reloads can be in flight. Reload t
// loads policy t; policy 0 is the one loaded at start-up.
module Reload {
  import opened Prelude
  import opened Transitions

  /** Where a reload is. `prev` is the policy its HTTP swap returned. */
  datatype Pc = Loading | Parsed | Started | Swapped(prev: nat) | Published(prev: nat)

  datatype State = State(
    http: nat, grpc: nat,        // the policies the two servers hold
    threads: map<nat, Pc>,       // reloads in flight
    used: set<nat>,              // every policy ever created
    installed: set<nat>,         // every policy ever held by the HTTP server
    stops: multiset<nat>,        // completed calls of Stop
    down: bool)                  // shutdown has stopped the current policy

  datatype Step =
    | Begin(t: nat) | LoadFails(t: nat) | LoadSucceeds(t: nat) | StartFails(t: nat) | StartSucceeds(t: nat)
    | SwapHttp(t: nat) | SwapGrpc(t: nat) | StopOld(t: nat) | Shutdown

  const INITIAL := State(0, 0, map[], {0}, {0}, multiset{}, false)

  predicate AtPc(s: State, t: nat, pc: Pc) {
    t in s.threads && s.threads[t] == pc
  }

  predicate Enabled(s: State, a: Step) {
    match a
    case Begin(t) => t !in s.used
    case LoadFails(t) => AtPc(s, t, Loading)
    case LoadSucceeds(t) => AtPc(s, t, Loading)
    case StartFails(t) => AtPc(s, t, Parsed)
    case StartSucceeds(t) => AtPc(s, t, Parsed)
    case SwapHttp(t) => AtPc(s, t, Started)
    case SwapGrpc(t) => t in s.threads && s.threads[t].Swapped?
    case StopOld(t) => t in s.threads && s.threads[t].Published?
    case Shutdown => !s.down
  }

  function Apply(s: State, a: Step): State
    requires Enabled(s, a)
  {
    match a
    case Begin(t) => s.(threads := s.threads[t := Loading], used := s.used + {t})
    case LoadFails(t) => s.(threads := s.threads - {t})
    case LoadSucceeds(t) => s.(threads := s.threads[t := Parsed])
    case StartFails(t) => s.(threads := s.threads - {t})
    case StartSucceeds(t) => s.(threads := s.threads[t := Started])
    case SwapHttp(t) => s.(http := t, installed := s.installed + {t}, threads := s.threads[t := Swapped(s.http)])
    case SwapGrpc(t) => s.(grpc := t, threads := s.threads[t := Published(s.threads[t].prev)])
    case StopOld(t) => s.(threads := s.threads - {t}, stops := s.stops + multiset{s.threads[t].prev})
    case Shutdown => s.(stops := s.stops + multiset{s.http}, down := true)
  }

  /** One atomic step, where it is possible. */
  function Next(s: State, a: Step): Option<State> {
    if Enabled(s, a) then Some(Apply(s, a)) else None
  }

  // ---------------------------------------------------------- conservation

  predicate Holds(s: State, t: nat, p: nat) {
    t in s.threads && (s.threads[t].Swapped? || s.threads[t].Published?) && s.threads[t].prev == p
  }

  predicate Held(s: State, p: nat) {
    exists t :: t in s.threads && Holds(s, t, p)
  }

  /** Each policy ever installed is exactly one of: current, awaiting its stop in exactly one
      reload, or stopped exactly once; and nothing else is held or stopped. */
  ghost predicate Conserved(s: State) {
    && (forall p :: p in s.installed ==>
          || (p == s.http && !Held(s, p) && s.stops[p] == 0)
          || (p != s.http && Held(s, p) && s.stops[p] == 0)
          || (p != s.http && !Held(s, p) && s.stops[p] == 1))
    && (forall t, u, p :: Holds(s, t, p) && Holds(s, u, p) ==> t == u)
    && (forall t, p :: Holds(s, t, p) ==> p in s.installed)
    && (forall p :: p in s.stops ==> p in s.installed)
  }

  ghost predicate Inv(s: State) {
    && (!s.down ==> Conserved(s))
    && s.http in s.installed && s.grpc in s.installed && s.installed <= s.used
    && (forall t, p :: Holds(s, t, p) ==> p in s.installed)
    && (forall p :: p in s.stops ==> p in s.installed)
    && (forall t :: t in s.threads ==> t in s.used)
    && (forall t :: t in s.threads ==> (t in s.installed <==> s.threads[t].Swapped? || s.threads[t].Published?))
  }

  /** No step other than taking, handing on or releasing a policy changes who holds what. */
  lemma HoldsFrame(s: State, a: Step)
    requires Enabled(s, a) && Inv(s) && !a.SwapHttp? && !a.StopOld?
    ensures forall t, p :: Holds(Apply(s, a), t, p) <==> Holds(s, t, p)
    ensures forall p :: Held(Apply(s, a), p) <==> Held(s, p)
  {
    var s' := Apply(s, a);
    forall t, p
      ensures Holds(s', t, p) <==> Holds(s, t, p)
    {
    }
    forall p
      ensures Held(s', p) <==> Held(s, p)
    {
      if Held(s, p) {
        var t :| t in s.threads && Holds(s, t, p);
        assert Holds(s', t, p);
      }
      if Held(s', p) {
        var t :| t in s'.threads && Holds(s', t, p);
        assert Holds(s, t, p);
      }
    }
  }

  lemma SwapHttpConserves(s: State, t: nat)
    requires Enabled(s, SwapHttp(t)) && Inv(s) && Conserved(s)
    ensures Conserved(Apply(s, SwapHttp(t)))
  {
    var s' := Apply(s, SwapHttp(t));
    assert forall u, p :: Holds(s', u, p) <==> (u == t && p == s.http) || (u != t && Holds(s, u, p));
    forall p
      ensures Held(s', p) <==> p == s.http || Held(s, p)
    {
      if p == s.http {
        assert Holds(s', t, p);
      } else if Held(s, p) {
        var u :| u in s.threads && Holds(s, u, p);
        assert Holds(s', u, p);
      }
    }
    assert t !in s.installed;
    assert !Held(s, s.http);
  }

  lemma StopOldConserves(s: State, t: nat)
    requires Enabled(s, StopOld(t)) && Inv(s) && Conserved(s)
    ensures Conserved(Apply(s, StopOld(t)))
  {
    var s', prev' := Apply(s, StopOld(t)), s.threads[t].prev;
    assert Holds(s, t, prev') && Held(s, prev');
    assert forall u, p :: Holds(s', u, p) <==> u != t && Holds(s, u, p);
    forall p
      ensures Held(s', p) <==> p != prev' && Held(s, p)
    {
      if p != prev' && Held(s, p) {
        var u :| u in s.threads && Holds(s, u, p);
        assert Holds(s', u, p);
      }
    }
  }

  lemma InstalledStep(s: State, a: Step)
    requires Enabled(s, a) && Inv(s)
    ensures forall t, p :: Holds(Apply(s, a), t, p) ==> p in Apply(s, a).installed
    ensures forall p :: p in Apply(s, a).stops ==> p in Apply(s, a).installed
  {
    assert forall t, p :: Holds(Apply(s, a), t, p) ==> Holds(s, t, p) || p == s.http;
    assert a.StopOld? ==> Holds(s, a.t, s.threads[a.t].prev);
  }

  lemma ThreadsStep(s: State, a: Step)
    requires Enabled(s, a) && Inv(s)
    ensures var s' := Apply(s, a);
            && s'.http in s'.installed && s'.grpc in s'.installed && s'.installed <= s'.used
            && (forall t :: t in s'.threads ==> t in s'.used)
            && (forall t :: t in s'.threads ==>
                  (t in s'.installed <==> s'.threads[t].Swapped? || s'.threads[t].Published?))
  {
  }

  lemma StepConserves(s: State, a: Step)
    requires Enabled(s, a) && Inv(s) && !s.down && !a.Shutdown?
    ensures Conserved(Apply(s, a))
  {
    match a
    case SwapHttp(t) => SwapHttpConserves(s, t);
    case StopOld(t) => StopOldConserves(s, t);
    case _ => HoldsFrame(s, a);
  }

  lemma StepKeepsInv(s: State, a: Step)
    requires Enabled(s, a) && Inv(s)
    ensures Inv(Apply(s, a))
  {
    InstalledStep(s, a);
    ThreadsStep(s, a);
    if !s.down && !a.Shutdown? {
      StepConserves(s, a);
    }
  }

  lemma RunKeepsInv(run: seq<Step>)
    requires Runs(Next, INITIAL, run)
    ensures Inv(Exec(Next, INITIAL, run))
  {
    forall s, a | Inv(s) && Next(s, a).Some?
      ensures Inv(Next(s, a).value)
    {
      StepKeepsInv(s, a);
    }
    RunsKeep(Next, Inv, INITIAL, run);
  }

  /** Under every interleaving, before shutdown: policies are conserved, the HTTP server's policy
      is never stopped, and when no reload is in flight everything it ever held before is stopped once. */
  lemma ReloadConserves(run: seq<Step>)
    requires Runs(Next, INITIAL, run)
    ensures var s := Exec(Next, INITIAL, run);
            !s.down ==>
              && Conserved(s) && s.http in s.installed && s.stops[s.http] == 0
              && (s.threads == map[] ==> forall p :: p in s.installed && p != s.http ==> s.stops[p] == 1)
  {
    RunKeepsInv(run);
  }

  // -------------------------------------------------------- failed reloads

  predicate Belongs(a: Step, t: nat) {
    !a.Shutdown? && a.t == t
  }

  /** The schedule without the steps of reload t. */
  function Erase(run: seq<Step>, t: nat): seq<Step> {
    if run == [] then []
    else if Belongs(run[0], t) then Erase(run[1..], t)
    else [run[0]] + Erase(run[1..], t)
  }

  /** The same state up to the bookkeeping of reload t. */
  ghost predicate Alike(s: State, s0: State, t: nat) {
    && s == s0.(threads := s.threads, used := s.used)
    && (forall u :: u != t ==> (u in s.used <==> u in s0.used))
    && (forall u :: u != t ==> (u in s.threads <==> u in s0.threads))
    && (forall u :: u != t && u in s.threads && u in s0.threads ==> s.threads[u] == s0.threads[u])
  }

  /** Reload t has not swapped its policy in. */
  predicate Unswapped(s: State, t: nat) {
    t in s.threads ==> !s.threads[t].Swapped? && !s.threads[t].Published?
  }

  lemma EraseStep(s: State, s0: State, a: Step, t: nat)
    requires Enabled(s, a) && a != SwapHttp(t) && Unswapped(s, t) && Alike(s, s0, t)
    ensures Unswapped(Apply(s, a), t)
    ensures Belongs(a, t) ==> Alike(Apply(s, a), s0, t)
    ensures !Belongs(a, t) ==> Enabled(s0, a) && Alike(Apply(s, a), Apply(s0, a), t)
  {
  }

  /** A reload that never swaps its policy in might as well not have run: without its steps the
      schedule is still one, and ends in the same state up to the reload's own bookkeeping. */
  lemma {:induction false} EraseUnswapped(s: State, s0: State, run: seq<Step>, t: nat)
    requires Runs(Next, s, run) && SwapHttp(t) !in run && Unswapped(s, t) && Alike(s, s0, t)
    ensures Runs(Next, s0, Erase(run, t))
    ensures Alike(Exec(Next, s, run), Exec(Next, s0, Erase(run, t)), t)
    decreases |run|
  {
    if run != [] {
      var a, rest := run[0], run[1..];
      EraseStep(s, s0, a, t);
      assert SwapHttp(t) !in rest;
      if Belongs(a, t) {
        EraseUnswapped(Apply(s, a), s0, rest, t);
      } else {
        EraseUnswapped(Apply(s, a), Apply(s0, a), rest, t);
        OneStep(Next, s0, a, Erase(rest, t));
      }
    }
  }

  /** Reload t is over. */
  predicate Over(s: State, t: nat) {
    t in s.used && t !in s.threads
  }

  lemma {:induction false} OverStays(s: State, run: seq<Step>, t: nat)
    requires Runs(Next, s, run) && Over(s, t)
    ensures Over(Exec(Next, s, run), t) && forall i :: 0 <= i < |run| ==> !Belongs(run[i], t)
    decreases |run|
  {
    if run != [] {
      OverStays(Apply(s, run[0]), run[1..], t);
    }
  }

  predicate Fails(a: Step, t: nat) {
    a == LoadFails(t) || a == StartFails(t)
  }

  /** A reload whose load or start fails never swaps. */
  lemma {:induction false} FailedIsOver(s: State, run: seq<Step>, t: nat, i: nat)
    requires Runs(Next, s, run) && Inv(s) && i < |run| && Fails(run[i], t)
    ensures SwapHttp(t) !in run && Over(Exec(Next, s, run), t) && t !in s.installed
    decreases |run|
  {
    StepKeepsInv(s, run[0]);
    var s' := Apply(s, run[0]);
    if i == 0 {
      OverStays(s', run[1..], t);
    } else {
      FailedIsOver(s', run[1..], t, i - 1);
    }
  }

  /** Under every interleaving, a reload whose load or start fails changes nothing: erasing its steps
      leaves a schedule that ends in the same servers, reloads in flight and stopped policies. */
  lemma FailureChangesNothing(run: seq<Step>, t: nat)
    requires Runs(Next, INITIAL, run) && exists i :: 0 <= i < |run| && Fails(run[i], t)
    ensures Runs(Next, INITIAL, Erase(run, t))
    ensures var (s, s0) := (Exec(Next, INITIAL, run), Exec(Next, INITIAL, Erase(run, t)));
            s == s0.(used := s0.used + {t})
  {
    var i :| 0 <= i < |run| && Fails(run[i], t);
    FailedIsOver(INITIAL, run, t, i);
    EraseUnswapped(INITIAL, INITIAL, run, t);
    ErasedIsGone(run, t);
    NeverBegun(INITIAL, Erase(run, t), t);
    var s, s0 := Exec(Next, INITIAL, run), Exec(Next, INITIAL, Erase(run, t));
    assert s.threads == s0.threads && s.used == s0.used + {t};
  }

  lemma {:induction false} ErasedIsGone(run: seq<Step>, t: nat)
    ensures forall i :: 0 <= i < |Erase(run, t)| ==> !Belongs(Erase(run, t)[i], t)
  {
    if run != [] {
      ErasedIsGone(run[1..], t);
    }
  }

  lemma {:induction false} NeverBegun(s: State, run: seq<Step>, t: nat)
    requires Runs(Next, s, run) && t !in s.threads && forall i :: 0 <= i < |run| ==> !Belongs(run[i], t)
    ensures t !in Exec(Next, s, run).threads
    decreases |run|
  {
    if run != [] {
      NeverBegun(Apply(s, run[0]), run[1..], t);
    }
  }

  // ------------------------------------------------- the two servers agree

  /** The last reload that wrote the gRPC server is also the last that wrote the HTTP server. */
  predicate SameLastWriter(run: seq<Step>) {
    LastHttp(run) == LastGrpc(run)
  }

  function LastHttp(run: seq<Step>): nat {
    if run == [] then 0
    else if run[|run| - 1].SwapHttp? then run[|run| - 1].t
    else LastHttp(run[..|run| - 1])
  }

  function LastGrpc(run: seq<Step>): nat {
    if run == [] then 0
    else if run[|run| - 1].SwapGrpc? then run[|run| - 1].t
    else LastGrpc(run[..|run| - 1])
  }

  lemma {:induction false} LastWriters(run: seq<Step>)
    requires Runs(Next, INITIAL, run)
    ensures Exec(Next, INITIAL, run).http == LastHttp(run) && Exec(Next, INITIAL, run).grpc == LastGrpc(run)
  {
    if run != [] {
      RunsLast(Next, INITIAL, run);
      LastWriters(run[..|run| - 1]);
    }
  }

  /** Exactly when the gRPC server is left with a live policy: with no reload in flight, its policy
      is unstopped if and only if both servers were last written by the same reload. */
  lemma GrpcLiveIffSameWriter(run: seq<Step>)
    requires Runs(Next, INITIAL, run)
    requires var s := Exec(Next, INITIAL, run); !s.down && s.threads == map[]
    ensures var s := Exec(Next, INITIAL, run);
            && (s.stops[s.grpc] == 0 <==> SameLastWriter(run))
            && (s.grpc == s.http <==> SameLastWriter(run))
  {
    RunKeepsInv(run);
    LastWriters(run);
  }

  /** Reload t runs up to the point where its policy is started. */
  function Prepare(t: nat): seq<Step> {
    [Begin(t)] + ([LoadSucceeds(t)] + ([StartSucceeds(t)] + []))
  }

  lemma Prepared(s: State, t: nat)
    requires t !in s.used
    ensures Runs(Next, s, Prepare(t))
    ensures Exec(Next, s, Prepare(t)) == s.(threads := s.threads[t := Started], used := s.used + {t})
  {
    var s1 := Apply(s, Begin(t));
    var s2 := Apply(s1, LoadSucceeds(t));
    OneStep(Next, s, Begin(t), [LoadSucceeds(t)] + ([StartSucceeds(t)] + []));
    OneStep(Next, s1, LoadSucceeds(t), [StartSucceeds(t)] + []);
    OneStep(Next, s2, StartSucceeds(t), []);
    assert s2.threads[t := Started] == s.threads[t := Started];
  }

  /** Both reloads swap the HTTP server in order, then the gRPC server in the opposite order. */
  function CrossedSwaps(): seq<Step> {
    [SwapHttp(1)] + ([SwapHttp(2)] + ([SwapGrpc(2)] + ([SwapGrpc(1)] + ([StopOld(1)] + ([StopOld(2)] + [])))))
  }

  lemma Crossed(s: State)
    requires s == INITIAL.(threads := map[1 := Started, 2 := Started], used := {0, 1, 2})
    ensures Runs(Next, s, CrossedSwaps())
    ensures var e := Exec(Next, s, CrossedSwaps());
            !e.down && e.threads == map[] && e.http == 2 && e.grpc == 1 && e.stops[1] == 1
  {
    var s1 := Apply(s, SwapHttp(1));
    assert s1.threads == map[1 := Swapped(0), 2 := Started];
    var s2 := Apply(s1, SwapHttp(2));
    assert s2.threads == map[1 := Swapped(0), 2 := Swapped(1)];
    var s3 := Apply(s2, SwapGrpc(2));
    assert s3.threads == map[1 := Swapped(0), 2 := Published(1)];
    var s4 := Apply(s3, SwapGrpc(1));
    assert s4.threads == map[1 := Published(0), 2 := Published(1)];
    var s5 := Apply(s4, StopOld(1));
    assert s5.threads == map[2 := Published(1)];
    var s6 := Apply(s5, StopOld(2));
    assert s6.threads == map[];
    OneStep(Next, s5, StopOld(2), []);
    OneStep(Next, s4, StopOld(1), [StopOld(2)] + []);
    OneStep(Next, s3, SwapGrpc(1), [StopOld(1)] + ([StopOld(2)] + []));
    OneStep(Next, s2, SwapGrpc(2), [SwapGrpc(1)] + ([StopOld(1)] + ([StopOld(2)] + [])));
    OneStep(Next, s1, SwapHttp(2), [SwapGrpc(2)] + ([SwapGrpc(1)] + ([StopOld(1)] + ([StopOld(2)] + []))));
    OneStep(Next, s, SwapHttp(1),
            [SwapHttp(2)] + ([SwapGrpc(2)] + ([SwapGrpc(1)] + ([StopOld(1)] + ([StopOld(2)] + [])))));
  }

  /** Two overlapping reloads can leave the gRPC server with a stopped policy. */
  lemma OverlapStrandsGrpc()
    ensures var run := Prepare(1) + Prepare(2) + CrossedSwaps();
            && Runs(Next, INITIAL, run)
            && var s := Exec(Next, INITIAL, run);
               !s.down && s.threads == map[] && s.http == 2 && s.grpc == 1 && s.stops[s.grpc] == 1
  {
    Prepared(INITIAL, 1);
    var s1 := Exec(Next, INITIAL, Prepare(1));
    Prepared(s1, 2);
    RunsConcat(Next, INITIAL, Prepare(1), Prepare(2));
    var s2 := Exec(Next, s1, Prepare(2));
    assert s2.threads == map[1 := Started, 2 := Started];
    Crossed(s2);
    RunsConcat(Next, INITIAL, Prepare(1) + Prepare(2), CrossedSwaps());
  }

  // ------------------------------------------------ reloads that do not overlap

  /** Each reload begins only when none is in flight. */
  predicate Serial(s: State, run: seq<Step>)
    requires Runs(Next, s, run)
    decreases |run|
  {
    run == [] || ((run[0].Begin? ==> s.threads == map[]) && Serial(Apply(s, run[0]), run[1..]))
  }

  /** With one reload at a time the gRPC server lags the HTTP server by at most one step. */
  predicate InStep(s: State) {
    && (forall t, u :: t in s.threads && u in s.threads ==> t == u)
    && (forall t :: t in s.threads ==>
          match s.threads[t]
          case Swapped(prev) => s.http == t && s.grpc == prev
          case _ => s.grpc == s.http)
    && (s.threads == map[] ==> s.grpc == s.http)
  }

  lemma SerialStep(s: State, a: Step)
    requires Enabled(s, a) && Inv(s) && InStep(s) && (a.Begin? ==> s.threads == map[])
    ensures InStep(Apply(s, a))
  {
    var s' := Apply(s, a);
    if !a.Begin? && !a.Shutdown? {
      assert forall u :: u in s.threads ==> u == a.t;
      if a.LoadFails? || a.StartFails? || a.StopOld? {
        assert s'.threads == map[];
      } else {
        assert a.t in s'.threads;
      }
    }
  }

  lemma {:induction false} SerialRun(s: State, run: seq<Step>)
    requires Runs(Next, s, run) && Serial(s, run) && Inv(s) && InStep(s)
    ensures Inv(Exec(Next, s, run)) && InStep(Exec(Next, s, run))
    decreases |run|
  {
    if run != [] {
      StepKeepsInv(s, run[0]);
      SerialStep(s, run[0]);
      SerialRun(Apply(s, run[0]), run[1..]);
    }
  }

  /** If reloads do not overlap, the gRPC server never holds a stopped policy, at any moment before
      shutdown, and both servers agree whenever no reload is in flight. */
  lemma SerialReloadsAgree(run: seq<Step>)
    requires Runs(Next, INITIAL, run) && Serial(INITIAL, run)
    ensures var s := Exec(Next, INITIAL, run);
            !s.down ==> s.stops[s.grpc] == 0 && (s.threads == map[] ==> s.grpc == s.http)
  {
    assert Inv(INITIAL) && InStep(INITIAL);
    SerialRun(INITIAL, run);
    var s := Exec(Next, INITIAL, run);
    if !s.down && s.grpc != s.http {
      assert exists t :: t in s.threads && s.threads[t].Swapped?;
      var t :| t in s.threads && s.threads[t].Swapped?;
      assert Holds(s, t, s.grpc);
    }
  }
}
