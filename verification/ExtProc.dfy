// The ext-proc evaluator (Config.EvaluateProc, resolveMutations).
module ExtProc {
  import opened Prelude
  import opened Mutations
  import opened Policy
  import opened Authz

  predicate InPhase(g: Group, phase: Phase) {
    g.engine.ExtProc? && g.phase == phase
  }

  /** A group that can run with these variables. */
  predicate ProcReady(g: Group, vars: Vars) {
    ReadyGroup(g) && Bound(g, vars)
  }

  predicate CanResolve(m: Mutation, scope: Scope, vars: Vars) {
    ReadyMutation(m, scope) && (scope.ResponseScope? ==> vars.response.Some?)
  }

  function Plain(op: Op, rule: string, dry: bool): ResolvedMutation {
    ResolvedMutation(op, "", "", 0, 0, map[], "", rule, dry)
  }

  /** One mutation with its expressions evaluated; a failed evaluation drops it. */
  function Resolve(cel: Cel, m: Mutation, rule: string, dry: bool, scope: Scope, vars: Vars): Option<ResolvedMutation>
    requires CanResolve(m, scope, vars)
  {
    match m.op
    case DirectResponse =>
      var h, b := EvalStringMap(cel, m.headersProg, vars), EvalString(cel, m.bodyProg, vars);
      if h.None? || b.None? then None
      else Some(Plain(m.op, rule, dry).(respStatus := m.status, respHeaders := h.value, respBody := b.value))
    case SetStatus =>
      var c := EvalInt(cel, m.codeProg, vars);
      if c.None? then None else Some(Plain(m.op, rule, dry).(status := c.value))
    case RemoveHeader => Some(Plain(m.op, rule, dry).(name := m.name))
    case SetBody =>
      var v := EvalString(cel, m.valueProg, vars);
      if v.None? then None else Some(Plain(m.op, rule, dry).(value := v.value))
    case OtherOp(_) => None
    case _ =>
      var v := EvalString(cel, m.valueProg, vars);
      if v.None? then None else Some(Plain(m.op, rule, dry).(name := m.name, value := v.value))
  }

  function ResolveList(cel: Cel, ms: seq<Mutation>, rule: string, dry: bool, scope: Scope,
                       vars: Vars): seq<ResolvedMutation>
    requires forall i :: 0 <= i < |ms| ==> CanResolve(ms[i], scope, vars)
  {
    if ms == [] then []
    else
      var k := |ms| - 1;
      Push(ResolveList(cel, ms[..k], rule, dry, scope, vars), Resolve(cel, ms[k], rule, dry, scope, vars))
  }

  /** resolveMutations */
  method ResolveMutations(cel: Cel, ms: seq<Mutation>, rule: string, dry: bool, scope: Scope, vars: Vars)
    returns (list: seq<ResolvedMutation>)
    requires forall i :: 0 <= i < |ms| ==> CanResolve(ms[i], scope, vars)
    ensures list == ResolveList(cel, ms, rule, dry, scope, vars)
  {
    list := [];
    for i := 0 to |ms|
      invariant list == ResolveList(cel, ms[..i], rule, dry, scope, vars)
    {
      assert ms[..i + 1][..i] == ms[..i];
      var one := ResolveOne(cel, ms[i], rule, dry, scope, vars);
      if one.None? {
        continue;
      }
      list := list + [one.value];
    }
    assert ms[..|ms|] == ms;
  }

  /** The switch inside resolveMutations, evaluating expression by expression. */
  method ResolveOne(cel: Cel, m: Mutation, rule: string, dry: bool, scope: Scope, vars: Vars)
    returns (r: Option<ResolvedMutation>)
    requires CanResolve(m, scope, vars)
    ensures r == Resolve(cel, m, rule, dry, scope, vars)
  {
    var base := Plain(m.op, rule, dry);
    match m.op
    case DirectResponse =>
      var hdrs := EvalStringMap(cel, m.headersProg, vars);
      if hdrs.None? { return None; }
      var body := EvalString(cel, m.bodyProg, vars);
      if body.None? { return None; }
      r := Some(base.(respStatus := m.status, respHeaders := hdrs.value, respBody := body.value));
    case SetHeader =>
      var val := EvalString(cel, m.valueProg, vars);
      if val.None? { return None; }
      r := Some(base.(name := m.name, value := val.value));
    case AppendHeader =>
      var val := EvalString(cel, m.valueProg, vars);
      if val.None? { return None; }
      r := Some(base.(name := m.name, value := val.value));
    case SetBody =>
      var val := EvalString(cel, m.valueProg, vars);
      if val.None? { return None; }
      r := Some(base.(value := val.value));
    case SetStatus =>
      var code := EvalInt(cel, m.codeProg, vars);
      if code.None? { return None; }
      r := Some(base.(status := code.value));
    case RemoveHeader =>
      r := Some(base.(name := m.name));
    case OtherOp(_) =>
      r := None;
  }

  /** The mutations rule i contributes when it matches. */
  function RuleMutations(cel: Cel, g: Group, i: nat, vars: Vars): seq<ResolvedMutation>
    requires ReadyGroup(g) && Bound(g, vars) && i < |g.rules|
  {
    ResolveList(cel, g.rules[i].mutations, RuleName(g, i), g.rules[i].dryRun, ScopeOf(g), vars)
  }

  /** The first rule at or after i that evaluates to true; false and failing rules are passed over. */
  function FirstTrue(cel: Cel, g: Group, vars: Vars, i: nat): (k: nat)
    requires ReadyGroup(g) && Bound(g, vars) && i <= |g.rules|
    ensures i <= k <= |g.rules|
    ensures forall j :: i <= j < k ==> Outcome(cel, g, j, vars) != Some(true)
    ensures k < |g.rules| ==> Outcome(cel, g, k, vars) == Some(true)
    decreases |g.rules| - i
  {
    if i < |g.rules| && Outcome(cel, g, i, vars) != Some(true) then FirstTrue(cel, g, vars, i + 1) else i
  }

  /** Every true rule among the first n, in declaration order. */
  function TrueRules(cel: Cel, g: Group, vars: Vars, n: nat): seq<ResolvedMutation>
    requires ReadyGroup(g) && Bound(g, vars) && n <= |g.rules|
  {
    if n == 0 then []
    else TrueRules(cel, g, vars, n - 1) +
         if Outcome(cel, g, n - 1, vars) == Some(true) then RuleMutations(cel, g, n - 1, vars) else []
  }

  function GroupMutations(cel: Cel, g: Group, vars: Vars): seq<ResolvedMutation>
    requires ProcReady(g, vars)
  {
    if Guard(cel, g, vars) != Some(true) then []
    else if g.mode.FirstMatch? then
      var k := FirstTrue(cel, g, vars, 0);
      if k < |g.rules| then RuleMutations(cel, g, k, vars) else []
    else if g.mode.ApplyEvery? then TrueRules(cel, g, vars, |g.rules|)
    else []
  }

  /** Groups of the phase can run: the response is bound in response phases. */
  predicate AllProcReady(gs: seq<Group>, phase: Phase, vars: Vars) {
    forall i :: 0 <= i < |gs| && InPhase(gs[i], phase) ==> ProcReady(gs[i], vars)
  }

  function Contribution(cel: Cel, g: Group, phase: Phase, vars: Vars): seq<ResolvedMutation>
    requires InPhase(g, phase) ==> ProcReady(g, vars)
  {
    if InPhase(g, phase) then GroupMutations(cel, g, vars) else []
  }

  function PhaseMutations(cel: Cel, gs: seq<Group>, phase: Phase, vars: Vars): seq<ResolvedMutation>
    requires AllProcReady(gs, phase, vars)
  {
    if gs == [] then []
    else
      var k := |gs| - 1;
      PhaseMutations(cel, gs[..k], phase, vars) + Contribution(cel, gs[k], phase, vars)
  }

  /** One group of EvaluateProc: both mode loops. */
  method EvalProcGroup(cel: Cel, g: Group, vars: Vars) returns (list: seq<ResolvedMutation>)
    requires ProcReady(g, vars)
    ensures list == GroupMutations(cel, g, vars)
  {
    list := [];
    if g.guardProg.Some? {
      var ok := EvalBool(cel, g.guardProg, vars);
      if ok != Some(true) {
        return;
      }
    }
    if g.mode.FirstMatch? {
      var i := 0;
      while i < |g.rules|
        invariant 0 <= i <= |g.rules|
        invariant FirstTrue(cel, g, vars, 0) == FirstTrue(cel, g, vars, i)
      {
        var ok := EvalBool(cel, g.rules[i].matchProg, vars);
        if ok == Some(true) {
          list := ResolveMutations(cel, g.rules[i].mutations, g.name + "/" + g.rules[i].name,
                                   g.rules[i].dryRun, ScopeOf(g), vars);
          return;
        }
        i := i + 1;
      }
    } else if g.mode.ApplyEvery? {
      for i := 0 to |g.rules|
        invariant list == TrueRules(cel, g, vars, i)
      {
        var ok := EvalBool(cel, g.rules[i].matchProg, vars);
        if ok != Some(true) {
          continue;
        }
        var more := ResolveMutations(cel, g.rules[i].mutations, g.name + "/" + g.rules[i].name,
                                     g.rules[i].dryRun, ScopeOf(g), vars);
        list := list + more;
      }
    }
  }

  /** The variables of one evaluation: the response is bound only in response phases. */
  function PhaseVars(phase: Phase, req: Request, resp: Option<Response>, facts: map<string, string>): Vars {
    Vars(req, if IsResponsePhase(phase) then resp else None, facts)
  }

  lemma AcceptedProcReady(d: Defaults, gs: seq<Group>, phase: Phase, req: Request, resp: Option<Response>,
                          facts: map<string, string>)
    requires Accepted(d, gs) && (IsResponsePhase(phase) ==> resp.Some?)
    ensures AllProcReady(gs, phase, PhaseVars(phase, req, resp, facts))
  {
  }

  lemma PhaseStep(cel: Cel, gs: seq<Group>, phase: Phase, vars: Vars, i: nat)
    requires AllProcReady(gs, phase, vars) && i < |gs|
    ensures AllProcReady(gs[..i], phase, vars) && AllProcReady(gs[..i + 1], phase, vars)
    ensures PhaseMutations(cel, gs[..i + 1], phase, vars) ==
            PhaseMutations(cel, gs[..i], phase, vars) + Contribution(cel, gs[i], phase, vars)
  {
    assert gs[..i + 1][..i] == gs[..i];
  }

  /** EvaluateProc: an accepted policy never runs a missing program, nor a response-scope
      program without a response. */
  method EvaluateProc(cel: Cel, d: Defaults, gs: seq<Group>, phase: Phase,
                      req: Option<Request>, resp: Option<Response>, facts: map<string, string>)
    returns (resolved: seq<ResolvedMutation>)
    requires Accepted(d, gs) && (IsResponsePhase(phase) ==> resp.Some?)
    ensures req.None? ==> resolved == []
    ensures req.Some? ==>
              && AllProcReady(gs, phase, PhaseVars(phase, req.value, resp, facts))
              && resolved == PhaseMutations(cel, gs, phase, PhaseVars(phase, req.value, resp, facts))
  {
    resolved := [];
    if req.None? {
      return;
    }
    var vars := PhaseVars(phase, req.value, resp, facts);
    AcceptedProcReady(d, gs, phase, req.value, resp, facts);
    for i := 0 to |gs|
      invariant AllProcReady(gs[..i], phase, vars)
      invariant resolved == PhaseMutations(cel, gs[..i], phase, vars)
    {
      PhaseStep(cel, gs, phase, vars, i);
      if !(gs[i].engine == ExtProc && gs[i].phase == phase) {
        continue;
      }
      var more := EvalProcGroup(cel, gs[i], vars);
      resolved := resolved + more;
    }
    assert gs[..|gs|] == gs;
  }

  // ------------------------------------------------- nothing goes wrong

  /** Every program resolveMutations would run for m can run. */
  predicate MutationRunnable(m: Mutation, vars: Vars) {
    match m.op
    case DirectResponse => Runnable(m.headersProg, StringMapKind, vars) && Runnable(m.bodyProg, StringKind, vars)
    case SetStatus => Runnable(m.codeProg, IntKind, vars)
    case SetHeader => Runnable(m.valueProg, StringKind, vars)
    case AppendHeader => Runnable(m.valueProg, StringKind, vars)
    case SetBody => Runnable(m.valueProg, StringKind, vars)
    case _ => true
  }

  /** In an accepted policy every program either engine reaches exists, has the right type and
      finds its variables bound, and every ext-authz rule has its validation block. */
  lemma AcceptedNeverGoesWrong(d: Defaults, gs: seq<Group>, i: nat, j: nat, vars: Vars)
    requires Accepted(d, gs) && i < |gs| && j < |gs[i].rules|
    requires gs[i].engine.ExtProc? && IsResponsePhase(gs[i].phase) ==> vars.response.Some?
    ensures gs[i].guardProg.Some? ==> Runnable(gs[i].guardProg, BoolKind, vars)
    ensures Runnable(gs[i].rules[j].matchProg, BoolKind, vars)
    ensures gs[i].engine.ExtAuthz? ==> gs[i].rules[j].validation.Some?
    ensures forall k :: 0 <= k < |gs[i].rules[j].mutations| ==> MutationRunnable(gs[i].rules[j].mutations[k], vars)
  {
    var g, r := gs[i], gs[i].rules[j];
    assert WellFormedGroup(g) && ReadyGroup(g);
    assert WellFormedRule(r, g.engine, g.mode, g.phase) && ReadyRule(r, ScopeOf(g));
    forall k | 0 <= k < |r.mutations|
      ensures MutationRunnable(r.mutations[k], vars)
    {
      assert ReadyMutation(r.mutations[k], ScopeOf(g));
    }
  }

  // ------------------------------------------------------------- legality

  /** What a resolved mutation may be in a phase. */
  predicate Legal(m: ResolvedMutation, phase: Phase) {
    && !m.op.OtherOp?
    && (m.op.DirectResponse? ==> phase in {ResponseHeaders, ResponseBody} && 1 <= m.respStatus <= 599)
    && (m.op.SetBody? ==> phase in {RequestBody, ResponseBody})
    && (m.op.SetStatus? ==> phase in {ResponseHeaders, ResponseBody})
  }

  predicate AllLegal(ms: seq<ResolvedMutation>, phase: Phase) {
    forall i :: 0 <= i < |ms| ==> Legal(ms[i], phase)
  }

  lemma ResolveLegal(cel: Cel, m: Mutation, rule: string, dry: bool, scope: Scope, vars: Vars, phase: Phase)
    requires CanResolve(m, scope, vars) && WellFormedMutation(m, phase)
    ensures var r := Resolve(cel, m, rule, dry, scope, vars); r.Some? ==> r.value.op == m.op && Legal(r.value, phase)
  {
  }

  lemma {:induction false} ResolvedLegal(cel: Cel, ms: seq<Mutation>, rule: string, dry: bool, scope: Scope,
                                         vars: Vars, phase: Phase)
    requires forall i :: 0 <= i < |ms| ==> CanResolve(ms[i], scope, vars) && WellFormedMutation(ms[i], phase)
    ensures AllLegal(ResolveList(cel, ms, rule, dry, scope, vars), phase)
    ensures |ResolveList(cel, ms, rule, dry, scope, vars)| <= |ms|
    ensures !HasDirect(ms) ==> NoDirect(ResolveList(cel, ms, rule, dry, scope, vars))
  {
    if ms != [] {
      var k := |ms| - 1;
      ResolvedLegal(cel, ms[..k], rule, dry, scope, vars, phase);
      ResolveLegal(cel, ms[k], rule, dry, scope, vars, phase);
    }
  }

  predicate NoDirect(ms: seq<ResolvedMutation>) {
    forall i :: 0 <= i < |ms| ==> !ms[i].op.DirectResponse?
  }

  /** A rule's resolved mutations are legal in its phase, and a directResponse stands alone. */
  lemma RuleLegal(cel: Cel, g: Group, i: nat, vars: Vars)
    requires g.engine.ExtProc? && WellFormedGroup(g) && ProcReady(g, vars) && i < |g.rules|
    ensures AllLegal(RuleMutations(cel, g, i, vars), g.phase)
    ensures NoDirect(RuleMutations(cel, g, i, vars)) || |RuleMutations(cel, g, i, vars)| == 1
  {
    var r := g.rules[i];
    assert WellFormedRule(r, g.engine, g.mode, g.phase);
    ResolvedLegal(cel, r.mutations, RuleName(g, i), r.dryRun, ScopeOf(g), vars, g.phase);
  }

  lemma {:induction false} TrueRulesLegal(cel: Cel, g: Group, vars: Vars, n: nat)
    requires g.engine.ExtProc? && WellFormedGroup(g) && ProcReady(g, vars) && n <= |g.rules|
    ensures AllLegal(TrueRules(cel, g, vars, n), g.phase)
  {
    if n > 0 {
      TrueRulesLegal(cel, g, vars, n - 1);
      RuleLegal(cel, g, n - 1, vars);
    }
  }

  lemma GroupLegal(cel: Cel, g: Group, vars: Vars)
    requires g.engine.ExtProc? && WellFormedGroup(g) && ProcReady(g, vars)
    ensures AllLegal(GroupMutations(cel, g, vars), g.phase)
  {
    TrueRulesLegal(cel, g, vars, |g.rules|);
    var k := FirstTrue(cel, g, vars, 0);
    if k < |g.rules| {
      RuleLegal(cel, g, k, vars);
    }
  }

  /** Everything a phase resolves is legal in that phase. */
  lemma {:induction false} PhaseLegal(cel: Cel, gs: seq<Group>, phase: Phase, vars: Vars)
    requires AllProcReady(gs, phase, vars)
    requires forall i :: 0 <= i < |gs| ==> WellFormedGroup(gs[i])
    ensures AllLegal(PhaseMutations(cel, gs, phase, vars), phase)
  {
    if gs != [] {
      var k := |gs| - 1;
      PhaseLegal(cel, gs[..k], phase, vars);
      if InPhase(gs[k], phase) {
        GroupLegal(cel, gs[k], vars);
      }
    }
  }

  // ------------------------------------------------------ phase isolation

  function PhaseGroups(gs: seq<Group>, phase: Phase): seq<Group> {
    if gs == [] then []
    else
      var k := |gs| - 1;
      Push(PhaseGroups(gs[..k], phase), if InPhase(gs[k], phase) then Some(gs[k]) else None)
  }

  lemma ReadyConcat(gs: seq<Group>, hs: seq<Group>, phase: Phase, vars: Vars)
    requires AllProcReady(gs, phase, vars) && AllProcReady(hs, phase, vars)
    ensures AllProcReady(gs + hs, phase, vars)
  {
  }

  /** Evaluation over two concatenated group lists is the concatenation of the results. */
  lemma {:induction false} PhaseConcat(cel: Cel, gs: seq<Group>, hs: seq<Group>, phase: Phase, vars: Vars)
    requires AllProcReady(gs, phase, vars) && AllProcReady(hs, phase, vars)
    ensures AllProcReady(gs + hs, phase, vars)
    ensures PhaseMutations(cel, gs + hs, phase, vars) ==
            PhaseMutations(cel, gs, phase, vars) + PhaseMutations(cel, hs, phase, vars)
    decreases |hs|
  {
    var all := gs + hs;
    ReadyConcat(gs, hs, phase, vars);
    if hs == [] {
      assert all == gs;
    } else {
      var k := |hs| - 1;
      PhaseConcat(cel, gs, hs[..k], phase, vars);
      ConcatLast(gs, hs);
      PhaseUnfold(cel, all, phase, vars);
      PhaseUnfold(cel, hs, phase, vars);
      ConcatAssociates(PhaseMutations(cel, gs, phase, vars), PhaseMutations(cel, hs[..k], phase, vars),
                       Contribution(cel, hs[k], phase, vars));
    }
  }

  lemma ConcatLast(gs: seq<Group>, hs: seq<Group>)
    requires hs != []
    ensures (gs + hs)[..|gs + hs| - 1] == gs + hs[..|hs| - 1]
    ensures (gs + hs)[|gs + hs| - 1] == hs[|hs| - 1]
  {
  }

  lemma PhaseUnfold(cel: Cel, gs: seq<Group>, phase: Phase, vars: Vars)
    requires AllProcReady(gs, phase, vars) && gs != []
    ensures AllProcReady(gs[..|gs| - 1], phase, vars)
    ensures PhaseMutations(cel, gs, phase, vars) ==
            PhaseMutations(cel, gs[..|gs| - 1], phase, vars) + Contribution(cel, gs[|gs| - 1], phase, vars)
  {
  }

  lemma {:induction false} PhaseGroupsDecide(cel: Cel, gs: seq<Group>, phase: Phase, vars: Vars)
    requires AllProcReady(gs, phase, vars)
    ensures AllProcReady(PhaseGroups(gs, phase), phase, vars)
    ensures PhaseMutations(cel, gs, phase, vars) == PhaseMutations(cel, PhaseGroups(gs, phase), phase, vars)
  {
    if gs != [] {
      var k := |gs| - 1;
      PhaseGroupsDecide(cel, gs[..k], phase, vars);
      var ps := PhaseGroups(gs[..k], phase);
      if InPhase(gs[k], phase) {
        assert (ps + [gs[k]])[..|ps|] == ps;
      }
    }
  }

  /** Groups of the other engine or of another phase, anywhere in the list, have no influence. */
  lemma PhaseIsolated(cel: Cel, gs: seq<Group>, hs: seq<Group>, phase: Phase, vars: Vars)
    requires AllProcReady(gs, phase, vars) && AllProcReady(hs, phase, vars)
    requires PhaseGroups(gs, phase) == PhaseGroups(hs, phase)
    ensures PhaseMutations(cel, gs, phase, vars) == PhaseMutations(cel, hs, phase, vars)
  {
    PhaseGroupsDecide(cel, gs, phase, vars);
    PhaseGroupsDecide(cel, hs, phase, vars);
  }
}
