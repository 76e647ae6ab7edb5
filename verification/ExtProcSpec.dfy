// A declarative account of extProc evaluation: which mutation of which rule of
// which group contributes, and in which order, without any loop.
module ExtProcSpec {
  import opened Prelude
  import opened Mutations
  import opened Policy
  import opened Authz
  import opened ExtProc

  /** A declared mutation: the op-th of the rule-th rule of the group-th group. */
  datatype Origin = Origin(group: nat, rule: nat, op: nat)

  /** Declaration order. */
  predicate Before(a: Origin, b: Origin) {
    a.group < b.group || (a.group == b.group && (a.rule < b.rule || (a.rule == b.rule && a.op < b.op)))
  }

  /** The rule's mutations are applied: it is true and, under firstMatch, no earlier rule is. */
  predicate RuleApplies(cel: Cel, g: Group, i: nat, vars: Vars)
    requires ProcReady(g, vars) && i < |g.rules|
  {
    && Outcome(cel, g, i, vars) == Some(true)
    && (g.mode.ApplyEvery? ||
        (g.mode.FirstMatch? && forall j :: 0 <= j < i ==> Outcome(cel, g, j, vars) != Some(true)))
  }

  /** What a declared mutation contributes to a phase, if anything. */
  function ContributionOf(cel: Cel, gs: seq<Group>, phase: Phase, vars: Vars, o: Origin): Option<ResolvedMutation>
    requires AllProcReady(gs, phase, vars)
  {
    if o.group < |gs| && InPhase(gs[o.group], phase) then InGroup(cel, gs[o.group], vars, o) else None
  }

  function InGroup(cel: Cel, g: Group, vars: Vars, o: Origin): Option<ResolvedMutation>
    requires ProcReady(g, vars)
  {
    if Guard(cel, g, vars) == Some(true) && o.rule < |g.rules| && RuleApplies(cel, g, o.rule, vars)
    then InRule(cel, g, vars, o) else None
  }

  function InRule(cel: Cel, g: Group, vars: Vars, o: Origin): Option<ResolvedMutation>
    requires ProcReady(g, vars) && o.rule < |g.rules|
  {
    var r := g.rules[o.rule];
    if o.op < |r.mutations|
    then Resolve(cel, r.mutations[o.op], RuleName(g, o.rule), r.dryRun, ScopeOf(g), vars) else None
  }

  /** o lies in the half-open stretch of declaration order from lo to hi. */
  predicate Within(lo: Origin, hi: Origin, o: Origin) {
    !Before(o, lo) && Before(o, hi)
  }

  /** ms lists, in declaration order and each once, exactly the contributions of a stretch of the
      policy; os says where each comes from. */
  ghost predicate Explains(cel: Cel, gs: seq<Group>, phase: Phase, vars: Vars, lo: Origin, hi: Origin,
                           os: seq<Origin>, ms: seq<ResolvedMutation>)
    requires AllProcReady(gs, phase, vars)
  {
    && |os| == |ms|
    && (forall k :: 0 <= k < |os| ==>
          Within(lo, hi, os[k]) && ContributionOf(cel, gs, phase, vars, os[k]) == Some(ms[k]))
    && Ordered(os)
    && (forall o :: Within(lo, hi, o) && ContributionOf(cel, gs, phase, vars, o).Some? ==> o in os)
  }

  /** The listed origins are in declaration order. */
  predicate Ordered(os: seq<Origin>) {
    forall k, l :: 0 <= k < l < |os| ==> Before(os[k], os[l])
  }

  lemma OrderedConcat(lo: Origin, mid: Origin, hi: Origin, os: seq<Origin>, ps: seq<Origin>)
    requires Ordered(os) && Ordered(ps) && !Before(mid, lo) && !Before(hi, mid)
    requires forall k :: 0 <= k < |os| ==> Within(lo, mid, os[k])
    requires forall k :: 0 <= k < |ps| ==> Within(mid, hi, ps[k])
    ensures Ordered(os + ps)
    ensures forall k :: 0 <= k < |os + ps| ==> Within(lo, hi, (os + ps)[k])
  {
  }

  lemma ExplainsConcat(cel: Cel, gs: seq<Group>, phase: Phase, vars: Vars, lo: Origin, mid: Origin, hi: Origin,
                       os: seq<Origin>, ms: seq<ResolvedMutation>, ps: seq<Origin>, ns: seq<ResolvedMutation>)
    requires AllProcReady(gs, phase, vars) && !Before(mid, lo) && !Before(hi, mid)
    requires Explains(cel, gs, phase, vars, lo, mid, os, ms) && Explains(cel, gs, phase, vars, mid, hi, ps, ns)
    ensures Explains(cel, gs, phase, vars, lo, hi, os + ps, ms + ns)
  {
    OrderedConcat(lo, mid, hi, os, ps);
    forall o | Within(lo, hi, o) && ContributionOf(cel, gs, phase, vars, o).Some?
      ensures o in os + ps
    {
      assert Within(lo, mid, o) || Within(mid, hi, o);
    }
  }

  lemma ExplainsNothing(cel: Cel, gs: seq<Group>, phase: Phase, vars: Vars, lo: Origin, hi: Origin)
    requires AllProcReady(gs, phase, vars)
    requires forall o :: Within(lo, hi, o) ==> ContributionOf(cel, gs, phase, vars, o).None?
    ensures Explains(cel, gs, phase, vars, lo, hi, [], [])
  {
  }

  /** Group `at` runs in the phase and rule i of it applies. */
  predicate Applies(cel: Cel, gs: seq<Group>, phase: Phase, vars: Vars, at: nat, i: nat)
    requires AllProcReady(gs, phase, vars)
  {
    && at < |gs| && InPhase(gs[at], phase) && Guard(cel, gs[at], vars) == Some(true)
    && i < |gs[at].rules| && RuleApplies(cel, gs[at], i, vars)
  }

  lemma {:induction false} ExplainOps(cel: Cel, gs: seq<Group>, phase: Phase, vars: Vars, at: nat, i: nat, n: nat)
    returns (os: seq<Origin>)
    requires AllProcReady(gs, phase, vars) && Applies(cel, gs, phase, vars, at, i)
    requires n <= |gs[at].rules[i].mutations|
    ensures var r := gs[at].rules[i];
            Explains(cel, gs, phase, vars, Origin(at, i, 0), Origin(at, i, n), os,
                     ResolveList(cel, r.mutations[..n], RuleName(gs[at], i), r.dryRun, ScopeOf(gs[at]), vars))
  {
    if n == 0 {
      os := [];
    } else {
      var k, r := n - 1, gs[at].rules[i];
      os := ExplainOps(cel, gs, phase, vars, at, i, k);
      var here := Origin(at, i, k);
      var m := Resolve(cel, r.mutations[k], RuleName(gs[at], i), r.dryRun, ScopeOf(gs[at]), vars);
      assert r.mutations[..n][..k] == r.mutations[..k];
      assert ContributionOf(cel, gs, phase, vars, here) == m;
      assert forall o :: Within(here, Origin(at, i, n), o) <==> o == here;
      var last, lastMs := if m.Some? then [here] else [], if m.Some? then [m.value] else [];
      var init := ResolveList(cel, r.mutations[..k], RuleName(gs[at], i), r.dryRun, ScopeOf(gs[at]), vars);
      ExplainsConcat(cel, gs, phase, vars, Origin(at, i, 0), here, Origin(at, i, n), os, init, last, lastMs);
      assert init + lastMs == Push(init, m);
      os := os + last;
    }
  }

  /** The mutations of one rule, if it applies. */
  function OfRule(cel: Cel, gs: seq<Group>, phase: Phase, vars: Vars, at: nat, i: nat): seq<ResolvedMutation>
    requires AllProcReady(gs, phase, vars)
  {
    if Applies(cel, gs, phase, vars, at, i) then RuleMutations(cel, gs[at], i, vars) else []
  }

  lemma ExplainRule(cel: Cel, gs: seq<Group>, phase: Phase, vars: Vars, at: nat, i: nat) returns (os: seq<Origin>)
    requires AllProcReady(gs, phase, vars)
    ensures Explains(cel, gs, phase, vars, Origin(at, i, 0), Origin(at, i + 1, 0), os,
                     OfRule(cel, gs, phase, vars, at, i))
  {
    if Applies(cel, gs, phase, vars, at, i) {
      var ms := gs[at].rules[i].mutations;
      os := ExplainOps(cel, gs, phase, vars, at, i, |ms|);
      assert ms[..|ms|] == ms;
      ExplainsNothing(cel, gs, phase, vars, Origin(at, i, |ms|), Origin(at, i + 1, 0));
      var all := OfRule(cel, gs, phase, vars, at, i);
      ExplainsConcat(cel, gs, phase, vars, Origin(at, i, 0), Origin(at, i, |ms|), Origin(at, i + 1, 0),
                     os, all, [], []);
      assert os + [] == os && all + [] == all;
    } else {
      os := [];
      ExplainsNothing(cel, gs, phase, vars, Origin(at, i, 0), Origin(at, i + 1, 0));
    }
  }

  /** The applied mutations of the first n rules of one group. */
  function OfRules(cel: Cel, gs: seq<Group>, phase: Phase, vars: Vars, at: nat, n: nat): seq<ResolvedMutation>
    requires AllProcReady(gs, phase, vars)
  {
    if n == 0 then [] else OfRules(cel, gs, phase, vars, at, n - 1) + OfRule(cel, gs, phase, vars, at, n - 1)
  }

  lemma {:induction false} ExplainRules(cel: Cel, gs: seq<Group>, phase: Phase, vars: Vars, at: nat, n: nat)
    returns (os: seq<Origin>)
    requires AllProcReady(gs, phase, vars)
    ensures Explains(cel, gs, phase, vars, Origin(at, 0, 0), Origin(at, n, 0), os, OfRules(cel, gs, phase, vars, at, n))
  {
    if n == 0 {
      os := [];
    } else {
      os := ExplainRules(cel, gs, phase, vars, at, n - 1);
      var ps := ExplainRule(cel, gs, phase, vars, at, n - 1);
      ExplainsConcat(cel, gs, phase, vars, Origin(at, 0, 0), Origin(at, n - 1, 0), Origin(at, n, 0),
                     os, OfRules(cel, gs, phase, vars, at, n - 1), ps, OfRule(cel, gs, phase, vars, at, n - 1));
      os := os + ps;
    }
  }

  /** No rule of the group applies: wrong phase, or a guard that is not true. */
  lemma {:induction false} IdleGroup(cel: Cel, gs: seq<Group>, phase: Phase, vars: Vars, at: nat, n: nat)
    requires AllProcReady(gs, phase, vars) && at < |gs|
    requires InPhase(gs[at], phase) ==> Guard(cel, gs[at], vars) != Some(true)
    ensures OfRules(cel, gs, phase, vars, at, n) == []
  {
    if n > 0 {
      IdleGroup(cel, gs, phase, vars, at, n - 1);
    }
  }

  lemma {:induction false} EveryRule(cel: Cel, gs: seq<Group>, phase: Phase, vars: Vars, at: nat, n: nat)
    requires AllProcReady(gs, phase, vars) && at < |gs| && InPhase(gs[at], phase)
    requires Guard(cel, gs[at], vars) == Some(true) && gs[at].mode.ApplyEvery? && n <= |gs[at].rules|
    ensures OfRules(cel, gs, phase, vars, at, n) == TrueRules(cel, gs[at], vars, n)
  {
    if n > 0 {
      EveryRule(cel, gs, phase, vars, at, n - 1);
    }
  }

  lemma {:induction false} FirstRule(cel: Cel, gs: seq<Group>, phase: Phase, vars: Vars, at: nat, n: nat)
    requires AllProcReady(gs, phase, vars) && at < |gs| && InPhase(gs[at], phase)
    requires Guard(cel, gs[at], vars) == Some(true) && gs[at].mode.FirstMatch? && n <= |gs[at].rules|
    ensures var k := FirstTrue(cel, gs[at], vars, 0);
            OfRules(cel, gs, phase, vars, at, n) == if k < n then RuleMutations(cel, gs[at], k, vars) else []
  {
    if n > 0 {
      FirstRule(cel, gs, phase, vars, at, n - 1);
      var k := FirstTrue(cel, gs[at], vars, 0);
      assert Applies(cel, gs, phase, vars, at, n - 1) <==> k == n - 1;
    }
  }

  lemma ModeOther(cel: Cel, gs: seq<Group>, phase: Phase, vars: Vars, at: nat, n: nat)
    requires AllProcReady(gs, phase, vars) && at < |gs| && !gs[at].mode.ApplyEvery? && !gs[at].mode.FirstMatch?
    ensures OfRules(cel, gs, phase, vars, at, n) == []
  {
    if n > 0 {
      ModeOther(cel, gs, phase, vars, at, n - 1);
    }
  }

  /** What the evaluator collects from a group is what its applied rules contribute. */
  lemma GroupIsRules(cel: Cel, gs: seq<Group>, phase: Phase, vars: Vars, at: nat)
    requires AllProcReady(gs, phase, vars) && at < |gs|
    ensures Contribution(cel, gs[at], phase, vars) == OfRules(cel, gs, phase, vars, at, |gs[at].rules|)
  {
    var g, n := gs[at], |gs[at].rules|;
    if !InPhase(g, phase) || Guard(cel, g, vars) != Some(true) {
      IdleGroup(cel, gs, phase, vars, at, n);
    } else if g.mode.ApplyEvery? {
      EveryRule(cel, gs, phase, vars, at, n);
    } else if g.mode.FirstMatch? {
      FirstRule(cel, gs, phase, vars, at, n);
    } else {
      ModeOther(cel, gs, phase, vars, at, n);
    }
  }

  lemma ExplainGroup(cel: Cel, gs: seq<Group>, phase: Phase, vars: Vars, at: nat) returns (os: seq<Origin>)
    requires AllProcReady(gs, phase, vars) && at < |gs|
    ensures Explains(cel, gs, phase, vars, Origin(at, 0, 0), Origin(at + 1, 0, 0), os,
                     Contribution(cel, gs[at], phase, vars))
  {
    var n, ms := |gs[at].rules|, Contribution(cel, gs[at], phase, vars);
    GroupIsRules(cel, gs, phase, vars, at);
    os := ExplainRules(cel, gs, phase, vars, at, n);
    ExplainsNothing(cel, gs, phase, vars, Origin(at, n, 0), Origin(at + 1, 0, 0));
    ExplainsConcat(cel, gs, phase, vars, Origin(at, 0, 0), Origin(at, n, 0), Origin(at + 1, 0, 0), os, ms, [], []);
    assert os + [] == os && ms + [] == ms;
  }

  lemma {:induction false} ExplainGroups(cel: Cel, gs: seq<Group>, phase: Phase, vars: Vars, n: nat)
    returns (os: seq<Origin>)
    requires AllProcReady(gs, phase, vars) && n <= |gs|
    ensures AllProcReady(gs[..n], phase, vars)
    ensures Explains(cel, gs, phase, vars, Origin(0, 0, 0), Origin(n, 0, 0), os,
                     PhaseMutations(cel, gs[..n], phase, vars))
  {
    if n == 0 {
      os := [];
    } else {
      os := ExplainGroups(cel, gs, phase, vars, n - 1);
      var ps := ExplainGroup(cel, gs, phase, vars, n - 1);
      PhaseStep(cel, gs, phase, vars, n - 1);
      ExplainsConcat(cel, gs, phase, vars, Origin(0, 0, 0), Origin(n - 1, 0, 0), Origin(n, 0, 0),
                     os, PhaseMutations(cel, gs[..n - 1], phase, vars), ps, Contribution(cel, gs[n - 1], phase, vars));
      os := os + ps;
    }
  }

  /** The contributions of a phase, each at its place of declaration. */
  lemma PhaseListed(cel: Cel, gs: seq<Group>, phase: Phase, vars: Vars) returns (os: seq<Origin>)
    requires AllProcReady(gs, phase, vars)
    ensures var ms := PhaseMutations(cel, gs, phase, vars);
            && |os| == |ms|
            && (forall k :: 0 <= k < |os| ==> ContributionOf(cel, gs, phase, vars, os[k]) == Some(ms[k]))
            && (forall k, l :: 0 <= k < l < |os| ==> Before(os[k], os[l]))
            && (forall o :: ContributionOf(cel, gs, phase, vars, o).Some? ==> o in os)
  {
    os := ExplainGroups(cel, gs, phase, vars, |gs|);
    assert gs[..|gs|] == gs;
    assert forall o :: ContributionOf(cel, gs, phase, vars, o).Some? ==> Within(Origin(0, 0, 0), Origin(|gs|, 0, 0), o);
  }

  // ---------------------------- the same, from the declared expressions alone

  /** A program over one of the group's expressions: the response is visible in response phases. */
  function Declared(g: Group, kind: Kind, src: string): Program {
    Program(if g.phase == ResponseHeaders || g.phase == ResponseBody then ResponseScope else RequestScope, kind, src)
  }

  /** The guard is blank or true, as far as it can be evaluated. */
  predicate GuardTrue(cel: Cel, g: Group, vars: Vars) {
    Blank(g.guard) || cel.evalBool(Declared(g, BoolKind, g.guard), vars) == Some(true)
  }

  predicate RuleTrue(cel: Cel, g: Group, i: nat, vars: Vars)
    requires i < |g.rules|
  {
    cel.evalBool(Declared(g, BoolKind, g.rules[i].source), vars) == Some(true)
  }

  /** The place of declaration exists. */
  predicate Exists(gs: seq<Group>, o: Origin) {
    && o.group < |gs| && o.rule < |gs[o.group].rules|
    && o.op < |gs[o.group].rules[o.rule].mutations|
  }

  /** The mutation declared there is called for: its group is an extProc group of the phase with a true
      guard, and its rule is true and, under firstMatch, the first true one. */
  predicate CalledFor(cel: Cel, gs: seq<Group>, phase: Phase, vars: Vars, o: Origin) {
    Exists(gs, o) &&
    var g := gs[o.group];
    && g.engine == Policy.ExtProc && g.phase == phase && GuardTrue(cel, g, vars) && RuleTrue(cel, g, o.rule, vars)
    && (|| g.mode == ApplyEvery
        || (g.mode == FirstMatch && forall j :: 0 <= j < o.rule ==> !RuleTrue(cel, g, j, vars)))
  }

  /** One of the expressions of the mutation cannot be evaluated (or its op is unknown). */
  predicate SomeExpressionFails(cel: Cel, g: Group, m: Mutation, vars: Vars) {
    match m.op
    case DirectResponse =>
      || cel.evalStringMap(Declared(g, StringMapKind, m.headers), vars) == None
      || cel.evalString(Declared(g, StringKind, m.body), vars) == None
    case SetStatus => cel.evalInt(Declared(g, IntKind, m.code), vars) == None
    case RemoveHeader => false
    case OtherOp(_) => true
    case _ => cel.evalString(Declared(g, StringKind, m.value), vars) == None
  }

  /** x is mutation m of rule r, field by field: the declared op, header name and status, the rule's name
      and dry-run flag, and what the declared expressions evaluate to; fields of other ops are empty. */
  predicate IsResult(cel: Cel, g: Group, r: Rule, m: Mutation, vars: Vars, x: ResolvedMutation) {
    && x.op == m.op && x.rule == g.name + "/" + r.name && x.dryRun == r.dryRun
    && (if m.op in {SetHeader, AppendHeader, RemoveHeader} then x.name == m.name else x.name == "")
    && (if m.op in {SetHeader, AppendHeader, SetBody}
        then cel.evalString(Declared(g, StringKind, m.value), vars) == Some(x.value) else x.value == "")
    && (if m.op == SetStatus
        then cel.evalInt(Declared(g, IntKind, m.code), vars) == Some(x.status) else x.status == 0)
    && (if m.op == DirectResponse then
          && x.respStatus == m.status
          && cel.evalStringMap(Declared(g, StringMapKind, m.headers), vars) == Some(x.respHeaders)
          && cel.evalString(Declared(g, StringKind, m.body), vars) == Some(x.respBody)
        else x.respStatus == 0 && x.respHeaders == map[] && x.respBody == "")
  }

  lemma GroupDeclared(cel: Cel, g: Group, vars: Vars)
    requires ProcReady(g, vars) && g.engine == Policy.ExtProc
    ensures Guard(cel, g, vars) == Some(true) <==> GuardTrue(cel, g, vars)
    ensures forall i :: 0 <= i < |g.rules| ==> (Outcome(cel, g, i, vars) == Some(true) <==> RuleTrue(cel, g, i, vars))
  {
    assert forall i :: 0 <= i < |g.rules| ==> ReadyRule(g.rules[i], ScopeOf(g));
  }

  lemma ResolveDeclared(cel: Cel, g: Group, r: Rule, m: Mutation, vars: Vars)
    requires g.engine == Policy.ExtProc && CanResolve(m, ScopeOf(g), vars)
    ensures var x := Resolve(cel, m, g.name + "/" + r.name, r.dryRun, ScopeOf(g), vars);
            && (x.None? <==> SomeExpressionFails(cel, g, m, vars))
            && (x.Some? ==> IsResult(cel, g, r, m, vars, x.value))
  {
  }

  lemma ContributionDeclared(cel: Cel, gs: seq<Group>, phase: Phase, vars: Vars, o: Origin)
    requires AllProcReady(gs, phase, vars)
    ensures var x := ContributionOf(cel, gs, phase, vars, o);
            && (x.Some? ==> CalledFor(cel, gs, phase, vars, o))
            && (CalledFor(cel, gs, phase, vars, o) ==>
                  var g := gs[o.group];
                  var r := g.rules[o.rule];
                  && (x.None? <==> SomeExpressionFails(cel, g, r.mutations[o.op], vars))
                  && (x.Some? ==> IsResult(cel, g, r, r.mutations[o.op], vars, x.value)))
  {
    if o.group < |gs| && InPhase(gs[o.group], phase) {
      var g := gs[o.group];
      GroupDeclared(cel, g, vars);
      if Exists(gs, o) {
        assert ReadyRule(g.rules[o.rule], ScopeOf(g));
        ResolveDeclared(cel, g, g.rules[o.rule], g.rules[o.rule].mutations[o.op], vars);
      }
    }
  }

  /** The evaluation of a phase, from the declared expressions alone and without loops: its result lists,
      in declaration order and each exactly once, the mutations called for, field by field as declared
      and evaluated; exactly those with an expression that cannot be evaluated are missing. */
  lemma PhaseExplained(cel: Cel, gs: seq<Group>, phase: Phase, vars: Vars)
    requires AllProcReady(gs, phase, vars)
    ensures exists os: seq<Origin> ::
              var ms := PhaseMutations(cel, gs, phase, vars);
              && |os| == |ms|
              && (forall k, l :: 0 <= k < l < |os| ==> Before(os[k], os[l]))
              && (forall k :: 0 <= k < |os| ==>
                    && CalledFor(cel, gs, phase, vars, os[k])
                    && var g := gs[os[k].group];
                       IsResult(cel, g, g.rules[os[k].rule], g.rules[os[k].rule].mutations[os[k].op], vars, ms[k]))
              && (forall o :: CalledFor(cel, gs, phase, vars, o) ==>
                    var g := gs[o.group];
                    (o in os <==> !SomeExpressionFails(cel, g, g.rules[o.rule].mutations[o.op], vars)))
  {
    var os := PhaseListed(cel, gs, phase, vars);
    forall k | 0 <= k < |os| {
      ContributionDeclared(cel, gs, phase, vars, os[k]);
    }
    forall o | CalledFor(cel, gs, phase, vars, o)
      ensures var g := gs[o.group];
              (o in os <==> !SomeExpressionFails(cel, g, g.rules[o.rule].mutations[o.op], vars))
    {
      ContributionDeclared(cel, gs, phase, vars, o);
      if o in os {
        var k :| 0 <= k < |os| && os[k] == o;
        assert ContributionOf(cel, gs, phase, vars, os[k]).Some?;
      }
    }
  }
}
