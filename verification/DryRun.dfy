// Rules in dry-run: no mutation of such a rule reaches any reply of any run. Taking the
// mutations out of every dry-run rule of every policy leaves all replies unchanged.
module DryRun {
  import opened Prelude
  import opened Mutations
  import opened Policy
  import opened Authz
  import opened ExtProc
  import opened HttpServer
  import opened Stream

  function SilencedRule(r: Rule): Rule {
    if r.dryRun then r.(mutations := []) else r
  }

  /** The group without the mutations of its dry-run rules. */
  function Silenced(g: Group): Group {
    g.(rules := seq(|g.rules|, i requires 0 <= i < |g.rules| => SilencedRule(g.rules[i])))
  }

  function SilencedGroups(gs: seq<Group>): seq<Group> {
    seq(|gs|, i requires 0 <= i < |gs| => Silenced(gs[i]))
  }

  // ------------------------------------------------------------- one group

  lemma SilencedIsReady(g: Group, vars: Vars)
    requires ProcReady(g, vars)
    ensures ProcReady(Silenced(g), vars) && ScopeOf(Silenced(g)) == ScopeOf(g)
  {
    forall i | 0 <= i < |g.rules|
      ensures ReadyRule(Silenced(g).rules[i], ScopeOf(g))
    {
      assert ReadyRule(g.rules[i], ScopeOf(g));
    }
  }

  lemma {:induction false} LiveConcat(a: seq<ResolvedMutation>, b: seq<ResolvedMutation>)
    ensures Live(a + b, false) == Live(a, false) + Live(b, false)
    decreases |b|
  {
    if b == [] {
      assert a + b == a;
    } else {
      assert (a + b)[..|a + b| - 1] == a + b[..|b| - 1];
      LiveConcat(a, b[..|b| - 1]);
    }
  }

  lemma ResolveFlag(cel: Cel, m: Mutation, rule: string, dry: bool, scope: Scope, vars: Vars)
    requires CanResolve(m, scope, vars)
    ensures var r := Resolve(cel, m, rule, dry, scope, vars); r.Some? ==> r.value.dryRun == dry
  {
  }

  lemma LivePush(ms: seq<ResolvedMutation>, o: Option<ResolvedMutation>)
    ensures Live(Push(ms, o), false) ==
            if o.Some? && !o.value.dryRun then Live(ms, false) + [o.value] else Live(ms, false)
  {
    if o.Some? {
      assert (ms + [o.value])[..|ms|] == ms;
    }
  }

  /** Everything a rule resolves carries the rule's flag, so it is live as a whole or not at all. */
  lemma {:induction false} ResolvedLive(cel: Cel, ms: seq<Mutation>, rule: string, dry: bool, scope: Scope, vars: Vars)
    requires forall i :: 0 <= i < |ms| ==> CanResolve(ms[i], scope, vars)
    ensures var list := ResolveList(cel, ms, rule, dry, scope, vars);
            Live(list, false) == if dry then [] else list
  {
    if ms != [] {
      var k := |ms| - 1;
      ResolvedLive(cel, ms[..k], rule, dry, scope, vars);
      ResolveFlag(cel, ms[k], rule, dry, scope, vars);
      LivePush(ResolveList(cel, ms[..k], rule, dry, scope, vars), Resolve(cel, ms[k], rule, dry, scope, vars));
    }
  }

  lemma RuleSilenced(cel: Cel, g: Group, i: nat, vars: Vars)
    requires ProcReady(g, vars) && ProcReady(Silenced(g), vars) && i < |g.rules|
    ensures Live(RuleMutations(cel, g, i, vars), false) == RuleMutations(cel, Silenced(g), i, vars)
  {
    var r := g.rules[i];
    assert ReadyRule(r, ScopeOf(g));
    ResolvedLive(cel, r.mutations, RuleName(g, i), r.dryRun, ScopeOf(g), vars);
  }

  lemma {:induction false} FirstTrueSilenced(cel: Cel, g: Group, vars: Vars, i: nat)
    requires ProcReady(g, vars) && ProcReady(Silenced(g), vars) && i <= |g.rules|
    ensures FirstTrue(cel, Silenced(g), vars, i) == FirstTrue(cel, g, vars, i)
    decreases |g.rules| - i
  {
    if i < |g.rules| {
      FirstTrueSilenced(cel, g, vars, i + 1);
    }
  }

  /** What rule i contributes if it is true. */
  function IfTrue(cel: Cel, g: Group, i: nat, vars: Vars): seq<ResolvedMutation>
    requires ProcReady(g, vars) && i < |g.rules|
  {
    if Outcome(cel, g, i, vars) == Some(true) then RuleMutations(cel, g, i, vars) else []
  }

  lemma IfTrueSilenced(cel: Cel, g: Group, i: nat, vars: Vars)
    requires ProcReady(g, vars) && ProcReady(Silenced(g), vars) && i < |g.rules|
    ensures Live(IfTrue(cel, g, i, vars), false) == IfTrue(cel, Silenced(g), i, vars)
  {
    RuleSilenced(cel, g, i, vars);
  }

  lemma {:induction false} TrueRulesSilenced(cel: Cel, g: Group, vars: Vars, n: nat)
    requires ProcReady(g, vars) && ProcReady(Silenced(g), vars) && n <= |g.rules|
    ensures Live(TrueRules(cel, g, vars, n), false) == TrueRules(cel, Silenced(g), vars, n)
  {
    if n > 0 {
      TrueRulesSilenced(cel, g, vars, n - 1);
      IfTrueSilenced(cel, g, n - 1, vars);
      LiveConcat(TrueRules(cel, g, vars, n - 1), IfTrue(cel, g, n - 1, vars));
    }
  }

  lemma GroupSilenced(cel: Cel, g: Group, vars: Vars)
    requires ProcReady(g, vars)
    ensures ProcReady(Silenced(g), vars)
    ensures Live(GroupMutations(cel, g, vars), false) == GroupMutations(cel, Silenced(g), vars)
  {
    SilencedIsReady(g, vars);
    FirstTrueSilenced(cel, g, vars, 0);
    TrueRulesSilenced(cel, g, vars, |g.rules|);
    var k := FirstTrue(cel, g, vars, 0);
    if k < |g.rules| {
      RuleSilenced(cel, g, k, vars);
    }
  }

  // ----------------------------------------------------------- whole policies

  lemma SilencedReady(gs: seq<Group>, phase: Phase, vars: Vars)
    requires AllProcReady(gs, phase, vars)
    ensures AllProcReady(SilencedGroups(gs), phase, vars)
  {
    forall i | 0 <= i < |gs| && InPhase(gs[i], phase)
      ensures ProcReady(Silenced(gs[i]), vars)
    {
      SilencedIsReady(gs[i], vars);
    }
  }

  lemma ContributionSilenced(cel: Cel, g: Group, phase: Phase, vars: Vars)
    requires InPhase(g, phase) ==> ProcReady(g, vars)
    ensures InPhase(Silenced(g), phase) ==> ProcReady(Silenced(g), vars)
    ensures Live(Contribution(cel, g, phase, vars), false) == Contribution(cel, Silenced(g), phase, vars)
  {
    if InPhase(g, phase) {
      GroupSilenced(cel, g, vars);
    }
  }

  lemma SilencedPrefix(gs: seq<Group>)
    requires gs != []
    ensures SilencedGroups(gs)[..|gs| - 1] == SilencedGroups(gs[..|gs| - 1])
    ensures SilencedGroups(gs)[|gs| - 1] == Silenced(gs[|gs| - 1])
  {
  }

  /** The live mutations of a phase are what the policy without its dry-run rules' mutations resolves. */
  lemma {:induction false} PhaseSilenced(cel: Cel, gs: seq<Group>, phase: Phase, vars: Vars)
    requires AllProcReady(gs, phase, vars)
    ensures AllProcReady(SilencedGroups(gs), phase, vars)
    ensures Live(PhaseMutations(cel, gs, phase, vars), false) == PhaseMutations(cel, SilencedGroups(gs), phase, vars)
  {
    SilencedReady(gs, phase, vars);
    if gs != [] {
      var k := |gs| - 1;
      PhaseSilenced(cel, gs[..k], phase, vars);
      SilencedPrefix(gs);
      ContributionSilenced(cel, gs[k], phase, vars);
      PhaseUnfold(cel, gs, phase, vars);
      PhaseUnfold(cel, SilencedGroups(gs), phase, vars);
      LiveConcat(PhaseMutations(cel, gs[..k], phase, vars), Contribution(cel, gs[k], phase, vars));
    }
  }

  lemma SilencedWellFormed(g: Group)
    requires WellFormedGroup(g) && ReadyGroup(g)
    ensures WellFormedGroup(Silenced(g)) && ReadyGroup(Silenced(g)) && Silenced(g).name == g.name
  {
    assert RuleNames(Silenced(g).rules) == RuleNames(g.rules);
    forall i | 0 <= i < |g.rules|
      ensures WellFormedRule(Silenced(g).rules[i], g.engine, g.mode, g.phase)
      ensures ReadyRule(Silenced(g).rules[i], ScopeOf(g))
    {
      assert WellFormedRule(g.rules[i], g.engine, g.mode, g.phase) && ReadyRule(g.rules[i], ScopeOf(g));
    }
  }

  lemma SilencedAccepted(d: Defaults, gs: seq<Group>)
    requires Accepted(d, gs)
    ensures Accepted(d, SilencedGroups(gs))
  {
    forall i | 0 <= i < |gs|
      ensures WellFormedGroup(Silenced(gs[i])) && ReadyGroup(Silenced(gs[i])) && Silenced(gs[i]).name == gs[i].name
    {
      SilencedWellFormed(gs[i]);
    }
    assert GroupNames(SilencedGroups(gs)) == GroupNames(gs);
  }

  // --------------------------------------------------------------- whole runs

  function SilencedEvent(e: Event): Event {
    if e.policy.None? then e
    else e.(policy := Some(e.policy.value.(groups := SilencedGroups(e.policy.value.groups))))
  }

  function SilencedRun(es: seq<Event>): seq<Event> {
    seq(|es|, i requires 0 <= i < |es| => SilencedEvent(es[i]))
  }

  lemma ProcReplySilenced(phase: Phase, dry: bool, ms: seq<ResolvedMutation>)
    ensures ProcReply(phase, dry, ms) == ProcReply(phase, dry, Live(ms, false))
  {
    if dry {
      GlobalDryRunIsBare(phase, ms);
      GlobalDryRunIsBare(phase, Live(ms, false));
    } else {
      DryMutationsAreInvisible(phase, false, ms);
    }
  }

  lemma EventValid(e: Event)
    requires ValidEvent(e)
    ensures ValidEvent(SilencedEvent(e))
  {
    if e.policy.Some? {
      SilencedAccepted(e.policy.value.defaults, e.policy.value.groups);
    }
  }

  lemma ReplySilenced(s: State, e: Event)
    requires ValidEvent(e)
    requires e.policy.Some? ==> (e.msg.OtherMsg? || s.req.Some?) && (IsResponsePhase(TagOf(e.msg)) ==> s.resp.Some?)
    ensures ValidEvent(SilencedEvent(e)) && ReplyIn(s, SilencedEvent(e)) == ReplyIn(s, e)
  {
    EventValid(e);
    if e.policy.Some? && !e.msg.OtherMsg? {
      var p, tag := e.policy.value, TagOf(e.msg);
      var vars := PhaseVars(tag, s.req.value, s.resp, e.facts);
      AcceptedProcReady(p.defaults, p.groups, tag, s.req.value, s.resp, e.facts);
      PhaseSilenced(e.cel, p.groups, tag, vars);
      ProcReplySilenced(tag, p.defaults.dryRun, PhaseMutations(e.cel, p.groups, tag, vars));
    }
  }

  lemma {:induction false} AfterSilenced(es: seq<Event>)
    ensures After(SilencedRun(es)) == After(es)
  {
    if es != [] {
      AfterSilenced(es[..|es| - 1]);
      assert SilencedRun(es)[..|es| - 1] == SilencedRun(es[..|es| - 1]);
    }
  }

  /** No mutation of a dry-run rule reaches a reply: in every run, under any schedule of policy swaps, the
      replies are those of the policies with these mutations taken out. */
  lemma {:induction false} DryRulesDoNotShow(es: seq<Event>)
    requires ValidRun(es)
    ensures ValidRun(SilencedRun(es)) && Replies(SilencedRun(es)) == Replies(es)
  {
    forall i | 0 <= i < |es| {
      EventValid(es[i]);
    }
    if es != [] {
      var k := |es| - 1;
      DryRulesDoNotShow(es[..k]);
      assert SilencedRun(es)[..k] == SilencedRun(es[..k]);
      AfterSilenced(es);
      ReplySilenced(After(es), es[k]);
    }
  }
}
