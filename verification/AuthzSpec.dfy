// A declarative account of extAuthz decisions: from the declared expressions alone to
// the verdict, its rule name, its reason and its dry-run flag, for every setting.
module AuthzSpec {
  import opened Prelude
  import opened Policy
  import opened Authz

  /** The guard expression on the request; a blank guard holds. */
  function GuardOf(cel: Cel, g: Group, vars: Vars): Option<bool> {
    if Blank(g.guard) then Some(true) else cel.evalBool(Program(RequestScope, BoolKind, g.guard), vars)
  }

  function RuleOf(cel: Cel, g: Group, i: nat, vars: Vars): Option<bool>
    requires i < |g.rules|
  {
    cel.evalBool(Program(RequestScope, BoolKind, g.rules[i].source), vars)
  }

  /** The group leaves the decision to later ones: its guard is false, or it is a firstMatch group all
      of whose rules are false. */
  predicate Passes(cel: Cel, g: Group, vars: Vars) {
    || GuardOf(cel, g, vars) == Some(false)
    || (&& GuardOf(cel, g, vars) == Some(true) && g.mode == FirstMatch
        && forall i :: 0 <= i < |g.rules| ==> RuleOf(cel, g, i, vars) == Some(false))
  }

  /** Rule k decides: every earlier rule gave what the mode waits for, and k does not. A failed rule
      gives allowOnError, a true one of a firstMatch group its own action, a false one of a matchAll
      group a denial; the rule lends the decision its name and its dry-run flag. */
  predicate DecidesAt(cel: Cel, d: Defaults, g: Group, vars: Vars, k: int, dec: Decision) {
    && GuardOf(cel, g, vars) == Some(true) && 0 <= k < |g.rules|
    && (forall j :: 0 <= j < k ==> RuleOf(cel, g, j, vars) == Some(g.mode == MatchEvery))
    && dec.rule == g.name + "/" + g.rules[k].name && dec.dryRun == g.rules[k].dryRun
    && match RuleOf(cel, g, k, vars)
       case None => dec.allowed == d.allowOnError && dec.reason == MatchError
       case Some(true) =>
         g.mode == FirstMatch && dec.reason == Matched && (dec.allowed <==> g.rules[k].validation == Some(Allow))
       case Some(false) => g.mode == MatchEvery && dec.reason == RuleFailed && !dec.allowed
  }

  /** The group decides: by a failing guard, at one of its rules, or because all rules of a matchAll
      group hold. */
  predicate Decides(cel: Cel, d: Defaults, g: Group, vars: Vars, dec: Decision) {
    || (GuardOf(cel, g, vars) == None && dec == Decision(d.allowOnError, g.name, GuardError, false))
    || (exists k :: 0 <= k < |g.rules| && DecidesAt(cel, d, g, vars, k, dec))
    || (&& GuardOf(cel, g, vars) == Some(true) && g.mode == MatchEvery
        && (forall i :: 0 <= i < |g.rules| ==> RuleOf(cel, g, i, vars) == Some(true))
        && dec == Decision(true, g.name, AllHeld, false))
  }

  /** Group w decides and every extAuthz group before it passes. */
  predicate DecidedBy(cel: Cel, d: Defaults, gs: seq<Group>, vars: Vars, w: int, dec: Decision) {
    && 0 <= w < |gs| && gs[w].engine == ExtAuthz && Decides(cel, d, gs[w], vars, dec)
    && forall j :: 0 <= j < w && gs[j].engine == ExtAuthz ==> Passes(cel, gs[j], vars)
  }

  /** The first group that decides, or the default if all pass. */
  predicate Explains(cel: Cel, d: Defaults, gs: seq<Group>, vars: Vars, dec: Decision) {
    || (exists w :: 0 <= w < |gs| && DecidedBy(cel, d, gs, vars, w, dec))
    || (&& (forall j :: 0 <= j < |gs| && gs[j].engine == ExtAuthz ==> Passes(cel, gs[j], vars))
        && dec == Decision(d.action == Allow, "<defaults>", NoGroupMatched, false))
  }

  lemma OutcomesAreDeclared(cel: Cel, g: Group, vars: Vars)
    requires IsAuthz(g) && AuthzReady(g)
    ensures Guard(cel, g, vars) == GuardOf(cel, g, vars)
    ensures forall i :: 0 <= i < |g.rules| ==> Outcome(cel, g, i, vars) == RuleOf(cel, g, i, vars)
  {
    assert forall i :: 0 <= i < |g.rules| ==> ReadyRule(g.rules[i], ScopeOf(g));
  }

  lemma PassesIff(cel: Cel, d: Defaults, g: Group, vars: Vars)
    requires IsAuthz(g) && AuthzReady(g)
    ensures Passes(cel, g, vars) <==> GroupDecision(cel, d, g, vars).None?
  {
    OutcomesAreDeclared(cel, g, vars);
    if Guard(cel, g, vars) == Some(true) && g.mode == FirstMatch {
      var k := FirstOther(cel, g, vars, false, 0);
      assert k < |g.rules| ==> Outcome(cel, g, k, vars) != Some(false);
    }
  }

  lemma DecidesAtIs(cel: Cel, d: Defaults, g: Group, vars: Vars, k: int, dec: Decision)
    requires IsAuthz(g) && AuthzReady(g) && DecidesAt(cel, d, g, vars, k, dec)
    ensures GroupDecision(cel, d, g, vars) == Some(dec)
  {
    OutcomesAreDeclared(cel, g, vars);
    FirstOtherIs(cel, g, vars, g.mode == MatchEvery, 0, k);
  }

  /** A group's decision is the only one its declaration calls for. */
  lemma DecidesIff(cel: Cel, d: Defaults, g: Group, vars: Vars, dec: Decision)
    requires IsAuthz(g) && AuthzReady(g)
    ensures Decides(cel, d, g, vars, dec) <==> GroupDecision(cel, d, g, vars) == Some(dec)
  {
    OutcomesAreDeclared(cel, g, vars);
    var k := FirstOther(cel, g, vars, g.mode == MatchEvery, 0);
    if GroupDecision(cel, d, g, vars) == Some(dec) && Guard(cel, g, vars) == Some(true) && k < |g.rules| {
      assert WellFormedRule(g.rules[k], g.engine, g.mode, g.phase);
      assert DecidesAt(cel, d, g, vars, k, dec);
    }
    if j :| 0 <= j < |g.rules| && DecidesAt(cel, d, g, vars, j, dec) {
      DecidesAtIs(cel, d, g, vars, j, dec);
    }
    if && GuardOf(cel, g, vars) == Some(true) && g.mode == MatchEvery
       && forall i :: 0 <= i < |g.rules| ==> RuleOf(cel, g, i, vars) == Some(true) {
      FirstOtherIs(cel, g, vars, true, 0, |g.rules|);
    }
  }

  lemma ExplainsTail(cel: Cel, d: Defaults, gs: seq<Group>, vars: Vars, dec: Decision)
    requires gs != [] && (gs[0].engine == ExtAuthz ==> Passes(cel, gs[0], vars) && !Decides(cel, d, gs[0], vars, dec))
    ensures Explains(cel, d, gs, vars, dec) <==> Explains(cel, d, gs[1..], vars, dec)
  {
    var rest := gs[1..];
    assert forall j :: 0 <= j < |rest| ==> rest[j] == gs[j + 1];
    forall w | 0 <= w < |rest|
      ensures DecidedBy(cel, d, rest, vars, w, dec) <==> DecidedBy(cel, d, gs, vars, w + 1, dec)
    {
      if DecidedBy(cel, d, rest, vars, w, dec) {
        assert forall j :: 0 < j < w + 1 ==> gs[j] == rest[j - 1];
      }
    }
    if w :| 0 <= w < |gs| && DecidedBy(cel, d, gs, vars, w, dec) {
      assert DecidedBy(cel, d, rest, vars, w - 1, dec);
    }
    if w :| 0 <= w < |rest| && DecidedBy(cel, d, rest, vars, w, dec) {
      assert DecidedBy(cel, d, gs, vars, w + 1, dec);
    }
    if forall j :: 0 <= j < |rest| && rest[j].engine == ExtAuthz ==> Passes(cel, rest[j], vars) {
      assert forall j :: 0 < j < |gs| ==> gs[j] == rest[j - 1];
    }
  }

  lemma ExplainsHead(cel: Cel, d: Defaults, gs: seq<Group>, vars: Vars, dec: Decision)
    requires gs != [] && gs[0].engine == ExtAuthz && !Passes(cel, gs[0], vars)
    ensures Explains(cel, d, gs, vars, dec) <==> Decides(cel, d, gs[0], vars, dec)
  {
    if Decides(cel, d, gs[0], vars, dec) {
      assert DecidedBy(cel, d, gs, vars, 0, dec);
    }
    if w :| 0 <= w < |gs| && DecidedBy(cel, d, gs, vars, w, dec) {
      assert w == 0;
    }
  }

  /** Evaluate, from the declared expressions alone and whatever allowOnError, the default action and the
      dry-run flags are: there is exactly one decision the policy calls for, and it is the verdict. */
  lemma {:induction false} VerdictIff(cel: Cel, d: Defaults, gs: seq<Group>, vars: Vars, dec: Decision)
    requires AllAuthzReady(gs)
    ensures Explains(cel, d, gs, vars, dec) <==> dec == Verdict(cel, d, gs, vars)
  {
    if gs != [] {
      VerdictIff(cel, d, gs[1..], vars, dec);
      if IsAuthz(gs[0]) {
        PassesIff(cel, d, gs[0], vars);
        DecidesIff(cel, d, gs[0], vars, dec);
      }
      if IsAuthz(gs[0]) && !Passes(cel, gs[0], vars) {
        ExplainsHead(cel, d, gs, vars, dec);
      } else {
        ExplainsTail(cel, d, gs, vars, dec);
      }
    }
  }
}
