// The ext-authz evaluator (Config.Evaluate, evalGroup) and a declarative account of its verdicts.
module Authz {
  import opened Prelude
  import opened Policy

  datatype Reason = GuardError | MatchError | RuleFailed | AllHeld | Matched | NoGroupMatched

  datatype Decision = Decision(allowed: bool, rule: string, reason: Reason, dryRun: bool)

  /** The variables of the group's scope are bound. */
  predicate Bound(g: Group, vars: Vars) {
    ScopeOf(g).ResponseScope? ==> vars.response.Some?
  }

  /** An absent guard holds. */
  function Guard(cel: Cel, g: Group, vars: Vars): Option<bool>
    requires ReadyGroup(g) && Bound(g, vars)
  {
    if g.guardProg.None? then Some(true) else EvalBool(cel, g.guardProg, vars)
  }

  function Outcome(cel: Cel, g: Group, i: nat, vars: Vars): Option<bool>
    requires ReadyGroup(g) && Bound(g, vars) && i < |g.rules|
  {
    EvalBool(cel, g.rules[i].matchProg, vars)
  }

  predicate IsAuthz(g: Group) {
    g.engine.ExtAuthz?
  }

  predicate AuthzReady(g: Group) {
    IsAuthz(g) ==> WellFormedGroup(g) && ReadyGroup(g)
  }

  /** The first rule at or after i whose outcome is not `expected` (an error counts as other). */
  function FirstOther(cel: Cel, g: Group, vars: Vars, expected: bool, i: nat): (k: nat)
    requires ReadyGroup(g) && Bound(g, vars) && i <= |g.rules|
    ensures i <= k <= |g.rules|
    ensures forall j :: i <= j < k ==> Outcome(cel, g, j, vars) == Some(expected)
    ensures k < |g.rules| ==> Outcome(cel, g, k, vars) != Some(expected)
    decreases |g.rules| - i
  {
    if i < |g.rules| && Outcome(cel, g, i, vars) == Some(expected)
    then FirstOther(cel, g, vars, expected, i + 1) else i
  }

  lemma {:induction false} FirstOtherIs(cel: Cel, g: Group, vars: Vars, expected: bool, i: nat, k: nat)
    requires ReadyGroup(g) && Bound(g, vars) && i <= k <= |g.rules|
    requires forall j :: i <= j < k ==> Outcome(cel, g, j, vars) == Some(expected)
    requires k < |g.rules| ==> Outcome(cel, g, k, vars) != Some(expected)
    ensures FirstOther(cel, g, vars, expected, i) == k
    decreases k - i
  {
    if i < k {
      FirstOtherIs(cel, g, vars, expected, i + 1, k);
    }
  }

  function RuleName(g: Group, i: nat): string
    requires i < |g.rules|
  {
    g.name + "/" + g.rules[i].name
  }

  /** errorDecision */
  function ErrorDecision(d: Defaults, rule: string, reason: Reason, dry: bool): Decision {
    Decision(d.allowOnError, rule, reason, dry)
  }

  /** The verdict of a group decided at rule k, the first that breaks the run of expected outcomes. */
  function DecisionAt(cel: Cel, d: Defaults, g: Group, vars: Vars, k: nat): Option<Decision>
    requires IsAuthz(g) && AuthzReady(g) && Bound(g, vars) && k <= |g.rules|
  {
    if k == |g.rules| then (if g.mode.MatchEvery? then Some(Decision(true, g.name, AllHeld, false)) else None)
    else if Outcome(cel, g, k, vars).None? then Some(ErrorDecision(d, RuleName(g, k), MatchError, g.rules[k].dryRun))
    else if g.mode.MatchEvery? then Some(Decision(false, RuleName(g, k), RuleFailed, g.rules[k].dryRun))
    else Some(Decision(g.rules[k].validation == Some(Allow), RuleName(g, k), Matched, g.rules[k].dryRun))
  }

  function GroupDecision(cel: Cel, d: Defaults, g: Group, vars: Vars): Option<Decision>
    requires IsAuthz(g) && AuthzReady(g) && Bound(g, vars)
  {
    match Guard(cel, g, vars)
    case None => Some(ErrorDecision(d, g.name, GuardError, false))
    case Some(false) => None
    case Some(true) => DecisionAt(cel, d, g, vars, FirstOther(cel, g, vars, g.mode.MatchEvery?, 0))
  }

  /** evalGroup */
  method EvalGroup(cel: Cel, d: Defaults, g: Group, vars: Vars) returns (r: Option<Decision>)
    requires IsAuthz(g) && AuthzReady(g) && Bound(g, vars)
    ensures r == GroupDecision(cel, d, g, vars)
  {
    if g.guardProg.Some? {
      var ok := EvalBool(cel, g.guardProg, vars);
      if ok.None? {
        return Some(ErrorDecision(d, g.name, GuardError, false));
      }
      if !ok.value {
        return None;
      }
    }
    if g.mode.MatchEvery? {
      for i := 0 to |g.rules|
        invariant forall j :: 0 <= j < i ==> Outcome(cel, g, j, vars) == Some(true)
      {
        var ok := EvalBool(cel, g.rules[i].matchProg, vars);
        if ok.None? {
          FirstOtherIs(cel, g, vars, true, 0, i);
          return Some(ErrorDecision(d, g.name + "/" + g.rules[i].name, MatchError, g.rules[i].dryRun));
        }
        if !ok.value {
          FirstOtherIs(cel, g, vars, true, 0, i);
          return Some(Decision(false, g.name + "/" + g.rules[i].name, RuleFailed, g.rules[i].dryRun));
        }
      }
      FirstOtherIs(cel, g, vars, true, 0, |g.rules|);
      return Some(Decision(true, g.name, AllHeld, false));
    } else {
      for i := 0 to |g.rules|
        invariant forall j :: 0 <= j < i ==> Outcome(cel, g, j, vars) == Some(false)
      {
        var ok := EvalBool(cel, g.rules[i].matchProg, vars);
        if ok.None? {
          FirstOtherIs(cel, g, vars, false, 0, i);
          return Some(ErrorDecision(d, g.name + "/" + g.rules[i].name, MatchError, g.rules[i].dryRun));
        }
        if ok.value {
          FirstOtherIs(cel, g, vars, false, 0, i);
          var action := g.rules[i].validation.value;
          return Some(Decision(action == Allow, g.name + "/" + g.rules[i].name, Matched, g.rules[i].dryRun));
        }
      }
      FirstOtherIs(cel, g, vars, false, 0, |g.rules|);
      return None;
    }
  }

  predicate AllAuthzReady(gs: seq<Group>) {
    forall i :: 0 <= i < |gs| ==> AuthzReady(gs[i])
  }

  function DefaultDecision(d: Defaults): Decision {
    Decision(d.action == Allow, "<defaults>", NoGroupMatched, false)
  }

  /** The verdict of the first ext-authz group that decides. */
  function Verdict(cel: Cel, d: Defaults, gs: seq<Group>, vars: Vars): Decision
    requires AllAuthzReady(gs)
  {
    if gs == [] then DefaultDecision(d)
    else if !IsAuthz(gs[0]) then Verdict(cel, d, gs[1..], vars)
    else
      var r := GroupDecision(cel, d, gs[0], vars);
      if r.Some? then r.value else Verdict(cel, d, gs[1..], vars)
  }

  /** Evaluate: an accepted policy never meets a missing program or validation block. */
  method Evaluate(cel: Cel, d: Defaults, gs: seq<Group>, vars: Vars) returns (r: Decision)
    requires Accepted(d, gs)
    ensures AllAuthzReady(gs) && r == Verdict(cel, d, gs, vars)
  {
    for i := 0 to |gs|
      invariant AllAuthzReady(gs[i..])
      invariant Verdict(cel, d, gs, vars) == Verdict(cel, d, gs[i..], vars)
    {
      assert gs[i..][1..] == gs[i + 1..];
      if gs[i].engine != ExtAuthz {
        continue;
      }
      var decided := EvalGroup(cel, d, gs[i], vars);
      if decided.Some? {
        return decided.value;
      }
    }
    return Decision(d.action == Allow, "<defaults>", NoGroupMatched, false);
  }

  // --------------------------------------------------- when access is granted

  /** The group is passed over without an error: guard false, or no rule of a firstMatch group true. */
  predicate Skipped(cel: Cel, g: Group, vars: Vars)
    requires IsAuthz(g) && AuthzReady(g)
  {
    Guard(cel, g, vars) == Some(false) ||
    (&& Guard(cel, g, vars) == Some(true) && g.mode.FirstMatch?
     && forall i :: 0 <= i < |g.rules| ==> Outcome(cel, g, i, vars) == Some(false))
  }

  /** The first true rule says allow after error-free false ones (firstMatch), or all rules are true (matchAll). */
  predicate Grants(cel: Cel, g: Group, vars: Vars)
    requires IsAuthz(g) && AuthzReady(g)
  {
    Guard(cel, g, vars) == Some(true) &&
    if g.mode.MatchEvery? then forall i :: 0 <= i < |g.rules| ==> Outcome(cel, g, i, vars) == Some(true)
    else exists i ::
           && 0 <= i < |g.rules| && Outcome(cel, g, i, vars) == Some(true) && g.rules[i].validation == Some(Allow)
           && forall j :: 0 <= j < i ==> Outcome(cel, g, j, vars) == Some(false)
  }

  /** Group w grants access and every ext-authz group before it is skipped. */
  predicate GrantedBy(cel: Cel, gs: seq<Group>, vars: Vars, w: int)
    requires AllAuthzReady(gs)
  {
    && 0 <= w < |gs| && IsAuthz(gs[w]) && Grants(cel, gs[w], vars)
    && forall j :: 0 <= j < w && IsAuthz(gs[j]) ==> Skipped(cel, gs[j], vars)
  }

  lemma GroupVerdicts(cel: Cel, d: Defaults, g: Group, vars: Vars)
    requires IsAuthz(g) && AuthzReady(g) && !d.allowOnError
    ensures GroupDecision(cel, d, g, vars).None? <==> Skipped(cel, g, vars)
    ensures GroupDecision(cel, d, g, vars).Some? ==>
              (GroupDecision(cel, d, g, vars).value.allowed <==> Grants(cel, g, vars))
    ensures Grants(cel, g, vars) ==> !Skipped(cel, g, vars)
  {
    if Guard(cel, g, vars) == Some(true) {
      var every := g.mode.MatchEvery?;
      var k := FirstOther(cel, g, vars, every, 0);
      if !every && k < |g.rules| && Outcome(cel, g, k, vars).Some? {
        var o := Outcome(cel, g, k, vars).value;
        assert Outcome(cel, g, k, vars) == Some(o) && o != every;
        assert g.rules[k].validation == Some(Allow) ==> Grants(cel, g, vars);
      }
      if !every && Grants(cel, g, vars) {
        var i :| && 0 <= i < |g.rules| && Outcome(cel, g, i, vars) == Some(true) && g.rules[i].validation == Some(Allow)
                 && forall j :: 0 <= j < i ==> Outcome(cel, g, j, vars) == Some(false);
        FirstOtherIs(cel, g, vars, false, 0, i);
      }
    }
  }

  /** Fail-closed: with default deny and allowOnError off, access is granted exactly when some
      group grants it and every earlier one is skipped without error. */
  lemma {:induction false} AllowedIffGranted(cel: Cel, d: Defaults, gs: seq<Group>, vars: Vars)
    requires AllAuthzReady(gs) && d.action.Deny? && !d.allowOnError
    ensures Verdict(cel, d, gs, vars).allowed <==> exists w :: GrantedBy(cel, gs, vars, w)
  {
    if gs != [] {
      var rest := gs[1..];
      AllowedIffGranted(cel, d, rest, vars);
      if IsAuthz(gs[0]) {
        GroupVerdicts(cel, d, gs[0], vars);
      }
      assert GrantedBy(cel, gs, vars, 0) <==> IsAuthz(gs[0]) && Grants(cel, gs[0], vars);
      forall w | 0 <= w < |rest|
        ensures GrantedBy(cel, gs, vars, w + 1) <==>
                GrantedBy(cel, rest, vars, w) && (IsAuthz(gs[0]) ==> Skipped(cel, gs[0], vars))
      {
        assert rest[w] == gs[w + 1];
        if GrantedBy(cel, gs, vars, w + 1) {
          assert forall j :: 0 <= j < w ==> rest[j] == gs[j + 1];
        }
        if GrantedBy(cel, rest, vars, w) && (IsAuthz(gs[0]) ==> Skipped(cel, gs[0], vars)) {
          assert forall j :: 0 < j < w + 1 ==> gs[j] == rest[j - 1];
        }
      }
      if exists w :: GrantedBy(cel, gs, vars, w) {
        var w :| GrantedBy(cel, gs, vars, w);
        if w > 0 {
          assert GrantedBy(cel, rest, vars, w - 1);
        }
      }
      if exists w :: GrantedBy(cel, rest, vars, w) {
        var w :| GrantedBy(cel, rest, vars, w);
        assert GrantedBy(cel, gs, vars, w + 1) <==> (IsAuthz(gs[0]) ==> Skipped(cel, gs[0], vars));
      }
    }
  }

  predicate NoRuleDryRun(gs: seq<Group>) {
    forall i, j :: 0 <= i < |gs| && 0 <= j < |gs[i].rules| ==> !gs[i].rules[j].dryRun
  }

  lemma {:induction false} VerdictNotDry(cel: Cel, d: Defaults, gs: seq<Group>, vars: Vars)
    requires AllAuthzReady(gs) && NoRuleDryRun(gs)
    ensures !Verdict(cel, d, gs, vars).dryRun
  {
    if gs != [] {
      assert forall i :: 0 <= i < |gs[1..]| ==> gs[1..][i] == gs[i + 1];
      VerdictNotDry(cel, d, gs[1..], vars);
    }
  }

  // ------------------------------------------------------ engine isolation

  function AuthzGroups(gs: seq<Group>): (r: seq<Group>)
    ensures AllAuthzReady(gs) ==> AllAuthzReady(r)
  {
    if gs == [] then [] else (if IsAuthz(gs[0]) then [gs[0]] else []) + AuthzGroups(gs[1..])
  }

  lemma {:induction false} VerdictOfAuthzGroups(cel: Cel, d: Defaults, gs: seq<Group>, vars: Vars)
    requires AllAuthzReady(gs)
    ensures Verdict(cel, d, gs, vars) == Verdict(cel, d, AuthzGroups(gs), vars)
  {
    if gs != [] {
      VerdictOfAuthzGroups(cel, d, gs[1..], vars);
      if IsAuthz(gs[0]) {
        assert AuthzGroups(gs)[1..] == AuthzGroups(gs[1..]);
      } else {
        assert AuthzGroups(gs) == AuthzGroups(gs[1..]);
      }
    }
  }

  /** Inserting, deleting or changing ext-proc groups anywhere leaves every verdict unchanged. */
  lemma {:induction false} AuthzIsolated(cel: Cel, d: Defaults, gs: seq<Group>, hs: seq<Group>, vars: Vars)
    requires AllAuthzReady(gs) && AllAuthzReady(hs)
    requires AuthzGroups(gs) == AuthzGroups(hs)
    ensures Verdict(cel, d, gs, vars) == Verdict(cel, d, hs, vars)
  {
    VerdictOfAuthzGroups(cel, d, gs, vars);
    VerdictOfAuthzGroups(cel, d, hs, vars);
  }
}
