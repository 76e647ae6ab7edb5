// policy.Config: the parsed policy, its structural validation and the
// compilation of its expressions. CEL is a library this model does not look
// into: `Cel` stands for any compiler and any evaluator.
module Policy {
  import opened Prelude
  import opened Mutations
  import opened Ordering
  import Facts

  // ------------------------------------------------------------- CEL

  datatype Scope = RequestScope | ResponseScope

  datatype Kind = BoolKind | StringKind | IntKind | StringMapKind

  /** A compiled program: what was compiled, in which scope, expecting which type. */
  datatype Program = Program(scope: Scope, kind: Kind, src: string)

  type Fields = map<string, seq<string>>

  datatype Request = Request(head: Fields, body: string)

  datatype Response = Response(status: int, head: Fields, body: string)

  /** The variables bound during one evaluation. */
  datatype Vars = Vars(request: Request, response: Option<Response>, facts: map<string, string>)

  /** The CEL library: None is a compile-time rejection or a run-time error. */
  datatype Cel = Cel(
    compiles: (Scope, Kind, string) -> bool,
    evalBool: (Program, Vars) -> Option<bool>,
    evalString: (Program, Vars) -> Option<string>,
    evalInt: (Program, Vars) -> Option<int>,
    evalStringMap: (Program, Vars) -> Option<map<string, string>>)

  /** A program may run: it exists, has the expected type, and its scope's variables are bound. */
  predicate Runnable(p: Option<Program>, kind: Kind, vars: Vars) {
    p.Some? && p.value.kind == kind && (p.value.scope.ResponseScope? ==> vars.response.Some?)
  }

  function EvalBool(cel: Cel, p: Option<Program>, vars: Vars): Option<bool>
    requires Runnable(p, BoolKind, vars)
  {
    cel.evalBool(p.value, vars)
  }

  function EvalString(cel: Cel, p: Option<Program>, vars: Vars): Option<string>
    requires Runnable(p, StringKind, vars)
  {
    cel.evalString(p.value, vars)
  }

  function EvalInt(cel: Cel, p: Option<Program>, vars: Vars): Option<int>
    requires Runnable(p, IntKind, vars)
  {
    cel.evalInt(p.value, vars)
  }

  function EvalStringMap(cel: Cel, p: Option<Program>, vars: Vars): Option<map<string, string>>
    requires Runnable(p, StringMapKind, vars)
  {
    cel.evalStringMap(p.value, vars)
  }

  // ------------------------------------------------------- configuration

  datatype Action = Allow | Deny | OtherAction(text: string)
  datatype Overflow = Skip | Fail | OtherOverflow(text: string)
  datatype Engine = ExtAuthz | ExtProc | OtherEngine(text: string)
  datatype Mode = FirstMatch | MatchEvery | ApplyEvery | OtherMode(text: string)
  datatype Phase = RequestHeaders | RequestBody | ResponseHeaders | ResponseBody | NoPhase | OtherPhase(text: string)

  datatype Defaults = Defaults(
    action: Action, denyStatus: int, denyBody: string, allowOnError: bool, authzMaxBody: int,
    procMaxBody: int, onOverflow: Overflow, dryRun: bool)

  /** Program fields are None until compile fills them (nil in the source). */
  datatype Mutation = Mutation(
    op: Op, name: string, value: string, code: string, status: int, headers: string, body: string,
    valueProg: Option<Program>, codeProg: Option<Program>,
    headersProg: Option<Program>, bodyProg: Option<Program>)

  datatype Rule = Rule(
    name: string, source: string, validation: Option<Action>, mutations: seq<Mutation>,
    dryRun: bool, matchProg: Option<Program>)

  datatype Group = Group(
    name: string, engine: Engine, mode: Mode, phase: Phase, guard: string,
    rules: seq<Rule>, guardProg: Option<Program>)

  predicate IsResponsePhase(p: Phase) {
    p.ResponseHeaders? || p.ResponseBody?
  }

  predicate IsBodyPhase(p: Phase) {
    p.RequestBody? || p.ResponseBody?
  }

  predicate IsPhase(p: Phase) {
    p.RequestHeaders? || p.RequestBody? || p.ResponseHeaders? || p.ResponseBody?
  }

  // ------------------------------------------------- what validate promises

  predicate WellFormedMutation(m: Mutation, phase: Phase) {
    match m.op
    case DirectResponse =>
      && 1 <= m.status <= 599 && !Blank(m.headers) && !Blank(m.body)
      && m.name == "" && m.value == "" && m.code == "" && IsResponsePhase(phase)
    case SetHeader => !Blank(m.name) && !Blank(m.value) && m.code == ""
    case AppendHeader => !Blank(m.name) && !Blank(m.value) && m.code == ""
    case RemoveHeader => !Blank(m.name) && m.value == "" && m.code == ""
    case SetBody => !Blank(m.value) && m.name == "" && m.code == "" && IsBodyPhase(phase)
    case SetStatus => !Blank(m.code) && m.name == "" && m.value == "" && IsResponsePhase(phase)
    case OtherOp(_) => false
  }

  predicate HasDirect(ms: seq<Mutation>) {
    exists i :: 0 <= i < |ms| && ms[i].op.DirectResponse?
  }

  predicate WellFormedMutations(ms: seq<Mutation>, phase: Phase) {
    && (HasDirect(ms) ==> |ms| == 1)
    && forall i :: 0 <= i < |ms| ==> WellFormedMutation(ms[i], phase)
  }

  predicate WellFormedRule(r: Rule, engine: Engine, mode: Mode, phase: Phase) {
    && r.name != "" && !Blank(r.source)
    && if engine.ExtAuthz? then
         && r.validation.Some? && r.mutations == []
         && (r.validation.value.Allow? || (r.validation.value.Deny? && !mode.MatchEvery?))
       else
         r.validation.None? && WellFormedMutations(r.mutations, phase)
  }

  predicate WellFormedParameters(g: Group) {
    (g.engine.ExtAuthz? && (g.mode.FirstMatch? || g.mode.MatchEvery?) && g.phase.NoPhase?) ||
    (g.engine.ExtProc? && (g.mode.FirstMatch? || g.mode.ApplyEvery?) && IsPhase(g.phase))
  }

  predicate WellFormedRules(rs: seq<Rule>, engine: Engine, mode: Mode, phase: Phase) {
    && (forall i :: 0 <= i < |rs| ==> WellFormedRule(rs[i], engine, mode, phase))
    && Distinct(RuleNames(rs))
  }

  function GroupNames(gs: seq<Group>): seq<string> {
    seq(|gs|, i requires 0 <= i < |gs| => gs[i].name)
  }

  predicate WellFormedGroup(g: Group) {
    g.name != "" && WellFormedParameters(g) && g.rules != [] && WellFormedRules(g.rules, g.engine, g.mode, g.phase)
  }

  predicate WellFormedGroups(gs: seq<Group>) {
    && (forall i :: 0 <= i < |gs| ==> WellFormedGroup(gs[i]))
    && Distinct(GroupNames(gs))
  }

  predicate WellFormed(d: Defaults, gs: seq<Group>) {
    && (d.action.Allow? || d.action.Deny?) && (d.onOverflow.Skip? || d.onOverflow.Fail?)
    && gs != [] && WellFormedGroups(gs)
  }

  lemma {:induction false} TrimSpaceBlank(s: string)
    ensures TrimSpace(s) == "" <==> Blank(s)
    decreases |s|
  {
    if s != [] {
      if IsSpace(s[0]) {
        TrimSpaceBlank(s[1..]);
        assert s == [s[0]] + s[1..];
      } else if IsSpace(s[|s| - 1]) {
        TrimSpaceBlank(s[..|s| - 1]);
        assert s[..|s| - 1][0] == s[0];
      }
    }
  }

  /** The mutations validate accepts, op by op: which fields are there and which are empty, and in which
      phases the op is legal. */
  lemma MutationTable(m: Mutation, phase: Phase)
    ensures m.op == SetHeader || m.op == AppendHeader ==>
              (WellFormedMutation(m, phase) <==> !Blank(m.name) && !Blank(m.value) && m.code == "")
    ensures m.op == RemoveHeader ==>
              (WellFormedMutation(m, phase) <==> !Blank(m.name) && m.value == "" && m.code == "")
    ensures m.op == SetBody ==>
              (WellFormedMutation(m, phase) <==>
               !Blank(m.value) && m.name == "" && m.code == "" && phase in {RequestBody, ResponseBody})
    ensures m.op == SetStatus ==>
              (WellFormedMutation(m, phase) <==>
               !Blank(m.code) && m.name == "" && m.value == "" && phase in {ResponseHeaders, ResponseBody})
    ensures m.op == DirectResponse ==>
              (WellFormedMutation(m, phase) <==>
               && 1 <= m.status <= 599 && !Blank(m.headers) && !Blank(m.body) && m.name == "" && m.value == ""
               && m.code == "" && phase in {ResponseHeaders, ResponseBody})
    ensures m.op.OtherOp? ==> !WellFormedMutation(m, phase)
  {
  }

  method ValidateMutation(m: Mutation, phase: Phase) returns (ok: bool)
    ensures ok <==> WellFormedMutation(m, phase)
  {
    TrimSpaceBlank(m.headers);
    TrimSpaceBlank(m.body);
    TrimSpaceBlank(m.name);
    TrimSpaceBlank(m.value);
    TrimSpaceBlank(m.code);
    match m.op {
    case DirectResponse =>
      if m.status <= 0 || m.status > 599 { return false; }
      if TrimSpace(m.headers) == "" { return false; }
      if TrimSpace(m.body) == "" { return false; }
      if m.name != "" { return false; }
      if m.value != "" { return false; }
      if m.code != "" { return false; }
      if phase != ResponseHeaders && phase != ResponseBody { return false; }
    case SetHeader =>
      if TrimSpace(m.name) == "" { return false; }
      if TrimSpace(m.value) == "" { return false; }
      if m.code != "" { return false; }
    case AppendHeader =>
      if TrimSpace(m.name) == "" { return false; }
      if TrimSpace(m.value) == "" { return false; }
      if m.code != "" { return false; }
    case RemoveHeader =>
      if TrimSpace(m.name) == "" { return false; }
      if m.value != "" { return false; }
      if m.code != "" { return false; }
    case SetBody =>
      if TrimSpace(m.value) == "" { return false; }
      if m.name != "" { return false; }
      if m.code != "" { return false; }
      if phase != RequestBody && phase != ResponseBody { return false; }
    case SetStatus =>
      if TrimSpace(m.code) == "" { return false; }
      if m.name != "" { return false; }
      if m.value != "" { return false; }
      if phase != ResponseHeaders && phase != ResponseBody { return false; }
    case OtherOp(_) =>
      return false;
    }
    return true;
  }

  method ValidateMutations(ms: seq<Mutation>, phase: Phase) returns (ok: bool)
    ensures ok <==> WellFormedMutations(ms, phase)
  {
    var hasDirect := false;
    for i := 0 to |ms|
      invariant hasDirect <==> HasDirect(ms[..i])
    {
      assert ms[..i + 1] == ms[..i] + [ms[i]];
      if ms[i].op == DirectResponse {
        assert ms[..i + 1][i].op.DirectResponse?;
        hasDirect := true;
      }
      assert forall j :: 0 <= j < i ==> ms[..i + 1][j] == ms[..i][j];
    }
    assert ms[..|ms|] == ms;
    if hasDirect && |ms| > 1 {
      return false;
    }
    for i := 0 to |ms|
      invariant forall j :: 0 <= j < i ==> WellFormedMutation(ms[j], phase)
    {
      var good := ValidateMutation(ms[i], phase);
      if !good {
        return false;
      }
    }
    return true;
  }

  method ValidateRule(r: Rule, engine: Engine, mode: Mode, phase: Phase) returns (ok: bool)
    ensures ok <==> WellFormedRule(r, engine, mode, phase)
  {
    if r.name == "" { return false; }
    TrimSpaceBlank(r.source);
    if TrimSpace(r.source) == "" { return false; }
    if engine == ExtAuthz {
      if r.validation.None? { return false; }
      if |r.mutations| > 0 { return false; }
      var action := r.validation.value;
      if action != Allow && action != Deny { return false; }
      if mode == MatchEvery && action != Allow { return false; }
    } else {
      if r.validation.Some? { return false; }
      var good := ValidateMutations(r.mutations, phase);
      if !good { return false; }
    }
    return true;
  }

  function RuleNames(rs: seq<Rule>): seq<string> {
    seq(|rs|, i requires 0 <= i < |rs| => rs[i].name)
  }

  function Elements(s: seq<string>): set<string> {
    set n | n in s
  }

  /** One turn of a seen-map loop: the prefix stays duplicate-free unless the name was seen. */
  lemma SeenStep(names: seq<string>, i: nat, seen: set<string>)
    requires i < |names| && Distinct(names[..i]) && seen == Elements(names[..i])
    ensures names[i] in seen ==> !Distinct(names)
    ensures names[i] !in seen ==> Distinct(names[..i + 1])
    ensures seen + {names[i]} == Elements(names[..i + 1])
  {
    assert names[..i + 1] == names[..i] + [names[i]];
  }

  lemma BadRule(rs: seq<Rule>, engine: Engine, mode: Mode, phase: Phase, i: nat)
    requires i < |rs| && !WellFormedRule(rs[i], engine, mode, phase)
    ensures !WellFormedRules(rs, engine, mode, phase)
  {
  }

  predicate RulesUpTo(rs: seq<Rule>, engine: Engine, mode: Mode, phase: Phase, n: nat) {
    n <= |rs| && forall i :: 0 <= i < n ==> WellFormedRule(rs[i], engine, mode, phase)
  }

  /** The names seen so far are those of the first n rules, all different. */
  predicate SeenUpTo(names: seq<string>, n: nat, seen: set<string>) {
    n <= |names| && Distinct(names[..n]) && seen == Elements(names[..n])
  }

  lemma RuleSeen(rs: seq<Rule>, n: nat, seen: set<string>)
    requires n < |rs| && SeenUpTo(RuleNames(rs), n, seen)
    ensures rs[n].name in seen ==> !Distinct(RuleNames(rs))
    ensures rs[n].name !in seen ==> SeenUpTo(RuleNames(rs), n + 1, seen + {rs[n].name})
  {
    SeenStep(RuleNames(rs), n, seen);
  }

  lemma RulesDone(rs: seq<Rule>, engine: Engine, mode: Mode, phase: Phase, seen: set<string>)
    requires RulesUpTo(rs, engine, mode, phase, |rs|) && SeenUpTo(RuleNames(rs), |rs|, seen)
    ensures WellFormedRules(rs, engine, mode, phase)
  {
    assert RuleNames(rs)[..|rs|] == RuleNames(rs);
  }

  method ValidateRules(rs: seq<Rule>, engine: Engine, mode: Mode, phase: Phase) returns (ok: bool)
    ensures ok <==> WellFormedRules(rs, engine, mode, phase)
  {
    var seen: set<string> := {};
    for i := 0 to |rs|
      invariant SeenUpTo(RuleNames(rs), i, seen) && RulesUpTo(rs, engine, mode, phase, i)
    {
      RuleSeen(rs, i, seen);
      if rs[i].name in seen { return false; }
      seen := seen + {rs[i].name};
      var good := ValidateRule(rs[i], engine, mode, phase);
      if !good {
        BadRule(rs, engine, mode, phase, i);
        return false;
      }
    }
    RulesDone(rs, engine, mode, phase, seen);
    return true;
  }

  method ValidateParameters(g: Group) returns (ok: bool)
    ensures ok <==> WellFormedParameters(g)
  {
    if g.engine != ExtAuthz && g.engine != ExtProc { return false; }
    if g.engine == ExtAuthz {
      if g.mode != FirstMatch && g.mode != MatchEvery { return false; }
    } else {
      if g.mode != FirstMatch && g.mode != ApplyEvery { return false; }
    }
    if g.engine == ExtProc {
      if g.phase != RequestHeaders && g.phase != RequestBody && g.phase != ResponseHeaders && g.phase != ResponseBody {
        return false;
      }
    } else {
      if g.phase != NoPhase { return false; }
    }
    return true;
  }

  // --------------------------------------------------- what compile promises

  /** The scope compile chooses for a group. */
  function ScopeOf(g: Group): Scope {
    if g.engine.ExtAuthz? then RequestScope
    else if IsResponsePhase(g.phase) then ResponseScope
    else RequestScope
  }

  predicate MutationCompiles(cel: Cel, m: Mutation, scope: Scope) {
    match m.op
    case DirectResponse => cel.compiles(scope, StringMapKind, m.headers) && cel.compiles(scope, StringKind, m.body)
    case SetHeader => cel.compiles(scope, StringKind, m.value)
    case AppendHeader => cel.compiles(scope, StringKind, m.value)
    case SetBody => cel.compiles(scope, StringKind, m.value)
    case SetStatus => cel.compiles(scope, IntKind, m.code)
    case _ => true
  }

  function CompiledMutation(m: Mutation, scope: Scope): Mutation {
    match m.op
    case DirectResponse =>
      m.(headersProg := Some(Program(scope, StringMapKind, m.headers)),
         bodyProg := Some(Program(scope, StringKind, m.body)))
    case SetHeader => m.(valueProg := Some(Program(scope, StringKind, m.value)))
    case AppendHeader => m.(valueProg := Some(Program(scope, StringKind, m.value)))
    case SetBody => m.(valueProg := Some(Program(scope, StringKind, m.value)))
    case SetStatus => m.(codeProg := Some(Program(scope, IntKind, m.code)))
    case _ => m
  }

  predicate RuleCompiles(cel: Cel, r: Rule, scope: Scope) {
    cel.compiles(scope, BoolKind, r.source) &&
    forall i :: 0 <= i < |r.mutations| ==> MutationCompiles(cel, r.mutations[i], scope)
  }

  function CompiledRule(r: Rule, scope: Scope): Rule {
    r.(matchProg := Some(Program(scope, BoolKind, r.source)),
       mutations := seq(|r.mutations|, i requires 0 <= i < |r.mutations| => CompiledMutation(r.mutations[i], scope)))
  }

  predicate GroupCompiles(cel: Cel, g: Group) {
    (!Blank(g.guard) ==> cel.compiles(ScopeOf(g), BoolKind, g.guard)) &&
    forall i :: 0 <= i < |g.rules| ==> RuleCompiles(cel, g.rules[i], ScopeOf(g))
  }

  function CompiledGroup(g: Group): Group {
    g.(guardProg := if Blank(g.guard) then g.guardProg else Some(Program(ScopeOf(g), BoolKind, g.guard)),
       rules := seq(|g.rules|, i requires 0 <= i < |g.rules| => CompiledRule(g.rules[i], ScopeOf(g))))
  }

  method CompileMutation(cel: Cel, m: Mutation, scope: Scope) returns (r: Option<Mutation>)
    ensures r == if MutationCompiles(cel, m, scope) then Some(CompiledMutation(m, scope)) else None
  {
    var c := m;
    match m.op {
    case DirectResponse =>
      if !cel.compiles(scope, StringMapKind, m.headers) { return None; }
      c := c.(headersProg := Some(Program(scope, StringMapKind, m.headers)));
      if !cel.compiles(scope, StringKind, m.body) { return None; }
      c := c.(bodyProg := Some(Program(scope, StringKind, m.body)));
    case SetHeader =>
      if !cel.compiles(scope, StringKind, m.value) { return None; }
      c := c.(valueProg := Some(Program(scope, StringKind, m.value)));
    case AppendHeader =>
      if !cel.compiles(scope, StringKind, m.value) { return None; }
      c := c.(valueProg := Some(Program(scope, StringKind, m.value)));
    case SetBody =>
      if !cel.compiles(scope, StringKind, m.value) { return None; }
      c := c.(valueProg := Some(Program(scope, StringKind, m.value)));
    case SetStatus =>
      if !cel.compiles(scope, IntKind, m.code) { return None; }
      c := c.(codeProg := Some(Program(scope, IntKind, m.code)));
    case _ =>
    }
    return Some(c);
  }

  method CompileRule(cel: Cel, r: Rule, scope: Scope) returns (c: Option<Rule>)
    ensures c == if RuleCompiles(cel, r, scope) then Some(CompiledRule(r, scope)) else None
  {
    if !cel.compiles(scope, BoolKind, r.source) {
      return None;
    }
    var ms := r.mutations;
    for i := 0 to |r.mutations|
      invariant |ms| == |r.mutations|
      invariant forall j :: 0 <= j < i ==> MutationCompiles(cel, r.mutations[j], scope)
      invariant forall j :: 0 <= j < |ms| ==>
                  ms[j] == if j < i then CompiledMutation(r.mutations[j], scope) else r.mutations[j]
    {
      var m := CompileMutation(cel, r.mutations[i], scope);
      if m.None? {
        return None;
      }
      ms := ms[i := m.value];
    }
    assert ms == CompiledRule(r, scope).mutations;
    return Some(r.(matchProg := Some(Program(scope, BoolKind, r.source)), mutations := ms));
  }

  method CompileGroup(cel: Cel, g: Group) returns (c: Option<Group>)
    ensures c == if GroupCompiles(cel, g) then Some(CompiledGroup(g)) else None
  {
    var scope := ScopeOf(g);
    var out := g;
    TrimSpaceBlank(g.guard);
    if TrimSpace(g.guard) != "" {
      if !cel.compiles(scope, BoolKind, g.guard) {
        return None;
      }
      out := out.(guardProg := Some(Program(scope, BoolKind, g.guard)));
    }
    var rs := g.rules;
    for i := 0 to |g.rules|
      invariant |rs| == |g.rules|
      invariant forall j :: 0 <= j < i ==> RuleCompiles(cel, g.rules[j], scope)
      invariant forall j :: 0 <= j < |rs| ==> rs[j] == if j < i then CompiledRule(g.rules[j], scope) else g.rules[j]
    {
      var r := CompileRule(cel, g.rules[i], scope);
      if r.None? {
        return None;
      }
      rs := rs[i := r.value];
    }
    assert rs == CompiledGroup(g).rules;
    return Some(out.(rules := rs));
  }

  /** policy.Config: the groups are updated in place by Compile. */
  class Config {
    const defaults: Defaults
    const facts: seq<Facts.Spec>
    var groups: seq<Group>
    var registry: Option<Facts.State>

    constructor (defaults: Defaults, facts: seq<Facts.Spec>, groups: seq<Group>)
      ensures this.defaults == defaults && this.facts == facts && this.groups == groups && registry == None
    {
      this.defaults := defaults;
      this.facts := facts;
      this.groups := groups;
      this.registry := None;
    }

    /** validate */
    method Validate() returns (ok: bool)
      ensures ok <==> WellFormed(defaults, groups)
    {
      if defaults.action != Allow && defaults.action != Deny { return false; }
      if defaults.onOverflow != Skip && defaults.onOverflow != Fail { return false; }
      if |groups| == 0 { return false; }
      ghost var names := GroupNames(groups);
      var seen: set<string> := {};
      for i := 0 to |groups|
        invariant Distinct(names[..i]) && seen == Elements(names[..i])
        invariant forall j :: 0 <= j < i ==> WellFormedGroup(groups[j])
      {
        SeenStep(names, i, seen);
        var g := groups[i];
        if g.name == "" { return false; }
        if g.name in seen { return false; }
        seen := seen + {g.name};
        var good := ValidateParameters(g);
        if !good { return false; }
        if |g.rules| == 0 { return false; }
        good := ValidateRules(g.rules, g.engine, g.mode, g.phase);
        if !good { return false; }
      }
      assert names[..|groups|] == names;
      return true;
    }

    /** compile: on success every program field is filled and nothing else changes. */
    method Compile(cel: Cel) returns (ok: bool)
      modifies this`groups
      ensures ok <==> forall i :: 0 <= i < |old(groups)| ==> GroupCompiles(cel, old(groups)[i])
      ensures ok ==> |groups| == |old(groups)|
                     && forall i :: 0 <= i < |groups| ==> groups[i] == CompiledGroup(old(groups)[i])
    {
      ghost var parsed := groups;
      for i := 0 to |groups|
        invariant |groups| == |parsed|
        invariant forall j :: 0 <= j < i ==> GroupCompiles(cel, parsed[j])
        invariant forall j :: 0 <= j < |groups| ==> groups[j] == if j < i then CompiledGroup(parsed[j]) else parsed[j]
      {
        var g := CompileGroup(cel, groups[i]);
        if g.None? {
          return false;
        }
        groups := groups[i := g.value];
      }
      return true;
    }

    /** LoadBytes after decoding: validate, create the CEL environment (envOk is its outcome) and the
        facts registry, compile. A loaded policy is accepted and its registry is ready to start. */
    method Load(cel: Cel, envOk: bool) returns (ok: bool)
      requires forall i :: 0 <= i < |groups| ==> Fresh(groups[i])
      modifies this
      ensures ok <==>
              && WellFormed(defaults, old(groups)) && envOk && Facts.SpecsOk(facts)
              && forall i :: 0 <= i < |old(groups)| ==> DeclaredCompiles(cel, old(groups)[i])
      ensures ok ==> Accepted(defaults, groups) && registry == Some(Facts.Fresh(Facts.SourcesOf(facts)))
      ensures ok ==> |groups| == |old(groups)|
                     && forall i :: 0 <= i < |groups| ==>
                          groups[i].phase == old(groups)[i].phase && groups[i].engine == old(groups)[i].engine
                          && DeclaredScopes(groups[i])
    {
      ghost var parsed := groups;
      ok := Validate();
      if !ok {
        return;
      }
      if !envOk {
        return false;
      }
      registry := Facts.New(facts);
      if registry.None? {
        return false;
      }
      forall i | 0 <= i < |groups|
        ensures GroupCompiles(cel, groups[i]) <==> DeclaredCompiles(cel, groups[i])
      {
        CompilesIffDeclared(cel, groups[i]);
      }
      ok := Compile(cel);
      if ok {
        CompiledIsAccepted(defaults, parsed, groups);
        forall i | 0 <= i < |groups|
          ensures DeclaredScopes(groups[i])
        {
          CompiledScopes(parsed[i]);
        }
      }
    }
  }

  // ------------------------------------------------- accepted policies

  /** Decoding leaves every program unset. */
  predicate Fresh(g: Group) {
    g.guardProg.None? && forall i :: 0 <= i < |g.rules| ==> FreshRule(g.rules[i])
  }

  predicate FreshRule(r: Rule) {
    r.matchProg.None? && forall i :: 0 <= i < |r.mutations| ==> FreshMutation(r.mutations[i])
  }

  predicate FreshMutation(m: Mutation) {
    m.valueProg.None? && m.codeProg.None? && m.headersProg.None? && m.bodyProg.None?
  }

  // ---------------------------------- what a policy's expressions may mention

  /** The group's expressions may mention the response. */
  predicate SeesResponse(g: Group) {
    g.engine == ExtProc && (g.phase == ResponseHeaders || g.phase == ResponseBody)
  }

  /** One expression of a policy and the type its place demands. */
  datatype Expression = Expression(kind: Kind, src: string)

  /** The expressions a mutation is made of. */
  function ExpressionsOf(m: Mutation): set<Expression> {
    if m.op in {SetHeader, AppendHeader, SetBody} then {Expression(StringKind, m.value)}
    else if m.op == SetStatus then {Expression(IntKind, m.code)}
    else if m.op == DirectResponse then {Expression(StringMapKind, m.headers), Expression(StringKind, m.body)}
    else {}
  }

  /** Every expression of the group compiles, with the response declared exactly in response phases. */
  predicate DeclaredCompiles(cel: Cel, g: Group) {
    var scope := if SeesResponse(g) then ResponseScope else RequestScope;
    && (Blank(g.guard) || cel.compiles(scope, BoolKind, g.guard))
    && (forall i :: 0 <= i < |g.rules| ==> cel.compiles(scope, BoolKind, g.rules[i].source))
    && forall i, j :: 0 <= i < |g.rules| && 0 <= j < |g.rules[i].mutations| ==>
         forall x :: x in ExpressionsOf(g.rules[i].mutations[j]) ==> cel.compiles(scope, x.kind, x.src)
  }

  /** A program, if it is there, sees the response exactly if it should. */
  predicate Sees(p: Option<Program>, response: bool) {
    p.Some? ==> (p.value.scope.ResponseScope? <==> response)
  }

  /** Every program of the group sees the response exactly in response phases. */
  predicate DeclaredScopes(g: Group) {
    && Sees(g.guardProg, SeesResponse(g))
    && forall i :: 0 <= i < |g.rules| ==>
         && Sees(g.rules[i].matchProg, SeesResponse(g))
         && forall j :: 0 <= j < |g.rules[i].mutations| ==> MutationSees(g.rules[i].mutations[j], SeesResponse(g))
  }

  predicate MutationSees(m: Mutation, response: bool) {
    && Sees(m.valueProg, response) && Sees(m.codeProg, response)
    && Sees(m.headersProg, response) && Sees(m.bodyProg, response)
  }

  lemma MutationExpressions(cel: Cel, m: Mutation, scope: Scope)
    ensures MutationCompiles(cel, m, scope) <==>
            forall x :: x in ExpressionsOf(m) ==> cel.compiles(scope, x.kind, x.src)
  {
    var value, code := Expression(StringKind, m.value), Expression(IntKind, m.code);
    var headers, body := Expression(StringMapKind, m.headers), Expression(StringKind, m.body);
    assert m.op in {SetHeader, AppendHeader, SetBody} ==> value in ExpressionsOf(m);
    assert m.op == SetStatus ==> code in ExpressionsOf(m);
    assert m.op == DirectResponse ==> headers in ExpressionsOf(m) && body in ExpressionsOf(m);
  }

  /** What compile demands of a validated group is that its declared expressions compile. */
  lemma CompilesIffDeclared(cel: Cel, g: Group)
    requires g.engine == ExtAuthz || g.engine == ExtProc
    ensures GroupCompiles(cel, g) <==> DeclaredCompiles(cel, g)
  {
    var scope := if SeesResponse(g) then ResponseScope else RequestScope;
    assert ScopeOf(g) == scope;
    forall i | 0 <= i < |g.rules|
      ensures RuleCompiles(cel, g.rules[i], scope) <==>
              && cel.compiles(scope, BoolKind, g.rules[i].source)
              && forall j :: 0 <= j < |g.rules[i].mutations| ==>
                   forall x :: x in ExpressionsOf(g.rules[i].mutations[j]) ==> cel.compiles(scope, x.kind, x.src)
    {
      forall j | 0 <= j < |g.rules[i].mutations| {
        MutationExpressions(cel, g.rules[i].mutations[j], scope);
      }
    }
  }

  /** After compilation, exactly the programs of extProc groups in a response phase see the response. */
  lemma CompiledScopes(g: Group)
    requires Fresh(g) && (g.engine == ExtAuthz || g.engine == ExtProc)
    ensures DeclaredScopes(CompiledGroup(g))
  {
    var c := CompiledGroup(g);
    forall i, j | 0 <= i < |c.rules| && 0 <= j < |c.rules[i].mutations|
      ensures MutationSees(c.rules[i].mutations[j], SeesResponse(c))
    {
      assert FreshRule(g.rules[i]) && FreshMutation(g.rules[i].mutations[j]);
    }
  }

  predicate ReadyMutation(m: Mutation, scope: Scope) {
    match m.op
    case DirectResponse =>
      && m.headersProg == Some(Program(scope, StringMapKind, m.headers))
      && m.bodyProg == Some(Program(scope, StringKind, m.body))
    case SetHeader => m.valueProg == Some(Program(scope, StringKind, m.value))
    case AppendHeader => m.valueProg == Some(Program(scope, StringKind, m.value))
    case SetBody => m.valueProg == Some(Program(scope, StringKind, m.value))
    case SetStatus => m.codeProg == Some(Program(scope, IntKind, m.code))
    case _ => true
  }

  predicate ReadyRule(r: Rule, scope: Scope) {
    && r.matchProg == Some(Program(scope, BoolKind, r.source))
    && forall i :: 0 <= i < |r.mutations| ==> ReadyMutation(r.mutations[i], scope)
  }

  /** Every program a group can run exists and was compiled in the group's scope. */
  predicate ReadyGroup(g: Group) {
    && g.guardProg == (if Blank(g.guard) then None else Some(Program(ScopeOf(g), BoolKind, g.guard)))
    && forall i :: 0 <= i < |g.rules| ==> ReadyRule(g.rules[i], ScopeOf(g))
  }

  /** What a policy that passed validate and compile guarantees at run time. */
  predicate Accepted(d: Defaults, gs: seq<Group>) {
    WellFormed(d, gs) && forall i :: 0 <= i < |gs| ==> ReadyGroup(gs[i])
  }

  lemma CompiledMutationKeeps(m: Mutation, phase: Phase, scope: Scope)
    ensures CompiledMutation(m, scope).op == m.op
    ensures WellFormedMutation(CompiledMutation(m, scope), phase) <==> WellFormedMutation(m, phase)
    ensures ReadyMutation(CompiledMutation(m, scope), scope)
  {
  }

  lemma CompiledMutationsKeep(ms: seq<Mutation>, cs: seq<Mutation>, phase: Phase, scope: Scope)
    requires |cs| == |ms| && forall i :: 0 <= i < |cs| ==> cs[i] == CompiledMutation(ms[i], scope)
    ensures WellFormedMutations(ms, phase) ==> WellFormedMutations(cs, phase)
    ensures forall i :: 0 <= i < |cs| ==> ReadyMutation(cs[i], scope)
  {
    forall i | 0 <= i < |cs|
      ensures cs[i].op == ms[i].op && ReadyMutation(cs[i], scope)
      ensures WellFormedMutation(cs[i], phase) <==> WellFormedMutation(ms[i], phase)
    {
      CompiledMutationKeeps(ms[i], phase, scope);
    }
  }

  lemma CompiledRuleKeeps(r: Rule, engine: Engine, mode: Mode, phase: Phase, scope: Scope)
    requires WellFormedRule(r, engine, mode, phase)
    ensures WellFormedRule(CompiledRule(r, scope), engine, mode, phase)
    ensures ReadyRule(CompiledRule(r, scope), scope)
  {
    CompiledMutationsKeep(r.mutations, CompiledRule(r, scope).mutations, phase, scope);
  }

  lemma CompiledGroupKeeps(g: Group)
    requires WellFormedGroup(g) && Fresh(g)
    ensures WellFormedGroup(CompiledGroup(g)) && ReadyGroup(CompiledGroup(g))
    ensures CompiledGroup(g).name == g.name
  {
    var c := CompiledGroup(g);
    assert ScopeOf(c) == ScopeOf(g);
    assert RuleNames(c.rules) == RuleNames(g.rules);
    forall i | 0 <= i < |c.rules|
      ensures c.rules[i].name == g.rules[i].name
      ensures WellFormedRule(c.rules[i], c.engine, c.mode, c.phase) && ReadyRule(c.rules[i], ScopeOf(c))
    {
      CompiledRuleKeeps(g.rules[i], g.engine, g.mode, g.phase, ScopeOf(g));
    }
  }

  /** Compilation preserves validity and makes every group ready to run. */
  lemma CompiledIsAccepted(d: Defaults, parsed: seq<Group>, gs: seq<Group>)
    requires WellFormed(d, parsed) && forall i :: 0 <= i < |parsed| ==> Fresh(parsed[i])
    requires |gs| == |parsed| && forall i :: 0 <= i < |gs| ==> gs[i] == CompiledGroup(parsed[i])
    ensures Accepted(d, gs)
  {
    forall i | 0 <= i < |gs|
      ensures WellFormedGroup(gs[i]) && ReadyGroup(gs[i]) && gs[i].name == parsed[i].name
    {
      CompiledGroupKeeps(parsed[i]);
    }
    assert GroupNames(gs) == GroupNames(parsed);
  }
}
