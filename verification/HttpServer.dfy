// httpserver.handle: reading the body under a limit, evaluating the policy and
// enforcing or shadowing the verdict.
module HttpServer {
  import opened Prelude
  import opened Policy
  import opened Authz

  /** A policy as the servers hold it. */
  datatype Loaded = Loaded(defaults: Defaults, groups: seq<Group>)

  predicate LoadedOk(p: Loaded) {
    Accepted(p.defaults, p.groups)
  }

  /** The request body: the bytes that can be read, then end of file or a read error. */
  datatype BodySource = BodySource(data: string, broken: bool)

  /** limit + 1 in 64-bit arithmetic. */
  function Increment64(limit: int): int {
    if limit == INT64_MAX then INT64_MIN else limit + 1
  }

  /** io.ReadAll(io.LimitReader(src, n)); None is a read error. */
  function ReadLimited(src: BodySource, n: int): Option<string> {
    if n <= 0 then Some("")
    else if |src.data| >= n then Some(src.data[..n])
    else if src.broken then None
    else Some(src.data)
  }

  datatype Label = AllowLabel | DenyLabel | ErrorLabel

  /** One call of metrics.record. */
  datatype Sample = Sample(rule: string, outcome: Label, dryRun: bool)

  /** What the handler writes, with the status it hands to net/http, or the panic of slicing with a
      negative bound. */
  datatype Answer =
    | Answer(status: int, body: string, result: Option<Label>, rule: Option<string>, dry: Option<bool>, sample: Sample)
    | Panic

  function VerdictLabel(allowed: bool): Label {
    if allowed then AllowLabel else DenyLabel
  }

  /** The body the policy is evaluated on, when the handler gets as far as evaluating. */
  function EvaluatedBody(src: BodySource, limit: int): Option<string> {
    var body := ReadLimited(src, Increment64(limit));
    if body.Some? && |body.value| <= limit then body else None
  }

  /** handle */
  method Handle(policy: Option<Loaded>, cel: Cel, facts: map<string, string>, head: Fields, src: BodySource)
    returns (a: Answer)
    requires policy.Some? ==> LoadedOk(policy.value) && IsInt64(policy.value.defaults.authzMaxBody)
    ensures policy.None? ==>
              a == Answer(503, "no policy loaded", None, None, None, Sample("<noconfig>", ErrorLabel, false))
    ensures policy.Some? ==> Enforced(policy.value, cel, facts, head, src, a)
  {
    if policy.None? {
      return Answer(503, "no policy loaded", None, None, None, Sample("<noconfig>", ErrorLabel, false));
    }
    var d := policy.value.defaults;
    var limit := d.authzMaxBody;
    var body := ReadLimited(src, Increment64(limit));
    if body.None? {
      var sample := Sample("<read>", ErrorLabel, d.dryRun);
      if d.dryRun {
        return Answer(200, "", Some(DenyLabel), None, Some(true), sample);
      }
      return Answer(d.denyStatus, d.denyBody, Some(DenyLabel), None, Some(false), sample);
    }
    if |body.value| > limit {
      if limit < 0 {
        return Panic;
      }
      var sample := Sample("<overflow>", DenyLabel, d.dryRun);
      if d.dryRun {
        return Answer(200, "", Some(DenyLabel), Some("<overflow>"), Some(true), sample);
      }
      return Answer(d.denyStatus, d.denyBody, Some(DenyLabel), Some("<overflow>"), Some(false), sample);
    }
    var v := Evaluate(cel, d, policy.value.groups, Vars(Request(head, body.value), None, facts));
    var effectiveDry := d.dryRun || v.dryRun;
    var sample := Sample(v.rule, VerdictLabel(v.allowed), effectiveDry);
    if v.allowed || effectiveDry {
      return Answer(200, "", Some(VerdictLabel(v.allowed)), Some(v.rule), Some(effectiveDry), sample);
    }
    return Answer(d.denyStatus, d.denyBody, Some(DenyLabel), Some(v.rule), Some(false), sample);
  }

  /** What the answer must be: deny-with-status unless allowed or shadowed, and one sample that
      tells the same story as the headers. */
  ghost predicate Enforced(p: Loaded, cel: Cel, facts: map<string, string>, head: Fields, src: BodySource, a: Answer)
    requires LoadedOk(p)
  {
    var d := p.defaults;
    var seen := EvaluatedBody(src, d.authzMaxBody);
    if a.Panic? then d.authzMaxBody < 0
    else
      var shadowed := a.sample.dryRun;
      && d.authzMaxBody >= 0
      && a.dry == Some(shadowed)
      && (if a.result == Some(AllowLabel) || shadowed then a.status == 200 && a.body == ""
          else a.status == d.denyStatus && a.body == d.denyBody)
      && (seen.None? ==>
            && a.result == Some(DenyLabel)
            && if ReadLimited(src, Increment64(d.authzMaxBody)).None?
               then a.rule == None && a.sample == Sample("<read>", ErrorLabel, d.dryRun)
               else a.rule == Some("<overflow>") && a.sample == Sample("<overflow>", DenyLabel, d.dryRun))
      && (seen.Some? ==>
            var v := Verdict(cel, d, p.groups, Vars(Request(head, seen.value), None, facts));
            && a.result == Some(VerdictLabel(v.allowed)) && a.rule == Some(v.rule)
            && a.sample == Sample(v.rule, VerdictLabel(v.allowed), d.dryRun || v.dryRun))
  }

  /** Which body is evaluated, for every 64-bit limit. The last case shows the limit whose
      increment wraps: the whole body is ignored. */
  lemma EvaluatedBodyCases(src: BodySource, limit: int)
    requires IsInt64(limit)
    ensures 0 <= limit < INT64_MAX ==>
              EvaluatedBody(src, limit) == if !src.broken && |src.data| <= limit then Some(src.data) else None
    ensures limit < 0 ==> EvaluatedBody(src, limit).None?
    ensures limit == INT64_MAX ==> EvaluatedBody(src, limit) == Some("")
  {
  }

  /** What the client gets for a status handed to net/http: a panic aborts the response for a code
      outside 100 to 999, and after an informational code other than 101 the final status is 200. */
  datatype Wire = Status(code: int) | Aborted

  function Sent(status: int): Wire {
    if status < 100 || status > 999 then Aborted
    else if status <= 199 && status != 101 then Status(200)
    else Status(status)
  }

  /** The deny statuses the client cannot tell from an allow. */
  predicate FailsOpen(denyStatus: int) {
    denyStatus == 200 || (100 <= denyStatus <= 199 && denyStatus != 101)
  }

  /** The whole body was read within the limit and some group grants access after error-free skips. */
  ghost predicate Granted(p: Loaded, cel: Cel, facts: map<string, string>, head: Fields, src: BodySource)
    requires AllAuthzReady(p.groups)
  {
    && !src.broken && |src.data| <= p.defaults.authzMaxBody
    && exists w :: GrantedBy(cel, p.groups, Vars(Request(head, src.data), None, facts), w)
  }

  /** End-to-end fail-closed: with default deny, allowOnError off and no dry-run anywhere, the client
      gets 200 exactly when access is granted, or the deny status is one the client sees as 200. */
  lemma OkIffGranted(p: Loaded, cel: Cel, facts: map<string, string>, head: Fields, src: BodySource, a: Answer)
    requires LoadedOk(p) && 0 <= p.defaults.authzMaxBody < INT64_MAX
    requires p.defaults.action.Deny? && !p.defaults.allowOnError
    requires !p.defaults.dryRun && NoRuleDryRun(p.groups)
    requires Enforced(p, cel, facts, head, src, a)
    ensures AllAuthzReady(p.groups)
    ensures a.Answer? && (!Granted(p, cel, facts, head, src) ==> Sent(a.status) == Sent(p.defaults.denyStatus))
    ensures a.Answer? && (Sent(a.status) == Status(200) <==>
                          Granted(p, cel, facts, head, src) || FailsOpen(p.defaults.denyStatus))
  {
    EvaluatedBodyCases(src, p.defaults.authzMaxBody);
    if EvaluatedBody(src, p.defaults.authzMaxBody).Some? {
      var vars := Vars(Request(head, src.data), None, facts);
      AllowedIffGranted(cel, p.defaults, p.groups, vars);
      VerdictNotDry(cel, p.defaults, p.groups, vars);
    }
  }
}
