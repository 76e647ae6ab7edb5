// Whole runs of the ext_proc stream, under any schedule of policy swaps: what
// each evaluation sees and what each reply is, in terms of the messages alone.
module StreamRuns {
  import opened Prelude
  import opened Mutations
  import opened Policy
  import opened ExtProc
  import opened Stream

  datatype Direction = ToUpstream | ToClient

  /** A headers message of the direction, handled under a loaded policy. */
  predicate Opens(e: Event, dir: Direction) {
    e.policy.Some? && if dir.ToUpstream? then e.msg.RequestHeadersMsg? else e.msg.ResponseHeadersMsg?
  }

  predicate CarriesBody(m: Message, dir: Direction) {
    if dir.ToUpstream? then m.RequestBodyMsg? else m.ResponseBodyMsg?
  }

  /** The body text a message adds to the direction. */
  function ChunkOf(e: Event, dir: Direction): string {
    if e.policy.Some? && CarriesBody(e.msg, dir) then e.msg.chunk else ""
  }

  /** All body text of the direction, in order. */
  function Chunks(es: seq<Event>, dir: Direction): string {
    if es == [] then "" else Chunks(es[..|es| - 1], dir) + ChunkOf(es[|es| - 1], dir)
  }

  /** One past the last headers message of the direction, or 0. */
  function LastOpening(es: seq<Event>, dir: Direction): (k: nat)
    ensures k <= |es|
    ensures k > 0 ==> Opens(es[k - 1], dir)
    ensures forall i :: k <= i < |es| ==> !Opens(es[i], dir)
  {
    if es == [] then 0
    else if Opens(es[|es| - 1], dir) then |es|
    else LastOpening(es[..|es| - 1], dir)
  }

  /** The body a direction has accumulated: every chunk since its last headers message. */
  function Accumulated(es: seq<Event>, dir: Direction): string {
    Chunks(es[LastOpening(es, dir)..], dir)
  }

  lemma AccumulatedStep(es: seq<Event>, dir: Direction)
    requires es != []
    ensures Accumulated(es, dir) ==
            if Opens(es[|es| - 1], dir) then ""
            else Accumulated(es[..|es| - 1], dir) + ChunkOf(es[|es| - 1], dir)
  {
    var k, n := LastOpening(es, dir), |es|;
    if !Opens(es[n - 1], dir) {
      assert es[k..][..n - k - 1] == es[..n - 1][k..];
    }
  }

  /** The head fields of the direction's last headers message. */
  function LastHead(es: seq<Event>, dir: Direction): Fields {
    var k := LastOpening(es, dir);
    if k == 0 then NO_FIELDS else es[k - 1].msg.head
  }

  function LastStatus(es: seq<Event>): int {
    var k := LastOpening(es, ToClient);
    if k == 0 then 0 else es[k - 1].msg.status
  }

  /** The request an evaluation sees after these messages. */
  function SeenRequest(es: seq<Event>): Request {
    Request(LastHead(es, ToUpstream), Accumulated(es, ToUpstream))
  }

  function SeenResponse(es: seq<Event>): Response {
    Response(LastStatus(es), LastHead(es, ToClient), Accumulated(es, ToClient))
  }

  lemma LastHeadStep(es: seq<Event>, dir: Direction)
    requires es != [] && !Opens(es[|es| - 1], dir)
    ensures LastHead(es, dir) == LastHead(es[..|es| - 1], dir)
    ensures dir.ToClient? ==> LastStatus(es) == LastStatus(es[..|es| - 1])
  {
  }

  /** What one message does to the request, and to what the trace shows of it. */
  lemma RequestStep(s: State, e: Event)
    ensures var r := OrNewRequest(s.req);
            OrNewRequest(Next(s, e).req) ==
            if Opens(e, ToUpstream) then Request(e.msg.head, "") else r.(body := r.body + ChunkOf(e, ToUpstream))
  {
    var r := OrNewRequest(s.req);
    assert r.body + "" == r.body;
  }

  lemma SeenRequestStep(es: seq<Event>)
    requires es != []
    ensures var e, r := es[|es| - 1], SeenRequest(es[..|es| - 1]);
            SeenRequest(es) ==
            if Opens(e, ToUpstream) then Request(e.msg.head, "") else r.(body := r.body + ChunkOf(e, ToUpstream))
  {
    AccumulatedStep(es, ToUpstream);
    if !Opens(es[|es| - 1], ToUpstream) {
      LastHeadStep(es, ToUpstream);
    }
  }

  lemma {:induction false} RequestIsTrace(es: seq<Event>)
    ensures OrNewRequest(After(es).req) == SeenRequest(es)
  {
    if es != [] {
      RequestIsTrace(es[..|es| - 1]);
      RequestStep(After(es[..|es| - 1]), es[|es| - 1]);
      SeenRequestStep(es);
    }
  }

  lemma ResponseStep(s: State, e: Event)
    ensures var r := OrNewResponse(s.resp);
            OrNewResponse(Next(s, e).resp) ==
            if Opens(e, ToClient) then Response(e.msg.status, e.msg.head, "")
            else r.(body := r.body + ChunkOf(e, ToClient))
  {
    var r := OrNewResponse(s.resp);
    assert r.body + "" == r.body;
  }

  lemma SeenResponseStep(es: seq<Event>)
    requires es != []
    ensures var e, r := es[|es| - 1], SeenResponse(es[..|es| - 1]);
            SeenResponse(es) ==
            if Opens(e, ToClient) then Response(e.msg.status, e.msg.head, "")
            else r.(body := r.body + ChunkOf(e, ToClient))
  {
    AccumulatedStep(es, ToClient);
    if !Opens(es[|es| - 1], ToClient) {
      LastHeadStep(es, ToClient);
    }
  }

  lemma {:induction false} ResponseIsTrace(es: seq<Event>)
    ensures OrNewResponse(After(es).resp) == SeenResponse(es)
  {
    if es != [] {
      ResponseIsTrace(es[..|es| - 1]);
      ResponseStep(After(es[..|es| - 1]), es[|es| - 1]);
      SeenResponseStep(es);
    }
  }

  /** The state of the stream is what the messages say. */
  lemma StateIsTrace(es: seq<Event>)
    ensures OrNewRequest(After(es).req) == SeenRequest(es)
    ensures OrNewResponse(After(es).resp) == SeenResponse(es)
  {
    RequestIsTrace(es);
    ResponseIsTrace(es);
  }

  /** The message at the end of the run overflows its direction's limit. */
  predicate Overflows(es: seq<Event>)
    requires es != []
  {
    var e := es[|es| - 1];
    && e.policy.Some?
    && ((e.msg.RequestBodyMsg? && |Accumulated(es, ToUpstream)| > e.policy.value.defaults.procMaxBody) ||
        (e.msg.ResponseBodyMsg? && |Accumulated(es, ToClient)| > e.policy.value.defaults.procMaxBody))
  }

  function SeenVars(es: seq<Event>): Vars
    requires es != []
  {
    var e := es[|es| - 1];
    PhaseVars(TagOf(e.msg), SeenRequest(es), Some(SeenResponse(es)), e.facts)
  }

  /** The mutations the policy resolves for the last message, evaluated on what the trace shows. */
  ghost function SeenMutations(es: seq<Event>): seq<ResolvedMutation>
    requires es != [] && ValidRun(es) && es[|es| - 1].policy.Some?
  {
    var e := es[|es| - 1];
    var p := e.policy.value;
    assert AllProcReady(p.groups, TagOf(e.msg), SeenVars(es)) by {
      AcceptedProcReady(p.defaults, p.groups, TagOf(e.msg), SeenRequest(es), Some(SeenResponse(es)), e.facts);
    }
    PhaseMutations(e.cel, p.groups, TagOf(e.msg), SeenVars(es))
  }

  /** The reply to the last message, as a function of the trace. */
  ghost function ReplyOf(es: seq<Event>): Reply
    requires es != [] && ValidRun(es)
  {
    var e := es[|es| - 1];
    var tag := TagOf(e.msg);
    if e.policy.None? || e.msg.OtherMsg? then Bare(tag)
    else if Overflows(es) then OverflowReply(e.policy.value.defaults, tag)
    else ProcReply(tag, e.policy.value.defaults.dryRun, SeenMutations(es))
  }

  lemma StatePresent(es: seq<Event>)
    requires es != [] && es[|es| - 1].policy.Some? && !es[|es| - 1].msg.OtherMsg?
    ensures After(es).req.Some?
    ensures IsResponsePhase(TagOf(es[|es| - 1].msg)) ==> After(es).resp.Some?
  {
  }

  /** Every reply of every run is the one its message history calls for: each evaluation sees exactly
      the chunks of its direction since that direction's last headers message, within the limit. */
  lemma {:induction false} RepliesFollowTrace(es: seq<Event>, i: nat)
    requires ValidRun(es) && i < |es|
    ensures ValidRun(es[..i + 1])
    ensures Replies(es)[i] == ReplyOf(es[..i + 1])
    decreases |es|
  {
    var init := es[..|es| - 1];
    if i < |init| {
      RepliesFollowTrace(init, i);
      assert init[..i + 1] == es[..i + 1];
    } else {
      assert es[..i + 1] == es;
      var e, s := es[i], After(es);
      if e.policy.Some? && !e.msg.OtherMsg? {
        StatePresent(es);
        StateIsTrace(es);
        assert s.req.value == SeenRequest(es);
        assert IsResponsePhase(TagOf(e.msg)) ==> s.resp == Some(SeenResponse(es));
        assert PhaseVars(TagOf(e.msg), s.req.value, s.resp, e.facts) == SeenVars(es);
      }
    }
  }

  // ---------------------------------------------------------- reply safety

  ghost predicate DirectApplies(es: seq<Event>)
    requires es != [] && ValidRun(es)
  {
    var e := es[|es| - 1];
    && e.policy.Some? && !e.msg.OtherMsg? && !Overflows(es)
    && FirstDirect(Live(SeenMutations(es), e.policy.value.defaults.dryRun)).Some?
  }

  ghost predicate OverflowFails(es: seq<Event>)
    requires es != []
  {
    Overflows(es) && es[|es| - 1].policy.value.defaults.onOverflow.Fail? && !es[|es| - 1].policy.value.defaults.dryRun
  }

  /** Safety of the reply to the last message of any run with accepted policies. */
  lemma ReplySafety(es: seq<Event>)
    requires es != [] && ValidRun(es)
    ensures var e, r := es[|es| - 1], ReplyOf(es);
            && (r.Phased? ==> OwnTag(e.msg, r.tag))
            && (e.policy.None? || e.policy.value.defaults.dryRun || e.msg.OtherMsg? ==>
                  r.Phased? && r.headers == None && r.body == None)
            && (r.Immediate? <==> OverflowFails(es) || DirectApplies(es))
            && (OverflowFails(es) ==> r == Immediate(500, None, "", "ext_proc body overflow"))
            && (DirectApplies(es) ==>
                  var m := FirstDirect(Live(SeenMutations(es), false)).value;
                  && r.status == m.respStatus && r.content == m.respBody && r.details == ""
                  && ListsHeaders(m.respHeaders, r.headers)
                  && (e.msg.ResponseHeadersMsg? || e.msg.ResponseBodyMsg?) && 1 <= r.status <= 599)
            && (e.policy.Some? && !e.msg.OtherMsg? && !Overflows(es) && !DirectApplies(es) ==>
                  var live := Live(SeenMutations(es), e.policy.value.defaults.dryRun);
                  r.headers == HeaderPart(live) && r.body == LastBody(live))
  {
    var e := es[|es| - 1];
    if e.policy.Some? && !e.msg.OtherMsg? {
      var d, ms := e.policy.value.defaults, SeenMutations(es);
      if d.dryRun {
        GlobalDryRunIsBare(TagOf(e.msg), ms);
        NothingLiveUnderDryRun(ms);
      } else if DirectApplies(es) {
        DirectIsLegal(es);
        MapHeadersLists(FirstDirect(Live(SeenMutations(es), false)).value.respHeaders);
      }
    }
  }

  /** The reply is that of one evaluation: the given phase of the policy in force, on the given variables. */
  ghost predicate Evaluates(es: seq<Event>, phase: Phase, vars: Vars)
    requires es != [] && ValidRun(es) && es[|es| - 1].policy.Some?
  {
    var e := es[|es| - 1];
    var p := e.policy.value;
    && AllProcReady(p.groups, phase, vars)
    && ReplyOf(es) == ProcReply(phase, p.defaults.dryRun, PhaseMutations(e.cel, p.groups, phase, vars))
  }

  /** Which phase each kind of message evaluates, and on what: the request the messages show, the response
      they show in the response phases only, and the facts in force. */
  lemma EvaluatedPhase(es: seq<Event>)
    requires es != [] && ValidRun(es) && es[|es| - 1].policy.Some? && !Overflows(es)
    ensures var e, req, resp := es[|es| - 1], SeenRequest(es), SeenResponse(es);
            && (e.msg.RequestHeadersMsg? ==> Evaluates(es, RequestHeaders, Vars(req, None, e.facts)))
            && (e.msg.RequestBodyMsg? ==> Evaluates(es, RequestBody, Vars(req, None, e.facts)))
            && (e.msg.ResponseHeadersMsg? ==> Evaluates(es, ResponseHeaders, Vars(req, Some(resp), e.facts)))
            && (e.msg.ResponseBodyMsg? ==> Evaluates(es, ResponseBody, Vars(req, Some(resp), e.facts)))
  {
    var e := es[|es| - 1];
    var p := e.policy.value;
    if !e.msg.OtherMsg? {
      AcceptedProcReady(p.defaults, p.groups, TagOf(e.msg), SeenRequest(es), Some(SeenResponse(es)), e.facts);
    }
  }

  lemma DirectIsLegal(es: seq<Event>)
    requires es != [] && ValidRun(es) && DirectApplies(es)
    ensures var m := FirstDirect(Live(SeenMutations(es), es[|es| - 1].policy.value.defaults.dryRun)).value;
            IsResponsePhase(TagOf(es[|es| - 1].msg)) && 1 <= m.respStatus <= 599
  {
    var e := es[|es| - 1];
    var p, tag := e.policy.value, TagOf(e.msg);
    AcceptedProcReady(p.defaults, p.groups, tag, SeenRequest(es), Some(SeenResponse(es)), e.facts);
    PhaseLegal(e.cel, p.groups, tag, SeenVars(es));
    LiveOnlyLive(SeenMutations(es), p.defaults.dryRun);
  }

  /** What a proxy makes of a phase reply: when the policy was evaluated, either order of applying the
      two header lists gives the live mutations' own meaning exactly when no header name is both
      written and removed; every other phase reply leaves the message alone. */
  lemma ReplyMeaning(es: seq<Event>, msg: HttpMessage)
    requires es != [] && ValidRun(es) && ReplyOf(es).Phased?
    ensures var e, r := es[|es| - 1], ReplyOf(es);
            if e.policy.Some? && !e.msg.OtherMsg? && !Overflows(es) then
              var live := Live(SeenMutations(es), e.policy.value.defaults.dryRun);
              (SetThenRemove(r.headers, r.body, msg) == RemoveThenSet(r.headers, r.body, msg) == ApplyAll(live, msg))
              <==> forall n :: !WrittenAndRemoved(live, n)
            else SetThenRemove(r.headers, r.body, msg) == RemoveThenSet(r.headers, r.body, msg) == msg
  {
    var e := es[|es| - 1];
    ReplySafety(es);
    if e.policy.Some? && !e.msg.OtherMsg? && !Overflows(es) {
      SplitPreservesMeaning(Live(SeenMutations(es), e.policy.value.defaults.dryRun), msg);
    }
  }

  // ------------------------------------------------------------- overflow

  /** Between two prefixes with no new headers message, a direction's body only grows. */
  lemma {:induction false} AccumulatedGrows(es: seq<Event>, i: nat, dir: Direction)
    requires i <= |es| && forall k :: i <= k < |es| ==> !Opens(es[k], dir)
    ensures Accumulated(es[..i], dir) <= Accumulated(es, dir)
    decreases |es|
  {
    if i == |es| {
      assert es[..i] == es;
    } else {
      var init := es[..|es| - 1];
      assert init[..i] == es[..i];
      AccumulatedGrows(init, i, dir);
      AccumulatedStep(es, dir);
    }
  }

  /** Once a direction overflows, every later body message of that direction overflows too, until
      the next headers message, as long as the limit in force does not rise. */
  lemma OverflowIsSticky(es: seq<Event>, i: nat, j: nat, dir: Direction)
    requires i < j < |es|
    requires CarriesBody(es[i].msg, dir) && CarriesBody(es[j].msg, dir)
    requires es[i].policy.Some? && es[j].policy.Some?
    requires es[j].policy.value.defaults.procMaxBody <= es[i].policy.value.defaults.procMaxBody
    requires forall k :: i < k <= j ==> !Opens(es[k], dir)
    requires Overflows(es[..i + 1])
    ensures Overflows(es[..j + 1])
  {
    assert es[..j + 1][..i + 1] == es[..i + 1];
    AccumulatedGrows(es[..j + 1], i + 1, dir);
  }

  /** A body that reaches the policy is within the limit in force. */
  lemma EvaluatedWithinLimit(es: seq<Event>, dir: Direction)
    requires es != [] && es[|es| - 1].policy.Some? && CarriesBody(es[|es| - 1].msg, dir)
    ensures Overflows(es) <==> |Accumulated(es, dir)| > es[|es| - 1].policy.value.defaults.procMaxBody
    ensures !Overflows(es) ==>
              var vars := SeenVars(es);
              && (if dir.ToUpstream? then vars.request.body else vars.response.value.body) == Accumulated(es, dir)
              && |Accumulated(es, dir)| <= es[|es| - 1].policy.value.defaults.procMaxBody
  {
  }
}
