// grpcserver: the ext_proc stream as a state machine. The policy is read again
// for every message, so a run is a sequence of messages each paired with the
// policy, the evaluator and the facts in force when it is handled.
module Stream {
  import opened Prelude
  import opened Ordering
  import opened Mutations
  import opened Policy
  import opened HttpServer
  import opened ExtProc

  datatype Message =
    | RequestHeadersMsg(head: Fields)
    | RequestBodyMsg(chunk: string)
    | ResponseHeadersMsg(status: int, head: Fields)
    | ResponseBodyMsg(chunk: string)
    | OtherMsg

  datatype Event = Event(policy: Option<Loaded>, cel: Cel, facts: map<string, string>, msg: Message)

  datatype Reply =
    | Phased(tag: Phase, headers: Option<HeaderMutation>, body: Option<string>)
    | Immediate(status: int, headers: Option<HeaderMutation>, content: string, details: string)

  predicate ValidEvent(e: Event) {
    e.policy.Some? ==> LoadedOk(e.policy.value)
  }

  predicate ValidRun(es: seq<Event>) {
    forall i :: 0 <= i < |es| ==> ValidEvent(es[i])
  }

  /** The reply tag the switch chooses; messages without a phase are answered as request headers. */
  function TagOf(m: Message): Phase {
    match m
    case RequestHeadersMsg(_) => RequestHeaders
    case RequestBodyMsg(_) => RequestBody
    case ResponseHeadersMsg(_, _) => ResponseHeaders
    case ResponseBodyMsg(_) => ResponseBody
    case OtherMsg => RequestHeaders
  }

  /** Each of the four kinds of message is answered with its own tag; anything else as request headers. */
  predicate OwnTag(m: Message, tag: Phase) {
    && (m.RequestHeadersMsg? ==> tag == RequestHeaders) && (m.RequestBodyMsg? ==> tag == RequestBody)
    && (m.ResponseHeadersMsg? ==> tag == ResponseHeaders) && (m.ResponseBodyMsg? ==> tag == ResponseBody)
    && (m.OtherMsg? ==> tag == RequestHeaders)
  }

  /** A CONTINUE that changes nothing. */
  function Bare(tag: Phase): Reply {
    Phased(tag, None, None)
  }

  // ------------------------------------------------- one evaluation result

  function IsLive(m: ResolvedMutation, dryGlobal: bool): bool {
    !(dryGlobal || m.dryRun)
  }

  /** The mutations not shadowed by dry-run, in order. */
  function Live(ms: seq<ResolvedMutation>, dryGlobal: bool): seq<ResolvedMutation> {
    if ms == [] then []
    else
      var m := ms[|ms| - 1];
      Push(Live(ms[..|ms| - 1], dryGlobal), LiveOf(m, dryGlobal))
  }

  function FirstDirect(ms: seq<ResolvedMutation>): (r: Option<ResolvedMutation>)
    ensures r.None? <==> NoDirect(ms)
    ensures r.Some? ==> r.value in ms && r.value.op.DirectResponse?
    ensures r.Some? ==>
              exists i :: 0 <= i < |ms| && ms[i] == r.value && forall j :: 0 <= j < i ==> !ms[j].op.DirectResponse?
  {
    if ms == [] then None
    else
      var earlier := FirstDirect(ms[..|ms| - 1]);
      if earlier.Some? then earlier
      else if ms[|ms| - 1].op.DirectResponse? then Some(ms[|ms| - 1]) else None
  }

  function OptionOf(h: map<string, string>, k: string): HeaderOption {
    HeaderOption(k, if k in h then h[k] else "", OverwriteOrAdd)
  }

  /** One overwriting header option per key, in the order of the keys. */
  function OptionsOf(h: map<string, string>, keys: seq<string>): seq<HeaderOption> {
    if keys == [] then [] else OptionsOf(h, keys[..|keys| - 1]) + [OptionOf(h, keys[|keys| - 1])]
  }

  ghost function MapHeaders(h: map<string, string>): Option<HeaderMutation> {
    if |h| == 0 then None else Some(HeaderMutation(OptionsOf(h, SortedKeys(h.Keys)), []))
  }

  /** The header list of an immediate response: absent for no headers; otherwise every entry of the map
      exactly once, with its value, replacing what was there, in increasing key order; no removals. */
  ghost predicate ListsHeaders(h: map<string, string>, r: Option<HeaderMutation>) {
    if h == map[] then r == None
    else
      && r.Some? && r.value.removeHeaders == []
      && (forall k :: k in h <==> exists i :: 0 <= i < |r.value.setHeaders| && r.value.setHeaders[i].key == k)
      && (forall i :: 0 <= i < |r.value.setHeaders| ==>
            var o := r.value.setHeaders[i]; o.key in h && o.raw == h[o.key] && o.action == OverwriteOrAdd)
      && (forall i, j :: 0 <= i < j < |r.value.setHeaders| ==>
            r.value.setHeaders[i].key != r.value.setHeaders[j].key
            && Leq(r.value.setHeaders[i].key, r.value.setHeaders[j].key))
  }

  lemma {:induction false} OptionsAt(h: map<string, string>, keys: seq<string>)
    ensures |OptionsOf(h, keys)| == |keys|
    ensures forall i :: 0 <= i < |keys| ==> OptionsOf(h, keys)[i] == OptionOf(h, keys[i])
  {
    if keys != [] {
      OptionsAt(h, keys[..|keys| - 1]);
    }
  }

  lemma SortedOptions(h: map<string, string>, keys: seq<string>, sets: seq<HeaderOption>)
    requires Sorted(keys) && Distinct(keys) && (forall k :: k in keys <==> k in h)
    requires sets == OptionsOf(h, keys) && h != map[]
    ensures ListsHeaders(h, Some(HeaderMutation(sets, [])))
  {
    OptionsAt(h, keys);
    assert |sets| == |keys| && forall i :: 0 <= i < |keys| ==> sets[i].key == keys[i];
    forall k
      ensures k in h <==> exists i :: 0 <= i < |sets| && sets[i].key == k
    {
      if k in h {
        var i :| 0 <= i < |keys| && keys[i] == k;
        assert sets[i].key == k;
      }
    }
  }

  lemma MapHeadersLists(h: map<string, string>)
    ensures ListsHeaders(h, MapHeaders(h))
  {
    if h != map[] {
      var k :| k in h;
      assert |h.Keys| > 0;
      var keys := SortedKeys(h.Keys);
      SortedOptions(h, keys, OptionsOf(h, keys));
    }
  }

  /** buildHeaderMutationFromMap: the entries in sorted key order, whatever order the map yields. */
  method HeadersFromMap(h: map<string, string>) returns (r: Option<HeaderMutation>)
    ensures r == MapHeaders(h) && ListsHeaders(h, r)
  {
    MapHeadersLists(h);
    if |h| == 0 {
      return None;
    }
    var keys := ListSorted(h.Keys);
    var sets := ListOptions(h, keys);
    r := Some(HeaderMutation(sets, []));
  }

  method ListOptions(h: map<string, string>, keys: seq<string>) returns (sets: seq<HeaderOption>)
    requires forall k :: k in keys ==> k in h
    ensures sets == OptionsOf(h, keys)
  {
    sets := [];
    for i := 0 to |keys|
      invariant sets == OptionsOf(h, keys[..i])
    {
      assert keys[..i + 1][..i] == keys[..i];
      sets := sets + [HeaderOption(keys[i], h[keys[i]], OverwriteOrAdd)];
    }
    assert keys[..|keys|] == keys;
  }

  ghost function DirectReply(m: ResolvedMutation): Reply {
    Immediate(m.respStatus, MapHeaders(m.respHeaders), m.respBody, "")
  }

  /** The reply to one evaluation: the first live directResponse, or exactly the live mutations. */
  ghost function ProcReply(phase: Phase, dryGlobal: bool, ms: seq<ResolvedMutation>): Reply {
    var live := Live(ms, dryGlobal);
    match FirstDirect(live)
    case Some(m) => DirectReply(m)
    case None => Phased(phase, HeaderPart(live), LastBody(live))
  }

  lemma {:induction false} FirstDirectPush(ms: seq<ResolvedMutation>, o: Option<ResolvedMutation>)
    ensures FirstDirect(Push(ms, o)) ==
            if FirstDirect(ms).Some? then FirstDirect(ms)
            else if o.Some? && o.value.op.DirectResponse? then o else None
  {
    if o.Some? {
      assert (ms + [o.value])[..|ms|] == ms;
    }
  }

  function LiveOf(m: ResolvedMutation, dryGlobal: bool): Option<ResolvedMutation> {
    if IsLive(m, dryGlobal) then Some(m) else None
  }

  lemma LiveStep(ms: seq<ResolvedMutation>, dryGlobal: bool)
    requires ms != []
    ensures Live(ms, dryGlobal) == Push(Live(ms[..|ms| - 1], dryGlobal), LiveOf(ms[|ms| - 1], dryGlobal))
    ensures FirstDirect(Live(ms[..|ms| - 1], dryGlobal)).Some? ==>
              FirstDirect(Live(ms, dryGlobal)) == FirstDirect(Live(ms[..|ms| - 1], dryGlobal))
  {
    FirstDirectPush(Live(ms[..|ms| - 1], dryGlobal), LiveOf(ms[|ms| - 1], dryGlobal));
  }

  lemma {:induction false} LiveDirectPrefix(ms: seq<ResolvedMutation>, dryGlobal: bool, i: nat)
    requires i <= |ms|
    ensures FirstDirect(Live(ms[..i], dryGlobal)).Some? ==>
              FirstDirect(Live(ms, dryGlobal)) == FirstDirect(Live(ms[..i], dryGlobal))
    decreases |ms|
  {
    if i == |ms| {
      assert ms[..i] == ms;
    } else {
      assert ms[..|ms| - 1][..i] == ms[..i];
      LiveDirectPrefix(ms[..|ms| - 1], dryGlobal, i);
      LiveStep(ms, dryGlobal);
    }
  }

  /** handleProcResult */
  method HandleProcResult(phase: Phase, dryGlobal: bool, ms: seq<ResolvedMutation>) returns (reply: Reply)
    ensures reply == ProcReply(phase, dryGlobal, ms)
  {
    for i := 0 to |ms|
      invariant FirstDirect(Live(ms[..i], dryGlobal)).None?
    {
      var m := ms[i];
      assert ms[..i + 1][..i] == ms[..i];
      FirstDirectPush(Live(ms[..i], dryGlobal), LiveOf(m, dryGlobal));
      if m.op == DirectResponse && !(dryGlobal || m.dryRun) {
        LiveDirectPrefix(ms, dryGlobal, i + 1);
        var headers := HeadersFromMap(m.respHeaders);
        return Immediate(m.respStatus, headers, m.respBody, "");
      }
    }
    assert ms[..|ms|] == ms;
    var applied: seq<ResolvedMutation> := [];
    for i := 0 to |ms|
      invariant applied == Live(ms[..i], dryGlobal)
    {
      assert ms[..i + 1][..i] == ms[..i];
      if dryGlobal || ms[i].dryRun {
        continue;
      }
      LiveContains(ms, dryGlobal, i);
      if ms[i].op == DirectResponse {
        assert false;
      }
      applied := applied + [ms[i]];
    }
    var hm, bm := BuildMutations(applied);
    reply := Phased(phase, hm, bm);
  }

  lemma {:induction false} LiveContains(ms: seq<ResolvedMutation>, dryGlobal: bool, i: nat)
    requires i < |ms| && IsLive(ms[i], dryGlobal)
    ensures ms[i] in Live(ms, dryGlobal)
  {
    if i < |ms| - 1 {
      assert ms[..|ms| - 1][i] == ms[i];
      LiveContains(ms[..|ms| - 1], dryGlobal, i);
    }
  }

  lemma {:induction false} LiveOnlyLive(ms: seq<ResolvedMutation>, dryGlobal: bool)
    ensures forall m :: m in Live(ms, dryGlobal) ==> m in ms && IsLive(m, dryGlobal)
  {
    if ms != [] {
      LiveOnlyLive(ms[..|ms| - 1], dryGlobal);
    }
  }

  lemma {:induction false} LiveIdempotent(ms: seq<ResolvedMutation>, dryGlobal: bool)
    ensures Live(Live(ms, dryGlobal), dryGlobal) == Live(ms, dryGlobal)
  {
    if ms != [] {
      var init, m := Live(ms[..|ms| - 1], dryGlobal), ms[|ms| - 1];
      LiveIdempotent(ms[..|ms| - 1], dryGlobal);
      if IsLive(m, dryGlobal) {
        assert (init + [m])[..|init|] == init;
      }
    }
  }

  /** Deleting every dry mutation leaves the reply unchanged. */
  lemma {:induction false} DryMutationsAreInvisible(phase: Phase, dryGlobal: bool, ms: seq<ResolvedMutation>)
    ensures ProcReply(phase, dryGlobal, ms) == ProcReply(phase, dryGlobal, Live(ms, dryGlobal))
  {
    LiveIdempotent(ms, dryGlobal);
  }

  lemma {:induction false} NothingLiveUnderDryRun(ms: seq<ResolvedMutation>)
    ensures Live(ms, true) == []
  {
    if ms != [] {
      NothingLiveUnderDryRun(ms[..|ms| - 1]);
    }
  }

  lemma GlobalDryRunIsBare(phase: Phase, ms: seq<ResolvedMutation>)
    ensures ProcReply(phase, true, ms) == Bare(phase)
  {
    NothingLiveUnderDryRun(ms);
  }

  // -------------------------------------------------------- stream states

  /** Per-stream state: the current request and response, with the bodies read so far. */
  datatype State = State(req: Option<Request>, resp: Option<Response>)

  const NO_FIELDS: Fields := map[]

  function OrNewRequest(r: Option<Request>): Request {
    if r.Some? then r.value else Request(NO_FIELDS, "")
  }

  function OrNewResponse(r: Option<Response>): Response {
    if r.Some? then r.value else Response(0, NO_FIELDS, "")
  }

  function Next(s: State, e: Event): State {
    if e.policy.None? then s
    else
      var req := OrNewRequest(s.req);
      match e.msg
      case RequestHeadersMsg(head) => s.(req := Some(Request(head, "")))
      case RequestBodyMsg(chunk) => s.(req := Some(req.(body := req.body + chunk)))
      case ResponseHeadersMsg(status, head) => State(Some(req), Some(Response(status, head, "")))
      case ResponseBodyMsg(chunk) =>
        var resp := OrNewResponse(s.resp);
        State(Some(req), Some(resp.(body := resp.body + chunk)))
      case OtherMsg => s
  }

  /** The state after a run. */
  function After(es: seq<Event>): State {
    if es == [] then State(None, None) else Next(After(es[..|es| - 1]), es[|es| - 1])
  }

  function OverflowReply(d: Defaults, tag: Phase): Reply {
    if d.onOverflow.Fail? && !d.dryRun then Immediate(500, None, "", "ext_proc body overflow") else Bare(tag)
  }

  /** The reply given the state reached by handling the message. */
  ghost function ReplyIn(s: State, e: Event): Reply
    requires ValidEvent(e)
    requires e.policy.Some? ==> (e.msg.OtherMsg? || s.req.Some?) && (IsResponsePhase(TagOf(e.msg)) ==> s.resp.Some?)
  {
    var tag := TagOf(e.msg);
    if e.policy.None? || e.msg.OtherMsg? then Bare(tag)
    else
      var d, gs := e.policy.value.defaults, e.policy.value.groups;
      if (e.msg.RequestBodyMsg? && |s.req.value.body| > d.procMaxBody) ||
         (e.msg.ResponseBodyMsg? && |s.resp.value.body| > d.procMaxBody)
      then OverflowReply(d, tag)
      else
        var vars := PhaseVars(tag, s.req.value, s.resp, e.facts);
        assert AllProcReady(gs, tag, vars) by {
          AcceptedProcReady(d, gs, tag, s.req.value, s.resp, e.facts);
        }
        ProcReply(tag, d.dryRun, PhaseMutations(e.cel, gs, tag, vars))
  }

  /** The replies of a run, one per message. */
  ghost function Replies(es: seq<Event>): (rs: seq<Reply>)
    requires ValidRun(es)
    ensures |rs| == |es|
  {
    if es == [] then [] else Replies(es[..|es| - 1]) + [ReplyIn(After(es), es[|es| - 1])]
  }

  /** One more message. */
  lemma RunStep(es: seq<Event>, i: nat)
    requires ValidRun(es) && i < |es|
    ensures ValidRun(es[..i]) && ValidRun(es[..i + 1]) && ValidEvent(es[i])
    ensures After(es[..i + 1]) == Next(After(es[..i]), es[i])
    ensures Replies(es[..i + 1]) == Replies(es[..i]) + [ReplyIn(After(es[..i + 1]), es[i])]
  {
    assert es[..i + 1][..i] == es[..i];
  }

  /** One stream of grpcserver.Server. */
  class ProcessStream {
    var req: Option<Request>
    var resp: Option<Response>

    ghost function Current(): State
      reads this
    {
      State(req, resp)
    }

    constructor ()
      ensures Current() == After([])
    {
      req, resp := None, None;
    }

    /** Evaluates the policy for one phase and builds the reply. */
    method Respond(e: Event, phase: Phase) returns (reply: Reply)
      requires ValidEvent(e) && e.policy.Some? && req.Some? && phase == TagOf(e.msg)
      requires IsResponsePhase(phase) ==> resp.Some?
      ensures reply ==
              (var vars := PhaseVars(phase, req.value, resp, e.facts);
               AcceptedProcReady(e.policy.value.defaults, e.policy.value.groups, phase, req.value, resp, e.facts);
               ProcReply(phase, e.policy.value.defaults.dryRun,
                         PhaseMutations(e.cel, e.policy.value.groups, phase, vars)))
    {
      var p := e.policy.value;
      var res := EvaluateProc(e.cel, p.defaults, p.groups, phase, req, resp, e.facts);
      reply := HandleProcResult(phase, p.defaults.dryRun, res);
    }

    /** The body of the Process loop for one received message. */
    method Receive(e: Event) returns (reply: Reply)
      requires ValidEvent(e)
      modifies this
      ensures Current() == Next(old(Current()), e)
      ensures reply == ReplyIn(Current(), e)
      ensures reply.Phased? ==> OwnTag(e.msg, reply.tag)
    {
      var tag := TagOf(e.msg);
      if e.policy.None? {
        return Bare(tag);
      }
      var d := e.policy.value.defaults;
      match e.msg
      case RequestHeadersMsg(head) =>
        req := Some(Request(head, ""));
        reply := Respond(e, RequestHeaders);
      case RequestBodyMsg(chunk) =>
        if req.None? {
          req := Some(Request(NO_FIELDS, ""));
        }
        req := Some(req.value.(body := req.value.body + chunk));
        if |req.value.body| > d.procMaxBody {
          return OverflowReply(d, RequestBody);
        }
        reply := Respond(e, RequestBody);
      case ResponseHeadersMsg(status, head) =>
        if req.None? {
          req := Some(Request(NO_FIELDS, ""));
        }
        resp := Some(Response(status, head, ""));
        reply := Respond(e, ResponseHeaders);
      case ResponseBodyMsg(chunk) =>
        if req.None? {
          req := Some(Request(NO_FIELDS, ""));
        }
        if resp.None? {
          resp := Some(Response(0, NO_FIELDS, ""));
        }
        resp := Some(resp.value.(body := resp.value.body + chunk));
        if |resp.value.body| > d.procMaxBody {
          return OverflowReply(d, ResponseBody);
        }
        reply := Respond(e, ResponseBody);
      case OtherMsg =>
        reply := Bare(tag);
    }

    /** Process: one reply per received message, in order, until a send fails. */
    method Process(es: seq<Event>, sendOk: seq<bool>) returns (sent: seq<Reply>)
      requires ValidRun(es) && |sendOk| == |es| && Current() == After([])
      modifies this
      ensures |sent| <= |es| && ValidRun(es[..|sent|]) && sent == Replies(es[..|sent|])
      ensures forall i :: 0 <= i < |sent| ==> sendOk[i]
      ensures |sent| < |es| ==> !sendOk[|sent|]
    {
      sent := [];
      for i := 0 to |es|
        invariant |sent| == i && ValidRun(es[..i]) && sent == Replies(es[..i])
        invariant Current() == After(es[..i])
        invariant forall j :: 0 <= j < i ==> sendOk[j]
      {
        RunStep(es, i);
        var reply := Receive(es[i]);
        if !sendOk[i] {
          return;
        }
        sent := sent + [reply];
      }
    }
  }
}
