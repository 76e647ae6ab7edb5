// The translation of an ordered list of resolved mutations into Envoy's wire
// form, which keeps header writes and header removals in two separate lists.
module Mutations {
  import opened Prelude

  datatype Op = SetHeader | AppendHeader | RemoveHeader | SetBody | SetStatus | DirectResponse | OtherOp(text: string)

  /** One evaluated mutation (policy.ResolvedMutation). */
  datatype ResolvedMutation = ResolvedMutation(
    op: Op, name: string, value: string, status: int,
    respStatus: int, respHeaders: map<string, string>, respBody: string,
    rule: string, dryRun: bool)

  // ------------------------------------------------------------ wire form

  datatype AppendAction = OverwriteOrAdd | AppendOrAdd

  datatype HeaderOption = HeaderOption(key: string, raw: string, action: AppendAction)

  datatype HeaderMutation = HeaderMutation(setHeaders: seq<HeaderOption>, removeHeaders: seq<string>)

  const CONTENT_LENGTH := "content-length"
  const STATUS := ":status"

  /** What one mutation contributes to the "set" list. */
  function SetOf(m: ResolvedMutation): Option<HeaderOption> {
    match m.op
    case SetHeader => Some(HeaderOption(m.name, m.value, OverwriteOrAdd))
    case AppendHeader => Some(HeaderOption(m.name, m.value, AppendOrAdd))
    case SetBody => Some(HeaderOption(CONTENT_LENGTH, Itoa(|m.value|), OverwriteOrAdd))
    case SetStatus => Some(HeaderOption(STATUS, Itoa(m.status), OverwriteOrAdd))
    case _ => None
  }

  /** What one mutation contributes to the "remove" list. */
  function RemoveOf(m: ResolvedMutation): Option<string> {
    if m.op.RemoveHeader? then Some(m.name) else None
  }

  function SetList(ms: seq<ResolvedMutation>): seq<HeaderOption> {
    if ms == [] then [] else Push(SetList(ms[..|ms| - 1]), SetOf(ms[|ms| - 1]))
  }

  function RemoveList(ms: seq<ResolvedMutation>): seq<string> {
    if ms == [] then [] else Push(RemoveList(ms[..|ms| - 1]), RemoveOf(ms[|ms| - 1]))
  }

  function LastBody(ms: seq<ResolvedMutation>): Option<string> {
    if ms == [] then None
    else if ms[|ms| - 1].op.SetBody? then Some(ms[|ms| - 1].value)
    else LastBody(ms[..|ms| - 1])
  }

  function HeaderPart(ms: seq<ResolvedMutation>): Option<HeaderMutation> {
    if SetList(ms) == [] && RemoveList(ms) == [] then None
    else Some(HeaderMutation(SetList(ms), RemoveList(ms)))
  }

  /** buildMutations */
  method BuildMutations(mutations: seq<ResolvedMutation>)
    returns (hm: Option<HeaderMutation>, bm: Option<string>)
    ensures hm == HeaderPart(mutations)
    ensures bm == LastBody(mutations)
  {
    var setHeaders: seq<HeaderOption>, removeHeaders: seq<string> := [], [];
    bm := None;
    for i := 0 to |mutations|
      invariant setHeaders == SetList(mutations[..i])
      invariant removeHeaders == RemoveList(mutations[..i])
      invariant bm == LastBody(mutations[..i])
    {
      assert mutations[..i + 1][..i] == mutations[..i];
      var m := mutations[i];
      match m.op
      case SetHeader =>
        setHeaders := setHeaders + [HeaderOption(m.name, m.value, OverwriteOrAdd)];
      case AppendHeader =>
        setHeaders := setHeaders + [HeaderOption(m.name, m.value, AppendOrAdd)];
      case RemoveHeader =>
        removeHeaders := removeHeaders + [m.name];
      case SetBody =>
        bm := Some(m.value);
        setHeaders := setHeaders + [HeaderOption(CONTENT_LENGTH, Itoa(|m.value|), OverwriteOrAdd)];
      case SetStatus =>
        setHeaders := setHeaders + [HeaderOption(STATUS, Itoa(m.status), OverwriteOrAdd)];
      case _ =>
    }
    assert mutations[..|mutations|] == mutations;
    hm := None;
    if |setHeaders| > 0 || |removeHeaders| > 0 {
      hm := Some(HeaderMutation(setHeaders, removeHeaders));
    }
  }

  // -------------------------------------------------------------- meaning

  /** Header names are case-insensitive: keys are lower case, values keep their order. */
  type Headers = map<string, seq<string>>

  datatype HttpMessage = HttpMessage(headers: Headers, body: string)

  function Values(h: Headers, n: string): Option<seq<string>> {
    if n in h then Some(h[n]) else None
  }

  function Overwrite(h: Headers, name: string, value: string): Headers {
    h[Lower(name) := [value]]
  }

  function Append(h: Headers, name: string, value: string): Headers {
    var n := Lower(name);
    h[n := (if n in h then h[n] else []) + [value]]
  }

  function Remove(h: Headers, name: string): Headers {
    h - {Lower(name)}
  }

  /** The documented meaning of one operation on a message. */
  function ApplyOne(m: ResolvedMutation, msg: HttpMessage): HttpMessage {
    match m.op
    case SetHeader => msg.(headers := Overwrite(msg.headers, m.name, m.value))
    case AppendHeader => msg.(headers := Append(msg.headers, m.name, m.value))
    case RemoveHeader => msg.(headers := Remove(msg.headers, m.name))
    case SetBody => HttpMessage(Overwrite(msg.headers, "content-length", Itoa(|m.value|)), m.value)
    case SetStatus => msg.(headers := Overwrite(msg.headers, ":status", Itoa(m.status)))
    case _ => msg
  }

  /** Reference semantics: the mutations one by one, in order. */
  function ApplyAll(ms: seq<ResolvedMutation>, msg: HttpMessage): HttpMessage {
    if ms == [] then msg else ApplyOne(ms[|ms| - 1], ApplyAll(ms[..|ms| - 1], msg))
  }

  function ApplySets(sets: seq<HeaderOption>, h: Headers): Headers {
    if sets == [] then h
    else
      var o, rest := sets[|sets| - 1], ApplySets(sets[..|sets| - 1], h);
      if o.action.OverwriteOrAdd? then Overwrite(rest, o.key, o.raw) else Append(rest, o.key, o.raw)
  }

  function ApplyRemoves(names: seq<string>, h: Headers): Headers {
    if names == [] then h else Remove(ApplyRemoves(names[..|names| - 1], h), names[|names| - 1])
  }

  function ReceivedBody(bm: Option<string>, body: string): string {
    if bm.Some? then bm.value else body
  }

  /** A proxy that performs the writes first and the removals second. */
  function SetThenRemove(hm: Option<HeaderMutation>, bm: Option<string>, msg: HttpMessage): HttpMessage {
    HttpMessage(
      if hm.Some? then ApplyRemoves(hm.value.removeHeaders, ApplySets(hm.value.setHeaders, msg.headers))
      else msg.headers,
      ReceivedBody(bm, msg.body))
  }

  /** A proxy that performs the removals first and the writes second. */
  function RemoveThenSet(hm: Option<HeaderMutation>, bm: Option<string>, msg: HttpMessage): HttpMessage {
    HttpMessage(
      if hm.Some? then ApplySets(hm.value.setHeaders, ApplyRemoves(hm.value.removeHeaders, msg.headers))
      else msg.headers,
      ReceivedBody(bm, msg.body))
  }

  // ------------------------------------------- one header name at a time

  /** What one mutation does to one header name. */
  datatype Touch = Write(value: string, overwrite: bool) | Erase

  function WriteTouch(o: Option<HeaderOption>, n: string): Option<Touch> {
    if o.Some? && Lower(o.value.key) == n then Some(Write(o.value.raw, o.value.action.OverwriteOrAdd?)) else None
  }

  function TouchOf(m: ResolvedMutation, n: string): Option<Touch> {
    if m.op.RemoveHeader? then (if Lower(m.name) == n then Some(Erase) else None)
    else WriteTouch(SetOf(m), n)
  }

  /** The history of header n under the mutation list: its writes and removals, in order. */
  function Touches(ms: seq<ResolvedMutation>, n: string): seq<Touch> {
    if ms == [] then [] else Push(Touches(ms[..|ms| - 1], n), TouchOf(ms[|ms| - 1], n))
  }

  function WriteTouches(sets: seq<HeaderOption>, n: string): seq<Touch> {
    if sets == [] then []
    else Push(WriteTouches(sets[..|sets| - 1], n), WriteTouch(Some(sets[|sets| - 1]), n))
  }

  function Writes(ts: seq<Touch>): seq<Touch> {
    if ts == [] then []
    else Push(Writes(ts[..|ts| - 1]), if ts[|ts| - 1].Write? then Some(ts[|ts| - 1]) else None)
  }

  /** What one touch does to the value list of its header. */
  function Replay1(t: Option<Touch>, v: Option<seq<string>>): Option<seq<string>> {
    match t
    case None => v
    case Some(Erase) => None
    case Some(Write(x, overwrite)) =>
      if overwrite then Some([x]) else Some((if v.Some? then v.value else []) + [x])
  }

  /** The value list a header ends with after its history. */
  function Replay(ts: seq<Touch>, v: Option<seq<string>>): Option<seq<string>> {
    if ts == [] then v else Replay1(Some(ts[|ts| - 1]), Replay(ts[..|ts| - 1], v))
  }

  lemma ReplayPush(ts: seq<Touch>, t: Option<Touch>, v: Option<seq<string>>)
    ensures Replay(Push(ts, t), v) == Replay1(t, Replay(ts, v))
  {
    if t.Some? {
      assert (ts + [t.value])[..|ts|] == ts;
    }
  }

  lemma {:induction false} ReplayConcat(a: seq<Touch>, b: seq<Touch>, v: Option<seq<string>>)
    ensures Replay(a + b, v) == Replay(b, Replay(a, v))
    decreases |b|
  {
    if b == [] {
      assert a + b == a;
    } else {
      assert (a + b)[..|a + b| - 1] == a + b[..|b| - 1];
      ReplayConcat(a, b[..|b| - 1], v);
    }
  }

  lemma OverwriteByName(h: Headers, name: string, value: string, n: string)
    ensures Values(Overwrite(h, name, value), n) == if Lower(name) == n then Some([value]) else Values(h, n)
  {
  }

  lemma AppendByName(h: Headers, name: string, value: string, n: string)
    ensures Values(Append(h, name, value), n) ==
            Replay1(if Lower(name) == n then Some(Write(value, false)) else None, Values(h, n))
  {
  }

  lemma ApplyOneByName(m: ResolvedMutation, msg: HttpMessage, n: string)
    ensures Values(ApplyOne(m, msg).headers, n) == Replay1(TouchOf(m, n), Values(msg.headers, n))
  {
    match m.op
    case SetHeader => OverwriteByName(msg.headers, m.name, m.value, n);
    case AppendHeader => AppendByName(msg.headers, m.name, m.value, n);
    case RemoveHeader =>
    case SetBody => OverwriteByName(msg.headers, CONTENT_LENGTH, Itoa(|m.value|), n);
    case SetStatus => OverwriteByName(msg.headers, STATUS, Itoa(m.status), n);
    case _ =>
  }

  /** Applying mutations in order acts on each header as its own history says. */
  lemma {:induction false} ApplyAllByName(ms: seq<ResolvedMutation>, msg: HttpMessage, n: string)
    ensures Values(ApplyAll(ms, msg).headers, n) == Replay(Touches(ms, n), Values(msg.headers, n))
  {
    if ms != [] {
      var init, m := ms[..|ms| - 1], ms[|ms| - 1];
      ApplyAllByName(init, msg, n);
      ApplyOneByName(m, ApplyAll(init, msg), n);
      ReplayPush(Touches(init, n), TouchOf(m, n), Values(msg.headers, n));
    }
  }

  /** The documented operations, one more at the end of a list: setHeader leaves its value alone in the
      header, appendHeader adds it at the end, removeHeader leaves none; no other header is affected. */
  lemma HeaderLaws(ms: seq<ResolvedMutation>, m: ResolvedMutation, msg: HttpMessage, n: string)
    ensures var before, after := Values(ApplyAll(ms, msg).headers, n), Values(ApplyAll(ms + [m], msg).headers, n);
            && (m.op == SetHeader ==> after == if n == Lower(m.name) then Some([m.value]) else before)
            && (m.op == AppendHeader ==>
                  after == if n == Lower(m.name) then Some((if before == None then [] else before.value) + [m.value])
                           else before)
            && (m.op == RemoveHeader ==> after == if n == Lower(m.name) then None else before)
            && (m.op == SetBody ==> after == if n == "content-length" then Some([Itoa(|m.value|)]) else before)
            && (m.op == SetStatus ==> after == if n == ":status" then Some([Itoa(m.status)]) else before)
    ensures ApplyAll(ms + [m], msg).body == if m.op == SetBody then m.value else ApplyAll(ms, msg).body
  {
    assert (ms + [m])[..|ms|] == ms;
    assert Lower("content-length") == "content-length" && Lower(":status") == ":status";
  }

  lemma {:induction false} ApplySetsByName(sets: seq<HeaderOption>, h: Headers, n: string)
    ensures Values(ApplySets(sets, h), n) == Replay(WriteTouches(sets, n), Values(h, n))
  {
    if sets != [] {
      var init := sets[..|sets| - 1];
      ApplySetsByName(init, h, n);
      ReplayPush(WriteTouches(init, n), WriteTouch(Some(sets[|sets| - 1]), n), Values(h, n));
    }
  }

  predicate Mentions(names: seq<string>, n: string) {
    names != [] && (Lower(names[|names| - 1]) == n || Mentions(names[..|names| - 1], n))
  }

  lemma {:induction false} ApplyRemovesByName(names: seq<string>, h: Headers, n: string)
    ensures Values(ApplyRemoves(names, h), n) == if Mentions(names, n) then None else Values(h, n)
  {
    if names != [] {
      ApplyRemovesByName(names[..|names| - 1], h, n);
    }
  }

  lemma WriteTouchesPush(sets: seq<HeaderOption>, o: Option<HeaderOption>, n: string)
    ensures WriteTouches(Push(sets, o), n) == Push(WriteTouches(sets, n), WriteTouch(o, n))
  {
    if o.Some? {
      assert (sets + [o.value])[..|sets|] == sets;
    }
  }

  lemma MentionsPush(names: seq<string>, o: Option<string>, n: string)
    ensures Mentions(Push(names, o), n) <==> Mentions(names, n) || (o.Some? && Lower(o.value) == n)
  {
    if o.Some? {
      assert (names + [o.value])[..|names|] == names;
    }
  }

  lemma WritesPush(ts: seq<Touch>, t: Option<Touch>)
    ensures Writes(Push(ts, t)) == Push(Writes(ts), if t.Some? && t.value.Write? then t else None)
    ensures Erase in Push(ts, t) <==> Erase in ts || t == Some(Erase)
  {
    if t.Some? {
      assert (ts + [t.value])[..|ts|] == ts;
    }
  }

  lemma TouchKind(m: ResolvedMutation, n: string)
    ensures var t := TouchOf(m, n); WriteTouch(SetOf(m), n) == if t.Some? && t.value.Write? then t else None
    ensures TouchOf(m, n) == Some(Erase) <==> RemoveOf(m).Some? && Lower(RemoveOf(m).value) == n
  {
  }

  /** The two wire lists are the writes and the removals of each header's history. */
  lemma {:induction false} WireByName(ms: seq<ResolvedMutation>, n: string)
    ensures WriteTouches(SetList(ms), n) == Writes(Touches(ms, n))
    ensures Mentions(RemoveList(ms), n) <==> Erase in Touches(ms, n)
  {
    if ms != [] {
      var init, m := ms[..|ms| - 1], ms[|ms| - 1];
      WireByName(init, n);
      WriteTouchesPush(SetList(init), SetOf(m), n);
      MentionsPush(RemoveList(init), RemoveOf(m), n);
      WritesPush(Touches(init, n), TouchOf(m, n));
      TouchKind(m, n);
    }
  }

  lemma {:induction false} BodyIsLastSetBody(ms: seq<ResolvedMutation>, msg: HttpMessage)
    ensures ApplyAll(ms, msg).body == ReceivedBody(LastBody(ms), msg.body)
  {
    if ms != [] {
      BodyIsLastSetBody(ms[..|ms| - 1], msg);
    }
  }

  // --------------------------------------- when splitting is harmless

  /** Nothing is written after the last removal. */
  predicate EndsErased(ts: seq<Touch>) {
    Erase in ts ==> ts[|ts| - 1].Erase?
  }

  /** The part of a history after its last removal. */
  function AfterErase(ts: seq<Touch>): seq<Touch> {
    if ts == [] || ts[|ts| - 1].Erase? then [] else AfterErase(ts[..|ts| - 1]) + [ts[|ts| - 1]]
  }

  predicate HasOverwrite(ts: seq<Touch>) {
    exists i :: 0 <= i < |ts| && ts[i].Write? && ts[i].overwrite
  }

  /** Every write is after the last removal, or is overwritten after it. */
  predicate RestartsAfterErase(ts: seq<Touch>) {
    Erase in ts ==> Writes(ts) == AfterErase(ts) || HasOverwrite(AfterErase(ts))
  }

  predicate NotBoth(ts: seq<Touch>) {
    Erase in ts ==> Writes(ts) == []
  }

  lemma {:induction false} NoEraseReplay(ts: seq<Touch>)
    requires Erase !in ts
    ensures Writes(ts) == ts == AfterErase(ts)
  {
    if ts != [] {
      NoEraseReplay(ts[..|ts| - 1]);
    }
  }

  lemma {:induction false} AfterEraseReplay(ts: seq<Touch>, v: Option<seq<string>>)
    requires Erase in ts
    ensures Replay(ts, v) == Replay(AfterErase(ts), None)
  {
    var init := ts[..|ts| - 1];
    if ts[|ts| - 1].Write? {
      assert Erase in init;
      AfterEraseReplay(init, v);
      assert AfterErase(ts)[..|AfterErase(ts)| - 1] == AfterErase(init);
    }
  }

  /** The removed part of a history, then what follows it. */
  lemma {:induction false} WritesEndWithAfterErase(ts: seq<Touch>) returns (early: seq<Touch>)
    ensures Writes(ts) == early + AfterErase(ts)
    ensures Erase !in early && Erase !in AfterErase(ts)
  {
    if ts == [] {
      early := [];
    } else if ts[|ts| - 1].Erase? {
      early := Writes(ts);
      WritesNoErase(ts);
    } else {
      early := WritesEndWithAfterErase(ts[..|ts| - 1]);
    }
  }

  lemma {:induction false} WritesNoErase(ts: seq<Touch>)
    ensures Erase !in Writes(ts)
  {
    if ts != [] {
      WritesNoErase(ts[..|ts| - 1]);
    }
  }

  lemma OverwriteLast(ts: seq<Touch>)
    requires ts != []
    ensures var last := ts[|ts| - 1];
            HasOverwrite(ts) <==> HasOverwrite(ts[..|ts| - 1]) || (last.Write? && last.overwrite)
  {
    var init := ts[..|ts| - 1];
    if HasOverwrite(init) {
      var i :| 0 <= i < |init| && init[i].Write? && init[i].overwrite;
      assert ts[i] == init[i];
    }
  }

  /** Writing onto v: the result forgets v exactly when something overwrites it. */
  lemma {:induction false} ReplayOnto(ts: seq<Touch>, v: seq<string>)
    requires Erase !in ts
    ensures Replay(ts, Some(v)).Some?
    ensures HasOverwrite(ts) ==> Replay(ts, Some(v)) == Replay(ts, None)
    ensures !HasOverwrite(ts) ==>
              Replay(ts, Some(v)).value == v + (if ts == [] then [] else Replay(ts, None).value)
    ensures ts != [] ==> Replay(ts, None).Some? && Replay(ts, None).value != []
  {
    if ts != [] {
      assert ts[|ts| - 1] in ts;
      ReplayOnto(ts[..|ts| - 1], v);
      OverwriteLast(ts);
    }
  }

  /** Exact effect of splitting one header's history into writes and removals. */
  lemma SplitOneName(ts: seq<Touch>, v: Option<seq<string>>)
    ensures (if Erase in ts then None else Replay(Writes(ts), v)) == Replay(ts, v) <==> EndsErased(ts)
    ensures Replay(Writes(ts), if Erase in ts then None else v) == Replay(ts, v) <==> RestartsAfterErase(ts)
    ensures EndsErased(ts) && RestartsAfterErase(ts) <==> NotBoth(ts)
  {
    if Erase !in ts {
      NoEraseReplay(ts);
    } else {
      AfterEraseReplay(ts, v);
      var late := AfterErase(ts);
      var early := WritesEndWithAfterErase(ts);
      ReplayConcat(early, late, None);
      ReplayOnto(early, []);
      if early != [] {
        ReplayOnto(late, Replay(early, None).value);
      } else {
        assert early + late == late;
      }
      ReplayOnto(late, []);
      if late != [] {
        assert ts[|ts| - 1].Write?;
      }
    }
  }

  /** Two header maps that agree name by name are equal. */
  lemma HeadersEqual(a: Headers, b: Headers)
    requires forall n :: Values(a, n) == Values(b, n)
    ensures a == b
  {
    forall n
      ensures n in a <==> n in b
      ensures n in a && n in b ==> a[n] == b[n]
    {
      assert Values(a, n) == Values(b, n);
    }
  }

  lemma SetThenRemoveByName(ms: seq<ResolvedMutation>, msg: HttpMessage, n: string)
    ensures Values(SetThenRemove(HeaderPart(ms), LastBody(ms), msg).headers, n) ==
            if Erase in Touches(ms, n) then None else Replay(Writes(Touches(ms, n)), Values(msg.headers, n))
  {
    WireByName(ms, n);
    ApplySetsByName(SetList(ms), msg.headers, n);
    ApplyRemovesByName(RemoveList(ms), ApplySets(SetList(ms), msg.headers), n);
  }

  lemma RemoveThenSetByName(ms: seq<ResolvedMutation>, msg: HttpMessage, n: string)
    ensures Values(RemoveThenSet(HeaderPart(ms), LastBody(ms), msg).headers, n) ==
            Replay(Writes(Touches(ms, n)), if Erase in Touches(ms, n) then None else Values(msg.headers, n))
  {
    WireByName(ms, n);
    ApplyRemovesByName(RemoveList(ms), msg.headers, n);
    ApplySetsByName(SetList(ms), ApplyRemoves(RemoveList(ms), msg.headers), n);
  }

  /** No write to n follows its last removal. */
  predicate WritesFirstSafe(ms: seq<ResolvedMutation>, n: string) {
    EndsErased(Touches(ms, n))
  }

  /** Every write to n before its last removal is made irrelevant after it. */
  predicate RemovalsFirstSafe(ms: seq<ResolvedMutation>, n: string) {
    RestartsAfterErase(Touches(ms, n))
  }

  /** Writes-first keeps the meaning exactly when no header is written after its last removal. */
  lemma SetThenRemoveExact(ms: seq<ResolvedMutation>, msg: HttpMessage)
    ensures SetThenRemove(HeaderPart(ms), LastBody(ms), msg) == ApplyAll(ms, msg) <==>
            forall n :: WritesFirstSafe(ms, n)
  {
    var wire, direct := SetThenRemove(HeaderPart(ms), LastBody(ms), msg), ApplyAll(ms, msg);
    BodyIsLastSetBody(ms, msg);
    forall n
      ensures Values(wire.headers, n) == Values(direct.headers, n) <==> WritesFirstSafe(ms, n)
    {
      SetThenRemoveByName(ms, msg, n);
      ApplyAllByName(ms, msg, n);
      SplitOneName(Touches(ms, n), Values(msg.headers, n));
    }
    if forall n :: WritesFirstSafe(ms, n) {
      assert forall n :: Values(wire.headers, n) == Values(direct.headers, n);
      HeadersEqual(wire.headers, direct.headers);
    }
  }

  /** Removals-first keeps the meaning exactly when, for every removed header, each earlier
      write is overwritten after the last removal. */
  lemma RemoveThenSetExact(ms: seq<ResolvedMutation>, msg: HttpMessage)
    ensures RemoveThenSet(HeaderPart(ms), LastBody(ms), msg) == ApplyAll(ms, msg) <==>
            forall n :: RemovalsFirstSafe(ms, n)
  {
    var wire, direct := RemoveThenSet(HeaderPart(ms), LastBody(ms), msg), ApplyAll(ms, msg);
    BodyIsLastSetBody(ms, msg);
    forall n
      ensures Values(wire.headers, n) == Values(direct.headers, n) <==> RemovalsFirstSafe(ms, n)
    {
      RemoveThenSetByName(ms, msg, n);
      ApplyAllByName(ms, msg, n);
      SplitOneName(Touches(ms, n), Values(msg.headers, n));
    }
    if forall n :: RemovalsFirstSafe(ms, n) {
      assert forall n :: Values(wire.headers, n) == Values(direct.headers, n);
      HeadersEqual(wire.headers, direct.headers);
    }
  }

  /** Some mutation writes header n: a header op, setBody's content-length or setStatus's :status. */
  predicate WritesName(ms: seq<ResolvedMutation>, n: string) {
    exists i :: 0 <= i < |ms| && WriteTouch(SetOf(ms[i]), n).Some?
  }

  predicate RemovesName(ms: seq<ResolvedMutation>, n: string) {
    exists i :: 0 <= i < |ms| && ms[i].op.RemoveHeader? && Lower(ms[i].name) == n
  }

  predicate WrittenAndRemoved(ms: seq<ResolvedMutation>, n: string) {
    WritesName(ms, n) && RemovesName(ms, n)
  }

  lemma {:induction false} RemovesNameErases(ms: seq<ResolvedMutation>, n: string)
    ensures RemovesName(ms, n) <==> Erase in Touches(ms, n)
  {
    if ms != [] {
      var init := ms[..|ms| - 1];
      RemovesNameErases(init, n);
      assert forall i :: 0 <= i < |init| ==> init[i] == ms[i];
    }
  }

  lemma {:induction false} WritesNameWrites(ms: seq<ResolvedMutation>, n: string)
    ensures WritesName(ms, n) <==> Writes(Touches(ms, n)) != []
  {
    if ms != [] {
      var init, m := ms[..|ms| - 1], ms[|ms| - 1];
      WritesNameWrites(init, n);
      assert forall i :: 0 <= i < |init| ==> init[i] == ms[i];
      WritesPush(Touches(init, n), TouchOf(m, n));
      TouchKind(m, n);
    }
  }

  /** Whichever order the proxy uses, the split lists mean the ordered list
      exactly when no header name is both written and removed. */
  lemma SplitPreservesMeaning(ms: seq<ResolvedMutation>, msg: HttpMessage)
    ensures
      (&& SetThenRemove(HeaderPart(ms), LastBody(ms), msg) == ApplyAll(ms, msg)
       && RemoveThenSet(HeaderPart(ms), LastBody(ms), msg) == ApplyAll(ms, msg))
      <==> forall n :: !WrittenAndRemoved(ms, n)
  {
    SetThenRemoveExact(ms, msg);
    RemoveThenSetExact(ms, msg);
    forall n
      ensures WritesFirstSafe(ms, n) && RemovalsFirstSafe(ms, n) <==> !WrittenAndRemoved(ms, n)
    {
      SplitOneName(Touches(ms, n), None);
      RemovesNameErases(ms, n);
      WritesNameWrites(ms, n);
    }
  }

  /** Append, remove, append on one header name. */
  function AppendRemoveAppend(m: ResolvedMutation, first: string, second: string): seq<ResolvedMutation> {
    [m.(op := AppendHeader, value := first), m.(op := RemoveHeader), m.(op := AppendHeader, value := second)]
  }

  lemma AppendRemoveAppendHistory(m: ResolvedMutation, first: string, second: string)
    ensures Touches(AppendRemoveAppend(m, first, second), Lower(m.name)) ==
            [Write(first, false), Erase, Write(second, false)]
  {
    var ms, n := AppendRemoveAppend(m, first, second), Lower(m.name);
    assert ms[..2][..1] == ms[..1] && ms[..1][..0] == [];
    assert Touches(ms[..1], n) == [Write(first, false)];
    assert Touches(ms[..2], n) == [Write(first, false), Erase];
  }

  lemma ReplayAppends(first: string, second: string)
    ensures Replay([Write(first, false), Erase, Write(second, false)], None) == Some([second])
    ensures Replay([Write(first, false), Write(second, false)], None) == Some([first, second])
    ensures Writes([Write(first, false), Erase, Write(second, false)]) == [Write(first, false), Write(second, false)]
  {
    var a, b := Write(first, false), Write(second, false);
    assert [a][..0] == [] && [a, b][..1] == [a] && [a, Erase][..1] == [a] && [a, Erase, b][..2] == [a, Erase];
    assert [] + [first] == [first] && [] + [second] == [second] && [first] + [second] == [first, second];
    assert Replay([], None) == None && Writes([]) == [];
    assert Replay([a], None) == Some([first]) && Replay([a, Erase], None) == None;
    assert Writes([a]) == [a] && Writes([a, Erase]) == [a];
  }

  /** A list that neither proxy order can honour: on an absent header, append, remove, append leaves
      one value; writes-first drops it and removals-first leaves two. */
  lemma SplitCanChangeMeaning(m: ResolvedMutation, first: string, second: string, body: string)
    ensures var ms, n, empty := AppendRemoveAppend(m, first, second), Lower(m.name), HttpMessage(map[], body);
            && Values(ApplyAll(ms, empty).headers, n) == Some([second])
            && Values(SetThenRemove(HeaderPart(ms), LastBody(ms), empty).headers, n) == None
            && Values(RemoveThenSet(HeaderPart(ms), LastBody(ms), empty).headers, n) == Some([first, second])
  {
    var ms, n, empty := AppendRemoveAppend(m, first, second), Lower(m.name), HttpMessage(map[], body);
    AppendRemoveAppendHistory(m, first, second);
    ReplayAppends(first, second);
    ApplyAllByName(ms, empty, n);
    SetThenRemoveByName(ms, empty, n);
    RemoveThenSetByName(ms, empty, n);
    assert Touches(ms, n)[1] == Erase;
  }

  // -------------------------------------------------------- content-length

  predicate NamesContentLength(m: ResolvedMutation) {
    (m.op.SetHeader? || m.op.AppendHeader? || m.op.RemoveHeader?) && Lower(m.name) == "content-length"
  }

  lemma ContentLengthTouch(m: ResolvedMutation)
    requires !NamesContentLength(m)
    ensures TouchOf(m, CONTENT_LENGTH) ==
            if m.op.SetBody? then Some(Write(Itoa(|m.value|), true)) else None
  {
    if m.op.SetBody? {
      assert Lower(CONTENT_LENGTH) == CONTENT_LENGTH;
    } else if m.op.SetStatus? {
      assert Lower(STATUS)[0] == ':';
    }
  }

  /** A header touched only by setBody holds the length of the last body set. */
  lemma {:induction false} LengthHistory(ms: seq<ResolvedMutation>, n: string, v: Option<seq<string>>)
    requires forall i :: 0 <= i < |ms| ==>
               TouchOf(ms[i], n) == if ms[i].op.SetBody? then Some(Write(Itoa(|ms[i].value|), true)) else None
    ensures Erase !in Touches(ms, n)
    ensures LastBody(ms).Some? ==> Replay(Touches(ms, n), v) == Some([Itoa(|LastBody(ms).value|)])
  {
    if ms != [] {
      var init, m := ms[..|ms| - 1], ms[|ms| - 1];
      LengthHistory(init, n, v);
      ReplayPush(Touches(init, n), TouchOf(m, n), v);
    }
  }

  /** Content-length is present once and is the decimal length of the body (section 8.6 of RFC 9110). */
  predicate LengthMatches(msg: HttpMessage) {
    Values(msg.headers, "content-length") == Some([Itoa(|msg.body|)])
  }

  /** Whenever a setBody ran and nothing names content-length explicitly, the message carries
      the decimal length of its final body: in the reference order and in both wire orders,
      whatever happens to other headers. */
  lemma ContentLengthMatchesBody(ms: seq<ResolvedMutation>, msg: HttpMessage)
    requires forall i :: 0 <= i < |ms| ==> !NamesContentLength(ms[i])
    requires exists i :: 0 <= i < |ms| && ms[i].op.SetBody?
    ensures LengthMatches(ApplyAll(ms, msg))
    ensures LengthMatches(SetThenRemove(HeaderPart(ms), LastBody(ms), msg))
    ensures LengthMatches(RemoveThenSet(HeaderPart(ms), LastBody(ms), msg))
  {
    SomeSetBody(ms);
    forall i | 0 <= i < |ms| {
      ContentLengthTouch(ms[i]);
    }
    LengthEverywhere(ms, msg, CONTENT_LENGTH);
  }

  lemma LengthEverywhere(ms: seq<ResolvedMutation>, msg: HttpMessage, n: string)
    requires LastBody(ms).Some?
    requires forall i :: 0 <= i < |ms| ==>
               TouchOf(ms[i], n) == if ms[i].op.SetBody? then Some(Write(Itoa(|ms[i].value|), true)) else None
    ensures var length := Some([Itoa(|LastBody(ms).value|)]);
            && Values(ApplyAll(ms, msg).headers, n) == length
            && Values(SetThenRemove(HeaderPart(ms), LastBody(ms), msg).headers, n) == length
            && Values(RemoveThenSet(HeaderPart(ms), LastBody(ms), msg).headers, n) == length
    ensures ApplyAll(ms, msg).body == LastBody(ms).value
  {
    BodyIsLastSetBody(ms, msg);
    LengthHistory(ms, n, Values(msg.headers, n));
    NoEraseReplay(Touches(ms, n));
    ApplyAllByName(ms, msg, n);
    SetThenRemoveByName(ms, msg, n);
    RemoveThenSetByName(ms, msg, n);
  }

  lemma {:induction false} SomeSetBody(ms: seq<ResolvedMutation>)
    requires exists i :: 0 <= i < |ms| && ms[i].op.SetBody?
    ensures LastBody(ms).Some?
  {
    if !ms[|ms| - 1].op.SetBody? {
      var i :| 0 <= i < |ms| && ms[i].op.SetBody?;
      assert ms[..|ms| - 1][i] == ms[i];
      SomeSetBody(ms[..|ms| - 1]);
    }
  }
}
