// configwatch.Run: file-system events debounced into reload callbacks. Timers
// are ideal: one armed at time t fires at exactly t + delay unless stopped first.
module Debounce {
  import opened Prelude

  datatype FsOp = Create | Write | Remove | Rename | Chmod

  /** One fsnotify event: when it is handled, the base name it concerns, its operation bits. */
  datatype FileEvent = FileEvent(time: int, base: string, ops: set<FsOp>)

  /** How the loop ends: by context cancellation, or because the watcher's channels closed. */
  datatype Ending = Cancelled(time: int) | WatcherClosed

  const KUBE_SYMLINK := "..data"
  const DEFAULT_DELAY := 200

  /** relevant */
  predicate Relevant(e: FileEvent, name: string) {
    (e.base == name || e.base == KUBE_SYMLINK) &&
    (Create in e.ops || Write in e.ops || Rename in e.ops || Chmod in e.ops)
  }

  /** Exactly the events on the watched name or on the link Kubernetes swaps that create, write, rename
      or change the mode of it; a removal alone is not one. */
  lemma RelevantIff(e: FileEvent, name: string)
    ensures Relevant(e, name) <==>
            (e.base == name || e.base == "..data") && exists op :: op in e.ops && op in {Create, Write, Rename, Chmod}
    ensures e.ops == {Remove} ==> !Relevant(e, name)
  {
    assert Relevant(e, name) ==> Create in e.ops || Write in e.ops || Rename in e.ops || Chmod in e.ops;
  }

  /** Events arrive in time order, and a cancellation comes after them. */
  predicate Timed(es: seq<FileEvent>, ending: Ending) {
    && (forall i, j :: 0 <= i < j < |es| ==> es[i].time <= es[j].time)
    && (ending.Cancelled? ==> forall i :: 0 <= i < |es| ==> es[i].time <= ending.time)
  }

  /** Event i leads to a callback: it is relevant, no later relevant event comes before its
      deadline, and neither does a cancellation. */
  predicate Fires(es: seq<FileEvent>, ending: Ending, name: string, delay: int, i: int) {
    && 0 <= i < |es| && Relevant(es[i], name)
    && (forall j :: i < j < |es| && Relevant(es[j], name) ==> es[i].time + delay <= es[j].time)
    && (ending.Cancelled? ==> es[i].time + delay <= ending.time)
  }

  /** Event i is the one whose timer is pending after the first n events. */
  predicate Armed(es: seq<FileEvent>, name: string, n: nat, i: int)
    requires n <= |es|
  {
    0 <= i < n && Relevant(es[i], name) && forall j :: i < j < n ==> !Relevant(es[j], name)
  }

  predicate Increasing(s: seq<int>) {
    forall p, q :: 0 <= p < q < |s| ==> s[p] < s[q]
  }

  /** A timer: the event that armed it and when it is due; fired, a call of the callback. */
  datatype Callback = Callback(event: int, time: int)

  function CallbackOf(es: seq<FileEvent>, delay: int, i: int): Callback {
    Callback(i, if 0 <= i < |es| then es[i].time + delay else 0)
  }

  function CallbacksOf(es: seq<FileEvent>, delay: int, fired: seq<int>): seq<Callback> {
    seq(|fired|, k requires 0 <= k < |fired| => CallbackOf(es, delay, fired[k]))
  }

  /** Run: returns the callbacks made, in order. Exactly the events that Fires describes lead to one,
      once each and exactly one delay after the event. At most one timer is pending at any time. */
  method Run(es: seq<FileEvent>, ending: Ending, name: string, debounce: int) returns (calls: seq<Callback>)
    requires Timed(es, ending)
    ensures var delay := if debounce <= 0 then 200 else debounce;
            forall c :: c in calls <==> Fires(es, ending, name, delay, c.event) && c.time == es[c.event].time + delay
    ensures forall p, q :: 0 <= p < q < |calls| ==> calls[p].event < calls[q].event
  {
    var delay := if debounce <= 0 then DEFAULT_DELAY else debounce;
    var timer: Option<Callback> := None;
    calls := [];
    ghost var l := Loop(None, []);
    for n := 0 to |es|
      invariant l == LoopAfter(es, name, delay, n)
      invariant timer == if l.timer.None? then None else Some(CallbackOf(es, delay, l.timer.value))
      invariant calls == CallbacksOf(es, delay, l.fired)
    {
      l := Turn(es, name, delay, n, l);
      if timer.Some? && timer.value.time <= es[n].time {
        calls := calls + [timer.value];
        timer := None;
      }
      if Relevant(es[n], name) {
        timer := Some(Callback(n, es[n].time + delay));
      }
    }
    ProgressAll(es, ending, name, delay, |es|);
    Finish(es, ending, name, delay, l);
    ghost var fired := l.fired;
    if timer.Some? && (ending.WatcherClosed? || timer.value.time <= ending.time) {
      calls := calls + [timer.value];
      fired := fired + [l.timer.value];
    }
    assert calls == CallbacksOf(es, delay, fired);
    FiredCalls(es, ending, name, delay, fired);
  }

  lemma FiredCalls(es: seq<FileEvent>, ending: Ending, name: string, delay: int, fired: seq<int>)
    requires forall i :: i in fired <==> Fires(es, ending, name, delay, i)
    ensures forall c :: c in CallbacksOf(es, delay, fired) <==>
              Fires(es, ending, name, delay, c.event) && c.time == es[c.event].time + delay
  {
    var calls := CallbacksOf(es, delay, fired);
    forall c
      ensures c in calls <==> Fires(es, ending, name, delay, c.event) && c.time == es[c.event].time + delay
    {
      if c in calls {
        var k :| 0 <= k < |calls| && calls[k] == c;
        assert fired[k] in fired;
      }
      if Fires(es, ending, name, delay, c.event) && c.time == es[c.event].time + delay {
        var k :| 0 <= k < |fired| && fired[k] == c.event;
        assert calls[k] == c;
      }
    }
  }

  /** The pending timer, named by the event that armed it, and the timers that have fired. */
  datatype Loop = Loop(timer: Option<int>, fired: seq<int>)

  predicate Due(es: seq<FileEvent>, delay: int, timer: Option<int>, now: int) {
    timer.Some? && 0 <= timer.value < |es| && es[timer.value].time + delay <= now
  }

  function Turn(es: seq<FileEvent>, name: string, delay: int, n: nat, l: Loop): Loop
    requires n < |es|
  {
    var due := Due(es, delay, l.timer, es[n].time);
    Loop(if Relevant(es[n], name) then Some(n) else if due then None else l.timer,
         if due then l.fired + [l.timer.value] else l.fired)
  }

  function LoopAfter(es: seq<FileEvent>, name: string, delay: int, n: nat): (l: Loop)
    requires n <= |es|
    ensures l.timer.Some? ==> 0 <= l.timer.value < n
  {
    if n == 0 then Loop(None, []) else Turn(es, name, delay, n - 1, LoopAfter(es, name, delay, n - 1))
  }

  lemma ProgressStart(es: seq<FileEvent>, name: string, delay: int)
    ensures Progress(es, name, delay, 0, Loop(None, []))
  {
  }

  lemma {:induction false} ProgressAll(es: seq<FileEvent>, ending: Ending, name: string, delay: int, n: nat)
    requires Timed(es, ending) && delay > 0 && n <= |es|
    ensures Progress(es, name, delay, n, LoopAfter(es, name, delay, n))
  {
    if n == 0 {
      ProgressStart(es, name, delay);
    } else {
      ProgressAll(es, ending, name, delay, n - 1);
      ProgressStep(es, ending, name, delay, n - 1, LoopAfter(es, name, delay, n - 1));
    }
  }

  /** After n events: the pending timer, if any, belongs to the last relevant event, and of the
      other relevant events exactly the settled ones have fired, in order and already due. */
  predicate Progress(es: seq<FileEvent>, name: string, delay: int, n: nat, l: Loop) {
    && n <= |es|
    && (l.timer.Some? ==> Armed(es, name, n, l.timer.value) && Below(l.fired, l.timer.value))
    && Increasing(l.fired) && Below(l.fired, n)
    && (forall i :: i in l.fired ==> Passed(es, name, delay, n, i))
    && (forall i :: 0 <= i < n ==> Accounted(es, name, delay, n, l, i))
  }

  /** Event i fired, and its deadline is behind the last of the first n events. */
  predicate Passed(es: seq<FileEvent>, name: string, delay: int, n: nat, i: int) {
    0 <= i < n <= |es| && Relevant(es[i], name) && es[i].time + delay <= es[n - 1].time
  }

  predicate Accounted(es: seq<FileEvent>, name: string, delay: int, n: nat, l: Loop, i: int)
    requires 0 <= i < n <= |es|
  {
    Relevant(es[i], name) && l.timer != Some(i) ==> (i in l.fired <==> Settled(es, name, delay, n, i))
  }

  lemma SettledStep(es: seq<FileEvent>, name: string, delay: int, n: nat, i: int)
    requires 0 <= i < n < |es|
    ensures Settled(es, name, delay, n + 1, i) <==>
            Settled(es, name, delay, n, i) && (Relevant(es[n], name) ==> es[i].time + delay <= es[n].time)
  {
  }

  /** One turn of the loop keeps the progress condition. */
  lemma ProgressStep(es: seq<FileEvent>, ending: Ending, name: string, delay: int, n: nat, l: Loop)
    requires Timed(es, ending) && delay > 0 && n < |es| && Progress(es, name, delay, n, l)
    ensures Progress(es, name, delay, n + 1, Turn(es, name, delay, n, l))
  {
    var l', m := Turn(es, name, delay, n, l), n + 1;
    forall i | 0 <= i < m
      ensures Accounted(es, name, delay, m, l', i)
    {
      if i < n {
        SettledStep(es, name, delay, n, i);
        assert Accounted(es, name, delay, n, l, i);
        assert l.timer == Some(i) ==> Settled(es, name, delay, n, i);
      }
    }
  }

  /** When the loop ends, the pending timer fires unless a cancellation stops it first. */
  lemma Finish(es: seq<FileEvent>, ending: Ending, name: string, delay: int, l: Loop)
    requires Timed(es, ending) && Progress(es, name, delay, |es|, l)
    ensures var due := l.timer.Some? && (ending.WatcherClosed? || es[l.timer.value].time + delay <= ending.time);
            var fired := if due then l.fired + [l.timer.value] else l.fired;
            Increasing(fired) && forall i :: i in fired <==> Fires(es, ending, name, delay, i)
  {
    var due := l.timer.Some? && (ending.WatcherClosed? || es[l.timer.value].time + delay <= ending.time);
    var fired := if due then l.fired + [l.timer.value] else l.fired;
    forall i
      ensures i in fired <==> Fires(es, ending, name, delay, i)
    {
      if 0 <= i < |es| && Relevant(es[i], name) {
        assert Accounted(es, name, delay, |es|, l, i);
        assert l.timer == Some(i) ==> i !in l.fired && Settled(es, name, delay, |es|, i);
      }
    }
  }

  predicate Below(s: seq<int>, bound: int) {
    forall k :: 0 <= k < |s| ==> s[k] < bound
  }

  /** Among the first n events, i is followed by none that stops its timer. */
  predicate Settled(es: seq<FileEvent>, name: string, delay: int, n: nat, i: int)
    requires 0 <= i < n <= |es|
  {
    forall j :: i < j < n && Relevant(es[j], name) ==> es[i].time + delay <= es[j].time
  }

  /** Where event i of a list is found after one more event is inserted at p. */
  function Shift(p: nat, i: int): int {
    if i < p then i else i + 1
  }

  function Insert(es: seq<FileEvent>, p: nat, e: FileEvent): (r: seq<FileEvent>)
    requires p <= |es|
    ensures |r| == |es| + 1 && r[p] == e
    ensures forall j :: 0 <= j < |es| ==> r[Shift(p, j)] == es[j]
  {
    es[..p] + [e] + es[p..]
  }

  /** Inserting an irrelevant event anywhere changes no callback. */
  lemma IrrelevantHasNoEffect(es: seq<FileEvent>, p: nat, e: FileEvent, ending: Ending, name: string, delay: int,
                              i: nat)
    requires p <= |es| && !Relevant(e, name) && i < |es|
    ensures !Fires(Insert(es, p, e), ending, name, delay, p)
    ensures Fires(Insert(es, p, e), ending, name, delay, Shift(p, i)) <==> Fires(es, ending, name, delay, i)
  {
    var es', i' := Insert(es, p, e), Shift(p, i);
    assert es'[i'] == es[i];
    if Fires(es', ending, name, delay, i') {
      forall j | i < j < |es| && Relevant(es[j], name)
        ensures es[i].time + delay <= es[j].time
      {
        assert es'[Shift(p, j)] == es[j];
      }
    }
    if Fires(es, ending, name, delay, i) {
      forall j | i' < j < |es'| && Relevant(es'[j], name)
        ensures es'[i'].time + delay <= es'[j].time
      {
        var k := if j < p then j else j - 1;
        assert Shift(p, k) == j && es'[j] == es[k];
      }
    }
  }

  /** No change is lost: unless a cancellation comes before a deadline, every relevant event is
      followed by a callback, its own or that of a later event. */
  lemma ChangesAreReported(es: seq<FileEvent>, ending: Ending, name: string, delay: int, i: int)
    requires Timed(es, ending) && delay > 0 && 0 <= i < |es| && Relevant(es[i], name)
    requires ending.Cancelled? ==> forall k :: 0 <= k < |es| ==> es[k].time + delay <= ending.time
    ensures exists k :: i <= k < |es| && Fires(es, ending, name, delay, k)
    decreases |es| - i
  {
    if !Fires(es, ending, name, delay, i) {
      var j :| i < j < |es| && Relevant(es[j], name) && es[j].time < es[i].time + delay;
      ChangesAreReported(es, ending, name, delay, j);
    }
  }
}
