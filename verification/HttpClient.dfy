/** The older client, which keeps one request in flight and queues the others
    (src/Networking/Http/HttpClient.cpp). */
module HttpClient {
  import opened Options

  /** A request with its place in the order of the `PostRequest` calls and its retries left. */
  datatype Context = Context(id: nat, retry: nat)

  datatype Outcome = Response | Failure

  datatype Answer = Answer(id: nat, outcome: Outcome)

  /** `polling` holds from the end of an attempt to the `PollNext` call that follows it. The last
      four fields record the calls made: how many requests were posted, how often each was started,
      and whose callback ran, from the thread loop or from Cancel. */
  datatype State = State(
    isProcessing: bool, waitList: seq<Context>, current: Option<Context>, polling: bool, connected: bool,
    posted: nat, started: multiset<nat>, served: seq<Answer>, cancelled: seq<nat>)

  const INITIAL := State(false, [], None, false, false, 0, multiset{}, [], [])

  /** What happens to the client. Cancel may be called, and requests posted, between any two other
      steps; the failure of an attempt is treated alike whether it was caused by a cancel or not. */
  datatype Event = Post | Connected | Fail | Finish | PollNext | Cancel

  function Ids(contexts: seq<Context>): (r: seq<nat>)
    ensures |r| == |contexts|
  {
    seq(|contexts|, i requires 0 <= i < |contexts| => contexts[i].id)
  }

  function Start(s: State, ctx: Context): State {
    s.(isProcessing := true, current := Some(ctx), started := s.started + multiset{ctx.id})
  }

  function Step(s: State, event: Event): State {
    match event
    case Post =>
      var ctx := Context(s.posted, 1);
      var t := s.(posted := s.posted + 1);
      if s.isProcessing then t.(waitList := s.waitList + [ctx]) else Start(t, ctx)
    case Connected => if s.current.Some? then s.(connected := true) else s
    case Fail =>
      if s.current.None? then s
      else
        var ctx, t := s.current.value, s.(current := None, polling := true);
        if ctx.retry > 0 then
          t.(waitList := [Context(ctx.id, ctx.retry - 1)] + s.waitList, connected := false)
        else t.(served := s.served + [Answer(ctx.id, Failure)])
    case Finish =>
      if s.current.None? || !s.connected then s
      else s.(current := None, polling := true, served := s.served + [Answer(s.current.value.id, Response)])
    case PollNext =>
      if !s.polling then s
      else if s.waitList == [] then s.(isProcessing := false, polling := false)
      else Start(s.(waitList := s.waitList[1..], polling := false), s.waitList[0])
    case Cancel => s.(cancelled := s.cancelled + Ids(s.waitList), waitList := [])
  }

  // The order of the callbacks

  /** The requests 0, 1, ... n - 1 without the given ones, in the order in which they were posted. */
  function Without(n: nat, gone: set<nat>): seq<nat> {
    if n == 0 then [] else if n - 1 in gone then Without(n - 1, gone) else Without(n - 1, gone) + [n - 1]
  }

  function Served(s: State): (r: seq<nat>)
    ensures |r| == |s.served|
  {
    seq(|s.served|, i requires 0 <= i < |s.served| => s.served[i].id)
  }

  function InFlight(s: State): seq<nat> { if s.current.None? then [] else [s.current.value.id] }

  /** Everything the client still has or has served, in its order. */
  function Line(s: State): seq<nat> { Served(s) + InFlight(s) + Ids(s.waitList) }

  function Gone(s: State): set<nat> { set i | i in s.cancelled }

  ghost predicate InvOrder(s: State) {
    && Line(s) == Without(s.posted, Gone(s))
    && (forall i :: 0 <= i < |s.cancelled| ==> s.cancelled[i] < s.posted)
    && (forall i, k :: 0 <= i < k < |s.cancelled| ==> s.cancelled[i] != s.cancelled[k])
  }

  ghost predicate InvFlight(s: State) {
    && (s.isProcessing <==> s.current.Some? || s.polling)
    && !(s.current.Some? && s.polling)
    && (s.waitList != [] ==> s.isProcessing)
  }

  /** A request has been started once for each retry it has used, plus once if it is in flight. */
  ghost predicate InvAttempts(s: State) {
    && (s.current.Some? ==> s.current.value.retry <= 1 && s.started[s.current.value.id] == 2 - s.current.value.retry)
    && (forall i :: 0 <= i < |s.waitList| ==>
         && s.waitList[i].retry <= 1
         && s.started[s.waitList[i].id] == 1 - s.waitList[i].retry
         && (s.waitList[i].retry == 0 ==> i == 0 && s.polling && !s.connected))
    && (forall i :: 0 <= i < |s.served| ==>
         && 1 <= s.started[s.served[i].id] <= 2
         && (s.served[i].outcome == Failure ==> s.started[s.served[i].id] == 2))
    && (forall id :: id in s.cancelled ==> s.started[id] <= 1)
    && (forall id :: id >= s.posted ==> s.started[id] == 0)
  }

  ghost predicate Inv(s: State) { InvFlight(s) && InvOrder(s) && InvAttempts(s) }

  lemma {:induction false} WithoutMembers(n: nat, gone: set<nat>)
    ensures forall i :: 0 <= i < |Without(n, gone)| ==> Without(n, gone)[i] < n && Without(n, gone)[i] !in gone
    ensures forall i, k :: 0 <= i < k < |Without(n, gone)| ==> Without(n, gone)[i] < Without(n, gone)[k]
    ensures forall id: nat :: id < n && id !in gone ==> id in Without(n, gone)
  {
    if n > 0 {
      WithoutMembers(n - 1, gone);
    }
  }

  lemma {:induction false} SameWithout(n: nat, gone: set<nat>, more: set<nat>)
    requires forall id: nat :: id < n ==> (id in more <==> id in gone)
    ensures Without(n, more) == Without(n, gone)
  {
    if n > 0 {
      SameWithout(n - 1, gone, more);
    }
  }

  /** When the requests at the end are taken out, the others keep their order. */
  lemma {:induction false} WithoutFewer(n: nat, gone: set<nat>, a: seq<nat>, b: seq<nat>, more: set<nat>)
    requires Without(n, gone) == a + b
    requires forall id: nat :: id < n ==> (id in more <==> id in gone || id in b)
    ensures Without(n, more) == a
  {
    if n > 0 {
      WithoutMembers(n, gone);
      if n - 1 in gone {
        WithoutFewer(n - 1, gone, a, b, more);
      } else if b == [] {
        SameWithout(n, gone, more);
        assert a + b == a;
      } else {
        var rest := b[..|b| - 1];
        assert (a + b)[|a + b| - 1] == b[|b| - 1] == n - 1;
        assert a + rest == (a + b)[..|a + b| - 1];
        assert b == rest + [n - 1];
        WithoutFewer(n - 1, gone, a, rest, more);
      }
    }
  }

  // Every step keeps the invariants

  lemma StepKeepsFlight(s: State, event: Event)
    requires InvFlight(s)
    ensures InvFlight(Step(s, event))
  {
  }

  lemma FrontGoesInFlight(s: State)
    requires s.polling && s.waitList != [] && InvFlight(s)
    ensures Line(Step(s, PollNext)) == Line(s)
  {
    assert Ids(s.waitList) == [s.waitList[0].id] + Ids(s.waitList[1..]);
  }

  lemma PostedGoesLast(s: State)
    requires InvFlight(s)
    ensures Line(Step(s, Post)) == Line(s) + [s.posted]
  {
    assert Ids(s.waitList + [Context(s.posted, 1)]) == Ids(s.waitList) + [s.posted];
    assert Served(Step(s, Post)) == Served(s);
  }

  lemma AttemptKeepsPlace(s: State, event: Event)
    requires s.current.Some? && (event.Fail? || event.Finish?)
    ensures Line(Step(s, event)) == Line(s)
  {
    var t := Step(s, event);
    var id := s.current.value.id;
    if event.Fail? && s.current.value.retry > 0 {
      assert Ids(t.waitList) == [id] + Ids(s.waitList);
      assert Served(t) == Served(s);
    } else if event.Fail? || s.connected {
      assert Served(t) == Served(s) + [id];
      assert Ids(t.waitList) == Ids(s.waitList);
    }
  }

  lemma CancelKeepsOrder(s: State)
    requires InvOrder(s)
    ensures InvOrder(Step(s, Cancel))
  {
    var t := Step(s, Cancel);
    var waiting := Ids(s.waitList);
    WithoutMembers(s.posted, Gone(s));
    var front := Served(s) + InFlight(s);
    assert Line(s) == front + waiting;
    assert Line(t) == front;
    assert forall i :: 0 <= i < |waiting| ==> Line(s)[|front| + i] == waiting[i];
    forall id: nat | id < s.posted ensures id in Gone(t) <==> id in Gone(s) || id in waiting {
    }
    WithoutFewer(s.posted, Gone(s), front, waiting, Gone(t));
    forall i, k | 0 <= i < k < |t.cancelled| ensures t.cancelled[i] != t.cancelled[k] {
      if i < |s.cancelled| <= k {
        assert s.cancelled[i] in Gone(s);
      }
    }
  }

  lemma StepKeepsOrder(s: State, event: Event)
    requires InvFlight(s) && InvOrder(s)
    ensures InvOrder(Step(s, event))
  {
    var t := Step(s, event);
    match event
    case Post =>
      PostedGoesLast(s);
      assert Gone(t) == Gone(s);
      assert s.posted !in Gone(s);
    case Cancel => CancelKeepsOrder(s);
    case PollNext =>
      assert Gone(t) == Gone(s);
      if s.polling && s.waitList != [] {
        FrontGoesInFlight(s);
      }
    case _ =>
      assert Gone(t) == Gone(s);
      if s.current.Some? && event != Connected {
        AttemptKeepsPlace(s, event);
      }
  }

  /** No request has two places. */
  lemma PlacesDiffer(s: State, i: nat, k: nat)
    requires InvOrder(s) && i < k < |Line(s)|
    ensures Line(s)[i] < Line(s)[k] < s.posted && Line(s)[i] !in s.cancelled && Line(s)[k] !in s.cancelled
  {
    WithoutMembers(s.posted, Gone(s));
  }

  /** Where the served requests, the one in flight and the waiting ones stand in the line. */
  lemma PlacesInLine(s: State)
    ensures |Line(s)| == |s.served| + |InFlight(s)| + |s.waitList|
    ensures forall i :: 0 <= i < |s.served| ==> Line(s)[i] == s.served[i].id
    ensures s.current.Some? ==> Line(s)[|s.served|] == s.current.value.id
    ensures forall i :: 0 <= i < |s.waitList| ==>
      Line(s)[|s.served| + |InFlight(s)| + i] == s.waitList[i].id
  {
  }

  /** A request that is started anew is neither served nor cancelled, and waits nowhere else. */
  ghost predicate Apart(s: State, id: nat) {
    && (forall i :: 0 <= i < |s.served| ==> s.served[i].id != id)
    && id !in s.cancelled
  }

  lemma WaitingIsApart(s: State, w: nat)
    requires InvOrder(s) && w < |s.waitList|
    ensures Apart(s, s.waitList[w].id) && s.waitList[w].id < s.posted
    ensures forall i :: 0 <= i < |s.waitList| && i != w ==> s.waitList[i].id != s.waitList[w].id
  {
    hide Line, Without;
    PlacesInLine(s);
    var base := |s.served| + |InFlight(s)|;
    forall i | 0 <= i < |s.served| ensures s.served[i].id != s.waitList[w].id {
      PlacesDiffer(s, i, base + w);
    }
    forall i | 0 <= i < |s.waitList| && i != w ensures s.waitList[i].id != s.waitList[w].id {
      PlacesDiffer(s, base + if i < w then i else w, base + if i < w then w else i);
    }
    LineIsLive(s, base + w);
  }

  lemma LineIsLive(s: State, i: nat)
    requires InvOrder(s) && i < |Line(s)|
    ensures Line(s)[i] < s.posted && Line(s)[i] !in s.cancelled
  {
    WithoutMembers(s.posted, Gone(s));
  }

  lemma PostKeepsAttempts(s: State)
    requires Inv(s)
    ensures InvAttempts(Step(s, Post))
  {
    PlacesInLine(s);
    forall i | 0 <= i < |Line(s)| ensures Line(s)[i] < s.posted {
      LineIsLive(s, i);
    }
    hide Line;
  }

  lemma PollKeepsAttempts(s: State)
    requires Inv(s)
    ensures InvAttempts(Step(s, PollNext))
  {
    hide InvOrder, Line;
    if s.polling && s.waitList != [] {
      WaitingIsApart(s, 0);
      var t := Step(s, PollNext);
      assert t.started[s.waitList[0].id] == s.started[s.waitList[0].id] + 1;
    }
  }

  lemma CancelKeepsAttempts(s: State)
    requires Inv(s)
    ensures InvAttempts(Step(s, Cancel))
  {
    hide InvOrder, Line;
    forall id | id in s.cancelled + Ids(s.waitList) ensures s.started[id] <= 1 {
      if id !in s.cancelled {
        var i :| 0 <= i < |s.waitList| && Ids(s.waitList)[i] == id;
        assert s.waitList[i].id == id;
      }
    }
  }

  lemma StepKeepsAttempts(s: State, event: Event)
    requires Inv(s)
    ensures InvAttempts(Step(s, event))
  {
    match event
    case Post => PostKeepsAttempts(s);
    case PollNext => PollKeepsAttempts(s);
    case Cancel => CancelKeepsAttempts(s);
    case _ => EndKeepsAttempts(s, event);
  }

  lemma EndKeepsAttempts(s: State, event: Event)
    requires Inv(s) && (event.Connected? || event.Fail? || event.Finish?)
    ensures InvAttempts(Step(s, event))
  {
    hide InvOrder, Line;
  }

  lemma StepKeeps(s: State, event: Event)
    requires Inv(s)
    ensures Inv(Step(s, event))
  {
    hide InvFlight, InvOrder, InvAttempts, Step;
    StepKeepsFlight(s, event);
    StepKeepsOrder(s, event);
    StepKeepsAttempts(s, event);
  }

  // Whole runs

  function Run(s: State, events: seq<Event>): State
    decreases |events|
  {
    if events == [] then s else Run(Step(s, events[0]), events[1..])
  }

  lemma {:induction false} RunKeeps(s: State, events: seq<Event>)
    requires Inv(s)
    ensures Inv(Run(s, events))
    decreases |events|
  {
    if events != [] {
      StepKeeps(s, events[0]);
      RunKeeps(Step(s, events[0]), events[1..]);
    }
  }

  /** In every reachable state at most one request is in flight, and requests wait only while the
      client is processing. Each posted request is in exactly one place: served, in flight, waiting
      or cancelled. The first three, read in that order, are in posting order. */
  lemma EveryRunIsSafe(events: seq<Event>)
    ensures var s := Run(INITIAL, events);
      && Inv(s)
      && (s.waitList != [] ==> s.isProcessing)
      && (forall i, k :: 0 <= i < k < |Line(s)| ==> Line(s)[i] < Line(s)[k])
      && (forall id: nat :: id < s.posted <==> id in Line(s) || id in s.cancelled)
      && (forall id :: id in s.cancelled ==> id !in Line(s))
  {
    RunKeeps(INITIAL, events);
    var s := Run(INITIAL, events);
    WithoutMembers(s.posted, Gone(s));
  }

  function Upto(n: nat): seq<nat> { seq(n, i => i) }

  lemma {:induction false} NoneGone(n: nat)
    ensures Without(n, {}) == Upto(n)
  {
    if n > 0 {
      NoneGone(n - 1);
    }
  }

  lemma {:induction false} NoCancelNoneCancelled(s: State, events: seq<Event>)
    requires Cancel !in events
    ensures Run(s, events).cancelled == s.cancelled
    decreases |events|
  {
    if events != [] {
      assert events[0] != Cancel;
      NoCancelNoneCancelled(Step(s, events[0]), events[1..]);
    }
  }

  lemma ServedInPostingOrder(s: State)
    requires InvOrder(s) && s.cancelled == []
    ensures Served(s) <= Upto(s.posted)
    ensures s.current.None? && s.waitList == [] ==> Served(s) == Upto(s.posted)
  {
    hide Served, Without, Upto;
    assert Gone(s) == {};
    NoneGone(s.posted);
    assert Line(s) == Served(s) + (InFlight(s) + Ids(s.waitList));
  }

  /** Without Cancel the callbacks run in posting order, each exactly once, whatever fails and is
      retried: once the client is idle again they have run for 0, 1, ..., all that were posted. */
  lemma CallbacksInPostingOrder(events: seq<Event>)
    requires Cancel !in events
    ensures var s := Run(INITIAL, events);
      && Served(s) <= Upto(s.posted)
      && (!s.isProcessing ==> Served(s) == Upto(s.posted))
  {
    hide Run, Served, Upto, InvOrder, InvAttempts;
    InitialHolds();
    RunKeeps(INITIAL, events);
    NoCancelNoneCancelled(INITIAL, events);
    ServedInPostingOrder(Run(INITIAL, events));
  }

  lemma InitialHolds()
    ensures Inv(INITIAL)
  {
  }

  lemma AttemptsAreBounded(s: State, id: nat)
    requires Inv(s)
    ensures s.started[id] <= 2
  {
    hide Line;
    WhereIs(s, id);
  }

  lemma WhereIs(s: State, id: nat)
    requires InvOrder(s)
    ensures id >= s.posted || id in s.cancelled || (s.current.Some? && s.current.value.id == id)
         || (exists i :: 0 <= i < |s.served| && s.served[i].id == id)
         || (exists i :: 0 <= i < |s.waitList| && s.waitList[i].id == id)
  {
    WithoutMembers(s.posted, Gone(s));
    PlacesInLine(s);
    if id < s.posted && id !in s.cancelled {
      assert id in Line(s);
      var i :| 0 <= i < |Line(s)| && Line(s)[i] == id;
      hide Line, Without;
      if i < |s.served| {
        assert s.served[i].id == id;
      } else if |s.served| + |InFlight(s)| <= i {
        assert s.waitList[i - |s.served| - |InFlight(s)|].id == id;
      }
    }
  }

  /** A failure is reported only after two attempts, and no request has more. */
  lemma TwoAttempts(events: seq<Event>, id: nat)
    ensures var s := Run(INITIAL, events);
      && s.started[id] <= 2
      && (Answer(id, Failure) in s.served ==> s.started[id] == 2)
  {
    RunKeeps(INITIAL, events);
    hide Run, InvOrder;
    AttemptsAreBounded(Run(INITIAL, events), id);
  }

  // What each callback is given, read off the events of a run

  lemma {:induction false} RunOneMore(s: State, events: seq<Event>, e: Event)
    ensures Run(s, events + [e]) == Step(Run(s, events), e)
    decreases |events|
  {
    if events == [] {
      assert events + [e] == [e] && [e][1..] == [];
    } else {
      assert (events + [e])[1..] == events[1..] + [e];
      RunOneMore(Step(s, events[0]), events[1..], e);
    }
  }

  predicate Flies(s: State, id: nat) { s.current.Some? && s.current.value.id == id }

  /** How many attempts of the request have failed. */
  function Failures(events: seq<Event>, id: nat): nat {
    if events == [] then 0
    else
      var n := |events| - 1;
      Failures(events[..n], id) + if events[n] == Fail && Flies(Run(INITIAL, events[..n]), id) then 1 else 0
  }

  /** Its response was read to the end. */
  predicate WasFinished(events: seq<Event>, id: nat) {
    events != [] &&
    var n := |events| - 1;
    var s := Run(INITIAL, events[..n]);
    WasFinished(events[..n], id) || (events[n] == Finish && Flies(s, id) && s.connected)
  }

  /** A Cancel came while it was waiting. */
  predicate WasCancelled(events: seq<Event>, id: nat) {
    events != [] &&
    var n := |events| - 1;
    WasCancelled(events[..n], id) || (events[n] == Cancel && id in Ids(Run(INITIAL, events[..n]).waitList))
  }

  /** A request that is in flight or waits has failed once for each retry it has used. */
  ghost predicate FailuresFit(s: State, id: nat, failures: nat) {
    && failures <= 2
    && (Flies(s, id) ==> failures + s.current.value.retry == 1)
    && (forall i :: 0 <= i < |s.waitList| && s.waitList[i].id == id ==> failures + s.waitList[i].retry == 1)
    && (id >= s.posted ==> failures == 0)
  }

  lemma NewIsNowhere(s: State)
    requires InvOrder(s)
    ensures !Flies(s, s.posted) && forall i :: 0 <= i < |s.waitList| ==> s.waitList[i].id < s.posted
  {
    PlacesInLine(s);
    forall i | 0 <= i < |Line(s)| ensures Line(s)[i] < s.posted {
      LineIsLive(s, i);
    }
    hide Line;
  }

  lemma FlyingIsApart(s: State, id: nat)
    requires InvOrder(s) && Flies(s, id)
    ensures id < s.posted && forall i :: 0 <= i < |s.waitList| ==> s.waitList[i].id != id
  {
    hide Line, Without;
    PlacesInLine(s);
    LineIsLive(s, |s.served|);
    forall i | 0 <= i < |s.waitList| ensures s.waitList[i].id != id {
      PlacesDiffer(s, |s.served|, |s.served| + 1 + i);
    }
  }

  lemma FailuresStep(s: State, e: Event, id: nat, failures: nat)
    requires Inv(s) && FailuresFit(s, id, failures)
    ensures FailuresFit(Step(s, e), id, failures + if e == Fail && Flies(s, id) then 1 else 0)
    ensures e == Fail && Flies(s, id) ==> failures <= 1
  {
    hide InvAttempts, Without, Line, Served;
    NewIsNowhere(s);
    if s.current.Some? {
      FlyingIsApart(s, s.current.value.id);
    }
    if s.waitList != [] {
      WaitingIsApart(s, 0);
    }
    hide InvOrder;
  }

  lemma Appended(served: seq<Answer>, a: Answer, b: Answer)
    ensures b in served + [a] <==> b in served || b == a
  {
  }

  lemma ReplyStep(s: State, e: Event, id: nat, failures: nat)
    requires FailuresFit(s, id, failures)
    ensures var t := Step(s, e);
      && (Answer(id, Response) in t.served <==>
            Answer(id, Response) in s.served || (e == Finish && Flies(s, id) && s.connected))
      && (Answer(id, Failure) in t.served <==>
            Answer(id, Failure) in s.served || (e == Fail && Flies(s, id) && failures == 1))
      && (id in t.cancelled <==> id in s.cancelled || (e == Cancel && id in Ids(s.waitList)))
  {
    if s.current.Some? {
      Appended(s.served, Answer(s.current.value.id, Response), Answer(id, Response));
      Appended(s.served, Answer(s.current.value.id, Failure), Answer(id, Failure));
    }
  }

  /** In every run: a request is answered with the response exactly when that was read to its end,
      with a failure exactly when two attempts have failed, and as cancelled exactly when a Cancel
      came while it was waiting. */
  lemma {:induction false} EveryReply(events: seq<Event>, id: nat)
    ensures var s := Run(INITIAL, events);
      && (Answer(id, Response) in s.served <==> WasFinished(events, id))
      && (Answer(id, Failure) in s.served <==> Failures(events, id) == 2)
      && (id in s.cancelled <==> WasCancelled(events, id))
      && FailuresFit(s, id, Failures(events, id))
  {
    hide Step, Inv, FailuresFit, Run, Flies, Ids;
    if events == [] {
      NothingYet(id);
    } else {
      var n := |events| - 1;
      var s := Run(INITIAL, events[..n]);
      EveryReply(events[..n], id);
      InitialHolds();
      RunKeeps(INITIAL, events[..n]);
      assert events == events[..n] + [events[n]];
      RunOneMore(INITIAL, events[..n], events[n]);
      FailuresStep(s, events[n], id, Failures(events[..n], id));
      ReplyStep(s, events[n], id, Failures(events[..n], id));
    }
  }

  lemma NothingYet(id: nat)
    ensures Run(INITIAL, []) == INITIAL && FailuresFit(INITIAL, id, 0)
    ensures INITIAL.served == [] && INITIAL.cancelled == []
  {
  }

  /** The connection is open from the moment it is made until an attempt fails that is made again: the
      next request finds it open after a response and after a final failure. */
  predicate IsConnected(events: seq<Event>) {
    events != [] &&
    var n := |events| - 1;
    var s := Run(INITIAL, events[..n]);
    match events[n]
    case Connected => IsConnected(events[..n]) || s.current.Some?
    case Fail => IsConnected(events[..n]) && !(s.current.Some? && Failures(events[..n], s.current.value.id) == 0)
    case _ => IsConnected(events[..n])
  }

  lemma {:induction false} ConnectionIsKept(events: seq<Event>)
    ensures Run(INITIAL, events).connected == IsConnected(events)
  {
    if events != [] {
      hide Inv, FailuresFit, Run;
      var n := |events| - 1;
      var s := Run(INITIAL, events[..n]);
      ConnectionIsKept(events[..n]);
      assert events == events[..n] + [events[n]];
      RunOneMore(INITIAL, events[..n], events[n]);
      if s.current.Some? {
        EveryReply(events[..n], s.current.value.id);
        RetriesFit(s, s.current.value.id, Failures(events[..n], s.current.value.id));
      }
    }
  }

  lemma RetriesFit(s: State, id: nat, failures: nat)
    requires FailuresFit(s, id, failures) && Flies(s, id)
    ensures failures + s.current.value.retry == 1
  {
  }

  // What a cancel stops

  /** Of a first attempt in flight: it fails before it is finished, and the retry, which then waits
      in front, is polled before another cancel takes it away. */
  predicate FailsThenIsPolled(connected: bool, events: seq<Event>)
    decreases |events|
  {
    events != [] &&
    match events[0]
    case Connected => FailsThenIsPolled(true, events[1..])
    case Fail => IsPolled(events[1..])
    case Finish => !connected && FailsThenIsPolled(connected, events[1..])
    case _ => FailsThenIsPolled(connected, events[1..])
  }

  predicate IsPolled(events: seq<Event>)
    decreases |events|
  {
    events != [] && (events[0] == PollNext || (events[0] != Cancel && IsPolled(events[1..])))
  }

  predicate NoneWaits(s: State) { s.waitList == [] && !(s.current.Some? && s.polling) }

  lemma {:induction false} NothingLeftToStart(s: State, events: seq<Event>)
    requires NoneWaits(s) && (s.current.Some? ==> s.current.value.retry == 0) && Post !in events
    ensures Run(s, events).started == s.started
    decreases |events|
  {
    if events != [] {
      assert events[0] != Post;
      NothingLeftToStart(Step(s, events[0]), events[1..]);
    }
  }

  lemma {:induction false} RetryStartsWhenPolled(s: State, events: seq<Event>)
    requires s.current.None? && s.polling && |s.waitList| == 1 && s.waitList[0].retry == 0 && Post !in events
    ensures Run(s, events).started
         == s.started + if IsPolled(events) then multiset{s.waitList[0].id} else multiset{}
    decreases |events|
  {
    if events != [] {
      assert events[0] != Post;
      var t := Step(s, events[0]);
      if events[0] == PollNext || events[0] == Cancel {
        NothingLeftToStart(t, events[1..]);
      } else {
        RetryStartsWhenPolled(t, events[1..]);
      }
    }
  }

  lemma {:induction false} FirstAttemptMayBeRepeated(s: State, events: seq<Event>)
    requires NoneWaits(s) && s.current.Some? && s.current.value.retry == 1 && Post !in events
    ensures Run(s, events).started
         == s.started + if FailsThenIsPolled(s.connected, events) then multiset{s.current.value.id} else multiset{}
    decreases |events|
  {
    if events != [] {
      assert events[0] != Post;
      var t := Step(s, events[0]);
      if events[0] == Fail {
        RetryStartsWhenPolled(t, events[1..]);
      } else if events[0] == Finish && s.connected {
        NothingLeftToStart(t, events[1..]);
      } else {
        FirstAttemptMayBeRepeated(t, events[1..]);
      }
    }
  }

  /** What is started after a Cancel, on every continuation without new requests: nothing, but the
      request in flight once more, exactly when this was its first attempt and the attempt then
      fails and its retry is polled before a further Cancel. */
  lemma StartedAfterCancel(s: State, events: seq<Event>)
    requires Inv(s) && Post !in events
    ensures Run(Step(s, Cancel), events).started
         == s.started + if s.current.Some? && s.current.value.retry > 0 && FailsThenIsPolled(s.connected, events)
                        then multiset{s.current.value.id} else multiset{}
  {
    var t := Step(s, Cancel);
    if s.current.Some? && s.current.value.retry > 0 {
      FirstAttemptMayBeRepeated(t, events);
    } else {
      NothingLeftToStart(t, events);
    }
  }

  /** So a Cancel stops all further attempts of a request unless it is in flight with a retry left;
      in that case the failure the cancel causes makes the client attempt it again. */
  lemma CancelStopsExactly(s: State, id: nat)
    requires Inv(s)
    ensures Run(s, [Cancel, Fail, PollNext]).started[id] > s.started[id]
       <==> s.current.Some? && s.current.value.id == id && s.current.value.retry > 0
    ensures !(s.current.Some? && s.current.value.id == id && s.current.value.retry > 0) ==>
      forall events: seq<Event> :: Post !in events ==> Run(Step(s, Cancel), events).started[id] == s.started[id]
  {
    var events := [Fail, PollNext];
    assert [Cancel, Fail, PollNext][1..] == events;
    assert events[1..] == [PollNext];
    assert FailsThenIsPolled(s.connected, events);
    StartedAfterCancel(s, events);
    forall events: seq<Event> | Post !in events
      ensures Run(Step(s, Cancel), events).started[id] == s.started[id]
           || (s.current.Some? && s.current.value.id == id && s.current.value.retry > 0)
    {
      StartedAfterCancel(s, events);
    }
  }

  // Progress

  function Waiting(contexts: seq<Context>): nat {
    if contexts == [] then 0 else 4 * contexts[0].retry + 5 + Waiting(contexts[1..])
  }

  /** What is left to do. */
  function Work(s: State): nat {
    Waiting(s.waitList)
    + (if s.current.Some? then 4 * s.current.value.retry + (if s.connected then 3 else 4) else 0)
    + (if s.polling then 1 else 0)
  }

  /** Every step but a post that has any effect leaves less to do, and while the client is
      processing there is such a step: no request waits for ever. */
  lemma StepsMakeProgress(s: State, event: Event)
    requires Inv(s)
    ensures event != Post && Step(s, event) != s ==> Work(Step(s, event)) < Work(s)
    ensures s.isProcessing ==> Step(s, if s.polling then PollNext else Fail) != s
  {
    hide InvOrder, InvAttempts;
    if event == Cancel && s.waitList == [] {
      assert s.cancelled + Ids([]) == s.cancelled;
    }
    if event == Fail && s.current.Some? {
      var ctx := s.current.value;
      if ctx.retry > 0 {
        assert ([Context(ctx.id, ctx.retry - 1)] + s.waitList)[1..] == s.waitList;
      }
    }
  }

  // The client as it runs

  class Client {
    var m_isProcessing: bool
    var m_waitList: seq<Context>
    var current: Option<Context>
    var polling: bool
    var m_socket: bool
    var posted: nat
    var started: multiset<nat>
    var served: seq<Answer>
    var cancelled: seq<nat>

    ghost function Abs(): State
      reads this
    {
      State(m_isProcessing, m_waitList, current, polling, m_socket, posted, started, served, cancelled)
    }

    constructor ()
      ensures Abs() == INITIAL
    {
      m_isProcessing, m_waitList, current, polling, m_socket := false, [], None, false, false;
      posted, started, served, cancelled := 0, multiset{}, [], [];
    }

    /** Hands the request to the thread. */
    method SendRequest(ctx: Context)
      modifies this
      ensures Abs() == old(Abs()).(current := Some(ctx), started := old(started) + multiset{ctx.id})
    {
      current := Some(ctx);
      started := started + multiset{ctx.id};
    }

    method PostRequest()
      modifies this
      ensures Abs() == Step(old(Abs()), Post)
    {
      var ctx := Context(posted, 1);
      posted := posted + 1;
      if m_isProcessing {
        m_waitList := m_waitList + [ctx];
      } else {
        m_isProcessing := true;
        SendRequest(ctx);
      }
    }

    method PollNext()
      requires polling
      modifies this
      ensures Abs() == Step(old(Abs()), Event.PollNext)
    {
      polling := false;
      if m_waitList == [] {
        m_isProcessing := false;
      } else {
        m_isProcessing := true;
        var ctx := m_waitList[0];
        m_waitList := m_waitList[1..];
        SendRequest(ctx);
      }
    }

    /** Runs the callback of every waiting request, in their order, then forgets them. */
    method Cancel()
      modifies this
      ensures Abs() == Step(old(Abs()), Event.Cancel)
    {
      var i := 0;
      while i < |m_waitList|
        modifies `cancelled
        invariant i <= |m_waitList|
        invariant cancelled == old(cancelled) + Ids(m_waitList)[..i]
      {
        cancelled := cancelled + [m_waitList[i].id];
        i := i + 1;
      }
      assert Ids(m_waitList)[..i] == Ids(m_waitList);
      m_waitList := [];
    }

    method HandleConnect()
      requires current.Some?
      modifies this
      ensures Abs() == Step(old(Abs()), Connected)
    {
      m_socket := true;
    }

    /** The exception branch of the thread loop. */
    method HandleException()
      requires current.Some?
      modifies this
      ensures Abs() == Step(old(Abs()), Fail)
    {
      var ctx := current.value;
      current, polling := None, true;
      if ctx.retry > 0 {
        m_socket := false;
        m_waitList := [Context(ctx.id, ctx.retry - 1)] + m_waitList;
      } else {
        served := served + [Answer(ctx.id, Failure)];
      }
    }

    method FinishReadContent()
      requires current.Some? && m_socket
      modifies this
      ensures Abs() == Step(old(Abs()), Finish)
    {
      served := served + [Answer(current.value.id, Response)];
      current, polling := None, true;
    }
  }
}
