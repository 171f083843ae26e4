/** What the callback of a request is given, read off the events of a run
    (src/Networking/Http/HttpClientMT.cpp). */
module SessionReplies {
  import opened Options
  import opened SessionProtocol

  // The phase of an attempt

  /** What an attempt goes through with a new socket; with a pooled one it begins at Sending. */
  function Stages(https: bool): seq<Phase> {
    if https then [Resolving, Connecting, HandShaking, Sending, ReadingStatus, ReadingHeaders, ReadingBody]
    else [Resolving, Connecting, Sending, ReadingStatus, ReadingHeaders, ReadingBody]
  }

  /** Where the last attempt of the request began, plus the operations that have succeeded since. */
  function StagesPassed(threadCount: nat, https: bool, events: seq<Event>, id: nat): nat
    requires threadCount >= 1 && Run(threadCount, https, events).Some?
  {
    if events == [] then 0
    else
      var n := |events| - 1;
      var s := Run(threadCount, https, events[..n]).value;
      var passed := StagesPassed(threadCount, https, events[..n], id);
      match events[n]
      case Begin(k) =>
        if s.posted[k].id != id then passed else if s.pool == [] then 0 else if https then 3 else 2
      case Complete(other, r) => if other == id && r == Ok then passed + 1 else passed
      case _ => passed
  }

  function StageAt(https: bool, passed: nat): Phase {
    if passed < |Stages(https)| then Stages(https)[passed] else ReadingBody
  }

  /** The part of the invariant that the course of one request rests on. */
  predicate Facts(s: State, id: nat) {
    && (id in s.active <==> id in s.places && s.places[id] == Active)
    && (id in s.places <==> id in s.attempts)
    && (id in s.active ==> s.active[id].retry <= 1 && s.attempts[id] + s.active[id].retry == 2)
    && (forall k :: 0 <= k < |s.posted| && s.posted[k].id == id ==>
         id in s.places && s.places[id] == Posted && id !in s.active)
  }

  lemma FactsHold(s: State, id: nat)
    requires Inv(s)
    ensures Facts(s, id)
  {
    PostedOnce(s);
    assert id in s.active <==> id in At(s.places, Active);
  }

  function NextPhase(https: bool, phase: Phase): Phase {
    match phase
    case Resolving => Connecting
    case Connecting => if https then HandShaking else Sending
    case HandShaking => Sending
    case Sending => ReadingStatus
    case ReadingStatus => ReadingHeaders
    case _ => ReadingBody
  }

  lemma PhaseStep(s: State, e: Event, id: nat)
    requires Facts(s, id) && Enabled(s, e) && s.threadCount >= 1 && id in s.active && id in Step(s, e).active
    ensures var phase := s.active[id].phase;
      Step(s, e).active[id].phase == if e == Complete(id, Ok) then NextPhase(s.https, phase) else phase
  {
    hide Evicted, CloseAll, SetHolder;
  }

  lemma OneStageOn(s: State, e: Event, id: nat, passed: nat)
    requires Facts(s, id) && Enabled(s, e) && s.threadCount >= 1 && id in s.active && id in Step(s, e).active
    requires s.active[id].phase == StageAt(s.https, passed)
    ensures Step(s, e).active[id].phase
         == StageAt(s.https, if e == Complete(id, Ok) then passed + 1 else passed)
  {
    hide Step, Facts, Enabled;
    PhaseStep(s, e, id);
  }

  lemma FirstStage(s: State, e: Event, id: nat)
    requires Enabled(s, e) && s.threadCount >= 1 && id !in s.active && id in Step(s, e).active
    ensures e.Begin? && s.posted[e.index].id == id
    ensures Step(s, e).active[id].phase == StageAt(s.https, if s.pool == [] then 0 else if s.https then 3 else 2)
  {
    hide Evicted, CloseAll, SetHolder;
  }

  lemma StepKeepsScheme(s: State, e: Event)
    requires Enabled(s, e) && s.threadCount >= 1
    ensures Step(s, e).https == s.https && Step(s, e).threadCount == s.threadCount
  {
    hide Evicted, CloseAll, SetHolder;
  }

  lemma {:induction false} SchemeStays(threadCount: nat, https: bool, events: seq<Event>)
    requires threadCount >= 1 && Run(threadCount, https, events).Some?
    ensures Run(threadCount, https, events).value.https == https
  {
    if events != [] {
      var n := |events| - 1;
      SchemeStays(threadCount, https, events[..n]);
      StepKeepsScheme(Run(threadCount, https, events[..n]).value, events[n]);
      hide Step;
    }
  }

  /** Whatever else happens, an attempt goes through its stages in order, one for each operation that
      succeeds; the handshake belongs to them exactly under https, and the body is read to its end. */
  lemma {:induction false} StagesInOrder(threadCount: nat, https: bool, events: seq<Event>, id: nat)
    requires threadCount >= 1 && Run(threadCount, https, events).Some?
    requires id in Run(threadCount, https, events).value.active
    ensures Run(threadCount, https, events).value.active[id].phase
         == StageAt(https, StagesPassed(threadCount, https, events, id))
  {
    hide Step, Inv, StageAt, Enabled, Facts;
    if events != [] {
      var n := |events| - 1;
      var s := Run(threadCount, https, events[..n]).value;
      RunKeeps(threadCount, https, events[..n]);
      FactsHold(s, id);
      SchemeStays(threadCount, https, events[..n]);
      if id in s.active {
        StagesInOrder(threadCount, https, events[..n], id);
        OneStageOn(s, events[n], id, StagesPassed(threadCount, https, events[..n], id));
        NotStartedTwice(s, events[n], id);
      } else {
        FirstStage(s, events[n], id);
      }
    }
  }

  lemma NotStartedTwice(s: State, e: Event, id: nat)
    requires Facts(s, id) && Enabled(s, e) && id in s.active
    ensures e.Begin? ==> e.index < |s.posted| && s.posted[e.index].id != id
  {
  }

  // The reply

  predicate InBody(s: State, id: nat) { id in s.active && s.active[id].phase.ReadingBody? }

  /** The event is the end of an attempt that is not put down to a cancel. */
  predicate Fails(s: State, e: Event, id: nat) {
    e == Complete(id, Failed) || (e == Complete(id, Aborted) && InBody(s, id))
  }

  predicate Cancels(s: State, e: Event, id: nat) { e == Complete(id, Aborted) && !InBody(s, id) }

  /** How many attempts of the request have failed. */
  function Failures(threadCount: nat, https: bool, events: seq<Event>, id: nat): nat
    requires threadCount >= 1 && Run(threadCount, https, events).Some?
  {
    if events == [] then 0
    else
      var n := |events| - 1;
      Failures(threadCount, https, events[..n], id)
      + if Fails(Run(threadCount, https, events[..n]).value, events[n], id) then 1 else 0
  }

  /** An operation of the request was aborted outside the body. */
  predicate WasCancelled(threadCount: nat, https: bool, events: seq<Event>, id: nat)
    requires threadCount >= 1 && Run(threadCount, https, events).Some?
  {
    events != [] &&
    var n := |events| - 1;
    WasCancelled(threadCount, https, events[..n], id)
    || Cancels(Run(threadCount, https, events[..n]).value, events[n], id)
  }

  /** The failures of a request that is not answered are its attempts so far, without the one it is
      making. */
  predicate FailuresFit(s: State, id: nat, failures: nat) {
    if id !in s.places then failures == 0
    else
      id in s.attempts &&
      match s.places[id]
      case Posted => failures == s.attempts[id]
      case Active => failures + 1 == s.attempts[id]
      case Answered => failures <= 2
  }

  /** Where the end of an operation leaves the requests. */
  lemma CompletePlaces(s: State, id: nat, r: Result)
    requires Enabled(s, Complete(id, r)) && s.threadCount >= 1
    ensures var e := Complete(id, r);
      && Step(s, e).attempts == s.attempts
      && Step(s, e).places ==
         if r.Finished? || Cancels(s, e, id) then s.places[id := Answered]
         else if Fails(s, e, id) then s.places[id := if s.active[id].retry > 0 then Posted else Answered]
         else s.places
  {
    hide Evicted, CloseAll, SetHolder;
  }

  lemma FailuresStep(s: State, e: Event, id: nat, failures: nat)
    requires Facts(s, id) && Enabled(s, e) && s.threadCount >= 1 && FailuresFit(s, id, failures)
    ensures FailuresFit(Step(s, e), id, failures + if Fails(s, e, id) then 1 else 0)
    ensures Fails(s, e, id) ==> failures <= 1
  {
    if e.Complete? {
      hide Step;
      CompletePlaces(s, e.id, e.result);
    } else {
      hide Evicted, CloseAll, SetHolder, ConnectNew, ToPhase, Raise, Finish;
    }
  }

  lemma Appended(answers: seq<Answer>, a: Answer, b: Answer)
    ensures b in answers + [a] <==> b in answers || b == a
  {
  }

  /** The answers that one event adds. */
  lemma AnswersGrow(s: State, e: Event)
    requires Enabled(s, e) && s.threadCount >= 1
    ensures Step(s, e).answers == s.answers +
      if !e.Complete? then []
      else if e.result.Finished? then [Answer(e.id, Response)]
      else if Cancels(s, e, e.id) then [Answer(e.id, Exception(true))]
      else if Fails(s, e, e.id) && s.active[e.id].retry == 0 then [Answer(e.id, Exception(false))]
      else []
  {
    hide Evicted, CloseAll, SetHolder;
  }

  lemma ReplyStep(s: State, e: Event, id: nat, failures: nat)
    requires Facts(s, id) && Enabled(s, e) && s.threadCount >= 1 && FailuresFit(s, id, failures)
    ensures var s' := Step(s, e);
      && (Answer(id, Response) in s'.answers <==> Answer(id, Response) in s.answers || e == Complete(id, Finished))
      && (Answer(id, Exception(true)) in s'.answers <==>
            Answer(id, Exception(true)) in s.answers || Cancels(s, e, id))
      && (Answer(id, Exception(false)) in s'.answers <==>
            Answer(id, Exception(false)) in s.answers || (Fails(s, e, id) && failures == 1))
  {
    hide Step;
    AnswersGrow(s, e);
    if e.Complete? {
      Appended(s.answers, Answer(e.id, Response), Answer(id, Response));
      Appended(s.answers, Answer(e.id, Exception(true)), Answer(id, Exception(true)));
      Appended(s.answers, Answer(e.id, Exception(false)), Answer(id, Exception(false)));
    }
  }

  /** In every run: the callback is given the response exactly when an operation has finished it; an
      exception that says cancelled exactly when an operation was aborted outside the body; and any
      other exception exactly when two attempts have failed. */
  lemma {:induction false} EveryReply(threadCount: nat, https: bool, events: seq<Event>, id: nat)
    requires threadCount >= 1 && Run(threadCount, https, events).Some?
    ensures var s := Run(threadCount, https, events).value;
      && (Answer(id, Response) in s.answers <==> Complete(id, Finished) in events)
      && (Answer(id, Exception(true)) in s.answers <==> WasCancelled(threadCount, https, events, id))
      && (Answer(id, Exception(false)) in s.answers <==> Failures(threadCount, https, events, id) == 2)
      && FailuresFit(s, id, Failures(threadCount, https, events, id))
  {
    hide Step, Inv, Fails, Cancels, FailuresFit, Enabled, Facts;
    if events == [] {
      NothingFails(threadCount, https, id);
    } else {
      var n := |events| - 1;
      var s := Run(threadCount, https, events[..n]).value;
      var failures := Failures(threadCount, https, events[..n], id);
      EveryReply(threadCount, https, events[..n], id);
      RunKeeps(threadCount, https, events[..n]);
      FactsHold(s, id);
      FailuresStep(s, events[n], id, failures);
      ReplyStep(s, events[n], id, failures);
      assert events == events[..n] + [events[n]];
    }
  }

  lemma NothingFails(threadCount: nat, https: bool, id: nat)
    requires threadCount >= 1
    ensures FailuresFit(Start(threadCount, https), id, 0) && Start(threadCount, https).answers == []
  {
  }

  // The pool

  /** The sockets given back so far, in the order in which their responses were finished. */
  function Returned(threadCount: nat, https: bool, events: seq<Event>): seq<nat>
    requires threadCount >= 1 && Run(threadCount, https, events).Some?
  {
    if events == [] then []
    else
      var n := |events| - 1;
      var s := Run(threadCount, https, events[..n]).value;
      Returned(threadCount, https, events[..n]) + GivenBack(s, events[n])
  }

  function GivenBack(s: State, e: Event): seq<nat> {
    if e.Complete? && e.result.Finished? && e.id in s.active && s.active[e.id].socket.Some?
    then [s.active[e.id].socket.value]
    else []
  }

  predicate EndsWith(all: seq<nat>, last: seq<nat>) {
    |last| <= |all| && all[|all| - |last|..] == last
  }

  lemma PoolEffect(s: State, e: Event)
    requires Enabled(s, e) && s.threadCount >= 1
    ensures Step(s, e).pool ==
      if GivenBack(s, e) != [] then s.pool[Evicted(s.pool, s.threadCount)..] + GivenBack(s, e)
      else if e.Begin? && s.pool != [] then s.pool[1..]
      else s.pool
    ensures e.Begin? && s.pool != [] ==>
      s.posted[e.index].id in Step(s, e).active && Step(s, e).active[s.posted[e.index].id].socket == Some(s.pool[0])
  {
    hide CloseAll, SetHolder;
  }

  lemma DropMore(all: seq<nat>, last: seq<nat>, k: nat, more: seq<nat>)
    requires EndsWith(all, last) && k <= |last|
    ensures EndsWith(all + more, last[k..] + more)
    ensures last != [] ==> last[0] == all[|all| - |last|]
  {
    var n := |all| - |last|;
    assert (all + more)[n + k..] == all[n..][k..] + more;
  }

  /** A socket is taken from the front of the pool, closed at the front, and given back at the end. */
  lemma PoolStep(s: State, e: Event, all: seq<nat>)
    requires Enabled(s, e) && s.threadCount >= 1 && EndsWith(all, s.pool)
    ensures EndsWith(all + GivenBack(s, e), Step(s, e).pool)
    ensures e.Begin? && s.pool != [] ==>
      && s.posted[e.index].id in Step(s, e).active
      && Step(s, e).active[s.posted[e.index].id].socket == Some(all[|all| - |s.pool|])
  {
    hide Step;
    PoolEffect(s, e);
    var back := GivenBack(s, e);
    var k := if back != [] then Evicted(s.pool, s.threadCount) else if e.Begin? && s.pool != [] then 1 else 0;
    DropMore(all, s.pool, k, back);
    assert s.pool[0..] == s.pool && s.pool + [] == s.pool && s.pool[k..] + [] == s.pool[k..];
  }

  /** In every run the pool holds the sockets that were given back last, in that order. A new attempt
      takes the one of these that was given back first. */
  lemma {:induction false} PoolIsLatest(threadCount: nat, https: bool, events: seq<Event>)
    requires threadCount >= 1 && Run(threadCount, https, events).Some?
    ensures EndsWith(Returned(threadCount, https, events), Run(threadCount, https, events).value.pool)
  {
    hide Step, Enabled, EndsWith, GivenBack;
    if events == [] {
      NothingGivenBack(threadCount, https);
    } else {
      var n := |events| - 1;
      PoolIsLatest(threadCount, https, events[..n]);
      PoolStep(Run(threadCount, https, events[..n]).value, events[n], Returned(threadCount, https, events[..n]));
    }
  }

  lemma NothingGivenBack(threadCount: nat, https: bool)
    ensures EndsWith([], Start(threadCount, https).pool)
  {
  }
}
