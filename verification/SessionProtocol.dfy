/** The HTTP session engine as a state machine: requests are posted, started, driven by the
    completions of asynchronous operations, retried once, cancelled, and answered, while sockets
    move between the pool and the sessions (src/Networking/Http/HttpClientMT.cpp). */
module SessionProtocol {
  import opened Options

  datatype Phase =
    | Resolving | Connecting | HandShaking | Sending | ReadingStatus | ReadingHeaders | ReadingBody

  /** What the session's `Cancel` function is bound to. */
  datatype CancelTarget = NoTarget | Resolver | SocketOf(socket: nat)

  datatype Session = Session(id: nat, retry: nat, phase: Phase, socket: Option<nat>, cancel: CancelTarget)

  /** What the callback of a request is given. */
  datatype Reply = Response | Exception(wasCancel: bool)
  datatype Answer = Answer(id: nat, reply: Reply)

  /** How the outstanding operation of a session ends. `Finished` ends the response; `Empty` is a
      name lookup without results; `Failed` also stands for a response that cannot be read. */
  datatype Result = Ok | Finished | Empty | Aborted | Failed

  /** History: where a request is, and where a socket is. */
  datatype RequestPlace = Posted | Active | Answered
  datatype SocketPlace = InPool | HeldBy(id: nat) | Closed

  /** The fields of the client, and the history of its requests and sockets: `places` and
      `attempts` of every request ever posted, `holders` of every socket ever created. */
  datatype State = State(threadCount: nat, https: bool, posted: seq<Session>, active: map<nat, Session>,
                         pool: seq<nat>, answers: seq<Answer>,
                         places: map<nat, RequestPlace>, attempts: map<nat, nat>, holders: seq<SocketPlace>)

  function Start(threadCount: nat, https: bool): State {
    State(threadCount, https, [], map[], [], [], map[], map[], [])
  }

  datatype Event =
    | Post(id: nat)
    | Begin(index: nat)          // an io thread runs StartSession for a posted session
    | Complete(id: nat, result: Result)
    | Cancel(id: nat)

  /** Which results an operation can have. */
  predicate Possible(phase: Phase, r: Result) {
    match r
    case Empty => phase.Resolving?
    case Finished => phase.ReadingHeaders? || phase.ReadingBody?
    case _ => true
  }

  /** Request ids are distinct; everything else can happen at any time. */
  predicate Enabled(s: State, e: Event) {
    match e
    case Post(id) => id !in s.places
    case Begin(k) => k < |s.posted|
    case Complete(id, r) => id in s.active && Possible(s.active[id].phase, r)
    case Cancel(_) => true
  }

  // The pool

  /** How many sockets CacheSocket closes before it adds one. */
  function Evicted(pool: seq<nat>, threadCount: nat): (r: nat)
    ensures threadCount >= 1 ==> r <= |pool|
  {
    if |pool| + 1 > threadCount then |pool| + 1 - threadCount else 0
  }

  function CloseAll(holders: seq<SocketPlace>, sockets: seq<nat>): (r: seq<SocketPlace>)
    ensures |r| == |holders|
    ensures forall k :: 0 <= k < |r| ==> r[k] == if k in sockets then Closed else holders[k]
  {
    seq(|holders|, k requires 0 <= k < |holders| => if k in sockets then Closed else holders[k])
  }

  // Steps

  function SetHolder(holders: seq<SocketPlace>, socket: nat, place: SocketPlace): (r: seq<SocketPlace>)
    ensures |r| == |holders|
  {
    if socket < |holders| then holders[socket := place] else holders
  }

  /** `StartSession`: the session becomes active and takes a pooled socket if there is one. */
  function BeginSession(s: State, k: nat): State
    requires k < |s.posted|
  {
    var id := s.posted[k].id;
    var rest := s.(posted := s.posted[..k] + s.posted[k + 1..],
                   places := s.places[id := Active],
                   attempts := s.attempts[id := (if id in s.attempts then s.attempts[id] else 0) + 1]);
    if s.pool != [] then
      var socket := s.pool[0];
      rest.(active := s.active[id := s.posted[k].(phase := Sending, socket := Some(socket),
                                                  cancel := SocketOf(socket))],
            pool := s.pool[1..], holders := SetHolder(s.holders, socket, HeldBy(id)))
    else
      rest.(active := s.active[id := s.posted[k].(phase := Resolving, socket := None, cancel := Resolver)])
  }

  /** `Connect` with a resolved address: a new socket. */
  function ConnectNew(s: State, id: nat): State
    requires id in s.active
  {
    var socket := |s.holders|;
    s.(active := s.active[id := s.active[id].(phase := Connecting, socket := Some(socket), cancel := SocketOf(socket))],
       holders := s.holders + [HeldBy(id)])
  }

  function ToPhase(s: State, id: nat, phase: Phase): State
    requires id in s.active
  {
    s.(active := s.active[id := s.active[id].(phase := phase)])
  }

  /** An exception thrown by a handler, as the thread loop deals with it: the session ends and its
      socket is closed; the request is retried or answered. */
  function Raise(s: State, id: nat, wasCancel: bool): State
    requires id in s.active
  {
    var session := s.active[id];
    var gone := s.(active := s.active - {id},
                   holders := if session.socket.Some? then SetHolder(s.holders, session.socket.value, Closed)
                              else s.holders);
    if !wasCancel && session.retry > 0 then
      gone.(posted := s.posted + [Session(id, session.retry - 1, Resolving, None, NoTarget)],
            places := s.places[id := Posted])
    else
      gone.(answers := s.answers + [Answer(id, Exception(wasCancel))], places := s.places[id := Answered])
  }

  /** `FinishReadContent`: the socket goes back to the pool and the request is answered. */
  function Finish(s: State, id: nat): State
    requires id in s.active && s.threadCount >= 1
  {
    var session := s.active[id];
    var gone := s.(active := s.active - {id}, places := s.places[id := Answered],
                   answers := s.answers + [Answer(id, Response)]);
    if session.socket.None? then gone
    else
      var n := Evicted(s.pool, s.threadCount);
      gone.(pool := s.pool[n..] + [session.socket.value],
            holders := SetHolder(CloseAll(s.holders, s.pool[..n]), session.socket.value, InPool))
  }

  function Step(s: State, e: Event): State
    requires Enabled(s, e) && s.threadCount >= 1
  {
    match e
    case Post(id) =>
      s.(posted := s.posted + [Session(id, 1, Resolving, None, NoTarget)], places := s.places[id := Posted],
         attempts := s.attempts[id := 0])
    case Begin(k) => BeginSession(s, k)
    case Complete(id, r) =>
      var phase := s.active[id].phase;
      if r == Failed then Raise(s, id, false)
      else if r == Aborted then Raise(s, id, !phase.ReadingBody?)
      else if r == Finished then Finish(s, id)
      else (
        match phase
        case Resolving => if r == Empty then s else ConnectNew(s, id)
        case Connecting => ToPhase(s, id, if s.https then HandShaking else Sending)
        case HandShaking => ToPhase(s, id, Sending)
        case Sending => ToPhase(s, id, ReadingStatus)
        case ReadingStatus => ToPhase(s, id, ReadingHeaders)
        case ReadingHeaders => ToPhase(s, id, ReadingBody)
        case ReadingBody => s
      )
    case Cancel(_) => s
  }

  /** What `CancelRequest(id)` cancels. */
  function Cancelled(s: State, id: nat): CancelTarget {
    if id in s.active then s.active[id].cancel else NoTarget
  }

  // The invariant

  /** The sequence names each element of the set exactly once. */
  predicate Lists(ids: seq<nat>, who: set<nat>) {
    && (forall i, k :: 0 <= i < k < |ids| ==> ids[i] != ids[k])
    && (forall i :: 0 <= i < |ids| ==> ids[i] in who)
    && (forall id :: id in who ==> id in ids)
  }

  function PostedIds(s: State): seq<nat> { seq(|s.posted|, i requires 0 <= i < |s.posted| => s.posted[i].id) }

  function AnsweredIds(s: State): seq<nat> { seq(|s.answers|, i requires 0 <= i < |s.answers| => s.answers[i].id) }

  function At(places: map<nat, RequestPlace>, p: RequestPlace): set<nat> {
    set id | id in places && places[id] == p
  }

  /** Every request ever posted is in exactly one place, and in it exactly once. */
  predicate InvRequests(s: State) {
    && Lists(PostedIds(s), At(s.places, Posted))
    && s.active.Keys == At(s.places, Active)
    && Lists(AnsweredIds(s), At(s.places, Answered))
  }

  /** A request has one retry, and its attempts are counted. */
  predicate InvAttempts(s: State) {
    && s.attempts.Keys == s.places.Keys
    && (forall i :: 0 <= i < |s.posted| ==>
         s.posted[i].id in s.attempts && s.attempts[s.posted[i].id] + s.posted[i].retry == 1)
    && (forall id :: id in s.active ==>
         s.active[id].id == id && s.active[id].retry <= 1
         && id in s.attempts && s.attempts[id] + s.active[id].retry == 2)
    && (forall id :: id in s.attempts ==> s.attempts[id] <= 2)
  }

  function Pooled(holders: seq<SocketPlace>): set<nat> {
    set k: nat | k < |holders| && holders[k] == InPool
  }

  /** Every socket ever created is in the pool, held by exactly one session, or closed; a session's
      Cancel reaches its own socket or nothing. */
  predicate InvSockets(s: State) {
    && Lists(s.pool, Pooled(s.holders))
    && |s.pool| <= s.threadCount
    && (forall id :: id in s.active && s.active[id].socket.Some? ==>
         s.active[id].socket.value < |s.holders| && s.holders[s.active[id].socket.value] == HeldBy(id))
    && (forall k :: 0 <= k < |s.holders| && s.holders[k].HeldBy? ==>
         s.holders[k].id in s.active && s.active[s.holders[k].id].socket == Some(k))
    && (forall id :: id in s.active && s.active[id].cancel.SocketOf? ==>
         s.active[id].socket == Some(s.active[id].cancel.socket))
    && (forall id :: id in s.active ==> (s.active[id].phase.Resolving? <==> s.active[id].socket.None?))
    && (forall id :: id in s.active ==> !s.active[id].cancel.NoTarget?)
  }

  predicate Inv(s: State) {
    s.threadCount >= 1 && InvRequests(s) && InvAttempts(s) && InvSockets(s)
  }

  lemma ListsAppend(ids: seq<nat>, who: set<nat>, id: nat)
    requires Lists(ids, who) && id !in who
    ensures Lists(ids + [id], who + {id})
  {
  }

  lemma ListsRemove(ids: seq<nat>, who: set<nat>, k: nat)
    requires Lists(ids, who) && k < |ids|
    ensures Lists(ids[..k] + ids[k + 1..], who - {ids[k]})
  {
    var rest := ids[..k] + ids[k + 1..];
    forall id | id in who - {ids[k]} ensures id in rest {
      var i :| 0 <= i < |ids| && ids[i] == id;
      assert if i < k then rest[i] == id else rest[i - 1] == id;
    }
  }

  // Requests

  lemma PostKeepsRequests(s: State, id: nat)
    requires InvRequests(s) && id !in s.places && s.threadCount >= 1
    ensures InvRequests(Step(s, Post(id)))
  {
    var s' := Step(s, Post(id));
    ListsAppend(PostedIds(s), At(s.places, Posted), id);
    assert PostedIds(s') == PostedIds(s) + [id];
    assert At(s'.places, Posted) == At(s.places, Posted) + {id};
    assert At(s'.places, Active) == At(s.places, Active);
    assert At(s'.places, Answered) == At(s.places, Answered);
    assert AnsweredIds(s') == AnsweredIds(s);
  }

  lemma BeginKeepsRequests(s: State, k: nat)
    requires InvRequests(s) && k < |s.posted|
    ensures InvRequests(BeginSession(s, k))
  {
    var s' := BeginSession(s, k);
    var id := s.posted[k].id;
    assert PostedIds(s)[k] == id;
    ListsRemove(PostedIds(s), At(s.places, Posted), k);
    assert PostedIds(s') == PostedIds(s)[..k] + PostedIds(s)[k + 1..];
    assert At(s'.places, Posted) == At(s.places, Posted) - {id};
    assert At(s'.places, Active) == At(s.places, Active) + {id};
    assert At(s'.places, Answered) == At(s.places, Answered);
    assert AnsweredIds(s') == AnsweredIds(s);
  }

  lemma RaiseKeepsRequests(s: State, id: nat, wasCancel: bool)
    requires InvRequests(s) && id in s.active
    ensures InvRequests(Raise(s, id, wasCancel))
  {
    var s' := Raise(s, id, wasCancel);
    assert At(s'.places, Active) == At(s.places, Active) - {id};
    if !wasCancel && s.active[id].retry > 0 {
      ListsAppend(PostedIds(s), At(s.places, Posted), id);
      assert PostedIds(s') == PostedIds(s) + [id];
      assert AnsweredIds(s') == AnsweredIds(s);
      assert At(s'.places, Posted) == At(s.places, Posted) + {id};
      assert At(s'.places, Answered) == At(s.places, Answered);
    } else {
      AnswerKeepsRequests(s, s', id);
    }
  }

  lemma AnswerKeepsRequests(s: State, s': State, id: nat)
    requires InvRequests(s) && id in s.active
    requires s'.posted == s.posted && s'.active == s.active - {id} && s'.places == s.places[id := Answered]
    requires |s'.answers| == |s.answers| + 1 && s'.answers[..|s.answers|] == s.answers
    requires s'.answers[|s.answers|].id == id
    ensures InvRequests(s')
  {
    ListsAppend(AnsweredIds(s), At(s.places, Answered), id);
    assert AnsweredIds(s') == AnsweredIds(s) + [id];
    assert PostedIds(s') == PostedIds(s);
    assert At(s'.places, Active) == At(s.places, Active) - {id};
    assert At(s'.places, Posted) == At(s.places, Posted);
    assert At(s'.places, Answered) == At(s.places, Answered) + {id};
  }

  // Sockets

  lemma BeginKeepsSockets(s: State, k: nat)
    requires InvSockets(s) && k < |s.posted| && s.posted[k].id !in s.active
    ensures InvSockets(BeginSession(s, k))
  {
    var s' := BeginSession(s, k);
    if s.pool != [] {
      ListsRemove(s.pool, Pooled(s.holders), 0);
      assert s.pool[..0] + s.pool[1..] == s.pool[1..];
      assert Pooled(s'.holders) == Pooled(s.holders) - {s.pool[0]};
    }
  }

  lemma ConnectKeepsSockets(s: State, id: nat)
    requires InvSockets(s) && id in s.active && s.active[id].socket.None?
    ensures InvSockets(ConnectNew(s, id))
  {
    assert Pooled(ConnectNew(s, id).holders) == Pooled(s.holders);
  }

  lemma RaiseKeepsSockets(s: State, id: nat, wasCancel: bool)
    requires InvSockets(s) && id in s.active
    ensures InvSockets(Raise(s, id, wasCancel))
  {
    assert Pooled(Raise(s, id, wasCancel).holders) == Pooled(s.holders);
  }

  /** Returning a socket: the pool lists exactly the sockets that are marked as pooled. */
  lemma ReturnKeepsPool(pool: seq<nat>, holders: seq<SocketPlace>, threadCount: nat, socket: nat)
    requires Lists(pool, Pooled(holders)) && |pool| <= threadCount && threadCount >= 1
    requires socket < |holders| && holders[socket].HeldBy?
    ensures var n := Evicted(pool, threadCount);
      && Lists(pool[n..] + [socket], Pooled(SetHolder(CloseAll(holders, pool[..n]), socket, InPool)))
      && |pool[n..] + [socket]| <= threadCount
      && (forall k :: 0 <= k < |holders| && holders[k].HeldBy? ==> k !in pool[..n])
  {
    var n := Evicted(pool, threadCount);
    var after := Pooled(SetHolder(CloseAll(holders, pool[..n]), socket, InPool));
    if n > 0 {
      assert n == 1;
      ListsRemove(pool, Pooled(holders), 0);
      assert pool[..0] + pool[1..] == pool[1..] && pool[..1] == [pool[0]];
      ListsAppend(pool[1..], Pooled(holders) - {pool[0]}, socket);
      assert after == Pooled(holders) - {pool[0]} + {socket};
    } else {
      assert pool[0..] == pool && pool[..0] == [];
      ListsAppend(pool, Pooled(holders), socket);
      assert after == Pooled(holders) + {socket};
    }
  }

  lemma FinishKeepsSockets(s: State, id: nat)
    requires InvSockets(s) && id in s.active && s.threadCount >= 1 && s.active[id].socket.Some?
    ensures InvSockets(Finish(s, id))
  {
    hide Lists, Pooled, Evicted;
    ReturnKeepsPool(s.pool, s.holders, s.threadCount, s.active[id].socket.value);
  }

  // Every event keeps the invariant

  lemma PostKeeps(s: State, id: nat)
    requires Inv(s) && Enabled(s, Post(id))
    ensures Inv(Step(s, Post(id)))
  {
    PostKeepsRequests(s, id);
  }

  lemma BeginKeepsAttempts(s: State, k: nat)
    requires InvAttempts(s) && k < |s.posted| && s.posted[k].id in s.places
    requires forall i, j :: 0 <= i < j < |s.posted| ==> s.posted[i].id != s.posted[j].id
    ensures InvAttempts(BeginSession(s, k))
  {
    var s' := BeginSession(s, k);
    var id := s.posted[k].id;
    assert s.attempts[id] + s.posted[k].retry == 1;
    forall i | 0 <= i < |s'.posted|
      ensures s'.posted[i].id in s'.attempts && s'.attempts[s'.posted[i].id] + s'.posted[i].retry == 1
    {
      var i' := if i < k then i else i + 1;
      assert s'.posted[i] == s.posted[i'];
    }
  }

  lemma PostedOnce(s: State)
    requires InvRequests(s)
    ensures forall i, j :: 0 <= i < j < |s.posted| ==> s.posted[i].id != s.posted[j].id
    ensures forall i :: 0 <= i < |s.posted| ==>
      s.posted[i].id in s.places && s.places[s.posted[i].id] == Posted && s.posted[i].id !in s.active
  {
    forall i | 0 <= i < |s.posted|
      ensures PostedIds(s)[i] == s.posted[i].id && s.posted[i].id in s.places
      ensures s.places[s.posted[i].id] == Posted && s.posted[i].id !in s.active
    {
      assert PostedIds(s)[i] in At(s.places, Posted);
      assert s.posted[i].id !in At(s.places, Active);
    }
  }

  lemma BeginKeeps(s: State, k: nat)
    requires Inv(s) && Enabled(s, Begin(k))
    ensures Inv(Step(s, Begin(k)))
  {
    PostedOnce(s);
    BeginKeepsRequests(s, k);
    BeginKeepsSockets(s, k);
    BeginKeepsAttempts(s, k);
    hide InvRequests, InvAttempts, InvSockets;
  }

  lemma RaiseKeeps(s: State, id: nat, wasCancel: bool)
    requires Inv(s) && id in s.active
    ensures Inv(Raise(s, id, wasCancel))
  {
    RaiseKeepsRequests(s, id, wasCancel);
    RaiseKeepsSockets(s, id, wasCancel);
  }

  lemma FinishKeeps(s: State, id: nat)
    requires Inv(s) && id in s.active && s.active[id].socket.Some?
    ensures Inv(Finish(s, id))
  {
    AnswerKeepsRequests(s, Finish(s, id), id);
    FinishKeepsSockets(s, id);
  }

  lemma MoveKeeps(s: State, id: nat, phase: Phase)
    requires Inv(s) && id in s.active && s.active[id].socket.Some? && !phase.Resolving?
    ensures Inv(ToPhase(s, id, phase))
  {
    var s' := ToPhase(s, id, phase);
    assert PostedIds(s') == PostedIds(s) && AnsweredIds(s') == AnsweredIds(s);
  }

  lemma ConnectKeeps(s: State, id: nat)
    requires Inv(s) && id in s.active && s.active[id].socket.None?
    ensures Inv(ConnectNew(s, id))
  {
    var s' := ConnectNew(s, id);
    assert PostedIds(s') == PostedIds(s) && AnsweredIds(s') == AnsweredIds(s);
    ConnectKeepsSockets(s, id);
  }

  lemma CompleteKeeps(s: State, id: nat, r: Result)
    requires Inv(s) && Enabled(s, Complete(id, r))
    ensures Inv(Step(s, Complete(id, r)))
  {
    var session := s.active[id];
    assert session.phase.Resolving? <==> session.socket.None?;
    hide Inv, ToPhase, ConnectNew, Raise, Finish;
    if r == Failed {
      RaiseKeeps(s, id, false);
    } else if r == Aborted {
      RaiseKeeps(s, id, !session.phase.ReadingBody?);
    } else if r == Finished {
      FinishKeeps(s, id);
    } else {
      match session.phase
      case Resolving => if r == Ok { ConnectKeeps(s, id); }
      case Connecting => MoveKeeps(s, id, if s.https then HandShaking else Sending);
      case HandShaking => MoveKeeps(s, id, Sending);
      case Sending => MoveKeeps(s, id, ReadingStatus);
      case ReadingStatus => MoveKeeps(s, id, ReadingHeaders);
      case ReadingHeaders => MoveKeeps(s, id, ReadingBody);
      case ReadingBody =>
    }
  }

  /** Every event keeps the invariant. */
  lemma StepKeeps(s: State, e: Event)
    requires Inv(s) && Enabled(s, e)
    ensures Inv(Step(s, e))
  {
    match e
    case Post(id) => PostKeeps(s, id);
    case Begin(k) => BeginKeeps(s, k);
    case Complete(id, r) => CompleteKeeps(s, id, r);
    case Cancel(_) =>
  }

  /** A run of the client; None when an event was not possible. */
  function Run(threadCount: nat, https: bool, events: seq<Event>): (r: Option<State>)
    requires threadCount >= 1
    ensures r.Some? ==> r.value.threadCount == threadCount
  {
    if events == [] then Some(Start(threadCount, https))
    else
      var n := |events| - 1;
      var before := Run(threadCount, https, events[..n]);
      if before.Some? && Enabled(before.value, events[n]) then Some(Step(before.value, events[n])) else None
  }

  lemma {:induction false} RunKeeps(threadCount: nat, https: bool, events: seq<Event>)
    requires threadCount >= 1 && Run(threadCount, https, events).Some?
    ensures Inv(Run(threadCount, https, events).value)
  {
    if events == [] {
      var s := Start(threadCount, https);
      assert PostedIds(s) == [] && AnsweredIds(s) == [];
      assert At(s.places, Posted) == {} && At(s.places, Active) == {} && At(s.places, Answered) == {};
      assert Pooled(s.holders) == {};
    } else {
      var n := |events| - 1;
      RunKeeps(threadCount, https, events[..n]);
      StepKeeps(Run(threadCount, https, events[..n]).value, events[n]);
    }
  }

  /** How often a request is waiting to be started, is active, and has been answered. */
  function Occurrences(ids: seq<nat>, id: nat): nat { multiset(ids)[id] }

  lemma {:induction false} ListedOnce(ids: seq<nat>, who: set<nat>, id: nat)
    requires Lists(ids, who)
    ensures Occurrences(ids, id) == if id in who then 1 else 0
  {
    if id in who {
      var i :| 0 <= i < |ids| && ids[i] == id;
      assert ids == ids[..i] + [id] + ids[i + 1..];
      assert id !in ids[..i] && id !in ids[i + 1..];
    }
  }

  /** In every reachable state each posted request is queued, active or answered, exactly one of
      the three and exactly once, has been attempted at most twice; every socket is pooled, held
      by one session or closed; and the pool holds at most threadCount sockets. */
  lemma EveryRunIsSafe(threadCount: nat, https: bool, events: seq<Event>, id: nat)
    requires threadCount >= 1 && Run(threadCount, https, events).Some?
    ensures var s := Run(threadCount, https, events).value;
      && Occurrences(PostedIds(s), id) + (if id in s.active then 1 else 0) + Occurrences(AnsweredIds(s), id)
         == (if id in s.places then 1 else 0)
      && (id in s.places ==> id in s.attempts && s.attempts[id] <= 2)
      && |s.pool| <= threadCount
      && (forall k :: 0 <= k < |s.holders| ==>
           Occurrences(s.pool, k) + |Holding(s, k)| + (if s.holders[k].Closed? then 1 else 0) == 1)
  {
    RunKeeps(threadCount, https, events);
    var s := Run(threadCount, https, events).value;
    ListedOnce(PostedIds(s), At(s.places, Posted), id);
    ListedOnce(AnsweredIds(s), At(s.places, Answered), id);
    assert id in s.active <==> id in At(s.places, Active);
    forall k | 0 <= k < |s.holders|
      ensures Occurrences(s.pool, k) + |Holding(s, k)| + (if s.holders[k].Closed? then 1 else 0) == 1
    {
      SocketIsOnce(s, k);
    }
  }

  /** The sessions that use socket k. */
  function Holding(s: State, k: nat): set<nat> {
    set id | id in s.active && s.active[id].socket == Some(k)
  }

  lemma SocketIsOnce(s: State, k: nat)
    requires InvSockets(s) && k < |s.holders|
    ensures Occurrences(s.pool, k) == if s.holders[k].InPool? then 1 else 0
    ensures |Holding(s, k)| == if s.holders[k].HeldBy? then 1 else 0
  {
    ListedOnce(s.pool, Pooled(s.holders), k);
    if s.holders[k].HeldBy? {
      assert Holding(s, k) == {s.holders[k].id};
    } else {
      assert Holding(s, k) == {};
    }
  }

  /** The pool keeps the most recently returned sockets. */
  lemma PoolKeepsNewest(s: State, id: nat)
    requires Inv(s) && id in s.active && s.active[id].socket.Some?
    ensures var all := s.pool + [s.active[id].socket.value];
      Finish(s, id).pool == if |all| > s.threadCount then all[|all| - s.threadCount..] else all
  {
  }

  /** A cancel reaches the socket of its own session or nothing at all: never a socket that a
      finished request has given back, whoever uses it now. */
  lemma CancelReachesOwnSocket(s: State, id: nat)
    requires Inv(s)
    ensures id !in s.active ==> Cancelled(s, id) == NoTarget
    ensures Cancelled(s, id).SocketOf? ==>
      var k := Cancelled(s, id).socket;
      k < |s.holders| && s.holders[k] == HeldBy(id) && k !in s.pool && Holding(s, k) == {id}
  {
    if Cancelled(s, id).SocketOf? {
      var k := Cancelled(s, id).socket;
      SocketIsOnce(s, k);
      assert Holding(s, k) == {id};
      assert k !in Pooled(s.holders);
    }
  }

  lemma CompleteLeaves(s: State, id: nat, r: Result, other: nat)
    requires Enabled(s, Complete(id, r)) && s.threadCount >= 1 && other in s.places && other != id
    requires other in s.attempts && other !in s.active
    ensures var s' := Step(s, Complete(id, r));
      && s.answers <= s'.answers
      && other in s'.places && s'.places[other] == s.places[other]
      && s'.attempts == s.attempts && other !in s'.active
  {
  }

  /** An answered request keeps its answer and is never started again. */
  lemma AnsweredIsFinal(s: State, e: Event, id: nat)
    requires Inv(s) && Enabled(s, e) && id in s.places && s.places[id] == Answered
    ensures var s' := Step(s, e);
      && s.answers <= s'.answers
      && s'.places[id] == Answered && s'.attempts[id] == s.attempts[id] && id !in s'.active
  {
    PostedOnce(s);
    assert id in At(s.places, Answered);
    assert id !in At(s.places, Active);
    match e
    case Complete(other, r) => CompleteLeaves(s, other, r, id);
    case _ =>
  }

  /** A failure raised as cancelled is answered at once, so with AnsweredIsFinal never retried;
      any other failure is retried exactly once. */
  lemma RetriedOnce(s: State, id: nat, wasCancel: bool)
    requires Inv(s) && id in s.active
    ensures var s' := Raise(s, id, wasCancel);
      if !wasCancel && s.attempts[id] == 1 then
        s'.places[id] == Posted && s'.answers == s.answers
      else
        s'.places[id] == Answered && s'.answers == s.answers + [Answer(id, Exception(wasCancel))]
  {
  }

  /** In every reachable state a cancel reaches something exactly when the request is active: before
      the first attempt, between two attempts and after the answer it is lost. */
  lemma CancelReachesExactlyActive(threadCount: nat, https: bool, events: seq<Event>, id: nat)
    requires threadCount >= 1 && Run(threadCount, https, events).Some?
    ensures var s := Run(threadCount, https, events).value;
      && (Cancelled(s, id) != NoTarget <==> id in s.active)
      && (id in s.places && s.places[id] != Active ==> Cancelled(s, id) == NoTarget)
  {
    RunKeeps(threadCount, https, events);
    var s := Run(threadCount, https, events).value;
    assert id in s.active <==> id in At(s.places, Active);
  }

  /** An aborted operation is answered as cancelled exactly when the body is not being read. During
      the body it counts as a failure: the first attempt is made again, and the second is answered
      with a failure that does not say it was cancelled. */
  lemma AbortIsCancelExactlyBeforeBody(s: State, id: nat)
    requires Inv(s) && id in s.active
    ensures var s' := Step(s, Complete(id, Aborted));
      && (s'.answers == s.answers + [Answer(id, Exception(true))] <==> !s.active[id].phase.ReadingBody?)
      && (s.active[id].phase.ReadingBody? ==>
            if s.attempts[id] == 1 then s'.places[id] == Posted && s'.answers == s.answers
            else s'.answers == s.answers + [Answer(id, Exception(false))])
  {
    var s' := Step(s, Complete(id, Aborted));
    if |s'.answers| > |s.answers| {
      assert (s.answers + [Answer(id, Exception(true))])[|s.answers|] == Answer(id, Exception(true));
    }
  }

  /** Together: a user's cancel, followed by the abort it causes, ends the request as cancelled
      exactly when it finds the request active and not reading the body. */
  lemma CancelEndsRequestExactly(threadCount: nat, https: bool, events: seq<Event>, id: nat)
    requires threadCount >= 1 && Run(threadCount, https, events).Some?
    ensures var s := Run(threadCount, https, events).value;
      Cancelled(s, id) != NoTarget
        && Step(s, Complete(id, Aborted)).answers == s.answers + [Answer(id, Exception(true))]
      <==> id in s.active && !s.active[id].phase.ReadingBody?
  {
    RunKeeps(threadCount, https, events);
    CancelReachesExactlyActive(threadCount, https, events, id);
    var s := Run(threadCount, https, events).value;
    if id in s.active {
      hide Inv, Step, Run;
      AbortIsCancelExactlyBeforeBody(s, id);
    }
  }
}
