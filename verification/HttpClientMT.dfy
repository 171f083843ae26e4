/** Impl of HttpClientMT as it runs: the table of active sessions, the posted sessions and the
    socket pool are fields that the handlers change in place. Every method is proved to take the
    step that SessionProtocol describes. */
module HttpClientMT {
  import opened SessionProtocol
  import opened Options

  class Client {
    const threadCount: nat
    const https: bool
    /** Sessions handed to the io service, not yet started. */
    var posted: seq<Session>
    var activeSessions: map<nat, Session>
    var socketPool: seq<nat>
    var answers: seq<Answer>
    var socketsCreated: nat
    ghost var places: map<nat, RequestPlace>
    ghost var attempts: map<nat, nat>
    ghost var holders: seq<SocketPlace>

    ghost predicate Valid()
      reads this
    {
      threadCount >= 1 && socketsCreated == |holders|
    }

    ghost function Abs(): State
      reads this
    {
      State(threadCount, https, posted, activeSessions, socketPool, answers, places, attempts, holders)
    }

    constructor (threadCount: nat, https: bool)
      requires threadCount >= 1
      ensures Valid() && Abs() == Start(threadCount, https)
    {
      this.threadCount, this.https := threadCount, https;
      posted, activeSessions, socketPool, answers, socketsCreated := [], map[], [], [], 0;
      places, attempts, holders := map[], map[], [];
    }

    method PostRequest(id: nat)
      requires Valid() && Enabled(Abs(), Post(id))
      modifies this
      ensures Valid() && Abs() == Step(old(Abs()), Post(id))
    {
      posted := posted + [Session(id, 1, Resolving, None, NoTarget)];
      places, attempts := places[id := Posted], attempts[id := 0];
    }

    /** What the call cancels, if anything. */
    method CancelRequest(id: nat) returns (target: CancelTarget)
      ensures target == Cancelled(Abs(), id)
    {
      if id in activeSessions {
        return activeSessions[id].cancel;
      }
      return NoTarget;
    }

    method GetCachedSocket() returns (socket: Option<nat>)
      modifies `socketPool
      ensures socket == if old(socketPool) == [] then None else Some(old(socketPool)[0])
      ensures socketPool == if old(socketPool) == [] then [] else old(socketPool)[1..]
    {
      if socketPool == [] {
        return None;
      }
      socket := Some(socketPool[0]);
      socketPool := socketPool[1..];
    }

    method CacheSocket(socket: nat)
      requires Valid()
      modifies `socketPool, `holders
      ensures Valid()
      ensures var n := Evicted(old(socketPool), threadCount);
        && socketPool == old(socketPool)[n..] + [socket]
        && holders == SetHolder(CloseAll(old(holders), old(socketPool)[..n]), socket, InPool)
    {
      var cntToRemove := |socketPool| - threadCount + 1;
      var i := 0;
      assert old(socketPool)[..0] == [];
      while i < cntToRemove
        invariant 0 <= i <= |old(socketPool)| && Valid()
        invariant i <= Evicted(old(socketPool), threadCount)
        invariant socketPool == old(socketPool)[i..]
        invariant holders == CloseAll(old(holders), old(socketPool)[..i])
      {
        var closing := socketPool[0];
        socketPool := socketPool[1..];
        assert old(socketPool)[..i + 1] == old(socketPool)[..i] + [closing];
        holders := CloseAll(holders, [closing]);
        i := i + 1;
      }
      socketPool := socketPool + [socket];
      holders := SetHolder(holders, socket, InPool);
    }

    method StartSession(k: nat)
      requires Valid() && Enabled(Abs(), Begin(k))
      modifies this
      ensures Valid() && Abs() == Step(old(Abs()), Begin(k))
    {
      var session := posted[k];
      posted := posted[..k] + posted[k + 1..];
      places := places[session.id := Active];
      attempts := attempts[session.id := (if session.id in attempts then attempts[session.id] else 0) + 1];
      var socket := GetCachedSocket();
      if socket.Some? {
        holders := SetHolder(holders, socket.value, HeldBy(session.id));
        session := session.(phase := Sending, socket := socket, cancel := SocketOf(socket.value));
      } else {
        session := session.(phase := Resolving, socket := None, cancel := Resolver);
      }
      activeSessions := activeSessions[session.id := session];
    }

    method Advance(id: nat, phase: Phase)
      requires Valid() && id in activeSessions
      modifies `activeSessions
      ensures Valid() && Abs() == ToPhase(old(Abs()), id, phase)
    {
      activeSessions := activeSessions[id := activeSessions[id].(phase := phase)];
    }

    /** The catch block of `ThreadLoop`. */
    method HandleException(id: nat, wasCancel: bool)
      requires Valid() && id in activeSessions
      modifies this
      ensures Valid() && Abs() == Raise(old(Abs()), id, wasCancel)
    {
      var session := activeSessions[id];
      activeSessions := activeSessions - {id};
      if session.socket.Some? {
        holders := SetHolder(holders, session.socket.value, Closed);
      }
      if !wasCancel && session.retry > 0 {
        posted := posted + [Session(id, session.retry - 1, Resolving, None, NoTarget)];
        places := places[id := Posted];
      } else {
        answers := answers + [Answer(id, Exception(wasCancel))];
        places := places[id := Answered];
      }
    }

    /** `THROW_IF_ERROR`: whether the operation failed and, if so, the exception has been handled. */
    method ThrowIfError(id: nat, result: Result) returns (thrown: bool)
      requires Valid() && id in activeSessions
      modifies this
      ensures Valid() && thrown == (result == Aborted || result == Failed)
      ensures Abs() == if thrown then Raise(old(Abs()), id, result == Aborted) else old(Abs())
    {
      thrown := result == Aborted || result == Failed;
      if thrown {
        HandleException(id, result == Aborted);
      }
    }

    predicate In(id: nat, phase: Phase)
      reads this
    {
      id in activeSessions && activeSessions[id].phase == phase
    }

    method HandleResolve(id: nat, result: Result)
      requires Valid() && In(id, Resolving) && Possible(Resolving, result)
      modifies this
      ensures Valid() && Abs() == Step(old(Abs()), Complete(id, result))
    {
      var thrown := ThrowIfError(id, result);
      if !thrown && result != Empty {
        var socket := socketsCreated;
        socketsCreated := socketsCreated + 1;
        holders := holders + [HeldBy(id)];
        activeSessions := activeSessions[id := activeSessions[id].(phase := Connecting, socket := Some(socket),
                                                                   cancel := SocketOf(socket))];
      }
    }

    method HandleConnect(id: nat, result: Result)
      requires Valid() && In(id, Connecting) && Possible(Connecting, result)
      modifies this
      ensures Valid() && Abs() == Step(old(Abs()), Complete(id, result))
    {
      var thrown := ThrowIfError(id, result);
      if !thrown {
        Advance(id, if https then HandShaking else Sending);
      }
    }

    method HandleHandShake(id: nat, result: Result)
      requires Valid() && In(id, HandShaking) && Possible(HandShaking, result)
      modifies this
      ensures Valid() && Abs() == Step(old(Abs()), Complete(id, result))
    {
      var thrown := ThrowIfError(id, result);
      if !thrown {
        Advance(id, Sending);
      }
    }

    method HandleSendRequest(id: nat, result: Result)
      requires Valid() && In(id, Sending) && Possible(Sending, result)
      modifies this
      ensures Valid() && Abs() == Step(old(Abs()), Complete(id, result))
    {
      var thrown := ThrowIfError(id, result);
      if !thrown {
        Advance(id, ReadingStatus);
      }
    }

    method HandleReadStatusLine(id: nat, result: Result)
      requires Valid() && In(id, ReadingStatus) && Possible(ReadingStatus, result)
      modifies this
      ensures Valid() && Abs() == Step(old(Abs()), Complete(id, result))
    {
      var thrown := ThrowIfError(id, result);
      if !thrown {
        Advance(id, ReadingHeaders);
      }
    }

    method HandleReadHeaders(id: nat, result: Result)
      requires Valid() && In(id, ReadingHeaders) && Possible(ReadingHeaders, result)
      modifies this
      ensures Valid() && Abs() == Step(old(Abs()), Complete(id, result))
    {
      var thrown := ThrowIfError(id, result);
      if !thrown {
        if result == Finished {
          FinishReadContent(id);
        } else {
          Advance(id, ReadingBody);
        }
      }
    }

    /** `HandleReadContentByLength` and `HandleReadContentAll`: an error that is not the end of the
        stream, a cancel included, is thrown as a failure. */
    method HandleReadContent(id: nat, result: Result)
      requires Valid() && In(id, ReadingBody) && Possible(ReadingBody, result)
      modifies this
      ensures Valid() && Abs() == Step(old(Abs()), Complete(id, result))
    {
      if result == Finished {
        FinishReadContent(id);
      } else if result != Ok {
        HandleException(id, false);
      }
    }

    method FinishReadContent(id: nat)
      requires Valid() && id in activeSessions
      modifies this
      ensures Valid() && Abs() == Finish(old(Abs()), id)
    {
      var session := activeSessions[id];
      if session.socket.Some? {
        CacheSocket(session.socket.value);
      }
      activeSessions := activeSessions - {id};
      places := places[id := Answered];
      answers := answers + [Answer(id, Response)];
    }
  }
}
