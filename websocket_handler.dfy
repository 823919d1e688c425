/** The connection registry of the messaging service: admission and cleanup of
    WebSocket sessions, the per-session receive loop that watches for the
    close handshake, and the broadcast that fans one text message out to every
    open session and reaps the ones that are no longer open. Concurrency is
    abstracted away: every operation runs as one sequential step. */
module Handler {
  import opened Common

  /** The states of `System.Net.WebSockets.WebSocketState`. */
  datatype SocketState = NotStarted | Connecting | Open | CloseSent | CloseReceived | Closed | Aborted

  /** One accepted WebSocket. Its state changes under the handler's feet
      (the receive loop closes it), and the registry holds references to it. */
  class Socket {
    var state: SocketState

    constructor (state: SocketState)
      ensures this.state == state
    {
      this.state := state;
    }
  }

  // ---------------------------------------------------------------------------
  // The receive loop, as a function of the frames the transport delivers
  // ---------------------------------------------------------------------------

  datatype MessageType = Text | Binary | Close

  /** What one `ReceiveAsync` call yields: a frame of some type, or an exception. */
  datatype ReceiveEvent = Received(kind: MessageType) | ReceiveFault

  /** A frame that ends the loop: a Close frame or a failed receive. */
  predicate EndsSession(e: ReceiveEvent)
  {
    e.ReceiveFault? || e.kind == Close
  }

  /** How a run of the receive loop ended: the socket's state afterwards, how
      many receives it consumed, how often it called `CloseAsync`, and whether
      it left through the exception handler. A final state of Open means the
      loop is still waiting in `ReceiveAsync`. */
  datatype LoopOutcome = LoopOutcome(state: SocketState, consumed: nat, closeCalls: nat, faulted: bool)

  /** `o` preceded by `receives` further receives and `closes` further close calls. */
  function After(receives: nat, closes: nat, o: LoopOutcome): LoopOutcome
  {
    LoopOutcome(o.state, o.consumed + receives, o.closeCalls + closes, o.faulted)
  }

  /** The receive loop of a socket in `state` fed the frames `events`, in order. */
  function Watch(state: SocketState, events: seq<ReceiveEvent>): LoopOutcome
    decreases |events|
  {
    if state != Open || events == [] then LoopOutcome(state, 0, 0, false)
    // the transport aborts the socket; the catch ends the loop
    else if events[0].ReceiveFault? then LoopOutcome(Aborted, 1, 0, true)
    // the peer's Close frame is answered with CloseAsync, which completes the handshake
    else if events[0].kind == Close then After(1, 1, Watch(Closed, events[1..]))
    else After(1, 0, Watch(Open, events[1..]))
  }

  /** One data or Close frame taken from the front of the frames still to come. */
  lemma WatchFrame(events: seq<ReceiveEvent>, i: nat)
    requires i < |events| && events[i].Received?
    ensures Watch(Open, events[i..])
         == if events[i].kind == Close then After(1, 1, Watch(Closed, events[i + 1..]))
            else After(1, 0, Watch(Open, events[i + 1..]))
  {
  }

  /** The loop ends exactly when the socket was not open to begin with, or a
      Close frame or a failed receive arrives. */
  lemma {:induction false} WatchEndsIff(state: SocketState, events: seq<ReceiveEvent>)
    ensures Watch(state, events).state != Open
        <==> state != Open || exists k :: 0 <= k < |events| && EndsSession(events[k])
    decreases |events|
  {
    if state == Open && events != [] {
      if !EndsSession(events[0]) {
        WatchEndsIff(Open, events[1..]);
        if exists k :: 0 <= k < |events| && EndsSession(events[k]) {
          var k :| 0 <= k < |events| && EndsSession(events[k]);
          assert k != 0;
          assert EndsSession(events[1..][k - 1]);
        }
        if exists k :: 0 <= k < |events[1..]| && EndsSession(events[1..][k]) {
          var k :| 0 <= k < |events[1..]| && EndsSession(events[1..][k]);
          assert EndsSession(events[k + 1]);
        }
      }
    }
  }

  /** On an open socket the loop consumes the frames up to and including the
      first Close frame or failed receive, calls `CloseAsync` exactly when that
      event is a Close frame, and leaves through the exception handler exactly
      when it is a failed receive. */
  lemma {:induction false} WatchStopsAtFirstEnd(events: seq<ReceiveEvent>, k: nat)
    requires k < |events| && EndsSession(events[k])
    requires forall j :: 0 <= j < k ==> !EndsSession(events[j])
    ensures var o := Watch(Open, events);
      && o.consumed == k + 1
      && o.faulted == events[k].ReceiveFault?
      && o.closeCalls == (if events[k].ReceiveFault? then 0 else 1)
      && o.state == (if events[k].ReceiveFault? then Aborted else Closed)
    decreases k
  {
    if k > 0 {
      assert !EndsSession(events[0]);
      WatchStopsAtFirstEnd(events[1..], k - 1);
    }
  }

  /** Whatever the frames, the loop calls `CloseAsync` at most once, never
      after a failed receive, and never consumes more than it is given; a loop
      still waiting has consumed every frame, all of them data frames. */
  lemma {:induction false} WatchBounds(state: SocketState, events: seq<ReceiveEvent>)
    ensures var o := Watch(state, events);
      && o.closeCalls <= 1
      && o.consumed <= |events|
      && (o.faulted ==> o.closeCalls == 0 && o.state == Aborted)
      && (o.state == Open ==> o.consumed == |events| && o.closeCalls == 0 && !o.faulted)
      && (o.state == Open ==> forall k :: 0 <= k < |events| ==> !EndsSession(events[k]))
    decreases |events|
  {
    if state == Open && events != [] && !events[0].ReceiveFault? {
      if events[0].kind == Close {
        WatchBounds(Closed, events[1..]);
      } else {
        WatchBounds(Open, events[1..]);
        forall k | 1 <= k < |events|
          ensures Watch(state, events).state == Open ==> !EndsSession(events[k])
        {
          assert events[k] == events[1..][k - 1];
        }
      }
    }
  }

  // ---------------------------------------------------------------------------
  // The broadcast, as a partition of the registry
  // ---------------------------------------------------------------------------

  /** The sessions a broadcast sends to: those whose socket is Open. */
  function Targets(states: map<SessionId, SocketState>): set<SessionId>
  {
    set id | id in states && states[id] == Open
  }

  /** The sessions a broadcast removes: those whose socket is not Open. */
  function Reaped(states: map<SessionId, SocketState>): set<SessionId>
  {
    set id | id in states && states[id] != Open
  }

  /** Every registered session is either sent to or reaped, never both; when
      every socket is open, every session is sent to. */
  lemma BroadcastPartition(states: map<SessionId, SocketState>)
    ensures Targets(states) !! Reaped(states)
    ensures Targets(states) + Reaped(states) == states.Keys
    ensures |Targets(states)| + |Reaped(states)| == |states|
    ensures (forall id :: id in states ==> states[id] == Open) ==> |Targets(states)| == |states|
  {
  }

  /** A second broadcast over the registry a first one left behind, with no
      state change in between, sends to the same sessions and reaps nothing. */
  lemma BroadcastTwiceReapsNothing(states: map<SessionId, SocketState>)
    ensures Reaped(states - Reaped(states)) == {}
    ensures Targets(states - Reaped(states)) == Targets(states)
  {
  }

  /** One queued `SendAsync`: the session, its socket and the bytes. */
  datatype Send = Send(id: SessionId, socket: Socket, bytes: seq<byte>)

  function SendIds(sends: seq<Send>): set<SessionId>
  {
    set s | s in sends :: s.id
  }

  /** Every send carries `bytes` to the socket registered under its session. */
  predicate CarriesPayload(sends: seq<Send>, bytes: seq<byte>, registry: map<SessionId, Socket>)
  {
    forall i :: 0 <= i < |sends| ==>
      sends[i].bytes == bytes && sends[i].id in registry && sends[i].socket == registry[sends[i].id]
  }

  /** No session is sent to twice. */
  predicate DistinctTargets(sends: seq<Send>)
  {
    forall i, j :: 0 <= i < j < |sends| ==> sends[i].id != sends[j].id
  }

  lemma SendIdsSnoc(sends: seq<Send>, s: Send)
    ensures SendIds(sends + [s]) == SendIds(sends) + {s.id}
  {
  }

  /** Sends to distinct sessions are as many as the sessions they reach. */
  lemma {:induction false} DistinctSendsCount(sends: seq<Send>)
    requires DistinctTargets(sends)
    ensures |SendIds(sends)| == |sends|
  {
    if sends != [] {
      var init, last := sends[..|sends| - 1], sends[|sends| - 1];
      assert sends == init + [last];
      assert DistinctTargets(init);
      DistinctSendsCount(init);
      SendIdsSnoc(init, last);
    }
  }

  /** Where a broadcast stands after visiting every session outside
      `pending`: each Open one visited has been sent `bytes` exactly once, and
      nothing else has been sent. */
  predicate FannedOut(sends: seq<Send>, bytes: seq<byte>, registry: map<SessionId, Socket>,
                      states: map<SessionId, SocketState>, pending: set<SessionId>)
  {
    && DistinctTargets(sends)
    && CarriesPayload(sends, bytes, registry)
    && SendIds(sends) == Targets(states) - pending
  }

  /** Visiting an Open session queues one send to it. */
  lemma QueueStep(sends: seq<Send>, s: Send, registry: map<SessionId, Socket>,
                  states: map<SessionId, SocketState>, pending: set<SessionId>)
    requires FannedOut(sends, s.bytes, registry, states, pending)
    requires s.id in pending && s.id in states && states[s.id] == Open
    requires s.id in registry && s.socket == registry[s.id]
    ensures FannedOut(sends + [s], s.bytes, registry, states, pending - {s.id})
    ensures Reaped(states) - (pending - {s.id}) == Reaped(states) - pending
  {
    SendIdsSnoc(sends, s);
    forall i | 0 <= i < |sends| ensures sends[i].id != s.id {
      assert sends[i] in sends;
    }
  }

  /** Visiting a session that is not Open queues nothing and removes it. */
  lemma ReapStep(sends: seq<Send>, bytes: seq<byte>, registry: map<SessionId, Socket>,
                 states: map<SessionId, SocketState>, pending: set<SessionId>, id: SessionId)
    requires FannedOut(sends, bytes, registry, states, pending)
    requires id in pending && id in states && states[id] != Open
    ensures FannedOut(sends, bytes, registry, states, pending - {id})
    ensures registry - (Reaped(states) - (pending - {id})) == (registry - (Reaped(states) - pending)) - {id}
  {
  }

  // ---------------------------------------------------------------------------
  // The handler
  // ---------------------------------------------------------------------------

  /** The singleton that owns the registry of connected sessions. */
  class WebSocketHandler {
    /** The registry: session id to socket. */
    var sockets: map<SessionId, Socket>
    /** `Encoding.UTF8.GetBytes`, a library call this model leaves abstract. */
    const encode: CsString -> seq<byte>
    /** Where each broadcast is recorded. */
    ghost const log: CallLog

    /** The state of every registered socket. */
    ghost function States(): (states: map<SessionId, SocketState>)
      reads this, sockets.Values
      ensures states.Keys == sockets.Keys
    {
      map id | id in sockets :: sockets[id].state
    }

    constructor (encode: CsString -> seq<byte>, ghost log: CallLog)
      ensures sockets == map[] && this.encode == encode && this.log == log
    {
      sockets := map[];
      this.encode := encode;
      this.log := log;
    }

    /** `ConcurrentDictionary.TryAdd`: inserts only when the id is absent. */
    method TryAdd(id: SessionId, socket: Socket) returns (added: bool)
      modifies this
      ensures added <==> id !in old(sockets)
      ensures sockets == if added then old(sockets)[id := socket] else old(sockets)
    {
      added := id !in sockets;
      if added {
        sockets := sockets[id := socket];
      }
    }

    /** `ConcurrentDictionary.TryRemove`: removes when present, else does nothing. */
    method TryRemove(id: SessionId) returns (removed: bool)
      modifies this
      ensures removed <==> id in old(sockets)
      ensures sockets == old(sockets) - {id}
    {
      removed := id in sockets;
      sockets := sockets - {id};
    }

    /** Reads frames while the socket is open, answers a Close frame with
        `CloseAsync`, and ends quietly on a failed receive. It changes the
        socket and nothing else: never the registry. */
    method ReceiveLoop(socket: Socket, events: seq<ReceiveEvent>) returns (outcome: LoopOutcome)
      modifies socket
      ensures outcome == Watch(old(socket.state), events)
      ensures socket.state == outcome.state
    {
      var i, closeCalls := 0, 0;
      while socket.state == Open && i < |events|
        invariant 0 <= i <= |events|
        invariant Watch(old(socket.state), events) == After(i, closeCalls, Watch(socket.state, events[i..]))
        decreases |events| - i
      {
        match events[i]
        case ReceiveFault =>
          socket.state := Aborted;
          return LoopOutcome(Aborted, i + 1, closeCalls, true);
        case Received(kind) =>
          WatchFrame(events, i);
          if kind == Close {
            // the Close frame leaves the socket in CloseReceived until
            // CloseAsync completes the handshake
            socket.state := Closed;
            closeCalls := closeCalls + 1;
          }
          i := i + 1;
      }
      outcome := LoopOutcome(socket.state, i, closeCalls, false);
    }

    /** Admits a new session under `id` (the generated Guid), runs its receive
        loop, and unregisters `id` once the loop is over. `finished` is false
        while the loop is still waiting for a frame beyond `events`; until then
        the entry stays. */
    method Handle(id: SessionId, socket: Socket, events: seq<ReceiveEvent>) returns (finished: bool)
      modifies this, socket
      ensures socket.state == Watch(old(socket.state), events).state
      ensures finished <==> Watch(old(socket.state), events).state != Open
      ensures finished <==> old(socket.state) != Open || exists k :: 0 <= k < |events| && EndsSession(events[k])
      ensures finished ==> sockets == old(sockets) - {id}
      ensures !finished ==> sockets == if id in old(sockets) then old(sockets) else old(sockets)[id := socket]
    {
      WatchEndsIff(socket.state, events);
      var _ := TryAdd(id, socket);
      var outcome := ReceiveLoop(socket, events);
      finished := outcome.state != Open;
      if finished {
        // the finally block
        var _ := TryRemove(id);
      }
    }

    /** Sends `message`, encoded once, to every registered session whose socket
        is Open, removes every session whose socket is not, and swallows send
        failures (`sendFails` names the sessions whose send faults): those only
        set `failureLogged`. A null or empty message does nothing. The call
        itself is recorded in `log`. */
    method Broadcast(message: Option<CsString>, sendFails: set<SessionId>) returns (sends: seq<Send>, failureLogged: bool)
      modifies this, log
      ensures log.calls == old(log.calls) + [BroadcastCall(message)]
      ensures message.None? || message.value == [] ==> sends == [] && !failureLogged && sockets == old(sockets)
      ensures message.Some? && message.value != [] ==>
        && SendIds(sends) == Targets(old(States()))
        && DistinctTargets(sends)
        && |sends| == |Targets(old(States()))|
        && CarriesPayload(sends, encode(message.value), old(sockets))
        && sockets == old(sockets) - Reaped(old(States()))
        && (failureLogged <==> exists i :: 0 <= i < |sends| && sends[i].id in sendFails)
    {
      log.calls := log.calls + [BroadcastCall(message)];
      if message.None? || message.value == [] {
        return [], false;
      }
      var encoded := encode(message.value);
      sends := FanOut(encoded);
      // Task.WhenAll: any faulted send surfaces here and is only logged
      failureLogged := exists i :: 0 <= i < |sends| && sends[i].id in sendFails;
    }

    /** The `foreach` over the registry inside the broadcast: queues one send
        of `bytes` per Open session and removes each session that is not Open. */
    method FanOut(bytes: seq<byte>) returns (sends: seq<Send>)
      modifies this
      ensures FannedOut(sends, bytes, old(sockets), old(States()), {})
      ensures |sends| == |Targets(old(States()))|
      ensures sockets == old(sockets) - Reaped(old(States()))
    {
      ghost var states := States();
      var snapshot := sockets;
      assert states == old(States()) && snapshot == old(sockets);
      var pending := snapshot.Keys;
      sends := [];
      while pending != {}
        invariant pending <= snapshot.Keys
        invariant forall id :: id in snapshot ==> snapshot[id].state == states[id]
        invariant FannedOut(sends, bytes, snapshot, states, pending)
        invariant sockets == snapshot - (Reaped(states) - pending)
        decreases pending
      {
        var id :| id in pending;
        var socket := snapshot[id];
        if socket.state == Open {
          QueueStep(sends, Send(id, socket, bytes), snapshot, states, pending);
          sends := sends + [Send(id, socket, bytes)];
        } else {
          ReapStep(sends, bytes, snapshot, states, pending, id);
          var _ := TryRemove(id);
        }
        pending := pending - {id};
      }
      assert Reaped(states) - pending == Reaped(states);
      DistinctSendsCount(sends);
    }
  }
}
