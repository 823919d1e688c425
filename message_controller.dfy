/** The HTTP side of the messaging service: `POST api/message` validates the
    content, persists a new message and then broadcasts it to every connected
    WebSocket session; `GET api/message/range` passes a date range through to
    the repository. The repository is an abstract collaborator that keeps its
    rows in memory; it and the handler record the calls they receive in one
    shared ghost log. */
module Controller {
  import opened Common
  import opened Handler

  /** The longest content accepted, in UTF-16 code units. */
  const MaxContentLength: nat := 128

  /** The `Id` a new `Message` carries: the controller never assigns it, and
      the repository does not write the database's id back into the object the
      controller then broadcasts. */
  const UnsetId: int := 0

  /** The request body: `Content` may be null. */
  datatype MessageInput = MessageInput(content: Option<CsString>, sequenceNumber: int)

  /** The anonymous object serialised for the broadcast; `createdAt` is the
      timestamp the source renders in the round-trip ("o") format. */
  datatype Payload = Payload(id: int, content: CsString, createdAt: DateTime, sequenceNumber: int)

  datatype PostResponse =
    | Ok
    | BadRequest  // "the message length must be from 1 to 128 characters"
    | Faulted     // the repository threw; the exception leaves the action

  datatype QueryResponse = OkMessages(messages: seq<Message>)

  /** The response of one `PostMessage` and the calls its collaborators
      receive, in order. */
  datatype PostOutcome = PostOutcome(response: PostResponse, effects: seq<Effect>)

  /** `string.IsNullOrEmpty`. */
  predicate IsNullOrEmpty(s: Option<CsString>)
  {
    s.None? || s.value == []
  }

  /** The content passes the controller's check. */
  predicate ValidContent(content: Option<CsString>)
  {
    !IsNullOrEmpty(content) && |content.value| <= MaxContentLength
  }

  /** The `Message` built from an accepted request at time `now`. */
  function NewMessage(input: MessageInput, now: DateTime): Message
    requires input.content.Some?
  {
    Message(UnsetId, input.content.value, now, input.sequenceNumber)
  }

  function PayloadOf(m: Message): Payload
  {
    Payload(m.id, m.content, m.createdAt, m.sequenceNumber)
  }

  /** What `PostMessage` answers and which calls it makes, given the clock
      reading `now`, whether the repository throws, and the serialiser. */
  function PostMessageSpec(input: MessageInput, now: DateTime, persistFails: bool,
                           serialize: Payload -> CsString): PostOutcome
  {
    if !ValidContent(input.content) then PostOutcome(BadRequest, [])
    else
      var message := NewMessage(input, now);
      if persistFails then PostOutcome(Faulted, [AddMessageCall(message)])
      else PostOutcome(Ok, [AddMessageCall(message), BroadcastCall(Some(serialize(PayloadOf(message))))])
  }

  /** A request is refused exactly when its content is null, empty or longer
      than 128 code units, and a refused request calls nothing. */
  lemma RejectsInvalidContent(input: MessageInput, now: DateTime, persistFails: bool,
                              serialize: Payload -> CsString)
    ensures var o := PostMessageSpec(input, now, persistFails, serialize);
      && (o.response == BadRequest
          <==> input.content.None? || |input.content.value| == 0 || |input.content.value| > 128)
      && (o.response == BadRequest ==> o.effects == [])
  {
  }

  /** Accepted content is persisted once, unchanged, stamped `now`, and then
      broadcast once as the serialised form of that same message. */
  lemma AcceptedPersistsThenBroadcasts(input: MessageInput, now: DateTime,
                                       serialize: Payload -> CsString)
    requires input.content.Some? && 1 <= |input.content.value| <= 128
    ensures var o := PostMessageSpec(input, now, false, serialize);
      && o.response == Ok
      && |o.effects| == 2
      && o.effects[0].AddMessageCall?
      && o.effects[0].message.content == input.content.value
      && o.effects[0].message.sequenceNumber == input.sequenceNumber
      && o.effects[0].message.createdAt == now
      && o.effects[1] == BroadcastCall(Some(serialize(PayloadOf(o.effects[0].message))))
  {
  }

  /** When the repository throws, nothing is broadcast and the request fails:
      valid content was handed to `AddMessageAsync` exactly once. */
  lemma PersistFailureSkipsBroadcast(input: MessageInput, now: DateTime,
                                     serialize: Payload -> CsString)
    ensures var o := PostMessageSpec(input, now, true, serialize);
      && (o.response == Faulted <==> ValidContent(input.content))
      && (forall e :: e in o.effects ==> e.AddMessageCall?)
      && o.effects == if ValidContent(input.content) then [AddMessageCall(NewMessage(input, now))] else []
  {
  }

  /** In every run, each broadcast is preceded by the persisting of the message
      it serialises, and neither call happens more than once. */
  lemma PersistPrecedesBroadcast(input: MessageInput, now: DateTime, persistFails: bool,
                                 serialize: Payload -> CsString)
    ensures var o := PostMessageSpec(input, now, persistFails, serialize);
      && |o.effects| <= 2
      && (forall i, j :: 0 <= i < j < |o.effects| ==>
            !(o.effects[i].AddMessageCall? && o.effects[j].AddMessageCall?)
            && !(o.effects[i].BroadcastCall? && o.effects[j].BroadcastCall?))
      && (forall j :: 0 <= j < |o.effects| && o.effects[j].BroadcastCall? ==>
            exists i :: 0 <= i < j && o.effects[i].AddMessageCall?
                     && o.effects[j].text == Some(serialize(PayloadOf(o.effects[i].message))))
      && (o.response == Ok <==> exists j :: 0 <= j < |o.effects| && o.effects[j].BroadcastCall?)
  {
    var o := PostMessageSpec(input, now, persistFails, serialize);
    if |o.effects| == 2 {
      assert o.effects[1].BroadcastCall? && o.effects[0].AddMessageCall?;
    }
  }

  /** The payload carries every field of the message: two messages with the
      same payload are the same message. */
  lemma PayloadDeterminesMessage(m1: Message, m2: Message)
    requires PayloadOf(m1) == PayloadOf(m2)
    ensures m1 == m2
  {
  }

  /** The rows created between `from` and `to`, both included, in stored order:
      each matching row as often as it is stored, and no other. */
  function Between(rows: seq<Message>, from: DateTime, to: DateTime): (r: seq<Message>)
    ensures |r| <= |rows|
    ensures forall m :: m in r <==> m in rows && from <= m.createdAt <= to
    ensures forall m :: multiset(r)[m] == if from <= m.createdAt <= to then multiset(rows)[m] else 0
  {
    if rows == [] then []
    else
      var rest := Between(rows[1..], from, to);
      assert rows == [rows[0]] + rows[1..];
      if from <= rows[0].createdAt <= to then [rows[0]] + rest else rest
  }

  /** Rows in ascending order of creation time, each no earlier than the one before. */
  predicate SortedByCreation(rows: seq<Message>)
  {
    forall i :: 0 < i < |rows| ==> rows[i - 1].createdAt <= rows[i].createdAt
  }

  /** In an ordered answer every row is created no earlier than any row before it. */
  lemma {:induction false} SortedByCreationPairwise(rows: seq<Message>)
    requires SortedByCreation(rows)
    ensures forall i, j :: 0 <= i < j < |rows| ==> rows[i].createdAt <= rows[j].createdAt
    decreases |rows|
  {
    if |rows| > 1 {
      var front := rows[..|rows| - 1];
      assert SortedByCreation(front) by {
        forall i | 0 < i < |front|
          ensures front[i - 1].createdAt <= front[i].createdAt
        {
          assert front[i - 1] == rows[i - 1] && front[i] == rows[i];
        }
      }
      SortedByCreationPairwise(front);
      forall i, j | 0 <= i < j < |rows|
        ensures rows[i].createdAt <= rows[j].createdAt
      {
        if j < |rows| - 1 {
          assert rows[i] == front[i] && rows[j] == front[j];
        } else if i < j - 1 {
          assert rows[i] == front[i] && rows[j - 1] == front[j - 1];
        }
      }
    }
  }

  /** `m` placed into the ordered `rows` ahead of every row created no earlier. */
  function InsertByCreation(m: Message, rows: seq<Message>): (r: seq<Message>)
    requires SortedByCreation(rows)
    ensures SortedByCreation(r)
    ensures |r| == |rows| + 1 && (r[0] == m || (rows != [] && r[0] == rows[0]))
  {
    if rows == [] || m.createdAt <= rows[0].createdAt then
      var r := [m] + rows;
      assert SortedByCreation(r) by {
        forall i | 1 < i < |r|
          ensures r[i - 1].createdAt <= r[i].createdAt
        {
          assert r[i - 1] == rows[i - 2] && r[i] == rows[i - 1];
        }
      }
      r
    else
      var rest := InsertByCreation(m, rows[1..]);
      var r := [rows[0]] + rest;
      assert SortedByCreation(r) by {
        forall i | 1 < i < |r|
          ensures r[i - 1].createdAt <= r[i].createdAt
        {
          assert r[i - 1] == rest[i - 2] && r[i] == rest[i - 1];
        }
      }
      r
  }

  /** Insertion loses no row and adds only `m`. */
  lemma {:induction false} InsertByCreationPermutes(m: Message, rows: seq<Message>)
    requires SortedByCreation(rows)
    ensures multiset(InsertByCreation(m, rows)) == multiset(rows) + multiset{m}
    decreases |rows|
  {
    if rows != [] && m.createdAt > rows[0].createdAt {
      InsertByCreationPermutes(m, rows[1..]);
      assert rows == [rows[0]] + rows[1..];
    }
  }

  /** `ORDER BY created_at`: the same rows, ascending by creation time, rows
      created at the same instant in stored order. */
  function OrderByCreation(rows: seq<Message>): (r: seq<Message>)
    ensures SortedByCreation(r)
    ensures multiset(r) == multiset(rows)
  {
    if rows == [] then []
    else
      assert rows == [rows[0]] + rows[1..];
      InsertByCreationPermutes(rows[0], OrderByCreation(rows[1..]));
      InsertByCreation(rows[0], OrderByCreation(rows[1..]))
  }

  /** The answer to a range query: exactly the stored rows created between
      `from` and `to`, each as often as stored, ascending by creation time. */
  lemma RangeQueryAnswer(rows: seq<Message>, from: DateTime, to: DateTime)
    ensures var r := OrderByCreation(Between(rows, from, to));
      && SortedByCreation(r)
      && |r| <= |rows|
      && forall m :: multiset(r)[m] == if from <= m.createdAt <= to then multiset(rows)[m] else 0
  {
    var b := Between(rows, from, to);
    assert |OrderByCreation(b)| == |multiset(OrderByCreation(b))| == |multiset(b)| == |b|;
  }

  /** Rows whose ids are pairwise distinct and all below `bound`. */
  predicate FreshIds(rows: seq<Message>, bound: int)
  {
    (forall i :: 0 <= i < |rows| ==> rows[i].id < bound)
    && forall i, j :: 0 <= i < j < |rows| ==> rows[i].id != rows[j].id
  }

  /** A row stamped with the next id keeps the stored ids distinct. */
  lemma AppendFreshId(rows: seq<Message>, bound: int, m: Message)
    requires FreshIds(rows, bound)
    ensures FreshIds(rows + [m.(id := bound)], bound + 1)
  {
  }

  /** The message store, behind `IMessageRepository`. The database assigns
      each inserted row the next value of its id sequence. */
  class Repository {
    var rows: seq<Message>
    /** The id the next inserted row receives. */
    var nextId: int
    /** Where each `AddMessageAsync` call is recorded. */
    ghost const log: CallLog
    /** The ranges it has been asked for, in order. */
    ghost var queries: seq<(DateTime, DateTime)>

    /** The stored ids are distinct and below `nextId`. */
    ghost predicate Valid()
      reads this
    {
      FreshIds(rows, nextId)
    }

    constructor (ghost log: CallLog)
      ensures rows == [] && queries == [] && nextId == 1 && this.log == log
      ensures Valid()
    {
      rows := [];
      nextId := 1;
      queries := [];
      this.log := log;
    }

    /** `AddMessageAsync`; `fails` says whether the database throws. The
        INSERT omits the message's `Id`: the stored row gets the database's. */
    method AddMessage(message: Message, fails: bool) returns (ok: bool)
      requires Valid()
      modifies this, log
      ensures Valid()
      ensures log.calls == old(log.calls) + [AddMessageCall(message)]
      ensures ok == !fails
      ensures rows == if ok then old(rows) + [message.(id := old(nextId))] else old(rows)
      ensures nextId == if ok then old(nextId) + 1 else old(nextId)
      ensures queries == old(queries)
    {
      log.calls := log.calls + [AddMessageCall(message)];
      ok := !fails;
      if ok {
        AppendFreshId(rows, nextId, message);
        rows := rows + [message.(id := nextId)];
        nextId := nextId + 1;
      }
    }

    /** `GetMessagesAsync`. */
    method GetMessages(from: DateTime, to: DateTime) returns (messages: seq<Message>)
      modifies this
      ensures messages == OrderByCreation(Between(rows, from, to))
      ensures rows == old(rows) && nextId == old(nextId) && queries == old(queries) + [(from, to)]
    {
      queries := queries + [(from, to)];
      messages := OrderByCreation(Between(rows, from, to));
    }
  }

  class MessageController {
    const repository: Repository
    const handler: WebSocketHandler
    /** `JsonSerializer.Serialize`, a library call this model leaves abstract. */
    const serialize: Payload -> CsString

    /** The repository keeps its ids fresh, and it records its calls in the
        same log as the handler, so the log shows the order of both. */
    ghost predicate Valid()
      reads this, repository
    {
      repository.Valid() && repository.log == handler.log
    }

    constructor (repository: Repository, handler: WebSocketHandler, serialize: Payload -> CsString)
      requires repository.Valid() && repository.log == handler.log
      ensures this.repository == repository && this.handler == handler && this.serialize == serialize
      ensures Valid()
    {
      this.repository := repository;
      this.handler := handler;
      this.serialize := serialize;
    }

    /** `POST api/message`: `now` is the clock reading, `persistFails` whether
        the repository throws, `sendFails` the sessions whose send faults. The
        calls the repository and the handler receive are those, in that order,
        that `PostMessageSpec` lists. */
    method PostMessage(input: MessageInput, now: DateTime, persistFails: bool, sendFails: set<SessionId>)
      returns (response: PostResponse)
      requires Valid()
      modifies repository, handler, handler.log
      ensures Valid()
      ensures response == PostMessageSpec(input, now, persistFails, serialize).response
      ensures handler.log.calls == old(handler.log.calls) + PostMessageSpec(input, now, persistFails, serialize).effects
      ensures repository.rows == old(repository.rows)
                                 + (if response == Ok then [NewMessage(input, now).(id := old(repository.nextId))] else [])
      ensures repository.queries == old(repository.queries)
      ensures response == Ok ==>
                handler.sockets == if serialize(PayloadOf(NewMessage(input, now))) == [] then old(handler.sockets)
                                   else old(handler.sockets) - Reaped(old(handler.States()))
      ensures response != Ok ==> handler.sockets == old(handler.sockets)
    {
      if IsNullOrEmpty(input.content) || |input.content.value| > MaxContentLength {
        return BadRequest;
      }
      var message := NewMessage(input, now);
      var persisted := repository.AddMessage(message, persistFails);
      if !persisted {
        return Faulted;
      }
      var json := serialize(PayloadOf(message));
      var _, _ := handler.Broadcast(Some(json), sendFails);
      return Ok;
    }

    /** `GET api/message/range`: the range goes to the repository unchanged and
        its answer comes back as the response. */
    method GetMessages(from: DateTime, to: DateTime) returns (response: QueryResponse)
      modifies repository
      ensures response == OkMessages(OrderByCreation(Between(old(repository.rows), from, to)))
      ensures repository.rows == old(repository.rows) && repository.nextId == old(repository.nextId)
      ensures repository.queries == old(repository.queries) + [(from, to)]
    {
      var messages := repository.GetMessages(from, to);
      response := OkMessages(messages);
    }
  }
}
