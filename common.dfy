/** Value types shared by the WebSocket handler and the message controller. */
module Common {

  /** A reference that may be null in the source (a nullable C# string, for one). */
  datatype Option<+T> = None | Some(value: T)

  /** One UTF-16 code unit: a .NET `string` is a sequence of these, and its
      `Length` counts them (a character outside the Basic Multilingual Plane
      counts twice). */
  newtype CodeUnit = x: int | 0 <= x < 0x1_0000

  /** A .NET `string` that is not null. */
  type CsString = seq<CodeUnit>

  newtype byte = x: int | 0 <= x < 0x100

  /** A UTC `DateTime`, as its tick count. */
  type DateTime = int

  /** The opaque text key under which a connection is registered
      (a `Guid` rendered as a string in the source). */
  type SessionId = CsString

  /** A stored chat message. */
  datatype Message = Message(id: int, content: CsString, createdAt: DateTime, sequenceNumber: int)

  /** A call made to one of the controller's collaborators: the repository's
      `AddMessageAsync`, or the handler's `BroadcastMessageAsync` with the
      (possibly null) text it was given. */
  datatype Effect = AddMessageCall(message: Message) | BroadcastCall(text: Option<CsString>)

  /** The calls the repository and the handler have received, in the order
      received. Each collaborator appends its own calls. */
  class CallLog {
    ghost var calls: seq<Effect>

    constructor ()
      ensures calls == []
    {
      calls := [];
    }
  }
}
