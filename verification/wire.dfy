/** The socket events exchanged between clients and the server, and the
    shape of a handler's outcome: new state, HTTP result, emitted events. */
module Wire {
  import opened Base
  import opened Models

  /** Events a client emits on its socket. Relay payload fields a client may
      leave undefined are `Option`s. */
  datatype ClientEvent =
    | JoinGroup(groupId: GroupId)
    | LeaveGroup(groupId: GroupId)
    | MessageDeliveredEv(messageId: MessageId, senderId: UserId)
    | MessageReadEv(messageId: MessageId, senderId: UserId)
    | AddReactionEv(messageId: MessageId, emoji: string, senderId: UserId)
    | EditMessageEv(messageId: MessageId, text: string, receiverId: UserId)
    | DeleteMessageEv(messageId: MessageId, receiverId: UserId)
    | CallUser(userToCall: UserId, from: UserId, name: string, callType: string)
    | AnswerCall(answerTo: UserId, signal: string)
    | CallSignal(signalTo: UserId, signal: string)
    | RejectCallEv(rejectFrom: UserId, rejectTo: Option<UserId>)
    | EndCallEv(endFrom: UserId, endTo: Option<UserId>)

  /** Events the server emits. */
  datatype ServerEvent =
    | OnlineUsers(users: seq<UserId>)
    | GroupOnlineUsers(groupId: GroupId, onlineUsers: seq<UserId>)
    | MessageStatusUpdate(messageId: MessageId, status: DeliveryStatus)
    | MessageReaction(reactedId: MessageId, emoji: string, reactor: Option<UserId>)
    | MessageEdited(editedId: MessageId, text: string, isEdited: bool)
    | MessageDeleted(deletedId: MessageId)
    | IncomingCall(caller: UserId, name: string, callType: string)
    | CallRejected(rejectedBy: UserId)
    | CallEnded(endedBy: UserId)
    | NewMessage(message: Message)
    | NewGroupMessage(groupMessage: GroupMessage)
    | GroupMessageDeleted(removedId: MessageId)

  /** `io.emit`, `io.to(room).emit` and `io.to(socketId).emit`. */
  datatype Target = Everyone | Room(room: GroupId) | SocketTarget(socket: SocketId)

  datatype Emit = Emit(to: Target, event: ServerEvent)

  /** A request handler's outcome: the collection afterwards, the response,
      and the socket events it emitted. */
  datatype Response<S, T> = Response(state: S, result: Result<T>, emits: seq<Emit>)

  /** An error response leaves the collection alone and emits nothing. */
  function Reject<S, T>(state: S, e: ApiError): Response<S, T> {
    Response(state, Err(e), [])
  }

  /** What a client store hands to the network: a socket emit or an HTTP
      request whose reply arrives later as a separate step. */
  datatype ClientEffect =
    | SocketEmit(event: ClientEvent)
    | PutMessageStatus(statusOf: MessageId, status: DeliveryStatus)
    | PutGroupMessageRead(readOf: MessageId)
    | FetchGroupMessages(fetchOf: GroupId)

  /** A client store transition: the store afterwards and what it sent. */
  datatype Next<S> = Next(state: S, effects: seq<ClientEffect>)
}
