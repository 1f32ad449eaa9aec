/** The persisted records: direct messages (backend/src/models/messages.js),
    group messages (backend/src/models/groupMessages.js) and group chats.
    Required schema paths are plain fields; optional ones are `Option`s. */
module Models {
  import opened Base

  /** The `status` enum of a direct message. */
  datatype DeliveryStatus = Sent | Delivered | Read {
    /** Position along sent -> delivered -> read. */
    function Rank(): nat {
      match this
      case Sent => 0
      case Delivered => 1
      case Read => 2
    }
  }

  /** The `status` enum of a group message has no `read`: per-user reading is
      kept in `readBy` instead. */
  type GroupStatus = s: DeliveryStatus | s != Read witness Sent

  /** The `fileType` enum. */
  datatype FileKind = Image | Document | Video | Audio

  /** One entry of `reactions`; both paths are required. */
  datatype Reaction = Reaction(userId: UserRef, emoji: string)

  datatype Message = Message(
    id: MessageId,
    senderId: UserId,
    receiverId: UserId,
    text: Option<string>,
    fileUrl: Option<string>,
    fileName: Option<string>,
    fileType: Option<FileKind>,
    status: DeliveryStatus,
    isEdited: bool,
    reactions: seq<Reaction>,
    createdAt: int)

  datatype GroupMessage = GroupMessage(
    id: MessageId,
    groupId: GroupId,
    senderId: UserRef,
    text: Option<string>,
    fileUrl: Option<string>,
    fileName: Option<string>,
    fileType: Option<FileKind>,
    status: GroupStatus,
    isEdited: bool,
    readBy: seq<UserRef>,
    reactions: seq<Reaction>,
    createdAt: int)

  /** A group chat as the controllers use it; its schema file is not part of
      this model. */
  datatype Group = Group(
    id: GroupId,
    name: string,
    admin: UserId,
    members: seq<UserId>,
    description: string,
    groupImage: Option<string>,
    updatedAt: int)

  /** Mongoose's `required` rejects an empty string, so a stored reaction has
      a non-empty emoji. */
  predicate ValidReaction(r: Reaction) {
    r.emoji != ""
  }

  /** What the schema validators accept for a direct message. */
  predicate ValidMessage(m: Message) {
    forall r :: r in m.reactions ==> ValidReaction(r)
  }

  predicate ValidGroupMessage(m: GroupMessage) {
    forall r :: r in m.reactions ==> ValidReaction(r)
  }

  /** The state of a freshly created document: every defaulted path holds its
      schema default (`status: "sent"`, `isEdited: false`, no reactions). */
  predicate Fresh(m: Message) {
    m.status == Sent && !m.isEdited && m.reactions == []
  }

  predicate FreshGroupMessage(m: GroupMessage) {
    m.status == Sent && !m.isEdited && m.reactions == [] && m.readBy == []
  }

  /** A collection keyed by `_id` never holds two documents with one id. */
  predicate UniqueIds(s: seq<Message>) {
    forall i, j :: 0 <= i < j < |s| ==> s[i].id != s[j].id
  }

  predicate UniqueGroupMessageIds(s: seq<GroupMessage>) {
    forall i, j :: 0 <= i < j < |s| ==> s[i].id != s[j].id
  }

  function MessageIds(s: seq<Message>): set<MessageId> {
    set m | m in s :: m.id
  }

  function GroupMessageIds(s: seq<GroupMessage>): set<MessageId> {
    set m | m in s :: m.id
  }

  /** `findById`: the position of the document with id `id`, or -1. */
  function IndexOfMessage(s: seq<Message>, id: MessageId): (i: int)
    ensures -1 <= i < |s|
    ensures i >= 0 ==> s[i].id == id
    ensures i == -1 <==> id !in MessageIds(s)
  {
    if |s| == 0 then -1
    else if s[0].id == id then 0
    else
      var j := IndexOfMessage(s[1..], id);
      assert MessageIds(s) == {s[0].id} + MessageIds(s[1..]) by {
        assert s == [s[0]] + s[1..];
      }
      if j < 0 then -1 else j + 1
  }

  function IndexOfGroupMessage(s: seq<GroupMessage>, id: MessageId): (i: int)
    ensures -1 <= i < |s|
    ensures i >= 0 ==> s[i].id == id
    ensures i == -1 <==> id !in GroupMessageIds(s)
  {
    if |s| == 0 then -1
    else if s[0].id == id then 0
    else
      var j := IndexOfGroupMessage(s[1..], id);
      assert GroupMessageIds(s) == {s[0].id} + GroupMessageIds(s[1..]) by {
        assert s == [s[0]] + s[1..];
      }
      if j < 0 then -1 else j + 1
  }
}
