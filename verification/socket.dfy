/** The socket server of backend/src/lib/socket.js: the presence map
    (`userSocketMap`, one socket per user, last writer wins), the room
    bookkeeping (`groupRooms`, duplicate-free lists of handshake ids) and the
    handlers that relay an event to one user's socket when that user is
    online. */
module Socket {
  import opened Base
  import opened Models
  import opened Wire
  import OM = OrderedMap

  /** The handshake ids of the sockets that joined one room; a socket that
      connected without a `userId` query parameter contributes `None`. */
  type RoomList = seq<Option<UserId>>

  datatype Server = Server(online: OM.Assoc<UserId, SocketId>, rooms: OM.Assoc<GroupId, RoomList>)

  datatype Step = Step(server: Server, emits: seq<Emit>)

  const Initial: Server := Server([], [])

  /** Reachable states: keys are distinct and every room list is
      duplicate-free. */
  predicate Wf(s: Server) {
    && OM.Wf(s.online)
    && OM.Wf(s.rooms)
    && forall i :: 0 <= i < |s.rooms| ==> Distinct(s.rooms[i].1)
  }

  /** The property key JavaScript uses for an id: an absent id indexes the
      key "undefined". */
  function KeyOf(q: Option<UserId>): UserId {
    if q.Some? then q.value else "undefined"
  }

  /** `getReceiverSocketId`. */
  function ReceiverSocket(s: Server, u: UserId): Option<SocketId> {
    OM.Get(s.online, u)
  }

  /** The `groupOnlineUsers` payload: the room's ids that are keys of the
      presence map, in room order. An absent id is never a key. */
  function OnlineIn(room: RoomList, keys: seq<UserId>): (r: seq<UserId>)
    ensures forall u :: u in r <==> Some(u) in room && u in keys
    ensures |r| <= |room|
  {
    if |room| == 0 then []
    else
      assert room == [room[0]] + room[1..];
      (if room[0].Some? && room[0].value in keys then [room[0].value] else []) + OnlineIn(room[1..], keys)
  }

  /** The test of `.filter(id => Object.keys(userSocketMap).includes(id))`:
      a handshake id that is a key of the presence map. */
  function OnlinePred(keys: seq<UserId>): Option<UserId> -> bool {
    (x: Option<UserId>) => x.Some? && x.value in keys
  }

  /** Ids written as room entries. */
  function AsEntries(us: seq<UserId>): (r: RoomList)
    ensures |r| == |us|
    ensures forall i :: 0 <= i < |us| ==> r[i] == Some(us[i])
  {
    seq(|us|, i requires 0 <= i < |us| => Some(us[i]))
  }

  function RoomPresence(g: GroupId, room: RoomList, s: Server): Emit {
    Emit(Room(g), GroupOnlineUsers(g, OnlineIn(room, OM.Keys(s.online))))
  }

  /** The `connection` handler: register the socket under a truthy `userId`,
      then broadcast the online users. */
  function Connect(s: Server, socket: SocketId, q: Option<UserId>): Step {
    var online := if Truthy(q) then OM.Put(s.online, q.value, socket) else s.online;
    Step(s.(online := online), [Emit(Everyone, OnlineUsers(OM.Keys(online)))])
  }

  /** `joinGroup`: create the room list if needed, add the id once, and tell
      the room who of it is online. */
  function JoinGroup(s: Server, q: Option<UserId>, g: GroupId): Step {
    var room := OM.Get(s.rooms, g).GetOr([]);
    var room' := if q in room then room else room + [q];
    Step(s.(rooms := OM.Put(s.rooms, g, room')), [RoomPresence(g, room', s)])
  }

  /** `leaveGroup`: only a tracked room changes and is notified. */
  function LeaveGroup(s: Server, q: Option<UserId>, g: GroupId): Step {
    match OM.Get(s.rooms, g)
    case None => Step(s, [])
    case Some(room) =>
      var room' := Pull(room, q);
      Step(s.(rooms := OM.Put(s.rooms, g, room')), [RoomPresence(g, room', s)])
  }

  datatype Purge = Purge(rooms: OM.Assoc<GroupId, RoomList>, emits: seq<Emit>)

  /** The loop of the `disconnect` handler over `Object.keys(groupRooms)`:
      every room holding the id loses it and is notified, in key order, with
      presence as it was before the disconnect. */
  function PurgeRooms(rooms: OM.Assoc<GroupId, RoomList>, q: Option<UserId>, s: Server): Purge {
    if |rooms| == 0 then Purge([], [])
    else
      var rest := PurgeRooms(rooms[1..], q, s);
      var g := rooms[0].0;
      var room := rooms[0].1;
      if q in room then
        var room' := Pull(room, q);
        Purge([(g, room')] + rest.rooms, [RoomPresence(g, room', s)] + rest.emits)
      else
        Purge([(g, room)] + rest.rooms, rest.emits)
  }

  /** The `disconnect` handler: leave every room, then delete the presence
      entry under the id whatever socket it names, then broadcast. */
  function Disconnect(s: Server, q: Option<UserId>): Step {
    var purge := PurgeRooms(s.rooms, q, s);
    var online := OM.Remove(s.online, KeyOf(q));
    Step(Server(online, purge.rooms), purge.emits + [Emit(Everyone, OnlineUsers(OM.Keys(online)))])
  }

  /** `io.to(getReceiverSocketId(to)).emit(...)` guarded by the lookup. */
  function Forward(s: Server, to: UserId, e: ServerEvent): seq<Emit> {
    match ReceiverSocket(s, to)
    case Some(socket) => [Emit(SocketTarget(socket), e)]
    case None => []
  }

  /** Every client event handled by a socket whose handshake id is `q`.
      `answerCall` and `callSignal` have no handler: their registrations are
      commented out, so the server ignores them. */
  function Handle(s: Server, q: Option<UserId>, ev: ClientEvent): Step {
    match ev
    case JoinGroup(g) => JoinGroup(s, q, g)
    case LeaveGroup(g) => LeaveGroup(s, q, g)
    case MessageDeliveredEv(m, sender) => Step(s, Forward(s, sender, MessageStatusUpdate(m, Delivered)))
    case MessageReadEv(m, sender) => Step(s, Forward(s, sender, MessageStatusUpdate(m, Read)))
    case AddReactionEv(m, emoji, sender) => Step(s, Forward(s, sender, MessageReaction(m, emoji, q)))
    case EditMessageEv(m, text, receiver) => Step(s, Forward(s, receiver, MessageEdited(m, text, true)))
    case DeleteMessageEv(m, receiver) => Step(s, Forward(s, receiver, MessageDeleted(m)))
    case CallUser(to, from, name, kind) => Step(s, Forward(s, to, IncomingCall(from, name, kind)))
    case AnswerCall(_, _) => Step(s, [])
    case CallSignal(_, _) => Step(s, [])
    case RejectCallEv(from, to) => Step(s, Forward(s, KeyOf(to), CallRejected(from)))
    case EndCallEv(from, to) => Step(s, Forward(s, KeyOf(to), CallEnded(from)))
  }

  /** The user each relay handler looks up; `None` for the events that are
      not relayed to one user. */
  function RelayTo(ev: ClientEvent): Option<UserId> {
    match ev
    case MessageDeliveredEv(_, sender) => Some(sender)
    case MessageReadEv(_, sender) => Some(sender)
    case AddReactionEv(_, _, sender) => Some(sender)
    case EditMessageEv(_, _, receiver) => Some(receiver)
    case DeleteMessageEv(_, receiver) => Some(receiver)
    case CallUser(to, _, _, _) => Some(to)
    case RejectCallEv(_, to) => Some(KeyOf(to))
    case EndCallEv(_, to) => Some(KeyOf(to))
    case _ => None
  }

  // ---------------------------------------------------------------------
  // Properties
  // ---------------------------------------------------------------------

  /** The payload is exactly what the room's `.filter` keeps, in room order,
      and it is duplicate-free when the room is. */
  lemma OnlineInFilter(room: RoomList, keys: seq<UserId>)
    ensures AsEntries(OnlineIn(room, keys)) == Filter(room, OnlinePred(keys))
    ensures Distinct(room) ==> Distinct(OnlineIn(room, keys))
  {
    OnlineInOrder(room, keys);
    if Distinct(room) {
      FilterDistinct(room, OnlinePred(keys));
      EntriesDistinct(OnlineIn(room, keys));
    }
  }

  lemma {:induction false} OnlineInOrder(room: RoomList, keys: seq<UserId>)
    ensures AsEntries(OnlineIn(room, keys)) == Filter(room, OnlinePred(keys))
  {
    if |room| > 0 {
      OnlineInOrder(room[1..], keys);
      var p := OnlinePred(keys);
      var head: seq<UserId> := if p(room[0]) then [room[0].value] else [];
      var rest := OnlineIn(room[1..], keys);
      OnlineInStep(room, keys, head);
      AsEntriesAppend(head, rest);
      FilterStep(room, p);
      assert AsEntries(head) == if p(room[0]) then [room[0]] else [];
    }
  }

  lemma OnlineInStep(room: RoomList, keys: seq<UserId>, head: seq<UserId>)
    requires |room| > 0
    requires head == if room[0].Some? && room[0].value in keys then [room[0].value] else []
    ensures OnlineIn(room, keys) == head + OnlineIn(room[1..], keys)
  {
  }

  lemma AsEntriesAppend(a: seq<UserId>, b: seq<UserId>)
    ensures AsEntries(a + b) == AsEntries(a) + AsEntries(b)
  {
  }

  /** Distinct entries come from distinct ids. */
  lemma EntriesDistinct(us: seq<UserId>)
    requires Distinct(AsEntries(us))
    ensures Distinct(us)
  {
    var e := AsEntries(us);
    forall i, j | 0 <= i < j < |us| ensures us[i] != us[j] {
      assert e[i] != e[j];
    }
  }

  /** Connecting with a truthy id maps that id to the new socket, replacing
      an earlier one, and leaves every other user's entry alone; without one
      the server is unchanged. Either way the rooms are untouched and the
      only emit is the broadcast of the resulting online users. */
  lemma ConnectSpec(s: Server, socket: SocketId, q: Option<UserId>)
    requires Wf(s)
    ensures var r := Connect(s, socket, q);
      && Wf(r.server)
      && r.server.rooms == s.rooms
      && (Truthy(q) ==> ReceiverSocket(r.server, q.value) == Some(socket))
      && (Truthy(q) ==> forall u :: u != q.value ==> ReceiverSocket(r.server, u) == ReceiverSocket(s, u))
      && (!Truthy(q) ==> r.server == s)
      && r.emits == [Emit(Everyone, OnlineUsers(OM.Keys(r.server.online)))]
  {
    if Truthy(q) {
      OM.PutSpec(s.online, q.value, socket);
    }
  }

  /** After `joinGroup` the joiner is in the room's list exactly once, every
      other room is unchanged, and one presence update goes to the room. */
  lemma JoinGroupSpec(s: Server, q: Option<UserId>, g: GroupId)
    requires Wf(s)
    ensures var r := JoinGroup(s, q, g);
      && Wf(r.server)
      && r.server.online == s.online
      && OM.Get(r.server.rooms, g).Some?
      && q in OM.Get(r.server.rooms, g).value
      && (var room := OM.Get(s.rooms, g).GetOr([]);
          OM.Get(r.server.rooms, g).value == if q in room then room else room + [q])
      && (forall g' :: g' != g ==> OM.Get(r.server.rooms, g') == OM.Get(s.rooms, g'))
      && r.emits == [RoomPresence(g, OM.Get(r.server.rooms, g).value, s)]
  {
    var room := OM.Get(s.rooms, g).GetOr([]);
    var room' := if q in room then room else room + [q];
    OM.PutSpec(s.rooms, g, room');
    StoredRoomDistinct(s, g);
    assert Distinct(room');
    PutRoomWf(s, g, room');
  }

  /** A stored room list is duplicate-free. */
  lemma StoredRoomDistinct(s: Server, g: GroupId)
    requires Wf(s)
    ensures Distinct(OM.Get(s.rooms, g).GetOr([]))
  {
    if OM.Get(s.rooms, g).Some? {
      var i := Find(OM.Keys(s.rooms), g);
      assert OM.Get(s.rooms, g).value == s.rooms[i].1;
    }
  }

  /** Storing a duplicate-free room list keeps the server well formed. */
  lemma PutRoomWf(s: Server, g: GroupId, room: RoomList)
    requires Wf(s) && Distinct(room)
    ensures Wf(s.(rooms := OM.Put(s.rooms, g, room)))
  {
    OM.PutSpec(s.rooms, g, room);
    var rooms' := OM.Put(s.rooms, g, room);
    forall i | 0 <= i < |rooms'| ensures Distinct(rooms'[i].1) {
      if rooms'[i].0 != g {
        assert rooms'[i] in s.rooms;
      } else {
        assert rooms'[i] == (g, room);
      }
    }
  }

  /** Joining twice is joining once: same state, same notification. */
  lemma JoinGroupIdempotent(s: Server, q: Option<UserId>, g: GroupId)
    requires Wf(s)
    ensures JoinGroup(JoinGroup(s, q, g).server, q, g) == JoinGroup(s, q, g)
  {
    var room := OM.Get(s.rooms, g).GetOr([]);
    var room' := if q in room then room else room + [q];
    var r := JoinGroup(s, q, g);
    assert r.server == s.(rooms := OM.Put(s.rooms, g, room'));
    OM.PutSpec(s.rooms, g, room');
    assert OM.Get(r.server.rooms, g).GetOr([]) == room';
    assert q in room';
    OM.PutTwice(s.rooms, g, room');
    var r2 := JoinGroup(r.server, q, g);
    assert r2.server == r.server.(rooms := OM.Put(r.server.rooms, g, room'));
    assert r2.server == r.server;
    assert r2.emits == [RoomPresence(g, room', r.server)];
    assert r.server.online == s.online;
  }

  /** `leaveGroup` removes the id from that room only; an untracked room
      means no change and no emit. */
  lemma LeaveGroupSpec(s: Server, q: Option<UserId>, g: GroupId)
    requires Wf(s)
    ensures var r := LeaveGroup(s, q, g);
      && Wf(r.server)
      && r.server.online == s.online
      && (OM.Get(s.rooms, g).None? ==> r == Step(s, []))
      && (OM.Get(s.rooms, g).Some? ==>
            && OM.Get(r.server.rooms, g) == Some(Pull(OM.Get(s.rooms, g).value, q))
            && q !in OM.Get(r.server.rooms, g).value
            && OM.Keys(r.server.rooms) == OM.Keys(s.rooms)
            && r.emits == [RoomPresence(g, OM.Get(r.server.rooms, g).value, s)])
      && (forall g' :: g' != g ==> OM.Get(r.server.rooms, g') == OM.Get(s.rooms, g'))
  {
    match OM.Get(s.rooms, g)
    case None =>
    case Some(room) =>
      var room' := Pull(room, q);
      OM.PutSpec(s.rooms, g, room');
      StoredRoomDistinct(s, g);
      PullDistinct(room, q);
      PutRoomWf(s, g, room');
  }

  /** The room loop of `disconnect` rewrites every room as the list without
      the id, keeping the room keys and their order. */
  lemma {:induction false} PurgeRoomsPointwise(rooms: OM.Assoc<GroupId, RoomList>, q: Option<UserId>, s: Server)
    ensures |PurgeRooms(rooms, q, s).rooms| == |rooms|
    ensures forall i :: 0 <= i < |rooms| ==>
      PurgeRooms(rooms, q, s).rooms[i] == (rooms[i].0, Pull(rooms[i].1, q))
  {
    if |rooms| > 0 {
      PurgeRoomsPointwise(rooms[1..], q, s);
      var p := PurgeRooms(rooms, q, s);
      var rest := PurgeRooms(rooms[1..], q, s);
      if q !in rooms[0].1 {
        PullAbsent(rooms[0].1, q);
      }
      forall i | 0 <= i < |rooms| ensures p.rooms[i] == (rooms[i].0, Pull(rooms[i].1, q)) {
        if i > 0 {
          assert p.rooms[i] == rest.rooms[i - 1];
          assert rooms[i] == rooms[1..][i - 1];
        }
      }
    }
  }

  /** The rooms whose list holds the id, in key order. */
  function Holding(rooms: OM.Assoc<GroupId, RoomList>, q: Option<UserId>): seq<(GroupId, RoomList)> {
    Filter(rooms, (e: (GroupId, RoomList)) => q in e.1)
  }

  /** The room loop notifies exactly the rooms that held the id, in key
      order, each with the online members of its list without the id as the
      presence map stood before the disconnect. */
  lemma {:induction false} PurgeRoomsEmits(rooms: OM.Assoc<GroupId, RoomList>, q: Option<UserId>, s: Server)
    ensures |PurgeRooms(rooms, q, s).emits| == |Holding(rooms, q)|
    ensures forall k :: 0 <= k < |Holding(rooms, q)| ==>
      PurgeRooms(rooms, q, s).emits[k] == RoomPresence(Holding(rooms, q)[k].0, Pull(Holding(rooms, q)[k].1, q), s)
  {
    if |rooms| > 0 {
      PurgeRoomsEmits(rooms[1..], q, s);
      var h := Holding(rooms, q);
      var hr := Holding(rooms[1..], q);
      var e := PurgeRooms(rooms, q, s).emits;
      var er := PurgeRooms(rooms[1..], q, s).emits;
      if q in rooms[0].1 {
        assert h == [rooms[0]] + hr;
        assert e == [RoomPresence(rooms[0].0, Pull(rooms[0].1, q), s)] + er;
        forall k | 0 <= k < |h| ensures e[k] == RoomPresence(h[k].0, Pull(h[k].1, q), s) {
          if k > 0 {
            assert e[k] == er[k - 1] && h[k] == hr[k - 1];
          }
        }
      } else {
        assert h == hr;
        assert e == er;
      }
    }
  }

  /** After `disconnect` the id is in no room list and its key is gone from
      the presence map, whatever socket it named; every other user keeps
      their entry; the presence updates of the rooms that held the id, in
      key order and computed before the delete, precede the final
      broadcast. */
  lemma DisconnectSpec(s: Server, q: Option<UserId>)
    requires Wf(s)
    ensures var r := Disconnect(s, q);
      && Wf(r.server)
      && ReceiverSocket(r.server, KeyOf(q)) == None
      && (forall u :: u != KeyOf(q) ==> ReceiverSocket(r.server, u) == ReceiverSocket(s, u))
      && (forall i :: 0 <= i < |r.server.rooms| ==> q !in r.server.rooms[i].1)
      && OM.Keys(r.server.rooms) == OM.Keys(s.rooms)
      && |r.emits| == |Holding(s.rooms, q)| + 1
      && (forall k :: 0 <= k < |Holding(s.rooms, q)| ==>
            r.emits[k] == RoomPresence(Holding(s.rooms, q)[k].0, Pull(Holding(s.rooms, q)[k].1, q), s))
      && r.emits[|r.emits| - 1] == Emit(Everyone, OnlineUsers(OM.Keys(r.server.online)))
  {
    var r := Disconnect(s, q);
    PurgeRoomsPointwise(s.rooms, q, s);
    PurgeRoomsEmits(s.rooms, q, s);
    OM.RemoveSpec(s.online, KeyOf(q));
    assert OM.Keys(r.server.rooms) == OM.Keys(s.rooms);
    forall i | 0 <= i < |r.server.rooms| ensures q !in r.server.rooms[i].1 && Distinct(r.server.rooms[i].1) {
      assert r.server.rooms[i].1 == Pull(s.rooms[i].1, q);
      PullDistinct(s.rooms[i].1, q);
    }
  }

  /** A relay handler changes no state and emits exactly one event, to the
      target's socket, when the target is online, and nothing otherwise;
      events that are not relays (the commented-out call answers among them)
      emit nothing beyond what joining or leaving does. */
  lemma RelaySpec(s: Server, q: Option<UserId>, ev: ClientEvent)
    requires !ev.JoinGroup? && !ev.LeaveGroup?
    ensures var r := Handle(s, q, ev);
      && r.server == s
      && (RelayTo(ev).None? ==> r.emits == [])
      && (RelayTo(ev).Some? ==>
            && (r.emits == [] <==> ReceiverSocket(s, RelayTo(ev).value).None?)
            && (ReceiverSocket(s, RelayTo(ev).value).Some? ==>
                  |r.emits| == 1 && r.emits[0].to == SocketTarget(ReceiverSocket(s, RelayTo(ev).value).value)))
  {
  }

  /** The edit relay always marks the text as edited, and the delete relay
      carries only the message id. */
  lemma EditDeletePayloads(s: Server, q: Option<UserId>, ev: ClientEvent)
    requires ev.EditMessageEv? || ev.DeleteMessageEv?
    ensures var r := Handle(s, q, ev);
      && (ev.EditMessageEv? && r.emits != [] ==> r.emits[0].event == MessageEdited(ev.messageId, ev.text, true))
      && (ev.DeleteMessageEv? && r.emits != [] ==> r.emits[0].event == MessageDeleted(ev.messageId))
  {
  }
}
