# ChatPulse core, modelled in Dafny

ChatPulse is a chat application with an Express/socket.io server and a React
client. Users exchange direct messages that move from `sent` to `delivered`
to `read`. They chat in groups run by an admin, react with emojis, block one
another and place calls. This project models the decision logic of that
system as pure functions over immutable data:

- **Presence and rooms** (`Socket`). This covers the server's `userSocketMap`
  (one socket per user, last writer wins) and `groupRooms` (a duplicate-free
  list per group). It also covers the join, leave and disconnect bookkeeping
  and the relay handlers that forward an event to a user's socket when that
  user is online. JavaScript objects are insertion-ordered association lists
  (`OrderedMap`), because `Object.keys` order is visible in the
  `getOnlineUsers` payload.
- **Direct messages** (`MessageController`). Fetching a conversation sorts it
  oldest first, marks what was addressed to the caller as read and notifies
  the senders. Sending stores a message as sent, or as delivered when the
  receiver is online. An explicit status update is validated and never goes
  from read back to delivered.
- **Groups** (`GroupController`, `GroupMessageController`). These hold the
  member-only and admin-only checks, `$addToSet` and `$pull` on the roster,
  the rule that the admin can never be removed, and the rule that only the
  sender or the admin may delete a group message.
- **Block list** (`UserController` on the server, `UserStore` on the client).
- **Client stores** (`ChatStore`, `GroupStore`, `CallStore`). These are the
  socket listeners and actions as transitions from a state to a new state
  plus the requests and socket emits they trigger (`Wire.ClientEffect`).
  Call media and the peer connection are reduced to flags.
- **Two component functions** (`MessageInput`, `MessageReactions`). One is
  the attachment classifier with its 10 MB limit and the send guard. The
  other is the emoji grouping and the user's own reaction chip.

Server handlers return `Wire.Response(state, result, emits)`. The result is
`Ok(value)` or `Err(error)`, and `ApiError.Code()` gives the HTTP status.
Each emit is an event addressed to everyone, to a room or to one socket.
The record types follow the schemas. `Models.Message` carries a
`DeliveryStatus`. `Models.GroupMessage` carries a `GroupStatus`, a subtype
without `read`, and records readers in `readBy`. Schema defaults (`status`
sent, `isEdited` false, no reactions) are the predicates `Models.Fresh` and
`Models.FreshGroupMessage`. The group send lemma proves that a new group
message satisfies its predicate. The direct send lemma states the same
defaults, apart from the status rule. A reference to a user reaches the client either raw or
populated (`Base.UserRef`), and the two JavaScript comparisons
`ref._id === u` and `ref === u` are told apart (`HasIdField`, `RefersTo`).

## Model

| member | source | states |
|---|---|---|
| Base.Filter | backend/src/lib/socket.js:63 | `Array.prototype.filter` keeps exactly the elements satisfying the predicate, each taken from the input |
| Base.Find | backend/src/lib/socket.js:17-19 | the position an object lookup reads: the first occurrence of the key, or -1 exactly when the key is absent |
| Base.FilterSubsequence | backend/src/controllers/groupController.js:212 | filtering keeps the kept elements in their input order |
| Base.FilterPartition | backend/src/controllers/groupController.js:212 | a filter and the filter by the opposite test together give back the input as a multiset |
| Base.FilterDistinct | backend/src/lib/socket.js:63 | filtering a duplicate-free list keeps it duplicate-free |
| Base.PullAbsent | backend/src/controllers/userController.js:70-76 | pulling an element that does not occur changes nothing |
| OrderedMap.PutSpec | backend/src/lib/socket.js:30 | assigning `obj[k] = v` makes `k` read `v`, leaves every other key's value alone, keeps key order (a new key goes last) and keeps keys distinct |
| OrderedMap.RemoveSpec | backend/src/lib/socket.js:181 | `delete obj[k]` removes `k`, keeps the other keys' values and their relative order |
| Sorting.SortBy | backend/src/controllers/messageController.js:29 | `.sort({ createdAt: 1 })` returns a permutation of its input ordered by the key |
| Socket.OnlineIn | backend/src/lib/socket.js:52 | the `groupOnlineUsers` payload holds exactly the room's users that are keys of the presence map |
| Socket.OnlineInOrder | backend/src/lib/socket.js:52 | the payload, read back as room entries, equals the room's `.filter` result element for element, so it keeps room order |
| Socket.OnlineInFilter | backend/src/lib/socket.js:52 | the payload is exactly what the room's `.filter` keeps, in room order, and has no duplicates when the room has none |
| Socket.ConnectSpec | backend/src/lib/socket.js:29-33 | a truthy handshake id maps to the new socket, replacing any earlier one, and other users keep their entries; a missing id leaves the map alone; one `getOnlineUsers` broadcast of the resulting keys |
| Socket.JoinGroupSpec | backend/src/lib/socket.js:41-53 | after a join the room's list is its earlier list, created empty if missing, with the user appended when absent; other rooms are unchanged; one presence update goes to the room |
| Socket.JoinGroupIdempotent | backend/src/lib/socket.js:41-47 | joining twice leaves the same state and sends the same update as joining once |
| Socket.LeaveGroupSpec | backend/src/lib/socket.js:62-70 | leaving removes the user from that room only; leaving an untracked room changes nothing and emits nothing |
| Socket.PurgeRoomsPointwise | backend/src/lib/socket.js:169-172 | the disconnect loop rewrites every room as its list without the user, keeping room keys and order |
| Socket.PurgeRoomsEmits | backend/src/lib/socket.js:169-178 | the disconnect loop notifies exactly the rooms that held the user, in key order, each with its online members without the user as presence stood before the delete |
| Socket.DisconnectSpec | backend/src/lib/socket.js:165-182 | after a disconnect the user is in no room and not a key of the presence map, other users keep their sockets, and the presence updates of the rooms that held the user, in key order, precede the final broadcast |
| Socket.RelaySpec | backend/src/lib/socket.js:74-163 | every relay changes no state and emits exactly one event, to the target's socket, when the target is online, and nothing otherwise; `answerCall` and `callSignal` are not handled |
| Socket.EditDeletePayloads | backend/src/lib/socket.js:110-124 | the edit relay always carries `isEdited` true; the delete relay carries only the message id |
| MessageController.Exchanged | backend/src/controllers/messageController.js:24-28 | the `$or` query matches exactly the stored messages from either user to the other |
| MessageController.GetMessagesResult | backend/src/controllers/messageController.js:24-29 | a fetch returns the conversation oldest first, with everything addressed to the caller shown as read |
| MessageController.GetMessagesExact | backend/src/controllers/messageController.js:24-29 | a fetch returns exactly the messages between the two users, in either direction |
| MessageController.GetMessagesStore | backend/src/controllers/messageController.js:32-40 | a fetch marks read exactly the unread messages from the other user to the caller and touches no other message |
| MessageController.GetMessagesNoRegression | backend/src/controllers/messageController.js:36-40 | a fetch changes only statuses, and only upwards to read |
| MessageController.ReadReceiptsSpec | backend/src/controllers/messageController.js:43-51 | one `read` update per newly read message, in order, to the sender's socket when online |
| MessageController.GetMessagesEmits | backend/src/controllers/messageController.js:43-51 | a fetch emits one `read` update per newly read message to the other user if online, and nothing otherwise |
| MessageController.SendMessageStored | backend/src/controllers/messageController.js:79-97 | a sent message is stored once with the schema defaults, as `delivered` if and only if the receiver is online, `sent` otherwise |
| MessageController.SendMessageEmits | backend/src/controllers/messageController.js:90-106 | the receiver gets the message only when online, and the sender gets a `delivered` update only when both are online |
| MessageController.UpdateMessageStatusSpec | backend/src/controllers/messageController.js:123-153 | an update succeeds exactly for `delivered`/`read` on an existing message by its receiver that is not a read-to-delivered downgrade; only that message's status changes, never downwards, and the online sender is told once; failures change and emit nothing |
| MessageController.UpdateMessageStatusErrors | backend/src/controllers/messageController.js:123-141 | the error of each failed check, in the endpoint's order: bad status, then 404, then 403, then the downgrade refusal |
| GroupController.AddToSetSpec | backend/src/controllers/groupController.js:144-147 | `$addToSet` keeps the old roster as a prefix, holds exactly the old and new ids, appends only absent ids and creates no duplicates |
| GroupController.CreateGroupSpec | backend/src/controllers/groupController.js:11-25 | a missing name or an absent or empty member list is refused; a created group has the creator as admin, exactly the requested members with the creator appended if absent, the given name and the given description or "" |
| GroupController.GetGroupByIdSpec | backend/src/controllers/groupController.js:68-75 | 404 for an unknown group, 403 for a non-member, the group otherwise; nothing changes |
| GroupController.AdminOnly | backend/src/controllers/groupController.js:98-100 | update, add-members and delete answer 403 to anyone but the admin and change nothing (the same check at lines 139-141 and 207-209) |
| GroupController.UpdateGroupSpec | backend/src/controllers/groupController.js:102-109 | the name is replaced only by a truthy one, the description whenever provided, the image only by a truthy one; everything else is kept |
| GroupController.AddGroupMembersSpec | backend/src/controllers/groupController.js:128-147 | a missing or empty list is refused before the lookup; otherwise the ids are unioned into the roster without duplicates |
| GroupController.RemoveGroupMemberSpec | backend/src/controllers/groupController.js:171-182 | removal is allowed exactly for the admin removing someone else and for a member removing themself; then only that member leaves |
| GroupController.AdminStaysMember | backend/src/controllers/groupController.js:176-178 | whatever the request, the admin stays a member |
| GroupController.DeleteGroupSpec | backend/src/controllers/groupController.js:200-215 | only the admin of an existing group may delete it, and a refusal changes nothing; deleting removes the group and exactly the messages of that group: the survivors are a subsequence of the stored messages (same relative order), and survivors plus the removed group's messages are the old collection as a multiset |
| GroupMessageController.SendGroupMessageSpec | backend/src/controllers/groupMessageController.js:12-44 | an empty post is refused first, then 404 and 403; a post appends one fresh message with text defaulting to "" and broadcasts exactly one `newGroupMessage` to the group's room |
| GroupController.GroupPart | backend/src/controllers/groupMessageController.js:70 | `find({ groupId })` matches exactly the stored messages of that group |
| GroupMessageController.GetGroupMessagesSpec | backend/src/controllers/groupMessageController.js:62-72 | 404, then 403 for a non-member; a member gets the group's messages, populated, oldest first |
| GroupMessageController.GetGroupMessagesExact | backend/src/controllers/groupMessageController.js:70-72 | what a member reads is exactly the stored messages of that group |
| GroupMessageController.DeleteGroupMessageSpec | backend/src/controllers/groupMessageController.js:89-107 | only the sender or the group's admin may delete; a delete removes the message and broadcasts its id alone to the group's room; anyone else gets 403 and the message stays |
| UserController.BlockUserSpec | backend/src/controllers/userController.js:27-48 | self-blocks, unknown targets and repeated blocks are refused in that order and change nothing; a success adds the target exactly once |
| UserController.UnblockUserSpec | backend/src/controllers/userController.js:64-76 | an unknown target gives 404; unblocking removes the target, and unblocking someone not blocked is a successful no-op |
| UserController.BlockUnblock | backend/src/controllers/userController.js:44-76 | blocking and then unblocking a user restores every block list |
| UserStore.IsUserBlocked | frontend/src/store/useUserStore.js:70-72 | true exactly when some entry has that id |
| UserStore.BlockUserSpec | frontend/src/store/useUserStore.js:29-34 | after a successful block the user reads as blocked; a failed request changes nothing |
| UserStore.UnblockUserSpec | frontend/src/store/useUserStore.js:51-56 | after a successful unblock the user no longer reads as blocked and other ids keep their status; a failed request changes nothing |
| UserStore.BlockThenUnblock | frontend/src/store/useUserStore.js:32-56 | blocking someone not blocked and then unblocking them restores the list |
| ChatStore.OnNewMessageSpec | frontend/src/store/useChatStore.js:76-98 | a message is appended exactly when it concerns the selected user and its id is new, so ids stay unique; only such a message from the selected user triggers the read update and the `messageRead` emit |
| ChatStore.SetStatusSpec | frontend/src/store/useChatStore.js:105-111 | a status push changes only the status of the messages with that id; applying it twice is applying it once |
| ChatStore.UpdateMessageStatusSpec | frontend/src/store/useChatStore.js:47-60 | the local list changes only after the server accepted, and then as a status push would |
| ChatStore.SendMessageSpec | frontend/src/store/useChatStore.js:37-45 | the server's message goes last and everything before it is kept; without a selection or on failure nothing changes |
| GroupStore.OnNewGroupMessageSpec | frontend/src/store/useGroupStore.js:205-224 | a message is appended exactly when it is for the selected group and its id is new; a mark-read request goes out only for an appended message not sent by the current user |
| GroupStore.OnDeleteGroupMessageSpec | frontend/src/store/useGroupStore.js:230-234 | every message with that id is removed and the rest keep their order; unique ids stay unique |
| GroupStore.OnGroupMessageStatusUpdateSpec | frontend/src/store/useGroupStore.js:237-243 | only the status of the matching messages changes |
| GroupStore.SetReactionsSpec | frontend/src/store/useGroupStore.js:274-280 | only the reactions of the matching messages change; a failed reaction request changes nothing |
| GroupStore.ReadAsWrittenDuplicates | frontend/src/store/useGroupStore.js:246-261 | as written, a reader the server recorded as a raw id is recorded a second time |
| GroupStore.OnGroupMessageReadSpec | frontend/src/store/useGroupStore.js:246-261 | corrected: the user is recorded on the matching message only if absent; other messages are untouched and a repeated push changes nothing |
| GroupStore.ReplaceGroupSpec | frontend/src/store/useGroupStore.js:73-79 | member add (and likewise member remove and update, lines 93-99 and 133-139) replaces the group with that id and keeps the others; the selection is replaced only when its id matches |
| GroupStore.DeleteGroupSpec | frontend/src/store/useGroupStore.js:113-119 | the group leaves the list; the selection and messages are cleared if and only if it was selected |
| GroupStore.AppendSpec | frontend/src/store/useGroupStore.js:41-65 | created groups and sent messages go last; failures change nothing |
| GroupStore.SetSelectedGroupSpec | frontend/src/store/useGroupStore.js:303-325 | selecting a group clears its messages, fetches them and joins the room; the old room is left exactly when switching away with a socket |
| GroupStore.ClearSelectedGroupSpec | frontend/src/store/useGroupStore.js:328-331 | clearing leaves no selection and no messages |
| CallStore.EndCallSpec | frontend/src/store/useCallStore.js:261-297 | ending resets every flag with `callEnded` set, notifies the remote party exactly when there is one and the socket is connected, and is idempotent |
| CallStore.InitiateCallSpec | frontend/src/store/useCallStore.js:20-76 | a call fails exactly without a connected socket, a callee id or media, ending in the reset state; success is active and outgoing, neither accepted nor ended |
| CallStore.HandleIncomingCallSpec | frontend/src/store/useCallStore.js:79-88 | ringing sets active and incoming with accepted false |
| CallStore.AcceptCallSpec | frontend/src/store/useCallStore.js:91-175 | accepting sets accepted and clears incoming; a failure ends the call and re-throws |
| CallStore.HandleCallAcceptedSpec | frontend/src/store/useCallStore.js:178-244 | the caller's side sets accepted and clears outgoing; a failure ends the call without re-throwing |
| CallStore.RejectCallSpec | frontend/src/store/useCallStore.js:247-258 | rejecting sends `rejectCall` to the remote party and then does exactly what ending does |
| MessageInput.IndexOf | frontend/src/components/MessageInput.jsx:34-37 | a non-negative `indexOf` result is a position where the substring occurs |
| MessageInput.IndexOfContains | frontend/src/components/MessageInput.jsx:34-37 | `includes` holds exactly when the substring occurs somewhere |
| MessageInput.SizeCheckedFirst | frontend/src/components/MessageInput.jsx:18-23 | a file over 10 MB is refused whatever its type, and a smaller one never for its size |
| MessageInput.ClassifySpec | frontend/src/components/MessageInput.jsx:27-49 | the intended classifier: image/, video/ and audio/ prefixes decide in that order; then pdf, document, sheet or text make a document; anything else is unsupported; the slow-upload warning comes exactly with a PDF over 5 MB, and the handler never throws |
| MessageInput.ClassifyAsWrittenSpec | frontend/src/components/MessageInput.jsx:41-44 | the handler as written throws exactly where the intended one warns about a PDF over 5 MB, and agrees with it everywhere else |
| MessageInput.HandleFileChangeSpec | frontend/src/components/MessageInput.jsx:13-62 | the handler as written does nothing without a file; with one it decides as the intended classifier does, except that it throws exactly where that one would accept a PDF over 5 MB with a warning |
| MessageInput.SlowPdfAsWritten | frontend/src/components/MessageInput.jsx:42-43 | a 6 MB `application/pdf` file makes the handler as written throw instead of attaching the document |
| MessageInput.TrimSpec | frontend/src/components/MessageInput.jsx:82 | `trim` returns the slice between the leading and trailing whitespace, which neither starts nor ends with whitespace |
| MessageInput.TrimBlank | frontend/src/components/MessageInput.jsx:72 | the trimmed text is empty exactly when the text is all whitespace |
| MessageInput.TrimIdempotent | frontend/src/components/MessageInput.jsx:82 | trimming twice is trimming once |
| MessageInput.HandleSendMessageSpec | frontend/src/components/MessageInput.jsx:70-96 | nothing is sent exactly for all-whitespace text without an attachment; otherwise the trimmed text and the attachment's URL, kind and name |
| MessageReactions.UserReaction | frontend/src/components/MessageReactions.jsx:19 | the user's reaction is the first reaction by that user, raw or populated, and is absent exactly when there is none |
| MessageReactions.GroupByEmojiSpec | frontend/src/components/MessageReactions.jsx:10-16 | the grouped object has exactly the emojis that occur as keys, ordered by first occurrence, each holding exactly the reactions with that emoji in order |
| MessageReactions.GroupSizesSum | frontend/src/components/MessageReactions.jsx:10-16 | the group sizes add up to the number of reactions |
| MessageReactions.ChipCounts | frontend/src/components/MessageReactions.jsx:40 | each chip shows the number of reactions with its emoji |
| MessageReactions.RenderSpec | frontend/src/components/MessageReactions.jsx:7-40 | nothing renders for absent or empty reactions; otherwise one chip per emoji in first-occurrence order, counts summing to the number of reactions, and exactly one chip highlighted when the user has reacted |
| MessageReactions.ClickSpec | frontend/src/components/MessageReactions.jsx:31-35 | clicking a chip removes the reaction exactly when it is the user's highlighted chip |

## Left out

- Transport and persistence: socket.io setup, `socket.join`/`socket.leave` membership, Mongoose queries, Cloudinary uploads and the 500 answers of the `catch` blocks. Handlers become functions that return emits and results.
- Schema strict mode: `GroupMessageController.SendGroupMessage` and `MessageController.SendMessage` receive an uploaded image URL that neither schema declares, so nothing of it is stored.
- The `updatedAt` timestamps Mongoose maintains are changed only where a controller sets one explicitly (the group touched by a post).
- WebRTC: simple-peer, `getUserMedia`, the streams themselves and the `answerCall` emit from a peer's signal. Media permission and loading the peer library become boolean inputs.
- The `answerCall` and `callSignal` server handlers: they sit inside comments in backend/src/lib/socket.js and do not exist.
- Encryption, notifications, dates and time formatting, authentication, route wiring and presentation components.
- Handlers the shown controllers do not define (adding and removing reactions, edits, deletes and forwards of direct messages, marking group messages read). Also left out are `getUserGroups`, `getUsersForSidebar`, `getBlockedUsers`, `getUserProfile` and the stores' fetch actions, which only load lists.
- Concurrency and timing: the `setTimeout` in `setSelectedGroup`, and the snapshot of `messages` that `sendMessage` and `sendGroupMessage` read before awaiting the request (the model appends to the current list).
- JavaScript object quirks: integer-like keys enumerate first and prototype keys such as `constructor` read as present. Ids and emojis are treated as ordinary keys.
- Malformed bodies: a null body, or `members`/`memberIds` that are not arrays of ids. Such inputs are either refused or do not arise in the model's types.
- Presence from several devices: one socket per user, as the server keeps it.
- The client's `groupOnlineUsers` listener only logs, so it has no model.
- UserController.BlockUser: requires that the signed-in user's record exists, which the authentication middleware guarantees before the controller runs.
- UserController.BlockUserSpec: requires that the signed-in user's record exists, for the same reason.
- UserController.UnblockUser: requires that the signed-in user's record exists, for the same reason.
- UserController.UnblockUserSpec: requires that the signed-in user's record exists, for the same reason.
- UserController.BlockUnblock: requires that the signed-in user's record exists, for the same reason.
- Sorting.SortBy: MongoDB leaves the order of equal `createdAt` values open. The contract promises nothing about ties, although the model's insertion sort keeps them in storage order.
- MessageInput.HandleSendMessageSpec: the second size check reads `filePreview.size`, which the preview object never has. The check is therefore never taken and is not modelled.
- CallStore.HandleIncomingCallSpec: the listener that calls `handleIncomingCall` is not part of this model.

## Findings

| source | as written | input that shows it | evidently intended | confidence | as-written member | corrected member |
|---|---|---|---|---|---|---|
| frontend/src/store/useGroupStore.js:246-261 | the `groupMessageRead` listener asks whether `readBy` already holds the user with `user._id === userId`, but readers the server stored arrive as raw ids, which have no `_id` | a message whose `readBy` is `["u"]`, as fetched, and a `groupMessageRead` push for user `"u"` give `readBy` equal to `["u", {_id: "u"}]` | record the reader only if not already present, in either form, as the comment at line 250 says | not executed | GroupStore.ReadAsWrittenDuplicates | GroupStore.OnGroupMessageReadSpec |
| frontend/src/components/MessageInput.jsx:42-43 | a PDF-like document over 5 MB calls `toast.warning`, but the react-hot-toast `toast` object has no `warning` method, so the call throws before the `FileReader` starts: nothing is attached and the input is not cleared | a 6 MB file of type `application/pdf` | warn that the upload may be slow and attach the document | not executed; rests on react-hot-toast's published API, which is not part of this model | MessageInput.SlowPdfAsWritten | MessageInput.ClassifySpec |
