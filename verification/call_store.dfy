/** The client's call flags, frontend/src/store/useCallStore.js. Media
    streams and the peer connection are reduced to whether they are held;
    what the browser does (camera access, loading simple-peer) arrives as a
    boolean outcome. */
module CallStore {
  import opened Base
  import opened Wire

  /** The remote party as the store keeps it: `_id` may be missing. */
  datatype Contact = Contact(id: Option<UserId>)

  datatype CallState = CallState(
    isCallActive: bool,
    isIncomingCall: bool,
    isOutgoingCall: bool,
    callType: Option<string>,
    remoteUser: Option<Contact>,
    localStream: bool,
    remoteStream: bool,
    callAccepted: bool,
    callEnded: bool,
    peer: bool)

  /** The store's socket: absent, or present and connected or not. */
  datatype SocketLink = NoSocket | Link(connected: bool)

  /** `socket?.connected`. */
  predicate Connected(s: SocketLink) {
    s.Link? && s.connected
  }

  /** The store as created. */
  const Initial := CallState(false, false, false, None, None, false, false, false, false, false)

  /** The state `endCall` leaves: everything cleared, `callEnded` set. */
  const Ended := Initial.(callEnded := true)

  /** An action's outcome; `thrown` means it re-threw to the caller. */
  datatype CallStep = CallStep(state: CallState, effects: seq<ClientEffect>, thrown: bool)

  /** The flags agree with one another: a call in any phase, a remote party or
      a local stream means a call is active, and an active call has not
      ended. */
  predicate Consistent(st: CallState) {
    && ((st.isIncomingCall || st.isOutgoingCall || st.callAccepted || st.remoteUser.Some? || st.localStream || st.peer)
        ==> st.isCallActive)
    && (st.isCallActive ==> !st.callEnded)
  }

  /** The id sent as `to`: `remoteUser._id`, possibly undefined. */
  function RemoteId(st: CallState): Option<UserId>
    requires st.remoteUser.Some?
  {
    st.remoteUser.value.id
  }

  /** `endCall`: tell the remote party when there is one and the socket is
      connected; release media and peer; reset. */
  function EndCall(st: CallState, sock: SocketLink, authId: UserId): CallStep {
    CallStep(Ended,
             if st.remoteUser.Some? && Connected(sock) then [SocketEmit(EndCallEv(authId, RemoteId(st)))] else [],
             false)
  }

  /** `initiateCall`: needs a connected socket, a user with an id and the
      media grant; any failure ends the call and re-throws. */
  function InitiateCall(st: CallState, sock: SocketLink, authId: UserId, authName: string,
                        user: Option<Contact>, callType: string, mediaGranted: bool): CallStep
  {
    if !Connected(sock) || user.None? || !Truthy(user.value.id) || !mediaGranted then
      EndCall(st, sock, authId).(thrown := true)
    else
      CallStep(st.(isCallActive := true, isOutgoingCall := true, callType := Some(callType), remoteUser := user,
                   localStream := true, callAccepted := false, callEnded := false),
               [SocketEmit(CallUser(user.value.id.value, authId, authName, callType))],
               false)
  }

  /** `handleIncomingCall`: ring. */
  function HandleIncomingCall(st: CallState, from: Contact, callType: string): CallState {
    st.(isCallActive := true, isIncomingCall := true, callType := Some(callType), remoteUser := Some(from),
        callAccepted := false, callEnded := false)
  }

  /** `acceptCall`: needs a connected socket, a remote party, the media grant
      and the peer library; any failure ends the call and re-throws. */
  function AcceptCall(st: CallState, sock: SocketLink, authId: UserId, mediaGranted: bool, peerLoaded: bool): CallStep {
    if !Connected(sock) || st.remoteUser.None? || !mediaGranted || !peerLoaded then
      EndCall(st, sock, authId).(thrown := true)
    else
      CallStep(st.(peer := true, localStream := true, callAccepted := true, isIncomingCall := false), [], false)
  }

  /** `handleCallAccepted`: needs a connected socket, a local stream, a
      truthy signal and the peer library; a failure ends the call without
      re-throwing. */
  function HandleCallAccepted(st: CallState, sock: SocketLink, authId: UserId, signal: Option<string>, peerLoaded: bool): CallStep {
    if !Connected(sock) || !st.localStream || !Truthy(signal) || !peerLoaded then
      EndCall(st, sock, authId)
    else
      CallStep(st.(peer := true, callAccepted := true, isOutgoingCall := false), [], false)
  }

  /** `rejectCall`: `socket.emit` on a missing socket, or `remoteUser._id` on
      a missing remote party, throws before anything happens; otherwise
      `rejectCall` is emitted and the call ended. */
  function RejectCall(st: CallState, sock: SocketLink, authId: UserId): CallStep {
    if sock.NoSocket? || st.remoteUser.None? then CallStep(st, [], true)
    else
      var e := EndCall(st, sock, authId);
      CallStep(e.state, [SocketEmit(RejectCallEv(authId, RemoteId(st)))] + e.effects, false)
  }

  // ---------------------------------------------------------------------
  // Properties
  // ---------------------------------------------------------------------

  /** Ending clears every flag and field and sets `callEnded`, whatever the
      state; it notifies the remote party exactly when there is one and the
      socket is connected; ending twice is ending once, and the second time
      sends nothing. */
  lemma EndCallSpec(st: CallState, sock: SocketLink, authId: UserId)
    ensures var r := EndCall(st, sock, authId);
      && !r.state.isCallActive && !r.state.isIncomingCall && !r.state.isOutgoingCall
      && r.state.callType.None? && r.state.remoteUser.None?
      && !r.state.localStream && !r.state.remoteStream && !r.state.peer
      && !r.state.callAccepted && r.state.callEnded
      && !r.thrown
      && (r.effects != [] <==> st.remoteUser.Some? && Connected(sock))
      && (r.effects != [] ==> r.effects == [SocketEmit(EndCallEv(authId, st.remoteUser.value.id))])
      && EndCall(r.state, sock, authId) == CallStep(r.state, [], false)
      && Consistent(r.state)
  {
  }

  /** Calling out fails exactly without a connected socket, a callee id or
      media, and then ends in the reset state and re-throws; a successful call
      is active and outgoing, not accepted and not ended, and sends one
      `callUser` to the callee. */
  lemma InitiateCallSpec(st: CallState, sock: SocketLink, authId: UserId, authName: string,
                         user: Option<Contact>, callType: string, mediaGranted: bool)
    ensures var r := InitiateCall(st, sock, authId, authName, user, callType, mediaGranted);
      && (r.thrown <==> !Connected(sock) || user.None? || !Truthy(user.value.id) || !mediaGranted)
      && (r.thrown ==> r.state == Ended)
      && (!r.thrown ==>
            && r.state.isCallActive && r.state.isOutgoingCall
            && !r.state.callAccepted && !r.state.callEnded
            && r.state.remoteUser == user && r.state.callType == Some(callType) && r.state.localStream
            && r.state.isIncomingCall == st.isIncomingCall
            && r.effects == [SocketEmit(CallUser(user.value.id.value, authId, authName, callType))])
      && (Consistent(st) ==> Consistent(r.state))
  {
  }

  /** Ringing makes the call active and incoming, not accepted, with the
      caller as the remote party. */
  lemma HandleIncomingCallSpec(st: CallState, from: Contact, callType: string)
    ensures var r := HandleIncomingCall(st, from, callType);
      && r.isCallActive && r.isIncomingCall && !r.callAccepted && !r.callEnded
      && r.remoteUser == Some(from) && r.callType == Some(callType)
      && r.isOutgoingCall == st.isOutgoingCall && r.localStream == st.localStream
      && (Consistent(st) ==> Consistent(r))
  {
  }

  /** Accepting fails exactly without a connected socket, a remote party,
      media or the peer library, ending the call and re-throwing; success
      marks the call accepted and no longer incoming, holding a stream and a
      peer. */
  lemma AcceptCallSpec(st: CallState, sock: SocketLink, authId: UserId, mediaGranted: bool, peerLoaded: bool)
    ensures var r := AcceptCall(st, sock, authId, mediaGranted, peerLoaded);
      && (r.thrown <==> !Connected(sock) || st.remoteUser.None? || !mediaGranted || !peerLoaded)
      && (r.thrown ==> r.state == Ended)
      && (!r.thrown ==>
            && r.state.callAccepted && !r.state.isIncomingCall && r.state.localStream && r.state.peer
            && r.state.remoteUser == st.remoteUser && r.state.isOutgoingCall == st.isOutgoingCall
            && r.effects == [])
      && (Consistent(st) ==> Consistent(r.state))
  {
  }

  /** The caller's side of acceptance: any missing precondition ends the call
      without re-throwing; success marks the call accepted and no longer
      outgoing. */
  lemma HandleCallAcceptedSpec(st: CallState, sock: SocketLink, authId: UserId, signal: Option<string>, peerLoaded: bool)
    ensures var r := HandleCallAccepted(st, sock, authId, signal, peerLoaded);
      && !r.thrown
      && (r.state == Ended <==> !Connected(sock) || !st.localStream || !Truthy(signal) || !peerLoaded)
      && (r.state != Ended ==>
            && r.state.callAccepted && !r.state.isOutgoingCall && r.state.peer
            && r.state.remoteUser == st.remoteUser && r.state.isIncomingCall == st.isIncomingCall
            && r.effects == [])
      && (Consistent(st) ==> Consistent(r.state))
  {
  }

  /** Rejecting with a socket and a remote party sends `rejectCall` to that
      party first and then does exactly what ending does; without either it
      throws and nothing changes. */
  lemma RejectCallSpec(st: CallState, sock: SocketLink, authId: UserId)
    ensures var r := RejectCall(st, sock, authId);
      && (r.thrown <==> sock.NoSocket? || st.remoteUser.None?)
      && (r.thrown ==> r.state == st && r.effects == [])
      && (!r.thrown ==>
            && r.state == Ended
            && |r.effects| >= 1
            && r.effects[0] == SocketEmit(RejectCallEv(authId, st.remoteUser.value.id))
            && r.effects[1..] == EndCall(st, sock, authId).effects)
      && (Consistent(st) ==> Consistent(r.state))
  {
  }
}
