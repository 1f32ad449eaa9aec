/** The client's block list, frontend/src/store/useUserStore.js. Each entry
    is an object carrying `_id`; the model keeps just that id. `ok` says
    whether the server request succeeded. */
module UserStore {
  import opened Base

  /** `blockUser`: on success the id is appended locally. */
  function BlockUser(blocked: seq<UserId>, u: UserId, ok: bool): seq<UserId> {
    if ok then blocked + [u] else blocked
  }

  /** `unblockUser`: on success every entry with that id is dropped. */
  function UnblockUser(blocked: seq<UserId>, u: UserId, ok: bool): seq<UserId> {
    if ok then Pull(blocked, u) else blocked
  }

  /** `isUserBlocked`: `blockedUsers.some(user => user._id === userId)`. */
  method IsUserBlocked(blocked: seq<UserId>, u: UserId) returns (b: bool)
    ensures b <==> u in blocked
    ensures b <==> exists i :: 0 <= i < |blocked| && blocked[i] == u
  {
    b := false;
    var i := 0;
    while i < |blocked|
      invariant 0 <= i <= |blocked|
      invariant !b <==> forall k :: 0 <= k < i ==> blocked[k] != u
      invariant b ==> u in blocked
    {
      if blocked[i] == u {
        b := true;
        return;
      }
      i := i + 1;
    }
  }

  /** After a successful block the user reads as blocked; a failed request
      changes nothing. */
  lemma BlockUserSpec(blocked: seq<UserId>, u: UserId, ok: bool)
    ensures ok ==> u in BlockUser(blocked, u, ok)
    ensures ok ==> forall x :: x in blocked ==> x in BlockUser(blocked, u, ok)
    ensures !ok ==> BlockUser(blocked, u, ok) == blocked
  {
  }

  /** After a successful unblock the user no longer reads as blocked and
      every other id keeps its status; a failed request changes nothing. */
  lemma UnblockUserSpec(blocked: seq<UserId>, u: UserId, ok: bool)
    ensures ok ==> u !in UnblockUser(blocked, u, ok)
    ensures ok ==> forall x :: x != u ==> (x in UnblockUser(blocked, u, ok) <==> x in blocked)
    ensures !ok ==> UnblockUser(blocked, u, ok) == blocked
  {
  }

  /** Blocking a user who was not blocked and then unblocking them restores
      the list exactly. */
  lemma BlockThenUnblock(blocked: seq<UserId>, u: UserId)
    requires u !in blocked
    ensures UnblockUser(BlockUser(blocked, u, true), u, true) == blocked
  {
    PullAppend(blocked, [u], u);
    PullAbsent(blocked, u);
    assert Pull([u], u) == [];
  }
}
