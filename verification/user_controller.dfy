/** The block-list endpoints of backend/src/controllers/userController.js.
    The authenticated caller always has a user record (the route guard loads
    it), so it is a precondition rather than an error. */
module UserController {
  import opened Base
  import opened Wire

  /** The `User` collection as blocking sees it: each user's `blockedUsers`. */
  type Users = map<UserId, seq<UserId>>

  /** `blockUser`: not oneself, the target must exist, and it must not be
      blocked already; then it is added with `$addToSet`. */
  function BlockUser(users: Users, current: UserId, target: UserId): Response<Users, ()>
    requires current in users
  {
    if target == current then Reject(users, CannotBlockSelf)
    else if target !in users then Reject(users, UserNotFound)
    else if target in users[current] then Reject(users, AlreadyBlocked)
    else Response(users[current := users[current] + [target]], Ok(()), [])
  }

  /** `unblockUser`: the target must exist; it is then `$pull`ed, which is a
      no-op when it was not blocked. */
  function UnblockUser(users: Users, current: UserId, target: UserId): Response<Users, ()>
    requires current in users
  {
    if target !in users then Reject(users, UserNotFound)
    else Response(users[current := Pull(users[current], target)], Ok(()), [])
  }

  /** Blocking: self-blocks, unknown targets and repeated blocks are refused
      in that order and change nothing; a success puts the target in the
      caller's list exactly once, keeps every other entry and every other
      user's list. */
  lemma BlockUserSpec(users: Users, current: UserId, target: UserId)
    requires current in users
    ensures var r := BlockUser(users, current, target);
      && (r.result == Err(CannotBlockSelf) <==> target == current)
      && (r.result == Err(UserNotFound) <==> target != current && target !in users)
      && (r.result == Err(AlreadyBlocked) <==> target != current && target in users && target in users[current])
      && (r.result.Err? ==> r.state == users)
      && (r.result.Ok? ==>
            && r.state.Keys == users.Keys
            && multiset(r.state[current])[target] == 1
            && (forall u :: u != target ==> multiset(r.state[current])[u] == multiset(users[current])[u])
            && (forall u :: u in users && u != current ==> r.state[u] == users[u])
            && (Distinct(users[current]) ==> Distinct(r.state[current])))
  {
    var r := BlockUser(users, current, target);
    if r.result.Ok? {
      assert target !in multiset(users[current]);
    }
  }

  /** Unblocking: an unknown target is refused and changes nothing; a success
      removes every occurrence of the target from the caller's list, keeps
      every other entry and every other user's list, and is a no-op when the
      target was not blocked. */
  lemma UnblockUserSpec(users: Users, current: UserId, target: UserId)
    requires current in users
    ensures var r := UnblockUser(users, current, target);
      && (r.result == Err(UserNotFound) <==> target !in users)
      && (r.result.Err? ==> r.state == users)
      && (r.result.Ok? ==>
            && r.state.Keys == users.Keys
            && target !in r.state[current]
            && (forall u :: u != target ==> (u in r.state[current] <==> u in users[current]))
            && (forall u :: u in users && u != current ==> r.state[u] == users[u])
            && (target !in users[current] ==> r.state == users))
  {
    var r := UnblockUser(users, current, target);
    if r.result.Ok? && target !in users[current] {
      PullAbsent(users[current], target);
      assert r.state == users;
    }
  }

  /** Block then unblock of a target that was not blocked restores the
      caller's list. */
  lemma BlockUnblock(users: Users, current: UserId, target: UserId)
    requires current in users
    requires BlockUser(users, current, target).result.Ok?
    ensures UnblockUser(BlockUser(users, current, target).state, current, target).state == users
  {
    var blocked := BlockUser(users, current, target).state;
    var l := users[current];
    assert target !in l;
    PullAbsent(l, target);
    PullAppend(l, [target], target);
    assert Pull([target], target) == [];
    assert blocked[current] == l + [target];
    assert Pull(blocked[current], target) == l;
    assert blocked[current := l] == users;
  }
}
