/** The records of the social app and the constraints its tables keep:
    users with unique e-mail addresses, friend requests unique per ordered
    (sender, receiver) pair and never addressed to their sender, friendships
    unique per ordered pair. Each table is a map from primary key to row. */
module Models {

  datatype Option<T> = None | Some(value: T)

  type UserId = nat

  /** A user account; only the fields the friend workflow reads. */
  datatype User = User(email: string, username: string)

  /** A directed proposal; `timestamp` is in seconds. */
  datatype FriendRequest = FriendRequest(fromUser: UserId, toUser: UserId, timestamp: int, accepted: bool)

  /** A friendship, stored as the ordered pair (requester, accepter). */
  datatype Friendship = Friendship(user1: UserId, user2: UserId, created: int)

  type Users = map<UserId, User>
  type Requests = map<nat, FriendRequest>
  type Friendships = map<nat, Friendship>

  /** `email` is declared unique on the custom user model. */
  predicate EmailsUnique(users: Users) {
    forall a, b :: a in users && b in users && a != b ==> users[a].email != users[b].email
  }

  /** `username` is declared unique by the framework's abstract user model. */
  predicate UsernamesUnique(users: Users) {
    forall a, b :: a in users && b in users && a != b ==> users[a].username != users[b].username
  }

  predicate UsersValid(users: Users) {
    EmailsUnique(users) && UsernamesUnique(users)
  }

  predicate HasRequest(reqs: Requests, from: UserId, to: UserId) {
    exists k :: k in reqs && reqs[k].fromUser == from && reqs[k].toUser == to
  }

  predicate HasPending(reqs: Requests, from: UserId, to: UserId) {
    exists k :: k in reqs && reqs[k].fromUser == from && reqs[k].toUser == to && !reqs[k].accepted
  }

  predicate HasAccepted(reqs: Requests, from: UserId, to: UserId) {
    exists k :: k in reqs && reqs[k].fromUser == from && reqs[k].toUser == to && reqs[k].accepted
  }

  predicate HasFriendship(fs: Friendships, u1: UserId, u2: UserId) {
    exists k :: k in fs && fs[k].user1 == u1 && fs[k].user2 == u2
  }

  /** `unique_together = ('from_user', 'to_user')`. */
  predicate RequestPairsUnique(reqs: Requests) {
    forall a, b :: a in reqs && b in reqs && a != b ==>
      reqs[a].fromUser != reqs[b].fromUser || reqs[a].toUser != reqs[b].toUser
  }

  /** What `FriendRequest.save` refuses to store. */
  predicate NoSelfRequests(reqs: Requests) {
    forall k :: k in reqs ==> reqs[k].fromUser != reqs[k].toUser
  }

  /** Both foreign keys of every request name a stored user. */
  predicate RequestsReferToUsers(users: Users, reqs: Requests) {
    forall k :: k in reqs ==> reqs[k].fromUser in users && reqs[k].toUser in users
  }

  /** `unique_together = ('user1', 'user2')`: ordered, so (A, B) and (B, A) may both exist. */
  predicate FriendshipPairsUnique(fs: Friendships) {
    forall a, b :: a in fs && b in fs && a != b ==>
      fs[a].user1 != fs[b].user1 || fs[a].user2 != fs[b].user2
  }

  predicate FriendshipsReferToUsers(users: Users, fs: Friendships) {
    forall k :: k in fs ==> fs[k].user1 in users && fs[k].user2 in users
  }

  /** Every friendship comes from an accepted request of the same direction, and back. */
  predicate FriendshipsMirrorAcceptance(reqs: Requests, fs: Friendships) {
    (forall k :: k in fs ==> HasAccepted(reqs, fs[k].user1, fs[k].user2)) &&
    (forall k :: k in reqs && reqs[k].accepted ==> HasFriendship(fs, reqs[k].fromUser, reqs[k].toUser))
  }

  /** The constraints the workflow keeps on all three tables. */
  predicate Consistent(users: Users, reqs: Requests, fs: Friendships) {
    UsersValid(users) &&
    RequestsReferToUsers(users, reqs) && NoSelfRequests(reqs) && RequestPairsUnique(reqs) &&
    FriendshipsReferToUsers(users, fs) && FriendshipPairsUnique(fs) &&
    FriendshipsMirrorAcceptance(reqs, fs)
  }

  /** The mirror invariant read as an equivalence between the two tables. */
  lemma FriendshipIffAccepted(users: Users, reqs: Requests, fs: Friendships, u1: UserId, u2: UserId)
    requires Consistent(users, reqs, fs)
    ensures HasFriendship(fs, u1, u2) <==> HasAccepted(reqs, u1, u2)
  {
    if HasFriendship(fs, u1, u2) {
      var k :| k in fs && fs[k].user1 == u1 && fs[k].user2 == u2;
      assert HasAccepted(reqs, fs[k].user1, fs[k].user2);
    }
    if HasAccepted(reqs, u1, u2) {
      var k :| k in reqs && reqs[k].fromUser == u1 && reqs[k].toUser == u2 && reqs[k].accepted;
      assert HasFriendship(fs, reqs[k].fromUser, reqs[k].toUser);
    }
  }

  /** No user is ever friends with themself. */
  lemma NoSelfFriendships(users: Users, reqs: Requests, fs: Friendships)
    requires Consistent(users, reqs, fs)
    ensures forall k :: k in fs ==> fs[k].user1 != fs[k].user2
  {
    forall k | k in fs ensures fs[k].user1 != fs[k].user2 {
      var j :| j in reqs && reqs[j].fromUser == fs[k].user1 && reqs[j].toUser == fs[k].user2 && reqs[j].accepted;
    }
  }

  /** A pending row's pair has no friendship yet. */
  lemma PendingPairNotFriends(users: Users, reqs: Requests, fs: Friendships, k: nat)
    requires Consistent(users, reqs, fs)
    requires k in reqs && !reqs[k].accepted
    ensures !HasFriendship(fs, reqs[k].fromUser, reqs[k].toUser)
  {
    forall j | j in fs ensures fs[j].user1 != reqs[k].fromUser || fs[j].user2 != reqs[k].toUser {
      var m :| m in reqs && reqs[m].fromUser == fs[j].user1 && reqs[m].toUser == fs[j].user2 && reqs[m].accepted;
      assert m != k;
    }
  }

  /** A request of a pair not yet stored keeps the pairs unique. */
  lemma InsertRequestKeepsPairsUnique(reqs: Requests, key: nat, r: FriendRequest)
    requires RequestPairsUnique(reqs)
    requires key !in reqs && !HasRequest(reqs, r.fromUser, r.toUser)
    ensures RequestPairsUnique(reqs[key := r])
  {
    var reqs' := reqs[key := r];
    forall a, b | a in reqs' && b in reqs' && a != b
      ensures reqs'[a].fromUser != reqs'[b].fromUser || reqs'[a].toUser != reqs'[b].toUser
    {
      if a == key {
        assert !(reqs[b].fromUser == r.fromUser && reqs[b].toUser == r.toUser);
      } else if b == key {
        assert !(reqs[a].fromUser == r.fromUser && reqs[a].toUser == r.toUser);
      }
    }
  }

  /** Storing a new pending request between two distinct users with no request
      of that ordered pair yet keeps every constraint. */
  lemma InsertPendingKeepsConsistent(users: Users, reqs: Requests, fs: Friendships, key: nat, r: FriendRequest)
    requires Consistent(users, reqs, fs)
    requires key !in reqs
    requires r.fromUser in users && r.toUser in users && r.fromUser != r.toUser
    requires !r.accepted && !HasRequest(reqs, r.fromUser, r.toUser)
    ensures Consistent(users, reqs[key := r], fs)
  {
    var reqs' := reqs[key := r];
    InsertRequestKeepsPairsUnique(reqs, key, r);
    assert FriendshipsMirrorAcceptance(reqs', fs) by {
      forall k | k in fs ensures HasAccepted(reqs', fs[k].user1, fs[k].user2) {
        var j :| j in reqs && reqs[j].fromUser == fs[k].user1 && reqs[j].toUser == fs[k].user2 && reqs[j].accepted;
        assert reqs'[j] == reqs[j];
      }
    }
  }

  /** A friendship of a pair not yet stored keeps the pairs unique. */
  lemma InsertFriendshipKeepsPairsUnique(fs: Friendships, key: nat, f: Friendship)
    requires FriendshipPairsUnique(fs)
    requires key !in fs && !HasFriendship(fs, f.user1, f.user2)
    ensures FriendshipPairsUnique(fs[key := f])
  {
    var fs' := fs[key := f];
    forall a, b | a in fs' && b in fs' && a != b
      ensures fs'[a].user1 != fs'[b].user1 || fs'[a].user2 != fs'[b].user2
    {
      if a == key {
        assert !(fs[b].user1 == f.user1 && fs[b].user2 == f.user2);
      } else if b == key {
        assert !(fs[a].user1 == f.user1 && fs[a].user2 == f.user2);
      }
    }
  }

  /** Accepting a pending row together with inserting its friendship keeps the
      two tables mirroring each other. */
  lemma AcceptKeepsMirror(reqs: Requests, fs: Friendships, k: nat, key: nat, now: int)
    requires FriendshipsMirrorAcceptance(reqs, fs)
    requires k in reqs && !reqs[k].accepted && key !in fs
    ensures FriendshipsMirrorAcceptance(reqs[k := reqs[k].(accepted := true)],
                                        fs[key := Friendship(reqs[k].fromUser, reqs[k].toUser, now)])
  {
    var r := reqs[k];
    var reqs' := reqs[k := r.(accepted := true)];
    var fs' := fs[key := Friendship(r.fromUser, r.toUser, now)];
    forall i | i in fs' ensures HasAccepted(reqs', fs'[i].user1, fs'[i].user2) {
      if i == key {
        assert reqs'[k].fromUser == fs'[i].user1 && reqs'[k].toUser == fs'[i].user2 && reqs'[k].accepted;
      } else {
        var j :| j in reqs && reqs[j].fromUser == fs[i].user1 && reqs[j].toUser == fs[i].user2 && reqs[j].accepted;
        assert reqs'[j] == reqs[j];
      }
    }
    forall i | i in reqs' && reqs'[i].accepted ensures HasFriendship(fs', reqs'[i].fromUser, reqs'[i].toUser) {
      if i == k {
        assert fs'[key].user1 == reqs'[i].fromUser && fs'[key].user2 == reqs'[i].toUser;
      } else {
        var j :| j in fs && fs[j].user1 == reqs[i].fromUser && fs[j].user2 == reqs[i].toUser;
        assert fs'[j] == fs[j];
      }
    }
  }

  /** Flipping a pending row to accepted and adding the friendship of its pair
      keeps every constraint. */
  lemma AcceptKeepsConsistent(users: Users, reqs: Requests, fs: Friendships, k: nat, key: nat, now: int)
    requires Consistent(users, reqs, fs)
    requires k in reqs && !reqs[k].accepted && key !in fs
    ensures Consistent(users, reqs[k := reqs[k].(accepted := true)],
                       fs[key := Friendship(reqs[k].fromUser, reqs[k].toUser, now)])
  {
    var r := reqs[k];
    PendingPairNotFriends(users, reqs, fs, k);
    InsertFriendshipKeepsPairsUnique(fs, key, Friendship(r.fromUser, r.toUser, now));
    AcceptKeepsMirror(reqs, fs, k, key, now);
    var reqs' := reqs[k := r.(accepted := true)];
    assert RequestPairsUnique(reqs') by {
      forall a, b | a in reqs' && b in reqs' && a != b
        ensures reqs'[a].fromUser != reqs'[b].fromUser || reqs'[a].toUser != reqs'[b].toUser
      {
        assert reqs'[a].fromUser == reqs[a].fromUser && reqs'[a].toUser == reqs[a].toUser;
        assert reqs'[b].fromUser == reqs[b].fromUser && reqs'[b].toUser == reqs[b].toUser;
      }
    }
  }

  /** Deleting a pending row keeps every constraint. */
  lemma DeletePendingKeepsConsistent(users: Users, reqs: Requests, fs: Friendships, k: nat)
    requires Consistent(users, reqs, fs)
    requires k in reqs && !reqs[k].accepted
    ensures Consistent(users, reqs - {k}, fs)
  {
    var reqs' := reqs - {k};
    forall i | i in fs ensures HasAccepted(reqs', fs[i].user1, fs[i].user2) {
      var j :| j in reqs && reqs[j].fromUser == fs[i].user1 && reqs[j].toUser == fs[i].user2 && reqs[j].accepted;
      assert j in reqs';
    }
  }
}
