/** Sequences of calls on one store, proved from the method contracts alone:
    the send/accept walk-through, a repeated accept, a reject followed by a
    new send, a repeated send, two opposite sends, and two opposite requests
    that both end in a friendship row. */
module Scenarios {
  import opened Models
  import opened Queries
  import opened Views

  /** A sends to B, B accepts: they list each other as friends and B has no
      pending request from A any more. */
  method SendThenAccept(s: Store, a: UserId, b: UserId, toB: Option<string>, toA: Option<string>, now: int)
      returns (sent: Outcome, accepted: Outcome)
    requires s.Valid() && a in s.users && b in s.users && a != b
    requires Present(toB) && Resolve(s.users, toB.value) == One(b)
    requires Present(toA) && Resolve(s.users, toA.value) == One(a)
    requires !HasRequest(s.requests, a, b)
    requires RecentCount(s.requests, a, now - RateWindow) < RateLimit
    modifies s
    ensures s.Valid()
    ensures sent == Ok && accepted == Ok
    ensures b in ListFriends(s.users, s.friendships, a) && a in ListFriends(s.users, s.friendships, b)
    ensures !HasPending(s.requests, a, b)
  {
    sent := s.Send(a, toB, now);
    assert s.requests[s.nextRequestId - 1] == FriendRequest(a, b, now, false);
    accepted := s.Accept(b, toA, now);
    FriendshipIffAccepted(s.users, s.requests, s.friendships, a, b);
    AcceptedRequestMakesFriends(s.users, s.requests, s.friendships, a, b);
  }

  /** Accepting the same request twice: the second call finds nothing. */
  method AcceptTwice(s: Store, caller: UserId, ident: Option<string>, now: int) returns (first: Outcome, second: Outcome)
    requires s.Valid() && caller in s.users
    modifies s
    ensures s.Valid()
    ensures first == Ok ==> second == RequestNotFound
  {
    first := s.Accept(caller, ident, now);
    second := s.Accept(caller, ident, now);
  }

  /** After a reject, the requester may send to the same user again without
      being refused as a duplicate. */
  method RejectThenResend(s: Store, caller: UserId, ident: Option<string>, callerIdent: Option<string>, now: int)
      returns (rejected: Outcome, resent: Outcome)
    requires s.Valid() && caller in s.users
    requires Present(callerIdent) && Resolve(s.users, callerIdent.value) == One(caller)
    modifies s
    ensures s.Valid()
    ensures rejected == Ok ==> resent != Duplicate
  {
    rejected := s.Reject(caller, ident);
    if rejected == Ok {
      var from := Resolve(s.users, ident.value).id;
      resent := s.Send(from, callerIdent, now);
    } else {
      resent := rejected;
    }
  }

  /** Sending twice to the same user: the second send is a duplicate. */
  method SendTwice(s: Store, caller: UserId, ident: Option<string>, now: int, later: int)
      returns (first: Outcome, second: Outcome)
    requires s.Valid() && caller in s.users
    modifies s
    ensures s.Valid()
    ensures first == Ok ==> second == Duplicate
  {
    first := s.Send(caller, ident, now);
    if first == Ok {
      DuplicateBlocksSend(s.users, s.requests, caller, ident, later, s.nextRequestId - 1);
    }
    second := s.Send(caller, ident, later);
  }

  /** A sends to B, then B sends to A: the reverse request is not refused as
      a duplicate, so both succeed. */
  method OppositeSends(s: Store, a: UserId, b: UserId, toA: Option<string>, toB: Option<string>, now: int)
      returns (o1: Outcome, o2: Outcome)
    requires s.Valid() && a in s.users && b in s.users && a != b
    requires Present(toB) && Resolve(s.users, toB.value) == One(b)
    requires Present(toA) && Resolve(s.users, toA.value) == One(a)
    requires !HasRequest(s.requests, a, b) && !HasRequest(s.requests, b, a)
    requires RecentCount(s.requests, a, now - RateWindow) < RateLimit
    requires RecentCount(s.requests, b, now - RateWindow) < RateLimit
    modifies s
    ensures s.Valid()
    ensures o1 == Ok && o2 == Ok
  {
    ghost var r0 := s.requests;
    o1 := s.Send(a, toB, now);
    ghost var k1 := s.nextRequestId - 1;
    ReverseRequestDoesNotBlock(s.users, r0, b, toA, now, k1, FriendRequest(a, b, now, false));
    o2 := s.Send(b, toA, now);
  }

  /** Two opposite pending requests, both accepted: the ordered unique
      constraint lets the friendship rows (A, B) and (B, A) exist side by
      side in a consistent store. */
  lemma BothDirectionsAccepted(users: Users, reqs: Requests, fs: Friendships, k1: nat, k2: nat,
                               key1: nat, key2: nat, now: int)
    requires Consistent(users, reqs, fs)
    requires k1 in reqs && k2 in reqs && !reqs[k1].accepted && !reqs[k2].accepted
    requires reqs[k2].fromUser == reqs[k1].toUser && reqs[k2].toUser == reqs[k1].fromUser
    requires key1 !in fs && key2 !in fs && key1 != key2
    ensures var a, b := reqs[k1].fromUser, reqs[k1].toUser;
            var reqs1 := reqs[k1 := reqs[k1].(accepted := true)];
            var fs1 := fs[key1 := Friendship(a, b, now)];
            var reqs2 := reqs1[k2 := reqs1[k2].(accepted := true)];
            var fs2 := fs1[key2 := Friendship(b, a, now)];
            Consistent(users, reqs2, fs2) && HasFriendship(fs2, a, b) && HasFriendship(fs2, b, a)
  {
    var a, b := reqs[k1].fromUser, reqs[k1].toUser;
    assert k1 != k2 by {
      assert reqs[k1].fromUser != reqs[k1].toUser;
    }
    AcceptKeepsConsistent(users, reqs, fs, k1, key1, now);
    var reqs1 := reqs[k1 := reqs[k1].(accepted := true)];
    var fs1 := fs[key1 := Friendship(a, b, now)];
    assert reqs1[k2] == reqs[k2];
    AcceptKeepsConsistent(users, reqs1, fs1, k2, key2, now);
    var fs2 := fs1[key2 := Friendship(b, a, now)];
    assert fs2[key1] == Friendship(a, b, now);
    assert fs2[key2] == Friendship(b, a, now);
  }
}
