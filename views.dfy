/** The friend-request endpoints: send, accept and reject, written as methods
    of a store that holds the user, request and friendship tables, together
    with the outcome each one reports, in the order the views check. */
module Views {
  import opened Models
  import opened Queries
  import opened Text

  /** Every way a call can end. The error cases leave the tables as they were. */
  datatype Outcome =
    | Ok
    | MissingField      // `email_or_username` absent or empty
    | UserNotFound      // no user has that e-mail or username
    | AmbiguousUser     // one user's e-mail is another's username
    | Duplicate         // a request (or friendship) of the same ordered pair exists
    | RateLimited       // three or more sends in the trailing minute
    | SelfRequest       // `FriendRequest.save` refuses a request to oneself
    | RequestNotFound   // no pending request from that user to the caller

  /** `timedelta(minutes=1)`, in seconds, and the sends it allows. */
  const RateWindow: int := 60
  const RateLimit: nat := 3

  /** What `FriendRequestView.create` reports: the field check, the user
      lookup, the same-direction duplicate check, the rate limit, and last the
      self-request check inside `save`. */
  function SendOutcome(users: Users, reqs: Requests, caller: UserId, ident: Option<string>, now: int): Outcome {
    if !Present(ident) then MissingField
    else match Resolve(users, ident.value)
      case NoMatch => UserNotFound
      case Several => AmbiguousUser
      case One(to) =>
        if HasRequest(reqs, caller, to) then Duplicate
        else if RecentCount(reqs, caller, now - RateWindow) >= RateLimit then RateLimited
        else if to == caller then SelfRequest
        else Ok
  }

  /** What accept and reject report: both resolve the sender and then look up
      the pending request from that sender to the caller. */
  function PendingOutcome(users: Users, reqs: Requests, caller: UserId, ident: Option<string>): Outcome {
    if !Present(ident) then MissingField
    else match Resolve(users, ident.value)
      case NoMatch => UserNotFound
      case Several => AmbiguousUser
      case One(from) => if HasPending(reqs, from, caller) then Ok else RequestNotFound
  }

  /** The unique constraint on (from_user, to_user) would be broken by writing
      this pair: some other row already holds it. */
  predicate PairTaken(reqs: Requests, pk: Option<nat>, from: UserId, to: UserId) {
    exists j :: j in reqs && (pk.None? || j != pk.value) && reqs[j].fromUser == from && reqs[j].toUser == to
  }

  /** A request of the same ordered pair blocks a send whether it is pending or
      accepted, and before the rate limit is looked at. */
  lemma DuplicateBlocksSend(users: Users, reqs: Requests, caller: UserId, ident: Option<string>, now: int, k: nat)
    requires Present(ident) && k in reqs && reqs[k].fromUser == caller
    requires Resolve(users, ident.value) == One(reqs[k].toUser)
    ensures SendOutcome(users, reqs, caller, ident, now) == Duplicate
  {
  }

  /** A request in the other direction, or any row sent by someone else,
      changes nothing about what a send reports. */
  lemma ReverseRequestDoesNotBlock(users: Users, reqs: Requests, caller: UserId, ident: Option<string>, now: int,
                                   key: nat, r: FriendRequest)
    requires key !in reqs && r.fromUser != caller
    ensures SendOutcome(users, reqs[key := r], caller, ident, now) == SendOutcome(users, reqs, caller, ident, now)
  {
    RecentCountIgnoresOthers(reqs, caller, now - RateWindow, key, r);
    forall to ensures HasRequest(reqs[key := r], caller, to) == HasRequest(reqs, caller, to) {
      if HasRequest(reqs, caller, to) {
        var j :| j in reqs && reqs[j].fromUser == caller && reqs[j].toUser == to;
        assert reqs[key := r][j] == reqs[j];
      }
    }
  }

  /** A request to oneself that is also over the limit reports RateLimited:
      the self check comes last. */
  lemma RateLimitedBeforeSelfRequest(users: Users, reqs: Requests, caller: UserId, ident: Option<string>, now: int)
    requires NoSelfRequests(reqs)
    requires Present(ident) && Resolve(users, ident.value) == One(caller)
    requires RecentCount(reqs, caller, now - RateWindow) >= RateLimit
    ensures SendOutcome(users, reqs, caller, ident, now) == RateLimited
  {
  }

  /** Three rows of the caller stamped within the last minute stop every
      further send until the window has passed; once the lookup finds a user
      and no request of that direction exists, the send reports the rate
      limit. */
  lemma ThreeRecentSendsBlock(users: Users, reqs: Requests, caller: UserId, ident: Option<string>, now: int,
                              a: nat, b: nat, c: nat)
    requires a != b && b != c && a != c
    requires {a, b, c} <= RecentIds(reqs, caller, now - RateWindow)
    ensures SendOutcome(users, reqs, caller, ident, now) != Ok
    ensures Present(ident) && Resolve(users, ident.value).One? &&
            !HasRequest(reqs, caller, Resolve(users, ident.value).id) ==>
              SendOutcome(users, reqs, caller, ident, now) == RateLimited
  {
    assert |{a, b, c}| == 3;
    SubsetCard({a, b, c}, RecentIds(reqs, caller, now - RateWindow));
  }

  /** Once every row of the caller is older than the window, the rate limit no
      longer applies. */
  lemma WindowElapsedLiftsLimit(users: Users, reqs: Requests, caller: UserId, ident: Option<string>, now: int)
    requires forall k :: k in reqs && reqs[k].fromUser == caller ==> reqs[k].timestamp < now - RateWindow
    ensures SendOutcome(users, reqs, caller, ident, now) != RateLimited
  {
    RecentCountZero(reqs, caller, now - RateWindow);
  }

  /** Flipping a row to accepted leaves no pending row of its pair. */
  lemma FlipClearsPending(reqs: Requests, k: nat)
    requires RequestPairsUnique(reqs) && k in reqs
    ensures !HasPending(reqs[k := reqs[k].(accepted := true)], reqs[k].fromUser, reqs[k].toUser)
  {
    var reqs' := reqs[k := reqs[k].(accepted := true)];
    forall j | j in reqs'
      ensures !(reqs'[j].fromUser == reqs[k].fromUser && reqs'[j].toUser == reqs[k].toUser && !reqs'[j].accepted)
    {
      if j != k {
        assert reqs'[j] == reqs[j];
      }
    }
  }

  /** Rewriting a row keeps its own pair free of clashes. */
  lemma OwnPairFree(reqs: Requests, k: nat)
    requires RequestPairsUnique(reqs) && k in reqs
    ensures !PairTaken(reqs, Some(k), reqs[k].fromUser, reqs[k].toUser)
  {
  }

  /** After the pending row is flipped, the same accept finds nothing. */
  lemma SecondAcceptFails(users: Users, reqs: Requests, caller: UserId, ident: Option<string>, k: nat)
    requires RequestPairsUnique(reqs)
    requires Present(ident) && Resolve(users, ident.value).One?
    requires k in reqs && reqs[k].fromUser == Resolve(users, ident.value).id && reqs[k].toUser == caller
    ensures PendingOutcome(users, reqs[k := reqs[k].(accepted := true)], caller, ident) == RequestNotFound
  {
    FlipClearsPending(reqs, k);
  }

  /** Deleting a row leaves no row of its pair. */
  lemma DeleteClearsPair(reqs: Requests, k: nat)
    requires RequestPairsUnique(reqs) && k in reqs
    ensures !HasRequest(reqs - {k}, reqs[k].fromUser, reqs[k].toUser)
  {
    forall j | j in reqs - {k} ensures reqs[j].fromUser != reqs[k].fromUser || reqs[j].toUser != reqs[k].toUser {
      assert j != k;
    }
  }

  /** After the pending row is deleted, a new send of that ordered pair is not
      refused as a duplicate. */
  lemma ResendAfterReject(users: Users, reqs: Requests, k: nat, ident: Option<string>, now: int)
    requires RequestPairsUnique(reqs) && k in reqs
    requires Present(ident) && Resolve(users, ident.value) == One(reqs[k].toUser)
    ensures SendOutcome(users, reqs - {k}, reqs[k].fromUser, ident, now) != Duplicate
  {
    DeleteClearsPair(reqs, k);
  }

  /** The three tables and their primary-key counters. */
  class Store {
    var users: Users
    var requests: Requests
    var friendships: Friendships
    var nextRequestId: nat
    var nextFriendshipId: nat

    /** The table constraints hold, and the counters are past every used key. */
    ghost predicate Valid()
      reads this
    {
      Consistent(users, requests, friendships) &&
      (forall k :: k in requests ==> k < nextRequestId) &&
      (forall k :: k in friendships ==> k < nextFriendshipId)
    }

    /** A store over registered accounts, with no requests or friendships yet. */
    constructor (accounts: Users)
      requires UsersValid(accounts)
      ensures Valid()
      ensures users == accounts && requests == map[] && friendships == map[]
    {
      users := accounts;
      requests := map[];
      friendships := map[];
      nextRequestId := 0;
      nextFriendshipId := 0;
    }

    /** `FriendRequest.save`: refuses a request to oneself, then writes the row
        (a new one when `pk` is None, stamped with the current time; row `pk`
        otherwise) unless the unique constraint on the pair forbids it. */
    method SaveRequest(pk: Option<nat>, r: FriendRequest, now: int) returns (outcome: Outcome)
      modifies this
      ensures outcome == Ok || outcome == SelfRequest || outcome == Duplicate
      ensures outcome == SelfRequest <==> r.fromUser == r.toUser
      ensures outcome == Duplicate <==> r.fromUser != r.toUser && PairTaken(old(requests), pk, r.fromUser, r.toUser)
      ensures outcome == Ok && pk.None? ==>
                requests == old(requests)[old(nextRequestId) := r.(timestamp := now)] &&
                nextRequestId == old(nextRequestId) + 1
      ensures outcome == Ok && pk.Some? ==>
                requests == old(requests)[pk.value := r] && nextRequestId == old(nextRequestId)
      ensures outcome != Ok ==> requests == old(requests) && nextRequestId == old(nextRequestId)
      ensures users == old(users) && friendships == old(friendships) && nextFriendshipId == old(nextFriendshipId)
    {
      if r.fromUser == r.toUser {
        return SelfRequest;
      }
      if PairTaken(requests, pk, r.fromUser, r.toUser) {
        return Duplicate;
      }
      match pk {
        case None =>
          requests := requests[nextRequestId := r.(timestamp := now)];
          nextRequestId := nextRequestId + 1;
        case Some(k) =>
          requests := requests[k := r];
      }
      outcome := Ok;
    }

    /** `Friendship.save`: a new row unless the ordered pair is already stored. */
    method SaveFriendship(f: Friendship) returns (outcome: Outcome)
      modifies this
      ensures outcome == Ok || outcome == Duplicate
      ensures outcome == Duplicate <==> HasFriendship(old(friendships), f.user1, f.user2)
      ensures outcome == Ok ==>
                friendships == old(friendships)[old(nextFriendshipId) := f] &&
                nextFriendshipId == old(nextFriendshipId) + 1
      ensures outcome != Ok ==> friendships == old(friendships) && nextFriendshipId == old(nextFriendshipId)
      ensures users == old(users) && requests == old(requests) && nextRequestId == old(nextRequestId)
    {
      if HasFriendship(friendships, f.user1, f.user2) {
        return Duplicate;
      }
      friendships := friendships[nextFriendshipId := f];
      nextFriendshipId := nextFriendshipId + 1;
      outcome := Ok;
    }

    /** `FriendRequestView.create`: on success exactly one new pending row from
        the caller to the resolved user, stamped `now`; nothing else changes. */
    method Send(caller: UserId, ident: Option<string>, now: int) returns (outcome: Outcome)
      requires Valid() && caller in users
      modifies this
      ensures Valid()
      ensures outcome == SendOutcome(old(users), old(requests), caller, ident, now)
      ensures users == old(users) && friendships == old(friendships) && nextFriendshipId == old(nextFriendshipId)
      ensures outcome == Ok ==>
                requests == old(requests)[old(nextRequestId) := FriendRequest(caller, Resolve(old(users), ident.value).id, now, false)] &&
                nextRequestId == old(nextRequestId) + 1
      ensures outcome != Ok ==> requests == old(requests) && nextRequestId == old(nextRequestId)
    {
      if !Present(ident) {
        return MissingField;
      }
      var found := Resolve(users, ident.value);
      if found.NoMatch? {
        return UserNotFound;
      }
      if found.Several? {
        return AmbiguousUser;
      }
      var to := found.id;
      if HasRequest(requests, caller, to) {
        return Duplicate;
      }
      if RecentCount(requests, caller, now - RateWindow) >= RateLimit {
        return RateLimited;
      }
      var row := FriendRequest(caller, to, now, false);
      ghost var before := requests;
      outcome := SaveRequest(None, row, now);
      if outcome == Ok {
        InsertPendingKeepsConsistent(users, before, friendships, old(nextRequestId), row);
      }
    }

    /** `AcceptFriendRequestView.update`: flips the pending row from the
        resolved user to the caller and then, as a second write, stores the
        friendship (requester, caller). Nothing else changes. */
    method Accept(caller: UserId, ident: Option<string>, now: int) returns (outcome: Outcome)
      requires Valid() && caller in users
      modifies this
      ensures Valid()
      ensures outcome == PendingOutcome(old(users), old(requests), caller, ident)
      ensures users == old(users) && nextRequestId == old(nextRequestId)
      ensures outcome != Ok ==>
                requests == old(requests) && friendships == old(friendships) &&
                nextFriendshipId == old(nextFriendshipId)
      ensures outcome == Ok ==>
                var from := Resolve(old(users), ident.value).id;
                (exists k :: k in old(requests) && old(requests)[k] == FriendRequest(from, caller, old(requests)[k].timestamp, false) &&
                             requests == old(requests)[k := old(requests)[k].(accepted := true)]) &&
                friendships == old(friendships)[old(nextFriendshipId) := Friendship(from, caller, now)] &&
                nextFriendshipId == old(nextFriendshipId) + 1
      ensures outcome == Ok ==>
                var from := Resolve(old(users), ident.value).id;
                !HasPending(requests, from, caller) && HasFriendship(friendships, from, caller)
    {
      if !Present(ident) {
        return MissingField;
      }
      var found := Resolve(users, ident.value);
      if found.NoMatch? {
        return UserNotFound;
      }
      if found.Several? {
        return AmbiguousUser;
      }
      var from := found.id;
      if !HasPending(requests, from, caller) {
        return RequestNotFound;
      }
      var k :| k in requests && requests[k].fromUser == from && requests[k].toUser == caller && !requests[k].accepted;
      AcceptRow(k, now);
      outcome := Ok;
    }

    /** The two writes of an accept, made one after the other with no
        transaction: the row is saved as accepted, then the friendship of its
        pair is saved. Between the two, the request table already shows an
        acceptance that the friendship table does not. */
    method AcceptRow(k: nat, now: int)
      requires Valid() && k in requests && !requests[k].accepted
      modifies this
      ensures Valid()
      ensures users == old(users) && nextRequestId == old(nextRequestId)
      ensures requests == old(requests)[k := old(requests)[k].(accepted := true)]
      ensures friendships == old(friendships)[old(nextFriendshipId) := Friendship(old(requests)[k].fromUser, old(requests)[k].toUser, now)]
      ensures nextFriendshipId == old(nextFriendshipId) + 1
      ensures !HasPending(requests, old(requests)[k].fromUser, old(requests)[k].toUser)
      ensures HasFriendship(friendships, old(requests)[k].fromUser, old(requests)[k].toUser)
    {
      ghost var reqs0, fs0, key := requests, friendships, nextFriendshipId;
      var row := requests[k];
      OwnPairFree(requests, k);
      var saved := SaveRequest(Some(k), row.(accepted := true), now);
      assert saved == Ok;
      PendingPairNotFriends(users, reqs0, fs0, k);
      var made := SaveFriendship(Friendship(row.fromUser, row.toUser, now));
      assert made == Ok;
      AcceptKeepsConsistent(users, reqs0, fs0, k, key, now);
      FlipClearsPending(reqs0, k);
      assert friendships[key] == Friendship(row.fromUser, row.toUser, now);
    }

    /** `RejectFriendRequestView.delete`: deletes the pending row from the
        resolved user to the caller; accepted rows and friendships stay. */
    method Reject(caller: UserId, ident: Option<string>) returns (outcome: Outcome)
      requires Valid() && caller in users
      modifies this
      ensures Valid()
      ensures outcome == PendingOutcome(old(users), old(requests), caller, ident)
      ensures users == old(users) && friendships == old(friendships)
      ensures nextRequestId == old(nextRequestId) && nextFriendshipId == old(nextFriendshipId)
      ensures outcome != Ok ==> requests == old(requests)
      ensures outcome == Ok ==>
                var from := Resolve(old(users), ident.value).id;
                exists k :: k in old(requests) && old(requests)[k] == FriendRequest(from, caller, old(requests)[k].timestamp, false) &&
                            requests == old(requests) - {k}
      ensures outcome == Ok ==> !HasRequest(requests, Resolve(old(users), ident.value).id, caller)
    {
      if !Present(ident) {
        return MissingField;
      }
      var found := Resolve(users, ident.value);
      if found.NoMatch? {
        return UserNotFound;
      }
      if found.Several? {
        return AmbiguousUser;
      }
      var from := found.id;
      if !HasPending(requests, from, caller) {
        return RequestNotFound;
      }
      var k :| k in requests && requests[k].fromUser == from && requests[k].toUser == caller && !requests[k].accepted;
      // The receiver comparison made before deleting always holds: the lookup
      // already required the caller as receiver.
      assert requests[k].toUser == caller;
      DeleteClearsPair(requests, k);
      DeletePendingKeepsConsistent(users, requests, friendships, k);
      requests := requests - {k};
      outcome := Ok;
    }
  }
}
