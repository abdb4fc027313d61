/** The read-only side of the views: resolving an `email_or_username` field to
    one user, the user search, the friend list, the pending-request list and
    the count behind the send rate limit. All are functions of the tables. */
module Queries {
  import opened Models
  import opened Text

  /** `if not email_or_username`: an absent or empty field is missing. */
  predicate Present(field: Option<string>) {
    field.Some? && field.value != ""
  }

  /** `Q(email=key) | Q(username=key)`: an exact match on either field. */
  predicate MatchesKey(u: User, key: string) {
    u.email == key || u.username == key
  }

  /** The outcome of `User.objects.get` on that filter. */
  datatype Lookup = NoMatch | One(id: UserId) | Several

  function Resolve(users: Users, key: string): (r: Lookup)
    ensures r == NoMatch <==> forall id :: id in users ==> !MatchesKey(users[id], key)
    ensures r.One? ==> r.id in users && MatchesKey(users[r.id], key) &&
                       forall id :: id in users && id != r.id ==> !MatchesKey(users[id], key)
    ensures r == Several <==>
              exists a, b :: a in users && b in users && a != b && MatchesKey(users[a], key) && MatchesKey(users[b], key)
  {
    var hits := set id | id in users && MatchesKey(users[id], key);
    assert forall id :: id in users && MatchesKey(users[id], key) ==> id in hits;
    if |hits| == 0 then
      assert hits == {};
      NoMatch
    else if |hits| == 1 then
      OnlyElement(hits);
      var id :| id in hits;
      One(id)
    else
      TwoMembers(hits);
      Several
  }

  /** With unique e-mails and usernames the lookup is ambiguous exactly when
      the key is one user's e-mail and another user's username. */
  lemma AmbiguousIffEmailIsOtherUsername(users: Users, key: string)
    requires UsersValid(users)
    ensures Resolve(users, key) == Several <==>
              exists a, b :: a in users && b in users && a != b && users[a].email == key && users[b].username == key
  {
    if Resolve(users, key) == Several {
      var a, b :| a in users && b in users && a != b && MatchesKey(users[a], key) && MatchesKey(users[b], key);
      if users[a].email == key {
        assert users[b].username == key;
      } else {
        assert users[b].email == key && users[a].username == key;
      }
    }
  }

  /** The caller's search: exact case-insensitive e-mail first, else a
      case-insensitive username substring; never the caller. Without a
      keyword every other user is listed. */
  function Search(users: Users, caller: UserId, keyword: Option<string>): (r: set<UserId>)
    ensures caller !in r && r <= users.Keys
    ensures !Present(keyword) ==> r == users.Keys - {caller}
    ensures Present(keyword) && EmailHit(users, caller, keyword.value) ==>
              forall id :: id in r <==> id in users && id != caller && Lower(users[id].email) == Lower(keyword.value)
    ensures Present(keyword) && !EmailHit(users, caller, keyword.value) ==>
              forall id :: id in r <==> id in users && id != caller && Contains(Lower(users[id].username), Lower(keyword.value))
  {
    if Present(keyword) then
      var k := Lower(keyword.value);
      var byEmail := set id | id in users && id != caller && Lower(users[id].email) == k;
      assert forall id :: id in users && id != caller && Lower(users[id].email) == k ==> id in byEmail;
      if byEmail != {} then byEmail
      else set id | id in users && id != caller && Contains(Lower(users[id].username), k)
    else
      users.Keys - {caller}
  }

  /** Some user other than the caller has the keyword as e-mail, ignoring case. */
  predicate EmailHit(users: Users, caller: UserId, keyword: string) {
    exists id :: id in users && id != caller && Lower(users[id].email) == Lower(keyword)
  }

  /** The keyword's letter case never changes the search result. */
  lemma SearchIgnoresKeywordCase(users: Users, caller: UserId, keyword: string)
    ensures Search(users, caller, Some(keyword)) == Search(users, caller, Some(Lower(keyword)))
  {
    LowerIdempotent(keyword);
  }

  /** A username typed exactly (in any case) finds its user unless some
      e-mail matches the keyword. */
  lemma SearchFindsUsername(users: Users, caller: UserId, id: UserId)
    requires id in users && id != caller
    requires !EmailHit(users, caller, users[id].username)
    ensures id in Search(users, caller, Some(users[id].username))
  {
    ContainsSelfAndEmpty(Lower(users[id].username));
  }

  /** The other party of a friendship, as the list comprehension picks it. */
  function OtherParty(f: Friendship, user: UserId): UserId {
    if f.user1 != user then f.user1 else f.user2
  }

  /** `User.objects.filter(id__in=friends_ids)` over the caller's friendships. */
  function ListFriends(users: Users, fs: Friendships, user: UserId): (r: set<UserId>)
    ensures forall f :: f in r <==> f in users && (HasFriendship(fs, user, f) || HasFriendship(fs, f, user))
  {
    var ids := set k | k in fs && (fs[k].user1 == user || fs[k].user2 == user) :: OtherParty(fs[k], user);
    assert forall f :: HasFriendship(fs, user, f) || HasFriendship(fs, f, user) ==> f in ids by {
      forall f | HasFriendship(fs, user, f) || HasFriendship(fs, f, user) ensures f in ids {
        var k :| k in fs && ((fs[k].user1 == user && fs[k].user2 == f) || (fs[k].user1 == f && fs[k].user2 == user));
        assert OtherParty(fs[k], user) == f;
      }
    }
    set id | id in users && id in ids
  }

  /** In a consistent store the list never holds the caller, it is symmetric,
      and both sides of an accepted request appear in each other's list. */
  lemma FriendsNeverSelf(users: Users, reqs: Requests, fs: Friendships, user: UserId)
    requires Consistent(users, reqs, fs)
    ensures user !in ListFriends(users, fs, user)
  {
    NoSelfFriendships(users, reqs, fs);
  }

  lemma FriendsSymmetric(users: Users, fs: Friendships, a: UserId, b: UserId)
    requires a in users && b in users
    ensures b in ListFriends(users, fs, a) <==> a in ListFriends(users, fs, b)
  {
  }

  lemma AcceptedRequestMakesFriends(users: Users, reqs: Requests, fs: Friendships, a: UserId, b: UserId)
    requires Consistent(users, reqs, fs)
    requires HasAccepted(reqs, a, b)
    ensures b in ListFriends(users, fs, a) && a in ListFriends(users, fs, b)
  {
    FriendshipIffAccepted(users, reqs, fs, a, b);
    var k :| k in reqs && reqs[k].fromUser == a && reqs[k].toUser == b && reqs[k].accepted;
  }

  /** The `list` response: a message when there is nobody to list. */
  datatype FriendsResponse = NoFriendsYet | FriendUsers(ids: set<UserId>)

  function FriendsList(users: Users, fs: Friendships, user: UserId): (r: FriendsResponse)
    ensures r == NoFriendsYet <==>
              forall f :: f in users ==> !HasFriendship(fs, user, f) && !HasFriendship(fs, f, user)
    ensures r.FriendUsers? ==> r.ids != {} && r.ids == ListFriends(users, fs, user)
  {
    var ids := ListFriends(users, fs, user);
    if ids == {} then NoFriendsYet else FriendUsers(ids)
  }

  /** `FriendRequest.objects.filter(to_user=user, accepted=False)`. */
  function Pending(reqs: Requests, user: UserId): (r: Requests)
    ensures forall k :: k in r <==> k in reqs && reqs[k].toUser == user && !reqs[k].accepted
    ensures forall k :: k in r ==> r[k] == reqs[k]
  {
    map k | k in reqs && reqs[k].toUser == user && !reqs[k].accepted :: reqs[k]
  }

  datatype PendingResponse = NoPendingRequests | PendingRequests(rows: Requests)

  function PendingList(reqs: Requests, user: UserId): (r: PendingResponse)
    ensures r == NoPendingRequests <==> forall k :: k in reqs && reqs[k].toUser == user ==> reqs[k].accepted
    ensures r.PendingRequests? ==> r.rows != map[] && r.rows == Pending(reqs, user)
  {
    var rows := Pending(reqs, user);
    if rows == map[] then NoPendingRequests else PendingRequests(rows)
  }

  /** A new pending request to `user` at a fresh key grows `user`'s pending
      list by exactly that row. */
  lemma PendingGrowsByOne(reqs: Requests, key: nat, r: FriendRequest)
    requires key !in reqs && !r.accepted
    ensures Pending(reqs[key := r], r.toUser) == Pending(reqs, r.toUser)[key := r]
    ensures |Pending(reqs[key := r], r.toUser)| == |Pending(reqs, r.toUser)| + 1
  {
    var before := Pending(reqs, r.toUser);
    assert Pending(reqs[key := r], r.toUser).Keys == before.Keys + {key};
    assert key !in before;
  }

  /** The sender's rows whose timestamp is at or after `since`. */
  function RecentIds(reqs: Requests, from: UserId, since: int): set<nat> {
    set k | k in reqs && reqs[k].fromUser == from && reqs[k].timestamp >= since
  }

  /** `FriendRequest.objects.filter(from_user=…, timestamp__gte=since).count()`. */
  function RecentCount(reqs: Requests, from: UserId, since: int): nat {
    |RecentIds(reqs, from, since)|
  }

  /** Any set of the sender's rows in the window bounds the count from below. */
  lemma RecentCountAtLeast(reqs: Requests, from: UserId, since: int, ks: set<nat>)
    requires forall k :: k in ks ==> k in reqs && reqs[k].fromUser == from && reqs[k].timestamp >= since
    ensures RecentCount(reqs, from, since) >= |ks|
  {
    SubsetCard(ks, RecentIds(reqs, from, since));
  }

  /** A row from someone else never moves the sender's count. */
  lemma RecentCountIgnoresOthers(reqs: Requests, from: UserId, since: int, key: nat, r: FriendRequest)
    requires key !in reqs && r.fromUser != from
    ensures RecentCount(reqs[key := r], from, since) == RecentCount(reqs, from, since)
  {
    assert RecentIds(reqs[key := r], from, since) == RecentIds(reqs, from, since);
  }

  /** With no row of the sender in the window the count is zero. */
  lemma RecentCountZero(reqs: Requests, from: UserId, since: int)
    requires forall k :: k in reqs && reqs[k].fromUser == from ==> reqs[k].timestamp < since
    ensures RecentCount(reqs, from, since) == 0
  {
    assert RecentIds(reqs, from, since) == {};
  }
}
