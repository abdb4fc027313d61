# Friend requests and friendships of the social app, in Dafny

This project models and verifies the friend workflow in the Django app
`social_network/apps/social_app`. A logged-in user can:

- send a friend request to another user, named by e-mail or username;
- accept or reject a request they received;
- list their friends and their pending requests;
- search for users.

Three tables hold the state:

- users, with unique e-mail and username;
- friend requests, where each ordered (sender, receiver) pair is unique and no one may address a request to themself;
- friendships, where each ordered pair (user1, user2) is unique.

Each table is a map from primary key to row.

| file | module | what it holds |
|---|---|---|
| `text.dfy` | `Text` | set cardinality facts; ASCII lower-casing and the substring test used for `iexact`/`icontains` |
| `models.dfy` | `Models` | the three record types, the table constraints (`Consistent`), and lemmas showing each kind of write keeps them |
| `queries.dfy` | `Queries` | resolving `email_or_username`, user search, friend list, pending list, and the count behind the rate limit, as functions of the tables |
| `views.dfy` | `Views` | the outcomes each endpoint reports (`SendOutcome`, `PendingOutcome`), lemmas about them, and the class `Store` whose methods send, accept and reject by updating the tables |
| `scenarios.dfy` | `Scenarios` | short sequences of calls, proved from the method contracts alone |

`Store.Valid()` is `Consistent` on the three tables, plus the two primary-key
counters lying above every key in use. Part of `Consistent` is the *mirror*
constraint: a friendship (u1, u2) exists exactly when an accepted request
from u1 to u2 exists. Every endpoint method requires `Valid()` and keeps it.

Each endpoint method states:

- its outcome, as a function of the state before the call;
- the exact new contents of the tables.

Every error outcome leaves the tables as they were.

An accept makes two writes with no transaction around them. `Store.AcceptRow`
first saves the request as accepted, then saves the friendship. Between the
two writes the mirror constraint is broken, and the proof re-establishes it
only after the second write.

Four behaviours of the code are easy to misread, and the model keeps them as
written:

- A send is refused as a duplicate only by a request of the same direction. Neither a reverse request nor an existing friendship blocks it.
- The self-request check sits inside `FriendRequest.save`, so it is made last, after the duplicate check and the rate limit.
- An accept is not atomic.
- The friendship constraint is on the ordered pair, so (A, B) and (B, A) may both exist.

## Model

| member | source | states |
|---|---|---|
| Models.FriendshipIffAccepted | social_network/apps/social_app/views.py:116-122 | in a consistent store, a friendship (u1, u2) exists if and only if an accepted request from u1 to u2 exists |
| Models.NoSelfFriendships | social_network/apps/social_app/models.py:34-38 | in a consistent store no friendship row has the same user on both sides, because its accepted request could not be a self-request |
| Models.PendingPairNotFriends | social_network/apps/social_app/views.py:116-122 | the pair of a pending request has no friendship row yet, so the accept's friendship insert cannot hit the unique constraint |
| Models.InsertRequestKeepsPairsUnique | social_network/apps/social_app/models.py:31-32 | inserting a request for a pair that has no request yet keeps (from_user, to_user) unique |
| Models.InsertPendingKeepsConsistent | social_network/apps/social_app/views.py:98-99 | a new pending request between two distinct stored users, for a pair with no request yet, keeps every table constraint |
| Models.InsertFriendshipKeepsPairsUnique | social_network/apps/social_app/models.py:50-51 | inserting a friendship for a pair that has none yet keeps (user1, user2) unique |
| Models.AcceptKeepsMirror | social_network/apps/social_app/views.py:118-122 | flipping a pending request to accepted and adding the friendship of its pair keeps the mirror constraint in both directions |
| Models.AcceptKeepsConsistent | social_network/apps/social_app/views.py:118-122 | the same two writes keep every table constraint |
| Models.DeletePendingKeepsConsistent | social_network/apps/social_app/views.py:144-149 | deleting a pending request keeps every table constraint |
| Queries.Resolve | social_network/apps/social_app/views.py:84 | the lookup on `email = key OR username = key`: no match exactly when no user matches; a single result is the only matching user; "several" exactly when two distinct users match |
| Queries.AmbiguousIffEmailIsOtherUsername | social_network/apps/social_app/models.py:11 | with unique e-mails and usernames, the lookup is ambiguous exactly when the key is one user's e-mail and another user's username |
| Queries.Search | social_network/apps/social_app/views.py:62-71 | never contains the caller and only contains stored users; with no keyword, every other user; if some other user's e-mail equals the keyword ignoring case, exactly those users; otherwise exactly the other users whose username contains the keyword ignoring case |
| Queries.SearchIgnoresKeywordCase | social_network/apps/social_app/views.py:67-69 | the keyword's letter case never changes the result |
| Queries.SearchFindsUsername | social_network/apps/social_app/views.py:69 | when no other user's e-mail equals the keyword, searching for a user's exact username finds that user |
| Queries.ListFriends | social_network/apps/social_app/views.py:157-161 | a user is listed exactly when they are stored and share a friendship row with the caller, in either column |
| Queries.FriendsNeverSelf | social_network/apps/social_app/views.py:159-161 | in a consistent store the caller is never in their own friend list |
| Queries.FriendsSymmetric | social_network/apps/social_app/views.py:159-161 | b is in a's friend list if and only if a is in b's |
| Queries.AcceptedRequestMakesFriends | social_network/apps/social_app/views.py:157-161 | in a consistent store, both sides of an accepted request are in each other's friend list |
| Queries.FriendsList | social_network/apps/social_app/views.py:163-168 | "no friends yet" exactly when no stored user shares a friendship with the caller; otherwise the non-empty friend list |
| Queries.Pending | social_network/apps/social_app/views.py:176-178 | exactly the rows addressed to the caller that are not accepted, unchanged |
| Queries.PendingList | social_network/apps/social_app/views.py:180-185 | "no pending requests" exactly when every row addressed to the caller is accepted; otherwise the non-empty pending rows |
| Queries.PendingGrowsByOne | social_network/apps/social_app/views.py:176-178 | a new pending row at a fresh key adds exactly that row to its receiver's pending list, and the list grows by one |
| Queries.RecentCountAtLeast | social_network/apps/social_app/views.py:93-94 | any set of the sender's rows stamped at or after the cut-off bounds the rate-limit count from below |
| Queries.RecentCountIgnoresOthers | social_network/apps/social_app/views.py:94 | a row sent by someone else never changes a sender's count |
| Queries.RecentCountZero | social_network/apps/social_app/views.py:93-94 | when all of the sender's rows are older than the cut-off, the count is zero |
| Views.DuplicateBlocksSend | social_network/apps/social_app/views.py:90-91 | any request of the same ordered pair, pending or accepted, makes a send report a duplicate |
| Views.ReverseRequestDoesNotBlock | social_network/apps/social_app/views.py:90-96 | adding a row sent by someone else, in particular the reverse request, never changes what a send reports |
| Views.RateLimitedBeforeSelfRequest | social_network/apps/social_app/views.py:93-99 | a self-request over the limit reports the rate limit, because the self check inside `save` comes last |
| Views.ThreeRecentSendsBlock | social_network/apps/social_app/views.py:93-96 | three distinct rows of the caller stamped within the last 60 seconds make every further send fail, and once the lookup finds a user and no request of that direction exists, the send reports the rate limit |
| Views.WindowElapsedLiftsLimit | social_network/apps/social_app/views.py:93-96 | once all of the caller's rows are older than 60 seconds, a send is never rate-limited |
| Views.FlipClearsPending | social_network/apps/social_app/views.py:118-119 | after a row is flipped to accepted, no pending row of its pair remains |
| Views.OwnPairFree | social_network/apps/social_app/models.py:31-32 | re-saving an existing row under its own key never hits the pair's unique constraint |
| Views.SecondAcceptFails | social_network/apps/social_app/views.py:116 | once the row is flipped, the same accept finds no pending request |
| Views.DeleteClearsPair | social_network/apps/social_app/views.py:149 | after the deletion no request of that ordered pair is left |
| Views.ResendAfterReject | social_network/apps/social_app/views.py:90-91 | after a rejected request is deleted, a new send for that pair is not a duplicate |
| Views.Store.SaveRequest | social_network/apps/social_app/models.py:34-38 | the outcome is a self-request exactly when the row names the same user twice; otherwise a duplicate exactly when another row holds the pair; otherwise the row is written, as a new row stamped `now` at the next key or over row `pk`; nothing else changes |
| Views.Store.SaveFriendship | social_network/apps/social_app/models.py:45-51 | a duplicate exactly when the ordered pair is stored; otherwise one new row at the next key; nothing else changes |
| Views.Store.Send | social_network/apps/social_app/views.py:78-101 | keeps `Valid()`; reports `SendOutcome` of the state before the call; on success, exactly one new row (caller, resolved user, `now`, not accepted) at the next key; friendships never change, and an error changes nothing |
| Views.Store.Accept | social_network/apps/social_app/views.py:108-128 | keeps `Valid()`; reports `PendingOutcome`; on success the pending row from the resolved user to the caller is flipped to accepted, the friendship (sender, caller) is added at the next key, and nothing else changes; afterwards no pending row of that pair is left and the friendship exists; an error changes nothing |
| Views.Store.AcceptRow | social_network/apps/social_app/views.py:118-122 | the two writes of an accept: flips exactly row `k` and adds exactly the friendship of its pair, keeping `Valid()` across both |
| Views.Store.Reject | social_network/apps/social_app/views.py:136-150 | keeps `Valid()`; reports `PendingOutcome`; on success exactly the pending row from the resolved user to the caller is deleted, so no request of that pair remains; friendships and accepted rows are untouched; an error changes nothing |
| Scenarios.SendThenAccept | social_network/apps/social_app/views.py:78-128 | when A sends to B and B accepts, both calls succeed, each is in the other's friend list, and B has no pending request from A |
| Scenarios.AcceptTwice | social_network/apps/social_app/views.py:116 | a second accept of a request that was just accepted reports that no request was found |
| Scenarios.RejectThenResend | social_network/apps/social_app/views.py:136-150 | after a successful reject, the sender's new send to the same user is not a duplicate |
| Scenarios.SendTwice | social_network/apps/social_app/views.py:90-91 | after a successful send, the same send again is a duplicate |
| Scenarios.OppositeSends | social_network/apps/social_app/views.py:90-91 | A sends to B and then B sends to A: both succeed |
| Scenarios.BothDirectionsAccepted | social_network/apps/social_app/models.py:50-51 | when two opposite pending requests are both accepted, the store stays consistent and holds both friendships (A, B) and (B, A) |

## Left out

- Registration, login and logout (views.py:19-50) are left out. So are token handling and password checks. They are calls into the framework's authentication code.
- Serializers are left out: only the JSON shape of responses, including the pending-request projection to id, username and e-mail. The pending list is modelled as the rows themselves.
- Pagination of the search (views.py:53-54) is left out. So are result ordering and routing (urls.py). Query results are sets and maps.
- HTTP status codes and response messages are left out. Each call reports only an `Outcome` tag.
  - The views raise `ValidationError` and `PermissionDenied` without importing them. On those paths the running code therefore fails with a server error instead of the intended 400 or 403.
  - An ambiguous lookup is never caught. In send, `User.objects.get` (views.py:84) handles only `DoesNotExist`. In accept and reject, `get_object_or_404` (views.py:113, 141) turns only `DoesNotExist` into a 404. So `MultipleObjectsReturned` ends the request with a server error where the model reports `AmbiguousUser`.
  - The self-request refusal raises `ValidationError` from inside `FriendRequest.save` (models.py:37), and the send view does not catch it. The model reports `SelfRequest`.
  - The model keeps the distinct outcome each path evidently intends.
- Transactions and concurrent requests are left out. The model runs one call at a time.
  - The state between the two writes of an accept is visible only through `Store.AcceptRow`'s structure. No outcome exposes it.
  - The model also does not cover a failure between the two writes.
- Deleting users and `on_delete=CASCADE` are left out, because no operation shown deletes a user.
- Views.Store.Send: the key of a new row is the store's counter, not a database sequence, and the clock (`timezone.now()`) is the `now` parameter. `created` on a friendship is given the same `now`.
- Queries.Search: case-insensitive matching is ASCII lower-casing. It does not cover the database's Unicode collation rules.
- Queries.Resolve: the identifier is assumed to be a string if present. The model does not cover a JSON value of another type.
- The `friends` many-to-many field on the user model (models.py:18) is left out. Nothing in the workflow reads it, and the friendship table is modelled directly.
