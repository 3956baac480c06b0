# Chat, friends and circles: a Dafny model

This project models the two pieces of the chat application that hold real
logic.

- **The Flask server's business rules** (`main-1.py`). The SQLite database
  is a value `Db` holding one sequence per table: users, friendships, VIP
  levels, circles, circle members, posts and comments. Every route is a
  pure function from a database and the request's inputs to a status and a
  new database (`Reply`), or a status and a list (`Listing`). The modelled
  routes are registration, the caller lookup from the `Authorization`
  header, friend search, friend requests and responses, the friend list,
  VIP purchase, circle creation, invitations, the circle list, and reading
  and writing posts.
- **The client chat screen** (`main-1.js`, `ChatScreen`). This is a state
  record holding:
  - the messages;
  - the input text;
  - the username;
  - the device key-value store;
  - the route;
  - an outbox of socket events.

  The screen's handlers are transitions on that record: `sendMessage`,
  `loadMessages`, `saveMessages`, `checkAuth` and `handleLogout`.

## Modelling decisions

- **Unhandled exceptions.** A Python exception escaping a route becomes
  `ServerError`, which Flask answers with 500. The session is never
  committed, so the database is unchanged. Such exceptions come from:
  - an attribute read on a missing user;
  - a `NOT NULL` column left empty;
  - `.username` of an author or creator row that does not exist;
  - in `create_circle`, a caller whose `vip_level` names no tier, since
    `max_private_circles` is then read from `None`.
- **Absent values.** A request field that is missing or `null` is
  `Option.None`. When the caller is absent, SQLAlchemy renders `== None` as
  `IS NULL` and `!= None` as `IS NOT NULL`. So with no caller:
  - the search lists every user;
  - the request and friend lists are empty;
  - membership tests fail.
- **New row ids.** A new row gets id `max + 1`, or `1` in an empty table.
  This is the rowid rule of SQLite (`NextId`).
- **Timestamps.** Timestamps are integer ticks (`Tick`). `now` is a
  parameter.
- **Circle list duplicates.** The legacy `Query` removes duplicate entities
  from a single-entity join. So the private part of `get_circles` is a
  filter over the circles table.
- **Foreign keys.** The schema declares foreign keys, for example
  `friendship.user_id` and `post.author_id`. SQLite does not enforce them
  unless asked to, so the model does not assume them either: a row may name
  a missing user, and the listing that reads it answers 500. Lemmas that
  need the keys to hold say so in their requires (`FriendshipsReferToUsers`,
  `PostsReferToUsers`).
- **Crypto and tokens.**
  - Password hashing is an argument, the already hashed password.
  - JWT verification is a function argument, `string -> Option<Claims>`.
  - Only the header parsing of `get_current_user_id` is modelled, with
    Python's `str.split(' ')` written out exactly.
- **Client clock and JSON.**
  - The clock is a parameter (`Clock`).
  - JSON is a `Codec` of two functions, assumed to round-trip (`RoundTrips`).
  - The outcome of each storage call is a boolean parameter.
  - `String.prototype.trim` is modelled with the ECMAScript whitespace and
    line-terminator set.
- **Import defects.** The server source has import and ordering defects: it
  never imports `or_`, it never imports `timedelta`, it calls
  `datetime.datetime` after `from datetime import datetime`, and it
  references `Friendship` before defining it. The model follows the logic
  the code evidently intends.
- **Message order.** The screen appends each sent message at the end of
  its list and never reorders or deduplicates the list.

## Model

| member | source | states |
|---|---|---|
| Common.NextId | main-1.py:18 | a new primary key exceeds every existing key; it is 1 in an empty table and otherwise one past an existing key |
| Common.AppendFreshKeepsUnique | main-1.py:18 | appending a row keyed by `NextId` keeps the table's primary keys unique |
| Common.SortDescBy | main-1.py:390 | the result is ordered newest first by the key and is a permutation of the input |
| Common.FindIsFirst | main-1.py:357-360 | the element a search returns is the first that matches |
| ServerDb.FindUser | main-1.py:273 | `User.query.get`: a found row is in the table with that id; `None` means no row has the id (an absent id matches nothing) |
| ServerDb.FindVipLevel | main-1.py:274 | `VIPLevel.query.get`: a found tier has the id; `None` means no tier has it |
| ServerDb.FindCircle | main-1.py:352 | `Circle.query.get`: a found circle has the id; `None` means no circle has it |
| ServerDb.FindMembership | main-1.py:357-360 | a membership row found ties the user to the circle; `None` exactly when the user has no row there |
| ServerDb.FirstMembership | main-1.py:357-360 | `.first()`: the row returned is the first of the user's rows in the circle, as no earlier row ties them |
| ServerDb.MembershipAppend | main-1.py:357-370 | after one membership row is appended, a user's first row in a circle is the old first row if there was one, and otherwise the new row when it matches |
| ServerDb.PrivateCountAppend | main-1.py:319-322 | adding a circle raises the creator's private-circle count by one exactly when it is a private circle of theirs |
| Auth.Split | main-1.py:249 | `str.split(' ')` returns at least one piece, no piece contains the separator, and exactly one piece when the separator is absent |
| Auth.JoinSplit | main-1.py:249 | joining the pieces of a split with the separator gives back the string |
| Auth.SplitJoin | main-1.py:249 | splitting a join of separator-free pieces gives back the pieces |
| Auth.SecondFieldIsToken | main-1.py:249 | `split(' ')[1]` exists exactly when the header has a space, and it is the text between the first and second space |
| Auth.CurrentUserId | main-1.py:244-253 | `None` when the header is missing, empty or has no space, or when the token fails to verify or carries no user id; otherwise the token's `user_id` |
| Accounts.Register | main-1.py:98-109 | 400 and no change exactly when the username or password is empty or the username is taken; otherwise 201 and exactly one user is appended, with that name, the hashed password, no VIP tier or expiry and a fresh id, and nothing else changes |
| Accounts.RegisterKeepsUsernamesUnique | main-1.py:101-107 | registration keeps usernames unique |
| Accounts.RegisterTwiceRefused | main-1.py:101-102 | registering the same name again is refused with 400 and changes nothing |
| Accounts.ContainsAt | main-1.py:155 | the substring test behind `LIKE '%q%'` holds exactly when the query occurs at some offset |
| Accounts.SearchHits | main-1.py:153-157 | the rows the search query selects are exactly the users whose name contains the query, other than the caller, and are distinct when the table's ids are |
| Accounts.SearchUsers | main-1.py:150-163 | the route always answers 200; every hit is a user whose name contains the query and who is not the caller, every such user is listed, and no user is listed twice when user ids are unique |
| Friends.SendFriendRequest | main-1.py:168-186 | 500 when the caller or friend id is absent; 400 and no change exactly when a row links the pair in either direction; otherwise one `pending` row from caller to friend is appended with a fresh id |
| Friends.SendKeepsOnePerPair | main-1.py:172-184 | at most one friendship row exists per unordered pair, before and after a request |
| Friends.PendingFor | main-1.py:191-194 | the rows selected are exactly the pending rows addressed to the caller |
| Friends.ViewRequest | main-1.py:196-202 | a request can be shown exactly when its sender has a user row |
| Friends.GetFriendRequests | main-1.py:189-202 | 200 exactly when every sender exists, with one entry per pending incoming row carrying its id, sender and time; empty with no caller |
| Friends.RequestListSound | main-1.py:191-202 | every listed request is a pending row addressed to the caller |
| Friends.RequestListComplete | main-1.py:191-202 | every pending row addressed to the caller is listed |
| Friends.Answer | main-1.py:214-217 | the new status is `accepted` exactly for the response `'accept'`, and never `pending` |
| Friends.RespondFriendRequest | main-1.py:210-220 | 404 and no change exactly when no row has the id; otherwise only that row's status changes, to the answer |
| Friends.RespondKeepsOnePerPair | main-1.py:210-219 | answering a request keeps at most one row per pair |
| Friends.AcceptedRows | main-1.py:225-230 | the rows selected are exactly the accepted rows the caller is a party to |
| Friends.FriendIds | main-1.py:225-234 | one id per accepted row of the caller, and an id is listed exactly when an accepted row links it to the caller; nothing is listed without a caller |
| Friends.OtherPartiesAreFriends | main-1.py:225-234 | the other parties of the caller's accepted rows are exactly the users an accepted row links to the caller |
| Friends.FriendIdsMembership | main-1.py:225-234 | b is among a's friends exactly when an accepted row links a and b |
| Friends.ViewFriend | main-1.py:234-239 | a friend can be shown exactly when the other party has a user row, and the entry carries that party's id and username |
| Friends.FriendsSymmetric | main-1.py:225-234 | b is a friend of a exactly when a is a friend of b |
| Friends.GetFriends | main-1.py:224-241 | 200 exactly when every friend exists, listing the other party of each accepted row; empty with no caller |
| Friends.FriendsListed | main-1.py:232-239 | when every friendship row names existing users, the friend list never fails |
| Friends.FriendListedIffFriend | main-1.py:232-239 | a served friend list names b exactly when b is among the caller's friend ids |
| Friends.GetFriendsSymmetric | main-1.py:225-239 | when every friendship row names existing users, both lists succeed and the route lists b for a exactly when it lists a for b |
| Friends.SentRequestIsIncoming | main-1.py:182-194 | a request just sent is pending, comes from the caller and is addressed to the friend, and is among the rows the friend's request list selects |
| Friends.SentRequestIsListed | main-1.py:182-202 | when every friendship row names existing users and the sender exists, the friend's request list is served after a request, and it lists the new row with the sender's id |
| Friends.SenderKnownAfterSend | main-1.py:182-184 | a request from an existing user keeps every friendship row's sender an existing user |
| Friends.AcceptMakesFriends | main-1.py:214-239 | after accepting, the two parties of the request are each other's friends |
| Friends.RejectLeavesStrangers | main-1.py:216-217 | after any other answer, the two parties are not friends |
| Vip.PurchaseVip | main-1.py:269-285 | 404 and no change exactly for an unknown tier; 500 when the caller has no user row; otherwise only the caller's row changes, getting the tier and an expiry thirty days after now |
| Vip.PurchaseGrantsTier | main-1.py:281-282 | after a purchase the caller's tier resolves to the tier bought and expires thirty days later |
| Circles.CreateCircle | main-1.py:311-344 | a private circle needs a VIP tier and a private-circle count below the tier's cap, otherwise 403; a missing caller or name is 500; on success one circle and one `admin` membership for its creator are appended and the new id is returned |
| Circles.CreateRespectsCap | main-1.py:319-325 | after creating a private circle, the creator's private-circle count is at most the tier's cap |
| Circles.PublicNeverForbidden | main-1.py:314 | creating a public circle is never refused with 403, and succeeds whenever a caller and a name are given |
| Circles.InviteToCircle | main-1.py:349-372 | 404 exactly for an unknown circle; 403 exactly when the inviter's first membership there is missing or is neither `admin` nor `moderator`; otherwise one `member` row is appended |
| Circles.InviteeBecomesMember | main-1.py:365-370 | after an invitation the invitee is a member, and earlier members stay members |
| Circles.PlainMemberCannotInvite | main-1.py:362-363 | an inviter whose membership has role `member` gets 403 and nothing changes |
| Circles.ListedCircles | main-1.py:292-298 | the listed circles are exactly the public ones and the private ones the caller belongs to, each listed once when circle ids are unique |
| Circles.ViewCircle | main-1.py:299-305 | a circle can be shown exactly when its creator has a user row, and the entry carries the circle's id, name, description, privacy, its creator's username and its member count |
| Circles.GetCircles | main-1.py:290-306 | 200 exactly when every creator exists, with one entry per listed circle giving its id, name, description, privacy, creator username and member count; no circle is listed twice when circle ids are unique |
| Circles.VisibleIsListed | main-1.py:292-298 | every public circle and every private circle the caller belongs to is in the route's answer |
| Circles.ListedIsVisible | main-1.py:292-298 | every circle in the route's answer is public or has the caller as a member |
| Posts.CircleAccess | main-1.py:377-388 | 404 exactly for an unknown circle, 403 exactly for a private circle without a membership of the caller, otherwise access |
| Posts.ViewPost | main-1.py:391-398 | a post can be shown exactly when its author has a user row, and the entry keeps the post's id, title, content and time, with the author's username and the comment count |
| Posts.PostsIn | main-1.py:390 | the rows selected are exactly the posts of the circle |
| Posts.GetCirclePosts | main-1.py:376-398 | access errors as for `CircleAccess`; 500 exactly when an author is missing; otherwise the circle's posts newest first, a permutation of their views |
| Posts.PostListSound | main-1.py:390 | every listed post belongs to the circle |
| Posts.PostListComplete | main-1.py:390 | every post of the circle is listed |
| Posts.CreatePost | main-1.py:402-426 | access errors as for `CircleAccess` with no change; 500 exactly when the caller, title or content is missing; otherwise one post by the caller in the circle is appended under a fresh id, which is returned |
| Posts.OutsiderLockedOut | main-1.py:382-388 | an outsider of a private circle gets 403 from both post routes and the database is unchanged |
| Posts.PostsListed | main-1.py:390-398 | when every post names an existing author, a readable circle's post list never fails |
| Posts.CreatedPostIsListed | main-1.py:417-424 | a post just created by an existing user appears in its circle's post list, which does not fail |
| Invariants.EmptyIsValid | main-1.py:17-85 | a database with only VIP tiers satisfies the invariant |
| Invariants.RegisterPreservesValid | main-1.py:98-109 | registration keeps the invariant: unique keys and usernames, one row per pair, every membership naming an existing circle, and each creator's first membership in their circle being `admin` |
| Invariants.SendPreservesValid | main-1.py:172-184 | a friend request keeps the invariant |
| Invariants.RespondPreservesValid | main-1.py:210-219 | answering a request keeps the invariant |
| Invariants.PurchasePreservesValid | main-1.py:273-283 | a VIP purchase keeps the invariant |
| Invariants.CreateCirclePreservesValid | main-1.py:327-342 | creating a circle keeps the invariant; the new circle's creator gets the admin row as their first membership there |
| Invariants.CircleFactsFound | main-1.py:327-342 | a circle with an id above every existing one, appended with its creator's `admin` row, keeps memberships naming existing circles and creators' first memberships being `admin` |
| Invariants.FoundCircleAdministered | main-1.py:327-342 | no earlier row names the fresh circle, so the creator's appended `admin` row is their first membership there |
| Invariants.InvitePreservesValid | main-1.py:365-370 | an invitation keeps the invariant |
| Invariants.CircleFactsJoin | main-1.py:352-370 | a membership row for an existing circle keeps the circle facts of the invariant, because appending never changes an earlier first membership |
| Invariants.CreatePostPreservesValid | main-1.py:417-424 | creating a post keeps the invariant |
| Invariants.CreatorCanInvite | main-1.py:336-363 | under the invariant the creator of any circle may invite into it, whatever other rows they have there |
| ChatScreen.TrimStart | main-1.js:71 | the result is a suffix after a whitespace-only prefix; it is empty exactly for whitespace-only input and otherwise starts with a non-whitespace character |
| ChatScreen.TrimEnd | main-1.js:71 | the result is a prefix before a whitespace-only suffix; it is empty exactly for whitespace-only input and otherwise ends with a non-whitespace character |
| ChatScreen.Trim | main-1.js:71 | `trim()` is the input with its leading and trailing whitespace removed: a slice of the input between two whitespace-only runs, empty exactly for whitespace-only input and otherwise neither starting nor ending with whitespace |
| ChatScreen.SaveMessages | main-1.js:45-51 | a successful write stores the encoded list under `chatMessages` and no other key changes; a rejected write changes nothing |
| ChatScreen.LoadMessages | main-1.js:33-42 | a stored snapshot that is present, non-empty and parses replaces the list; a failed read, a missing or empty entry or a parse error changes nothing; nothing else ever changes |
| ChatScreen.CheckAuth | main-1.js:53-61 | with a missing or empty token the route becomes Login and the username is kept; otherwise the username becomes the stored one; the list, store, outbox and input never change |
| ChatScreen.HandleLogout | main-1.js:63-67 | removes the token and the username, then routes to Login; a rejected removal stops the sequence, so a failed second removal leaves the store without only the token; `chatMessages` and every other key are kept |
| ChatScreen.SendMessage | main-1.js:70-86 | the state is unchanged exactly for whitespace-only input; otherwise exactly one message is appended, with the raw input, the clock's id and timestamp, `isSent` and the current username; earlier messages are kept; the stored snapshot is the new list; one `message` event is emitted; the input is cleared |
| ChatScreen.SaveThenLoad | main-1.js:33-51 | loading after a successful save gives back exactly the saved list |
| ChatScreen.SendSurvivesRestart | main-1.js:81-83 | after a send whose write succeeds, a fresh screen over the same store loads exactly the list the screen held |
| ChatScreen.MountReadsCommute | main-1.js:24-27 | `loadMessages` and `checkAuth`, both started on mount, give the same screen whichever finishes first |
| ChatScreen.LogoutThenCheckAuth | main-1.js:53-67 | after a complete logout the authentication check routes to Login, keeps the username and leaves the stored history in place |

## Left out

- `login`, `get_vip_levels` and the Socket.IO handlers (main-1.py:112-145, 256-265). `login` is JWT issuing and `get_vip_levels` is a plain listing; both are outside this model. The socket handlers are a broadcast relay over the network.
- Password hashing and JWT signing and verification are not modelled. They appear as an argument (`hashed`) and an uninterpreted function argument (`verify`), so token expiry is not modelled either.
- Accounts.SearchUsers: `LIKE '%q%'` is modelled as case-sensitive substring containment. SQLite's case-insensitive ASCII matching and the `%`/`_` wildcards inside the query are not modelled.
- Accounts.Register: the request body's `username`/`password` reach the model as strings. A missing or `null` field behaves like the empty string here, since both are falsy, and the `String(80)`/`String(120)` lengths are not enforced (SQLite does not enforce them either).
- `VIPLevel.price` is a float and is not carried; no modelled route reads it.
- Posts.GetCirclePosts: posts created at the same tick may be listed in any order. The model fixes one order, and its contract only promises newest first.
- Circles.InviteToCircle: a second invitation of the same user adds a second membership row, as the code does. Nothing prevents duplicates, so none is claimed.
- Friends.RespondFriendRequest: the route checks neither the caller nor the row's current status. The model reproduces this, so anyone can answer any request, and answering twice overwrites the first answer.
- `Comment` rows are only counted; no route creates them.
- On the client:
  - React rendering, styles and the socket lifecycle are not modelled (main-1.js:19-30, 88-124). `socket.emit` becomes an outbox append.
  - `JSON.parse` returning something other than a list is not modelled.
  - An unhandled rejection in `checkAuth` is modelled as "nothing changes"; in `handleLogout` it stops at the failed call.
- ChatScreen.SendMessage: each client handler is one atomic step. In the code, `sendMessage` starts `saveMessages` without awaiting it (main-1.js:82), and `loadMessages`, `checkAuth` and `handleLogout` pause at each `await` (main-1.js:35, 54-55, 64-65). The model does not interleave handlers. So a send made while the mount-time load (main-1.js:25) is still running is not modelled; there the store can end up holding only the new message while the screen shows the old history.
- ChatScreen.SendSurvivesRestart and ChatScreen.SaveThenLoad hold under that atomic reading only. An interleaved load or send can break them.
