/** The friend-request lifecycle (main-1.py, `send_friend_request`,
    `get_friend_requests`, `respond_friend_request`, `get_friends`): a request
    is a `Friendship` row from sender to recipient that starts `Pending` and is
    set to `Accepted` or `Rejected`; two users are friends while an `Accepted`
    row links them in either direction. */
module Friends {
  import opened Common
  import opened ServerDb
  import opened Accounts

  /** The row links users `a` and `b`, in either direction. */
  predicate Links(f: Friendship, a: int, b: int) {
    (f.userId == a && f.friendId == b) || (f.userId == b && f.friendId == a)
  }

  /** Some row links `a` and `b`, whatever its status. */
  predicate PairExists(fs: seq<Friendship>, a: int, b: int) {
    exists i :: 0 <= i < |fs| && Links(fs[i], a, b)
  }

  /** At most one row per unordered pair of users. */
  predicate OnePerPair(fs: seq<Friendship>) {
    forall i, j :: 0 <= i < j < |fs| ==> !Links(fs[j], fs[i].userId, fs[i].friendId)
  }

  /** `POST /api/friends/request`: refused with 400 when any row already links
      the two users, in either direction and whatever its status; otherwise one
      `Pending` row from the caller to `friendId` is added. A missing caller or
      friend id leaves a NOT NULL column empty, so the insert fails (500). */
  function SendFriendRequest(db: Db, current: Option<int>, friendId: Option<int>, now: Tick): (r: Reply)
    ensures r.status == ServerError <==> current.None? || friendId.None?
    ensures r.status == BadRequest <==>
      current.Some? && friendId.Some? && PairExists(db.friendships, current.value, friendId.value)
    ensures r.status in {Ok, BadRequest, ServerError}
    ensures r.status != Ok ==> r.db == db
    ensures r.status == Ok ==> OnlyFriendshipsChanged(db, r.db)
    ensures r.status == Ok ==>
      && |r.db.friendships| == |db.friendships| + 1
      && r.db.friendships[..|db.friendships|] == db.friendships
      && var f := r.db.friendships[|db.friendships|];
         && Some(f.userId) == current && Some(f.friendId) == friendId
         && f.status == Pending && f.createdAt == now
         && forall i :: 0 <= i < |db.friendships| ==> db.friendships[i].id < f.id
  {
    if current.None? || friendId.None? then Reply(ServerError, db, None)
    else if PairExists(db.friendships, current.value, friendId.value) then Reply(BadRequest, db, None)
    else
      var f := Friendship(NextId(db.friendships, FriendshipKey), current.value, friendId.value, Pending, now);
      Reply(Ok, db.(friendships := db.friendships + [f]), None)
  }

  /** Sending a request never creates a second row for a pair of users. */
  lemma SendKeepsOnePerPair(db: Db, current: Option<int>, friendId: Option<int>, now: Tick)
    requires OnePerPair(db.friendships)
    ensures OnePerPair(SendFriendRequest(db, current, friendId, now).db.friendships)
  {
  }

  /** A pending request waiting for the answer of `current`. */
  predicate IncomingPending(f: Friendship, current: Option<int>) {
    Some(f.friendId) == current && f.status == Pending
  }

  /** One entry of the request list: the row and the sender's name. */
  datatype RequestView = RequestView(id: int, userId: int, username: string, status: FriendStatus, createdAt: Tick)

  /** The view of one request, or `None` when its sender has no user row
      (`User.query.get(...).username` then raises). */
  function ViewRequest(db: Db, f: Friendship): (r: Option<RequestView>)
    ensures r.Some? <==> FindUser(db, Some(f.userId)).Some?
  {
    match FindUser(db, Some(f.userId))
    case None => None
    case Some(u) => Some(RequestView(f.id, f.userId, u.username, f.status, f.createdAt))
  }

  /** The rows `get_friend_requests` selects, in table order. */
  function PendingFor(db: Db, current: Option<int>): (rows: seq<Friendship>)
    ensures forall k :: 0 <= k < |rows| ==> rows[k] in db.friendships && IncomingPending(rows[k], current)
    ensures forall i :: 0 <= i < |db.friendships| && IncomingPending(db.friendships[i], current) ==>
      db.friendships[i] in rows
  {
    Filter(db.friendships, (f: Friendship) => IncomingPending(f, current))
  }

  /** `GET /api/friends/requests`: the pending requests addressed to the
      caller, in table order, each with its sender's name; 500 when a sender
      has no user row. Without a caller nothing matches. */
  function GetFriendRequests(db: Db, current: Option<int>): (r: Listing<RequestView>)
    ensures r.status in {Ok, ServerError}
    ensures r.status == ServerError ==> r.items == []
    ensures r.status == Ok <==> forall k :: 0 <= k < |PendingFor(db, current)| ==>
      FindUser(db, Some(PendingFor(db, current)[k].userId)).Some?
    ensures r.status == Ok ==> |r.items| == |PendingFor(db, current)|
    ensures r.status == Ok ==> forall k :: 0 <= k < |r.items| ==>
      var f := PendingFor(db, current)[k];
      && r.items[k].id == f.id && r.items[k].userId == f.userId
      && r.items[k].status == Pending && r.items[k].createdAt == f.createdAt
      && r.items[k].username == FindUser(db, Some(f.userId)).value.username
    ensures current.None? ==> r == Listing(Ok, [])
  {
    var rows := PendingFor(db, current);
    match MapAll(rows, (f: Friendship) => ViewRequest(db, f))
    case None => Listing(ServerError, [])
    case Some(views) => Listing(Ok, views)
  }

  /** Every listed request is a pending row addressed to the caller. */
  lemma RequestListSound(db: Db, current: Option<int>, k: int)
    requires GetFriendRequests(db, current).status == Ok
    requires 0 <= k < |GetFriendRequests(db, current).items|
    ensures exists i :: (0 <= i < |db.friendships| && IncomingPending(db.friendships[i], current)
      && db.friendships[i].id == GetFriendRequests(db, current).items[k].id
      && db.friendships[i].userId == GetFriendRequests(db, current).items[k].userId)
  {
  }

  /** Every pending row addressed to the caller is listed. */
  lemma RequestListComplete(db: Db, current: Option<int>, i: int)
    requires GetFriendRequests(db, current).status == Ok
    requires 0 <= i < |db.friendships| && IncomingPending(db.friendships[i], current)
    ensures exists k :: (0 <= k < |GetFriendRequests(db, current).items|
      && GetFriendRequests(db, current).items[k].id == db.friendships[i].id)
  {
  }

  /** The outcome of answering a request: only the exact string `accept`
      accepts; anything else, a missing answer included, rejects. */
  function Answer(response: Option<string>): (s: FriendStatus)
    ensures s == Accepted <==> response == Some("accept")
    ensures s != Pending
  {
    if response == Some("accept") then Accepted else Rejected
  }

  /** `POST /api/friends/respond`: an unknown request id gives 404 and no
      change; otherwise that one row's status is set by `Answer` and every
      other row, and every other field of the row, stays as it was. The route
      does not check who the caller is, nor that the request is still pending. */
  function RespondFriendRequest(db: Db, requestId: Option<int>, response: Option<string>): (r: Reply)
    ensures r.status == NotFound <==> forall i :: 0 <= i < |db.friendships| ==> Some(db.friendships[i].id) != requestId
    ensures r.status in {Ok, NotFound}
    ensures r.status == NotFound ==> r.db == db
    ensures r.status == Ok ==> OnlyFriendshipsChanged(db, r.db)
    ensures r.status == Ok ==>
      && |r.db.friendships| == |db.friendships|
      && (exists k :: 0 <= k < |db.friendships|
           && Some(db.friendships[k].id) == requestId
           && r.db.friendships[k] == db.friendships[k].(status := Answer(response))
           && forall j :: 0 <= j < |db.friendships| && j != k ==> r.db.friendships[j] == db.friendships[j])
  {
    match FindIndex(db.friendships, (f: Friendship) => Some(f.id) == requestId)
    case None => Reply(NotFound, db, None)
    case Some(k) =>
      var fs := db.friendships[k := db.friendships[k].(status := Answer(response))];
      Reply(Ok, db.(friendships := fs), None)
  }

  /** Answering a request keeps at most one row per pair: it changes no party. */
  lemma RespondKeepsOnePerPair(db: Db, requestId: Option<int>, response: Option<string>)
    requires OnePerPair(db.friendships)
    ensures OnePerPair(RespondFriendRequest(db, requestId, response).db.friendships)
  {
  }

  /** An accepted row that involves `current`. */
  predicate AcceptedWith(f: Friendship, current: Option<int>) {
    f.status == Accepted && (Some(f.userId) == current || Some(f.friendId) == current)
  }

  /** The party of the row that is not the caller (the caller itself for a
      row linking the caller to itself). */
  function OtherParty(f: Friendship, current: Option<int>): int {
    if Some(f.userId) == current then f.friendId else f.userId
  }

  /** The rows `get_friends` selects, in table order. */
  function AcceptedRows(fs: seq<Friendship>, current: Option<int>): (rows: seq<Friendship>)
    ensures forall k :: 0 <= k < |rows| ==> rows[k] in fs && AcceptedWith(rows[k], current)
    ensures forall i :: 0 <= i < |fs| && AcceptedWith(fs[i], current) ==> fs[i] in rows
  {
    Filter(fs, (f: Friendship) => AcceptedWith(f, current))
  }

  /** The ids `get_friends` lists, in table order, before the user lookup. */
  function FriendIds(fs: seq<Friendship>, current: Option<int>): (ids: seq<int>)
    ensures |ids| == |AcceptedRows(fs, current)|
    ensures forall id :: id in ids <==> (current.Some?
      && exists i :: 0 <= i < |fs| && fs[i].status == Accepted && Links(fs[i], current.value, id))
  {
    var rows := AcceptedRows(fs, current);
    var ids := seq(|rows|, k requires 0 <= k < |rows| => OtherParty(rows[k], current));
    OtherPartiesAreFriends(fs, current, ids);
    ids
  }

  /** The other parties of the accepted rows are exactly the users an
      accepted row links to the caller. */
  lemma OtherPartiesAreFriends(fs: seq<Friendship>, current: Option<int>, ids: seq<int>)
    requires |ids| == |AcceptedRows(fs, current)|
    requires forall k :: 0 <= k < |ids| ==> ids[k] == OtherParty(AcceptedRows(fs, current)[k], current)
    ensures forall id :: id in ids <==> (current.Some?
      && exists i :: 0 <= i < |fs| && fs[i].status == Accepted && Links(fs[i], current.value, id))
  {
    var rows := AcceptedRows(fs, current);
    forall id | id in ids
      ensures current.Some? && exists i :: 0 <= i < |fs| && fs[i].status == Accepted && Links(fs[i], current.value, id)
    {
      var k :| 0 <= k < |ids| && ids[k] == id;
      var i :| 0 <= i < |fs| && fs[i] == rows[k];
    }
    forall id | current.Some? && exists i :: 0 <= i < |fs| && fs[i].status == Accepted && Links(fs[i], current.value, id)
      ensures id in ids
    {
      var i :| 0 <= i < |fs| && fs[i].status == Accepted && Links(fs[i], current.value, id);
      var k :| 0 <= k < |rows| && rows[k] == fs[i];
      assert ids[k] == id;
    }
  }

  /** `b` is listed as a friend of `a` exactly when an accepted row links the
      two, in either direction. */
  lemma FriendIdsMembership(fs: seq<Friendship>, a: int, b: int)
    ensures b in FriendIds(fs, Some(a)) <==> exists i :: 0 <= i < |fs| && fs[i].status == Accepted && Links(fs[i], a, b)
  {
  }

  /** Friendship is symmetric: `b` is among `a`'s friends exactly when `a` is
      among `b`'s. */
  lemma FriendsSymmetric(fs: seq<Friendship>, a: int, b: int)
    ensures b in FriendIds(fs, Some(a)) <==> a in FriendIds(fs, Some(b))
  {
  }

  /** The summary of the friend `f` gives the caller, or `None` when that user
      has no row (`User.query.get(friend_id)` gives `None`, and reading its
      `id` raises). */
  function ViewFriend(db: Db, f: Friendship, current: Option<int>): (r: Option<UserSummary>)
    ensures r.Some? <==> FindUser(db, Some(OtherParty(f, current))).Some?
    ensures r.Some? ==>
      && r.value.id == OtherParty(f, current)
      && r.value.username == FindUser(db, Some(OtherParty(f, current))).value.username
  {
    match FindUser(db, Some(OtherParty(f, current)))
    case None => None
    case Some(u) => Some(Summary(u))
  }

  /** `GET /api/friends`: one entry per accepted row involving the caller,
      naming the other party, in table order; 500 when one of them has no
      user row. Without a caller the list is empty. */
  function GetFriends(db: Db, current: Option<int>): (r: Listing<UserSummary>)
    ensures r.status in {Ok, ServerError}
    ensures r.status == ServerError ==> r.items == []
    ensures r.status == Ok <==> forall k :: 0 <= k < |FriendIds(db.friendships, current)| ==>
      FindUser(db, Some(FriendIds(db.friendships, current)[k])).Some?
    ensures r.status == Ok ==> |r.items| == |FriendIds(db.friendships, current)|
    ensures r.status == Ok ==> forall k :: 0 <= k < |r.items| ==>
      r.items[k].id == FriendIds(db.friendships, current)[k]
      && r.items[k] == Summary(FindUser(db, Some(FriendIds(db.friendships, current)[k])).value)
    ensures current.None? ==> r == Listing(Ok, [])
  {
    var rows := AcceptedRows(db.friendships, current);
    var ids := FriendIds(db.friendships, current);
    assert forall k :: 0 <= k < |rows| ==> (ViewFriend(db, rows[k], current).Some? <==> FindUser(db, Some(ids[k])).Some?);
    match MapAll(rows, (f: Friendship) => ViewFriend(db, f, current))
    case None => Listing(ServerError, [])
    case Some(views) => Listing(Ok, views)
  }

  /** When every friendship row names existing users, the friend list of
      any caller is served without error. */
  lemma FriendsListed(db: Db, current: Option<int>)
    requires FriendshipsReferToUsers(db)
    ensures GetFriends(db, current).status == Ok
  {
  }

  /** When the friend list of `a` is served, it names `b` exactly when `b`
      is among `a`'s friend ids. */
  lemma FriendListedIffFriend(db: Db, a: int, b: int)
    requires GetFriends(db, Some(a)).status == Ok
    ensures (exists k :: 0 <= k < |GetFriends(db, Some(a)).items| && GetFriends(db, Some(a)).items[k].id == b)
        <==> b in FriendIds(db.friendships, Some(a))
  {
    var ids := FriendIds(db.friendships, Some(a));
    var items := GetFriends(db, Some(a)).items;
    if b in ids {
      var k :| 0 <= k < |ids| && ids[k] == b;
      assert items[k].id == b;
    }
  }

  /** The friend lists of two users agree with the symmetry of friendship:
      `b` appears in `a`'s list exactly when `a` appears in `b`'s. */
  lemma GetFriendsSymmetric(db: Db, a: int, b: int)
    requires FriendshipsReferToUsers(db)
    ensures GetFriends(db, Some(a)).status == Ok && GetFriends(db, Some(b)).status == Ok
    ensures (exists k :: 0 <= k < |GetFriends(db, Some(a)).items| && GetFriends(db, Some(a)).items[k].id == b)
        <==> (exists k :: 0 <= k < |GetFriends(db, Some(b)).items| && GetFriends(db, Some(b)).items[k].id == a)
  {
    FriendsListed(db, Some(a));
    FriendsListed(db, Some(b));
    FriendsSymmetric(db.friendships, a, b);
    FriendListedIffFriend(db, a, b);
    FriendListedIffFriend(db, b, a);
  }

  /** A request that was just sent is pending and shows up in the recipient's
      request list. */
  lemma SentRequestIsIncoming(db: Db, current: Option<int>, friendId: Option<int>, now: Tick)
    requires SendFriendRequest(db, current, friendId, now).status == Ok
    ensures var db' := SendFriendRequest(db, current, friendId, now).db;
      && IncomingPending(db'.friendships[|db'.friendships| - 1], friendId)
      && db'.friendships[|db'.friendships| - 1].userId == current.value
      && db'.friendships[|db'.friendships| - 1] in PendingFor(db', friendId)
  {
  }

  /** A request sent by an existing user shows up in the recipient's request
      list, which is served without error, provided every earlier friendship
      row names existing users. */
  lemma SentRequestIsListed(db: Db, current: Option<int>, friendId: Option<int>, now: Tick)
    requires FriendshipsReferToUsers(db)
    requires current.Some? && HasUser(db, current.value)
    requires SendFriendRequest(db, current, friendId, now).status == Ok
    ensures var db' := SendFriendRequest(db, current, friendId, now).db;
      && GetFriendRequests(db', friendId).status == Ok
      && (exists k :: 0 <= k < |GetFriendRequests(db', friendId).items|
           && GetFriendRequests(db', friendId).items[k].id == db'.friendships[|db.friendships|].id
           && GetFriendRequests(db', friendId).items[k].userId == current.value)
  {
    var db' := SendFriendRequest(db, current, friendId, now).db;
    var rows := PendingFor(db', friendId);
    forall k | 0 <= k < |rows| ensures FindUser(db', Some(rows[k].userId)).Some? {
      var i :| 0 <= i < |db'.friendships| && db'.friendships[i] == rows[k];
      SenderKnownAfterSend(db, current, friendId, now, i);
    }
    RequestListComplete(db', friendId, |db.friendships|);
  }

  /** After a request from an existing user, every friendship row still
      names an existing sender. */
  lemma SenderKnownAfterSend(db: Db, current: Option<int>, friendId: Option<int>, now: Tick, i: int)
    requires FriendshipsReferToUsers(db)
    requires current.Some? && HasUser(db, current.value)
    requires SendFriendRequest(db, current, friendId, now).status == Ok
    requires 0 <= i < |SendFriendRequest(db, current, friendId, now).db.friendships|
    ensures var db' := SendFriendRequest(db, current, friendId, now).db;
      HasUser(db', db'.friendships[i].userId)
  {
    var db' := SendFriendRequest(db, current, friendId, now).db;
    if i < |db.friendships| {
      assert db'.friendships[i] == db.friendships[i];
      assert HasUser(db, db.friendships[i].userId);
    }
  }

  /** Accepting a request makes its two parties friends of each other. */
  lemma AcceptMakesFriends(db: Db, requestId: Option<int>)
    requires RespondFriendRequest(db, requestId, Some("accept")).status == Ok
    ensures var fs' := RespondFriendRequest(db, requestId, Some("accept")).db.friendships;
      exists i :: 0 <= i < |db.friendships| && Some(db.friendships[i].id) == requestId
        && db.friendships[i].friendId in FriendIds(fs', Some(db.friendships[i].userId))
        && db.friendships[i].userId in FriendIds(fs', Some(db.friendships[i].friendId))
  {
  }

  /** With at most one row per pair, rejecting a request leaves its parties
      not friends: no other row could link them. */
  lemma RejectLeavesStrangers(db: Db, requestId: Option<int>, response: Option<string>)
    requires OnePerPair(db.friendships)
    requires response != Some("accept")
    requires RespondFriendRequest(db, requestId, response).status == Ok
    ensures var fs' := RespondFriendRequest(db, requestId, response).db.friendships;
      exists i :: 0 <= i < |db.friendships| && Some(db.friendships[i].id) == requestId
        && db.friendships[i].friendId !in FriendIds(fs', Some(db.friendships[i].userId))
  {
  }
}
