/** Circles (main-1.py, `create_circle`, `invite_to_circle`, `get_circles`):
    anyone may create a public circle; a private one needs a VIP tier and is
    capped per tier; the creator becomes the circle's admin, and admins and
    moderators may invite. Private circles are listed to their members only. */
module Circles {
  import opened Common
  import opened ServerDb

  /** Python truthiness of `user.vip_level`: no tier, or tier id 0, is none. */
  predicate HasVip(u: User) {
    u.vipLevel.Some? && u.vipLevel.value != 0
  }

  /** The caller may create one more private circle: they have a user row and
      a tier, the tier exists, and their private circles are below its cap. */
  predicate PrivateAllowed(db: Db, user: int) {
    && FindUser(db, Some(user)).Some?
    && HasVip(FindUser(db, Some(user)).value)
    && FindVipLevel(db, FindUser(db, Some(user)).value.vipLevel).Some?
    && PrivateCount(db.circles, user)
       < FindVipLevel(db, FindUser(db, Some(user)).value.vipLevel).value.maxPrivateCircles
  }

  /** `POST /api/circles`. For a private circle: a caller without a user row
      makes the route raise (500), no tier or a reached cap gives 403, and a
      tier id with no tier row raises (500). A missing caller or name leaves a
      NOT NULL column empty (500). Otherwise one circle is added under a fresh
      id, together with an `Admin` membership of the creator, and its id is
      returned. */
  function CreateCircle(db: Db, current: Option<int>, name: Option<string>, description: Option<string>,
                        isPrivate: bool, now: Tick): (r: Reply)
    ensures r.status in {Ok, Forbidden, ServerError}
    ensures r.status != Ok ==> r.db == db && r.newId.None?
    ensures r.status == Ok <==> current.Some? && name.Some? && (!isPrivate || PrivateAllowed(db, current.value))
    ensures r.status == Forbidden <==>
      && isPrivate
      && FindUser(db, current).Some?
      && (|| !HasVip(FindUser(db, current).value)
          || (&& FindVipLevel(db, FindUser(db, current).value.vipLevel).Some?
              && PrivateCount(db.circles, current.value)
                 >= FindVipLevel(db, FindUser(db, current).value.vipLevel).value.maxPrivateCircles))
    ensures r.status == Ok ==>
      && r.db == db.(circles := r.db.circles, members := r.db.members)
      && |r.db.circles| == |db.circles| + 1 && r.db.circles[..|db.circles|] == db.circles
      && |r.db.members| == |db.members| + 1 && r.db.members[..|db.members|] == db.members
      && var c := r.db.circles[|db.circles|];
         var m := r.db.members[|db.members|];
         && r.newId == Some(c.id)
         && (forall i :: 0 <= i < |db.circles| ==> db.circles[i].id < c.id)
         && Some(c.creatorId) == current && c.isPrivate == isPrivate
         && Some(c.name) == name && c.description == description && c.createdAt == now
         && m.circleId == c.id && m.userId == c.creatorId && m.role == Admin && m.joinedAt == now
         && (forall i :: 0 <= i < |db.members| ==> db.members[i].id < m.id)
  {
    if isPrivate && FindUser(db, current).None? then Reply(ServerError, db, None)
    else if isPrivate && !HasVip(FindUser(db, current).value) then Reply(Forbidden, db, None)
    else if isPrivate && FindVipLevel(db, FindUser(db, current).value.vipLevel).None? then Reply(ServerError, db, None)
    else if isPrivate && PrivateCount(db.circles, current.value)
                         >= FindVipLevel(db, FindUser(db, current).value.vipLevel).value.maxPrivateCircles
    then Reply(Forbidden, db, None)
    else if current.None? || name.None? then Reply(ServerError, db, None)
    else
      var c := Circle(NextId(db.circles, CircleKey), name.value, description, current.value, isPrivate, now);
      var m := CircleMember(NextId(db.members, MemberKey), c.id, current.value, Admin, now);
      Reply(Ok, db.(circles := db.circles + [c], members := db.members + [m]), Some(c.id))
  }

  /** The per-tier cap holds after every successful private creation: the
      creator's private circles number at most the cap of their tier. */
  lemma CreateRespectsCap(db: Db, current: Option<int>, name: Option<string>, description: Option<string>, now: Tick)
    requires CreateCircle(db, current, name, description, true, now).status == Ok
    ensures var db' := CreateCircle(db, current, name, description, true, now).db;
      && PrivateCount(db'.circles, current.value) == PrivateCount(db.circles, current.value) + 1
      && PrivateCount(db'.circles, current.value)
         <= FindVipLevel(db, FindUser(db, current).value.vipLevel).value.maxPrivateCircles
  {
    var db' := CreateCircle(db, current, name, description, true, now).db;
    assert db'.circles == db.circles + [db'.circles[|db.circles|]];
    PrivateCountAppend(db.circles, db'.circles[|db.circles|], current.value);
  }

  /** A public circle is never refused for lack of a tier. */
  lemma PublicNeverForbidden(db: Db, current: Option<int>, name: Option<string>, description: Option<string>, now: Tick)
    ensures CreateCircle(db, current, name, description, false, now).status != Forbidden
    ensures current.Some? && name.Some? ==> CreateCircle(db, current, name, description, false, now).status == Ok
  {
  }

  /** The caller may invite into the circle: their first membership row in it
      has role admin or moderator. */
  predicate CanInvite(db: Db, circleId: int, current: Option<int>) {
    && FindMembership(db, circleId, current).Some?
    && FindMembership(db, circleId, current).value.role in {Admin, Moderator}
  }

  /** `POST /api/circles/<id>/invite`: an unknown circle gives 404; a caller
      who is not a member, or whose role is plain member, gets 403; a missing
      invitee id leaves a NOT NULL column empty (500). Otherwise one
      membership with the default role `MemberRole` is added; an existing
      membership of the invitee is not looked for. */
  function InviteToCircle(db: Db, current: Option<int>, circleId: int, userId: Option<int>, now: Tick): (r: Reply)
    ensures r.status in {Ok, NotFound, Forbidden, ServerError}
    ensures r.status == NotFound <==> FindCircle(db, circleId).None?
    ensures r.status == Forbidden <==> FindCircle(db, circleId).Some? && !CanInvite(db, circleId, current)
    ensures r.status == ServerError <==> FindCircle(db, circleId).Some? && CanInvite(db, circleId, current) && userId.None?
    ensures r.status != Ok ==> r.db == db
    ensures r.status == Ok ==>
      && r.db == db.(members := r.db.members)
      && |r.db.members| == |db.members| + 1 && r.db.members[..|db.members|] == db.members
      && var m := r.db.members[|db.members|];
         && m.circleId == circleId && Some(m.userId) == userId && m.role == MemberRole && m.joinedAt == now
         && (forall i :: 0 <= i < |db.members| ==> db.members[i].id < m.id)
  {
    if FindCircle(db, circleId).None? then Reply(NotFound, db, None)
    else if !CanInvite(db, circleId, current) then Reply(Forbidden, db, None)
    else if userId.None? then Reply(ServerError, db, None)
    else
      var m := CircleMember(NextId(db.members, MemberKey), circleId, userId.value, MemberRole, now);
      Reply(Ok, db.(members := db.members + [m]), None)
  }

  /** After a successful invitation the invitee is a member of the circle,
      and every earlier member still is. */
  lemma InviteeBecomesMember(db: Db, current: Option<int>, circleId: int, userId: Option<int>, now: Tick, c: int, u: Option<int>)
    requires InviteToCircle(db, current, circleId, userId, now).status == Ok
    ensures IsMember(InviteToCircle(db, current, circleId, userId, now).db, circleId, userId)
    ensures IsMember(db, c, u) ==> IsMember(InviteToCircle(db, current, circleId, userId, now).db, c, u)
  {
  }

  /** A plain member can never invite, whatever else holds. */
  lemma PlainMemberCannotInvite(db: Db, current: Option<int>, circleId: int, userId: Option<int>, now: Tick)
    requires FindCircle(db, circleId).Some?
    requires FindMembership(db, circleId, current).Some? && FindMembership(db, circleId, current).value.role == MemberRole
    ensures InviteToCircle(db, current, circleId, userId, now) == Reply(Forbidden, db, None)
  {
  }

  /** The circle is shown to the caller: it is public, or the caller has a
      membership row in it. */
  predicate Visible(db: Db, c: Circle, current: Option<int>) {
    IsPublic(c) || IsMember(db, c.id, current)
  }

  predicate IsPublic(c: Circle) {
    !c.isPrivate
  }

  predicate PrivateMemberOf(db: Db, c: Circle, current: Option<int>) {
    c.isPrivate && IsMember(db, c.id, current)
  }

  /** The circles `get_circles` lists: every public circle, then the private
      circles the caller belongs to, each in table order. The join with the
      membership table yields a circle once however many membership rows
      match, since the query returns whole circle entities. */
  function ListedCircles(db: Db, current: Option<int>): (rows: seq<Circle>)
    ensures forall k :: 0 <= k < |rows| ==> rows[k] in db.circles && Visible(db, rows[k], current)
    ensures forall i :: 0 <= i < |db.circles| && Visible(db, db.circles[i], current) ==> db.circles[i] in rows
    ensures UniqueBy(db.circles, CircleKey) ==> UniqueBy(rows, CircleKey)
  {
    var pub := Filter(db.circles, IsPublic);
    var priv := Filter(db.circles, (c: Circle) => PrivateMemberOf(db, c, current));
    assert forall k :: 0 <= k < |pub| ==> (pub + priv)[k] == pub[k];
    assert forall k :: 0 <= k < |priv| ==> (pub + priv)[|pub| + k] == priv[k];
    assert UniqueBy(db.circles, CircleKey) ==> UniqueBy(pub + priv, CircleKey) by {
      if UniqueBy(db.circles, CircleKey) {
        DisjointFiltersUnique(db.circles, IsPublic, (c: Circle) => PrivateMemberOf(db, c, current));
      }
    }
    pub + priv
  }

  /** Two filters of a table with unique keys that no row passes both of
      list every row at most once between them. */
  lemma DisjointFiltersUnique(s: seq<Circle>, p: Circle -> bool, q: Circle -> bool)
    requires UniqueBy(s, CircleKey)
    requires forall c :: !(p(c) && q(c))
    ensures UniqueBy(Filter(s, p) + Filter(s, q), CircleKey)
  {
    var a := Filter(s, p);
    var b := Filter(s, q);
    FilterKeepsUnique(s, p, CircleKey);
    FilterKeepsUnique(s, q, CircleKey);
    forall i, j | 0 <= i < j < |a + b| ensures CircleKey((a + b)[i]) != CircleKey((a + b)[j]) {
      if j < |a| {
        assert (a + b)[i] == a[i] && (a + b)[j] == a[j];
      } else if |a| <= i {
        assert (a + b)[i] == b[i - |a|] && (a + b)[j] == b[j - |a|];
      } else {
        var x, y := a[i], b[j - |a|];
        assert (a + b)[i] == x && (a + b)[j] == y;
        var m :| 0 <= m < |s| && s[m] == x;
        var n :| 0 <= n < |s| && s[n] == y;
        assert m != n;
      }
    }
  }

  /** One entry of the circle list. */
  datatype CircleView = CircleView(id: int, name: string, description: Option<string>, isPrivate: bool,
                                   creator: string, memberCount: nat)

  /** The number of membership rows of circle `circleId` (`circle.members.count()`). */
  function MemberCount(db: Db, circleId: int): nat {
    |Filter(db.members, (m: CircleMember) => m.circleId == circleId)|
  }

  /** The view of one circle, or `None` when its creator has no user row
      (`User.query.get(creator_id).username` then raises). */
  function ViewCircle(db: Db, c: Circle): (r: Option<CircleView>)
    ensures r.Some? <==> FindUser(db, Some(c.creatorId)).Some?
    ensures r.Some? ==>
      && r.value.id == c.id && r.value.name == c.name && r.value.description == c.description
      && r.value.isPrivate == c.isPrivate && r.value.memberCount == MemberCount(db, c.id)
      && r.value.creator == FindUser(db, Some(c.creatorId)).value.username
  {
    match FindUser(db, Some(c.creatorId))
    case None => None
    case Some(u) => Some(CircleView(c.id, c.name, c.description, c.isPrivate, u.username, MemberCount(db, c.id)))
  }

  /** `GET /api/circles`: the listed circles with creator name and member
      count; 500 when a listed circle's creator has no user row. */
  function GetCircles(db: Db, current: Option<int>): (r: Listing<CircleView>)
    ensures r.status in {Ok, ServerError}
    ensures r.status == ServerError ==> r.items == []
    ensures r.status == Ok <==> forall k :: 0 <= k < |ListedCircles(db, current)| ==>
      FindUser(db, Some(ListedCircles(db, current)[k].creatorId)).Some?
    ensures r.status == Ok ==> |r.items| == |ListedCircles(db, current)|
    ensures r.status == Ok ==> forall k :: 0 <= k < |r.items| ==>
      && r.items[k].id == ListedCircles(db, current)[k].id
      && r.items[k].isPrivate == ListedCircles(db, current)[k].isPrivate
      && r.items[k].memberCount == MemberCount(db, r.items[k].id)
      && r.items[k].name == ListedCircles(db, current)[k].name
      && r.items[k].description == ListedCircles(db, current)[k].description
      && r.items[k].creator == FindUser(db, Some(ListedCircles(db, current)[k].creatorId)).value.username
    ensures r.status == Ok && UniqueBy(db.circles, CircleKey) ==>
      forall k, k' :: 0 <= k < k' < |r.items| ==> r.items[k].id != r.items[k'].id
  {
    var rows := ListedCircles(db, current);
    match MapAll(rows, (c: Circle) => ViewCircle(db, c))
    case None => Listing(ServerError, [])
    case Some(views) => Listing(Ok, views)
  }

  /** Every public circle, and every private circle the caller belongs to,
      is in the route's answer. */
  lemma VisibleIsListed(db: Db, current: Option<int>, i: int)
    requires GetCircles(db, current).status == Ok
    requires 0 <= i < |db.circles| && Visible(db, db.circles[i], current)
    ensures exists k :: 0 <= k < |GetCircles(db, current).items| && GetCircles(db, current).items[k].id == db.circles[i].id
  {
  }

  /** Every circle in the route's answer is public or has the caller as a
      member; private circles are never shown to outsiders. Circle ids are
      primary keys, hence unique. */
  lemma ListedIsVisible(db: Db, current: Option<int>, i: int, k: int)
    requires GetCircles(db, current).status == Ok
    requires 0 <= i < |db.circles|
    requires forall j, j' :: 0 <= j < j' < |db.circles| ==> db.circles[j].id != db.circles[j'].id
    requires 0 <= k < |GetCircles(db, current).items| && GetCircles(db, current).items[k].id == db.circles[i].id
    ensures Visible(db, db.circles[i], current)
  {
  }
}
