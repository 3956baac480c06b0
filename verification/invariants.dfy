/** The invariant of the server's database, and its preservation by every
    route that writes. Read-only routes return no database, so they preserve
    it trivially. */
module Invariants {
  import opened Common
  import opened ServerDb
  import opened Accounts
  import opened Friends
  import opened Vip
  import opened Circles
  import opened Posts

  /** The creator's first membership row in circle `c` is an admin row,
      so that `.first()` in the invite check finds an admin. */
  predicate CreatorAdministers(db: Db, c: Circle) {
    && FindMembership(db, c.id, Some(c.creatorId)).Some?
    && FindMembership(db, c.id, Some(c.creatorId)).value.role == Admin
  }

  /** Every circle's creator administers it. */
  predicate CreatorsAreAdmins(db: Db) {
    forall i :: 0 <= i < |db.circles| ==> CreatorAdministers(db, db.circles[i])
  }

  /** Every membership row names an existing circle. */
  predicate MembersInCircles(db: Db) {
    forall j :: 0 <= j < |db.members| ==> FindCircle(db, db.members[j].circleId).Some?
  }

  /** The circle facts of the invariant: every membership row names an
      existing circle, and every circle's creator administers it. */
  predicate CircleFacts(db: Db) {
    MembersInCircles(db) && CreatorsAreAdmins(db)
  }

  /** The key facts of the invariant: primary keys are unique, so are
      usernames, and at most one friendship row exists per pair of users. */
  predicate KeyFacts(db: Db) {
    && UniqueBy(db.users, UserKey)
    && UniqueBy(db.friendships, FriendshipKey)
    && UniqueBy(db.circles, CircleKey)
    && UniqueBy(db.members, MemberKey)
    && UniqueBy(db.posts, PostKey)
    && UniqueUsernames(db.users)
    && OnePerPair(db.friendships)
  }

  /** The database invariant. */
  predicate Valid(db: Db) {
    KeyFacts(db) && CircleFacts(db)
  }

  /** The circle facts depend only on the circles and membership tables. */
  lemma CircleFactsFrame(db: Db, db': Db)
    requires db'.circles == db.circles && db'.members == db.members
    requires CircleFacts(db)
    ensures CircleFacts(db')
  {
    forall i | 0 <= i < |db'.circles| ensures CreatorAdministers(db', db'.circles[i]) {
      assert CreatorAdministers(db, db.circles[i]);
    }
    forall j | 0 <= j < |db'.members| ensures FindCircle(db', db'.members[j].circleId).Some? {
      assert FindCircle(db, db.members[j].circleId).Some?;
    }
  }

  /** A membership row whose circle exists keeps the circle facts. */
  lemma CircleFactsJoin(db: Db, db': Db, m: CircleMember)
    requires CircleFacts(db)
    requires db'.circles == db.circles && db'.members == db.members + [m]
    requires FindCircle(db, m.circleId).Some?
    ensures CircleFacts(db')
  {
    forall i | 0 <= i < |db'.circles| ensures CreatorAdministers(db', db'.circles[i]) {
      var c := db'.circles[i];
      MembershipAppend(db, db', m, c.id, Some(c.creatorId));
      assert CreatorAdministers(db, db.circles[i]);
    }
    forall j | 0 <= j < |db'.members| ensures FindCircle(db', db'.members[j].circleId).Some? {
      if j < |db.members| {
        assert db'.members[j] == db.members[j];
        assert FindCircle(db, db.members[j].circleId).Some?;
      }
    }
  }

  /** No membership row names a circle id above every existing one. */
  lemma NoMembersOfFreshCircle(db: Db, id: int, j: int)
    requires MembersInCircles(db)
    requires forall k :: 0 <= k < |db.circles| ==> db.circles[k].id < id
    requires 0 <= j < |db.members|
    ensures db.members[j].circleId != id
  {
    var c := FindCircle(db, db.members[j].circleId).value;
    assert c in db.circles;
    var k :| 0 <= k < |db.circles| && db.circles[k] == c;
  }

  /** A fresh circle together with its creator's admin row keeps the circle
      facts. */
  lemma CircleFactsFound(db: Db, db': Db, c: Circle, m: CircleMember)
    requires CircleFacts(db)
    requires db'.circles == db.circles + [c] && db'.members == db.members + [m]
    requires forall k :: 0 <= k < |db.circles| ==> db.circles[k].id < c.id
    requires m.circleId == c.id && m.userId == c.creatorId && m.role == Admin
    ensures CircleFacts(db')
  {
    forall i | 0 <= i < |db'.circles| ensures CreatorAdministers(db', db'.circles[i]) {
      if i < |db.circles| {
        MembershipAppend(db, db', m, db.circles[i].id, Some(db.circles[i].creatorId));
        assert CreatorAdministers(db, db.circles[i]);
      } else {
        FoundCircleAdministered(db, db', c, m);
      }
    }
    forall j | 0 <= j < |db'.members| ensures FindCircle(db', db'.members[j].circleId).Some? {
      if j < |db.members| {
        OldMemberInCircle(db, db', j);
      } else {
        assert db'.circles[|db.circles|] == c;
      }
    }
  }

  /** The creator of a fresh circle administers it once their admin row is
      appended. */
  lemma FoundCircleAdministered(db: Db, db': Db, c: Circle, m: CircleMember)
    requires MembersInCircles(db)
    requires db'.members == db.members + [m]
    requires forall k :: 0 <= k < |db.circles| ==> db.circles[k].id < c.id
    requires m.circleId == c.id && m.userId == c.creatorId && m.role == Admin
    ensures CreatorAdministers(db', c)
  {
    forall j | 0 <= j < |db.members| ensures db.members[j].circleId != c.id {
      NoMembersOfFreshCircle(db, c.id, j);
    }
    MembershipAppend(db, db', m, c.id, Some(c.creatorId));
  }

  /** An old membership row still names an existing circle once circles are
      only appended. */
  lemma OldMemberInCircle(db: Db, db': Db, j: int)
    requires MembersInCircles(db)
    requires |db.circles| <= |db'.circles| && db'.circles[..|db.circles|] == db.circles
    requires 0 <= j < |db.members| <= |db'.members| && db'.members[j] == db.members[j]
    ensures FindCircle(db', db'.members[j].circleId).Some?
  {
    var c := FindCircle(db, db.members[j].circleId).value;
    assert c in db.circles;
    var k :| 0 <= k < |db.circles| && db.circles[k] == c;
    assert db'.circles[k] == db.circles[k];
  }

  /** A database with no rows besides the VIP tiers satisfies the invariant. */
  lemma EmptyIsValid(levels: seq<VipLevel>)
    ensures Valid(Db([], [], levels, [], [], [], []))
  {
  }

  lemma RegisterPreservesValid(db: Db, username: string, password: string, hashed: string)
    requires Valid(db)
    ensures Valid(Register(db, username, password, hashed).db)
  {
    RegisterKeepsKeys(db, username, password, hashed);
    CircleFactsFrame(db, Register(db, username, password, hashed).db);
  }

  lemma RegisterKeepsKeys(db: Db, username: string, password: string, hashed: string)
    requires KeyFacts(db)
    ensures KeyFacts(Register(db, username, password, hashed).db)
  {
  }

  lemma SendPreservesValid(db: Db, current: Option<int>, friendId: Option<int>, now: Tick)
    requires Valid(db)
    ensures Valid(SendFriendRequest(db, current, friendId, now).db)
  {
    SendKeepsKeys(db, current, friendId, now);
    CircleFactsFrame(db, SendFriendRequest(db, current, friendId, now).db);
  }

  lemma SendKeepsKeys(db: Db, current: Option<int>, friendId: Option<int>, now: Tick)
    requires KeyFacts(db)
    ensures KeyFacts(SendFriendRequest(db, current, friendId, now).db)
  {
  }

  lemma RespondPreservesValid(db: Db, requestId: Option<int>, response: Option<string>)
    requires Valid(db)
    ensures Valid(RespondFriendRequest(db, requestId, response).db)
  {
    RespondKeepsKeys(db, requestId, response);
    CircleFactsFrame(db, RespondFriendRequest(db, requestId, response).db);
  }

  lemma RespondKeepsKeys(db: Db, requestId: Option<int>, response: Option<string>)
    requires KeyFacts(db)
    ensures KeyFacts(RespondFriendRequest(db, requestId, response).db)
  {
  }

  lemma PurchasePreservesValid(db: Db, current: Option<int>, levelId: Option<int>, now: Tick)
    requires Valid(db)
    ensures Valid(PurchaseVip(db, current, levelId, now).db)
  {
    PurchaseKeepsKeys(db, current, levelId, now);
    CircleFactsFrame(db, PurchaseVip(db, current, levelId, now).db);
  }

  lemma PurchaseKeepsKeys(db: Db, current: Option<int>, levelId: Option<int>, now: Tick)
    requires KeyFacts(db)
    ensures KeyFacts(PurchaseVip(db, current, levelId, now).db)
  {
  }

  lemma CreateCirclePreservesValid(db: Db, current: Option<int>, name: Option<string>, description: Option<string>,
                                   isPrivate: bool, now: Tick)
    requires Valid(db)
    ensures Valid(CreateCircle(db, current, name, description, isPrivate, now).db)
  {
    CreateCircleKeepsKeys(db, current, name, description, isPrivate, now);
    var r := CreateCircle(db, current, name, description, isPrivate, now);
    if r.status == Ok {
      var c := r.db.circles[|db.circles|];
      var m := r.db.members[|db.members|];
      assert r.db.circles == db.circles + [c];
      assert r.db.members == db.members + [m];
      CircleFactsFound(db, r.db, c, m);
    } else {
      CircleFactsFrame(db, r.db);
    }
  }

  lemma CreateCircleKeepsKeys(db: Db, current: Option<int>, name: Option<string>, description: Option<string>,
                               isPrivate: bool, now: Tick)
    requires KeyFacts(db)
    ensures KeyFacts(CreateCircle(db, current, name, description, isPrivate, now).db)
  {
  }

  lemma InvitePreservesValid(db: Db, current: Option<int>, circleId: int, userId: Option<int>, now: Tick)
    requires Valid(db)
    ensures Valid(InviteToCircle(db, current, circleId, userId, now).db)
  {
    InviteKeepsKeys(db, current, circleId, userId, now);
    var r := InviteToCircle(db, current, circleId, userId, now);
    if r.status == Ok {
      var m := r.db.members[|db.members|];
      assert r.db.members == db.members + [m];
      CircleFactsJoin(db, r.db, m);
    } else {
      CircleFactsFrame(db, r.db);
    }
  }

  lemma InviteKeepsKeys(db: Db, current: Option<int>, circleId: int, userId: Option<int>, now: Tick)
    requires KeyFacts(db)
    ensures KeyFacts(InviteToCircle(db, current, circleId, userId, now).db)
  {
  }

  lemma CreatePostPreservesValid(db: Db, circleId: int, current: Option<int>, title: Option<string>,
                                 content: Option<string>, now: Tick)
    requires Valid(db)
    ensures Valid(CreatePost(db, circleId, current, title, content, now).db)
  {
    CreatePostKeepsKeys(db, circleId, current, title, content, now);
    CircleFactsFrame(db, CreatePost(db, circleId, current, title, content, now).db);
  }

  lemma CreatePostKeepsKeys(db: Db, circleId: int, current: Option<int>, title: Option<string>,
                             content: Option<string>, now: Tick)
    requires KeyFacts(db)
    ensures KeyFacts(CreatePost(db, circleId, current, title, content, now).db)
  {
  }

  /** Under the invariant the creator of a circle may always invite into it,
      whatever other membership rows they have there. */
  lemma CreatorCanInvite(db: Db, i: int)
    requires Valid(db)
    requires 0 <= i < |db.circles|
    ensures CanInvite(db, db.circles[i].id, Some(db.circles[i].creatorId))
  {
  }
}
