/** The server's database (main-1.py, the SQLAlchemy models) as an immutable
    value: one sequence of rows per table, in insertion order. Every route of
    the server is modelled as a pure function from a `Db` to a reply holding an
    HTTP status and, for the routes that write, the database after the commit. */
module ServerDb {
  import opened Common

  /** A UTC datetime, as a whole number of seconds. */
  type Tick = int

  /** Seconds in the thirty-day VIP membership period. */
  const VipPeriod: int := 30 * 24 * 60 * 60

  datatype User = User(
    id: int,
    username: string,
    password: string,          // the salted hash, never the password itself
    vipLevel: Option<int>,     // id of a `VipLevel` row
    vipExpireDate: Option<Tick>)

  datatype FriendStatus = Pending | Accepted | Rejected

  /** A friend request from `userId` to `friendId`. */
  datatype Friendship = Friendship(
    id: int,
    userId: int,
    friendId: int,
    status: FriendStatus,
    createdAt: Tick)

  /** A purchasable VIP tier; its floating-point price plays no part in any
      rule and is not carried. */
  datatype VipLevel = VipLevel(
    id: int,
    name: string,
    level: int,
    maxPrivateCircles: int)

  datatype Circle = Circle(
    id: int,
    name: string,
    description: Option<string>,
    creatorId: int,
    isPrivate: bool,
    createdAt: Tick)

  datatype Role = MemberRole | Moderator | Admin

  datatype CircleMember = CircleMember(
    id: int,
    circleId: int,
    userId: int,
    role: Role,
    joinedAt: Tick)

  datatype Post = Post(
    id: int,
    title: string,
    content: string,
    authorId: int,
    circleId: int,
    createdAt: Tick)

  datatype Comment = Comment(
    id: int,
    content: string,
    authorId: int,
    postId: int,
    createdAt: Tick)

  datatype Db = Db(
    users: seq<User>,
    friendships: seq<Friendship>,
    vipLevels: seq<VipLevel>,
    circles: seq<Circle>,
    members: seq<CircleMember>,
    posts: seq<Post>,
    comments: seq<Comment>)

  /** The HTTP statuses the routes answer with; `ServerError` stands for the
      500 Flask sends when a route raises (a missing row dereferenced, a NOT
      NULL column left empty), in which case nothing is committed. */
  datatype Status = Ok | Created | BadRequest | Forbidden | NotFound | ServerError

  /** The reply of a route that may write: its status, the database after it,
      and the id of the row it reports as created, if any. */
  datatype Reply = Reply(status: Status, db: Db, newId: Option<int>)

  /** The reply of a read-only route: its status and the listed items (empty
      unless the status is `Ok`). */
  datatype Listing<V> = Listing(status: Status, items: seq<V>)

  // Primary keys of the tables.
  function UserKey(u: User): int { u.id }
  function FriendshipKey(f: Friendship): int { f.id }
  function VipLevelKey(l: VipLevel): int { l.id }
  function CircleKey(c: Circle): int { c.id }
  function MemberKey(m: CircleMember): int { m.id }
  function PostKey(p: Post): int { p.id }

  /** `User.query.get(id)`; a missing id (Python `None`) finds nothing. */
  function FindUser(db: Db, id: Option<int>): (r: Option<User>)
    ensures r.Some? ==> r.value in db.users && Some(r.value.id) == id
    ensures r.None? ==> forall i :: 0 <= i < |db.users| ==> Some(db.users[i].id) != id
  {
    Find(db.users, (u: User) => Some(u.id) == id)
  }

  /** `VIPLevel.query.get(id)`. */
  function FindVipLevel(db: Db, id: Option<int>): (r: Option<VipLevel>)
    ensures r.Some? ==> r.value in db.vipLevels && Some(r.value.id) == id
    ensures r.None? ==> forall i :: 0 <= i < |db.vipLevels| ==> Some(db.vipLevels[i].id) != id
  {
    Find(db.vipLevels, (l: VipLevel) => Some(l.id) == id)
  }

  /** `Circle.query.get(id)`. */
  function FindCircle(db: Db, id: int): (r: Option<Circle>)
    ensures r.Some? ==> r.value in db.circles && r.value.id == id
    ensures r.None? ==> forall i :: 0 <= i < |db.circles| ==> db.circles[i].id != id
  {
    Find(db.circles, (c: Circle) => c.id == id)
  }

  /** The first membership row of `user` in circle `circleId`
      (`CircleMember.query.filter_by(circle_id=…, user_id=…).first()`);
      `user_id == None` matches no row, as the column is NOT NULL. */
  function FindMembership(db: Db, circleId: int, user: Option<int>): (r: Option<CircleMember>)
    ensures r.Some? ==> r.value in db.members && r.value.circleId == circleId && Some(r.value.userId) == user
    ensures r.None? <==> !IsMember(db, circleId, user)
  {
    Find(db.members, MemberOf(circleId, user))
  }

  /** The row filter of `FindMembership`: the row ties `user` to circle
      `circleId`. */
  function MemberOf(circleId: int, user: Option<int>): CircleMember -> bool {
    (m: CircleMember) => m.circleId == circleId && Some(m.userId) == user
  }

  /** The membership `FindMembership` returns is the first row of `user` in
      `circleId`: no earlier row ties them. */
  lemma FirstMembership(db: Db, circleId: int, user: Option<int>)
    ensures FindMembership(db, circleId, user).Some? ==> exists k :: (0 <= k < |db.members|
      && db.members[k] == FindMembership(db, circleId, user).value
      && forall j :: 0 <= j < k ==> !(db.members[j].circleId == circleId && Some(db.members[j].userId) == user))
  {
    FindIsFirst(db.members, MemberOf(circleId, user));
  }

  /** With one membership row appended, the first membership of `user` in
      `circleId` is the old one if there was one, and otherwise the new row
      when it matches. */
  lemma MembershipAppend(db: Db, db': Db, m: CircleMember, circleId: int, user: Option<int>)
    requires db'.members == db.members + [m]
    ensures FindMembership(db', circleId, user)
         == (if FindMembership(db, circleId, user).Some? then FindMembership(db, circleId, user)
             else if m.circleId == circleId && Some(m.userId) == user then Some(m) else None)
  {
    FindAppend(db.members, m, MemberOf(circleId, user));
  }

  /** Some membership row ties `user` to circle `circleId`. */
  predicate IsMember(db: Db, circleId: int, user: Option<int>) {
    exists i :: 0 <= i < |db.members| && db.members[i].circleId == circleId && Some(db.members[i].userId) == user
  }

  /** The circle is private and created by `user`. */
  predicate OwnsPrivate(c: Circle, user: int) {
    c.creatorId == user && c.isPrivate
  }

  /** The number of private circles `user` has created
      (`Circle.query.filter_by(creator_id=…, is_private=True).count()`). */
  function PrivateCount(circles: seq<Circle>, user: int): nat {
    |Filter(circles, (c: Circle) => OwnsPrivate(c, user))|
  }

  /** Creating one more private circle raises its creator's count by one. */
  lemma PrivateCountAppend(circles: seq<Circle>, c: Circle, user: int)
    ensures PrivateCount(circles + [c], user)
         == PrivateCount(circles, user) + (if OwnsPrivate(c, user) then 1 else 0)
  {
    FilterAppend(circles, c, (c': Circle) => OwnsPrivate(c', user));
  }

  /** The database with only the users table replaced. */
  predicate OnlyUsersChanged(db: Db, db': Db) {
    db' == db.(users := db'.users)
  }

  /** The database with only the friendships table replaced. */
  predicate OnlyFriendshipsChanged(db: Db, db': Db) {
    db' == db.(friendships := db'.friendships)
  }

  /** Some user row has id `id`. */
  predicate HasUser(db: Db, id: int) {
    exists i :: 0 <= i < |db.users| && db.users[i].id == id
  }

  /** The foreign keys `friendship.user_id` and `friendship.friend_id` name
      existing users. The schema declares them, but SQLite does not enforce
      foreign keys unless asked to, so this is an assumption, not a fact. */
  predicate FriendshipsReferToUsers(db: Db) {
    forall i :: 0 <= i < |db.friendships| ==>
      HasUser(db, db.friendships[i].userId) && HasUser(db, db.friendships[i].friendId)
  }

  /** The foreign key `post.author_id` names an existing user (declared, not
      enforced, as above). */
  predicate PostsReferToUsers(db: Db) {
    forall i :: 0 <= i < |db.posts| ==> HasUser(db, db.posts[i].authorId)
  }
}
