/** Posts in circles (main-1.py, `get_circle_posts` and `create_post`): both
    routes apply the same access rule, and the listing is newest first. */
module Posts {
  import opened Common
  import opened ServerDb

  /** The access rule shared by both post routes: 404 for an unknown circle,
      403 for a private circle the caller has no membership row in, `Ok`
      otherwise. */
  function CircleAccess(db: Db, circleId: int, current: Option<int>): (s: Status)
    ensures s in {Ok, NotFound, Forbidden}
    ensures s == NotFound <==> FindCircle(db, circleId).None?
    ensures s == Forbidden <==>
      FindCircle(db, circleId).Some? && FindCircle(db, circleId).value.isPrivate && !IsMember(db, circleId, current)
  {
    match FindCircle(db, circleId)
    case None => NotFound
    case Some(c) => if c.isPrivate && FindMembership(db, circleId, current).None? then Forbidden else Ok
  }

  /** One entry of the post list. */
  datatype PostView = PostView(id: int, title: string, content: string, author: string, createdAt: Tick,
                               commentCount: nat)

  function ViewTime(v: PostView): int { v.createdAt }

  /** The number of comments on post `postId` (`post.comments.count()`). */
  function CommentCount(db: Db, postId: int): nat {
    |Filter(db.comments, (c: Comment) => c.postId == postId)|
  }

  /** The view of one post, or `None` when its author has no user row. */
  function ViewPost(db: Db, p: Post): (r: Option<PostView>)
    ensures r.Some? <==> FindUser(db, Some(p.authorId)).Some?
    ensures r.Some? ==> r.value.id == p.id && r.value.createdAt == p.createdAt && r.value.title == p.title
    ensures r.Some? ==>
      && r.value.content == p.content && r.value.commentCount == CommentCount(db, p.id)
      && r.value.author == FindUser(db, Some(p.authorId)).value.username
  {
    match FindUser(db, Some(p.authorId))
    case None => None
    case Some(u) => Some(PostView(p.id, p.title, p.content, u.username, p.createdAt, CommentCount(db, p.id)))
  }

  /** The posts of circle `circleId`, in table order. */
  function PostsIn(db: Db, circleId: int): (rows: seq<Post>)
    ensures forall k :: 0 <= k < |rows| ==> rows[k] in db.posts && rows[k].circleId == circleId
    ensures forall i :: 0 <= i < |db.posts| && db.posts[i].circleId == circleId ==> db.posts[i] in rows
  {
    Filter(db.posts, (p: Post) => p.circleId == circleId)
  }

  /** The views of the circle's posts in table order, if every author exists. */
  function CircleViews(db: Db, circleId: int): Option<seq<PostView>> {
    MapAll(PostsIn(db, circleId), (p: Post) => ViewPost(db, p))
  }

  /** `GET /api/circles/<id>/posts`: refused by `CircleAccess`; otherwise the
      circle's posts, newest first (`order_by(created_at.desc())`; the order
      of posts created at the same instant is not fixed by the query), each
      with its author's name and comment count; 500 when an author has no
      user row. */
  function GetCirclePosts(db: Db, circleId: int, current: Option<int>): (r: Listing<PostView>)
    ensures r.status in {Ok, NotFound, Forbidden, ServerError}
    ensures r.status != Ok ==> r.items == []
    ensures r.status == NotFound || r.status == Forbidden <==> CircleAccess(db, circleId, current) != Ok
    ensures r.status == NotFound <==> CircleAccess(db, circleId, current) == NotFound
    ensures r.status == ServerError <==> CircleAccess(db, circleId, current) == Ok && CircleViews(db, circleId).None?
    ensures r.status == Ok ==> CircleViews(db, circleId).Some?
    ensures r.status == Ok ==> SortedDescBy(r.items, ViewTime)
    ensures r.status == Ok ==> multiset(r.items) == multiset(CircleViews(db, circleId).value)
  {
    var access := CircleAccess(db, circleId, current);
    if access != Ok then Listing(access, [])
    else
      match CircleViews(db, circleId)
      case None => Listing(ServerError, [])
      case Some(views) => Listing(Ok, SortDescBy(views, ViewTime))
  }

  /** Every listed item is a post of the circle. */
  lemma PostListSound(db: Db, circleId: int, current: Option<int>, k: int)
    requires GetCirclePosts(db, circleId, current).status == Ok
    requires 0 <= k < |GetCirclePosts(db, circleId, current).items|
    ensures exists i :: (0 <= i < |db.posts| && db.posts[i].circleId == circleId
      && db.posts[i].id == GetCirclePosts(db, circleId, current).items[k].id)
  {
    var items := GetCirclePosts(db, circleId, current).items;
    var views := CircleViews(db, circleId).value;
    assert items[k] in multiset(items);
    assert items[k] in multiset(views);
    var m :| 0 <= m < |views| && views[m] == items[k];
    ViewIsPost(db, circleId, m);
  }

  /** Each view of the circle shows one of the circle's posts. */
  lemma ViewIsPost(db: Db, circleId: int, m: int)
    requires CircleViews(db, circleId).Some? && 0 <= m < |CircleViews(db, circleId).value|
    ensures exists i :: (0 <= i < |db.posts| && db.posts[i].circleId == circleId
      && db.posts[i].id == CircleViews(db, circleId).value[m].id)
  {
    var rows := PostsIn(db, circleId);
    assert CircleViews(db, circleId).value[m].id == rows[m].id;
    var i :| 0 <= i < |db.posts| && db.posts[i] == rows[m];
  }

  /** Every post of the circle is listed. */
  lemma PostListComplete(db: Db, circleId: int, current: Option<int>, i: int)
    requires GetCirclePosts(db, circleId, current).status == Ok
    requires 0 <= i < |db.posts| && db.posts[i].circleId == circleId
    ensures exists k :: (0 <= k < |GetCirclePosts(db, circleId, current).items|
      && GetCirclePosts(db, circleId, current).items[k].id == db.posts[i].id)
  {
    var items := GetCirclePosts(db, circleId, current).items;
    var rows := PostsIn(db, circleId);
    var views := CircleViews(db, circleId).value;
    var m :| 0 <= m < |rows| && rows[m] == db.posts[i];
    assert views[m].id == db.posts[i].id;
    assert views[m] in multiset(views);
    assert views[m] in multiset(items);
    var k :| 0 <= k < |items| && items[k] == views[m];
  }

  /** `POST /api/circles/<id>/posts`: refused by `CircleAccess` with no
      change; a missing caller, title or content leaves a NOT NULL column
      empty (500); otherwise one post by the caller is added to the circle
      under a fresh id, which is returned. */
  function CreatePost(db: Db, circleId: int, current: Option<int>, title: Option<string>, content: Option<string>,
                      now: Tick): (r: Reply)
    ensures r.status in {Ok, NotFound, Forbidden, ServerError}
    ensures r.status == NotFound || r.status == Forbidden ==> r.status == CircleAccess(db, circleId, current)
    ensures CircleAccess(db, circleId, current) != Ok ==> r.status == CircleAccess(db, circleId, current)
    ensures r.status == ServerError <==>
      CircleAccess(db, circleId, current) == Ok && (current.None? || title.None? || content.None?)
    ensures r.status != Ok ==> r.db == db && r.newId.None?
    ensures r.status == Ok ==>
      && r.db == db.(posts := r.db.posts)
      && |r.db.posts| == |db.posts| + 1 && r.db.posts[..|db.posts|] == db.posts
      && var p := r.db.posts[|db.posts|];
         && r.newId == Some(p.id)
         && (forall i :: 0 <= i < |db.posts| ==> db.posts[i].id < p.id)
         && p.circleId == circleId && Some(p.authorId) == current
         && Some(p.title) == title && Some(p.content) == content && p.createdAt == now
  {
    var access := CircleAccess(db, circleId, current);
    if access != Ok then Reply(access, db, None)
    else if current.None? || title.None? || content.None? then Reply(ServerError, db, None)
    else
      var p := Post(NextId(db.posts, PostKey), title.value, content.value, current.value, circleId, now);
      Reply(Ok, db.(posts := db.posts + [p]), Some(p.id))
  }

  /** An outsider of a private circle is refused by both routes, and the
      database is left as it was. */
  lemma OutsiderLockedOut(db: Db, circleId: int, current: Option<int>, title: Option<string>, content: Option<string>,
                          now: Tick)
    requires FindCircle(db, circleId).Some? && FindCircle(db, circleId).value.isPrivate
    requires !IsMember(db, circleId, current)
    ensures GetCirclePosts(db, circleId, current) == Listing(Forbidden, [])
    ensures CreatePost(db, circleId, current, title, content, now) == Reply(Forbidden, db, None)
  {
  }

  /** When every post names an existing author, a circle the caller may
      read is listed without error. */
  lemma PostsListed(db: Db, circleId: int, current: Option<int>)
    requires PostsReferToUsers(db)
    requires CircleAccess(db, circleId, current) == Ok
    ensures GetCirclePosts(db, circleId, current).status == Ok
  {
  }

  /** A post a caller with a user row manages to create lands in its circle's
      post list, provided every earlier post names an existing author. */
  lemma CreatedPostIsListed(db: Db, circleId: int, current: Option<int>, title: Option<string>,
                            content: Option<string>, now: Tick)
    requires PostsReferToUsers(db)
    requires current.Some? && HasUser(db, current.value)
    requires CreatePost(db, circleId, current, title, content, now).status == Ok
    ensures var r := CreatePost(db, circleId, current, title, content, now);
      && GetCirclePosts(r.db, circleId, current).status == Ok
      && (exists k :: 0 <= k < |GetCirclePosts(r.db, circleId, current).items|
           && GetCirclePosts(r.db, circleId, current).items[k].id == r.newId.value)
  {
    var r := CreatePost(db, circleId, current, title, content, now);
    assert r.db.posts[|db.posts|].circleId == circleId;
    assert PostsReferToUsers(r.db) by {
      forall i | 0 <= i < |r.db.posts| ensures HasUser(r.db, r.db.posts[i].authorId) {
        if i < |db.posts| {
          assert r.db.posts[i] == db.posts[i];
        }
      }
    }
    PostsListed(r.db, circleId, current);
    PostListComplete(r.db, circleId, current, |db.posts|);
  }
}
