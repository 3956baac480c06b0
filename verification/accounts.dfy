/** Registration and user search (main-1.py, `register` and `search_users`). */
module Accounts {
  import opened Common
  import opened ServerDb

  /** Some user already has this name (`User.query.filter_by(username=…)`). */
  predicate UsernameTaken(users: seq<User>, name: string) {
    exists i :: 0 <= i < |users| && users[i].username == name
  }

  /** No two users share a name. */
  predicate UniqueUsernames(users: seq<User>) {
    forall i, j :: 0 <= i < j < |users| ==> users[i].username != users[j].username
  }

  /** `POST /register`. An empty or missing username or password, or a name
      already in use, is refused with 400 and nothing written; otherwise one
      user without VIP status is added under a fresh id, with the salted hash
      `hashed` of the password (the hash is random, so it is an input). */
  function Register(db: Db, username: string, password: string, hashed: string): (r: Reply)
    ensures r.status == BadRequest <==> username == "" || password == "" || UsernameTaken(db.users, username)
    ensures r.status == BadRequest || r.status == Created
    ensures r.status == BadRequest ==> r.db == db
    ensures r.status == Created ==> OnlyUsersChanged(db, r.db)
    ensures r.status == Created ==>
      && |r.db.users| == |db.users| + 1
      && r.db.users[..|db.users|] == db.users
      && r.db.users[|db.users|].username == username
      && r.db.users[|db.users|].password == hashed
      && r.db.users[|db.users|].vipLevel.None?
      && r.db.users[|db.users|].vipExpireDate.None?
      && forall i :: 0 <= i < |db.users| ==> db.users[i].id < r.db.users[|db.users|].id
  {
    if username == "" || password == "" then Reply(BadRequest, db, None)
    else if UsernameTaken(db.users, username) then Reply(BadRequest, db, None)
    else
      var user := User(NextId(db.users, UserKey), username, hashed, None, None);
      Reply(Created, db.(users := db.users + [user]), None)
  }

  /** Registration can never introduce a second user with the same name. */
  lemma RegisterKeepsUsernamesUnique(db: Db, username: string, password: string, hashed: string)
    requires UniqueUsernames(db.users)
    ensures UniqueUsernames(Register(db, username, password, hashed).db.users)
  {
  }

  /** Registering a name twice in a row fails the second time. */
  lemma RegisterTwiceRefused(db: Db, username: string, password: string, h1: string, h2: string)
    requires Register(db, username, password, h1).status == Created
    ensures Register(Register(db, username, password, h1).db, username, password, h2).status == BadRequest
    ensures Register(Register(db, username, password, h1).db, username, password, h2).db
         == Register(db, username, password, h1).db
  {
  }

  /** `true` when `sub` occurs in `s` as a contiguous piece. */
  predicate Contains(s: string, sub: string)
    decreases |s|
  {
    sub <= s || (|s| > 0 && Contains(s[1..], sub))
  }

  /** `Contains` is the same as finding `sub` at some offset of `s`. */
  lemma {:induction false} ContainsAt(s: string, sub: string)
    ensures Contains(s, sub) <==> exists k :: 0 <= k <= |s| && sub <= s[k..]
    decreases |s|
  {
    assert s[0..] == s;
    if |s| > 0 {
      ContainsAt(s[1..], sub);
      if exists k :: 0 <= k <= |s[1..]| && sub <= s[1..][k..] {
        var k :| 0 <= k <= |s[1..]| && sub <= s[1..][k..];
        assert s[1..][k..] == s[k + 1..];
      }
      if exists k :: 0 <= k <= |s| && sub <= s[k..] {
        var k :| 0 <= k <= |s| && sub <= s[k..];
        if k > 0 {
          assert s[1..][k - 1..] == s[k..];
        }
      }
    }
  }

  /** One search hit: a user's id and name. */
  datatype UserSummary = UserSummary(id: int, username: string)

  function Summary(u: User): UserSummary {
    UserSummary(u.id, u.username)
  }

  /** The search keeps a user whose name contains the query, except the
      caller; with no caller (`id != None` is `IS NOT NULL`) nobody is
      excluded. */
  predicate SearchHit(u: User, query: string, current: Option<int>) {
    Contains(u.username, query) && Some(u.id) != current
  }

  /** The user rows the search selects, in table order; with a unique
      primary key, no row is selected twice. */
  function SearchHits(db: Db, query: string, current: Option<int>): (rows: seq<User>)
    ensures |rows| <= |db.users|
    ensures forall k :: 0 <= k < |rows| ==> rows[k] in db.users && SearchHit(rows[k], query, current)
    ensures forall i :: 0 <= i < |db.users| && SearchHit(db.users[i], query, current) ==> db.users[i] in rows
    ensures UniqueBy(db.users, UserKey) ==> UniqueBy(rows, UserKey)
  {
    var keep := (u: User) => SearchHit(u, query, current);
    assert UniqueBy(db.users, UserKey) ==> UniqueBy(Filter(db.users, keep), UserKey) by {
      if UniqueBy(db.users, UserKey) {
        FilterKeepsUnique(db.users, keep, UserKey);
      }
    }
    Filter(db.users, keep)
  }

  /** `GET /api/friends/search?query=…`: the users whose name contains the
      query, other than the caller, in table order and each once; an empty
      query lists every other user. */
  function SearchUsers(db: Db, query: string, current: Option<int>): (r: Listing<UserSummary>)
    ensures r.status == Ok
    ensures |r.items| <= |db.users|
    ensures forall k :: 0 <= k < |r.items| ==> HitSummary(db, query, current, r.items[k])
    ensures forall i :: 0 <= i < |db.users| && SearchHit(db.users[i], query, current) ==>
      Summary(db.users[i]) in r.items
    ensures forall k :: 0 <= k < |r.items| ==> Some(r.items[k].id) != current
    ensures UniqueBy(db.users, UserKey) ==> forall k, k' :: 0 <= k < k' < |r.items| ==> r.items[k].id != r.items[k'].id
  {
    var items := Summaries(SearchHits(db, query, current));
    SummariesSound(db, query, current);
    SummariesComplete(db, query, current);
    SummariesDistinct(db, query, current);
    Listing(Ok, items)
  }

  /** `v` is the summary of a user the search keeps. */
  predicate HitSummary(db: Db, query: string, current: Option<int>, v: UserSummary) {
    exists i :: 0 <= i < |db.users| && v == Summary(db.users[i]) && SearchHit(db.users[i], query, current)
  }

  /** The public summaries of `rows`, in order. */
  function Summaries(rows: seq<User>): seq<UserSummary> {
    seq(|rows|, k requires 0 <= k < |rows| => Summary(rows[k]))
  }

  lemma SummariesSound(db: Db, query: string, current: Option<int>)
    ensures forall k :: 0 <= k < |Summaries(SearchHits(db, query, current))| ==>
      HitSummary(db, query, current, Summaries(SearchHits(db, query, current))[k])
  {
    forall k | 0 <= k < |Summaries(SearchHits(db, query, current))|
      ensures HitSummary(db, query, current, Summaries(SearchHits(db, query, current))[k])
    {
      SummaryOfHit(db, query, current, k);
    }
  }

  lemma SummaryOfHit(db: Db, query: string, current: Option<int>, k: int)
    requires 0 <= k < |SearchHits(db, query, current)|
    ensures HitSummary(db, query, current, Summaries(SearchHits(db, query, current))[k])
  {
    var hits := SearchHits(db, query, current);
    var i :| 0 <= i < |db.users| && db.users[i] == hits[k];
    assert Summaries(hits)[k] == Summary(db.users[i]);
  }

  lemma SummariesComplete(db: Db, query: string, current: Option<int>)
    ensures forall i :: 0 <= i < |db.users| && SearchHit(db.users[i], query, current) ==>
      Summary(db.users[i]) in Summaries(SearchHits(db, query, current))
  {
    var hits := SearchHits(db, query, current);
    var items := Summaries(hits);
    forall i | 0 <= i < |db.users| && SearchHit(db.users[i], query, current)
      ensures Summary(db.users[i]) in items
    {
      var k :| 0 <= k < |hits| && hits[k] == db.users[i];
      assert items[k] == Summary(db.users[i]);
    }
  }

  lemma SummariesDistinct(db: Db, query: string, current: Option<int>)
    ensures UniqueBy(db.users, UserKey) ==> forall k, k' :: 0 <= k < k' < |Summaries(SearchHits(db, query, current))| ==>
      Summaries(SearchHits(db, query, current))[k].id != Summaries(SearchHits(db, query, current))[k'].id
  {
    var hits := SearchHits(db, query, current);
    var items := Summaries(hits);
    if UniqueBy(db.users, UserKey) {
      forall k, k' | 0 <= k < k' < |items| ensures items[k].id != items[k'].id {
        assert UserKey(hits[k]) != UserKey(hits[k']);
      }
    }
  }
}
