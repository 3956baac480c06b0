/** Buying a VIP tier (main-1.py, `purchase_vip`). Payment is not part of the
    route: it always succeeds once the tier exists. */
module Vip {
  import opened Common
  import opened ServerDb

  /** `POST /api/vip/purchase`: an unknown tier gives 404 and no change; a
      caller without a user row makes the route raise (500) and nothing is
      written; otherwise the caller's row alone gets the tier and an expiry
      thirty days after `now`. */
  function PurchaseVip(db: Db, current: Option<int>, levelId: Option<int>, now: Tick): (r: Reply)
    ensures r.status == NotFound <==> FindVipLevel(db, levelId).None?
    ensures r.status == ServerError <==> FindVipLevel(db, levelId).Some? && FindUser(db, current).None?
    ensures r.status in {Ok, NotFound, ServerError}
    ensures r.status != Ok ==> r.db == db
    ensures r.status == Ok ==> OnlyUsersChanged(db, r.db)
    ensures r.status == Ok ==>
      && |r.db.users| == |db.users|
      && (exists k :: 0 <= k < |db.users|
           && Some(db.users[k].id) == current
           && (forall j :: 0 <= j < k ==> Some(db.users[j].id) != current)
           && r.db.users[k] == db.users[k].(vipLevel := levelId, vipExpireDate := Some(now + VipPeriod))
           && forall j :: 0 <= j < |db.users| && j != k ==> r.db.users[j] == db.users[j])
  {
    match FindVipLevel(db, levelId)
    case None => Reply(NotFound, db, None)
    case Some(_) =>
      match FindIndex(db.users, (u: User) => Some(u.id) == current)
      case None => Reply(ServerError, db, None)
      case Some(k) =>
        var users := db.users[k := db.users[k].(vipLevel := levelId, vipExpireDate := Some(now + VipPeriod))];
        Reply(Ok, db.(users := users), None)
  }

  /** After a purchase the caller's tier resolves to the tier bought, and the
      membership runs until thirty days after the purchase. */
  lemma PurchaseGrantsTier(db: Db, current: Option<int>, levelId: Option<int>, now: Tick)
    requires PurchaseVip(db, current, levelId, now).status == Ok
    ensures var db' := PurchaseVip(db, current, levelId, now).db;
      && FindUser(db', current).Some?
      && FindVipLevel(db', FindUser(db', current).value.vipLevel) == FindVipLevel(db, levelId)
      && FindUser(db', current).value.vipExpireDate == Some(now + VipPeriod)
  {
  }
}
