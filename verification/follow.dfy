/**
 * `FollowAction`: validate the request, then either tombstone the live
 * `UserFollow` row and decrement the two `uint` counters, or create the row
 * and increment them. Each write is checked; the first failing write ends
 * the call with 500 and the earlier writes of the same call stay.
 *
 * As written, "create" is a plain insert, and the tombstoned row of an
 * earlier unfollow still holds the composite primary key, so following the
 * same user again always fails. `RestoreTombstone` is the corrected mode,
 * which brings the tombstoned row back instead.
 */
module Follow {
  import opened Wrappers
  import opened Text
  import opened Tables
  import opened Http

  /** The three writes of one call, in order, as fault-injection points. */
  datatype Write = RowWrite | FollowingWrite | FollowersWrite

  datatype CreateMode = AsWritten | RestoreTombstone

  datatype Outcome =
    | BadParams | Unauthorized | SelfFollow | NoTarget
    | UnfollowRowFailed | UnfollowFollowingFailed | UnfollowFollowersFailed | Unfollowed
    | FollowRowFailed | FollowFollowingFailed | FollowFollowersFailed | Followed

  predicate Rejected(o: Outcome) {
    o == BadParams || o == Unauthorized || o == SelfFollow || o == NoTarget
  }

  predicate Succeeded(o: Outcome) {
    o == Unfollowed || o == Followed
  }

  function Respond(o: Outcome): Response {
    match o
    case BadParams => Response(400, "参数错误")
    case Unauthorized => Response(401, "未授权")
    case SelfFollow => Response(400, "不能关注自己")
    case NoTarget => Response(400, "目标用户不存在")
    case UnfollowRowFailed => Response(500, "取消关注失败")
    case UnfollowFollowingFailed => Response(500, "更新关注数失败")
    case UnfollowFollowersFailed => Response(500, "更新粉丝数失败")
    case Unfollowed => Response(200, "取消关注成功")
    case FollowRowFailed => Response(500, "关注失败")
    case FollowFollowingFailed => Response(500, "更新关注数失败")
    case FollowFollowersFailed => Response(500, "更新粉丝数失败")
    case Followed => Response(200, "关注成功")
  }

  /**
   * `after` is `before` with the follower's `following_count` moved by
   * `dFollowing` and the followed user's `followers_count` moved by
   * `dFollowers`; every other counter of every user is as it was.
   */
  ghost predicate Shifted(before: map<nat, User>, after: map<nat, User>, p: Pair, dFollowing: int, dFollowers: int) {
    && after.Keys == before.Keys
    && forall u, c :: u in before ==>
         Get(after[u], c) == Get(before[u], c)
                             + (if u == p.follower && c == FollowingCount then dFollowing else 0)
                             + (if u == p.followed && c == FollowersCount then dFollowers else 0)
  }

  /** Whether `col - 1` on user `id` would leave the unsigned range. */
  predicate Underflows(users: map<nat, User>, id: nat, c: Column) {
    id in users && Get(users[id], c) == 0
  }

  predicate Overflows(users: map<nat, User>, id: nat, c: Column) {
    id in users && Get(users[id], c) == MaxUint64
  }

  /** Tombstone the live row, then `following_count - 1` on the follower and `followers_count - 1` on the target. */
  function Unfollow(db: Db, p: Pair, faults: set<Write>): (r: (Db, Outcome))
    requires LiveFollow(db.follows, p) && p.follower != p.followed
    ensures r.1 == UnfollowRowFailed <==> RowWrite in faults
    ensures r.1 == UnfollowRowFailed ==> r.0 == db
    ensures r.1 != UnfollowRowFailed ==> r.0.follows == db.follows[p := true]
    ensures r.1 == UnfollowFollowingFailed <==>
              RowWrite !in faults && (FollowingWrite in faults || Underflows(db.users, p.follower, FollowingCount))
    ensures r.1 == UnfollowFollowingFailed ==> r.0.users == db.users
    ensures r.1 == UnfollowFollowersFailed <==>
              RowWrite !in faults && FollowingWrite !in faults && !Underflows(db.users, p.follower, FollowingCount)
              && (FollowersWrite in faults || Underflows(db.users, p.followed, FollowersCount))
    ensures r.1 == UnfollowFollowersFailed ==> Shifted(db.users, r.0.users, p, -1, 0)
    ensures r.1 == Unfollowed <==>
              RowWrite !in faults && FollowingWrite !in faults && FollowersWrite !in faults
              && !Underflows(db.users, p.follower, FollowingCount) && !Underflows(db.users, p.followed, FollowersCount)
    ensures r.1 == Unfollowed ==> Shifted(db.users, r.0.users, p, -1, -1)
    ensures r.1 in {UnfollowRowFailed, UnfollowFollowingFailed, UnfollowFollowersFailed, Unfollowed}
    ensures r.0.articles == db.articles && r.0.pictures == db.pictures && r.0.links == db.links && r.0.comments == db.comments
  {
    if RowWrite in faults then (db, UnfollowRowFailed)
    else
      var db1 := db.(follows := db.follows[p := true]);
      match AddToColumn(db1.users, p.follower, FollowingCount, -1, FollowingWrite in faults)
      case None => (db1, UnfollowFollowingFailed)
      case Some(us1) =>
        var db2 := db1.(users := us1);
        match AddToColumn(us1, p.followed, FollowersCount, -1, FollowersWrite in faults)
        case None => (db2, UnfollowFollowersFailed)
        case Some(us2) => (db2.(users := us2), Unfollowed)
  }

  /**
   * Create the row, then `following_count + 1` and `followers_count + 1`. As
   * written the insert fails while a tombstoned row holds the key.
   */
  function FollowUser(db: Db, p: Pair, faults: set<Write>, mode: CreateMode): (r: (Db, Outcome))
    requires !LiveFollow(db.follows, p) && p.follower != p.followed
    ensures r.1 == FollowRowFailed <==> RowWrite in faults || (mode == AsWritten && p in db.follows)
    ensures r.1 == FollowRowFailed ==> r.0 == db
    ensures r.1 != FollowRowFailed ==> r.0.follows == db.follows[p := false]
    ensures r.1 == FollowFollowingFailed <==>
              RowWrite !in faults && (mode == RestoreTombstone || p !in db.follows)
              && (FollowingWrite in faults || Overflows(db.users, p.follower, FollowingCount))
    ensures r.1 == FollowFollowingFailed ==> r.0.users == db.users
    ensures r.1 == FollowFollowersFailed <==>
              RowWrite !in faults && (mode == RestoreTombstone || p !in db.follows)
              && FollowingWrite !in faults && !Overflows(db.users, p.follower, FollowingCount)
              && (FollowersWrite in faults || Overflows(db.users, p.followed, FollowersCount))
    ensures r.1 == FollowFollowersFailed ==> Shifted(db.users, r.0.users, p, 1, 0)
    ensures r.1 == Followed <==>
              RowWrite !in faults && FollowingWrite !in faults && FollowersWrite !in faults
              && (mode == RestoreTombstone || p !in db.follows)
              && !Overflows(db.users, p.follower, FollowingCount) && !Overflows(db.users, p.followed, FollowersCount)
    ensures r.1 == Followed ==> Shifted(db.users, r.0.users, p, 1, 1)
    ensures r.1 in {FollowRowFailed, FollowFollowingFailed, FollowFollowersFailed, Followed}
    ensures r.0.articles == db.articles && r.0.pictures == db.pictures && r.0.links == db.links && r.0.comments == db.comments
  {
    if RowWrite in faults || (mode == AsWritten && p in db.follows) then (db, FollowRowFailed)
    else
      assert mode == RestoreTombstone || p !in db.follows;
      var db1 := db.(follows := db.follows[p := false]);
      match AddToColumn(db1.users, p.follower, FollowingCount, 1, FollowingWrite in faults)
      case None => (db1, FollowFollowingFailed)
      case Some(us1) =>
        var db2 := db1.(users := us1);
        match AddToColumn(us1, p.followed, FollowersCount, 1, FollowersWrite in faults)
        case None => (db2, FollowFollowersFailed)
        case Some(us2) => (db2.(users := us2), Followed)
  }

  /**
   * `POST /api/follow` with body `{"user_id": target}`. `target` is `None` when
   * the body does not bind; `binding:"required"` also rejects 0. `caller` is
   * the authenticated user id, `None` when the context has none.
   */
  function FollowAction(db: Db, caller: Option<nat>, target: Option<nat>, faults: set<Write>, mode: CreateMode): (r: (Db, Outcome))
    ensures Rejected(r.1) ==> r.0 == db
    ensures r.1 == BadParams <==> target.None? || target == Some(0)
    ensures r.1 == Unauthorized <==> target.Some? && target.value != 0 && caller.None?
    ensures r.1 == SelfFollow <==> target.Some? && target.value != 0 && caller == target
    ensures r.1 == NoTarget <==>
              target.Some? && target.value != 0 && caller.Some? && caller != target && target.value !in db.users
    ensures !Rejected(r.1) ==> caller.Some? && target.Some?
    ensures !Rejected(r.1) ==>
              var p := Pair(caller.value, target.value);
              && p.follower != p.followed && p.followed in db.users
              && (r.1 in {UnfollowRowFailed, UnfollowFollowingFailed, UnfollowFollowersFailed, Unfollowed}
                  <==> LiveFollow(db.follows, p))
    // only the two users' rows and the one follow row are ever written
    ensures r.0.users.Keys == db.users.Keys
    ensures forall u :: u in db.users && (caller.None? || u != caller.value) && (target.None? || u != target.value) ==>
              r.0.users[u] == db.users[u]
    ensures forall p :: p in db.follows && (caller.None? || target.None? || p != Pair(caller.value, target.value)) ==>
              p in r.0.follows && r.0.follows[p] == db.follows[p]
    ensures Rejected(r.1) ==> r.0.follows.Keys == db.follows.Keys
    ensures !Rejected(r.1) ==> r.0.follows.Keys <= db.follows.Keys + {Pair(caller.value, target.value)}
    ensures r.0.articles == db.articles && r.0.pictures == db.pictures && r.0.links == db.links && r.0.comments == db.comments
  {
    match target
    case None => (db, BadParams)
    case Some(t) =>
      if t == 0 then (db, BadParams)
      else
        match caller
        case None => (db, Unauthorized)
        case Some(c) =>
          if c == t then (db, SelfFollow)
          else if t !in db.users then (db, NoTarget)
          else
            var p := Pair(c, t);
            if LiveFollow(db.follows, p) then Unfollow(db, p, faults) else FollowUser(db, p, faults, mode)
  }

  /** A request that passes validation, for the lemmas below. */
  predicate Valid(db: Db, c: nat, t: nat) {
    t != 0 && c != t && t in db.users
  }

  /** A user row is determined by its three counter columns. */
  lemma UserExt(a: User, b: User)
    requires forall c :: Get(a, c) == Get(b, c)
    ensures a == b
  {
    assert Get(a, FollowersCount) == Get(b, FollowersCount);
    assert Get(a, FollowingCount) == Get(b, FollowingCount);
    assert Get(a, PostsCount) == Get(b, PostsCount);
  }

  /** Moving one follow row and both its users' counters the same way keeps the counters matching the rows. */
  lemma ShiftKeepsCounters(db: Db, db': Db, p: Pair, live: bool)
    requires CountersMatch(db)
    requires LiveFollow(db.follows, p) == !live
    requires db'.follows == db.follows[p := !live]
    requires Shifted(db.users, db'.users, p, if live then 1 else -1, if live then 1 else -1)
    requires db'.articles == db.articles
    ensures CountersMatch(db')
  {
    forall u | u in db'.users ensures UserMatches(db', u) {
      if live {
        AddFollowSets(db.follows, p, u);
      } else {
        RemoveFollowSets(db.follows, p, u);
      }
      assert UserMatches(db, u);
      assert Get(db'.users[u], PostsCount) == Get(db.users[u], PostsCount);
      assert Get(db'.users[u], FollowingCount) == Get(db.users[u], FollowingCount)
             + (if u == p.follower then (if live then 1 else -1) else 0);
      assert Get(db'.users[u], FollowersCount) == Get(db.users[u], FollowersCount)
             + (if u == p.followed then (if live then 1 else -1) else 0);
    }
  }

  /** A successful toggle keeps every user's counters equal to the rows they count. */
  lemma FollowKeepsCounters(db: Db, caller: Option<nat>, target: Option<nat>, faults: set<Write>, mode: CreateMode)
    requires CountersMatch(db)
    ensures var r := FollowAction(db, caller, target, faults, mode);
            Succeeded(r.1) || Rejected(r.1) ==> CountersMatch(r.0)
  {
    var r := FollowAction(db, caller, target, faults, mode);
    if Succeeded(r.1) {
      var p := Pair(caller.value, target.value);
      ShiftKeepsCounters(db, r.0, p, r.1 == Followed);
    }
  }

  /**
   * When the counters match the rows, a live follow row means both counters
   * are at least 1, so an unfollow with no failing write never takes an
   * unsigned counter below zero and always succeeds.
   */
  lemma UnfollowNeverUnderflows(db: Db, c: nat, t: nat, mode: CreateMode)
    requires CountersMatch(db) && Valid(db, c, t) && LiveFollow(db.follows, Pair(c, t))
    ensures FollowAction(db, Some(c), Some(t), {}, mode).1 == Unfollowed
  {
    var p := Pair(c, t);
    assert p in FollowersSet(db.follows, t);
    assert UserMatches(db, t);
    if c in db.users {
      assert p in FollowingSet(db.follows, c);
      assert UserMatches(db, c);
    }
  }

  /**
   * What a successful call did: it flipped the pair's row (tombstoning a live
   * one, making any other one live) and moved both users' counters by one in
   * the matching direction.
   */
  lemma SucceededEffect(db: Db, c: nat, t: nat, faults: set<Write>, mode: CreateMode)
    ensures var r := FollowAction(db, Some(c), Some(t), faults, mode);
            var p := Pair(c, t);
            Succeeded(r.1) ==>
              && (r.1 == Unfollowed <==> LiveFollow(db.follows, p))
              && r.0.follows == db.follows[p := r.1 == Unfollowed]
              && Shifted(db.users, r.0.users, p, if r.1 == Followed then 1 else -1, if r.1 == Followed then 1 else -1)
  {
  }

  /**
   * Two successful calls on the same pair give back every user's counters
   * and the set of live follow rows.
   */
  lemma FollowTwiceRestores(db: Db, c: nat, t: nat, f1: set<Write>, f2: set<Write>, mode: CreateMode)
    ensures var r1 := FollowAction(db, Some(c), Some(t), f1, mode);
            var r2 := FollowAction(r1.0, Some(c), Some(t), f2, mode);
            Succeeded(r1.1) && Succeeded(r2.1) ==>
              && r2.0.users == db.users
              && (forall q :: LiveFollow(r2.0.follows, q) <==> LiveFollow(db.follows, q))
  {
    var p := Pair(c, t);
    var r1 := FollowAction(db, Some(c), Some(t), f1, mode);
    var r2 := FollowAction(r1.0, Some(c), Some(t), f2, mode);
    SucceededEffect(db, c, t, f1, mode);
    SucceededEffect(r1.0, c, t, f2, mode);
    if Succeeded(r1.1) && Succeeded(r2.1) {
      var d: int := if r1.1 == Followed then 1 else -1;
      ShiftedBack(db.users, r1.0.users, r2.0.users, p, d);
      FlippedBack(db.follows, r1.0.follows, r2.0.follows, p);
    }
  }

  /** Flipping one row's liveness twice gives back the live rows. */
  lemma FlippedBack(a: map<Pair, bool>, b: map<Pair, bool>, c: map<Pair, bool>, p: Pair)
    requires b == a[p := LiveFollow(a, p)] && c == b[p := LiveFollow(b, p)]
    ensures forall q :: LiveFollow(c, q) <==> LiveFollow(a, q)
  {
  }

  /** Shifting a pair's two counters by `d` and then by `-d` gives back the users. */
  lemma ShiftedBack(a: map<nat, User>, b: map<nat, User>, c: map<nat, User>, p: Pair, d: int)
    requires Shifted(a, b, p, d, d) && Shifted(b, c, p, -d, -d)
    ensures c == a
  {
    forall u | u in a ensures c[u] == a[u] {
      UserExt(c[u], a[u]);
    }
  }

  /**
   * As written, once a pair has been unfollowed its tombstoned row blocks
   * the insert: every later follow of that user fails with 500 and changes
   * nothing, whatever the other writes would do.
   */
  lemma RefollowFailsAsWritten(db: Db, c: nat, t: nat, faults: set<Write>)
    requires Valid(db, c, t) && Pair(c, t) in db.follows && db.follows[Pair(c, t)]
    ensures FollowAction(db, Some(c), Some(t), faults, AsWritten) == (db, FollowRowFailed)
  {
  }

  /** The concrete run: follow, unfollow, follow again; the third call fails. */
  lemma RefollowCounterexample()
    ensures var db := Db(map[1 := User(0, 0, 0), 2 := User(0, 0, 0)], map[], map[], 1, map[], 1, [], []);
            var r1 := FollowAction(db, Some(1), Some(2), {}, AsWritten);
            var r2 := FollowAction(r1.0, Some(1), Some(2), {}, AsWritten);
            var r3 := FollowAction(r2.0, Some(1), Some(2), {}, AsWritten);
            r1.1 == Followed && r2.1 == Unfollowed && r3.1 == FollowRowFailed && r3.0 == r2.0
  {
    var db := Db(map[1 := User(0, 0, 0), 2 := User(0, 0, 0)], map[], map[], 1, map[], 1, [], []);
    var p := Pair(1, 2);
    var r1 := FollowAction(db, Some(1), Some(2), {}, AsWritten);
    assert r1 == FollowUser(db, p, {}, AsWritten);
    SucceededEffect(db, 1, 2, {}, AsWritten);
    assert Get(r1.0.users[1], FollowingCount) == 1 && Get(r1.0.users[2], FollowersCount) == 1;
    var r2 := FollowAction(r1.0, Some(1), Some(2), {}, AsWritten);
    assert r2 == Unfollow(r1.0, p, {});
    SucceededEffect(r1.0, 1, 2, {}, AsWritten);
    RefollowFailsAsWritten(r2.0, 1, 2, {});
  }

  /** Restoring the tombstone instead, the follow after an unfollow succeeds and the row is live again. */
  lemma RefollowRestores(db: Db, c: nat, t: nat)
    requires Valid(db, c, t) && Pair(c, t) in db.follows && db.follows[Pair(c, t)]
    requires !Overflows(db.users, c, FollowingCount) && !Overflows(db.users, t, FollowersCount)
    ensures var r := FollowAction(db, Some(c), Some(t), {}, RestoreTombstone);
            r.1 == Followed && LiveFollow(r.0.follows, Pair(c, t))
  {
  }

  /**
   * With the corrected insert, from counters that match the rows and with no
   * failing write, every valid call succeeds: the follow toggle never gets
   * stuck.
   */
  lemma RestoringToggleAlwaysSucceeds(db: Db, c: nat, t: nat)
    requires CountersMatch(db) && Valid(db, c, t)
    requires !Overflows(db.users, c, FollowingCount) && !Overflows(db.users, t, FollowersCount)
    ensures Succeeded(FollowAction(db, Some(c), Some(t), {}, RestoreTombstone).1)
  {
    if LiveFollow(db.follows, Pair(c, t)) {
      UnfollowNeverUnderflows(db, c, t, RestoreTombstone);
    }
  }
}
