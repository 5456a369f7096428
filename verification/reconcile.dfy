/**
 * The counter-repair part of `GetCurrentUserInfo`: recount the caller's live
 * follow rows (both directions) and live articles, write the three numbers
 * back to the caller's user row, and read the row again for the reply, then
 * run the three article-list queries of the reply. A failed `Count` is
 * ignored and reads as 0; a failed write is only printed, and the handler
 * carries on with the old row.
 */
module Reconcile {
  import opened Wrappers
  import opened Text
  import opened Tables
  import opened Http
  import Follow

  /** The three `Count` queries of the recount. */
  datatype CountQuery = FollowingQuery | FollowersQuery | ArticlesQuery

  /** The three list queries that follow the second read, in the order they run. */
  datatype ListQuery = OwnArticles | Favorites | Liked

  /**
   * The failures one call can meet: the first `First`, the `Count`s that
   * fail, the write-back, the second `First`, and the list queries.
   */
  datatype Faults = Faults(load: bool, counts: set<CountQuery>, update: bool, reread: bool, lists: set<ListQuery>)

  const NoFaults := Faults(false, {}, false, false, {})

  datatype Outcome = Unauthorized | LoadFailed | ListFailed(query: ListQuery) | Reported(user: User)

  function Respond(o: Outcome): Response {
    match o
    case Unauthorized => Response(401, "未授权")
    case LoadFailed => Response(500, "获取用户信息失败")
    case ListFailed(OwnArticles) => Response(500, "获取用户文章失败")
    case ListFailed(Favorites) => Response(500, "获取收藏文章失败")
    case ListFailed(Liked) => Response(500, "获取点赞文章失败")
    case Reported(_) => Response(200, "")
  }

  /** A set of list queries is empty exactly when none of the three is in it. */
  lemma ListQueriesCovered(s: set<ListQuery>)
    ensures s == {} <==> OwnArticles !in s && Favorites !in s && Liked !in s
  {
    if s != {} {
      var q :| q in s;
      match q
      case OwnArticles =>
      case Favorites =>
      case Liked =>
    }
  }

  /** The three counters recomputed from the rows (each `Count` is of live rows only). */
  function Recount(db: Db, u: nat): (counts: (nat, nat, nat)) {
    (|FollowersSet(db.follows, u)|, |FollowingSet(db.follows, u)|, PostsOf(db.articles, u))
  }

  /** The counters as the handler holds them: a `Count` that failed left its variable at 0. */
  function Counted(db: Db, u: nat, failed: set<CountQuery>): (nat, nat, nat) {
    var (followers, following, posts) := Recount(db, u);
    (if FollowersQuery in failed then 0 else followers,
     if FollowingQuery in failed then 0 else following,
     if ArticlesQuery in failed then 0 else posts)
  }

  /**
   * Whether the write-back goes through: the first read and the write are
   * not failed, and the values fit the unsigned columns (the database
   * refuses anything else like any failed write).
   */
  predicate WritesBack(db: Db, u: nat, f: Faults) {
    var (a, b, c) := Counted(db, u, f.counts);
    !f.load && !f.update && a <= MaxUint64 && b <= MaxUint64 && c <= MaxUint64
  }

  /** The true counters fit the unsigned columns. */
  predicate Fits(db: Db, u: nat) {
    var (a, b, c) := Recount(db, u);
    a <= MaxUint64 && b <= MaxUint64 && c <= MaxUint64
  }

  /** `GET /api/user/info`, with the failures of one call in `f`. */
  function GetCurrentUserInfo(db: Db, caller: Option<nat>, f: Faults): (r: (Db, Outcome))
    ensures caller.None? ==> r == (db, Unauthorized)
    ensures caller.Some? && (caller.value !in db.users || f.load) ==> r == (db, LoadFailed)
    ensures r.0.users.Keys == db.users.Keys
    ensures forall v :: v in db.users && (caller.None? || v != caller.value) ==> r.0.users[v] == db.users[v]
    ensures r.0.follows == db.follows && r.0.articles == db.articles && r.0.pictures == db.pictures
    ensures r.0.links == db.links && r.0.comments == db.comments
    ensures caller.Some? && caller.value in db.users ==>
              var u := caller.value;
              var (followers, following, posts) := Recount(db, u);
              && (!WritesBack(db, u, f) ==> r.0 == db)
              && (WritesBack(db, u, f) ==>
                    && r.0.users[u].followers == (if FollowersQuery in f.counts then 0 else followers)
                    && r.0.users[u].following == (if FollowingQuery in f.counts then 0 else following)
                    && r.0.users[u].posts == (if ArticlesQuery in f.counts then 0 else posts))
    ensures caller.Some? && caller.value in db.users && !f.load ==>
              && (r.1 == LoadFailed <==> f.reread)
              && (r.1.ListFailed? <==> !f.reread && (OwnArticles in f.lists || Favorites in f.lists || Liked in f.lists))
              && (r.1.ListFailed? ==> r.1.query in f.lists)
              && (r.1.ListFailed? && r.1.query != OwnArticles ==> OwnArticles !in f.lists)
              && (r.1 == ListFailed(Liked) ==> Favorites !in f.lists)
              && (r.1.Reported? <==> !f.reread && f.lists == {})
              && (r.1.Reported? ==> r.1.user == r.0.users[caller.value])
  {
    match caller
    case None => (db, Unauthorized)
    case Some(u) =>
      if u !in db.users || f.load then (db, LoadFailed)
      else
        var (followers, following, posts) := Counted(db, u, f.counts);
        var db' := if WritesBack(db, u, f) then db.(users := db.users[u := User(followers, following, posts)]) else db;
        ListQueriesCovered(f.lists);
        (db',
         if f.reread then LoadFailed
         else if OwnArticles in f.lists then ListFailed(OwnArticles)
         else if Favorites in f.lists then ListFailed(Favorites)
         else if Liked in f.lists then ListFailed(Liked)
         else Reported(db'.users[u]))
  }

  /**
   * When every count succeeds and the write-back goes through, the caller's
   * counters agree with the rows, and every other user is exactly as matched
   * as before.
   */
  lemma ReconcileRepairs(db: Db, u: nat, f: Faults)
    requires u in db.users && Fits(db, u)
    requires !f.load && f.counts == {} && !f.update
    ensures var db' := GetCurrentUserInfo(db, Some(u), f).0;
            && UserMatches(db', u)
            && (forall v :: v in db.users && v != u ==> (UserMatches(db', v) <==> UserMatches(db, v)))
  {
  }

  /**
   * A failed `Count` under a write-back that goes through stores 0: the
   * caller's row no longer matches whenever the true count was positive,
   * even if it matched before.
   */
  lemma FailedCountBreaksMatch(db: Db, u: nat, f: Faults)
    requires u in db.users && WritesBack(db, u, f)
    ensures var db' := GetCurrentUserInfo(db, Some(u), f).0;
            var (followers, following, posts) := Recount(db, u);
            (FollowersQuery in f.counts && followers > 0) || (FollowingQuery in f.counts && following > 0)
            || (ArticlesQuery in f.counts && posts > 0)
            <==> !UserMatches(db', u)
  {
  }

  /** When every other user already matches, one repair makes the whole table match. */
  lemma ReconcileCompletes(db: Db, u: nat, f: Faults)
    requires u in db.users && Fits(db, u)
    requires !f.load && f.counts == {} && !f.update
    requires forall v :: v in db.users && v != u ==> UserMatches(db, v)
    ensures CountersMatch(GetCurrentUserInfo(db, Some(u), f).0)
  {
    ReconcileRepairs(db, u, f);
  }

  /**
   * On counters that already match, a call changes the state exactly when
   * its write-back goes through with a failed count whose true value is not 0.
   */
  lemma ReconcileNoOpWhenMatching(db: Db, u: nat, f: Faults)
    requires CountersMatch(db)
    ensures GetCurrentUserInfo(db, Some(u), f).0 == db
            <==> u !in db.users || !WritesBack(db, u, f) || Counted(db, u, f.counts) == Recount(db, u)
  {
    if u in db.users {
      assert UserMatches(db, u);
      var db' := GetCurrentUserInfo(db, Some(u), f).0;
      if db' == db && WritesBack(db, u, f) {
        assert db'.users[u] == db.users[u];
      }
    }
  }

  /** Two calls whose write-backs agree leave the same state. */
  lemma SameWriteSameState(db: Db, u: nat, f: Faults, g: Faults)
    requires WritesBack(db, u, f) == WritesBack(db, u, g)
    requires WritesBack(db, u, f) ==> Counted(db, u, f.counts) == Counted(db, u, g.counts)
    ensures GetCurrentUserInfo(db, Some(u), f).0 == GetCurrentUserInfo(db, Some(u), g).0
  {
  }

  /** Of two calls, the later write-back that goes through decides the state. */
  lemma LastWriteWins(db: Db, u: nat, f1: Faults, f2: Faults)
    ensures var db1 := GetCurrentUserInfo(db, Some(u), f1).0;
            GetCurrentUserInfo(db1, Some(u), f2).0
            == GetCurrentUserInfo(db, Some(u), if WritesBack(db, u, f2) then f2 else f1).0
  {
    var db1 := GetCurrentUserInfo(db, Some(u), f1).0;
    if u in db.users {
      assert Recount(db1, u) == Recount(db, u);
      assert WritesBack(db1, u, f2) == WritesBack(db, u, f2);
      if WritesBack(db, u, f2) {
        var a := GetCurrentUserInfo(db1, Some(u), f2).0;
        var b := GetCurrentUserInfo(db, Some(u), f2).0;
        assert a.users == b.users;
      }
    }
  }

  /**
   * Repairing twice, with every count succeeding: after a write-back that
   * went through a second call changes nothing, and two calls leave the
   * state of a single call whose write-back fails only when both did.
   */
  lemma ReconcileIdempotent(db: Db, u: nat, f1: Faults, f2: Faults)
    ensures var db1 := GetCurrentUserInfo(db, Some(u), f1).0;
            !f1.load && f1.counts == {} && !f1.update && f2.counts == {} ==> GetCurrentUserInfo(db1, Some(u), f2).0 == db1
    ensures var db1 := GetCurrentUserInfo(db, Some(u), f1).0;
            var fails1, fails2 := f1.load || f1.update, f2.load || f2.update;
            f1.counts == {} && f2.counts == {} ==>
              GetCurrentUserInfo(db1, Some(u), f2).0
              == GetCurrentUserInfo(db, Some(u), f1.(load := false, update := fails1 && fails2)).0
  {
    LastWriteWins(db, u, f1, f2);
    if f1.counts == {} && f2.counts == {} {
      var merged := f1.(load := false, update := (f1.load || f1.update) && (f2.load || f2.update));
      if WritesBack(db, u, f2) {
        SameWriteSameState(db, u, f2, merged);
        if !f1.load && !f1.update {
          SameWriteSameState(db, u, f2, f1);
        }
      } else {
        SameWriteSameState(db, u, f1, merged);
      }
    }
  }

  /**
   * A follow call that stopped half-way (a 500 after the row was written)
   * leaves at most its two users' counters wrong; repairing the two users
   * makes every counter match the rows again.
   */
  lemma RepairAfterFollow(db: Db, c: nat, t: nat, faults: set<Follow.Write>, mode: Follow.CreateMode)
    requires CountersMatch(db) && Follow.Valid(db, c, t) && c in db.users
    requires !Follow.Overflows(db.users, c, FollowingCount) && !Follow.Overflows(db.users, t, FollowersCount)
    ensures var r := Follow.FollowAction(db, Some(c), Some(t), faults, mode);
            var db1 := GetCurrentUserInfo(r.0, Some(c), NoFaults).0;
            CountersMatch(GetCurrentUserInfo(db1, Some(t), NoFaults).0)
  {
    var p := Pair(c, t);
    var r := Follow.FollowAction(db, Some(c), Some(t), faults, mode);
    assert r.0.follows == db.follows || r.0.follows == db.follows[p := LiveFollow(db.follows, p)];
    RepairAfterFlip(db, r.0, p);
  }

  /**
   * The same, for any state that differs from a matching one only in the
   * pair's follow row and the pair's two user rows.
   */
  lemma RepairAfterFlip(db: Db, db': Db, p: Pair)
    requires CountersMatch(db) && p.follower != p.followed && p.follower in db.users && p.followed in db.users
    requires !Follow.Overflows(db.users, p.follower, FollowingCount)
    requires !Follow.Overflows(db.users, p.followed, FollowersCount)
    requires db'.follows == db.follows || db'.follows == db.follows[p := LiveFollow(db.follows, p)]
    requires db'.users.Keys == db.users.Keys && db'.articles == db.articles
    requires forall u :: u in db.users && u != p.follower && u != p.followed ==> db'.users[u] == db.users[u]
    ensures var db1 := GetCurrentUserInfo(db', Some(p.follower), NoFaults).0;
            CountersMatch(GetCurrentUserInfo(db1, Some(p.followed), NoFaults).0)
  {
    var c, t := p.follower, p.followed;
    forall v | v in db'.users
      ensures v != c && v != t ==> UserMatches(db', v)
      ensures |FollowingSet(db'.follows, v)| <= |FollowingSet(db.follows, v)| + 1
      ensures |FollowersSet(db'.follows, v)| <= |FollowersSet(db.follows, v)| + 1
      ensures v != c ==> |FollowingSet(db'.follows, v)| == |FollowingSet(db.follows, v)|
      ensures v != t ==> |FollowersSet(db'.follows, v)| == |FollowersSet(db.follows, v)|
    {
      FlipNearby(db, db', p, v);
    }
    assert UserMatches(db, c) && UserMatches(db, t);
    assert Fits(db', c);
    var db1 := GetCurrentUserInfo(db', Some(c), NoFaults).0;
    ReconcileRepairs(db', c, NoFaults);
    assert Recount(db1, t) == Recount(db', t);
    ReconcileCompletes(db1, t, NoFaults);
  }

  /**
   * Flipping at most the one pair's row moves each user's follow sets by at
   * most one, and only the pair's two users can see a change.
   */
  lemma FlipNearby(db: Db, db': Db, p: Pair, v: nat)
    requires CountersMatch(db)
    requires db'.follows == db.follows || db'.follows == db.follows[p := LiveFollow(db.follows, p)]
    requires db'.users.Keys == db.users.Keys && db'.articles == db.articles
    requires forall u :: u in db.users && u != p.follower && u != p.followed ==> db'.users[u] == db.users[u]
    requires v in db'.users
    ensures v != p.follower && v != p.followed ==> UserMatches(db', v)
    ensures |FollowingSet(db'.follows, v)| <= |FollowingSet(db.follows, v)| + 1
    ensures |FollowersSet(db'.follows, v)| <= |FollowersSet(db.follows, v)| + 1
    ensures v != p.follower ==> |FollowingSet(db'.follows, v)| == |FollowingSet(db.follows, v)|
    ensures v != p.followed ==> |FollowersSet(db'.follows, v)| == |FollowersSet(db.follows, v)|
  {
    assert UserMatches(db, v);
    if db'.follows != db.follows {
      if LiveFollow(db.follows, p) {
        RemoveFollowSets(db.follows, p, v);
      } else {
        AddFollowSets(db.follows, p, v);
      }
    }
  }
}
