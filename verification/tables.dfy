/**
 * The relational rows the non-toggle handlers read and write: users with
 * their `uint` counters, the `user_follows` table keyed by the composite
 * primary key (follower, followed) with a soft-delete tombstone, articles
 * (soft-deleted, with their `int` counters), pictures, article-picture links
 * and comments. GORM's default scope hides tombstoned rows from every query
 * the handlers make, so `users` and `pictures` hold live rows only, while
 * `follows` and `articles` keep their tombstones because a tombstoned row
 * still occupies its primary key or still joins.
 */
module Tables {
  import opened Wrappers
  import opened Text

  /** The range of a Go `uint` column (`BIGINT UNSIGNED`). */
  type Uint64 = n: nat | n <= MaxUint64

  /** A user's denormalised counters, `followers_count`, `following_count`, `posts_count`. */
  datatype User = User(followers: Uint64, following: Uint64, posts: Uint64)

  datatype Column = FollowersCount | FollowingCount | PostsCount

  datatype Pair = Pair(follower: nat, followed: nat)

  datatype Article = Article(
    author: nat, title: string, content: string, tags: seq<string>,
    likeCount: int, favoriteCount: int, commentCount: int, deleted: bool)

  datatype Picture = Picture(url: string, owner: nat)

  /** A row of `article_pictures`: primary key (article, picture), `order` 0 is the cover. */
  datatype Link = Link(article: nat, picture: nat, order: int)

  datatype Comment = Comment(content: string, user: nat, article: nat, likeCount: int)

  datatype Db = Db(
    users: map<nat, User>,
    follows: map<Pair, bool>,        // true: tombstoned
    articles: map<nat, Article>,
    nextArticle: nat,
    pictures: map<nat, Picture>,
    nextPicture: nat,
    links: seq<Link>,
    comments: seq<Comment>)

  /** The auto-increment invariant of `pictures`: every id is below the next one to hand out. */
  predicate PictureIdsBelow(db: Db) {
    forall id :: id in db.pictures ==> id < db.nextPicture
  }

  function Get(u: User, c: Column): Uint64 {
    match c
    case FollowersCount => u.followers
    case FollowingCount => u.following
    case PostsCount => u.posts
  }

  function Set(u: User, c: Column, v: Uint64): (r: User)
    ensures Get(r, c) == v
    ensures forall c' :: c' != c ==> Get(r, c') == Get(u, c')
  {
    match c
    case FollowersCount => u.(followers := v)
    case FollowingCount => u.(following := v)
    case PostsCount => u.(posts := v)
  }

  /**
   * `UpdateColumn(col, gorm.Expr("col + ?", delta)).Where("id = ?", id)` on a
   * `BIGINT UNSIGNED` column: `None` is an error, either an injected write
   * failure or a result outside 0 .. 2^64-1 (MySQL refuses it rather than
   * wrapping). An id with no live row matches nothing and succeeds unchanged.
   */
  function AddToColumn(users: map<nat, User>, id: nat, c: Column, delta: int, fails: bool): (r: Option<map<nat, User>>)
    ensures r.Some? ==> r.value.Keys == users.Keys
    ensures r.Some? ==> forall i :: i in users && i != id ==> r.value[i] == users[i]
    ensures r.Some? && id in users ==> Get(r.value[id], c) == Get(users[id], c) + delta
    ensures r.Some? && id in users ==> forall c' :: c' != c ==> Get(r.value[id], c') == Get(users[id], c')
    ensures r.Some? && id !in users ==> r.value == users
    ensures r.None? <==> fails || (id in users && !(0 <= Get(users[id], c) + delta <= MaxUint64))
  {
    if fails then None
    else if id !in users then Some(users)
    else
      var v := Get(users[id], c) + delta;
      if 0 <= v <= MaxUint64 then Some(users[id := Set(users[id], c, v)]) else None
  }

  predicate LiveFollow(f: map<Pair, bool>, p: Pair) {
    p in f && !f[p]
  }

  /** The live follow rows whose follower is `u`. */
  function FollowingSet(f: map<Pair, bool>, u: nat): set<Pair> {
    set p | p in f && !f[p] && p.follower == u
  }

  /** The live follow rows whose followed user is `u`. */
  function FollowersSet(f: map<Pair, bool>, u: nat): set<Pair> {
    set p | p in f && !f[p] && p.followed == u
  }

  /** `Count` of the live articles whose author is `u`. */
  function LivePosts(articles: map<nat, Article>, u: nat): set<nat> {
    set a | a in articles && !articles[a].deleted && articles[a].author == u
  }

  function PostsOf(articles: map<nat, Article>, u: nat): nat {
    |LivePosts(articles, u)|
  }

  /** A user's three counters agree with the rows they summarise. */
  ghost predicate UserMatches(db: Db, u: nat)
    requires u in db.users
  {
    && db.users[u].following == |FollowingSet(db.follows, u)|
    && db.users[u].followers == |FollowersSet(db.follows, u)|
    && db.users[u].posts == PostsOf(db.articles, u)
  }

  /** Every live user's counters agree with the rows. */
  ghost predicate CountersMatch(db: Db) {
    forall u :: u in db.users ==> UserMatches(db, u)
  }

  lemma AddFollowing(f: map<Pair, bool>, p: Pair, u: nat)
    requires !LiveFollow(f, p)
    ensures |FollowingSet(f[p := false], u)| == |FollowingSet(f, u)| + (if p.follower == u then 1 else 0)
  {
    if p.follower == u {
      assert p !in FollowingSet(f, u);
      assert forall q :: q in FollowingSet(f[p := false], u) <==> q in FollowingSet(f, u) + {p};
      assert FollowingSet(f[p := false], u) == FollowingSet(f, u) + {p};
    } else {
      assert forall q :: q in FollowingSet(f[p := false], u) <==> q in FollowingSet(f, u);
      assert FollowingSet(f[p := false], u) == FollowingSet(f, u);
    }
  }

  lemma AddFollowers(f: map<Pair, bool>, p: Pair, u: nat)
    requires !LiveFollow(f, p)
    ensures |FollowersSet(f[p := false], u)| == |FollowersSet(f, u)| + (if p.followed == u then 1 else 0)
  {
    if p.followed == u {
      assert p !in FollowersSet(f, u);
      assert forall q :: q in FollowersSet(f[p := false], u) <==> q in FollowersSet(f, u) + {p};
      assert FollowersSet(f[p := false], u) == FollowersSet(f, u) + {p};
    } else {
      assert forall q :: q in FollowersSet(f[p := false], u) <==> q in FollowersSet(f, u);
      assert FollowersSet(f[p := false], u) == FollowersSet(f, u);
    }
  }

  lemma RemoveFollowing(f: map<Pair, bool>, p: Pair, u: nat)
    requires LiveFollow(f, p)
    ensures |FollowingSet(f[p := true], u)| == |FollowingSet(f, u)| - (if p.follower == u then 1 else 0)
  {
    if p.follower == u {
      assert p in FollowingSet(f, u);
      assert forall q :: q in FollowingSet(f[p := true], u) <==> q in FollowingSet(f, u) - {p};
      assert FollowingSet(f[p := true], u) == FollowingSet(f, u) - {p};
    } else {
      assert forall q :: q in FollowingSet(f[p := true], u) <==> q in FollowingSet(f, u);
      assert FollowingSet(f[p := true], u) == FollowingSet(f, u);
    }
  }

  lemma RemoveFollowers(f: map<Pair, bool>, p: Pair, u: nat)
    requires LiveFollow(f, p)
    ensures |FollowersSet(f[p := true], u)| == |FollowersSet(f, u)| - (if p.followed == u then 1 else 0)
  {
    if p.followed == u {
      assert p in FollowersSet(f, u);
      assert forall q :: q in FollowersSet(f[p := true], u) <==> q in FollowersSet(f, u) - {p};
      assert FollowersSet(f[p := true], u) == FollowersSet(f, u) - {p};
    } else {
      assert forall q :: q in FollowersSet(f[p := true], u) <==> q in FollowersSet(f, u);
      assert FollowersSet(f[p := true], u) == FollowersSet(f, u);
    }
  }

  /** Making one follow row live adds it to its follower's and its followed user's sets only. */
  lemma AddFollowSets(f: map<Pair, bool>, p: Pair, u: nat)
    requires !LiveFollow(f, p)
    ensures |FollowingSet(f[p := false], u)| == |FollowingSet(f, u)| + (if p.follower == u then 1 else 0)
    ensures |FollowersSet(f[p := false], u)| == |FollowersSet(f, u)| + (if p.followed == u then 1 else 0)
  {
    AddFollowing(f, p, u);
    AddFollowers(f, p, u);
  }

  /** Tombstoning one live follow row removes it from its follower's and its followed user's sets only. */
  lemma RemoveFollowSets(f: map<Pair, bool>, p: Pair, u: nat)
    requires LiveFollow(f, p)
    ensures |FollowingSet(f[p := true], u)| == |FollowingSet(f, u)| - (if p.follower == u then 1 else 0)
    ensures |FollowersSet(f[p := true], u)| == |FollowersSet(f, u)| - (if p.followed == u then 1 else 0)
  {
    RemoveFollowing(f, p, u);
    RemoveFollowers(f, p, u);
  }
}
