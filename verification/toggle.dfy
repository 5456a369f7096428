/**
 * `ArticleToggleLike`, `ArticleToggleFavorite` and `CommentToggleLike`: one
 * state machine instantiated three times. `SETNX` on the (subject, user)
 * flag key decides the transition: a fresh key is an engage (`INCR` the
 * subject's fast counter, insert a live row, add 1 to the counter column); a
 * key already present is a disengage (`DEL` the flag, `DECR` the counter,
 * tombstone every live row of the pair, subtract 1 from the column). The
 * goroutine that writes the rows and the column is applied at once, right
 * after the fast-path step.
 */
module Toggle {
  import opened Wrappers
  import opened Text
  import opened Keys
  import opened KvStore
  import opened Records
  import opened Http

  /**
   * One toggle kind's durable state: its rows, its parent counter column
   * (live parents only, as the default scope gives) and the ids that have a
   * parent row at all, live or tombstoned, which is what the rows' foreign
   * key to the parent table checks.
   */
  datatype Durable = Durable(table: Table, counts: map<nat, int>, parents: set<nat>)

  /** The fast store is shared by the three kinds; each kind has its own table and column. */
  datatype World = World(cache: Store, likes: Durable, favorites: Durable, commentLikes: Durable)

  datatype Outcome = InvalidId | Engaged | Disengaged | Failed

  function DurableOf(w: World, k: Kind): Durable {
    match k
    case ArticleLike => w.likes
    case ArticleFavorite => w.favorites
    case CommentLike => w.commentLikes
  }

  function WithDurable(w: World, k: Kind, d: Durable): (r: World)
    ensures DurableOf(r, k) == d && r.cache == w.cache
    ensures forall k' :: k' != k ==> DurableOf(r, k') == DurableOf(w, k')
  {
    match k
    case ArticleLike => w.(likes := d)
    case ArticleFavorite => w.(favorites := d)
    case CommentLike => w.(commentLikes := d)
  }

  /**
   * The deferred effect of an engage: a new row (never a restored one) and
   * `+1` on the column. The foreign key refuses the row when the subject has
   * no parent row; the goroutine drops that error and runs the column update
   * anyway, which then matches nothing.
   */
  function Engage(d: Durable, user: nat, subject: nat): (r: Durable)
    ensures r.parents == d.parents
    ensures subject in d.parents ==> r.table == Insert(d.table, user, subject)
    ensures subject !in d.parents ==> r.table == d.table
    ensures r.counts.Keys == d.counts.Keys
    ensures subject in d.counts ==> r.counts[subject] == d.counts[subject] + 1
    ensures forall s :: s in d.counts && s != subject ==> r.counts[s] == d.counts[s]
  {
    Durable(if subject in d.parents then Insert(d.table, user, subject) else d.table,
            Bump(d.counts, subject, 1), d.parents)
  }

  /** The deferred effect of a disengage: tombstone the pair's live rows and `-1` on the column. */
  function Disengage(d: Durable, user: nat, subject: nat): (r: Durable)
    ensures r.parents == d.parents
    ensures |r.table.rows| == |d.table.rows| && r.table.nextId == d.table.nextId
    ensures forall u, s :: LiveCount(r.table.rows, u, s) == if u == user && s == subject then 0 else LiveCount(d.table.rows, u, s)
    ensures r.counts.Keys == d.counts.Keys
    ensures subject in d.counts ==> r.counts[subject] == d.counts[subject] - 1
    ensures forall s :: s in d.counts && s != subject ==> r.counts[s] == d.counts[s]
  {
    Durable(SoftDelete(d.table, user, subject), Bump(d.counts, subject, -1), d.parents)
  }

  /** The transition for a parsed subject id. */
  function Step(w: World, k: Kind, id: nat, user: nat): (r: (World, Outcome))
    ensures r.1 == Engaged || r.1 == Disengaged
    ensures r.1 == Engaged <==> FlagKey(k, id, user) !in w.cache.flags
    ensures FlagKey(k, id, user) in r.0.cache.flags <==> r.1 == Engaged
    ensures r.0.cache.flags - {FlagKey(k, id, user)} == w.cache.flags - {FlagKey(k, id, user)}
    ensures Value(r.0.cache, CountKey(k, id)) == Value(w.cache, CountKey(k, id)) + (if r.1 == Engaged then 1 else -1)
    ensures forall key :: key != CountKey(k, id) ==> Value(r.0.cache, key) == Value(w.cache, key)
    ensures DurableOf(r.0, k) == if r.1 == Engaged then Engage(DurableOf(w, k), user, id)
                                 else Disengage(DurableOf(w, k), user, id)
    ensures forall k' :: k' != k ==> DurableOf(r.0, k') == DurableOf(w, k')
  {
    var flag := FlagKey(k, id, user);
    var count := CountKey(k, id);
    var d := DurableOf(w, k);
    var (c1, created) := SetNX(w.cache, flag);
    if created then
      (WithDurable(w.(cache := Incr(c1, count)), k, Engage(d, user, id)), Engaged)
    else
      var (c2, removed) := Del(c1, flag);
      if removed > 0 then
        (WithDurable(w.(cache := Decr(c2, count)), k, Disengage(d, user, id)), Disengaged)
      else
        (w.(cache := c2), Failed)
  }

  /**
   * A toggle request: the path id must parse as a base-10 32-bit unsigned
   * value, or the call is rejected and nothing changes. The "operation
   * failed" branch cannot be taken in a sequential run, because `SETNX` only
   * fails when the flag exists, and then `DEL` removes it.
   */
  function Toggle(w: World, k: Kind, rawId: string, user: nat): (r: (World, Outcome))
    ensures r.1 != Failed
    ensures r.1 == InvalidId <==> ParseUint32(rawId).None?
    ensures r.1 == InvalidId ==> r.0 == w
    ensures ParseUint32(rawId).Some? ==> r == Step(w, k, ParseUint32(rawId).value, user)
  {
    match ParseUint32(rawId)
    case None => (w, InvalidId)
    case Some(id) => Step(w, k, id, user)
  }

  /** The JSON reply of each outcome, per handler. */
  function Respond(k: Kind, o: Outcome): Response {
    match o
    case InvalidId => Response(400, if k == CommentLike then "无效的评论ID" else "无效的文章ID")
    case Engaged => Response(200, if k == ArticleFavorite then "收藏成功" else "点赞成功")
    case Disengaged => Response(200, if k == ArticleFavorite then "已取消收藏" else "已取消点赞")
    case Failed => Response(500, "操作失败")
  }

  /** `POST /api/like/:article_id`. */
  function ArticleToggleLike(w: World, rawId: string, user: nat): (r: (World, Response))
    ensures ParseUint32(rawId).None? ==> r == (w, Response(400, "无效的文章ID"))
    ensures ParseUint32(rawId).Some? ==>
              r.1 == if FlagKey(ArticleLike, ParseUint32(rawId).value, user) in w.cache.flags
                     then Response(200, "已取消点赞") else Response(200, "点赞成功")
    ensures r.0 == Toggle(w, ArticleLike, rawId, user).0
  {
    var (w', o) := Toggle(w, ArticleLike, rawId, user);
    (w', Respond(ArticleLike, o))
  }

  /** `POST /api/favorite/:article_id`. */
  function ArticleToggleFavorite(w: World, rawId: string, user: nat): (r: (World, Response))
    ensures ParseUint32(rawId).None? ==> r == (w, Response(400, "无效的文章ID"))
    ensures ParseUint32(rawId).Some? ==>
              r.1 == if FlagKey(ArticleFavorite, ParseUint32(rawId).value, user) in w.cache.flags
                     then Response(200, "已取消收藏") else Response(200, "收藏成功")
    ensures r.0 == Toggle(w, ArticleFavorite, rawId, user).0
  {
    var (w', o) := Toggle(w, ArticleFavorite, rawId, user);
    (w', Respond(ArticleFavorite, o))
  }

  /** `POST /api/like/comment/:comment_id`. */
  function CommentToggleLike(w: World, rawId: string, user: nat): (r: (World, Response))
    ensures ParseUint32(rawId).None? ==> r == (w, Response(400, "无效的评论ID"))
    ensures ParseUint32(rawId).Some? ==>
              r.1 == if FlagKey(CommentLike, ParseUint32(rawId).value, user) in w.cache.flags
                     then Response(200, "已取消点赞") else Response(200, "点赞成功")
    ensures r.0 == Toggle(w, CommentLike, rawId, user).0
  {
    var (w', o) := Toggle(w, CommentLike, rawId, user);
    (w', Respond(CommentLike, o))
  }

  /**
   * The dual-write invariant of one kind, for every subject that has a parent
   * row: a flag is set exactly when its pair has one live row, and the fast
   * counter equals the subject's live rows. No pair ever has more than one
   * live row, the column of every live parent equals its live rows, and no
   * live row belongs to a subject without a parent row. (A subject without a
   * parent row can have flags and a counter but no rows; `EngageWithoutParent`
   * shows how.)
   */
  ghost predicate KindConsistent(cache: Store, k: Kind, d: Durable) {
    && (forall s: nat, u: nat :: LiveCount(d.table.rows, u, s) <= 1)
    && (forall s: nat, u: nat :: s in d.parents ==>
          (FlagKey(k, s, u) in cache.flags <==> LiveCount(d.table.rows, u, s) == 1))
    && (forall s: nat :: s in d.parents ==> Value(cache, CountKey(k, s)) == LiveForSubject(d.table.rows, s))
    && (forall s :: s in d.counts ==> d.counts[s] == LiveForSubject(d.table.rows, s))
    && d.counts.Keys <= d.parents
    && (forall s: nat :: s !in d.parents ==> LiveForSubject(d.table.rows, s) == 0)
    && IdsBelow(d.table)
  }

  ghost predicate Consistent(w: World) {
    forall k :: KindConsistent(w.cache, k, DurableOf(w, k))
  }

  /** A fresh deployment: empty store, empty tables, every existing parent's counter at 0. */
  function Init(articles: set<nat>, comments: set<nat>): (w: World)
    ensures Consistent(w)
  {
    var zeros := map a | a in articles :: 0;
    World(KvStore.Empty, Durable(EmptyTable, zeros, articles), Durable(EmptyTable, zeros, articles),
          Durable(EmptyTable, map c | c in comments :: 0, comments))
  }

  /** A toggle of one pair changes no other pair's flag and no other subject's counter, in any namespace. */
  lemma ToggleFrame(w: World, k: Kind, rawId: string, user: nat)
    requires ParseUint32(rawId).Some?
    ensures var id := ParseUint32(rawId).value;
            var w' := Toggle(w, k, rawId, user).0;
            && (forall k': Kind, s: nat, u: nat :: (k', s, u) != (k, id, user) ==>
                  (FlagKey(k', s, u) in w'.cache.flags <==> FlagKey(k', s, u) in w.cache.flags))
            && (forall k': Kind, s: nat :: (k', s) != (k, id) ==> Value(w'.cache, CountKey(k', s)) == Value(w.cache, CountKey(k', s)))
            && (forall k' :: k' != k ==> DurableOf(w', k') == DurableOf(w, k'))
  {
    var id := ParseUint32(rawId).value;
    forall k': Kind, s: nat, u: nat | (k', s, u) != (k, id, user)
      ensures FlagKey(k', s, u) != FlagKey(k, id, user)
    {
      FlagKeyInjective(k', s, u, k, id, user);
    }
    forall k': Kind, s: nat | (k', s) != (k, id)
      ensures CountKey(k', s) != CountKey(k, id)
    {
      CountKeyInjective(k', s, k, id);
    }
  }

  /** The other kinds' invariants survive a step of kind `k`: their keys are disjoint from `k`'s. */
  lemma OtherKindUntouched(w: World, k: Kind, id: nat, user: nat, k': Kind)
    requires k' != k
    requires KindConsistent(w.cache, k', DurableOf(w, k'))
    ensures KindConsistent(Step(w, k, id, user).0.cache, k', DurableOf(Step(w, k, id, user).0, k'))
  {
    var w' := Step(w, k, id, user).0;
    var d := DurableOf(w, k');
    forall s: nat, u: nat | s in d.parents
      ensures FlagKey(k', s, u) in w'.cache.flags <==> LiveCount(d.table.rows, u, s) == 1
    {
      FlagKeyInjective(k', s, u, k, id, user);
    }
    forall s: nat | s in d.parents
      ensures Value(w'.cache, CountKey(k', s)) == LiveForSubject(d.table.rows, s)
    {
      CountKeyInjective(k', s, k, id);
    }
  }

  /**
   * An engage keeps its kind's invariant: for a subject with a parent row
   * the pair had no live row and now has exactly one; for one without, no
   * row is written and the invariant says nothing of its flag and counter.
   */
  lemma EngageKept(cache: Store, cache': Store, k: Kind, d: Durable, id: nat, user: nat)
    requires KindConsistent(cache, k, d)
    requires FlagKey(k, id, user) !in cache.flags
    requires cache'.flags == cache.flags + {FlagKey(k, id, user)}
    requires Value(cache', CountKey(k, id)) == Value(cache, CountKey(k, id)) + 1
    requires forall key :: key != CountKey(k, id) ==> Value(cache', key) == Value(cache, key)
    ensures KindConsistent(cache', k, Engage(d, user, id))
  {
    var rows, rows' := d.table.rows, Engage(d, user, id).table.rows;
    if id in d.parents {
      InsertCounts(d.table, user, id);
      assert LiveCount(rows, user, id) == 0;
    } else {
      assert rows' == rows;
    }
    forall s: nat, u: nat | s in d.parents
      ensures FlagKey(k, s, u) in cache'.flags <==> LiveCount(rows', u, s) == 1
    {
      FlagKeyInjective(k, s, u, k, id, user);
    }
    forall s: nat | s in d.parents
      ensures Value(cache', CountKey(k, s)) == LiveForSubject(rows', s)
    {
      CountKeyInjective(k, s, k, id);
    }
  }

  /**
   * A disengage keeps its kind's invariant: for a subject with a parent row
   * the pair's one live row is tombstoned; for one without, there is no row
   * to tombstone.
   */
  lemma DisengageKept(cache: Store, cache': Store, k: Kind, d: Durable, id: nat, user: nat)
    requires KindConsistent(cache, k, d)
    requires FlagKey(k, id, user) in cache.flags
    requires cache'.flags == cache.flags - {FlagKey(k, id, user)}
    requires Value(cache', CountKey(k, id)) == Value(cache, CountKey(k, id)) - 1
    requires forall key :: key != CountKey(k, id) ==> Value(cache', key) == Value(cache, key)
    ensures KindConsistent(cache', k, Disengage(d, user, id))
  {
    var rows, rows' := d.table.rows, Disengage(d, user, id).table.rows;
    if id in d.parents {
      assert LiveCount(rows, user, id) == 1;
    } else {
      LiveCountBound(rows, user, id);
    }
    forall s: nat, u: nat | s in d.parents
      ensures FlagKey(k, s, u) in cache'.flags <==> LiveCount(rows', u, s) == 1
    {
      FlagKeyInjective(k, s, u, k, id, user);
    }
    forall s: nat | s in d.parents
      ensures Value(cache', CountKey(k, s)) == LiveForSubject(rows', s)
    {
      CountKeyInjective(k, s, k, id);
    }
  }

  /**
   * Liking an id that has no parent row (any 32-bit id passes the path
   * check) sets the flag and raises the fast counter, but the row is refused:
   * afterwards the flag is set while the pair has no live row.
   */
  lemma EngageWithoutParent(w: World, k: Kind, id: nat, user: nat)
    requires Consistent(w)
    requires id !in DurableOf(w, k).parents && FlagKey(k, id, user) !in w.cache.flags
    ensures var w' := Step(w, k, id, user).0;
            && FlagKey(k, id, user) in w'.cache.flags
            && Value(w'.cache, CountKey(k, id)) == Value(w.cache, CountKey(k, id)) + 1
            && LiveCount(DurableOf(w', k).table.rows, user, id) == 0
  {
    var rows := DurableOf(w, k).table.rows;
    assert KindConsistent(w.cache, k, DurableOf(w, k));
    LiveCountBound(rows, user, id);
  }

  /** A step keeps its own kind's invariant. */
  lemma SameKindKept(w: World, k: Kind, id: nat, user: nat)
    requires KindConsistent(w.cache, k, DurableOf(w, k))
    ensures KindConsistent(Step(w, k, id, user).0.cache, k, DurableOf(Step(w, k, id, user).0, k))
  {
    var (w', o) := Step(w, k, id, user);
    var f := FlagKey(k, id, user);
    if o == Engaged {
      assert w'.cache.flags == w.cache.flags + {f};
      EngageKept(w.cache, w'.cache, k, DurableOf(w, k), id, user);
    } else {
      assert w'.cache.flags == w.cache.flags - {f};
      DisengageKept(w.cache, w'.cache, k, DurableOf(w, k), id, user);
    }
  }

  /** Every toggle, of any kind, preserves the dual-write invariant. */
  lemma ToggleKeepsConsistent(w: World, k: Kind, rawId: string, user: nat)
    requires Consistent(w)
    ensures Consistent(Toggle(w, k, rawId, user).0)
  {
    if ParseUint32(rawId).Some? {
      var id := ParseUint32(rawId).value;
      forall k' ensures KindConsistent(Step(w, k, id, user).0.cache, k', DurableOf(Step(w, k, id, user).0, k')) {
        if k' == k {
          SameKindKept(w, k, id, user);
        } else {
          OtherKindUntouched(w, k, id, user, k');
        }
      }
    }
  }

  /**
   * Toggling the same pair twice gives back the flag set, every fast
   * counter and the counter column, whatever the state was.
   */
  lemma ToggleTwiceRestoresCounters(w: World, k: Kind, rawId: string, user: nat)
    requires ParseUint32(rawId).Some?
    ensures var w2 := Toggle(Toggle(w, k, rawId, user).0, k, rawId, user).0;
            && w2.cache.flags == w.cache.flags
            && (forall key :: Value(w2.cache, key) == Value(w.cache, key))
            && DurableOf(w2, k).counts == DurableOf(w, k).counts
            && (forall k' :: k' != k ==> DurableOf(w2, k') == DurableOf(w, k'))
  {
    var id := ParseUint32(rawId).value;
    var (w1, o1) := Step(w, k, id, user);
    var (w2, o2) := Step(w1, k, id, user);
    FlagsBack(w.cache.flags, w1.cache.flags, w2.cache.flags, FlagKey(k, id, user));
    var d: int := if o1 == Engaged then 1 else -1;
    BumpBack(DurableOf(w, k).counts, id, d);
  }

  /** Flipping one member of a set twice, and nothing else, gives back the set. */
  lemma FlagsBack(a: set<string>, b: set<string>, c: set<string>, x: string)
    requires a - {x} == b - {x} && b - {x} == c - {x}
    requires x in b <==> x !in a
    requires x in c <==> x !in b
    ensures c == a
  {
    assert forall y :: y in c <==> y in a by {
      forall y ensures y in c <==> y in a {
        if y != x {
          assert y in c <==> y in c - {x};
          assert y in a <==> y in a - {x};
        }
      }
    }
  }

  /** Adding `d` to a column and then `-d` gives back the column. */
  lemma BumpBack(counts: map<nat, int>, id: nat, d: int)
    ensures Bump(Bump(counts, id, d), id, -d) == counts
  {
  }

  /** From a consistent state, toggling twice also gives back every pair's and every subject's live rows. */
  lemma ToggleTwiceRestoresLiveRows(w: World, k: Kind, rawId: string, user: nat)
    requires Consistent(w)
    requires ParseUint32(rawId).Some?
    ensures var w2 := Toggle(Toggle(w, k, rawId, user).0, k, rawId, user).0;
            && (forall u, s :: LiveCount(DurableOf(w2, k).table.rows, u, s) == LiveCount(DurableOf(w, k).table.rows, u, s))
            && (forall s :: LiveForSubject(DurableOf(w2, k).table.rows, s) == LiveForSubject(DurableOf(w, k).table.rows, s))
  {
    var id := ParseUint32(rawId).value;
    var (w1, o1) := Step(w, k, id, user);
    var d := DurableOf(w, k);
    assert KindConsistent(w.cache, k, d);
    LiveCountBound(d.table.rows, user, id);
    if o1 == Engaged {
      assert DurableOf(Step(w1, k, id, user).0, k) == Disengage(Engage(d, user, id), user, id);
      EngageThenDisengage(d, user, id);
    } else {
      assert DurableOf(Step(w1, k, id, user).0, k) == Engage(Disengage(d, user, id), user, id);
      DisengageThenEngage(d, user, id);
    }
  }

  /** Inserting a row for a pair with none and then tombstoning the pair's rows gives back the live rows. */
  lemma EngageThenDisengage(d: Durable, user: nat, id: nat)
    requires LiveCount(d.table.rows, user, id) == 0
    ensures var rows' := Disengage(Engage(d, user, id), user, id).table.rows;
            && (forall u, s :: LiveCount(rows', u, s) == LiveCount(d.table.rows, u, s))
            && (forall s :: LiveForSubject(rows', s) == LiveForSubject(d.table.rows, s))
  {
    if id in d.parents {
      InsertCounts(d.table, user, id);
    }
  }

  /**
   * Tombstoning a pair's rows and then inserting one gives back the live rows
   * when the pair had exactly one live row under a parent, or none at all
   * under an id without a parent row.
   */
  lemma DisengageThenEngage(d: Durable, user: nat, id: nat)
    requires id in d.parents ==> LiveCount(d.table.rows, user, id) == 1
    requires id !in d.parents ==> LiveCount(d.table.rows, user, id) == 0
    ensures var rows' := Engage(Disengage(d, user, id), user, id).table.rows;
            && (forall u, s :: LiveCount(rows', u, s) == LiveCount(d.table.rows, u, s))
            && (forall s :: LiveForSubject(rows', s) == LiveForSubject(d.table.rows, s))
  {
    var t1 := SoftDelete(d.table, user, id);
    var rows' := Engage(Disengage(d, user, id), user, id).table.rows;
    if id in d.parents {
      InsertCounts(t1, user, id);
      assert rows' == Insert(t1, user, id).rows;
    } else {
      assert rows' == t1.rows;
    }
    forall u, s ensures LiveCount(rows', u, s) == LiveCount(d.table.rows, u, s) {
      assert LiveCount(t1.rows, u, s) == if u == user && s == id then 0 else LiveCount(d.table.rows, u, s);
    }
    forall s ensures LiveForSubject(rows', s) == LiveForSubject(d.table.rows, s) {
      assert LiveForSubject(t1.rows, s) ==
             LiveForSubject(d.table.rows, s) - (if s == id then LiveCount(d.table.rows, user, id) else 0);
    }
  }
}
