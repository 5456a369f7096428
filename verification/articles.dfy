/**
 * The article handlers' own decisions: `CreateArticle` (validation, picture
 * ownership and order, `posts_count + 1`), `UpdateArticle` (author check,
 * merge of the non-empty request fields), `DeleteArticle` (author check,
 * soft delete) and, from `GetArticleList`, the page offset and the
 * recommendation reason shown with each article.
 */
module Articles {
  import opened Wrappers
  import opened Text
  import opened Tables
  import opened Http
  import Records
  import Toggle
  import Keys
  import Reconcile

  // ---------------------------------------------------------------- create

  datatype CreateRequest = CreateRequest(title: string, content: string, tags: seq<string>, pictureIds: seq<nat>)

  datatype CreateOutcome =
    | CreateBadRequest | TagFailed | CreateFailed | PictureNotOwned(picture: nat) | LinkFailed | Created(id: nat)

  /** The reply; for a request that does not bind, the binder's own error text is not modelled. */
  function CreateRespond(o: CreateOutcome): Response {
    match o
    case CreateBadRequest => Response(400, "")
    case TagFailed => Response(500, "创建标签失败")
    case CreateFailed => Response(500, "创建文章失败")
    case PictureNotOwned(p) => Response(400, "图片ID " + Decimal(p) + " 不存在或不属于当前用户")
    case LinkFailed => Response(500, "关联图片失败")
    case Created(_) => Response(200, "")
  }

  /** `Where("id = ? AND user_id = ?", pid, owner).First(&picture)` finds a live picture. */
  predicate Owned(pictures: map<nat, Picture>, pid: nat, owner: nat) {
    pid in pictures && pictures[pid].owner == owner
  }

  /** A link row with primary key (article, pid) already exists. */
  predicate Linked(links: seq<Link>, article: nat, pid: nat) {
    exists j :: 0 <= j < |links| && links[j].article == article && links[j].picture == pid
  }

  datatype LinkResult = AllLinked | NotOwned(picture: nat) | Duplicate

  /** `after` is `before` followed by the links of request pictures `i ..`, each with its request index as order. */
  ghost predicate LinksFrom(before: seq<Link>, after: seq<Link>, article: nat, pids: seq<nat>, i: nat) {
    && i <= |pids|
    && |before| <= |after| <= |before| + |pids| - i
    && after[..|before|] == before
    && forall j :: |before| <= j < |after| ==> after[j] == Link(article, pids[i + j - |before|], i + j - |before|)
  }

  /**
   * The picture loop from index `i`: each picture must be a live picture of
   * the author, and each link row is inserted with `order = i`; the first
   * foreign picture stops the loop (400), and so does a second link with the
   * same (article, picture) key (500). Links made so far are kept.
   */
  function LinkPictures(links: seq<Link>, pictures: map<nat, Picture>, article: nat, owner: nat, pids: seq<nat>, i: nat)
    : (r: (seq<Link>, LinkResult))
    requires i <= |pids|
    ensures LinksFrom(links, r.0, article, pids, i)
    ensures r.1 == AllLinked <==>
              && (forall j :: i <= j < |pids| ==> Owned(pictures, pids[j], owner) && !Linked(links, article, pids[j]))
              && (forall j, k :: i <= j < k < |pids| ==> pids[j] != pids[k])
    ensures r.1 == AllLinked ==> |r.0| == |links| + |pids| - i
    ensures r.1.NotOwned? ==>
              var j := i + |r.0| - |links|;
              j < |pids| && r.1.picture == pids[j] && !Owned(pictures, pids[j], owner)
    decreases |pids| - i
  {
    if i == |pids| then (links, AllLinked)
    else
      var pid := pids[i];
      if !Owned(pictures, pid, owner) then (links, NotOwned(pid))
      else if Linked(links, article, pid) then (links, Duplicate)
      else
        var links' := links + [Link(article, pid, i)];
        assert forall q :: Linked(links', article, q) <==> Linked(links, article, q) || q == pid by {
          forall q ensures Linked(links', article, q) <==> Linked(links, article, q) || q == pid {
            if Linked(links, article, q) {
              var j :| 0 <= j < |links| && links[j].article == article && links[j].picture == q;
              assert links'[j] == links[j];
            }
            if q == pid {
              assert links'[|links|] == Link(article, pid, i);
            }
          }
        }
        var r := LinkPictures(links', pictures, article, owner, pids, i + 1);
        assert r.0[..|links|] == links by {
          assert r.0[..|links'|] == links';
          assert links'[..|links|] == links;
        }
        r
  }

  /** The request binds and carries a title and content. */
  predicate CreateValid(req: Option<CreateRequest>) {
    req.Some? && req.value.title != "" && req.value.content != ""
  }

  /** The tag step fails: some tag is requested and its lookup-or-create errs. */
  predicate TagsFail(req: Option<CreateRequest>, tagFails: bool) {
    req.Some? && tagFails && |req.value.tags| > 0
  }

  /** `POST /api/article`, by the authenticated `caller`. */
  function CreateArticle(db: Db, caller: nat, req: Option<CreateRequest>, tagFails: bool, createFails: bool)
    : (r: (Db, CreateOutcome))
    ensures r.1 == CreateBadRequest <==> req.None? || req.value.title == "" || req.value.content == ""
    ensures r.1 in {CreateBadRequest, TagFailed, CreateFailed} ==> r.0 == db
    ensures r.1 == TagFailed <==> CreateValid(req) && TagsFail(req, tagFails)
    ensures r.1 == CreateFailed <==> CreateValid(req) && !TagsFail(req, tagFails) && createFails
    ensures CreateValid(req) && !TagsFail(req, tagFails) && !createFails ==>
              var lp := LinkPictures(db.links, db.pictures, db.nextArticle, caller, req.value.pictureIds, 0);
              && r.0.links == lp.0
              && (r.1.Created? <==> lp.1 == AllLinked)
              && (r.1 == LinkFailed <==> lp.1 == Duplicate)
              && (lp.1.NotOwned? <==> r.1.PictureNotOwned?)
              && (lp.1.NotOwned? ==> r.1 == PictureNotOwned(lp.1.picture))
    ensures r.1.PictureNotOwned? || r.1 == LinkFailed || r.1.Created? ==>
              var q := req.value;
              var id := db.nextArticle;
              && r.0.articles == db.articles[id := Article(caller, q.title, q.content, q.tags, 0, 0, 0, false)]
              && r.0.nextArticle == id + 1
              && LinksFrom(db.links, r.0.links, id, q.pictureIds, 0)
    ensures r.1.PictureNotOwned? ==> r.1.picture in req.value.pictureIds && !Owned(db.pictures, r.1.picture, caller)
    ensures !r.1.Created? ==> r.0.users == db.users
    ensures r.1.Created? ==>
              && r.1.id == db.nextArticle
              && |r.0.links| == |db.links| + |req.value.pictureIds|
              && (forall j :: 0 <= j < |req.value.pictureIds| ==> Owned(db.pictures, req.value.pictureIds[j], caller))
              && r.0.users.Keys == db.users.Keys
              && (forall u :: u in db.users && u != caller ==> r.0.users[u] == db.users[u])
              && (caller in db.users && db.users[caller].posts < MaxUint64 ==>
                    r.0.users[caller] == db.users[caller].(posts := db.users[caller].posts + 1))
    ensures r.0.follows == db.follows && r.0.pictures == db.pictures && r.0.comments == db.comments
  {
    if req.None? || req.value.title == "" || req.value.content == "" then (db, CreateBadRequest)
    else if tagFails && |req.value.tags| > 0 then (db, TagFailed)
    else if createFails then (db, CreateFailed)
    else InsertAndLink(db, caller, req.value)
  }

  /**
   * The steps after the article row is created: link the pictures, then
   * (only when every link went in) `posts_count + 1` on the author, whose
   * error is not checked.
   */
  function InsertAndLink(db: Db, caller: nat, q: CreateRequest): (r: (Db, CreateOutcome))
    ensures var lp := LinkPictures(db.links, db.pictures, db.nextArticle, caller, q.pictureIds, 0);
            && r.0.links == lp.0
            && (r.1.Created? <==> lp.1 == AllLinked)
            && (r.1 == LinkFailed <==> lp.1 == Duplicate)
            && (lp.1.NotOwned? <==> r.1.PictureNotOwned?)
            && (lp.1.NotOwned? ==> r.1 == PictureNotOwned(lp.1.picture))
    ensures r.1.PictureNotOwned? || r.1 == LinkFailed || r.1.Created?
    ensures r.0.articles == db.articles[db.nextArticle := Article(caller, q.title, q.content, q.tags, 0, 0, 0, false)]
    ensures r.0.nextArticle == db.nextArticle + 1
    ensures LinksFrom(db.links, r.0.links, db.nextArticle, q.pictureIds, 0)
    ensures r.1.PictureNotOwned? ==> r.1.picture in q.pictureIds && !Owned(db.pictures, r.1.picture, caller)
    ensures !r.1.Created? ==> r.0.users == db.users
    ensures r.1.Created? ==>
              && r.1.id == db.nextArticle
              && |r.0.links| == |db.links| + |q.pictureIds|
              && (forall j :: 0 <= j < |q.pictureIds| ==> Owned(db.pictures, q.pictureIds[j], caller))
              && r.0.users.Keys == db.users.Keys
              && (forall u :: u in db.users && u != caller ==> r.0.users[u] == db.users[u])
              && (caller in db.users && db.users[caller].posts < MaxUint64 ==>
                    r.0.users[caller] == db.users[caller].(posts := db.users[caller].posts + 1))
    ensures r.0.follows == db.follows && r.0.pictures == db.pictures && r.0.comments == db.comments
  {
    var id := db.nextArticle;
    var db1 := db.(articles := db.articles[id := Article(caller, q.title, q.content, q.tags, 0, 0, 0, false)],
                   nextArticle := id + 1);
    var (links, res) := LinkPictures(db1.links, db1.pictures, id, caller, q.pictureIds, 0);
    var db2 := db1.(links := links);
    match res
    case NotOwned(p) => (db2, PictureNotOwned(p))
    case Duplicate => (db2, LinkFailed)
    case AllLinked =>
      var users := match AddToColumn(db2.users, caller, PostsCount, 1, false)
                   case Some(us) => us
                   case None => db2.users;
      (db2.(users := users), Created(id))
  }

  /**
   * A create succeeds exactly when the request is valid, no tag or row write
   * fails, and the pictures are distinct live pictures of the author not yet
   * linked to the new id.
   */
  lemma CreateSucceedsIff(db: Db, caller: nat, req: Option<CreateRequest>, tagFails: bool, createFails: bool)
    ensures CreateArticle(db, caller, req, tagFails, createFails).1.Created? <==>
              && CreateValid(req) && !TagsFail(req, tagFails) && !createFails
              && (forall j :: 0 <= j < |req.value.pictureIds| ==>
                    Owned(db.pictures, req.value.pictureIds[j], caller)
                    && !Linked(db.links, db.nextArticle, req.value.pictureIds[j]))
              && (forall j, k :: 0 <= j < k < |req.value.pictureIds| ==> req.value.pictureIds[j] != req.value.pictureIds[k])
  {
  }
  /** Request picture `j` is linked with order `j`; in particular the first picture is the cover (order 0). */
  lemma CreatedLinksInRequestOrder(db: Db, caller: nat, req: Option<CreateRequest>, tagFails: bool, createFails: bool)
    ensures var r := CreateArticle(db, caller, req, tagFails, createFails);
            r.1.Created? ==>
              && (forall j :: 0 <= j < |req.value.pictureIds| ==>
                    r.0.links[|db.links| + j] == Link(r.1.id, req.value.pictureIds[j], j))
              && (|req.value.pictureIds| > 0 ==> Link(r.1.id, req.value.pictureIds[0], 0) in r.0.links)
  {
    var r := CreateArticle(db, caller, req, tagFails, createFails);
    if r.1.Created? {
      var pids := req.value.pictureIds;
      assert LinksFrom(db.links, r.0.links, r.1.id, pids, 0);
      forall j | 0 <= j < |pids| ensures r.0.links[|db.links| + j] == Link(r.1.id, pids[j], j) {
        assert |db.links| <= |db.links| + j < |r.0.links|;
      }
      if |pids| > 0 {
        assert r.0.links[|db.links| + 0] == Link(r.1.id, pids[0], 0);
      }
    }
  }

  /** Adding a fresh live article by `author` adds one to that author's live-article count only. */
  lemma PostsOfInsert(articles: map<nat, Article>, id: nat, a: Article, u: nat)
    requires id !in articles && !a.deleted
    ensures PostsOf(articles[id := a], u) == PostsOf(articles, u) + (if a.author == u then 1 else 0)
  {
    var articles' := articles[id := a];
    var before := LivePosts(articles, u);
    var after := LivePosts(articles', u);
    if a.author == u {
      assert id !in before;
      assert forall x :: x in after <==> x in before + {id};
      assert after == before + {id};
    } else {
      assert after == before;
    }
  }

  /** Tombstoning a live article removes one from its author's live-article count only. */
  lemma PostsOfDelete(articles: map<nat, Article>, id: nat, u: nat)
    requires id in articles && !articles[id].deleted
    ensures PostsOf(articles[id := articles[id].(deleted := true)], u)
            == PostsOf(articles, u) - (if articles[id].author == u then 1 else 0)
  {
    var articles' := articles[id := articles[id].(deleted := true)];
    var before := LivePosts(articles, u);
    var after := LivePosts(articles', u);
    if articles[id].author == u {
      assert id in before;
      assert forall x :: x in after <==> x in before - {id};
      assert after == before - {id};
    } else {
      assert after == before;
    }
  }

  /**
   * A successful create keeps every user's counters equal to the rows: the
   * one new live article is matched by the author's `posts_count + 1`.
   */
  lemma CreateKeepsCounters(db: Db, caller: nat, req: Option<CreateRequest>, tagFails: bool, createFails: bool)
    requires CountersMatch(db) && db.nextArticle !in db.articles
    requires caller in db.users ==> db.users[caller].posts < MaxUint64
    ensures var r := CreateArticle(db, caller, req, tagFails, createFails);
            r.1.Created? ==> CountersMatch(r.0)
  {
    var r := CreateArticle(db, caller, req, tagFails, createFails);
    if r.1.Created? {
      var q := req.value;
      var a := Article(caller, q.title, q.content, q.tags, 0, 0, 0, false);
      forall u | u in r.0.users ensures UserMatches(r.0, u) {
        PostsOfInsert(db.articles, db.nextArticle, a, u);
        assert UserMatches(db, u);
      }
    }
  }

  /**
   * A foreign picture stops the create after the article row exists, so the
   * author has one live article more than `posts_count` says; the recount
   * of `GetCurrentUserInfo` repairs it.
   */
  lemma PartialCreateRepaired(db: Db, caller: nat, req: Option<CreateRequest>, tagFails: bool, createFails: bool)
    requires CountersMatch(db) && db.nextArticle !in db.articles && caller in db.users
    requires PostsOf(db.articles, caller) < MaxUint64
    ensures var r := CreateArticle(db, caller, req, tagFails, createFails);
            r.1.PictureNotOwned? ==>
              && PostsOf(r.0.articles, caller) == r.0.users[caller].posts + 1
              && CountersMatch(Reconcile.GetCurrentUserInfo(r.0, Some(caller), Reconcile.NoFaults).0)
  {
    var r := CreateArticle(db, caller, req, tagFails, createFails);
    if r.1.PictureNotOwned? {
      var q := req.value;
      var a := Article(caller, q.title, q.content, q.tags, 0, 0, 0, false);
      forall u | u in r.0.users ensures u != caller ==> UserMatches(r.0, u)
        ensures PostsOf(r.0.articles, u) == PostsOf(db.articles, u) + (if u == caller then 1 else 0)
      {
        PostsOfInsert(db.articles, db.nextArticle, a, u);
        assert UserMatches(db, u);
      }
      assert UserMatches(db, caller);
      Reconcile.ReconcileCompletes(r.0, caller, Reconcile.NoFaults);
    }
  }

  // ---------------------------------------------------------------- update

  datatype UpdateRequest = UpdateRequest(title: string, content: string, tags: seq<string>, pictures: seq<string>)

  datatype UpdateOutcome = InvalidId | NotFound | Forbidden | UpdateBadRequest | TagUpdateFailed | SaveFailed | Updated

  function UpdateRespond(o: UpdateOutcome): Response {
    match o
    case InvalidId => Response(400, "无效的文章ID")
    case NotFound => Response(404, "文章不存在")
    case Forbidden => Response(403, "无权更新此文章")
    case UpdateBadRequest => Response(400, "")
    case TagUpdateFailed => Response(500, "更新标签失败")
    case SaveFailed => Response(500, "更新文章失败")
    case Updated => Response(200, "")
  }

  /**
   * The field merge: a non-empty title or content overwrites, a non-empty
   * tag list replaces the tags, the request's picture list is ignored, and
   * nothing else of the article moves.
   */
  function Merge(a: Article, q: UpdateRequest): (r: Article)
    ensures r.author == a.author && r.deleted == a.deleted
    ensures r.likeCount == a.likeCount && r.favoriteCount == a.favoriteCount && r.commentCount == a.commentCount
    ensures q.title != "" ==> r.title == q.title
    ensures q.title == "" ==> r.title == a.title
    ensures q.content != "" ==> r.content == q.content
    ensures q.content == "" ==> r.content == a.content
    ensures |q.tags| > 0 ==> r.tags == q.tags
    ensures |q.tags| == 0 ==> r.tags == a.tags
  {
    a.(title := if q.title != "" then q.title else a.title,
       content := if q.content != "" then q.content else a.content,
       tags := if |q.tags| > 0 then q.tags else a.tags)
  }

  /**
   * An update carrying no field changes nothing; applying the same update
   * twice is applying it once; a later update's non-empty fields win over an
   * earlier one's, and its empty fields keep what the earlier one left.
   */
  lemma MergeLaws(a: Article, q: UpdateRequest, q2: UpdateRequest)
    ensures Merge(a, UpdateRequest("", "", [], q.pictures)) == a
    ensures Merge(Merge(a, q), q) == Merge(a, q)
    ensures Merge(Merge(a, q), q2) == Merge(a, UpdateRequest(
              if q2.title != "" then q2.title else q.title,
              if q2.content != "" then q2.content else q.content,
              if |q2.tags| > 0 then q2.tags else q.tags,
              q2.pictures))
  {
  }

  /** A live article with this id. */
  predicate LiveArticle(db: Db, id: nat) {
    id in db.articles && !db.articles[id].deleted
  }

  /** The path id parses, names a live article, and `caller` is its author. */
  predicate MayEdit(db: Db, rawId: string, caller: nat) {
    ParseUint32(rawId).Some? && LiveArticle(db, ParseUint32(rawId).value)
    && db.articles[ParseUint32(rawId).value].author == caller
  }

  /**
   * `UpdateArticle`, a handler no route registers. The tag association is
   * replaced before the row is saved, so a failed save still leaves the new
   * tags in place.
   */
  function UpdateArticle(db: Db, rawId: string, caller: nat, req: Option<UpdateRequest>, tagFails: bool, saveFails: bool)
    : (r: (Db, UpdateOutcome))
    ensures r.1 == InvalidId <==> ParseUint32(rawId).None?
    ensures r.1 == NotFound <==> ParseUint32(rawId).Some? && !LiveArticle(db, ParseUint32(rawId).value)
    ensures r.1 == Forbidden <==>
              ParseUint32(rawId).Some? && LiveArticle(db, ParseUint32(rawId).value)
              && db.articles[ParseUint32(rawId).value].author != caller
    ensures r.1 in {InvalidId, NotFound, Forbidden, UpdateBadRequest, TagUpdateFailed} ==> r.0 == db
    ensures r.1 == Updated ==>
              req.Some? &&
              var id := ParseUint32(rawId).value;
              r.0 == db.(articles := db.articles[id := Merge(db.articles[id], req.value)])
    ensures r.1 == UpdateBadRequest <==> MayEdit(db, rawId, caller) && req.None?
    ensures r.1 == TagUpdateFailed <==> MayEdit(db, rawId, caller) && req.Some? && |req.value.tags| > 0 && tagFails
    ensures r.1 == SaveFailed <==>
              MayEdit(db, rawId, caller) && req.Some? && !(|req.value.tags| > 0 && tagFails) && saveFails
    ensures r.1 == Updated <==>
              MayEdit(db, rawId, caller) && req.Some? && !(|req.value.tags| > 0 && tagFails) && !saveFails
    ensures r.1 == SaveFailed ==>
              req.Some? &&
              var id := ParseUint32(rawId).value;
              r.0 == if |req.value.tags| > 0 then db.(articles := db.articles[id := db.articles[id].(tags := req.value.tags)])
                     else db
  {
    match ParseUint32(rawId)
    case None => (db, InvalidId)
    case Some(id) =>
      if !LiveArticle(db, id) then (db, NotFound)
      else if db.articles[id].author != caller then (db, Forbidden)
      else if req.None? then (db, UpdateBadRequest)
      else
        var q := req.value;
        var a := db.articles[id];
        if |q.tags| > 0 && tagFails then (db, TagUpdateFailed)
        else
          var db1 := if |q.tags| > 0 then db.(articles := db.articles[id := a.(tags := q.tags)]) else db;
          if saveFails then (db1, SaveFailed)
          else (db.(articles := db.articles[id := Merge(a, q)]), Updated)
  }

  // ---------------------------------------------------------------- delete

  datatype DeleteOutcome = DeleteInvalidId | DeleteNotFound | DeleteForbidden | DeleteFailed | Deleted

  function DeleteRespond(o: DeleteOutcome): Response {
    match o
    case DeleteInvalidId => Response(400, "无效的文章ID")
    case DeleteNotFound => Response(404, "文章不存在")
    case DeleteForbidden => Response(403, "无权删除此文章")
    case DeleteFailed => Response(500, "删除文章失败")
    case Deleted => Response(200, "文章已删除")
  }

  /** `DeleteArticle`, a handler no route registers: a soft delete by the author; no counter is touched. */
  function DeleteArticle(db: Db, rawId: string, caller: nat, deleteFails: bool): (r: (Db, DeleteOutcome))
    ensures r.1 == DeleteInvalidId <==> ParseUint32(rawId).None?
    ensures r.1 == DeleteNotFound <==> ParseUint32(rawId).Some? && !LiveArticle(db, ParseUint32(rawId).value)
    ensures r.1 == DeleteForbidden <==>
              ParseUint32(rawId).Some? && LiveArticle(db, ParseUint32(rawId).value)
              && db.articles[ParseUint32(rawId).value].author != caller
    ensures r.1 == DeleteFailed <==> MayEdit(db, rawId, caller) && deleteFails
    ensures r.1 == Deleted <==> MayEdit(db, rawId, caller) && !deleteFails
    ensures r.1 != Deleted ==> r.0 == db
    ensures r.1 == Deleted ==>
              var id := ParseUint32(rawId).value;
              && LiveArticle(db, id) && db.articles[id].author == caller && !LiveArticle(r.0, id)
              && r.0 == db.(articles := db.articles[id := db.articles[id].(deleted := true)])
  {
    match ParseUint32(rawId)
    case None => (db, DeleteInvalidId)
    case Some(id) =>
      if !LiveArticle(db, id) then (db, DeleteNotFound)
      else if db.articles[id].author != caller then (db, DeleteForbidden)
      else if deleteFails then (db, DeleteFailed)
      else (db.(articles := db.articles[id := db.articles[id].(deleted := true)]), Deleted)
  }

  /**
   * A delete leaves the author's `posts_count` one above the live articles
   * (the handler never decrements it), and the recount repairs it.
   */
  lemma DeleteLeavesPostsStale(db: Db, rawId: string, caller: nat)
    requires CountersMatch(db) && caller in db.users
    ensures var r := DeleteArticle(db, rawId, caller, false);
            r.1 == Deleted ==>
              && r.0.users == db.users
              && PostsOf(r.0.articles, caller) + 1 == r.0.users[caller].posts
              && CountersMatch(Reconcile.GetCurrentUserInfo(r.0, Some(caller), Reconcile.NoFaults).0)
  {
    var r := DeleteArticle(db, rawId, caller, false);
    if r.1 == Deleted {
      var id := ParseUint32(rawId).value;
      forall u | u in r.0.users
        ensures PostsOf(r.0.articles, u) == PostsOf(db.articles, u) - (if u == caller then 1 else 0)
        ensures u != caller ==> UserMatches(r.0, u)
      {
        PostsOfDelete(db.articles, id, u);
        assert UserMatches(db, u);
      }
      assert UserMatches(db, caller);
      Reconcile.ReconcileCompletes(r.0, caller, Reconcile.NoFaults);
    }
  }

  // ---------------------------------------------------------------- list

  /**
   * Paging of `GetArticleList`: `page` and `size` come from the query
   * (defaults "1" and "10" only when the parameter is absent), through
   * `Atoi` with the error dropped; the offset is `(page-1)*size` in Go's
   * 64-bit `int`, wrapping on overflow.
   */
  function PageOffset(pageQ: Option<string>, sizeQ: Option<string>): (r: (int, int))
    ensures MinInt64 <= r.0 <= MaxInt64
    ensures r.1 == AtoiIgnoringError(sizeQ.GetOr("10"))
    ensures r.0 == Wrap64((AtoiIgnoringError(pageQ.GetOr("1")) - 1) * r.1)
  {
    var page := AtoiIgnoringError(pageQ.GetOr("1"));
    var size := AtoiIgnoringError(sizeQ.GetOr("10"));
    WrapMul(page - 1, size);
    (Wrap64(Wrap64(page - 1) * size), size)
  }

  /** Well-formed parameters whose product fits give exactly `(page-1)*size`. */
  lemma PageOffsetOfDecimals(p: nat, s: nat)
    requires 1 <= p <= MaxInt64 && s <= MaxInt64 && (p - 1) * s <= MaxInt64
    ensures PageOffset(Some(Decimal(p)), Some(Decimal(s))) == ((p - 1) * s, s)
  {
    AtoiOfDecimal(p);
    AtoiOfDecimal(s);
    OffsetFits(p, s);
  }

  /** Without a page parameter the list starts at offset 0; with neither parameter the size is 10. */
  lemma PageOffsetDefaults(sizeQ: Option<string>)
    ensures PageOffset(None, sizeQ).0 == 0
    ensures PageOffset(None, None) == (0, 10)
  {
    assert AtoiIgnoringError("1") == 1 by {
      assert "1" == Decimal(1);
      AtoiOfDecimal(1);
    }
    assert AtoiIgnoringError("10") == 10 by {
      assert "10" == Decimal(10);
      AtoiOfDecimal(10);
    }
    assert Wrap64(1 - 1) == 0;
  }

  /** A page parameter that is not a number reads as 0, so the offset is `-size`. */
  lemma NonNumericPage(s: nat)
    requires s <= MaxInt64
    ensures PageOffset(Some("x"), Some(Decimal(s))).0 == -(s as int)
  {
    AtoiOfDecimal(s);
    AtoiNonNumeric("x");
    InRangeWraps(-1);
    var product: int := -1 * s;
    assert product == -(s as int);
    InRangeWraps(product);
  }

  const ReasonLiked := "你已点赞过的文章"
  const ReasonFollowing := "来自你关注的作者"
  const ReasonLikedAuthor := "你可能感兴趣的作者"
  const ReasonHot := "热门文章"

  datatype Entry = Entry(isLiked: bool, reason: string)

  /** A live like by `viewer` on another article (of any state) by `author`, as the join at the source finds it. */
  predicate LikedOtherBy(likes: seq<Records.Row>, articles: map<nat, Article>, viewer: nat, author: nat, id: nat) {
    exists j :: 0 <= j < |likes| && !likes[j].deleted && likes[j].user == viewer && likes[j].subject != id
                && likes[j].subject in articles && articles[likes[j].subject].author == author
  }

  /**
   * `is_liked` and `recommendation_reason` of one list item. Signed-out
   * viewers get neither; otherwise the first that holds of: the viewer
   * likes it; the viewer follows its author; the viewer likes another
   * article by its author; it has strictly more than 50 likes.
   */
  function ListEntry(viewer: Option<nat>, id: nat, a: Article, likes: seq<Records.Row>,
                     follows: map<Pair, bool>, articles: map<nat, Article>): (r: Entry)
    ensures viewer.None? ==> r == Entry(false, "")
    ensures r.isLiked <==> viewer.Some? && Records.LiveCount(likes, viewer.value, id) > 0
    ensures r.reason == ReasonLiked <==> r.isLiked
    ensures r.reason == ReasonFollowing <==>
              viewer.Some? && !r.isLiked && LiveFollow(follows, Pair(viewer.value, a.author))
    ensures r.reason == ReasonLikedAuthor <==>
              viewer.Some? && !r.isLiked && !LiveFollow(follows, Pair(viewer.value, a.author))
              && LikedOtherBy(likes, articles, viewer.value, a.author, id)
    ensures r.reason == ReasonHot <==>
              viewer.Some? && !r.isLiked && !LiveFollow(follows, Pair(viewer.value, a.author))
              && !LikedOtherBy(likes, articles, viewer.value, a.author, id) && a.likeCount > 50
    ensures r.reason in {"", ReasonLiked, ReasonFollowing, ReasonLikedAuthor, ReasonHot}
  {
    match viewer
    case None => Entry(false, "")
    case Some(v) =>
      var liked := Records.LiveCount(likes, v, id) > 0;
      var reason :=
        if liked then ReasonLiked
        else if LiveFollow(follows, Pair(v, a.author)) then ReasonFollowing
        else if LikedOtherBy(likes, articles, v, a.author, id) then ReasonLikedAuthor
        else if a.likeCount > 50 then ReasonHot
        else "";
      Entry(liked, reason)
  }

  /**
   * Right after a viewer's like toggle engages on an article (one with a row,
   * as every listed article has), that article's list item shows it as
   * liked, with the top-priority reason.
   */
  lemma LikedAfterEngage(w: Toggle.World, rawId: string, viewer: nat, a: Article,
                         follows: map<Pair, bool>, articles: map<nat, Article>)
    requires ParseUint32(rawId).Some?
    ensures var id := ParseUint32(rawId).value;
            var r := Toggle.Toggle(w, Keys.ArticleLike, rawId, viewer);
            r.1 == Toggle.Engaged && id in w.likes.parents ==>
              ListEntry(Some(viewer), id, a, r.0.likes.table.rows, follows, articles) == Entry(true, ReasonLiked)
  {
    var id := ParseUint32(rawId).value;
    var w0 := Toggle.DurableOf(w, Keys.ArticleLike);
    Records.InsertCounts(w0.table, viewer, id);
  }

  /** From a consistent state, right after the like toggle disengages, the item no longer shows as liked. */
  lemma NotLikedAfterDisengage(w: Toggle.World, rawId: string, viewer: nat, a: Article,
                               follows: map<Pair, bool>, articles: map<nat, Article>)
    requires ParseUint32(rawId).Some?
    ensures var id := ParseUint32(rawId).value;
            var r := Toggle.Toggle(w, Keys.ArticleLike, rawId, viewer);
            r.1 == Toggle.Disengaged ==>
              !ListEntry(Some(viewer), id, a, r.0.likes.table.rows, follows, articles).isLiked
  {
  }
}
