/**
 * `CreateComment`: id validation, the comment row, and the `comment_count`
 * increment of the commented article.
 */
module Comments {
  import opened Wrappers
  import opened Text
  import opened Tables
  import opened Http
  import Articles

  datatype Outcome = InvalidId | BadRequest | InsertFailed | UserLoadFailed | Commented(user: nat, content: string)

  /** The reply; the binder's own error text and the author's nickname and avatar are not modelled. */
  function Respond(o: Outcome): Response {
    match o
    case InvalidId => Response(400, "无效的文章ID")
    case BadRequest => Response(400, "")
    case InsertFailed => Response(500, "创建评论失败")
    case UserLoadFailed => Response(500, "获取用户信息失败")
    case Commented(_, content) => Response(200, content)
  }

  /** Number of comment rows on `article`. */
  function CommentsOn(comments: seq<Comment>, article: nat): (n: nat)
    ensures n <= |comments|
  {
    if |comments| == 0 then 0
    else CommentsOn(comments[..|comments| - 1], article) + (if comments[|comments| - 1].article == article then 1 else 0)
  }

  /** Appending a comment adds one to its own article's count only. */
  lemma CommentsOnAppend(comments: seq<Comment>, c: Comment, article: nat)
    ensures CommentsOn(comments + [c], article) == CommentsOn(comments, article) + (if c.article == article then 1 else 0)
  {
    assert (comments + [c])[..|comments|] == comments;
  }

  /** Every live article's `comment_count` equals its comment rows. */
  ghost predicate CommentCountsMatch(db: Db) {
    forall a :: a in db.articles && !db.articles[a].deleted ==> db.articles[a].commentCount == CommentsOn(db.comments, a)
  }

  /** Every comment row refers to an article row, as the foreign key requires. */
  ghost predicate CommentsReferToArticles(db: Db) {
    forall j :: 0 <= j < |db.comments| ==> db.comments[j].article in db.articles
  }

  /**
   * `POST /api/comment/:article_id` by `caller`. The insert fails on a
   * store error (`insertFails`) or when no article row has this id (the
   * foreign key; a soft-deleted article still has its row). The counter
   * update, whose error is not checked, reaches only a live article and
   * fails silently at the top of Go's signed 64-bit range. Loading the
   * author afterwards can fail after both writes have happened.
   */
  function CreateComment(db: Db, rawId: string, caller: nat, content: Option<string>,
                         insertFails: bool, userLoadFails: bool): (r: (Db, Outcome))
    ensures r.1 == InvalidId <==> ParseUint32(rawId).None?
    ensures r.1 == BadRequest <==> ParseUint32(rawId).Some? && (content.None? || content.value == "")
    ensures r.1 == InsertFailed <==>
              ParseUint32(rawId).Some? && content.Some? && content.value != ""
              && (insertFails || ParseUint32(rawId).value !in db.articles)
    ensures r.1 in {InvalidId, BadRequest, InsertFailed} ==> r.0 == db
    ensures r.1.Commented? || r.1 == UserLoadFailed ==>
              var id := ParseUint32(rawId).value;
              && id in db.articles
              && r.0.comments == db.comments + [Comment(content.value, caller, id, 0)]
              && r.0.articles.Keys == db.articles.Keys
              && (forall a :: a in db.articles && a != id ==> r.0.articles[a] == db.articles[a])
              && r.0.articles[id].commentCount ==
                   (if !db.articles[id].deleted && db.articles[id].commentCount < MaxInt64
                    then db.articles[id].commentCount + 1 else db.articles[id].commentCount)
              && r.0.articles[id] == db.articles[id].(commentCount := r.0.articles[id].commentCount)
              && r.0.(comments := db.comments, articles := db.articles) == db
    ensures r.1 == UserLoadFailed <==> r.1 !in {InvalidId, BadRequest, InsertFailed} && (caller !in db.users || userLoadFails)
    ensures r.1.Commented? ==> r.1 == Commented(caller, content.value)
  {
    match ParseUint32(rawId)
    case None => (db, InvalidId)
    case Some(id) =>
      if content.None? || content.value == "" then (db, BadRequest)
      else if insertFails || id !in db.articles then (db, InsertFailed)
      else
        var db1 := db.(comments := db.comments + [Comment(content.value, caller, id, 0)]);
        var a := db.articles[id];
        var db2 := if !a.deleted && a.commentCount < MaxInt64
                   then db1.(articles := db1.articles[id := a.(commentCount := a.commentCount + 1)])
                   else db1;
        if caller !in db.users || userLoadFails then (db2, UserLoadFailed)
        else (db2, Commented(caller, content.value))
  }

  /**
   * A stored comment keeps every live article's `comment_count` equal to
   * its comment rows, and every comment pointing at an article row.
   */
  lemma CreateCommentKeepsCounts(db: Db, rawId: string, caller: nat, content: Option<string>,
                                 insertFails: bool, userLoadFails: bool)
    requires CommentCountsMatch(db) && CommentsReferToArticles(db)
    requires forall a :: a in db.articles ==> db.articles[a].commentCount < MaxInt64
    ensures var r := CreateComment(db, rawId, caller, content, insertFails, userLoadFails);
            CommentCountsMatch(r.0) && CommentsReferToArticles(r.0)
  {
    var r := CreateComment(db, rawId, caller, content, insertFails, userLoadFails);
    if r.1.Commented? || r.1 == UserLoadFailed {
      var id := ParseUint32(rawId).value;
      AppendKeepsCounts(db, r.0, Comment(content.value, caller, id, 0));
    }
  }

  /**
   * Appending one comment row whose article row exists, and raising that
   * article's count by one when it is live, keeps both invariants.
   */
  lemma AppendKeepsCounts(db: Db, db': Db, c: Comment)
    requires CommentCountsMatch(db) && CommentsReferToArticles(db)
    requires c.article in db.articles
    requires db'.comments == db.comments + [c]
    requires db'.articles.Keys == db.articles.Keys
    requires forall a :: a in db.articles && a != c.article ==> db'.articles[a] == db.articles[a]
    requires db'.articles[c.article].deleted == db.articles[c.article].deleted
    requires !db.articles[c.article].deleted ==>
               db'.articles[c.article].commentCount == db.articles[c.article].commentCount + 1
    ensures CommentCountsMatch(db') && CommentsReferToArticles(db')
  {
    forall a | a in db'.articles && !db'.articles[a].deleted
      ensures db'.articles[a].commentCount == CommentsOn(db'.comments, a)
    {
      CommentsOnAppend(db.comments, c, a);
    }
    forall j | 0 <= j < |db'.comments| ensures db'.comments[j].article in db'.articles {
      if j < |db.comments| {
        assert db'.comments[j] == db.comments[j];
      }
    }
  }

  /** A new article starts with no comments, so creating one keeps the comment counts right. */
  lemma CreateArticleKeepsCommentCounts(db: Db, caller: nat, req: Option<Articles.CreateRequest>,
                                        tagFails: bool, createFails: bool)
    requires CommentCountsMatch(db) && CommentsReferToArticles(db) && db.nextArticle !in db.articles
    ensures var r := Articles.CreateArticle(db, caller, req, tagFails, createFails);
            CommentCountsMatch(r.0) && CommentsReferToArticles(r.0)
  {
    var r := Articles.CreateArticle(db, caller, req, tagFails, createFails);
    var id := db.nextArticle;
    assert CommentsOn(db.comments, id) == 0 by {
      NoCommentsOn(db.comments, id);
    }
  }

  /** No comment row names `article`, so it has none. */
  lemma {:induction false} NoCommentsOn(comments: seq<Comment>, article: nat)
    requires forall j :: 0 <= j < |comments| ==> comments[j].article != article
    ensures CommentsOn(comments, article) == 0
  {
    if |comments| > 0 {
      NoCommentsOn(comments[..|comments| - 1], article);
    }
  }

  /** Deleting an article never breaks the comment counts of the articles that stay live. */
  lemma DeleteArticleKeepsCommentCounts(db: Db, rawId: string, caller: nat, deleteFails: bool)
    requires CommentCountsMatch(db) && CommentsReferToArticles(db)
    ensures var r := Articles.DeleteArticle(db, rawId, caller, deleteFails);
            CommentCountsMatch(r.0) && CommentsReferToArticles(r.0)
  {
  }
}
