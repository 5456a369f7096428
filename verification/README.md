# greenbook interaction core, in Dafny

A model of the write paths of the greenbook blogging backend (Go, gin,
GORM, Redis, MinIO) and of the consistency they keep between the fast
key-value store, the relational rows and the denormalised counters:

- the three toggle handlers (article like, article favourite, comment
  like). Each one uses a Redis flag (`SETNX`/`DEL`) and a Redis counter
  (`INCR`/`DECR`). It also does a deferred relational write: insert a row,
  or soft-delete the pair's rows, then `±1` on the parent's count column;
- the follow toggle, with its three writes on unsigned user counters;
- the counter repair that `GetCurrentUserInfo` performs;
- article create / update / delete;
- the list's paging offset and its recommendation reason;
- comment creation;
- picture upload naming, the base64 guard and serving.

Handlers are pure functions from a state and the request to a new state
and an outcome (and the HTTP reply). Each failure of a write is a
boolean (or a set of `Follow.Write`s) the caller passes in; so are the
read failures of `GetCurrentUserInfo` (`Reconcile.Faults`). Other failed
reads are not injected (see "## Left out").
The clock is passed as `now`, the authenticated user id as `caller`.

Modules:

- `Wrappers` holds `Option`.
- `Text` covers decimal rendering and parsing, `strconv.ParseUint(s, 10, 32)`, `strconv.Atoi` with the error dropped, Go's 64-bit wrap, and splitting at a separator.
- `Keys` holds the Redis key formats and their decoder.
- `KvStore` holds the Redis commands used.
- `Records` holds soft-deletable interaction rows and the count-column update.
- `Http` holds the reply.
- `Toggle` holds the three toggle handlers and their dual-write invariant.
- `Tables` holds the users, follows, articles, pictures, links and comments.
- `Follow` holds `FollowAction`.
- `Reconcile` holds `GetCurrentUserInfo`.
- `Articles`, `Comments` and `Pictures` hold the remaining handlers.

Behaviour of the code that the model keeps as written:

- An engage always inserts a new row under the next id and never revives a tombstoned one (`Toggle.Step`). The row is refused when the id has no parent row.
- A disengage applies `-1` whether or not a live row existed.
- The 500 "操作失败" branch of the toggles is kept, and is proved unreachable in a sequential run (`Toggle.Toggle`).
- Deleting an article never touches `posts_count`. Only the recount of `GetCurrentUserInfo` brings it back (`Articles.DeleteLeavesPostsStale`).
- `UpdateArticle` and `DeleteArticle` are handlers that router/router.go does not register; only `AdminDeleteArticle` sits at `/admin/articles/:id`. They are modelled as handlers, as written.

## Model

| member | source | states |
|---|---|---|
| Text.ParseUint32 | controllers/like_controller.go:16-20 | a path id is accepted exactly when it is a non-empty all-digit string whose value fits in 32 bits, and the value is that number; a sign, a space, any other character or a 33-bit value is refused |
| Text.ParseUint32OfDecimal | controllers/like_controller.go:16-24 | every 32-bit id, printed with `%d`, parses back to itself |
| Text.ParseUint32Canonical | controllers/like_controller.go:16-24 | a canonical numeral (no leading zero) that parses is the `%d` rendering of its value, so the key built from the id repeats the path text |
| Text.ScanMeaning | controllers/article_controller.go:130-131 | the digit scan of `ParseUint` stops with a range error iff the leading digit run exceeds the bound, else with a syntax error iff a non-digit follows the run, else with the run's value |
| Text.AtoiIgnoringError | controllers/article_controller.go:130-131 | the result is always within Go's 64-bit `int` range; a leading digit run (after one optional sign) that exceeds 2^64-1 saturates to MaxInt64, or MinInt64 with '-'; otherwise an empty run or any trailing non-digit gives 0; otherwise the signed value, clamped to 64 bits |
| Text.OverflowBeforeText | controllers/article_controller.go:130-131 | a digit run past 2^64-1 saturates even when text follows it: `99999999999999999999x` reads as MaxInt64 and `-99999999999999999999x` as MinInt64 |
| Text.AtoiNonNumeric | controllers/article_controller.go:130-131 | a string whose first character is neither a digit nor a sign reads as 0 |
| Text.AtoiOfDecimal | controllers/article_controller.go:130-131 | a decimal numeral within range reads back as its own value |
| Text.Wrap64 | controllers/article_controller.go:167 | the result is within 64-bit range, congruent to the exact value modulo 2^64, and equal to it when it fits |
| Keys.DecodeEncode | controllers/like_controller.go:23-24 | every flag key `entity:action:subject:user` and counter key `entity:action_count:subject` decodes back to its parts |
| Keys.EncodeInjective | controllers/like_controller.go:23-24 | two keys render to the same string if and only if they are the same key |
| Keys.FlagKeyInjective | controllers/like_controller.go:75 | flag keys are equal iff kind, subject and user all agree, so the like, favourite and comment-like namespaces are disjoint |
| Keys.CountKeyInjective | controllers/like_controller.go:127 | counter keys are equal iff kind and subject agree |
| Keys.FlagNotCount | controllers/like_controller.go:126-127 | no flag key is ever a counter key |
| Keys.KeyShapes | controllers/like_controller.go:23-24 | the literal key strings of the three handlers, e.g. `article:like:42:7` and `comment:like_count:5` |
| KvStore.SetNX | controllers/like_controller.go:27 | SETNX reports success exactly when the key was absent, and afterwards the key is present with no other flag changed |
| KvStore.Del | controllers/like_controller.go:47 | DEL removes the key and reports 1 exactly when it was present |
| KvStore.DelUndoesSetNX | controllers/like_controller.go:27-47 | DEL after a successful SETNX restores the store, and SETNX then succeeds again |
| KvStore.DecrUndoesIncr | controllers/like_controller.go:30-50 | DECR after INCR gives back every counter's value |
| Records.Insert | controllers/like_controller.go:34-38 | the insert keeps every existing row (tombstones included), appends one live row under the next id, and advances the id; when every row id is below the next id, the new id is held by no old row (tombstones included) and the invariant holds again |
| Records.SoftDelete | controllers/like_controller.go:54-55 | the soft delete zeroes the pair's live count, leaves every other pair's count alone, and lowers the subject's live count by exactly the pair's; it keeps every row's id and the next id, so it keeps the id invariant |
| Records.InsertCounts | controllers/like_controller.go:38 | the new row adds one to its own pair's and subject's live counts and to no other |
| Records.LiveCountBound | controllers/like_controller.go:55 | a pair's live rows never outnumber its subject's |
| Records.Bump | controllers/like_controller.go:39 | the add changes only an existing parent, by exactly delta; for an id with no parent nothing changes |
| Toggle.Engage | controllers/like_controller.go:33-40 | the insert lands only when the subject has a parent row (live or tombstoned), which the foreign key of models/article.go:50-52 demands; without one the table is unchanged, while the column update runs either way: the subject's count rises by one when it has a row, and no other count changes |
| Toggle.Disengage | controllers/like_controller.go:53-57 | the soft delete leaves the pair no live row and every other pair's live count alone, keeps the ids and parents, and lowers the subject's count by one when it has a row, leaving every other count unchanged |
| Toggle.Step | controllers/like_controller.go:27-61 | it engages exactly when the flag was absent; afterwards the flag is set iff engaged; the counter moves by +1 or -1; other keys and other kinds are untouched; the deferred row effect is an insert or a soft delete of the pair |
| Toggle.Toggle | controllers/like_controller.go:15-64 | an id that does not parse gives InvalidId with nothing changed; otherwise the outcome is engage or disengage, never the 500 branch |
| Toggle.ArticleToggleLike | controllers/like_controller.go:15-64 | replies 400 "无效的文章ID", 200 "点赞成功" on engage and 200 "已取消点赞" on disengage, and its state is that of the like toggle |
| Toggle.ArticleToggleFavorite | controllers/like_controller.go:67-116 | same structure on the favourite flag and `favorite_count`, replying "收藏成功" / "已取消收藏" |
| Toggle.CommentToggleLike | controllers/like_controller.go:118-169 | same structure on the comment-like flag and the comment's `like_count`, with 400 "无效的评论ID" |
| Toggle.Init | models/article.go:27-29 | an empty store and empty tables, with every counter at 0, satisfy the dual-write invariant |
| Toggle.ToggleFrame | controllers/like_controller.go:23-24 | a toggle changes no other pair's flag and no other subject's counter, in any namespace |
| Toggle.EngageWithoutParent | controllers/like_controller.go:27-40 | liking an id with no parent row sets the flag and raises the fast counter by one, yet the pair has no live row afterwards |
| Toggle.OtherKindUntouched | controllers/like_controller.go:75-76 | a toggle of one kind preserves the invariant of the other two kinds |
| Toggle.EngageKept | controllers/like_controller.go:27-40 | an engage from an absent flag leaves exactly one live row for the pair, and both counters equal the live rows |
| Toggle.DisengageKept | controllers/like_controller.go:47-57 | a disengage from a set flag leaves no live row, and both counters equal the live rows |
| Toggle.SameKindKept | controllers/like_controller.go:27-57 | any step keeps its own kind's invariant |
| Toggle.ToggleKeepsConsistent | controllers/like_controller.go:15-169 | every toggle of every kind preserves the invariant "for a subject with a parent row, flag set ⇔ exactly one live row, and each counter = live rows of its subject; row ids stay below the next id" |
| Toggle.ToggleTwiceRestoresCounters | controllers/like_controller.go:27-57 | two toggles of one pair give back the flag set, every Redis counter and the count column, from any state |
| Toggle.ToggleTwiceRestoresLiveRows | controllers/like_controller.go:33-57 | from a consistent state, two toggles also give back every pair's and subject's live-row counts |
| Toggle.EngageThenDisengage | controllers/like_controller.go:33-56 | an engage on a pair with no live row, then a disengage, gives back every pair's and subject's live-row count |
| Toggle.DisengageThenEngage | controllers/like_controller.go:33-56 | a disengage, then an engage, gives back the live-row counts when the pair had one live row under a parent, or none under an id without a parent row |
| Tables.AddToColumn | controllers/follow_controller.go:57 | the unsigned column update fails exactly on an injected error or when the result leaves 0..2^64-1; otherwise only that user's column moves, by delta |
| Tables.AddFollowSets | controllers/follow_controller.go:75 | making a follow row live adds one to the follower's following set and the target's followers set, and to no other |
| Tables.RemoveFollowSets | controllers/follow_controller.go:51 | tombstoning a live follow row removes one from exactly those two sets |
| Follow.Unfollow | controllers/follow_controller.go:49-67 | the row is tombstoned unless its write fails; the two `-1` counter writes happen in order and each stops the call on failure or underflow, with the reply that names it |
| Follow.FollowUser | controllers/follow_controller.go:70-89 | the insert fails on an injected error or, as written, whenever a tombstoned row holds the key; otherwise the row is live and the `+1` writes happen in order, stopping on failure or overflow |
| Follow.FollowAction | controllers/follow_controller.go:19-90 | 400 on a missing body or target 0, then 401 with no caller, 400 on self-follow, 400 on an unknown target; a rejected call writes nothing; a live row is unfollowed, else followed; no other user or pair changes |
| Follow.FollowKeepsCounters | controllers/follow_controller.go:49-89 | a fully successful follow or unfollow keeps every user's counters equal to the rows they count |
| Follow.UnfollowNeverUnderflows | controllers/follow_controller.go:57-66 | with counters matching the rows, unfollowing a live row with no failing write always succeeds |
| Follow.SucceededEffect | controllers/follow_controller.go:49-89 | a successful call unfollows exactly when the row was live; it flips that one row and moves both users' counters by one in the matching direction |
| Follow.FollowTwiceRestores | controllers/follow_controller.go:49-89 | two successful calls on one pair give back every user's counters and the set of live follows |
| Follow.RefollowFailsAsWritten | controllers/follow_controller.go:71-78 | as written, once a pair is tombstoned every later follow returns 500 "关注失败" and changes nothing |
| Follow.RefollowCounterexample | controllers/follow_controller.go:49-89 | the concrete run follow, unfollow, follow ends with the third call failing |
| Follow.RefollowRestores | controllers/follow_controller.go:71-78 | with the tombstone restored instead, the follow after an unfollow succeeds and the row is live again |
| Follow.RestoringToggleAlwaysSucceeds | controllers/follow_controller.go:49-89 | with the corrected insert and matching counters, every valid call with no failing write succeeds |
| Reconcile.GetCurrentUserInfo | controllers/user_controller.go:15-93 | 401 with no caller; 500 "获取用户信息失败" with nothing written for an unknown user or a failed first read; only the caller's row can change; a write-back that goes through stores the live follow and article counts, with 0 for each count that failed, and a failed one leaves everything as it was; then 500 on a failed second read, else 500 with the message of the first failing list query (own articles, favourites, liked), else 200 with the row as written |
| Reconcile.ReconcileRepairs | controllers/user_controller.go:30-48 | when every count succeeds and the write-back goes through, the caller's counters match the rows, and every other user is exactly as matched as before |
| Reconcile.FailedCountBreaksMatch | controllers/user_controller.go:30-48 | under a write-back that goes through, the caller's row fails to match exactly when some failed count had a positive true value: a failed count is written as 0 |
| Reconcile.ReconcileCompletes | controllers/user_controller.go:30-48 | when only the caller was off and every count succeeds, one call whose write-back goes through makes the whole user table match |
| Reconcile.ReconcileNoOpWhenMatching | controllers/user_controller.go:30-48 | on matching counters a call changes the state exactly when its write-back goes through and some failed count's true value is not 0 |
| Reconcile.LastWriteWins | controllers/user_controller.go:30-48 | of two calls, the state is that of the later call if its write-back goes through, and otherwise that of the earlier one |
| Reconcile.ReconcileIdempotent | controllers/user_controller.go:30-48 | with every count succeeding: after a write-back that went through, a second call changes nothing; two calls leave the state of one call whose write-back fails only when both did |
| Reconcile.RepairAfterFollow | controllers/follow_controller.go:75-88 | a follow call that stopped half-way leaves at most its two users wrong, and repairing both restores the match |
| Articles.LinkPictures | controllers/article_controller.go:68-88 | request picture i is linked with order i; the loop completes iff every picture is a live picture of the author, no id repeats and none is already linked; the first foreign picture is the one reported |
| Articles.CreateArticle | controllers/article_controller.go:35-91 | 400 iff title or content is missing; the tag 500 iff a tag is requested and its step fails, the row 500 iff then the insert fails, both writing nothing; after that the outcome and the links are those of the picture loop (created iff it completes, 400 on its first foreign picture, 500 on a repeated link), and a later 400/500 keeps the row; on success the links follow the request order and `posts_count` rises by one, with nothing else changed |
| Articles.CreateSucceedsIff | controllers/article_controller.go:35-91 | a create succeeds exactly when the request is valid, no tag or row write fails, and the pictures are distinct live pictures of the author not yet linked to the new id |
| Articles.CreatedLinksInRequestOrder | controllers/article_controller.go:77-81 | after a successful create, request picture j has order j, so the first picture is the cover |
| Articles.CreateKeepsCounters | controllers/article_controller.go:62-91 | a successful create keeps every user's counters equal to the rows |
| Articles.PartialCreateRepaired | controllers/article_controller.go:68-74 | a foreign picture leaves the author one live article above `posts_count`, and the recount repairs it |
| Articles.Merge | controllers/article_controller.go:455-475 | a non-empty requested title or content, and a non-empty tag list, replaces the old one; an empty one keeps the old value; author, counters and deletion are kept |
| Articles.MergeLaws | controllers/article_controller.go:455-463 | an empty request changes nothing, merging twice equals merging once, and two merges equal one merge of the later request's non-empty fields over the earlier's |
| Articles.UpdateArticle | controllers/article_controller.go:430-483 | 400 on a bad id, 404 iff no live article, 403 iff the caller is not the author; for the author, 400 iff the body does not bind, the tag 500 iff tags are requested and their step fails, the save 500 iff then the save fails, success otherwise; the rejections write nothing; success stores the merge; a failed save leaves the new tags (if any) in place and nothing else |
| Articles.DeleteArticle | controllers/article_controller.go:486-511 | 400 / 404 / 403 under the same conditions with nothing written; for the author, 500 iff the delete fails and success otherwise; success tombstones exactly that article and leaves users alone |
| Articles.DeleteLeavesPostsStale | controllers/article_controller.go:505-510 | after a delete `posts_count` is one above the author's live articles, and the recount makes all counters match |
| Articles.PageOffset | controllers/article_controller.go:130-167 | the limit is the parsed size and the offset is the exact product (page-1)*size wrapped once to Go's 64-bit `int`, so always in range |
| Articles.PageOffsetOfDecimals | controllers/article_controller.go:167 | well-formed page and size whose product fits give offset exactly (page-1)*size |
| Articles.PageOffsetDefaults | controllers/article_controller.go:130-131 | without parameters the list starts at 0 with size 10 |
| Articles.NonNumericPage | controllers/article_controller.go:130 | a page that is not a number reads as 0 and yields the computed offset -size |
| Articles.ListEntry | controllers/article_controller.go:188-222 | signed-out viewers get not-liked and no reason; `is_liked` iff the viewer has a live like; each reason holds exactly when its condition holds and every higher-priority one fails |
| Articles.LikedAfterEngage | controllers/article_controller.go:188-215 | right after an engaging like toggle on an article with a row, the item shows as liked with the top reason |
| Articles.NotLikedAfterDisengage | controllers/article_controller.go:188-193 | right after a disengaging like toggle, the item no longer shows as liked |
| Comments.CreateComment | controllers/comment_controller.go:19-63 | 400 on a bad id or empty content; 500 with nothing written when the insert fails or no article row exists; otherwise the comment row carries the content, caller and article, and `comment_count` of a live article rises by one with no other article changed |
| Comments.CommentsOnAppend | controllers/comment_controller.go:39 | a new comment adds one to its own article's comment rows only |
| Comments.CreateCommentKeepsCounts | controllers/comment_controller.go:39-45 | every live article's `comment_count` keeps equal to its comment rows, and comments keep pointing at article rows |
| Comments.CreateArticleKeepsCommentCounts | controllers/article_controller.go:43-49 | a new article starts at `comment_count` 0 with no comments, so the comment counts stay right |
| Comments.DeleteArticleKeepsCommentCounts | controllers/article_controller.go:505 | deleting an article keeps the comment counts of the live articles right |
| Pictures.ParseBase64Name | controllers/picture_controller.go:40 | a JSON upload's name `user_second.jpg` decodes back to its user and second |
| Pictures.ParseFormName | controllers/picture_controller.go:106 | a form upload's name `user_second_original` decodes back to its user, second and client-side name, even when that name contains '_' |
| Pictures.FileName | controllers/picture_controller.go:40-106 | a stored file name is never empty and holds a '/' exactly when it is a form upload whose client-side name does |
| Pictures.ParseFileNameRoundTrip | controllers/picture_controller.go:40-44 | every stored file name decodes back to the uploader, the second and (for form uploads) the client-side name |
| Pictures.FileNameInjective | controllers/picture_controller.go:40 | two uploads share a file name iff they are the same kind, by the same user, in the same second, with the same client-side name |
| Pictures.UrlServesObject | controllers/picture_controller.go:148 | for any name without '/', the route `/static/images/:filename` binds it from its URL and serving reads the object `images/` + name, the one the upload wrote (lines 42-44) |
| Pictures.RouteParamInvertsUrl | router/router.go:16 | a bound file name is the path's own last segment under `/static/images/` |
| Pictures.EncodedIsValid | controllers/picture_controller.go:47-51 | anything a client encodes with the standard alphabet passes the decoder check |
| Pictures.ForeignCharacterRefused | controllers/picture_controller.go:47-51 | one character outside the alphabet (other than padding and line breaks) makes the upload a 400 |
| Pictures.DataUrlIsRefused | controllers/picture_controller.go:20 | image data in the documented `data:image/jpeg;base64,...` form is refused |
| Pictures.Store | controllers/picture_controller.go:53-83 | a failed put writes nothing; after a put the object exists; a failed row insert (or a URL over 500 characters) leaves the object behind without a row; success adds one row with the URL under the next picture id and advances it; when every picture id is below the next one, that id was free and the invariant holds again |
| Pictures.UploadPicture | controllers/picture_controller.go:30-84 | 400 iff the field is missing or empty; "无效的图片数据" iff the data is not base64, both before any write; otherwise the shared store steps |
| Pictures.UploadPictureMultipart | controllers/picture_controller.go:87-143 | 400 iff there is no file part, 500 iff it cannot be opened, both with nothing written; otherwise the shared store steps with the form file name |
| Pictures.ServeImage | controllers/picture_controller.go:146-168 | the object `images/` + name is served iff it exists, else 404 |
| Pictures.UploadThenServe | controllers/picture_controller.go:40-44 | after a successful upload the returned URL routes to a file name whose object is found |
| Pictures.SameSecondUploadsShareObject | controllers/picture_controller.go:40-44 | two JSON uploads by one user in one second write one object: two rows, one URL |

## Left out

- Concurrency. The toggles' relational write runs in a goroutine. The model applies it at once, in request order: the state after a toggle is the state once its deferred write has landed. Interleavings of that write with other requests, and its own failures (whose errors the goroutine drops), are not modelled.
- Redis expiry, persistence and eviction. Flags are set with no expiry and the store never loses keys.
- Tag rows. `FirstOrCreate` of tags and the `article_tags` join are reduced to a failure flag and the article's tag list. Tags created before a failure are not tracked.
- Response bodies beyond status and message. Binder error texts, nicknames, avatars, the article JSON and picture lists are not modelled.
- The list query itself. The SQL ordering by recommendation score, the count, cover URLs and article detail pages are not modelled; only the offset and each item's `is_liked` and reason are. The offset is the value the handler computes: GORM omits a non-positive `OFFSET`, so a negative offset (`Articles.NonNumericPage`) makes the query start at row 0.
- Authentication middleware, login, registration, WeChat login, admin and web pages: outside the interaction core.
- MinIO streaming, content types and headers. Only object names and existence are modelled.
- URL escaping. Paths are the decoded path gin matches on.
- Pictures.UploadThenServe: assumes the client-side file name contains no '/'. The multipart reader strips directories from it; that stripping is not modelled.
- Toggle.Step: the dual-write invariant speaks of subjects with a parent row only. Liking an id without one leaves a set flag and a raised fast counter with no row behind them (`Toggle.EngageWithoutParent`). The set of parent rows is fixed within the toggle state: creating or removing articles and comments does not reach it.
- Toggle.Step: the comment-like column is a separate count map in the toggle state, not the `Comment.likeCount` field of `Tables`. The two handler families share no state in the model.
- Reconcile.GetCurrentUserInfo: the article count is of live articles only, as the default scope gives. The list queries' contents, their cover-picture lookups (whose errors leave the URL empty) and the reply body are not modelled; only whether each list query fails is.
- Failed reads outside `GetCurrentUserInfo`: a `First` that returns an error other than "not found" is modelled as the row being absent, since the handlers test only for an error. So `Follow.FollowAction` reads a failed target lookup (controllers/follow_controller.go:41) as `NoTarget`, and a failed lookup of the pair's row (:49) as no live row, after which the insert fails on the primary key as `FollowRowFailed` when the live row exists. Likewise the article lookups of `Articles.UpdateArticle` and `Articles.DeleteArticle` give `NotFound` and `DeleteNotFound`, and the picture lookups of `Articles.CreateArticle` give `PictureNotOwned`. The outcome iffs of these members are stated over the rows, and they do not cover a read that fails while the row exists.
- Follow.FollowAction: users are the live `users` rows. A target that exists only as a soft-deleted user is treated as unknown.
- Comments.CreateComment: a missing caller row fails only the final user read. A foreign-key failure on the user is left to the `insertFails` flag.

## Findings

| source | as written | input that shows it | evidently intended | confidence | as-written member | corrected member |
|---|---|---|---|---|---|---|
| controllers/follow_controller.go:71-78 | unfollow soft-deletes the `user_follows` row, whose primary key is (follower_id, followed_id) (models/user_follow.go:11-15); a later follow inserts a new row with the same key, which the tombstone still holds, so it fails with 500 "关注失败" | user 1 follows user 2, unfollows, then follows again | the third call restores the tombstoned row and succeeds, so following is a toggle | not executed | Follow.RefollowCounterexample | Follow.RestoringToggleAlwaysSucceeds |
