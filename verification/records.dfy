/**
 * The durable side of a toggle: a table of rows with an auto-increment id
 * and a soft-delete tombstone (GORM's `DeletedAt`), as the `Like`,
 * `Favorite` and `CommentLike` models declare, and the denormalised counter
 * column on the parent row (`Article.like_count`, `Article.favorite_count`,
 * `Comment.like_count`), all Go `int`.
 */
module Records {

  datatype Row = Row(id: nat, user: nat, subject: nat, deleted: bool)

  datatype Table = Table(rows: seq<Row>, nextId: nat)

  const EmptyTable: Table := Table([], 1)

  /** The number of live (not tombstoned) rows of one (user, subject) pair. */
  function LiveCount(rows: seq<Row>, user: nat, subject: nat): nat {
    if |rows| == 0 then 0
    else
      var r := rows[|rows| - 1];
      LiveCount(rows[..|rows| - 1], user, subject)
        + (if !r.deleted && r.user == user && r.subject == subject then 1 else 0)
  }

  /** The number of live rows of one subject, over all users. */
  function LiveForSubject(rows: seq<Row>, subject: nat): nat {
    if |rows| == 0 then 0
    else
      var r := rows[|rows| - 1];
      LiveForSubject(rows[..|rows| - 1], subject) + (if !r.deleted && r.subject == subject then 1 else 0)
  }

  /** The auto-increment invariant: every row's id is below the next id to hand out. */
  predicate IdsBelow(t: Table) {
    forall i :: 0 <= i < |t.rows| ==> t.rows[i].id < t.nextId
  }

  /**
   * `Db.Create(&row)`: a live row under the next id. Under `IdsBelow` that
   * id is held by no existing row, tombstoned or not, and the invariant
   * still holds afterwards.
   */
  function Insert(t: Table, user: nat, subject: nat): (r: Table)
    ensures |r.rows| == |t.rows| + 1 && r.rows[..|t.rows|] == t.rows
    ensures r.rows[|t.rows|] == Row(t.nextId, user, subject, false)
    ensures r.nextId > t.nextId
    ensures IdsBelow(t) ==> IdsBelow(r) && forall i :: 0 <= i < |t.rows| ==> t.rows[i].id != r.rows[|t.rows|].id
  {
    Table(t.rows + [Row(t.nextId, user, subject, false)], t.nextId + 1)
  }

  /**
   * `Db.Where("user_id = ? AND subject_id = ?").Delete(&row)`: every live row
   * of the pair gets a tombstone; nothing else changes.
   */
  function TombstoneRows(rows: seq<Row>, user: nat, subject: nat): (r: seq<Row>)
    ensures |r| == |rows|
    ensures forall i :: 0 <= i < |rows| ==>
      r[i] == if rows[i].user == user && rows[i].subject == subject then rows[i].(deleted := true) else rows[i]
  {
    if |rows| == 0 then []
    else
      var last := rows[|rows| - 1];
      TombstoneRows(rows[..|rows| - 1], user, subject)
        + [if last.user == user && last.subject == subject then last.(deleted := true) else last]
  }

  function SoftDelete(t: Table, user: nat, subject: nat): (r: Table)
    ensures |r.rows| == |t.rows| && r.nextId == t.nextId
    ensures forall i :: 0 <= i < |t.rows| ==> r.rows[i].id == t.rows[i].id
    ensures IdsBelow(t) ==> IdsBelow(r)
    ensures forall u, s :: LiveCount(r.rows, u, s) == if u == user && s == subject then 0 else LiveCount(t.rows, u, s)
    ensures forall s :: LiveForSubject(r.rows, s) ==
                        LiveForSubject(t.rows, s) - (if s == subject then LiveCount(t.rows, user, subject) else 0)
  {
    var r := Table(TombstoneRows(t.rows, user, subject), t.nextId);
    forall u, s ensures LiveCount(r.rows, u, s) == if u == user && s == subject then 0 else LiveCount(t.rows, u, s) {
      TombstoneLiveCount(t.rows, user, subject, u, s);
    }
    forall s ensures LiveForSubject(r.rows, s)
      == LiveForSubject(t.rows, s) - (if s == subject then LiveCount(t.rows, user, subject) else 0) {
      TombstoneLiveForSubject(t.rows, user, subject, s);
    }
    r
  }

  lemma {:induction false} TombstoneLiveCount(rows: seq<Row>, user: nat, subject: nat, u: nat, s: nat)
    ensures LiveCount(TombstoneRows(rows, user, subject), u, s)
      == if u == user && s == subject then 0 else LiveCount(rows, u, s)
  {
    if |rows| > 0 {
      var r := TombstoneRows(rows, user, subject);
      assert r[..|r| - 1] == TombstoneRows(rows[..|rows| - 1], user, subject);
      TombstoneLiveCount(rows[..|rows| - 1], user, subject, u, s);
    }
  }

  lemma {:induction false} LiveCountBound(rows: seq<Row>, user: nat, subject: nat)
    ensures LiveCount(rows, user, subject) <= LiveForSubject(rows, subject)
  {
    if |rows| > 0 {
      LiveCountBound(rows[..|rows| - 1], user, subject);
    }
  }

  lemma {:induction false} TombstoneLiveForSubject(rows: seq<Row>, user: nat, subject: nat, s: nat)
    ensures LiveForSubject(TombstoneRows(rows, user, subject), s)
      == LiveForSubject(rows, s) - (if s == subject then LiveCount(rows, user, subject) else 0)
  {
    LiveCountBound(rows, user, subject);
    if |rows| > 0 {
      var r := TombstoneRows(rows, user, subject);
      assert r[..|r| - 1] == TombstoneRows(rows[..|rows| - 1], user, subject);
      TombstoneLiveForSubject(rows[..|rows| - 1], user, subject, s);
      LiveCountBound(rows[..|rows| - 1], user, subject);
    }
  }

  /** Appending one live row adds one to its pair's and its subject's live counts only. */
  lemma InsertCounts(t: Table, user: nat, subject: nat)
    ensures forall u, s :: LiveCount(Insert(t, user, subject).rows, u, s) ==
                           LiveCount(t.rows, u, s) + (if u == user && s == subject then 1 else 0)
    ensures forall s :: LiveForSubject(Insert(t, user, subject).rows, s) ==
                        LiveForSubject(t.rows, s) + (if s == subject then 1 else 0)
  {
    var r := Insert(t, user, subject).rows;
    assert r[..|r| - 1] == t.rows;
  }

  /**
   * `Update("col", gorm.Expr("col + ?", delta)).Where("id = ?", id)`: an
   * atomic add on the parent's counter; no row matches an id that has no
   * (live) parent, and then nothing changes.
   */
  function Bump(counts: map<nat, int>, id: nat, delta: int): (r: map<nat, int>)
    ensures r.Keys == counts.Keys
    ensures id in counts ==> r[id] == counts[id] + delta
    ensures forall i :: i in counts && i != id ==> r[i] == counts[i]
  {
    if id in counts then counts[id := counts[id] + delta] else counts
  }
}
