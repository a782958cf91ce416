/**
 * The comment endpoints: create on an existing post, list the comments of a
 * post oldest first (joined with users), and author-only delete.
 */
module CommentController {
  import opened Wrappers
  import opened JsValues
  import opened Store
  import opened Http
  import opened Ordering
  import PostController

  const FIELDS_MISSING := "缺少必要字段（workId / userId / content）"
  const NO_SUCH_WORK := "目标作品不存在"
  const CREATE_FAILED := "创建评论失败（服务器错误）"
  const USER_ID_MISSING := "缺少 userId（用于验证是否为评论作者）"
  const NO_SUCH_COMMENT := "评论不存在"
  const NOT_AUTHOR := "无权限删除此评论（仅作者可删）"
  const DELETED := "删除评论成功"

  /** The comment exists and survives `JOIN users u ON c.user_id = u.id`. */
  predicate Joined(t: Tables, id: Id) {
    id in t.comments && t.comments[id].userId in t.users
  }

  /** A joined comment with its author's nickname. */
  function View(t: Tables, id: Id): CommentView
    requires Joined(t, id)
  {
    CommentView(id, t.comments[id], t.users[t.comments[id].userId].nickname)
  }

  /** The comment is among the rows listed for the post that `workId` denotes. */
  predicate OnPost(t: Tables, id: Id, workId: Option<Id>) {
    Joined(t, id) && workId == Some(t.comments[id].workId)
  }

  /** The rows of the comments among `ids` listed for `workId`, in the order of `ids`. */
  function SelectComments(t: Tables, ids: seq<Id>, workId: Option<Id>): (rows: seq<CommentView>)
    requires forall i, j | 0 <= i < j < |ids| :: ids[i] < ids[j]
    ensures forall v | v in rows :: v.id in ids && OnPost(t, v.id, workId) && v == View(t, v.id)
    ensures forall i | 0 <= i < |ids| && OnPost(t, ids[i], workId) :: View(t, ids[i]) in rows
    ensures Distinct(rows)
  {
    if ids == [] then []
    else
      var rest := SelectComments(t, ids[1..], workId);
      if OnPost(t, ids[0], workId) then
        assert View(t, ids[0]) !in rest;
        [View(t, ids[0])] + rest
      else rest
  }

  function OldestFirst(v: CommentView): int {
    v.comment.createdAt
  }

  /**
   * GET /api/comments/post/:workId: always 200, with exactly the comments on
   * that post whose author exists, each once, oldest first. A post without
   * comments gives the empty list.
   */
  function GetCommentsByPost(t: Tables, workId: string): (r: Response)
    requires t.Valid()
    ensures r.status == OK && r.body.CommentList?
    ensures forall i, j | 0 <= i < j < |r.body.comments| ::
      r.body.comments[i].comment.createdAt <= r.body.comments[j].comment.createdAt
    ensures forall v | v in r.body.comments :: OnPost(t, v.id, Numeral(workId)) && v == View(t, v.id)
    ensures forall id | OnPost(t, id, Numeral(workId)) :: View(t, id) in r.body.comments
    ensures Distinct(r.body.comments)
  {
    var rows := SelectComments(t, Scan(t.comments, t.nextCommentId), Numeral(workId));
    OnPostAreSelected(t, Numeral(workId));
    SortKeepsRows(rows, OldestFirst);
    Ok(CommentList(SortBy(rows, OldestFirst)))
  }

  /** The scan of the whole table selects every comment listed for `workId`. */
  lemma OnPostAreSelected(t: Tables, workId: Option<Id>)
    requires t.Valid()
    ensures forall id | OnPost(t, id, workId) :: View(t, id) in SelectComments(t, Scan(t.comments, t.nextCommentId), workId)
  {
    var ids := Scan(t.comments, t.nextCommentId);
    forall id | OnPost(t, id, workId) ensures View(t, id) in SelectComments(t, ids, workId) {
      assert id in ids;
      var i :| 0 <= i < |ids| && ids[i] == id;
    }
  }

  /** A post nobody has commented on lists no comments, and that is still a 200. */
  lemma NoCommentsIsEmptyList(t: Tables, workId: string)
    requires t.Valid()
    requires forall id | id in t.comments :: Some(t.comments[id].workId) != Numeral(workId)
    ensures GetCommentsByPost(t, workId) == Ok(CommentList([]))
  {
    var ids := Scan(t.comments, t.nextCommentId);
    NothingSelected(t, ids, Numeral(workId));
  }

  lemma {:induction false} NothingSelected(t: Tables, ids: seq<Id>, workId: Option<Id>)
    requires forall i, j | 0 <= i < j < |ids| :: ids[i] < ids[j]
    requires forall i | 0 <= i < |ids| :: !OnPost(t, ids[i], workId)
    ensures SelectComments(t, ids, workId) == []
  {
    if ids != [] {
      NothingSelected(t, ids[1..], workId);
    }
  }

  /** The number of comments among `ids` listed for `workId`. */
  lemma {:induction false} SelectedCount(t: Tables, ids: seq<Id>, workId: Option<Id>)
    requires forall i, j | 0 <= i < j < |ids| :: ids[i] < ids[j]
    ensures |SelectComments(t, ids, workId)| == |set k | k in ids && OnPost(t, k, workId)|
  {
    if ids != [] {
      SelectedCount(t, ids[1..], workId);
      SplitSelected(t, ids, workId);
    }
  }

  /** Peeling the first id off `ids`: it is selected or not, and never again later. */
  lemma SplitSelected(t: Tables, ids: seq<Id>, workId: Option<Id>)
    requires ids != [] && forall i, j | 0 <= i < j < |ids| :: ids[i] < ids[j]
    ensures var later := set k | k in ids[1..] && OnPost(t, k, workId);
      && ids[0] !in later
      && (set k | k in ids && OnPost(t, k, workId)) == if OnPost(t, ids[0], workId) then later + {ids[0]} else later
  {
    assert forall k :: k in ids <==> k == ids[0] || k in ids[1..];
  }

  /**
   * When every commenter still exists, the comment list of a post (fetched by
   * its id's decimal spelling) is as long as the `comment_count` its list and
   * detail rows report.
   */
  lemma ListingMatchesCommentCount(t: Tables, postId: Id)
    requires t.Valid()
    requires forall c | c in t.comments :: t.comments[c].userId in t.users
    ensures |GetCommentsByPost(t, Decimal(postId)).body.comments| == PostController.CommentCount(t, postId)
  {
    NumeralOfDecimal(postId);
    var ids := Scan(t.comments, t.nextCommentId);
    var rows := SelectComments(t, ids, Some(postId));
    SelectedCount(t, ids, Some(postId));
    SortKeepsRows(rows, OldestFirst);
    assert GetCommentsByPost(t, Decimal(postId)).body.comments == SortBy(rows, OldestFirst);
    ScannedOnPost(t, postId);
  }

  lemma ScannedOnPost(t: Tables, postId: Id)
    requires t.Valid()
    requires forall c | c in t.comments :: t.comments[c].userId in t.users
    ensures (set k | k in Scan(t.comments, t.nextCommentId) && OnPost(t, k, Some(postId)))
         == (set c | c in t.comments && t.comments[c].workId == postId)
  {
  }

  /**
   * POST /api/comments. 400 when `workId`, `userId` or `content` is missing or
   * empty; then 400 when `workId` names no post; then 500 when `userId` is not
   * a number, because the INSERT into the integer column fails; none of these
   * inserts anything. Otherwise one comment is inserted under a fresh id and
   * 201 returns it with its author's nickname, or no body when that user does
   * not exist.
   */
  method CreateComment(db: Database, workId: Field, userId: Field, content: Option<string>, now: int)
    returns (resp: Response)
    requires db.State().Valid()
    modifies db
    ensures db.State().Valid()
    ensures !Truthy(workId) || !Truthy(userId) || !Present(content) ==>
      resp == Fail(BAD_REQUEST, FIELDS_MISSING) && db.State() == old(db.State())
    ensures Truthy(workId) && Truthy(userId) && Present(content) && !(NumberOf(workId).Some? && NumberOf(workId).value in old(db.posts)) ==>
      resp == Fail(BAD_REQUEST, NO_SUCH_WORK) && db.State() == old(db.State())
    ensures Truthy(workId) && Truthy(userId) && Present(content) && NumberOf(workId).Some? && NumberOf(workId).value in old(db.posts) ==>
      if NumberOf(userId).None? then
        resp == Fail(SERVER_ERROR, CREATE_FAILED) && db.State() == old(db.State())
      else
        var c := Comment(NumberOf(workId).value, NumberOf(userId).value, content.value, now);
        && db.State() == old(db.State()).InsertComment(c)
        && resp.status == CREATED
        && resp.body == if c.userId in db.users then CreatedComment(CommentView(old(db.nextCommentId), c, db.users[c.userId].nickname)) else Empty
  {
    if !Truthy(workId) || !Truthy(userId) || !Present(content) {
      return Fail(BAD_REQUEST, FIELDS_MISSING);
    }
    var work := NumberOf(workId);
    if work.None? || work.value !in db.posts {
      return Fail(BAD_REQUEST, NO_SUCH_WORK);
    }
    var user := NumberOf(userId);
    if user.None? {
      return Fail(SERVER_ERROR, CREATE_FAILED);
    }
    var id := db.nextCommentId;
    db.comments := db.comments[id := Comment(work.value, user.value, content.value, now)];
    db.nextCommentId := id + 1;
    var comment := db.comments[id];
    if comment.userId in db.users {
      resp := Response(CREATED, CreatedComment(CommentView(id, comment, db.users[comment.userId].nickname)));
    } else {
      resp := Response(CREATED, Empty);
    }
  }

  /**
   * DELETE /api/comments/:id with `userId` in the body. 400 when it is missing,
   * 404 when there is no such comment, 403 when the commenter is not the number
   * it denotes, each leaving the store alone; otherwise exactly that comment is
   * deleted and the result is 200.
   */
  method DeleteComment(db: Database, id: string, userId: Field) returns (resp: Response)
    requires db.State().Valid()
    modifies db
    ensures db.State().Valid()
    ensures !Truthy(userId) ==> resp == Fail(BAD_REQUEST, USER_ID_MISSING) && db.State() == old(db.State())
    ensures Truthy(userId) && !(Numeral(id).Some? && Numeral(id).value in old(db.comments)) ==>
      resp == Fail(NOT_FOUND, NO_SUCH_COMMENT) && db.State() == old(db.State())
    ensures Truthy(userId) && Numeral(id).Some? && Numeral(id).value in old(db.comments) ==>
      if NumberOf(userId) != Some(old(db.comments)[Numeral(id).value].userId) then
        resp == Fail(FORBIDDEN, NOT_AUTHOR) && db.State() == old(db.State())
      else
        resp == Ok(Message(DELETED)) && db.State() == old(db.State()).DeleteComment(Numeral(id).value)
  {
    if !Truthy(userId) {
      return Fail(BAD_REQUEST, USER_ID_MISSING);
    }
    var key := Numeral(id);
    if key.None? || key.value !in db.comments {
      return Fail(NOT_FOUND, NO_SUCH_COMMENT);
    }
    if NumberOf(userId) != Some(db.comments[key.value].userId) {
      return Fail(FORBIDDEN, NOT_AUTHOR);
    }
    db.comments := db.comments - {key.value};
    resp := Ok(Message(DELETED));
  }
}
