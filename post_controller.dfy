/**
 * The posts ("works") endpoints: create, list with search and author filters,
 * fetch one, and author-only delete. Reads join `posts` with `users` (an inner
 * join, so a post whose author is missing is invisible) and count `comments`.
 */
module PostController {
  import opened Wrappers
  import opened JsValues
  import opened Store
  import opened Http
  import opened Ordering

  const TITLE_OR_AUTHOR_MISSING := "标题和作者ID必填"
  const CREATE_FAILED := "创建作品失败（服务器错误）"
  const NO_SUCH_POST := "作品不存在"
  const USER_ID_MISSING := "缺少 userId（用于验证操作人是否是作者）"
  const NOT_AUTHOR := "无权限删除此作品（仅作者可删）"
  const DELETED := "删除成功"

  /** The public path under which uploaded files are served. */
  const UPLOADS := "/uploads/"

  /**
   * The `image_url` createPost stores: the uploaded file's public path, else the
   * body's `image_url` when truthy, else null.
   */
  function StoredImage(file: Option<string>, imageUrl: Option<string>): Option<string> {
    if file.Some? then Some(UPLOADS + file.value)
    else if Present(imageUrl) then imageUrl
    else None
  }

  /** The post exists and survives `JOIN users u ON p.author_id = u.id`. */
  predicate Joined(t: Tables, id: Id) {
    id in t.posts && t.posts[id].authorId in t.users
  }

  /** `(SELECT COUNT(*) FROM comments c WHERE c.work_id = p.id)`. */
  function CommentCount(t: Tables, id: Id): nat {
    |set c | c in t.comments && t.comments[c].workId == id|
  }

  /** The row the list and detail queries produce for a joined post. */
  function View(t: Tables, id: Id): PostView
    requires Joined(t, id)
  {
    PostView(id, t.posts[id], t.users[t.posts[id].authorId].nickname, CommentCount(t, id))
  }

  /** `part` is a prefix of some suffix of `s`: `s LIKE '%part%'` read literally. */
  predicate Contains(s: string, part: string) {
    exists i | 0 <= i <= |s| :: part <= s[i..]
  }

  /**
   * The WHERE clause getPosts builds: with a truthy `search`, the title or the
   * description contains it; with a truthy author filter, the author is the
   * number it denotes. Absent filters constrain nothing.
   */
  predicate Matches(p: Post, search: Option<string>, authorFilter: Field) {
    && (Present(search) ==> Contains(p.title, search.value) || Contains(p.description, search.value))
    && (Truthy(authorFilter) ==> NumberOf(authorFilter) == Some(p.authorId))
  }

  /** The post is among the rows getPosts returns for these filters. */
  predicate Listed(t: Tables, id: Id, search: Option<string>, authorFilter: Field) {
    Joined(t, id) && Matches(t.posts[id], search, authorFilter)
  }

  /** The rows of the listed posts among `ids`, in the order of `ids`. */
  function SelectPosts(t: Tables, ids: seq<Id>, search: Option<string>, authorFilter: Field): (rows: seq<PostView>)
    requires forall i, j | 0 <= i < j < |ids| :: ids[i] < ids[j]
    ensures forall v | v in rows :: v.id in ids && Listed(t, v.id, search, authorFilter) && v == View(t, v.id)
    ensures forall i | 0 <= i < |ids| && Listed(t, ids[i], search, authorFilter) :: View(t, ids[i]) in rows
    ensures Distinct(rows)
  {
    if ids == [] then []
    else
      var rest := SelectPosts(t, ids[1..], search, authorFilter);
      if Listed(t, ids[0], search, authorFilter) then
        assert View(t, ids[0]) !in rest;
        [View(t, ids[0])] + rest
      else rest
  }

  /** Newest first: sorting by the negated `created_at` ascending. */
  function NewestFirst(v: PostView): int {
    -v.post.createdAt
  }

  /**
   * GET /api/posts?search=&authorId=. The author filter is `authorId`, falling
   * back to `author_id`. The result is 200 with exactly the joined posts that
   * match every given filter, each once, newest first, each with its author's
   * nickname and its comment count.
   */
  function GetPosts(t: Tables, search: Option<string>, authorId: Field, author_id: Field): (r: Response)
    requires t.Valid()
    ensures r.status == OK && r.body.PostList?
    ensures forall i, j | 0 <= i < j < |r.body.views| :: r.body.views[i].post.createdAt >= r.body.views[j].post.createdAt
    ensures forall v | v in r.body.views :: Listed(t, v.id, search, Or(authorId, author_id)) && v == View(t, v.id)
    ensures forall id | Listed(t, id, search, Or(authorId, author_id)) :: View(t, id) in r.body.views
    ensures Distinct(r.body.views)
  {
    var authorFilter := Or(authorId, author_id);
    var rows := SelectPosts(t, Scan(t.posts, t.nextPostId), search, authorFilter);
    ListedAreSelected(t, search, authorFilter);
    SortKeepsRows(rows, NewestFirst);
    Ok(PostList(SortBy(rows, NewestFirst)))
  }

  /** The scan of the whole table selects every listed post. */
  lemma ListedAreSelected(t: Tables, search: Option<string>, authorFilter: Field)
    requires t.Valid()
    ensures forall id | Listed(t, id, search, authorFilter) ::
      View(t, id) in SelectPosts(t, Scan(t.posts, t.nextPostId), search, authorFilter)
  {
    var ids := Scan(t.posts, t.nextPostId);
    forall id | Listed(t, id, search, authorFilter)
      ensures View(t, id) in SelectPosts(t, ids, search, authorFilter)
    {
      assert id in ids;
      var i :| 0 <= i < |ids| && ids[i] == id;
    }
  }

  /** Without filters the list holds every post whose author exists, and nothing else. */
  lemma UnfilteredListIsEveryJoinedPost(t: Tables, id: Id)
    requires t.Valid()
    ensures Joined(t, id) ==> View(t, id) in GetPosts(t, None, Missing, Missing).body.views
    ensures forall v | v in GetPosts(t, None, Missing, Missing).body.views :: Joined(t, v.id)
  {
  }

  /**
   * GET /api/posts/:id: 404 when no joined row has that id (no such post, or
   * its author is gone), otherwise 200 with that row and its comment count.
   */
  function GetPostById(t: Tables, id: string): (r: Response)
    ensures r.status == OK <==> Numeral(id).Some? && Joined(t, Numeral(id).value)
    ensures r.status == OK ==> r.body == PostDetail(View(t, Numeral(id).value))
    ensures r.status != OK ==> r == Fail(NOT_FOUND, NO_SUCH_POST)
  {
    var key := Numeral(id);
    if key.Some? && Joined(t, key.value) then Ok(PostDetail(View(t, key.value)))
    else Fail(NOT_FOUND, NO_SUCH_POST)
  }

  /** The detail of a post is the very row the unfiltered list shows for it. */
  lemma DetailIsListed(t: Tables, id: string)
    requires t.Valid()
    ensures GetPostById(t, id).status == OK ==> GetPostById(t, id).body.view in GetPosts(t, None, Missing, Missing).body.views
  {
  }

  /**
   * A post created under an author id nobody holds yet is invisible, until the
   * next registered user receives that id: then the post is listed under that
   * user's nickname.
   */
  lemma LaterUserAdoptsPost(t: Tables, p: Post, u: User)
    requires t.Valid() && p.authorId == t.nextUserId
    requires forall k | k in t.users :: t.users[k].email != u.email
    ensures !Joined(t.InsertPost(p), t.nextPostId)
    ensures var t' := t.InsertPost(p).InsertUser(u);
      && t'.Valid() && Joined(t', t.nextPostId)
      && View(t', t.nextPostId) in GetPosts(t', None, Missing, Missing).body.views
      && View(t', t.nextPostId).authorNickname == u.nickname
  {
    var t' := t.InsertPost(p).InsertUser(u);
    assert t'.posts[t.nextPostId] == p;
    assert Listed(t', t.nextPostId, None, Or(Missing, Missing));
  }

  /**
   * POST /api/posts. 400 when the title or the author id is missing or empty,
   * with no insert; 500 when the author id is not a number, because the INSERT
   * into the integer column fails. Otherwise one post is inserted under a fresh
   * id, the description defaulting to empty and the image to the uploaded file,
   * then the body's `image_url`, then null; 201 returns the row with the
   * author's nickname, and no body when the author does not exist.
   */
  method CreatePost(db: Database, title: Option<string>, description: Option<string>, authorId: Field,
                    file: Option<string>, imageUrl: Option<string>, now: int) returns (resp: Response)
    requires db.State().Valid()
    modifies db
    ensures db.State().Valid()
    ensures !Present(title) || !Truthy(authorId) ==>
      resp == Fail(BAD_REQUEST, TITLE_OR_AUTHOR_MISSING) && db.State() == old(db.State())
    ensures Present(title) && Truthy(authorId) && NumberOf(authorId).None? ==>
      resp == Fail(SERVER_ERROR, CREATE_FAILED) && db.State() == old(db.State())
    ensures Present(title) && Truthy(authorId) && NumberOf(authorId).Some? ==>
      var p := Post(title.value, if Present(description) then description.value else "",
                    StoredImage(file, imageUrl), NumberOf(authorId).value, now);
      && db.State() == old(db.State()).InsertPost(p)
      && resp.status == CREATED
      && resp.body == if p.authorId in db.users then CreatedPost(PostRow(old(db.nextPostId), p, db.users[p.authorId].nickname)) else Empty
  {
    if !Present(title) || !Truthy(authorId) {
      return Fail(BAD_REQUEST, TITLE_OR_AUTHOR_MISSING);
    }
    var image := StoredImage(file, imageUrl);
    var author := NumberOf(authorId);
    if author.None? {
      return Fail(SERVER_ERROR, CREATE_FAILED);
    }
    var id := db.nextPostId;
    db.posts := db.posts[id := Post(title.value, if Present(description) then description.value else "", image, author.value, now)];
    db.nextPostId := id + 1;
    var post := db.posts[id];
    if post.authorId in db.users {
      resp := Response(CREATED, CreatedPost(PostRow(id, post, db.users[post.authorId].nickname)));
    } else {
      resp := Response(CREATED, Empty);
    }
  }

  /**
   * DELETE /api/posts/:id. The requester is `userId` from the query string,
   * falling back to the body. 400 when it is missing, 404 when there is no such
   * post, 403 when the post's author is not the number it denotes, each leaving
   * the store alone; otherwise exactly that post is deleted (its comments stay)
   * and the result is 200.
   */
  method DeletePost(db: Database, id: string, queryUserId: Field, bodyUserId: Field) returns (resp: Response)
    requires db.State().Valid()
    modifies db
    ensures db.State().Valid()
    ensures !Truthy(Or(queryUserId, bodyUserId)) ==>
      resp == Fail(BAD_REQUEST, USER_ID_MISSING) && db.State() == old(db.State())
    ensures Truthy(Or(queryUserId, bodyUserId)) && !(Numeral(id).Some? && Numeral(id).value in old(db.posts)) ==>
      resp == Fail(NOT_FOUND, NO_SUCH_POST) && db.State() == old(db.State())
    ensures Truthy(Or(queryUserId, bodyUserId)) && Numeral(id).Some? && Numeral(id).value in old(db.posts) ==>
      var author := old(db.posts)[Numeral(id).value].authorId;
      if NumberOf(Or(queryUserId, bodyUserId)) != Some(author) then
        resp == Fail(FORBIDDEN, NOT_AUTHOR) && db.State() == old(db.State())
      else
        resp == Ok(Message(DELETED)) && db.State() == old(db.State()).DeletePost(Numeral(id).value)
  {
    var userId := Or(queryUserId, bodyUserId);
    if !Truthy(userId) {
      return Fail(BAD_REQUEST, USER_ID_MISSING);
    }
    var key := Numeral(id);
    if key.None? || key.value !in db.posts {
      return Fail(NOT_FOUND, NO_SUCH_POST);
    }
    if NumberOf(userId) != Some(db.posts[key.value].authorId) {
      return Fail(FORBIDDEN, NOT_AUTHOR);
    }
    db.posts := db.posts - {key.value};
    resp := Ok(Message(DELETED));
  }

  /** Once its author has deleted a post, fetching it gives 404; the comments on it are still stored. */
  lemma DeletedPostIsGone(t: Tables, id: string)
    requires Numeral(id).Some?
    ensures GetPostById(t.DeletePost(Numeral(id).value), id) == Fail(NOT_FOUND, NO_SUCH_POST)
    ensures t.DeletePost(Numeral(id).value).comments == t.comments
  {
  }

  /**
   * The client sends the logged-in user's id as a query string; that spelling
   * denotes the id, so the author of a post passes the ownership check.
   */
  lemma QueryStringIdIsOwner(author: Id, bodyUserId: Field)
    ensures Truthy(Or(Text(Decimal(author)), bodyUserId))
    ensures NumberOf(Or(Text(Decimal(author)), bodyUserId)) == Some(author)
  {
    NumeralOfDecimal(author);
  }
}
