/**
 * The relational store behind the controllers: the `users`, `posts` and
 * `comments` tables, each a map from an auto-increment id to a row, and the
 * single-table INSERT, UPDATE and DELETE statements the handlers issue.
 */
module Store {
  import opened Wrappers

  type Id = int

  /** A `users` row. `signature` is a nullable column. */
  datatype User = User(email: string, passwordHash: string, nickname: string, signature: Option<string>, createdAt: int)

  /** A `posts` row (a "work"); `imageUrl` is the nullable `image_url` column. */
  datatype Post = Post(title: string, description: string, imageUrl: Option<string>, authorId: Id, createdAt: int)

  /** A `comments` row: `workId` is the commented post, `userId` the commenter. */
  datatype Comment = Comment(workId: Id, userId: Id, content: string, createdAt: int)

  /** Every key of `m` is an id the counter `next` has already handed out. */
  ghost predicate KeysBelow<V>(m: map<Id, V>, next: Id) {
    forall k | k in m :: 1 <= k < next
  }

  /** No two users share an email address. */
  ghost predicate EmailsUnique(users: map<Id, User>) {
    forall a, b | a in users && b in users && users[a].email == users[b].email :: a == b
  }

  /** The three tables with the next value of each auto-increment counter. */
  datatype Tables = Tables(
    users: map<Id, User>,
    posts: map<Id, Post>,
    comments: map<Id, Comment>,
    nextUserId: Id,
    nextPostId: Id,
    nextCommentId: Id)
  {
    /** Ids start at 1 and are never reused, and emails are unique. */
    ghost predicate Valid() {
      && 1 <= nextUserId && 1 <= nextPostId && 1 <= nextCommentId
      && KeysBelow(users, nextUserId) && KeysBelow(posts, nextPostId) && KeysBelow(comments, nextCommentId)
      && EmailsUnique(users)
    }

    /** `INSERT INTO users`: the row goes in under the next id, which is fresh. */
    function InsertUser(u: User): (t: Tables)
      ensures Valid() ==> nextUserId !in users
      ensures t.users.Keys == users.Keys + {nextUserId} && t.users[nextUserId] == u
      ensures forall k | k in users && k != nextUserId :: t.users[k] == users[k]
      ensures t.posts == posts && t.comments == comments
      ensures t.nextUserId == nextUserId + 1 && t.nextPostId == nextPostId && t.nextCommentId == nextCommentId
      ensures Valid() && (forall k | k in users :: users[k].email != u.email) ==> t.Valid()
    {
      this.(users := users[nextUserId := u], nextUserId := nextUserId + 1)
    }

    /** `UPDATE users SET nickname = ?, signature = ? WHERE id = ?`: at most that one row changes. */
    function UpdateUser(id: Option<Id>, nickname: string, signature: Option<string>): (t: Tables)
      ensures t.users.Keys == users.Keys
      ensures forall k | k in users && id != Some(k) :: t.users[k] == users[k]
      ensures id.Some? && id.value in users ==>
        t.users[id.value] == users[id.value].(nickname := nickname, signature := signature)
      ensures t.posts == posts && t.comments == comments
      ensures t.nextUserId == nextUserId && t.nextPostId == nextPostId && t.nextCommentId == nextCommentId
      ensures Valid() ==> t.Valid()
    {
      if id.Some? && id.value in users then
        this.(users := users[id.value := users[id.value].(nickname := nickname, signature := signature)])
      else this
    }

    /** `INSERT INTO posts`: the row goes in under the next id, which is fresh. */
    function InsertPost(p: Post): (t: Tables)
      ensures Valid() ==> nextPostId !in posts
      ensures t.posts.Keys == posts.Keys + {nextPostId} && t.posts[nextPostId] == p
      ensures forall k | k in posts && k != nextPostId :: t.posts[k] == posts[k]
      ensures t.users == users && t.comments == comments
      ensures t.nextUserId == nextUserId && t.nextPostId == nextPostId + 1 && t.nextCommentId == nextCommentId
      ensures Valid() ==> t.Valid()
    {
      this.(posts := posts[nextPostId := p], nextPostId := nextPostId + 1)
    }

    /** `DELETE FROM posts WHERE id = ?`: only that row goes; comments on it stay. */
    function DeletePost(id: Id): (t: Tables)
      ensures t.posts.Keys == posts.Keys - {id}
      ensures forall k | k in t.posts :: t.posts[k] == posts[k]
      ensures t.users == users && t.comments == comments
      ensures t.nextUserId == nextUserId && t.nextPostId == nextPostId && t.nextCommentId == nextCommentId
      ensures Valid() ==> t.Valid()
    {
      this.(posts := posts - {id})
    }

    /** `INSERT INTO comments`: the row goes in under the next id, which is fresh. */
    function InsertComment(c: Comment): (t: Tables)
      ensures Valid() ==> nextCommentId !in comments
      ensures t.comments.Keys == comments.Keys + {nextCommentId} && t.comments[nextCommentId] == c
      ensures forall k | k in comments && k != nextCommentId :: t.comments[k] == comments[k]
      ensures t.users == users && t.posts == posts
      ensures t.nextUserId == nextUserId && t.nextPostId == nextPostId && t.nextCommentId == nextCommentId + 1
      ensures Valid() ==> t.Valid()
    {
      this.(comments := comments[nextCommentId := c], nextCommentId := nextCommentId + 1)
    }

    /** `DELETE FROM comments WHERE id = ?`: only that row goes. */
    function DeleteComment(id: Id): (t: Tables)
      ensures t.comments.Keys == comments.Keys - {id}
      ensures forall k | k in t.comments :: t.comments[k] == comments[k]
      ensures t.users == users && t.posts == posts
      ensures t.nextUserId == nextUserId && t.nextPostId == nextPostId && t.nextCommentId == nextCommentId
      ensures Valid() ==> t.Valid()
    {
      this.(comments := comments - {id})
    }
  }

  /**
   * The keys of `m` below `hi`, in ascending order: how a scan of a table by
   * primary key visits its rows.
   */
  function Scan<V>(m: map<Id, V>, hi: Id): (ids: seq<Id>)
    ensures forall i | 0 <= i < |ids| :: ids[i] in m && ids[i] < hi
    ensures forall k | k in m && 1 <= k < hi :: k in ids
    ensures forall i, j | 0 <= i < j < |ids| :: ids[i] < ids[j]
    decreases hi
  {
    if hi <= 1 then []
    else Scan(m, hi - 1) + (if hi - 1 in m then [hi - 1] else [])
  }

  /** The connection the controllers share: the tables, updated in place by each statement. */
  class Database {
    var users: map<Id, User>
    var posts: map<Id, Post>
    var comments: map<Id, Comment>
    var nextUserId: Id
    var nextPostId: Id
    var nextCommentId: Id

    /** The current contents of the store. */
    function State(): Tables
      reads this
    {
      Tables(users, posts, comments, nextUserId, nextPostId, nextCommentId)
    }

    /** An empty schema whose counters start at 1. */
    constructor ()
      ensures State().Valid()
      ensures users == map[] && posts == map[] && comments == map[]
      ensures nextUserId == 1 && nextPostId == 1 && nextCommentId == 1
    {
      users, posts, comments := map[], map[], map[];
      nextUserId, nextPostId, nextCommentId := 1, 1, 1;
    }
  }
}
