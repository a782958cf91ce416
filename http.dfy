/**
 * What a handler sends back: a status code and a JSON body. The bodies are the
 * joined read models the SELECTs produce, or a `{ message }` object.
 */
module Http {
  import opened Wrappers
  import opened Store

  /**
   * The user projections the handlers return; neither carries the password
   * hash. `Account` is `SELECT id, email, nickname, created_at`, `Profile` adds
   * `signature`.
   */
  datatype UserView =
    | Account(id: Id, email: string, nickname: string, createdAt: int)
    | Profile(id: Id, email: string, nickname: string, signature: Option<string>, createdAt: int)

  /** `p.*` joined with the author's nickname. */
  datatype PostRow = PostRow(id: Id, post: Post, authorNickname: string)

  /** A listed post: its columns, the author's nickname and its number of comments. */
  datatype PostView = PostView(id: Id, post: Post, authorNickname: string, commentCount: nat)

  /** A comment joined with its author's nickname. */
  datatype CommentView = CommentView(id: Id, comment: Comment, authorNickname: string)

  datatype Body =
    | Empty                                               // `res.json(undefined)`
    | Message(text: string)                               // `{ message }`
    | UserReply(message: Option<string>, user: UserView)  // `{ message?, user }`
    | CreatedPost(row: PostRow)
    | PostDetail(view: PostView)
    | PostList(views: seq<PostView>)
    | CreatedComment(comment: CommentView)
    | CommentList(comments: seq<CommentView>)

  datatype Response = Response(status: int, body: Body)

  const OK := 200
  const CREATED := 201
  const BAD_REQUEST := 400
  const UNAUTHORIZED := 401
  const FORBIDDEN := 403
  const NOT_FOUND := 404
  const CONFLICT := 409
  const SERVER_ERROR := 500

  /** `res.json(...)` without an explicit status. */
  function Ok(body: Body): Response {
    Response(OK, body)
  }

  /** `res.status(status).json({ message })`. */
  function Fail(status: int, message: string): Response {
    Response(status, Message(message))
  }
}
