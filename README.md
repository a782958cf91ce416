# Content-sharing backend: users, works and comments

A Dafny model of the three Express controllers of a small content-sharing
site: registration, login and profiles (`authController.js`), posts, called
"works" (`postController.js`), and comments on them (`commentController.js`).
Each handler validates its request, then runs one or two SQL statements
against three tables: `users`, `posts` and `comments`.

How the model is built:

- **The store.** `Store.Database` is a class whose fields are the three tables.
  Each table is a map from an auto-increment id to a row, and each table has a
  counter that hands out the next id. `State()` returns the same contents as a
  `Tables` value.
- **Statements.** The INSERT, UPDATE and DELETE statements are `Tables` member
  functions. Their contracts say which rows change, that a new id is fresh, and
  that the store invariant `Tables.Valid()` is kept. The invariant: ids start at
  1, ids are never reused, and emails are unique.
- **Handlers that write.** `register`, `updateUserProfile`, `createPost`,
  `deletePost`, `createComment` and `deleteComment` are methods that modify the
  database. For every branch of the handler's early-return chain, the contract
  gives the status, the body and the new store contents.
- **Handlers that only read.** `login`, `getUserById`, `logout`, `getPosts`,
  `getPostById` and `getCommentsByPost` are pure functions of the tables.

Request values follow JavaScript rules:

- **Text fields** (`title`, `email`, `content`, ...) are `Option<string>`. A
  field is falsy when it is absent or empty.
- **Id fields** from a body or a query string are a `Field`: absent, a string,
  or an integer from a JSON body. JavaScript's `!x` makes `""` and `0` falsy
  but `"0"` truthy, and `Field` keeps that difference.
- **Path parameters** are strings.
- **`Number()`.** `JsValues.NumberOf` models `Number()` on integer numerals. The
  same conversion is used for how SQL binds an id. A NaN id never matches a row.
  Inserting a NaN id into an integer column fails, which the handler's `catch`
  turns into 500.

Passwords:

- The hashing library is an abstract `Credentials.Bcrypt`, a pair of functions
  passed in as arguments. `hash(password, salt)` makes a hash; the random salt
  is an argument. `compare(password, hash)` checks a password against a hash.
- `Credentials.Sound` states the two facts the code relies on: a hash never
  equals its password, and a password always matches its own hash.

Timestamps: `created_at` is a `now` argument of each insert.

Where the intended design and the code differ, the model follows the code:

- **`register`** rejects only an empty nickname. A nickname of white space
  alone is accepted and stored as it is; only `updateUserProfile` trims.
- **`createPost`** does not check that the author exists. The post is inserted
  anyway and the response is 201 with no body, because the inner join in the
  re-select finds no row. The post stays out of every list only while no user
  holds that id. A user registered later under that id becomes its author, both
  in lists and for `deletePost`.
- **`createComment`** does not check that the commenting user exists. The
  comment is inserted, and the response is 201 with no body.
- **`deletePost`** leaves the post's comments in the table.

## Model

| member | source | states |
|---|---|---|
| `JsValues.Or` | backend/controllers/postController.js:54 | the JavaScript or-operator gives a truthy value exactly when one operand is truthy; a truthy first operand always wins, otherwise the second operand is the result (so `authorId` wins over `author_id` and the query's `userId` over the body's) |
| `JsValues.Numeral` | backend/controllers/postController.js:139 | `Number(s)` gives a value exactly for an optionally signed string of decimal digits |
| `JsValues.NumberOf` | backend/controllers/commentController.js:103 | `Number(userId)` of a JSON integer is that integer, of a string it is the numeral's value, and of an undefined value it is NaN |
| `JsValues.NumeralOfDecimal` | frontend/src/api/posts.js:36-41 | the decimal spelling of an id, as a client sends it in a query string, is truthy and reads back as that id |
| `JsValues.Trim` | backend/controllers/authController.js:117 | `trim()` gives the piece of the string between a white-space prefix and a white-space suffix; the piece neither starts nor ends with white space; it is empty exactly when the string is all white space |
| `JsValues.TrimIdempotent` | backend/controllers/authController.js:125 | a trimmed nickname trims to itself |
| `Ordering.Insert` | backend/controllers/postController.js:79 | inserting a row into an ordered result adds exactly that row |
| `Ordering.InsertSorted` | backend/controllers/postController.js:79 | inserting into a sorted result keeps it sorted |
| `Ordering.SortBy` | backend/controllers/commentController.js:67 | `ORDER BY` yields a permutation of the rows in key order |
| `Ordering.SortKeepsRows` | backend/controllers/postController.js:79 | sorting keeps the number of rows and the set of rows, and adds no duplicates |
| `Store.Tables.InsertUser` | backend/controllers/authController.js:37-40 | the new user goes in under a fresh id and no other row changes; the invariant holds when the email is unused |
| `Store.Tables.UpdateUser` | backend/controllers/authController.js:123-126 | `UPDATE ... WHERE id = ?` changes the nickname and signature of that row only, or of no row when the id matches none |
| `Store.Tables.InsertPost` | backend/controllers/postController.js:28-31 | the new post goes in under a fresh id and no other row changes |
| `Store.Tables.DeletePost` | backend/controllers/postController.js:143 | exactly that post is removed; users, comments and the id counter are untouched |
| `Store.Tables.InsertComment` | backend/controllers/commentController.js:26-29 | the new comment goes in under a fresh id and no other row changes |
| `Store.Tables.DeleteComment` | backend/controllers/commentController.js:109 | exactly that comment is removed and nothing else changes |
| `AuthController.FindByEmail` | backend/controllers/authController.js:24-29 | the email lookup finds a user holding that email, and finds none exactly when no user holds it |
| `AuthController.Register` | backend/controllers/authController.js:14-55 | cases in order: 400 for a missing field, then 409 for a taken email, neither changing the store; otherwise one user inserted under a fresh id with the password's hash (never the password) and 201 with id, email, nickname and created_at; a later register with that email is a conflict |
| `AuthController.Login` | backend/controllers/authController.js:63-99 | 400 for a missing field; otherwise 200 exactly when a user with that email has a hash matching the password, and the body is that user's public projection; every other case gives 401 with one message |
| `AuthController.RegisterThenLogin` | backend/controllers/authController.js:72-99 | logging in with the credentials just registered returns the id and projection that register returned |
| `AuthController.Logout` | backend/controllers/authController.js:107-109 | logout always answers 200 with a message and takes no store |
| `AuthController.UpdateUserProfile` | backend/controllers/authController.js:113-143 | 400 with no update when the nickname is absent, empty or only white space; otherwise the row gets the trimmed, non-empty nickname and a signature that is null when falsy; 404 when there is no such user, and no other row ever changes |
| `AuthController.GetUserById` | backend/controllers/authController.js:151-166 | 200 with the user's profile exactly when the id names a user, otherwise 404 |
| `PostController.SelectPosts` | backend/controllers/postController.js:58-77 | the filtered join yields exactly the joined, matching posts among the scanned ids, each once |
| `PostController.GetPosts` | backend/controllers/postController.js:52-83 | 200 with exactly the posts whose author exists and which match every truthy filter (search as a substring of the title or description; `authorId`, else `author_id`, as the author); each once, newest first, with the author's nickname and the post's comment count |
| `PostController.UnfilteredListIsEveryJoinedPost` | backend/controllers/postController.js:62-65 | with no filter the list is every post whose author exists, and only those |
| `PostController.GetPostById` | backend/controllers/postController.js:91-109 | 200 with the joined row and its comment count exactly when the id names a post whose author exists, otherwise 404 |
| `PostController.DetailIsListed` | backend/controllers/postController.js:96-101 | the detail row of a post is the row the unfiltered list shows for it |
| `PostController.LaterUserAdoptsPost` | backend/controllers/postController.js:28-38 | a post created under an author id no user holds is invisible, and becomes listed under the nickname of the user registered next, who receives that id |
| `PostController.CreatePost` | backend/controllers/postController.js:10-42 | cases in order: 400 for a missing title or author id, then 500 for a non-numeric author id, neither changing the store; otherwise one post inserted under a fresh id, with the description defaulting to empty and the image taken from the upload, else the body's `image_url`, else null; 201 with the row and the author's nickname, or no body when the author does not exist |
| `PostController.DeletePost` | backend/controllers/postController.js:118-145 | the requester is the query's `userId`, else the body's; cases in order: 400 when missing, 404 when no such post, 403 when the author is not `Number(userId)`, each leaving the store unchanged; otherwise exactly that post is deleted, its comments are kept, and the result is 200 |
| `PostController.DeletedPostIsGone` | backend/controllers/postController.js:143 | after the delete, fetching the post gives 404, while its comments are still stored |
| `PostController.QueryStringIdIsOwner` | backend/controllers/postController.js:120 | an author who sends their id in the query string passes the presence check and the ownership check |
| `CommentController.SelectComments` | backend/controllers/commentController.js:57-69 | the join yields exactly the joined comments on the post among the scanned ids, each once |
| `CommentController.GetCommentsByPost` | backend/controllers/commentController.js:53-71 | 200 with exactly the comments on that post whose author exists, each once, oldest first |
| `CommentController.NoCommentsIsEmptyList` | backend/controllers/commentController.js:71 | a post without comments lists the empty sequence with 200, not an error |
| `CommentController.ListingMatchesCommentCount` | backend/controllers/postController.js:61 | when every commenter exists, the number of comments listed for a post equals its `comment_count` |
| `CommentController.CreateComment` | backend/controllers/commentController.js:7-45 | cases in order: 400 for a missing field, then 400 when the post does not exist, then 500 for a non-numeric user id, none inserting anything; otherwise one comment `(work_id, user_id, content)` inserted under a fresh id and 201 with it and the commenter's nickname, or no body when the user does not exist |
| `CommentController.DeleteComment` | backend/controllers/commentController.js:80-111 | cases in order: 400 when `userId` is missing, 404 when no such comment, 403 when the commenter is not `Number(userId)`, each leaving the store unchanged; otherwise exactly that comment is deleted and the result is 200 |

## Left out

- The `catch` branches for database and process failures and their `console.error` logging are not modelled. The one exception is the failed insert of a non-numeric id.
- The database engine is not modelled: `LIKE` wildcards in the search text, collation, case-insensitive comparison of emails and search text, and how `created_at` defaults are chosen.
- The password hashing library's algorithm and its cost factor of 10 rounds are not modelled; the library is the abstract `Bcrypt`.
- The race between the duplicate-email check and the insert in `register` is not modelled, because it only arises under concurrent requests.
- JavaScript values other than strings and integers (booleans, floats, NaN literals, arrays from repeated query parameters, objects) are not modelled. Neither is a `.trim()` call on a non-string nickname.
- `JsValues.Numeral`: only optionally signed decimal integers are read as numbers. `Number()` also accepts surrounding white space, fractions, exponents and hex, and MySQL also reads a leading numeric prefix. The model treats all of these as NaN.
- `PostController.GetPosts`: search is promised as an exact substring match of the title or description. Case-insensitivity depends on the collation and is not promised. Rows whose `created_at` values are equal come out in ascending id order, which is an artifact of the model and not promised.
- Column widths and JavaScript number precision are not modelled: ids are unbounded integers. In the program, an `authorId` or `userId` outside the range of the integer column makes the INSERT at backend/controllers/postController.js:28-31 or backend/controllers/commentController.js:26-29 fail with 500, where the model inserts. `Number(userId)` at backend/controllers/postController.js:139 and backend/controllers/commentController.js:103 is a double, which rounds integers beyond 2^53 before the comparison; the model compares exactly.
- `AuthController.Register`: the returned `created_at` is the `now` argument instead of the database clock.
- `getAllPosts` (backend/controllers/postController.js:154-169) is not modelled: no route reaches it.
- The upload middleware (storage location, generated file names, MIME and size checks) is not modelled. An uploaded file is just an optional file name passed to `CreatePost`.
- Express routing, static file serving, the `/api/auth/test` endpoint and the frontend (HTTP client calls, routing, the `localStorage` user cache) are not modelled. They hold no server-side logic.
