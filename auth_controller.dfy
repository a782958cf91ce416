/**
 * Registration, login, logout and the user profile endpoints, over the
 * `users` table. Password hashing is the abstract `Bcrypt` of `Credentials`.
 */
module AuthController {
  import opened Wrappers
  import opened JsValues
  import opened Store
  import opened Http
  import opened Credentials

  const REGISTER_MISSING := "邮箱、密码、昵称都是必填的"
  const EMAIL_TAKEN := "该邮箱已被注册"
  const REGISTERED := "注册成功"
  const LOGIN_MISSING := "邮箱和密码都是必填的"
  const BAD_CREDENTIALS := "邮箱或密码错误"
  const LOGGED_IN := "登录成功"
  const LOGGED_OUT := "退出成功（占位版）"
  const NICKNAME_EMPTY := "昵称不能为空"
  const UPDATED := "更新成功"
  const NO_SUCH_USER := "用户不存在"

  /** `SELECT id, email, nickname, created_at` of a user. */
  function AccountOf(id: Id, u: User): UserView {
    Account(id, u.email, u.nickname, u.createdAt)
  }

  /** `SELECT id, email, nickname, signature, created_at` of a user. */
  function ProfileOf(id: Id, u: User): UserView {
    Profile(id, u.email, u.nickname, u.signature, u.createdAt)
  }

  /** Some user already holds `email`. */
  predicate EmailTaken(t: Tables, email: string) {
    exists k | k in t.users :: t.users[k].email == email
  }

  /** The first of `ids` whose user has `email`. */
  function FirstWithEmail(users: map<Id, User>, ids: seq<Id>, email: string): (r: Option<Id>)
    requires forall i | 0 <= i < |ids| :: ids[i] in users
    ensures r.Some? ==> r.value in ids && users[r.value].email == email
    ensures r.None? ==> forall i | 0 <= i < |ids| :: users[ids[i]].email != email
  {
    if ids == [] then None
    else if users[ids[0]].email == email then Some(ids[0])
    else FirstWithEmail(users, ids[1..], email)
  }

  /**
   * `SELECT ... FROM users WHERE email = ?` followed by `rows[0]`: the user
   * registered under `email`, and `None` exactly when there is none.
   */
  function FindByEmail(t: Tables, email: string): (r: Option<Id>)
    requires t.Valid()
    ensures r.Some? ==> r.value in t.users && t.users[r.value].email == email
    ensures r.None? <==> !EmailTaken(t, email)
  {
    FirstWithEmail(t.users, Scan(t.users, t.nextUserId), email)
  }

  /** The row `register` inserts: the hash of the password is stored, never the password. */
  function NewUser(email: string, password: string, nickname: string, bcrypt: Bcrypt, salt: string, now: int): User {
    User(email, bcrypt.hash(password, salt), nickname, None, now)
  }

  /**
   * POST /api/auth/register. 400 when a field is missing or empty, then 409 when
   * the email is taken, both leaving the store alone; otherwise one user is
   * inserted under a fresh id and 201 returns its public projection.
   */
  method Register(db: Database, email: Option<string>, password: Option<string>, nickname: Option<string>,
                  bcrypt: Bcrypt, salt: string, now: int) returns (resp: Response)
    requires db.State().Valid()
    modifies db
    ensures db.State().Valid()
    ensures !Present(email) || !Present(password) || !Present(nickname) ==>
      resp == Fail(BAD_REQUEST, REGISTER_MISSING) && db.State() == old(db.State())
    ensures Present(email) && Present(password) && Present(nickname) && EmailTaken(old(db.State()), email.value) ==>
      resp == Fail(CONFLICT, EMAIL_TAKEN) && db.State() == old(db.State())
    ensures Present(email) && Present(password) && Present(nickname) && !EmailTaken(old(db.State()), email.value) ==>
      && db.State() == old(db.State()).InsertUser(NewUser(email.value, password.value, nickname.value, bcrypt, salt, now))
      && resp == Response(CREATED, UserReply(Some(REGISTERED), Account(old(db.nextUserId), email.value, nickname.value, now)))
    ensures resp.status == CREATED ==> EmailTaken(db.State(), email.value)
    ensures resp.status == CREATED && Sound(bcrypt) ==> db.users[old(db.nextUserId)].passwordHash != password.value
  {
    if !Present(email) || !Present(password) || !Present(nickname) {
      return Fail(BAD_REQUEST, REGISTER_MISSING);
    }
    var existing := FindByEmail(db.State(), email.value);
    if existing.Some? {
      return Fail(CONFLICT, EMAIL_TAKEN);
    }
    var passwordHash := bcrypt.hash(password.value, salt);
    var id := db.nextUserId;
    db.users := db.users[id := User(email.value, passwordHash, nickname.value, None, now)];
    db.nextUserId := id + 1;
    resp := Response(CREATED, UserReply(Some(REGISTERED), AccountOf(id, db.users[id])));
  }

  /**
   * POST /api/auth/login. 400 when a field is missing or empty; 200 with the
   * public projection when a user with that email exists and the password
   * matches its hash; otherwise 401 with one message for both an unknown email
   * and a wrong password. The store is only read.
   */
  function Login(t: Tables, email: Option<string>, password: Option<string>, bcrypt: Bcrypt): (r: Response)
    requires t.Valid()
    ensures !Present(email) || !Present(password) ==> r == Fail(BAD_REQUEST, LOGIN_MISSING)
    ensures Present(email) && Present(password) ==>
      (r.status == OK <==>
        exists k | k in t.users :: t.users[k].email == email.value && bcrypt.compare(password.value, t.users[k].passwordHash))
    ensures Present(email) && Present(password) && r.status != OK ==> r == Fail(UNAUTHORIZED, BAD_CREDENTIALS)
    ensures r.status == OK ==>
      exists k | k in t.users :: t.users[k].email == email.value && r == Ok(UserReply(Some(LOGGED_IN), AccountOf(k, t.users[k])))
  {
    if !Present(email) || !Present(password) then Fail(BAD_REQUEST, LOGIN_MISSING)
    else
      match FindByEmail(t, email.value)
      case None => Fail(UNAUTHORIZED, BAD_CREDENTIALS)
      case Some(k) =>
        if !bcrypt.compare(password.value, t.users[k].passwordHash) then Fail(UNAUTHORIZED, BAD_CREDENTIALS)
        else Ok(UserReply(Some(LOGGED_IN), AccountOf(k, t.users[k])))
  }

  /** A user who has just registered can log in with the same credentials and gets the id register returned. */
  lemma RegisterThenLogin(t: Tables, email: string, password: string, nickname: string, bcrypt: Bcrypt, salt: string, now: int)
    requires t.Valid() && Sound(bcrypt)
    requires email != "" && password != ""
    requires !EmailTaken(t, email)
    ensures t.InsertUser(NewUser(email, password, nickname, bcrypt, salt, now)).Valid()
    ensures Login(t.InsertUser(NewUser(email, password, nickname, bcrypt, salt, now)), Some(email), Some(password), bcrypt)
         == Ok(UserReply(Some(LOGGED_IN), Account(t.nextUserId, email, nickname, now)))
  {
    var u := NewUser(email, password, nickname, bcrypt, salt, now);
    var t' := t.InsertUser(u);
    assert t'.users[t.nextUserId] == u;
    assert bcrypt.compare(password, u.passwordHash);
    var found := FindByEmail(t', email);
    assert found == Some(t.nextUserId);
  }

  /** POST /api/auth/logout: a placeholder that always succeeds and has no store to touch. */
  function Logout(): (r: Response)
    ensures r.status == OK && r.body.Message?
  {
    Ok(Message(LOGGED_OUT))
  }

  /**
   * PUT /api/auth/users/:id. 400 when the nickname is missing, empty or white
   * space only, with no update. Otherwise the row with that id, if any, gets the
   * trimmed nickname and the signature (null when falsy); 404 when there is no
   * such row, else 200 with the updated profile. No other row changes.
   */
  method UpdateUserProfile(db: Database, id: string, nickname: Option<string>, signature: Option<string>)
    returns (resp: Response)
    requires db.State().Valid()
    modifies db
    ensures db.State().Valid()
    ensures !Present(nickname) || AllSpace(nickname.value) ==>
      resp == Fail(BAD_REQUEST, NICKNAME_EMPTY) && db.State() == old(db.State())
    ensures Present(nickname) && !AllSpace(nickname.value) ==>
      db.State() == old(db.State()).UpdateUser(Numeral(id), Trim(nickname.value), if Present(signature) then signature else None)
    ensures Present(nickname) && !AllSpace(nickname.value) && Numeral(id).Some? && Numeral(id).value in old(db.users) ==>
      var k := Numeral(id).value;
      && db.users[k].nickname == Trim(nickname.value) && db.users[k].nickname != ""
      && resp == Ok(UserReply(Some(UPDATED), ProfileOf(k, db.users[k])))
    ensures Present(nickname) && !AllSpace(nickname.value) && !(Numeral(id).Some? && Numeral(id).value in old(db.users)) ==>
      resp == Fail(NOT_FOUND, NO_SUCH_USER) && db.State() == old(db.State())
    ensures forall k | k in old(db.users) && Numeral(id) != Some(k) :: k in db.users && db.users[k] == old(db.users)[k]
  {
    if !Present(nickname) || Trim(nickname.value) == "" {
      return Fail(BAD_REQUEST, NICKNAME_EMPTY);
    }
    var key := Numeral(id);
    var signatureValue := if Present(signature) then signature else None;
    if key.Some? && key.value in db.users {
      db.users := db.users[key.value := db.users[key.value].(nickname := Trim(nickname.value), signature := signatureValue)];
      resp := Ok(UserReply(Some(UPDATED), ProfileOf(key.value, db.users[key.value])));
    } else {
      resp := Fail(NOT_FOUND, NO_SUCH_USER);
    }
  }

  /** GET /api/auth/users/:id: 200 with the profile of that user, 404 when there is none. */
  function GetUserById(t: Tables, id: string): (r: Response)
    ensures r.status == OK <==> Numeral(id).Some? && Numeral(id).value in t.users
    ensures r.status == OK ==> r.body == UserReply(None, ProfileOf(Numeral(id).value, t.users[Numeral(id).value]))
    ensures r.status != OK ==> r == Fail(NOT_FOUND, NO_SUCH_USER)
  {
    var key := Numeral(id);
    if key.Some? && key.value in t.users then Ok(UserReply(None, ProfileOf(key.value, t.users[key.value])))
    else Fail(NOT_FOUND, NO_SUCH_USER)
  }
}
