// The authentication routes: registration with its normalisation and
// duplicate check, login with the same normalisation, and the current-user
// lookup. Password hashing and comparison and token signing and verifying
// are library calls, passed in as functions.
module AuthRoutes {
  import opened Common
  import opened Text
  import opened Store
  import opened Access
  import opened AuthMiddleware

  /** The user fields the routes send back: never the password. */
  datatype PublicUser = PublicUser(id: Id, username: string, email: string, role: string)

  /** What `GET /auth/me` selects: `id, username, email, role, created_at`. */
  datatype Profile = Profile(id: Id, username: string, email: string, role: string, created_at: nat)

  /** A signed token and the user it was issued to. */
  datatype Session = Session(token: string, user: PublicUser)

  function Public(u: User): (p: PublicUser)
    ensures p.id == u.id && p.username == u.username && p.email == u.email && p.role == u.role
  {
    PublicUser(u.id, u.username, u.email, u.role)
  }

  /** `.eq('email', e)` on users. */
  function EmailIs(e: string): User -> bool { (u: User) => u.email == e }

  /** `role === 'admin' ? 'admin' : 'user'`, with a missing role defaulting
      to `'user'`: only the exact string `admin` makes an admin. */
  function ClampRole(role: JsValue): (r: string)
    ensures r == "admin" <==> role == Str("admin")
    ensures r == "user" <==> role != Str("admin")
  {
    if role == Str("admin") then "admin" else "user"
  }

  // ---------------------------------------------------------------------------
  // POST /auth/register

  datatype RegisterBody = RegisterBody(username: JsValue, email: JsValue, password: JsValue, role: JsValue)

  /** `username`, `email` and `password` all truthy: otherwise 400. */
  predicate RegisterFieldsGiven(b: RegisterBody)
  {
    Truthy(b.username) && Truthy(b.email) && Truthy(b.password)
  }

  /** Truthy fields that are not strings make `trim()` throw: 500. */
  predicate RegisterFieldsText(b: RegisterBody)
  {
    b.username.Str? && b.email.Str? && b.password.Str?
  }

  /** The checks of `POST /auth/register` before the insert: 400 for a
      missing field, 500 when a field cannot be trimmed, 400 when a user
      already has the normalised email. */
  function RegisterCheck(users: seq<User>, b: RegisterBody): (g: Gate)
    ensures g == Deny(400) <==>
      !RegisterFieldsGiven(b)
      || (RegisterFieldsText(b) && Count(users, EmailIs(NormalizeEmail(b.email.s))) == 1)
    ensures g == Deny(500) <==> RegisterFieldsGiven(b) && !RegisterFieldsText(b)
    ensures g == Next <==>
      RegisterFieldsGiven(b) && RegisterFieldsText(b) && Count(users, EmailIs(NormalizeEmail(b.email.s))) != 1
  {
    if !RegisterFieldsGiven(b) then Deny(400)
    else if !RegisterFieldsText(b) then Deny(500)
    else if Single(users, EmailIs(NormalizeEmail(b.email.s))).Some? then Deny(400)
    else Next
  }

  /** With unique emails, the duplicate check passes exactly when no user
      has the email. */
  lemma {:induction false} FreeEmail(users: seq<User>, e: string)
    requires EmailsUnique(users)
    ensures Count(users, EmailIs(e)) != 1 <==> forall u :: u in users ==> u.email != e
  {
    if u :| u in users && u.email == e {
      var k :| 0 <= k < |users| && users[k] == u;
      FilterKeepsOne(users, EmailIs(e), k);
    } else {
      FilterNone(users, EmailIs(e));
    }
  }

  /** A user added under an email no other user has is the one `.single()`
      finds by that email. */
  lemma NewEmailIsFound(users: seq<User>, u: User)
    requires forall x :: x in users ==> x.email != u.email
    ensures Single(users + [u], EmailIs(u.email)) == Some(u)
  {
    FilterAppend(users, [u], EmailIs(u.email));
    FilterNone(users, EmailIs(u.email));
    assert Filter([u], EmailIs(u.email)) == [u];
  }

  /** `POST /auth/register`. `hash` is bcrypt's hash, `sign` issues the
      token for a user id and role, `insertOk` is the store's answer to the
      insert. The stored email is the trimmed, lower-cased input, the stored
      username is trimmed, the stored password is the hash of the trimmed
      password, and the role is clamped. */
  method Register(db: Db, b: RegisterBody, hash: string -> string, sign: (Id, string) -> string, insertOk: bool)
    returns (r: Reply<Session>)
    requires db.Valid()
    modifies db`users, db`nextId, db`clock
    ensures db.Valid()
    ensures RegisterCheck(old(db.users), b) != Next ==>
      r == Fail(RegisterCheck(old(db.users), b).status) && db.users == old(db.users)
    ensures RegisterCheck(old(db.users), b) == Next && !insertOk ==> r == Fail(500) && db.users == old(db.users)
    ensures RegisterCheck(old(db.users), b) == Next && insertOk ==>
      var u := User(old(db.nextId), Trim(b.username.s), NormalizeEmail(b.email.s), hash(Trim(b.password.s)),
                    ClampRole(b.role), old(db.clock));
      r == Ok(201, Session(sign(u.id, u.role), Public(u)))
      && db.users == old(db.users) + [u]
      && Single(db.users, EmailIs(u.email)) == Some(u)
  {
    var g := RegisterCheck(db.users, b);
    if g.Deny? {
      return Fail(g.status);
    }
    if !insertOk {
      return Fail(500);
    }
    var email := NormalizeEmail(b.email.s);
    FreeEmail(db.users, email);
    ghost var before := db.users;
    var u := db.InsertUser(Trim(b.username.s), email, hash(Trim(b.password.s)), ClampRole(b.role));
    NewEmailIsFound(before, u);
    r := Ok(201, Session(sign(u.id, u.role), Public(u)));
  }

  // ---------------------------------------------------------------------------
  // POST /auth/login

  datatype LoginBody = LoginBody(email: JsValue, password: JsValue)

  /** `POST /auth/login`: 400 without email or password, 500 when either
      cannot be trimmed, 401 when no single user has the normalised email or
      `compare` rejects the trimmed password against the stored hash. */
  function Login(db: Db, b: LoginBody, compare: (string, string) -> bool, sign: (Id, string) -> string)
    : (r: Reply<Session>)
    reads db
    ensures r == Fail(400) <==> !Truthy(b.email) || !Truthy(b.password)
    ensures r == Fail(500) <==> Truthy(b.email) && Truthy(b.password) && !(b.email.Str? && b.password.Str?)
    ensures r.Ok? <==>
      Truthy(b.email) && Truthy(b.password) && b.email.Str? && b.password.Str?
      && Single(db.users, EmailIs(NormalizeEmail(b.email.s))).Some?
      && compare(Trim(b.password.s), Single(db.users, EmailIs(NormalizeEmail(b.email.s))).value.password)
    ensures r.Fail? ==> r.status in {400, 401, 500}
    ensures r.Ok? ==>
      var u := Single(db.users, EmailIs(NormalizeEmail(b.email.s))).value;
      r.status == 200 && u in db.users && r.value == Session(sign(u.id, u.role), Public(u))
  {
    if !Truthy(b.email) || !Truthy(b.password) then Fail(400)
    else if !(b.email.Str? && b.password.Str?) then Fail(500)
    else
      var user := Single(db.users, EmailIs(NormalizeEmail(b.email.s)));
      if user.None? then Fail(401)
      else if !compare(Trim(b.password.s), user.value.password) then Fail(401)
      else Ok(200, Session(sign(user.value.id, user.value.role), Public(user.value)))
  }

  /** Registration and login agree: with a `compare` that accepts a
      password against its own hash, a user registered from `email` and
      `password` logs in with the same two strings, or with the email
      differing only in case of ASCII letters or surrounding white space. */
  lemma LoginAfterRegister(db: Db, email: string, password: string, u: User,
                           hash: string -> string, compare: (string, string) -> bool, sign: (Id, string) -> string)
    requires Single(db.users, EmailIs(NormalizeEmail(email))) == Some(u)
    requires u.password == hash(Trim(password))
    requires forall p :: compare(p, hash(p))
    requires email != "" && password != ""
    ensures Login(db, LoginBody(Str(email), Str(password)), compare, sign) == Ok(200, Session(sign(u.id, u.role), Public(u)))
  {
  }

  // ---------------------------------------------------------------------------
  // GET /auth/me

  /** `GET /auth/me`: the same token handling as `authenticate`; every
      failure, including a token that does not verify, is 401. */
  function Me(db: Db, authorization: Option<string>, verify: string -> Option<Id>): (r: Reply<Profile>)
    reads db
    ensures r.Ok? <==> Authenticated(authorization, verify, db.users).Some?
    ensures r.Fail? ==> r.status == 401
    ensures r.Ok? ==>
      var u := Authenticated(authorization, verify, db.users).value;
      r.status == 200 && r.value == Profile(u.id, u.username, u.email, u.role, u.created_at)
  {
    var user := Authenticated(authorization, verify, db.users);
    if user.None? then Fail(401)
    else Ok(200, Profile(user.value.id, user.value.username, user.value.email, user.value.role, user.value.created_at))
  }
}
