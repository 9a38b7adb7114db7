// `authenticate`: takes the bearer token from the Authorization header,
// verifies it and attaches the user row it names to the request.
module AuthMiddleware {
  import opened Common
  import opened Text
  import opened Store
  import opened Access

  /** `req.headers.authorization?.split(' ')[1]`, kept only when truthy: the
      second space-separated piece of the header, if it is there and not empty. */
  function TokenOf(header: Option<string>): (t: Option<string>)
    ensures t.Some? ==> t.value != "" && ' ' !in t.value
    ensures header.None? ==> t.None?
  {
    if header.None? then None
    else
      var parts := Split(header.value, ' ');
      if |parts| >= 2 && parts[1] != "" then Some(parts[1]) else None
  }

  /** `Bearer <token>` (or any one-word scheme) yields the token. */
  lemma BearerToken(scheme: string, token: string)
    requires ' ' !in scheme && ' ' !in token && token != ""
    ensures TokenOf(Some(scheme + " " + token)) == Some(token)
  {
    SplitAfterPiece(scheme, token, ' ');
    SplitWithoutSep(token, ' ');
  }

  /** A header without a space carries no token. */
  lemma NoSpaceNoToken(header: string)
    requires ' ' !in header
    ensures TokenOf(Some(header)) == None
  {
    SplitWithoutSep(header, ' ');
  }

  /** A doubled space leaves the second piece empty, so there is no token. */
  lemma DoubleSpaceNoToken(scheme: string, rest: string)
    requires ' ' !in scheme
    ensures TokenOf(Some(scheme + "  " + rest)) == None
  {
    assert scheme + "  " + rest == scheme + [' '] + ([' '] + rest);
    SplitAfterPiece(scheme, [' '] + rest, ' ');
    assert Split([' '] + rest, ' ')[0] == "";
  }

  /** The user row `authenticate` attaches: the token must be present, verify
      to a user id, and exactly one user row must have that id. */
  function Authenticated(header: Option<string>, verify: string -> Option<Id>, users: seq<User>): (u: Option<User>)
    ensures u.Some? <==>
      TokenOf(header).Some? && verify(TokenOf(header).value).Some?
      && Count(users, UserIs(verify(TokenOf(header).value).value)) == 1
    ensures u.Some? ==> u.value in users && u.value.id == verify(TokenOf(header).value).value
  {
    var token := TokenOf(header);
    if token.None? then None
    else
      var decoded := verify(token.value);
      if decoded.None? then None
      else Single(users, UserIs(decoded.value))
  }

  /** The parts of an Express request the middleware reads and writes. */
  class Request {
    const authorization: Option<string>
    var user: Option<User>

    constructor (authorization: Option<string>)
      ensures this.authorization == authorization && user == None
    {
      this.authorization := authorization;
      user := None;
    }
  }

  /** `authenticate`: a missing token, a token that does not verify, or an
      unknown user id ends the request with 401 and leaves `req.user` alone;
      otherwise `req.user` is set and `next()` is called. */
  method Authenticate(req: Request, db: Db, verify: string -> Option<Id>) returns (g: Gate)
    modifies req`user
    ensures g == Next <==> Authenticated(req.authorization, verify, db.users).Some?
    ensures g != Next ==> g == Deny(401) && req.user == old(req.user)
    ensures g == Next ==> req.user == Authenticated(req.authorization, verify, db.users)
  {
    var token := TokenOf(req.authorization);
    if token.None? {
      return Deny(401);
    }
    var decoded := verify(token.value);
    if decoded.None? {
      return Deny(401);
    }
    var user := Single(db.users, UserIs(decoded.value));
    if user.None? {
      return Deny(401);
    }
    req.user := user;
    g := Next;
  }
}
