/**
 * The request guard every controller inherits: the bearer token is the second
 * word of the `Authorization` header, decoded against the application's
 * secret; the caller is the user whose id the token carries.
 */
module ApplicationController {
  import opened Wrappers
  import opened RubyStrings
  import U = UserModel
  import Http

  /** A decoded payload `{ "user_id": ... }`; a user_id that is missing or not a natural number is None. */
  datatype Claims = Claims(userId: Option<nat>)

  /**
   * `JWT.encode({ user_id: id }, secret_key_base, 'HS256')` and
   * `JWT.decode(token, secret_key_base, true, algorithm: 'HS256')`, with every
   * `JWT::DecodeError` (malformed, tampered, wrong algorithm) as None.
   */
  datatype Jwt = Jwt(encode: nat -> string, decode: string -> Option<Claims>)

  /**
   * Both sides use the same secret and algorithm, so a token made for an id
   * decodes to that id; a compact JWT is non-empty and has no white space.
   */
  ghost predicate Sound(jwt: Jwt) {
    forall id: nat {:trigger jwt.encode(id)} ::
      jwt.decode(jwt.encode(id)) == Some(Claims(Some(id))) && jwt.encode(id) != [] && NoSpace(jwt.encode(id))
  }

  /** `auth_header.split(' ')[1]`; the first word is not looked at. */
  function BearerToken(header: string): (r: Option<string>)
    ensures r.Some? ==> r.value != [] && NoSpace(r.value)
  {
    var ws := Words(header);
    if |ws| >= 2 then Some(ws[1]) else None
  }

  /** `decoded_token`: nil without a header; `JWT.decode(nil, ...)` is a decode error too. */
  function DecodedToken(jwt: Jwt, header: Option<string>): Option<Claims> {
    if header.None? then None
    else
      match BearerToken(header.value)
      case None => None
      case Some(token) => jwt.decode(token)
  }

  /** `User.find_by(id: user_id)`. */
  function FindUser(users: map<nat, U.User>, id: Option<nat>): Option<U.User> {
    if id.Some? && id.value in users then Some(users[id.value]) else None
  }

  /** Who `current_user` is on a fresh request. */
  function Identity(jwt: Jwt, header: Option<string>, users: map<nat, U.User>): Option<U.User> {
    match DecodedToken(jwt, header)
    case None => None
    case Some(claims) => FindUser(users, claims.userId)
  }

  /** With no header there is no caller. */
  lemma NoHeaderNoIdentity(jwt: Jwt, users: map<nat, U.User>)
    ensures Identity(jwt, None, users) == None
  {
  }

  /** A header of one word carries no token, so there is no caller. */
  lemma OneWordHeaderNoIdentity(jwt: Jwt, word: string, users: map<nat, U.User>)
    requires NoSpace(word)
    ensures Identity(jwt, Some(word), users) == None
  {
    if word != [] {
      WordsOfJoin([word]);
    } else {
      assert Words(word) == [];
    }
  }

  /** A token the decoder rejects gives no caller, and nothing fails. */
  lemma UndecodableTokenNoIdentity(jwt: Jwt, header: string, users: map<nat, U.User>)
    requires BearerToken(header).Some? && jwt.decode(BearerToken(header).value).None?
    ensures Identity(jwt, Some(header), users) == None
  {
  }

  /** A valid token for an id no longer in the table counts as no caller. */
  lemma DeletedUserNoIdentity(jwt: Jwt, header: Option<string>, users: map<nat, U.User>, id: nat)
    requires DecodedToken(jwt, header) == Some(Claims(Some(id))) && id !in users
    ensures Identity(jwt, header, users) == None
  {
  }

  /**
   * A header `<scheme> <token>` carrying the token made for a stored user,
   * whatever the scheme word, identifies that user.
   */
  lemma TokenIdentifiesUser(jwt: Jwt, scheme: string, id: nat, users: map<nat, U.User>)
    requires Sound(jwt) && id in users
    requires scheme != [] && NoSpace(scheme)
    ensures Identity(jwt, Some(scheme + " " + jwt.encode(id)), users) == Some(users[id])
  {
    var token := jwt.encode(id);
    SecondWordOfHeader(scheme, token);
  }

  const NotAuthorized := Http.Response(Http.Unauthorized, Http.ErrorMessage("Not Authorized"))

  /** The per-request controller state: the request's header and the memo `@current_user`. */
  class RequestContext {
    const authorization: Option<string>
    var currentUser: Option<U.User>

    constructor (authorization: Option<string>)
      ensures this.authorization == authorization && currentUser == None
    {
      this.authorization := authorization;
      currentUser := None;
    }

    /**
     * `current_user`: nil when the token does not decode; otherwise the memo,
     * filled by the first lookup (`@current_user ||= ...`). Once it holds a
     * user, every later call returns that same user.
     */
    method CurrentUser(jwt: Jwt, users: map<nat, U.User>) returns (u: Option<U.User>)
      modifies this`currentUser
      ensures DecodedToken(jwt, authorization).None? ==> u == None && currentUser == old(currentUser)
      ensures DecodedToken(jwt, authorization).Some? ==>
        && u == (if old(currentUser).Some? then old(currentUser)
                 else FindUser(users, DecodedToken(jwt, authorization).value.userId))
        && currentUser == u
      ensures old(currentUser).None? ==> u == Identity(jwt, authorization, users)
    {
      var claims := DecodedToken(jwt, authorization);
      if claims.None? {
        u := None;
      } else {
        if currentUser.None? {
          currentUser := FindUser(users, claims.value.userId);
        }
        u := currentUser;
      }
    }
  }

  /**
   * `authorize_request`: halts with 401 "Not Authorized" unless `current_user`
   * resolves; the action then runs as the returned caller.
   */
  method AuthorizeRequest(ctx: RequestContext, jwt: Jwt, users: map<nat, U.User>)
    returns (caller: Option<U.User>, halt: Option<Http.Response>)
    requires ctx.currentUser.None?
    modifies ctx`currentUser
    ensures caller == Identity(jwt, ctx.authorization, users)
    ensures halt.Some? <==> caller.None?
    ensures halt.Some? ==> halt.value == NotAuthorized
    ensures caller.Some? ==> ctx.currentUser == caller
  {
    caller := ctx.CurrentUser(jwt, users);
    if caller.None? {
      halt := Some(NotAuthorized);
    } else {
      halt := None;
    }
  }
}
