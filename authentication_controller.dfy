/**
 * Signup and login (both skip the request guard), and the update and
 * destruction of one's own account.
 */
module AuthenticationController {
  import opened Wrappers
  import opened RubyStrings
  import U = UserModel
  import S = Store
  import Http
  import A = ApplicationController

  /** The keys of `params[:user]` the actions read. */
  datatype UserParams = UserParams(
    name: Param<string>, email: Param<string>, password: Param<string>,
    passwordConfirmation: Param<string>, image: Param<U.ImageRef>)

  /**
   * `User.new(user_params)`: name, email, password, confirmation and image are
   * permitted; on a new record a key not sent and a null are both nil.
   */
  function SignupCandidate(p: UserParams, h: U.PasswordHasher): U.Candidate {
    U.Candidate(p.name.ToOption(), p.email.ToOption(),
                U.AssignPassword(p.password, U.Secret(None, None), h),
                p.passwordConfirmation.ToOption())
  }

  /** With a sound hasher, a signup that sends a password never fails for a missing digest. */
  lemma SignupWithPasswordHasDigest(p: UserParams, h: U.PasswordHasher, users: map<nat, U.User>)
    requires U.Sound(h) && p.password.Given? && p.password.value != []
    ensures U.DigestMissing !in U.UserErrors(SignupCandidate(p, h), users, None)
  {
    var c := SignupCandidate(p, h);
    U.AssignedPasswordAuthenticates(p.password.value, U.Secret(None, None), h);
    assert Present(c.secret.digest);
    U.DigestMissingIff(c, users, None);
  }

  /** `user_update_params`: the same keys without email. */
  function UpdateChanges(p: UserParams): U.Changes {
    U.Changes(p.name, p.password, p.passwordConfirmation, p.image)
  }

  /** Whatever email the request carries, the update whitelist yields the same changes. */
  lemma UpdateChangesIgnoreEmail(p: UserParams, e: Param<string>)
    ensures UpdateChanges(p) == UpdateChanges(p.(email := e))
  {
  }

  /** `user_response`: id, name, email and the image URL. */
  function UserResponse(u: U.User): Http.UserView {
    Http.UserView(u.id, u.name, u.email, u.image)
  }

  /** The rendered user does not depend on the password digest, so it never leaks it. */
  lemma UserResponseHidesDigest(u: U.User, d: string)
    ensures UserResponse(u) == UserResponse(u.(passwordDigest := d))
  {
  }

  /** The guard in `update`: a present email that differs from the stored one. */
  predicate EmailChangeAttempted(p: UserParams, u: U.User) {
    p.email.Given? && !Blank(p.email.value) && p.email.value != u.email
  }

  const InvalidCredentials := Http.Response(Http.Unauthorized, Http.ErrorMessage("Invalid credentials"))
  const UserNotFound := Http.Response(Http.NotFound, Http.ErrorMessage("User not found"))
  const UnauthorizedAccess := Http.Response(Http.Unauthorized, Http.ErrorMessage("Unauthorized access"))
  const EmailCannotChange := Http.Response(Http.Unprocessable, Http.ErrorList(["Email can't be updated"]))

  /** `signup`: 201 with the new user and a token for it, or 422 with every validation message. */
  method Signup(db: S.Database, jwt: A.Jwt, h: U.PasswordHasher, p: UserParams) returns (resp: Http.Response)
    requires db.Valid()
    modifies db
    ensures db.Valid()
    ensures var c := SignupCandidate(p, h);
      var errs := U.UserErrors(c, old(db.users), None);
      if errs == [] then
        var u := U.NewUser(old(db.nextUserId), c, p.image.ToOption());
        && resp == Http.Response(Http.Created, Http.UserWithToken(UserResponse(u), jwt.encode(u.id)))
        && u.id !in old(db.users)
        && db.users == old(db.users)[u.id := u]
        && db.posts == old(db.posts) && db.comments == old(db.comments) && db.jobs == old(db.jobs)
      else
        resp == Http.Response(Http.Unprocessable, Http.ErrorList(Http.FullMessages(errs, U.FullMessage)))
        && unchanged(db)
    ensures resp.status == Http.Created && resp.body.UserWithToken? && A.Sound(jwt) ==>
      && resp.body.user.id in db.users
      && A.Identity(jwt, Some("Bearer " + resp.body.token), db.users) == Some(db.users[resp.body.user.id])
    ensures resp.status == Http.Created && U.Sound(h) ==>
      CredentialsMatch(db.users, h, p.email.ToOption(), p.password.ToOption())
  {
    var c := SignupCandidate(p, h);
    U.UserErrorsEmptyIff(c, db.users, None);
    var r := db.CreateUser(c, p.image.ToOption());
    if r.Success? {
      var u := r.value;
      if U.Sound(h) {
        assert u.id in db.users && db.users[u.id] == u;
        assert Some(u.email) == p.email.ToOption();
        U.AssignedPasswordAuthenticates(p.password.value, U.Secret(None, None), h);
        assert h.matches(u.passwordDigest, p.password.ToOption().GetOr(""));
      }
      resp := Http.Response(Http.Created, Http.UserWithToken(UserResponse(u), jwt.encode(u.id)));
      if A.Sound(jwt) {
        A.TokenIdentifiesUser(jwt, "Bearer", u.id, db.users);
        assert "Bearer" + " " + jwt.encode(u.id) == "Bearer " + jwt.encode(u.id);
      }
    } else {
      resp := Http.Response(Http.Unprocessable, Http.ErrorList(Http.FullMessages(r.error, U.FullMessage)));
    }
  }

  /** Whether some stored user has this email and the password matches its digest. */
  ghost predicate CredentialsMatch(users: map<nat, U.User>, h: U.PasswordHasher,
                                   email: Option<string>, password: Option<string>) {
    exists k | k in users :: Some(users[k].email) == email && h.matches(users[k].passwordDigest, password.GetOr(""))
  }

  /**
   * `login`: 200 with the user and a fresh token exactly when the credentials
   * match; otherwise 401 "Invalid credentials", whether the email is unknown
   * or the password is wrong. Nothing is stored.
   */
  method Login(db: S.Database, jwt: A.Jwt, h: U.PasswordHasher, email: Option<string>, password: Option<string>)
    returns (resp: Http.Response)
    requires db.Valid()
    ensures resp.status == Http.Ok <==> CredentialsMatch(db.users, h, email, password)
    ensures resp.status == Http.Ok ==>
      && resp.body.UserWithToken?
      && resp.body.user.id in db.users
      && resp.body.user == UserResponse(db.users[resp.body.user.id])
      && Some(db.users[resp.body.user.id].email) == email
      && resp.body.token == jwt.encode(resp.body.user.id)
    ensures resp.status != Http.Ok ==> resp == InvalidCredentials
    ensures resp.status == Http.Ok && A.Sound(jwt) ==>
      A.Identity(jwt, Some("Bearer " + resp.body.token), db.users) == Some(db.users[resp.body.user.id])
  {
    if email.Some? && exists k | k in db.users :: db.users[k].email == email.value {
      var k :| k in db.users && db.users[k].email == email.value;
      var u := db.users[k];
      if h.matches(u.passwordDigest, password.GetOr("")) {
        resp := Http.Response(Http.Ok, Http.UserWithToken(UserResponse(u), jwt.encode(u.id)));
        if A.Sound(jwt) {
          A.TokenIdentifiesUser(jwt, "Bearer", u.id, db.users);
          assert "Bearer" + " " + jwt.encode(u.id) == "Bearer " + jwt.encode(u.id);
        }
      } else {
        resp := InvalidCredentials;
        forall j | j in db.users && Some(db.users[j].email) == email
          ensures !h.matches(db.users[j].passwordDigest, password.GetOr(""))
        {
          assert j == k;
        }
      }
    } else {
      resp := InvalidCredentials;
    }
  }

  /**
   * `update`: 404 for an unknown id, 401 unless it is the caller's own
   * account, 422 when a different email is sent, and otherwise the result of
   * `update` with the email-less whitelist.
   */
  method Update(db: S.Database, h: U.PasswordHasher, callerId: nat, id: nat, p: UserParams)
    returns (resp: Http.Response)
    requires db.Valid()
    modifies db
    ensures db.Valid()
    ensures id !in old(db.users) ==> resp == UserNotFound && unchanged(db)
    ensures id in old(db.users) && id != callerId ==> resp == UnauthorizedAccess && unchanged(db)
    ensures id in old(db.users) && id == callerId && EmailChangeAttempted(p, old(db.users[id])) ==>
      resp == EmailCannotChange && unchanged(db)
    ensures id in old(db.users) && id == callerId && !EmailChangeAttempted(p, old(db.users[id])) ==>
      var u := old(db.users[id]);
      var errs := U.UserErrors(U.UpdateCandidate(u, UpdateChanges(p), h), old(db.users), Some(u));
      if errs == [] then
        var u' := U.Updated(u, UpdateChanges(p), h);
        && resp == Http.Response(Http.Ok, Http.UserJson(UserResponse(u')))
        && db.users == old(db.users)[id := u']
        && db.posts == old(db.posts) && db.comments == old(db.comments) && db.jobs == old(db.jobs)
      else
        resp == Http.Response(Http.Unprocessable, Http.ErrorList(Http.FullMessages(errs, U.FullMessage)))
        && unchanged(db)
    ensures id in db.users ==> id in old(db.users) && db.users[id].email == old(db.users[id].email)
  {
    if id !in db.users {
      return UserNotFound;
    }
    var u := db.users[id];
    if u.id != callerId {
      return UnauthorizedAccess;
    }
    if EmailChangeAttempted(p, u) {
      return EmailCannotChange;
    }
    var r := db.UpdateUser(id, UpdateChanges(p), h);
    if r.Success? {
      resp := Http.Response(Http.Ok, Http.UserJson(UserResponse(r.value)));
    } else {
      resp := Http.Response(Http.Unprocessable, Http.ErrorList(Http.FullMessages(r.error, U.FullMessage)));
    }
  }

  /** `destroy`: 404, 401 unless it is the caller's own account, else 204 and the cascade. */
  method Destroy(db: S.Database, callerId: nat, id: nat) returns (resp: Http.Response)
    requires db.Valid()
    modifies db
    ensures db.Valid()
    ensures id !in old(db.users) ==> resp == UserNotFound && unchanged(db)
    ensures id in old(db.users) && id != callerId ==> resp == UnauthorizedAccess && unchanged(db)
    ensures id in old(db.users) && id == callerId ==>
      && resp == Http.Response(Http.NoContent, Http.NoBody)
      && db.Snapshot() == S.WithoutUser(old(db.Snapshot()), id)
      && db.jobs == old(db.jobs)
  {
    if id !in db.users {
      return UserNotFound;
    }
    if db.users[id].id != callerId {
      return UnauthorizedAccess;
    }
    db.DestroyUser(id);
    resp := Http.Response(Http.NoContent, Http.NoBody);
  }
}
