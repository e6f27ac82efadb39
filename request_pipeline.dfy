/**
 * One request: the `authorize_request` filter (skipped by signup and login)
 * followed by the routed action. The actions that change or remove a
 * resource succeed only for the resource's owner.
 */
module RequestPipeline {
  import opened Wrappers
  import U = UserModel
  import S = Store
  import Http
  import A = ApplicationController
  import Auth = AuthenticationController
  import PC = PostsController
  import CC = CommentsController

  /** The routed actions with their path and body parameters. */
  datatype Action =
    | Signup(user: Auth.UserParams)
    | Login(email: Option<string>, password: Option<string>)
    | UpdateUser(id: nat, user: Auth.UserParams)
    | DestroyUser(id: nat)
    | ListPosts
    | ShowPost(id: nat)
    | CreatePost(post: PC.PostRequest)
    | UpdatePost(id: nat, post: PC.PostRequest)
    | DestroyPost(id: nat)
    | ListComments(postId: nat)
    | CreateComment(postId: nat, comment: CC.CommentRequest)
    | UpdateComment(postId: nat, id: nat, comment: CC.CommentRequest)
    | DestroyComment(postId: nat, id: nat)

  /** `skip_before_action :authorize_request, only: [:login, :signup]`. */
  predicate SkipsAuthorization(a: Action) {
    a.Signup? || a.Login?
  }

  /** The resource an action changes or removes belongs to `callerId` in `t`. */
  ghost predicate OwnedBy(a: Action, callerId: nat, t: S.Tables) {
    match a
    case UpdateUser(id, _) => id == callerId
    case DestroyUser(id) => id == callerId
    case UpdatePost(id, _) => id in t.posts && t.posts[id].userId == callerId
    case DestroyPost(id) => id in t.posts && t.posts[id].userId == callerId
    case UpdateComment(_, id, _) => id in t.comments && t.comments[id].userId == callerId
    case DestroyComment(_, id) => id in t.comments && t.comments[id].userId == callerId
    case _ => true
  }

  /** Whether an action may change the tables at all. */
  predicate Mutates(a: Action) {
    !(a.Login? || a.ListPosts? || a.ShowPost? || a.ListComments?)
  }

  /**
   * A request: without a decodable token for a stored user, every guarded
   * action answers 401 "Not Authorized" and changes nothing; a guarded action
   * that succeeds acts on the caller's own resource, and a post or comment it
   * creates belongs to the caller.
   */
  method Handle(db: S.Database, ctx: A.RequestContext, jwt: A.Jwt, h: U.PasswordHasher, action: Action, now: int)
    returns (resp: Http.Response)
    requires db.Valid() && ctx.currentUser.None?
    modifies db, ctx`currentUser
    ensures db.Valid()
    ensures SkipsAuthorization(action) ==> ctx.currentUser.None?
    ensures !SkipsAuthorization(action) && A.Identity(jwt, ctx.authorization, old(db.users)).None? ==>
      resp == A.NotAuthorized && unchanged(db)
    ensures !SkipsAuthorization(action) && resp.status.Succeeded() ==>
      && A.Identity(jwt, ctx.authorization, old(db.users)).Some?
      && OwnedBy(action, A.Identity(jwt, ctx.authorization, old(db.users)).value.id, old(db.Snapshot()))
    ensures action.CreatePost? && resp.status == Http.Created ==>
      && A.Identity(jwt, ctx.authorization, old(db.users)).Some?
      && resp.body.PostJson?
      && resp.body.post.userId == A.Identity(jwt, ctx.authorization, old(db.users)).value.id
    ensures action.CreateComment? && resp.status == Http.Created ==>
      && A.Identity(jwt, ctx.authorization, old(db.users)).Some?
      && resp.body.CommentJson?
      && resp.body.comment.userId == A.Identity(jwt, ctx.authorization, old(db.users)).value.id
      && resp.body.comment.postId == action.postId
    ensures !Mutates(action) ==> unchanged(db)
  {
    if action.Signup? {
      resp := Auth.Signup(db, jwt, h, action.user);
      return;
    }
    if action.Login? {
      resp := Auth.Login(db, jwt, h, action.email, action.password);
      return;
    }
    var caller, halt := A.AuthorizeRequest(ctx, jwt, db.users);
    if halt.Some? {
      return halt.value;
    }
    if action.UpdateUser? || action.DestroyUser? {
      resp := ChangeUser(db, h, caller.value, action);
      return;
    }
    // the post and comment actions call `current_user` again and get the memo back
    assert A.DecodedToken(jwt, ctx.authorization).Some?;
    var u := ctx.CurrentUser(jwt, db.users);
    assert u == caller;
    if !Mutates(action) {
      resp := Read(db, action);
    } else if action.CreatePost? || action.CreateComment? {
      resp := Create(db, u.value, action, now);
    } else if action.UpdatePost? || action.DestroyPost? {
      resp := ChangePost(db, u.value, action);
    } else {
      resp := ChangeComment(db, u.value, action);
    }
  }

  /** The read actions: every post, one post, or one post's comments. */
  method Read(db: S.Database, action: Action) returns (resp: Http.Response)
    requires db.Valid() && !Mutates(action) && !action.Login?
  {
    if action.ListPosts? {
      resp := PC.Index(db);
    } else if action.ShowPost? {
      resp := PC.Show(db, action.id);
    } else {
      resp := CC.Index(db, action.postId);
    }
  }

  /** `posts#create` and `comments#create`, as the caller. */
  method Create(db: S.Database, caller: U.User, action: Action, now: int) returns (resp: Http.Response)
    requires db.Valid() && caller.id in db.users && (action.CreatePost? || action.CreateComment?)
    modifies db
    ensures db.Valid()
    ensures action.CreatePost? && resp.status == Http.Created ==>
      resp.body.PostJson? && resp.body.post.userId == caller.id
    ensures action.CreateComment? && resp.status == Http.Created ==>
      resp.body.CommentJson? && resp.body.comment.userId == caller.id && resp.body.comment.postId == action.postId
  {
    if action.CreatePost? {
      resp := PC.Create(db, caller.id, action.post, now);
    } else {
      resp := CC.Create(db, caller.id, action.postId, action.comment);
    }
  }

  /** `authentication#update` and `authentication#destroy`, which act as the memo `@current_user`. */
  method ChangeUser(db: S.Database, h: U.PasswordHasher, caller: U.User, action: Action)
    returns (resp: Http.Response)
    requires db.Valid() && caller.id in db.users && db.users[caller.id] == caller
    requires action.UpdateUser? || action.DestroyUser?
    modifies db
    ensures db.Valid()
    ensures resp.status.Succeeded() ==> OwnedBy(action, caller.id, old(db.Snapshot()))
  {
    if action.UpdateUser? {
      resp := Auth.Update(db, h, caller.id, action.id, action.user);
    } else {
      resp := Auth.Destroy(db, caller.id, action.id);
    }
  }

  /** `posts#update` and `posts#destroy`, as the caller. */
  method ChangePost(db: S.Database, caller: U.User, action: Action)
    returns (resp: Http.Response)
    requires db.Valid() && (action.UpdatePost? || action.DestroyPost?)
    modifies db
    ensures db.Valid()
    ensures resp.status.Succeeded() ==> OwnedBy(action, caller.id, old(db.Snapshot()))
  {
    if action.UpdatePost? {
      resp := PC.Update(db, caller.id, action.id, action.post);
    } else {
      resp := PC.Destroy(db, caller.id, action.id);
    }
  }

  /** `comments#update` and `comments#destroy`, as the caller. */
  method ChangeComment(db: S.Database, caller: U.User, action: Action)
    returns (resp: Http.Response)
    requires db.Valid() && (action.UpdateComment? || action.DestroyComment?)
    modifies db
    ensures db.Valid()
    ensures resp.status.Succeeded() ==> OwnedBy(action, caller.id, old(db.Snapshot()))
  {
    if action.UpdateComment? {
      resp := CC.Update(db, caller.id, action.id, action.comment);
    } else {
      resp := CC.Destroy(db, caller.id, action.id);
    }
  }
}
