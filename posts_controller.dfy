/**
 * The post resource. Reading is open to every authenticated caller; only a
 * post's author may change or destroy it. A missing post raises
 * `RecordNotFound`, which the framework renders as 404 before any ownership
 * check.
 */
module PostsController {
  import opened Wrappers
  import P = PostModel
  import S = Store
  import Http

  /** The keys a client may send under `params[:post]`, including an owner it has no say over. */
  datatype PostRequest = PostRequest(title: Param<string>, body: Param<string>, tags: Param<string>, userId: Param<nat>)

  /** `post_params`: only title, body and tags are permitted. */
  function PostParams(r: PostRequest): P.PostInput {
    P.PostInput(r.title, r.body, r.tags)
  }

  /** Whatever owner the request names, the whitelist yields the same attributes. */
  lemma PostParamsIgnoreOwner(r: PostRequest, x: Param<nat>)
    ensures PostParams(r) == PostParams(r.(userId := x))
  {
  }

  const PostNotFound := Http.Response(Http.NotFound, Http.NoBody)
  const NotAuthorizedToUpdate := Http.Response(Http.Unauthorized, Http.ErrorMessage("Not authorized to update this post"))
  const NotAuthorizedToDelete := Http.Response(Http.Unauthorized, Http.ErrorMessage("Not authorized to delete this post"))

  /** `index`: every post, whoever wrote it. */
  method Index(db: S.Database) returns (resp: Http.Response)
    ensures resp.status == Http.Ok && resp.body.PostsJson?
    ensures resp.body.posts.Keys == db.posts.Keys
    ensures forall k | k in db.posts :: resp.body.posts[k] == db.posts[k]
  {
    resp := Http.Response(Http.Ok, Http.PostsJson(db.posts));
  }

  /** `show`: the post, or 404. */
  method Show(db: S.Database, id: nat) returns (resp: Http.Response)
    ensures id in db.posts <==> resp.status == Http.Ok
    ensures id in db.posts ==> resp.body == Http.PostJson(db.posts[id])
    ensures id !in db.posts ==> resp == PostNotFound
  {
    if id in db.posts {
      resp := Http.Response(Http.Ok, Http.PostJson(db.posts[id]));
    } else {
      resp := PostNotFound;
    }
  }

  /**
   * `create`: the post belongs to the caller whatever the request says; 201
   * and a deletion job a day later, or 422 with every validation message.
   */
  method Create(db: S.Database, callerId: nat, req: PostRequest, now: int) returns (resp: Http.Response)
    requires db.Valid()
    modifies db
    ensures db.Valid()
    ensures var a := P.Built(PostParams(req));
      var errs := P.PostErrors(a, callerId in old(db.users));
      if errs == [] then
        var p := P.Row(old(db.nextPostId), callerId, a, now);
        && resp == Http.Response(Http.Created, Http.PostJson(p))
        && p.id !in old(db.posts)
        && db.posts == old(db.posts)[p.id := p]
        && db.jobs == old(db.jobs) + [P.Job(p.id, now + P.DeletionDelay)]
        && db.users == old(db.users) && db.comments == old(db.comments)
      else
        resp == Http.Response(Http.Unprocessable, Http.ErrorList(Http.FullMessages(errs, P.FullMessage)))
        && unchanged(db)
    ensures resp.status == Http.Created ==> resp.body.PostJson? && resp.body.post.userId == callerId
  {
    var r := db.CreatePost(callerId, P.Built(PostParams(req)), now);
    if r.Success? {
      resp := Http.Response(Http.Created, Http.PostJson(r.value));
    } else {
      resp := Http.Response(Http.Unprocessable, Http.ErrorList(Http.FullMessages(r.error, P.FullMessage)));
    }
  }

  /** `update`: 404, then 401 unless the caller wrote the post, then the result of `update`. */
  method Update(db: S.Database, callerId: nat, id: nat, req: PostRequest) returns (resp: Http.Response)
    requires db.Valid()
    modifies db
    ensures db.Valid()
    ensures id !in old(db.posts) ==> resp == PostNotFound && unchanged(db)
    ensures id in old(db.posts) && old(db.posts[id].userId) != callerId ==>
      resp == NotAuthorizedToUpdate && unchanged(db)
    ensures id in old(db.posts) && old(db.posts[id].userId) == callerId ==>
      var p := old(db.posts[id]);
      var merged := P.Assign(p, PostParams(req));
      var errs := P.PostErrors(merged, p.userId in old(db.users));
      if errs == [] then
        var p' := P.Row(id, p.userId, merged, p.createdAt);
        && resp == Http.Response(Http.Ok, Http.PostJson(p'))
        && db.posts == old(db.posts)[id := p']
        && db.users == old(db.users) && db.comments == old(db.comments) && db.jobs == old(db.jobs)
      else
        resp == Http.Response(Http.Unprocessable, Http.ErrorList(Http.FullMessages(errs, P.FullMessage)))
        && unchanged(db)
    ensures id in db.posts ==>
      && id in old(db.posts)
      && db.posts[id].userId == old(db.posts[id].userId) && db.posts[id].createdAt == old(db.posts[id].createdAt)
  {
    if id !in db.posts {
      return PostNotFound;
    }
    if db.posts[id].userId != callerId {
      return NotAuthorizedToUpdate;
    }
    var r := db.UpdatePost(id, PostParams(req));
    if r.Success? {
      resp := Http.Response(Http.Ok, Http.PostJson(r.value));
    } else {
      resp := Http.Response(Http.Unprocessable, Http.ErrorList(Http.FullMessages(r.error, P.FullMessage)));
    }
  }

  /** `destroy`: 404, then 401 unless the caller wrote the post, then 204 and the cascade to its comments. */
  method Destroy(db: S.Database, callerId: nat, id: nat) returns (resp: Http.Response)
    requires db.Valid()
    modifies db
    ensures db.Valid()
    ensures id !in old(db.posts) ==> resp == PostNotFound && unchanged(db)
    ensures id in old(db.posts) && old(db.posts[id].userId) != callerId ==>
      resp == NotAuthorizedToDelete && unchanged(db)
    ensures id in old(db.posts) && old(db.posts[id].userId) == callerId ==>
      && resp == Http.Response(Http.NoContent, Http.NoBody)
      && db.Snapshot() == S.WithoutPost(old(db.Snapshot()), id)
      && db.jobs == old(db.jobs)
  {
    if id !in db.posts {
      return PostNotFound;
    }
    if db.posts[id].userId != callerId {
      return NotAuthorizedToDelete;
    }
    db.DestroyPost(id);
    resp := Http.Response(Http.NoContent, Http.NoBody);
  }
}
