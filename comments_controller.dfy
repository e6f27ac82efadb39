/**
 * The comments nested under a post. Listing and creating look the post up
 * first (404 when it is missing); updating and destroying look the comment up
 * by its own id only, so the post id in the route plays no part.
 */
module CommentsController {
  import opened Wrappers
  import C = CommentModel
  import S = Store
  import Http

  /** The keys a client may send under `params[:comment]`. */
  datatype CommentRequest = CommentRequest(body: Param<string>, postId: Param<nat>, userId: Param<nat>)

  /** `comment_params`: only body is permitted. */
  function CommentParams(r: CommentRequest): C.CommentInput {
    C.CommentInput(r.body)
  }

  /** Whatever post or author the request names, the whitelist yields the same attributes. */
  lemma CommentParamsIgnoreOwnerAndPost(r: CommentRequest, p: Param<nat>, u: Param<nat>)
    ensures CommentParams(r) == CommentParams(r.(postId := p, userId := u))
  {
  }

  /** `post.comments`: the comments whose post is `postId`. */
  function CommentsOf(comments: map<nat, C.Comment>, postId: nat): map<nat, C.Comment> {
    map k | k in comments && comments[k].postId == postId :: comments[k]
  }

  /** Every comment is listed under its own post and under no other. */
  lemma CommentListedUnderItsPostOnly(comments: map<nat, C.Comment>, k: nat, q: nat)
    requires k in comments
    ensures k in CommentsOf(comments, comments[k].postId)
    ensures k in CommentsOf(comments, q) ==> q == comments[k].postId
  {
  }

  const NotFound := Http.Response(Http.NotFound, Http.NoBody)
  const NotAuthorizedToUpdate := Http.Response(Http.Unauthorized, Http.ErrorMessage("Not authorized to update this comment"))
  const NotAuthorizedToDelete := Http.Response(Http.Unauthorized, Http.ErrorMessage("Not authorized to delete this comment"))

  /** `index`: 404 for a missing post, else exactly that post's comments. */
  method Index(db: S.Database, postId: nat) returns (resp: Http.Response)
    ensures postId !in db.posts ==> resp == NotFound
    ensures postId in db.posts ==> resp.status == Http.Ok && resp.body.CommentsJson?
    ensures postId in db.posts ==>
      forall k :: k in resp.body.comments <==> k in db.comments && db.comments[k].postId == postId
    ensures postId in db.posts ==> forall k | k in resp.body.comments :: resp.body.comments[k] == db.comments[k]
  {
    if postId !in db.posts {
      return NotFound;
    }
    resp := Http.Response(Http.Ok, Http.CommentsJson(CommentsOf(db.comments, postId)));
  }

  /** `create`: 404, then a comment on that post by the caller, 201 or 422. */
  method Create(db: S.Database, callerId: nat, postId: nat, req: CommentRequest) returns (resp: Http.Response)
    requires db.Valid() && callerId in db.users
    modifies db
    ensures db.Valid()
    ensures postId !in old(db.posts) ==> resp == NotFound && unchanged(db)
    ensures postId in old(db.posts) ==>
      var a := C.Built(CommentParams(req));
      var errs := C.CommentErrors(a);
      if errs == [] then
        var c := C.Comment(old(db.nextCommentId), postId, callerId, a.body.value);
        && resp == Http.Response(Http.Created, Http.CommentJson(c))
        && c.id !in old(db.comments)
        && db.comments == old(db.comments)[c.id := c]
        && db.users == old(db.users) && db.posts == old(db.posts) && db.jobs == old(db.jobs)
      else
        resp == Http.Response(Http.Unprocessable, Http.ErrorList(Http.FullMessages(errs, C.FullMessage)))
        && unchanged(db)
    ensures resp.status == Http.Created ==>
      resp.body.CommentJson? && resp.body.comment.postId == postId && resp.body.comment.userId == callerId
  {
    if postId !in db.posts {
      return NotFound;
    }
    var r := db.CreateComment(postId, callerId, C.Built(CommentParams(req)));
    if r.Success? {
      resp := Http.Response(Http.Created, Http.CommentJson(r.value));
    } else {
      resp := Http.Response(Http.Unprocessable, Http.ErrorList(Http.FullMessages(r.error, C.FullMessage)));
    }
  }

  /** `update`: 404, then 401 unless the caller wrote the comment, then the result of `update`. */
  method Update(db: S.Database, callerId: nat, id: nat, req: CommentRequest) returns (resp: Http.Response)
    requires db.Valid()
    modifies db
    ensures db.Valid()
    ensures id !in old(db.comments) ==> resp == NotFound && unchanged(db)
    ensures id in old(db.comments) && old(db.comments[id].userId) != callerId ==>
      resp == NotAuthorizedToUpdate && unchanged(db)
    ensures id in old(db.comments) && old(db.comments[id].userId) == callerId ==>
      var c := old(db.comments[id]);
      var merged := C.Assign(c, CommentParams(req));
      var errs := C.CommentErrors(merged);
      if errs == [] then
        var c' := c.(body := merged.body.value);
        && resp == Http.Response(Http.Ok, Http.CommentJson(c'))
        && db.comments == old(db.comments)[id := c']
        && db.users == old(db.users) && db.posts == old(db.posts) && db.jobs == old(db.jobs)
      else
        resp == Http.Response(Http.Unprocessable, Http.ErrorList(Http.FullMessages(errs, C.FullMessage)))
        && unchanged(db)
  {
    if id !in db.comments {
      return NotFound;
    }
    if db.comments[id].userId != callerId {
      return NotAuthorizedToUpdate;
    }
    var r := db.UpdateComment(id, CommentParams(req));
    if r.Success? {
      resp := Http.Response(Http.Ok, Http.CommentJson(r.value));
    } else {
      resp := Http.Response(Http.Unprocessable, Http.ErrorList(Http.FullMessages(r.error, C.FullMessage)));
    }
  }

  /** `destroy`: 404, then 401 unless the caller wrote the comment, then 204. */
  method Destroy(db: S.Database, callerId: nat, id: nat) returns (resp: Http.Response)
    requires db.Valid()
    modifies db
    ensures db.Valid()
    ensures id !in old(db.comments) ==> resp == NotFound && unchanged(db)
    ensures id in old(db.comments) && old(db.comments[id].userId) != callerId ==>
      resp == NotAuthorizedToDelete && unchanged(db)
    ensures id in old(db.comments) && old(db.comments[id].userId) == callerId ==>
      && resp == Http.Response(Http.NoContent, Http.NoBody)
      && db.comments == old(db.comments) - {id}
      && db.users == old(db.users) && db.posts == old(db.posts) && db.jobs == old(db.jobs)
  {
    if id !in db.comments {
      return NotFound;
    }
    if db.comments[id].userId != callerId {
      return NotAuthorizedToDelete;
    }
    db.DestroyComment(id);
    resp := Http.Response(Http.NoContent, Http.NoBody);
  }
}
