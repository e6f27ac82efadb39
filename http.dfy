/** What a controller action renders: a status and a JSON body. */
module Http {
  import opened Wrappers
  import U = UserModel
  import P = PostModel
  import C = CommentModel

  datatype Status = Ok | Created | NoContent | NotFound | Unauthorized | Unprocessable {
    function Code(): int {
      match this
      case Ok => 200
      case Created => 201
      case NoContent => 204
      case NotFound => 404
      case Unauthorized => 401
      case Unprocessable => 422
    }

    predicate Succeeded() {
      this == Ok || this == Created || this == NoContent
    }
  }

  /** `user_response`: id, name, email and the image URL; never the password or its digest. */
  datatype UserView = UserView(id: nat, name: string, email: string, imageUrl: Option<U.ImageRef>)

  datatype Body =
    | NoBody                                          // `head :no_content`, or a framework-rendered 404
    | ErrorMessage(error: string)                     // { error: "..." }
    | ErrorList(errors: seq<string>)                  // { error: [...] }
    | UserJson(user: UserView)                        // { user: ... }
    | UserWithToken(user: UserView, token: string)    // { user: ..., token: ... }
    | PostJson(post: P.Post)
    | PostsJson(posts: map<nat, P.Post>)              // every row; the query has no ORDER BY
    | CommentJson(comment: C.Comment)
    | CommentsJson(comments: map<nat, C.Comment>)

  datatype Response = Response(status: Status, body: Body)

  /** `errors.full_messages`: one message per error, in the errors' order. */
  function FullMessages<E>(errs: seq<E>, message: E -> string): seq<string> {
    if errs == [] then [] else [message(errs[0])] + FullMessages(errs[1..], message)
  }

  /** There is a message exactly where there is an error, and it is that error's message. */
  lemma {:induction false} FullMessagesPointwise<E>(errs: seq<E>, message: E -> string)
    ensures |FullMessages(errs, message)| == |errs|
    ensures forall i | 0 <= i < |errs| :: FullMessages(errs, message)[i] == message(errs[i])
  {
    if errs != [] {
      FullMessagesPointwise(errs[1..], message);
    }
  }

  /** The messages of two error lists, one after the other, are those of the joined list. */
  lemma {:induction false} FullMessagesAppend<E>(a: seq<E>, b: seq<E>, message: E -> string)
    ensures FullMessages(a + b, message) == FullMessages(a, message) + FullMessages(b, message)
  {
    if a == [] {
      assert a + b == b;
    } else {
      assert (a + b)[1..] == a[1..] + b;
      FullMessagesAppend(a[1..], b, message);
    }
  }
}
