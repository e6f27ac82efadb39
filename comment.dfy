/** The `Comment` model: a body written by a user on a post. */
module CommentModel {
  import opened Wrappers
  import opened RubyStrings

  /** The attributes of a comment as validation sees them; None is nil. */
  datatype CommentAttrs = CommentAttrs(body: Option<string>)

  /** The permitted parameters `comment_params` yields. */
  datatype CommentInput = CommentInput(body: Param<string>)

  /** A stored comment row. */
  datatype Comment = Comment(id: nat, postId: nat, userId: nat, body: string)

  datatype CommentError = BodyBlank

  function FullMessage(e: CommentError): string {
    "Body can't be blank"
  }

  /** The one validation known of comments: the body must be present. */
  function CommentErrors(a: CommentAttrs): seq<CommentError> {
    if Present(a.body) then [] else [BodyBlank]
  }

  /** `post.comments.build(comment_params)`: a missing and a null body are both nil. */
  function Built(i: CommentInput): CommentAttrs {
    CommentAttrs(i.body.ToOption())
  }

  /** `assign_attributes(comment_params)` on a stored comment. */
  function Assign(c: Comment, i: CommentInput): CommentAttrs {
    CommentAttrs(i.body.Apply(Some(c.body)))
  }

  /** A body sent blank or null is rejected, on create and on update. */
  lemma BlankBodyRejected(c: Comment, i: CommentInput)
    requires i.body.Null? || (i.body.Given? && Blank(i.body.value))
    ensures CommentErrors(Built(i)) == [BodyBlank] && CommentErrors(Assign(c, i)) == [BodyBlank]
  {
  }

  /** An update without a body keeps the stored one, which is present in any stored comment. */
  lemma AbsentBodyKeepsComment(c: Comment)
    requires Present(Some(c.body))
    ensures Assign(c, CommentInput(Absent)) == CommentAttrs(Some(c.body))
    ensures CommentErrors(Assign(c, CommentInput(Absent))) == []
  {
  }
}
