/**
 * The `Post` model: the stored record, its presence and tag validations, and
 * the deletion job `after_create_commit` schedules.
 */
module PostModel {
  import opened Wrappers
  import opened RubyStrings

  /** `24.hours`, in seconds. */
  const DeletionDelay := 86400

  /** The attributes of a post as validation sees them; None is nil. */
  datatype PostAttrs = PostAttrs(title: Option<string>, body: Option<string>, tags: Option<string>)

  /** The permitted parameters `post_params` yields. */
  datatype PostInput = PostInput(title: Param<string>, body: Param<string>, tags: Param<string>)

  /** A stored post row; `createdAt` is in seconds. */
  datatype Post = Post(id: nat, userId: nat, title: string, body: string, tags: string, createdAt: int)

  /** A pending `PostDeleteWorker` job: run `perform(postId)` at or after `runAt`. */
  datatype Job = Job(postId: nat, runAt: int)

  /** One validation error, in the order the validations are declared. */
  datatype PostError = UserMissing | TitleBlank | BodyBlank | TagsBlank | NoTag

  /** `errors.full_messages` for one error. */
  function FullMessage(e: PostError): string {
    match e
    case UserMissing => "User must exist"
    case TitleBlank => "Title can't be blank"
    case BodyBlank => "Body can't be blank"
    case TagsBlank => "Tags can't be blank"
    case NoTag => "Tags must have at least one tag"
  }

  /** `must_have_at_least_one_tag`: tags are not blank and `tags.split(',')` is not empty. */
  predicate HasAtLeastOneTag(tags: Option<string>) {
    !(tags.None? || Blank(tags.value) || |Split(tags.value, ',')| < 1)
  }

  /** The tag rule rejects exactly the blank tag strings and those made only of commas. */
  lemma TagRuleIff(tags: Option<string>)
    ensures HasAtLeastOneTag(tags) <==>
      tags.Some? && !Blank(tags.value) && exists i | 0 <= i < |tags.value| :: tags.value[i] != ','
  {
    if tags.Some? {
      SplitEmptyIff(tags.value, ',');
    }
  }

  /** Space separated tags count as a single tag, which is enough. */
  lemma SpaceSeparatedTagsAccepted()
    ensures Split("tag1 tag2", ',') == ["tag1 tag2"]
    ensures HasAtLeastOneTag(Some("tag1 tag2"))
  {
    var s := "tag1 tag2";
    assert forall i | 0 <= i < |s| :: s[i] != ',';
    SplitWithoutSeparator(s, ',');
    assert !IsSpace(s[0]);
  }

  /** Only commas is rejected even though the string is not blank. */
  lemma OnlyCommasRejected()
    ensures !Blank(",,,") && !HasAtLeastOneTag(Some(",,,"))
  {
    var s := ",,,";
    assert !IsSpace(s[0]);
    assert forall i | 0 <= i < |s| :: s[i] == ',';
    TagRuleIff(Some(s));
  }

  /** The validations of post.rb, preceded by the `belongs_to :user` existence check. */
  function PostErrors(a: PostAttrs, userExists: bool): seq<PostError> {
    (if !userExists then [UserMissing] else [])
    + (if !Present(a.title) then [TitleBlank] else [])
    + (if !Present(a.body) then [BodyBlank] else [])
    + (if !Present(a.tags) then [TagsBlank] else [])
    + (if !HasAtLeastOneTag(a.tags) then [NoTag] else [])
  }

  /** A post is valid exactly when it has an owner, non-blank title and body, and tags with a non-comma character that are not blank. */
  lemma PostErrorsEmptyIff(a: PostAttrs, userExists: bool)
    ensures PostErrors(a, userExists) == [] <==>
      && userExists && Present(a.title) && Present(a.body)
      && a.tags.Some? && !Blank(a.tags.value)
      && exists i | 0 <= i < |a.tags.value| :: a.tags.value[i] != ','
  {
    TagRuleIff(a.tags);
  }

  /** The stored attributes of a post. */
  function AttrsOf(p: Post): PostAttrs {
    PostAttrs(Some(p.title), Some(p.body), Some(p.tags))
  }

  /** `build(post_params)`: a key not sent and a null are both nil on a new record. */
  function Built(i: PostInput): PostAttrs {
    PostAttrs(i.title.ToOption(), i.body.ToOption(), i.tags.ToOption())
  }

  /** `assign_attributes(post_params)` on a stored post: absent keys keep, nulls clear. */
  function Assign(p: Post, i: PostInput): PostAttrs {
    PostAttrs(i.title.Apply(Some(p.title)), i.body.Apply(Some(p.body)), i.tags.Apply(Some(p.tags)))
  }

  /** The row of a post whose attributes passed validation. */
  function Row(id: nat, userId: nat, a: PostAttrs, createdAt: int): Post {
    Post(id, userId, a.title.GetOr(""), a.body.GetOr(""), a.tags.GetOr(""), createdAt)
  }

  /**
   * `schedule_deletion`: `PostDeleteWorker.perform_in(24.hours, id)` right
   * after the creating commit, whose instant the model takes to be `createdAt`.
   */
  function DeletionJob(p: Post): Job {
    Job(p.id, p.createdAt + DeletionDelay)
  }

  /** A row built from attributes that passed validation stores exactly those attributes. */
  lemma RowOfValidAttrs(id: nat, userId: nat, a: PostAttrs, createdAt: int)
    requires PostErrors(a, true) == []
    ensures AttrsOf(Row(id, userId, a, createdAt)) == a
  {
  }

  /** An update that sends none of the keys leaves the row exactly as it was. */
  lemma AssignNothingKeepsPost(p: Post)
    ensures Row(p.id, p.userId, Assign(p, PostInput(Absent, Absent, Absent)), p.createdAt) == p
  {
  }

  /** Sending the same update twice has the effect of sending it once. */
  lemma AssignIdempotent(p: Post, i: PostInput)
    ensures Assign(Row(p.id, p.userId, Assign(p, i), p.createdAt), i) == Assign(p, i)
  {
  }

  /** A field sent as null is assigned and fails its presence rule. */
  lemma NullFieldRejected(p: Post, i: PostInput, userExists: bool)
    requires i.title.Null? || i.body.Null? || i.tags.Null?
    ensures PostErrors(Assign(p, i), userExists) != []
  {
  }
}
