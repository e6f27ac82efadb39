# Blog backend: a verified model

A Dafny model of the core of a Rails blog API. In that API:

- users sign up and log in, and get a bearer token;
- authenticated callers create posts, and comment on any post;
- only the owner of a user account, post or comment may change or delete it;
- every post is deleted by a background job once it is more than a day old.

The database, the framework and the job queue are replaced by an explicit
in-memory store: `Store.Database` holds the three tables as maps from id to
row, the queue of pending deletion jobs, and the id sequences.

Modules, from the bottom up:

- `Wrappers`: `Option`, `Result`, and `Param`, a request parameter that is
  either absent, sent as null, or sent with a value. On a new record an
  absent key and a null both leave the attribute nil (`Param.ToOption`). On
  a stored record an absent key keeps the attribute and a null clears it
  (`Param.Apply`).
- `RubyStrings`: Ruby's `blank?`/`present?`, the awk-style `split(' ')` and
  `split(',')`. The last one drops trailing empty fields.
- `UserModel`, `PostModel`, `CommentModel`: the rows and their validations,
  written as pure functions that return the list of errors.
  - The email format is a character-level predicate, proved equivalent to a
    full match of the model's regular expression.
- `Store`: the tables, their integrity invariant (`Store.Database.Valid`) and
  the cascades of `dependent: :destroy`, written as pure functions
  (`WithoutUser`, `WithoutPost`). Also the save, update and destroy
  operations of each model.
- `Http`: statuses and response bodies.
- `ApplicationController`: the token parse, `current_user` with its memo, and
  the `authorize_request` guard.
- `AuthenticationController`, `PostsController`, `CommentsController`: one
  method per action. Each checks existence, then ownership, then (for a user
  update) the email rule, then validation. Every 404, 401 and 422 leaves the
  store unchanged.
- `PostDeleteWorker`: the age-gated deletion and its idempotence.
- `RequestPipeline`: the guard followed by the routed action. It proves that
  a guarded action that succeeds acts on the caller's own resource.

Collaborators that cannot be modelled are parameters:

- JWT signing is a pair of functions `ApplicationController.Jwt`. The round
  trip is the predicate `ApplicationController.Sound`, which the lemmas that
  need it require.
- bcrypt is `UserModel.PasswordHasher`. The lemmas about logging in after a
  signup or update require `UserModel.Sound`: a digest authenticates the
  password it was made from, and is never blank.
- The clock is an integer `now`, in seconds.
- An attached image is an opaque `UserModel.ImageRef`.

Some consequences of the code as written are worth knowing:

- A profile update that sends no password fails with "Password can't be
  blank". The password presence rule has no `on:` qualifier. The virtual
  password attribute is nil unless the request assigns it.
  `UserModel.UpdateWithoutPasswordRejected` states this.
- `email_unchanged` can never fire through the API, because the update
  whitelist has no email. The controller's own check answers first
  (`UserModel.UpdateNeverChangesEmail`).
- Tags `", ,"` are accepted: the split yields a field made of a space. Only
  tags made entirely of commas, and blank tags, are rejected
  (`PostModel.TagRuleIff`).
- The worker compares strictly. A job run at exactly `createdAt + 86400`
  keeps the post (`PostDeleteWorker.RunAtOneDayKeepsPost`); a run at any
  later instant removes it (`PostDeleteWorker.LateRunDeletesPost`).
- A profile update that sends a null password clears the digest as well, and
  fails the digest check too (`UserModel.NullPasswordClearsDigest`).
- `update` and `destroy` of comments look the comment up by its own id. The
  post id in the route plays no part.

## Model

| member | source | states |
|---|---|---|
| RubyStrings.Words | app/controllers/application_controller.rb:7 | `split(' ')` yields non-empty words without white space |
| RubyStrings.WordsOfJoin | app/controllers/application_controller.rb:7 | splitting words joined by single spaces gives back exactly those words |
| RubyStrings.SecondWordOfHeader | app/controllers/application_controller.rb:7 | for a header `<scheme> <token>`, word 1 is the token whatever the scheme |
| RubyStrings.JoinFields | app/models/post.rb:15 | the comma fields of a string joined by commas give back the string |
| RubyStrings.DropTrailingEmpty | app/models/post.rb:15 | Ruby's `split` drops only trailing empty fields: the result is a prefix, ends non-empty, and everything dropped is empty |
| RubyStrings.SplitWithoutSeparator | app/models/post.rb:15 | a non-empty string without a comma splits into itself alone |
| RubyStrings.SplitEmptyIff | app/models/post.rb:15 | `split(',')` is empty exactly when the string consists only of commas |
| UserModel.ValidEmailIffRegex | app/models/user.rb:10 | the email check accepts exactly the strings the anchored regex matches |
| UserModel.ValidEmailHasOneAt | app/models/user.rb:10 | an accepted email has exactly one `@` |
| UserModel.ValidEmailEndsInLetters | app/models/user.rb:10 | an accepted email ends in `.` followed by one or more letters |
| UserModel.InvalidEmailRejected | app/models/user.rb:10 | `"invalidemail"` is rejected |
| UserModel.PlainEmailAccepted | app/models/user.rb:10 | `"a@x.com"` is accepted |
| UserModel.UserErrorsEmptyIff | app/models/user.rb:2-18 | a save succeeds iff: a digest is present; name present; email well formed and not taken by another user; password present and 6 to 72 characters; a supplied confirmation matches; on update, the email is the stored one |
| UserModel.DigestMissingIff | app/models/user.rb:2 | the missing-digest error arises exactly when no digest is present |
| UserModel.ShortPasswordRejected | app/models/user.rb:11 | an absent, blank or shorter-than-6 password fails on create and on update |
| UserModel.ConfirmationMismatchRejected | app/models/user.rb:2 | a supplied confirmation that differs from the password fails |
| UserModel.UserErrors | app/models/user.rb:2-18 | definition of the validation errors in Rails' order; its meaning is `UserModel.UserErrorsEmptyIff` |
| UserModel.ValidEmail | app/models/user.rb:10 | definition of the email format; `UserModel.ValidEmailIffRegex` ties it to the regex |
| UserModel.AssignPassword | app/models/user.rb:2 | definition of `password=`; its properties are `UserModel.AssignedPasswordAuthenticates` and `UserModel.NullPasswordClearsDigest` |
| UserModel.AssignedPasswordAuthenticates | app/models/user.rb:2 | with a sound hasher, assigning a non-empty password stores it and a present digest that authenticates it |
| UserModel.UpdateCandidate | app/controllers/authentication_controller.rb:38 | definition of the record `update` validates; its properties are `UserModel.UpdateNeverChangesEmail`, `UserModel.UpdateWithoutPasswordRejected`, `UserModel.NullPasswordClearsDigest` and `UserModel.NullNameRejected` |
| UserModel.Updated | app/controllers/authentication_controller.rb:38 | definition of the row after a successful `update`; its property is `UserModel.UpdatedIdempotent` |
| UserModel.UpdatedIdempotent | app/controllers/authentication_controller.rb:38 | applying the same update twice agrees with applying it once on every field but the digest; with a sound hasher both digests authenticate the password sent; id and email never change |
| UserModel.UpdateNeverChangesEmail | app/models/user.rb:12-18 | through `update`, the "cannot be changed once set" error never arises |
| UserModel.UpdateWithoutPasswordRejected | app/models/user.rb:11 | an update whose password is absent, null or empty fails the presence rule |
| UserModel.NullPasswordClearsDigest | app/models/user.rb:2 | an update with a null password clears the digest and fails the digest check |
| UserModel.NullNameRejected | app/models/user.rb:9 | an update with a null name fails the name presence rule |
| PostModel.HasAtLeastOneTag | app/models/post.rb:14-16 | definition of the tag rule; its meaning is `PostModel.TagRuleIff` |
| PostModel.PostErrors | app/models/post.rb:3-16 | definition of the validation errors; its meaning is `PostModel.PostErrorsEmptyIff` |
| PostModel.DeletionJob | app/models/post.rb:18-20 | definition of the scheduled job; `Store.Database.CreatePost` appends it and `PostDeleteWorker.RunAtOneDayKeepsPost` states what it does at that time |
| PostModel.TagRuleIff | app/models/post.rb:14-16 | the tag rule holds iff tags are supplied, not blank, and contain a character other than a comma |
| PostModel.SpaceSeparatedTagsAccepted | app/models/post.rb:14-16 | `"tag1 tag2"` is one tag and is accepted |
| PostModel.OnlyCommasRejected | app/models/post.rb:14-16 | `",,,"` is not blank yet is rejected |
| PostModel.PostErrorsEmptyIff | app/models/post.rb:3-16 | a post is valid iff its owner exists and title, body and tags are present, with at least one non-comma character in tags |
| PostModel.Assign | app/controllers/posts_controller.rb:30 | definition of `update`'s attribute assignment; its properties are `PostModel.AssignNothingKeepsPost`, `PostModel.AssignIdempotent` and `PostModel.NullFieldRejected` |
| PostModel.AssignNothingKeepsPost | app/controllers/posts_controller.rb:30 | an update that sends no key leaves the post as it was |
| PostModel.AssignIdempotent | app/controllers/posts_controller.rb:30 | sending the same update twice has the effect of sending it once |
| PostModel.NullFieldRejected | app/models/post.rb:6-8 | a title, body or tags sent as null fails validation |
| CommentModel.CommentErrors | app/controllers/comments_controller.rb:17 | definition of the body presence rule; its properties are `CommentModel.BlankBodyRejected` and `CommentModel.AbsentBodyKeepsComment` |
| CommentModel.BlankBodyRejected | app/controllers/comments_controller.rb:15-17 | a body sent null or blank is rejected with the one body error, on create and on update |
| CommentModel.Assign | app/controllers/comments_controller.rb:29 | definition of `update`'s attribute assignment; its properties are `CommentModel.AbsentBodyKeepsComment` and `CommentModel.BlankBodyRejected` |
| CommentModel.AbsentBodyKeepsComment | app/controllers/comments_controller.rb:29 | an update without a body keeps the stored body, which passes validation |
| RubyStrings.Blank | app/models/post.rb:15 | definition of `blank?`: every character is white space |
| RubyStrings.Present | app/models/user.rb:9 | definition of `present?`: not nil and not blank |
| RubyStrings.Split | app/models/post.rb:15 | definition of `split(',')`; its properties are `RubyStrings.JoinFields`, `RubyStrings.DropTrailingEmpty` and `RubyStrings.SplitEmptyIff` |
| Store.StoredPostPassesValidation | app/models/post.rb:6-16 | the invariant's post row rule holds exactly when the stored attributes pass the post validations |
| Store.StoredCommentPassesValidation | app/controllers/comments_controller.rb:17 | the invariant's comment row rule holds exactly when the stored body passes the comment validation |
| Store.PutCommentKeepsValid | app/controllers/comments_controller.rb:15-17 | storing a valid comment on a stored post by a stored user keeps the whole invariant |
| PostModel.RowOfValidAttrs | app/controllers/posts_controller.rb:18 | a row built from valid attributes stores exactly those attributes |
| Store.WithoutUser | app/models/user.rb:3-4 | removes the user, its posts, their comments and its comments, and keeps the integrity invariant; rows not linked to the user survive unchanged |
| Store.WithoutPost | app/models/post.rb:4 | removes the post and its comments, and keeps the integrity invariant; users, other posts and other comments survive |
| Store.Database.CreateUser | app/controllers/authentication_controller.rb:6-7 | on success, one fresh row; email uniqueness and integrity are kept; otherwise the errors are returned and nothing changes |
| Store.Database.UpdateUser | app/controllers/authentication_controller.rb:38 | on success, only that row changes; otherwise nothing changes |
| Store.Database.DestroyUser | app/models/user.rb:3-4 | the tables become `WithoutUser` of the old tables; the job queue is kept |
| Store.Database.CreatePost | app/models/post.rb:11-20 | on success, one fresh row and exactly one job `(id, createdAt + 86400)` appended; on failure nothing is stored or enqueued |
| Store.Database.UpdatePost | app/controllers/posts_controller.rb:30 | on success the row gets the merged attributes with the same id, owner and creation time; otherwise nothing changes |
| Store.Database.DestroyPost | app/models/post.rb:4 | the tables become `WithoutPost` of the old tables |
| Store.Database.CreateComment | app/controllers/comments_controller.rb:15-17 | on success, one fresh comment on that post by that user; otherwise nothing changes |
| Store.Database.UpdateComment | app/controllers/comments_controller.rb:29 | on success only the body changes; otherwise nothing changes |
| Store.Database.DestroyComment | app/controllers/comments_controller.rb:44 | removes just that comment |
| ApplicationController.BearerToken | app/controllers/application_controller.rb:7 | the token, when there is one, is a non-empty word without white space |
| ApplicationController.DecodedToken | app/controllers/application_controller.rb:3-13 | definition of `decoded_token`; its properties are the lemmas below |
| ApplicationController.Identity | app/controllers/application_controller.rb:15-19 | definition of the caller on a fresh request; its properties are the lemmas below |
| ApplicationController.NoHeaderNoIdentity | app/controllers/application_controller.rb:4-5 | without a header there is no identity |
| ApplicationController.OneWordHeaderNoIdentity | app/controllers/application_controller.rb:7 | a header of one word carries no token, so there is no identity |
| ApplicationController.UndecodableTokenNoIdentity | app/controllers/application_controller.rb:8-12 | a token that fails to decode gives no identity and no error |
| ApplicationController.FindUser | app/controllers/application_controller.rb:18 | definition of `User.find_by(id:)`; its properties are `ApplicationController.DeletedUserNoIdentity` and `ApplicationController.TokenIdentifiesUser` |
| ApplicationController.DeletedUserNoIdentity | app/controllers/application_controller.rb:15-19 | a valid token for an id that is not stored gives no identity |
| ApplicationController.TokenIdentifiesUser | app/controllers/application_controller.rb:7-9 | with a sound codec, `<any scheme> <encode(id)>` identifies the stored user `id` |
| ApplicationController.RequestContext.CurrentUser | app/controllers/application_controller.rb:15-20 | nil when the token does not decode; otherwise the memo once set, or else the user looked up, which is then memoised |
| ApplicationController.AuthorizeRequest | app/controllers/application_controller.rb:23-25 | halts with 401 "Not Authorized" exactly when the request has no identity |
| AuthenticationController.SignupCandidate | app/controllers/authentication_controller.rb:61-63 | definition of `User.new(user_params)`; its properties are `AuthenticationController.SignupWithPasswordHasDigest` and `AuthenticationController.Signup` |
| AuthenticationController.SignupWithPasswordHasDigest | app/models/user.rb:2 | with a sound hasher, a signup that sends a password never fails for a missing digest |
| AuthenticationController.UpdateChanges | app/controllers/authentication_controller.rb:65-67 | definition of `user_update_params`; its property is `AuthenticationController.UpdateChangesIgnoreEmail` |
| AuthenticationController.UpdateChangesIgnoreEmail | app/controllers/authentication_controller.rb:65-67 | whatever email the request carries, the update whitelist yields the same changes |
| AuthenticationController.UserResponse | app/controllers/authentication_controller.rb:73-80 | definition of `user_response`; its property is `AuthenticationController.UserResponseHidesDigest` |
| AuthenticationController.UserResponseHidesDigest | app/controllers/authentication_controller.rb:73-80 | the rendered user does not depend on the password digest |
| AuthenticationController.EmailChangeAttempted | app/controllers/authentication_controller.rb:34 | definition of the email guard; `AuthenticationController.Update` states its place in the order |
| AuthenticationController.CredentialsMatch | app/controllers/authentication_controller.rb:17-18 | definition of "a stored user has this email and the password matches"; `AuthenticationController.Login` answers 200 exactly when it holds |
| AuthenticationController.Signup | app/controllers/authentication_controller.rb:5-14 | 201 with one new stored user and a token whose bearer header identifies that user, and with a sound hasher that email and password then log in; or 422 with every message and no change |
| AuthenticationController.Login | app/controllers/authentication_controller.rb:16-24 | 200 iff a stored user has that email and the password matches, with that user and a token identifying it; otherwise the one 401 "Invalid credentials"; nothing is stored |
| AuthenticationController.Update | app/controllers/authentication_controller.rb:26-44 | in order: 404, 401 for another user, 422 for a different email, then the validation outcome; failures change nothing, and the email never changes |
| AuthenticationController.Destroy | app/controllers/authentication_controller.rb:46-56 | 404, 401 for another user, else 204 and the user cascade |
| PostsController.PostParams | app/controllers/posts_controller.rb:54-56 | definition of `post_params`; its property is `PostsController.PostParamsIgnoreOwner` |
| PostsController.PostParamsIgnoreOwner | app/controllers/posts_controller.rb:54-56 | whatever owner the request names, the whitelist yields the same attributes |
| PostsController.Index | app/controllers/posts_controller.rb:4-7 | every stored post, unfiltered |
| PostsController.Show | app/controllers/posts_controller.rb:10-13 | 200 with the post iff it exists, else 404 |
| PostsController.Create | app/controllers/posts_controller.rb:16-23 | 201 with a post owned by the caller whatever the request says, plus its deletion job; or 422 and nothing stored or enqueued |
| PostsController.Update | app/controllers/posts_controller.rb:26-38 | 404 before 401, then the validation outcome; only the supplied fields change, never the owner or creation time |
| PostsController.Destroy | app/controllers/posts_controller.rb:41-50 | 404 before 401, else 204 and the post with its comments removed |
| CommentsController.CommentParams | app/controllers/comments_controller.rb:53-55 | definition of `comment_params`; its property is `CommentsController.CommentParamsIgnoreOwnerAndPost` |
| CommentsController.CommentParamsIgnoreOwnerAndPost | app/controllers/comments_controller.rb:53-55 | whatever post or author the request names, the whitelist yields the same attributes |
| CommentsController.CommentsOf | app/controllers/comments_controller.rb:7 | definition of `post.comments`; its property is `CommentsController.CommentListedUnderItsPostOnly` |
| CommentsController.CommentListedUnderItsPostOnly | app/controllers/comments_controller.rb:7 | every comment is listed under its own post and under no other |
| CommentsController.Index | app/controllers/comments_controller.rb:5-9 | 404 for a missing post, else exactly that post's comments |
| CommentsController.Create | app/controllers/comments_controller.rb:12-22 | 404 for a missing post; else 201 with a comment on that post by the caller, or 422 and nothing stored |
| CommentsController.Update | app/controllers/comments_controller.rb:25-37 | looks up the comment by its own id: 404, 401 for a non-author, then only the body changes or 422 |
| CommentsController.Destroy | app/controllers/comments_controller.rb:40-49 | 404, 401 for a non-author, else 204 and just that comment removed |
| PostDeleteWorker.Expired | app/workers/post_delete_worker.rb:6 | definition of `created_at < 24.hours.ago`; its meaning is `PostDeleteWorker.PerformDeletesIffExpired` |
| PostDeleteWorker.AfterPerform | app/workers/post_delete_worker.rb:4-10 | definition of the tables after a run; its properties are the lemmas below |
| PostDeleteWorker.Perform | app/workers/post_delete_worker.rb:4-10 | the tables become `AfterPerform`: the post and its comments go iff it exists and has expired; the queue is untouched |
| PostDeleteWorker.PerformDeletesIffExpired | app/workers/post_delete_worker.rb:5-8 | an existing post is removed iff `createdAt < now - 86400` |
| PostDeleteWorker.MissingPostIgnored | app/workers/post_delete_worker.rb:5-6 | a missing post id changes nothing |
| PostDeleteWorker.PerformIdempotent | app/workers/post_delete_worker.rb:4-10 | running twice at one time equals running once |
| PostDeleteWorker.RetryAfterDeletionHarmless | app/workers/post_delete_worker.rb:5-9 | after a deletion, a retry at any time changes nothing |
| PostDeleteWorker.PerformKeepsOthers | app/workers/post_delete_worker.rb:8 | users, other posts and comments on other posts are unchanged |
| PostDeleteWorker.RunAtOneDayKeepsPost | app/workers/post_delete_worker.rb:6 | a run at exactly `createdAt + 86400` keeps the post |
| PostDeleteWorker.LateRunDeletesPost | app/workers/post_delete_worker.rb:6 | a run at any instant later than `createdAt + 86400` removes the post |
| RequestPipeline.Handle | app/controllers/application_controller.rb:2-25 | signup and login skip the guard; any other action without an identity gets 401 and changes nothing; a guarded action that succeeds acted on the caller's own account, post or comment; a post or comment it creates belongs to the token's user, and a comment to the route's post; read actions change nothing |
| RequestPipeline.ChangeUser | app/controllers/authentication_controller.rb:26-56 | a user update or destroy that succeeds acted on the caller's own account |
| RequestPipeline.ChangePost | app/controllers/posts_controller.rb:26-50 | a post update or destroy that succeeds acted on a post of the caller |
| RequestPipeline.ChangeComment | app/controllers/comments_controller.rb:25-49 | a comment update or destroy that succeeds acted on a comment of the caller |
| RequestPipeline.Create | app/controllers/posts_controller.rb:17 | a created post belongs to the caller; a created comment belongs to the caller and to the route's post |
| Http.FullMessages | app/controllers/posts_controller.rb:21 | definition of `errors.full_messages`; its properties are `Http.FullMessagesPointwise` and `Http.FullMessagesAppend` |
| Http.FullMessagesPointwise | app/controllers/posts_controller.rb:21 | one message per error, each the message of the error at that position |
| Http.FullMessagesAppend | app/controllers/posts_controller.rb:21 | the messages of joined error lists are the joined messages |

## Left out

- JWT signing with HS256 and the application secret: abstract `encode`/`decode` functions. The round trip is a hypothesis (`ApplicationController.Sound`), not a fact proved about real tokens. Tokens have no expiry in the code.
- bcrypt and `authenticate`: abstract `digest` and `matches` functions. `authenticate(nil)` is taken to behave as `authenticate("")`.
- UserModel.UpdatedIdempotent: the model's `digest` is a function of the password alone, while BCrypt draws a fresh salt on each assignment. So the lemma does not claim that a repeated update stores the same digest, only that both digests authenticate the password.
- ActiveStorage: `image.attach`, `url_for` and the image processing job. An image is an opaque reference; `image_url` is that reference or nothing.
- Sidekiq: execution, retries, concurrency and the real clock. The queue is a list of `(postId, runAt)` that nothing removes from, and time is a parameter.
- Routing, JSON rendering, and the string-to-integer casting of ids in routes and tokens. Ids are natural numbers. A framework-rendered 404 has an empty body in the model.
- `params.require` with the key missing or its hash empty (400, or a `NoMethodError` on `params[:user][:email]`): every request is modelled as carrying its parameter hash. An input in which every permitted field is absent therefore stands for a hash that holds only keys the whitelist drops.
- The `puts` log line in the worker.
- The Comment model file is not part of this model. Its only rule, a present body, comes from the request specs and is `CommentModel.CommentErrors`. Its `belongs_to` checks cannot fail, because the controller passes a stored post and the caller.
- The `updated_at` and `created_at` columns other than a post's creation time.
- The password maximum of 72 characters comes from `has_secure_password` and is counted in characters, not bytes.
- Email uniqueness compares emails exactly. The validation declares no case option, so the real comparison follows the database collation, which the model does not capture. A database unique index is not modelled either.
- `Store.Database.Valid`: keeps key consistency, email uniqueness, referential integrity, and validity of every stored post (title, body and tags) and comment (body). It does not keep validity of user rows (name present, well-formed email), because stating that made the user operations too costly to verify.
- `Store.Database.CreatePost`: the instant the job is enqueued, after the commit, is identified with the post's `createdAt`. In the program the job therefore runs a little later than `createdAt + 86400`, and may find the post expired.
- `PostsController.Index`: lists posts as a map, because the query has no order.
- `CommentsController.Index`: lists comments as a map, because the query has no order.
