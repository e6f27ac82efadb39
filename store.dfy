/**
 * The database behind the models: the `users`, `posts` and `comments` tables
 * as maps from id to row, the queue of scheduled deletion jobs, and the id
 * sequences. The methods of `Database` are the ActiveRecord operations the
 * controllers call (`save`, `update`, `destroy`), with the validations,
 * `dependent: :destroy` cascades and `after_create_commit` hook the models
 * declare.
 */
module Store {
  import opened Wrappers
  import opened RubyStrings
  import U = UserModel
  import P = PostModel
  import C = CommentModel

  /** The three tables at one instant. */
  datatype Tables = Tables(users: map<nat, U.User>, posts: map<nat, P.Post>, comments: map<nat, C.Comment>)

  /** `uniqueness: true` on email holds across the table. */
  ghost predicate EmailsUnique(users: map<nat, U.User>) {
    forall a, b | a in users && b in users && users[a].email == users[b].email :: a == b
  }

  /** Every row sits under its own id. */
  ghost predicate KeysMatch(t: Tables) {
    && (forall k | k in t.users :: t.users[k].id == k)
    && (forall k | k in t.posts :: t.posts[k].id == k)
    && (forall k | k in t.comments :: t.comments[k].id == k)
  }

  /** Referential integrity: every post has an existing owner; every comment an existing post and author. */
  ghost predicate Integrity(t: Tables) {
    && (forall k | k in t.posts :: t.posts[k].userId in t.users)
    && (forall k | k in t.comments :: t.comments[k].postId in t.posts && t.comments[k].userId in t.users)
  }

  /**
   * Every stored post and comment passed its validations: posts have a
   * non-blank title and body and at least one tag; comments a non-blank body.
   */
  ghost predicate RowsValid(t: Tables) {
    && (forall k | k in t.posts :: PostRowValid(t.posts[k]))
    && (forall k | k in t.comments :: CommentRowValid(t.comments[k]))
  }

  ghost predicate PostRowValid(p: P.Post) {
    HasNonSpace(p.title) && HasNonSpace(p.body) && HasNonSpace(p.tags) && HasOtherThan(p.tags, ',')
  }

  ghost predicate CommentRowValid(c: C.Comment) {
    HasNonSpace(c.body)
  }

  // The row rules use these recursive forms of `!Blank(s)` and "some character
  // is not a comma", which the lemmas below prove equivalent to the
  // validations' own; they keep the invariant cheap to re-establish.

  /** Some character of `s` is not white space: `!Blank(s)`, stated by recursion. */
  predicate HasNonSpace(s: string) {
    s != [] && (!IsSpace(s[0]) || HasNonSpace(s[1..]))
  }

  /** Some character of `s` is not `c`, stated by recursion. */
  predicate HasOtherThan(s: string, c: char) {
    s != [] && (s[0] != c || HasOtherThan(s[1..], c))
  }

  lemma {:induction false} HasNonSpaceIff(s: string)
    ensures HasNonSpace(s) <==> !Blank(s)
  {
    if s != [] {
      HasNonSpaceIff(s[1..]);
      assert forall i | 1 <= i < |s| :: s[1..][i - 1] == s[i];
    }
  }

  lemma {:induction false} HasOtherThanIff(s: string, c: char)
    ensures HasOtherThan(s, c) <==> exists i | 0 <= i < |s| :: s[i] != c
  {
    if s != [] {
      HasOtherThanIff(s[1..], c);
      assert forall i | 1 <= i < |s| :: s[1..][i - 1] == s[i];
    }
  }

  ghost predicate TablesValid(t: Tables) {
    KeysMatch(t) && EmailsUnique(t.users) && Integrity(t) && RowsValid(t)
  }

  /** The row rule of the invariant is exactly "the stored attributes pass the post validations". */
  lemma StoredPostPassesValidation(p: P.Post)
    ensures PostRowValid(p) <==> P.PostErrors(P.AttrsOf(p), true) == []
  {
    HasNonSpaceIff(p.title);
    HasNonSpaceIff(p.body);
    HasNonSpaceIff(p.tags);
    HasOtherThanIff(p.tags, ',');
    P.PostErrorsEmptyIff(P.AttrsOf(p), true);
  }

  /** The row rule for comments is exactly "the stored body passes the comment validation". */
  lemma StoredCommentPassesValidation(c: C.Comment)
    ensures CommentRowValid(c) <==> C.CommentErrors(C.CommentAttrs(Some(c.body))) == []
  {
    HasNonSpaceIff(c.body);
  }

  /** Storing a valid comment on an existing post by an existing user keeps the tables valid. */
  lemma PutCommentKeepsValid(t: Tables, c: C.Comment)
    requires TablesValid(t)
    requires c.postId in t.posts && c.userId in t.users && CommentRowValid(c)
    ensures TablesValid(t.(comments := t.comments[c.id := c]))
  {
    var r := t.(comments := t.comments[c.id := c]);
    PutCommentKeys(t, c);
    PutCommentIntegrity(t, c);
    PutCommentRows(t, c);
    assert r.users == t.users;
  }

  /** Replacing a post by a valid row with the same id and owner keeps the tables valid. */
  lemma ReplacePostKeepsValid(t: Tables, p: P.Post)
    requires TablesValid(t)
    requires p.id in t.posts && p.userId == t.posts[p.id].userId && PostRowValid(p)
    ensures TablesValid(t.(posts := t.posts[p.id := p]))
  {
    var r := t.(posts := t.posts[p.id := p]);
    ReplacePostKeys(t, p);
    ReplacePostIntegrity(t, p);
    ReplacePostRows(t, p);
    assert r.users == t.users;
  }

  lemma ReplacePostKeys(t: Tables, p: P.Post)
    requires KeysMatch(t)
    ensures KeysMatch(t.(posts := t.posts[p.id := p]))
  {
  }

  lemma ReplacePostIntegrity(t: Tables, p: P.Post)
    requires Integrity(t) && p.id in t.posts && p.userId == t.posts[p.id].userId
    ensures Integrity(t.(posts := t.posts[p.id := p]))
  {
  }

  lemma ReplacePostRows(t: Tables, p: P.Post)
    requires RowsValid(t) && PostRowValid(p)
    ensures RowsValid(t.(posts := t.posts[p.id := p]))
  {
  }

  /** Every id in use is below its table's next id. */
  ghost predicate IdsBelow(t: Tables, nu: nat, np: nat, nc: nat) {
    && (forall k | k in t.users :: k < nu)
    && (forall k | k in t.posts :: k < np)
    && (forall k | k in t.comments :: k < nc)
  }

  ghost predicate StoreValid(t: Tables, nu: nat, np: nat, nc: nat) {
    TablesValid(t) && IdsBelow(t, nu, np, nc)
  }

  lemma ReplaceCommentKeepsValid(t: Tables, nu: nat, np: nat, nc: nat, c: C.Comment)
    requires StoreValid(t, nu, np, nc) && c.id in t.comments && CommentRowValid(c)
    requires c.postId == t.comments[c.id].postId && c.userId == t.comments[c.id].userId
    ensures StoreValid(Tables(t.users, t.posts, t.comments[c.id := c]), nu, np, nc)
  {
    PutCommentKeepsValid(t, c);
    assert Tables(t.users, t.posts, t.comments[c.id := c]) == t.(comments := t.comments[c.id := c]);
  }

  lemma PutCommentKeys(t: Tables, c: C.Comment)
    requires KeysMatch(t)
    ensures KeysMatch(t.(comments := t.comments[c.id := c]))
  {
  }

  lemma PutCommentIntegrity(t: Tables, c: C.Comment)
    requires Integrity(t) && c.postId in t.posts && c.userId in t.users
    ensures Integrity(t.(comments := t.comments[c.id := c]))
  {
  }

  lemma PutCommentRows(t: Tables, c: C.Comment)
    requires RowsValid(t) && CommentRowValid(c)
    ensures RowsValid(t.(comments := t.comments[c.id := c]))
  {
  }

  /**
   * `post.destroy` with `has_many :comments, dependent: :destroy`: the post
   * and every comment on it go, and nothing else changes.
   */
  function WithoutPost(t: Tables, pid: nat): (r: Tables)
    ensures TablesValid(t) ==> TablesValid(r)
    ensures pid !in r.posts && forall k | k in r.comments :: r.comments[k].postId != pid
    ensures r.users == t.users
    ensures forall k | k in t.posts && k != pid :: k in r.posts && r.posts[k] == t.posts[k]
    ensures forall k | k in t.comments && t.comments[k].postId != pid :: k in r.comments && r.comments[k] == t.comments[k]
    ensures r.posts.Keys <= t.posts.Keys && r.comments.Keys <= t.comments.Keys
  {
    Tables(t.users,
           map k | k in t.posts && k != pid :: t.posts[k],
           map k | k in t.comments && t.comments[k].postId != pid :: t.comments[k])
  }

  /**
   * `user.destroy` with `has_many :posts` and `has_many :comments`, both
   * `dependent: :destroy`: first each of the user's posts (taking their
   * comments, whoever wrote them), then the user's own comments, then the user.
   */
  function WithoutUser(t: Tables, uid: nat): (r: Tables)
    ensures TablesValid(t) ==> TablesValid(r)
    ensures uid !in r.users
    ensures forall k | k in r.posts :: r.posts[k].userId != uid
    ensures forall k | k in r.comments :: r.comments[k].userId != uid
    ensures forall k | k in r.comments :: r.comments[k].postId in r.posts
    ensures forall k | k in t.users && k != uid :: k in r.users && r.users[k] == t.users[k]
    ensures forall k | k in t.posts && t.posts[k].userId != uid :: k in r.posts && r.posts[k] == t.posts[k]
    ensures forall k | k in t.comments && t.comments[k].userId != uid
                       && t.comments[k].postId in t.posts && t.posts[t.comments[k].postId].userId != uid
                       :: k in r.comments && r.comments[k] == t.comments[k]
    ensures r.users.Keys <= t.users.Keys && r.posts.Keys <= t.posts.Keys && r.comments.Keys <= t.comments.Keys
  {
    var posts := map k | k in t.posts && t.posts[k].userId != uid :: t.posts[k];
    var comments := map k | k in t.comments && t.comments[k].postId in posts && t.comments[k].userId != uid
                      :: t.comments[k];
    Tables(map k | k in t.users && k != uid :: t.users[k], posts, comments)
  }

  class Database {
    var users: map<nat, U.User>
    var posts: map<nat, P.Post>
    var comments: map<nat, C.Comment>
    /** The scheduled `PostDeleteWorker` jobs, in the order they were enqueued. */
    var jobs: seq<P.Job>
    /** The next value of each table's id sequence. */
    var nextUserId: nat
    var nextPostId: nat
    var nextCommentId: nat

    function Snapshot(): Tables
      reads this
    {
      Tables(users, posts, comments)
    }

    ghost predicate Valid()
      reads this
    {
      StoreValid(Snapshot(), nextUserId, nextPostId, nextCommentId)
    }

    constructor ()
      ensures Valid()
      ensures users == map[] && posts == map[] && comments == map[] && jobs == []
    {
      users, posts, comments, jobs := map[], map[], map[], [];
      nextUserId, nextPostId, nextCommentId := 1, 1, 1;
    }

    /** `User.new(attributes).save` and, on success, the image attachment. */
    method CreateUser(c: U.Candidate, image: Option<U.ImageRef>)
      returns (r: Result<U.User, seq<U.UserError>>)
      requires Valid()
      modifies this
      ensures Valid()
      ensures var errs := U.UserErrors(c, old(users), None);
        if errs == [] then
          && r == Success(U.NewUser(old(nextUserId), c, image))
          && old(nextUserId) !in old(users)
          && users == old(users)[r.value.id := r.value]
          && nextUserId == old(nextUserId) + 1
          && posts == old(posts) && comments == old(comments) && jobs == old(jobs)
          && nextPostId == old(nextPostId) && nextCommentId == old(nextCommentId)
        else
          r == Failure(errs) && unchanged(this)
    {
      var errs := U.UserErrors(c, users, None);
      if errs == [] {
        U.UserErrorsEmptyIff(c, users, None);
        U.ValidEmailIsPresent(c.email.value);
        var u := U.NewUser(nextUserId, c, image);
        users := users[u.id := u];
        nextUserId := nextUserId + 1;
        r := Success(u);
      } else {
        r := Failure(errs);
      }
    }

    /** `user.update(changes)` on a loaded user. */
    method UpdateUser(id: nat, ch: U.Changes, h: U.PasswordHasher)
      returns (r: Result<U.User, seq<U.UserError>>)
      requires Valid() && id in users
      modifies this
      ensures Valid()
      ensures var u := old(users[id]);
        var errs := U.UserErrors(U.UpdateCandidate(u, ch, h), old(users), Some(u));
        if errs == [] then
          && r == Success(U.Updated(u, ch, h))
          && users == old(users)[id := r.value]
          && posts == old(posts) && comments == old(comments) && jobs == old(jobs)
          && nextUserId == old(nextUserId) && nextPostId == old(nextPostId) && nextCommentId == old(nextCommentId)
        else
          r == Failure(errs) && unchanged(this)
    {
      var u := users[id];
      var errs := U.UserErrors(U.UpdateCandidate(u, ch, h), users, Some(u));
      if errs == [] {
        U.UserErrorsEmptyIff(U.UpdateCandidate(u, ch, h), users, Some(u));
        var u' := U.Updated(u, ch, h);
        users := users[id := u'];
        r := Success(u');
      } else {
        r := Failure(errs);
      }
    }

    /** `user.destroy`, with its cascades. */
    method DestroyUser(id: nat)
      requires Valid() && id in users
      modifies this
      ensures Valid()
      ensures Snapshot() == WithoutUser(old(Snapshot()), id)
      ensures jobs == old(jobs)
      ensures nextUserId == old(nextUserId) && nextPostId == old(nextPostId) && nextCommentId == old(nextCommentId)
    {
      var t := WithoutUser(Snapshot(), id);
      users, posts, comments := t.users, t.posts, t.comments;
    }

    /**
     * `current_user.posts.build(attributes).save`: on success the row is
     * stored and, after the commit, its deletion job is enqueued.
     */
    method CreatePost(userId: nat, a: P.PostAttrs, now: int) returns (r: Result<P.Post, seq<P.PostError>>)
      requires Valid()
      modifies this
      ensures Valid()
      ensures var errs := P.PostErrors(a, userId in old(users));
        if errs == [] then
          && r == Success(P.Row(old(nextPostId), userId, a, now))
          && old(nextPostId) !in old(posts)
          && posts == old(posts)[r.value.id := r.value]
          && jobs == old(jobs) + [P.DeletionJob(r.value)]
          && nextPostId == old(nextPostId) + 1
          && users == old(users) && comments == old(comments)
          && nextUserId == old(nextUserId) && nextCommentId == old(nextCommentId)
        else
          r == Failure(errs) && unchanged(this)
    {
      var errs := P.PostErrors(a, userId in users);
      if errs == [] {
        P.RowOfValidAttrs(nextPostId, userId, a, now);
        var p := P.Row(nextPostId, userId, a, now);
        StoredPostPassesValidation(p);
        posts := posts[p.id := p];
        nextPostId := nextPostId + 1;
        jobs := jobs + [P.DeletionJob(p)];
        r := Success(p);
      } else {
        r := Failure(errs);
      }
    }

    /** `post.update(attributes)` on a loaded post. */
    method UpdatePost(id: nat, a: P.PostInput) returns (r: Result<P.Post, seq<P.PostError>>)
      requires Valid() && id in posts
      modifies this
      ensures Valid()
      ensures var p := old(posts[id]);
        var merged := P.Assign(p, a);
        var errs := P.PostErrors(merged, p.userId in old(users));
        if errs == [] then
          && r == Success(P.Row(id, p.userId, merged, p.createdAt))
          && posts == old(posts)[id := r.value]
          && users == old(users) && comments == old(comments) && jobs == old(jobs)
          && nextUserId == old(nextUserId) && nextPostId == old(nextPostId) && nextCommentId == old(nextCommentId)
        else
          r == Failure(errs) && unchanged(this)
    {
      var p := posts[id];
      var merged := P.Assign(p, a);
      var errs := P.PostErrors(merged, p.userId in users);
      if errs == [] {
        P.RowOfValidAttrs(id, p.userId, merged, p.createdAt);
        var p' := P.Row(id, p.userId, merged, p.createdAt);
        assert p.userId in users;
        StoredPostPassesValidation(p');
        ghost var t := Snapshot();
        ReplacePostKeepsValid(t, p');
        posts := posts[id := p'];
        assert Snapshot() == t.(posts := t.posts[p'.id := p']);
        assert posts.Keys == old(posts).Keys;
        r := Success(p');
      } else {
        r := Failure(errs);
      }
    }

    /** `post.destroy`, with its cascade. */
    method DestroyPost(id: nat)
      requires Valid()
      modifies this
      ensures Valid()
      ensures Snapshot() == WithoutPost(old(Snapshot()), id)
      ensures jobs == old(jobs)
      ensures nextUserId == old(nextUserId) && nextPostId == old(nextPostId) && nextCommentId == old(nextCommentId)
    {
      var t := WithoutPost(Snapshot(), id);
      users, posts, comments := t.users, t.posts, t.comments;
    }

    /** `post.comments.build(attributes)`, the author set, then `save`. */
    method CreateComment(postId: nat, userId: nat, a: C.CommentAttrs)
      returns (r: Result<C.Comment, seq<C.CommentError>>)
      requires Valid() && postId in posts && userId in users
      modifies this
      ensures Valid()
      ensures var errs := C.CommentErrors(a);
        if errs == [] then
          && r == Success(C.Comment(old(nextCommentId), postId, userId, a.body.value))
          && old(nextCommentId) !in old(comments)
          && comments == old(comments)[r.value.id := r.value]
          && nextCommentId == old(nextCommentId) + 1
          && users == old(users) && posts == old(posts) && jobs == old(jobs)
          && nextUserId == old(nextUserId) && nextPostId == old(nextPostId)
        else
          r == Failure(errs) && unchanged(this)
    {
      var errs := C.CommentErrors(a);
      if errs == [] {
        var c := C.Comment(nextCommentId, postId, userId, a.body.value);
        StoredCommentPassesValidation(c);
        PutCommentKeepsValid(Snapshot(), c);
        comments := comments[c.id := c];
        nextCommentId := nextCommentId + 1;
        r := Success(c);
      } else {
        r := Failure(errs);
      }
    }

    /** `comment.update(attributes)` on a loaded comment. */
    method UpdateComment(id: nat, a: C.CommentInput) returns (r: Result<C.Comment, seq<C.CommentError>>)
      requires Valid() && id in comments
      modifies this
      ensures Valid()
      ensures var c := old(comments[id]);
        var merged := C.Assign(c, a);
        var errs := C.CommentErrors(merged);
        if errs == [] then
          && r == Success(c.(body := merged.body.value))
          && comments == old(comments)[id := r.value]
          && users == old(users) && posts == old(posts) && jobs == old(jobs)
          && nextUserId == old(nextUserId) && nextPostId == old(nextPostId) && nextCommentId == old(nextCommentId)
        else
          r == Failure(errs) && unchanged(this)
    {
      var c := comments[id];
      var merged := C.Assign(c, a);
      var errs := C.CommentErrors(merged);
      if errs == [] {
        var c' := c.(body := merged.body.value);
        StoredCommentPassesValidation(c');
        ReplaceComment(c');
        r := Success(c');
      } else {
        r := Failure(errs);
      }
    }

    /** Stores a valid new version of a stored comment, on the same post by the same author. */
    method ReplaceComment(c: C.Comment)
      requires Valid() && c.id in comments && CommentRowValid(c)
      requires c.postId == comments[c.id].postId && c.userId == comments[c.id].userId
      modifies this
      ensures Valid()
      ensures comments == old(comments)[c.id := c]
      ensures users == old(users) && posts == old(posts) && jobs == old(jobs)
      ensures nextUserId == old(nextUserId) && nextPostId == old(nextPostId) && nextCommentId == old(nextCommentId)
    {
      ReplaceCommentKeepsValid(Snapshot(), nextUserId, nextPostId, nextCommentId, c);
      comments := comments[c.id := c];
    }

    /** `comment.destroy`: comments have no dependents. */
    method DestroyComment(id: nat)
      requires Valid()
      modifies this
      ensures Valid()
      ensures comments == old(comments) - {id}
      ensures users == old(users) && posts == old(posts) && jobs == old(jobs)
      ensures nextUserId == old(nextUserId) && nextPostId == old(nextPostId) && nextCommentId == old(nextCommentId)
    {
      comments := comments - {id};
    }
  }
}
