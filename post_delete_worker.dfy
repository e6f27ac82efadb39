/**
 * The background job that removes a post once it is more than a day old.
 * It compares strictly: a post goes only when the job runs later than
 * `createdAt + 86400`.
 */
module PostDeleteWorker {
  import P = PostModel
  import S = Store

  /** `post.created_at < 24.hours.ago`, with `now` the time the job runs. */
  predicate Expired(p: P.Post, now: int) {
    p.createdAt < now - P.DeletionDelay
  }

  /** The tables after `perform(postId)` at time `now`. */
  function AfterPerform(t: S.Tables, postId: nat, now: int): S.Tables {
    if postId in t.posts && Expired(t.posts[postId], now) then S.WithoutPost(t, postId) else t
  }

  /** `perform(post_id)`: a missing post is ignored; an expired one is destroyed with its comments. */
  method Perform(db: S.Database, postId: nat, now: int)
    requires db.Valid()
    modifies db
    ensures db.Valid()
    ensures db.Snapshot() == AfterPerform(old(db.Snapshot()), postId, now)
    ensures db.jobs == old(db.jobs)
  {
    if postId in db.posts && db.posts[postId].createdAt < now - P.DeletionDelay {
      db.DestroyPost(postId);
    }
  }

  /** A post that exists is removed exactly when it has expired. */
  lemma PerformDeletesIffExpired(t: S.Tables, postId: nat, now: int)
    requires postId in t.posts
    ensures postId !in AfterPerform(t, postId, now).posts <==> Expired(t.posts[postId], now)
  {
  }

  /** A post that is gone already (deleted by its author, or by an earlier run) leaves everything as it is. */
  lemma MissingPostIgnored(t: S.Tables, postId: nat, now: int)
    requires postId !in t.posts
    ensures AfterPerform(t, postId, now) == t
  {
  }

  /** Running the job twice at the same time does what running it once does. */
  lemma PerformIdempotent(t: S.Tables, postId: nat, now: int)
    ensures AfterPerform(AfterPerform(t, postId, now), postId, now) == AfterPerform(t, postId, now)
  {
  }

  /** After a deletion, a retry of the job at any time is harmless. */
  lemma RetryAfterDeletionHarmless(t: S.Tables, postId: nat, now: int, later: int)
    requires postId in t.posts && Expired(t.posts[postId], now)
    ensures AfterPerform(AfterPerform(t, postId, now), postId, later) == AfterPerform(t, postId, now)
  {
  }

  /** Only the targeted post and its comments are touched; users never are. */
  lemma PerformKeepsOthers(t: S.Tables, postId: nat, now: int)
    ensures var r := AfterPerform(t, postId, now);
      && r.users == t.users
      && (forall k | k in t.posts && k != postId :: k in r.posts && r.posts[k] == t.posts[k])
      && (forall k | k in t.comments && t.comments[k].postId != postId :: k in r.comments && r.comments[k] == t.comments[k])
  {
  }

  /** A run at exactly `createdAt + 86400` keeps the post: the comparison is strict. */
  lemma RunAtOneDayKeepsPost(t: S.Tables, p: P.Post)
    requires p.id in t.posts && t.posts[p.id] == p
    ensures AfterPerform(t, p.id, p.createdAt + P.DeletionDelay) == t
  {
  }

  /** Any run later than `createdAt + 86400` deletes the post. */
  lemma LateRunDeletesPost(t: S.Tables, p: P.Post, now: int)
    requires p.id in t.posts && t.posts[p.id] == p && now > p.createdAt + P.DeletionDelay
    ensures p.id !in AfterPerform(t, p.id, now).posts
  {
  }
}
