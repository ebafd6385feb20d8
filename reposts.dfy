/** Reposts: sharing a post, which stores a repost and counts the share on the original post, and
    the repost's click info. */
module Reposts {
  import opened Model
  import opened Query
  import opened Storage
  import opened Likes
  import opened Comments
  import opened Posts

  /** The repost `createRepost` stores: owned by the actor, on the body's post, with privacy
      "public" and an empty description when none is given, and zero counters. */
  function NewRepost(id: Id, actor: Id, postId: Id, privacy: Option<string>, description: Option<string>, now: nat): (r: Repost)
    ensures r.id == id && r.userId == actor && r.postId == postId
    ensures r.privacy == (if privacy.Some? then privacy.value else "public")
    ensures r.description == (if description.Some? then description.value else "")
    ensures r.likesCount == 0 && r.commentCount == 0 && !r.pinned
  {
    Repost(id, postId, actor, if privacy.Some? then privacy.value else "public",
           if description.Some? then description.value else "", 0, 0, false, now)
  }

  /** `{$inc: {shareCount: 1}}` on a post. */
  function BumpShares(): Post -> Post
  {
    (p: Post) => p.(shareCount := p.shareCount + 1)
  }

  /** The document an upsert creates when the shared post does not exist: only its id and the
      incremented counter are set; every other field holds its empty value. */
  function StubPost(id: Id, now: nat): (p: Post)
    ensures p.id == id && p.shareCount == 1 && p.commentCount == 0 && p.likesCount == 0
  {
    Post(id, 0, "", "", "", "", false, "", None, None, None, false, false, 0, 0, 1, now)
  }

  /** `findByIdAndUpdate(postId, {$inc: {shareCount: 1}}, {upsert: true})` as it is evidently meant
      to work, with `shareCount` a stored counter; the version that reaches the store is
      `SharePostAsWritten` below. */
  function SharePost(posts: seq<Post>, postId: Id, now: nat): seq<Post>
  {
    if PostById(posts, postId).Some? then UpdateFirst(posts, KeyIs(PostKey, OnPost(postId)), BumpShares())
    else posts + [StubPost(postId, now)]
  }

  /** The store after `createRepost` as intended: the repost is appended and the share is counted
      on the post, which is created if it is missing. */
  function AddRepost(db: Db, r: Repost, now: nat): Db
  {
    db.(reposts := db.reposts + [r], posts := SharePost(db.posts, r.postId, now))
  }

  function RepostOf(postId: Id): Repost -> bool
  {
    (r: Repost) => r.postId == postId
  }

  /** Every post's `shareCount` is the number of its reposts. */
  ghost predicate SharesMatch(posts: seq<Post>, reposts: seq<Repost>)
  {
    forall p :: p in posts ==> p.shareCount == |Filter(reposts, RepostOf(p.id))|
  }

  /** The upsert raises the shared post's counter by one and changes nothing else; when the post is
      missing, exactly one post, with that id and a count of one, is added. */
  lemma SharePostEffect(posts: seq<Post>, postId: Id, now: nat)
    ensures var posts' := SharePost(posts, postId, now);
      && (PostById(posts, postId).Some? ==>
            && |posts'| == |posts|
            && forall k :: 0 <= k < |posts| ==>
                 posts'[k] == (if k == IndexOf(posts, KeyIs(PostKey, OnPost(postId))) then posts[k].(shareCount := posts[k].shareCount + 1) else posts[k]))
      && (PostById(posts, postId).None? ==> posts' == posts + [StubPost(postId, now)])
  {
  }

  /** With unique post ids, a repost keeps every post's share counter equal to its number of
      reposts, provided the shared post is stored or nothing was reposted from it before. */
  lemma AddRepostKeepsShares(db: Db, r: Repost, now: nat)
    requires SharesMatch(db.posts, db.reposts) && UniqueKeys(db.posts, PostKey)
    requires PostById(db.posts, r.postId).Some? || Filter(db.reposts, RepostOf(r.postId)) == []
    ensures SharesMatch(AddRepost(db, r, now).posts, AddRepost(db, r, now).reposts)
  {
    var db' := AddRepost(db, r, now);
    var i := IndexOf(db.posts, KeyIs(PostKey, OnPost(r.postId)));
    PostKeyIs(r.postId);
    forall p | p in db'.posts ensures p.shareCount == |Filter(db'.reposts, RepostOf(p.id))| {
      FilterConcat(db.reposts, [r], RepostOf(p.id));
      var k :| 0 <= k < |db'.posts| && db'.posts[k] == p;
      if PostById(db.posts, r.postId).Some? {
        assert db.posts[k] in db.posts;
        if k == i {
          assert p == BumpShares()(db.posts[k]);
        } else {
          assert p == db.posts[k];
        }
      } else if k < |db.posts| {
        assert p == db.posts[k] && p in db.posts;
      }
    }
  }

  /** A repost keeps every like counter matching its Like rows, provided no Like row names the
      shared post when the upsert has to create it. */
  lemma AddRepostKeepsLikes(db: Db, r: Repost, now: nat)
    requires LikesConsistent(db)
    requires PostById(db.posts, r.postId).None? ==> forall l :: l in db.likes ==> l.target != OnPost(r.postId)
    ensures LikesConsistent(AddRepost(db, r, now))
  {
    if PostById(db.posts, r.postId).Some? {
      UpdateKeepsCounters(db.posts, db.likes, PostKey, PostLikes, KeyIs(PostKey, OnPost(r.postId)), BumpShares());
    } else {
      AppendKeepsCounters(db.posts, db.likes, PostKey, PostLikes, StubPost(r.postId, now));
    }
  }

  /** A repost keeps every post's comment counter equal to its discussion, provided the shared post
      is stored or has an empty discussion: the post the upsert inserts starts at zero. */
  lemma AddRepostKeepsCounts(db: Db, r: Repost, now: nat)
    requires CommentCountsMatch(db)
    requires PostById(db.posts, r.postId).Some? || DiscussionSize(db.comments, db.replies, r.postId) == 0
    ensures CommentCountsMatch(AddRepost(db, r, now))
  {
    var db' := AddRepost(db, r, now);
    forall p | p in db'.posts ensures p.commentCount == DiscussionSize(db.comments, db.replies, p.id) {
      var k :| 0 <= k < |db'.posts| && db'.posts[k] == p;
      if k < |db.posts| {
        assert db.posts[k] in db.posts;
      }
    }
  }

  /** The precondition above is needed: comments saved on a deleted post survive it, and a repost of
      that post inserts a post counting none of them. */
  lemma AddRepostMiscountsStub(db: Db, r: Repost, now: nat)
    requires PostById(db.posts, r.postId).None?
    requires DiscussionSize(db.comments, db.replies, r.postId) > 0
    ensures !CommentCountsMatch(AddRepost(db, r, now))
  {
    assert AddRepost(db, r, now).posts[|db.posts|] == StubPost(r.postId, now);
  }

  /** Creating a post keeps every share counter equal to its reposts, provided no stored repost
      names the new post already. */
  lemma CreatePostKeepsShares(posts: seq<Post>, reposts: seq<Repost>, p: Post)
    requires SharesMatch(posts, reposts) && p.shareCount == 0
    requires forall x :: x in reposts ==> x.postId != p.id
    ensures SharesMatch(posts + [p], reposts)
  {
    FilterNone(reposts, RepostOf(p.id));
  }

  // ---------------------------------------------------------------- the share upsert as written

  /** The post schema declares no `shareCount`, and a strict schema drops undeclared paths from an
      update, so the upsert as written reaches the store as an update with nothing to increment.
      On a missing post it still inserts a document, which carries the schema's defaults: its
      share count is absent, written here as zero. */
  function StubPostAsWritten(id: Id, now: nat): (p: Post)
    ensures p.id == id && p.shareCount == 0 && p.commentCount == 0 && p.likesCount == 0
  {
    Post(id, 0, "", "", "", "", false, "", None, None, None, false, false, 0, 0, 0, now)
  }

  /** `findByIdAndUpdate(postId, {$inc: {shareCount: 1}}, {upsert: true})` once the undeclared path
      is dropped: a stored post is left as it is, a missing one is inserted. */
  function SharePostAsWritten(posts: seq<Post>, postId: Id, now: nat): seq<Post>
  {
    if PostById(posts, postId).Some? then posts else posts + [StubPostAsWritten(postId, now)]
  }

  /** The store after `createRepost` as written: the repost is appended and the share is not
      counted anywhere. */
  function AddRepostAsWritten(db: Db, r: Repost, now: nat): Db
  {
    db.(reposts := db.reposts + [r], posts := SharePostAsWritten(db.posts, r.postId, now))
  }

  /** As written, sharing changes no stored post: every post keeps its place and its counters, and
      at most a post with no shares is added. */
  lemma SharePostAsWrittenKeepsPosts(posts: seq<Post>, postId: Id, now: nat)
    ensures var posts' := SharePostAsWritten(posts, postId, now);
      && posts'[..|posts|] == posts
      && (PostById(posts, postId).Some? <==> posts' == posts)
      && forall p :: p in posts' && p !in posts ==> p.id == postId && p.shareCount == 0
  {
    var posts' := SharePostAsWritten(posts, postId, now);
    if PostById(posts, postId).None? {
      assert posts'[|posts|] == StubPostAsWritten(postId, now) && |posts'| != |posts|;
    }
  }

  /** As written, every repost breaks the share invariant: the count of the shared post stays where
      it was (or, for an inserted post, at zero) while its reposts grow by one. */
  lemma AddRepostAsWrittenBreaksShares(db: Db, r: Repost, now: nat)
    requires SharesMatch(db.posts, db.reposts)
    ensures !SharesMatch(AddRepostAsWritten(db, r, now).posts, AddRepostAsWritten(db, r, now).reposts)
  {
    var db' := AddRepostAsWritten(db, r, now);
    FilterConcat(db.reposts, [r], RepostOf(r.postId));
    assert Filter([r], RepostOf(r.postId)) == [r];
    match PostById(db.posts, r.postId)
    case Some(p) =>
      assert p in db'.posts && p.id == r.postId;
      assert p.shareCount != |Filter(db'.reposts, RepostOf(p.id))|;
    case None =>
      var p := StubPostAsWritten(r.postId, now);
      assert db'.posts[|db.posts|] == p;
      assert p.shareCount != |Filter(db'.reposts, RepostOf(p.id))|;
  }

  /** `createRepost`: a repost without a post id fails validation, 500 with nothing stored;
      otherwise the repost is stored, the share counted as intended, and the repost returned with
      201. */
  method CreateRepost(st: Store, actor: Id, postId: Option<Id>, privacy: Option<string>, description: Option<string>,
                      newId: Id, now: nat)
    returns (resp: Response<Repost>)
    modifies st
    ensures postId.None? ==> resp == Response(SERVER_ERROR, None) && st.State() == old(st.State())
    ensures postId.Some? ==>
              && resp == Response(CREATED, Some(NewRepost(newId, actor, postId.value, privacy, description, now)))
              && st.State() == AddRepost(old(st.State()), NewRepost(newId, actor, postId.value, privacy, description, now), now)
  {
    if postId.None? {
      return Response(SERVER_ERROR, None);
    }
    var r := NewRepost(newId, actor, postId.value, privacy, description, now);
    st.reposts := st.reposts + [r];
    st.posts := SharePost(st.posts, postId.value, now);
    resp := Response(CREATED, Some(r));
  }

  function RepostKeyIs(id: Id): Repost -> bool
  {
    (r: Repost) => r.id == id
  }

  /** `getRepostClickInfo`: the repost's stored counters and whether the viewer has a Like row for
      the repost; a missing repost fails on the destructuring, 500. */
  function RepostClickInfo(db: Db, viewer: Id, repostId: Id): (r: Response<ClickInfo>)
    ensures r.status == SERVER_ERROR <==> forall x :: x in db.reposts ==> x.id != repostId
    ensures r.status == OK ==> r.body.Some? && r.body.value.isLiked == (Like(viewer, OnRepost(repostId)) in db.likes)
    ensures r.status == OK ==>
              exists x :: x in db.reposts && x.id == repostId &&
                          r.body.value.likesCount == x.likesCount && r.body.value.commentsCount == x.commentCount
  {
    match FindFirst(db.reposts, RepostKeyIs(repostId))
    case None => Response(SERVER_ERROR, None)
    case Some(x) => Response(OK, Some(ClickInfo(x.likesCount, x.commentCount, Like(viewer, OnRepost(repostId)) in db.likes)))
  }
}
