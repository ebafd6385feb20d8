/** Comments on posts: the discussion counter every post keeps (`commentCount` counts the
    post's comments and the replies under them), and the comment handlers that move it. */
module Comments {
  import opened Model
  import opened Query
  import opened Storage
  import opened Text
  import opened Likes

  // ---------------------------------------------------------------- selectors

  /** `{postId}` on comments. */
  function OnPostId(postId: Id): Comment -> bool
  {
    (c: Comment) => c.postId == postId
  }

  /** `{comment: commentId}` on replies. */
  function ReplyOf(commentId: Id): Reply -> bool
  {
    (r: Reply) => r.comment == commentId
  }

  /** `Reply.countDocuments({comment: commentId})`. */
  function ReplyCount(replies: seq<Reply>, commentId: Id): nat
  {
    |Filter(replies, ReplyOf(commentId))|
  }

  /** The comment stored under id `id`, as `findById` finds it. */
  function CommentById(comments: seq<Comment>, id: Id): (r: Option<Comment>)
    ensures r.None? <==> forall c :: c in comments ==> c.id != id
    ensures r.Some? ==> r.value in comments && r.value.id == id
  {
    CommentKeyIs(id);
    FindFirst(comments, KeyIs(CommentKey, OnComment(id)))
  }

  /** The post stored under id `id`. */
  function PostById(posts: seq<Post>, id: Id): (r: Option<Post>)
    ensures r.None? <==> forall p :: p in posts ==> p.id != id
    ensures r.Some? ==> r.value in posts && r.value.id == id
  {
    PostKeyIs(id);
    FindFirst(posts, KeyIs(PostKey, OnPost(id)))
  }

  lemma CommentKeyIs(id: Id)
    ensures forall c :: KeyIs(CommentKey, OnComment(id))(c) == (c.id == id)
  {
    forall c ensures KeyIs(CommentKey, OnComment(id))(c) == (c.id == id) {
      assert KeyIs(CommentKey, OnComment(id))(c) == (CommentKey(c) == OnComment(id));
    }
  }

  lemma PostKeyIs(id: Id)
    ensures forall p :: KeyIs(PostKey, OnPost(id))(p) == (p.id == id)
  {
    forall p ensures KeyIs(PostKey, OnPost(id))(p) == (p.id == id) {
      assert KeyIs(PostKey, OnPost(id))(p) == (PostKey(p) == OnPost(id));
    }
  }

  /** `{$inc: {commentCount: delta}}` on a post. */
  function BumpComments(delta: int): Post -> Post
  {
    (p: Post) => p.(commentCount := p.commentCount + delta)
  }

  // ---------------------------------------------------------------- the discussion counter

  /** The post a reply belongs to: the post of the comment it answers, when that comment exists. */
  function ParentPost(comments: seq<Comment>, r: Reply): Option<Id>
  {
    match CommentById(comments, r.comment)
    case None => None
    case Some(c) => Some(c.postId)
  }

  /** The replies under post p. */
  function InThread(comments: seq<Comment>, p: Id): Reply -> bool
  {
    (r: Reply) => ParentPost(comments, r) == Some(p)
  }

  /** The size of post p's discussion: its comments plus the replies to those comments. */
  function DiscussionSize(comments: seq<Comment>, replies: seq<Reply>, p: Id): nat
  {
    |Filter(comments, OnPostId(p))| + |Filter(replies, InThread(comments, p))|
  }

  /** Every post's `commentCount` is the size of its discussion. */
  ghost predicate CommentCountsMatch(db: Db)
  {
    CountsMatch(db.posts, db.comments, db.replies)
  }

  ghost predicate CountsMatch(posts: seq<Post>, comments: seq<Comment>, replies: seq<Reply>)
  {
    forall post :: post in posts ==> post.commentCount == DiscussionSize(comments, replies, post.id)
  }

  /** No two different comments share an id. */
  ghost predicate CommentIdsUnique(comments: seq<Comment>)
  {
    forall a, b :: a in comments && b in comments && a.id == b.id ==> a == b
  }

  /** With unique comment ids, a reply's parent post is read off the one comment it answers. */
  lemma ParentPostIs(comments: seq<Comment>, r: Reply, c: Comment)
    requires CommentIdsUnique(comments)
    requires c in comments && c.id == r.comment
    ensures ParentPost(comments, r) == Some(c.postId)
  {
  }

  /** A reply whose comment is not stored has no parent post. */
  lemma ParentPostNone(comments: seq<Comment>, r: Reply)
    requires forall c :: c in comments ==> c.id != r.comment
    ensures ParentPost(comments, r) == None
  {
  }

  /** Moving the counter of the post whose discussion changed, by the amount it changed, and
      touching no other discussion, keeps every counter matching. */
  lemma {:induction false} BumpKeepsCounts(posts: seq<Post>, cs: seq<Comment>, rs: seq<Reply>,
                                           cs': seq<Comment>, rs': seq<Reply>, q: Id, delta: int)
    requires CountsMatch(posts, cs, rs) && UniqueKeys(posts, PostKey)
    requires DiscussionSize(cs', rs', q) == DiscussionSize(cs, rs, q) + delta
    requires forall x :: x != q ==> DiscussionSize(cs', rs', x) == DiscussionSize(cs, rs, x)
    ensures CountsMatch(UpdateFirst(posts, KeyIs(PostKey, OnPost(q)), BumpComments(delta)), cs', rs')
  {
    var posts' := UpdateFirst(posts, KeyIs(PostKey, OnPost(q)), BumpComments(delta));
    var i := IndexOf(posts, KeyIs(PostKey, OnPost(q)));
    forall post | post in posts' ensures post.commentCount == DiscussionSize(cs', rs', post.id) {
      var k :| 0 <= k < |posts'| && posts'[k] == post;
      if k == i {
        assert post == BumpComments(delta)(posts[k]);
        assert posts[k] in posts;
      } else {
        assert post == posts[k] && post in posts;
      }
    }
  }

  /** A post no comment names has an empty discussion: its replies all answer comments of other posts. */
  lemma NoCommentsNoDiscussion(comments: seq<Comment>, replies: seq<Reply>, x: Id)
    requires forall c :: c in comments ==> c.postId != x
    ensures DiscussionSize(comments, replies, x) == 0
  {
    FilterNone(comments, OnPostId(x));
    forall r | r in replies ensures !InThread(comments, x)(r) {
      if CommentById(comments, r.comment).Some? {
        assert CommentById(comments, r.comment).value in comments;
      }
    }
    FilterNone(replies, InThread(comments, x));
  }

  // ---------------------------------------------------------------- postCommentOriginal

  /** The comment `postCommentOriginal` stores: by the actor, under the path's post, with the text
      defaulting to "" and the uploaded picture, if any. */
  function NewComment(id: Id, actor: Id, postId: Id, text: Option<string>, upload: Upload, now: nat): (c: Comment)
    ensures c.user == actor && c.postId == postId && c.id == id
    ensures c.likesCount == 0 && !c.pinned && !c.edited
    ensures c.text == (if text.Some? then text.value else "")
  {
    Comment(id, postId, actor, if text.Some? then text.value else "", UploadedUrl(upload), false, false, 0, now)
  }

  /** The store after `postCommentOriginal`: the post's counter is raised by one (a no-op when the
      post does not exist) and the comment is appended. */
  function AddComment(db: Db, c: Comment): Db
  {
    db.(posts := UpdateFirst(db.posts, KeyIs(PostKey, OnPost(c.postId)), BumpComments(1)),
        comments := db.comments + [c])
  }

  /** A new comment whose id no comment or reply uses grows its post's discussion by one and no other. */
  lemma AddCommentSizes(comments: seq<Comment>, replies: seq<Reply>, c: Comment, x: Id)
    requires forall d :: d in comments ==> d.id != c.id
    requires forall r :: r in replies ==> r.comment != c.id
    ensures DiscussionSize(comments + [c], replies, x) == DiscussionSize(comments, replies, x) + (if x == c.postId then 1 else 0)
  {
    FilterConcat(comments, [c], OnPostId(x));
    forall r | r in replies ensures InThread(comments + [c], x)(r) == InThread(comments, x)(r) {
      FindFirstAppend(comments, c, KeyIs(CommentKey, OnComment(r.comment)));
    }
    FilterCongruent(replies, InThread(comments + [c], x), InThread(comments, x));
  }

  /** Creating a comment keeps every post's counter equal to its discussion size, and comment ids unique. */
  lemma AddCommentKeepsCounts(db: Db, c: Comment)
    requires CommentCountsMatch(db) && UniqueKeys(db.posts, PostKey) && CommentIdsUnique(db.comments)
    requires forall d :: d in db.comments ==> d.id != c.id
    requires forall r :: r in db.replies ==> r.comment != c.id
    ensures CommentCountsMatch(AddComment(db, c)) && CommentIdsUnique(AddComment(db, c).comments)
  {
    var db' := AddComment(db, c);
    forall x ensures DiscussionSize(db'.comments, db'.replies, x) ==
                       DiscussionSize(db.comments, db.replies, x) + (if x == c.postId then 1 else 0) {
      AddCommentSizes(db.comments, db.replies, c, x);
    }
    BumpKeepsCounts(db.posts, db.comments, db.replies, db'.comments, db'.replies, c.postId, 1);
  }

  /** Creating a comment keeps every like counter matching its Like rows, provided no Like row names
      the new comment already. */
  lemma AddCommentKeepsLikes(db: Db, c: Comment)
    requires LikesConsistent(db) && c.likesCount == 0
    requires forall l :: l in db.likes ==> l.target != OnComment(c.id)
    ensures LikesConsistent(AddComment(db, c))
  {
    UpdateKeepsCounters(db.posts, db.likes, PostKey, PostLikes, KeyIs(PostKey, OnPost(c.postId)), BumpComments(1));
    AppendKeepsCounters(db.comments, db.likes, CommentKey, CommentLikes, c);
  }

  /** `postCommentOriginal`: a failed upload answers 500, but the comment is still stored and counted. */
  method PostComment(st: Store, actor: Id, postId: Id, text: Option<string>, upload: Upload, newId: Id, now: nat)
    returns (resp: Response<Comment>)
    modifies st
    ensures st.State() == AddComment(old(st.State()), NewComment(newId, actor, postId, text, upload, now))
    ensures upload.UploadFailed? ==> resp == Response(SERVER_ERROR, None)
    ensures !upload.UploadFailed? ==> resp == Response(OK, Some(NewComment(newId, actor, postId, text, upload, now)))
  {
    var c := NewComment(newId, actor, postId, text, upload, now);
    st.posts := UpdateFirst(st.posts, KeyIs(PostKey, OnPost(postId)), BumpComments(1));
    st.comments := st.comments + [c];
    if upload.UploadFailed? {
      resp := Response(SERVER_ERROR, None);
    } else {
      resp := Response(OK, Some(c));
    }
  }

  // ---------------------------------------------------------------- deleteComment

  /** The store after deleting comment c: the comment is gone, its post's counter drops by its
      reply count plus one, and its replies are gone. */
  function RemoveComment(db: Db, c: Comment): Db
  {
    db.(comments := RemoveFirst(db.comments, KeyIs(CommentKey, OnComment(c.id))),
        posts := UpdateFirst(db.posts, KeyIs(PostKey, OnPost(c.postId)), BumpComments(-(ReplyCount(db.replies, c.id) as int + 1))),
        replies := RemoveAll(db.replies, ReplyOf(c.id)))
  }

  /** Removing the first comment with c's id removes one copy of c, keeps every comment with
      another id, adds nothing, and keeps ids unique. */
  lemma RemoveCommentRows(comments: seq<Comment>, c: Comment)
    requires CommentIdsUnique(comments) && c in comments
    ensures var rest := RemoveFirst(comments, KeyIs(CommentKey, OnComment(c.id)));
      && multiset(comments) == multiset(rest) + multiset{c}
      && (forall d :: d in rest ==> d in comments)
      && (forall d :: d in comments && d.id != c.id ==> d in rest)
      && CommentIdsUnique(rest)
  {
    var p := KeyIs(CommentKey, OnComment(c.id));
    var rest := RemoveFirst(comments, p);
    var i := IndexOf(comments, p);
    CommentKeyIs(c.id);
    assert i < |comments| by {
      var k :| 0 <= k < |comments| && comments[k] == c;
      assert p(comments[k]);
    }
    assert comments[i] == c;
    assert multiset(comments) == multiset(rest) + multiset{c};
    forall d | d in rest ensures d in comments {
      assert d in multiset(rest);
      assert d in multiset(comments);
    }
    forall d | d in comments && d.id != c.id ensures d in rest {
      assert d in multiset(comments);
      assert d in multiset(rest);
    }
  }

  /** Deleting a comment changes the parent post of no reply to another comment. */
  lemma RemoveCommentKeepsParent(comments: seq<Comment>, c: Comment, r: Reply)
    requires CommentIdsUnique(comments) && c in comments && r.comment != c.id
    ensures ParentPost(RemoveFirst(comments, KeyIs(CommentKey, OnComment(c.id))), r) == ParentPost(comments, r)
  {
    var rest := RemoveFirst(comments, KeyIs(CommentKey, OnComment(c.id)));
    RemoveCommentRows(comments, c);
    var found := CommentById(comments, r.comment);
    if found.Some? {
      ParentPostIs(comments, r, found.value);
      ParentPostIs(rest, r, found.value);
    }
  }

  /** The replies kept by a comment deletion are counted in the same threads as before. */
  lemma RemoveCommentKeptReplies(comments: seq<Comment>, replies: seq<Reply>, c: Comment, x: Id)
    requires CommentIdsUnique(comments) && c in comments
    ensures var rest := RemoveFirst(comments, KeyIs(CommentKey, OnComment(c.id)));
      |Filter(RemoveAll(replies, ReplyOf(c.id)), InThread(rest, x))| ==
      |Filter(replies, And(InThread(comments, x), Not(ReplyOf(c.id))))|
  {
    var rest := RemoveFirst(comments, KeyIs(CommentKey, OnComment(c.id)));
    var keep, there := Not(ReplyOf(c.id)), InThread(rest, x);
    FilterFilter(replies, keep, there);
    forall r | r in replies ensures And(keep, there)(r) == And(InThread(comments, x), keep)(r) {
      if r.comment != c.id {
        RemoveCommentKeepsParent(comments, c, r);
      }
    }
    FilterCongruent(replies, And(keep, there), And(InThread(comments, x), keep));
  }

  /** The replies to a deleted comment are exactly its post's replies that answer it. */
  lemma RemoveCommentDroppedReplies(comments: seq<Comment>, replies: seq<Reply>, c: Comment, x: Id)
    requires CommentIdsUnique(comments) && c in comments
    ensures |Filter(replies, And(InThread(comments, x), Not(Not(ReplyOf(c.id)))))| ==
              if x == c.postId then ReplyCount(replies, c.id) else 0
  {
    var gone := And(InThread(comments, x), Not(Not(ReplyOf(c.id))));
    if x == c.postId {
      forall r | r in replies ensures gone(r) == ReplyOf(c.id)(r) {
        if r.comment == c.id {
          ParentPostIs(comments, r, c);
        }
      }
      FilterCongruent(replies, gone, ReplyOf(c.id));
    } else {
      forall r | r in replies ensures !gone(r) {
        if r.comment == c.id {
          ParentPostIs(comments, r, c);
        }
      }
      FilterNone(replies, gone);
    }
  }

  /** Deleting a stored comment takes its post's discussion down by one plus its replies, and
      leaves every other post's discussion as it was. */
  lemma RemoveCommentSizes(comments: seq<Comment>, replies: seq<Reply>, c: Comment, x: Id)
    requires CommentIdsUnique(comments) && c in comments
    ensures DiscussionSize(RemoveFirst(comments, KeyIs(CommentKey, OnComment(c.id))), RemoveAll(replies, ReplyOf(c.id)), x) ==
              DiscussionSize(comments, replies, x) - (if x == c.postId then ReplyCount(replies, c.id) + 1 else 0)
  {
    var rest := RemoveFirst(comments, KeyIs(CommentKey, OnComment(c.id)));
    RemoveCommentRows(comments, c);
    FilterOneMore(comments, rest, c, OnPostId(x));
    FilterSplitCount(replies, InThread(comments, x), Not(ReplyOf(c.id)));
    RemoveCommentKeptReplies(comments, replies, c, x);
    RemoveCommentDroppedReplies(comments, replies, c, x);
  }

  /** Deleting a comment keeps every post's counter equal to its discussion size, and comment ids unique. */
  lemma RemoveCommentKeepsCounts(db: Db, c: Comment)
    requires CommentCountsMatch(db) && UniqueKeys(db.posts, PostKey) && CommentIdsUnique(db.comments)
    requires c in db.comments
    ensures CommentCountsMatch(RemoveComment(db, c)) && CommentIdsUnique(RemoveComment(db, c).comments)
  {
    var rest := RemoveFirst(db.comments, KeyIs(CommentKey, OnComment(c.id)));
    var kept := RemoveAll(db.replies, ReplyOf(c.id));
    RemoveCommentRows(db.comments, c);
    RemoveCommentSizes(db.comments, db.replies, c, c.postId);
    forall x | x != c.postId ensures DiscussionSize(rest, kept, x) == DiscussionSize(db.comments, db.replies, x) {
      RemoveCommentSizes(db.comments, db.replies, c, x);
    }
    BumpKeepsCounts(db.posts, db.comments, db.replies, rest, kept, c.postId, -(ReplyCount(db.replies, c.id) as int + 1));
  }

  /** `deleteComment`: no ownership check; a missing comment answers 404 and changes nothing. */
  method DeleteComment(st: Store, commentId: Id) returns (resp: Response<Comment>)
    modifies st
    ensures CommentById(old(st.comments), commentId).None? ==>
              resp == Response(NOT_FOUND, None) && st.State() == old(st.State())
    ensures CommentById(old(st.comments), commentId).Some? ==>
              var c := CommentById(old(st.comments), commentId).value;
              resp == Response(OK, Some(c)) && st.State() == RemoveComment(old(st.State()), c)
  {
    var found := CommentById(st.comments, commentId);
    if found.None? {
      return Response(NOT_FOUND, None);
    }
    var c := found.value;
    var after := RemoveComment(st.State(), c);
    st.comments, st.posts, st.replies := after.comments, after.posts, after.replies;
    resp := Response(OK, Some(c));
  }

  // ---------------------------------------------------------------- editComment / pinComment

  function SetCommentText(text: string): Comment -> Comment
  {
    (c: Comment) => c.(text := text, edited := true)
  }

  function FlipCommentPin(): Comment -> Comment
  {
    (c: Comment) => c.(pinned := !c.pinned)
  }

  /** Two comment lists that agree, position by position, on ids and posts. */
  ghost predicate SameKeys(a: seq<Comment>, b: seq<Comment>)
  {
    |a| == |b| && forall k :: 0 <= k < |a| ==> a[k].id == b[k].id && a[k].postId == b[k].postId
  }

  /** Lists that agree on ids and posts have equally many comments on each post. */
  lemma {:induction false} SameKeysCount(a: seq<Comment>, b: seq<Comment>, x: Id)
    requires SameKeys(a, b)
    ensures |Filter(a, OnPostId(x))| == |Filter(b, OnPostId(x))|
    decreases |a|
  {
    if a != [] {
      assert SameKeys(a[1..], b[1..]) by {
        forall k | 0 <= k < |a| - 1 ensures a[1..][k].id == b[1..][k].id && a[1..][k].postId == b[1..][k].postId {
          assert a[1..][k] == a[k + 1] && b[1..][k] == b[k + 1];
        }
      }
      SameKeysCount(a[1..], b[1..], x);
    }
  }

  /** Lists that agree on ids and posts give every reply the same parent post. */
  lemma SameKeysParent(a: seq<Comment>, b: seq<Comment>, r: Reply)
    requires SameKeys(a, b)
    ensures ParentPost(a, r) == ParentPost(b, r)
  {
    var p := KeyIs(CommentKey, OnComment(r.comment));
    var i := IndexOf(a, p);
    var j := IndexOf(b, p);
    CommentKeyIs(r.comment);
    forall k | 0 <= k < |a| ensures p(a[k]) == p(b[k]) {
    }
    assert i == j;
  }

  /** A rewrite of one comment that keeps its id and post (an edit or a pin) leaves every
      discussion size as it was. */
  lemma RewriteCommentSizes(cs: seq<Comment>, replies: seq<Reply>, id: Id, f: Comment -> Comment, x: Id)
    requires forall c :: f(c).id == c.id && f(c).postId == c.postId
    ensures DiscussionSize(UpdateFirst(cs, KeyIs(CommentKey, OnComment(id)), f), replies, x) == DiscussionSize(cs, replies, x)
  {
    var cs' := UpdateFirst(cs, KeyIs(CommentKey, OnComment(id)), f);
    assert SameKeys(cs', cs);
    SameKeysCount(cs', cs, x);
    forall r ensures InThread(cs', x)(r) == InThread(cs, x)(r) {
      SameKeysParent(cs', cs, r);
    }
    FilterCongruent(replies, InThread(cs', x), InThread(cs, x));
  }

  // ---------------------------------------------------------------- editComment / pinComment handlers

  /** A rewrite of one comment that keeps its id and post keeps every post's counter matching. */
  lemma RewriteCommentKeepsCounts(db: Db, id: Id, f: Comment -> Comment)
    requires CommentCountsMatch(db)
    requires forall c :: f(c).id == c.id && f(c).postId == c.postId
    ensures CommentCountsMatch(db.(comments := UpdateFirst(db.comments, KeyIs(CommentKey, OnComment(id)), f)))
  {
    forall x ensures DiscussionSize(UpdateFirst(db.comments, KeyIs(CommentKey, OnComment(id)), f), db.replies, x)
                     == DiscussionSize(db.comments, db.replies, x) {
      RewriteCommentSizes(db.comments, db.replies, id, f, x);
    }
  }

  /** Pinning the same comment twice gives back the comments as they were. */
  lemma PinCommentTwice(comments: seq<Comment>, id: Id)
    ensures var p := KeyIs(CommentKey, OnComment(id));
      UpdateFirst(UpdateFirst(comments, p, FlipCommentPin()), p, FlipCommentPin()) == comments
  {
    var p, f := KeyIs(CommentKey, OnComment(id)), FlipCommentPin();
    forall x ensures p(f(x)) == p(x) && f(f(x)) == x {
      assert CommentKey(f(x)) == CommentKey(x);
    }
    UpdateFirstUndone(comments, p, f, f);
  }

  /** `editComment`: only the comment's author may edit; an edit sets the text and marks the comment
      edited. A missing comment fails when its author is read, and the catch block answers 404. */
  method EditComment(st: Store, actor: Id, commentId: Id, text: Option<string>) returns (resp: Response<Comment>)
    modifies st
    ensures var found := CommentById(old(st.comments), commentId);
      && (found.None? ==> resp == Response(NOT_FOUND, None) && st.State() == old(st.State()))
      && (found.Some? && found.value.user != actor ==> resp == Response(FORBIDDEN, None) && st.State() == old(st.State()))
      && (found.Some? && found.value.user == actor ==>
            var edited := SetCommentText(if text.Some? then text.value else "");
            && resp == Response(OK, Some(edited(found.value)))
            && st.State() == old(st.State()).(comments := UpdateFirst(old(st.comments), KeyIs(CommentKey, OnComment(commentId)), edited)))
  {
    var found := CommentById(st.comments, commentId);
    if found.None? {
      return Response(NOT_FOUND, None);
    }
    if found.value.user != actor {
      return Response(FORBIDDEN, None);
    }
    var edited := SetCommentText(if text.Some? then text.value else "");
    st.comments := UpdateFirst(st.comments, KeyIs(CommentKey, OnComment(commentId)), edited);
    resp := Response(OK, Some(edited(found.value)));
  }

  /** `pinComment`: only the owner of the comment's post may pin, and pinning flips the flag. A missing
      comment or post fails on a dereference, and the catch block answers 404. */
  method PinComment(st: Store, actor: Id, commentId: Id) returns (resp: Response<Comment>)
    modifies st
    ensures var found := CommentById(old(st.comments), commentId);
            var post := if found.Some? then PostById(old(st.posts), found.value.postId) else None;
      && (post.None? ==> resp == Response(NOT_FOUND, None) && st.State() == old(st.State()))
      && (post.Some? && post.value.userId != actor ==> resp == Response(FORBIDDEN, None) && st.State() == old(st.State()))
      && (post.Some? && post.value.userId == actor ==>
            && resp == Response(OK, Some(FlipCommentPin()(found.value)))
            && st.State() == old(st.State()).(comments := UpdateFirst(old(st.comments), KeyIs(CommentKey, OnComment(commentId)), FlipCommentPin())))
  {
    var found := CommentById(st.comments, commentId);
    if found.None? {
      return Response(NOT_FOUND, None);
    }
    var post := PostById(st.posts, found.value.postId);
    if post.None? {
      return Response(NOT_FOUND, None);
    }
    if post.value.userId != actor {
      return Response(FORBIDDEN, None);
    }
    st.comments := UpdateFirst(st.comments, KeyIs(CommentKey, OnComment(commentId)), FlipCommentPin());
    resp := Response(OK, Some(FlipCommentPin()(found.value)));
  }

  // ---------------------------------------------------------------- getComments

  /** `sort({pinned: -1, createdAt: -1})`: pinned comments first, then newest first. */
  predicate CommentBefore(a: Comment, b: Comment)
  {
    (a.pinned && !b.pinned) || (a.pinned == b.pinned && a.createdAt >= b.createdAt)
  }

  predicate ViewBefore(a: CommentView, b: CommentView)
  {
    CommentBefore(a.comment, b.comment)
  }

  lemma CommentOrderTotal()
    ensures TotalPreorder(CommentBefore)
  {
  }

  /** A comment as listed to `viewer`: whether the viewer likes it and how many replies it has. */
  function ViewComment(likes: seq<Like>, replies: seq<Reply>, viewer: Id, highlight: bool): Comment -> CommentView
  {
    (c: Comment) => CommentView(c, Like(viewer, OnComment(c.id)) in likes, ReplyCount(replies, c.id), highlight)
  }

  function NotComment(id: Id): CommentView -> bool
  {
    (v: CommentView) => v.comment.id != id
  }

  /** A listed comment is a stored one, shown with the viewer's like status and its reply count. */
  predicate ShownFor(db: Db, viewer: Id, v: CommentView)
  {
    && v.comment in db.comments
    && v.isLiked == (Like(viewer, OnComment(v.comment.id)) in db.likes)
    && v.replyCount == ReplyCount(db.replies, v.comment.id)
  }

  /** The listing before the highlight merge: one page of the post's comments in listing order. */
  function CommentPage(db: Db, viewer: Id, postId: Id, page: Option<string>, limit: Option<nat>): (r: Option<seq<CommentView>>)
    ensures r.None? <==> Offset(QueryNumber(page), LimitOr(limit, 5)).None?
    ensures r.Some? ==> LimitOr(limit, 5) > 0 ==> |r.value| <= LimitOr(limit, 5)
    ensures r.Some? ==> forall v :: v in r.value ==> ShownFor(db, viewer, v) && v.comment.postId == postId && !v.highlight
  {
    match Select(db.comments, OnPostId(postId), CommentBefore, QueryNumber(page), LimitOr(limit, 5))
    case None => None
    case Some(rows) => Some(MapSeq(rows, ViewComment(db.likes, db.replies, viewer, false)))
  }

  /** Whether `getComments` puts a highlighted comment first: on page "1" exactly, with a valid
      comment id that names a stored comment (of any post). */
  function Highlighted(db: Db, commentId: Option<Id>, page: Option<string>): Option<Comment>
  {
    if page == Some("1") && commentId.Some? then CommentById(db.comments, commentId.value) else None
  }

  /** The highlighted view first, then the page without the highlighted comment. */
  function PutFirst(first: CommentView, views: seq<CommentView>, id: Id): (out: seq<CommentView>)
    ensures |out| >= 1 && out[0] == first
    ensures forall k :: 1 <= k < |out| ==> out[k] in views && out[k].comment.id != id
    ensures forall v :: v in out ==> v == first || v in views
  {
    var rest := Filter(views, NotComment(id));
    assert forall k :: 1 <= k < |[first] + rest| ==> ([first] + rest)[k] == rest[k - 1] && rest[k - 1] in rest;
    [first] + rest
  }

  /** `getComments`: one page of the post's comments, pinned first and then newest first, with a
      default page size of 5, each carrying the viewer's like status and its reply count. On page "1"
      the comment named in the path, if it exists, comes first with `highlight` set, and is not
      repeated in the rest. A page number that makes the skip NaN or negative ends in the catch, 404. */
  function ListComments(db: Db, viewer: Id, postId: Id, commentId: Option<Id>, page: Option<string>, limit: Option<nat>)
    : (r: Response<seq<CommentView>>)
    ensures Offset(QueryNumber(page), LimitOr(limit, 5)).None? <==> r == Response(NOT_FOUND, None)
    ensures r.status == OK ==> r.body.Some? && forall v :: v in r.body.value ==>
              ShownFor(db, viewer, v) && (!v.highlight ==> v.comment.postId == postId)
    ensures r.status == OK && Highlighted(db, commentId, page).None? ==>
              && (forall v :: v in r.body.value ==> !v.highlight)
              && (LimitOr(limit, 5) > 0 ==> |r.body.value| <= LimitOr(limit, 5))
    ensures r.status == OK && Highlighted(db, commentId, page).Some? ==>
              && |r.body.value| >= 1
              && r.body.value[0] == ViewComment(db.likes, db.replies, viewer, true)(Highlighted(db, commentId, page).value)
              && r.body.value[0].comment.id == commentId.value
              && forall k :: 1 <= k < |r.body.value| ==> !r.body.value[k].highlight && r.body.value[k].comment.id != commentId.value
  {
    match CommentPage(db, viewer, postId, page, limit)
    case None => Response(NOT_FOUND, None)
    case Some(views) =>
      match Highlighted(db, commentId, page)
      case None => Response(OK, Some(views))
      case Some(c) =>
        var first := ViewComment(db.likes, db.replies, viewer, true)(c);
        assert ShownFor(db, viewer, first);
        Response(OK, Some(PutFirst(first, views, commentId.value)))
  }

  /** Apart from the highlighted comment, the listing is in listing order: pinned first, newest first. */
  lemma ListCommentsOrdered(db: Db, viewer: Id, postId: Id, commentId: Option<Id>, page: Option<string>, limit: Option<nat>)
    requires ListComments(db, viewer, postId, commentId, page, limit).status == OK
    ensures var body := ListComments(db, viewer, postId, commentId, page, limit).body.value;
      Sorted(if Highlighted(db, commentId, page).Some? then body[1..] else body, ViewBefore)
  {
    var rows := Select(db.comments, OnPostId(postId), CommentBefore, QueryNumber(page), LimitOr(limit, 5)).value;
    var views := MapSeq(rows, ViewComment(db.likes, db.replies, viewer, false));
    CommentOrderTotal();
    SelectSorted(db.comments, OnPostId(postId), CommentBefore, QueryNumber(page), LimitOr(limit, 5));
    MapSeqSorted(rows, ViewComment(db.likes, db.replies, viewer, false), CommentBefore, ViewBefore);
    assert CommentPage(db, viewer, postId, page, limit) == Some(views);
    if Highlighted(db, commentId, page).Some? {
      FilterSorted(views, NotComment(commentId.value), ViewBefore);
      var body := ListComments(db, viewer, postId, commentId, page, limit).body.value;
      assert body[1..] == Filter(views, NotComment(commentId.value));
    }
  }
}
