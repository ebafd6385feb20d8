/** Replies to comments: posting, deleting, editing and listing them, and what each does to the
    discussion counter of the post above them. */
module Replies {
  import opened Model
  import opened Query
  import opened Storage
  import opened Text
  import opened Likes
  import opened Comments

  /** The reply stored under id `id`, as `findById` finds it. */
  function ReplyById(replies: seq<Reply>, id: Id): (r: Option<Reply>)
    ensures r.None? <==> forall x :: x in replies ==> x.id != id
    ensures r.Some? ==> r.value in replies && r.value.id == id
  {
    ReplyKeyIs(id);
    FindFirst(replies, KeyIs(ReplyKey, OnReply(id)))
  }

  lemma ReplyKeyIs(id: Id)
    ensures forall r :: KeyIs(ReplyKey, OnReply(id))(r) == (r.id == id)
  {
    forall r ensures KeyIs(ReplyKey, OnReply(id))(r) == (r.id == id) {
      assert KeyIs(ReplyKey, OnReply(id))(r) == (ReplyKey(r) == OnReply(id));
    }
  }

  // ---------------------------------------------------------------- postReply

  /** The reply `postReply` stores: by the actor, under the path's comment, with "" standing in
      for a missing text or picture. */
  function NewReply(id: Id, actor: Id, commentId: Id, text: Option<string>, upload: Upload, now: nat): (r: Reply)
    ensures r.id == id && r.user == actor && r.comment == commentId && r.likesCount == 0 && !r.edited
    ensures r.text == (if text.Some? then text.value else "")
    ensures r.picturePath == (if upload.Uploaded? then upload.url else "")
  {
    Reply(id, actor, commentId, if text.Some? then text.value else "",
          if upload.Uploaded? then upload.url else "", false, 0, now)
  }

  /** The store after `postReply`: the reply is appended, and the post named in the request body,
      if one is named and exists, has its counter raised by one. */
  function AddReply(db: Db, r: Reply, postId: Option<Id>): Db
  {
    db.(replies := db.replies + [r],
        posts := if postId.Some? then UpdateFirst(db.posts, KeyIs(PostKey, OnPost(postId.value)), BumpComments(1)) else db.posts)
  }

  /** A new reply joins the thread of its comment's post and no other. */
  lemma AddReplySizes(comments: seq<Comment>, replies: seq<Reply>, r: Reply, x: Id)
    ensures DiscussionSize(comments, replies + [r], x) ==
              DiscussionSize(comments, replies, x) + (if ParentPost(comments, r) == Some(x) then 1 else 0)
  {
    FilterConcat(replies, [r], InThread(comments, x));
  }

  /** When the body's post id is the post of the comment being answered (none when that comment
      does not exist), posting a reply keeps every post's counter equal to its discussion size. */
  lemma AddReplyKeepsCounts(db: Db, r: Reply, postId: Option<Id>)
    requires CommentCountsMatch(db) && UniqueKeys(db.posts, PostKey)
    requires postId == ParentPost(db.comments, r)
    ensures CommentCountsMatch(AddReply(db, r, postId))
  {
    var db' := AddReply(db, r, postId);
    forall x: Id ensures DiscussionSize(db'.comments, db'.replies, x) ==
                     DiscussionSize(db.comments, db.replies, x) + (if postId == Some(x) then 1 else 0) {
      AddReplySizes(db.comments, db.replies, r, x);
    }
    if postId.Some? {
      BumpKeepsCounts(db.posts, db.comments, db.replies, db'.comments, db'.replies, postId.value, 1);
    }
  }

  /** Creating a reply keeps every like counter matching its Like rows, provided no Like row names
      the new reply already. */
  lemma AddReplyKeepsLikes(db: Db, r: Reply, postId: Option<Id>)
    requires LikesConsistent(db) && r.likesCount == 0
    requires forall l :: l in db.likes ==> l.target != OnReply(r.id)
    ensures LikesConsistent(AddReply(db, r, postId))
  {
    if postId.Some? {
      UpdateKeepsCounters(db.posts, db.likes, PostKey, PostLikes, KeyIs(PostKey, OnPost(postId.value)), BumpComments(1));
    }
    AppendKeepsCounters(db.replies, db.likes, ReplyKey, ReplyLikes, r);
  }

  /** `postReply`: a failed upload answers 500, but the reply is still stored and counted. */
  method PostReply(st: Store, actor: Id, commentId: Id, text: Option<string>, upload: Upload,
                   postId: Option<Id>, newId: Id, now: nat)
    returns (resp: Response<Reply>)
    modifies st
    ensures st.State() == AddReply(old(st.State()), NewReply(newId, actor, commentId, text, upload, now), postId)
    ensures upload.UploadFailed? ==> resp == Response(SERVER_ERROR, None)
    ensures !upload.UploadFailed? ==> resp == Response(OK, Some(NewReply(newId, actor, commentId, text, upload, now)))
  {
    var r := NewReply(newId, actor, commentId, text, upload, now);
    st.replies := st.replies + [r];
    if postId.Some? {
      st.posts := UpdateFirst(st.posts, KeyIs(PostKey, OnPost(postId.value)), BumpComments(1));
    }
    if upload.UploadFailed? {
      resp := Response(SERVER_ERROR, None);
    } else {
      resp := Response(OK, Some(r));
    }
  }

  // ---------------------------------------------------------------- deleteReply

  /** The store after deleting reply r of post q: the post's counter drops by one and the reply is gone. */
  function RemoveReply(db: Db, r: Reply, q: Id): Db
  {
    db.(posts := UpdateFirst(db.posts, KeyIs(PostKey, OnPost(q)), BumpComments(-1)),
        replies := RemoveFirst(db.replies, KeyIs(ReplyKey, OnReply(r.id))))
  }

  /** Removing the reply found under its id takes exactly that reply out. */
  lemma RemoveReplyRows(replies: seq<Reply>, r: Reply)
    requires ReplyById(replies, r.id) == Some(r)
    ensures multiset(replies) == multiset(RemoveFirst(replies, KeyIs(ReplyKey, OnReply(r.id)))) + multiset{r}
  {
    var i := IndexOf(replies, KeyIs(ReplyKey, OnReply(r.id)));
    assert replies[i] == r;
  }

  /** Deleting a reply of post q shrinks q's discussion by one and no other. */
  lemma RemoveReplySizes(comments: seq<Comment>, replies: seq<Reply>, r: Reply, q: Id, x: Id)
    requires ReplyById(replies, r.id) == Some(r)
    requires ParentPost(comments, r) == Some(q)
    ensures DiscussionSize(comments, RemoveFirst(replies, KeyIs(ReplyKey, OnReply(r.id))), x) ==
              DiscussionSize(comments, replies, x) - (if x == q then 1 else 0)
  {
    RemoveReplyRows(replies, r);
    FilterOneMore(replies, RemoveFirst(replies, KeyIs(ReplyKey, OnReply(r.id))), r, InThread(comments, x));
  }

  /** Deleting a reply keeps every post's counter equal to its discussion size. */
  lemma RemoveReplyKeepsCounts(db: Db, r: Reply, q: Id)
    requires CommentCountsMatch(db) && UniqueKeys(db.posts, PostKey)
    requires ReplyById(db.replies, r.id) == Some(r)
    requires ParentPost(db.comments, r) == Some(q)
    ensures CommentCountsMatch(RemoveReply(db, r, q))
  {
    var db' := RemoveReply(db, r, q);
    forall x: Id ensures DiscussionSize(db'.comments, db'.replies, x) ==
                     DiscussionSize(db.comments, db.replies, x) - (if x == q then 1 else 0) {
      RemoveReplySizes(db.comments, db.replies, r, q, x);
    }
    BumpKeepsCounts(db.posts, db.comments, db.replies, db'.comments, db'.replies, q, -1);
  }

  /** Posting a reply under post q's comment and then deleting it gives back the store as it was,
      the counter of q included. */
  lemma PostThenDeleteReply(db: Db, r: Reply, q: Id)
    requires forall x :: x in db.replies ==> x.id != r.id
    ensures ReplyById(AddReply(db, r, Some(q)).replies, r.id) == Some(r)
    ensures RemoveReply(AddReply(db, r, Some(q)), r, q) == db
  {
    var db1 := AddReply(db, r, Some(q));
    var p := KeyIs(ReplyKey, OnReply(r.id));
    ReplyKeyIs(r.id);
    assert IndexOf(db1.replies, p) == |db.replies| by {
      assert p(db1.replies[|db.replies|]);
      forall k | 0 <= k < |db.replies| ensures !p(db1.replies[k]) {
        assert db1.replies[k] == db.replies[k];
      }
    }
    var rest := RemoveFirst(db1.replies, p);
    assert rest == db.replies by {
      forall k | 0 <= k < |rest| ensures rest[k] == db.replies[k] {
        assert rest[k] == db1.replies[k];
      }
    }
    var pp, up, down := KeyIs(PostKey, OnPost(q)), BumpComments(1), BumpComments(-1);
    forall x ensures pp(up(x)) == pp(x) && down(up(x)) == x {
      assert PostKey(up(x)) == PostKey(x);
      assert down(up(x)) == x.(commentCount := x.commentCount + 1 - 1);
    }
    UpdateFirstUndone(db.posts, pp, up, down);
  }

  /** `deleteReply`: only the reply's author may delete it. A missing reply fails on a dereference
      and the catch block answers 500; so does a reply whose comment no longer exists, before
      anything is changed. */
  method DeleteReply(st: Store, actor: Id, replyId: Id) returns (resp: Response<()>)
    modifies st
    ensures var found := ReplyById(old(st.replies), replyId);
            var parent := if found.Some? then ParentPost(old(st.comments), found.value) else None;
      && (found.None? ==> resp == Response(SERVER_ERROR, None) && st.State() == old(st.State()))
      && (found.Some? && found.value.user != actor ==> resp == Response(FORBIDDEN, None) && st.State() == old(st.State()))
      && (found.Some? && found.value.user == actor && parent.None? ==>
            resp == Response(SERVER_ERROR, None) && st.State() == old(st.State()))
      && (found.Some? && found.value.user == actor && parent.Some? ==>
            resp == Response(OK, Some(())) && st.State() == RemoveReply(old(st.State()), found.value, parent.value))
  {
    var found := ReplyById(st.replies, replyId);
    if found.None? {
      return Response(SERVER_ERROR, None);
    }
    if found.value.user != actor {
      return Response(FORBIDDEN, None);
    }
    var parent := ParentPost(st.comments, found.value);
    if parent.None? {
      return Response(SERVER_ERROR, None);
    }
    st.posts := UpdateFirst(st.posts, KeyIs(PostKey, OnPost(parent.value)), BumpComments(-1));
    st.replies := RemoveFirst(st.replies, KeyIs(ReplyKey, OnReply(replyId)));
    resp := Response(OK, Some(()));
  }

  // ---------------------------------------------------------------- editReply

  function SetReplyText(text: string): Reply -> Reply
  {
    (r: Reply) => r.(text := text, edited := true)
  }

  /** An edit keeps every post's counter equal to its discussion size. */
  lemma EditReplyKeepsCounts(db: Db, replyId: Id, text: string)
    requires CommentCountsMatch(db)
    ensures CommentCountsMatch(db.(replies := UpdateFirst(db.replies, KeyIs(ReplyKey, OnReply(replyId)), SetReplyText(text))))
  {
    forall x ensures |Filter(UpdateFirst(db.replies, KeyIs(ReplyKey, OnReply(replyId)), SetReplyText(text)), InThread(db.comments, x))|
                     == |Filter(db.replies, InThread(db.comments, x))| {
      UpdateFirstFilterCount(db.replies, KeyIs(ReplyKey, OnReply(replyId)), SetReplyText(text), InThread(db.comments, x));
    }
  }

  /** What `editReply` answers with: the reply's comment and the text sent. */
  datatype EditedReply = EditedReply(comment: Id, text: Option<string>)

  /** `editReply`: only the reply's author may edit; an edit sets the text and marks the reply edited.
      A missing reply fails on a dereference and the catch block answers 500. */
  method EditReply(st: Store, actor: Id, replyId: Id, text: Option<string>) returns (resp: Response<EditedReply>)
    modifies st
    ensures var found := ReplyById(old(st.replies), replyId);
      && (found.None? ==> resp == Response(SERVER_ERROR, None) && st.State() == old(st.State()))
      && (found.Some? && found.value.user != actor ==> resp == Response(FORBIDDEN, None) && st.State() == old(st.State()))
      && (found.Some? && found.value.user == actor ==>
            && resp == Response(OK, Some(EditedReply(found.value.comment, text)))
            && st.State() == old(st.State()).(replies := UpdateFirst(old(st.replies), KeyIs(ReplyKey, OnReply(replyId)),
                                                                    SetReplyText(if text.Some? then text.value else ""))))
  {
    var found := ReplyById(st.replies, replyId);
    if found.None? {
      return Response(SERVER_ERROR, None);
    }
    if found.value.user != actor {
      return Response(FORBIDDEN, None);
    }
    st.replies := UpdateFirst(st.replies, KeyIs(ReplyKey, OnReply(replyId)), SetReplyText(if text.Some? then text.value else ""));
    resp := Response(OK, Some(EditedReply(found.value.comment, text)));
  }

  // ---------------------------------------------------------------- getReplies

  /** `sort({createdAt: -1})`: newest first. */
  predicate ReplyNewer(a: Reply, b: Reply)
  {
    a.createdAt >= b.createdAt
  }

  lemma ReplyNewerTotal()
    ensures TotalPreorder(ReplyNewer)
  {
  }

  predicate LikedReplyNewer(a: Liked<Reply>, b: Liked<Reply>)
  {
    ReplyNewer(a.doc, b.doc)
  }

  function ViewReply(likes: seq<Like>, viewer: Id): Reply -> Liked<Reply>
  {
    (r: Reply) => Liked(r, Like(viewer, OnReply(r.id)) in likes)
  }

  /** `getReplies`: six of the comment's replies per page, newest first, each with the viewer's like
      status. A page number that makes the skip NaN or negative ends in the catch, 500. */
  function ListReplies(db: Db, viewer: Id, commentId: Id, page: Option<string>): (r: Response<seq<Liked<Reply>>>)
    ensures Offset(QueryNumber(page), 6).None? <==> r == Response(SERVER_ERROR, None)
    ensures r.status == OK ==> r.body.Some? && |r.body.value| <= 6
    ensures r.status == OK ==> forall v :: v in r.body.value ==>
              && v.doc in db.replies && v.doc.comment == commentId
              && v.isLiked == (Like(viewer, OnReply(v.doc.id)) in db.likes)
  {
    match Select(db.replies, ReplyOf(commentId), ReplyNewer, QueryNumber(page), 6)
    case None => Response(SERVER_ERROR, None)
    case Some(rows) => Response(OK, Some(MapSeq(rows, ViewReply(db.likes, viewer))))
  }

  /** The replies come newest first, and page n starts at the reply 6 * (n - 1) in that order. */
  lemma ListRepliesOrdered(db: Db, viewer: Id, commentId: Id, page: Option<string>)
    requires ListReplies(db, viewer, commentId, page).status == OK
    ensures var body := ListReplies(db, viewer, commentId, page).body.value;
            var sorted := SortBy(Filter(db.replies, ReplyOf(commentId)), ReplyNewer);
      && Sorted(body, LikedReplyNewer)
      && forall k :: 0 <= k < |body| ==> body[k].doc == sorted[6 * (QueryNumber(page).value - 1) + k]
  {
    var rows := Select(db.replies, ReplyOf(commentId), ReplyNewer, QueryNumber(page), 6).value;
    var body := MapSeq(rows, ViewReply(db.likes, viewer));
    assert ListReplies(db, viewer, commentId, page).body.value == body;
    ReplyNewerTotal();
    SelectSorted(db.replies, ReplyOf(commentId), ReplyNewer, QueryNumber(page), 6);
    SelectWindow(db.replies, ReplyOf(commentId), ReplyNewer, QueryNumber(page), 6);
    MapSeqSorted(rows, ViewReply(db.likes, viewer), ReplyNewer, LikedReplyNewer);
  }
}
