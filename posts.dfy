/** Posts: creating one from its author's record, the feed with its friends-first fallback, a
    user's posts, single-post reads, and the owner-gated edit and pin, and the delete cascade. */
module Posts {
  import opened Model
  import opened Query
  import opened Storage
  import opened Text
  import opened Likes
  import opened Comments

  function UserIdIs(id: Id): User -> bool
  {
    (u: User) => u.id == id
  }

  /** The user stored under id `id`, as `findById` finds it. */
  function UserById(users: seq<User>, id: Id): (r: Option<User>)
    ensures r.None? <==> forall u :: u in users ==> u.id != id
    ensures r.Some? ==> r.value in users && r.value.id == id
  {
    FindFirst(users, UserIdIs(id))
  }

  /** The post inside a listed entry. */
  function PostDoc(v: Liked<Post>): Post
  {
    v.doc
  }

  /** Whether `viewer` likes post p: a Like row for the pair exists. */
  function ViewPost(likes: seq<Like>, viewer: Id): Post -> Liked<Post>
  {
    (p: Post) => Liked(p, Like(viewer, OnPost(p.id)) in likes)
  }

  /** A listed post is a stored one, shown with the viewer's like status. */
  predicate PostShownFor(db: Db, viewer: Id, v: Liked<Post>)
  {
    v.doc in db.posts && v.isLiked == (Like(viewer, OnPost(v.doc.id)) in db.likes)
  }

  // ---------------------------------------------------------------- createPost

  /** The longest description the post schema accepts. */
  const MAX_DESCRIPTION: nat := 2000

  /** What the post schema's validators demand on save: a non-empty first name and a description
      of at most 2000 UTF-16 code units. */
  predicate PostValid(p: Post)
  {
    p.firstName != "" && Utf16Length(p.description) <= MAX_DESCRIPTION
  }

  /** The post `createPost` builds for author u: the author's name, picture, location and verified
      flag are copied onto it; counters start at zero and nothing is pinned or edited. */
  function NewPost(id: Id, u: User, description: Option<string>, upload: Upload, textAddition: Option<string>, now: nat): (p: Post)
    ensures p.id == id && p.userId == u.id
    ensures p.firstName == u.firstName && p.lastName == u.lastName && p.userPicturePath == u.picturePath
    ensures p.location == u.location && p.verified == u.verified
    ensures p.description == (if description.Some? then description.value else "")
    ensures p.picturePath == UploadedUrl(upload) && p.textAddition == textAddition
    ensures !p.edited && !p.pinned && p.likesCount == 0 && p.commentCount == 0 && p.shareCount == 0
  {
    Post(id, u.id, u.firstName, u.lastName, u.picturePath, u.location, u.verified,
         if description.Some? then description.value else "", UploadedUrl(upload), textAddition,
         None, false, false, 0, 0, 0, now)
  }

  /** The author `createPost` looks up: the user named by the body's `userId`, when there is one. */
  function Author(users: seq<User>, userId: Option<Id>): Option<User>
  {
    if userId.Some? then UserById(users, userId.value) else None
  }

  /** `createPost`: a failed upload answers 500 at once; a missing author fails on a dereference and
      a post the validators refuse fails on save, both 500 with nothing stored. Otherwise the post
      is stored and returned with 201. */
  method CreatePost(st: Store, userId: Option<Id>, description: Option<string>, textAddition: Option<string>,
                    upload: Upload, newId: Id, now: nat)
    returns (resp: Response<Post>)
    modifies st
    ensures var author := Author(old(st.users), userId);
      && (upload.UploadFailed? || author.None? ==> resp == Response(SERVER_ERROR, None) && st.State() == old(st.State()))
      && (!upload.UploadFailed? && author.Some? ==>
            var p := NewPost(newId, author.value, description, upload, textAddition, now);
            && (!PostValid(p) ==> resp == Response(SERVER_ERROR, None) && st.State() == old(st.State()))
            && (PostValid(p) ==> resp == Response(CREATED, Some(p)) && st.State() == old(st.State()).(posts := old(st.posts) + [p])))
  {
    if upload.UploadFailed? {
      return Response(SERVER_ERROR, None);
    }
    var author := Author(st.users, userId);
    if author.None? {
      return Response(SERVER_ERROR, None);
    }
    var p := NewPost(newId, author.value, description, upload, textAddition, now);
    if !PostValid(p) {
      return Response(SERVER_ERROR, None);
    }
    st.posts := st.posts + [p];
    resp := Response(CREATED, Some(p));
  }

  /** Creating a post keeps every like counter matching its Like rows, provided no Like row names
      the new post already. */
  lemma CreatePostKeepsLikes(db: Db, p: Post)
    requires LikesConsistent(db) && p.likesCount == 0
    requires forall l :: l in db.likes ==> l.target != OnPost(p.id)
    ensures LikesConsistent(db.(posts := db.posts + [p]))
  {
    AppendKeepsCounters(db.posts, db.likes, PostKey, PostLikes, p);
  }

  /** Creating a post keeps every post's comment counter equal to its discussion, provided no
      stored comment names the new post already. */
  lemma CreatePostKeepsCounts(db: Db, p: Post)
    requires CommentCountsMatch(db) && p.commentCount == 0
    requires forall c :: c in db.comments ==> c.postId != p.id
    ensures CommentCountsMatch(db.(posts := db.posts + [p]))
  {
    NoCommentsNoDiscussion(db.comments, db.replies, p.id);
  }

  // ---------------------------------------------------------------- getFeedPosts

  /** The far end of friend edge e, seen from `id`. */
  function OtherEnd(id: Id): Friend -> Id
  {
    (e: Friend) => if e.sender == id then e.receiver else e.sender
  }

  /** An accepted edge with `id` at either end. */
  function AcceptedWith(id: Id): Friend -> bool
  {
    (e: Friend) => e.status == Accepted && (e.sender == id || e.receiver == id)
  }

  /** The ids of `id`'s friends: for each accepted edge touching `id`, the id at its other end. */
  function FriendIds(friends: seq<Friend>, id: Id): (r: seq<Id>)
    ensures |r| == |Filter(friends, AcceptedWith(id))|
  {
    MapSeq(Filter(friends, AcceptedWith(id)), OtherEnd(id))
  }

  /** x is a friend id of `id` exactly when an accepted edge joins the two, in either direction. */
  lemma FriendIdsExactly(friends: seq<Friend>, id: Id, x: Id)
    ensures x in FriendIds(friends, id) <==>
              exists e :: e in friends && e.status == Accepted &&
                          ((e.sender == id && e.receiver == x) || (e.receiver == id && e.sender == x))
  {
    var edges := Filter(friends, AcceptedWith(id));
    var r := FriendIds(friends, id);
    if x in r {
      var k :| 0 <= k < |r| && r[k] == x;
      assert edges[k] in edges;
      assert OtherEnd(id)(edges[k]) == x;
    }
    if e :| e in friends && e.status == Accepted && ((e.sender == id && e.receiver == x) || (e.receiver == id && e.sender == x)) {
      assert AcceptedWith(id)(e);
      assert e in edges;
      var k :| 0 <= k < |edges| && edges[k] == e;
      assert r[k] == OtherEnd(id)(e);
    }
  }

  function ByAuthorIn(ids: seq<Id>): Post -> bool
  {
    (p: Post) => p.userId in ids
  }

  function NotByAuthor(id: Id): Post -> bool
  {
    (p: Post) => p.userId != id
  }

  /** `sort({createdAt: -1})`: newest first. */
  predicate PostNewer(a: Post, b: Post)
  {
    a.createdAt >= b.createdAt
  }

  /** `sort({verified: -1, createdAt: -1})`: verified authors first, then newest first. */
  predicate VerifiedFirst(a: Post, b: Post)
  {
    (a.verified && !b.verified) || (a.verified == b.verified && a.createdAt >= b.createdAt)
  }

  lemma FeedOrdersTotal()
    ensures TotalPreorder(PostNewer) && TotalPreorder(VerifiedFirst)
  {
  }

  /** The posts of the feed: one page of the friends' posts, newest first; when that page is empty,
      the same page of everybody else's posts, verified authors first. None when the skip is rejected. */
  function FeedRows(db: Db, viewer: Id, page: Option<string>, limit: Option<nat>): (r: Option<seq<Post>>)
    ensures r.None? <==> Offset(QueryNumber(page), LimitOr(limit, 5)).None?
    ensures r.Some? && LimitOr(limit, 5) > 0 ==> |r.value| <= LimitOr(limit, 5)
    ensures r.Some? ==> forall p :: p in r.value ==> p in db.posts
  {
    var size := LimitOr(limit, 5);
    match Select(db.posts, ByAuthorIn(FriendIds(db.friends, viewer)), PostNewer, QueryNumber(page), size)
    case None => None
    case Some(rows) =>
      if rows != [] then Some(rows)
      else Select(db.posts, NotByAuthor(viewer), VerifiedFirst, QueryNumber(page), size)
  }

  /** `getFeedPosts`: the feed page, each post with the viewer's like status; a rejected skip ends
      in the catch, 404. */
  function Feed(db: Db, viewer: Id, page: Option<string>, limit: Option<nat>): (r: Response<seq<Liked<Post>>>)
    ensures Offset(QueryNumber(page), LimitOr(limit, 5)).None? <==> r == Response(NOT_FOUND, None)
    ensures r.status == OK ==> r.body.Some? && forall v :: v in r.body.value ==> PostShownFor(db, viewer, v)
  {
    match FeedRows(db, viewer, page, limit)
    case None => Response(NOT_FOUND, None)
    case Some(rows) => Response(OK, Some(MapSeq(rows, ViewPost(db.likes, viewer))))
  }

  /** The feed shows friends' posts newest first when that page has any; otherwise it shows posts
      by anyone but the viewer, verified authors first and then newest first. */
  lemma FeedSource(db: Db, viewer: Id, page: Option<string>, limit: Option<nat>)
    requires Feed(db, viewer, page, limit).status == OK
    ensures var body := Feed(db, viewer, page, limit).body.value;
            var friendsPage := Select(db.posts, ByAuthorIn(FriendIds(db.friends, viewer)), PostNewer, QueryNumber(page), LimitOr(limit, 5)).value;
      && (friendsPage != [] ==>
            && (forall v :: v in body ==> v.doc.userId in FriendIds(db.friends, viewer))
            && Sorted(MapSeq(body, PostDoc), PostNewer))
      && (friendsPage == [] ==>
            && (forall v :: v in body ==> v.doc.userId != viewer)
            && Sorted(MapSeq(body, PostDoc), VerifiedFirst))
  {
    var friendsPage := Select(db.posts, ByAuthorIn(FriendIds(db.friends, viewer)), PostNewer, QueryNumber(page), LimitOr(limit, 5)).value;
    if friendsPage != [] {
      FeedFromFriends(db, viewer, page, limit);
    } else {
      FeedFromOthers(db, viewer, page, limit);
    }
  }

  lemma FeedFromFriends(db: Db, viewer: Id, page: Option<string>, limit: Option<nat>)
    requires Feed(db, viewer, page, limit).status == OK
    requires Select(db.posts, ByAuthorIn(FriendIds(db.friends, viewer)), PostNewer, QueryNumber(page), LimitOr(limit, 5)).value != []
    ensures var body := Feed(db, viewer, page, limit).body.value;
      && (forall v :: v in body ==> v.doc.userId in FriendIds(db.friends, viewer))
      && Sorted(MapSeq(body, PostDoc), PostNewer)
  {
    var size := LimitOr(limit, 5);
    var rows := Select(db.posts, ByAuthorIn(FriendIds(db.friends, viewer)), PostNewer, QueryNumber(page), size).value;
    assert FeedRows(db, viewer, page, limit) == Some(rows);
    var body := Feed(db, viewer, page, limit).body.value;
    assert MapSeq(body, PostDoc) == rows;
    FeedOrdersTotal();
    SelectSorted(db.posts, ByAuthorIn(FriendIds(db.friends, viewer)), PostNewer, QueryNumber(page), size);
    forall v | v in body ensures v.doc.userId in FriendIds(db.friends, viewer) {
      var k :| 0 <= k < |body| && body[k] == v;
      assert rows[k] in rows;
    }
  }

  lemma FeedFromOthers(db: Db, viewer: Id, page: Option<string>, limit: Option<nat>)
    requires Feed(db, viewer, page, limit).status == OK
    requires Select(db.posts, ByAuthorIn(FriendIds(db.friends, viewer)), PostNewer, QueryNumber(page), LimitOr(limit, 5)).value == []
    ensures var body := Feed(db, viewer, page, limit).body.value;
      && (forall v :: v in body ==> v.doc.userId != viewer)
      && Sorted(MapSeq(body, PostDoc), VerifiedFirst)
  {
    var size := LimitOr(limit, 5);
    var rows := Select(db.posts, NotByAuthor(viewer), VerifiedFirst, QueryNumber(page), size).value;
    assert FeedRows(db, viewer, page, limit) == Some(rows);
    var body := Feed(db, viewer, page, limit).body.value;
    assert MapSeq(body, PostDoc) == rows;
    FeedOrdersTotal();
    SelectSorted(db.posts, NotByAuthor(viewer), VerifiedFirst, QueryNumber(page), size);
    forall v | v in body ensures v.doc.userId != viewer {
      var k :| 0 <= k < |body| && body[k] == v;
      assert rows[k] in rows;
    }
  }

  // ---------------------------------------------------------------- getUserPosts

  /** `sort({pinned: -1, createdAt: -1})`: pinned posts first, then newest first. */
  predicate PinnedFirst(a: Post, b: Post)
  {
    (a.pinned && !b.pinned) || (a.pinned == b.pinned && a.createdAt >= b.createdAt)
  }

  function ByAuthor(id: Id): Post -> bool
  {
    (p: Post) => p.userId == id
  }

  datatype UserPosts = UserPosts(posts: seq<Liked<Post>>, count: nat)

  /** `getUserPosts`: one page of the user's posts, pinned first and then newest first (5 per page by
      default), each with the viewer's like status, and the number of all the user's posts, which
      does not depend on the page. A rejected skip ends in the catch, 404. */
  function ListUserPosts(db: Db, viewer: Id, userId: Id, page: Option<string>, limit: Option<nat>): (r: Response<UserPosts>)
    ensures Offset(QueryNumber(page), LimitOr(limit, 5)).None? <==> r == Response(NOT_FOUND, None)
    ensures r.status == OK ==> r.body.Some? && r.body.value.count == |Filter(db.posts, ByAuthor(userId))|
    ensures r.status == OK && LimitOr(limit, 5) > 0 ==> |r.body.value.posts| <= LimitOr(limit, 5)
    ensures r.status == OK ==> forall v :: v in r.body.value.posts ==> PostShownFor(db, viewer, v) && v.doc.userId == userId
  {
    match Select(db.posts, ByAuthor(userId), PinnedFirst, QueryNumber(page), LimitOr(limit, 5))
    case None => Response(NOT_FOUND, None)
    case Some(rows) =>
      Response(OK, Some(UserPosts(MapSeq(rows, ViewPost(db.likes, viewer)), |Filter(db.posts, ByAuthor(userId))|)))
  }

  /** A user's posts come pinned first, then newest first. */
  lemma UserPostsOrdered(db: Db, viewer: Id, userId: Id, page: Option<string>, limit: Option<nat>)
    requires ListUserPosts(db, viewer, userId, page, limit).status == OK
    ensures Sorted(MapSeq(ListUserPosts(db, viewer, userId, page, limit).body.value.posts, PostDoc), PinnedFirst)
  {
    SelectSorted(db.posts, ByAuthor(userId), PinnedFirst, QueryNumber(page), LimitOr(limit, 5));
    var rows := Select(db.posts, ByAuthor(userId), PinnedFirst, QueryNumber(page), LimitOr(limit, 5)).value;
    assert MapSeq(ListUserPosts(db, viewer, userId, page, limit).body.value.posts, PostDoc) == rows;
  }

  // ---------------------------------------------------------------- getPost / getPostClickInfo

  /** `getPost`: the post with the viewer's like status, or 404. */
  function GetPost(db: Db, viewer: Id, postId: Id): (r: Response<Liked<Post>>)
    ensures r.status == NOT_FOUND <==> forall p :: p in db.posts ==> p.id != postId
    ensures r.status == OK ==> r.body.Some? && PostShownFor(db, viewer, r.body.value) && r.body.value.doc.id == postId
  {
    match PostById(db.posts, postId)
    case None => Response(NOT_FOUND, None)
    case Some(p) => Response(OK, Some(ViewPost(db.likes, viewer)(p)))
  }

  datatype ClickInfo = ClickInfo(likesCount: int, commentsCount: int, isLiked: bool)

  /** `getPostClickInfo`: the post's stored counters and whether the viewer likes it; a missing post
      fails on the destructuring, 500. */
  function PostClickInfo(db: Db, viewer: Id, postId: Id): (r: Response<ClickInfo>)
    ensures r.status == SERVER_ERROR <==> forall p :: p in db.posts ==> p.id != postId
    ensures r.status == OK ==> r.body.Some? && r.body.value.isLiked == (Like(viewer, OnPost(postId)) in db.likes)
    ensures r.status == OK ==>
              exists p :: p in db.posts && p.id == postId &&
                          r.body.value.likesCount == p.likesCount && r.body.value.commentsCount == p.commentCount
  {
    match PostById(db.posts, postId)
    case None => Response(SERVER_ERROR, None)
    case Some(p) => Response(OK, Some(ClickInfo(p.likesCount, p.commentCount, Like(viewer, OnPost(postId)) in db.likes)))
  }

  /** When the counters are kept, the click info reports the number of likes of the post and the
      size of its discussion, and says it is liked exactly when one of those likes is the viewer's. */
  lemma ClickInfoCounts(db: Db, viewer: Id, postId: Id)
    requires LikesConsistent(db) && CommentCountsMatch(db)
    requires PostClickInfo(db, viewer, postId).status == OK
    ensures var info := PostClickInfo(db, viewer, postId).body.value;
      && info.likesCount == LikeCount(db.likes, OnPost(postId))
      && info.commentsCount == DiscussionSize(db.comments, db.replies, postId)
      && (info.isLiked <==> Like(viewer, OnPost(postId)) in RowsFor(db.likes, OnPost(postId)))
  {
    var p := PostById(db.posts, postId).value;
    assert PostKey(p) == OnPost(postId);
  }

  // ---------------------------------------------------------------- deletePost

  function LinksTo(id: Id): Notification -> bool
  {
    (n: Notification) => n.linkId == id
  }

  /** The store after `deletePost`: the notifications linking to the post and the post's comments
      are deleted, then the post itself. Replies are left alone. */
  function RemovePost(db: Db, id: Id): Db
  {
    db.(notifications := RemoveAll(db.notifications, LinksTo(id)),
        comments := RemoveAll(db.comments, OnPostId(id)),
        posts := RemoveFirst(db.posts, KeyIs(PostKey, OnPost(id))))
  }

  /** What `deletePost` deletes: exactly the notifications linking to the post, exactly its
      comments and, with unique post ids, exactly the post. Replies and everything else stay. */
  lemma RemovePostEffect(db: Db, id: Id)
    ensures var db' := RemovePost(db, id);
      && (forall n :: n in db'.notifications <==> n in db.notifications && n.linkId != id)
      && (forall c :: c in db'.comments <==> c in db.comments && c.postId != id)
      && (forall p :: p in db.posts && p.id != id ==> p in db'.posts)
      && (UniqueKeys(db.posts, PostKey) ==> forall p :: p in db'.posts <==> p in db.posts && p.id != id)
      && db'.replies == db.replies && db'.users == db.users && db'.likes == db.likes
  {
    PostKeyIs(id);
    RemoveFirstRows(db.posts, KeyIs(PostKey, OnPost(id)));
  }

  /** Deleting a post's comments leaves every reply under another post with the parent it had; a
      reply under the deleted post has none left. */
  lemma RemovePostParent(cs: seq<Comment>, id: Id, r: Reply)
    requires CommentIdsUnique(cs)
    ensures ParentPost(RemoveAll(cs, OnPostId(id)), r) ==
              if ParentPost(cs, r) == Some(id) then None else ParentPost(cs, r)
  {
    var cs' := RemoveAll(cs, OnPostId(id));
    CommentKeyIs(r.comment);
    match CommentById(cs, r.comment)
    case None =>
    case Some(c) =>
      if c.postId == id {
        forall c' | c' in cs' ensures c'.id != r.comment {
          assert !OnPostId(id)(c');
        }
      } else {
        assert !OnPostId(id)(c);
        assert c in cs';
        var c'' := CommentById(cs', r.comment).value;
        assert c'' == c;
      }
  }

  /** Deleting post id's comments leaves every other post's discussion as it was. */
  lemma RemovePostSizes(cs: seq<Comment>, rs: seq<Reply>, id: Id, x: Id)
    requires CommentIdsUnique(cs) && x != id
    ensures DiscussionSize(RemoveAll(cs, OnPostId(id)), rs, x) == DiscussionSize(cs, rs, x)
  {
    var cs' := RemoveAll(cs, OnPostId(id));
    FilterFilter(cs, Not(OnPostId(id)), OnPostId(x));
    FilterCongruent(cs, And(Not(OnPostId(id)), OnPostId(x)), OnPostId(x));
    forall r | r in rs ensures InThread(cs', x)(r) == InThread(cs, x)(r) {
      RemovePostParent(cs, id, r);
    }
    FilterCongruent(rs, InThread(cs', x), InThread(cs, x));
  }

  /** With unique ids, deleting a post keeps every remaining post's counter equal to the size of
      its discussion. */
  lemma RemovePostKeepsCounts(db: Db, id: Id)
    requires CommentCountsMatch(db) && UniqueKeys(db.posts, PostKey) && CommentIdsUnique(db.comments)
    ensures CommentCountsMatch(RemovePost(db, id))
  {
    var db' := RemovePost(db, id);
    RemovePostEffect(db, id);
    forall p | p in db'.posts ensures p.commentCount == DiscussionSize(db'.comments, db'.replies, p.id) {
      RemovePostSizes(db.comments, db.replies, id, p.id);
    }
  }

  /** `deletePost`: anyone may delete; the notifications and comments go first, so they are deleted
      even when the post turns out to be missing, which answers 404. */
  method DeletePost(st: Store, id: Id) returns (resp: Response<Post>)
    modifies st
    ensures st.State() == RemovePost(old(st.State()), id)
    ensures var found := PostById(old(st.posts), id);
      && (found.None? ==> resp == Response(NOT_FOUND, None))
      && (found.Some? ==> resp == Response(OK, found))
  {
    st.notifications := RemoveAll(st.notifications, LinksTo(id));
    st.comments := RemoveAll(st.comments, OnPostId(id));
    var found := PostById(st.posts, id);
    st.posts := RemoveFirst(st.posts, KeyIs(PostKey, OnPost(id)));
    if found.None? {
      resp := Response(NOT_FOUND, None);
    } else {
      resp := Response(OK, found);
    }
  }

  // ---------------------------------------------------------------- editPost / pinPost

  function SetDescription(description: string): Post -> Post
  {
    (p: Post) => p.(description := description, edited := true)
  }

  function FlipPostPin(): Post -> Post
  {
    (p: Post) => p.(pinned := !p.pinned)
  }

  /** `editPost`: only the post's owner may edit; the edit sets the description and marks the post
      edited, and answers with the saved post and the viewer's like status. A missing post, or an
      edit the validators refuse, throws into a catch block that itself throws, so no answer is sent
      and nothing changes. */
  method EditPost(st: Store, actor: Id, postId: Id, description: Option<string>) returns (resp: Response<Liked<Post>>)
    modifies st
    ensures var found := PostById(old(st.posts), postId);
            var text := if description.Some? then description.value else "";
      && (found.None? ==> resp == Response(NO_RESPONSE, None) && st.State() == old(st.State()))
      && (found.Some? && found.value.userId != actor ==> resp == Response(FORBIDDEN, None) && st.State() == old(st.State()))
      && (found.Some? && found.value.userId == actor && !PostValid(SetDescription(text)(found.value)) ==>
            resp == Response(NO_RESPONSE, None) && st.State() == old(st.State()))
      && (found.Some? && found.value.userId == actor && PostValid(SetDescription(text)(found.value)) ==>
            && resp == Response(OK, Some(Liked(SetDescription(text)(found.value), Like(actor, OnPost(postId)) in old(st.likes))))
            && st.State() == old(st.State()).(posts := UpdateFirst(old(st.posts), KeyIs(PostKey, OnPost(postId)), SetDescription(text))))
  {
    var found := PostById(st.posts, postId);
    if found.None? {
      return Response(NO_RESPONSE, None);
    }
    if found.value.userId != actor {
      return Response(FORBIDDEN, None);
    }
    var text := if description.Some? then description.value else "";
    var edited := SetDescription(text)(found.value);
    if !PostValid(edited) {
      return Response(NO_RESPONSE, None);
    }
    st.posts := UpdateFirst(st.posts, KeyIs(PostKey, OnPost(postId)), SetDescription(text));
    resp := Response(OK, Some(Liked(edited, Like(actor, OnPost(postId)) in st.likes)));
  }

  /** `pinPost`: only the post's owner may pin; pinning flips `pinned`. A missing post fails on a
      dereference and a save the validators refuse fails too, both 500 with nothing changed. */
  method PinPost(st: Store, actor: Id, postId: Id) returns (resp: Response<Liked<Post>>)
    modifies st
    ensures var found := PostById(old(st.posts), postId);
      && (found.None? ==> resp == Response(SERVER_ERROR, None) && st.State() == old(st.State()))
      && (found.Some? && found.value.userId != actor ==> resp == Response(FORBIDDEN, None) && st.State() == old(st.State()))
      && (found.Some? && found.value.userId == actor && !PostValid(found.value) ==>
            resp == Response(SERVER_ERROR, None) && st.State() == old(st.State()))
      && (found.Some? && found.value.userId == actor && PostValid(found.value) ==>
            && resp == Response(OK, Some(Liked(FlipPostPin()(found.value), Like(actor, OnPost(postId)) in old(st.likes))))
            && st.State() == old(st.State()).(posts := UpdateFirst(old(st.posts), KeyIs(PostKey, OnPost(postId)), FlipPostPin())))
  {
    var found := PostById(st.posts, postId);
    if found.None? {
      return Response(SERVER_ERROR, None);
    }
    if found.value.userId != actor {
      return Response(FORBIDDEN, None);
    }
    if !PostValid(found.value) {
      return Response(SERVER_ERROR, None);
    }
    st.posts := UpdateFirst(st.posts, KeyIs(PostKey, OnPost(postId)), FlipPostPin());
    resp := Response(OK, Some(Liked(FlipPostPin()(found.value), Like(actor, OnPost(postId)) in st.likes)));
  }

  /** Pinning the same post twice gives back the posts as they were. */
  lemma PinPostTwice(posts: seq<Post>, id: Id)
    ensures var p := KeyIs(PostKey, OnPost(id));
      UpdateFirst(UpdateFirst(posts, p, FlipPostPin()), p, FlipPostPin()) == posts
  {
    var p := KeyIs(PostKey, OnPost(id));
    forall x ensures p(FlipPostPin()(x)) == p(x) && FlipPostPin()(FlipPostPin()(x)) == x {
      assert PostKey(FlipPostPin()(x)) == PostKey(x);
    }
    UpdateFirstUndone(posts, p, FlipPostPin(), FlipPostPin());
  }

  /** Editing or pinning a post changes neither its id nor its counters, so every counter invariant
      that held before still holds. */
  lemma RewritePostKeepsCounts(db: Db, id: Id, f: Post -> Post)
    requires CommentCountsMatch(db) && LikesConsistent(db)
    requires forall p :: f(p).id == p.id && f(p).commentCount == p.commentCount && f(p).likesCount == p.likesCount
    ensures var db' := db.(posts := UpdateFirst(db.posts, KeyIs(PostKey, OnPost(id)), f));
      CommentCountsMatch(db') && LikesConsistent(db')
  {
    var posts' := UpdateFirst(db.posts, KeyIs(PostKey, OnPost(id)), f);
    var i := IndexOf(db.posts, KeyIs(PostKey, OnPost(id)));
    forall p | p in posts' ensures p.commentCount == DiscussionSize(db.comments, db.replies, p.id)
                                 && CounterMatches(PostLikes(p), db.likes, PostKey(p)) {
      var k :| 0 <= k < |posts'| && posts'[k] == p;
      assert db.posts[k] in db.posts;
      if k == i {
        assert p == f(db.posts[k]);
      }
    }
  }
}
