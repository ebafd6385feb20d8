/** Like toggles on posts, comments and replies, and the paged "who liked" reads.
    A toggle looks for the (user, target) row; it deletes it and decrements the
    target's `likesCount`, or inserts one and increments it. */
module Likes {
  import opened Model
  import opened Query
  import opened Storage
  import opened Text

  // ---------------------------------------------------------------- rows and counters

  /** The Like rows that point at t, in stored order. */
  function RowsFor(likes: seq<Like>, t: Target): (r: seq<Like>)
    ensures forall l :: l in r <==> l in likes && l.target == t
  {
    Filter(likes, (l: Like) => l.target == t)
  }

  /** `Like.countDocuments({<target field>: id})`. */
  function LikeCount(likes: seq<Like>, t: Target): nat
  {
    |RowsFor(likes, t)|
  }

  /** Selects the row (u, t) itself: the filter `{userId, <target field>: id}`. */
  function RowIs(row: Like): Like -> bool
  {
    l => l == row
  }

  /** The likes table after toggling (u, t): the first (u, t) row deleted if there was one,
      otherwise a new (u, t) row appended. */
  function Toggle(likes: seq<Like>, u: Id, t: Target): (r: seq<Like>)
    ensures Like(u, t) in likes ==> multiset(r) == multiset(likes) - multiset{Like(u, t)}
    ensures Like(u, t) !in likes ==> multiset(r) == multiset(likes) + multiset{Like(u, t)}
  {
    var row := Like(u, t);
    if row in likes then
      assert IndexOf(likes, RowIs(row)) < |likes| by {
        var k :| 0 <= k < |likes| && likes[k] == row;
      }
      RemoveFirst(likes, RowIs(row))
    else likes + [row]
  }

  /** At most one row per user for target t. */
  ghost predicate AtMostOnePerUser(likes: seq<Like>, t: Target)
  {
    forall u :: multiset(likes)[Like(u, t)] <= 1
  }

  /** A target whose stored counter equals the number of its Like rows, with no user liking it twice. */
  ghost predicate CounterMatches(count: int, likes: seq<Like>, t: Target)
  {
    count == LikeCount(likes, t) && AtMostOnePerUser(likes, t)
  }

  /** A toggle moves the count of its own target by one, in the direction the
      row's presence decides, and leaves every other target's count alone. */
  lemma ToggleCount(likes: seq<Like>, u: Id, t: Target, t': Target)
    ensures LikeCount(Toggle(likes, u, t), t') ==
              LikeCount(likes, t') + (if t' != t then 0 else if Like(u, t) in likes then -1 else 1)
  {
    var row := Like(u, t);
    var after := Toggle(likes, u, t);
    var p := (l: Like) => l.target == t';
    if row in likes {
      assert multiset(likes) == multiset(after) + multiset{row} by {
        assert row in multiset(likes);
      }
      FilterOneMore(likes, after, row, p);
    } else {
      FilterOneMore(after, likes, row, p);
    }
  }

  /** A toggle adds or removes one copy of its own row and leaves the number of copies of
      every other (user, target) row as it was: no other user's likes change. */
  lemma ToggleRowCount(likes: seq<Like>, u: Id, t: Target, u': Id, t': Target)
    ensures multiset(Toggle(likes, u, t))[Like(u', t')] ==
              multiset(likes)[Like(u', t')] + (if (u', t') != (u, t) then 0 else if Like(u, t) in likes then -1 else 1)
    ensures (u', t') != (u, t) ==> (Like(u', t') in Toggle(likes, u, t) <==> Like(u', t') in likes)
  {
    var after := Toggle(likes, u, t);
    if (u', t') != (u, t) {
      assert multiset(after)[Like(u', t')] == multiset(likes)[Like(u', t')];
      assert Like(u', t') in after <==> Like(u', t') in multiset(after);
    }
  }

  /** Toggling a target whose counter matches keeps it matching, once the counter has moved by the same step. */
  lemma ToggleKeepsMatch(likes: seq<Like>, u: Id, t: Target, count: int)
    requires CounterMatches(count, likes, t)
    ensures CounterMatches(count + (if Like(u, t) in likes then -1 else 1), Toggle(likes, u, t), t)
  {
    ToggleCount(likes, u, t, t);
    var after := Toggle(likes, u, t);
    forall v ensures multiset(after)[Like(v, t)] <= 1 {
      if v != u {
        ToggleRowCount(likes, u, t, v, t);
      }
    }
  }

  // ---------------------------------------------------------------- the three likeable collections

  function PostKey(p: Post): Target { OnPost(p.id) }
  function PostLikes(p: Post): int { p.likesCount }
  function CommentKey(c: Comment): Target { OnComment(c.id) }
  function CommentLikes(c: Comment): int { c.likesCount }
  function ReplyKey(r: Reply): Target { OnReply(r.id) }
  function ReplyLikes(r: Reply): int { r.likesCount }

  /** `findById`: the document whose key is t. */
  function KeyIs<D>(key: D -> Target, t: Target): D -> bool
  {
    d => key(d) == t
  }

  /** `{$inc: {likesCount: delta}}` on each kind of document. */
  function BumpPostLikes(delta: int): Post -> Post { (p: Post) => p.(likesCount := p.likesCount + delta) }
  function BumpCommentLikes(delta: int): Comment -> Comment { (c: Comment) => c.(likesCount := c.likesCount + delta) }
  function BumpReplyLikes(delta: int): Reply -> Reply { (r: Reply) => r.(likesCount := r.likesCount + delta) }

  /** Every document of a collection has a counter matching its Like rows. */
  ghost predicate CountersMatch<D(!new)>(docs: seq<D>, likes: seq<Like>, key: D -> Target, count: D -> int)
  {
    forall d :: d in docs ==> CounterMatches(count(d), likes, key(d))
  }

  ghost predicate UniqueKeys<D>(docs: seq<D>, key: D -> Target)
  {
    forall i, j :: 0 <= i < j < |docs| ==> key(docs[i]) != key(docs[j])
  }

  /** The invariant every toggle keeps: each post, comment and reply counts exactly its Like rows,
      and no user likes one target twice. */
  ghost predicate LikesConsistent(db: Db)
  {
    && CountersMatch(db.posts, db.likes, PostKey, PostLikes)
    && CountersMatch(db.comments, db.likes, CommentKey, CommentLikes)
    && CountersMatch(db.replies, db.likes, ReplyKey, ReplyLikes)
  }

  /** Document ids are unique within each likeable collection. */
  ghost predicate IdsUnique(db: Db)
  {
    UniqueKeys(db.posts, PostKey) && UniqueKeys(db.comments, CommentKey) && UniqueKeys(db.replies, ReplyKey)
  }

  /** Toggling t and bumping the counter of the (unique) document keyed t, if any, keeps a
      collection's counters matching. */
  lemma {:induction false} ToggleKeepsCounters<D(!new)>(docs: seq<D>, likes: seq<Like>, u: Id, t: Target,
                                                         key: D -> Target, count: D -> int, bump: D -> D)
    requires CountersMatch(docs, likes, key, count) && UniqueKeys(docs, key)
    requires forall d :: key(bump(d)) == key(d)
    requires forall d :: count(bump(d)) == count(d) + (if Like(u, t) in likes then -1 else 1)
    ensures CountersMatch(UpdateFirst(docs, KeyIs(key, t), bump), Toggle(likes, u, t), key, count)
  {
    var after := Toggle(likes, u, t);
    var docs' := UpdateFirst(docs, KeyIs(key, t), bump);
    var i := IndexOf(docs, KeyIs(key, t));
    forall d | d in docs' ensures CounterMatches(count(d), after, key(d)) {
      var k :| 0 <= k < |docs'| && docs'[k] == d;
      if k == i {
        ToggleKeepsMatch(likes, u, t, count(docs[k]));
      } else {
        assert d == docs[k] && d in docs;
        assert key(d) != t;
        ToggleCount(likes, u, t, key(d));
        forall v ensures multiset(after)[Like(v, key(d))] <= 1 {
          ToggleRowCount(likes, u, t, v, key(d));
        }
      }
    }
  }

  /** A toggle on t leaves the counters of a collection none of whose documents is keyed t matching. */
  lemma ToggleKeepsOtherCounters<D(!new)>(docs: seq<D>, likes: seq<Like>, u: Id, t: Target,
                                          key: D -> Target, count: D -> int)
    requires CountersMatch(docs, likes, key, count)
    requires forall d :: d in docs ==> key(d) != t
    ensures CountersMatch(docs, Toggle(likes, u, t), key, count)
  {
    var after := Toggle(likes, u, t);
    forall d | d in docs ensures CounterMatches(count(d), after, key(d)) {
      ToggleCount(likes, u, t, key(d));
      forall v ensures multiset(after)[Like(v, key(d))] <= 1 {
        ToggleRowCount(likes, u, t, v, key(d));
      }
    }
  }

  // ---------------------------------------------------------------- the toggle on a whole store

  /** The store after toggling user u's like on t (a post, comment or reply): the Like row
      changes whether or not the target exists, and the target's counter, when it exists,
      moves by one in the same direction. */
  function ApplyToggle(db: Db, u: Id, t: Target): Db
    requires !t.OnRepost?
  {
    var delta := if Like(u, t) in db.likes then -1 else 1;
    var likes := Toggle(db.likes, u, t);
    match t
    case OnPost(_) => db.(likes := likes, posts := UpdateFirst(db.posts, KeyIs(PostKey, t), BumpPostLikes(delta)))
    case OnComment(_) => db.(likes := likes, comments := UpdateFirst(db.comments, KeyIs(CommentKey, t), BumpCommentLikes(delta)))
    case OnReply(_) => db.(likes := likes, replies := UpdateFirst(db.replies, KeyIs(ReplyKey, t), BumpReplyLikes(delta)))
  }

  /** Every toggle keeps every counter equal to its number of Like rows, with at most one row per
      (user, target), whether or not the target exists. */
  lemma ToggleKeepsLikesConsistent(db: Db, u: Id, t: Target)
    requires !t.OnRepost?
    requires LikesConsistent(db) && IdsUnique(db)
    ensures LikesConsistent(ApplyToggle(db, u, t)) && IdsUnique(ApplyToggle(db, u, t))
  {
    var db' := ApplyToggle(db, u, t);
    var delta := if Like(u, t) in db.likes then -1 else 1;
    match t
    case OnPost(_) =>
      ToggleKeepsCounters(db.posts, db.likes, u, t, PostKey, PostLikes, BumpPostLikes(delta));
      ToggleKeepsOtherCounters(db.comments, db.likes, u, t, CommentKey, CommentLikes);
      ToggleKeepsOtherCounters(db.replies, db.likes, u, t, ReplyKey, ReplyLikes);
      UpdateKeepsUniqueKeys(db.posts, PostKey, KeyIs(PostKey, t), BumpPostLikes(delta));
    case OnComment(_) =>
      ToggleKeepsOtherCounters(db.posts, db.likes, u, t, PostKey, PostLikes);
      ToggleKeepsCounters(db.comments, db.likes, u, t, CommentKey, CommentLikes, BumpCommentLikes(delta));
      ToggleKeepsOtherCounters(db.replies, db.likes, u, t, ReplyKey, ReplyLikes);
      UpdateKeepsUniqueKeys(db.comments, CommentKey, KeyIs(CommentKey, t), BumpCommentLikes(delta));
    case OnReply(_) =>
      ToggleKeepsOtherCounters(db.posts, db.likes, u, t, PostKey, PostLikes);
      ToggleKeepsOtherCounters(db.comments, db.likes, u, t, CommentKey, CommentLikes);
      ToggleKeepsCounters(db.replies, db.likes, u, t, ReplyKey, ReplyLikes, BumpReplyLikes(delta));
      UpdateKeepsUniqueKeys(db.replies, ReplyKey, KeyIs(ReplyKey, t), BumpReplyLikes(delta));
  }

  lemma UpdateKeepsUniqueKeys<D>(docs: seq<D>, key: D -> Target, p: D -> bool, f: D -> D)
    requires UniqueKeys(docs, key)
    requires forall d :: key(f(d)) == key(d)
    ensures UniqueKeys(UpdateFirst(docs, p, f), key)
  {
    var r := UpdateFirst(docs, p, f);
    forall i, j | 0 <= i < j < |r| ensures key(r[i]) != key(r[j]) {
      assert key(r[i]) == key(docs[i]) && key(r[j]) == key(docs[j]);
    }
  }

  // ---------------------------------------------------------------- creating and updating documents

  /** A target no Like row names has a zero count and no duplicate likers. */
  lemma UnlikedTarget(likes: seq<Like>, t: Target)
    requires forall l :: l in likes ==> l.target != t
    ensures CounterMatches(0, likes, t)
  {
    FilterNone(likes, (l: Like) => l.target == t);
    forall u ensures multiset(likes)[Like(u, t)] <= 1 {
      assert Like(u, t) !in likes;
    }
  }

  /** Storing a new document with a zero counter keeps every counter matching, provided no Like
      row already names the new document's key: a like on a missing document leaves such a row. */
  lemma AppendKeepsCounters<D(!new)>(docs: seq<D>, likes: seq<Like>, key: D -> Target, count: D -> int, d: D)
    requires CountersMatch(docs, likes, key, count)
    requires count(d) == 0 && forall l :: l in likes ==> l.target != key(d)
    ensures CountersMatch(docs + [d], likes, key, count)
  {
    UnlikedTarget(likes, key(d));
  }

  /** An update that keeps a document's key and like counter keeps every counter matching. */
  lemma UpdateKeepsCounters<D(!new)>(docs: seq<D>, likes: seq<Like>, key: D -> Target, count: D -> int,
                                     p: D -> bool, f: D -> D)
    requires CountersMatch(docs, likes, key, count)
    requires forall x :: key(f(x)) == key(x) && count(f(x)) == count(x)
    ensures CountersMatch(UpdateFirst(docs, p, f), likes, key, count)
  {
    var r := UpdateFirst(docs, p, f);
    forall x | x in r ensures CounterMatches(count(x), likes, key(x)) {
      var k :| 0 <= k < |r| && r[k] == x;
      assert docs[k] in docs;
    }
  }

  /** Bumping the counter of the document keyed t by d and then by -d restores the collection. */
  lemma PostBumpUndone(posts: seq<Post>, t: Target, d: int)
    ensures UpdateFirst(UpdateFirst(posts, KeyIs(PostKey, t), BumpPostLikes(d)), KeyIs(PostKey, t), BumpPostLikes(-d)) == posts
  {
    var p, f, g := KeyIs(PostKey, t), BumpPostLikes(d), BumpPostLikes(-d);
    forall x ensures p(f(x)) == p(x) && g(f(x)) == x {
      assert PostKey(f(x)) == PostKey(x);
      assert g(f(x)) == x.(likesCount := x.likesCount + d - d);
    }
    UpdateFirstUndone(posts, p, f, g);
  }

  lemma CommentBumpUndone(comments: seq<Comment>, t: Target, d: int)
    ensures UpdateFirst(UpdateFirst(comments, KeyIs(CommentKey, t), BumpCommentLikes(d)), KeyIs(CommentKey, t), BumpCommentLikes(-d)) == comments
  {
    var p, f, g := KeyIs(CommentKey, t), BumpCommentLikes(d), BumpCommentLikes(-d);
    forall x ensures p(f(x)) == p(x) && g(f(x)) == x {
      assert CommentKey(f(x)) == CommentKey(x);
      assert g(f(x)) == x.(likesCount := x.likesCount + d - d);
    }
    UpdateFirstUndone(comments, p, f, g);
  }

  lemma ReplyBumpUndone(replies: seq<Reply>, t: Target, d: int)
    ensures UpdateFirst(UpdateFirst(replies, KeyIs(ReplyKey, t), BumpReplyLikes(d)), KeyIs(ReplyKey, t), BumpReplyLikes(-d)) == replies
  {
    var p, f, g := KeyIs(ReplyKey, t), BumpReplyLikes(d), BumpReplyLikes(-d);
    forall x ensures p(f(x)) == p(x) && g(f(x)) == x {
      assert ReplyKey(f(x)) == ReplyKey(x);
      assert g(f(x)) == x.(likesCount := x.likesCount + d - d);
    }
    UpdateFirstUndone(replies, p, f, g);
  }

  /** On the Like rows alone: toggling twice restores the multiset when the user liked the
      target at most once, and restores the sequence itself when the user had not liked it. */
  lemma ToggleTwice(likes: seq<Like>, u: Id, t: Target)
    requires multiset(likes)[Like(u, t)] <= 1
    ensures (Like(u, t) in Toggle(likes, u, t)) == (Like(u, t) !in likes)
    ensures multiset(Toggle(Toggle(likes, u, t), u, t)) == multiset(likes)
    ensures Like(u, t) !in likes ==> Toggle(Toggle(likes, u, t), u, t) == likes
  {
    var row := Like(u, t);
    var once := Toggle(likes, u, t);
    ToggleRowCount(likes, u, t, u, t);
    assert row in once <==> row in multiset(once);
    if row !in likes {
      assert once == likes + [row];
      var i := IndexOf(once, RowIs(row));
      assert i == |likes| by {
        assert RowIs(row)(once[|likes|]);
        forall j | 0 <= j < |likes| ensures !RowIs(row)(once[j]) {
          assert once[j] == likes[j];
        }
      }
      var twice := Toggle(once, u, t);
      assert |twice| == |likes|;
      forall k | 0 <= k < |likes| ensures twice[k] == likes[k] {
        assert twice[k] == once[k];
      }
    }
  }

  /** Toggling the same (user, target) twice, on a store where that user liked the target at
      most once, gives back the same Like rows (as a multiset: a deleted row comes back at the
      end) and every counter as it was; when the user had not liked the target, the store is
      restored exactly. */
  lemma ToggleTwiceRestores(db: Db, u: Id, t: Target)
    requires !t.OnRepost?
    requires AtMostOnePerUser(db.likes, t)
    ensures var db2 := ApplyToggle(ApplyToggle(db, u, t), u, t);
      && db2.(likes := db.likes) == db
      && multiset(db2.likes) == multiset(db.likes)
      && (Like(u, t) !in db.likes ==> db2 == db)
  {
    var row := Like(u, t);
    var db1 := ApplyToggle(db, u, t);
    var d := if row in db.likes then -1 else 1;
    assert multiset(db.likes)[row] <= 1;
    ToggleTwice(db.likes, u, t);
    assert (if row in db1.likes then -1 else 1) == -d;
    match t
    case OnPost(_) =>
      PostBumpUndone(db.posts, t, d);
    case OnComment(_) =>
      CommentBumpUndone(db.comments, t, d);
    case OnReply(_) =>
      ReplyBumpUndone(db.replies, t, d);
  }

  // ---------------------------------------------------------------- handlers

  /** `likePost`: toggles the like of user `userId` on post `id` (both from the path). The Like row
      changes even when the post does not exist; the counter update then fails and the answer is 500. */
  method LikePost(st: Store, id: Id, userId: Id) returns (resp: Response<Liked<Post>>)
    modifies st
    ensures st.State() == ApplyToggle(old(st.State()), userId, OnPost(id))
    ensures var had := Like(userId, OnPost(id)) in old(st.likes);
            var found := FindFirst(old(st.posts), KeyIs(PostKey, OnPost(id)));
      && (found.None? ==> resp == Response(SERVER_ERROR, None))
      && (found.Some? ==> resp == Response(OK, Some(Liked(BumpPostLikes(if had then -1 else 1)(found.value), !had))))
  {
    var t := OnPost(id);
    var had := Like(userId, t) in st.likes;
    var delta := if had then -1 else 1;
    var found := FindFirst(st.posts, KeyIs(PostKey, t));
    var after := ApplyToggle(st.State(), userId, t);
    st.likes, st.posts := after.likes, after.posts;
    if found.Some? {
      resp := Response(OK, Some(Liked(BumpPostLikes(delta)(found.value), !had)));
    } else {
      resp := Response(SERVER_ERROR, None);
    }
  }

  /** `likeComment`: the same toggle on comment `id`. */
  method LikeComment(st: Store, id: Id, userId: Id) returns (resp: Response<Liked<Comment>>)
    modifies st
    ensures st.State() == ApplyToggle(old(st.State()), userId, OnComment(id))
    ensures var had := Like(userId, OnComment(id)) in old(st.likes);
            var found := FindFirst(old(st.comments), KeyIs(CommentKey, OnComment(id)));
      && (found.None? ==> resp == Response(SERVER_ERROR, None))
      && (found.Some? ==> resp == Response(OK, Some(Liked(BumpCommentLikes(if had then -1 else 1)(found.value), !had))))
  {
    var t := OnComment(id);
    var had := Like(userId, t) in st.likes;
    var delta := if had then -1 else 1;
    var found := FindFirst(st.comments, KeyIs(CommentKey, t));
    var after := ApplyToggle(st.State(), userId, t);
    st.likes, st.comments := after.likes, after.comments;
    if found.Some? {
      resp := Response(OK, Some(Liked(BumpCommentLikes(delta)(found.value), !had)));
    } else {
      resp := Response(SERVER_ERROR, None);
    }
  }

  /** `likeReply`: the same toggle on reply `id`. */
  method LikeReply(st: Store, id: Id, userId: Id) returns (resp: Response<Liked<Reply>>)
    modifies st
    ensures st.State() == ApplyToggle(old(st.State()), userId, OnReply(id))
    ensures var had := Like(userId, OnReply(id)) in old(st.likes);
            var found := FindFirst(old(st.replies), KeyIs(ReplyKey, OnReply(id)));
      && (found.None? ==> resp == Response(SERVER_ERROR, None))
      && (found.Some? ==> resp == Response(OK, Some(Liked(BumpReplyLikes(if had then -1 else 1)(found.value), !had))))
  {
    var t := OnReply(id);
    var had := Like(userId, t) in st.likes;
    var delta := if had then -1 else 1;
    var found := FindFirst(st.replies, KeyIs(ReplyKey, t));
    var after := ApplyToggle(st.State(), userId, t);
    st.likes, st.replies := after.likes, after.replies;
    if found.Some? {
      resp := Response(OK, Some(Liked(BumpReplyLikes(delta)(found.value), !had)));
    } else {
      resp := Response(SERVER_ERROR, None);
    }
  }

  /** One page of likers and the number of all likes of the target. */
  datatype LikersPage = LikersPage(likers: seq<Id>, count: nat)

  function LikerOf(l: Like): Id { l.userId }

  /** `whoLikedPost` / `whoLikedComment` / `whoLikedReply`: the users behind the target's Like rows,
      ten per page in stored order, and the count of all its likes whatever the page. */
  function WhoLiked(likes: seq<Like>, t: Target, page: Option<string>): (r: Response<LikersPage>)
    ensures Offset(QueryNumber(page), 10).None? ==> r == Response(SERVER_ERROR, None)
    ensures Offset(QueryNumber(page), 10).Some? ==>
      var skip := Offset(QueryNumber(page), 10).value;
      && r.status == OK && r.body.Some?
      && r.body.value.count == LikeCount(likes, t)
      && |r.body.value.likers| <= 10
      && (skip < LikeCount(likes, t) ==> |r.body.value.likers| == if LikeCount(likes, t) - skip < 10 then LikeCount(likes, t) - skip else 10)
      && forall k :: 0 <= k < |r.body.value.likers| ==>
           skip + k < |RowsFor(likes, t)| && r.body.value.likers[k] == RowsFor(likes, t)[skip + k].userId
  {
    match Page(RowsFor(likes, t), QueryNumber(page), 10)
    case None => Response(SERVER_ERROR, None)
    case Some(rows) => Response(OK, Some(LikersPage(MapSeq(rows, LikerOf), LikeCount(likes, t))))
  }
}
