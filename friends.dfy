/** Friend edges: a request is a pending edge from sender to receiver, which only the receiver can
    turn into an accepted one; lookups and deletion match an edge in either direction. */
module Friends {
  import opened Model
  import opened Query
  import opened Storage
  import opened Text
  import opened Posts

  /** An edge joining a and b, in either direction. */
  function Between(a: Id, b: Id): Friend -> bool
  {
    (e: Friend) => (e.sender == a && e.receiver == b) || (e.sender == b && e.receiver == a)
  }

  /** The edge sent by `sender` to `receiver`. */
  function SentBy(sender: Id, receiver: Id): Friend -> bool
  {
    (e: Friend) => e.sender == sender && e.receiver == receiver
  }

  // ---------------------------------------------------------------- getFriends

  /** `sort({createdAt: -1})`: newest first. */
  predicate FriendNewer(a: Friend, b: Friend)
  {
    a.createdAt >= b.createdAt
  }

  /** What `getFriends` answers: edges, with their number when the profile asked for it. */
  datatype FriendList = FriendList(edges: seq<Friend>, count: Option<nat>)

  /** `getFriends`: the user's accepted edges, in either direction. The app form returns all of them
      in stored order; otherwise one page of six, newest first, and with `isProfile` the number of
      all of them, which does not depend on the page. A rejected skip ends in the catch, 500. */
  function GetFriends(db: Db, userId: Id, page: Option<string>, app: bool, isProfile: bool): (r: Response<FriendList>)
    ensures app ==> r == Response(OK, Some(FriendList(Filter(db.friends, AcceptedWith(userId)), None)))
    ensures !app ==> (Offset(QueryNumber(page), 6).None? <==> r == Response(SERVER_ERROR, None))
    ensures r.status == OK ==> r.body.Some? && forall e :: e in r.body.value.edges ==>
              e in db.friends && e.status == Accepted && (e.sender == userId || e.receiver == userId)
    ensures !app && r.status == OK ==> |r.body.value.edges| <= 6
    ensures !app && r.status == OK ==>
              r.body.value.count == (if isProfile then Some(|Filter(db.friends, AcceptedWith(userId))|) else None)
  {
    if app then Response(OK, Some(FriendList(Filter(db.friends, AcceptedWith(userId)), None)))
    else
      match Select(db.friends, AcceptedWith(userId), FriendNewer, QueryNumber(page), 6)
      case None => Response(SERVER_ERROR, None)
      case Some(edges) =>
        Response(OK, Some(FriendList(edges, if isProfile then Some(|Filter(db.friends, AcceptedWith(userId))|) else None)))
  }

  /** The paged friend list is newest first. */
  lemma GetFriendsOrdered(db: Db, userId: Id, page: Option<string>, isProfile: bool)
    requires GetFriends(db, userId, page, false, isProfile).status == OK
    ensures Sorted(GetFriends(db, userId, page, false, isProfile).body.value.edges, FriendNewer)
  {
    SelectSorted(db.friends, AcceptedWith(userId), FriendNewer, QueryNumber(page), 6);
  }

  // ---------------------------------------------------------------- addFriend

  /** `addFriend`: one pending edge from the actor to the receiver is stored, whether or not the two
      are already joined by an edge, and returned with 201. */
  method AddFriend(st: Store, actor: Id, receiverId: Id, newId: Id, now: nat) returns (resp: Response<Friend>)
    modifies st
    ensures resp == Response(CREATED, Some(Friend(newId, actor, receiverId, Pending, now)))
    ensures st.State() == old(st.State()).(friends := old(st.friends) + [Friend(newId, actor, receiverId, Pending, now)])
  {
    var e := Friend(newId, actor, receiverId, Pending, now);
    st.friends := st.friends + [e];
    resp := Response(CREATED, Some(e));
  }

  // ---------------------------------------------------------------- acceptFriend

  function Accept(): Friend -> Friend
  {
    (e: Friend) => e.(status := Accepted)
  }

  /** The edges after the actor accepts `other`'s request. */
  function AcceptEdge(friends: seq<Friend>, actor: Id, other: Id): seq<Friend>
  {
    UpdateFirst(friends, SentBy(other, actor), Accept())
  }

  /** Accepting touches only an edge sent by `other` to the actor, which becomes accepted; an edge
      the actor sent to `other` is never accepted this way. Edges only move from pending to
      accepted, never back. */
  lemma AcceptOnlyThatEdge(friends: seq<Friend>, actor: Id, other: Id)
    ensures var friends' := AcceptEdge(friends, actor, other);
      && |friends'| == |friends|
      && (forall k :: 0 <= k < |friends| && friends'[k] != friends[k] ==>
            && friends[k].sender == other && friends[k].receiver == actor
            && friends'[k] == friends[k].(status := Accepted))
      && (forall k :: 0 <= k < |friends| && friends[k].status == Accepted ==> friends'[k].status == Accepted)
  {
  }

  /** An existing request from `other` to the actor is accepted by the call. */
  lemma AcceptFindsRequest(friends: seq<Friend>, actor: Id, other: Id)
    requires exists e :: e in friends && e.sender == other && e.receiver == actor
    ensures exists e :: e in AcceptEdge(friends, actor, other) && e.sender == other && e.receiver == actor && e.status == Accepted
  {
    var i := IndexOf(friends, SentBy(other, actor));
    var e :| e in friends && e.sender == other && e.receiver == actor;
    assert SentBy(other, actor)(e);
    assert i < |friends|;
    assert AcceptEdge(friends, actor, other)[i] == friends[i].(status := Accepted);
  }

  /** Accepting twice is accepting once. */
  lemma AcceptIdempotent(friends: seq<Friend>, actor: Id, other: Id)
    ensures AcceptEdge(AcceptEdge(friends, actor, other), actor, other) == AcceptEdge(friends, actor, other)
  {
    UpdateFirstTwice(friends, SentBy(other, actor), Accept());
  }

  /** `acceptFriend`: the first edge sent by `receiverId` to the actor becomes accepted and is
      returned; with no such edge nothing changes and the answer is 200 with null. */
  method AcceptFriend(st: Store, actor: Id, receiverId: Id) returns (resp: Response<Option<Friend>>)
    modifies st
    ensures st.State() == old(st.State()).(friends := AcceptEdge(old(st.friends), actor, receiverId))
    ensures var found := FindFirst(old(st.friends), SentBy(receiverId, actor));
      resp == Response(OK, Some(if found.Some? then Some(found.value.(status := Accepted)) else None))
  {
    var found := FindFirst(st.friends, SentBy(receiverId, actor));
    st.friends := AcceptEdge(st.friends, actor, receiverId);
    resp := Response(OK, Some(if found.Some? then Some(found.value.(status := Accepted)) else None));
  }

  // ---------------------------------------------------------------- getSpecificFriend / deleteFriend

  /** `getSpecificFriend`: an edge between the actor and `friendId`, in either direction and of either
      status, or 404 "not a friend". */
  function GetSpecificFriend(db: Db, actor: Id, friendId: Id): (r: Response<Friend>)
    ensures r.status == NOT_FOUND <==> forall e :: e in db.friends ==> !Between(actor, friendId)(e)
    ensures r.status == OK ==>
              && r.body.Some? && r.body.value in db.friends
              && ((r.body.value.sender == actor && r.body.value.receiver == friendId) ||
                  (r.body.value.sender == friendId && r.body.value.receiver == actor))
  {
    match FindFirst(db.friends, Between(actor, friendId))
    case None => Response(NOT_FOUND, None)
    case Some(e) => Response(OK, Some(e))
  }

  /** Deleting removes at most one edge, and only one joining the two users; every other edge stays. */
  lemma UnfriendRemovesOne(friends: seq<Friend>, actor: Id, other: Id)
    ensures var friends' := RemoveFirst(friends, Between(actor, other));
      && |friends'| >= |friends| - 1
      && (forall e :: e in friends && !Between(actor, other)(e) ==> e in friends')
      && (forall e :: e in friends' ==> e in friends)
      && ((exists e :: e in friends && Between(actor, other)(e)) ==> |friends'| == |friends| - 1)
  {
    var friends' := RemoveFirst(friends, Between(actor, other));
    var i := IndexOf(friends, Between(actor, other));
    forall e | e in friends && !Between(actor, other)(e) ensures e in friends' {
      var k :| 0 <= k < |friends| && friends[k] == e;
      if i < |friends| {
        assert k != i;
        if k < i { assert friends'[k] == e; } else { assert friends'[k - 1] == e; }
      }
    }
    forall e | e in friends' ensures e in friends {
      var k :| 0 <= k < |friends'| && friends'[k] == e;
      if k < i { assert friends[k] == e; } else { assert friends[k + 1] == e; }
    }
  }

  /** `deleteFriend`: the first edge between the actor and `receiverId`, in either direction, is
      deleted if there is one; the answer is always 200 "not a friend". */
  method DeleteFriend(st: Store, actor: Id, receiverId: Id) returns (resp: Response<()>)
    modifies st
    ensures resp == Response(OK, Some(()))
    ensures st.State() == old(st.State()).(friends := RemoveFirst(old(st.friends), Between(actor, receiverId)))
  {
    st.friends := RemoveFirst(st.friends, Between(actor, receiverId));
    resp := Response(OK, Some(()));
  }

  // ---------------------------------------------------------------- getFriendRequest

  function PendingTo(userId: Id): Friend -> bool
  {
    (e: Friend) => e.receiver == userId && e.status == Pending
  }

  /** One entry of the request list: the sender's public fields and the id of the request edge. */
  datatype FriendRequest = FriendRequest(senderId: Id, picturePath: string, firstName: string, lastName: string,
                                         verified: bool, requestId: Id)

  /** The requests as `getFriendRequest` maps them, or None when a sender's user record is missing
      (the map then dereferences null). */
  function RequestsFrom(users: seq<User>, edges: seq<Friend>): (r: Option<seq<FriendRequest>>)
    ensures r.None? <==> exists e :: e in edges && UserById(users, e.sender).None?
    ensures r.Some? ==> |r.value| == |edges|
    ensures r.Some? ==>
              forall k :: 0 <= k < |edges| ==> r.value[k].requestId == edges[k].id && r.value[k].senderId == edges[k].sender
    decreases |edges|
  {
    if edges == [] then Some([])
    else
      match UserById(users, edges[0].sender)
      case None => None
      case Some(u) =>
        match RequestsFrom(users, edges[1..])
        case None =>
          assert exists e :: e in edges[1..] && UserById(users, e.sender).None?;
          None
        case Some(rest) =>
          assert forall e :: e in edges ==> e == edges[0] || e in edges[1..];
          Some([FriendRequest(u.id, u.picturePath, u.firstName, u.lastName, u.verified, edges[0].id)] + rest)
  }

  /** `getFriendRequest`: the first nine pending edges addressed to the user, in stored order, each
      mapped to its sender and request id; a request whose sender is gone fails the map, 500. */
  function GetFriendRequests(db: Db, userId: Id): (r: Response<seq<FriendRequest>>)
    ensures r.status == OK ==> r.body.Some? && |r.body.value| <= 9
    ensures r.status == OK ==> forall q :: q in r.body.value ==>
              exists e :: e in db.friends && e.id == q.requestId && e.sender == q.senderId &&
                          e.receiver == userId && e.status == Pending
    ensures r.status == SERVER_ERROR <==>
              exists e :: e in Window(Filter(db.friends, PendingTo(userId)), 0, 9) && UserById(db.users, e.sender).None?
  {
    var edges := Window(Filter(db.friends, PendingTo(userId)), 0, 9);
    match RequestsFrom(db.users, edges)
    case None => Response(SERVER_ERROR, None)
    case Some(rs) =>
      assert forall q :: q in rs ==>
               exists e :: e in db.friends && e.id == q.requestId && e.sender == q.senderId &&
                           e.receiver == userId && e.status == Pending by {
        forall q | q in rs
          ensures exists e :: e in db.friends && e.id == q.requestId && e.sender == q.senderId &&
                              e.receiver == userId && e.status == Pending {
          var k :| 0 <= k < |rs| && rs[k] == q;
          assert edges[k] in Filter(db.friends, PendingTo(userId));
        }
      }
      Response(OK, Some(rs))
  }
}
