/** Notifications: a receiver's newest-first list, storing one after validation, marking all of a
    receiver's notifications watched, and deleting them all. */
module Notifications {
  import opened Model
  import opened Query
  import opened Storage
  import opened Text

  function ToReceiver(id: Id): Notification -> bool
  {
    (n: Notification) => n.receiverId == id
  }

  /** `sort({createdAt: -1})`: newest first. */
  predicate NoteNewer(a: Notification, b: Notification)
  {
    a.createdAt >= b.createdAt
  }

  /** `getNotification`: one page of the receiver's notifications, newest first, five per page by
      default; a rejected skip ends in the catch, 500. */
  function GetNotifications(db: Db, id: Id, page: Option<string>, limit: Option<nat>): (r: Response<seq<Notification>>)
    ensures Offset(QueryNumber(page), LimitOr(limit, 5)).None? <==> r == Response(SERVER_ERROR, None)
    ensures r.status == OK ==> r.body.Some? && forall n :: n in r.body.value ==> n in db.notifications && n.receiverId == id
    ensures r.status == OK && LimitOr(limit, 5) > 0 ==> |r.body.value| <= LimitOr(limit, 5)
  {
    match Select(db.notifications, ToReceiver(id), NoteNewer, QueryNumber(page), LimitOr(limit, 5))
    case None => Response(SERVER_ERROR, None)
    case Some(rows) => Response(OK, Some(rows))
  }

  /** The receiver's notifications come newest first. */
  lemma GetNotificationsOrdered(db: Db, id: Id, page: Option<string>, limit: Option<nat>)
    requires GetNotifications(db, id, page, limit).status == OK
    ensures Sorted(GetNotifications(db, id, page, limit).body.value, NoteNewer)
  {
    SelectSorted(db.notifications, ToReceiver(id), NoteNewer, QueryNumber(page), LimitOr(limit, 5));
  }

  /** The types the notification schema accepts. */
  const KINDS: set<string> := {"like", "comment", "message", "newPost", "reply"}

  /** The notification `sendNotification` builds from the body, or None when the schema's validators
      refuse it: every field is required (an empty description counts as missing) and the type must
      be one of the accepted ones. */
  function BuildNotification(kind: Option<string>, description: Option<string>, linkId: Option<Id>,
                             receiverId: Option<Id>, senderId: Option<Id>, now: nat): (r: Option<Notification>)
    ensures r.Some? <==> kind.Some? && kind.value in KINDS && description.Some? && description.value != "" &&
                         linkId.Some? && receiverId.Some? && senderId.Some?
    ensures r.Some? ==> r.value == Notification(senderId.value, receiverId.value, kind.value, description.value,
                                                linkId.value, false, now)
  {
    if kind.Some? && kind.value in KINDS && description.Some? && description.value != "" &&
       linkId.Some? && receiverId.Some? && senderId.Some?
    then Some(Notification(senderId.value, receiverId.value, kind.value, description.value, linkId.value, false, now))
    else None
  }

  /** `sendNotification`: a valid notification is stored unwatched and returned; an invalid one
      fails on save, 500 with nothing stored. */
  method SendNotification(st: Store, kind: Option<string>, description: Option<string>, linkId: Option<Id>,
                          receiverId: Option<Id>, senderId: Option<Id>, now: nat)
    returns (resp: Response<Notification>)
    modifies st
    ensures var n := BuildNotification(kind, description, linkId, receiverId, senderId, now);
      && (n.None? ==> resp == Response(SERVER_ERROR, None) && st.State() == old(st.State()))
      && (n.Some? ==> resp == Response(OK, n) && st.State() == old(st.State()).(notifications := old(st.notifications) + [n.value]))
  {
    var n := BuildNotification(kind, description, linkId, receiverId, senderId, now);
    if n.None? {
      return Response(SERVER_ERROR, None);
    }
    st.notifications := st.notifications + [n.value];
    resp := Response(OK, n);
  }

  function UnwatchedOf(id: Id): Notification -> bool
  {
    (n: Notification) => n.receiverId == id && !n.watched
  }

  function Watch(): Notification -> Notification
  {
    (n: Notification) => n.(watched := true)
  }

  /** `updateMany({receiverId: id, watched: false}, {$set: {watched: true}})`. */
  function WatchAll(notes: seq<Notification>, id: Id): seq<Notification>
  {
    UpdateAll(notes, UnwatchedOf(id), Watch())
  }

  /** After marking, every notification of the receiver is watched and differs from before in that
      flag alone; the notifications of every other receiver are exactly as they were. */
  lemma WatchAllEffect(notes: seq<Notification>, id: Id)
    ensures var notes' := WatchAll(notes, id);
      && |notes'| == |notes|
      && (forall n :: n in notes' && n.receiverId == id ==> n.watched)
      && (forall k :: 0 <= k < |notes| && notes[k].receiverId == id ==> notes'[k] == notes[k].(watched := true))
      && (forall k :: 0 <= k < |notes| && notes[k].receiverId != id ==> notes'[k] == notes[k])
  {
    var notes' := WatchAll(notes, id);
    forall n | n in notes' && n.receiverId == id ensures n.watched {
      var k :| 0 <= k < |notes'| && notes'[k] == n;
    }
  }

  /** Marking twice is marking once. */
  lemma WatchAllIdempotent(notes: seq<Notification>, id: Id)
    ensures WatchAll(WatchAll(notes, id), id) == WatchAll(notes, id)
  {
    var once := WatchAll(notes, id);
    var twice := WatchAll(once, id);
    forall k | 0 <= k < |notes| ensures twice[k] == once[k] {
    }
  }

  /** `watchAllNotifications`: always 200. */
  method WatchAllNotifications(st: Store, id: Id) returns (resp: Response<()>)
    modifies st
    ensures resp == Response(OK, Some(()))
    ensures st.State() == old(st.State()).(notifications := WatchAll(old(st.notifications), id))
  {
    st.notifications := WatchAll(st.notifications, id);
    resp := Response(OK, Some(()));
  }

  /** Deleting a receiver's notifications removes exactly those, and leaves every other receiver's
      notifications as they were, in the same order. */
  lemma DeleteAllEffect(notes: seq<Notification>, id: Id, other: Id)
    ensures forall n :: n in RemoveAll(notes, ToReceiver(id)) <==> n in notes && n.receiverId != id
    ensures other != id ==> Filter(RemoveAll(notes, ToReceiver(id)), ToReceiver(other)) == Filter(notes, ToReceiver(other))
  {
    FilterFilter(notes, Not(ToReceiver(id)), ToReceiver(other));
    if other != id {
      FilterCongruent(notes, And(Not(ToReceiver(id)), ToReceiver(other)), ToReceiver(other));
    }
  }

  /** `deleteAllNotifications`: always 200. */
  method DeleteAllNotifications(st: Store, id: Id) returns (resp: Response<()>)
    modifies st
    ensures resp == Response(OK, Some(()))
    ensures st.State() == old(st.State()).(notifications := RemoveAll(old(st.notifications), ToReceiver(id)))
  {
    st.notifications := RemoveAll(st.notifications, ToReceiver(id));
    resp := Response(OK, Some(()));
  }
}
