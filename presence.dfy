/** The realtime side: the process-wide registry of online users (user id to connection id, one
    entry per user, in key insertion order), the events routed through it, and the notifications a
    new post fans out to the author's friends. */
module Presence {
  import opened Model
  import opened Query
  import opened Storage
  import opened Posts

  // ---------------------------------------------------------------- the registry

  function KeyOf(u: Id): Registration -> bool
  {
    (e: Registration) => e.userId == u
  }

  function OnSocket(s: Sock): Registration -> bool
  {
    (e: Registration) => e.socket == s
  }

  /** `onlineUsers[u]`: the connection registered for u, if any. */
  function Lookup(reg: seq<Registration>, u: Id): (r: Option<Sock>)
    ensures r.None? <==> forall e :: e in reg ==> e.userId != u
    ensures r.Some? ==> Registration(u, r.value) in reg
  {
    match FindFirst(reg, KeyOf(u))
    case None => None
    case Some(e) => Some(e.socket)
  }

  /** An object has each key once. */
  ghost predicate KeysUnique(reg: seq<Registration>)
  {
    forall i, j :: 0 <= i < j < |reg| ==> reg[i].userId != reg[j].userId
  }

  function SetSocket(s: Sock): Registration -> Registration
  {
    (e: Registration) => e.(socket := s)
  }

  /** `onlineUsers[u] = s`: an existing key keeps its place and takes the new value; a new key goes last. */
  function Register(reg: seq<Registration>, u: Id, s: Sock): seq<Registration>
  {
    if Exists(reg, KeyOf(u)) then UpdateFirst(reg, KeyOf(u), SetSocket(s)) else reg + [Registration(u, s)]
  }

  /** After registering u on s, u maps to s, whatever it mapped to before, and every other user
      maps to what it did. */
  lemma RegisterLookup(reg: seq<Registration>, u: Id, s: Sock, v: Id)
    ensures Lookup(Register(reg, u, s), u) == Some(s)
    ensures v != u ==> Lookup(Register(reg, u, s), v) == Lookup(reg, v)
  {
    var reg' := Register(reg, u, s);
    if Exists(reg, KeyOf(u)) {
      IndexOfUpdateFirst(reg, KeyOf(u), SetSocket(s));
      var i := IndexOf(reg, KeyOf(u));
      assert reg'[i] == Registration(u, s);
      if v != u {
        assert forall k :: 0 <= k < |reg| ==> KeyOf(v)(reg'[k]) == KeyOf(v)(reg[k]);
        IndexOfSame(reg, reg', KeyOf(v));
        var j := IndexOf(reg, KeyOf(v));
        if j < |reg| {
          assert j != i;
        }
      }
    } else {
      assert forall e :: e in reg ==> !KeyOf(u)(e);
      IndexOfAppend(reg, Registration(u, s), KeyOf(u));
      if v != u {
        IndexOfAppend(reg, Registration(u, s), KeyOf(v));
      }
    }
  }

  /** Registering keeps one entry per user. */
  lemma RegisterKeepsKeysUnique(reg: seq<Registration>, u: Id, s: Sock)
    requires KeysUnique(reg)
    ensures KeysUnique(Register(reg, u, s))
  {
    if !Exists(reg, KeyOf(u)) {
      var reg' := reg + [Registration(u, s)];
      forall i, j | 0 <= i < j < |reg'| ensures reg'[i].userId != reg'[j].userId {
        if j == |reg| {
          assert reg'[i] in reg;
        }
      }
    }
  }

  lemma IndexOfSame<T>(a: seq<T>, b: seq<T>, p: T -> bool)
    requires |a| == |b|
    requires forall k :: 0 <= k < |a| ==> p(a[k]) == p(b[k])
    ensures IndexOf(a, p) == IndexOf(b, p)
    decreases |a|
  {
    if a != [] && !p(a[0]) {
      IndexOfSame(a[1..], b[1..], p);
    }
  }

  lemma IndexOfAppend<T>(s: seq<T>, x: T, p: T -> bool)
    ensures IndexOf(s + [x], p) == if IndexOf(s, p) < |s| then IndexOf(s, p) else if p(x) then |s| else |s| + 1
    decreases |s|
  {
    if s != [] && !p(s[0]) {
      assert (s + [x])[1..] == s[1..] + [x];
      IndexOfAppend(s[1..], x, p);
    }
  }

  /** The user whose entry holds connection s: the first key with that value. */
  function OwnerOf(reg: seq<Registration>, s: Sock): (r: Option<Id>)
    ensures r.None? <==> forall e :: e in reg ==> e.socket != s
    ensures r.Some? ==> Registration(r.value, s) in reg
  {
    match FindFirst(reg, OnSocket(s))
    case None => None
    case Some(e) => Some(e.userId)
  }

  /** `delete onlineUsers[key]` for the first key whose value is s. */
  function Unregister(reg: seq<Registration>, s: Sock): seq<Registration>
  {
    RemoveFirst(reg, OnSocket(s))
  }

  /** Disconnecting s removes at most one entry, and only one holding s; with no entry holding s the
      registry is unchanged. */
  lemma UnregisterRemovesOne(reg: seq<Registration>, s: Sock)
    ensures var reg' := Unregister(reg, s);
      && (OwnerOf(reg, s).None? ==> reg' == reg)
      && (OwnerOf(reg, s).Some? ==> multiset(reg') == multiset(reg) - multiset{Registration(OwnerOf(reg, s).value, s)})
      && (forall e :: e in reg && e.socket != s ==> e in reg')
      && (forall e :: e in reg' ==> e in reg)
  {
    var reg' := Unregister(reg, s);
    var i := IndexOf(reg, OnSocket(s));
    forall e | e in reg && e.socket != s ensures e in reg' {
      var k :| 0 <= k < |reg| && reg[k] == e;
      if i < |reg| {
        assert k != i;
        if k < i { assert reg'[k] == e; } else { assert reg'[k - 1] == e; }
      }
    }
    forall e | e in reg' ensures e in reg {
      var k :| 0 <= k < |reg'| && reg'[k] == e;
      if k < i { assert reg[k] == e; } else { assert reg[k + 1] == e; }
    }
  }

  /** Disconnecting keeps one entry per user: the entries left are the old ones in their old order. */
  lemma UnregisterKeepsKeysUnique(reg: seq<Registration>, s: Sock)
    requires KeysUnique(reg)
    ensures KeysUnique(Unregister(reg, s))
  {
    var reg' := Unregister(reg, s);
    var i := IndexOf(reg, OnSocket(s));
    forall a, b | 0 <= a < b < |reg'| ensures reg'[a].userId != reg'[b].userId {
      var a' := if a < i then a else a + 1;
      var b' := if b < i then b else b + 1;
      assert reg'[a] == reg[a'] && reg'[b] == reg[b'];
    }
  }

  /** A user registered on another connection keeps that entry when s disconnects: a user who
      re-registered on s2 is not logged out by the close of the old connection s1. */
  lemma UnregisterKeepsOthers(reg: seq<Registration>, s: Sock, u: Id, t: Sock)
    requires KeysUnique(reg)
    requires Lookup(reg, u) == Some(t) && t != s
    ensures Lookup(Unregister(reg, s), u) == Some(t)
  {
    var reg' := Unregister(reg, s);
    UnregisterRemovesOne(reg, s);
    assert Registration(u, t) in reg';
    var found := Lookup(reg', u).value;
    assert Registration(u, found) in reg;
    var a :| 0 <= a < |reg| && reg[a] == Registration(u, found);
    var b :| 0 <= b < |reg| && reg[b] == Registration(u, t);
    assert a == b;
  }

  // ---------------------------------------------------------------- routing

  /** `socket.to(onlineUsers[u])`: the connection an event for u goes to, if u is registered. The
      transport never echoes a broadcast back to the sending connection. */
  function Route(reg: seq<Registration>, sender: Sock, u: Id): (r: Option<Sock>)
    ensures r.Some? <==> Lookup(reg, u).Some? && Lookup(reg, u).value != sender
    ensures r.Some? ==> Registration(u, r.value) in reg && r.value != sender
  {
    match Lookup(reg, u)
    case None => None
    case Some(t) => if t == sender then None else Some(t)
  }

  /** The event emitted for u: one event on u's connection, or none. */
  function Deliver(reg: seq<Registration>, sender: Sock, u: Id, event: string, payload: Payload): (r: seq<Emit>)
    ensures Route(reg, sender, u).None? ==> r == []
    ensures Route(reg, sender, u).Some? ==> r == [Emit(Route(reg, sender, u).value, event, payload)]
  {
    match Route(reg, sender, u)
    case None => []
    case Some(t) => [Emit(t, event, payload)]
  }

  /** The same event emitted for each of `ids` in turn. */
  function FanOut(reg: seq<Registration>, sender: Sock, ids: seq<Id>, event: string, payload: Payload): (r: seq<Emit>)
    ensures |r| <= |ids|
    decreases |ids|
  {
    if ids == [] then []
    else FanOut(reg, sender, ids[..|ids| - 1], event, payload) + Deliver(reg, sender, ids[|ids| - 1], event, payload)
  }

  /** A fan-out sends the event to the connection of every listed user who is registered on
      another connection than the sender's, and to no other connection. */
  lemma {:induction false} FanOutReaches(reg: seq<Registration>, sender: Sock, ids: seq<Id>, event: string, payload: Payload)
    ensures forall m :: m in FanOut(reg, sender, ids, event, payload) ==>
              m.event == event && m.payload == payload && exists u :: u in ids && Route(reg, sender, u) == Some(m.to)
    ensures forall u :: u in ids && Route(reg, sender, u).Some? ==>
              Emit(Route(reg, sender, u).value, event, payload) in FanOut(reg, sender, ids, event, payload)
    decreases |ids|
  {
    if ids != [] {
      var init := ids[..|ids| - 1];
      FanOutReaches(reg, sender, init, event, payload);
      assert forall u :: u in ids ==> u in init || u == ids[|ids| - 1];
      assert forall u :: u in init ==> u in ids;
    }
  }

  // ---------------------------------------------------------------- the online flag

  function SetOnline(online: bool): User -> User
  {
    (u: User) => u.(online := online)
  }

  /** Loading user u and saving it with the given online flag; a missing user changes nothing. */
  function SetOnlineFlag(users: seq<User>, u: Id, online: bool): (r: seq<User>)
    ensures |r| == |users|
    ensures forall k :: 0 <= k < |users| ==> r[k] == users[k] || (users[k].id == u && r[k] == users[k].(online := online))
    ensures UserById(users, u).Some? ==> UserById(r, u) == Some(UserById(users, u).value.(online := online))
    ensures UserById(users, u).None? ==> r == users
  {
    IndexOfUpdateFirst(users, UserIdIs(u), SetOnline(online));
    UpdateFirst(users, UserIdIs(u), SetOnline(online))
  }

  // ---------------------------------------------------------------- the event handlers

  /** `userOnline`: the registration is recorded first, so it holds even when loading the user
      fails; an existing user is then marked online. */
  method UserOnline(st: Store, sock: Sock, userId: Id)
    modifies st
    ensures st.State() == old(st.State()).(onlineUsers := Register(old(st.onlineUsers), userId, sock),
                                          users := SetOnlineFlag(old(st.users), userId, true))
  {
    st.onlineUsers := Register(st.onlineUsers, userId, sock);
    st.users := SetOnlineFlag(st.users, userId, true);
  }

  /** `sendMessage` (the realtime event): the message goes to the receiver's connection only, and
      nothing is stored. */
  method RelayMessage(st: Store, sock: Sock, receiverId: Id, message: string)
    modifies st
    ensures st.State() == old(st.State()).(outbox := old(st.outbox) +
                            Deliver(old(st.onlineUsers), sock, receiverId, "receiveMessage", ClientData(message)))
  {
    st.outbox := st.outbox + Deliver(st.onlineUsers, sock, receiverId, "receiveMessage", ClientData(message));
  }

  /** `newPost`: the post goes to each friend's connection in turn, and nothing is stored. */
  method AnnouncePost(st: Store, sock: Sock, friends: seq<Id>, post: string)
    modifies st
    ensures st.State() == old(st.State()).(outbox := old(st.outbox) +
                            FanOut(old(st.onlineUsers), sock, friends, "notification", ClientData(post)))
  {
    ghost var before := st.State();
    var i := 0;
    while i < |friends|
      invariant 0 <= i <= |friends|
      invariant st.outbox == before.outbox + FanOut(before.onlineUsers, sock, friends[..i], "notification", ClientData(post))
      invariant st.State() == before.(outbox := st.outbox)
    {
      var step := Deliver(st.onlineUsers, sock, friends[i], "notification", ClientData(post));
      assert FanOut(before.onlineUsers, sock, friends[..i + 1], "notification", ClientData(post)) ==
             FanOut(before.onlineUsers, sock, friends[..i], "notification", ClientData(post)) + step by {
        assert friends[..i + 1][..i] == friends[..i];
      }
      st.outbox := st.outbox + step;
      i := i + 1;
    }
    assert friends[..i] == friends;
  }

  /** What a `newPost` notification event carries besides the friend list. */
  datatype PostEvent = PostEvent(senderId: Option<Id>, firstName: Option<string>, postId: Option<Id>, friends: seq<Id>)

  /** A notification can be saved only when the required sender and link fields are present. */
  predicate Storable(ev: PostEvent)
  {
    ev.senderId.Some? && ev.postId.Some?
  }

  /** The notification stored for one friend. A missing first name is interpolated as "undefined". */
  function NoteFor(ev: PostEvent, friend: Id, now: nat): (n: Notification)
    requires Storable(ev)
    ensures n.kind == "newPost" && n.receiverId == friend && n.senderId == ev.senderId.value
    ensures n.linkId == ev.postId.value && !n.watched
    ensures n.description == (if ev.firstName.Some? then ev.firstName.value else "undefined") + " shared a new post"
  {
    Notification(ev.senderId.value, friend, "newPost",
                 (if ev.firstName.Some? then ev.firstName.value else "undefined") + " shared a new post",
                 ev.postId.value, false, now)
  }

  /** The notifications saved for the first n friends; `fails` holds the positions whose save fails
      for a reason outside the model (each failure is caught and the loop goes on). */
  function NewPostNotes(ev: PostEvent, n: nat, fails: set<nat>, now: nat): (r: seq<Notification>)
    requires n <= |ev.friends|
    ensures |r| <= n
  {
    if n == 0 then []
    else
      var init := NewPostNotes(ev, n - 1, fails, now);
      if Storable(ev) && n - 1 !in fails then init + [NoteFor(ev, ev.friends[n - 1], now)] else init
  }

  /** The saved notifications are exactly those of the friends whose save does not fail, none at
      all when the event lacks its sender or post, and one per friend when no save fails. */
  lemma {:induction false} NewPostNotesExactly(ev: PostEvent, n: nat, fails: set<nat>, now: nat)
    requires n <= |ev.friends|
    ensures !Storable(ev) ==> NewPostNotes(ev, n, fails, now) == []
    ensures Storable(ev) && (forall k :: 0 <= k < n ==> k !in fails) ==> |NewPostNotes(ev, n, fails, now)| == n
    ensures Storable(ev) ==> forall k :: 0 <= k < n && k !in fails ==> NoteFor(ev, ev.friends[k], now) in NewPostNotes(ev, n, fails, now)
    ensures forall x :: x in NewPostNotes(ev, n, fails, now) ==>
              Storable(ev) && exists k :: 0 <= k < n && k !in fails && x == NoteFor(ev, ev.friends[k], now)
  {
    if n > 0 {
      NewPostNotesExactly(ev, n - 1, fails, now);
    }
  }

  /** The events sent for the first n friends: each saved notification goes to its friend's connection. */
  function NewPostEmits(reg: seq<Registration>, sender: Sock, ev: PostEvent, n: nat, fails: set<nat>, now: nat): (r: seq<Emit>)
    requires n <= |ev.friends|
    ensures |r| <= |NewPostNotes(ev, n, fails, now)|
  {
    if n == 0 then []
    else
      var init := NewPostEmits(reg, sender, ev, n - 1, fails, now);
      if Storable(ev) && n - 1 !in fails then
        var note := NoteFor(ev, ev.friends[n - 1], now);
        init + Deliver(reg, sender, ev.friends[n - 1], "friendNewPost", SavedNotification(note))
      else init
  }

  /** Every event sent is a "friendNewPost" carrying one of the saved notifications, on the
      connection its receiver is registered on. */
  lemma {:induction false} NewPostEmitsRouted(reg: seq<Registration>, sender: Sock, ev: PostEvent, n: nat, fails: set<nat>, now: nat)
    requires n <= |ev.friends|
    ensures forall m :: m in NewPostEmits(reg, sender, ev, n, fails, now) ==>
              && m.event == "friendNewPost" && m.payload.SavedNotification?
              && m.payload.notification in NewPostNotes(ev, n, fails, now)
              && Route(reg, sender, m.payload.notification.receiverId) == Some(m.to)
  {
    if n > 0 {
      NewPostEmitsRouted(reg, sender, ev, n - 1, fails, now);
    }
  }

  /** One more friend: a save that succeeds adds its notification and its event, a failed one nothing. */
  lemma NewPostStep(reg: seq<Registration>, sender: Sock, ev: PostEvent, i: nat, fails: set<nat>, now: nat)
    requires i < |ev.friends|
    ensures Storable(ev) && i !in fails ==>
              var note := NoteFor(ev, ev.friends[i], now);
              && NewPostNotes(ev, i + 1, fails, now) == NewPostNotes(ev, i, fails, now) + [note]
              && NewPostEmits(reg, sender, ev, i + 1, fails, now) ==
                   NewPostEmits(reg, sender, ev, i, fails, now) + Deliver(reg, sender, ev.friends[i], "friendNewPost", SavedNotification(note))
    ensures !(Storable(ev) && i !in fails) ==>
              && NewPostNotes(ev, i + 1, fails, now) == NewPostNotes(ev, i, fails, now)
              && NewPostEmits(reg, sender, ev, i + 1, fails, now) == NewPostEmits(reg, sender, ev, i, fails, now)
  {
  }

  /** The `newPost` branch of `notifications`: one notification saved per friend, in order, each sent
      to its friend's connection; a failed save skips only that friend. */
  method NotifyFriends(st: Store, sock: Sock, ev: PostEvent, fails: set<nat>, now: nat)
    modifies st
    ensures st.State() == old(st.State()).(
              notifications := old(st.notifications) + NewPostNotes(ev, |ev.friends|, fails, now),
              outbox := old(st.outbox) + NewPostEmits(old(st.onlineUsers), sock, ev, |ev.friends|, fails, now))
  {
    ghost var before := st.State();
    var i := 0;
    while i < |ev.friends|
      modifies st`notifications, st`outbox
      invariant 0 <= i <= |ev.friends|
      invariant st.onlineUsers == before.onlineUsers
      invariant st.notifications == before.notifications + NewPostNotes(ev, i, fails, now)
      invariant st.outbox == before.outbox + NewPostEmits(before.onlineUsers, sock, ev, i, fails, now)
    {
      NewPostStep(before.onlineUsers, sock, ev, i, fails, now);
      if Storable(ev) && i !in fails {
        var note := NoteFor(ev, ev.friends[i], now);
        AppendAssoc(before.notifications, NewPostNotes(ev, i, fails, now), [note]);
        AppendAssoc(before.outbox, NewPostEmits(before.onlineUsers, sock, ev, i, fails, now),
                    Deliver(before.onlineUsers, sock, ev.friends[i], "friendNewPost", SavedNotification(note)));
      }
      NotifyFriend(st, sock, ev, i, fails, now);
      i := i + 1;
    }
  }

  /** One pass of the `newPost` loop: the notification for friend i is saved and sent, unless its save fails. */
  method NotifyFriend(st: Store, sock: Sock, ev: PostEvent, i: nat, fails: set<nat>, now: nat)
    requires i < |ev.friends|
    modifies st`notifications, st`outbox
    ensures Storable(ev) && i !in fails ==>
              var note := NoteFor(ev, ev.friends[i], now);
              && st.notifications == old(st.notifications) + [note]
              && st.outbox == old(st.outbox) + Deliver(st.onlineUsers, sock, ev.friends[i], "friendNewPost", SavedNotification(note))
    ensures !(Storable(ev) && i !in fails) ==> st.notifications == old(st.notifications) && st.outbox == old(st.outbox)
  {
    if Storable(ev) && i !in fails {
      var note := NoteFor(ev, ev.friends[i], now);
      st.notifications := st.notifications + [note];
      st.outbox := st.outbox + Deliver(st.onlineUsers, sock, ev.friends[i], "friendNewPost", SavedNotification(note));
    }
  }

  /** `notifications`: an event of another type goes to the receiver's connection only and nothing
      is stored; a `newPost` event saves and sends the friends' notifications. */
  method Notify(st: Store, sock: Sock, kind: string, receiverId: Id, notification: string, ev: PostEvent,
                fails: set<nat>, now: nat)
    modifies st
    ensures kind != "newPost" ==>
              st.State() == old(st.State()).(outbox := old(st.outbox) +
                              Deliver(old(st.onlineUsers), sock, receiverId, "getNotifications", ClientData(notification)))
    ensures kind == "newPost" ==>
              st.State() == old(st.State()).(
                notifications := old(st.notifications) + NewPostNotes(ev, |ev.friends|, fails, now),
                outbox := old(st.outbox) + NewPostEmits(old(st.onlineUsers), sock, ev, |ev.friends|, fails, now))
  {
    if kind != "newPost" {
      st.outbox := st.outbox + Deliver(st.onlineUsers, sock, receiverId, "getNotifications", ClientData(notification));
    } else {
      NotifyFriends(st, sock, ev, fails, now);
    }
  }

  /** `disconnect`: the first entry holding the closing connection is deleted and its user marked
      offline; when no entry holds it, the lookup of an undefined user fails and nothing changes. */
  method Disconnect(st: Store, sock: Sock)
    modifies st
    ensures var owner := OwnerOf(old(st.onlineUsers), sock);
      st.State() == old(st.State()).(
        onlineUsers := Unregister(old(st.onlineUsers), sock),
        users := if owner.Some? then SetOnlineFlag(old(st.users), owner.value, false) else old(st.users))
  {
    var owner := OwnerOf(st.onlineUsers, sock);
    st.onlineUsers := Unregister(st.onlineUsers, sock);
    if owner.Some? {
      st.users := SetOnlineFlag(st.users, owner.value, false);
    }
  }
}
