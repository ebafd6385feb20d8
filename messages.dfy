/** Direct messages: reading a conversation, which only its two users may do, and sending one. */
module Messages {
  import opened Model
  import opened Query
  import opened Storage
  import opened Text

  /** A message between a and b, sent either way. */
  function Conversation(a: Id, b: Id): Message -> bool
  {
    (m: Message) => (m.senderId == a && m.receiverId == b) || (m.senderId == b && m.receiverId == a)
  }

  /** `sort({createdAt: -1})`: newest first. */
  predicate MessageNewer(a: Message, b: Message)
  {
    a.createdAt >= b.createdAt
  }

  /** `getMessages`: anyone but the two users of the conversation gets 403; they get one page of the
      conversation, newest first, fifteen per page by default. A rejected skip ends in the catch, 500. */
  function GetMessages(db: Db, actor: Id, senderId: Id, receiverId: Id, page: Option<string>, limit: Option<nat>)
    : (r: Response<seq<Message>>)
    ensures actor != senderId && actor != receiverId <==> r == Response(FORBIDDEN, None)
    ensures (actor == senderId || actor == receiverId) ==>
              (Offset(QueryNumber(page), LimitOr(limit, 15)).None? <==> r == Response(SERVER_ERROR, None))
    ensures r.status == OK ==> r.body.Some?
    ensures r.status == OK ==>
              forall m :: m in r.body.value ==>
                && m in db.messages
                && ((m.senderId == senderId && m.receiverId == receiverId) || (m.senderId == receiverId && m.receiverId == senderId))
    ensures r.status == OK && LimitOr(limit, 15) > 0 ==> |r.body.value| <= LimitOr(limit, 15)
  {
    if actor != senderId && actor != receiverId then Response(FORBIDDEN, None)
    else
      match Select(db.messages, Conversation(senderId, receiverId), MessageNewer, QueryNumber(page), LimitOr(limit, 15))
      case None => Response(SERVER_ERROR, None)
      case Some(rows) => Response(OK, Some(rows))
  }

  /** A conversation reads the same whichever of its users is named first. */
  lemma ConversationSymmetric(db: Db, a: Id, b: Id, page: Option<string>, limit: Option<nat>)
    ensures GetMessages(db, a, a, b, page, limit) == GetMessages(db, a, b, a, page, limit)
  {
    FilterCongruent(db.messages, Conversation(a, b), Conversation(b, a));
  }

  /** The conversation comes newest first. */
  lemma GetMessagesOrdered(db: Db, actor: Id, senderId: Id, receiverId: Id, page: Option<string>, limit: Option<nat>)
    requires GetMessages(db, actor, senderId, receiverId, page, limit).status == OK
    ensures Sorted(GetMessages(db, actor, senderId, receiverId, page, limit).body.value, MessageNewer)
  {
    SelectSorted(db.messages, Conversation(senderId, receiverId), MessageNewer, QueryNumber(page), LimitOr(limit, 15));
  }

  /** The longest text the message schema accepts. */
  const MAX_TEXT: nat := 1500

  /** `sendMessage`: with no actor id, 401 and nothing stored. The sender is always the actor, never a
      path parameter. A text over 1500 UTF-16 code units fails on save, 500 with nothing stored. A failed
      upload answers 500 at once but the handler goes on, so the message is still stored, without
      a picture. */
  method SendMessage(st: Store, actor: Option<Id>, receiverId: Id, text: Option<string>, upload: Upload, now: nat)
    returns (resp: Response<Message>)
    modifies st
    ensures actor.None? ==> resp == Response(UNAUTHORIZED, None) && st.State() == old(st.State())
    ensures actor.Some? ==>
              var m := Message(actor.value, receiverId, if text.Some? then text.value else "", UploadedUrl(upload), now);
              && (Utf16Length(m.text) > MAX_TEXT ==> resp == Response(SERVER_ERROR, None) && st.State() == old(st.State()))
              && (Utf16Length(m.text) <= MAX_TEXT ==> st.State() == old(st.State()).(messages := old(st.messages) + [m]))
              && (Utf16Length(m.text) <= MAX_TEXT && upload.UploadFailed? ==> resp == Response(SERVER_ERROR, None))
              && (Utf16Length(m.text) <= MAX_TEXT && !upload.UploadFailed? ==> resp == Response(OK, Some(m)))
  {
    if actor.None? {
      return Response(UNAUTHORIZED, None);
    }
    var m := Message(actor.value, receiverId, if text.Some? then text.value else "", UploadedUrl(upload), now);
    if Utf16Length(m.text) > MAX_TEXT {
      return Response(SERVER_ERROR, None);
    }
    st.messages := st.messages + [m];
    if upload.UploadFailed? {
      resp := Response(SERVER_ERROR, None);
    } else {
      resp := Response(OK, Some(m));
    }
  }
}
