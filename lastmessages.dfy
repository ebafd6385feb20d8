/** The last-message table: one row per conversation, keyed by the unordered pair of its users,
    holding the latest message; and the actor's conversations, most recent first. */
module LastMessages {
  import opened Model
  import opened Query
  import opened Storage
  import opened Text

  /** A row for the pair {a, b}, stored either way round. */
  function PairOf(a: Id, b: Id): LastMessage -> bool
  {
    (m: LastMessage) => (m.senderId == a && m.receiverId == b) || (m.senderId == b && m.receiverId == a)
  }

  /** No two rows share an unordered pair. */
  ghost predicate PairsUnique(rows: seq<LastMessage>)
  {
    forall i, j :: 0 <= i < j < |rows| ==> !PairOf(rows[i].senderId, rows[i].receiverId)(rows[j])
  }

  function Overwrite(row: LastMessage): LastMessage -> LastMessage
  {
    (m: LastMessage) => row
  }

  /** `findOneAndUpdate` on the pair with `upsert`: the pair's first row is overwritten with the new
      message, sender, receiver and time; with no row for the pair, the new row is appended. */
  function Upsert(rows: seq<LastMessage>, row: LastMessage): seq<LastMessage>
  {
    var p := PairOf(row.senderId, row.receiverId);
    if Exists(rows, p) then UpdateFirst(rows, p, Overwrite(row)) else rows + [row]
  }

  /** After the upsert the pair's row is the new one; a row stored the other way round is updated in
      place and not duplicated; with no row for the pair exactly one is added; every row of another
      pair is unchanged. */
  lemma UpsertEffect(rows: seq<LastMessage>, row: LastMessage)
    ensures var p := PairOf(row.senderId, row.receiverId);
            var rows' := Upsert(rows, row);
      && FindFirst(rows', p) == Some(row)
      && (Exists(rows, p) ==> |rows'| == |rows|)
      && (!Exists(rows, p) ==> rows' == rows + [row])
      && (forall m :: m in rows && !p(m) ==> m in rows')
      && (forall m :: m in rows' ==> m == row || (m in rows && !p(m)) || (m in rows && Exists(rows, p)))
  {
    var p := PairOf(row.senderId, row.receiverId);
    var rows' := Upsert(rows, row);
    if Exists(rows, p) {
      var i := IndexOf(rows, p);
      assert p(row) && rows'[i] == row;
      assert FindFirst(rows', p) == Some(row);
      forall m | m in rows && !p(m) ensures m in rows' {
        var k :| 0 <= k < |rows| && rows[k] == m;
        assert k != i && rows'[k] == m;
      }
      forall m | m in rows' ensures m == row || (m in rows && !p(m)) || (m in rows && Exists(rows, p)) {
        var k :| 0 <= k < |rows'| && rows'[k] == m;
        if k != i { assert rows[k] == m; }
      }
    } else {
      assert p(row);
      FindFirstAppend(rows, row, p);
    }
  }

  /** The upsert keeps one row per unordered pair. */
  lemma UpsertKeepsPairsUnique(rows: seq<LastMessage>, row: LastMessage)
    requires PairsUnique(rows)
    ensures PairsUnique(Upsert(rows, row))
  {
    var p := PairOf(row.senderId, row.receiverId);
    var rows' := Upsert(rows, row);
    if Exists(rows, p) {
      var i := IndexOf(rows, p);
      forall a, b | 0 <= a < b < |rows'| ensures !PairOf(rows'[a].senderId, rows'[a].receiverId)(rows'[b]) {
        if a == i {
          assert !PairOf(rows[a].senderId, rows[a].receiverId)(rows[b]);
        } else if b == i {
          assert !PairOf(rows[a].senderId, rows[a].receiverId)(rows[b]);
        }
      }
    } else {
      forall a, b | 0 <= a < b < |rows'| ensures !PairOf(rows'[a].senderId, rows'[a].receiverId)(rows'[b]) {
        if b == |rows| {
          assert rows[a] in rows;
          assert !p(rows[a]);
        }
      }
    }
  }

  /** `postLastMessage`: the row for the pair is upserted; always 200. A missing message is stored as "". */
  method PostLastMessage(st: Store, senderId: Id, receiverId: Id, message: Option<string>, now: nat) returns (resp: Response<()>)
    modifies st
    ensures resp == Response(OK, Some(()))
    ensures st.State() == old(st.State()).(lastMessages := Upsert(old(st.lastMessages),
              LastMessage(senderId, receiverId, if message.Some? then message.value else "", now)))
  {
    var row := LastMessage(senderId, receiverId, if message.Some? then message.value else "", now);
    st.lastMessages := Upsert(st.lastMessages, row);
    resp := Response(OK, Some(()));
  }

  function Involves(id: Id): LastMessage -> bool
  {
    (m: LastMessage) => m.senderId == id || m.receiverId == id
  }

  /** `sort({updatedAt: -1})`: most recently updated first. */
  predicate UpdatedNewer(a: LastMessage, b: LastMessage)
  {
    a.updatedAt >= b.updatedAt
  }

  /** `getLastMessages`: one page of ten of the actor's conversations; a rejected skip ends in the
      catch, 500. */
  function GetLastMessages(db: Db, actor: Id, page: Option<string>): (r: Response<seq<LastMessage>>)
    ensures Offset(QueryNumber(page), 10).None? <==> r == Response(SERVER_ERROR, None)
    ensures r.status == OK ==> r.body.Some? && |r.body.value| <= 10
    ensures r.status == OK ==> forall m :: m in r.body.value ==> m in db.lastMessages && (m.senderId == actor || m.receiverId == actor)
  {
    match Select(db.lastMessages, Involves(actor), UpdatedNewer, QueryNumber(page), 10)
    case None => Response(SERVER_ERROR, None)
    case Some(rows) => Response(OK, Some(rows))
  }

  /** The conversations come most recently updated first. */
  lemma GetLastMessagesOrdered(db: Db, actor: Id, page: Option<string>)
    requires GetLastMessages(db, actor, page).status == OK
    ensures Sorted(GetLastMessages(db, actor, page).body.value, UpdatedNewer)
  {
    SelectSorted(db.lastMessages, Involves(actor), UpdatedNewer, QueryNumber(page), 10);
  }
}
