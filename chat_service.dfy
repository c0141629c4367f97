/**
 The chat message service (app/service/chat_service.py): sending a message
 with a client idempotency token, marking a message read, and reading a page
 of a chat's history. The SQL session is replaced by a store holding the
 `group_members` rows and the `messages` rows.

 Every operation first runs the same membership guard, which looks for a
 `group_members` row whose `group_id` equals the chat id; the model keeps that
 comparison as written.
 */
module ChatService {

  datatype Option<T> = None | Some(value: T)

  /** The failures the three operations surface. */
  datatype Error =
    | Forbidden       // HTTPException with status 403: no membership row
    | MessageMissing  // mark_read on an absent id: `original` is None and reading its sender raises

  datatype Result<T> = Ok(value: T) | Err(error: Error)

  /** A row of `group_members`. */
  datatype Membership = Membership(groupId: int, userId: int)

  /** A row of `messages`. `createdAt` is a clock tick. */
  datatype Message = Message(
    id: nat,
    chatId: int,
    senderId: int,
    text: string,
    clientMessageId: Option<string>,
    isRead: bool,
    createdAt: int)

  /** The store as the service sees it; `nextId` is the next primary key. */
  datatype Db = Db(members: set<Membership>, rows: seq<Message>, nextId: nat)

  /** The store after an operation, and what the operation returned. */
  datatype Step<T> = Step(db: Db, result: Result<T>)

  /** The membership guard: the query for a `group_members` row with
      `group_id = chatId` and `user_id = userId` returns a first row. */
  function IsMember(members: set<Membership>, chatId: int, userId: int): (r: bool)
    ensures r <==> exists g :: g in members && g.groupId == chatId && g.userId == userId
  {
    Membership(chatId, userId) in members
  }

  /** Primary keys are assigned in increasing order, below `nextId`. */
  predicate IdsAssigned(rows: seq<Message>, nextId: nat)
  {
    && (forall i :: 0 <= i < |rows| ==> rows[i].id < nextId)
    && (forall i, j :: 0 <= i < j < |rows| ==> rows[i].id < rows[j].id)
  }

  /** The unique index on `client_message_id` holds; NULL tokens never clash. */
  predicate TokensUnique(rows: seq<Message>)
  {
    forall i, j :: 0 <= i < j < |rows| && rows[i].clientMessageId.Some? ==>
      rows[i].clientMessageId != rows[j].clientMessageId
  }

  predicate Consistent(db: Db)
  {
    IdsAssigned(db.rows, db.nextId) && TokensUnique(db.rows)
  }

  // ---------------------------------------------------------------------------
  // Queries

  /** `select(Message).where(Message.client_message_id == token)`. */
  function FindByToken(rows: seq<Message>, token: string): (r: Option<Message>)
    ensures r.Some? ==> r.value in rows && r.value.clientMessageId == Some(token)
    ensures r.None? <==> forall m :: m in rows ==> m.clientMessageId != Some(token)
  {
    if rows == [] then None
    else if rows[0].clientMessageId == Some(token) then Some(rows[0])
    else FindByToken(rows[1..], token)
  }

  /** `session.get(Message, id)`. */
  function FindById(rows: seq<Message>, id: int): (r: Option<Message>)
    ensures r.Some? ==> r.value in rows && r.value.id == id
    ensures r.None? <==> forall m :: m in rows ==> m.id != id
  {
    if rows == [] then None
    else if rows[0].id == id then Some(rows[0])
    else FindById(rows[1..], id)
  }

  /** How many rows hold the token. */
  function CountToken(rows: seq<Message>, token: string): nat
  {
    if rows == [] then 0
    else (if rows[0].clientMessageId == Some(token) then 1 else 0) + CountToken(rows[1..], token)
  }

  /** With the unique index in place a token is held by exactly one row when
      it is found, and by none otherwise. */
  lemma {:induction false} TokenCount(rows: seq<Message>, token: string)
    requires TokensUnique(rows)
    ensures CountToken(rows, token) == if FindByToken(rows, token).Some? then 1 else 0
  {
    if rows != [] {
      assert TokensUnique(rows[1..]) by {
        forall i, j | 0 <= i < j < |rows[1..]| && rows[1..][i].clientMessageId.Some?
          ensures rows[1..][i].clientMessageId != rows[1..][j].clientMessageId
        {
          assert rows[1..][i] == rows[i + 1] && rows[1..][j] == rows[j + 1];
        }
      }
      TokenCount(rows[1..], token);
      if rows[0].clientMessageId == Some(token) {
        forall m | m in rows[1..] ensures m.clientMessageId != Some(token) {
          var j :| 0 <= j < |rows[1..]| && rows[1..][j] == m;
          assert rows[j + 1] == m;
        }
      }
    }
  }

  /** The unique index rejects a row carrying `token`: the token is not NULL
      and some stored row already holds it. */
  predicate Clashes(rows: seq<Message>, token: Option<string>)
  {
    token.Some? && FindByToken(rows, token.value).Some?
  }

  /** A token absent from the table is found, after an append, on the
      appended row. */
  lemma {:induction false} FindByTokenAppend(rows: seq<Message>, m: Message, token: string)
    requires FindByToken(rows, token).None?
    requires m.clientMessageId == Some(token)
    ensures FindByToken(rows + [m], token) == Some(m)
  {
    if rows != [] {
      assert (rows + [m])[1..] == rows[1..] + [m];
      FindByTokenAppend(rows[1..], m, token);
    }
  }

  // ---------------------------------------------------------------------------
  // send_message

  /** Appending a row with the next primary key and a token the unique index
      accepts keeps the store consistent. */
  lemma AppendKeepsConsistent(db: Db, row: Message)
    requires row.id == db.nextId
    requires !Clashes(db.rows, row.clientMessageId)
    ensures Consistent(db) ==> Consistent(db.(rows := db.rows + [row], nextId := db.nextId + 1))
  {
    var rows := db.rows + [row];
    if Consistent(db) {
      forall i, j | 0 <= i < j < |rows| && rows[i].clientMessageId.Some?
        ensures rows[i].clientMessageId != rows[j].clientMessageId
      {
        if j == |db.rows| {
          assert rows[i] in db.rows;
        }
      }
    }
  }

  /** `send_message`: the guard, then an insert. The primary key is drawn
      from the sequence before the unique index is consulted, so an insert
      that clashes on its token still uses up a key; it is rolled back and
      the row that already holds the token is returned. A NULL token never
      clashes, so every send without one inserts a row. The inserted row
      takes the column defaults `is_read = false` and `created_at = now`. */
  function SendStep(db: Db, chatId: int, userId: int, text: string, token: Option<string>, now: int): (s: Step<Message>)
    ensures s.db.members == db.members
    ensures s.result.Err? <==> !IsMember(db.members, chatId, userId)
    ensures s.result.Err? ==> s.result.error == Forbidden && s.db == db
    ensures s.result.Ok? ==> s.db.nextId == db.nextId + 1
    ensures Consistent(db) ==> Consistent(s.db)
    ensures s.result.Ok? && token.Some? ==> FindByToken(s.db.rows, token.value) == Some(s.result.value)
    ensures IsMember(db.members, chatId, userId) && Clashes(db.rows, token) ==>
              s == Step(db.(nextId := db.nextId + 1), Ok(FindByToken(db.rows, token.value).value))
    ensures IsMember(db.members, chatId, userId) && !Clashes(db.rows, token) ==>
              && s.db.rows == db.rows + [s.result.value]
              && s.result.value.id == db.nextId
              && s.result.value.chatId == chatId
              && s.result.value.senderId == userId
              && s.result.value.text == text
              && s.result.value.clientMessageId == token
              && !s.result.value.isRead
              && s.result.value.createdAt == now
  {
    if !IsMember(db.members, chatId, userId) then Step(db, Err(Forbidden))
    else if Clashes(db.rows, token) then
      Step(db.(nextId := db.nextId + 1), Ok(FindByToken(db.rows, token.value).value))
    else
      var row := Message(db.nextId, chatId, userId, text, token, false, now);
      assert token.Some? ==> FindByToken(db.rows + [row], token.value) == Some(row) by {
        if token.Some? {
          FindByTokenAppend(db.rows, row, token.value);
        }
      }
      AppendKeepsConsistent(db, row);
      Step(db.(rows := db.rows + [row], nextId := db.nextId + 1), Ok(row))
  }

  /** Idempotence: a second send with the same token adds no row and
      returns what the first returned, and exactly one row holds the token.
      Only the sequence moves on, by the key the rolled-back insert drew. */
  lemma SendIdempotent(db: Db, chatId: int, userId: int, text1: string, text2: string, token: string, now1: int, now2: int)
    requires Consistent(db)
    ensures var s1 := SendStep(db, chatId, userId, text1, Some(token), now1);
            var s2 := SendStep(s1.db, chatId, userId, text2, Some(token), now2);
            && s2.db.rows == s1.db.rows
            && s2.db.members == s1.db.members
            && s2.result == s1.result
            && (IsMember(db.members, chatId, userId) ==>
                  s2.db.nextId == s1.db.nextId + 1 && CountToken(s2.db.rows, token) == 1)
  {
    var s1 := SendStep(db, chatId, userId, text1, Some(token), now1);
    TokenCount(s1.db.rows, token);
  }

  /** Without a token there is nothing to deduplicate on: two sends of the
      same text add two distinct rows. */
  lemma SendWithoutTokenRepeats(db: Db, chatId: int, userId: int, text: string, now1: int, now2: int)
    requires IsMember(db.members, chatId, userId)
    ensures var s1 := SendStep(db, chatId, userId, text, None, now1);
            var s2 := SendStep(s1.db, chatId, userId, text, None, now2);
            && s1.result.Ok? && s2.result.Ok?
            && s2.db.rows == db.rows + [s1.result.value, s2.result.value]
            && s1.result.value.id != s2.result.value.id
  {
  }

  // ---------------------------------------------------------------------------
  // mark_read

  /** The row after `update(Message).where(Message.id == id).values(is_read=True)`. */
  function Marked(m: Message, id: int): Message
  {
    if m.id == id then m.(isRead := true) else m
  }

  function MarkRows(rows: seq<Message>, id: int): (r: seq<Message>)
    ensures |r| == |rows|
  {
    seq(|rows|, i requires 0 <= i < |rows| => Marked(rows[i], id))
  }

  /** After the update, looking the id up finds the same row, now read. */
  lemma {:induction false} FindMarked(rows: seq<Message>, id: int)
    ensures FindById(MarkRows(rows, id), id)
         == match FindById(rows, id)
            case None => None
            case Some(m) => Some(m.(isRead := true))
  {
    if rows != [] {
      assert MarkRows(rows, id)[1..] == MarkRows(rows[1..], id);
      FindMarked(rows[1..], id);
    }
  }

  /** An update that matches no row changes nothing. */
  lemma MarkAbsent(rows: seq<Message>, id: int)
    requires FindById(rows, id).None?
    ensures MarkRows(rows, id) == rows
  {
    assert forall i :: 0 <= i < |rows| ==> rows[i] in rows;
  }

  /** The update touches no key and no token, so the store stays consistent. */
  lemma MarkKeepsConsistent(db: Db, id: int)
    ensures Consistent(db) ==> Consistent(db.(rows := MarkRows(db.rows, id)))
  {
    var rows := MarkRows(db.rows, id);
    assert forall i :: 0 <= i < |rows| ==>
      rows[i].id == db.rows[i].id && rows[i].clientMessageId == db.rows[i].clientMessageId;
  }

  /** `mark_read`: the guard, the update (which does not look at the chat),
      then the sender of the message with that id. */
  function MarkReadStep(db: Db, chatId: int, userId: int, messageId: int): (s: Step<seq<int>>)
    ensures s.db.members == db.members && s.db.nextId == db.nextId
    ensures s.result == Err(Forbidden) <==> !IsMember(db.members, chatId, userId)
    ensures !IsMember(db.members, chatId, userId) ==> s.db == db
    ensures |s.db.rows| == |db.rows|
    ensures forall i :: 0 <= i < |db.rows| && db.rows[i].id != messageId ==> s.db.rows[i] == db.rows[i]
    ensures IsMember(db.members, chatId, userId) ==>
              forall i :: 0 <= i < |db.rows| && db.rows[i].id == messageId ==>
                s.db.rows[i] == db.rows[i].(isRead := true)
    ensures IsMember(db.members, chatId, userId) && FindById(db.rows, messageId).None? ==>
              s == Step(db, Err(MessageMissing))
    ensures IsMember(db.members, chatId, userId) && FindById(db.rows, messageId).Some? ==>
              s.result == Ok([FindById(db.rows, messageId).value.senderId])
    ensures Consistent(db) ==> Consistent(s.db)
  {
    if !IsMember(db.members, chatId, userId) then Step(db, Err(Forbidden))
    else
      var updated := db.(rows := MarkRows(db.rows, messageId));
      FindMarked(db.rows, messageId);
      MarkKeepsConsistent(db, messageId);
      if FindById(db.rows, messageId).None? then
        MarkAbsent(db.rows, messageId);
        Step(db, Err(MessageMissing))
      else
        match FindById(updated.rows, messageId)
        case Some(original) => Step(updated, Ok([original.senderId]))
  }

  /** Marking the same message twice: the second call changes nothing and
      returns what the first returned. */
  lemma MarkReadIdempotent(db: Db, chatId: int, userId: int, messageId: int)
    ensures var s1 := MarkReadStep(db, chatId, userId, messageId);
            MarkReadStep(s1.db, chatId, userId, messageId) == s1
  {
    var s1 := MarkReadStep(db, chatId, userId, messageId);
    if IsMember(db.members, chatId, userId) && FindById(db.rows, messageId).Some? {
      FindMarked(db.rows, messageId);
      FindMarked(s1.db.rows, messageId);
      assert MarkRows(s1.db.rows, messageId) == s1.db.rows;
    }
  }

  // ---------------------------------------------------------------------------
  // get_history

  /** `where(Message.chat_id == chatId)`, in table order. */
  function ChatMessages(rows: seq<Message>, chatId: int): (r: seq<Message>)
    ensures forall m :: m in r <==> m in rows && m.chatId == chatId
    ensures |r| <= |rows|
  {
    if rows == [] then []
    else if rows[0].chatId == chatId then [rows[0]] + ChatMessages(rows[1..], chatId)
    else ChatMessages(rows[1..], chatId)
  }

  /** The filter keeps every row of the chat as often as the table holds it,
      and no other row. */
  lemma {:induction false} ChatMessagesCount(rows: seq<Message>, chatId: int)
    ensures forall m :: multiset(ChatMessages(rows, chatId))[m] ==
                          if m.chatId == chatId then multiset(rows)[m] else 0
  {
    if rows != [] {
      assert rows == [rows[0]] + rows[1..];
      ChatMessagesCount(rows[1..], chatId);
    }
  }

  predicate SortedByCreated(s: seq<Message>)
  {
    forall i, j :: 0 <= i < j < |s| ==> s[i].createdAt <= s[j].createdAt
  }

  /** The first position of `s` holding a message not earlier than `x`. */
  function InsertionPoint(x: Message, s: seq<Message>): (k: nat)
    ensures k <= |s|
    ensures forall i :: 0 <= i < k ==> s[i].createdAt < x.createdAt
    ensures k < |s| ==> x.createdAt <= s[k].createdAt
  {
    if s == [] || x.createdAt <= s[0].createdAt then 0
    else 1 + InsertionPoint(x, s[1..])
  }

  /** Insert `x` into a list sorted by `created_at`, before the first entry
      that is not earlier. */
  function InsertByCreated(x: Message, s: seq<Message>): (r: seq<Message>)
    requires SortedByCreated(s)
    ensures SortedByCreated(r)
    ensures multiset(r) == multiset(s) + multiset{x}
  {
    var k := InsertionPoint(x, s);
    assert s == s[..k] + s[k..];
    var r := s[..k] + [x] + s[k..];
    assert SortedByCreated(r) by {
      forall i, j | 0 <= i < j < |r| ensures r[i].createdAt <= r[j].createdAt {
        if j <= k {
        } else if i < k {
          assert r[j] == s[j - 1];
        } else if i == k {
          assert r[j] == s[j - 1];
        } else {
          assert r[i] == s[i - 1] && r[j] == s[j - 1];
        }
      }
    }
    r
  }

  /** `order_by(Message.created_at.asc())`. */
  function SortByCreated(s: seq<Message>): (r: seq<Message>)
    ensures SortedByCreated(r)
    ensures multiset(r) == multiset(s)
  {
    if s == [] then []
    else
      assert s == [s[0]] + s[1..];
      InsertByCreated(s[0], SortByCreated(s[1..]))
  }

  /** `offset(offset).limit(limit)`. */
  function Page(s: seq<Message>, offset: nat, limit: nat): (r: seq<Message>)
    ensures |r| <= limit
    ensures offset >= |s| ==> r == []
    ensures offset < |s| ==> |r| == if limit <= |s| - offset then limit else |s| - offset
    ensures forall i :: 0 <= i < |r| ==> offset + i < |s| && r[i] == s[offset + i]
    ensures forall m :: m in r ==> m in s
  {
    if offset >= |s| then []
    else if limit <= |s| - offset then s[offset..offset + limit]
    else s[offset..]
  }

  /** `get_history`: the guard, then the page of the chat's messages in
      ascending `created_at` order. */
  function GetHistory(db: Db, chatId: int, userId: int, limit: nat, offset: nat): (r: Result<seq<Message>>)
    ensures r.Err? <==> !IsMember(db.members, chatId, userId)
    ensures r.Err? ==> r.error == Forbidden
    ensures r.Ok? ==> |r.value| <= limit && SortedByCreated(r.value)
    ensures r.Ok? ==> forall m :: m in r.value ==> m in db.rows && m.chatId == chatId
    ensures r.Ok? && offset < |ChatMessages(db.rows, chatId)| ==>
              |r.value| == if limit <= |ChatMessages(db.rows, chatId)| - offset then limit
                           else |ChatMessages(db.rows, chatId)| - offset
  {
    if !IsMember(db.members, chatId, userId) then Err(Forbidden)
    else
      var chat := ChatMessages(db.rows, chatId);
      var sorted := SortByCreated(chat);
      var page := Page(sorted, offset, limit);
      assert |sorted| == |chat| by {
        assert |multiset(sorted)| == |multiset(chat)|;
      }
      assert forall m :: m in sorted ==> m in chat by {
        forall m | m in sorted ensures m in chat {
          assert m in multiset(sorted);
        }
      }
      Ok(page)
  }

  /** The page is the window at `offset` of some arrangement of the chat's
      messages in ascending `created_at` order; which one, among messages
      with equal ticks, is not fixed. */
  lemma HistoryIsWindow(db: Db, chatId: int, userId: int, limit: nat, offset: nat)
    requires IsMember(db.members, chatId, userId)
    ensures exists arranged ::
              && multiset(arranged) == multiset(ChatMessages(db.rows, chatId))
              && SortedByCreated(arranged)
              && GetHistory(db, chatId, userId, limit, offset) == Ok(Page(arranged, offset, limit))
  {
    var arranged := SortByCreated(ChatMessages(db.rows, chatId));
    assert GetHistory(db, chatId, userId, limit, offset) == Ok(Page(arranged, offset, limit));
  }

  // ---------------------------------------------------------------------------

  /** The database session: the membership rows and the message table,
      updated in place by the service's writes. */
  class Database {
    var members: set<Membership>
    var rows: seq<Message>
    var nextId: nat

    function State(): Db
      reads this
    {
      Db(members, rows, nextId)
    }

    ghost predicate Valid()
      reads this
    {
      Consistent(State())
    }

    constructor (init: Db)
      requires Consistent(init)
      ensures State() == init && Valid()
    {
      members, rows, nextId := init.members, init.rows, init.nextId;
    }

    /** `session.add(msg)` then `session.commit()`: the insert draws the
        next primary key, then lands unless the unique index already holds
        its token, in which case the commit raises and the transaction is
        rolled back. The drawn key stays used either way. */
    method CommitInsert(draft: Message) returns (stored: Option<Message>)
      requires Valid()
      modifies this
      ensures Valid() && members == old(members) && nextId == old(nextId) + 1
      ensures Clashes(old(rows), draft.clientMessageId) ==> stored.None? && rows == old(rows)
      ensures !Clashes(old(rows), draft.clientMessageId) ==>
                && stored == Some(draft.(id := old(nextId)))
                && rows == old(rows) + [stored.value]
    {
      var id := nextId;
      nextId := nextId + 1;
      if Clashes(rows, draft.clientMessageId) {
        stored := None;
      } else {
        var row := draft.(id := id);
        AppendKeepsConsistent(Db(members, rows, id), row);
        rows := rows + [row];
        stored := Some(row);
      }
    }

    /** `update(Message).where(Message.id == id).values(is_read=True)`, committed. */
    method UpdateIsRead(id: int)
      requires Valid()
      modifies this
      ensures Valid()
      ensures State() == old(State()).(rows := MarkRows(old(rows), id))
    {
      rows := MarkRows(rows, id);
    }
  }

  /** `ChatService.send_message`. `now` is the tick `created_at` defaults to.
      The token may be NULL: callers pass the payload's value through. */
  method SendMessage(db: Database, chatId: int, userId: int, text: string, clientMessageId: Option<string>, now: int)
    returns (r: Result<Message>)
    requires db.Valid()
    modifies db
    ensures db.Valid()
    ensures Step(db.State(), r) == SendStep(old(db.State()), chatId, userId, text, clientMessageId, now)
  {
    if !IsMember(db.members, chatId, userId) {
      return Err(Forbidden);
    }
    var msg := Message(0, chatId, userId, text, clientMessageId, false, now);
    var stored := db.CommitInsert(msg);
    if stored.None? {
      var existing := FindByToken(db.rows, clientMessageId.value);
      return Ok(existing.value);
    }
    return Ok(stored.value);
  }

  /** `ChatService.mark_read`. */
  method MarkRead(db: Database, chatId: int, userId: int, messageId: int)
    returns (r: Result<seq<int>>)
    requires db.Valid()
    modifies db
    ensures db.Valid()
    ensures Step(db.State(), r) == MarkReadStep(old(db.State()), chatId, userId, messageId)
  {
    if !IsMember(db.members, chatId, userId) {
      return Err(Forbidden);
    }
    db.UpdateIsRead(messageId);
    var original := FindById(db.rows, messageId);
    if original.None? {
      return Err(MessageMissing);
    }
    return Ok([original.value.senderId]);
  }
}
