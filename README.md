# WS-messenger core in Dafny

This project models the two sequential parts of a real-time chat backend.

- **The connection registry** (`ConnectionManager`, module `Registry`, file
  `connection_manager.dfy`). It is an in-memory table from chat id to the
  ordered list of `(websocket, user id)` registrations. `connect` appends a
  pair once, `disconnect` filters it out and drops empty chats, `broadcast`
  sends to a snapshot of a chat's list and disconnects every entry whose send
  raised, and `send_personal_message` sends to a user's entries in a chat and
  ignores failures. The class `Registry.ConnectionManager` keeps the table in
  the field `activeConnections`, which its methods update in place. A ghost log
  `sent` records every `send_json` call: its target, its payload and whether it
  went through. Each method is proved equal to a pure function of the old
  state (`AfterConnect`, `AfterDisconnect`, `AfterBroadcast`, `BroadcastLog`,
  `PersonalLog`). The registry's laws are lemmas about those functions: no
  empty chat and no duplicate pair, idempotent connect, the connect/disconnect
  round trip, order preservation, and no stale delivery.
- **The chat message service** (`ChatService`, file `chat_service.dfy`). The
  SQL session becomes a store `Db` with three parts: the `group_members` rows,
  the `messages` rows and the next primary key. The class
  `ChatService.Database` holds the same three parts as fields. `SendMessage`
  and `MarkRead` change them step by step: insert and commit or roll back, then
  update and read back. Each is proved equal to a pure step function
  (`SendStep`, `MarkReadStep`). Those functions and the lemmas beside them
  state the contracts:
  - the 403 guard leaves the store unchanged;
  - a send is idempotent per `client_message_id`, and a send without one
    always inserts a new row;
  - `is_read` is set on one message only;
  - `mark_read` returns the sender's id, or fails when the id is absent.

  `GetHistory` is a pure function: filter by chat, sort by `created_at`, then
  offset and limit.

The membership guard is modelled as written: it looks for a `group_members`
row whose `group_id` equals the chat id. In the registry, connections are
opaque ids compared by identity. Whether the transport calls succeed is an
oracle: a flag `acceptRaises` for the handshake in `connect`, and the set `dead`
of connection ids whose `send_json` raises.

Facts about the code that the model follows:
- The registry has only the chat-keyed table. There is no user-keyed index and
  no send-to-user operation.
- A registration is deduplicated on the `(websocket, user id)` pair.
- `mark_read` runs the update before looking the message up, and it fails on an
  absent id only when it reads the sender.
- `get_history` does not bound `limit`.
- `send_message` declares `client_message_id` as a string, but the value reaches
  it from the client payload and the column is nullable. The model takes an
  optional token; a missing one never clashes with the unique index.
- The database is PostgreSQL. Its sequences are not transactional, so an insert
  that is rolled back after a unique-index clash still uses up a primary key.

## Model

| member | source | states |
|---|---|---|
| `Registry.RemovedMembers` | app/service/connection_manager.py:25-29 | the filtered list holds exactly the entries of the old list that are not removed |
| `Registry.AliveMembers` | app/service/connection_manager.py:35-39 | the entries kept after a broadcast are exactly those whose websocket does not raise |
| `Registry.RemovedDeadIsAlive` | app/service/connection_manager.py:35-39 | disconnecting, one by one, exactly the entries whose send failed leaves the same list as keeping those whose send succeeds |
| `Registry.DeadEntriesMembers` | app/service/connection_manager.py:36-39 | the entries a broadcast disconnects are exactly the chat's entries whose send raises |
| `Registry.OfUserMembers` | app/service/connection_manager.py:45-46 | the entries a personal send visits are exactly the chat's entries owned by the user |
| `Registry.AttemptsInOrder` | app/service/connection_manager.py:35-37 | the i-th send goes to the i-th entry with the payload, and fails exactly when that websocket is dead |
| `Registry.RemovedConcat` | app/service/connection_manager.py:25-29 | filtering distributes over concatenation, so survivors keep their relative order |
| `Registry.RemovedTwice` | app/service/connection_manager.py:38-39 | two successive disconnect filters equal one filter by the union |
| `Registry.RemovedNoDup` | app/service/connection_manager.py:25-29 | filtering a duplicate-free list leaves it duplicate-free |
| `Registry.AfterConnect` | app/service/connection_manager.py:12-19 | after connect the chat key exists and holds the pair; a present pair leaves the list as it was, a new pair is appended at the end; every other chat is untouched |
| `Registry.AfterDisconnect` | app/service/connection_manager.py:24-31 | after disconnect the pair is gone from the chat and every other entry of it remains; the chat keeps its key exactly when some entry remains; an absent chat key is a no-op; other chats are untouched |
| `Registry.AfterBroadcast` | app/service/connection_manager.py:33-39 | after broadcast the chat's list is the old list without the entries whose send failed, and the chat keeps its key exactly when some entry remains; other chats are untouched |
| `Registry.BroadcastLog` | app/service/connection_manager.py:34-37 | broadcast makes one send per entry of the snapshot, in list order, whatever earlier sends did; a chat with no key gets no send |
| `Registry.PersonalLog` | app/service/connection_manager.py:44-50 | a personal send makes one attempt per entry of the chat owned by the user, in list order, and never more than the chat has entries |
| `Registry.PersonalTargets` | app/service/connection_manager.py:44-50 | every target of a personal send is the chat's entry of that user, and every such entry is a target |
| `Registry.ConnectKeepsInv` | app/service/connection_manager.py:12-19 | connect preserves "no empty list, no duplicate pair" |
| `Registry.ConnectIdempotent` | app/service/connection_manager.py:15-19 | connecting the same pair twice equals connecting it once |
| `Registry.DisconnectKeepsInv` | app/service/connection_manager.py:24-31 | disconnect preserves "no empty list, no duplicate pair", deleting the key of an emptied chat |
| `Registry.DisconnectAbsent` | app/service/connection_manager.py:24-31 | disconnecting a pair that is not registered leaves the registry unchanged |
| `Registry.DisconnectKeepsOrder` | app/service/connection_manager.py:25-29 | removing a pair from `before + [pair] + after` leaves exactly `before + after` |
| `Registry.ConnectDisconnectRoundTrip` | app/service/connection_manager.py:10-31 | connect of a new pair followed by its disconnect restores the registry exactly, including removing a key that connect created |
| `Registry.NoStaleDelivery` | app/service/connection_manager.py:24-39 | after a disconnect, a broadcast to that chat sends nothing to the removed pair |
| `Registry.BroadcastKeepsInv` | app/service/connection_manager.py:33-39 | broadcast preserves "no empty list, no duplicate pair" |
| `Registry.DisconnectAfterRemoved` | app/service/connection_manager.py:35-39 | disconnecting one failed entry inside the broadcast loop removes it from the snapshot's survivors |
| `Registry.ConnectionManager.constructor` | app/service/connection_manager.py:7-8 | a new registry is empty, valid and has sent nothing |
| `Registry.ConnectionManager.Connect` | app/service/connection_manager.py:10-19 | when the handshake raises, the exception escapes and the table is unchanged; otherwise the table becomes `AfterConnect` of the old one; nothing is sent; the invariant is kept |
| `Registry.ConnectionManager.Disconnect` | app/service/connection_manager.py:21-31 | the table becomes `AfterDisconnect` of the old one; nothing is sent; the invariant is kept |
| `Registry.ConnectionManager.Broadcast` | app/service/connection_manager.py:33-39 | the table becomes `AfterBroadcast` of the old one and the log grows by `BroadcastLog` of the old table |
| `Registry.ConnectionManager.SendPersonalMessage` | app/service/connection_manager.py:41-50 | the table is unchanged and the log grows by `PersonalLog` |
| `ChatService.IsMember` | app/service/chat_service.py:20-27 | the guard passes exactly when some `group_members` row has `group_id` equal to the chat id and `user_id` equal to the user |
| `ChatService.FindByToken` | app/service/chat_service.py:40-43 | the lookup by token returns a stored row holding the token, and returns nothing exactly when no row holds it |
| `ChatService.FindById` | app/service/chat_service.py:69 | the lookup by id returns a stored row with that id, and returns nothing exactly when no row has it |
| `ChatService.TokenCount` | app/models/tables.py:85 | under the unique index, a token that is found is held by exactly one row, otherwise by none |
| `ChatService.FindByTokenAppend` | app/service/chat_service.py:35-37 | after inserting a row with an unused token, the lookup by that token finds the new row |
| `ChatService.AppendKeepsConsistent` | app/models/tables.py:85 | inserting a row with the next key and a token the unique index accepts (NULL or unused) keeps keys increasing and tokens unique |
| `ChatService.SendStep` | app/service/chat_service.py:13-45 | a non-member gets 403 and the store is unchanged; a NULL or unused token adds exactly one row with the next key, the given chat, sender, text and token, `is_read` false and `created_at` now, and returns it; a stored token, from any chat or sender, adds no row and returns the stored row; either way a member's send uses up one key; the store stays consistent |
| `ChatService.SendIdempotent` | app/service/chat_service.py:35-45 | a second send with the same token adds no row, returns the first call's result, and exactly one row holds the token; only the key sequence advances |
| `ChatService.SendWithoutTokenRepeats` | app/service/chat_service.py:29-45 | two sends without a token both insert: two new rows with distinct keys |
| `ChatService.MarkReadStep` | app/service/chat_service.py:47-70 | a non-member gets 403 and nothing changes; otherwise `is_read` is set on every row with the id and on no other row, whatever its chat; the result is the sender's id in a one-element list, or a failure with the store unchanged when the id is absent |
| `ChatService.FindMarked` | app/service/chat_service.py:63-69 | after the update, reading the id back yields the same row with `is_read` set |
| `ChatService.MarkAbsent` | app/service/chat_service.py:63-67 | an update whose id matches no row changes nothing |
| `ChatService.MarkReadIdempotent` | app/service/chat_service.py:63-70 | repeating `mark_read` leaves the store unchanged and returns the same result |
| `ChatService.ChatMessages` | app/service/chat_service.py:89-91 | the filter keeps exactly the stored rows of the chat |
| `ChatService.ChatMessagesCount` | app/service/chat_service.py:89-91 | each row of the chat appears in the filter as often as in the table, and no other row appears |
| `ChatService.InsertionPoint` | app/service/chat_service.py:92 | the insertion point is preceded only by earlier rows and followed by one that is not earlier |
| `ChatService.InsertByCreated` | app/service/chat_service.py:92 | inserting into a list sorted by `created_at` keeps it sorted and adds exactly the one row |
| `ChatService.SortByCreated` | app/service/chat_service.py:92 | the ordering is ascending in `created_at` and a permutation of its input |
| `ChatService.Page` | app/service/chat_service.py:93-94 | the page has at most `limit` rows, is empty past the end, otherwise holds `min(limit, n - offset)` rows, and its i-th row is row `offset + i` |
| `ChatService.GetHistory` | app/service/chat_service.py:72-97 | a non-member gets 403; a member gets at most `limit` rows, all stored rows of the chat, ascending in `created_at`, as many as the window at `offset` holds |
| `ChatService.HistoryIsWindow` | app/service/chat_service.py:89-97 | the page is the window at `offset` of an arrangement of the chat's rows that is a permutation of them sorted by `created_at` |
| `ChatService.Database.CommitInsert` | app/service/chat_service.py:35-39 | the insert draws the next key either way; the commit fails and leaves the rows as they were when the token is stored; otherwise it appends the row with the drawn key |
| `ChatService.Database.UpdateIsRead` | app/service/chat_service.py:63-67 | the table becomes the old table with `is_read` set on the rows with the id |
| `ChatService.SendMessage` | app/service/chat_service.py:13-45 | the new store and the result are those of `SendStep` on the old store |
| `ChatService.MarkRead` | app/service/chat_service.py:47-70 | the new store and the result are those of `MarkReadStep` on the old store |

## Left out

- The websocket handshake (`await websocket.accept()` in `connect`) and the real `send_json` are transport I/O. Their outcomes are oracles: `acceptRaises` for one handshake, and `dead` for every send of one call. The exception a failed handshake raises is reduced to the flag `raised`.
- Concurrency: the coroutines of different connections can interleave at every `await`. Each operation is modelled as one atomic step; the source has no lock.
- `Registry.ConnectionManager.Connect`, `Disconnect` and `Broadcast` require the registry invariant (no empty list, no duplicate pair). Every registry built by the constructor and these methods satisfies it.
- `ChatService.GetHistory`: `limit` and `offset` are natural numbers. The source passes a negative value on to PostgreSQL, which rejects a negative LIMIT or OFFSET with an error; that error path is not modelled.
- `ChatService.GetHistory` fixes one order among rows with equal `created_at`: insertion order. `ChatService.HistoryIsWindow` claims only that some sorted arrangement yields the page, because the database promises no order among ties.
- `ChatService.SendStep`, `ChatService.MarkReadStep`, `ChatService.GetHistory` and `ChatService.Database.CommitInsert`: ids are unbounded integers. In the database every id column is a 32-bit `integer`, and `messages.id` draws from a sequence that stops at 2147483647. The model does not capture the driver error raised at the first query for a chat, user or message id outside that range, where the model answers as for any other id. It does not capture the failure of every insert once the sequence is exhausted either; the model keeps appending with the next key.
- Integrity errors other than the `client_message_id` clash, such as foreign keys, are not modelled. Neither is transaction isolation.
- `created_at` is an integer tick supplied by the caller (`now`). The `timestamp` column, which `send_message` never sets, is not modelled.
- `app/routers/chat.py` (the websocket session loop and the HTTP handlers) is not part of this model. It calls `connect` with its arguments in a different order, and it calls a `send_personal_by_user` that the registry does not define.
- Authentication and token handling (`app/routers/auth.py`, `app/utils/jwt.py`), the engine and app wiring, the seeding script, the migrations and the pydantic schemas are not part of this model.
