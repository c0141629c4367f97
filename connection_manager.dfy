/**
 The in-memory registry of live websocket connections
 (app/service/connection_manager.py). It maps a chat id to the ordered list of
 (websocket, user id) pairs registered under that chat.

 A websocket is compared by identity (`ws is websocket`), so it is modelled by
 an opaque connection id. Whether the transport calls succeed is decided by
 oracles: a flag for the handshake `accept`, and the set of connections whose
 `send_json` raises. The class keeps a ghost log of every
 send attempt, so the order and outcome of deliveries can be stated.
 */
module Registry {

  type ChatId = int
  type UserId = int
  type ConnId = nat

  /** The JSON payload handed to `send_json`; its content plays no part here. */
  type Payload = string

  /** One registration: a websocket and the user that owns it. */
  datatype Entry = Entry(ws: ConnId, userId: UserId)

  /** The shape of `active_connections`. */
  type Table = map<ChatId, seq<Entry>>

  /** One call of `send_json`: whom it targeted, what it sent, whether it went through. */
  datatype Attempt = Attempt(target: Entry, payload: Payload, delivered: bool)

  predicate NoDup(s: seq<Entry>)
  {
    forall i, j :: 0 <= i < j < |s| ==> s[i] != s[j]
  }

  /** What every reachable registry satisfies: no chat maps to an empty list,
      and no pair is registered twice under one chat. */
  predicate Inv(t: Table)
  {
    forall c :: c in t ==> t[c] != [] && NoDup(t[c])
  }

  /** The list registered under chat `c`, empty when the key is absent. */
  function Bucket(t: Table, c: ChatId): seq<Entry>
  {
    if c in t then t[c] else []
  }

  /** Store `s` as chat `c`'s list, deleting the key when `s` is empty. */
  function Put(t: Table, c: ChatId, s: seq<Entry>): (r: Table)
    ensures Bucket(r, c) == s
    ensures c in r <==> s != []
    ensures forall d :: d != c ==> (d in r <==> d in t) && Bucket(r, d) == Bucket(t, d)
  {
    if s == [] then t - {c} else t[c := s]
  }

  lemma PutTwice(t: Table, c: ChatId, a: seq<Entry>, b: seq<Entry>)
    ensures Put(Put(t, c, a), c, b) == Put(t, c, b)
  {
    var l, r := Put(Put(t, c, a), c, b), Put(t, c, b);
    assert l.Keys == r.Keys;
    forall d | d in l ensures l[d] == r[d] {
      assert Bucket(l, d) == Bucket(r, d);
    }
  }

  // ---------------------------------------------------------------------------
  // Filters over a chat's list. Each keeps the surviving entries in list order.

  /** `s` without the entries in `gone`: the list comprehension of `disconnect`. */
  function Removed(s: seq<Entry>, gone: set<Entry>): (r: seq<Entry>)
    ensures |r| <= |s|
  {
    if s == [] then []
    else
      var last := s[|s| - 1];
      if last in gone then Removed(s[..|s| - 1], gone)
      else Removed(s[..|s| - 1], gone) + [last]
  }

  /** The entries `Removed` keeps are exactly those of `s` outside `gone`. */
  lemma {:induction false} RemovedMembers(s: seq<Entry>, gone: set<Entry>)
    ensures forall x :: x in Removed(s, gone) <==> x in s && x !in gone
  {
    if s != [] {
      assert s == s[..|s| - 1] + [s[|s| - 1]];
      RemovedMembers(s[..|s| - 1], gone);
    }
  }

  /** The entries of `s` whose websocket does not raise on send. */
  function Alive(s: seq<Entry>, dead: set<ConnId>): (r: seq<Entry>)
    ensures |r| <= |s|
  {
    if s == [] then []
    else
      var last := s[|s| - 1];
      if last.ws in dead then Alive(s[..|s| - 1], dead)
      else Alive(s[..|s| - 1], dead) + [last]
  }

  /** The entries `Alive` keeps are exactly those of `s` whose send succeeds. */
  lemma {:induction false} AliveMembers(s: seq<Entry>, dead: set<ConnId>)
    ensures forall x :: x in Alive(s, dead) <==> x in s && x.ws !in dead
  {
    if s != [] {
      assert s == s[..|s| - 1] + [s[|s| - 1]];
      AliveMembers(s[..|s| - 1], dead);
    }
  }

  /** The entries of `s` owned by user `u`. */
  function OfUser(s: seq<Entry>, u: UserId): (r: seq<Entry>)
    ensures |r| <= |s|
  {
    if s == [] then []
    else
      var last := s[|s| - 1];
      if last.userId == u then OfUser(s[..|s| - 1], u) + [last]
      else OfUser(s[..|s| - 1], u)
  }

  /** The entries `OfUser` keeps are exactly the user's entries. */
  lemma {:induction false} OfUserMembers(s: seq<Entry>, u: UserId)
    ensures forall x :: x in OfUser(s, u) <==> x in s && x.userId == u
  {
    if s != [] {
      assert s == s[..|s| - 1] + [s[|s| - 1]];
      OfUserMembers(s[..|s| - 1], u);
    }
  }

  /** One send attempt per entry of `s`, in order, each failing exactly when
      the entry's websocket is dead. */
  function Attempts(s: seq<Entry>, m: Payload, dead: set<ConnId>): (r: seq<Attempt>)
    ensures |r| == |s|
  {
    if s == [] then []
    else
      var last := s[|s| - 1];
      Attempts(s[..|s| - 1], m, dead) + [Attempt(last, m, last.ws !in dead)]
  }

  /** The i-th attempt targets the i-th entry, carries the payload, and fails
      exactly when that entry's websocket is dead. */
  lemma {:induction false} AttemptsInOrder(s: seq<Entry>, m: Payload, dead: set<ConnId>)
    ensures forall i :: 0 <= i < |s| ==>
      Attempts(s, m, dead)[i] == Attempt(s[i], m, s[i].ws !in dead)
  {
    if s != [] {
      AttemptsInOrder(s[..|s| - 1], m, dead);
    }
  }

  /** The entries of `s` whose send raises. */
  function DeadEntries(s: seq<Entry>, dead: set<ConnId>): set<Entry>
  {
    if s == [] then {}
    else
      var last := s[|s| - 1];
      DeadEntries(s[..|s| - 1], dead) + if last.ws in dead then {last} else {}
  }

  // ---------------------------------------------------------------------------
  // Lemmas about the filters

  /** The failed entries of `s` are exactly its entries whose send raises. */
  lemma {:induction false} DeadEntriesMembers(s: seq<Entry>, dead: set<ConnId>)
    ensures forall x :: x in DeadEntries(s, dead) <==> x in s && x.ws in dead
  {
    if s != [] {
      assert s == s[..|s| - 1] + [s[|s| - 1]];
      DeadEntriesMembers(s[..|s| - 1], dead);
    }
  }

  lemma {:induction false} DeadEntriesSnoc(s: seq<Entry>, x: Entry, dead: set<ConnId>)
    ensures x.ws in dead ==> DeadEntries(s + [x], dead) == DeadEntries(s, dead) + {x}
    ensures x.ws !in dead ==> DeadEntries(s + [x], dead) == DeadEntries(s, dead)
  {
    assert (s + [x])[..|s|] == s;
  }

  lemma {:induction false} OfUserSnoc(s: seq<Entry>, x: Entry, u: UserId)
    ensures x.userId == u ==> OfUser(s + [x], u) == OfUser(s, u) + [x]
    ensures x.userId != u ==> OfUser(s + [x], u) == OfUser(s, u)
  {
    assert (s + [x])[..|s|] == s;
  }

  lemma {:induction false} AttemptsSnoc(s: seq<Entry>, x: Entry, m: Payload, dead: set<ConnId>)
    ensures Attempts(s + [x], m, dead) == Attempts(s, m, dead) + [Attempt(x, m, x.ws !in dead)]
  {
    assert (s + [x])[..|s|] == s;
  }

  /** Extending the scanned prefix by one entry, as the loop of
      `send_personal_message` does. */
  lemma {:induction false} PersonalStep(s: seq<Entry>, i: nat, u: UserId, m: Payload, dead: set<ConnId>)
    requires i < |s|
    ensures s[i].userId == u ==>
              Attempts(OfUser(s[..i + 1], u), m, dead)
              == Attempts(OfUser(s[..i], u), m, dead) + [Attempt(s[i], m, s[i].ws !in dead)]
    ensures s[i].userId != u ==>
              Attempts(OfUser(s[..i + 1], u), m, dead) == Attempts(OfUser(s[..i], u), m, dead)
  {
    assert s[..i + 1] == s[..i] + [s[i]];
    OfUserSnoc(s[..i], s[i], u);
    AttemptsSnoc(OfUser(s[..i], u), s[i], m, dead);
  }

  /** Extending the scanned prefix by one entry, as the loop of `broadcast` does. */
  lemma {:induction false} BroadcastStep(s: seq<Entry>, i: nat, m: Payload, dead: set<ConnId>)
    requires i < |s|
    ensures Attempts(s[..i + 1], m, dead) == Attempts(s[..i], m, dead) + [Attempt(s[i], m, s[i].ws !in dead)]
    ensures s[i].ws in dead ==> DeadEntries(s[..i + 1], dead) == DeadEntries(s[..i], dead) + {s[i]}
    ensures s[i].ws !in dead ==> DeadEntries(s[..i + 1], dead) == DeadEntries(s[..i], dead)
  {
    assert s[..i + 1] == s[..i] + [s[i]];
    AttemptsSnoc(s[..i], s[i], m, dead);
    DeadEntriesSnoc(s[..i], s[i], dead);
  }

  /** Removing nothing that occurs leaves the list as it was. */
  lemma {:induction false} RemovedNothing(s: seq<Entry>, gone: set<Entry>)
    requires forall x :: x in s ==> x !in gone
    ensures Removed(s, gone) == s
  {
    if s != [] {
      RemovedNothing(s[..|s| - 1], gone);
      assert s == s[..|s| - 1] + [s[|s| - 1]];
    }
  }

  /** Removing in two rounds is removing the union: successive `disconnect`
      calls compose. */
  lemma {:induction false} RemovedTwice(s: seq<Entry>, a: set<Entry>, b: set<Entry>)
    ensures Removed(Removed(s, a), b) == Removed(s, a + b)
  {
    if s != [] {
      var init, last := s[..|s| - 1], s[|s| - 1];
      RemovedTwice(init, a, b);
      if last !in a {
        var once := Removed(init, a) + [last];
        assert once[..|once| - 1] == Removed(init, a);
      }
    }
  }

  /** Removal distributes over concatenation: the entries that survive keep
      their relative order. */
  lemma {:induction false} RemovedConcat(s: seq<Entry>, t: seq<Entry>, gone: set<Entry>)
    ensures Removed(s + t, gone) == Removed(s, gone) + Removed(t, gone)
  {
    if t == [] {
      assert s + t == s;
    } else {
      var init, last := t[..|t| - 1], t[|t| - 1];
      assert (s + t)[..|s + t| - 1] == s + init;
      RemovedConcat(s, init, gone);
    }
  }

  /** Filtering keeps a duplicate-free list duplicate-free. */
  lemma {:induction false} RemovedNoDup(s: seq<Entry>, gone: set<Entry>)
    requires NoDup(s)
    ensures NoDup(Removed(s, gone))
  {
    if s != [] {
      var init, last := s[..|s| - 1], s[|s| - 1];
      assert NoDup(init);
      RemovedNoDup(init, gone);
      RemovedMembers(init, gone);
      assert last !in init;
    }
  }

  /** Removing exactly the dead entries of `s` leaves its live entries. */
  lemma {:induction false} RemovedDeadIsAlive(s: seq<Entry>, gone: set<Entry>, dead: set<ConnId>)
    requires forall x :: x in s ==> (x in gone <==> x.ws in dead)
    ensures Removed(s, gone) == Alive(s, dead)
  {
    if s != [] {
      var init := s[..|s| - 1];
      assert forall x :: x in init ==> x in s;
      RemovedDeadIsAlive(init, gone, dead);
    }
  }

  // ---------------------------------------------------------------------------
  // The effect of each operation on the table

  /** `connect`: create the chat's list if it is missing, then append the pair
      unless an identical pair is already there. */
  function AfterConnect(t: Table, c: ChatId, ws: ConnId, u: UserId): (r: Table)
    ensures c in r && Entry(ws, u) in r[c]
    ensures Entry(ws, u) in Bucket(t, c) ==> r[c] == Bucket(t, c)
    ensures Entry(ws, u) !in Bucket(t, c) ==> r[c] == Bucket(t, c) + [Entry(ws, u)]
    ensures forall d :: d != c ==> (d in r <==> d in t) && Bucket(r, d) == Bucket(t, d)
  {
    var e, b := Entry(ws, u), Bucket(t, c);
    t[c := if e in b then b else b + [e]]
  }

  /** `disconnect`: drop the pair from the chat's list and delete the key when
      the list becomes empty; an absent chat is left alone. */
  function AfterDisconnect(t: Table, c: ChatId, ws: ConnId, u: UserId): (r: Table)
    ensures Entry(ws, u) !in Bucket(r, c)
    ensures forall x :: x in Bucket(r, c) <==> x in Bucket(t, c) && x != Entry(ws, u)
    ensures c !in t ==> r == t
    ensures c in r <==> Removed(Bucket(t, c), {Entry(ws, u)}) != []
    ensures forall d :: d != c ==> (d in r <==> d in t) && Bucket(r, d) == Bucket(t, d)
  {
    if c in t then
      RemovedMembers(t[c], {Entry(ws, u)});
      Put(t, c, Removed(t[c], {Entry(ws, u)}))
    else t
  }

  /** `broadcast`'s effect on the table: every entry whose send raised has
      been disconnected. */
  function AfterBroadcast(t: Table, c: ChatId, dead: set<ConnId>): (r: Table)
    ensures Bucket(r, c) == Alive(Bucket(t, c), dead)
    ensures forall x :: x in Bucket(r, c) <==> x in Bucket(t, c) && x.ws !in dead
    ensures c in r <==> Alive(Bucket(t, c), dead) != []
    ensures forall d :: d != c ==> (d in r <==> d in t) && Bucket(r, d) == Bucket(t, d)
  {
    if c in t then
      AliveMembers(t[c], dead);
      Put(t, c, Alive(t[c], dead))
    else t
  }

  /** The sends `broadcast` makes: one per entry of the chat's list as it was
      when the call started, in list order. */
  function BroadcastLog(t: Table, c: ChatId, m: Payload, dead: set<ConnId>): (r: seq<Attempt>)
    ensures |r| == |Bucket(t, c)|
    ensures c !in t ==> r == []
    ensures forall i :: 0 <= i < |r| ==> r[i].target == Bucket(t, c)[i] && r[i].payload == m
    ensures forall i :: 0 <= i < |r| ==> (r[i].delivered <==> Bucket(t, c)[i].ws !in dead)
  {
    AttemptsInOrder(Bucket(t, c), m, dead);
    Attempts(Bucket(t, c), m, dead)
  }

  /** The sends `send_personal_message` makes: one per entry of the chat's
      list owned by user `u`, in list order. */
  function PersonalLog(t: Table, c: ChatId, u: UserId, m: Payload, dead: set<ConnId>): (r: seq<Attempt>)
    ensures |r| == |OfUser(Bucket(t, c), u)| <= |Bucket(t, c)|
    ensures forall i :: 0 <= i < |r| ==> r[i].target == OfUser(Bucket(t, c), u)[i] && r[i].payload == m
    ensures forall i :: 0 <= i < |r| ==> (r[i].delivered <==> r[i].target.ws !in dead)
  {
    AttemptsInOrder(OfUser(Bucket(t, c), u), m, dead);
    Attempts(OfUser(Bucket(t, c), u), m, dead)
  }

  /** `send_personal_message` targets exactly the chat's entries owned by the
      user: every target is such an entry, and every such entry is a target. */
  lemma PersonalTargets(t: Table, c: ChatId, u: UserId, m: Payload, dead: set<ConnId>)
    ensures forall a :: a in PersonalLog(t, c, u, m, dead) ==>
              a.target in Bucket(t, c) && a.target.userId == u && a.payload == m
    ensures forall x :: x in Bucket(t, c) && x.userId == u ==>
              exists a :: a in PersonalLog(t, c, u, m, dead) && a.target == x
  {
    var s, r := OfUser(Bucket(t, c), u), PersonalLog(t, c, u, m, dead);
    OfUserMembers(Bucket(t, c), u);
    forall a | a in r ensures a.target in s {
      var i :| 0 <= i < |r| && r[i] == a;
    }
    forall x | x in s ensures exists a :: a in r && a.target == x {
      var i :| 0 <= i < |s| && s[i] == x;
      assert r[i] in r;
    }
  }

  // ---------------------------------------------------------------------------
  // Properties of the registry

  /** `connect` keeps the registry invariant. */
  lemma ConnectKeepsInv(t: Table, c: ChatId, ws: ConnId, u: UserId)
    requires Inv(t)
    ensures Inv(AfterConnect(t, c, ws, u))
  {
    var r, b := AfterConnect(t, c, ws, u), Bucket(t, c);
    assert NoDup(b);
    assert NoDup(r[c]);
  }

  /** Connecting the same pair twice is the same as connecting it once. */
  lemma ConnectIdempotent(t: Table, c: ChatId, ws: ConnId, u: UserId)
    ensures AfterConnect(AfterConnect(t, c, ws, u), c, ws, u) == AfterConnect(t, c, ws, u)
  {
  }

  /** `disconnect` keeps the registry invariant. */
  lemma DisconnectKeepsInv(t: Table, c: ChatId, ws: ConnId, u: UserId)
    requires Inv(t)
    ensures Inv(AfterDisconnect(t, c, ws, u))
  {
    if c in t {
      RemovedNoDup(t[c], {Entry(ws, u)});
    }
  }

  /** Disconnecting a pair that is not registered leaves the registry as it was. */
  lemma DisconnectAbsent(t: Table, c: ChatId, ws: ConnId, u: UserId)
    requires Inv(t)
    requires Entry(ws, u) !in Bucket(t, c)
    ensures AfterDisconnect(t, c, ws, u) == t
  {
    if c in t {
      RemovedNothing(t[c], {Entry(ws, u)});
      assert Put(t, c, t[c]) == t;
    }
  }

  /** Disconnect keeps the other entries of the chat in their relative order. */
  lemma DisconnectKeepsOrder(t: Table, c: ChatId, ws: ConnId, u: UserId, before: seq<Entry>, after: seq<Entry>)
    requires Bucket(t, c) == before + [Entry(ws, u)] + after
    requires Entry(ws, u) !in before && Entry(ws, u) !in after
    ensures Bucket(AfterDisconnect(t, c, ws, u), c) == before + after
  {
    var e := Entry(ws, u);
    RemovedConcat(before + [e], after, {e});
    RemovedConcat(before, [e], {e});
    RemovedNothing(before, {e});
    RemovedNothing(after, {e});
  }

  /** A connect of a pair that was not registered, followed by its disconnect,
      restores the registry exactly, including a key the connect created. */
  lemma ConnectDisconnectRoundTrip(t: Table, c: ChatId, ws: ConnId, u: UserId)
    requires Inv(t)
    requires Entry(ws, u) !in Bucket(t, c)
    ensures AfterDisconnect(AfterConnect(t, c, ws, u), c, ws, u) == t
  {
    var e, b := Entry(ws, u), Bucket(t, c);
    RemovedConcat(b, [e], {e});
    RemovedNothing(b, {e});
    var r := AfterDisconnect(AfterConnect(t, c, ws, u), c, ws, u);
    assert Bucket(r, c) == b;
    assert r.Keys == t.Keys;
    forall d | d in r ensures r[d] == t[d] {
      assert Bucket(r, d) == Bucket(t, d);
    }
  }

  /** After a disconnect, a broadcast to that chat makes no send to the
      removed pair: no stale reference survives. */
  lemma NoStaleDelivery(t: Table, c: ChatId, ws: ConnId, u: UserId, m: Payload, dead: set<ConnId>)
    ensures forall a :: a in BroadcastLog(AfterDisconnect(t, c, ws, u), c, m, dead) ==> a.target != Entry(ws, u)
  {
    var t' := AfterDisconnect(t, c, ws, u);
    var log := BroadcastLog(t', c, m, dead);
    forall a | a in log ensures a.target != Entry(ws, u) {
      var i :| 0 <= i < |log| && log[i] == a;
      assert a.target == Bucket(t', c)[i];
    }
  }

  /** One failed send inside `broadcast`: disconnecting the entry from a chat
      whose list is the snapshot minus `gone` leaves the snapshot minus
      `gone` and the entry. */
  lemma DisconnectAfterRemoved(t: Table, c: ChatId, snapshot: seq<Entry>, gone: set<Entry>, e: Entry)
    ensures AfterDisconnect(Put(t, c, Removed(snapshot, gone)), c, e.ws, e.userId)
         == Put(t, c, Removed(snapshot, gone + {e}))
  {
    var before := Removed(snapshot, gone);
    RemovedTwice(snapshot, gone, {e});
    PutTwice(t, c, before, Removed(before, {e}));
    if before == [] {
      assert Removed(before, {e}) == [];
    }
  }

  /** `broadcast` keeps the registry invariant. */
  lemma BroadcastKeepsInv(t: Table, c: ChatId, dead: set<ConnId>)
    requires Inv(t)
    ensures Inv(AfterBroadcast(t, c, dead))
  {
    if c in t {
      var gone := set x | x in t[c] && x.ws in dead;
      RemovedDeadIsAlive(t[c], gone, dead);
      RemovedNoDup(t[c], gone);
    }
  }

  // ---------------------------------------------------------------------------

  class ConnectionManager {
    /** `active_connections`: chat id to the ordered list of registrations. */
    var activeConnections: Table
    /** Every `send_json` call made so far, in order. */
    ghost var sent: seq<Attempt>

    ghost predicate Valid()
      reads this
    {
      Inv(activeConnections)
    }

    constructor ()
      ensures Valid()
      ensures activeConnections == map[] && sent == []
    {
      activeConnections := map[];
      sent := [];
    }

    /** `connect`. The handshake `accept` comes first; whether it raises is
        the oracle `acceptRaises`. When it raises, the exception leaves
        `connect` (reported as `raised`) before the table is touched. */
    method Connect(chatId: ChatId, ws: ConnId, userId: UserId, acceptRaises: bool) returns (raised: bool)
      requires Valid()
      modifies this
      ensures Valid()
      ensures raised == acceptRaises
      ensures raised ==> activeConnections == old(activeConnections)
      ensures !raised ==> activeConnections == AfterConnect(old(activeConnections), chatId, ws, userId)
      ensures sent == old(sent)
    {
      if acceptRaises {
        return true;
      }
      raised := false;
      ConnectKeepsInv(activeConnections, chatId, ws, userId);
      if chatId !in activeConnections {
        activeConnections := activeConnections[chatId := []];
      }
      var bucket := activeConnections[chatId];
      var present := false;
      var i := 0;
      while i < |bucket| && !present
        invariant 0 <= i <= |bucket|
        invariant present ==> Entry(ws, userId) in bucket
        invariant !present ==> Entry(ws, userId) !in bucket[..i]
      {
        present := bucket[i] == Entry(ws, userId);
        i := i + 1;
      }
      assert bucket[..|bucket|] == bucket;
      if !present {
        activeConnections := activeConnections[chatId := bucket + [Entry(ws, userId)]];
      }
    }

    /** `disconnect`. */
    method Disconnect(chatId: ChatId, ws: ConnId, userId: UserId)
      requires Valid()
      modifies this
      ensures Valid()
      ensures activeConnections == AfterDisconnect(old(activeConnections), chatId, ws, userId)
      ensures sent == old(sent)
    {
      DisconnectKeepsInv(activeConnections, chatId, ws, userId);
      if chatId in activeConnections {
        var bucket := activeConnections[chatId];
        var kept := [];
        for i := 0 to |bucket|
          invariant kept == Removed(bucket[..i], {Entry(ws, userId)})
        {
          assert bucket[..i + 1][..i] == bucket[..i];
          if bucket[i] != Entry(ws, userId) {
            kept := kept + [bucket[i]];
          }
        }
        assert bucket[..|bucket|] == bucket;
        activeConnections := activeConnections[chatId := kept];
        if kept == [] {
          activeConnections := activeConnections - {chatId};
        }
      }
    }

    /** `broadcast`: iterate over a snapshot of the chat's list, send to each
        entry, and disconnect each entry whose send raised. */
    method Broadcast(chatId: ChatId, message: Payload, dead: set<ConnId>)
      requires Valid()
      modifies this
      ensures Valid()
      ensures activeConnections == AfterBroadcast(old(activeConnections), chatId, dead)
      ensures sent == old(sent) + BroadcastLog(old(activeConnections), chatId, message, dead)
    {
      if chatId in activeConnections {
        var snapshot := activeConnections[chatId];
        RemovedNothing(snapshot, {});
        assert DeadEntries(snapshot[..0], dead) == {};
        assert Put(old(activeConnections), chatId, snapshot) == old(activeConnections);
        for i := 0 to |snapshot|
          invariant Valid()
          invariant activeConnections
                 == Put(old(activeConnections), chatId, Removed(snapshot, DeadEntries(snapshot[..i], dead)))
          invariant sent == old(sent) + Attempts(snapshot[..i], message, dead)
        {
          var entry := snapshot[i];
          BroadcastStep(snapshot, i, message, dead);
          var delivered := entry.ws !in dead;
          sent := sent + [Attempt(entry, message, delivered)];
          if !delivered {
            Disconnect(chatId, entry.ws, entry.userId);
            DisconnectAfterRemoved(old(activeConnections), chatId, snapshot, DeadEntries(snapshot[..i], dead), entry);
          }
        }
        assert snapshot[..|snapshot|] == snapshot;
        DeadEntriesMembers(snapshot, dead);
        RemovedDeadIsAlive(snapshot, DeadEntries(snapshot, dead), dead);
      }
    }

    /** `send_personal_message`: send to the chat's entries owned by `userId`,
        swallowing failures; the table is never touched. */
    method SendPersonalMessage(chatId: ChatId, userId: UserId, message: Payload, dead: set<ConnId>)
      modifies this`sent
      ensures activeConnections == old(activeConnections)
      ensures sent == old(sent) + PersonalLog(activeConnections, chatId, userId, message, dead)
    {
      if chatId in activeConnections {
        var bucket := activeConnections[chatId];
        for i := 0 to |bucket|
          invariant sent == old(sent) + Attempts(OfUser(bucket[..i], userId), message, dead)
        {
          ghost var done := Attempts(OfUser(bucket[..i], userId), message, dead);
          PersonalStep(bucket, i, userId, message, dead);
          if bucket[i].userId == userId {
            // send_json; a failure is swallowed
            var attempt := Attempt(bucket[i], message, bucket[i].ws !in dead);
            sent := sent + [attempt];
            assert sent == old(sent) + (done + [attempt]);
          }
        }
        assert bucket[..|bucket|] == bucket;
        assert Attempts(OfUser(bucket, userId), message, dead)
            == PersonalLog(activeConnections, chatId, userId, message, dead);
      } else {
        assert PersonalLog(activeConnections, chatId, userId, message, dead) == [];
      }
    }
  }
}
