/**
 The relay server: one registry of joined sockets and the handlers the
 server attaches to every connection. Each handler becomes a case of the pure
 function `Step`, which takes the registry before the event and returns the
 registry after it together with the frames sent, in sending order.

 Connection handles are numbers; the JSON envelope is already decoded into a
 `Frame` (a frame that does not parse, or whose fields cannot be read, is
 `Malformed`). Sending is not performed but returned as `Delivery` values.
 */
module Relay {
  import opened Seqs

  /** A connection handle: identifies one WebSocket session. */
  type ConnId = nat

  /** One registry entry: the socket, the room it joined and its display name. */
  datatype User = User(socket: ConnId, room: string, name: string)

  /**
   The registry, in insertion order. It is a list, not a map: nothing stops
   one socket from owning several entries.
   */
  type Registry = seq<User>

  /** A decoded client frame. `Other` is a well-formed frame of any other type. */
  datatype Frame =
    | Join(roomId: string, name: string)
    | Chat(message: string)
    | Other
    | Malformed

  /** What the transport reports on one connection. */
  datatype Event = Message(frame: Frame) | Closed | Errored

  /** The broadcast payload `{text, name}`. */
  datatype Outgoing = Outgoing(text: string, name: string)

  /** One `send` of a payload on a socket. */
  datatype Delivery = Delivery(to: ConnId, payload: Outgoing)

  /** The registry after an event and the frames the event sent. */
  datatype StepResult = StepResult(registry: Registry, deliveries: seq<Delivery>)

  /** Whether an entry belongs to the socket `conn`. */
  function OwnedBy(conn: ConnId): User -> bool
  {
    (u: User) => u.socket == conn
  }

  /** Whether an entry survives the close of `conn`. */
  function NotOwnedBy(conn: ConnId): User -> bool
  {
    (u: User) => u.socket != conn
  }

  /** Whether an entry receives a chat sent from `conn` in `room`. */
  function PeerOf(room: string, conn: ConnId): User -> bool
  {
    (u: User) => u.room == room && u.socket != conn
  }

  /** Whether `conn` owns at least one registry entry. */
  predicate HasEntry(reg: Registry, conn: ConnId)
  {
    exists i :: 0 <= i < |reg| && reg[i].socket == conn
  }

  /** The join handler: push a new entry; existing entries are never touched. */
  function AddUser(reg: Registry, conn: ConnId, room: string, name: string): (r: Registry)
    ensures |r| == |reg| + 1
    ensures forall i :: 0 <= i < |reg| ==> r[i] == reg[i]
    ensures r[|reg|] == User(conn, room, name)
  {
    reg + [User(conn, room, name)]
  }

  /** The sender lookup of the chat handler: the FIRST entry owned by `conn`. */
  function FindSender(reg: Registry, conn: ConnId): (r: Option<User>)
    ensures r.None? <==> !HasEntry(reg, conn)
    ensures r.Some? ==>
      exists i :: 0 <= i < |reg| && reg[i] == r.value && r.value.socket == conn &&
        forall j :: 0 <= j < i ==> reg[j].socket != conn
  {
    match FindFirst(reg, OwnedBy(conn))
    case None => None
    case Some(i) => Some(reg[i])
  }

  /** The registry entries a chat from `conn` in `room` goes to, in registry order. */
  function Peers(reg: Registry, room: string, conn: ConnId): seq<User>
  {
    Filter(reg, PeerOf(room, conn))
  }

  /** One delivery of `out` per entry of `targets`, in the same order. */
  function Address(targets: seq<User>, out: Outgoing): (r: seq<Delivery>)
    ensures |r| == |targets|
    ensures forall k :: 0 <= k < |r| ==> r[k] == Delivery(targets[k].socket, out)
  {
    seq(|targets|, k requires 0 <= k < |targets| => Delivery(targets[k].socket, out))
  }

  /**
   The chat handler's sends. A socket with no entry sends nothing. Otherwise
   the payload carries the message and the name of the sender's first entry,
   and goes only to sockets with an entry in the sender's room, never back to
   the sender (`ChatReachesEveryPeer` and `ChatFanOut` give the converse).
   */
  function ChatDeliveries(reg: Registry, conn: ConnId, message: string): (r: seq<Delivery>)
    ensures !HasEntry(reg, conn) ==> r == []
    ensures forall k :: 0 <= k < |r| ==> r[k].to != conn
    ensures HasEntry(reg, conn) ==>
      var sender := FindSender(reg, conn).value;
      && (forall k :: 0 <= k < |r| ==> r[k].payload == Outgoing(message, sender.name))
      && (forall k :: 0 <= k < |r| ==>
            exists i :: 0 <= i < |reg| && reg[i].socket == r[k].to && reg[i].room == sender.room)
  {
    match FindSender(reg, conn)
    case None => []
    case Some(sender) =>
      var peers := Peers(reg, sender.room, conn);
      var r := Address(peers, Outgoing(message, sender.name));
      assert forall k :: 0 <= k < |r| ==> peers[k] in reg && r[k].to == peers[k].socket;
      r
  }

  /** The close handler: drop every entry owned by `conn`, keep the rest. */
  function RemoveConn(reg: Registry, conn: ConnId): (r: Registry)
    ensures !HasEntry(r, conn)
    ensures forall k :: 0 <= k < |r| ==> r[k] in reg
  {
    Filter(reg, NotOwnedBy(conn))
  }

  /**
   One event on connection `conn`. A join appends, a chat sends, a close
   removes; an error and a frame of any other type or shape do nothing.
   */
  function Step(reg: Registry, conn: ConnId, ev: Event): (r: StepResult)
    ensures ev.Message? && ev.frame.Chat? ==> r.registry == reg
    ensures r.deliveries != [] ==> ev.Message? && ev.frame.Chat? && HasEntry(reg, conn)
    ensures ev.Message? && ev.frame.Join? ==> |r.registry| == |reg| + 1
    ensures !(ev.Message? && ev.frame.Join?) ==> |r.registry| <= |reg|
  {
    match ev
    case Message(Join(room, name)) => StepResult(AddUser(reg, conn, room, name), [])
    case Message(Chat(message)) => StepResult(reg, ChatDeliveries(reg, conn, message))
    case Message(Other) => StepResult(reg, [])
    case Message(Malformed) => StepResult(reg, [])
    case Closed => StepResult(RemoveConn(reg, conn), [])
    case Errored => StepResult(reg, [])
  }

  // ---------------------------------------------------------------------------
  // Join

  /**
   A join never overwrites: a socket that already has an entry keeps its
   first entry as sender identity; a socket without one is found at its new
   entry.
   */
  lemma JoinKeepsFirstIdentity(reg: Registry, conn: ConnId, room: string, name: string)
    ensures HasEntry(reg, conn) ==>
      FindSender(AddUser(reg, conn, room, name), conn) == FindSender(reg, conn)
    ensures !HasEntry(reg, conn) ==>
      FindSender(AddUser(reg, conn, room, name), conn) == Some(User(conn, room, name))
  {
    var u := User(conn, room, name);
    if HasEntry(reg, conn) {
      FindFirstSnocFound(reg, u, OwnedBy(conn));
    } else {
      FindFirstSnocMissing(reg, u, OwnedBy(conn));
    }
  }

  /** Closing a socket right after it joined leaves what closing it before would. */
  lemma JoinThenClose(reg: Registry, conn: ConnId, room: string, name: string)
    ensures RemoveConn(AddUser(reg, conn, room, name), conn) == RemoveConn(reg, conn)
  {
    FilterSnoc(reg, User(conn, room, name), NotOwnedBy(conn));
  }

  // ---------------------------------------------------------------------------
  // Chat

  /**
   Fan-out is exact: the k-th delivery goes to the socket of the k-th entry
   that is in the sender's room and not owned by the sender, where those
   entries are listed in registry order by `FilterIndices`.
   */
  lemma ChatFanOut(reg: Registry, conn: ConnId, message: string)
    requires HasEntry(reg, conn)
    ensures
      var sender := FindSender(reg, conn).value;
      var idx := FilterIndices(reg, PeerOf(sender.room, conn));
      var r := ChatDeliveries(reg, conn, message);
      && |r| == |idx|
      && forall k :: 0 <= k < |r| ==>
           r[k] == Delivery(reg[idx[k]].socket, Outgoing(message, sender.name))
  {
    var sender := FindSender(reg, conn).value;
    FilterByIndices(reg, PeerOf(sender.room, conn));
  }

  /**
   Every entry in the sender's room owned by another socket is sent the
   payload.
   */
  lemma ChatReachesEveryPeer(reg: Registry, conn: ConnId, message: string, i: nat)
    requires HasEntry(reg, conn) && i < |reg|
    requires reg[i].room == FindSender(reg, conn).value.room && reg[i].socket != conn
    ensures Delivery(reg[i].socket, Outgoing(message, FindSender(reg, conn).value.name))
            in ChatDeliveries(reg, conn, message)
  {
    var sender := FindSender(reg, conn).value;
    var peers := Peers(reg, sender.room, conn);
    FilterKeeps(reg, PeerOf(sender.room, conn), i);
    var k :| 0 <= k < |peers| && peers[k] == reg[i];
    assert ChatDeliveries(reg, conn, message)[k] == Delivery(reg[i].socket, Outgoing(message, sender.name));
  }

  /** Number of deliveries in `ds` addressed to socket `d`. */
  function SendsTo(ds: seq<Delivery>, d: ConnId): nat
  {
    if |ds| == 0 then 0
    else SendsTo(ds[..|ds| - 1], d) + (if ds[|ds| - 1].to == d then 1 else 0)
  }

  /** Number of registry entries owned by `d` in `room`. */
  function EntriesIn(reg: Registry, d: ConnId, room: string): nat
  {
    if |reg| == 0 then 0
    else EntriesIn(reg[..|reg| - 1], d, room) + (if reg[|reg| - 1].socket == d && reg[|reg| - 1].room == room then 1 else 0)
  }

  lemma {:induction false} AddressedPeersCount(reg: Registry, room: string, conn: ConnId, out: Outgoing, d: ConnId)
    requires d != conn
    ensures SendsTo(Address(Peers(reg, room, conn), out), d) == EntriesIn(reg, d, room)
    decreases |reg|
  {
    if |reg| > 0 {
      var front := reg[..|reg| - 1];
      var u := reg[|reg| - 1];
      AddressedPeersCount(front, room, conn, out, d);
      var a := Address(Peers(front, room, conn), out);
      var b := Address(Peers(reg, room, conn), out);
      assert EntriesIn(reg, d, room) ==
        EntriesIn(front, d, room) + (if u.socket == d && u.room == room then 1 else 0);
      if PeerOf(room, conn)(u) {
        assert Peers(reg, room, conn) == Peers(front, room, conn) + [u];
        assert b == a + [Delivery(u.socket, out)];
        assert b[..|b| - 1] == a;
      } else {
        assert Peers(reg, room, conn) == Peers(front, room, conn);
      }
    }
  }

  /**
   A socket other than the sender receives one copy of the chat per entry it
   owns in the sender's room: a socket that joined the room twice gets it
   twice, a socket with no entry there gets nothing.
   */
  lemma ChatCopiesPerEntry(reg: Registry, conn: ConnId, message: string, d: ConnId)
    requires HasEntry(reg, conn) && d != conn
    ensures SendsTo(ChatDeliveries(reg, conn, message), d) ==
            EntriesIn(reg, d, FindSender(reg, conn).value.room)
  {
    var sender := FindSender(reg, conn).value;
    AddressedPeersCount(reg, sender.room, conn, Outgoing(message, sender.name), d);
  }

  // ---------------------------------------------------------------------------
  // Close

  /** Every entry owned by another socket survives a close. */
  lemma CloseKeepsOthers(reg: Registry, conn: ConnId, i: nat)
    requires i < |reg| && reg[i].socket != conn
    ensures reg[i] in RemoveConn(reg, conn)
  {
    FilterKeeps(reg, NotOwnedBy(conn), i);
  }

  /** Closing a socket that has no entry changes nothing. */
  lemma CloseAbsentIsNoOp(reg: Registry, conn: ConnId)
    requires !HasEntry(reg, conn)
    ensures RemoveConn(reg, conn) == reg
  {
    FilterAllPass(reg, NotOwnedBy(conn));
  }

  /** Closing twice is closing once. */
  lemma CloseIdempotent(reg: Registry, conn: ConnId)
    ensures RemoveConn(RemoveConn(reg, conn), conn) == RemoveConn(reg, conn)
  {
    FilterIdempotent(reg, NotOwnedBy(conn));
  }

  /**
   Close keeps the surviving entries in their original order: the k-th
   remaining entry is the entry at the k-th position not owned by `conn`.
   */
  lemma CloseKeepsOrder(reg: Registry, conn: ConnId)
    ensures
      var idx := FilterIndices(reg, NotOwnedBy(conn));
      var r := RemoveConn(reg, conn);
      && |r| == |idx|
      && forall k :: 0 <= k < |r| ==> r[k] == reg[idx[k]]
  {
    FilterByIndices(reg, NotOwnedBy(conn));
  }

  /** Closing two sockets gives the same registry in either order. */
  lemma {:induction false} CloseCommutes(reg: Registry, a: ConnId, b: ConnId)
    ensures RemoveConn(RemoveConn(reg, a), b) == RemoveConn(RemoveConn(reg, b), a)
    decreases |reg|
  {
    if |reg| > 0 {
      var front := reg[..|reg| - 1];
      var u := reg[|reg| - 1];
      assert reg == front + [u];
      CloseCommutes(front, a, b);
      FilterSnoc(front, u, NotOwnedBy(a));
      FilterSnoc(front, u, NotOwnedBy(b));
      FilterSnoc(RemoveConn(front, a), u, NotOwnedBy(b));
      FilterSnoc(RemoveConn(front, b), u, NotOwnedBy(a));
    }
  }

  // ---------------------------------------------------------------------------
  // Inert events

  /** An error, an unrecognised frame and a malformed frame change nothing and send nothing. */
  lemma InertEvents(reg: Registry, conn: ConnId, ev: Event)
    requires ev == Errored || ev == Message(Other) || ev == Message(Malformed)
    ensures Step(reg, conn, ev) == StepResult(reg, [])
  {
  }
}
