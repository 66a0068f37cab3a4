/**
 Runs of the relay over a sequence of transport events, each tagged with the
 connection it arrived on. The server handles one event at a time on a single
 event loop, so a run is the left-to-right composition of `Step`.
 */
module Traces {
  import opened Seqs
  import opened Relay

  /** One event on one connection. */
  datatype Input = Input(conn: ConnId, event: Event)

  /** The number of join frames in `trace`. */
  function Joins(trace: seq<Input>): nat
  {
    if |trace| == 0 then 0
    else Joins(trace[..|trace| - 1]) + (if trace[|trace| - 1].event.Message? && trace[|trace| - 1].event.frame.Join? then 1 else 0)
  }

  /**
   The registry after `trace` and every frame sent along the way, in order.
   Only joins add entries, one each.
   */
  function Run(reg: Registry, trace: seq<Input>): (r: StepResult)
    ensures |r.registry| <= |reg| + Joins(trace)
    ensures trace == [] ==> r == StepResult(reg, [])
    decreases |trace|
  {
    if |trace| == 0 then StepResult(reg, [])
    else
      var before := Run(reg, trace[..|trace| - 1]);
      var last := trace[|trace| - 1];
      var s := Step(before.registry, last.conn, last.event);
      StepResult(s.registry, before.deliveries + s.deliveries)
  }

  /** Whether `i` is a join frame sent on connection `c`. */
  predicate JoinFrom(i: Input, c: ConnId)
  {
    i.conn == c && i.event.Message? && i.event.frame.Join?
  }

  /** Whether `trace` holds a join that creates exactly the entry `u`. */
  predicate JoinedIn(trace: seq<Input>, u: User)
  {
    exists j :: 0 <= j < |trace| && trace[j] == Input(u.socket, Message(Join(u.room, u.name)))
  }

  /** The frames sent by the k-th event of `trace`. */
  function SentAt(reg: Registry, trace: seq<Input>, k: nat): seq<Delivery>
    requires k < |trace|
  {
    Step(Run(reg, trace[..k]).registry, trace[k].conn, trace[k].event).deliveries
  }

  /** A step that is not a join from `c` cannot give `c` an entry. */
  lemma StepKeepsAbsent(reg: Registry, i: Input, c: ConnId)
    requires !HasEntry(reg, c) && !JoinFrom(i, c)
    ensures !HasEntry(Step(reg, i.conn, i.event).registry, c)
  {
    var r := Step(reg, i.conn, i.event).registry;
    if i.event.Message? && i.event.frame.Join? {
      forall k | 0 <= k < |r|
        ensures r[k].socket != c
      {
        if k < |reg| {
          assert r[k] == reg[k];
        }
      }
    }
  }

  /**
   Every registry entry was made by a join: after any run, each entry was
   already there at the start or was created by a join in the trace carrying
   exactly that socket, room and name.
   */
  lemma {:induction false} EntriesComeFromJoins(reg: Registry, trace: seq<Input>)
    ensures forall k :: 0 <= k < |Run(reg, trace).registry| ==>
      Run(reg, trace).registry[k] in reg || JoinedIn(trace, Run(reg, trace).registry[k])
    decreases |trace|
  {
    if |trace| > 0 {
      var front := trace[..|trace| - 1];
      var last := trace[|trace| - 1];
      EntriesComeFromJoins(reg, front);
      var before := Run(reg, front).registry;
      var after := Run(reg, trace).registry;
      forall k | 0 <= k < |after|
        ensures after[k] in reg || JoinedIn(trace, after[k])
      {
        var u := after[k];
        if JoinFrom(last, last.conn) && k == |before| {
          assert trace[|trace| - 1] == Input(u.socket, Message(Join(u.room, u.name)));
        } else {
          assert u in before;
          if u !in reg {
            var j :| 0 <= j < |front| && front[j] == Input(u.socket, Message(Join(u.room, u.name)));
            assert trace[j] == front[j];
          }
        }
      }
    }
  }

  /**
   After a connection's close, it owns no entry for the rest of the run,
   unless it joins again; an error or any other frame does not bring it back.
   */
  lemma {:induction false} ClosedStaysGone(reg: Registry, trace: seq<Input>, k: nat)
    requires k < |trace| && trace[k].event == Closed
    requires forall j :: k < j < |trace| ==> !JoinFrom(trace[j], trace[k].conn)
    ensures !HasEntry(Run(reg, trace).registry, trace[k].conn)
    decreases |trace|
  {
    var c := trace[k].conn;
    var front := trace[..|trace| - 1];
    var last := trace[|trace| - 1];
    var before := Run(reg, front).registry;
    if k < |trace| - 1 {
      assert front[k] == trace[k];
      forall j | k < j < |front|
        ensures !JoinFrom(front[j], c)
      {
        assert front[j] == trace[j];
      }
      ClosedStaysGone(reg, front, k);
      StepKeepsAbsent(before, last, c);
    }
  }

  /**
   A connection that has no entry at the start and never joins stays without
   one, and every event it sends, chats included, sends nothing.
   */
  lemma {:induction false} SilentWithoutJoin(reg: Registry, trace: seq<Input>, c: ConnId)
    requires !HasEntry(reg, c)
    requires forall j :: 0 <= j < |trace| ==> !JoinFrom(trace[j], c)
    ensures !HasEntry(Run(reg, trace).registry, c)
    ensures forall k :: 0 <= k < |trace| && trace[k].conn == c ==> SentAt(reg, trace, k) == []
    decreases |trace|
  {
    if |trace| > 0 {
      var front := trace[..|trace| - 1];
      var last := trace[|trace| - 1];
      forall j | 0 <= j < |front|
        ensures !JoinFrom(front[j], c)
      {
        assert front[j] == trace[j];
      }
      SilentWithoutJoin(reg, front, c);
      StepKeepsAbsent(Run(reg, front).registry, last, c);
      forall k | 0 <= k < |trace| && trace[k].conn == c
        ensures SentAt(reg, trace, k) == []
      {
        if k < |front| {
          assert front[..k] == trace[..k];
          assert front[k] == trace[k];
          assert SentAt(reg, front, k) == [];
        } else {
          assert trace[..k] == front;
        }
      }
    }
  }

  /**
   Redundant terminal signalling is harmless: a second close, or an error,
   right after a close leaves the same registry and sends nothing more.
   */
  lemma RedundantTerminal(reg: Registry, trace: seq<Input>, c: ConnId, e: Event)
    requires e == Closed || e == Errored
    ensures Run(reg, trace + [Input(c, Closed), Input(c, e)]) == Run(reg, trace + [Input(c, Closed)])
  {
    var once := trace + [Input(c, Closed)];
    var twice := trace + [Input(c, Closed), Input(c, e)];
    assert twice[..|twice| - 1] == once;
    assert once[..|once| - 1] == trace;
    CloseIdempotent(Run(reg, trace).registry, c);
  }

  // ---------------------------------------------------------------------------
  // Worked scenarios

  /** One more event extends a run by one `Step`. */
  lemma RunSnoc(reg: Registry, trace: seq<Input>, x: Input)
    ensures Run(reg, trace + [x]) ==
      var s := Step(Run(reg, trace).registry, x.conn, x.event);
      StepResult(s.registry, Run(reg, trace).deliveries + s.deliveries)
  {
    assert (trace + [x])[..|trace|] == trace;
  }

  /** Two joins leave two entries, in join order. */
  lemma TwoJoinsRegistry(a: ConnId, ra: string, na: string, b: ConnId, rb: string, nb: string)
    ensures Run([], [Input(a, Message(Join(ra, na))), Input(b, Message(Join(rb, nb)))])
            == StepResult([User(a, ra, na), User(b, rb, nb)], [])
  {
    var i0, i1 := Input(a, Message(Join(ra, na))), Input(b, Message(Join(rb, nb)));
    RunSnoc([], [], i0);
    RunSnoc([], [i0], i1);
    assert [] + [i0] == [i0];
    assert [i0] + [i1] == [i0, i1];
  }

  /** The chat of `ScenarioSameRoom` and `ScenarioOtherRoom`, on the registry their joins build. */
  lemma TwoSocketsChat(a: ConnId, ra: string, na: string, b: ConnId, rb: string, nb: string, m: string)
    requires a != b
    ensures ChatDeliveries([User(a, ra, na), User(b, rb, nb)], a, m)
            == if ra == rb then [Delivery(b, Outgoing(m, na))] else []
  {
    var u1, u2 := User(a, ra, na), User(b, rb, nb);
    var reg := [u1, u2];
    assert reg[..1] == [u1];
    assert [u1][..0] == [];
    assert Filter([u1], PeerOf(ra, a)) == [];
    assert FindSender(reg, a) == Some(u1);
    if ra == rb {
      assert Peers(reg, ra, a) == [u2];
      assert Address([u2], Outgoing(m, na)) == [Delivery(b, Outgoing(m, na))];
    } else {
      assert Peers(reg, ra, a) == [];
    }
  }

  /**
   Two sockets join one room and the first one chats: the chat reaches the
   second one only, under the first one's name; the sender gets nothing back.
   */
  lemma ScenarioSameRoom(a: ConnId, na: string, b: ConnId, nb: string, room: string, m: string)
    requires a != b
    ensures Run([], [Input(a, Message(Join(room, na))), Input(b, Message(Join(room, nb))),
                     Input(a, Message(Chat(m)))]).deliveries
            == [Delivery(b, Outgoing(m, na))]
  {
    var i0, i1, i2 := Input(a, Message(Join(room, na))), Input(b, Message(Join(room, nb))),
                      Input(a, Message(Chat(m)));
    var reg := [User(a, room, na), User(b, room, nb)];
    TwoJoinsRegistry(a, room, na, b, room, nb);
    TwoSocketsChat(a, room, na, b, room, nb, m);
    RunSnoc([], [i0, i1], i2);
    assert [i0, i1] + [i2] == [i0, i1, i2];
    assert Run([], [i0, i1, i2]).deliveries == [] + ChatDeliveries(reg, a, m);
  }

  /** Two sockets join different rooms and the first one chats: nobody receives anything. */
  lemma ScenarioOtherRoom(a: ConnId, ra: string, na: string, b: ConnId, rb: string, nb: string, m: string)
    requires a != b && ra != rb
    ensures Run([], [Input(a, Message(Join(ra, na))), Input(b, Message(Join(rb, nb))),
                     Input(a, Message(Chat(m)))]).deliveries
            == []
  {
    var i0, i1, i2 := Input(a, Message(Join(ra, na))), Input(b, Message(Join(rb, nb))),
                      Input(a, Message(Chat(m)));
    var reg := [User(a, ra, na), User(b, rb, nb)];
    TwoJoinsRegistry(a, ra, na, b, rb, nb);
    TwoSocketsChat(a, ra, na, b, rb, nb, m);
    RunSnoc([], [i0, i1], i2);
    assert [i0, i1] + [i2] == [i0, i1, i2];
    assert Run([], [i0, i1, i2]).deliveries == [] + ChatDeliveries(reg, a, m);
  }

  /** Two chats after a run that sent nothing send the two chats' frames, in order. */
  lemma RunTwoChats(trace: seq<Input>, reg: Registry, c1: ConnId, m1: string, c2: ConnId, m2: string)
    requires Run([], trace) == StepResult(reg, [])
    ensures Run([], trace + [Input(c1, Message(Chat(m1)))] + [Input(c2, Message(Chat(m2)))])
         == StepResult(reg, ChatDeliveries(reg, c1, m1) + ChatDeliveries(reg, c2, m2))
  {
    var x1, x2 := Input(c1, Message(Chat(m1))), Input(c2, Message(Chat(m2)));
    RunSnoc([], trace, x1);
    assert Step(reg, c1, x1.event) == StepResult(reg, ChatDeliveries(reg, c1, m1));
    assert Run([], trace + [x1]) == StepResult(reg, ChatDeliveries(reg, c1, m1));
    RunSnoc([], trace + [x1], x2);
    assert Step(reg, c2, x2.event) == StepResult(reg, ChatDeliveries(reg, c2, m2));
  }

  /** Three joins, the last two from one socket, leave three entries in join order. */
  lemma DuplicateJoinRegistry(a: ConnId, b: ConnId, room: string, na: string, nb: string, nb2: string)
    ensures Run([], [Input(a, Message(Join(room, na))), Input(b, Message(Join(room, nb))),
                     Input(b, Message(Join(room, nb2)))])
            == StepResult([User(a, room, na), User(b, room, nb), User(b, room, nb2)], [])
  {
    var i0, i1, i2 := Input(a, Message(Join(room, na))), Input(b, Message(Join(room, nb))),
                      Input(b, Message(Join(room, nb2)));
    RunSnoc([], [], i0);
    RunSnoc([], [i0], i1);
    RunSnoc([], [i0, i1], i2);
    assert [] + [i0] == [i0];
    assert [i0] + [i1] == [i0, i1];
    assert [i0, i1] + [i2] == [i0, i1, i2];
  }

  /** The chat of the socket that joined once, in `ScenarioDuplicateJoin`. */
  lemma DuplicateJoinFirstChat(a: ConnId, b: ConnId, room: string, na: string, nb: string, nb2: string,
                               m: string)
    requires a != b
    ensures ChatDeliveries([User(a, room, na), User(b, room, nb), User(b, room, nb2)], a, m)
            == [Delivery(b, Outgoing(m, na)), Delivery(b, Outgoing(m, na))]
  {
    var u1, u2, u3 := User(a, room, na), User(b, room, nb), User(b, room, nb2);
    var reg := [u1, u2, u3];
    var o := Outgoing(m, na);
    assert reg[..2] == [u1, u2];
    assert [u1, u2][..1] == [u1];
    assert [u1][..0] == [];
    assert Filter([u1], PeerOf(room, a)) == [];
    assert Filter([u1, u2], PeerOf(room, a)) == [u2];
    assert Peers(reg, room, a) == [u2, u3];
    assert FindSender(reg, a) == Some(u1);
    assert Address([u2, u3], o) == [Delivery(b, o), Delivery(b, o)];
  }

  /** The chat of the socket that joined twice, in `ScenarioDuplicateJoin`. */
  lemma DuplicateJoinSecondChat(a: ConnId, b: ConnId, room: string, na: string, nb: string, nb2: string,
                                m: string)
    requires a != b
    ensures ChatDeliveries([User(a, room, na), User(b, room, nb), User(b, room, nb2)], b, m)
            == [Delivery(a, Outgoing(m, nb))]
  {
    var u1, u2, u3 := User(a, room, na), User(b, room, nb), User(b, room, nb2);
    var reg := [u1, u2, u3];
    var o := Outgoing(m, nb);
    assert reg[..2] == [u1, u2];
    assert [u1, u2][..1] == [u1];
    assert [u1][..0] == [];
    assert Filter([u1], PeerOf(room, b)) == [u1];
    assert Filter([u1, u2], PeerOf(room, b)) == [u1];
    assert Peers(reg, room, b) == [u1];
    assert reg[1..] == [u2, u3];
    assert FindFirst([u2, u3], OwnedBy(b)) == Some(0);
    assert FindSender(reg, b) == Some(u2);
    assert Address([u1], o) == [Delivery(a, o)];
  }

  /**
   A socket that joined a room twice gets every chat in that room twice, and
   its own chats go out under the name of its first join.
   */
  lemma ScenarioDuplicateJoin(a: ConnId, b: ConnId, room: string, na: string, nb: string, nb2: string,
                              m1: string, m2: string)
    requires a != b
    ensures Run([], [Input(a, Message(Join(room, na))), Input(b, Message(Join(room, nb))),
                     Input(b, Message(Join(room, nb2))), Input(a, Message(Chat(m1))),
                     Input(b, Message(Chat(m2)))]).deliveries
            == [Delivery(b, Outgoing(m1, na)), Delivery(b, Outgoing(m1, na)), Delivery(a, Outgoing(m2, nb))]
  {
    var joins := [Input(a, Message(Join(room, na))), Input(b, Message(Join(room, nb))),
                  Input(b, Message(Join(room, nb2)))];
    var reg := [User(a, room, na), User(b, room, nb), User(b, room, nb2)];
    DuplicateJoinRegistry(a, b, room, na, nb, nb2);
    DuplicateJoinFirstChat(a, b, room, na, nb, nb2, m1);
    DuplicateJoinSecondChat(a, b, room, na, nb, nb2, m2);
    RunTwoChats(joins, reg, a, m1, b, m2);
    assert joins + [Input(a, Message(Chat(m1)))] + [Input(b, Message(Chat(m2)))]
        == [Input(a, Message(Join(room, na))), Input(b, Message(Join(room, nb))),
            Input(b, Message(Join(room, nb2))), Input(a, Message(Chat(m1))),
            Input(b, Message(Chat(m2)))];
  }
}
