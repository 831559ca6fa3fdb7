/**
 The message and acknowledgement protocol of qweb_client between any number of accounts. The server
 and the connections are a network that loses, repeats and reorders packets: a packet once sent may be
 delivered at any later time, any number of times, or never.
 */
module ChatAck {
  import opened Bytes
  import opened History
  import ChatWindow

  datatype Packet =
    | Msg(target: Int64, source: Int64, time: Int64, types: string, content: string)
    | Ack(target: Int64, source: Int64, time: Int64, timeOk: Int64)

  // ---- One client ----

  function Received(m: Packet): Row
    requires m.Msg?
  {
    Row(m.time, true, m.types, AL, m.content)
  }

  function Sent(m: Packet): Row
    requires m.Msg?
  {
    Row(0, false, m.types, AR, m.content)
  }

  class QwebClient {
    const dbh: HistoryDb
    /** What send_msg was given, and the messages announced to the chat window. */
    var outbox: seq<Packet>
    var announced: seq<Packet>

    constructor ()
      ensures dbh.db == map[] && fresh(dbh) && outbox == [] && announced == []
    {
      dbh := new HistoryDb();
      outbox, announced := [], [];
    }

    /** A message is announced and acknowledged also when it could not be stored. */
    method TaskSwapMsg(m: Packet, now: Int64)
      requires m.Msg?
      modifies this, dbh
      ensures dbh.db == InsertRow(old(dbh.db), m.source, m.time, Received(m))
      // A new message is unread, on the left, and its feed_back is its send time.
      ensures m.source in old(dbh.db) && m.time !in old(dbh.db)[m.source] ==>
                && m.source in dbh.db && m.time in Unread(dbh.db[m.source])
                && Cell(dbh.db, m.source, m.time) == Some(Row(m.time, true, m.types, AL, m.content))
      ensures announced == old(announced) + [m]
      ensures outbox == old(outbox) + [Ack(m.source, m.target, m.time, now)]
    {
      var _ := dbh.InsertHistory(m.source, m.time, Row(m.time, true, m.types, AL, m.content));
      announced := announced + [m];
      outbox := outbox + [Ack(m.source, m.target, m.time, now)];
    }

    method TaskSwapMsgBack(a: Packet)
      requires a.Ack?
      modifies dbh
      ensures dbh.db == SetFeedBack(old(dbh.db), a.source, a.time, a.timeOk)
    {
      var _ := dbh.UpdateFeedBack(a.source, a.time, a.timeOk);
    }

    /** A message is handed to send_msg only if its row could be inserted. */
    method AskSwapMsg(m: Packet, connected: bool) returns (ok: bool)
      requires m.Msg?
      modifies this`outbox, dbh
      ensures ok <==> m.target in old(dbh.db) && m.time !in old(dbh.db)[m.target] && connected
      ensures dbh.db == InsertRow(old(dbh.db), m.target, m.time, Sent(m))
      // An own message is not unread, on the right, and not acknowledged yet.
      ensures m.target in old(dbh.db) && m.time !in old(dbh.db)[m.target] ==>
                && m.target in dbh.db && m.time !in Unread(dbh.db[m.target])
                && Cell(dbh.db, m.target, m.time) == Some(Row(0, false, m.types, AR, m.content))
      ensures outbox == old(outbox) + (if dbh.db != old(dbh.db) then [m] else [])
    {
      ok := dbh.InsertHistory(m.target, m.time, Row(0, false, m.types, AR, m.content));
      if ok {
        outbox := outbox + [m];
        ok := connected;
      }
    }

    /** The server's cache is the same packets again, handled one after the other, each at its own time. */
    method TaskSwapCacheBack(cached: seq<Packet>, nows: seq<Int64>)
      requires |nows| == |cached|
      modifies this, dbh
      ensures dbh.db == HandleAll(old(dbh.db), cached)
      ensures announced == old(announced) + Messages(cached)
      ensures outbox == old(outbox) + Acks(cached, nows)
    {
      for i := 0 to |cached|
        invariant dbh.db == HandleAll(old(dbh.db), cached[..i])
        invariant announced == old(announced) + Messages(cached[..i])
        invariant outbox == old(outbox) + Acks(cached[..i], nows[..i])
      {
        assert cached[..i + 1][..i] == cached[..i] && nows[..i + 1][..i] == nows[..i];
        match cached[i]
        case Msg(_, _, _, _, _) => TaskSwapMsg(cached[i], nows[i]);
        case Ack(_, _, _, _) => TaskSwapMsgBack(cached[i]);
      }
      assert cached[..|cached|] == cached && nows[..|nows|] == nows;
    }
  }

  /** What a delivered packet does to the history of its target. */
  function Handle(db: Db, p: Packet): Db {
    match p
    case Msg(_, source, time, _, _) => InsertRow(db, source, time, Received(p))
    case Ack(_, source, time, timeOk) => SetFeedBack(db, source, time, timeOk)
  }

  function HandleAll(db: Db, ps: seq<Packet>): Db {
    if ps == [] then db else Handle(HandleAll(db, ps[..|ps| - 1]), ps[|ps| - 1])
  }

  function Messages(ps: seq<Packet>): seq<Packet> {
    if ps == [] then []
    else Messages(ps[..|ps| - 1]) + (if ps[|ps| - 1].Msg? then [ps[|ps| - 1]] else [])
  }

  function Acks(ps: seq<Packet>, nows: seq<Int64>): seq<Packet>
    requires |nows| == |ps|
  {
    if ps == [] then []
    else
      var n := |ps| - 1;
      var p := ps[n];
      Acks(ps[..n], nows[..n]) + (if p.Msg? then [Ack(p.source, p.target, p.time, nows[n])] else [])
  }

  /** What the window's session sees of a delivered message and of a sent one. */
  lemma SeenByWindow(s: ChatWindow.Session, m: Packet)
    requires m.Msg?
    ensures var arrive := ChatWindow.Arrive(m.source, m.time, Received(m));
            ChatWindow.Enabled(s, arrive) && ChatWindow.Effect(s, arrive).db == Handle(s.db, m)
    ensures s.ui.Idle? && m.target in s.chats ==>
              var send := ChatWindow.SendText(m.target, m.time, Sent(m));
              && ChatWindow.Enabled(s, send)
              && ChatWindow.Effect(s, send).db == InsertRow(s.db, m.target, m.time, Sent(m))
  {
  }

  // ---- All clients and the network ----

  /** Histories by account, and every packet sent so far. */
  datatype World = World(dbs: map<Int64, Db>, net: set<Packet>)

  datatype Action =
    | Send(m: Packet)
    | Deliver(p: Packet, now: Int64)
    | Login(account: Int64, friend: Int64)
    | MarkRead(account: Int64, friend: Int64, time: Int64)

  /** Accounts with an open history, each with tables for the friends it logged in with. */
  function Start(friends: map<Int64, set<Int64>>): World {
    World(map a | a in friends :: EmptyTables(friends[a]), {})
  }

  function EmptyTables(friends: set<Int64>): Db {
    map f | f in friends :: NO_ROWS
  }

  function Step(w: World, a: Action): World {
    match a
    case Send(m) =>
      if m.Msg? && m.source in w.dbs && m.target in w.dbs[m.source] && m.time !in w.dbs[m.source][m.target] then
        w.(dbs := w.dbs[m.source := InsertRow(w.dbs[m.source], m.target, m.time, Sent(m))], net := w.net + {m})
      else w
    case Deliver(p, now) =>
      if p in w.net && p.target in w.dbs then
        w.(dbs := w.dbs[p.target := Handle(w.dbs[p.target], p)],
           net := if p.Msg? then w.net + {Ack(p.source, p.target, p.time, now)} else w.net)
      else w
    case Login(account, friend) =>
      if account in w.dbs then w.(dbs := w.dbs[account := CreateTable(w.dbs[account], friend)]) else w
    case MarkRead(account, friend, time) =>
      if account in w.dbs then w.(dbs := w.dbs[account := SetNonRead(w.dbs[account], friend, time, false)]) else w
  }

  function Exec(w: World, actions: seq<Action>): World {
    if actions == [] then w else Step(Exec(w, actions[..|actions| - 1]), actions[|actions| - 1])
  }

  predicate HasTable(w: World, a: Int64, b: Int64) {
    a in w.dbs && b in w.dbs[a]
  }

  /** Account a's table for b has a row at `time`. */
  predicate Has(w: World, a: Int64, b: Int64, time: Int64) {
    HasTable(w, a, b) && time in w.dbs[a][b]
  }

  function At(w: World, a: Int64, b: Int64, time: Int64): Row
    requires Has(w, a, b, time)
  {
    w.dbs[a][b][time]
  }

  /** a sent this, and b's acknowledgement came back. */
  predicate Acknowledged(w: World, a: Int64, b: Int64, time: Int64) {
    Has(w, a, b, time) && At(w, a, b, time).side == AR && At(w, a, b, time).feedBack != 0
  }

  predicate SameText(r: Row, s: Row) {
    r.types == s.types && r.content == s.content
  }

  // ---- The invariant ----

  /** A message in the network is its sender's row. */
  ghost predicate MsgInv(w: World) {
    forall m :: m in w.net && m.Msg? ==>
      && Has(w, m.source, m.target, m.time)
      && At(w, m.source, m.target, m.time).side == AR
      && At(w, m.source, m.target, m.time).types == m.types
      && At(w, m.source, m.target, m.time).content == m.content
  }

  /** An acknowledgement in the network answers a row its receiver has sent. */
  ghost predicate AckInv(w: World) {
    forall p :: p in w.net && p.Ack? ==>
      Has(w, p.target, p.source, p.time) && At(w, p.target, p.source, p.time).side == AR
  }

  /** A received row is a copy of its sender's row, and its feed_back is its send time. */
  ghost predicate CopyInv(w: World) {
    forall a, b, time :: Has(w, b, a, time) && At(w, b, a, time).side == AL ==>
      && Has(w, a, b, time) && At(w, a, b, time).side == AR
      && SameText(At(w, a, b, time), At(w, b, a, time))
      && At(w, b, a, time).feedBack == time
  }

  /** A sent row is a message in the network. */
  ghost predicate SentInv(w: World) {
    forall a, b, time :: Has(w, a, b, time) && At(w, a, b, time).side == AR ==>
      Msg(b, a, time, At(w, a, b, time).types, At(w, a, b, time).content) in w.net
  }

  /** Whatever b acknowledged to a, b has a row for. */
  ghost predicate StoredInv(w: World, a: Int64, b: Int64) {
    && HasTable(w, b, a)
    && (forall p :: p in w.net && p.Ack? && p.target == a && p.source == b ==> Has(w, b, a, p.time))
    && (forall time :: Acknowledged(w, a, b, time) ==> Has(w, b, a, time))
  }

  ghost predicate Inv(w: World) {
    MsgInv(w) && AckInv(w) && CopyInv(w) && SentInv(w)
  }

  /** Rows stay, and what they say stays; only the two flags change. */
  lemma StepKeepsRows(w: World, a: Action, x: Int64, y: Int64, time: Int64)
    requires Has(w, x, y, time)
    ensures Has(Step(w, a), x, y, time)
    ensures var r, r' := At(w, x, y, time), At(Step(w, a), x, y, time);
            r'.side == r.side && SameText(r, r')
  {
  }

  lemma StepMsgInv(w: World, a: Action)
    requires Inv(w)
    ensures MsgInv(Step(w, a))
  {
    hide AckInv, CopyInv, SentInv;
    var w' := Step(w, a);
    forall m | m in w'.net && m.Msg?
      ensures Has(w', m.source, m.target, m.time)
      ensures var r := At(w', m.source, m.target, m.time);
              r.side == AR && r.types == m.types && r.content == m.content
    {
      if m in w.net {
        StepKeepsRows(w, a, m.source, m.target, m.time);
      } else {
        assert a == Send(m);
      }
    }
  }

  lemma StepAckInv(w: World, a: Action)
    requires Inv(w)
    ensures AckInv(Step(w, a))
  {
    hide CopyInv, SentInv;
    var w' := Step(w, a);
    forall p | p in w'.net && p.Ack?
      ensures Has(w', p.target, p.source, p.time) && At(w', p.target, p.source, p.time).side == AR
    {
      if p in w.net {
        StepKeepsRows(w, a, p.target, p.source, p.time);
      } else {
        var m := a.p;
        assert m in w.net && m.Msg?;
        StepKeepsRows(w, a, m.source, m.target, m.time);
      }
    }
  }

  /** A row that is new or whose feed_back changed, in terms of the action. */
  lemma RowOrigin(w: World, a: Action, x: Int64, y: Int64, time: Int64)
    requires Has(Step(w, a), x, y, time)
    ensures !Has(w, x, y, time) ==>
              || (a.Send? && a.m.Msg? && a.m.source == x && a.m.target == y && a.m.time == time &&
                  At(Step(w, a), x, y, time) == Sent(a.m))
              || (a.Deliver? && a.p.Msg? && a.p in w.net && a.p.target == x && a.p.source == y && a.p.time == time &&
                  At(Step(w, a), x, y, time) == Received(a.p))
    ensures Has(w, x, y, time) && At(Step(w, a), x, y, time).feedBack != At(w, x, y, time).feedBack ==>
              a.Deliver? && a.p.Ack? && a.p in w.net && a.p.target == x && a.p.source == y && a.p.time == time
  {
  }

  lemma StepCopyInv(w: World, a: Action)
    requires Inv(w)
    ensures CopyInv(Step(w, a))
  {
    hide Step, Has, At, SameText;
    var w' := Step(w, a);
    forall x, y, time | Has(w', y, x, time) && At(w', y, x, time).side == AL
      ensures Has(w', x, y, time) && At(w', x, y, time).side == AR
      ensures SameText(At(w', x, y, time), At(w', y, x, time)) && At(w', y, x, time).feedBack == time
    {
      CopyStep(w, a, x, y, time);
    }
  }

  lemma CopyStep(w: World, a: Action, x: Int64, y: Int64, time: Int64)
    requires Inv(w) && Has(Step(w, a), y, x, time) && At(Step(w, a), y, x, time).side == AL
    ensures var w' := Step(w, a);
            && Has(w', x, y, time) && At(w', x, y, time).side == AR
            && SameText(At(w', x, y, time), At(w', y, x, time)) && At(w', y, x, time).feedBack == time
  {
    hide Step, Has, At;
    RowOrigin(w, a, y, x, time);
    if Has(w, y, x, time) {
      StepKeepsRows(w, a, y, x, time);
      assert Has(w, x, y, time);
      StepKeepsRows(w, a, x, y, time);
    } else {
      var m := a.p;
      assert Has(w, m.source, m.target, m.time);
      StepKeepsRows(w, a, x, y, time);
    }
  }

  lemma StepSentInv(w: World, a: Action)
    requires Inv(w)
    ensures SentInv(Step(w, a))
  {
    hide MsgInv, AckInv, CopyInv, At;
    var w' := Step(w, a);
    forall x, y, time | Has(w', x, y, time) && At(w', x, y, time).side == AR
      ensures Msg(y, x, time, At(w', x, y, time).types, At(w', x, y, time).content) in w'.net
    {
      RowOrigin(w, a, x, y, time);
      if Has(w, x, y, time) {
        StepKeepsRows(w, a, x, y, time);
      } else {
        assert a.m in w'.net;
      }
    }
  }

  lemma StepStoredInv(w: World, a: Action, x: Int64, y: Int64)
    requires Inv(w) && StoredInv(w, x, y)
    ensures StoredInv(Step(w, a), x, y)
  {
    hide MsgInv, AckInv, CopyInv, SentInv;
    var w' := Step(w, a);
    forall p | p in w'.net && p.Ack? && p.target == x && p.source == y
      ensures Has(w', y, x, p.time)
    {
      if p in w.net {
        StepKeepsRows(w, a, y, x, p.time);
      }
    }
    forall time | Acknowledged(w', x, y, time)
      ensures Has(w', y, x, time)
    {
      RowOrigin(w, a, x, y, time);
      if Acknowledged(w, x, y, time) {
        StepKeepsRows(w, a, y, x, time);
      } else if Has(w, x, y, time) {
        StepKeepsRows(w, a, x, y, time);
        StepKeepsRows(w, a, y, x, time);
      }
    }
  }

  lemma {:induction false} EveryRun(friends: map<Int64, set<Int64>>, actions: seq<Action>)
    ensures Inv(Exec(Start(friends), actions))
  {
    if actions != [] {
      hide Inv, Step;
      EveryRun(friends, actions[..|actions| - 1]);
      StepInv(Exec(Start(friends), actions[..|actions| - 1]), actions[|actions| - 1]);
    }
  }

  lemma StepInv(w: World, a: Action)
    requires Inv(w)
    ensures Inv(Step(w, a))
  {
    StepMsgInv(w, a);
    StepAckInv(w, a);
    StepCopyInv(w, a);
    StepSentInv(w, a);
  }

  lemma {:induction false} EveryRunStores(friends: map<Int64, set<Int64>>, actions: seq<Action>, a: Int64, b: Int64)
    requires b in friends && a in friends[b]
    ensures StoredInv(Exec(Start(friends), actions), a, b)
  {
    if actions != [] {
      hide StoredInv, Inv, Step;
      EveryRunStores(friends, actions[..|actions| - 1], a, b);
      EveryRun(friends, actions[..|actions| - 1]);
      StepStoredInv(Exec(Start(friends), actions[..|actions| - 1]), actions[|actions| - 1], a, b);
    }
  }

  // ---- The laws ----

  /** a, b, c: a sends, b gets it without a table for a, a gets the acknowledgement. */
  function LosingRun(m: Packet): seq<Action>
    requires m.Msg?
  {
    [Send(m), Deliver(m, 1), Deliver(Ack(m.source, m.target, m.time, 1), 1)]
  }

  lemma AcknowledgedButNotStored(friends: map<Int64, set<Int64>>, m: Packet)
    requires m.Msg? && m.source in friends && m.target in friends[m.source] && m.target in friends
    requires m.source !in friends[m.target]
    ensures var w := Exec(Start(friends), LosingRun(m));
            Acknowledged(w, m.source, m.target, m.time) && !Has(w, m.target, m.source, m.time)
  {
    var run := LosingRun(m);
    var w0 := Start(friends);
    var w1, w2 := Step(w0, run[0]), Step(Step(w0, run[0]), run[1]);
    assert run[..1] == [run[0]] && run[..2] == [run[0], run[1]];
    assert run[..1][..0] == [] && run[..2][..1] == run[..1];
    assert Exec(w0, run[..1]) == w1;
    assert Exec(w0, run[..2]) == w2;
    assert Exec(w0, run) == Step(w2, run[2]);
  }

  /**
   In every run with loss, repetition and reordering, each row a sent to b whose feed_back is not zero
   has a row with the same send time in b's table for a, if and only if b has had that table from the
   start. Messages from somebody without a table are acknowledged all the same.
   */
  lemma AcknowledgedIsStoredIff(friends: map<Int64, set<Int64>>, a: Int64, b: Int64)
    requires a in friends && b in friends[a] && b in friends
    ensures (forall actions, time ::
               Acknowledged(Exec(Start(friends), actions), a, b, time) ==>
                 Has(Exec(Start(friends), actions), b, a, time))
            <==> a in friends[b]
  {
    hide Acknowledged, Has, Exec, Start;
    if a in friends[b] {
      forall actions, time | Acknowledged(Exec(Start(friends), actions), a, b, time)
        ensures Has(Exec(Start(friends), actions), b, a, time)
      {
        EveryRunStores(friends, actions, a, b);
      }
    } else {
      var m := Msg(b, a, 5, "Text", "");
      AcknowledgedButNotStored(friends, m);
      assert Acknowledged(Exec(Start(friends), LosingRun(m)), a, b, 5);
    }
  }

  /** b stored a's message at `time` as a wrote it. */
  predicate Delivered(w: World, a: Int64, b: Int64, time: Int64) {
    && Has(w, a, b, time) && Has(w, b, a, time)
    && At(w, b, a, time).side == AL && At(w, b, a, time).feedBack == time
    && SameText(At(w, a, b, time), At(w, b, a, time))
  }

  /**
   Seen from the state after a run: all messages whose acknowledgement reached a stand in b's history as
   a wrote them if and only if b has a row at the time of each and sent a nothing at the time of any.
   */
  lemma AcknowledgedTextByTimes(friends: map<Int64, set<Int64>>, actions: seq<Action>, a: Int64, b: Int64)
    ensures var w := Exec(Start(friends), actions);
            (forall time :: Acknowledged(w, a, b, time) ==> Delivered(w, a, b, time)) <==>
            && (forall time :: Acknowledged(w, a, b, time) ==> Has(w, b, a, time))
            && (forall m :: m in w.net && m.Msg? && m.source == b && m.target == a ==> !Acknowledged(w, a, b, m.time))
  {
    EveryRun(friends, actions);
    hide Step, Exec, Start, At, Has, SameText, AckInv;
    var w := Exec(Start(friends), actions);
    forall m | m in w.net && m.Msg? && m.source == b && m.target == a && Acknowledged(w, a, b, m.time)
      ensures !Delivered(w, a, b, m.time)
    {
    }
    forall time | Acknowledged(w, a, b, time) && Has(w, b, a, time) && !Delivered(w, a, b, time)
      ensures exists m :: m in w.net && m.Msg? && m.source == b && m.target == a && m.time == time
    {
      assert At(w, b, a, time).side == AR;
      assert Msg(a, b, time, At(w, b, a, time).types, At(w, b, a, time).content) in w.net;
    }
  }

  // ---- What has to happen in a run ----

  /** The network hands b a message of a, whatever b can do with it; b acknowledges it. */
  predicate Delivers(w: World, act: Action, a: Int64, b: Int64, time: Int64) {
    && act.Deliver? && act.p in w.net && act.p.Msg? && b in w.dbs
    && act.p.source == a && act.p.target == b && act.p.time == time
  }

  /** At this moment b has a table for a, and in it no row of b's own at the message's time. */
  predicate Accepts(w: World, act: Action, a: Int64, b: Int64, time: Int64) {
    && Delivers(w, act, a, b, time)
    && HasTable(w, b, a) && (Has(w, b, a, time) ==> At(w, b, a, time).side == AL)
  }

  ghost predicate EverDelivered(friends: map<Int64, set<Int64>>, actions: seq<Action>,
                                a: Int64, b: Int64, time: Int64)
  {
    exists n :: 0 <= n < |actions| && Delivers(Exec(Start(friends), actions[..n]), actions[n], a, b, time)
  }

  ghost predicate EverAccepted(friends: map<Int64, set<Int64>>, actions: seq<Action>,
                               a: Int64, b: Int64, time: Int64)
  {
    exists n :: 0 <= n < |actions| && Accepts(Exec(Start(friends), actions[..n]), actions[n], a, b, time)
  }

  predicate HasCopy(w: World, a: Int64, b: Int64, time: Int64) {
    Has(w, b, a, time) && At(w, b, a, time).side == AL
  }

  predicate IsAck(w: World, p: Packet, a: Int64, b: Int64, time: Int64) {
    p in w.net && p.Ack? && p.target == a && p.source == b && p.time == time
  }

  ghost predicate HasAck(w: World, a: Int64, b: Int64, time: Int64) {
    exists p :: IsAck(w, p, a, b, time)
  }

  lemma AckStep(w: World, act: Action, a: Int64, b: Int64, time: Int64)
    ensures HasAck(Step(w, act), a, b, time) <==> HasAck(w, a, b, time) || Delivers(w, act, a, b, time)
  {
    var w' := Step(w, act);
    if p :| IsAck(w, p, a, b, time) {
      assert IsAck(w', p, a, b, time);
    }
    if Delivers(w, act, a, b, time) {
      assert IsAck(w', Ack(a, b, time, act.now), a, b, time);
    }
    if p :| IsAck(w', p, a, b, time) && !IsAck(w, p, a, b, time) {
      assert Delivers(w, act, a, b, time);
    }
  }

  lemma CopyStepIff(w: World, act: Action, a: Int64, b: Int64, time: Int64)
    ensures HasCopy(Step(w, act), a, b, time) <==> HasCopy(w, a, b, time) || Accepts(w, act, a, b, time)
  {
    if Has(w, b, a, time) {
      StepKeepsRows(w, act, b, a, time);
    } else if Has(Step(w, act), b, a, time) {
      RowOrigin(w, act, b, a, time);
    }
  }

  lemma AcknowledgedStep(w: World, act: Action, a: Int64, b: Int64, time: Int64)
    requires Acknowledged(Step(w, act), a, b, time)
    ensures Acknowledged(w, a, b, time) || HasAck(w, a, b, time)
  {
    RowOrigin(w, act, a, b, time);
    if Has(w, a, b, time) {
      StepKeepsRows(w, act, a, b, time);
      if !Acknowledged(w, a, b, time) {
        assert IsAck(w, act.p, a, b, time);
      }
    }
  }

  lemma LastAction(friends: map<Int64, set<Int64>>, before: seq<Action>, act: Action, a: Int64, b: Int64, time: Int64)
    ensures var w, actions := Exec(Start(friends), before), before + [act];
            && (EverDelivered(friends, actions, a, b, time) <==>
                  EverDelivered(friends, before, a, b, time) || Delivers(w, act, a, b, time))
            && (EverAccepted(friends, actions, a, b, time) <==>
                  EverAccepted(friends, before, a, b, time) || Accepts(w, act, a, b, time))
  {
    hide Exec, Delivers, Accepts;
    var actions, k := before + [act], |before|;
    assert forall n :: 0 <= n <= k ==> actions[..n] == before[..n];
    assert before[..k] == before && actions[k] == act;
    assert forall n :: 0 <= n < k ==> actions[n] == before[n];
  }

  /** Acknowledgements are the traces of deliveries, and copies the traces of accepted ones. */
  lemma {:induction false} TracesOfRun(friends: map<Int64, set<Int64>>, actions: seq<Action>,
                                       a: Int64, b: Int64, time: Int64)
    ensures var w := Exec(Start(friends), actions);
            && (HasAck(w, a, b, time) <==> EverDelivered(friends, actions, a, b, time))
            && (HasCopy(w, a, b, time) <==> EverAccepted(friends, actions, a, b, time))
            && (Acknowledged(w, a, b, time) ==> EverDelivered(friends, actions, a, b, time))
  {
    if actions != [] {
      hide Step, Start, HasAck, HasCopy, EverDelivered, EverAccepted, Delivers, Accepts, Acknowledged;
      var before, act := actions[..|actions| - 1], actions[|actions| - 1];
      var w := Exec(Start(friends), before);
      TracesOfRun(friends, before, a, b, time);
      assert actions == before + [act];
      LastAction(friends, before, act, a, b, time);
      AckStep(w, act, a, b, time);
      CopyStepIff(w, act, a, b, time);
      if Acknowledged(Step(w, act), a, b, time) {
        AcknowledgedStep(w, act, a, b, time);
      }
    } else {
      NothingYet(friends, a, b, time);
    }
  }

  lemma NothingYet(friends: map<Int64, set<Int64>>, a: Int64, b: Int64, time: Int64)
    ensures var w := Exec(Start(friends), []);
            !HasAck(w, a, b, time) && !HasCopy(w, a, b, time) && !Acknowledged(w, a, b, time)
  {
  }

  lemma CopyIsDelivered(w: World, a: Int64, b: Int64, time: Int64)
    requires Inv(w) && Has(w, a, b, time)
    ensures Delivered(w, a, b, time) <==> HasCopy(w, a, b, time)
  {
    hide MsgInv, AckInv, SentInv, At, Has;
  }

  /** Every message b acknowledged to a, b has stored as a wrote it. */
  ghost predicate AcksDeliver(w: World, a: Int64, b: Int64) {
    forall p :: p in w.net && p.Ack? && p.target == a && p.source == b ==> Delivered(w, a, b, p.time)
  }

  /**
   After every run, b has stored all messages it acknowledged to a, as a wrote them, if and only if each
   message of a that was delivered to b at all was delivered to it once when it had a table for a without a
   row of its own at that time: the first time, or repeated after the table was made. Then the same goes for
   all rows a regards as acknowledged.
   */
  lemma {:induction false} AcknowledgedTextIff(friends: map<Int64, set<Int64>>, actions: seq<Action>,
                                               a: Int64, b: Int64)
    ensures var w := Exec(Start(friends), actions);
            && (AcksDeliver(w, a, b) <==>
                  forall time :: EverDelivered(friends, actions, a, b, time) ==>
                    EverAccepted(friends, actions, a, b, time))
            && (AcksDeliver(w, a, b) ==> forall time :: Acknowledged(w, a, b, time) ==> Delivered(w, a, b, time))
  {
    hide Exec, Start, At, Has, Delivered, Acknowledged, HasCopy, EverDelivered, EverAccepted, MsgInv, CopyInv, SentInv;
    var w := Exec(Start(friends), actions);
    EveryRun(friends, actions);
    forall time
      ensures HasAck(w, a, b, time) <==> EverDelivered(friends, actions, a, b, time)
      ensures HasCopy(w, a, b, time) <==> EverAccepted(friends, actions, a, b, time)
      ensures Acknowledged(w, a, b, time) ==> EverDelivered(friends, actions, a, b, time)
    {
      TracesOfRun(friends, actions, a, b, time);
    }
    forall time | Has(w, a, b, time)
      ensures Delivered(w, a, b, time) <==> HasCopy(w, a, b, time)
    {
      CopyIsDelivered(w, a, b, time);
    }
    AcksOfDelivered(w, a, b);
  }

  lemma AcksOfDelivered(w: World, a: Int64, b: Int64)
    requires Inv(w)
    requires forall time :: Has(w, a, b, time) ==> (Delivered(w, a, b, time) <==> HasCopy(w, a, b, time))
    ensures AcksDeliver(w, a, b) <==> forall time :: HasAck(w, a, b, time) ==> HasCopy(w, a, b, time)
    ensures AcksDeliver(w, a, b) ==>
              forall time :: Acknowledged(w, a, b, time) && HasAck(w, a, b, time) ==> Delivered(w, a, b, time)
  {
    hide MsgInv, CopyInv, SentInv, At, Has, Delivered, HasCopy;
    if AcksDeliver(w, a, b) {
      forall time | HasAck(w, a, b, time)
        ensures HasCopy(w, a, b, time) && Delivered(w, a, b, time)
      {
        var p :| IsAck(w, p, a, b, time);
        assert Has(w, a, b, p.time);
      }
    }
    if forall time :: HasAck(w, a, b, time) ==> HasCopy(w, a, b, time) {
      forall p | p in w.net && p.Ack? && p.target == a && p.source == b
        ensures Delivered(w, a, b, p.time)
      {
        assert IsAck(w, p, a, b, p.time);
        assert Has(w, a, b, p.time);
      }
    }
  }

  // ---- With a table from the start, only a clash of times is in the way ----

  /** InsertRow refuses a message of a, because b's table holds b's own row at its time. */
  predicate Clashes(w: World, act: Action, a: Int64, b: Int64) {
    && act.Deliver? && act.p in w.net && act.p.Msg? && act.p.source == a && act.p.target == b
    && Has(w, b, a, act.p.time) && At(w, b, a, act.p.time).side == AR
  }

  ghost predicate NoClash(friends: map<Int64, set<Int64>>, actions: seq<Action>, a: Int64, b: Int64) {
    forall n :: 0 <= n < |actions| ==> !Clashes(Exec(Start(friends), actions[..n]), actions[n], a, b)
  }

  lemma {:induction false} RunKeepsRows(friends: map<Int64, set<Int64>>, actions: seq<Action>, n: nat,
                                        x: Int64, y: Int64, time: Int64)
    requires n <= |actions| && Has(Exec(Start(friends), actions[..n]), x, y, time)
    ensures var v, w := Exec(Start(friends), actions[..n]), Exec(Start(friends), actions);
            Has(w, x, y, time) && At(w, x, y, time).side == At(v, x, y, time).side
  {
    hide Step, Has, At;
    if n == |actions| {
      assert actions[..n] == actions;
    } else {
      var before := actions[..|actions| - 1];
      assert before[..n] == actions[..n];
      RunKeepsRows(friends, before, n, x, y, time);
      StepKeepsRows(Exec(Start(friends), before), actions[|actions| - 1], x, y, time);
    }
  }

  /** With b's table for a there from the start: all acknowledged messages are stored iff none met b's own row. */
  lemma {:induction false} AcknowledgedUnlessClash(friends: map<Int64, set<Int64>>, actions: seq<Action>,
                                                   a: Int64, b: Int64)
    requires b in friends && a in friends[b]
    ensures AcksDeliver(Exec(Start(friends), actions), a, b) <==> NoClash(friends, actions, a, b)
  {
    hide Exec, Start, At, Has, AcksDeliver, HasCopy, Inv;
    AcknowledgedTextIff(friends, actions, a, b);
    if NoClash(friends, actions, a, b) {
      forall time | EverDelivered(friends, actions, a, b, time)
        ensures EverAccepted(friends, actions, a, b, time)
      {
        var n :| 0 <= n < |actions| && Delivers(Exec(Start(friends), actions[..n]), actions[n], a, b, time);
        EveryRunStores(friends, actions[..n], a, b);
        NoClashAccepts(Exec(Start(friends), actions[..n]), actions[n], a, b, time);
      }
    } else {
      var n :| 0 <= n < |actions| && Clashes(Exec(Start(friends), actions[..n]), actions[n], a, b);
      var time := actions[n].p.time;
      ClashIsNoCopy(friends, actions, n, a, b);
      TracesOfRun(friends, actions, a, b, time);
    }
  }

  lemma NoClashAccepts(w: World, act: Action, a: Int64, b: Int64, time: Int64)
    requires Delivers(w, act, a, b, time) && HasTable(w, b, a) && !Clashes(w, act, a, b)
    ensures Accepts(w, act, a, b, time)
  {
  }

  lemma ClashIsNoCopy(friends: map<Int64, set<Int64>>, actions: seq<Action>, n: nat, a: Int64, b: Int64)
    requires n < |actions| && Clashes(Exec(Start(friends), actions[..n]), actions[n], a, b)
    ensures var time := actions[n].p.time;
            && Delivers(Exec(Start(friends), actions[..n]), actions[n], a, b, time)
            && !HasCopy(Exec(Start(friends), actions), a, b, time)
  {
    hide Exec, Start;
    RunKeepsRows(friends, actions, n, b, a, actions[n].p.time);
  }

  /** Both sides send at the same time; one message arrives, and its acknowledgement comes back. */
  function ClashRun(m: Packet, reply: string): seq<Action>
    requires m.Msg?
  {
    [Send(m), Send(Msg(m.source, m.target, m.time, "Text", reply)), Deliver(m, 1),
     Deliver(Ack(m.source, m.target, m.time, 1), 1)]
  }

  lemma AcknowledgedButReplaced(friends: map<Int64, set<Int64>>, m: Packet, reply: string)
    requires m.Msg? && m.source != m.target
    requires m.source in friends && m.target in friends[m.source]
    requires m.target in friends && m.source in friends[m.target]
    ensures var w := Exec(Start(friends), ClashRun(m, reply));
            && Acknowledged(w, m.source, m.target, m.time) && !Delivered(w, m.source, m.target, m.time)
            && Has(w, m.target, m.source, m.time) && At(w, m.target, m.source, m.time).content == reply
  {
    var run, w0 := ClashRun(m, reply), Start(friends);
    RunOfFour(w0, run);
    var w2 := BothSent(w0, m, run[1].m);
    hide Exec, Start, Step, At, Has;
    BothDelivered(w2, m, run[1].m);
  }

  lemma BothSent(w: World, m: Packet, r: Packet) returns (w': World)
    requires m.Msg? && r.Msg? && r.source == m.target && r.target == m.source
    requires r.source != m.source && r.time == m.time
    requires HasTable(w, m.source, r.source) && m.time !in w.dbs[m.source][r.source]
    requires HasTable(w, r.source, m.source) && m.time !in w.dbs[r.source][m.source]
    ensures w' == Step(Step(w, Send(m)), Send(r)) && m in w'.net
    ensures Has(w', m.source, r.source, m.time) && At(w', m.source, r.source, m.time) == Sent(m)
    ensures Has(w', r.source, m.source, m.time) && At(w', r.source, m.source, m.time) == Sent(r)
  {
    w' := Step(w, Send(m));
    assert m in w'.net && At(w', m.source, r.source, m.time) == Sent(m);
    assert w'.dbs[r.source] == w.dbs[r.source];
    w' := Step(w', Send(r));
  }

  lemma BothDelivered(w: World, m: Packet, r: Packet)
    requires m.Msg? && r.Msg? && r.source == m.target && r.source != m.source && m in w.net
    requires Has(w, m.source, r.source, m.time) && At(w, m.source, r.source, m.time) == Sent(m)
    requires Has(w, r.source, m.source, m.time) && At(w, r.source, m.source, m.time) == Sent(r)
    ensures var w' := Step(Step(w, Deliver(m, 1)), Deliver(Ack(m.source, m.target, m.time, 1), 1));
            && Acknowledged(w', m.source, m.target, m.time) && !Delivered(w', m.source, m.target, m.time)
            && Has(w', m.target, m.source, m.time) && At(w', m.target, m.source, m.time).content == r.content
  {
    var w3 := Step(w, Deliver(m, 1));
    assert w3.dbs == w.dbs;
    assert Ack(m.source, m.target, m.time, 1) in w3.net;
  }

  lemma RunOfFour(w: World, run: seq<Action>)
    requires |run| == 4
    ensures Exec(w, run) == Step(Step(Step(Step(w, run[0]), run[1]), run[2]), run[3])
  {
    hide Step;
    assert run[..3][..2] == run[..2] && run[..2][..1] == run[..1] && run[..1][..0] == [];
    assert Exec(w, run[..1]) == Step(w, run[0]);
    assert Exec(w, run[..2]) == Step(Exec(w, run[..1]), run[1]);
    assert Exec(w, run[..3]) == Step(Exec(w, run[..2]), run[2]);
  }

  // ---- What the columns say after a run ----

  /** b reads the copy it has. */
  predicate Marks(w: World, act: Action, a: Int64, b: Int64, time: Int64) {
    act == MarkRead(b, a, time) && HasCopy(w, a, b, time)
  }

  ghost predicate EverMarked(friends: map<Int64, set<Int64>>, actions: seq<Action>, a: Int64, b: Int64, time: Int64) {
    exists n :: 0 <= n < |actions| && Marks(Exec(Start(friends), actions[..n]), actions[n], a, b, time)
  }

  lemma LastMark(friends: map<Int64, set<Int64>>, before: seq<Action>, act: Action, a: Int64, b: Int64, time: Int64)
    ensures EverMarked(friends, before + [act], a, b, time) <==>
            EverMarked(friends, before, a, b, time) || Marks(Exec(Start(friends), before), act, a, b, time)
  {
    hide Exec, Marks;
    var actions, k := before + [act], |before|;
    assert forall n :: 0 <= n <= k ==> actions[..n] == before[..n];
    assert before[..k] == before && actions[k] == act;
    assert forall n :: 0 <= n < k ==> actions[n] == before[n];
  }

  lemma FlagStep(w: World, act: Action, a: Int64, b: Int64, time: Int64)
    ensures HasCopy(w, a, b, time) ==>
              && HasCopy(Step(w, act), a, b, time)
              && (At(Step(w, act), b, a, time).nonRead <==>
                    At(w, b, a, time).nonRead && !Marks(w, act, a, b, time))
    ensures !HasCopy(w, a, b, time) && HasCopy(Step(w, act), a, b, time) ==> At(Step(w, act), b, a, time).nonRead
    ensures HasOwn(w, a, b, time) ==>
              HasOwn(Step(w, act), a, b, time) && (!At(w, a, b, time).nonRead ==> !At(Step(w, act), a, b, time).nonRead)
    ensures !HasOwn(w, a, b, time) && HasOwn(Step(w, act), a, b, time) ==> !At(Step(w, act), a, b, time).nonRead
  {
    FlagStepAt(w, act, b, a, time);
    FlagStepAt(w, act, a, b, time);
  }

  /** One row in one step. */
  lemma FlagStepAt(w: World, act: Action, x: Int64, y: Int64, time: Int64)
    ensures Has(w, x, y, time) ==>
              && Has(Step(w, act), x, y, time)
              && At(Step(w, act), x, y, time).side == At(w, x, y, time).side
              && (At(Step(w, act), x, y, time).nonRead <==>
                    At(w, x, y, time).nonRead && act != MarkRead(x, y, time))
    ensures !Has(w, x, y, time) && Has(Step(w, act), x, y, time) ==>
              (At(Step(w, act), x, y, time).nonRead <==> At(Step(w, act), x, y, time).side == AL)
  {
    if !Has(w, x, y, time) && Has(Step(w, act), x, y, time) {
      RowOrigin(w, act, x, y, time);
    }
  }

  predicate HasOwn(w: World, a: Int64, b: Int64, time: Int64) {
    Has(w, a, b, time) && At(w, a, b, time).side == AR
  }

  /** After every run, a received row is unread exactly until it was read, and a sent row never is. */
  lemma {:induction false} UnreadUntilMarked(friends: map<Int64, set<Int64>>, actions: seq<Action>,
                                             a: Int64, b: Int64, time: Int64)
    ensures var w := Exec(Start(friends), actions);
            && (EverMarked(friends, actions, a, b, time) ==> HasCopy(w, a, b, time))
            && (HasCopy(w, a, b, time) ==>
                  (At(w, b, a, time).nonRead <==> !EverMarked(friends, actions, a, b, time)))
            && (HasOwn(w, a, b, time) ==> !At(w, a, b, time).nonRead)
  {
    if actions != [] {
      hide Step, Has, At, EverMarked, Marks;
      var before, act := actions[..|actions| - 1], actions[|actions| - 1];
      UnreadUntilMarked(friends, before, a, b, time);
      assert actions == before + [act];
      LastMark(friends, before, act, a, b, time);
      FlagStep(Exec(Start(friends), before), act, a, b, time);
      assert Marks(Exec(Start(friends), before), act, a, b, time) ==> HasCopy(Exec(Start(friends), before), a, b, time)
      by {
        MarksCopy(Exec(Start(friends), before), act, a, b, time);
      }
    }
  }

  lemma MarksCopy(w: World, act: Action, a: Int64, b: Int64, time: Int64)
    ensures Marks(w, act, a, b, time) ==> HasCopy(w, a, b, time)
  {
  }

  /** The clock reading in the last acknowledgement of a's message that reached a; 0 before the first one. */
  ghost function LastReply(friends: map<Int64, set<Int64>>, actions: seq<Action>,
                           a: Int64, b: Int64, time: Int64): Int64
  {
    if actions == [] then 0
    else
      var before, act := actions[..|actions| - 1], actions[|actions| - 1];
      if Replies(Exec(Start(friends), before), act, a, b, time) then act.p.timeOk
      else LastReply(friends, before, a, b, time)
  }

  predicate Replies(w: World, act: Action, a: Int64, b: Int64, time: Int64) {
    act.Deliver? && IsAck(w, act.p, a, b, time)
  }

  /** After every run, feed_back of a sent row is what the last acknowledgement said. */
  lemma {:induction false} FeedBackIsLastReply(friends: map<Int64, set<Int64>>, actions: seq<Action>,
                                               a: Int64, b: Int64, time: Int64)
    ensures var w := Exec(Start(friends), actions);
            && (HasOwn(w, a, b, time) ==> At(w, a, b, time).feedBack == LastReply(friends, actions, a, b, time))
            && (!Has(w, a, b, time) ==> LastReply(friends, actions, a, b, time) == 0)
  {
    if actions != [] {
      hide Step, Has, At, Replies, Inv;
      var before, act := actions[..|actions| - 1], actions[|actions| - 1];
      FeedBackIsLastReply(friends, before, a, b, time);
      EveryRun(friends, before);
      FeedBackStep(Exec(Start(friends), before), act, a, b, time);
    }
  }

  lemma FeedBackStep(w: World, act: Action, a: Int64, b: Int64, time: Int64)
    requires Inv(w)
    ensures Replies(w, act, a, b, time) ==> HasOwn(w, a, b, time) && act.Deliver? && act.p.Ack?
    ensures Has(w, a, b, time) ==> Has(Step(w, act), a, b, time)
    ensures HasOwn(w, a, b, time) ==>
              At(Step(w, act), a, b, time).feedBack ==
              if Replies(w, act, a, b, time) then act.p.timeOk else At(w, a, b, time).feedBack
    ensures HasOwn(Step(w, act), a, b, time) && !HasOwn(w, a, b, time) ==>
              !Has(w, a, b, time) && At(Step(w, act), a, b, time).feedBack == 0
  {
    hide MsgInv, CopyInv, SentInv;
    if Has(Step(w, act), a, b, time) {
      RowOrigin(w, act, a, b, time);
    }
    if Has(w, a, b, time) {
      StepKeepsRows(w, act, a, b, time);
    }
  }

  /** b's clock when a message of a was delivered at some moment of the run. */
  ghost predicate EverRead(friends: map<Int64, set<Int64>>, actions: seq<Action>,
                           a: Int64, b: Int64, time: Int64, now: Int64)
  {
    exists n :: 0 <= n < |actions| &&
      Delivers(Exec(Start(friends), actions[..n]), actions[n], a, b, time) && actions[n].now == now
  }

  /** Every acknowledgement carries the receiver's clock of a delivery of its message. */
  lemma {:induction false} AckCarriesClock(friends: map<Int64, set<Int64>>, actions: seq<Action>, p: Packet)
    requires p in Exec(Start(friends), actions).net && p.Ack?
    ensures EverRead(friends, actions, p.target, p.source, p.time, p.timeOk)
  {
    if actions != [] {
      hide EverRead, Delivers, Exec;
      var before, act := actions[..|actions| - 1], actions[|actions| - 1];
      var w := Exec(Start(friends), before);
      assert actions == before + [act];
      LastRead(friends, before, act, p);
      if p in w.net {
        AckCarriesClock(friends, before, p);
      } else {
        AckOrigin(friends, before, act, p);
      }
    }
  }

  lemma AckOrigin(friends: map<Int64, set<Int64>>, before: seq<Action>, act: Action, p: Packet)
    requires p.Ack? && p in Exec(Start(friends), before + [act]).net && p !in Exec(Start(friends), before).net
    ensures act.Deliver? && act.now == p.timeOk
    ensures Delivers(Exec(Start(friends), before), act, p.target, p.source, p.time)
  {
    assert (before + [act])[..|before|] == before;
  }

  lemma LastRead(friends: map<Int64, set<Int64>>, before: seq<Action>, act: Action, p: Packet)
    requires p.Ack?
    ensures EverRead(friends, before, p.target, p.source, p.time, p.timeOk) ==>
              EverRead(friends, before + [act], p.target, p.source, p.time, p.timeOk)
    ensures Delivers(Exec(Start(friends), before), act, p.target, p.source, p.time) && act.now == p.timeOk ==>
              EverRead(friends, before + [act], p.target, p.source, p.time, p.timeOk)
  {
    hide Exec, Delivers;
    var actions, k := before + [act], |before|;
    assert forall n :: 0 <= n <= k ==> actions[..n] == before[..n];
    assert before[..k] == before && actions[k] == act;
    assert forall n :: 0 <= n < k ==> actions[n] == before[n];
  }

  // ---- The server's cache ----

  function Deliveries(ps: seq<Packet>, nows: seq<Int64>): (ds: seq<Action>)
    requires |nows| == |ps|
    ensures |ds| == |ps| && forall i :: 0 <= i < |ds| ==> ds[i] == Deliver(ps[i], nows[i])
  {
    seq(|ps|, i requires 0 <= i < |ps| => Deliver(ps[i], nows[i]))
  }

  /** Handling the cache is having its packets delivered one after the other. */
  lemma {:induction false} CacheIsDeliveries(w: World, ps: seq<Packet>, nows: seq<Int64>, account: Int64)
    requires |nows| == |ps| && account in w.dbs
    requires forall i :: 0 <= i < |ps| ==> ps[i] in w.net && ps[i].target == account
    ensures var w' := Exec(w, Deliveries(ps, nows));
            && w'.dbs == w.dbs[account := HandleAll(w.dbs[account], ps)]
            && w'.net == w.net + set p | p in Acks(ps, nows)
  {
    if ps == [] {
      assert w.dbs[account := w.dbs[account]] == w.dbs;
    } else {
      var n := |ps| - 1;
      hide Step, Handle;
      CacheIsDeliveries(w, ps[..n], nows[..n], account);
      assert Deliveries(ps, nows)[..n] == Deliveries(ps[..n], nows[..n]);
      assert Deliveries(ps, nows)[n] == Deliver(ps[n], nows[n]);
      assert ps[n] in w.net && ps[n].target == account;
      DeliverStep(Exec(w, Deliveries(ps[..n], nows[..n])), ps[n], nows[n]);
    }
  }

  lemma DeliverStep(w: World, p: Packet, now: Int64)
    requires p in w.net && p.target in w.dbs
    ensures Step(w, Deliver(p, now)) ==
            World(w.dbs[p.target := Handle(w.dbs[p.target], p)],
                  w.net + if p.Msg? then {Ack(p.source, p.target, p.time, now)} else {})
  {
    assert w.net + {} == w.net;
  }

  /** Exactly the messages are announced, in order, and each gets one acknowledgement. */
  lemma {:induction false} AcksAnswerMessages(ps: seq<Packet>, nows: seq<Int64>)
    requires |nows| == |ps|
    ensures |Acks(ps, nows)| == |Messages(ps)|
    ensures forall i :: 0 <= i < |Messages(ps)| ==>
              var m, a := Messages(ps)[i], Acks(ps, nows)[i];
              m.Msg? && a.Ack? && a.target == m.source && a.source == m.target && a.time == m.time
    ensures forall m :: m in Messages(ps) <==> m in ps && m.Msg?
  {
    if ps != [] {
      var n := |ps| - 1;
      AcksAnswerMessages(ps[..n], nows[..n]);
      assert ps == ps[..n] + [ps[n]];
    }
  }

  // ---- A table made late ----

  /** The message comes before the login that makes the table, and once more after it. */
  function RepeatedRun(m: Packet): seq<Action>
    requires m.Msg?
  {
    [Send(m), Deliver(m, 1), Login(m.target, m.source), Deliver(m, 2)]
  }

  lemma StoredAfterLogin(friends: map<Int64, set<Int64>>, m: Packet)
    requires m.Msg? && m.source in friends && m.target in friends[m.source] && m.target in friends
    requires m.source !in friends[m.target] && m.source != m.target
    ensures var w := Exec(Start(friends), RepeatedRun(m));
            HasCopy(w, m.source, m.target, m.time) && At(w, m.target, m.source, m.time) == Received(m)
  {
    var run, w0 := RepeatedRun(m), Start(friends);
    RunOfFour(w0, run);
    var w1 := Step(w0, run[0]);
    assert m in w1.net && !HasTable(w1, m.target, m.source) && m.target in w1.dbs;
    var w2 := Step(w1, run[1]);
    assert m in w2.net && w2.dbs == w1.dbs by { assert w1.dbs[m.target := w1.dbs[m.target]] == w1.dbs; }
    var w3 := Step(w2, run[2]);
    assert m in w3.net && HasTable(w3, m.target, m.source) && w3.dbs[m.target][m.source] == NO_ROWS;
  }
}
