/**
 The chat windows of one client: which rows are shown and which are still unread. The network thread
 stores arriving messages at any moment, also between the select of the unread rows and the marking of
 each of them; the user interface thread does one thing at a time.
 */
module ChatWindow {
  import opened Bytes
  import opened History

  /**
   `Reading`: rows of `friend` were selected; those in `read` were pushed to vec_msg and marked, those in
   `todo` are still to come. The window gets vec_msg when the loop is done.
   */
  datatype Ui = Idle | Reading(friend: Int64, todo: seq<Int64>, read: seq<Int64>)

  /** `chats` holds the keys of the messages shown in each friend's window, once it has been made. */
  datatype Session = Session(db: Db, chats: map<Int64, seq<Int64>>, showing: Option<Int64>, ui: Ui)

  /** The rows of a friend's table; a friend without one has none. */
  function Rows(db: Db, friend: Int64): Table {
    if friend in db then db[friend] else NO_ROWS
  }

  datatype Action =
    | Login(friend: Int64)
    | Arrive(friend: Int64, time: Int64, row: Row)
    | Notice(friend: Int64, order: seq<Int64>)
    | Click(friend: Int64, order: seq<Int64>)
    | ReadRow
    | ReadDone
    | SendText(friend: Int64, time: Int64, row: Row)

  /** `order` is the result of the select; an arriving row is unread, a sent one is not. */
  ghost predicate Enabled(s: Session, a: Action) {
    match a
    case Login(_) => true
    case Arrive(friend, time, row) => row.nonRead
    case Notice(friend, order) => s.ui.Idle? && Lists(order, Unread(Rows(s.db, friend)))
    case Click(friend, order) => s.ui.Idle? && Lists(order, Rows(s.db, friend).Keys)
    case ReadRow => s.ui.Reading? && s.ui.todo != []
    case ReadDone => s.ui.Reading? && s.ui.todo == []
    case SendText(friend, time, row) => s.ui.Idle? && friend in s.chats && !row.nonRead
  }

  ghost function Effect(s: Session, a: Action): Session
    requires Enabled(s, a)
  {
    match a
    // create_history for each friend of the login reply
    case Login(friend) => s.(db := CreateTable(s.db, friend))
    // insert_history; the announcement reaches the window later, as a Notice
    case Arrive(friend, time, row) => s.(db := InsertRow(s.db, friend, time, row))
    // add_recv_msg: only the window being shown reads its unread rows
    case Notice(friend, order) =>
      if friend in s.chats && s.showing == Some(friend) then s.(ui := Reading(friend, order, [])) else s
    // make_chat reads the whole history, once; update_show_friend only switches
    case Click(friend, order) =>
      if friend in s.chats then s.(showing := Some(friend))
      else s.(chats := s.chats[friend := []], showing := Some(friend), ui := Reading(friend, order, []))
    case ReadRow =>
      s.(db := SetNonRead(s.db, s.ui.friend, s.ui.todo[0], false),
         ui := Reading(s.ui.friend, s.ui.todo[1..], s.ui.read + [s.ui.todo[0]]))
    case ReadDone =>
      if s.ui.friend in s.chats then
        s.(chats := s.chats[s.ui.friend := s.chats[s.ui.friend] + s.ui.read], ui := Idle)
      else s.(ui := Idle)
    // wid_chat shows the message, then ask_swap_msg inserts it
    case SendText(friend, time, row) =>
      s.(chats := s.chats[friend := s.chats[friend] + [time]], db := InsertRow(s.db, friend, time, row))
  }

  ghost function Step(s: Session, a: Action): Session {
    if Enabled(s, a) then Effect(s, a) else s
  }

  ghost function Exec(s: Session, actions: seq<Action>): Session {
    if actions == [] then s else Step(Exec(s, actions[..|actions| - 1]), actions[|actions| - 1])
  }

  /** A client that has logged in: any stored rows, no window yet. */
  ghost function Fresh(db: Db): Session {
    Session(db, map[], None, Idle)
  }

  // ---- The invariant ----

  function Todo(s: Session, friend: Int64): seq<Int64> {
    if s.ui.Reading? && s.ui.friend == friend then s.ui.todo else []
  }

  function OnTheWay(s: Session, friend: Int64): seq<Int64> {
    if s.ui.Reading? && s.ui.friend == friend then s.ui.read else []
  }

  /** Shown, or about to be shown when the current reading is done. */
  function Shown(s: Session, friend: Int64): seq<Int64>
    requires friend in s.chats
  {
    s.chats[friend] + OnTheWay(s, friend)
  }

  /** Between the shown rows, the rows being read and the unread rows, none is lost and none is double. */
  ghost predicate Good(s: Session, friend: Int64)
    requires friend in s.chats
  {
    var rows := Rows(s.db, friend);
    && Distinct(Shown(s, friend)) && Distinct(Todo(s, friend))
    && (forall t :: t in Shown(s, friend) ==> t in rows && !rows[t].nonRead && t !in Todo(s, friend))
    && (forall t :: t in Todo(s, friend) ==> t in rows)
    && (forall t :: t in rows ==> t in Shown(s, friend) || t in Todo(s, friend) || rows[t].nonRead)
  }

  ghost predicate Inv(s: Session) {
    && (forall f :: f in s.chats ==> Good(s, f))
    && (s.ui.Reading? ==> s.ui.friend in s.chats)
  }

  /** A message being sent will be inserted: its friend has a table, and the table no row at its time. */
  predicate FreshSend(s: Session, a: Action) {
    a.SendText? ==> a.friend in s.db && a.time !in s.db[a.friend]
  }

  lemma ArriveGood(s: Session, a: Action, f: Int64)
    requires Inv(s) && Enabled(s, a) && (a.Login? || a.Arrive?) && f in s.chats
    ensures Good(Effect(s, a), f)
  {
    var s' := Effect(s, a);
    assert Good(s, f);
    assert Shown(s', f) == Shown(s, f) && Todo(s', f) == Todo(s, f);
  }

  lemma SelectGood(s: Session, a: Action, f: Int64)
    requires Inv(s) && Enabled(s, a) && (a.Notice? || a.Click?) && f in Effect(s, a).chats
    ensures Good(Effect(s, a), f)
  {
    var s' := Effect(s, a);
    if f in s.chats {
      assert Good(s, f);
      assert s.chats[f] + [] == s.chats[f];
      assert Shown(s', f) == Shown(s, f);
    }
  }

  lemma ReadRowGood(s: Session, a: Action, f: Int64)
    requires Inv(s) && Enabled(s, a) && a.ReadRow? && f in s.chats
    ensures Good(Effect(s, a), f)
  {
    hide CreateTable, InsertRow, Lists;
    var s' := Effect(s, a);
    assert Good(s, f);
    if s.ui.friend == f {
      var t := s.ui.todo[0];
      assert Shown(s', f) == Shown(s, f) + [t];
      assert s.ui.todo == [t] + Todo(s', f);
      assert t in Todo(s, f);
    } else {
      assert Shown(s', f) == Shown(s, f);
    }
  }

  lemma ReadDoneGood(s: Session, a: Action, f: Int64)
    requires Inv(s) && Enabled(s, a) && a.ReadDone? && f in s.chats
    ensures Good(Effect(s, a), f)
  {
    var s' := Effect(s, a);
    assert Good(s, f);
    assert Shown(s', f) == Shown(s, f);
  }

  lemma SendGood(s: Session, a: Action, f: Int64)
    requires Inv(s) && Enabled(s, a) && a.SendText? && f in s.chats
    ensures f != a.friend ==> Good(Effect(s, a), f)
    ensures f == a.friend ==> (Good(Effect(s, a), f) <==> FreshSend(s, a))
  {
    var s' := Effect(s, a);
    assert Good(s, f);
    if f == a.friend {
      assert Shown(s', f) == Shown(s, f) + [a.time];
      if a.time in Shown(s, f) {
        var i :| 0 <= i < |Shown(s, f)| && Shown(s, f)[i] == a.time;
        assert Shown(s', f)[i] == Shown(s', f)[|Shown(s, f)|];
      }
    } else {
      assert Shown(s', f) == Shown(s, f);
    }
  }

  /** A step keeps the invariant exactly when a message it sends can be inserted. */
  lemma StepInvIff(s: Session, a: Action)
    requires Inv(s) && Enabled(s, a)
    ensures Inv(Effect(s, a)) <==> FreshSend(s, a)
  {
    hide Good, FreshSend;
    var s' := Effect(s, a);
    forall f | f in s'.chats && !(a.SendText? && f == a.friend)
      ensures Good(s', f)
    {
      match a
      case Login(_) => ArriveGood(s, a, f);
      case Arrive(_, _, _) => ArriveGood(s, a, f);
      case Notice(_, _) => SelectGood(s, a, f);
      case Click(_, _) => SelectGood(s, a, f);
      case ReadRow => ReadRowGood(s, a, f);
      case ReadDone => ReadDoneGood(s, a, f);
      case SendText(_, _, _) => SendGood(s, a, f);
    }
    if a.SendText? {
      SendGood(s, a, a.friend);
    } else {
      assert FreshSend(s, a) by { NoSendIsFresh(s, a); }
    }
  }

  lemma NoSendIsFresh(s: Session, a: Action)
    requires !a.SendText?
    ensures FreshSend(s, a)
  {
  }

  /** Every message sent in the run can be inserted into its friend's table. */
  ghost predicate FreshSends(db: Db, actions: seq<Action>) {
    forall n :: 0 <= n < |actions| && Enabled(Exec(Fresh(db), actions[..n]), actions[n]) ==>
      FreshSend(Exec(Fresh(db), actions[..n]), actions[n])
  }

  lemma ExecPrefix(s: Session, actions: seq<Action>, n: nat)
    requires n < |actions|
    ensures Exec(s, actions[..n + 1]) == Step(Exec(s, actions[..n]), actions[n])
  {
    assert actions[..n + 1][..n] == actions[..n];
  }

  lemma {:induction false} InvUpTo(db: Db, actions: seq<Action>, n: nat)
    requires n <= |actions| && FreshSends(db, actions)
    ensures Inv(Exec(Fresh(db), actions[..n]))
  {
    if n == 0 {
      assert Exec(Fresh(db), actions[..0]) == Fresh(db);
    } else {
      hide Inv, Enabled, Effect, FreshSend;
      InvUpTo(db, actions, n - 1);
      ExecPrefix(Fresh(db), actions, n - 1);
      var s := Exec(Fresh(db), actions[..n - 1]);
      if Enabled(s, actions[n - 1]) {
        assert FreshSend(Exec(Fresh(db), actions[..n - 1]), actions[n - 1]);
        StepInvIff(s, actions[n - 1]);
      }
    }
  }

  // ---- The laws ----

  /** While nothing is being read: the shown messages and the unread rows split the table. */
  ghost predicate Split(s: Session, friend: Int64)
    requires friend in s.chats
  {
    && Distinct(s.chats[friend])
    && (forall t :: t in s.chats[friend] ==> t !in Unread(Rows(s.db, friend)))
    && (forall t :: t in s.chats[friend] || t in Unread(Rows(s.db, friend)) <==> t in Rows(s.db, friend))
  }

  /**
   In every run of logins, arrivals (duplicates included), notices, clicks, sends and readings, under every
   interleaving of the network thread, a window once made shows each row at most once, and whenever the
   reader is idle the shown messages and the unread rows are disjoint and together are all rows.
   */
  lemma {:induction false} ShownAndUnreadSplit(db: Db, actions: seq<Action>, friend: Int64)
    requires FreshSends(db, actions)
    requires friend in Exec(Fresh(db), actions).chats
    ensures var s := Exec(Fresh(db), actions);
            && Distinct(s.chats[friend])
            && (s.ui.Idle? ==> Split(s, friend))
  {
    hide Exec, FreshSends;
    InvUpTo(db, actions, |actions|);
    assert actions[..|actions|] == actions;
    var s := Exec(Fresh(db), actions);
    assert Good(s, friend);
    var shown := s.chats[friend];
    forall i, j | 0 <= i < j < |shown|
      ensures shown[i] != shown[j]
    {
      assert Shown(s, friend)[i] == shown[i] && Shown(s, friend)[j] == shown[j];
    }
    if s.ui.Idle? {
      assert Shown(s, friend) == shown;
    }
  }

  /** Every window that has been made, at a moment when nothing is being read. */
  ghost predicate AllSplit(s: Session) {
    s.ui.Idle? ==> forall f :: f in s.chats ==> Split(s, f)
  }

  lemma SplitIsGood(s: Session, friend: Int64)
    requires friend in s.chats && s.ui.Idle? && Split(s, friend)
    ensures Good(s, friend)
  {
    assert Shown(s, friend) == s.chats[friend];
  }

  /** The first enabled send whose row cannot be inserted. */
  lemma FirstStaleSend(db: Db, actions: seq<Action>) returns (n: nat)
    requires !FreshSends(db, actions)
    ensures n < |actions| && FreshSends(db, actions[..n])
    ensures var s := Exec(Fresh(db), actions[..n]); Enabled(s, actions[n]) && !FreshSend(s, actions[n])
  {
    hide Enabled, FreshSend, Exec;
    n := 0;
    while n < |actions| &&
          (Enabled(Exec(Fresh(db), actions[..n]), actions[n]) ==> FreshSend(Exec(Fresh(db), actions[..n]), actions[n]))
      invariant n <= |actions|
      invariant forall k :: 0 <= k < n && Enabled(Exec(Fresh(db), actions[..k]), actions[k]) ==>
                  FreshSend(Exec(Fresh(db), actions[..k]), actions[k])
      decreases |actions| - n
    {
      n := n + 1;
    }
    assert forall k :: 0 <= k < n ==> actions[..n][..k] == actions[..k];
  }

  /**
   Shown messages and unread rows split every table, at every idle moment of a run, if and only if no
   message is sent to a friend without a table or at a time the table already has: such a message is
   shown, but its insert fails.
   */
  lemma SplitThroughoutIff(db: Db, actions: seq<Action>)
    ensures (forall n :: 0 <= n <= |actions| ==> AllSplit(Exec(Fresh(db), actions[..n]))) <==> FreshSends(db, actions)
  {
    hide Enabled, Effect, Exec, Good, Split, FreshSends;
    if FreshSends(db, actions) {
      forall n | 0 <= n <= |actions|
        ensures AllSplit(Exec(Fresh(db), actions[..n]))
      {
        PrefixFresh(db, actions, n);
        forall f | f in Exec(Fresh(db), actions[..n]).chats && Exec(Fresh(db), actions[..n]).ui.Idle?
          ensures Split(Exec(Fresh(db), actions[..n]), f)
        {
          ShownAndUnreadSplit(db, actions[..n], f);
        }
      }
    } else {
      var n := FirstStaleSend(db, actions);
      InvUpTo(db, actions[..n], n);
      assert actions[..n][..n] == actions[..n];
      ExecPrefix(Fresh(db), actions, n);
      StaleSendBreaks(Exec(Fresh(db), actions[..n]), actions[n]);
      assert !AllSplit(Exec(Fresh(db), actions[..n + 1]));
    }
  }

  lemma PrefixFresh(db: Db, actions: seq<Action>, n: nat)
    requires n <= |actions| && FreshSends(db, actions)
    ensures FreshSends(db, actions[..n])
  {
    hide Enabled, Exec, FreshSend;
    assert forall k :: 0 <= k < n ==> actions[..n][..k] == actions[..k];
  }

  lemma StaleSendBreaks(s: Session, a: Action)
    requires Inv(s) && Enabled(s, a) && !FreshSend(s, a)
    ensures !AllSplit(Effect(s, a))
  {
    hide Good, Split;
    SendGood(s, a, a.friend);
    if Split(Effect(s, a), a.friend) {
      SplitIsGood(Effect(s, a), a.friend);
      assert false;
    }
  }

  /** Writing to a friend without a table: the message is on the screen, and in no table. */
  function UnstoredRun(friend: Int64, time: Int64, row: Row): seq<Action> {
    [Click(friend, []), ReadDone, SendText(friend, time, row)]
  }

  lemma UnstoredIsShown(friend: Int64, time: Int64, row: Row)
    requires !row.nonRead
    ensures var s := Exec(Fresh(map[]), UnstoredRun(friend, time, row));
            && s.ui.Idle? && friend in s.chats && s.chats[friend] == [time] && !Split(s, friend)
    ensures !FreshSends(map[], UnstoredRun(friend, time, row))
  {
    hide Enabled, Effect, Step;
    var run, s0 := UnstoredRun(friend, time, row), Fresh(map[]);
    ExecPrefix(s0, run, 0);
    ExecPrefix(s0, run, 1);
    ExecPrefix(s0, run, 2);
    assert run[..0] == [] && run[..3] == run;
    OpenEmpty(s0, friend);
    var s2 := s0.(chats := map[friend := []], showing := Some(friend));
    assert s0.chats[friend := []] == s2.chats;
    assert Exec(s0, run[..2]) == s2;
    SendUnstored(s2, friend, time, row);
    var s := Exec(s0, run);
    assert time in s.chats[friend] && time !in Rows(s.db, friend);
    assert !FreshSend(Exec(s0, run[..2]), run[2]);
  }

  lemma SendUnstored(s: Session, friend: Int64, time: Int64, row: Row)
    requires s.ui.Idle? && friend in s.chats && s.chats[friend] == [] && friend !in s.db && !row.nonRead
    ensures var a := SendText(friend, time, row);
            && Enabled(s, a) && !FreshSend(s, a)
            && Step(s, a) == s.(chats := s.chats[friend := [time]])
  {
    assert s.chats[friend] + [time] == [time];
  }

  // ---- What a click leaves out ----

  /** The friend's unread rows that are neither shown nor about to be. */
  ghost predicate AllUnreadComes(s: Session, s': Session, friend: Int64)
    requires friend in s'.chats
  {
    forall t :: t in Unread(Rows(s.db, friend)) ==> t in Shown(s', friend) || t in Todo(s', friend)
  }

  /**
   A click brings the friend's unread rows to the window exactly when it makes the window, or there are
   none: switching back to a window reads nothing.
   */
  lemma ClickShowsUnreadIff(s: Session, friend: Int64, order: seq<Int64>)
    requires Inv(s) && Enabled(s, Click(friend, order))
    ensures friend in Effect(s, Click(friend, order)).chats
    ensures AllUnreadComes(s, Effect(s, Click(friend, order)), friend)
            <==> friend !in s.chats || Unread(Rows(s.db, friend)) == {}
  {
    var s' := Effect(s, Click(friend, order));
    if friend in s.chats {
      assert Good(s, friend);
      assert Shown(s', friend) == Shown(s, friend);
      if t :| t in Unread(Rows(s.db, friend)) {
        assert t !in Shown(s', friend) && t !in Todo(s', friend);
      }
    }
  }

  /** A notice does so exactly when the window is the one on the screen, or there are no unread rows. */
  lemma NoticeShowsUnreadIff(s: Session, friend: Int64, order: seq<Int64>)
    requires Inv(s) && Enabled(s, Notice(friend, order)) && friend in s.chats
    ensures friend in Effect(s, Notice(friend, order)).chats
    ensures AllUnreadComes(s, Effect(s, Notice(friend, order)), friend)
            <==> s.showing == Some(friend) || Unread(Rows(s.db, friend)) == {}
  {
    var s' := Effect(s, Notice(friend, order));
    assert Good(s, friend);
    assert Shown(s, friend) == s.chats[friend];
    if s.showing != Some(friend) {
      assert Shown(s', friend) == s.chats[friend] && Todo(s', friend) == [];
    }
  }

  // ---- A reading shows all it has selected ----

  /** Where a reading stands that selected `order` for a window that showed `base`. */
  ghost predicate OnIt(s: Session, friend: Int64, order: seq<Int64>, base: seq<Int64>) {
    && s.ui.Reading? && s.ui.friend == friend && s.ui.read + s.ui.todo == order
    && friend in s.chats && s.chats[friend] == base
    && (forall t :: t in order ==> t in Rows(s.db, friend))
    && (forall t :: t in s.ui.read ==> !Rows(s.db, friend)[t].nonRead)
  }

  ghost predicate ReadOut(s: Session, friend: Int64, order: seq<Int64>, base: seq<Int64>) {
    && s.ui.Idle? && friend in s.chats && s.chats[friend] == base + order
    && (forall t :: t in order ==> t in Rows(s.db, friend) && !Rows(s.db, friend)[t].nonRead)
  }

  lemma OnItStep(s: Session, a: Action, friend: Int64, order: seq<Int64>, base: seq<Int64>)
    requires OnIt(s, friend, order, base)
    ensures var s' := Step(s, a);
            if s'.ui.Reading? then OnIt(s', friend, order, base) else ReadOut(s', friend, order, base)
    ensures forall t :: t in Rows(s.db, friend) ==> t in Rows(Step(s, a).db, friend)
    ensures forall t :: t in Rows(s.db, friend) && !Rows(s.db, friend)[t].nonRead ==>
              !Rows(Step(s, a).db, friend)[t].nonRead
  {
    hide Lists;
    if Enabled(s, a) {
      if a.ReadRow? {
        assert s.ui.todo == [s.ui.todo[0]] + s.ui.todo[1..];
        assert (s.ui.read + [s.ui.todo[0]]) + s.ui.todo[1..] == order;
        assert s.ui.todo[0] in s.ui.read + s.ui.todo;
      } else if a.ReadDone? {
        assert s.ui.read == order;
      }
    }
  }

  /**
   Whatever the network thread does meanwhile: when a reading is done, its window shows all rows it had
   selected behind those shown before, and they are not unread any more.
   */
  lemma {:induction false} ReadingShowsAll(s: Session, actions: seq<Action>, friend: Int64,
                                           order: seq<Int64>, base: seq<Int64>)
    requires s.ui.Reading? && OnIt(s, friend, order, base)
    requires forall n :: 0 <= n < |actions| ==> Exec(s, actions[..n]).ui.Reading?
    ensures var s' := Exec(s, actions);
            if s'.ui.Reading? then OnIt(s', friend, order, base) else ReadOut(s', friend, order, base)
    ensures forall t :: t in Rows(s.db, friend) ==> t in Rows(Exec(s, actions).db, friend)
    ensures forall t :: t in Rows(s.db, friend) && !Rows(s.db, friend)[t].nonRead ==>
              !Rows(Exec(s, actions).db, friend)[t].nonRead
  {
    hide OnIt, ReadOut, Step, Rows;
    if actions != [] {
      var before := actions[..|actions| - 1];
      assert forall n :: 0 <= n <= |before| ==> before[..n] == actions[..n];
      ReadingShowsAll(s, before, friend, order, base);
      OnItStep(Exec(s, before), actions[|actions| - 1], friend, order, base);
    }
  }

  /** A reading that is not disturbed comes to its end. */
  lemma {:induction false} ReadingEnds(s: Session, k: nat)
    requires s.ui.Reading? && k <= |s.ui.todo|
    ensures var s' := Exec(s, seq(k, _ => ReadRow));
            s'.ui.Reading? && s'.ui.todo == s.ui.todo[k..] && s'.ui.friend == s.ui.friend
    ensures k == |s.ui.todo| ==> Exec(s, seq(k, _ => ReadRow) + [ReadDone]).ui.Idle?
  {
    var rows := seq(k, _ => ReadRow);
    if k > 0 {
      ReadingEnds(s, k - 1);
      assert rows[..k - 1] == seq(k - 1, _ => ReadRow);
      assert s.ui.todo[k - 1..][1..] == s.ui.todo[k..];
    }
    assert (rows + [ReadDone])[..k] == rows;
  }

  /**
   A message that arrives for the window on the screen is shown: once its notice has been handled, the
   window shows every row its friend's table had at that time, and none of them is unread.
   */
  lemma NoticeIsShown(s: Session, friend: Int64, order: seq<Int64>, actions: seq<Action>)
    requires Inv(s) && Enabled(s, Notice(friend, order)) && friend in s.chats && s.showing == Some(friend)
    requires var s1 := Effect(s, Notice(friend, order));
             (forall n :: 0 <= n < |actions| ==> Exec(s1, actions[..n]).ui.Reading?) && Exec(s1, actions).ui.Idle?
    ensures var s' := Exec(Effect(s, Notice(friend, order)), actions);
            && friend in s'.chats && s'.chats[friend] == s.chats[friend] + order
            && (forall t :: t in Rows(s.db, friend) ==>
                  t in s'.chats[friend] && t in Rows(s'.db, friend) && !Rows(s'.db, friend)[t].nonRead)
  {
    hide Exec, Enabled, Effect, Inv;
    NoticeStarts(s, friend, order);
    ReadingShowsAll(Effect(s, Notice(friend, order)), actions, friend, order, s.chats[friend]);
  }

  lemma NoticeStarts(s: Session, friend: Int64, order: seq<Int64>)
    requires Inv(s) && Enabled(s, Notice(friend, order)) && friend in s.chats && s.showing == Some(friend)
    ensures OnIt(Effect(s, Notice(friend, order)), friend, order, s.chats[friend])
    ensures Effect(s, Notice(friend, order)).db == s.db
    ensures forall t :: t in Rows(s.db, friend) ==>
              t in order || (t in s.chats[friend] && !Rows(s.db, friend)[t].nonRead)
  {
    assert Good(s, friend);
    assert Shown(s, friend) == s.chats[friend];
    assert [] + order == order;
  }

  /** The first click on a friend shows the whole history. */
  lemma ClickIsShown(s: Session, friend: Int64, order: seq<Int64>, actions: seq<Action>)
    requires Inv(s) && Enabled(s, Click(friend, order)) && friend !in s.chats
    requires var s1 := Effect(s, Click(friend, order));
             (forall n :: 0 <= n < |actions| ==> Exec(s1, actions[..n]).ui.Reading?) && Exec(s1, actions).ui.Idle?
    ensures var s' := Exec(Effect(s, Click(friend, order)), actions);
            && friend in s'.chats && s'.chats[friend] == order
            && (forall t :: t in Rows(s.db, friend) ==>
                  t in s'.chats[friend] && t in Rows(s'.db, friend) && !Rows(s'.db, friend)[t].nonRead)
  {
    var s1 := Effect(s, Click(friend, order));
    assert [] + order == order;
    assert OnIt(s1, friend, order, []);
    ReadingShowsAll(s1, actions, friend, order, []);
    assert ReadOut(Exec(s1, actions), friend, order, []);
  }

  /** After a click the friend's window is the one on the screen; only clicks change which one it is. */
  lemma ShowingIsLastClicked(s: Session, a: Action)
    requires Enabled(s, a)
    ensures Effect(s, a).showing == if a.Click? then Some(a.friend) else s.showing
    ensures a.Click? ==> a.friend in Effect(s, a).chats
  {
  }

  /** After a login with a friend, messages to it can be inserted at any time that is still free. */
  lemma LoginMakesTable(s: Session, friend: Int64, time: Int64, row: Row)
    ensures FreshSend(Effect(s, Login(friend)), SendText(friend, time, row)) <==> time !in Rows(s.db, friend)
  {
  }

  /** Look at a friend, look at another one, and come back: the message of the meantime. */
  function AwayAndBack(friend: Int64, other: Int64, time: Int64, row: Row): seq<Action> {
    [Click(friend, []), ReadDone, Click(other, []), ReadDone, Arrive(friend, time, row), Notice(friend, [time]),
     Click(friend, [time])]
  }

  /** It is in the table and unread; the window is the one on the screen and does not show it. */
  lemma UnreadStaysHidden(friend: Int64, other: Int64, time: Int64, row: Row)
    requires friend != other && row.nonRead
    ensures var s := Exec(Fresh(map[friend := NO_ROWS]), AwayAndBack(friend, other, time, row));
            && s.ui.Idle? && s.showing == Some(friend) && friend in s.chats && time !in s.chats[friend]
            && time in Unread(Rows(s.db, friend))
  {
    hide Enabled, Effect, Step, InsertRow, Unread;
    var run, s0 := AwayAndBack(friend, other, time, row), Fresh(map[friend := NO_ROWS]);
    forall n | 0 <= n < 7
      ensures Exec(s0, run[..n + 1]) == Step(Exec(s0, run[..n]), run[n])
    {
      ExecPrefix(s0, run, n);
    }
    assert run[..0] == [] && run[..7] == run;
    OpenEmpty(s0, friend);
    assert s0.chats[friend := []] == map[friend := []];
    var s2 := s0.(chats := map[friend := []], showing := Some(friend));
    OpenEmpty(s2, other);
    var s4 := s2.(chats := map[friend := [], other := []], showing := Some(other));
    assert s2.chats[other := []] == s4.chats;
    assert Exec(s0, run[..2]) == s2;
    assert Exec(s0, run[..4]) == s4;
    BackAgain(s4, friend, time, row);
  }

  /** Opening the window of a friend without rows. */
  lemma OpenEmpty(s: Session, friend: Int64)
    requires s.ui.Idle? && friend !in s.chats && Rows(s.db, friend) == NO_ROWS
    ensures Step(Step(s, Click(friend, [])), ReadDone) ==
            s.(chats := s.chats[friend := []], showing := Some(friend))
  {
    var s' := s.(chats := s.chats[friend := []], showing := Some(friend), ui := Reading(friend, [], []));
    assert Enabled(s, Click(friend, []));
    assert Step(s, Click(friend, [])) == s';
    assert Enabled(s', ReadDone);
    assert s'.chats[friend] + [] == s'.chats[friend];
    assert s'.chats[friend := s'.chats[friend]] == s'.chats;
  }

  /** A message comes while another window is shown; then its window is shown again. */
  lemma BackAgain(s: Session, friend: Int64, time: Int64, row: Row)
    requires s.ui.Idle? && friend in s.chats && s.showing != Some(friend) && row.nonRead
    requires friend in s.db && s.db[friend] == NO_ROWS
    ensures Step(Step(Step(s, Arrive(friend, time, row)), Notice(friend, [time])), Click(friend, [time])) ==
            s.(db := InsertRow(s.db, friend, time, row), showing := Some(friend))
    ensures time in Unread(Rows(InsertRow(s.db, friend, time, row), friend))
  {
    var s5 := Step(s, Arrive(friend, time, row));
    assert s5 == s.(db := InsertRow(s.db, friend, time, row));
    assert Rows(s5.db, friend) == map[time := row];
    assert Unread(map[time := row]) == {time};
    assert Lists([time], {time});
    assert Enabled(s5, Notice(friend, [time])) && Enabled(s5, Click(friend, [time]));
  }
}
