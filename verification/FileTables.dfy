/**
 The tables of files_channel as one value, its operations as transitions, and the laws of
 every run: what each open file holds, and which channel tracks which open id.
 */
module FileTables {
  import opened Bytes
  import opened Meter
  import opened Upload
  import opened Download

  /** A readable file; an empty one would divide by zero in add_data_send. */
  type File = f: seq<Byte> | f != [] witness [0]

  datatype Channel = Channel(recv: set<Int64>, send: set<Int64>)

  datatype Tables = Tables(send: map<Int64, Sender>, recv: map<Int64, Receiver>, channels: map<Int64, Channel>)

  const NO_TABLES := Tables(map[], map[], map[])

  ghost predicate Sound(t: Tables) {
    forall id :: id in t.send ==> Valid(t.send[id])
  }

  /** One operation. `file`/`openable` say whether the file system lets the file be opened. */
  datatype Event =
    | OpenSend(ch: Int64, id: Int64, file: Option<File>)
    | OpenRecv(ch: Int64, id: Int64, length: NonZero, openable: bool)
    | CloseSend(ch: Int64, id: Int64)
    | CloseRecv(ch: Int64, id: Int64)
    | Pump(id: Int64, fate: nat -> bool, k: nat)
    | Data(id: Int64, data: seq<Byte>, disk: bool)
    | Join(ch: Int64)
    | Leave(ch: Int64)

  function ForgetSend(chs: map<Int64, Channel>, ch: Int64, id: Int64): map<Int64, Channel> {
    if ch in chs then chs[ch := chs[ch].(send := chs[ch].send - {id})] else chs
  }

  function ForgetRecv(chs: map<Int64, Channel>, ch: Int64, id: Int64): map<Int64, Channel> {
    if ch in chs then chs[ch := chs[ch].(recv := chs[ch].recv - {id})] else chs
  }

  /**
   A managed open that does not succeed, because the id is taken, the file cannot be opened or
   the channel is unknown, closes whatever was open under that id.
   */
  ghost function Step(t: Tables, e: Event): (t': Tables)
    requires Sound(t)
    ensures Sound(t')
  {
    match e
    case OpenSend(ch, id, file) =>
      if id !in t.send && file.Some? && ch in t.channels then
        t.(send := t.send[id := Fresh(file.value)],
           channels := t.channels[ch := t.channels[ch].(send := t.channels[ch].send + {id})])
      else t.(send := t.send - {id}, channels := ForgetSend(t.channels, ch, id))
    case OpenRecv(ch, id, length, openable) =>
      if id !in t.recv && openable && ch in t.channels then
        t.(recv := t.recv[id := NewReceiver(length)],
           channels := t.channels[ch := t.channels[ch].(recv := t.channels[ch].recv + {id})])
      else t.(recv := t.recv - {id}, channels := ForgetRecv(t.channels, ch, id))
    case CloseSend(ch, id) => t.(send := t.send - {id}, channels := ForgetSend(t.channels, ch, id))
    case CloseRecv(ch, id) => t.(recv := t.recv - {id}, channels := ForgetRecv(t.channels, ch, id))
    case Pump(id, fate, k) =>
      if id in t.send then t.(send := t.send[id := AddData(t.send[id], fate, k).after]) else t
    case Data(id, data, disk) =>
      if id in t.recv then t.(recv := t.recv[id := Accept(t.recv[id], data, disk)]) else t
    case Join(ch) => if ch in t.channels then t else t.(channels := t.channels[ch := Channel({}, {})])
    case Leave(ch) => t.(channels := t.channels - {ch})
  }

  ghost function After(events: seq<Event>): (t: Tables)
    ensures Sound(t)
  {
    if events == [] then NO_TABLES
    else Step(After(events[..|events| - 1]), events[|events| - 1])
  }

  lemma AfterPrefix(events: seq<Event>, n: nat)
    requires n < |events|
    ensures After(events[..n + 1]) == Step(After(events[..n]), events[n])
  {
    assert events[..n + 1][..n] == events[..n];
  }

  /**
   A managed open leaves every open file as it is exactly when its id is free: an open for an id in use
   closes the transfer that uses it.
   */
  lemma OpenSendKeepsOpenIff(t: Tables, ch: Int64, id: Int64, file: Option<File>)
    requires Sound(t)
    ensures var t' := Step(t, OpenSend(ch, id, file));
            (forall i :: i in t.send ==> i in t'.send && t'.send[i] == t.send[i]) <==> id !in t.send
  {
  }

  lemma OpenRecvKeepsOpenIff(t: Tables, ch: Int64, id: Int64, length: NonZero, openable: bool)
    requires Sound(t)
    ensures var t' := Step(t, OpenRecv(ch, id, length, openable));
            (forall i :: i in t.recv ==> i in t'.recv && t'.recv[i] == t.recv[i]) <==> id !in t.recv
  {
  }

  // ---- Each open file holds its own payloads since it was opened ----

  /** A file seen alone: declared length, whether every write succeeded, bytes. */
  datatype Alone = Closed | Opened(length: NonZero, good: bool, bytes: seq<Byte>)

  /** The channels connected after a run, read off the run's joins and leaves alone. */
  ghost function Joined(events: seq<Event>): set<Int64> {
    if events == [] then {}
    else
      var before := Joined(events[..|events| - 1]);
      match events[|events| - 1]
      case Join(ch) => before + {ch}
      case Leave(ch) => before - {ch}
      case _ => before
  }

  /** What file `id` should hold, read off the events of this id alone: the others do not matter. */
  ghost function Expected(events: seq<Event>, id: Int64): Alone {
    if events == [] then Closed
    else
      var before := Expected(events[..|events| - 1], id);
      match events[|events| - 1]
      case OpenRecv(ch, i, length, openable) =>
        if i != id then before
        else if before.Closed? && openable && ch in Joined(events[..|events| - 1]) then Opened(length, true, [])
        else Closed
      case CloseRecv(_, i) => if i == id then Closed else before
      case Data(i, data, disk) =>
        if i != id || before.Closed? then before
        else if before.good && disk then before.(bytes := before.bytes + data)
        else before.(good := false)
      case _ => before
  }

  ghost predicate Holds(t: Tables, id: Int64, a: Alone) {
    match a
    case Closed => id !in t.recv
    case Opened(length, good, bytes) =>
      && id in t.recv
      && t.recv[id].length == length && t.recv[id].good == good
      && t.recv[id].file == bytes && t.recv[id].count == |bytes|
  }

  lemma {:induction false} ChannelsAreJoined(events: seq<Event>)
    ensures After(events).channels.Keys == Joined(events)
  {
    if events != [] {
      ChannelsAreJoined(events[..|events| - 1]);
    }
  }

  /**
   In every interleaving of opens, closes and data over many ids and channels, each id is open
   exactly when its own events say so, and its file is the in-order concatenation of its own
   payloads since that opening, up to the first failed write.
   */
  lemma {:induction false} EachFileHoldsItsPayloads(events: seq<Event>, id: Int64)
    ensures Holds(After(events), id, Expected(events, id))
  {
    if events != [] {
      hide AddData, Tick, Valid;
      var before := events[..|events| - 1];
      EachFileHoldsItsPayloads(before, id);
      ChannelsAreJoined(before);
    }
  }

  // ---- Each upload goes its own way, and each channel tracks its own ids ----

  /** The upload `id`, read off the events of this id alone. */
  ghost function ExpectedSend(events: seq<Event>, id: Int64): (r: Option<Sender>)
    ensures r.Some? ==> Valid(r.value)
  {
    if events == [] then None
    else
      var before := ExpectedSend(events[..|events| - 1], id);
      match events[|events| - 1]
      case OpenSend(ch, i, file) =>
        if i != id then before
        else if before.None? && file.Some? && ch in Joined(events[..|events| - 1]) then Some(Fresh(file.value))
        else None
      case CloseSend(_, i) => if i == id then None else before
      case Pump(i, fate, k) =>
        if i == id && before.Some? then Some(AddData(before.value, fate, k).after) else before
      case _ => before
  }

  /** In every interleaving, each id is being sent exactly as its own events say. */
  lemma {:induction false} EachUploadGoesItsOwnWay(events: seq<Event>, id: Int64)
    ensures match ExpectedSend(events, id)
            case None => id !in After(events).send
            case Some(s) => id in After(events).send && After(events).send[id] == s
  {
    if events != [] {
      hide AddData, Tick, Valid;
      var before := events[..|events| - 1];
      EachUploadGoesItsOwnWay(before, id);
      ChannelsAreJoined(before);
    }
  }

  /** The ids a channel tracks, read off the events on this channel: what succeeded and was not undone or closed. */
  ghost function ExpectedIds(events: seq<Event>, ch: Int64): Channel {
    if events == [] then Channel({}, {})
    else
      var init := events[..|events| - 1];
      var before := ExpectedIds(init, ch);
      match events[|events| - 1]
      case Join(c) => if c == ch && ch !in Joined(init) then Channel({}, {}) else before
      case OpenSend(c, id, file) =>
        if c != ch then before
        else if ExpectedSend(init, id).None? && file.Some? then before.(send := before.send + {id})
        else before.(send := before.send - {id})
      case OpenRecv(c, id, _, openable) =>
        if c != ch then before
        else if Expected(init, id).Closed? && openable then before.(recv := before.recv + {id})
        else before.(recv := before.recv - {id})
      case CloseSend(c, id) => if c == ch then before.(send := before.send - {id}) else before
      case CloseRecv(c, id) => if c == ch then before.(recv := before.recv - {id}) else before
      case _ => before
  }

  /** With any number of channels, a connected channel's sets are what its own events made them. */
  lemma {:induction false} EachChannelTracksItsOwn(events: seq<Event>, ch: Int64)
    ensures ch in After(events).channels ==> After(events).channels[ch] == ExpectedIds(events, ch)
  {
    if events != [] {
      hide AddData, Accept, Valid;
      var before, e := events[..|events| - 1], events[|events| - 1];
      EachChannelTracksItsOwn(before, ch);
      ChannelsAreJoined(before);
      if e.OpenSend? {
        EachUploadGoesItsOwnWay(before, e.id);
      } else if e.OpenRecv? {
        EachFileHoldsItsPayloads(before, e.id);
      }
    }
  }

  // ---- Channel bookkeeping ----

  predicate SendTracked(t: Tables, id: Int64) {
    exists ch :: ch in t.channels && id in t.channels[ch].send
  }

  predicate RecvTracked(t: Tables, id: Int64) {
    exists ch :: ch in t.channels && id in t.channels[ch].recv
  }

  /** Every open id is tracked by some channel. */
  ghost predicate Tracked(t: Tables) {
    && (forall id :: id in t.send ==> SendTracked(t, id))
    && (forall id :: id in t.recv ==> RecvTracked(t, id))
  }

  /** A guard on the leaving channel's own sets: each of its ids that is open is tracked elsewhere too. */
  ghost predicate MayLeave(t: Tables, ch: Int64) {
    ch in t.channels ==>
      && (forall id :: id in t.channels[ch].send && id in t.send ==>
            exists c :: c != ch && c in t.channels && id in t.channels[c].send)
      && (forall id :: id in t.channels[ch].recv && id in t.recv ==>
            exists c :: c != ch && c in t.channels && id in t.channels[c].recv)
  }

  /** The channel, if there is one, has empty sets. */
  predicate LeavesEmpty(t: Tables, ch: Int64) {
    ch in t.channels ==> t.channels[ch] == Channel({}, {})
  }

  lemma EmptyMayLeave(t: Tables, ch: Int64)
    requires LeavesEmpty(t, ch)
    ensures MayLeave(t, ch)
  {
  }

  lemma SendKept(t: Tables, t': Tables, id: Int64)
    requires SendTracked(t, id)
    requires forall c :: c in t.channels ==> c in t'.channels
    requires forall c :: c in t.channels && id in t.channels[c].send ==> id in t'.channels[c].send
    ensures SendTracked(t', id)
  {
    var c :| c in t.channels && id in t.channels[c].send;
    assert id in t'.channels[c].send;
  }

  lemma RecvKept(t: Tables, t': Tables, id: Int64)
    requires RecvTracked(t, id)
    requires forall c :: c in t.channels ==> c in t'.channels
    requires forall c :: c in t.channels && id in t.channels[c].recv ==> id in t'.channels[c].recv
    ensures RecvTracked(t', id)
  {
    var c :| c in t.channels && id in t.channels[c].recv;
    assert id in t'.channels[c].recv;
  }

  lemma StepKeepsTracked(t: Tables, e: Event)
    requires Sound(t) && Tracked(t) && !e.Leave?
    ensures Tracked(Step(t, e))
  {
    hide AddData, Accept, Valid;
    var t' := Step(t, e);
    forall id | id in t'.send
      ensures SendTracked(t', id)
    {
      if id in t.send {
        SendKept(t, t', id);
      } else {
        assert e.ch in t'.channels && id in t'.channels[e.ch].send;
      }
    }
    forall id | id in t'.recv
      ensures RecvTracked(t', id)
    {
      if id in t.recv {
        RecvKept(t, t', id);
      } else {
        assert e.ch in t'.channels && id in t'.channels[e.ch].recv;
      }
    }
  }

  /** Removing a channel keeps every open id tracked exactly when its guard holds. */
  lemma LeaveKeepsTracked(t: Tables, ch: Int64)
    requires Sound(t) && Tracked(t)
    ensures Tracked(Step(t, Leave(ch))) <==> MayLeave(t, ch)
  {
    var t' := Step(t, Leave(ch));
    if Tracked(t') && ch in t.channels {
      forall id | id in t.channels[ch].send && id in t.send
        ensures exists c :: c != ch && c in t.channels && id in t.channels[c].send
      {
        assert SendTracked(t', id);
      }
      forall id | id in t.channels[ch].recv && id in t.recv
        ensures exists c :: c != ch && c in t.channels && id in t.channels[c].recv
      {
        assert RecvTracked(t', id);
      }
    }
    if MayLeave(t, ch) {
      forall id | id in t.send
        ensures SendTracked(t', id)
      {
        assert SendTracked(t, id);
        var c :| c in t.channels && id in t.channels[c].send &&
                 (c != ch || forall d :: d in t.channels && id in t.channels[d].send ==> d == ch);
        assert c in t'.channels;
      }
      forall id | id in t.recv
        ensures RecvTracked(t', id)
      {
        assert RecvTracked(t, id);
        var c :| c in t.channels && id in t.channels[c].recv &&
                 (c != ch || forall d :: d in t.channels && id in t.channels[d].recv ==> d == ch);
        assert c in t'.channels;
      }
    }
  }

  /** Every channel that leaves during the run may do so at that moment. */
  ghost predicate LeavesAllowed(events: seq<Event>) {
    forall n :: 0 <= n < |events| && events[n].Leave? ==> MayLeave(After(events[..n]), events[n].ch)
  }

  /**
   In every run of managed opens (successful, failed or duplicate), closes and traffic, every open
   id is tracked at every moment if and only if channels leave only when nothing depends on them
   alone. remove_id_channel itself does not check this.
   */
  lemma TrackedThroughoutIff(events: seq<Event>)
    ensures (forall n :: 0 <= n <= |events| ==> Tracked(After(events[..n]))) <==> LeavesAllowed(events)
  {
    hide Step, MayLeave, Tracked;
    if LeavesAllowed(events) {
      forall n | 0 <= n <= |events|
        ensures Tracked(After(events[..n]))
      {
        TrackedUpTo(events, n);
      }
    }
    if forall n :: 0 <= n <= |events| ==> Tracked(After(events[..n])) {
      forall n | 0 <= n < |events| && events[n].Leave?
        ensures MayLeave(After(events[..n]), events[n].ch)
      {
        AfterPrefix(events, n);
        assert Tracked(After(events[..n + 1]));
        LeaveKeepsTracked(After(events[..n]), events[n].ch);
      }
    }
  }

  /** The smallest run that loses track of an open file: the channel goes before its upload is closed. */
  lemma LeaveLosesTrack(ch: Int64, id: Int64, file: File)
    ensures var run := [Join(ch), OpenSend(ch, id, Some(file)), Leave(ch)];
            id in After(run).send && !Tracked(After(run)) && !LeavesAllowed(run)
  {
    var run := [Join(ch), OpenSend(ch, id, Some(file)), Leave(ch)];
    AfterPrefix(run, 0);
    AfterPrefix(run, 1);
    AfterPrefix(run, 2);
    assert run[..0] == [] && run[..3] == run;
    assert !SendTracked(After(run), id);
    assert !MayLeave(After(run[..2]), run[2].ch);
  }

  /**
   The rule channels are meant to follow: when they are removed only after their files have been closed,
   every open id is tracked after every run, with any number of channels.
   */
  lemma EmptyLeavesKeepTracked(events: seq<Event>)
    requires forall n :: 0 <= n < |events| && events[n].Leave? ==> LeavesEmpty(After(events[..n]), events[n].ch)
    ensures Tracked(After(events))
  {
    hide Step, MayLeave, Tracked, LeavesEmpty;
    forall n | 0 <= n < |events| && events[n].Leave?
      ensures MayLeave(After(events[..n]), events[n].ch)
    {
      EmptyMayLeave(After(events[..n]), events[n].ch);
    }
    TrackedUpTo(events, |events|);
    assert events[..|events|] == events;
  }

  lemma {:induction false} TrackedUpTo(events: seq<Event>, n: nat)
    requires n <= |events| && LeavesAllowed(events)
    ensures Tracked(After(events[..n]))
  {
    if n == 0 {
      assert After(events[..0]) == NO_TABLES;
    } else {
      hide Step, MayLeave, Tracked;
      TrackedUpTo(events, n - 1);
      AfterPrefix(events, n - 1);
      var t, e := After(events[..n - 1]), events[n - 1];
      if e.Leave? {
        assert MayLeave(After(events[..n - 1]), events[n - 1].ch);
        LeaveKeepsTracked(t, e.ch);
      } else {
        StepKeepsTracked(t, e);
      }
    }
  }

  /** The channel an operation names, if any, is `ch`. */
  predicate OnChannel(e: Event, ch: Int64) {
    e.Pump? || e.Data? || e.ch == ch
  }

  /** The channel's sets are exactly the open-id tables. */
  ghost predicate SetsAreTables(t: Tables, ch: Int64) {
    if ch in t.channels then t.channels[ch].send == t.send.Keys && t.channels[ch].recv == t.recv.Keys
    else t.send.Keys == {} && t.recv.Keys == {}
  }

  /** With a single channel, its sets equal the open-id tables after every run. */
  lemma {:induction false} SingleChannelIsExact(events: seq<Event>, ch: Int64)
    requires forall n :: 0 <= n < |events| ==> OnChannel(events[n], ch)
    requires forall n :: 0 <= n < |events| && events[n].Leave? ==> LeavesEmpty(After(events[..n]), ch)
    ensures SetsAreTables(After(events), ch)
  {
    if events != [] {
      var before, e := events[..|events| - 1], events[|events| - 1];
      assert forall n :: 0 <= n <= |before| ==> events[..n] == before[..n];
      assert events[..|before|] == before;
      SingleChannelIsExact(before, ch);
      SingleStep(After(before), e, ch);
    }
  }

  lemma SingleStep(t: Tables, e: Event, ch: Int64)
    requires Sound(t) && SetsAreTables(t, ch) && OnChannel(e, ch)
    requires e.Leave? && ch in t.channels ==> t.channels[ch] == Channel({}, {})
    ensures SetsAreTables(Step(t, e), ch)
  {
    hide AddData, Accept, Valid;
  }
}
