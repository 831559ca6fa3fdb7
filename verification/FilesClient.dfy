/**
 qweb_files: the create/begin/data/finish protocol on top of the tables. A JSON message is a value
 of `Msg`; what the file system and the disk do is given by `Env`.
 */
module FilesClient {
  import opened Bytes
  import opened Framing
  import opened Meter
  import opened Upload
  import opened Download
  import opened FileTables
  import opened FilesChannel

  datatype Msg =
    | CreateUploadBack(id: Int64, ok: bool)
    | BeginUploadBack(id: Int64)
    | FinishUploadBack(id: Int64, ok: bool)
    | CreateDownloadBack(id: Int64, length: NonZero, ok: bool)
    | BeginDownloadBack(id: Int64)
    | FinishDownloadBack(id: Int64, ok: bool)
    | BeginUpload(id: Int64)
    | FinishUpload(id: Int64, finish: bool)
    | BeginDownload(id: Int64)
    | FinishDownload(id: Int64, ok: bool)

  datatype Signal =
    | CreatedUpload(ok: bool, id: Int64)
    | FinishedUpload(ok: bool, id: Int64)
    | CreatedDownload(ok: bool, id: Int64)
    | FinishedDownload(ok: bool, id: Int64)

  /** A received websocket message: parsed JSON, or any other bytes. */
  datatype Incoming = Json(msg: Msg) | Raw(bytes: seq<Byte>)

  /** The file to upload, whether the file to download into opens, whether the disk takes a write. */
  datatype Env = Env(file: Option<File>, openable: bool, disk: bool)

  /** Every receiver's counter is the number of bytes in its file. */
  ghost predicate Counted(open: map<Int64, Receiver>) {
    forall id :: id in open ==> open[id].count == |open[id].file|
  }

  lemma StepKeepsCounted(t: Tables, e: Event)
    requires Sound(t) && Counted(t.recv)
    ensures Counted(Step(t, e).recv)
  {
    hide AddData, Tick, Valid;
  }

  /** The table operation a message asks for; `fate` and `k` describe the link's next sends. */
  ghost function EventOf(m: Msg, channel: Int64, env: Env, fate: nat -> bool, k: nat): Option<Event> {
    match m
    case CreateUploadBack(id, ok) => if ok then Some(OpenSend(channel, id, env.file)) else None
    case BeginUploadBack(id) => Some(Pump(id, fate, k))
    case FinishUploadBack(id, _) => Some(CloseSend(channel, id))
    case CreateDownloadBack(id, length, ok) =>
      if ok then Some(OpenRecv(channel, id, length, env.openable)) else None
    case FinishDownloadBack(id, _) => Some(CloseRecv(channel, id))
    case _ => None
  }

  /** What the client answers, given its tables before and after the operation. */
  ghost function Answer(m: Msg, before: Tables, after: Tables, fate: nat -> bool, k: nat): seq<Msg>
    requires Sound(before)
  {
    match m
    case CreateUploadBack(id, ok) =>
      if !ok then [] else if id in after.send then [BeginUpload(id)] else [FinishUpload(id, false)]
    case BeginUploadBack(id) =>
      if id in before.send && !AddData(before.send[id], fate, k).ok then [BeginUpload(id)] else [FinishUpload(id, true)]
    case CreateDownloadBack(id, _, ok) =>
      if !ok then [] else if id in after.recv then [BeginDownload(id)] else [FinishDownload(id, false)]
    case BeginDownloadBack(id) => [BeginDownload(id)]
    case FinishDownloadBack(id, _) => [FinishDownload(id, true)]
    case _ => []
  }

  /** What the client signals: opened or not, the server's verdict, and a download only if it is complete. */
  ghost function Signalled(m: Msg, before: Tables, after: Tables): seq<Signal> {
    match m
    case CreateUploadBack(id, ok) => if ok then [CreatedUpload(id in after.send, id)] else []
    case FinishUploadBack(id, ok) => [FinishedUpload(ok, id)]
    case CreateDownloadBack(id, _, ok) => if ok then [CreatedDownload(id in after.recv, id)] else []
    case FinishDownloadBack(id, ok) =>
      [FinishedDownload(ok && id in before.recv && |before.recv[id].file| == before.recv[id].length, id)]
    case _ => []
  }

  /** What goes through the link: the pieces of one call, and only in answer to a begin for an open id. */
  ghost function Traffic(m: Incoming, before: Tables, fate: nat -> bool, k: nat): seq<Try>
    requires Sound(before)
  {
    match m
    case Json(BeginUploadBack(id)) => if id in before.send then AddData(before.send[id], fate, k).tries else []
    case _ => []
  }

  ghost function FramesOf(m: Incoming, tries: seq<Try>): seq<seq<Byte>> {
    match m
    case Json(BeginUploadBack(id)) => Frames(id, Delivered(tries))
    case _ => []
  }

  class FilesClient {
    const files: FilesChannel
    const link: Link
    const channel: Int64
    var outbox: seq<Msg>
    var signals: seq<Signal>

    ghost predicate Valid()
      reads this, files
    {
      Sound(files.State()) && Counted(files.mapRecv)
    }

    /** sl_open happens first: the channel is registered. */
    constructor (channel: Int64, link: Link)
      ensures Valid() && fresh(files) && this.link == link && this.channel == channel
      ensures files.State() == Step(NO_TABLES, Join(channel))
      ensures outbox == [] && signals == []
    {
      this.channel, this.link := channel, link;
      outbox, signals := [], [];
      files := new FilesChannel();
      new;
      var _ := files.AddIdChannel(channel);
    }

    method SendMsg(msg: Msg)
      modifies this`outbox
      ensures outbox == old(outbox) + [msg]
    {
      outbox := outbox + [msg];
    }

    method TaskCreateUploadBack(id: Int64, ok: bool, env: Env)
      requires Valid()
      modifies this, files
      ensures Valid()
      ensures files.State() ==
              if ok then Step(old(files.State()), OpenSend(channel, id, env.file)) else old(files.State())
      ensures var canOpen := id !in old(files.mapSend) && env.file.Some? && channel in old(files.mapChannel);
              && outbox == old(outbox) +
                 (if !ok then [] else if canOpen then [BeginUpload(id)] else [FinishUpload(id, false)])
              && signals == old(signals) + (if ok then [CreatedUpload(canOpen, id)] else [])
    {
      if ok {
        StepKeepsCounted(files.State(), OpenSend(channel, id, env.file));
        var okOpen := files.OpenFileSendChannel(channel, id, env.file);
        if okOpen {
          SendMsg(BeginUpload(id));
        } else {
          SendMsg(FinishUpload(id, false));
        }
        signals := signals + [CreatedUpload(okOpen, id)];
      }
    }

    /**
     finish(true) answers a begin exactly when the id is not open or the call ran to the end of the
     file; for an open id every byte has then been read, counted and handed to the link.
     */
    method TaskBeginUploadBack(id: Int64)
      requires Valid()
      modifies this`outbox, files, link
      ensures Valid()
      ensures files.State() == Step(old(files.State()), Pump(id, link.fate, old(link.attempts)))
      ensures id !in old(files.mapSend) ==>
                && outbox == old(outbox) + [FinishUpload(id, true)]
                && link.wire == old(link.wire) && link.attempts == old(link.attempts)
      ensures id in old(files.mapSend) ==>
                var call := AddData(old(files.mapSend)[id], link.fate, old(link.attempts));
                && link.wire == old(link.wire) + Frames(id, Delivered(call.tries))
                && link.attempts == old(link.attempts) + |call.tries|
                && files.mapSend[id] == call.after
                && outbox == old(outbox) + [if call.ok then FinishUpload(id, true) else BeginUpload(id)]
                && (call.ok ==> call.after.eof && call.after.count == call.after.length)
    {
      hide AddData, Frames, Delivered;
      StepKeepsCounted(files.State(), Pump(id, link.fate, link.attempts));
      var okSend := files.AddDataSend(id, link);
      if okSend {
        SendMsg(FinishUpload(id, true));
      } else {
        SendMsg(BeginUpload(id));
      }
    }

    method TaskFinishUploadBack(id: Int64, ok: bool)
      requires Valid()
      modifies this`signals, files
      ensures Valid()
      ensures files.State() == Step(old(files.State()), CloseSend(channel, id))
      ensures signals == old(signals) + [FinishedUpload(ok, id)]
    {
      StepKeepsCounted(files.State(), CloseSend(channel, id));
      files.CloseFileSendChannel(channel, id);
      signals := signals + [FinishedUpload(ok, id)];
    }

    method TaskCreateDownloadBack(id: Int64, length: NonZero, ok: bool, env: Env)
      requires Valid()
      modifies this, files
      ensures Valid()
      ensures files.State() ==
              if ok then Step(old(files.State()), OpenRecv(channel, id, length, env.openable)) else old(files.State())
      ensures var canOpen := id !in old(files.mapRecv) && env.openable && channel in old(files.mapChannel);
              && outbox == old(outbox) +
                 (if !ok then [] else if canOpen then [BeginDownload(id)] else [FinishDownload(id, false)])
              && signals == old(signals) + (if ok then [CreatedDownload(canOpen, id)] else [])
    {
      if ok {
        StepKeepsCounted(files.State(), OpenRecv(channel, id, length, env.openable));
        var okOpen := files.OpenFileRecvChannel(channel, id, length, env.openable);
        if okOpen {
          SendMsg(BeginDownload(id));
        } else {
          SendMsg(FinishDownload(id, false));
        }
        signals := signals + [CreatedDownload(okOpen, id)];
      }
    }

    method TaskBeginDownloadBack(id: Int64)
      modifies this`outbox
      ensures outbox == old(outbox) + [BeginDownload(id)]
    {
      SendMsg(BeginDownload(id));
    }

    /** Success is signalled exactly when the server says ok and the open file has its declared length. */
    method TaskFinishDownloadBack(id: Int64, ok: bool)
      requires Valid()
      modifies this, files
      ensures Valid()
      ensures files.State() == Step(old(files.State()), CloseRecv(channel, id))
      ensures outbox == old(outbox) + [FinishDownload(id, true)]
      ensures var open := old(files.mapRecv);
              signals == old(signals) +
                [FinishedDownload(ok && id in open && |open[id].file| == open[id].length, id)]
    {
      StepKeepsCounted(files.State(), CloseRecv(channel, id));
      var okRecv := files.CheckLengthRecv(id);
      var success := false;
      if okRecv && ok {
        success := true;
      }
      files.CloseFileRecvChannel(channel, id);
      SendMsg(FinishDownload(id, true));
      signals := signals + [FinishedDownload(success, id)];
    }

    /** The channel is forgotten; its files stay open (FileTables.LeaveKeepsTracked). */
    method SlClose()
      requires Valid()
      modifies files
      ensures Valid()
      ensures files.State() == Step(old(files.State()), Leave(channel))
    {
      StepKeepsCounted(files.State(), Leave(channel));
      files.RemoveIdChannel(channel);
    }

    /** A raw message reaches the open file its id names, and nothing else. */
    method RecvRaw(bytes: seq<Byte>, disk: bool)
      requires Valid()
      modifies files
      ensures Valid()
      ensures files.State() == old(files.State()).(recv := Receive(old(files.mapRecv), bytes, disk))
    {
      hide Accept, Payload;
      if Flag(bytes) == FILES_BINARY {
        var ok, id, buf := GetFilesBinary(bytes);
        if ok {
          StepKeepsCounted(files.State(), Data(id, buf, disk));
          var _ := files.AddDataRecv(id, buf, disk);
        }
      }
    }

    method SlMessage(m: Incoming, env: Env)
      requires Valid()
      modifies this, files, link
      ensures Valid()
      ensures m.Raw? ==>
                && files.State() == old(files.State()).(recv := Receive(old(files.mapRecv), m.bytes, env.disk))
                && outbox == old(outbox) && signals == old(signals)
      ensures m.Json? ==>
                && files.State() == (match EventOf(m.msg, channel, env, link.fate, old(link.attempts))
                                     case None => old(files.State())
                                     case Some(e) => Step(old(files.State()), e))
                && outbox == old(outbox) +
                     Answer(m.msg, old(files.State()), files.State(), link.fate, old(link.attempts))
                && signals == old(signals) + Signalled(m.msg, old(files.State()), files.State())
      ensures var tries := Traffic(m, old(files.State()), link.fate, old(link.attempts));
              && link.attempts == old(link.attempts) + |tries|
              && link.wire == old(link.wire) + FramesOf(m, tries)
      // Message by message: what is open afterwards, and what is signalled.
      ensures match m
              case Json(CreateUploadBack(id, ok)) =>
                var can := id !in old(files.mapSend) && env.file.Some? && channel in old(files.mapChannel);
                && (ok ==> (id in files.mapSend <==> can)) && (!ok ==> files.State() == old(files.State()))
                && signals == old(signals) + (if ok then [CreatedUpload(can, id)] else [])
              case Json(FinishUploadBack(id, ok)) =>
                && files.mapSend == old(files.mapSend) - {id} && files.mapRecv == old(files.mapRecv)
                && signals == old(signals) + [FinishedUpload(ok, id)]
              case Json(CreateDownloadBack(id, length, ok)) =>
                var can := id !in old(files.mapRecv) && env.openable && channel in old(files.mapChannel);
                && (ok ==> (id in files.mapRecv <==> can)) && (!ok ==> files.State() == old(files.State()))
                && signals == old(signals) + (if ok then [CreatedDownload(can, id)] else [])
              case Json(FinishDownloadBack(id, ok)) =>
                var open := old(files.mapRecv);
                && files.mapRecv == open - {id} && files.mapSend == old(files.mapSend)
                && outbox == old(outbox) + [FinishDownload(id, true)]
                && signals == old(signals) +
                     [FinishedDownload(ok && id in open && |open[id].file| == open[id].length, id)]
              case Json(BeginUploadBack(id)) =>
                files.mapSend.Keys == old(files.mapSend.Keys) && signals == old(signals)
              case Json(BeginDownloadBack(id)) =>
                && files.State() == old(files.State()) && signals == old(signals)
                && outbox == old(outbox) + [BeginDownload(id)]
              case _ => signals == old(signals)
    {
      hide AddData, Accept, Sound, Counted, Receive, Frames, Delivered;
      NothingDelivered(m);
      match m
      case Raw(bytes) => RecvRaw(bytes, env.disk);
      case Json(CreateUploadBack(id, ok)) => TaskCreateUploadBack(id, ok, env);
      case Json(BeginUploadBack(id)) => TaskBeginUploadBack(id);
      case Json(FinishUploadBack(id, ok)) => TaskFinishUploadBack(id, ok);
      case Json(CreateDownloadBack(id, length, ok)) => TaskCreateDownloadBack(id, length, ok, env);
      case Json(BeginDownloadBack(id)) => TaskBeginDownloadBack(id);
      case Json(FinishDownloadBack(id, ok)) => TaskFinishDownloadBack(id, ok);
      case Json(_) =>
    }
  }

  lemma NothingDelivered(m: Incoming)
    ensures FramesOf(m, []) == []
  {
    match m
    case Json(BeginUploadBack(id)) => NothingFramed(id);
    case _ =>
  }

  /** An answer finish(true) means that the file was read to its end exactly when its id is open at all. */
  lemma FinishIsEarnedIff(before: Tables, after: Tables, id: Int64, fate: nat -> bool, k: nat)
    requires Sound(before)
    ensures (Answer(BeginUploadBack(id), before, after, fate, k) == [FinishUpload(id, true)] ==>
               id in before.send &&
               var a := AddData(before.send[id], fate, k).after; a.eof && a.count == a.length == |a.data|)
            <==> id in before.send
  {
    hide AddData;
  }

  // ---- Two messages in a row for the same id ----

  /**
   A second files_create_upload_back for an id that is being uploaded closes the upload and answers
   finish(false); the first one had opened the file and begun.
   */
  lemma DuplicateCreateClosesUpload(t: Tables, channel: Int64, id: Int64, env: Env, fate: nat -> bool, k: nat)
    requires Sound(t) && channel in t.channels && id !in t.send && env.file.Some?
    ensures var m := CreateUploadBack(id, true);
            var e := EventOf(m, channel, env, fate, k).value;
            var once := Step(t, e);
            var twice := Step(once, e);
            && id in once.send && Answer(m, t, once, fate, k) == [BeginUpload(id)]
            && twice.send == t.send && Answer(m, once, twice, fate, k) == [FinishUpload(id, false)]
  {
    var once := Step(t, OpenSend(channel, id, env.file));
    assert once.send - {id} == t.send;
  }

  /** The same for a download: the file received so far is closed. */
  lemma DuplicateCreateClosesDownload(t: Tables, channel: Int64, id: Int64, length: NonZero, env: Env,
                                      fate: nat -> bool, k: nat)
    requires Sound(t) && channel in t.channels && id !in t.recv && env.openable
    ensures var m := CreateDownloadBack(id, length, true);
            var e := EventOf(m, channel, env, fate, k).value;
            var once := Step(t, e);
            var twice := Step(once, e);
            && id in once.recv && Answer(m, t, once, fate, k) == [BeginDownload(id)]
            && twice.recv == t.recv && Answer(m, once, twice, fate, k) == [FinishDownload(id, false)]
  {
    var once := Step(t, OpenRecv(channel, id, length, env.openable));
    assert once.recv - {id} == t.recv;
  }

  // ---- A whole upload to a peer that answers every begin ----

  lemma {:induction false} DeliveredAppend(a: seq<Try>, b: seq<Try>)
    ensures Delivered(a + b) == Delivered(a) + Delivered(b)
  {
    if b == [] {
      assert a + b == a;
    } else {
      var init := b[..|b| - 1];
      DeliveredAppend(a, init);
      assert (a + b)[..|a + b| - 1] == a + init;
    }
  }

  lemma FramesOfBoth(id: Int64, a: seq<Try>, b: seq<Try>)
    ensures Frames(id, Delivered(a + b)) == Frames(id, Delivered(a)) + Frames(id, Delivered(b))
  {
    DeliveredAppend(a, b);
  }

  /** The whole upload is what was done in `calls` calls, and what is still to do from `s` on. */
  ghost predicate Continues(run: Run, tries: seq<Try>, calls: nat,
                            s: Sender, fate: nat -> bool, gap: nat -> nat, k: nat)
    requires Upload.Valid(s)
  {
    var rest := Whole(s, fate, gap, calls, k);
    run == Run(rest.after, tries + rest.tries, calls + rest.calls)
  }

  lemma ContinuesAtStart(s: Sender, fate: nat -> bool, gap: nat -> nat, k: nat)
    requires Upload.Valid(s)
    ensures Continues(Whole(s, fate, gap, 0, k), [], 0, s, fate, gap, k)
  {
    hide Whole;
  }

  lemma ContinuesAfterCall(run: Run, tries: seq<Try>, calls: nat, s: Sender, fate: nat -> bool, gap: nat -> nat, k: nat)
    requires Upload.Valid(s) && Quiet(gap) && Continues(run, tries, calls, s, fate, gap, k)
    ensures var c := AddData(s, fate, k);
            if c.ok then run == Run(c.after, tries + c.tries, calls + 1)
            else Continues(run, tries + c.tries, calls + 1, c.after, fate, gap, k + |c.tries|)
  {
    hide AddData, Whole;
    assert k + gap(calls) == k;
    WholeUnfolds(s, fate, gap, calls, k);
    var c := AddData(s, fate, k);
    if !c.ok {
      var rest := Whole(c.after, fate, gap, calls + 1, k + |c.tries|).tries;
      assert tries + (c.tries + rest) == (tries + c.tries) + rest;
    }
  }

  lemma WholeUnfolds(s: Sender, fate: nat -> bool, gap: nat -> nat, i: nat, k: nat)
    requires Upload.Valid(s)
    ensures var c := AddData(s, fate, k + gap(i));
            Whole(s, fate, gap, i, k) ==
            if c.ok then Run(c.after, c.tries, 1)
            else var rest := Whole(c.after, fate, gap, i + 1, k + gap(i) + |c.tries|);
                 Run(rest.after, c.tries + rest.tries, 1 + rest.calls)
  {
    hide AddData;
  }

  function Begins(id: Int64, n: nat): (ms: seq<Msg>) {
    seq(n, _ => BeginUpload(id))
  }

  lemma NoBegins(id: Int64)
    ensures Begins(id, 0) == []
  {
  }

  lemma OneMoreBegin(id: Int64, n: nat)
    ensures Begins(id, n + 1) == Begins(id, n) + [BeginUpload(id)]
  {
  }

  /**
   The client opens the file and then answers begin after begin, whatever becomes of its sends. The run
   asks to continue after every pause and ends with finish(true) in any case; all pieces of the file were
   handed to the link, and the frames on the wire carry the file exactly when the next ceil(L / 1024) sends
   succeed. There is one call more than sends that failed or brought the total to a multiple of 2 MiB; when
   none fails, there are floor(L / 2 MiB) + 1 calls, or one more when L is a multiple of 2 MiB.
   */
  method AnsweredUpload(client: FilesClient, id: Int64, file: File) returns (calls: nat, ghost tries: seq<Try>)
    requires client.Valid()
    requires id !in client.files.mapSend && client.channel in client.files.mapChannel
    modifies client, client.files, client.link
    ensures client.Valid()
    ensures client.outbox == old(client.outbox) + Begins(id, calls) + [FinishUpload(id, true)]
    ensures client.link.wire == old(client.link.wire) + Frames(id, Delivered(tries))
    ensures client.link.attempts == old(client.link.attempts) + |tries|
    ensures forall j :: 0 <= j < |tries| ==> tries[j].up == client.link.fate(old(client.link.attempts) + j)
    ensures |tries| == |file| / 1024 + 1 && calls == 1 + Stops(tries, 0, |file|)
    ensures Concat(Pieces(tries)) == file
    ensures Concat(Delivered(tries)) == file <==>
              SendsUp(client.link.fate, old(client.link.attempts), Chunks(|file|))
    ensures AllUp(client.link.fate) ==> calls == |file| / FLUX + (if |file| % FLUX == 0 then 2 else 1)
  {
    hide AddData, Frames, Delivered, Whole, Concat, Pieces, Sound, SendsUp, Chunks, AllUp, Continues, Begins;
    hide Left, Stops;
    ghost var fate: nat -> bool, k0 := client.link.fate, client.link.attempts;
    ghost var gap: nat -> nat := i => 0;
    ghost var run := Whole(Fresh(file), fate, gap, 0, k0);
    client.TaskCreateUploadBack(id, true, Env(Some(file), false, false));
    calls, tries := 0, [];
    NothingFramed(id);
    ContinuesAtStart(Fresh(file), fate, gap, k0);
    NoBegins(id);
    OneMoreBegin(id, 0);
    while true
      invariant client.Valid() && id in client.files.mapSend
      invariant client.outbox == old(client.outbox) + Begins(id, calls + 1)
      invariant client.link.wire == old(client.link.wire) + Frames(id, Delivered(tries))
      invariant client.link.attempts == k0 + |tries|
      invariant Upload.Valid(client.files.mapSend[id])
      invariant Continues(run, tries, calls, client.files.mapSend[id], fate, gap, client.link.attempts)
      decreases Left(client.files.mapSend[id])
    {
      ghost var s, k := client.files.mapSend[id], client.link.attempts;
      ghost var call := AddData(s, fate, k);
      client.TaskBeginUploadBack(id);
      ContinuesAfterCall(run, tries, calls, s, fate, gap, k);
      FramesOfBoth(id, tries, call.tries);
      OneMoreBegin(id, calls + 1);
      tries := tries + call.tries;
      calls := calls + 1;
      if client.outbox[|client.outbox| - 1] == FinishUpload(id, true) {
        break;
      }
    }
    WholeHandsOver(Fresh(file), fate, gap, 0, k0);
    DeliveredIffSendsSucceed(file, fate, gap, k0);
    WholeCalls(Fresh(file), fate, gap, 0, k0);
    WholeReads(Fresh(file), fate, gap, 0, k0);
    WholeTries(Fresh(file), fate, gap, 0, k0);
    if AllUp(fate) {
      UpCallCount(Fresh(file), fate, gap, 0, k0);
    }
  }

  /** The smallest lossy run at the client: one byte, the send fails, the upload is reported finished. */
  method LostUploadIsReported(client: FilesClient, id: Int64, b: Byte)
    requires client.Valid() && !client.link.fate(client.link.attempts)
    requires id !in client.files.mapSend && client.channel in client.files.mapChannel
    modifies client, client.files, client.link
    ensures client.link.wire == old(client.link.wire)
    ensures client.outbox ==
            old(client.outbox) + [BeginUpload(id), BeginUpload(id), FinishUpload(id, true)]
  {
    hide Sound, Tick;
    ghost var fate, k := client.link.fate, client.link.attempts;
    client.TaskCreateUploadBack(id, true, Env(Some([b]), false, false));
    ghost var s := Fresh([b]);
    assert Piece(s) == [b];
    ghost var call := AddData(s, fate, k);
    assert call.tries == [Try([b], false)] && !call.ok && call.after.eof;
    assert Delivered(call.tries) == [];
    client.TaskBeginUploadBack(id);
    client.TaskBeginUploadBack(id);
  }
}
