/**
 The receiving side of files_io, and the end-to-end law: the frames of an upload, decoded and
 written by the peer, rebuild the sender's file exactly when no send of a non-empty piece failed.
 */
module Download {
  import opened Bytes
  import opened Framing
  import opened Meter
  import opened Upload

  /** fs_recv. `good` is the stream's state: after a failed write nothing more is written or counted. */
  datatype Receiver = Receiver(file: seq<Byte>, good: bool, count: nat, length: NonZero, gauge: Gauge)

  function NewReceiver(length: NonZero): Receiver {
    Receiver([], true, 0, length, ZERO_GAUGE)
  }

  /** add_data_recv for an open id; `disk` says whether the disk takes this write. */
  function Accept(r: Receiver, data: seq<Byte>, disk: bool): Receiver {
    var good := r.good && disk;
    var count := if good then r.count + |data| else r.count;
    Receiver(if good then r.file + data else r.file, good, count, r.length, Tick(r.gauge, count, r.length))
  }

  /** Writes of several pieces that all succeed. */
  function AcceptAll(r: Receiver, pieces: seq<seq<Byte>>): Receiver {
    if pieces == [] then r
    else Accept(AcceptAll(r, pieces[..|pieces| - 1]), pieces[|pieces| - 1], true)
  }

  lemma {:induction false} AcceptAllRebuilds(r: Receiver, pieces: seq<seq<Byte>>)
    requires r.good && r.count == |r.file|
    ensures var a := AcceptAll(r, pieces);
            a.good && a.file == r.file + Concat(pieces) && a.count == |a.file| && a.length == r.length
  {
    hide Tick;
    if pieces != [] {
      var init, last := pieces[..|pieces| - 1], pieces[|pieces| - 1];
      AcceptAllRebuilds(r, init);
      assert (r.file + Concat(init)) + last == r.file + (Concat(init) + last);
    }
  }

  lemma AcceptReports(r: Receiver, data: seq<Byte>)
    requires r.good && Measurable(r.length) && Faithful(r.gauge, r.count, r.length)
    requires r.count + |data| <= r.length
    ensures var a := Accept(r, data, true); Faithful(a.gauge, a.count, a.length)
  {
    hide Tick, Faithful;
    TickKeepsFaithful(r.gauge, r.count, r.count + |data|, r.length);
  }

  /**
   The percentages of a download that stays within its declared length are exact and strictly
   increasing, and 100 is reported as soon as, and only when, the last byte has been counted.
   */
  lemma {:induction false} DownloadReports(length: NonZero, pieces: seq<seq<Byte>>)
    requires Measurable(length) && |Concat(pieces)| <= length
    ensures var a := AcceptAll(NewReceiver(length), pieces);
            && Faithful(a.gauge, |Concat(pieces)|, length)
            && (a.gauge.prog == 100 <==> |Concat(pieces)| == length)
  {
    var a := AcceptAll(NewReceiver(length), pieces);
    AcceptAllRebuilds(NewReceiver(length), pieces);
    if pieces != [] {
      var init := pieces[..|pieces| - 1];
      DownloadReports(length, init);
      AcceptAllRebuilds(NewReceiver(length), init);
      AcceptReports(AcceptAll(NewReceiver(length), init), pieces[|pieces| - 1]);
    }
    HundredMeansAll(|Concat(pieces)|, length);
  }

  // ---- Frames on the wire, dispatched by id ----

  /** task_recv_binary_data for one raw message: flag, id, payload, write. */
  function Receive(open: map<Int64, Receiver>, msg: seq<Byte>, disk: bool): map<Int64, Receiver> {
    if Flag(msg) == FILES_BINARY && Payload(msg).Some? && Payload(msg).value.0 in open then
      var (id, data) := Payload(msg).value;
      open[id := Accept(open[id], data, disk)]
    else open
  }

  /** Only a binary frame of an open id changes anything, and then that id's file alone. */
  lemma OnlyFramesAreReceived(open: map<Int64, Receiver>, msg: seq<Byte>, id: Int64, data: seq<Byte>, disk: bool)
    ensures Receive(open, SetFilesBinary(id, data), disk) ==
            if id in open then open[id := Accept(open[id], data, disk)] else open
    ensures msg == [] || msg[0] != 2 || |msg| < 9 ==> Receive(open, msg, disk) == open
  {
    BinaryRoundTrip(id, data);
  }

  function ReceiveAll(open: map<Int64, Receiver>, wire: seq<seq<Byte>>): map<Int64, Receiver> {
    if wire == [] then open
    else Receive(ReceiveAll(open, wire[..|wire| - 1]), wire[|wire| - 1], true)
  }

  function Frames(id: Int64, pieces: seq<seq<Byte>>): seq<seq<Byte>> {
    seq(|pieces|, i requires 0 <= i < |pieces| => SetFilesBinary(id, pieces[i]))
  }

  lemma {:induction false} FramesReachTheirFile(open: map<Int64, Receiver>, id: Int64, pieces: seq<seq<Byte>>)
    requires id in open
    ensures ReceiveAll(open, Frames(id, pieces)) == open[id := AcceptAll(open[id], pieces)]
  {
    hide Accept, Payload, SetFilesBinary;
    if pieces != [] {
      var init, last := pieces[..|pieces| - 1], pieces[|pieces| - 1];
      var wire := Frames(id, pieces);
      assert wire[..|wire| - 1] == Frames(id, init);
      FramesReachTheirFile(open, id, init);
      BinaryRoundTrip(id, last);
    }
  }

  /**
   End to end: whatever the network does to the sends and wherever the pauses fall, the peer ends
   with the sender's bytes, and both counters with the file's length, if and only if the first
   ceil(L / 1024) sends of the upload succeed, which on an otherwise quiet link are the link's next
   ceil(L / 1024) sends. A failed send is not repeated: its piece is already counted and read.
   */
  lemma UploadReachesPeer(data: seq<Byte>, id: Int64, fate: nat -> bool, gap: nat -> nat, k: nat,
                          peer: map<Int64, Receiver>)
    requires data != [] && id in peer && peer[id] == NewReceiver(|data|)
    ensures var run := Whole(Fresh(data), fate, gap, 0, k);
            var got := ReceiveAll(peer, Frames(id, Delivered(run.tries)));
            && Chunks(|data|) <= |run.tries|
            && var succeeds := forall j :: 0 <= j < Chunks(|data|) ==> run.tries[j].up;
            && got.Keys == peer.Keys
            && (forall other :: other in peer && other != id ==> got[other] == peer[other])
            && run.after.count == run.after.length == got[id].length == |data|
            && (got[id].file == data <==> succeeds)
            && (got[id].count == |data| <==> succeeds)
            && (Quiet(gap) ==> (succeeds <==> SendsUp(fate, k, Chunks(|data|))))
  {
    hide AcceptAll, Whole, Frames, ReceiveAll, Delivered, NothingLost, Pieces, Chunks, SendsUp, Quiet;
    var run := Whole(Fresh(data), fate, gap, 0, k);
    FramesReachTheirFile(peer, id, Delivered(run.tries));
    AcceptAllRebuilds(peer[id], Delivered(run.tries));
    WholeHandsOver(Fresh(data), fate, gap, 0, k);
    DeliveredBytes(run.tries);
    NothingLostIff(data, fate, gap, k);
  }

  /**
   The smallest lossy run: the only send fails, the next call finds the stream at its end and
   returns true, although nothing was delivered. FilesClient.LostUploadIsReported is the client's side of it.
   */
  lemma FailedSendIsLost(b: Byte, fate: nat -> bool, gap: nat -> nat, k: nat)
    requires !fate(k + gap(0))
    ensures var run := Whole(Fresh([b]), fate, gap, 0, k);
            run.calls == 2 && run.after.count == 1 && Delivered(run.tries) == []
  {
    hide Tick;
    var s := Fresh([b]);
    var c := AddData(s, fate, k + gap(0));
    assert Piece(s) == [b];
    assert c.tries == [Try([b], false)] && !c.ok && c.after.eof;
    var rest := Whole(c.after, fate, gap, 1, k + gap(0) + 1);
    assert rest.calls == 1 && rest.tries == [];
    assert Whole(s, fate, gap, 0, k).tries == [Try([b], false)];
    assert Delivered([Try([b], false)]) == [];
  }
}
