/** files_io and files_channel: the objects whose tables the transfer code updates in place. */
module FilesChannel {
  import opened Bytes
  import opened Framing
  import opened Meter
  import opened Upload
  import opened Download
  import opened FileTables

  /** The websocket as seen by send_data: the k-th send succeeds when `fate(k)`. */
  class Link {
    const fate: nat -> bool
    var attempts: nat
    var wire: seq<seq<Byte>>

    constructor (fate: nat -> bool)
      ensures this.fate == fate && attempts == 0 && wire == []
    {
      this.fate := fate;
      attempts := 0;
      wire := [];
    }

    method Send(msg: seq<Byte>) returns (ok: bool)
      modifies this
      ensures ok == fate(old(attempts)) && attempts == old(attempts) + 1
      ensures wire == old(wire) + (if ok then [msg] else [])
    {
      ok := fate(attempts);
      attempts := attempts + 1;
      if ok {
        wire := wire + [msg];
      }
    }
  }

  class FilesChannel {
    var mapSend: map<Int64, Sender>
    var mapRecv: map<Int64, Receiver>
    var mapChannel: map<Int64, Channel>

    ghost function State(): Tables
      reads this
    {
      Tables(mapSend, mapRecv, mapChannel)
    }

    constructor ()
      ensures State() == NO_TABLES
    {
      mapSend, mapRecv, mapChannel := map[], map[], map[];
    }

    // ---- files_io: sending ----

    method OpenFileSend(id: Int64, file: Option<File>) returns (ok: bool)
      modifies this`mapSend
      ensures ok <==> id !in old(mapSend) && file.Some?
      ensures mapSend == if ok then old(mapSend)[id := Fresh(file.value)] else old(mapSend)
    {
      if id in mapSend {
        return false;
      }
      match file
      case None => return false;
      case Some(data) =>
        mapSend := mapSend[id := Fresh(data)];
        return true;
    }

    /** The callback bound at files_create_upload_back: send the frame, then check the 2 MiB limit. */
    method SendPiece(id: Int64, piece: seq<Byte>, link: Link) returns (isSend: bool)
      modifies link
      ensures link.attempts == old(link.attempts) + 1
      ensures link.wire == old(link.wire) + Frames(id, Delivered([Try(piece, link.fate(old(link.attempts)))]))
      ensures isSend == if id in mapSend then GoOn(mapSend[id].count, link.fate(old(link.attempts)))
                        else link.fate(old(link.attempts))
    {
      var up := link.Send(SetFilesBinary(id, piece));
      assert Frames(id, [piece]) == [SetFilesBinary(id, piece)];
      assert Delivered([Try(piece, up)]) == if up then [piece] else [];
      isSend := CheckLimitFlux(up, id);
    }

    method CheckLimitFlux(ok: bool, id: Int64) returns (r: bool)
      ensures r == (ok && (id in mapSend ==> mapSend[id].count % 2097152 != 0))
    {
      if id in mapSend && mapSend[id].count % FLUX == 0 {
        return false;
      }
      return ok;
    }

    /** The body of the loop in add_data_send. */
    method ReadAndSend(id: Int64, link: Link) returns (isSend: bool)
      requires id in mapSend && Valid(mapSend[id]) && !mapSend[id].eof
      modifies this`mapSend, link
      ensures var s := old(mapSend)[id];
              var up := link.fate(old(link.attempts));
              && mapSend == old(mapSend)[id := Read(s)]
              && isSend == GoOn(Read(s).count, up)
              && link.attempts == old(link.attempts) + 1
              && link.wire == old(link.wire) + Frames(id, Delivered([Try(Piece(s), up)]))
    {
      hide Tick, Frames, Delivered, GoOn;
      var s := mapSend[id];
      // sp_fs->read and count_send += gcount()
      var piece := Piece(s);
      var count := s.count + |piece|;
      mapSend := mapSend[id := s.(pos := s.pos + |piece|, eof := |piece| < CHUNK, count := count)];
      isSend := SendPiece(id, piece, link);
      // prog and prog_cb
      mapSend := mapSend[id := mapSend[id].(gauge := Tick(s.gauge, count, s.length))];
      assert mapSend[id] == Read(s);
    }

    /** An id that is not open sends nothing and still answers true. */
    method AddDataSend(id: Int64, link: Link) returns (isSend: bool)
      requires Sound(State())
      modifies this`mapSend, link
      ensures State() == Step(old(State()), Pump(id, link.fate, old(link.attempts)))
      ensures id !in old(mapSend) ==> isSend && link.wire == old(link.wire) && link.attempts == old(link.attempts)
      ensures id in old(mapSend) ==>
                var call := AddData(old(mapSend)[id], link.fate, old(link.attempts));
                && isSend == call.ok
                && link.attempts == old(link.attempts) + |call.tries|
                && link.wire == old(link.wire) + Frames(id, Delivered(call.tries))
    {
      hide Frames, Delivered, GoOn, Read, AddData, Resumes, Piece;
      isSend := true;
      if id !in mapSend {
        return;
      }
      ghost var call := AddData(mapSend[id], link.fate, link.attempts);
      ghost var tries: seq<Try> := [];
      NothingFramed(id);
      ResumesAtStart(mapSend[id], link.fate, link.attempts);
      while !mapSend[id].eof
        invariant id in mapSend && mapSend == old(mapSend)[id := mapSend[id]]
        invariant Valid(mapSend[id]) && isSend
        invariant link.attempts == old(link.attempts) + |tries|
        invariant link.wire == old(link.wire) + Frames(id, Delivered(tries))
        invariant Resumes(call, tries, mapSend[id], link.fate, link.attempts)
        decreases Left(mapSend[id])
      {
        ghost var s, k := mapSend[id], link.attempts;
        ghost var t := Try(Piece(s), link.fate(k));
        ReadKeepsValid(s);
        ResumesAfterRead(call, tries, s, link.fate, k);
        isSend := ReadAndSend(id, link);
        FramesAppend(id, tries, [t]);
        tries := tries + [t];
        if !isSend {
          break;
        }
      }
      if isSend {
        ResumesAtEof(call, tries, mapSend[id], link.fate, link.attempts);
      }
    }

    method CloseFileSend(id: Int64)
      modifies this`mapSend
      ensures mapSend == old(mapSend) - {id}
    {
      mapSend := mapSend - {id};
    }

    // ---- files_io: receiving ----

    method OpenFileRecv(id: Int64, length: NonZero, openable: bool) returns (ok: bool)
      modifies this`mapRecv
      ensures ok <==> id !in old(mapRecv) && openable
      ensures mapRecv == if ok then old(mapRecv)[id := NewReceiver(length)] else old(mapRecv)
    {
      if id in mapRecv {
        return false;
      }
      if openable {
        mapRecv := mapRecv[id := NewReceiver(length)];
      }
      return openable;
    }

    method AddDataRecv(id: Int64, data: seq<Byte>, disk: bool) returns (ok: bool)
      requires Sound(State())
      modifies this`mapRecv
      ensures State() == Step(old(State()), Data(id, data, disk))
      ensures ok <==> id in old(mapRecv) && old(mapRecv)[id].good && disk
    {
      hide Tick, Sound;
      if id !in mapRecv {
        return false;
      }
      var r := mapRecv[id];
      ok := r.good && disk;
      if ok {
        r := r.(file := r.file + data);
      }
      r := r.(good := ok);
      if ok {
        r := r.(count := r.count + |data|);
      }
      r := r.(gauge := Tick(r.gauge, r.count, r.length));
      mapRecv := mapRecv[id := r];
    }

    method CloseFileRecv(id: Int64)
      modifies this`mapRecv
      ensures mapRecv == old(mapRecv) - {id}
    {
      mapRecv := mapRecv - {id};
    }

    method CheckLengthRecv(id: Int64) returns (complete: bool)
      ensures complete <==> id in mapRecv && mapRecv[id].count == mapRecv[id].length
    {
      complete := id in mapRecv && mapRecv[id].count == mapRecv[id].length;
    }

    // ---- files_channel: bookkeeping ----

    method AddFileSend(ch: Int64, id: Int64) returns (ok: bool)
      modifies this`mapChannel
      ensures ok <==> ch in old(mapChannel)
      ensures mapChannel ==
              if ok then old(mapChannel)[ch := old(mapChannel)[ch].(send := old(mapChannel)[ch].send + {id})]
                            else old(mapChannel)
    {
      ok := ch in mapChannel;
      if ok {
        mapChannel := mapChannel[ch := mapChannel[ch].(send := mapChannel[ch].send + {id})];
      }
    }

    method AddFileRecv(ch: Int64, id: Int64) returns (ok: bool)
      modifies this`mapChannel
      ensures ok <==> ch in old(mapChannel)
      ensures mapChannel ==
              if ok then old(mapChannel)[ch := old(mapChannel)[ch].(recv := old(mapChannel)[ch].recv + {id})]
                            else old(mapChannel)
    {
      ok := ch in mapChannel;
      if ok {
        mapChannel := mapChannel[ch := mapChannel[ch].(recv := mapChannel[ch].recv + {id})];
      }
    }

    method RemoveFileSend(ch: Int64, id: Int64)
      modifies this`mapChannel
      ensures mapChannel == ForgetSend(old(mapChannel), ch, id)
    {
      if ch in mapChannel {
        mapChannel := mapChannel[ch := mapChannel[ch].(send := mapChannel[ch].send - {id})];
      }
    }

    method RemoveFileRecv(ch: Int64, id: Int64)
      modifies this`mapChannel
      ensures mapChannel == ForgetRecv(old(mapChannel), ch, id)
    {
      if ch in mapChannel {
        mapChannel := mapChannel[ch := mapChannel[ch].(recv := mapChannel[ch].recv - {id})];
      }
    }

    method OpenFileSendChannel(ch: Int64, id: Int64, file: Option<File>) returns (ok: bool)
      requires Sound(State())
      modifies this
      ensures State() == Step(old(State()), OpenSend(ch, id, file))
      ensures ok <==> id !in old(mapSend) && file.Some? && ch in old(mapChannel)
    {
      var okOpen := OpenFileSend(id, file);
      var okFile := AddFileSend(ch, id);
      if okOpen && okFile {
        return true;
      }
      CloseFileSend(id);
      RemoveFileSend(ch, id);
      assert mapSend == old(mapSend) - {id};
      if ch in mapChannel {
        var ids := old(mapChannel)[ch].send;
        assert (ids + {id}) - {id} == ids - {id};
      }
      assert mapChannel == ForgetSend(old(mapChannel), ch, id);
      return false;
    }

    method OpenFileRecvChannel(ch: Int64, id: Int64, length: NonZero, openable: bool) returns (ok: bool)
      requires Sound(State())
      modifies this
      ensures State() == Step(old(State()), OpenRecv(ch, id, length, openable))
      ensures ok <==> id !in old(mapRecv) && openable && ch in old(mapChannel)
    {
      var okOpen := OpenFileRecv(id, length, openable);
      var okFile := AddFileRecv(ch, id);
      if okOpen && okFile {
        return true;
      }
      CloseFileRecv(id);
      RemoveFileRecv(ch, id);
      assert mapRecv == old(mapRecv) - {id};
      if ch in mapChannel {
        var ids := old(mapChannel)[ch].recv;
        assert (ids + {id}) - {id} == ids - {id};
      }
      assert mapChannel == ForgetRecv(old(mapChannel), ch, id);
      return false;
    }

    method CloseFileSendChannel(ch: Int64, id: Int64)
      requires Sound(State())
      modifies this
      ensures State() == Step(old(State()), CloseSend(ch, id))
    {
      CloseFileSend(id);
      RemoveFileSend(ch, id);
    }

    method CloseFileRecvChannel(ch: Int64, id: Int64)
      requires Sound(State())
      modifies this
      ensures State() == Step(old(State()), CloseRecv(ch, id))
    {
      CloseFileRecv(id);
      RemoveFileRecv(ch, id);
    }

    method AddIdChannel(ch: Int64) returns (added: bool)
      requires Sound(State())
      modifies this`mapChannel
      ensures State() == Step(old(State()), Join(ch))
      ensures added <==> ch !in old(mapChannel)
    {
      added := ch !in mapChannel;
      if added {
        mapChannel := mapChannel[ch := Channel({}, {})];
      }
    }

    method RemoveIdChannel(ch: Int64)
      requires Sound(State())
      modifies this`mapChannel
      ensures State() == Step(old(State()), Leave(ch))
    {
      mapChannel := mapChannel - {ch};
    }
  }

  /** `call` did `tries` so far and stands at `s`, with the k-th send of the link next. */
  ghost predicate Resumes(call: Call, tries: seq<Try>, s: Sender, fate: nat -> bool, k: nat)
    requires Valid(s)
  {
    var rest := AddData(s, fate, k);
    call == Call(rest.after, tries + rest.tries, rest.ok)
  }

  lemma ResumesAtStart(s: Sender, fate: nat -> bool, k: nat)
    requires Valid(s)
    ensures Resumes(AddData(s, fate, k), [], s, fate, k)
  {
    hide AddData;
  }

  lemma ResumesAfterRead(call: Call, tries: seq<Try>, s: Sender, fate: nat -> bool, k: nat)
    requires Valid(s) && !s.eof && Resumes(call, tries, s, fate, k)
    ensures Valid(Read(s))
    ensures var t := Try(Piece(s), fate(k));
            if GoOn(Read(s).count, fate(k)) then Resumes(call, tries + [t], Read(s), fate, k + 1)
            else call == Call(Read(s), tries + [t], false)
  {
    hide Read, GoOn;
    ReadKeepsValid(s);
    var t := Try(Piece(s), fate(k));
    var rest := AddData(Read(s), fate, k + 1).tries;
    assert tries + ([t] + rest) == (tries + [t]) + rest;
  }

  lemma ResumesAtEof(call: Call, tries: seq<Try>, s: Sender, fate: nat -> bool, k: nat)
    requires Valid(s) && s.eof && Resumes(call, tries, s, fate, k)
    ensures call == Call(s, tries, true)
  {
  }

  lemma NothingFramed(id: Int64)
    ensures Frames(id, Delivered([])) == []
  {
  }

  lemma FramesAppend(id: Int64, a: seq<Try>, b: seq<Try>)
    requires |b| == 1
    ensures Frames(id, Delivered(a + b)) == Frames(id, Delivered(a)) + Frames(id, Delivered(b))
  {
    assert (a + b)[..|a|] == a;
    assert b[..0] == [];
  }
}
