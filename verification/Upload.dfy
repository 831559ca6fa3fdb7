/**
 The sending side of files_io: a file is read in 1024-byte pieces, each piece is handed to the
 network, and a call pauses whenever the running total reaches a multiple of 2 MiB.
 These are the values that the class `FilesChannel` computes with; the laws of whole uploads are
 proved here.
 */
module Upload {
  import opened Bytes
  import opened Meter

  const CHUNK: nat := 1024
  const FLUX: nat := 2 * 1024 * 1024

  /** fs_send, with its ifstream as (data, pos, eof). Eof is set only by a read that comes up short. */
  datatype Sender = Sender(data: seq<Byte>, pos: nat, eof: bool, count: nat, length: NonZero, gauge: Gauge)

  ghost predicate Valid(s: Sender) {
    && s.pos == s.count <= |s.data| == s.length
    && (s.eof ==> s.pos == |s.data|)
    && (!s.eof ==> s.pos % CHUNK == 0)
  }

  function Fresh(data: seq<Byte>): (s: Sender)
    requires data != []
    ensures Valid(s)
  {
    Sender(data, 0, false, 0, |data|, ZERO_GAUGE)
  }

  function Piece(s: Sender): seq<Byte>
    requires s.pos <= |s.data|
  {
    s.data[s.pos..Min(s.pos + CHUNK, |s.data|)]
  }

  /** One pass of the loop, apart from the send: read, count, report. */
  function Read(s: Sender): Sender
    requires s.pos <= |s.data|
  {
    var next := Min(s.pos + CHUNK, |s.data|);
    var count := s.count + (next - s.pos);
    Sender(s.data, next, s.pos + CHUNK > |s.data|, count, s.length, Tick(s.gauge, count, s.length))
  }

  /** What a call can still do: nothing after eof. */
  function Left(s: Sender): nat
    requires s.pos <= |s.data|
  {
    if s.eof then 0 else |s.data| - s.pos + 1
  }

  lemma ReadKeepsValid(s: Sender)
    requires Valid(s) && !s.eof
    ensures Valid(Read(s)) && Read(s).data == s.data && Left(Read(s)) < Left(s)
  {
    hide Tick;
  }

  /** check_linit_flux for an open id. */
  predicate GoOn(count: nat, up: bool) {
    count % FLUX != 0 && up
  }

  /** A piece handed to the network, and whether the send succeeded. */
  datatype Try = Try(piece: seq<Byte>, up: bool)

  datatype Call = Call(after: Sender, tries: seq<Try>, ok: bool)

  /** add_data_send for an open id; `fate(k)` is the outcome of the k-th send on the link. */
  function AddData(s: Sender, fate: nat -> bool, k: nat): (c: Call)
    requires Valid(s)
    ensures Valid(c.after) && c.after.data == s.data
    ensures Left(c.after) <= Left(s)
    ensures !c.ok ==> Left(c.after) < Left(s)
    ensures c.ok ==> c.after.eof
    decreases Left(s)
  {
    hide Read, GoOn;
    if s.eof then Call(s, [], true)
    else
      ReadKeepsValid(s);
      var r := Read(s);
      var t := Try(Piece(s), fate(k));
      if !GoOn(r.count, t.up) then Call(r, [t], false)
      else
        var rest := AddData(r, fate, k + 1);
        Call(rest.after, [t] + rest.tries, rest.ok)
  }

  datatype Run = Run(after: Sender, tries: seq<Try>, calls: nat)

  /**
   The whole upload: the peer answers every begin, so add_data_send is called until it returns true.
   The link's next send is number k; before the i-th call, other traffic takes `gap(i)` sends.
   */
  function Whole(s: Sender, fate: nat -> bool, gap: nat -> nat, i: nat, k: nat): (run: Run)
    requires Valid(s)
    ensures Valid(run.after) && run.after.data == s.data
    ensures run.after.eof
    decreases Left(s)
  {
    var c := AddData(s, fate, k + gap(i));
    if c.ok then Run(c.after, c.tries, 1)
    else
      var rest := Whole(c.after, fate, gap, i + 1, k + gap(i) + |c.tries|);
      Run(rest.after, c.tries + rest.tries, 1 + rest.calls)
  }

  /** No other traffic between the calls. */
  ghost predicate Quiet(gap: nat -> nat) {
    forall i :: gap(i) == 0
  }

  function Pieces(tries: seq<Try>): (ps: seq<seq<Byte>>)
    ensures |ps| == |tries|
  {
    seq(|tries|, i requires 0 <= i < |tries| => tries[i].piece)
  }

  /** The pieces that reached the wire, in order. */
  function Delivered(tries: seq<Try>): (ps: seq<seq<Byte>>) {
    if tries == [] then []
    else
      var last := tries[|tries| - 1];
      Delivered(tries[..|tries| - 1]) + (if last.up then [last.piece] else [])
  }

  /** No byte was lost: the only sends that failed carried an empty piece. */
  predicate NothingLost(tries: seq<Try>) {
    forall i :: 0 <= i < |tries| && tries[i].piece != [] ==> tries[i].up
  }

  // ---- Every byte is handed over exactly once, in order, whatever the sends do ----

  lemma PiecesAppend(a: seq<Try>, b: seq<Try>)
    ensures Concat(Pieces(a + b)) == Concat(Pieces(a)) + Concat(Pieces(b))
  {
    assert Pieces(a + b) == Pieces(a) + Pieces(b);
    ConcatAppend(Pieces(a), Pieces(b));
  }

  lemma NoPieces()
    ensures Concat(Pieces([])) == []
  {
  }

  lemma ReadHandsOver(s: Sender, up: bool)
    requires Valid(s) && !s.eof
    ensures s.pos <= Read(s).pos
    ensures Concat(Pieces([Try(Piece(s), up)])) == s.data[s.pos..Read(s).pos]
  {
    hide Tick;
    assert Pieces([Try(Piece(s), up)]) == [Piece(s)];
    ConcatSnoc([], Piece(s));
  }

  lemma {:induction false} CallHandsOver(s: Sender, fate: nat -> bool, k: nat)
    requires Valid(s)
    ensures s.pos <= AddData(s, fate, k).after.pos
    ensures Concat(Pieces(AddData(s, fate, k).tries)) == s.data[s.pos..AddData(s, fate, k).after.pos]
    decreases Left(s)
  {
    hide Read, GoOn, Pieces, Concat;
    if !s.eof {
      var r := Read(s);
      var t := Try(Piece(s), fate(k));
      ReadKeepsValid(s);
      ReadHandsOver(s, t.up);
      if GoOn(r.count, t.up) {
        CallHandsOver(r, fate, k + 1);
        var rest := AddData(r, fate, k + 1);
        PiecesAppend([t], rest.tries);
        assert s.data[s.pos..r.pos] + s.data[r.pos..rest.after.pos] == s.data[s.pos..rest.after.pos];
      }
    } else {
      assert s.data[s.pos..s.pos] == Concat(Pieces([])) by { NoPieces(); }
    }
  }

  lemma {:induction false} WholeHandsOver(s: Sender, fate: nat -> bool, gap: nat -> nat, i: nat, k: nat)
    requires Valid(s)
    ensures var run := Whole(s, fate, gap, i, k);
            Concat(Pieces(run.tries)) == s.data[s.pos..] && run.after.count == run.after.length == |s.data|
    decreases Left(s)
  {
    hide AddData, Pieces, Concat;
    var c := AddData(s, fate, k + gap(i));
    CallHandsOver(s, fate, k + gap(i));
    SplitTail(s.data, s.pos, c.after.pos);
    if !c.ok {
      WholeHandsOver(c.after, fate, gap, i + 1, k + gap(i) + |c.tries|);
      PiecesAppend(c.tries, Whole(c.after, fate, gap, i + 1, k + gap(i) + |c.tries|).tries);
    }
  }

  lemma SplitTail(data: seq<Byte>, p: nat, q: nat)
    requires p <= q <= |data|
    ensures data[p..q] + data[q..] == data[p..]
    ensures q == |data| ==> data[p..q] == data[p..]
  {
  }

  // ---- What arrives is the file exactly when no send of a non-empty piece failed ----

  lemma {:induction false} DeliveredBytes(tries: seq<Try>)
    ensures |Concat(Delivered(tries))| <= |Concat(Pieces(tries))|
    ensures NothingLost(tries) ==> Concat(Delivered(tries)) == Concat(Pieces(tries))
    ensures !NothingLost(tries) ==> |Concat(Delivered(tries))| < |Concat(Pieces(tries))|
  {
    if tries != [] {
      var init, last := tries[..|tries| - 1], tries[|tries| - 1];
      DeliveredBytes(init);
      assert tries == init + [last];
      assert Pieces(tries) == Pieces(init) + [last.piece];
      ConcatSnoc(Pieces(init), last.piece);
      if last.up {
        ConcatSnoc(Delivered(init), last.piece);
      } else {
        assert Delivered(tries) == Delivered(init);
      }
      assert NothingLost(tries) <==> NothingLost(init) && (last.piece != [] ==> last.up);
    }
  }

  /** The j-th piece of what lies at and after pos; empty behind the end. */
  function Slice(data: seq<Byte>, pos: nat, j: nat): seq<Byte> {
    data[Min(pos + CHUNK * j, |data|)..Min(pos + CHUNK * (j + 1), |data|)]
  }

  /** The number of pieces a file is made of. */
  function Chunks(length: nat): nat {
    (length + CHUNK - 1) / CHUNK
  }

  /** The sends k, …, k + n - 1 of the link succeed. */
  ghost predicate SendsUp(fate: nat -> bool, k: nat, n: nat) {
    forall j :: k <= j < k + n ==> fate(j)
  }

  ghost predicate TriesAre(tries: seq<Try>, data: seq<Byte>, pos: nat, fate: nat -> bool, k: nat, alone: bool) {
    forall j :: 0 <= j < |tries| ==>
      tries[j].piece == Slice(data, pos, j) && (alone ==> tries[j].up == fate(k + j))
  }

  lemma TriesJoin(a: seq<Try>, b: seq<Try>, data: seq<Byte>, pos: nat, mid: nat, fate: nat -> bool, k: nat, alone: bool)
    requires TriesAre(a, data, pos, fate, k, alone)
    requires TriesAre(b, data, mid, fate, k + |a|, alone)
    requires mid == Min(pos + CHUNK * |a|, |data|)
    ensures TriesAre(a + b, data, pos, fate, k, alone)
  {
    forall j | 0 <= j < |a + b|
      ensures (a + b)[j].piece == Slice(data, pos, j) && (alone ==> (a + b)[j].up == fate(k + j))
    {
      if j >= |a| {
        assert (a + b)[j] == b[j - |a|];
        assert Slice(data, mid, j - |a|) == Slice(data, pos, j);
        assert fate(k + |a| + (j - |a|)) == fate(k + j);
      }
    }
  }

  /** The j-th send of a call carries the j-th piece, and has the outcome the link gives it. */
  lemma {:induction false} CallTries(s: Sender, fate: nat -> bool, k: nat, alone: bool)
    requires Valid(s)
    ensures var c := AddData(s, fate, k);
            && c.after.pos == Min(s.pos + CHUNK * |c.tries|, |s.data|)
            && TriesAre(c.tries, s.data, s.pos, fate, k, alone)
    decreases Left(s)
  {
    hide Tick, GoOn, TriesAre;
    if s.eof {
      assert TriesAre([], s.data, s.pos, fate, k, alone) by { NoTries(s.data, s.pos, fate, k, alone); }
    } else {
      var r, t := Read(s), Try(Piece(s), fate(k));
      FirstTry(s, fate, k, alone);
      if GoOn(r.count, t.up) {
        CallTries(r, fate, k + 1, alone);
        TriesJoin([t], AddData(r, fate, k + 1).tries, s.data, s.pos, r.pos, fate, k, alone);
      }
    }
  }

  lemma NoTries(data: seq<Byte>, pos: nat, fate: nat -> bool, k: nat, alone: bool)
    ensures TriesAre([], data, pos, fate, k, alone)
  {
  }

  lemma FirstTry(s: Sender, fate: nat -> bool, k: nat, alone: bool)
    requires Valid(s) && !s.eof
    ensures TriesAre([Try(Piece(s), fate(k))], s.data, s.pos, fate, k, alone)
  {
    assert Slice(s.data, s.pos, 0) == Piece(s);
  }

  lemma {:induction false} WholeTries(s: Sender, fate: nat -> bool, gap: nat -> nat, i: nat, k: nat)
    requires Valid(s)
    ensures var run := Whole(s, fate, gap, i, k);
            && |s.data| <= s.pos + CHUNK * |run.tries|
            && TriesAre(run.tries, s.data, s.pos, fate, k, Quiet(gap))
    decreases Left(s)
  {
    hide AddData, TriesAre;
    var alone := Quiet(gap);
    var c := AddData(s, fate, k + gap(i));
    CallTries(s, fate, k + gap(i), alone);
    assert TriesAre(c.tries, s.data, s.pos, fate, k, alone) by {
      SameStart(c.tries, s.data, s.pos, fate, k + gap(i), k, alone);
    }
    if !c.ok {
      WholeTries(c.after, fate, gap, i + 1, k + gap(i) + |c.tries|);
      var rest := Whole(c.after, fate, gap, i + 1, k + gap(i) + |c.tries|).tries;
      SameStart(rest, s.data, c.after.pos, fate, k + gap(i) + |c.tries|, k + |c.tries|, alone);
      TriesJoin(c.tries, rest, s.data, s.pos, c.after.pos, fate, k, alone);
    }
  }

  lemma SameStart(tries: seq<Try>, data: seq<Byte>, pos: nat, fate: nat -> bool, k: nat, k': nat, alone: bool)
    requires TriesAre(tries, data, pos, fate, k, alone) && (alone ==> k == k')
    ensures TriesAre(tries, data, pos, fate, k', alone)
  {
  }

  /** Whether bytes were lost is decided by the sends of the file's own pieces alone. */
  lemma NothingLostIff(data: seq<Byte>, fate: nat -> bool, gap: nat -> nat, k: nat)
    requires data != []
    ensures var tries := Whole(Fresh(data), fate, gap, 0, k).tries;
            && Chunks(|data|) <= |tries|
            && (NothingLost(tries) <==> forall j :: 0 <= j < Chunks(|data|) ==> tries[j].up)
            && (Quiet(gap) ==> (NothingLost(tries) <==> SendsUp(fate, k, Chunks(|data|))))
  {
    hide Whole;
    var tries := Whole(Fresh(data), fate, gap, 0, k).tries;
    WholeTries(Fresh(data), fate, gap, 0, k);
    LostOnlyInPieces(tries, data, fate, k, Quiet(gap));
  }

  lemma LostOnlyInPieces(tries: seq<Try>, data: seq<Byte>, fate: nat -> bool, k: nat, alone: bool)
    requires TriesAre(tries, data, 0, fate, k, alone) && |data| <= CHUNK * |tries|
    ensures Chunks(|data|) <= |tries|
    ensures NothingLost(tries) <==> forall j :: 0 <= j < Chunks(|data|) ==> tries[j].up
    ensures alone ==> (NothingLost(tries) <==> SendsUp(fate, k, Chunks(|data|)))
  {
    var n := Chunks(|data|);
    assert forall j :: 0 <= j < |tries| ==> (tries[j].piece != [] <==> j < n);
    if alone {
      assert forall j :: 0 <= j < n ==> tries[j].up == fate(k + j);
      forall j | k <= j < k + n && (forall m :: 0 <= m < n ==> tries[m].up)
        ensures fate(j)
      {
        assert tries[j - k].up;
      }
    }
  }

  /**
   The bytes on the wire are the file exactly when the sends of its pieces all succeed: the first
   ceil(L / 1024) sends of the upload, and on an otherwise quiet link simply the next ceil(L / 1024) sends.
   */
  lemma DeliveredIffSendsSucceed(data: seq<Byte>, fate: nat -> bool, gap: nat -> nat, k: nat)
    requires data != []
    ensures var tries := Whole(Fresh(data), fate, gap, 0, k).tries;
            && Chunks(|data|) <= |tries|
            && (Concat(Delivered(tries)) == data <==> forall j :: 0 <= j < Chunks(|data|) ==> tries[j].up)
            && (Quiet(gap) ==> (Concat(Delivered(tries)) == data <==> SendsUp(fate, k, Chunks(|data|))))
  {
    hide Whole, NothingLost, Delivered, Concat, Pieces;
    WholeHandsOver(Fresh(data), fate, gap, 0, k);
    DeliveredBytes(Whole(Fresh(data), fate, gap, 0, k).tries);
    NothingLostIff(data, fate, gap, k);
  }

  // ---- When a call ends ----

  /** The position after the j-th read of 1024 bytes from `pos` on. */
  function PosAfter(pos: nat, length: nat, j: nat): nat {
    Min(pos + 1024 * (j + 1), length)
  }

  /** After this try the call returns false: the send failed, or the total is a multiple of 2 MiB. */
  predicate Halts(t: Try, total: nat) {
    !t.up || total % 2097152 == 0
  }

  lemma ReadGoesOnIff(s: Sender, up: bool)
    requires Valid(s) && !s.eof
    ensures GoOn(Read(s).count, up) <==> !Halts(Try(Piece(s), up), PosAfter(s.pos, |s.data|, 0))
    ensures Read(s).pos == PosAfter(s.pos, |s.data|, 0)
    ensures Read(s).eof <==> s.pos + 1024 > |s.data|
  {
    hide Tick;
  }

  /** The j-th try neither halts the call nor reads past the end of the file. */
  predicate GoesOn(t: Try, pos: nat, length: nat, j: nat) {
    !Halts(t, PosAfter(pos, length, j)) && pos + 1024 * (j + 1) <= length
  }

  /** Every try of the call but the last continues it; it is ok iff the last does not halt it. */
  predicate EndsAtLast(tries: seq<Try>, ok: bool, pos: nat, length: nat) {
    && tries != []
    && (forall j :: 0 <= j < |tries| - 1 ==> GoesOn(tries[j], pos, length, j))
    && (ok <==> !Halts(tries[|tries| - 1], PosAfter(pos, length, |tries| - 1)))
  }

  lemma EndsWithOneMore(t: Try, tries: seq<Try>, ok: bool, pos: nat, length: nat)
    requires pos + 1024 <= length && !Halts(t, pos + 1024) && EndsAtLast(tries, ok, pos + 1024, length)
    ensures EndsAtLast([t] + tries, ok, pos, length)
  {
    hide Halts;
    var all := [t] + tries;
    forall j | 0 <= j < |all| - 1
      ensures GoesOn(all[j], pos, length, j)
    {
      if j > 0 {
        assert all[j] == tries[j - 1] && GoesOn(tries[j - 1], pos + 1024, length, j - 1);
        assert PosAfter(pos + 1024, length, j - 1) == PosAfter(pos, length, j);
      }
    }
  }

  /**
   A call sends piece after piece until the first of: a failed send, a total that is a multiple of 2 MiB,
   the end of the file. It answers true exactly when only the end of the file stopped it.
   */
  lemma {:induction false} CallEnds(s: Sender, fate: nat -> bool, k: nat)
    requires Valid(s)
    ensures var c := AddData(s, fate, k);
            && (if s.eof then c.tries == [] && c.ok else EndsAtLast(c.tries, c.ok, s.pos, |s.data|))
            && (c.after.eof <==> s.eof || s.pos + 1024 * |c.tries| > |s.data|)
            && (forall j :: 0 <= j < |c.tries| ==> c.tries[j].up == fate(k + j))
    decreases Left(s)
  {
    hide Read, GoOn, Piece, Halts, EndsAtLast;
    if !s.eof {
      var r, t := Read(s), Try(Piece(s), fate(k));
      ReadKeepsValid(s);
      ReadGoesOnIff(s, t.up);
      LastTry(t, GoOn(r.count, t.up), s.pos, |s.data|);
      if GoOn(r.count, t.up) {
        CallEnds(r, fate, k + 1);
        if !r.eof {
          EndsWithOneMore(t, AddData(r, fate, k + 1).tries, AddData(r, fate, k + 1).ok, s.pos, |s.data|);
        } else {
          assert [t] + [] == [t];
        }
      }
    }
  }

  lemma LastTry(t: Try, ok: bool, pos: nat, length: nat)
    requires ok <==> !Halts(t, PosAfter(pos, length, 0))
    ensures EndsAtLast([t], ok, pos, length)
  {
  }

  /** How many tries, from `pos` on, were the last of a call that returned false. */
  function Stops(tries: seq<Try>, pos: nat, length: nat): nat {
    if tries == [] then 0
    else
      var j := |tries| - 1;
      Stops(tries[..j], pos, length) + (if Halts(tries[j], PosAfter(pos, length, j)) then 1 else 0)
  }

  lemma {:induction false} StopsJoin(a: seq<Try>, b: seq<Try>, pos: nat, mid: nat, length: nat)
    requires mid == Min(pos + 1024 * |a|, length)
    ensures Stops(a + b, pos, length) == Stops(a, pos, length) + Stops(b, mid, length)
  {
    if b == [] {
      assert a + b == a;
    } else {
      var j := |b| - 1;
      StopsJoin(a, b[..j], pos, mid, length);
      assert (a + b)[..|a| + j] == a + b[..j];
    }
  }

  lemma {:induction false} NoStops(tries: seq<Try>, pos: nat, length: nat)
    requires forall j :: 0 <= j < |tries| ==> !Halts(tries[j], PosAfter(pos, length, j))
    ensures Stops(tries, pos, length) == 0
  {
    if tries != [] {
      NoStops(tries[..|tries| - 1], pos, length);
    }
  }

  lemma CallStops(s: Sender, fate: nat -> bool, k: nat)
    requires Valid(s)
    ensures var c := AddData(s, fate, k); Stops(c.tries, s.pos, |s.data|) == if c.ok then 0 else 1
  {
    hide AddData, Halts, PosAfter;
    CallEnds(s, fate, k);
    var tries := AddData(s, fate, k).tries;
    if !s.eof {
      NoStops(tries[..|tries| - 1], s.pos, |s.data|);
    }
  }

  /** The number of reads until the first one that comes up short. */
  lemma ReadCount(s: Sender, fate: nat -> bool, k: nat)
    requires Valid(s) && !s.eof
    ensures var c := AddData(s, fate, k);
            && c.after.pos == Min(s.pos + 1024 * |c.tries|, |s.data|)
            && |c.tries| + (if c.after.eof then 0 else (|s.data| - c.after.pos) / 1024 + 1)
               == (|s.data| - s.pos) / 1024 + 1
  {
    hide AddData, Halts, TriesAre;
    CallEnds(s, fate, k);
    CallTries(s, fate, k, false);
    var n, left := |AddData(s, fate, k).tries|, |s.data| - s.pos;
    assert n > 1 ==> GoesOn(AddData(s, fate, k).tries[n - 2], s.pos, |s.data|, n - 2);
    assert 1024 * (n - 1) <= left;
    if 1024 * n <= left {
      assert left == (left - 1024 * n) + 1024 * n;
      assert left / 1024 == (left - 1024 * n) / 1024 + n;
    } else {
      assert left / 1024 == n - 1;
    }
  }

  /** An upload takes one call more than there are stops, whatever sends fail. */
  lemma {:induction false} WholeCalls(s: Sender, fate: nat -> bool, gap: nat -> nat, i: nat, k: nat)
    requires Valid(s)
    ensures var run := Whole(s, fate, gap, i, k); run.calls == 1 + Stops(run.tries, s.pos, |s.data|)
    decreases Left(s)
  {
    hide AddData, Stops, TriesAre;
    var c := AddData(s, fate, k + gap(i));
    CallStops(s, fate, k + gap(i));
    CallTries(s, fate, k + gap(i), false);
    if !c.ok {
      var rest := Whole(c.after, fate, gap, i + 1, k + gap(i) + |c.tries|);
      WholeCalls(c.after, fate, gap, i + 1, k + gap(i) + |c.tries|);
      StopsJoin(c.tries, rest.tries, s.pos, c.after.pos, |s.data|);
    }
  }

  /** The whole file takes floor(L / 1024) + 1 reads. */
  lemma {:induction false} WholeReads(s: Sender, fate: nat -> bool, gap: nat -> nat, i: nat, k: nat)
    requires Valid(s)
    ensures |Whole(s, fate, gap, i, k).tries| == if s.eof then 0 else (|s.data| - s.pos) / 1024 + 1
    decreases Left(s)
  {
    hide AddData, EndsAtLast;
    var c := AddData(s, fate, k + gap(i));
    CallEnds(s, fate, k + gap(i));
    if !s.eof {
      ReadCount(s, fate, k + gap(i));
    }
    if !c.ok {
      WholeReads(c.after, fate, gap, i + 1, k + gap(i) + |c.tries|);
    }
  }

  // ---- How many calls an upload takes when no send fails ----

  ghost predicate AllUp(fate: nat -> bool) {
    forall k :: fate(k)
  }

  /** The next multiple of 2 MiB after pos. */
  function NextStop(pos: nat): nat {
    (pos / FLUX + 1) * FLUX
  }

  lemma StopAfterPiece(pos: nat)
    requires pos % CHUNK == 0
    ensures pos + CHUNK <= NextStop(pos)
    ensures pos + CHUNK < NextStop(pos) ==>
      (pos + CHUNK) % FLUX != 0 && NextStop(pos + CHUNK) == NextStop(pos)
    ensures pos + CHUNK == NextStop(pos) ==> (pos + CHUNK) % FLUX == 0
  {
    var q, m := pos / FLUX, pos % FLUX;
    assert pos == q * FLUX + m;
    assert m % CHUNK == 0 by { assert m == pos - q * 2048 * CHUNK; }
    assert m + CHUNK <= FLUX;
    if m + CHUNK < FLUX {
      assert pos + CHUNK == q * FLUX + (m + CHUNK);
      assert (pos + CHUNK) / FLUX == q && (pos + CHUNK) % FLUX == m + CHUNK;
    }
  }

  lemma SmallRemainder(pos: nat, total: nat)
    requires pos <= total < NextStop(pos)
    ensures total % FLUX == 0 ==> total == pos && pos % FLUX == 0
  {
    var q := pos / FLUX;
    assert q * FLUX <= pos;
    assert total / FLUX == q;
  }

  /** With every send up, a call stops at the next multiple of 2 MiB, or else reads to the end. */
  lemma {:induction false} UpCall(s: Sender, fate: nat -> bool, k: nat)
    requires Valid(s) && AllUp(fate) && !s.eof
    ensures var c := AddData(s, fate, k);
            if NextStop(s.pos) <= |s.data| then !c.ok && !c.after.eof && c.after.pos == NextStop(s.pos)
            else c.after.eof && (c.ok <==> |s.data| % FLUX != 0)
    decreases Left(s)
  {
    hide Tick, Percent;
    var r := Read(s);
    StopAfterPiece(s.pos);
    assert fate(k);
    if r.eof {
      SmallRemainder(s.pos, |s.data|);
      assert r.pos == |s.data|;
    } else if GoOn(r.count, true) {
      UpCall(r, fate, k + 1);
    }
  }

  lemma NextStopAtStop(pos: nat, total: nat)
    requires pos % FLUX == 0 && pos <= total
    ensures NextStop(pos) == pos + FLUX && NextStop(pos) % FLUX == 0
    ensures (total - pos) / FLUX == if NextStop(pos) <= total then (total - NextStop(pos)) / FLUX + 1 else 0
  {
    var q := pos / FLUX;
    assert pos == q * FLUX;
    if NextStop(pos) <= total {
      var m := total - NextStop(pos);
      assert (m + FLUX) / FLUX == m / FLUX + 1;
    }
  }

  /**
   An upload whose sends all succeed takes floor(L / 2 MiB) + 1 calls, and one more when L is a
   multiple of 2 MiB, because the empty read at the end then pauses once again.
   */
  lemma {:induction false} UpCallCount(s: Sender, fate: nat -> bool, gap: nat -> nat, i: nat, k: nat)
    requires Valid(s) && AllUp(fate) && !s.eof && s.pos % FLUX == 0
    ensures Whole(s, fate, gap, i, k).calls ==
            (|s.data| - s.pos) / FLUX + (if |s.data| % FLUX == 0 then 2 else 1)
    decreases Left(s)
  {
    hide AddData, NextStop;
    var c := AddData(s, fate, k + gap(i));
    UpCall(s, fate, k + gap(i));
    NextStopAtStop(s.pos, |s.data|);
    if NextStop(s.pos) <= |s.data| {
      UpCallCount(c.after, fate, gap, i + 1, k + gap(i) + |c.tries|);
    } else if !c.ok {
      assert AddData(c.after, fate, k + gap(i) + |c.tries| + gap(i + 1)).ok;
    }
  }

  // ---- Progress reports over a whole upload ----

  lemma ReadReports(s: Sender)
    requires Valid(s) && Measurable(s.length) && Faithful(s.gauge, s.count, s.length)
    ensures Faithful(Read(s).gauge, Read(s).count, s.length) && Read(s).length == s.length
  {
    hide Tick, Faithful;
    TickKeepsFaithful(s.gauge, s.count, Read(s).count, s.length);
  }

  lemma {:induction false} CallReports(s: Sender, fate: nat -> bool, k: nat)
    requires Valid(s) && Measurable(s.length) && Faithful(s.gauge, s.count, s.length)
    ensures var a := AddData(s, fate, k).after; Faithful(a.gauge, a.count, a.length)
    decreases Left(s)
  {
    hide Read, GoOn, Faithful, Tick;
    if !s.eof {
      var r := Read(s);
      ReadKeepsValid(s);
      ReadReports(s);
      if GoOn(r.count, fate(k)) {
        CallReports(r, fate, k + 1);
      }
    }
  }

  lemma {:induction false} WholeReports(s: Sender, fate: nat -> bool, gap: nat -> nat, i: nat, k: nat)
    requires Valid(s) && Measurable(s.length) && Faithful(s.gauge, s.count, s.length)
    ensures var a := Whole(s, fate, gap, i, k).after; Faithful(a.gauge, a.count, a.length)
    decreases Left(s)
  {
    hide AddData, Faithful;
    CallReports(s, fate, k + gap(i));
    var c := AddData(s, fate, k + gap(i));
    if !c.ok {
      WholeReports(c.after, fate, gap, i + 1, k + gap(i) + |c.tries|);
    }
  }

  /** The percentages of an upload are exact, strictly increasing, and end with a single 100. */
  lemma UploadReports(data: seq<Byte>, fate: nat -> bool, gap: nat -> nat, k: nat)
    requires Measurable(|data|)
    ensures var a := Whole(Fresh(data), fate, gap, 0, k).after;
            && Faithful(a.gauge, |data|, |data|)
            && a.gauge.reports != []
            && a.gauge.reports[|a.gauge.reports| - 1] == Report(100, |data|, |data|)
  {
    var a := Whole(Fresh(data), fate, gap, 0, k).after;
    WholeReports(Fresh(data), fate, gap, 0, k);
    WholeHandsOver(Fresh(data), fate, gap, 0, k);
    CompleteReportsHundredOnce(a.gauge, |data|);
  }
}
