/**
 The files behind the ids being received. FileTables keeps the bytes each stream has written; here they go
 to a path, which several ids may share: opening truncates the file, and each stream writes at its own
 position. Streams are taken as unbuffered.
 */
module Disk {
  import opened Bytes
  import opened Meter
  import opened Download
  import opened FileTables

  /** An operation; `path` is the file an OpenRecv is to write, and plays no part otherwise. */
  datatype Op = Op(event: Event, path: string)

  /** The path each id was last opened with, and what the files hold. */
  datatype Store = Store(paths: map<Int64, string>, contents: map<string, seq<Byte>>)

  function Zeros(n: nat): (s: seq<Byte>)
    ensures |s| == n
  {
    seq(n, _ => 0)
  }

  /** Writing at a position, whatever the file has become since. */
  function Overwrite(was: seq<Byte>, pos: nat, data: seq<Byte>): seq<Byte> {
    if data == [] then was
    else
      var front := if |was| < pos then was + Zeros(pos - |was|) else was[..pos];
      front + data + (if pos + |data| < |was| then was[pos + |data|..] else [])
  }

  /** The file is opened, and so truncated, before it is known whether the channel exists. */
  predicate Truncates(t: Tables, e: Event) {
    e.OpenRecv? && e.id !in t.recv && e.openable
  }

  /** A write that reaches the disk and changes something there. */
  predicate Writes(t: Tables, e: Event) {
    e.Data? && e.id in t.recv && t.recv[e.id].good && e.disk && e.data != []
  }

  function Next(s: Store, t: Tables, op: Op): Store {
    var e := op.event;
    if Truncates(t, e) then Store(s.paths[e.id := op.path], s.contents[op.path := []])
    else if Writes(t, e) && e.id in s.paths && s.paths[e.id] in s.contents then
      var path := s.paths[e.id];
      s.(contents := s.contents[path := Overwrite(s.contents[path], |t.recv[e.id].file|, e.data)])
    else s
  }

  function Events(run: seq<Op>): (es: seq<Event>)
    ensures |es| == |run|
  {
    seq(|run|, i requires 0 <= i < |run| => run[i].event)
  }

  ghost function TablesAfter(run: seq<Op>): (t: Tables)
    ensures Sound(t)
  {
    After(Events(run))
  }

  ghost function StoreAfter(run: seq<Op>): Store {
    if run == [] then Store(map[], map[])
    else
      var before := run[..|run| - 1];
      Next(StoreAfter(before), TablesAfter(before), run[|run| - 1])
  }

  lemma AfterOp(run: seq<Op>, n: nat)
    requires n < |run|
    ensures TablesAfter(run[..n + 1]) == Step(TablesAfter(run[..n]), run[n].event)
    ensures StoreAfter(run[..n + 1]) == Next(StoreAfter(run[..n]), TablesAfter(run[..n]), run[n])
  {
    assert run[..n + 1][..n] == run[..n];
    assert Events(run[..n + 1])[..n] == Events(run[..n]);
  }

  // ---- When the disk holds what was received ----

  /** The file of every open id holds what its stream has written. */
  ghost predicate OnDisk(t: Tables, s: Store) {
    forall id :: id in t.recv ==>
      id in s.paths && s.paths[id] in s.contents && s.contents[s.paths[id]] == t.recv[id].file
  }

  /** An opening spares the files that open ids have begun to write; a write goes to a file of one open id. */
  ghost predicate Spares(t: Tables, s: Store, op: Op) {
    var e := op.event;
    && (Truncates(t, e) ==> forall i :: i in t.recv && i in s.paths && s.paths[i] == op.path ==> t.recv[i].file == [])
    && (Writes(t, e) && e.id in s.paths ==>
          forall i :: i in t.recv && i in s.paths && i != e.id ==> s.paths[i] != s.paths[e.id])
  }

  lemma StepOnDiskIff(t: Tables, s: Store, op: Op)
    requires Sound(t) && OnDisk(t, s)
    ensures OnDisk(Step(t, op.event), Next(s, t, op)) <==> Spares(t, s, op)
  {
    hide Tick, Overwrite;
    var e, t', s' := op.event, Step(t, op.event), Next(s, t, op);
    if Writes(t, e) {
      var was := t.recv[e.id].file;
      AppendsAtEnd(was, e.data);
      assert t'.recv[e.id].file == was + e.data;
      forall i | i in t.recv && i != e.id && s.paths[i] == s.paths[e.id]
        ensures s'.contents[s'.paths[i]] != t'.recv[i].file
      {
        assert |s'.contents[s'.paths[i]]| > |t.recv[i].file|;
      }
    } else if Truncates(t, e) {
      forall i | i in t.recv && s.paths[i] == op.path && t.recv[i].file != []
        ensures i in t'.recv && s'.contents[s'.paths[i]] != t'.recv[i].file
      {
      }
    }
  }

  /** What a write leaves in the file: the data at its position, zeros in a gap before it, the rest as it was. */
  lemma WrittenAt(was: seq<Byte>, pos: nat, data: seq<Byte>, k: nat)
    requires data != [] && k < |Overwrite(was, pos, data)|
    ensures |Overwrite(was, pos, data)| == if |was| < pos + |data| then pos + |data| else |was|
    ensures Overwrite(was, pos, data)[k] ==
            if pos <= k < pos + |data| then data[k - pos] else if k < |was| then was[k] else 0
  {
  }

  /** A stream whose file was left alone writes at its end. */
  lemma AppendsAtEnd(was: seq<Byte>, data: seq<Byte>)
    requires data != []
    ensures Overwrite(was, |was|, data) == was + data && |was + data| > |was|
  {
  }

  /**
   In every run of opens, closes and data, whatever paths are opened, the files of all open ids hold what
   was received for them at every moment if and only if every operation spares the others' files.
   */
  lemma {:induction false} OnDiskThroughoutIff(run: seq<Op>)
    ensures (forall n :: 0 <= n <= |run| ==> OnDisk(TablesAfter(run[..n]), StoreAfter(run[..n]))) <==>
            (forall n :: 0 <= n < |run| ==> Spares(TablesAfter(run[..n]), StoreAfter(run[..n]), run[n]))
  {
    hide Step, Next, OnDisk, Spares, TablesAfter, StoreAfter;
    if forall n :: 0 <= n < |run| ==> Spares(TablesAfter(run[..n]), StoreAfter(run[..n]), run[n]) {
      forall n | 0 <= n <= |run|
        ensures OnDisk(TablesAfter(run[..n]), StoreAfter(run[..n]))
      {
        OnDiskUpTo(run, n);
      }
    }
    if forall n :: 0 <= n <= |run| ==> OnDisk(TablesAfter(run[..n]), StoreAfter(run[..n])) {
      forall n | 0 <= n < |run|
        ensures Spares(TablesAfter(run[..n]), StoreAfter(run[..n]), run[n])
      {
        AfterOp(run, n);
        assert OnDisk(TablesAfter(run[..n + 1]), StoreAfter(run[..n + 1]));
        StepOnDiskIff(TablesAfter(run[..n]), StoreAfter(run[..n]), run[n]);
      }
    }
  }

  lemma {:induction false} OnDiskUpTo(run: seq<Op>, n: nat)
    requires n <= |run|
    requires forall k :: 0 <= k < n ==> Spares(TablesAfter(run[..k]), StoreAfter(run[..k]), run[k])
    ensures OnDisk(TablesAfter(run[..n]), StoreAfter(run[..n]))
  {
    if n == 0 {
      assert Events(run[..0]) == [];
    } else {
      hide Step, Next, OnDisk, Spares, TablesAfter, StoreAfter;
      OnDiskUpTo(run, n - 1);
      AfterOp(run, n - 1);
      assert Spares(TablesAfter(run[..n - 1]), StoreAfter(run[..n - 1]), run[n - 1]);
      StepOnDiskIff(TablesAfter(run[..n - 1]), StoreAfter(run[..n - 1]), run[n - 1]);
    }
  }

  // ---- Distinct paths ----

  /** An opening names a path that no open id has. */
  ghost predicate OpensNew(t: Tables, s: Store, op: Op) {
    Truncates(t, op.event) ==> forall i :: i in t.recv && i in s.paths ==> s.paths[i] != op.path
  }

  ghost predicate PathsDiffer(t: Tables, s: Store) {
    forall i, j :: i in t.recv && j in t.recv && i in s.paths && j in s.paths && i != j ==> s.paths[i] != s.paths[j]
  }

  lemma NewPathsStep(t: Tables, s: Store, op: Op)
    requires Sound(t) && OnDisk(t, s) && PathsDiffer(t, s) && OpensNew(t, s, op)
    ensures PathsDiffer(Step(t, op.event), Next(s, t, op)) && Spares(t, s, op)
  {
  }

  lemma {:induction false} NewPathsUpTo(run: seq<Op>, n: nat)
    requires n <= |run|
    requires forall k :: 0 <= k < n ==> OpensNew(TablesAfter(run[..k]), StoreAfter(run[..k]), run[k])
    ensures OnDisk(TablesAfter(run[..n]), StoreAfter(run[..n]))
    ensures PathsDiffer(TablesAfter(run[..n]), StoreAfter(run[..n]))
  {
    if n == 0 {
      assert Events(run[..0]) == [];
    } else {
      hide Step, Next, OnDisk, Spares, OpensNew, PathsDiffer, TablesAfter, StoreAfter;
      NewPathsUpTo(run, n - 1);
      AfterOp(run, n - 1);
      assert OpensNew(TablesAfter(run[..n - 1]), StoreAfter(run[..n - 1]), run[n - 1]);
      NewPathsStep(TablesAfter(run[..n - 1]), StoreAfter(run[..n - 1]), run[n - 1]);
      StepOnDiskIff(TablesAfter(run[..n - 1]), StoreAfter(run[..n - 1]), run[n - 1]);
    }
  }

  /**
   When downloads are opened at paths that no open id has, the file of each open id is the in-order
   concatenation of its own payloads since it was opened, up to the first failed write.
   */
  lemma {:induction false} DiskHoldsPayloads(run: seq<Op>, id: Int64)
    requires forall n :: 0 <= n < |run| ==> OpensNew(TablesAfter(run[..n]), StoreAfter(run[..n]), run[n])
    ensures var s := StoreAfter(run);
            match Expected(Events(run), id)
            case Closed => true
            case Opened(_, _, bytes) => id in s.paths && s.paths[id] in s.contents && s.contents[s.paths[id]] == bytes
  {
    hide Step, Next, Spares, OpensNew, PathsDiffer, StoreAfter, Expected;
    NewPathsUpTo(run, |run|);
    assert run[..|run|] == run;
    EachFileHoldsItsPayloads(Events(run), id);
  }

  // ---- Two downloads into one file ----

  function SharedRun(ch: Int64, first: Int64, second: Int64, path: string, b: Byte): seq<Op> {
    [Op(Join(ch), ""), Op(OpenRecv(ch, first, 1, true), path), Op(Data(first, [b], true), ""),
     Op(OpenRecv(ch, second, 1, true), path)]
  }

  /** The first download has all its bytes, and its file none. */
  lemma SharedFileIsLost(ch: Int64, first: Int64, second: Int64, path: string, b: Byte)
    requires first != second
    ensures var run := SharedRun(ch, first, second, path, b);
            var t, s := TablesAfter(run), StoreAfter(run);
            && first in t.recv && t.recv[first].file == [b] && t.recv[first].count == t.recv[first].length
            && first in s.paths && s.paths[first] == path && path in s.contents && s.contents[path] == []
  {
    hide Step, Next, Accept;
    var run := SharedRun(ch, first, second, path, b);
    forall n | 0 <= n < 4
      ensures TablesAfter(run[..n + 1]) == Step(TablesAfter(run[..n]), run[n].event)
      ensures StoreAfter(run[..n + 1]) == Next(StoreAfter(run[..n]), TablesAfter(run[..n]), run[n])
    {
      AfterOp(run, n);
    }
    assert run[..0] == [] && run[..4] == run;
    assert Events([]) == [];
    hide TablesAfter, StoreAfter;
    FirstOpened(ch, first, path);
    FirstWritten(TablesAfter(run[..2]), StoreAfter(run[..2]), first, path, b);
    SecondOpened(TablesAfter(run[..3]), StoreAfter(run[..3]), ch, first, second, path);
  }

  lemma FirstOpened(ch: Int64, id: Int64, path: string)
    ensures var none, op := Store(map[], map[]), Op(OpenRecv(ch, id, 1, true), path);
            var t, s := Step(NO_TABLES, Join(ch)), Next(none, NO_TABLES, Op(Join(ch), ""));
            && Step(t, op.event).recv == map[id := NewReceiver(1)] && ch in Step(t, op.event).channels
            && Next(s, t, op) == Store(map[id := path], map[path := []])
  {
  }

  lemma FirstWritten(t: Tables, s: Store, id: Int64, path: string, b: Byte)
    requires Sound(t) && t.recv == map[id := NewReceiver(1)] && s == Store(map[id := path], map[path := []])
    ensures var op := Op(Data(id, [b], true), "");
            var t' := Step(t, op.event);
            && t'.recv.Keys == {id} && t'.recv[id].file == [b] && t'.recv[id].count == t'.recv[id].length
            && t'.channels == t.channels && Next(s, t, op).paths == s.paths
  {
    hide Tick, Overwrite;
  }

  lemma SecondOpened(t: Tables, s: Store, ch: Int64, first: Int64, second: Int64, path: string)
    requires Sound(t) && first in t.recv && second !in t.recv && first in s.paths && s.paths[first] == path
    ensures var op := Op(OpenRecv(ch, second, 1, true), path);
            var t', s' := Step(t, op.event), Next(s, t, op);
            && first in t'.recv && t'.recv[first] == t.recv[first]
            && first in s'.paths && s'.paths[first] == path && path in s'.contents && s'.contents[path] == []
  {
  }
}
