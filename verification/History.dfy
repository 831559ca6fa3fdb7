/**
 The chat history of one account: a table for each friend, keyed by send time. SQLite is taken as a map
 whose inserts fail on a key clash and whose updates of a missing row do nothing.
 */
module History {
  import opened Bytes

  /** The `object` column. AL: received, shown on the left. AR: sent, shown on the right. */
  datatype Side = AL | AR

  datatype Row = Row(feedBack: Int64, nonRead: bool, types: string, side: Side, content: string)

  type Table = map<Int64, Row>
  type Db = map<Int64, Table>

  const NO_ROWS: Table := map[]

  function CreateTable(db: Db, friend: Int64): Db {
    if friend in db then db else db[friend := NO_ROWS]
  }

  function InsertRow(db: Db, friend: Int64, time: Int64, row: Row): Db {
    if friend in db && time !in db[friend] then
      var table: Table := db[friend][time := row];
      db[friend := table]
    else db
  }

  function SetFeedBack(db: Db, friend: Int64, time: Int64, feedBack: Int64): Db {
    if friend in db && time in db[friend] then
      db[friend := db[friend][time := db[friend][time].(feedBack := feedBack)]]
    else db
  }

  function SetNonRead(db: Db, friend: Int64, time: Int64, nonRead: bool): Db {
    if friend in db && time in db[friend] then
      db[friend := db[friend][time := db[friend][time].(nonRead := nonRead)]]
    else db
  }

  /** The row at a key, if there is one. */
  function Cell(db: Db, friend: Int64, time: Int64): Option<Row> {
    if friend in db && time in db[friend] then Some(db[friend][time]) else None
  }

  /** Each statement changes at most the one row it names, and says which one and how. */
  lemma OneCellChanges(db: Db, friend: Int64, time: Int64, row: Row, value: Int64, flag: bool, f: Int64, t: Int64)
    ensures var was, here := Cell(db, f, t), f == friend && t == time;
            && Cell(InsertRow(db, friend, time, row), f, t) ==
               (if here && friend in db && was.None? then Some(row) else was)
            && Cell(SetFeedBack(db, friend, time, value), f, t) ==
               (if here && was.Some? then Some(was.value.(feedBack := value)) else was)
            && Cell(SetNonRead(db, friend, time, flag), f, t) ==
               (if here && was.Some? then Some(was.value.(nonRead := flag)) else was)
            && Cell(CreateTable(db, friend), f, t) == was
    ensures f in CreateTable(db, friend) <==> f in db || f == friend
    ensures f in db <==> f in InsertRow(db, friend, time, row)
    ensures f in db <==> f in SetFeedBack(db, friend, time, value)
    ensures f in db <==> f in SetNonRead(db, friend, time, flag)
  {
  }

  function Unread(table: Table): set<Int64> {
    set t | t in table && table[t].nonRead
  }

  /** A SELECT lists each matching row once; no order is promised. */
  ghost predicate Lists(order: seq<Int64>, keys: set<Int64>) {
    (forall t :: t in order <==> t in keys) && Distinct(order)
  }

  predicate Distinct(s: seq<Int64>) {
    forall i, j :: 0 <= i < j < |s| ==> s[i] != s[j]
  }

  /** The table after the rows of `order` were marked as read, one by one. */
  function MarkAll(db: Db, friend: Int64, order: seq<Int64>): Db {
    if order == [] then db
    else SetNonRead(MarkAll(db, friend, order[..|order| - 1]), friend, order[|order| - 1], false)
  }

  lemma {:induction false} MarkAllMarks(db: Db, friend: Int64, order: seq<Int64>)
    requires friend in db
    ensures var d := MarkAll(db, friend, order);
            && d.Keys == db.Keys && d[friend].Keys == db[friend].Keys
            && (forall f :: f in db && f != friend ==> d[f] == db[f])
            && (forall t :: t in db[friend] ==>
                  d[friend][t] == if t in order then db[friend][t].(nonRead := false) else db[friend][t])
  {
    if order != [] {
      var init, last := order[..|order| - 1], order[|order| - 1];
      MarkAllMarks(db, friend, init);
      assert order == init + [last];
    }
  }

  /** sqlite_history, with sqlite_read_history's two loops. */
  class HistoryDb {
    var db: Db

    constructor ()
      ensures db == map[]
    {
      db := map[];
    }

    method CreateHistory(friend: Int64)
      modifies this
      ensures db == CreateTable(old(db), friend)
    {
      if friend !in db {
        db := db[friend := NO_ROWS];
      }
    }

    method InsertHistory(friend: Int64, time: Int64, row: Row) returns (ok: bool)
      modifies this
      ensures ok <==> friend in old(db) && time !in old(db)[friend]
      ensures db == InsertRow(old(db), friend, time, row)
    {
      ok := friend in db && time !in db[friend];
      if ok {
        var table: Table := db[friend][time := row];
        db := db[friend := table];
      }
    }

    method UpdateFeedBack(friend: Int64, time: Int64, feedBack: Int64) returns (ok: bool)
      modifies this
      ensures ok <==> friend in old(db)
      ensures db == SetFeedBack(old(db), friend, time, feedBack)
    {
      ok := friend in db;
      if ok && time in db[friend] {
        db := db[friend := db[friend][time := db[friend][time].(feedBack := feedBack)]];
      }
    }

    method UpdateNonRead(friend: Int64, time: Int64, nonRead: bool) returns (ok: bool)
      modifies this
      ensures ok <==> friend in old(db)
      ensures db == SetNonRead(old(db), friend, time, nonRead)
    {
      ok := friend in db;
      if ok && time in db[friend] {
        db := db[friend := db[friend][time := db[friend][time].(nonRead := nonRead)]];
      }
    }

    /** select_history, or with `onlyUnread` select_non_read. */
    method Select(friend: Int64, onlyUnread: bool) returns (ok: bool, lines: seq<(Int64, Row)>)
      ensures ok <==> friend in db
      ensures ok ==> Lists(Times(lines), if onlyUnread then Unread(db[friend]) else db[friend].Keys)
      ensures ok ==> forall l :: l in lines ==> l.0 in db[friend] && l.1 == db[friend][l.0]
    {
      lines := [];
      if friend !in db {
        return false, [];
      }
      var keys := if onlyUnread then Unread(db[friend]) else db[friend].Keys;
      var rest := keys;
      while rest != {}
        invariant rest <= keys && Distinct(Times(lines))
        invariant forall t :: t in Times(lines) <==> t in keys && t !in rest
        invariant forall l :: l in lines ==> l.0 in db[friend] && l.1 == db[friend][l.0]
      {
        var t :| t in rest;
        assert Times(lines + [(t, db[friend][t])]) == Times(lines) + [t];
        lines := lines + [(t, db[friend][t])];
        rest := rest - {t};
      }
      ok := true;
    }

    /**
     read_history and read_history_non_read, undisturbed: each selected row is delivered once, in
     the order of the select, and marked as read; nothing else changes.
     */
    method Read(friend: Int64, onlyUnread: bool) returns (shown: seq<(Int64, Row)>)
      modifies this
      ensures friend !in old(db) ==> shown == [] && db == old(db)
      ensures friend in old(db) ==>
                && Lists(Times(shown), if onlyUnread then Unread(old(db)[friend]) else old(db)[friend].Keys)
                && (forall l :: l in shown ==> l.0 in old(db)[friend] && l.1 == old(db)[friend][l.0])
                && db == MarkAll(old(db), friend, Times(shown))
                && friend in db && Unread(db[friend]) == {}
    {
      hide Unread, Lists, SetNonRead;
      shown := [];
      var ok, lines := Select(friend, onlyUnread);
      if ok {
        for i := 0 to |lines|
          invariant shown == lines[..i]
          invariant db == MarkAll(old(db), friend, Times(lines[..i]))
        {
          shown := shown + [lines[i]];
          assert Times(lines[..i + 1]) == Times(lines[..i]) + [lines[i].0];
          assert Times(lines[..i + 1])[..i] == Times(lines[..i]);
          var _ := UpdateNonRead(friend, lines[i].0, false);
        }
        assert lines[..|lines|] == lines;
        NothingUnreadAfter(old(db), friend, Times(lines), onlyUnread);
      }
    }
  }

  function Times(lines: seq<(Int64, Row)>): (s: seq<Int64>)
    ensures |s| == |lines|
  {
    seq(|lines|, i requires 0 <= i < |lines| => lines[i].0)
  }

  lemma NothingUnreadAfter(db: Db, friend: Int64, order: seq<Int64>, onlyUnread: bool)
    requires friend in db
    requires Lists(order, if onlyUnread then Unread(db[friend]) else db[friend].Keys)
    ensures friend in MarkAll(db, friend, order) && Unread(MarkAll(db, friend, order)[friend]) == {}
  {
    MarkAllMarks(db, friend, order);
  }
}
