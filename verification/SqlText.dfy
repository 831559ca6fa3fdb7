/**
 The statements sqlite_base builds with stacked sformat passes: the text handed to exec_db, or the
 exception a pass ended in.
 */
module SqlText {
  import opened Bytes
  import opened Template
  import opened NumberedTemplate

  /** std::to_string of a number. */
  type NumberText = s: string | s != "" && '{' !in s && '}' !in s witness "0"

  datatype Column = Str(text: string) | Num(number: NumberText) {
    function Raw(): string {
      match this
      case Str(text) => text
      case Num(number) => number
    }
  }

  /** A value as it stands in a statement. */
  function Sql(c: Column): (s: string)
    ensures s != "" && s[0] != '{'
  {
    match c
    case Str(text) => "'" + text + "'"
    case Num(number) => number
  }

  predicate Plain(s: string) {
    '{' !in s && '}' !in s
  }

  lemma PlainNoPair(s: string)
    requires Plain(s)
    ensures NoPair(s)
  {
  }

  // ---- insert_db ----

  /** The slot for a value, `'{k}'` or `{k}`. */
  function Slot(c: Column, k: string): string {
    if c.Str? then "'{" + k + "}'" else "{" + k + "}"
  }

  /** insert_parse_sql */
  function ParseSql(sql: string, c: Column, app: bool): Outcome {
    match Format(Slot(c, "0"), [c.Raw()])
    case Throws => Throws
    case Text(flg) => Format(sql, [if app then flg + ",{0}" else flg])
  }

  /** insert_mpl */
  function InsertMpl(sql: string, cols: seq<Column>): Outcome
    requires cols != []
    decreases |cols|
  {
    if |cols| == 1 then ParseSql(sql, cols[0], false)
    else
      match ParseSql(sql, cols[0], true)
      case Throws => Throws
      case Text(s) => InsertMpl(s, cols[1..])
  }

  function InsertDb(table: string, cols: seq<Column>): Outcome
    requires cols != []
  {
    match Format("INSERT INTO " + "{0}" + " VALUES (" + "{1}" + ");", [table, "{0}"])
    case Throws => Throws
    case Text(sql) => InsertMpl(sql, cols)
  }

  /** q1,…,qn */
  function List(cols: seq<Column>): string
    requires cols != []
  {
    if |cols| == 1 then Sql(cols[0]) else Sql(cols[0]) + "," + List(cols[1..])
  }

  /** The list up to where its last column begins. */
  function Front(cols: seq<Column>): string
    requires cols != []
  {
    if |cols| == 1 then "" else Sql(cols[0]) + "," + Front(cols[1..])
  }

  function Quote(c: Column): string {
    if c.Str? then "'" else ""
  }

  lemma SlotQuotes(c: Column)
    ensures Slot(c, "0") == Quote(c) + "{0}" + Quote(c) && Slot(c, "1") == Quote(c) + "{1}" + Quote(c)
    ensures Sql(c) == Quote(c) + c.Raw() + Quote(c) && Plain(Quote(c))
  {
  }

  lemma SlotOfZero(c: Column)
    ensures Format(Slot(c, "0"), [c.Raw()]) == Text(Sql(c))
  {
    hide Format, TemplateOf, Filled;
    SlotQuotes(c);
    PlainNoPair(Quote(c));
    var ls, vals := [Quote(c), Quote(c)], [c.Raw()];
    Pass(ls, vals);
    WrittenOut1(ls, vals);
  }

  /** A pass over text whose only marker stands before the closing parenthesis. */
  lemma OnePass(pre: string, value: string)
    requires NoPair(pre)
    ensures Format(pre + "{0});", [value]) == Text(pre + value + ");")
  {
    hide Format, TemplateOf, Filled;
    var ls, vals := [pre, ");"], [value];
    Pass(ls, vals);
    WrittenOut1(ls, vals);
    assert pre + "{0});" == pre + "{0}" + ");";
  }

  /** s and want agree up to a place where want has a `{` and s has not. */
  ghost predicate BrokenAt(s: string, want: string, p: nat) {
    p < |s| && p < |want| && s[..p] == want[..p] && want[p] == '{' && s[p] != '{'
  }

  ghost predicate Broken(s: string, want: string) {
    exists p: nat :: BrokenAt(s, want, p)
  }

  /** A replacement at b, where want has the `{`, breaks the text for good. */
  lemma ReplacedTooEarly(s: string, want: string, value: string, b: nat, e: nat)
    requires value != "" && value[0] != '{'
    requires Flag(s, 0) == Some((b, e)) && b < |want| && s[..b] == want[..b] && want[b] == '{'
    ensures Format(s, [value]).Text? ==> Broken(Format(s, [value]).s, want)
  {
    hide Stoi, Flag, IsFlag, NoPairIn;
    FlagInside(s, b, e);
    var turn := Next(s, [value], 0, -1);
    if turn.Go? {
      var s' := ReplaceString(s, value, b, e);
      assert turn.s == s' && turn.end == e + |value|;
      assert s'[..b] == want[..b] && s'[b] == value[0];
      if Scan(s', [value], turn.end, turn.val).Text? {
        ScannedStays(s', [value], turn.end, turn.val, b);
        var r := Scan(s', [value], turn.end, turn.val).s;
        assert r[..b] == r[..b + 1][..b] && s'[..b] == s'[..b + 1][..b];
        assert r[b] == r[..b + 1][b] == s'[..b + 1][b] == s'[b];
        assert BrokenAt(r, want, b);
      }
    }
  }

  lemma FlagInside(s: string, b: nat, e: nat)
    requires Flag(s, 0) == Some((b, e))
    ensures b < e < |s| && s[b] == '{'
  {
  }

  /** The first pass that meets a marker in text that should have stayed as it is. */
  lemma PairBreaks(s: string, want: string, m: nat, value: string)
    requires value != "" && value[0] != '{'
    requires m <= |s| && m <= |want| && s[..m] == want[..m] && !NoPairIn(s, 0, m)
    ensures Format(s, [value]).Text? ==> Broken(Format(s, [value]).s, want)
  {
    hide Stoi, FindFlag;
    var i, j :| 0 <= i < j < m && s[i] == '{' && s[j] == '}';
    var (b, e) := Flag(s, 0).value;
    assert e <= j;
    assert s[..b] == s[..m][..b] && want[..b] == want[..m][..b];
    assert want[b] == want[..m][b] == s[..m][b] == s[b];
    ReplacedTooEarly(s, want, value, b, e);
  }

  /** Broken text stays broken in every later pass. */
  lemma BrokenStays(s: string, want: string, value: string)
    requires value != "" && value[0] != '{' && Broken(s, want)
    ensures Format(s, [value]).Text? ==> Broken(Format(s, [value]).s, want)
  {
    hide Stoi, FindFlag, IsFlag, NoPairIn;
    var p: nat :| BrokenAt(s, want, p);
    if Flag(s, 0).Some? && Format(s, [value]).Text? {
      var (b, e) := Flag(s, 0).value;
      FlagInside(s, b, e);
      if b < p {
        assert s[..b] == s[..p][..b] && want[..b] == want[..p][..b];
        assert want[b] == want[..p][b] == s[..p][b] == s[b];
        ReplacedTooEarly(s, want, value, b, e);
      } else {
        var turn := Next(s, [value], 0, -1);
        assert turn.s[..p + 1] == s[..p + 1];
        ScannedStays(turn.s, [value], turn.end, turn.val, p);
        var r := Format(s, [value]).s;
        assert r[..p] == r[..p + 1][..p] && s[..p] == s[..p + 1][..p];
        assert r[p] == r[..p + 1][p] == s[..p + 1][p] == s[p];
        assert BrokenAt(r, want, p);
      }
    }
  }

  lemma {:induction false} InsertStaysBroken(sql: string, cols: seq<Column>, want: string)
    requires cols != [] && Broken(sql, want)
    ensures InsertMpl(sql, cols) != Text(want)
    decreases |cols|
  {
    hide Format, Broken;
    var flg := if |cols| == 1 then Sql(cols[0]) else Sql(cols[0]) + ",{0}";
    SlotOfZero(cols[0]);
    BrokenStays(sql, want, flg);
    BrokenDiffers(want);
    if |cols| > 1 && Format(sql, [flg]).Text? {
      InsertStaysBroken(Format(sql, [flg]).s, cols[1..], want);
    }
  }

  lemma BrokenDiffers(want: string)
    ensures !Broken(want, want)
  {
  }

  lemma {:induction false} InsertMplIff(pre: string, cols: seq<Column>)
    requires cols != []
    ensures InsertMpl(pre + "{0});", cols) == Text(pre + List(cols) + ");") <==> NoPair(pre + Front(cols))
    decreases |cols|
  {
    hide Format, Broken, Sql, NoPair;
    var q, sql, want := Sql(cols[0]), pre + "{0});", pre + List(cols) + ");";
    var flg := if |cols| == 1 then q else q + ",{0}";
    SlotOfZero(cols[0]);
    if NoPair(pre) {
      OnePass(pre, flg);
      if |cols| == 1 {
        assert pre + Front(cols) == pre;
      } else {
        var pre' := pre + q + ",";
        assert pre + flg + ");" == pre' + "{0});";
        InsertMplIff(pre', cols[1..]);
        assert pre' + Front(cols[1..]) == pre + Front(cols);
        assert pre' + List(cols[1..]) + ");" == want;
      }
    } else {
      PairInPrefix(pre, Front(cols));
      PairInPrefix(pre, "{0});");
      assert sql[..|pre|] == pre == want[..|pre|];
      FirstOf(q, flg);
      PairBreaks(sql, want, |pre|, flg);
      BrokenDiffers(want);
      if |cols| > 1 && Format(sql, [flg]).Text? {
        InsertStaysBroken(Format(sql, [flg]).s, cols[1..], want);
      }
    }
  }

  lemma FirstOf(q: string, flg: string)
    requires q != "" && q[0] != '{' && q <= flg
    ensures flg != "" && flg[0] != '{'
  {
  }

  lemma PairInPrefix(a: string, b: string)
    requires !NoPair(a)
    ensures !NoPair(a + b) && !NoPairIn(a + b, 0, |a|)
  {
    var i, j :| 0 <= i < j < |a| && a[i] == '{' && a[j] == '}';
    assert (a + b)[i] == '{' && (a + b)[j] == '}';
  }

  /**
   insert_db builds exactly INSERT INTO t VALUES (q1,…,qn); for any number of columns, if and only if
   the text in front of the last value has no `{` followed by a `}`. The last value is arbitrary.
   */
  lemma {:induction false} InsertIff(table: string, cols: seq<Column>)
    requires cols != []
    ensures InsertDb(table, cols) == Text("INSERT INTO " + table + " VALUES (" + List(cols) + ");") <==>
            NoPair("INSERT INTO " + table + " VALUES (" + Front(cols))
  {
    hide InsertMpl, Format, Front, List, TemplateOf, Filled;
    var ls, vals := ["INSERT INTO ", " VALUES (", ");"], [table, "{0}"];
    Pass(ls, vals);
    WrittenOut2(ls, vals);
    var pre := "INSERT INTO " + table + " VALUES (";
    assert pre + "{0}" + ");" == pre + "{0});";
    InsertMplIff(pre, cols);
  }

  /** insert_record's columns: a request from another account, its note and one's own remark. */
  function Record(time: NumberText, account: NumberText, notes: string, remarks: string): seq<Column> {
    [Num(time), Num(account), Str(notes), Str(remarks)]
  }

  /** Whether a request is stored as it was made hangs on its note, whatever the remark. */
  lemma {:induction false} RecordIff(table: string, time: NumberText, account: NumberText,
                                     notes: string, remarks: string)
    requires Plain(table)
    ensures var cols := Record(time, account, notes, remarks);
            InsertDb(table, cols) == Text("INSERT INTO " + table + " VALUES (" + List(cols) + ");") <==> NoPair(notes)
  {
    hide InsertDb, NoPair, List, Sql;
    var cols := Record(time, account, notes, remarks);
    InsertIff(table, cols);
    RecordFront(time, account, notes, remarks);
    var before, behind := "INSERT INTO " + table + " VALUES (" + time + "," + account + ",'", "',";
    assert "INSERT INTO " + table + " VALUES (" + Front(cols) == before + notes + behind;
    assert Plain(before) && Plain(behind);
    NoPairAroundIff(before, notes, behind, 0);
    WholeText(before + notes + behind);
  }

  lemma RecordFront(time: NumberText, account: NumberText, notes: string, remarks: string)
    ensures Front(Record(time, account, notes, remarks)) == time + "," + account + ",'" + notes + "',"
  {
    var cols := Record(time, account, notes, remarks);
    assert cols[1..] == [Num(account), Str(notes), Str(remarks)];
    assert cols[1..][1..] == [Str(notes), Str(remarks)];
    assert cols[1..][1..][1..] == [Str(remarks)];
    assert Front(cols[1..][1..]) == "'" + notes + "'" + "," + "";
    assert Front(cols[1..]) == account + "," + Front(cols[1..][1..]);
    assert Front(cols) == time + "," + Front(cols[1..]);
  }

  /** A note that looks like a marker is enough. */
  lemma NoteSpoilsInsert(table: string, time: NumberText, account: NumberText, remarks: string)
    requires Plain(table)
    ensures var cols := Record(time, account, "{0}", remarks);
            InsertDb(table, cols) != Text("INSERT INTO " + table + " VALUES (" + List(cols) + ");")
  {
    hide InsertDb, List;
    RecordIff(table, time, account, "{0}", remarks);
    assert "{0}"[0] == '{' && "{0}"[2] == '}';
  }

  /** In particular, when the table and all but the last value are free of opening braces. */
  lemma {:induction false} BraceFreeFront(table: string, cols: seq<Column>)
    requires cols != [] && NoOpening(table)
    requires forall i :: 0 <= i < |cols| - 1 ==> NoOpening(cols[i].Raw())
    ensures NoPair("INSERT INTO " + table + " VALUES (" + Front(cols))
  {
    hide NoOpening, NoPair, Front;
    NoOpeningInFront(cols);
    NoOpeningConstants();
    NoOpeningConcat("INSERT INTO ", table);
    NoOpeningConcat("INSERT INTO " + table, " VALUES (");
    NoOpeningConcat("INSERT INTO " + table + " VALUES (", Front(cols));
  }

  predicate NoOpening(s: string) {
    forall i :: 0 <= i < |s| ==> s[i] != '{'
  }

  lemma NoOpeningConcat(a: string, b: string)
    requires NoOpening(a) && NoOpening(b)
    ensures NoOpening(a + b) && NoPair(a + b)
  {
  }

  lemma {:induction false} NoOpeningInFront(cols: seq<Column>)
    requires cols != []
    requires forall i :: 0 <= i < |cols| - 1 ==> NoOpening(cols[i].Raw())
    ensures NoOpening(Front(cols))
  {
    hide NoOpening, NoPair;
    NoOpeningConstants();
    if |cols| > 1 {
      assert NoOpening(cols[0].Raw());
      NoOpeningInSql(cols[0]);
      NoOpeningInFront(cols[1..]);
      NoOpeningConcat(Sql(cols[0]), ",");
      NoOpeningConcat(Sql(cols[0]) + ",", Front(cols[1..]));
    }
  }

  lemma NoOpeningConstants()
    ensures NoOpening("INSERT INTO ") && NoOpening(" VALUES (") && NoOpening(",") && NoOpening("")
  {
  }

  lemma NoOpeningInSql(c: Column)
    requires NoOpening(c.Raw())
    ensures NoOpening(Sql(c))
  {
  }

  // ---- update_db and delete_db ----

  function UpdateDb(table: string, field: string, id: Column, fieldUpdate: string, update: Column): Outcome {
    match Format(" UPDATE " + "{0}" + " SET " + "{1}" + " = " + "{2}" + " WHERE " + "{3}" + " = " + "{4}" + "; ",
                 [table, fieldUpdate, Slot(update, "0"), field, Slot(id, "1")])
    case Throws => Throws
    case Text(sql) => Format(sql, [update.Raw(), id.Raw()])
  }

  function DeleteDb(table: string, field: string, id: Column): Outcome {
    match Format(" DELETE FROM " + "{0}" + " WHERE " + "{1}" + " = " + "{2}" + "; ", [table, field, Slot(id, "0")])
    case Throws => Throws
    case Text(sql) => Format(sql, [id.Raw()])
  }

  /** The statements they are to build. */
  function UpdateText(table: string, field: string, id: Column, fieldUpdate: string, update: Column): string {
    " UPDATE " + table + " SET " + fieldUpdate + " = " + Sql(update) + " WHERE " + field + " = " + Sql(id) + "; "
  }

  function DeleteText(table: string, field: string, id: Column): string {
    " DELETE FROM " + table + " WHERE " + field + " = " + Sql(id) + "; "
  }

  /** Texts are quoted and numbers are not. */
  lemma Quoting(text: string, n: NumberText)
    ensures Sql(Str(text)) == "'" + text + "'" && Sql(Num(n)) == n
  {
  }

  /** Each part in its place. */
  lemma SpelledOut(table: string, field: string, id: Column, other: string, update: Column)
    ensures UpdateText(table, field, id, other, update) ==
            " UPDATE " + table + " SET " + other + " = " + Sql(update) + " WHERE " + field + " = " + Sql(id) + "; "
    ensures DeleteText(table, field, id) == " DELETE FROM " + table + " WHERE " + field + " = " + Sql(id) + "; "
  {
  }

  lemma ThreeColumns(a: Column, b: Column, c: Column)
    ensures List([a, b, c]) == Sql(a) + "," + (Sql(b) + "," + Sql(c))
  {
    hide Sql;
    var cols := [a, b, c];
    assert cols[1..] == [b, c] && cols[1..][1..] == [c];
    assert List(cols[1..]) == Sql(b) + "," + Sql(c);
  }

  /** Brace-free text put anywhere makes and breaks no pair. */
  lemma NoPairInsertIff(a: string, x: string, b: string)
    requires Plain(x)
    ensures NoPair(a + x + b) <==> NoPair(a + b)
  {
    var s, t := a + x + b, a + b;
    if i, j :| 0 <= i < j < |t| && t[i] == '{' && t[j] == '}' {
      var i', j' := if i < |a| then i else i + |x|, if j < |a| then j else j + |x|;
      assert s[i'] == '{' && s[j'] == '}';
    }
    if i, j :| 0 <= i < j < |s| && s[i] == '{' && s[j] == '}' {
      Outside(a, x, b, i);
      Outside(a, x, b, j);
      var i', j' := if i < |a| then i else i - |x|, if j < |a| then j else j - |x|;
      assert t[i'] == '{' && t[j'] == '}';
    }
  }

  lemma Outside(a: string, x: string, b: string, i: nat)
    requires i < |a + x + b| && (a + x + b)[i] !in x
    ensures i < |a| || |a| + |x| <= i
  {
  }

  /** The scan may enter text anywhere in its brace-free beginning. */
  lemma NoPairFromIff(x: string, s: string, k: nat)
    requires Plain(x) && k <= |x|
    ensures NoPairFrom(x + s, k) <==> NoPair(s)
  {
    if i, j :| 0 <= i < j < |s| && s[i] == '{' && s[j] == '}' {
      assert (x + s)[|x| + i] == '{' && (x + s)[|x| + j] == '}';
    }
    if i, j :| k <= i < j < |x + s| && (x + s)[i] == '{' && (x + s)[j] == '}' {
      assert s[i - |x|] == '{' && s[j - |x|] == '}';
    }
  }

  lemma NoPairAroundIff(x: string, s: string, y: string, k: nat)
    requires Plain(x) && Plain(y) && k <= |x|
    ensures NoPairFrom(x + s + y, k) <==> NoPair(s)
  {
    hide NoPair, NoPairFrom, Plain;
    NoPairInsertIff(s, y, "");
    NoPairFromIff(x, s + y, k);
    assert x + s + y == x + (s + y);
    assert s + y + "" == s + y && s + "" == s;
  }

  /** The text around the value in the second pass of delete_db. */
  function DeleteLiterals(table: string, field: string, q: string): Literals {
    [" DELETE FROM " + table + " WHERE " + field + (" = " + q), q + "; "]
  }

  lemma DeleteCleanIff(table: string, field: string, q: string)
    requires Plain(q)
    ensures CleanLiterals(DeleteLiterals(table, field, q)) <==> NoPair(table + field)
  {
    hide NoPair, NoPairFrom;
    PlainNoPair(q + "; ");
    NoPairInsertIff(table, " WHERE ", field);
    NoPairAroundIff(" DELETE FROM ", table + " WHERE " + field, " = " + q, 0);
    assert " DELETE FROM " + (table + " WHERE " + field) + (" = " + q) == DeleteLiterals(table, field, q)[0];
  }

  ghost predicate Fills(ls: Literals, vals: seq<string>)
    requires |vals| == |ls| - 1
  {
    Format(TemplateOf(ls, |vals|), vals) == Text(Filled(ls, vals, |vals|))
  }

  lemma DeletePasses(table: string, field: string, id: Column)
    ensures DeleteDb(table, field, id) == Text(DeleteText(table, field, id))
            <==> Fills(DeleteLiterals(table, field, Quote(id)), [id.Raw()])
  {
    hide Format, TemplateOf, Filled, Slot, Sql, Quote;
    var ls, vals := [" DELETE FROM ", " WHERE ", " = ", "; "], [table, field, Slot(id, "0")];
    Pass(ls, vals);
    WrittenOut3(ls, vals);
    WrittenOut1(DeleteLiterals(table, field, Quote(id)), [id.Raw()]);
    SlotQuotes(id);
    var body, q := " DELETE FROM " + table + " WHERE " + field, Quote(id);
    Requote(body, " = ", q, "{0}", "; ");
    Requote(body, " = ", q, id.Raw(), "; ");
  }

  lemma Requote(a: string, b: string, q: string, x: string, c: string)
    ensures a + b + (q + x + q) + c == (a + (b + q)) + x + (q + c)
  {
    assert a + b + (q + x + q) == (a + (b + q)) + x + q;
  }

  /**
   The two passes of delete_db build the one-shot statement for all values, also those holding markers,
   exactly when the table name followed by the column name holds no brace pair.
   */
  lemma DeleteIff(table: string, field: string)
    ensures (forall id :: DeleteDb(table, field, id) == Text(DeleteText(table, field, id)))
            <==> NoPair(table + field)
  {
    hide DeleteDb, DeleteText, Format, TemplateOf, Filled, NoPair, CleanLiterals, Sql;
    if NoPair(table + field) {
      forall id
        ensures DeleteDb(table, field, id) == Text(DeleteText(table, field, id))
      {
        DeletePasses(table, field, id);
        DeleteCleanIff(table, field, Quote(id));
        Pass(DeleteLiterals(table, field, Quote(id)), [id.Raw()]);
      }
    } else {
      var ls := DeleteLiterals(table, field, "'");
      DeleteCleanIff(table, field, "'");
      PassIff(ls);
      var vals: seq<string> :| |vals| == 1 && !Fills(ls, vals);
      DeletePasses(table, field, Str(vals[0]));
      assert vals == [vals[0]];
    }
  }

  /** The text around the values in the second pass of update_db. */
  function UpdateLiterals(table: string, field: string, fieldUpdate: string, qu: string, qi: string): Literals {
    [" UPDATE " + table + " SET " + fieldUpdate + (" = " + qu), (qu + " WHERE ") + field + (" = " + qi), qi + "; "]
  }

  lemma UpdateCleanIff(table: string, field: string, fieldUpdate: string, qu: string, qi: string)
    requires Plain(qu) && Plain(qi)
    ensures CleanLiterals(UpdateLiterals(table, field, fieldUpdate, qu, qi))
            <==> NoPair(table + fieldUpdate) && NoPair(field)
  {
    hide NoPair, NoPairFrom;
    PlainNoPair(qi + "; ");
    NoPairInsertIff(table, " SET ", fieldUpdate);
    NoPairAroundIff(" UPDATE ", table + " SET " + fieldUpdate, " = " + qu, 0);
    NoPairAroundIff(qu + " WHERE ", field, " = " + qi, 2);
    var ls := UpdateLiterals(table, field, fieldUpdate, qu, qi);
    assert " UPDATE " + (table + " SET " + fieldUpdate) + (" = " + qu) == ls[0];
    assert CleanLiterals(ls) <==> NoPairFrom(ls[0], 0) && NoPairFrom(ls[1], 2);
  }

  lemma UpdatePasses(table: string, field: string, id: Column, fieldUpdate: string, update: Column)
    ensures UpdateDb(table, field, id, fieldUpdate, update) == Text(UpdateText(table, field, id, fieldUpdate, update))
            <==> Fills(UpdateLiterals(table, field, fieldUpdate, Quote(update), Quote(id)), [update.Raw(), id.Raw()])
  {
    hide Format, TemplateOf, Filled, Slot, Sql, Quote;
    var qu, qi := Quote(update), Quote(id);
    FirstUpdatePass(table, field, Slot(id, "1"), fieldUpdate, Slot(update, "0"));
    WrittenOut2(UpdateLiterals(table, field, fieldUpdate, qu, qi), [update.Raw(), id.Raw()]);
    SlotQuotes(id);
    SlotQuotes(update);
    var body := " UPDATE " + table + " SET " + fieldUpdate;
    Regroup2(body, qu, "{0}", field, qi, "{1}");
    Regroup2(body, qu, update.Raw(), field, qi, id.Raw());
  }

  lemma FirstUpdatePass(table: string, field: string, id: string, fieldUpdate: string, update: string)
    ensures Format(" UPDATE " + "{0}" + " SET " + "{1}" + " = " + "{2}" + " WHERE " + "{3}" + " = " + "{4}" + "; ",
                   [table, fieldUpdate, update, field, id]) ==
            Text(" UPDATE " + table + " SET " + fieldUpdate + " = " + update + " WHERE " + field + " = " + id + "; ")
  {
    hide Format, TemplateOf, Filled;
    var ls, vals := [" UPDATE ", " SET ", " = ", " WHERE ", " = ", "; "], [table, fieldUpdate, update, field, id];
    Pass(ls, vals);
    WrittenOut5(ls, vals);
  }

  lemma Regroup2(body: string, qu: string, u: string, field: string, qi: string, i: string)
    ensures body + " = " + (qu + u + qu) + " WHERE " + field + " = " + (qi + i + qi) + "; " ==
            (body + (" = " + qu)) + u + ((qu + " WHERE ") + field + (" = " + qi)) + i + (qi + "; ")
  {
    var a := body + " = ";
    assert a + (qu + u + qu) == (a + qu) + u + qu;
    var b := (a + qu) + u;
    assert b + qu + " WHERE " + field + " = " == b + ((qu + " WHERE ") + field + " = ");
    var c := b + ((qu + " WHERE ") + field + " = ");
    assert c + (qi + i + qi) + "; " == (c + qi) + i + (qi + "; ");
    assert c + qi == b + ((qu + " WHERE ") + field + (" = " + qi));
    assert a + qu == body + (" = " + qu);
  }

  /**
   The two passes of update_db build the one-shot statement for all values exactly when the table name
   followed by the updated column's name, and the name of the column looked up, hold no brace pair.
   */
  lemma UpdateIff(table: string, field: string, fieldUpdate: string)
    ensures (forall id, update :: UpdateDb(table, field, id, fieldUpdate, update) ==
                                  Text(UpdateText(table, field, id, fieldUpdate, update)))
            <==> NoPair(table + fieldUpdate) && NoPair(field)
  {
    hide UpdateDb, UpdateText, Format, TemplateOf, Filled, NoPair, CleanLiterals, Sql;
    if NoPair(table + fieldUpdate) && NoPair(field) {
      forall id, update
        ensures UpdateDb(table, field, id, fieldUpdate, update) ==
                Text(UpdateText(table, field, id, fieldUpdate, update))
      {
        UpdatePasses(table, field, id, fieldUpdate, update);
        UpdateCleanIff(table, field, fieldUpdate, Quote(update), Quote(id));
        Pass(UpdateLiterals(table, field, fieldUpdate, Quote(update), Quote(id)), [update.Raw(), id.Raw()]);
      }
    } else {
      var ls := UpdateLiterals(table, field, fieldUpdate, "'", "'");
      UpdateCleanIff(table, field, fieldUpdate, "'", "'");
      PassIff(ls);
      var vals: seq<string> :| |vals| == 2 && !Fills(ls, vals);
      UpdatePasses(table, field, Str(vals[1]), fieldUpdate, Str(vals[0]));
      assert vals == [vals[0], vals[1]];
    }
  }
}
