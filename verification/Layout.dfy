/**
 qmove_pos: widgets are placed in lines of at most `row` from left to right, or of at most `column` from
 top to bottom. Coordinates are integers without bounds.
 */
module Layout {
  import opened Bytes

  datatype Point = Point(x: int, y: int)
  datatype Size = Size(w: nat, h: nat)

  /** The arguments of move_group, once row and column are settled. */
  datatype Form = Form(pos: Point, space: int, row: int, column: int)

  /** Where the next widget goes, how many stand in the current line, and the largest extent so far. */
  datatype Cursor = Cursor(at: Point, countRow: nat, countColumn: nat, wide: int, high: int)

  function Larger(a: int, b: int): int {
    if a < b then b else a
  }

  /** fn_move */
  function Moved(f: Form, c: Cursor, s: Size): Cursor {
    var wide, high := Larger(c.wide, c.at.x + s.w - f.pos.x), Larger(c.high, c.at.y + s.h - f.pos.y);
    if f.row > 0 then
      if c.countRow + 1 >= f.row then
        Cursor(Point(f.pos.x, c.at.y + s.h + f.space), 0, c.countColumn, wide, high)
      else Cursor(Point(c.at.x + s.w + f.space, c.at.y), c.countRow + 1, c.countColumn, wide, high)
    else if f.column > 0 then
      if c.countColumn + 1 >= f.column then
        Cursor(Point(c.at.x + s.w + f.space, f.pos.y), c.countRow, 0, wide, high)
      else Cursor(Point(c.at.x, c.at.y + s.h + f.space), c.countRow, c.countColumn + 1, wide, high)
    else c.(wide := wide, high := high)
  }

  /** After the first n widgets. */
  function After(f: Form, sizes: seq<Size>, n: nat): Cursor
    requires n <= |sizes|
  {
    if n == 0 then Cursor(f.pos, 0, 0, 0, 0) else Moved(f, After(f, sizes, n - 1), sizes[n - 1])
  }

  /** The place of the i-th widget. */
  function Place(f: Form, sizes: seq<Size>, i: nat): Point
    requires i <= |sizes|
  {
    After(f, sizes, i).at
  }

  // ---- The default form ----

  /** qSqrt, cut off */
  function Root(n: nat): (s: nat)
    ensures s * s <= n < (s + 1) * (s + 1)
  {
    if n == 0 then 0
    else
      var s := Root(n - 1);
      if (s + 1) * (s + 1) <= n then s + 1 else s
  }

  /** The number of widgets in a line when none is asked for; for no widgets it is divided by zero. */
  function DefaultRow(n: nat): (r: Option<nat>) {
    var s := Root(n);
    if s == 0 then None else Some(s + (n / s - s) / 2)
  }

  /** move_group without widgets and without a form divides by zero, and in no other case. */
  lemma DefaultFailsIff(n: nat)
    ensures DefaultRow(n).None? <==> n == 0
  {
    var s := Root(n);
    assert s == 0 ==> n < 1;
  }

  function Lines(n: nat, row: nat): nat
    requires row > 0
  {
    (n + row - 1) / row
  }

  lemma {:induction false} MultipleBefore(a: nat, b: nat, d: nat)
    requires a < b
    ensures a * d + d <= b * d
    decreases b
  {
    if a + 1 < b {
      MultipleBefore(a, b - 1, d);
    }
  }

  lemma DivBetween(n: nat, d: nat, q: nat)
    requires d > 0 && q * d <= n < q * d + d
    ensures n / d == q
  {
    var p := n / d;
    assert n == p * d + n % d;
    if p < q {
      MultipleBefore(p, q, d);
    } else if q < p {
      MultipleBefore(q, p, d);
    }
  }

  /** Numbers behind a square, divided by its root. */
  lemma DivBySide(s: nat, d: nat, e: nat)
    requires s > 0 && e <= 2 && e * s <= d < e * s + s
    ensures (s * s + d) / s == s + e
  {
    assert (s + e) * s == s * s + e * s;
    DivBetween(s * s + d, s, s + e);
  }

  lemma DivByNext(s: nat, d: nat)
    requires s < d <= 2 * s
    ensures (s * s + d + s) / (s + 1) == s + 1
  {
    assert (s + 1) * (s + 1) == s * s + 2 * s + 1;
    DivBetween(s * s + d + s, s + 1, s + 1);
  }

  /** Between two squares: the default and its number of lines. */
  lemma DefaultOf(n: nat, s: nat, d: nat)
    requires s > 0 && d <= 2 * s && n == s * s + d
    ensures (n / s - s) / 2 == if d == 2 * s then 1 else 0
    ensures Lines(n, s) == s + (if d == 0 then 0 else if d <= s then 1 else 2)
    ensures d > s ==> Lines(n, s + 1) == s + 1
  {
    DivBySide(s, d, if d < s then 0 else if d < 2 * s then 1 else 2);
    DivBySide(s, d + s - 1, if d == 0 then 0 else if d <= s then 1 else 2);
    assert n + s - 1 == s * s + (d + s - 1);
    if d > s {
      DivByNext(s, d);
    }
  }

  lemma DefaultRowOf(n: nat, s: nat)
    requires n > 0 && s == Root(n)
    ensures s > 0 && 0 <= n - s * s <= 2 * s
    ensures DefaultRow(n) == Some(if n == s * s + 2 * s then s + 1 else s)
  {
    assert s > 0;
    assert (s + 1) * (s + 1) == s * s + 2 * s + 1;
    DefaultOf(n, s, n - s * s);
  }

  /**
   The default comes as near to a square as the number allows, but for the numbers between s(s+1) and
   s(s+2): there it has two lines more than widgets in a line, where s+1 in a line would make a square.
   */
  lemma {:induction false} DefaultIsSquareIff(n: nat)
    requires n > 0
    ensures DefaultRow(n).Some? && DefaultRow(n).value > 0
    ensures var s, row := Root(n), DefaultRow(n).value;
            && row <= Lines(n, row) <= row + 2
            && (Lines(n, row) <= row + 1 <==> !(s * s + s < n < s * s + 2 * s))
            && (s * s + s < n ==> Lines(n, s + 1) == s + 1)
  {
    hide Lines, DefaultRow;
    var s := Root(n);
    DefaultRowOf(n, s);
    DefaultOf(n, s, n - s * s);
  }

  // ---- The widgets ----

  class Widget {
    var pos: Point
    const size: Size

    constructor (size: Size)
      ensures this.size == size
    {
      this.size := size;
      pos := Point(0, 0);
    }
  }

  function Reversed(ws: seq<Widget>): (r: seq<Widget>)
    ensures |r| == |ws| && forall i :: 0 <= i < |ws| ==> r[i] == ws[|ws| - 1 - i]
  {
    seq(|ws|, i requires 0 <= i < |ws| => ws[|ws| - 1 - i])
  }

  function SizesOf(ws: seq<Widget>): (r: seq<Size>)
    ensures |r| == |ws| && forall i :: 0 <= i < |ws| ==> r[i] == ws[i].size
  {
    seq(|ws|, i requires 0 <= i < |ws| => ws[i].size)
  }

  /** Where the first n widgets are put; a widget that is listed more than once goes where it is put last. */
  function Placing(f: Form, order: seq<Widget>, n: nat): map<Widget, Point>
    requires n <= |order|
  {
    if n == 0 then map[] else Placing(f, order, n - 1)[order[n - 1] := Place(f, SizesOf(order), n - 1)]
  }

  ghost predicate Standing(places: map<Widget, Point>)
    reads places.Keys
  {
    forall w :: w in places ==> w.pos == places[w]
  }

  /** Without repetition, the i-th widget goes to the i-th place. */
  lemma {:induction false} PlacingOfDistinct(f: Form, order: seq<Widget>, n: nat)
    requires n <= |order| && forall i, j :: 0 <= i < j < |order| ==> order[i] != order[j]
    ensures forall i :: 0 <= i < n ==>
              order[i] in Placing(f, order, n) && Placing(f, order, n)[order[i]] == Place(f, SizesOf(order), i)
  {
    hide Place;
    if n > 0 {
      PlacingOfDistinct(f, order, n - 1);
    }
  }

  class QmovePos {
    var widgets: seq<Widget>

    constructor ()
      ensures widgets == []
    {
      widgets := [];
    }

    method AddWid(wid: Widget)
      modifies this
      ensures widgets == old(widgets) + [wid]
    {
      widgets := widgets + [wid];
    }

    /** The n-th widget in order. */
    method FnMove(f: Form, it: Widget, c: Cursor, ghost order: seq<Widget>, ghost n: nat) returns (c': Cursor)
      requires n < |order| && it == order[n] && c == After(f, SizesOf(order), n) && Standing(Placing(f, order, n))
      modifies it
      ensures it.pos == c.at && c' == Moved(f, c, it.size)
      ensures c' == After(f, SizesOf(order), n + 1) && Standing(Placing(f, order, n + 1))
    {
      it.pos := c.at;
      var wide, high := c.wide, c.high;
      var nowWide, nowHigh := c.at.x + it.size.w - f.pos.x, c.at.y + it.size.h - f.pos.y;
      if wide < nowWide {
        wide := nowWide;
      }
      if high < nowHigh {
        high := nowHigh;
      }
      var at, countRow, countColumn := c.at, c.countRow, c.countColumn;
      if f.row > 0 {
        at := Point(at.x + it.size.w + f.space, at.y);
        countRow := countRow + 1;
        if countRow >= f.row {
          at := Point(f.pos.x, at.y + it.size.h + f.space);
          countRow := 0;
        }
      } else if f.column > 0 {
        at := Point(at.x, at.y + it.size.h + f.space);
        countColumn := countColumn + 1;
        if countColumn >= f.column {
          at := Point(at.x + it.size.w + f.space, f.pos.y);
          countColumn := 0;
        }
      }
      return Cursor(at, countRow, countColumn, wide, high);
    }

    /** The widgets in the order they are placed. */
    ghost function Order(reverse: bool): (order: seq<Widget>)
      reads this
      ensures |order| == |widgets|
    {
      if reverse then Reversed(widgets) else widgets
    }

    method MoveEach(f: Form, reverse: bool) returns (c: Cursor)
      modifies widgets
      ensures Standing(Placing(f, Order(reverse), |widgets|)) && c == After(f, SizesOf(Order(reverse)), |widgets|)
    {
      ghost var sizes := SizesOf(Order(reverse));
      c := Cursor(f.pos, 0, 0, 0, 0);
      assert Standing(Placing(f, Order(reverse), 0)) && c == After(f, sizes, 0);
      hide Moved, Standing, After, SizesOf, Placing;
      if reverse {
        for i := |widgets| downto 0
          invariant c == After(f, sizes, |widgets| - i)
          invariant Standing(Placing(f, Order(reverse), |widgets| - i))
        {
          c := FnMove(f, widgets[i], c, Order(reverse), |widgets| - 1 - i);
        }
      } else {
        for i := 0 to |widgets|
          invariant c == After(f, sizes, i)
          invariant Standing(Placing(f, Order(reverse), i))
        {
          c := FnMove(f, widgets[i], c, Order(reverse), i);
        }
      }
    }

    /** None stands for the division by zero. */
    method MoveGroup(pos: Point, space: int, row: int, column: int, reverse: bool)
      returns (extent: Option<(int, int)>)
      modifies widgets
      ensures extent == None <==> row < 0 && column < 0 && widgets == []
      ensures row >= 0 || column >= 0 ==>
                var f := Form(pos, space, row, column);
                && Standing(Placing(f, Order(reverse), |widgets|))
                && var c := After(f, SizesOf(Order(reverse)), |widgets|); extent == Some((c.wide, c.high))
      ensures row < 0 && column < 0 && widgets != [] ==>
                var f := Form(pos, space, DefaultRow(|widgets|).value, column);
                && Standing(Placing(f, Order(reverse), |widgets|))
                && var c := After(f, SizesOf(Order(reverse)), |widgets|); extent == Some((c.wide, c.high))
    {
      hide DefaultRow, Standing, After, Placing;
      DefaultFailsIff(|widgets|);
      var row' := row;
      if row < 0 && column < 0 {
        var default := DefaultRow(|widgets|);
        if default.None? {
          return None;
        }
        row' := default.value;
      }
      var c := MoveEach(Form(pos, space, row', column), reverse);
      return Some((c.wide, c.high));
    }

    /** From left to right. */
    method MoveX(pos: Point, space: int) returns (extent: Option<(int, int)>)
      modifies widgets
      ensures NoneTwice(widgets) ==> forall i :: 0 <= i < |widgets| ==>
                widgets[i].pos == Point(pos.x + WidthsBefore(SizesOf(widgets), space, i), pos.y)
    {
      extent := MoveGroup(pos, space, -1, 1, false);
      XPlaces(Form(pos, space, -1, 1), widgets);
    }

    /** From left to right, the last widget first. */
    method MoveXr(pos: Point, space: int) returns (extent: Option<(int, int)>)
      modifies widgets
      ensures NoneTwice(widgets) ==> forall i :: 0 <= i < |widgets| ==>
                widgets[i].pos == Point(pos.x + WidthsBehind(SizesOf(widgets), space, i), pos.y)
    {
      extent := MoveGroup(pos, space, -1, 1, true);
      hide Standing, Placing, Reversed, NoneTwice, WidthsBehind;
      XPlacesReversed(Form(pos, space, -1, 1), widgets);
    }

    /** From top to bottom. */
    method MoveY(pos: Point, space: int) returns (extent: Option<(int, int)>)
      modifies widgets
      ensures NoneTwice(widgets) ==> forall i :: 0 <= i < |widgets| ==>
                widgets[i].pos == Point(pos.x, pos.y + WidthsBefore(FlipAll(SizesOf(widgets)), space, i))
    {
      extent := MoveGroup(pos, space, 1, -1, false);
      YPlaces(Form(pos, space, 1, -1), widgets);
    }

    /** From top to bottom, the last widget first. */
    method MoveYr(pos: Point, space: int) returns (extent: Option<(int, int)>)
      modifies widgets
      ensures NoneTwice(widgets) ==> forall i :: 0 <= i < |widgets| ==>
                widgets[i].pos == Point(pos.x, pos.y + WidthsBehind(FlipAll(SizesOf(widgets)), space, i))
    {
      extent := MoveGroup(pos, space, 1, -1, true);
      hide Standing, Placing, Reversed, NoneTwice, WidthsBehind;
      YPlacesReversed(Form(pos, space, 1, -1), widgets);
    }
  }

  // ---- Single lines ----

  ghost predicate NoneTwice(ws: seq<Widget>) {
    forall i, j :: 0 <= i < j < |ws| ==> ws[i] != ws[j]
  }

  /** The widths, with the space behind each, of what comes before the i-th. */
  function WidthsBefore(sizes: seq<Size>, space: int, i: nat): int
    requires i <= |sizes|
  {
    if i == 0 then 0 else WidthsBefore(sizes, space, i - 1) + sizes[i - 1].w + space
  }

  function WidthsBehind(sizes: seq<Size>, space: int, i: nat): int
    requires i < |sizes|
    decreases |sizes| - i
  {
    if i == |sizes| - 1 then 0 else sizes[i + 1].w + space + WidthsBehind(sizes, space, i + 1)
  }

  lemma {:induction false} LineX(f: Form, sizes: seq<Size>, i: nat)
    requires f.row <= 0 && f.column == 1 && i <= |sizes|
    ensures Place(f, sizes, i) == Point(f.pos.x + WidthsBefore(sizes, f.space, i), f.pos.y)
  {
    if i > 0 {
      LineX(f, sizes, i - 1);
    }
  }

  lemma {:induction false} LineY(f: Form, sizes: seq<Size>, i: nat)
    requires f.row == 1 && i <= |sizes|
    ensures Place(f, sizes, i) == Point(f.pos.x, f.pos.y + WidthsBefore(FlipAll(sizes), f.space, i))
  {
    if i > 0 {
      LineY(f, sizes, i - 1);
    }
  }

  lemma XPlaces(f: Form, order: seq<Widget>)
    requires f.row <= 0 && f.column == 1
    ensures NoneTwice(order) && Standing(Placing(f, order, |order|)) ==> forall i :: 0 <= i < |order| ==>
              order[i].pos == Point(f.pos.x + WidthsBefore(SizesOf(order), f.space, i), f.pos.y)
  {
    hide Place, Placing;
    if NoneTwice(order) {
      PlacingOfDistinct(f, order, |order|);
      forall i | 0 <= i < |order|
        ensures Place(f, SizesOf(order), i) == Point(f.pos.x + WidthsBefore(SizesOf(order), f.space, i), f.pos.y)
      {
        LineX(f, SizesOf(order), i);
      }
    }
  }

  lemma YPlaces(f: Form, order: seq<Widget>)
    requires f.row == 1
    ensures NoneTwice(order) && Standing(Placing(f, order, |order|)) ==> forall i :: 0 <= i < |order| ==>
              order[i].pos == Point(f.pos.x, f.pos.y + WidthsBefore(FlipAll(SizesOf(order)), f.space, i))
  {
    hide Place, Placing;
    if NoneTwice(order) {
      PlacingOfDistinct(f, order, |order|);
      forall i | 0 <= i < |order|
        ensures Place(f, SizesOf(order), i) ==
                Point(f.pos.x, f.pos.y + WidthsBefore(FlipAll(SizesOf(order)), f.space, i))
      {
        LineY(f, SizesOf(order), i);
      }
    }
  }

  lemma {:induction false} BehindInReverse(sizes: seq<Size>, back: seq<Size>, space: int, i: nat)
    requires i < |sizes| == |back| && forall k :: 0 <= k < |sizes| ==> back[k] == sizes[|sizes| - 1 - k]
    ensures WidthsBehind(sizes, space, i) == WidthsBefore(back, space, |sizes| - 1 - i)
    decreases |sizes| - i
  {
    if i < |sizes| - 1 {
      BehindInReverse(sizes, back, space, i + 1);
    }
  }

  /** In reverse order, what was behind a widget comes before it. */
  lemma BehindIsBefore(ws: seq<Widget>, space: int, i: nat)
    requires i < |ws|
    ensures ws[i] == Reversed(ws)[|ws| - 1 - i]
    ensures WidthsBehind(SizesOf(ws), space, i) == WidthsBefore(SizesOf(Reversed(ws)), space, |ws| - 1 - i)
    ensures WidthsBehind(FlipAll(SizesOf(ws)), space, i) ==
            WidthsBefore(FlipAll(SizesOf(Reversed(ws))), space, |ws| - 1 - i)
  {
    hide WidthsBehind, WidthsBefore, Reversed, SizesOf, FlipAll;
    BehindInReverse(SizesOf(ws), SizesOf(Reversed(ws)), space, i);
    BehindInReverse(FlipAll(SizesOf(ws)), FlipAll(SizesOf(Reversed(ws))), space, i);
  }

  lemma NoneTwiceReversed(ws: seq<Widget>)
    ensures NoneTwice(ws) ==> NoneTwice(Reversed(ws))
  {
  }

  lemma XPlacesReversed(f: Form, ws: seq<Widget>)
    requires f.row <= 0 && f.column == 1
    ensures NoneTwice(ws) && Standing(Placing(f, Reversed(ws), |ws|)) ==> forall i :: 0 <= i < |ws| ==>
              ws[i].pos == Point(f.pos.x + WidthsBehind(SizesOf(ws), f.space, i), f.pos.y)
  {
    hide Standing, Placing, NoneTwice, WidthsBehind, WidthsBefore;
    NoneTwiceReversed(ws);
    XPlaces(f, Reversed(ws));
    if NoneTwice(ws) && Standing(Placing(f, Reversed(ws), |ws|)) {
      forall i | 0 <= i < |ws|
        ensures ws[i].pos == Point(f.pos.x + WidthsBehind(SizesOf(ws), f.space, i), f.pos.y)
      {
        BehindIsBefore(ws, f.space, i);
      }
    }
  }

  lemma YPlacesReversed(f: Form, ws: seq<Widget>)
    requires f.row == 1
    ensures NoneTwice(ws) && Standing(Placing(f, Reversed(ws), |ws|)) ==> forall i :: 0 <= i < |ws| ==>
              ws[i].pos == Point(f.pos.x, f.pos.y + WidthsBehind(FlipAll(SizesOf(ws)), f.space, i))
  {
    hide Standing, Placing, NoneTwice, WidthsBehind, WidthsBefore;
    NoneTwiceReversed(ws);
    YPlaces(f, Reversed(ws));
    if NoneTwice(ws) && Standing(Placing(f, Reversed(ws), |ws|)) {
      forall i | 0 <= i < |ws|
        ensures ws[i].pos == Point(f.pos.x, f.pos.y + WidthsBehind(FlipAll(SizesOf(ws)), f.space, i))
      {
        BehindIsBefore(ws, f.space, i);
      }
    }
  }

  // ---- Lines ----

  /** How many stand in the line before the i-th widget. */
  function Column(row: nat, i: nat): (c: nat)
    requires row > 0
    ensures c < row
  {
    if i == 0 then 0 else if Column(row, i - 1) + 1 >= row then 0 else Column(row, i - 1) + 1
  }

  function Line(row: nat, i: nat): nat
    requires row > 0
  {
    if i == 0 then 0 else Line(row, i - 1) + if Column(row, i) == 0 then 1 else 0
  }

  /** The last place of the i-th widget's line. */
  function LineEnd(row: nat, i: nat): nat
    requires row > 0
  {
    i + (row - 1 - Column(row, i))
  }

  lemma {:induction false} LineAndColumn(row: nat, i: nat)
    requires row > 0
    ensures Line(row, i) == i / row && Column(row, i) == i % row
  {
    LineByColumn(row, i);
    DivBetween(i, row, Line(row, i));
  }

  lemma {:induction false} LineByColumn(row: nat, i: nat)
    requires row > 0
    ensures Line(row, i) * row + Column(row, i) == i
  {
    if i > 0 {
      LineByColumn(row, i - 1);
      assert (Line(row, i - 1) + 1) * row == Line(row, i - 1) * row + row;
    }
  }

  lemma {:induction false} RowCursor(f: Form, sizes: seq<Size>, i: nat)
    requires f.row > 0 && i <= |sizes|
    ensures After(f, sizes, i).countRow == Column(f.row, i)
    ensures Column(f.row, i) == 0 ==> Place(f, sizes, i).x == f.pos.x
  {
    if i > 0 {
      RowCursor(f, sizes, i - 1);
    }
  }

  lemma {:induction false} LinesGrow(row: nat, i: nat, j: nat)
    requires row > 0 && i < j
    ensures Line(row, i) <= Line(row, j)
    ensures Line(row, i) == Line(row, j) ==> Column(row, j) == Column(row, i) + (j - i)
  {
    if i < j - 1 {
      LinesGrow(row, i, j - 1);
    }
  }

  /** In a line each widget is to the right of the ones before it. */
  lemma {:induction false} SameLine(f: Form, sizes: seq<Size>, i: nat, j: nat)
    requires f.row > 0 && f.space >= 0 && i < j <= |sizes| && Line(f.row, i) == Line(f.row, j)
    ensures Place(f, sizes, j).y == Place(f, sizes, i).y
    ensures Place(f, sizes, j).x >= Place(f, sizes, i).x + sizes[i].w
    decreases j
  {
    RowCursor(f, sizes, j - 1);
    LinesGrow(f.row, i, j);
    if i < j - 1 {
      LinesGrow(f.row, i, j - 1);
      SameLine(f, sizes, i, j - 1);
    }
  }

  /** The next line begins below the last widget of a line; the lines after it are below that. */
  lemma {:induction false} LaterLine(f: Form, sizes: seq<Size>, i: nat, j: nat)
    requires f.row > 0 && f.space >= 0 && i < j <= |sizes| && Line(f.row, i) < Line(f.row, j)
    ensures var e := LineEnd(f.row, i);
            && e < j && Place(f, sizes, j).y >= Place(f, sizes, i).y + sizes[e].h + f.space
            && (j == e + 1 ==> Place(f, sizes, j).y == Place(f, sizes, i).y + sizes[e].h + f.space)
    decreases j
  {
    RowCursor(f, sizes, j - 1);
    if i < j - 1 {
      LinesGrow(f.row, i, j - 1);
      if Line(f.row, i) < Line(f.row, j - 1) {
        LaterLine(f, sizes, i, j - 1);
      } else {
        SameLine(f, sizes, i, j - 1);
      }
    }
  }

  // ---- No overlap ----

  predicate Apart(p: Point, s: Size, q: Point, t: Size) {
    p.x + s.w <= q.x || q.x + t.w <= p.x || p.y + s.h <= q.y || q.y + t.h <= p.y
  }

  ghost predicate AllApart(f: Form, sizes: seq<Size>) {
    forall i, j :: 0 <= i < j < |sizes| ==> Apart(Place(f, sizes, i), sizes[i], Place(f, sizes, j), sizes[j])
  }

  /** No widget of a line that is followed by another is taller than the line's last one and the space. */
  ghost predicate LinesEndTall(row: nat, space: int, heights: seq<nat>)
    requires row > 0
  {
    forall i :: 0 <= i < |heights| && LineEnd(row, i) + 1 < |heights| ==>
      heights[i] <= heights[LineEnd(row, i)] + space
  }

  function Heights(sizes: seq<Size>): (hs: seq<nat>)
    ensures |hs| == |sizes| && forall i :: 0 <= i < |hs| ==> hs[i] == sizes[i].h
  {
    seq(|sizes|, i requires 0 <= i < |sizes| => sizes[i].h)
  }

  lemma {:induction false} RowsApart(f: Form, sizes: seq<Size>)
    requires f.row > 0 && f.space >= 0 && LinesEndTall(f.row, f.space, Heights(sizes))
    ensures AllApart(f, sizes)
  {
    hide Place, Line;
    forall i, j | 0 <= i < j < |sizes|
      ensures Apart(Place(f, sizes, i), sizes[i], Place(f, sizes, j), sizes[j])
    {
      LinesGrow(f.row, i, j);
      if Line(f.row, i) == Line(f.row, j) {
        SameLine(f, sizes, i, j);
      } else {
        LaterLine(f, sizes, i, j);
        assert Heights(sizes)[i] <= Heights(sizes)[LineEnd(f.row, i)] + f.space;
      }
    }
  }

  function Sizes(ws: seq<nat>, hs: seq<nat>): (r: seq<Size>)
    requires |ws| == |hs|
    ensures |r| == |hs| && forall i :: 0 <= i < |r| ==> r[i] == Size(ws[i], hs[i])
  {
    seq(|hs|, i requires 0 <= i < |hs| => Size(ws[i], hs[i]))
  }

  lemma {:induction false} SamePrefix(f: Form, s: seq<Size>, t: seq<Size>, n: nat)
    requires n <= |s| && n <= |t| && forall i :: 0 <= i < n ==> s[i] == t[i]
    ensures After(f, s, n) == After(f, t, n)
  {
    if n > 0 {
      SamePrefix(f, s, t, n - 1);
    }
  }

  lemma {:induction false} RowsGoRight(f: Form, sizes: seq<Size>, i: nat)
    requires f.row > 0 && f.space >= 0 && i <= |sizes|
    ensures Place(f, sizes, i).x >= f.pos.x
  {
    if i > 0 {
      RowsGoRight(f, sizes, i - 1);
    }
  }

  /** Widths with which a widget that is too tall meets the first one of the next line. */
  lemma TooTall(f: Form, hs: seq<nat>, i: nat) returns (ws: seq<nat>)
    requires f.row > 0 && f.space >= 0 && forall k :: 0 <= k < |hs| ==> hs[k] > 0
    requires i < |hs| && LineEnd(f.row, i) + 1 < |hs| && hs[i] > hs[LineEnd(f.row, i)] + f.space
    ensures |ws| == |hs| && !AllApart(f, Sizes(ws, hs))
  {
    var j := LineEnd(f.row, i) + 1;
    var ones := seq(|hs|, _ => 1);
    var narrow := Sizes(ones, hs);
    RowsGoRight(f, narrow, i);
    ws := ones[j := Place(f, narrow, i).x - f.pos.x + 1];
    var sizes := Sizes(ws, hs);
    SamePrefix(f, narrow, sizes, i);
    NextLine(f.row, i);
    RowCursor(f, sizes, j);
    LaterLine(f, sizes, i, j);
    hide Place;
    assert !Apart(Place(f, sizes, i), sizes[i], Place(f, sizes, j), sizes[j]);
  }

  lemma {:induction false} NextLine(row: nat, i: nat)
    requires row > 0
    ensures var j := LineEnd(row, i) + 1; Column(row, j) == 0 && Line(row, i) < Line(row, j)
    decreases row - Column(row, i)
  {
    if Column(row, i) + 1 < row {
      NextLine(row, i + 1);
    }
  }

  /**
   Of given heights, widgets in rows are apart whatever their widths exactly when every line, but for the
   last one, ends with a widget that is, with the space, as tall as any in its line.
   */
  lemma {:induction false} RowsApartIff(f: Form, hs: seq<nat>)
    requires f.row > 0 && f.space >= 0 && forall k :: 0 <= k < |hs| ==> hs[k] > 0
    ensures (forall ws: seq<nat> :: |ws| == |hs| ==> AllApart(f, Sizes(ws, hs))) <==>
            LinesEndTall(f.row, f.space, hs)
  {
    hide AllApart;
    if LinesEndTall(f.row, f.space, hs) {
      forall ws: seq<nat> | |ws| == |hs|
        ensures AllApart(f, Sizes(ws, hs))
      {
        assert Heights(Sizes(ws, hs)) == hs;
        RowsApart(f, Sizes(ws, hs));
      }
    } else {
      var i: nat :| i < |hs| && LineEnd(f.row, i) + 1 < |hs| && hs[i] > hs[LineEnd(f.row, i)] + f.space;
      var ws := TooTall(f, hs, i);
    }
  }

  // ---- Columns are rows, turned over ----

  function Flip(s: Size): Size {
    Size(s.h, s.w)
  }

  function FlipAll(sizes: seq<Size>): (r: seq<Size>)
    ensures |r| == |sizes| && forall i :: 0 <= i < |r| ==> r[i] == Flip(sizes[i])
  {
    seq(|sizes|, i requires 0 <= i < |sizes| => Flip(sizes[i]))
  }

  function FlipForm(f: Form): Form {
    Form(Point(f.pos.y, f.pos.x), f.space, f.column, 0)
  }

  lemma {:induction false} ColumnsAreRows(f: Form, sizes: seq<Size>, n: nat)
    requires f.row <= 0 && n <= |sizes|
    ensures var c, d := After(f, sizes, n), After(FlipForm(f), FlipAll(sizes), n);
            d == Cursor(Point(c.at.y, c.at.x), c.countColumn, c.countRow, c.high, c.wide)
  {
    if n > 0 {
      ColumnsAreRows(f, sizes, n - 1);
    }
  }

  lemma ColumnsApart(f: Form, sizes: seq<Size>)
    requires f.row <= 0
    ensures AllApart(f, sizes) <==> AllApart(FlipForm(f), FlipAll(sizes))
  {
    var g, turned := FlipForm(f), FlipAll(sizes);
    forall i, j | 0 <= i < j < |sizes|
      ensures Apart(Place(f, sizes, i), sizes[i], Place(f, sizes, j), sizes[j]) <==>
              Apart(Place(g, turned, i), turned[i], Place(g, turned, j), turned[j])
    {
      ColumnsAreRows(f, sizes, i);
      ColumnsAreRows(f, sizes, j);
    }
  }

  /** move_x and move_y, and their reversed forms: widgets in a line are apart, whatever their sizes. */
  lemma {:induction false} LineApart(f: Form, sizes: seq<Size>)
    requires f.space >= 0 && (f.row == 1 || (f.row <= 0 && f.column == 1))
    ensures AllApart(f, sizes)
  {
    hide AllApart;
    if f.row == 1 {
      RowsApart(f, sizes);
    } else {
      ColumnsApart(f, sizes);
      RowsApart(FlipForm(f), FlipAll(sizes));
    }
  }

  /** Equal widgets form a grid. */
  lemma {:induction false} Grid(f: Form, sizes: seq<Size>, s: Size, i: nat)
    requires f.row > 0 && i <= |sizes| && forall k :: 0 <= k < |sizes| ==> sizes[k] == s
    ensures Place(f, sizes, i) ==
            Point(f.pos.x + (i % f.row) * (s.w + f.space), f.pos.y + (i / f.row) * (s.h + f.space))
  {
    LineAndColumn(f.row, i);
    GridByLine(f, sizes, s, i);
  }

  lemma {:induction false} GridByLine(f: Form, sizes: seq<Size>, s: Size, i: nat)
    requires f.row > 0 && i <= |sizes| && forall k :: 0 <= k < |sizes| ==> sizes[k] == s
    ensures Place(f, sizes, i) == Point(f.pos.x + Column(f.row, i) * (s.w + f.space),
                                        f.pos.y + Line(f.row, i) * (s.h + f.space))
  {
    if i > 0 {
      GridByLine(f, sizes, s, i - 1);
      RowCursor(f, sizes, i - 1);
      OnceMore(Column(f.row, i - 1), s.w + f.space);
      OnceMore(Line(f.row, i - 1), s.h + f.space);
    }
  }

  lemma OnceMore(n: nat, d: int)
    ensures (n + 1) * d == n * d + d
  {
  }

  // ---- The extent ----

  /** How far the first n widgets reach to the right and down, seen from the corner. */
  function RightEdges(f: Form, sizes: seq<Size>, n: nat): seq<int>
    requires n <= |sizes|
  {
    if n == 0 then []
    else RightEdges(f, sizes, n - 1) + [Place(f, sizes, n - 1).x + sizes[n - 1].w - f.pos.x]
  }

  function LowerEdges(f: Form, sizes: seq<Size>, n: nat): seq<int>
    requires n <= |sizes|
  {
    if n == 0 then []
    else LowerEdges(f, sizes, n - 1) + [Place(f, sizes, n - 1).y + sizes[n - 1].h - f.pos.y]
  }

  /** The largest of es, or 0 if there is none. */
  predicate IsLargest(m: int, es: seq<int>) {
    (forall i :: 0 <= i < |es| ==> es[i] <= m) && (if es == [] then m == 0 else m in es)
  }

  lemma LargestNext(m: int, es: seq<int>, e: int)
    requires IsLargest(m, es) && e >= 0
    ensures IsLargest(Larger(m, e), es + [e])
  {
    assert es == [] ==> es + [e] == [e];
  }

  lemma {:induction false} NoneBeforeCorner(f: Form, sizes: seq<Size>, n: nat)
    requires f.space >= 0 && n <= |sizes|
    ensures Place(f, sizes, n).x >= f.pos.x && Place(f, sizes, n).y >= f.pos.y
  {
    if n > 0 {
      NoneBeforeCorner(f, sizes, n - 1);
    }
  }

  lemma MovedExtent(f: Form, c: Cursor, s: Size)
    ensures Moved(f, c, s).wide == Larger(c.wide, c.at.x + s.w - f.pos.x)
    ensures Moved(f, c, s).high == Larger(c.high, c.at.y + s.h - f.pos.y)
  {
  }

  lemma {:induction false} WidthIsExact(f: Form, sizes: seq<Size>, n: nat)
    requires f.space >= 0 && n <= |sizes|
    ensures IsLargest(After(f, sizes, n).wide, RightEdges(f, sizes, n))
  {
    hide IsLargest, Moved, Larger;
    if n == 0 {
      assert IsLargest(0, []) by { NoEdges(); }
    } else {
      var c, s := After(f, sizes, n - 1), sizes[n - 1];
      WidthIsExact(f, sizes, n - 1);
      NoneBeforeCorner(f, sizes, n - 1);
      MovedExtent(f, c, s);
      LargestNext(c.wide, RightEdges(f, sizes, n - 1), c.at.x + s.w - f.pos.x);
    }
  }

  lemma {:induction false} HeightIsExact(f: Form, sizes: seq<Size>, n: nat)
    requires f.space >= 0 && n <= |sizes|
    ensures IsLargest(After(f, sizes, n).high, LowerEdges(f, sizes, n))
  {
    hide IsLargest, Moved, Larger;
    if n == 0 {
      assert IsLargest(0, []) by { NoEdges(); }
    } else {
      var c, s := After(f, sizes, n - 1), sizes[n - 1];
      HeightIsExact(f, sizes, n - 1);
      NoneBeforeCorner(f, sizes, n - 1);
      MovedExtent(f, c, s);
      LargestNext(c.high, LowerEdges(f, sizes, n - 1), c.at.y + s.h - f.pos.y);
    }
  }

  lemma NoEdges()
    ensures IsLargest(0, [])
  {
  }

  /** What move_group returns is the box from the corner around all widgets, and no larger one. */
  lemma ExtentIsExact(f: Form, sizes: seq<Size>)
    requires f.space >= 0
    ensures var c := After(f, sizes, |sizes|);
            && IsLargest(c.wide, RightEdges(f, sizes, |sizes|))
            && IsLargest(c.high, LowerEdges(f, sizes, |sizes|))
    ensures forall i :: 0 <= i < |sizes| ==> Place(f, sizes, i).x >= f.pos.x && Place(f, sizes, i).y >= f.pos.y
  {
    WidthIsExact(f, sizes, |sizes|);
    HeightIsExact(f, sizes, |sizes|);
    forall i | 0 <= i < |sizes|
      ensures Place(f, sizes, i).x >= f.pos.x && Place(f, sizes, i).y >= f.pos.y
    {
      NoneBeforeCorner(f, sizes, i);
    }
  }
}
