/**
 qlab_wrap: breaking a text into lines that fit a label. `width` is the font's horizontal advance of a
 character; the width of a line is the sum over its characters.
 */
module TextWrap {

  type Advance = char -> nat

  function Width(s: string, width: Advance): nat {
    if s == "" then 0 else width(s[0]) + Width(s[1..], width)
  }

  /** QString::split("\n") */
  function Lines(s: string): (ls: seq<string>)
    ensures |ls| > 0
  {
    if s == "" then [""]
    else
      var ls := Lines(s[1..]);
      if s[0] == '\n' then [""] + ls else [[s[0]] + ls[0]] + ls[1..]
  }

  function CountBreaks(s: string): nat {
    if s == "" then 0 else (if s[0] == '\n' then 1 else 0) + CountBreaks(s[1..])
  }

  function MaxWidth(ls: seq<string>, width: Advance): nat {
    if ls == [] then 0
    else
      var m, l := MaxWidth(ls[..|ls| - 1], width), Width(ls[|ls| - 1], width);
      if m < l then l else m
  }

  /** A character of the result, and whether it is a break that was put in. */
  datatype Mark = Mark(c: char, inserted: bool)

  /** insert_break from a point where the running width is `count`; the text's own breaks do not reset it. */
  function Wrap(txt: string, width: Advance, limit: int, count: nat): seq<Mark> {
    if txt == "" then []
    else
      var w := width(txt[0]);
      if count + w >= limit then [Mark('\n', true), Mark(txt[0], false)] + Wrap(txt[1..], width, limit, w)
      else [Mark(txt[0], false)] + Wrap(txt[1..], width, limit, count + w)
  }

  function Chars(ms: seq<Mark>): string {
    if ms == [] then "" else [ms[0].c] + Chars(ms[1..])
  }

  /** The result without the inserted breaks. */
  function Originals(ms: seq<Mark>): string {
    if ms == [] then "" else (if ms[0].inserted then "" else [ms[0].c]) + Originals(ms[1..])
  }

  function Wrapped(txt: string, width: Advance, limit: int): string {
    Chars(Wrap(txt, width, limit, 0))
  }

  /** The width given to the label. */
  function RectWidth(txt: string, width: Advance, limit: int): int {
    var line := MaxWidth(Lines(txt), width);
    if line > limit then limit else line
  }

  class QlabWrap {
    var text: string
    var textNew: string
    var maxWidth: int
    var rectWidth: int
    var rectHeight: int

    constructor (text: string, maxWidth: int)
      ensures this.text == text && this.maxWidth == maxWidth
    {
      this.text, this.maxWidth, textNew := text, maxWidth, "";
      rectWidth, rectHeight := 0, 0;
    }

    method InsertBreak(txt: string, width: Advance, limit: int) returns (newTxt: string)
      ensures newTxt == Wrapped(txt, width, limit)
    {
      hide Chars, Wrap;
      newTxt := "";
      var count: nat := 0;
      for i := 0 to |txt|
        invariant newTxt + Chars(Wrap(txt[i..], width, limit, count)) == Wrapped(txt, width, limit)
      {
        ghost var rest, done := txt[i..], newTxt;
        assert rest[1..] == txt[i + 1..] && rest[0] == txt[i];
        CharsOfWrap(rest, width, limit, count);
        var charWidth := width(txt[i]);
        count := count + charWidth;
        ghost var piece := if count >= limit then "\n" + [txt[i]] else [txt[i]];
        if count >= limit {
          count := charWidth;
          newTxt := newTxt + "\n";
        }
        newTxt := newTxt + [txt[i]];
        assert newTxt == done + piece;
        Associative(done, piece, Chars(Wrap(txt[i + 1..], width, limit, count)));
      }
      assert txt[|txt|..] == "";
      NothingToWrap(width, limit, count);
      assert newTxt + "" == newTxt;
    }

    method CalcBreak(txt: string) returns (ret: nat)
      ensures ret == CountBreaks(txt)
    {
      ret := 0;
      for i := 0 to |txt|
        invariant ret + CountBreaks(txt[i..]) == CountBreaks(txt)
      {
        assert txt[i..][1..] == txt[i + 1..];
        if txt[i] == '\n' {
          ret := ret + 1;
        }
      }
    }

    method CalcMaxWidth(txt: string, width: Advance) returns (max: nat)
      ensures max == MaxWidth(Lines(txt), width)
    {
      max := 0;
      var ls := Lines(txt);
      for i := 0 to |ls|
        invariant max == MaxWidth(ls[..i], width)
      {
        assert ls[..i + 1][..i] == ls[..i];
        var w := Width(ls[i], width);
        if max < w {
          max := w;
        }
      }
      assert ls[..|ls|] == ls;
    }

    /** The label shows the wrapped text, as wide as RectWidth and one `height` per displayed line. */
    method UpdateText(width: Advance, height: nat)
      modifies this
      ensures text == old(text) && maxWidth == old(maxWidth)
      ensures textNew == Wrapped(text, width, maxWidth)
      ensures rectWidth == RectWidth(text, width, maxWidth)
      ensures var line := MaxWidth(Lines(text), width); rectWidth == if line <= maxWidth then line else maxWidth
      ensures rectHeight == height * |Lines(textNew)|
    {
      textNew := InsertBreak(text, width, maxWidth);
      var breaks := CalcBreak(textNew);
      var lineMax := CalcMaxWidth(text, width);
      BreaksAreLines(textNew);
      rectWidth := if lineMax > maxWidth then maxWidth else lineMax;
      rectHeight := height * (breaks + 1);
    }
  }

  lemma Associative(a: string, b: string, c: string)
    ensures (a + b) + c == a + (b + c)
  {
  }

  lemma NothingToWrap(width: Advance, limit: int, count: nat)
    ensures Chars(Wrap("", width, limit, count)) == ""
  {
  }

  lemma CharsOfWrap(txt: string, width: Advance, limit: int, count: nat)
    requires txt != ""
    ensures var w := width(txt[0]);
            Chars(Wrap(txt, width, limit, count)) ==
            if count + w >= limit then "\n" + [txt[0]] + Chars(Wrap(txt[1..], width, limit, w))
            else [txt[0]] + Chars(Wrap(txt[1..], width, limit, count + w))
  {
    var w := width(txt[0]);
    if count + w >= limit {
      var ms := Wrap(txt, width, limit, count);
      assert ms[1..][1..] == Wrap(txt[1..], width, limit, w);
    } else {
      assert Wrap(txt, width, limit, count)[1..] == Wrap(txt[1..], width, limit, count + w);
    }
  }

  lemma {:induction false} BreaksAreLines(s: string)
    ensures |Lines(s)| == CountBreaks(s) + 1
  {
    if s != "" {
      BreaksAreLines(s[1..]);
    }
  }

  /** Dropping the inserted breaks gives back the text, and only breaks were inserted. */
  lemma {:induction false} WrapKeepsText(txt: string, width: Advance, limit: int, count: nat)
    ensures Originals(Wrap(txt, width, limit, count)) == txt
    ensures forall m :: m in Wrap(txt, width, limit, count) && m.inserted ==> m.c == '\n'
  {
    if txt != "" {
      var w := width(txt[0]);
      var rest := if count + w >= limit then w else count + w;
      WrapKeepsText(txt[1..], width, limit, rest);
      var ms := Wrap(txt, width, limit, count);
      var tail := Wrap(txt[1..], width, limit, rest);
      if count + w >= limit {
        assert ms[1..][1..] == tail;
        assert Originals(ms) == "" + ([txt[0]] + Originals(tail));
      } else {
        assert ms[1..] == tail;
      }
    }
  }

  // ---- Where breaks are put ----

  /** The result cut at the inserted breaks. */
  function Segments(ms: seq<Mark>): (segs: seq<string>)
    ensures |segs| > 0
  {
    if ms == [] then [""]
    else
      var segs := Segments(ms[1..]);
      if ms[0].inserted then [""] + segs else [[ms[0].c] + segs[0]] + segs[1..]
  }

  /** Before the i-th segment a break was needed: with the segment's first character the limit is reached. */
  predicate Needed(segs: seq<string>, width: Advance, limit: int, count: nat, i: nat)
    requires 0 < i < |segs|
  {
    segs[i] != "" && (if i == 1 then count else 0) + Width(segs[i - 1], width) + width(segs[i][0]) >= limit
  }

  /** A segment stays below the limit, if it has more than the character that began it. */
  predicate Below(segs: seq<string>, width: Advance, limit: int, count: nat, i: nat)
    requires i < |segs|
  {
    |segs[i]| > (if i == 0 then 0 else 1) ==> (if i == 0 then count else 0) + Width(segs[i], width) < limit
  }

  lemma WidthOfFirst(c: char, s: string, width: Advance)
    ensures Width([c] + s, width) == width(c) + Width(s, width)
  {
    assert ([c] + s)[1..] == s;
  }

  lemma SegmentsOfWrap(txt: string, width: Advance, limit: int, count: nat)
    requires txt != ""
    ensures var c, w := txt[0], width(txt[0]);
            Segments(Wrap(txt, width, limit, count)) ==
            if count + w >= limit then
              var rest := Segments(Wrap(txt[1..], width, limit, w)); ["", [c] + rest[0]] + rest[1..]
            else var rest := Segments(Wrap(txt[1..], width, limit, count + w)); [[c] + rest[0]] + rest[1..]
  {
    var ms, w := Wrap(txt, width, limit, count), width(txt[0]);
    if count + w >= limit {
      assert ms[1..][1..] == Wrap(txt[1..], width, limit, w);
      var rest := Segments(Wrap(txt[1..], width, limit, w));
      assert Segments(ms[1..]) == [[txt[0]] + rest[0]] + rest[1..];
    } else {
      assert ms[1..] == Wrap(txt[1..], width, limit, count + w);
    }
  }

  ghost predicate Greedy(segs: seq<string>, width: Advance, limit: int, count: nat) {
    && (forall i :: 0 < i < |segs| ==> Needed(segs, width, limit, count, i))
    && (forall i :: 0 <= i < |segs| ==> Below(segs, width, limit, count, i))
  }

  lemma GreedyBreak(c: char, rest: seq<string>, width: Advance, limit: int, count: nat)
    requires rest != [] && Greedy(rest, width, limit, width(c)) && count + width(c) >= limit
    ensures Greedy(["", [c] + rest[0]] + rest[1..], width, limit, count)
  {
    hide Width;
    var segs := ["", [c] + rest[0]] + rest[1..];
    WidthOfFirst(c, rest[0], width);
    assert Width("", width) == 0 by { NoWidth(width); }
    forall i | 0 < i < |segs|
      ensures Needed(segs, width, limit, count, i)
    {
      if i > 1 {
        assert Needed(rest, width, limit, width(c), i - 1) && segs[i] == rest[i - 1];
      }
    }
    forall i | 0 <= i < |segs|
      ensures Below(segs, width, limit, count, i)
    {
      if i > 0 {
        assert Below(rest, width, limit, width(c), i - 1);
      }
    }
  }

  lemma GreedyOn(c: char, rest: seq<string>, width: Advance, limit: int, count: nat)
    requires rest != [] && Greedy(rest, width, limit, count + width(c)) && count + width(c) < limit
    ensures Greedy([[c] + rest[0]] + rest[1..], width, limit, count)
  {
    hide Width;
    var segs := [[c] + rest[0]] + rest[1..];
    WidthOfFirst(c, rest[0], width);
    assert Width("", width) == 0 by { NoWidth(width); }
    forall i | 0 < i < |segs|
      ensures Needed(segs, width, limit, count, i)
    {
      assert Needed(rest, width, limit, count + width(c), i) && segs[i] == rest[i];
    }
    forall i | 0 <= i < |segs|
      ensures Below(segs, width, limit, count, i)
    {
      assert Below(rest, width, limit, count + width(c), i);
    }
  }

  lemma NoWidth(width: Advance)
    ensures Width("", width) == 0
  {
  }

  lemma NoSegments(width: Advance, limit: int, count: nat)
    ensures Greedy(Segments(Wrap("", width, limit, count)), width, limit, count)
  {
    assert Segments(Wrap("", width, limit, count)) == [""];
  }

  /**
   A break is put in front of a character exactly when the running width would reach the limit with it: no
   segment reaches the limit but by a single character, and none could have gone on.
   */
  lemma {:induction false} BreaksWhereNeeded(txt: string, width: Advance, limit: int, count: nat)
    ensures Greedy(Segments(Wrap(txt, width, limit, count)), width, limit, count)
  {
    hide Wrap, Segments, Greedy;
    if txt == "" {
      NoSegments(width, limit, count);
    } else {
      var c, w := txt[0], width(txt[0]);
      var count' := if count + w >= limit then w else count + w;
      var rest := Segments(Wrap(txt[1..], width, limit, count'));
      BreaksWhereNeeded(txt[1..], width, limit, count');
      SegmentsOfWrap(txt, width, limit, count);
      if count + w >= limit {
        GreedyBreak(c, rest, width, limit, count);
      } else {
        GreedyOn(c, rest, width, limit, count);
      }
    }
  }

  predicate AllWithin(ls: seq<string>, width: Advance, bound: int) {
    forall l :: l in ls ==> Width(l, width) <= bound
  }

  lemma {:induction false} MaxWidthBounds(ls: seq<string>, width: Advance, bound: nat)
    ensures MaxWidth(ls, width) <= bound <==> AllWithin(ls, width, bound)
  {
    if ls != [] {
      var init, last := ls[..|ls| - 1], ls[|ls| - 1];
      MaxWidthBounds(init, width, bound);
      assert ls == init + [last];
      assert last in ls;
    }
  }

  /** A width is enough for the label exactly when it is the limit or more, or no line of the text is wider. */
  lemma LabelIsTight(txt: string, width: Advance, limit: int, bound: nat)
    ensures RectWidth(txt, width, limit) <= bound <==> limit <= bound || AllWithin(Lines(txt), width, bound)
  {
    hide Lines, MaxWidth, AllWithin;
    MaxWidthBounds(Lines(txt), width, bound);
  }

  /** Putting the lines of a text together again. */
  function Joined(ls: seq<string>): string
    requires |ls| > 0
  {
    if |ls| == 1 then ls[0] else ls[0] + "\n" + Joined(ls[1..])
  }

  lemma {:induction false} JoinedBehind(prefix: string, ls: seq<string>)
    requires |ls| > 0
    ensures Joined([prefix + ls[0]] + ls[1..]) == prefix + Joined(ls)
  {
    var all := [prefix + ls[0]] + ls[1..];
    assert all[1..] == ls[1..];
    if |ls| > 1 {
      Associative(prefix, ls[0] + "\n", Joined(ls[1..]));
      assert (prefix + ls[0]) + "\n" == prefix + (ls[0] + "\n");
    }
  }

  lemma {:induction false} JoinedAfterBreak(ls: seq<string>)
    requires |ls| > 0
    ensures Joined([""] + ls) == "\n" + Joined(ls)
  {
    assert ([""] + ls)[1..] == ls;
    assert "" + "\n" == "\n";
  }

  /** Lines cuts at the breaks, and at nothing else. */
  lemma {:induction false} LinesJoin(s: string)
    ensures Joined(Lines(s)) == s && forall l :: l in Lines(s) ==> '\n' !in l
  {
    hide Joined;
    if s == "" {
      assert Joined([""]) == "" by { JoinedOne(""); }
    } else {
      var rest := Lines(s[1..]);
      LinesJoin(s[1..]);
      JoinedBehind([s[0]], rest);
      JoinedAfterBreak(rest);
      assert s == [s[0]] + s[1..];
      assert rest[0] in rest;
    }
  }

  lemma JoinedOne(s: string)
    ensures Joined([s]) == s
  {
  }

  /** The lines of a text, when `cur` has already been displayed on the first of them. */
  predicate Fit(ls: seq<string>, width: Advance, cur: nat, bound: int)
    requires |ls| > 0
  {
    cur + Width(ls[0], width) <= bound && AllWithin(ls[1..], width, bound)
  }

  lemma FitAfter(c: char, s: string, width: Advance, cur: nat, bound: int)
    ensures var ls := Lines([c] + s);
            if c == '\n' then Fit(ls, width, cur, bound) <==> cur <= bound && AllWithin(Lines(s), width, bound)
            else Fit(ls, width, cur, bound) <==> Fit(Lines(s), width, cur + width(c), bound)
  {
    var ls, rest := Lines([c] + s), Lines(s);
    assert ([c] + s)[1..] == s;
    if c == '\n' {
      assert ls[1..] == rest;
    } else {
      assert ls[0] == [c] + rest[0] && ls[1..] == rest[1..];
      assert ([c] + rest[0])[1..] == rest[0];
    }
  }

  lemma FitFromStart(ls: seq<string>, width: Advance, bound: int)
    requires |ls| > 0
    ensures Fit(ls, width, 0, bound) <==> AllWithin(ls, width, bound)
  {
    assert ls == [ls[0]] + ls[1..];
    assert ls[0] in ls;
  }

  predicate NarrowText(txt: string, width: Advance, limit: int) {
    forall c :: c in txt && c != '\n' ==> width(c) <= limit
  }

  /**
   From a point where `cur` is on the current line, with a running width of at least that, every further
   line stays within the limit.
   */
  lemma {:induction false} WrapStaysWithinLimit(txt: string, width: Advance, limit: int, count: nat, cur: nat)
    requires NarrowText(txt, width, limit) && cur <= limit && cur <= count
    ensures Fit(Lines(Chars(Wrap(txt, width, limit, count))), width, cur, limit)
  {
    hide Lines, Wrap, Chars, Fit, AllWithin;
    if txt == "" {
      EmptyFits(width, limit, count, cur, limit);
    } else {
      var c, w := txt[0], width(txt[0]);
      assert c in txt;
      var count' := if count + w >= limit then w else count + w;
      var cur' := if c == '\n' then 0 else if count + w >= limit then w else cur + w;
      WrapStaysWithinLimit(txt[1..], width, limit, count', cur');
      WrapFits(txt, width, limit, count, cur, limit);
    }
  }

  lemma EmptyFits(width: Advance, limit: int, count: nat, cur: nat, bound: int)
    ensures Fit(Lines(Chars(Wrap("", width, limit, count))), width, cur, bound) <==> cur <= bound
    ensures Fit(Lines(""), width, cur, bound) <==> cur <= bound
  {
    assert Lines("") == [""];
  }

  /** One character of wrapping, in terms of what fits. */
  lemma WrapFits(txt: string, width: Advance, limit: int, count: nat, cur: nat, bound: int)
    requires txt != ""
    ensures var c, w := txt[0], width(txt[0]);
            var broken := count + w >= limit;
            var rest := Lines(Chars(Wrap(txt[1..], width, limit, if broken then w else count + w)));
            Fit(Lines(Chars(Wrap(txt, width, limit, count))), width, cur, bound) <==>
              (if c == '\n' then cur <= bound && (broken ==> 0 <= bound) && Fit(rest, width, 0, bound)
               else if broken then cur <= bound && Fit(rest, width, w, bound)
               else Fit(rest, width, cur + w, bound))
  {
    hide Lines, Wrap, Chars, Fit, AllWithin;
    var c, w := txt[0], width(txt[0]);
    CharsOfWrap(txt, width, limit, count);
    if count + w >= limit {
      var s := Chars(Wrap(txt[1..], width, limit, w));
      assert "\n" + [c] + s == ['\n'] + ([c] + s);
      FitAfter('\n', [c] + s, width, cur, bound);
      FitFromStart(Lines([c] + s), width, bound);
      FitAfter(c, s, width, 0, bound);
      FitFromStart(Lines(s), width, bound);
    } else {
      var s := Chars(Wrap(txt[1..], width, limit, count + w));
      FitAfter(c, s, width, cur, bound);
      FitFromStart(Lines(s), width, bound);
    }
  }

  /** A displayed line is a part of one of the text's own lines, so it is no wider. */
  lemma {:induction false} WrapStaysWithinText(txt: string, width: Advance, limit: int, count: nat,
                                               cur: nat, own: nat, bound: int)
    requires cur <= own && Fit(Lines(txt), width, own, bound)
    ensures Fit(Lines(Chars(Wrap(txt, width, limit, count))), width, cur, bound)
  {
    hide Lines, Wrap, Chars, Fit, AllWithin;
    if txt == "" {
      EmptyFits(width, limit, count, cur, bound);
      EmptyFits(width, limit, count, own, bound);
    } else {
      var c, w := txt[0], width(txt[0]);
      assert txt == [c] + txt[1..];
      FitAfter(c, txt[1..], width, own, bound);
      FitFromStart(Lines(txt[1..]), width, bound);
      FitBounded(Lines(txt[1..]), width, own + w, bound);
      var count' := if count + w >= limit then w else count + w;
      var cur' := if c == '\n' then 0 else if count + w >= limit then w else cur + w;
      WrapStaysWithinText(txt[1..], width, limit, count', cur', if c == '\n' then 0 else own + w, bound);
      WrapFits(txt, width, limit, count, cur, bound);
    }
  }

  lemma FitBounded(ls: seq<string>, width: Advance, cur: nat, bound: int)
    requires |ls| > 0
    ensures Fit(ls, width, cur, bound) ==> cur <= bound
  {
  }

  lemma {:induction false} CharOnSomeLine(s: string, width: Advance, c: char)
    requires c in s && c != '\n'
    ensures exists l :: l in Lines(s) && Width(l, width) >= width(c)
  {
    var rest := Lines(s[1..]);
    if s[0] == c {
      var l := [c] + rest[0];
      assert l in Lines(s) && l[1..] == rest[0];
    } else {
      CharOnSomeLine(s[1..], width, c);
      var l :| l in rest && Width(l, width) >= width(c);
      if s[0] != '\n' && l == rest[0] {
        var l' := [s[0]] + l;
        assert l' in Lines(s) && l'[1..] == l;
      } else {
        assert l in Lines(s);
      }
    }
  }

  lemma {:induction false} CharKept(txt: string, width: Advance, limit: int, count: nat, c: char)
    requires c in txt
    ensures c in Chars(Wrap(txt, width, limit, count))
  {
    CharsOfWrap(txt, width, limit, count);
    if txt[0] != c {
      var w := width(txt[0]);
      CharKept(txt[1..], width, limit, if count + w >= limit then w else count + w, c);
    }
  }

  /**
   Every displayed line fits the label's width exactly when no character is wider than the limit; the
   label has the height of the displayed lines in any case (UpdateText).
   */
  lemma LinesFitIff(txt: string, width: Advance, limit: int)
    requires limit >= 0
    ensures AllWithin(Lines(Wrapped(txt, width, limit)), width, RectWidth(txt, width, limit)) <==>
            NarrowText(txt, width, limit)
  {
    hide Lines, Wrap, Chars, Width, MaxWidth;
    var line := MaxWidth(Lines(txt), width);
    var shown := Lines(Wrapped(txt, width, limit));
    MaxWidthBounds(Lines(txt), width, line);
    if NarrowText(txt, width, limit) {
      WrapStaysWithinLimit(txt, width, limit, 0, 0);
      FitFromStart(Lines(txt), width, line);
      WrapStaysWithinText(txt, width, limit, 0, 0, 0, line);
      FitFromStart(shown, width, limit);
      FitFromStart(shown, width, line);
    } else {
      var c :| c in txt && c != '\n' && width(c) > limit;
      CharOnSomeLine(txt, width, c);
      CharKept(txt, width, limit, 0, c);
      CharOnSomeLine(Wrapped(txt, width, limit), width, c);
    }
  }
}
