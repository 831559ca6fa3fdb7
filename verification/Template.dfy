/**
 sformat: `{i}` markers are replaced by the i-th value by rewriting the string while it is scanned.
 The intent is simultaneous substitution; the scan resumes past the old marker's end plus the
 inserted value, so a marker that follows too closely is overlooked.
 */
module Template {
  import opened Bytes

  // ---- find_flg ----

  /** No `{` is followed by a `}` between lo and hi. */
  predicate NoPairIn(s: string, lo: nat, hi: nat)
    requires hi <= |s|
  {
    forall i, j :: lo <= i < j < hi ==> !(s[i] == '{' && s[j] == '}')
  }

  predicate NoPair(s: string) {
    NoPairIn(s, 0, |s|)
  }

  /** The marker find_flg reports: the first `}` with a `{` before it, and the last such `{`. */
  predicate IsFlag(s: string, from: nat, b: nat, e: nat) {
    && from <= b < e < |s| && s[b] == '{' && s[e] == '}'
    && (forall k :: b < k < e ==> s[k] != '{')
    && NoPairIn(s, from, e)
  }

  /** What is known after scanning up to i; `begin` is the last `{` seen, or -1. */
  ghost predicate Scanned(s: string, from: nat, i: nat, begin: int) {
    && from <= i && (i <= |s| || i == from)
    && NoPairIn(s, from, Min(i, |s|))
    && (if begin == -1 then forall k :: from <= k < Min(i, |s|) ==> s[k] != '{'
        else from <= begin < i <= |s| && s[begin] == '{' && forall k :: begin < k < i ==> s[k] != '{')
  }

  function FindFlag(s: string, from: nat, i: nat, begin: int): (r: Option<(nat, nat)>)
    requires Scanned(s, from, i, begin)
    ensures r.Some? ==> IsFlag(s, from, r.value.0, r.value.1)
    ensures r.None? ==> NoPairIn(s, from, |s|)
    decreases |s| - i
  {
    if i >= |s| then None
    else if s[i] == '{' then FindFlag(s, from, i + 1, i)
    else if s[i] == '}' && begin != -1 then Some((begin, i))
    else FindFlag(s, from, i + 1, begin)
  }

  function Flag(s: string, from: nat): (r: Option<(nat, nat)>)
    ensures r.Some? ==> IsFlag(s, from, r.value.0, r.value.1)
    ensures r.None? ==> NoPairIn(s, from, |s|)
  {
    FindFlag(s, from, from, -1)
  }

  /** There is only one flag, so IsFlag says what the scan finds. */
  lemma FlagFound(s: string, from: nat, b: nat, e: nat)
    requires IsFlag(s, from, b, e)
    ensures Flag(s, from) == Some((b, e))
  {
    hide FindFlag;
    var r := Flag(s, from);
    if r.Some? {
      var (b', e') := r.value;
      assert e == e';
      assert b == b';
    }
  }

  lemma NoFlagFound(s: string, from: nat)
    requires NoPairIn(s, from, |s|)
    ensures Flag(s, from) == None
  {
  }

  // ---- to_num ----

  predicate IsSpace(c: char) {
    c == ' ' || 9 <= c as int <= 13
  }

  predicate IsDigit(c: char) {
    '0' <= c <= '9'
  }

  function SkipSpaces(s: string): string {
    if s != "" && IsSpace(s[0]) then SkipSpaces(s[1..]) else s
  }

  /** The number at the beginning of a text; what follows the digits is ignored. */
  function LeadingNumber(s: string, acc: nat): nat {
    if s != "" && IsDigit(s[0]) then LeadingNumber(s[1..], 10 * acc + (s[0] as int - '0' as int)) else acc
  }

  /** std::stoi: None stands for its exceptions. */
  function Stoi(s: string): Option<int> {
    var t := SkipSpaces(s);
    var negative := t != "" && t[0] == '-';
    var u := if t != "" && (t[0] == '-' || t[0] == '+') then t[1..] else t;
    if u == "" || !IsDigit(u[0]) then None
    else
      var n: int := LeadingNumber(u, 0);
      var v := if negative then -n else n;
      if -0x8000_0000 <= v < 0x8000_0000 then Some(v) else None
  }

  lemma {:induction false} SkippedSpaces(spaces: string, s: string)
    requires (forall c :: c in spaces ==> IsSpace(c)) && (s == "" || !IsSpace(s[0]))
    ensures SkipSpaces(spaces + s) == s
  {
    if spaces == "" {
      assert spaces + s == s;
    } else {
      assert (spaces + s)[1..] == spaces[1..] + s;
      SkippedSpaces(spaces[1..], s);
    }
  }

  lemma {:induction false} LeadingDecimal(n: nat, rest: string)
    ensures LeadingNumber(Decimal(n) + rest, 0) == LeadingNumber(rest, n)
  {
    if n < 10 {
      assert (Decimal(n) + rest)[1..] == rest;
    } else {
      var d := [Digit(n % 10)];
      assert Decimal(n) + rest == Decimal(n / 10) + (d + rest);
      LeadingDecimal(n / 10, d + rest);
      assert (d + rest)[1..] == rest;
    }
  }

  /** A number is read in any decimal form: spaces before it, a sign, any text behind it; within 32 bits. */
  lemma StoiReads(spaces: string, sign: string, n: nat, rest: string)
    requires (forall c :: c in spaces ==> IsSpace(c)) && sign in {"", "+", "-"} && (rest == "" || !IsDigit(rest[0]))
    ensures var m: int := n;
            var v := if sign == "-" then -m else m;
            Stoi(spaces + (sign + (Decimal(n) + rest))) ==
            if -0x8000_0000 <= v < 0x8000_0000 then Some(v) else None
  {
    var number := Decimal(n) + rest;
    assert IsDigit(number[0]) by { assert number[0] in Decimal(n); }
    SkippedSpaces(spaces, sign + number);
    LeadingDecimal(n, rest);
    if sign == "" {
      assert sign + number == number;
    } else {
      assert (sign + number)[1..] == number;
    }
  }

  /** Text with no digit behind spaces and a sign is no number. */
  lemma StoiRejects(spaces: string, sign: string, rest: string)
    requires (forall c :: c in spaces ==> IsSpace(c)) && sign in {"", "+", "-"}
    requires rest == "" || !(IsDigit(rest[0]) || IsSpace(rest[0]) || rest[0] == '+' || rest[0] == '-')
    ensures Stoi(spaces + (sign + rest)) == None
  {
    SkippedSpaces(spaces, sign + rest);
    if sign == "" {
      assert sign + rest == rest;
    } else {
      assert (sign + rest)[1..] == rest;
    }
  }

  // ---- the rewriting loop ----

  function ReplaceString(s: string, value: string, b: nat, e: nat): string
    requires b <= e < |s|
  {
    s[..b] + value + s[e + 1..]
  }

  datatype Outcome = Text(s: string) | Throws

  /** How far the scan is from the end of the string. */
  function Ahead(s: string, end: nat): nat {
    if end <= |s| then |s| - end else 0
  }

  datatype Turn = Stop | Fail | Go(s: string, end: nat, val: int)

  /**
   One turn of the loop of sformat_t. A marker that is no number reuses the number of the one before;
   the lookup that moves the scan on is outside the try block, so an index out of range ends in an
   exception. The rest of the string gets shorter even where the string grows.
   */
  function Next(s: string, vec: seq<string>, end: nat, val: int): (t: Turn)
    ensures t.Go? ==> Ahead(t.s, t.end) < Ahead(s, end)
    ensures t.Go? ==> end < t.end && end < |s| && |t.s| >= end && t.s[..end] == s[..end]
    ensures t.Stop? <==> NoPairIn(s, end, |s|)
  {
    hide IsFlag, Stoi, FindFlag;
    match Flag(s, end)
    case None => Stop
    case Some((b, e)) =>
      FlagBounds(s, end, b, e);
      var num := Stoi(s[b + 1..e]);
      var val' := if num.Some? then num.value else val;
      if !(0 <= val' < |vec|) then Fail
      else
        var s' := if num.Some? then ReplaceString(s, vec[val'], b, e) else s;
        Go(s', e + |vec[val']|, val')
  }

  lemma FlagBounds(s: string, from: nat, b: nat, e: nat)
    requires IsFlag(s, from, b, e)
    ensures from <= b < e < |s| && s[b] == '{' && !NoPairIn(s, from, |s|)
  {
  }

  /** The loop from position `end` on, with `val` the last number read. */
  function Scan(s: string, vec: seq<string>, end: nat, val: int): Outcome
    decreases Ahead(s, end)
  {
    match Next(s, vec, end, val)
    case Stop => Text(s)
    case Fail => Throws
    case Go(s', end', val') => Scan(s', vec, end', val')
  }

  function Format(template: string, vec: seq<string>): Outcome {
    Scan(template, vec, 0, -1)
  }

  class Sformat {
    var str: string
    var vec: seq<string>

    constructor (str: string)
      ensures this.str == str && vec == []
    {
      this.str, vec := str, [];
    }

    method FindFlg(s: string, inBegin: nat) returns (ret: bool, begin: int, end: int)
      ensures ret <==> Flag(s, inBegin).Some?
      ensures ret ==> 0 <= begin < end && IsFlag(s, inBegin, begin, end)
    {
      hide FindFlag;
      ret, begin, end := false, -1, -1;
      var i := inBegin;
      while i < |s|
        invariant !ret && Scanned(s, inBegin, i, begin)
        invariant begin >= -1
      {
        if s[i] == '{' {
          begin := i;
        } else if s[i] == '}' && begin != -1 {
          end := i;
          ret := true;
          FlagFound(s, inBegin, begin, end);
          break;
        }
        i := i + 1;
      }
      if !ret {
        NoFlagFound(s, inBegin);
      }
    }

    /** to_num: the out-parameter keeps its value when stoi throws. */
    method ToNum(s: string, begin: nat, end: nat, old_val: int) returns (ok: bool, val: int)
      requires begin < end <= |s|
      ensures var num := Stoi(s[begin + 1..end]);
              ok == num.Some? && val == if num.Some? then num.value else old_val
    {
      match Stoi(s[begin + 1..end])
      case Some(n) => return true, n;
      case None => return false, old_val;
    }

    /** sformat_t after all values were pushed; the result says whether it returned. */
    method SformatT() returns (out: Outcome)
      modifies this`str
      ensures out == Format(old(str), vec)
      ensures out.Text? ==> out.s == str
    {
      hide Stoi, FindFlag, IsFlag, NoPairIn, ReplaceString;
      var val, end: nat := -1, 0;
      while true
        invariant Scan(str, vec, end, val) == Format(old(str), vec)
        decreases Ahead(str, end)
      {
        ghost var turn := Next(str, vec, end, val);
        var found, flgBegin, flgEnd := FindFlg(str, end);
        if found {
          FlagFound(str, end, flgBegin, flgEnd);
          FlagBounds(str, end, flgBegin, flgEnd);
          var ok;
          ok, val := ToNum(str, flgBegin, flgEnd, val);
          if ok && 0 <= val < |vec| {
            str := ReplaceString(str, vec[val], flgBegin, flgEnd);
          }
          if !(0 <= val < |vec|) {
            return Throws;
          }
          end := flgEnd + |vec[val]|;
          assert turn == Go(str, end, val);
        } else {
          break;
        }
      }
      return Text(str);
    }

    /** The variadic call operator: push every value, then rewrite. */
    method Apply(values: seq<string>) returns (out: Outcome)
      modifies this
      ensures out == Format(old(str), old(vec) + values)
      ensures vec == old(vec) + values
    {
      for i := 0 to |values|
        invariant vec == old(vec) + values[..i] && str == old(str)
      {
        vec := vec + [values[i]];
        assert values[..i + 1] == values[..i] + [values[i]];
      }
      assert values[..|values|] == values;
      out := SformatT();
    }
  }

  // ---- Simultaneous substitution ----

  /** A template taken apart: literal text, a marker's content, the rest. */
  datatype Parts = End(lit: string) | Marker(lit: string, mark: string, rest: Parts)

  function Render(t: Parts): string {
    match t
    case End(lit) => lit
    case Marker(lit, mark, rest) => lit + ("{" + mark + "}" + Render(rest))
  }

  /** Every marker holds a number below n and no brace. */
  predicate InRange(t: Parts, n: nat) {
    t.Marker? ==>
      && '{' !in t.mark && '}' !in t.mark
      && Stoi(t.mark).Some? && 0 <= Stoi(t.mark).value < n
      && InRange(t.rest, n)
  }

  function Substitute(t: Parts, vec: seq<string>): string
    requires InRange(t, |vec|)
  {
    match t
    case End(lit) => lit
    case Marker(lit, mark, rest) => lit + (vec[Stoi(mark).value] + Substitute(rest, vec))
  }

  /** From position k on, s has no `{` followed by a `}`. */
  predicate NoPairFrom(s: string, k: nat) {
    k <= |s| && NoPairIn(s, k, |s|)
  }

  /**
   The scan, entering a part `skip` characters behind its beginning, reaches the part's marker: the
   marker still lies ahead, and no brace pair comes before it. Behind a marker the scan skips the
   marker's length less one.
   */
  predicate Clean(t: Parts, skip: nat) {
    t.Marker? ==> NoPairFrom(t.lit, skip) && Clean(t.rest, |t.mark| + 1)
  }

  /** A brace pair without a brace in between. */
  predicate Innermost(s: string, b: nat, e: nat) {
    b < e < |s| && s[b] == '{' && s[e] == '}' && forall k :: b < k < e ==> s[k] != '{' && s[k] != '}'
  }

  /** From position k on, no innermost brace pair holds a number. */
  ghost predicate NoNumberFrom(s: string, k: nat) {
    forall b: nat, e: nat :: k <= b && Innermost(s, b, e) ==> Stoi(s[b + 1..e]).None?
  }

  /**
   Text the scan leaves alone: once a number has been read, a pair that holds none is skipped; before
   that, any pair makes it throw.
   */
  ghost predicate Harmless(s: string, k: nat, read: bool) {
    if read then NoNumberFrom(s, k) else NoPairIn(s, k, |s|)
  }

  /** The scan leaves the last literal alone. */
  ghost predicate CleanEnd(t: Parts, skip: nat, read: bool) {
    match t
    case End(lit) => Harmless(lit, skip, read)
    case Marker(_, mark, rest) => CleanEnd(rest, |mark| + 1, true)
  }

  /** Between two markers there are at least (length of the first marker - 1) characters. */
  predicate Spaced(t: Parts) {
    t.Marker? ==> (t.rest.Marker? ==> |t.rest.lit| >= |t.mark| + 1) && Spaced(t.rest)
  }

  predicate PairFree(t: Parts) {
    NoPair(t.lit) && (t.Marker? ==> PairFree(t.rest))
  }

  lemma FlagOfMarker(done: string, t: Parts, end: nat)
    requires t.Marker? && '{' !in t.mark && '}' !in t.mark
    requires |done| <= end && NoPairFrom(t.lit, end - |done|)
    ensures var b := |done| + |t.lit|; IsFlag(done + Render(t), end, b, b + |t.mark| + 1)
  {
    var s, b := done + Render(t), |done| + |t.lit|;
    var e := b + |t.mark| + 1;
    assert forall k :: |done| <= k < b ==> s[k] == t.lit[k - |done|];
    assert forall k :: b < k < e ==> s[k] == t.mark[k - b - 1];
    assert s[b] == '{' && s[e] == '}';
  }

  lemma MarkerReplaced(done: string, t: Parts, value: string)
    requires t.Marker?
    ensures var s, b := done + Render(t), |done| + |t.lit|;
            && b + |t.mark| + 1 < |s|
            && s[b + 1..b + |t.mark| + 1] == t.mark
            && ReplaceString(s, value, b, b + |t.mark| + 1) == (done + t.lit + value) + Render(t.rest)
  {
    var s, b := done + Render(t), |done| + |t.lit|;
    assert s[..b] == done + t.lit;
    assert s[b + |t.mark| + 2..] == Render(t.rest);
  }

  /** One turn of the loop at a proper marker that the scan has not yet passed. */
  lemma ScanMarker(done: string, t: Parts, vec: seq<string>, end: nat, val: int)
    requires t.Marker? && InRange(t, |vec|)
    requires |done| <= end && NoPairFrom(t.lit, end - |done|)
    ensures var v := Stoi(t.mark).value;
            var done' := done + t.lit + vec[v];
            Scan(done + Render(t), vec, end, val) == Scan(done' + Render(t.rest), vec, |done'| + |t.mark| + 1, v)
  {
    hide Stoi, IsFlag, Flag, NoPairIn, ReplaceString, Render;
    var b := |done| + |t.lit|;
    var e := b + |t.mark| + 1;
    FlagOfMarker(done, t, end);
    FlagFound(done + Render(t), end, b, e);
    MarkerReplaced(done, t, vec[Stoi(t.mark).value]);
  }

  lemma FlagIsInnermost(s: string, from: nat, b: nat, e: nat)
    requires IsFlag(s, from, b, e)
    ensures Innermost(s, b, e)
  {
  }

  /** Of the innermost pairs behind a position, the flag is the first. */
  lemma NumberBehindFlag(s: string, from: nat, b: nat, e: nat)
    requires IsFlag(s, from, b, e) && !NoNumberFrom(s, from) && Stoi(s[b + 1..e]).None?
    ensures !NoNumberFrom(s, e)
  {
    hide Stoi;
    var b': nat, e': nat :| from <= b' && Innermost(s, b', e') && Stoi(s[b' + 1..e']).Some?;
    assert e <= e';
    assert e == e' ==> b == b';
  }

  lemma LaterIsHarmless(s: string, k: nat, k': nat, read: bool)
    requires Harmless(s, k, read) && k <= k'
    ensures Harmless(s, k', read)
  {
    hide Stoi;
  }

  lemma {:induction false} ScanKeeps(s: string, vec: seq<string>, end: nat, val: int)
    requires Harmless(s, end, 0 <= val < |vec|)
    ensures Scan(s, vec, end, val) == Text(s)
    decreases Ahead(s, end)
  {
    hide Stoi, FindFlag, IsFlag, NoPairIn;
    ScanOnce(s, vec, end, val);
    var turn := Next(s, vec, end, val);
    if turn.Stop? {
      ScanStops(s, vec, end, val);
    } else {
      assert 0 <= val < |vec|;
      var (b, e) := Flag(s, end).value;
      FlagBounds(s, end, b, e);
      FlagIsInnermost(s, end, b, e);
      assert Stoi(s[b + 1..e]).None?;
      LaterIsHarmless(s, end, turn.end, true);
      ScanKeeps(s, vec, turn.end, val);
    }
  }

  ghost predicate AllEmpty(vec: seq<string>) {
    forall v :: v in vec ==> v == ""
  }

  /** With empty values the text does not grow. */
  lemma {:induction false} EmptyNeverGrows(s: string, vec: seq<string>, end: nat, val: int)
    requires AllEmpty(vec) && Scan(s, vec, end, val).Text?
    ensures |Scan(s, vec, end, val).s| <= |s|
    decreases Ahead(s, end)
  {
    hide Stoi, FindFlag, IsFlag;
    ScanOnce(s, vec, end, val);
    var turn := Next(s, vec, end, val);
    if turn.Go? {
      assert vec[turn.val] in vec;
      var (b, e) := Flag(s, end).value;
      FlagBounds(s, end, b, e);
      EmptyNeverGrows(turn.s, vec, turn.end, turn.val);
    }
  }

  /** Text that is not harmless is changed, or makes the scan throw, when all values are empty. */
  lemma {:induction false} ScanHarms(s: string, vec: seq<string>, end: nat, val: int)
    requires AllEmpty(vec) && !Harmless(s, end, 0 <= val < |vec|)
    ensures Scan(s, vec, end, val) != Text(s)
    decreases Ahead(s, end)
  {
    hide Stoi, FindFlag, IsFlag;
    ScanOnce(s, vec, end, val);
    var turn := Next(s, vec, end, val);
    if turn.Stop? {
      NoPairNoNumber(s, end);
    } else if turn.Go? {
      assert vec[turn.val] in vec;
      var (b, e) := Flag(s, end).value;
      FlagBounds(s, end, b, e);
      if Stoi(s[b + 1..e]).Some? {
        if Scan(turn.s, vec, turn.end, turn.val).Text? {
          EmptyNeverGrows(turn.s, vec, turn.end, turn.val);
        }
      } else {
        NumberBehindFlag(s, end, b, e);
        ScanHarms(s, vec, turn.end, val);
      }
    }
  }

  lemma NoPairNoNumber(s: string, k: nat)
    requires NoPairIn(s, k, |s|)
    ensures NoNumberFrom(s, k)
  {
    hide Stoi;
  }

  /** The last literal, alone and behind what is done. */
  lemma HarmlessBehind(done: string, lit: string, k: nat, read: bool)
    ensures Harmless(done + lit, |done| + k, read) <==> Harmless(lit, k, read)
  {
    hide Stoi;
    if read {
      NumbersBehind(done, lit, k);
    } else {
      PairsBehind(done, lit, k);
    }
  }

  lemma PairsBehind(done: string, lit: string, k: nat)
    ensures NoPairIn(done + lit, |done| + k, |done + lit|) <==> NoPairIn(lit, k, |lit|)
  {
    var s, d := done + lit, |done|;
    assert forall i :: 0 <= i < |lit| ==> s[d + i] == lit[i];
    if i, j :| k <= i < j < |lit| && lit[i] == '{' && lit[j] == '}' {
      assert s[d + i] == '{' && s[d + j] == '}';
    }
    if i, j :| d + k <= i < j < |s| && s[i] == '{' && s[j] == '}' {
      assert lit[i - d] == '{' && lit[j - d] == '}';
    }
  }

  lemma NumbersBehind(done: string, lit: string, k: nat)
    ensures NoNumberFrom(done + lit, |done| + k) <==> NoNumberFrom(lit, k)
  {
    hide Stoi;
    var s, d := done + lit, |done|;
    if b: nat, e: nat :| k <= b && Innermost(lit, b, e) && Stoi(lit[b + 1..e]).Some? {
      InnermostBehind(done, lit, b, e);
      assert Innermost(s, d + b, d + e);
    }
    if b: nat, e: nat :| d + k <= b && Innermost(s, b, e) && Stoi(s[b + 1..e]).Some? {
      InnermostBehind(done, lit, b - d, e - d);
      assert Innermost(lit, b - d, e - d);
    }
  }

  lemma InnermostBehind(done: string, lit: string, b: nat, e: nat)
    ensures Innermost(done + lit, |done| + b, |done| + e) <==> Innermost(lit, b, e)
    ensures Innermost(lit, b, e) ==> (done + lit)[|done| + b + 1..|done| + e] == lit[b + 1..e]
  {
    var s, d := done + lit, |done|;
    assert forall i :: 0 <= i < |lit| ==> s[d + i] == lit[i];
    if Innermost(s, d + b, d + e) {
      forall k | b < k < e
        ensures lit[k] != '{' && lit[k] != '}'
      {
        assert s[d + k] == lit[k];
      }
    }
    if Innermost(lit, b, e) {
      forall k | d + b < k < d + e
        ensures s[k] != '{' && s[k] != '}'
      {
        assert s[k] == lit[k - d];
      }
    }
  }

  /** Clean templates are substituted, whatever the values contain. */
  lemma {:induction false} ScanSubstitutes(done: string, t: Parts, vec: seq<string>, end: nat, val: int)
    requires InRange(t, |vec|) && |done| <= end
    requires Clean(t, end - |done|) && CleanEnd(t, end - |done|, 0 <= val < |vec|)
    ensures Scan(done + Render(t), vec, end, val) == Text(done + Substitute(t, vec))
    decreases t
  {
    hide Stoi, Scan, Harmless;
    if t.End? {
      HarmlessBehind(done, t.lit, end - |done|, 0 <= val < |vec|);
      ScanKeeps(done + t.lit, vec, end, val);
    } else {
      ScanMarker(done, t, vec, end, val);
      var v := Stoi(t.mark).value;
      var done' := done + t.lit + vec[v];
      ScanSubstitutes(done', t.rest, vec, |done'| + |t.mark| + 1, v);
      assert done' + Substitute(t.rest, vec) == done + Substitute(t, vec);
    }
  }

  /** If only the last literal is not harmless, empty values show it. */
  lemma {:induction false} ScanSpoilsEnd(done: string, t: Parts, vec: seq<string>, end: nat, val: int)
    requires InRange(t, |vec|) && |done| <= end && AllEmpty(vec)
    requires Clean(t, end - |done|) && !CleanEnd(t, end - |done|, 0 <= val < |vec|)
    ensures Scan(done + Render(t), vec, end, val) != Text(done + Substitute(t, vec))
    decreases t
  {
    hide Stoi, Scan, Harmless, AllEmpty;
    if t.End? {
      HarmlessBehind(done, t.lit, end - |done|, 0 <= val < |vec|);
      ScanHarms(done + t.lit, vec, end, val);
    } else {
      ScanMarker(done, t, vec, end, val);
      var v := Stoi(t.mark).value;
      var done' := done + t.lit + vec[v];
      ScanSpoilsEnd(done', t.rest, vec, |done'| + |t.mark| + 1, v);
      assert done' + Substitute(t.rest, vec) == done + Substitute(t, vec);
    }
  }

  lemma ScanStops(s: string, vec: seq<string>, end: nat, val: int)
    requires NoPairIn(s, end, |s|)
    ensures Scan(s, vec, end, val) == Text(s)
  {
    hide FindFlag, IsFlag, NoPairIn;
    NoFlagFound(s, end);
  }

  /** The scan never goes back: characters before its position stay. */
  lemma {:induction false} ScannedStays(s: string, vec: seq<string>, end: nat, val: int, p: nat)
    requires p < end && p < |s|
    requires Scan(s, vec, end, val).Text?
    ensures var r := Scan(s, vec, end, val).s; p < |r| && r[..p + 1] == s[..p + 1]
    decreases Ahead(s, end)
  {
    hide Next, NoPairIn, Ahead;
    var turn := Next(s, vec, end, val);
    if turn.Go? {
      assert turn.s[..p + 1] == turn.s[..end][..p + 1];
      assert s[..p + 1] == s[..end][..p + 1];
      ScannedStays(turn.s, vec, turn.end, turn.val, p);
    }
  }

  /** A value of n letters, none of them a brace. */
  function Letters(n: nat): (s: string)
    ensures |s| == n && forall k :: 0 <= k < n ==> s[k] == 'x'
  {
    seq(n, _ => 'x')
  }

  /** The scan is already behind the marker's opening brace: it stays in the result. */
  lemma ScanOverlooks(done: string, t: Parts, vec: seq<string>, end: nat, val: int, n: nat)
    requires t.Marker? && InRange(t, |vec|) && n > 0
    requires forall v :: v in vec ==> v == Letters(n)
    requires end > |done| + |t.lit|
    ensures Scan(done + Render(t), vec, end, val) != Text(done + Substitute(t, vec))
  {
    hide Stoi, Scan;
    var s, p := done + Render(t), |done| + |t.lit|;
    MarkerDiffers(done, t, vec, n);
    if Scan(s, vec, end, val).Text? {
      ScannedStays(s, vec, end, val, p);
      assert Scan(s, vec, end, val).s[..p + 1][p] == s[..p + 1][p];
    }
  }

  /** At its opening brace the template differs from the result. */
  lemma MarkerDiffers(done: string, t: Parts, vec: seq<string>, n: nat)
    requires t.Marker? && InRange(t, |vec|) && n > 0
    requires forall v :: v in vec ==> v == Letters(n)
    ensures var p := |done| + |t.lit|;
            && p < |done + Render(t)| && p < |done + Substitute(t, vec)|
            && (done + Render(t))[p] == '{' && (done + Substitute(t, vec))[p] == 'x'
  {
    hide Stoi;
    assert vec[Stoi(t.mark).value] in vec;
  }

  /** A brace pair in front of the marker is taken for a marker. */
  lemma ScanMistakes(done: string, t: Parts, vec: seq<string>, end: nat, val: int, n: nat)
    requires t.Marker? && InRange(t, |vec|) && n > |Render(t)|
    requires forall v :: v in vec ==> v == Letters(n)
    requires |done| <= end <= |done| + |t.lit| && !NoPairFrom(t.lit, end - |done|)
    ensures Scan(done + Render(t), vec, end, val) != Text(done + Substitute(t, vec))
  {
    hide Stoi, Scan, FindFlag, Substitute, Render;
    var s, want := done + Render(t), done + Substitute(t, vec);
    var turn := Next(s, vec, end, val);
    MarkerDiffers(done, t, vec, n);
    var b, e := MistakenFlag(done, t, end);
    SameLiteral(done, t, vec, b);
    FlagFound(s, end, b, e);
    ScanOnce(s, vec, end, val);
    if turn.Go? {
      var num := Stoi(s[b + 1..e]);
      if num.Some? {
        assert vec[num.value] in vec;
        assert turn.s[b] == 'x' && turn.end > b;
        if Scan(turn.s, vec, turn.end, turn.val).Text? {
          ScannedStays(turn.s, vec, turn.end, turn.val, b);
          assert Scan(turn.s, vec, turn.end, turn.val).s[..b + 1][b] == turn.s[..b + 1][b];
        }
      } else {
        assert vec[val] in vec;
        assert turn.s == s && turn.end > |s|;
        ScanStops(s, vec, turn.end, turn.val);
      }
    }
  }

  lemma ScanOnce(s: string, vec: seq<string>, end: nat, val: int)
    ensures var turn := Next(s, vec, end, val);
            turn.Go? ==> Scan(s, vec, end, val) == Scan(turn.s, vec, turn.end, turn.val)
    ensures Next(s, vec, end, val).Fail? ==> Scan(s, vec, end, val) == Throws
  {
    hide Next;
  }

  lemma MistakenFlag(done: string, t: Parts, end: nat) returns (b: nat, e: nat)
    requires t.Marker? && |done| <= end <= |done| + |t.lit| && !NoPairFrom(t.lit, end - |done|)
    ensures IsFlag(done + Render(t), end, b, e) && e < |done| + |t.lit|
  {
    hide FindFlag;
    var s := done + Render(t);
    var i, j :| end - |done| <= i < j < |t.lit| && t.lit[i] == '{' && t.lit[j] == '}';
    assert s[|done| + i] == '{' && s[|done| + j] == '}';
    var r := Flag(s, end);
    b, e := r.value.0, r.value.1;
  }

  lemma SameLiteral(done: string, t: Parts, vec: seq<string>, b: nat)
    requires InRange(t, |vec|) && b < |done| + |t.lit|
    ensures b < |done + Render(t)| && b < |done + Substitute(t, vec)|
    ensures (done + Render(t))[b] == (done + Substitute(t, vec))[b]
  {
  }

  /** A template that is not clean goes wrong when all values are long enough. */
  lemma {:induction false} ScanSpoils(done: string, t: Parts, vec: seq<string>, end: nat, val: int, n: nat)
    requires InRange(t, |vec|) && n > |Render(t)| && forall v :: v in vec ==> v == Letters(n)
    requires |done| <= end && !Clean(t, end - |done|)
    ensures Scan(done + Render(t), vec, end, val) != Text(done + Substitute(t, vec))
    decreases t
  {
    hide Stoi, Scan, NoPairIn;
    if end > |done| + |t.lit| {
      ScanOverlooks(done, t, vec, end, val, n);
    } else if !NoPairFrom(t.lit, end - |done|) {
      ScanMistakes(done, t, vec, end, val, n);
    } else {
      ScanMarker(done, t, vec, end, val);
      var v := Stoi(t.mark).value;
      assert vec[v] in vec;
      var done' := done + t.lit + vec[v];
      ScanSpoils(done', t.rest, vec, |done'| + |t.mark| + 1, v, n);
      assert done' + Substitute(t.rest, vec) == done + Substitute(t, vec);
    }
  }

  /**
   For every template with in-range markers, whatever braces its literal text has, formatting is
   simultaneous substitution for all values, also those that look like markers, exactly when the
   template is clean up to its last marker and its last literal is harmless.
   */
  lemma SubstitutesIffClean(t: Parts, n: nat)
    requires InRange(t, n)
    ensures (forall vec :: |vec| == n ==> Format(Render(t), vec) == Text(Substitute(t, vec))) <==>
            Clean(t, 0) && CleanEnd(t, 0, false)
  {
    hide Scan, Substitute, Render, Clean, CleanEnd;
    if !Clean(t, 0) {
      var letters := Letters(|Render(t)| + 1);
      var vec := seq(n, _ => letters);
      ScanSpoils("", t, vec, 0, -1, |Render(t)| + 1);
      assert "" + Render(t) == Render(t) && "" + Substitute(t, vec) == Substitute(t, vec);
    } else if !CleanEnd(t, 0, false) {
      var vec := seq(n, _ => "");
      ScanSpoilsEnd("", t, vec, 0, -1);
      assert "" + Render(t) == Render(t) && "" + Substitute(t, vec) == Substitute(t, vec);
    } else {
      forall vec: seq<string> | |vec| == n
        ensures Format(Render(t), vec) == Text(Substitute(t, vec))
      {
        ScanSubstitutes("", t, vec, 0, -1);
        assert "" + Render(t) == Render(t) && "" + Substitute(t, vec) == Substitute(t, vec);
      }
    }
  }

  lemma {:induction false} PairFreeCleanIff(t: Parts, skip: nat, read: bool)
    requires PairFree(t)
    ensures Clean(t, skip) <==> Spaced(t) && (t.Marker? ==> skip <= |t.lit|)
    ensures CleanEnd(t, skip, read)
    decreases t
  {
    hide Stoi;
    if t.Marker? {
      PairFreeCleanIff(t.rest, |t.mark| + 1, true);
    }
  }

  /** In particular, for literal text whose braces form no pair: exactly when the markers are spaced. */
  lemma SubstitutesIffSpaced(t: Parts, n: nat)
    requires InRange(t, n) && PairFree(t)
    ensures (forall vec :: |vec| == n ==> Format(Render(t), vec) == Text(Substitute(t, vec))) <==> Spaced(t)
  {
    hide Format, Substitute, Render, Clean, CleanEnd, Spaced;
    PairFreeCleanIff(t, 0, false);
    SubstitutesIffClean(t, n);
  }

  lemma WholeText(s: string)
    ensures NoPair(s) <==> NoPairFrom(s, 0)
  {
  }

  /** A first marker whose index is out of range, or that is no number, makes sformat throw. */
  lemma BadFirstMarkerThrows(t: Parts, vec: seq<string>)
    requires t.Marker? && NoPair(t.lit) && '{' !in t.mark && '}' !in t.mark
    requires Stoi(t.mark).None? || !(0 <= Stoi(t.mark).value < |vec|)
    ensures Format(Render(t), vec) == Throws
  {
    hide Stoi, IsFlag, Flag, NoPairIn, Render, ReplaceString;
    assert NoPairFrom(t.lit, 0) by { assert NoPair(t.lit); WholeText(t.lit); }
    FlagOfMarker("", t, 0);
    MarkerReplaced("", t, "");
    assert "" + Render(t) == Render(t);
    FlagFound(Render(t), 0, |t.lit|, |t.lit| + |t.mark| + 1);
  }
}
