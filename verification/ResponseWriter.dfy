/**
 HttpResponseWriter writing a response, against a decoder for the chunked coding of section 7.1 of RFC
 9112 and against the length its header block states (section 6.2).
 */
module ResponseWriter {
  import opened Bytes

  const CRLF := "\r\n"

  // ---- The chunked coding of section 7.1 of RFC 9112 ----

  predicate IsHex(c: char) {
    '0' <= c <= '9' || 'a' <= c <= 'f' || 'A' <= c <= 'F'
  }

  function HexDigit(c: char): (d: nat)
    requires IsHex(c)
    ensures d < 16
  {
    if c <= '9' then c as int - '0' as int
    else if c <= 'F' then c as int - 'A' as int + 10
    else c as int - 'a' as int + 10
  }

  /** The longest run of hex digits, read after the digits that `acc` stands for. */
  function ReadHex(s: string, acc: nat): (nat, string) {
    if s != "" && IsHex(s[0]) then ReadHex(s[1..], 16 * acc + HexDigit(s[0])) else (acc, s)
  }

  predicate AtCrlf(s: string, i: nat) {
    i + 2 <= |s| && s[i..i + 2] == CRLF
  }

  lemma {:induction false} ReadHexShortens(s: string, acc: nat)
    ensures |ReadHex(s, acc).1| <= |s|
  {
    if s != "" && IsHex(s[0]) {
      ReadHexShortens(s[1..], 16 * acc + HexDigit(s[0]));
    }
  }

  /** chunked-body: chunks, the last chunk, an empty trailer section. The rest of the text is returned. */
  function DecodeBody(s: string): Option<(string, string)>
    decreases |s|
  {
    if s == "" || !IsHex(s[0]) then None
    else
      var (size, r) := ReadHex(s, 0);
      ReadHexShortens(s, 0);
      if !AtCrlf(r, 0) then None
      else if !AtCrlf(r, 2 + size) then None
      else
        var after := r[2 + size + 2..];
        if size == 0 then Some(("", after))
        else
          match DecodeBody(after)
          case None => None
          case Some((body, rest)) => Some((r[2..2 + size] + body, rest))
  }

  // ---- What the writer sends ----

  function HexChar(d: nat): (c: char)
    requires d < 16
    ensures IsHex(c) && HexDigit(c) == d
  {
    if d < 10 then ('0' as int + d) as char else ('a' as int + d - 10) as char
  }

  /** snprintf("%x") */
  function HexText(n: nat): (s: string)
    ensures s != "" && IsHex(s[0])
  {
    if n < 16 then [HexChar(n)] else HexText(n / 16) + [HexChar(n % 16)]
  }

  function Chunk(piece: string): string {
    HexText(|piece|) + CRLF + piece + CRLF
  }

  function Chunks(pieces: seq<string>): string {
    if pieces == [] then "" else Chunks(pieces[..|pieces| - 1]) + Chunk(pieces[|pieces| - 1])
  }

  function Flatten(pieces: seq<string>): string {
    if pieces == [] then "" else Flatten(pieces[..|pieces| - 1]) + pieces[|pieces| - 1]
  }

  datatype State = SendBegin | SendHeader | SendBody | SendChunked | SendChunkedEnd | SendEnd

  const CHUNKED_LINE := "Transfer-Encoding: chunked"

  function LengthLine(n: nat): string {
    "Content-Length: " + Decimal(n)
  }

  /**
   The lines of the response: the status line and the header lines before, between and behind the two that
   say how the body is framed. `behind` is what lies in memory behind the body.
   */
  datatype Head = Head(status: string, first: seq<string>, middle: seq<string>, last: seq<string>, behind: nat -> char)
  {
    function Lines(chunked: bool, length: Option<nat>): seq<string> {
      [status] + first + (if length.Some? then [LengthLine(length.value)] else [])
      + middle + (if chunked then [CHUNKED_LINE] else []) + last
    }
  }

  /** Each line with its CRLF. */
  function Text(lines: seq<string>): string {
    if lines == [] then "" else lines[0] + CRLF + Text(lines[1..])
  }

  /** What EndHeaders is told to set. */
  datatype Field = NoField | Chunked | Length(n: nat)

  /**
   The writer's fields and its response's: whether Transfer-Encoding is chunked, the Content-Length if
   one is set, and the body. `wire` is what went to the socket.
   */
  datatype Writer =
    Writer(state: State, end: State, chunked: bool, length: Option<nat>, body: string, wire: string)

  function Begun(w: Writer): Writer {
    w.(state := SendBegin, end := SendBegin)
  }

  /** FillContentLength: a response that is not chunked states the length of its body. */
  function FilledLength(w: Writer): Option<nat> {
    if w.length.None? && !w.chunked then Some(|w.body|) else w.length
  }

  /** The header block. */
  function Block(head: Head, chunked: bool, length: Option<nat>): string {
    Text(head.Lines(chunked, length)) + CRLF
  }

  function FieldSet(w: Writer, field: Field): Writer {
    match field
    case NoField => w
    case Chunked => w.(chunked := true)
    case Length(n) => w.(length := Some(n))
  }

  function HeadersEnded(w: Writer, head: Head, field: Field): Writer {
    if w.state != SendBegin then w
    else
      var w1 := FieldSet(w, field);
      var length := FilledLength(w1);
      w1.(length := length, state := SendHeader, wire := w.wire + Block(head, w1.chunked, length))
  }

  function PieceWritten(w: Writer, head: Head, piece: string): Writer {
    var w' := HeadersEnded(w, head, Chunked);
    w'.(state := if piece != "" then SendChunked else SendChunkedEnd, wire := w'.wire + Chunk(piece))
  }

  function BodyWritten(w: Writer, head: Head, buf: string): Writer {
    if w.chunked then PieceWritten(w, head, buf)
    else if w.state == SendBegin then w.(body := w.body + buf)
    else w.(state := SendBody, wire := w.wire + buf)
  }

  /** DumpBody: a body that is not empty is read as far as the stated length, also beyond its end. */
  function BodyText(head: Head, w: Writer): string {
    match w.length
    case Some(n) =>
      if n == 0 || w.body == "" then w.body
      else if n <= |w.body| then w.body[..n]
      else w.body + seq(n - |w.body|, head.behind)
    case None => w.body
  }

  /** End's optional last piece. */
  function LastWritten(w: Writer, head: Head, last: Option<string>): Writer {
    if last.None? then w
    else if w.state == SendChunked then PieceWritten(w, head, last.value)
    else BodyWritten(w, head, last.value)
  }

  /** End: what is dumped without header lines still begins with the status line. */
  function Ended(w: Writer, head: Head, last: Option<string>): Writer {
    if w.end == SendEnd then w
    else
      var w1 := LastWritten(w.(end := SendEnd), head, last);
      if w.state == SendChunked then
        if w1.state == SendChunked then PieceWritten(w1, head, "") else w1
      else if w1.state == SendBody then w1
      else if w1.state == SendHeader then
        w1.(state := SendBody, wire := w1.wire + (head.status + CRLF + CRLF + BodyText(head, w1)))
      else
        var w2 := w1.(length := FilledLength(w1));
        w2.(state := SendBody, wire := w2.wire + (Block(head, w2.chunked, w2.length) + BodyText(head, w2)))
  }

  lemma StatusOnly(status: string)
    ensures Text([status]) + CRLF == status + CRLF + CRLF
  {
  }

  class HttpResponseWriter {
    const head: Head
    var state: State
    var end: State
    var chunked: bool
    var length: Option<nat>
    var body: string
    var wire: string

    ghost function Value(): Writer
      reads this
    {
      Writer(state, end, chunked, length, body, wire)
    }

    constructor (head: Head)
      ensures Value() == NEW_WRITER && this.head == head
    {
      this.head := head;
      state, end := SendBegin, SendBegin;
      chunked, length, body, wire := false, None, "", "";
    }

    method Begin()
      modifies this`state, this`end
      ensures Value() == Begun(old(Value())) && state == SendBegin && end == SendBegin
    {
      state, end := SendBegin, SendBegin;
    }

    /** response->Dump; without header lines only the status line is left of them. */
    method Dump(dumpHeaders: bool, dumpBody: bool) returns (msg: string)
      modifies this`length
      ensures length == if dumpHeaders then FilledLength(old(Value())) else old(length)
      ensures msg == (if dumpHeaders then Block(head, chunked, length) else head.status + CRLF + CRLF) +
                     (if dumpBody then BodyText(head, Value()) else "")
    {
      var lines := [head.status];
      if dumpHeaders {
        if length.None? && !chunked {
          length := Some(|body|);
        }
        lines := head.Lines(chunked, length);
      }
      StatusOnly(head.status);
      msg := Text(lines) + CRLF;
      if dumpBody {
        var content := body;
        if length.Some? && length.value != 0 && body != "" {
          var n := length.value;
          content := if n <= |body| then body[..n] else body + seq(n - |body|, head.behind);
        }
        msg := msg + content;
      }
    }

    method EndHeaders(field: Field) returns (ok: bool)
      modifies this
      ensures Value() == HeadersEnded(old(Value()), head, field) && (ok <==> old(state) == SendBegin)
      ensures !ok ==> Value() == old(Value())
    {
      if state != SendBegin {
        return false;
      }
      match field {
        case NoField =>
        case Chunked => chunked := true;
        case Length(n) => length := Some(n);
      }
      var headers := Dump(true, false);
      state := SendHeader;
      wire := wire + headers;
      return true;
    }

    /** The length is an int. */
    method WriteChunked(buf: string)
      requires |buf| < 0x8000_0000
      modifies this
      ensures Value() == PieceWritten(old(Value()), head, buf)
    {
      if state == SendBegin {
        var _ := EndHeaders(Chunked);
      }
      ghost var before := wire;
      wire := wire + (HexText(|buf|) + CRLF);
      if |buf| != 0 {
        state := SendChunked;
        wire := wire + buf;
      } else {
        state := SendChunkedEnd;
      }
      wire := wire + CRLF;
      assert wire == before + Chunk(buf);
    }

    method EndChunked()
      modifies this
      ensures Value() == PieceWritten(old(Value()), head, "")
    {
      WriteChunked("");
    }

    method WriteBody(buf: string)
      requires |buf| < 0x8000_0000
      modifies this
      ensures Value() == BodyWritten(old(Value()), head, buf)
    {
      if chunked {
        WriteChunked(buf);
      } else if state == SendBegin {
        body := body + buf;
      } else {
        state := SendBody;
        wire := wire + buf;
      }
    }

    /** End on a live connection. */
    method End(last: Option<string>)
      requires last.Some? ==> |last.value| < 0x8000_0000
      modifies this
      ensures Value() == Ended(old(Value()), head, last)
    {
      hide Chunk, BodyText, Block;
      if end == SendEnd {
        return;
      }
      end := SendEnd;
      if state == SendChunked {
        if last.Some? {
          WriteChunked(last.value);
        }
        if state == SendChunked {
          EndChunked();
        }
      } else {
        if last.Some? {
          WriteBody(last.value);
        }
        var dumpHeaders, dumpBody := true, true;
        if state == SendHeader {
          dumpHeaders := false;
        } else if state == SendBody {
          dumpHeaders, dumpBody := false, false;
        }
        if dumpBody {
          var msg := Dump(dumpHeaders, dumpBody);
          wire := wire + msg;
          state := SendBody;
        }
      }
    }
  }

  // ---- Decoding what was sent ----

  lemma {:induction false} ReadHexText(n: nat, r: string)
    ensures ReadHex(HexText(n) + r, 0) == ReadHex(r, n)
  {
    if n < 16 {
      assert (HexText(n) + r)[1..] == r;
    } else {
      var d := [HexChar(n % 16)];
      assert HexText(n) + r == HexText(n / 16) + (d + r);
      ReadHexText(n / 16, d + r);
      assert (d + r)[1..] == r;
    }
  }

  lemma DecodeChunk(piece: string, r: string)
    ensures DecodeBody(Chunk(piece) + r) ==
            if piece == "" then Some(("", r))
            else match DecodeBody(r)
                 case None => None
                 case Some((body, rest)) => Some((piece + body, rest))
  {
    hide HexText;
    var s, n := Chunk(piece) + r, |piece|;
    var t := CRLF + piece + CRLF + r;
    assert s == HexText(n) + t;
    ReadHexText(n, t);
    assert ReadHex(s, 0) == (n, t);
    assert t[0..2] == CRLF;
    assert t[2 + n..2 + n + 2] == CRLF;
    assert t[2..2 + n] == piece;
    assert t[2 + n + 2..] == r;
  }

  lemma {:induction false} DecodeChunks(pieces: seq<string>, r: string)
    requires "" !in pieces
    ensures DecodeBody(Chunks(pieces) + r) ==
            match DecodeBody(r)
            case None => None
            case Some((body, rest)) => Some((Flatten(pieces) + body, rest))
  {
    hide Chunk, DecodeBody;
    if pieces == [] {
      assert Chunks(pieces) + r == r;
      assert forall body: string :: Flatten(pieces) + body == body;
    } else {
      var init, last := pieces[..|pieces| - 1], pieces[|pieces| - 1];
      DecodeChunks(init, Chunk(last) + r);
      assert Chunks(pieces) + r == Chunks(init) + (Chunk(last) + r);
      DecodeChunk(last, r);
      assert forall body: string :: Flatten(init) + (last + body) == Flatten(pieces) + body;
    }
  }

  // ---- A complete message, as section 6.3 of RFC 9112 delimits it ----

  /** The text up to the first CRLF, and what follows it. */
  function TakeLine(s: string): (r: Option<(string, string)>)
    ensures r.Some? ==> |r.value.1| < |s|
  {
    if AtCrlf(s, 0) then Some(("", s[2..]))
    else if s == "" then None
    else
      match TakeLine(s[1..])
      case None => None
      case Some((line, rest)) => Some(([s[0]] + line, rest))
  }

  /** The lines before the first empty one, and what follows it. */
  function TakeLines(s: string): Option<(seq<string>, string)>
    decreases |s|
  {
    match TakeLine(s)
    case None => None
    case Some((line, rest)) =>
      if line == "" then Some(([], rest))
      else
        match TakeLines(rest)
        case None => None
        case Some((lines, after)) => Some(([line] + lines, after))
  }

  /** One message with nothing behind it: its header lines say how the body is framed, and it is `text`. */
  ghost predicate Carries(wire: string, text: string) {
    && TakeLines(wire).Some?
    && var (lines, rest) := TakeLines(wire).value;
       if CHUNKED_LINE in lines then DecodeBody(rest) == Some((text, ""))
       else LengthLine(|text|) in lines && rest == text
  }

  predicate IsLine(line: string) {
    line != "" && '\r' !in line
  }

  /** The other lines are lines, and say nothing about the framing; the status line begins with HTTP. */
  ghost predicate ProperHead(head: Head) {
    && IsLine(head.status) && head.status[0] == 'H'
    && forall line :: line in head.first + head.middle + head.last ==>
         IsLine(line) && line != CHUNKED_LINE && !("Content-Length: " <= line)
  }

  lemma {:induction false} TakesLine(line: string, rest: string)
    requires '\r' !in line
    ensures TakeLine(line + CRLF + rest) == Some((line, rest))
  {
    var s := line + CRLF + rest;
    if line == "" {
      assert s[0..2] == CRLF && s[2..] == rest;
    } else {
      assert [line[0]] + line[1..] == line;
      assert s[0] == line[0] && !AtCrlf(s, 0);
      assert s[1..] == line[1..] + CRLF + rest;
      TakesLine(line[1..], rest);
    }
  }

  lemma {:induction false} TakesLines(lines: seq<string>, rest: string)
    requires forall line :: line in lines ==> IsLine(line)
    ensures TakeLines(Text(lines) + CRLF + rest) == Some((lines, rest))
  {
    hide TakeLine;
    if lines == [] {
      TakesLine("", rest);
      assert Text(lines) + CRLF + rest == "" + CRLF + rest;
    } else {
      var more := Text(lines[1..]) + CRLF + rest;
      assert Text(lines) + CRLF + rest == lines[0] + CRLF + more;
      assert [lines[0]] + lines[1..] == lines && IsLine(lines[0]);
      TakesLine(lines[0], more);
      TakesLines(lines[1..], rest);
    }
  }

  lemma LengthLineIs(line: string)
    ensures (exists n: nat :: line == LengthLine(n)) ==>
              "Content-Length: " <= line && line != CHUNKED_LINE && IsLine(line)
  {
    if n: nat :| line == LengthLine(n) {
      assert line[0] == 'C';
      forall c | c in line
        ensures c != '\r'
      {
        assert c in "Content-Length: " || c in Decimal(n);
      }
    }
  }

  /** What the header lines say. */
  lemma LinesSay(head: Head, chunked: bool, length: Option<nat>)
    requires ProperHead(head)
    ensures var lines := head.Lines(chunked, length);
            && (forall line :: line in lines ==> IsLine(line))
            && (CHUNKED_LINE in lines <==> chunked)
            && (forall n: nat :: LengthLine(n) in lines <==> length == Some(n))
  {
    hide LengthLine, IsLine;
    var lines := head.Lines(chunked, length);
    var others := head.first + head.middle + head.last;
    forall line | line in lines
      ensures line == head.status || line in others || (chunked && line == CHUNKED_LINE) ||
              (length.Some? && line == LengthLine(length.value))
    {
    }
    assert IsLine(CHUNKED_LINE) by { ChunkedLineIsLine(); }
    StatusIsOther(head);
    if length.Some? {
      LengthLineIs(LengthLine(length.value));
      assert LengthLine(length.value) in lines;
    }
    forall n: nat | LengthLine(n) in lines
      ensures length == Some(n)
    {
      LengthLineIs(LengthLine(n));
      SameLength(n, length);
    }
  }

  lemma ChunkedLineIsLine()
    ensures IsLine(CHUNKED_LINE)
  {
  }

  lemma StatusIsOther(head: Head)
    requires ProperHead(head)
    ensures IsLine(head.status) && head.status != CHUNKED_LINE && !("Content-Length: " <= head.status)
  {
  }

  lemma SameLength(n: nat, length: Option<nat>)
    requires length.Some? && LengthLine(n) == LengthLine(length.value)
    ensures length == Some(n)
  {
    assert Decimal(n) == LengthLine(n)[16..];
    assert Decimal(length.value) == LengthLine(length.value)[16..];
    DecimalInjective(n, length.value);
  }

  /** A header block followed by a body is a complete message exactly when the body is framed as the block says. */
  lemma BlockThenBody(head: Head, chunked: bool, length: Option<nat>, body: string, text: string)
    requires ProperHead(head)
    ensures Carries(Block(head, chunked, length) + body, text) <==>
            if chunked then DecodeBody(body) == Some((text, "")) else length == Some(|text|) && body == text
  {
    hide DecodeBody, LengthLine, TakeLines, Text;
    LinesSay(head, chunked, length);
    TakesLines(head.Lines(chunked, length), body);
    assert Block(head, chunked, length) + body == Text(head.Lines(chunked, length)) + CRLF + body;
  }

  // ---- The documented call sequence ----

  const NEW_WRITER := Writer(SendBegin, SendBegin, false, None, "", "")

  /** Begin, EndHeaders with chunked, then one WriteChunked for each piece. */
  function Written(head: Head, pieces: seq<string>): (w: Writer)
    ensures w.chunked && w.end == SendBegin && w.state != SendBegin
  {
    if pieces == [] then HeadersEnded(Begun(NEW_WRITER), head, Chunked)
    else PieceWritten(Written(head, pieces[..|pieces| - 1]), head, pieces[|pieces| - 1])
  }

  function ChunkedBlock(head: Head): string {
    Block(head, true, None)
  }

  lemma {:induction false} WrittenWire(head: Head, pieces: seq<string>)
    ensures var w := Written(head, pieces);
            && w.wire == ChunkedBlock(head) + Chunks(pieces)
            && w.body == "" && w.length == None
            && w.state == if pieces == [] then SendHeader
                          else if pieces[|pieces| - 1] == "" then SendChunkedEnd else SendChunked
  {
    hide Chunk, Block;
    if pieces != [] {
      WrittenWire(head, pieces[..|pieces| - 1]);
    }
  }

  function AllText(pieces: seq<string>, last: Option<string>): string {
    Flatten(pieces) + (if last.Some? then last.value else "")
  }

  /** What End adds to the wire after the pieces. */
  function Closing(head: Head, pieces: seq<string>, last: Option<string>): string {
    var piece := if last.Some? then Chunk(last.value) else "";
    if pieces != [] && pieces[|pieces| - 1] != "" then
      if last == Some("") then piece else piece + Chunk("")
    else if pieces == [] && last.None? then head.status + CRLF + CRLF
    else piece + ChunkedBlock(head)
  }

  lemma ClosingOnWire(head: Head, pieces: seq<string>, last: Option<string>)
    ensures Ended(Written(head, pieces), head, last).wire ==
            ChunkedBlock(head) + (Chunks(pieces) + Closing(head, pieces, last))
  {
    hide Chunk, Written, Chunks, Block;
    WrittenWire(head, pieces);
  }

  /**
   A chunked response is one complete message carrying the pieces, with exactly one last chunk, if and
   only if something was written and no piece was empty. An empty piece ends the
   body early, and End without any piece sends no last chunk.
   */
  lemma WellFormedIff(head: Head, pieces: seq<string>, last: Option<string>)
    requires ProperHead(head)
    ensures Carries(Ended(Written(head, pieces), head, last).wire, AllText(pieces, last)) <==>
            pieces != [] && "" !in pieces
  {
    hide Chunk, DecodeBody, Ended, Written, Chunks, Flatten, Block, Carries;
    var closing := Closing(head, pieces, last);
    ClosingOnWire(head, pieces, last);
    BlockThenBody(head, true, None, Chunks(pieces) + closing, AllText(pieces, last));
    if "" in pieces {
      var k := FirstEmpty(pieces);
      EarlyEnd(pieces, k, closing);
      RestNotEmpty(head, pieces, last, k);
    } else {
      DecodeChunks(pieces, closing);
      DecodeClosing(head, pieces, last);
    }
  }

  lemma DecodeClosing(head: Head, pieces: seq<string>, last: Option<string>)
    requires ProperHead(head) && "" !in pieces
    ensures pieces != [] ==>
              DecodeBody(Closing(head, pieces, last)) == Some((if last.Some? then last.value else "", ""))
    ensures pieces == [] ==>
              match DecodeBody(Closing(head, pieces, last)) case None => true case Some((_, rest)) => rest != ""
  {
    hide Chunk;
    assert DecodeBody("") == None;
    assert ChunkedBlock(head)[0] == 'H';
    assert DecodeBody(ChunkedBlock(head)) == None;
    assert DecodeBody(head.status + CRLF + CRLF) == None;
    hide Block;
    var piece := if last.Some? then Chunk(last.value) else "";
    DecodeChunk("", "");
    assert Chunk("") + "" == Chunk("");
    if last.Some? {
      DecodeChunk(last.value, Chunk(""));
      DecodeChunk(last.value, ChunkedBlock(head));
      assert last.value + "" == last.value;
    } else {
      assert piece + Chunk("") == Chunk("");
    }
  }

  lemma FirstEmpty(pieces: seq<string>) returns (k: nat)
    requires "" in pieces
    ensures k < |pieces| && pieces[k] == "" && "" !in pieces[..k]
  {
    k := 0;
    while pieces[k] != ""
      invariant k < |pieces| && "" !in pieces[..k] && "" in pieces[k..]
      decreases |pieces| - k
    {
      assert pieces[k..] == [pieces[k]] + pieces[k + 1..];
      assert pieces[..k + 1] == pieces[..k] + [pieces[k]];
      k := k + 1;
    }
  }

  /** The first empty piece ends the body; everything after it is left over. */
  lemma EarlyEnd(pieces: seq<string>, k: nat, closing: string)
    requires k < |pieces| && pieces[k] == "" && "" !in pieces[..k]
    ensures DecodeBody(Chunks(pieces) + closing) == Some((Flatten(pieces[..k]), Chunks(pieces[k + 1..]) + closing))
  {
    hide Chunk, DecodeBody;
    ChunksSplit(pieces, k);
    var r := Chunks(pieces[k + 1..]) + closing;
    assert Chunks(pieces) + closing == Chunks(pieces[..k]) + (Chunk("") + r);
    DecodeChunks(pieces[..k], Chunk("") + r);
    DecodeChunk("", r);
    assert Flatten(pieces[..k]) + "" == Flatten(pieces[..k]);
  }

  lemma {:induction false} ChunksSplit(pieces: seq<string>, k: nat)
    requires k < |pieces|
    ensures Chunks(pieces) == Chunks(pieces[..k]) + (Chunk(pieces[k]) + Chunks(pieces[k + 1..]))
  {
    hide Chunk;
    var init := pieces[..|pieces| - 1];
    if k == |init| {
      assert pieces[k + 1..] == [];
    } else {
      ChunksSplit(init, k);
      assert init[..k] == pieces[..k];
      var tail := pieces[k + 1..];
      assert tail[..|tail| - 1] == init[k + 1..];
    }
  }

  lemma RestNotEmpty(head: Head, pieces: seq<string>, last: Option<string>, k: nat)
    requires head.status != "" && k < |pieces| && pieces[k] == ""
    ensures Chunks(pieces[k + 1..]) + Closing(head, pieces, last) != ""
  {
  }

  /** Further calls of End change nothing. */
  lemma EndIsFinal(w: Writer, head: Head, last: Option<string>, again: Option<string>)
    ensures Ended(Ended(w, head, last), head, again) == Ended(w, head, last)
  {
    hide Chunk, Block, BodyText, FilledLength;
  }

  // ---- Responses with a length ----

  /** Begin, then one WriteBody for each piece. */
  function Buffered(head: Head, pieces: seq<string>): Writer {
    if pieces == [] then Begun(NEW_WRITER)
    else BodyWritten(Buffered(head, pieces[..|pieces| - 1]), head, pieces[|pieces| - 1])
  }

  lemma {:induction false} BufferedBody(head: Head, pieces: seq<string>)
    ensures Buffered(head, pieces) == NEW_WRITER.(body := Flatten(pieces))
  {
    if pieces != [] {
      BufferedBody(head, pieces[..|pieces| - 1]);
    }
  }

  /** Written without EndHeaders, a response states the length of all pieces together and carries them. */
  lemma BufferedIsFramed(head: Head, pieces: seq<string>, last: Option<string>)
    requires ProperHead(head)
    ensures Carries(Ended(Buffered(head, pieces), head, last).wire, AllText(pieces, last))
  {
    hide Block, Flatten, Carries, Chunk, ProperHead, DecodeBody;
    var text := AllText(pieces, last);
    BlockThenBody(head, false, Some(|text|), text, text);
    BufferedBody(head, pieces);
    hide Ended, Buffered;
    EndedBuffered(head, Flatten(pieces), last);
  }

  lemma EndedBuffered(head: Head, body: string, last: Option<string>)
    ensures var text := body + (if last.Some? then last.value else "");
            Ended(NEW_WRITER.(body := body), head, last).wire == Block(head, false, Some(|text|)) + text
  {
    hide Block, PieceWritten, BodyText;
    var text := body + (if last.Some? then last.value else "");
    var w := NEW_WRITER.(end := SendEnd, body := text);
    assert body + "" == body;
    assert LastWritten(NEW_WRITER.(end := SendEnd, body := body), head, last) == w;
    BodyTextIs(head, w.(length := Some(|text|)), |text|);
    assert FilledLength(w) == Some(|text|);
    assert "" + (Block(head, false, Some(|text|)) + text) == Block(head, false, Some(|text|)) + text;
  }

  lemma EndedStreamed(head: Head, w: Writer, last: Option<string>)
    requires !w.chunked && w.body == "" && w.length.Some? && w.end != SendEnd
    requires w.state == SendHeader || w.state == SendBody
    ensures Ended(w, head, last).wire ==
            w.wire + (if last.Some? then last.value
                      else if w.state == SendHeader then head.status + CRLF + CRLF else "")
  {
    hide Block, PieceWritten, BodyText;
    var ended := w.(end := SendEnd);
    BodyTextIs(head, ended, ended.length.value);
    assert w.wire + "" == w.wire && head.status + CRLF + CRLF + "" == head.status + CRLF + CRLF;
  }

  /** Begin, EndHeaders with a length or nothing, then one WriteBody for each piece. */
  function Streamed(head: Head, field: Field, pieces: seq<string>): Writer {
    if pieces == [] then HeadersEnded(Begun(NEW_WRITER), head, field)
    else BodyWritten(Streamed(head, field, pieces[..|pieces| - 1]), head, pieces[|pieces| - 1])
  }

  lemma {:induction false} StreamedWire(head: Head, field: Field, pieces: seq<string>)
    requires !field.Chunked?
    ensures var n := if field.Length? then field.n else 0;
            Streamed(head, field, pieces) ==
            Writer(if pieces == [] then SendHeader else SendBody, SendBegin, false, Some(n), "",
                   Block(head, false, Some(n)) + Flatten(pieces))
  {
    hide Block;
    if pieces != [] {
      StreamedWire(head, field, pieces[..|pieces| - 1]);
    }
  }

  /**
   With EndHeaders first, a response that is not chunked is a complete message exactly when the stated length
   is the length of the pieces and something, be it an empty piece, was written: otherwise End writes the
   status line once more. Without a length given, the length 0 is stated.
   */
  lemma StreamedIff(head: Head, field: Field, pieces: seq<string>, last: Option<string>)
    requires ProperHead(head) && !field.Chunked?
    ensures Carries(Ended(Streamed(head, field, pieces), head, last).wire, AllText(pieces, last)) <==>
            (pieces != [] || last.Some?) && |AllText(pieces, last)| == if field.Length? then field.n else 0
  {
    hide Block, Carries, Chunk, ProperHead, DecodeBody, Flatten, Streamed;
    var n := if field.Length? then field.n else 0;
    StreamedWire(head, field, pieces);
    hide Ended;
    EndedStreamed(head, Streamed(head, field, pieces), last);
    assert Flatten([]) == "" by { NothingFlat(); }
    var body := if pieces == [] && last.None? then head.status + CRLF + CRLF else AllText(pieces, last);
    BlockThenBody(head, false, Some(n), body, AllText(pieces, last));
    assert Flatten(pieces) + "" == Flatten(pieces);
    var block := Block(head, false, Some(n));
    assert last.Some? ==> block + Flatten(pieces) + last.value == block + (Flatten(pieces) + last.value);
    assert block + "" + body == block + body && block + Flatten(pieces) + "" == block + Flatten(pieces);
  }

  lemma NothingFlat()
    ensures Flatten([]) == ""
  {
  }

  /** The body was written before the headers were ended: what of it is sent, and the status line before it. */
  lemma LateHeaders(head: Head, field: Field, pieces: seq<string>)
    requires !field.Chunked?
    ensures var body := Flatten(pieces);
            var n := if field.Length? then field.n else |body|;
            Ended(HeadersEnded(Buffered(head, pieces), head, field), head, None).wire ==
            Block(head, false, Some(n)) + (head.status + CRLF + CRLF +
            (if n == 0 || n == |body| || body == "" then body
             else if n < |body| then body[..n]
             else body + seq(n - |body|, head.behind)))
  {
    hide Block, Flatten, BodyText;
    BufferedBody(head, pieces);
    var body := Flatten(pieces);
    var n := if field.Length? then field.n else |body|;
    var w := HeadersEnded(NEW_WRITER.(body := body), head, field);
    assert w == NEW_WRITER.(state := SendHeader, length := Some(n), body := body, wire := Block(head, false, Some(n)));
    assert Ended(w, head, None).wire == w.wire + (head.status + CRLF + CRLF + BodyText(head, w.(end := SendEnd)));
    BodyTextIs(head, w.(end := SendEnd), n);
  }

  lemma BodyTextIs(head: Head, w: Writer, n: nat)
    requires w.length == Some(n)
    ensures BodyText(head, w) ==
            if n == 0 || n == |w.body| || w.body == "" then w.body
            else if n < |w.body| then w.body[..n]
            else w.body + seq(n - |w.body|, head.behind)
  {
    assert w.body[..|w.body|] == w.body;
  }
}
