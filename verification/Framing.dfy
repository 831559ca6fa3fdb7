/**
 The file-transfer framing of web_protocol.h: one flag byte, then either JSON text or
 an 8-byte id followed by a payload. The id is the memory image of an int64, which is
 little-endian on the platforms the client is built for.
 */
module Framing {
  import opened Bytes

  const FILES_JSON: Byte := 0x01
  const FILES_BINARY: Byte := 0x02
  const BIT_FLG: nat := 1
  const BIT_ID: nat := 8

  /** ct_s<int64>: the two's-complement image of an id. */
  function IdImage(id: Int64): (s: seq<Byte>)
    ensures |s| == BIT_ID
  {
    LittleEndian(if id < 0 then id + TWO_64 else id, BIT_ID)
  }

  /** st_c<int64> on eight bytes. */
  function ImageId(s: seq<Byte>): (id: Int64)
    requires |s| == BIT_ID
    ensures IdImage(id) == s
  {
    var n := LittleEndianValue(s);
    Pow256Of8();
    ImageOfValue(s);
    if n < TWO_63 then n else n - TWO_64
  }

  lemma Pow256Of8()
    ensures Pow256(8) == TWO_64
  {
    assert Pow256(2) == 0x1_0000;
    assert Pow256(4) == 0x1_0000_0000;
    assert Pow256(6) == 0x1_0000_0000_0000;
  }

  /** check_files_flg: `msg.size() < 0` never holds, and reading past an empty string gives 0. */
  function Flag(msg: seq<Byte>): Byte {
    if msg == [] then 0 else msg[0]
  }

  function SetFilesBinary(id: Int64, payload: seq<Byte>): (msg: seq<Byte>) {
    [FILES_BINARY] + IdImage(id) + payload
  }

  /** What get_files_binary delivers; it does not look at the flag byte. */
  function Payload(msg: seq<Byte>): Option<(Int64, seq<Byte>)> {
    if |msg| < BIT_FLG + BIT_ID then None
    else Some((ImageId(msg[BIT_FLG..BIT_FLG + BIT_ID]), msg[BIT_FLG + BIT_ID..]))
  }

  method GetFilesBinary(msg: seq<Byte>) returns (ok: bool, id: Int64, buf: seq<Byte>)
    ensures ok <==> |msg| >= BIT_FLG + BIT_ID
    ensures ok ==> msg == [msg[0]] + IdImage(id) + buf
    ensures ok ==> Payload(msg) == Some((id, buf))
    ensures !ok ==> Payload(msg) == None
  {
    if |msg| < BIT_FLG + BIT_ID {
      return false, 0, [];
    }
    id := ImageId(msg[BIT_FLG..BIT_FLG + BIT_ID]);
    buf := msg[BIT_FLG + BIT_ID..];
    ok := true;
  }

  /** Distinct ids have distinct images. */
  lemma IdRoundTrip(id: Int64)
    ensures ImageId(IdImage(id)) == id
  {
    Pow256Of8();
    ValueOfImage(if id < 0 then id + TWO_64 else id, BIT_ID);
  }

  /** The image begins with the lowest byte. */
  lemma IdImageOfSmall(id: Byte)
    ensures IdImage(id) == [id, 0, 0, 0, 0, 0, 0, 0]
  {
    ImageOfZero(7);
    assert seq(7, _ => 0) == [0, 0, 0, 0, 0, 0, 0];
  }

  /** Every framed piece is dispatched as binary data and read back as it was framed. */
  lemma BinaryRoundTrip(id: Int64, payload: seq<Byte>)
    ensures Flag(SetFilesBinary(id, payload)) == 2
    ensures Payload(SetFilesBinary(id, payload)) == Some((id, payload))
  {
    var msg := SetFilesBinary(id, payload);
    assert msg[BIT_FLG..BIT_FLG + BIT_ID] == IdImage(id);
    assert msg[BIT_FLG + BIT_ID..] == payload;
    IdRoundTrip(id);
  }

  /** The frame is a bijection: every long enough binary message is the frame of what it decodes to. */
  lemma BinaryFrameOnto(msg: seq<Byte>)
    requires Flag(msg) == 2
    ensures Payload(msg).Some? <==> |msg| >= 9
    ensures Payload(msg).Some? ==> SetFilesBinary(Payload(msg).value.0, Payload(msg).value.1) == msg
  {
    if |msg| >= 9 {
      assert msg == [msg[0]] + msg[1..9] + msg[9..];
    }
  }
}
