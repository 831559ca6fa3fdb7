/**
 The varint codec of hmath.h: groups of seven bits, least significant first, with the top bit of a
 byte set when more bytes follow.
 */
module Varint {
  import opened Bytes
  import opened Meter

  const MAX_BYTES: nat := 10

  function Encode(v: nat): (s: seq<Byte>)
    ensures |s| > 0
  {
    if v < 128 then [v] else [v % 128 + 128] + Encode(v / 128)
  }

  /** The number that the seven-bit groups stand for. */
  function GroupValue(s: seq<Byte>): nat {
    if s == [] then 0 else s[0] % 128 + 128 * GroupValue(s[1..])
  }

  /** `i` is where the varint at the beginning of `s` ends. */
  predicate EndsAt(s: seq<Byte>, i: nat) {
    i < |s| && s[i] < 128 && forall k :: 0 <= k < i ==> s[k] >= 128
  }

  function Pow128(k: nat): (p: nat)
    ensures p > 0
  {
    if k == 0 then 1 else 128 * Pow128(k - 1)
  }

  /** varint_encode for a value that is not negative; the loop does not end for the others. */
  method VarintEncode(value: Int64, buf: array<Byte>) returns (bytes: nat)
    requires value >= 0 && buf.Length >= |Encode(value)|
    modifies buf
    ensures bytes == |Encode(value)| && buf[..bytes] == Encode(value)
    ensures buf[bytes..] == old(buf[bytes..])
  {
    var rest: nat := value;
    bytes := 0;
    while true
      invariant bytes + |Encode(rest)| == |Encode(value)|
      invariant buf[..bytes] + Encode(rest) == Encode(value)
      invariant buf[bytes..] == old(buf[bytes..])
      decreases rest
    {
      var ch := rest % 128;
      var more := rest / 128;
      ghost var before := buf[..];
      assert before[bytes..][1..] == before[bytes + 1..];
      assert Encode(rest) == if more == 0 then [ch] else [ch + 128] + Encode(more);
      buf[bytes] := if more == 0 then ch else ch + 128;
      bytes := bytes + 1;
      assert buf[..bytes] == before[..bytes - 1] + [buf[bytes - 1]];
      assert buf[bytes..] == before[bytes..];
      rest := more;
      if rest == 0 {
        break;
      }
    }
  }

  /** Decoding what the first `bytes` bytes contributed; `|=` of disjoint bits is addition. */
  lemma {:induction false} GroupValueSnoc(s: seq<Byte>, b: Byte)
    ensures GroupValue(s + [b]) == GroupValue(s) + (b % 128) * Pow128(|s|)
  {
    if s == [] {
      assert [b][1..] == [];
    } else {
      assert (s + [b])[1..] == s[1..] + [b];
      GroupValueSnoc(s[1..], b);
      assert 128 * ((b % 128) * Pow128(|s| - 1)) == (b % 128) * Pow128(|s|);
    }
  }

  /**
   What varint_decode answers to a length in (0: none given): the number and the size of the varint;
   or 0 when the bytes run out first; or -1 when ten bytes bring no end.
   */
  ghost predicate Decodes(buf: seq<Byte>, len: nat, ret: int, size: int) {
    var complete := exists i: nat :: EndsAt(buf, i) && i < 10 && (len == 0 || i < len);
    && (complete <==> size > 0)
    && (complete ==> size <= |buf| && EndsAt(buf, size - 1) && ret == WrapInt64(GroupValue(buf[..size])))
    && (!complete ==> size == if 0 < len < 10 then 0 else -1)
    && (size == 0 ==> ret == 0)
    && (size == -1 ==> |buf| >= 10 && ret == WrapInt64(GroupValue(buf[..10])))
  }

  method VarintDecode(buf: seq<Byte>, len: nat) returns (ret: Int64, size: int)
    requires len <= |buf|
    requires len == 0 ==> |buf| >= MAX_BYTES || exists i: nat :: EndsAt(buf, i)
    ensures Decodes(buf, len, ret, size)
  {
    var value: nat, bytes: nat, scale: nat := 0, 0, 1;
    while bytes < MAX_BYTES
      invariant bytes <= MAX_BYTES && bytes <= |buf| && (len > 0 ==> bytes <= len)
      invariant forall k :: 0 <= k < bytes ==> buf[k] >= 128
      invariant value == GroupValue(buf[..bytes]) && scale == Pow128(bytes)
    {
      if len != 0 && bytes == len {
        return 0, 0;
      }
      assert buf[..bytes + 1] == buf[..bytes] + [buf[bytes]];
      GroupValueSnoc(buf[..bytes], buf[bytes]);
      value := value + (buf[bytes] % 128) * scale;
      scale := 128 * scale;
      bytes := bytes + 1;
      if buf[bytes - 1] < 128 {
        assert EndsAt(buf, bytes - 1);
        return WrapInt64(value), bytes;
      }
    }
    return WrapInt64(value), -1;
  }

  lemma {:induction false} EncodingEnds(v: nat, rest: seq<Byte>)
    ensures EndsAt(Encode(v) + rest, |Encode(v)| - 1)
    ensures GroupValue(Encode(v)) == v
  {
    if v >= 128 {
      EncodingEnds(v / 128, rest);
      var tail := Encode(v / 128);
      assert Encode(v)[1..] == tail;
      var s, t := Encode(v) + rest, tail + rest;
      assert forall k :: 1 <= k < |s| ==> s[k] == t[k - 1];
    } else {
      assert [v][1..] == [];
    }
  }

  lemma {:induction false} EncodingSize(v: nat, k: nat)
    requires v < Pow128(k) && k > 0
    ensures |Encode(v)| <= k
  {
    if v >= 128 {
      assert v / 128 < Pow128(k - 1);
      EncodingSize(v / 128, k - 1);
    }
  }

  lemma Pow128Of9()
    ensures Pow128(9) == TWO_63
  {
    assert Pow128(3) == 0x20_0000;
    assert Pow128(6) == 0x400_0000_0000;
  }

  lemma EndIsUnique(s: seq<Byte>, i: nat, j: nat)
    requires EndsAt(s, i) && EndsAt(s, j)
    ensures i == j
  {
  }

  /**
   Round trip: an encoded value takes at most nine bytes, and decoding it in front of any bytes, with or
   without a length, returns the value and the encoded size.
   */
  lemma RoundTrip(v: Int64, rest: seq<Byte>, len: nat, ret: int, size: int)
    requires v >= 0 && (len == 0 || |Encode(v)| <= len)
    requires Decodes(Encode(v) + rest, len, ret, size)
    ensures ret == v && size == |Encode(v)| <= 9
  {
    Pow128Of9();
    EncodingSize(v, 9);
    EncodingEnds(v, rest);
    var buf := Encode(v) + rest;
    assert EndsAt(buf, |Encode(v)| - 1);
    EndIsUnique(buf, |Encode(v)| - 1, size - 1);
    assert buf[..size] == Encode(v);
  }

  /** The low seven bits come first. */
  lemma LowGroupFirst(low: nat, high: nat)
    requires low < 128 && 0 < high < 128
    ensures Encode(low + 128 * high) == [low + 128, high] && Encode(low) == [low]
  {
  }

  /** Every proper non-empty prefix, passed with its length, is reported as too short. */
  lemma PrefixIsTooShort(v: Int64, cut: nat, ret: int, size: int)
    requires v >= 0 && 0 < cut < |Encode(v)|
    requires Decodes(Encode(v)[..cut], cut, ret, size)
    ensures size == 0 && ret == 0
  {
    Pow128Of9();
    EncodingSize(v, 9);
    EncodingEnds(v, []);
    assert Encode(v) + [] == Encode(v);
  }
}
