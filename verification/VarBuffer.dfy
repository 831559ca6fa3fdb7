/**
 HBuf and HVLBuf over owned memory: a byte buffer that grows, whose contents sit somewhere inside the
 allocation. It refines a plain byte sequence that is extended and cut at both ends.
 */
module VarBuffer {
  import opened Bytes

  class HVLBuf {
    var base: array<Byte>
    var offset: nat
    var size: nat

    /** The contents lie inside the allocation. */
    ghost predicate Valid()
      reads this
    {
      offset + size <= base.Length
    }

    ghost function Contents(): (s: seq<Byte>)
      reads this, base
      requires Valid()
      ensures |s| == size
    {
      base[offset..offset + size]
    }

    constructor (cap: nat)
      ensures Valid() && fresh(base) && base.Length == cap && Contents() == []
    {
      base := new Byte[cap](_ => 0);
      offset, size := 0, 0;
    }

    /** HBuf::resize: reallocation keeps the old bytes in place and clears the rest. */
    method Resize(cap: nat)
      modifies this`base
      ensures base.Length == cap && (base == old(base) || fresh(base))
      ensures base[..Min(cap, old(base.Length))] == old(base[..Min(cap, base.Length)])
    {
      if cap == base.Length {
        return;
      }
      var bytes := base;
      var keep := Min(cap, bytes.Length);
      base := new Byte[cap](i requires i >= 0 reads bytes => if i < keep && i < bytes.Length then bytes[i] else 0);
      assert forall i :: 0 <= i < keep ==> base[i] == bytes[i];
    }

    /** memmove inside the buffer: the old bytes arrive even when the ranges overlap. */
    method MemMove(dst: nat, src: nat, len: nat)
      requires dst + len <= base.Length && src + len <= base.Length
      modifies base
      ensures base[dst..dst + len] == old(base[src..src + len])
      ensures base[..dst] == old(base[..dst]) && base[dst + len..] == old(base[dst + len..])
    {
      forall i | 0 <= i < len {
        base[dst + i] := base[src + i];
      }
    }

    method MemCpy(dst: nat, bytes: seq<Byte>)
      requires dst + |bytes| <= base.Length
      modifies base
      ensures base[dst..dst + |bytes|] == bytes
      ensures base[..dst] == old(base[..dst]) && base[dst + |bytes|..] == old(base[dst + |bytes|..])
    {
      forall i | 0 <= i < |bytes| {
        base[dst + i] := bytes[i];
      }
    }

    /** The growth step of both pushes. */
    method Grow(len: nat)
      requires Valid() && len > base.Length - size
      modifies this`base
      ensures Valid() && fresh(base) && base.Length == 2 * Max(old(base.Length), len)
      ensures Contents() == old(Contents())
    {
      ghost var before := base[..];
      Resize(2 * Max(base.Length, len));
      SliceOfPrefix(base[..], before, |before|, offset, offset + size);
    }

    /** Relocates the contents inside the buffer. */
    method MoveTo(dst: nat)
      requires Valid() && dst + size <= base.Length
      modifies this`offset, base
      ensures Valid() && offset == dst && Contents() == old(Contents())
    {
      MemMove(dst, offset, size);
      offset := dst;
    }

    method PutBefore(bytes: seq<Byte>)
      requires Valid() && |bytes| <= offset
      modifies this`offset, this`size, base
      ensures Valid() && Contents() == bytes + old(Contents()) && offset == old(offset) - |bytes|
    {
      ghost var before, end := base[..], offset + size;
      MemCpy(offset - |bytes|, bytes);
      SliceOfSuffix(base[..], before, offset, end);
      SplitSlice(base[..], offset - |bytes|, offset, end);
      offset := offset - |bytes|;
      size := size + |bytes|;
    }

    method PutAfter(bytes: seq<Byte>)
      requires Valid() && offset + size + |bytes| <= base.Length
      modifies this`size, base
      ensures Valid() && Contents() == old(Contents()) + bytes
    {
      ghost var before, end := base[..], offset + size;
      MemCpy(offset + size, bytes);
      SliceOfPrefix(base[..], before, end, offset, end);
      SplitSlice(base[..], offset, end, end + |bytes|);
      size := size + |bytes|;
    }

    method PushFront(bytes: seq<Byte>)
      requires Valid()
      modifies this, base
      ensures Valid() && (base == old(base) || fresh(base))
      ensures Contents() == bytes + old(Contents())
      ensures base.Length == if |bytes| > old(base.Length) - old(size) then 2 * Max(old(base.Length), |bytes|)
                             else old(base.Length)
      // In place when there is room before the contents; otherwise they are moved to the end first.
      ensures offset == (if old(offset) < |bytes| then base.Length - old(size) else old(offset)) - |bytes|
    {
      if |bytes| > base.Length - size {
        Grow(|bytes|);
      }
      if offset < |bytes| {
        // move => end
        MoveTo(base.Length - size);
      }
      PutBefore(bytes);
    }

    method PushBack(bytes: seq<Byte>)
      requires Valid()
      modifies this, base
      ensures Valid() && (base == old(base) || fresh(base))
      ensures Contents() == old(Contents()) + bytes
      ensures base.Length == if |bytes| > old(base.Length) - old(size) then 2 * Max(old(base.Length), |bytes|)
                             else old(base.Length)
      // The contents are moved to the front when there is room in all, but not behind them.
      ensures offset == if |bytes| <= old(base.Length) - old(size) && |bytes| > old(base.Length - offset - size) then 0
                        else old(offset)
    {
      if |bytes| > base.Length - size {
        Grow(|bytes|);
      } else if |bytes| > base.Length - offset - size {
        // move => start
        MoveTo(0);
      }
      PutAfter(bytes);
    }

    /** Takes `len` bytes from the front, or does nothing when there are fewer. */
    method PopFront(len: nat) returns (out: Option<seq<Byte>>)
      requires Valid()
      modifies this
      ensures Valid() && base == old(base)
      ensures out.Some? <==> len <= old(size)
      ensures out.Some? ==> |out.value| == len && old(Contents()) == out.value + Contents()
      ensures out.None? ==> Contents() == old(Contents())
      ensures offset == if out.None? then old(offset)
                        else if old(offset) + len >= base.Length then 0 else old(offset) + len
    {
      out := None;
      if len <= size {
        ghost var contents := Contents();
        out := Some(base[offset..offset + len]);
        offset := offset + len;
        if offset >= base.Length {
          offset := 0;
        }
        size := size - len;
        assert contents == contents[..len] + contents[len..];
      }
    }

    /** Takes `len` bytes from the back, or does nothing when there are fewer. */
    method PopBack(len: nat) returns (out: Option<seq<Byte>>)
      requires Valid()
      modifies this`size
      ensures Valid() && base == old(base)
      ensures out.Some? <==> len <= old(size)
      ensures out.Some? ==> |out.value| == len && old(Contents()) == Contents() + out.value
      ensures out.None? ==> Contents() == old(Contents())
    {
      out := None;
      if len <= size {
        ghost var contents := Contents();
        out := Some(base[offset + size - len..offset + size]);
        size := size - len;
        assert contents == contents[..size] + contents[size..];
      }
    }

    method Clear()
      modifies this`offset, this`size
      ensures Valid() && Contents() == []
    {
      offset, size := 0, 0;
    }
  }

  function Max(a: nat, b: nat): (m: nat)
    ensures m >= a && m >= b && (m == a || m == b)
  {
    if a >= b then a else b
  }

  lemma SliceOfPrefix(s: seq<Byte>, t: seq<Byte>, n: nat, lo: nat, hi: nat)
    requires lo <= hi <= n <= |s| && n <= |t| && s[..n] == t[..n]
    ensures s[lo..hi] == t[lo..hi]
  {
    assert s[lo..hi] == s[..n][lo..hi];
    assert t[lo..hi] == t[..n][lo..hi];
  }

  lemma SplitSlice(s: seq<Byte>, lo: nat, mid: nat, hi: nat)
    requires lo <= mid <= hi <= |s|
    ensures s[lo..hi] == s[lo..mid] + s[mid..hi]
  {
  }

  lemma SliceOfSuffix(s: seq<Byte>, t: seq<Byte>, lo: nat, hi: nat)
    requires |s| == |t| && lo <= hi <= |s| && s[lo..] == t[lo..]
    ensures s[lo..hi] == t[lo..hi]
  {
    assert s[lo..hi] == s[lo..][..hi - lo];
    assert t[lo..hi] == t[lo..][..hi - lo];
  }
}
