/** tbuf/tbuf.h: a growing byte buffer with a read and a write index. */
module Tbufs {
  import opened Bytes

  const INIT_SIZE: nat := 1024

  const EXTRA_SIZE: nat := 65536

  /** Write index and size at that assert. */
  function RoomMade(ridx: nat, widx: nat, size: nat, len: nat): (nat, nat)
    requires ridx <= widx <= size
  {
    if len <= size - widx then (widx, size)
    else if len <= size - widx + ridx then (widx - ridx, size)
    else (widx, widx + len)
  }

  class Tbuf {
    var buf: array<Byte>
    var ridx: nat
    var widx: nat

    ghost predicate Valid()
      reads this
    {
      ridx <= widx <= buf.Length
    }

    /** The bytes appended and not yet retrieved, oldest first. */
    ghost function Contents(): seq<Byte>
      reads this, buf
      requires Valid()
    {
      buf[ridx..widx]
    }

    constructor ()
      ensures Valid() && fresh(buf) && Contents() == []
      ensures buf.Length == INIT_SIZE && widx == 0
    {
      buf := new Byte[INIT_SIZE];
      ridx, widx := 0, 0;
    }

    function ReadableBytes(): (n: nat)
      requires Valid()
      reads this, buf
      ensures n == |Contents()|
    {
      widx - ridx
    }

    function WriteableBytes(): nat
      requires Valid()
      reads this
    {
      buf.Length - widx
    }

    /** The assert before the copy wants a byte of room even for an empty text. */
    method Append(str: seq<Byte>)
      requires Valid() && (str != [] || widx < buf.Length)
      modifies this, buf
      ensures Valid() && (buf == old(buf) || fresh(buf))
      ensures (widx - |str|, buf.Length) == RoomMade(old(ridx), old(widx), old(buf.Length), |str|)
      ensures Contents() == old(Contents()) + str
    {
      if |str| > WriteableBytes() {
        if |str| <= WriteableBytes() + ridx {
          MoveToFront();
        } else {
          Resize(widx + |str|);
        }
        assert WriteableBytes() >= |str|;
      }
      assert widx < buf.Length;
      CopyBehind(str);
    }

    /** Fills the room behind the write index and moves that index on. */
    method CopyBehind(str: seq<Byte>)
      requires Valid() && |str| <= buf.Length - widx
      modifies this, buf
      ensures Valid() && buf == old(buf) && widx == old(widx) + |str|
      ensures Contents() == old(Contents()) + str
    {
      ghost var before := Contents();
      forall i | 0 <= i < |str| {
        buf[widx + i] := str[i];
      }
      assert buf[ridx..widx] == before;
      assert buf[widx..widx + |str|] == str;
      assert buf[ridx..widx + |str|] == buf[ridx..widx] + buf[widx..widx + |str|];
      widx := widx + |str|;
    }

    /** std::copy onto the front of the same array: front to back is sound because the
        destination starts before the source, which it must not start inside of. */
    method MoveToFront()
      requires Valid() && 0 < ridx
      modifies this, buf
      ensures Valid() && buf == old(buf) && ridx == 0
      ensures Contents() == old(Contents())
    {
      var size := widx - ridx;
      var i := 0;
      while i < size
        invariant 0 <= i <= size
        invariant ridx == old(ridx) && widx == old(widx) && buf == old(buf)
        invariant buf[..i] == old(buf[ridx..widx])[..i]
        invariant buf[ridx + i..widx] == old(buf[ridx..widx])[i..]
      {
        assert buf[ridx + i] == buf[ridx + i..widx][0];
        ghost var tail := buf[ridx + i + 1..widx];
        assert tail == buf[ridx + i..widx][1..];
        buf[i] := buf[ridx + i];
        assert buf[ridx + i + 1..widx] == tail;
        i := i + 1;
      }
      ridx := 0;
      widx := size;
    }

    /** vector::resize to a larger size: the old bytes stay, zeros follow. */
    method Resize(size: nat)
      requires Valid() && buf.Length < size
      modifies this
      ensures Valid() && fresh(buf) && buf.Length == size
      ensures ridx == old(ridx) && widx == old(widx)
      ensures buf[..old(buf.Length)] == old(buf[..])
      ensures Contents() == old(Contents())
    {
      var bigger := new Byte[size](_ => 0);
      forall i | 0 <= i < buf.Length {
        bigger[i] := buf[i];
      }
      assert bigger[..buf.Length] == buf[..];
      assert bigger[ridx..widx] == bigger[..buf.Length][ridx..widx] == buf[..][ridx..widx];
      buf := bigger;
    }

    method Retrieve(len: nat)
      requires Valid() && len <= |Contents()|
      modifies this
      ensures Valid() && buf == old(buf)
      ensures Contents() == old(Contents())[len..]
      ensures (ridx, widx) == if Contents() == [] then (0, 0) else (old(ridx) + len, old(widx))
    {
      if len < ReadableBytes() {
        ridx := ridx + len;
      } else {
        ridx := 0;
        widx := 0;
      }
    }

    function PeekInt32(): (n: Int32)
      requires Valid() && |Contents()| >= 4
      reads this, buf
      ensures n == Decode(Contents()[..4])
    {
      assert buf[ridx..ridx + 4] == Contents()[..4];
      Decode(buf[ridx..ridx + 4])
    }

    method ReadInt32() returns (n: Int32)
      requires Valid() && |Contents()| >= 4
      modifies this
      ensures Valid() && buf == old(buf)
      ensures n == old(Decode(Contents()[..4])) && Contents() == old(Contents())[4..]
    {
      n := PeekInt32();
      Retrieve(4);
    }

    /** The most that readv can return: a second vector is offered when there is little room. */
    function ReadLimit(): nat
      requires Valid()
      reads this
    {
      WriteableBytes() + if WriteableBytes() < EXTRA_SIZE then EXTRA_SIZE else 0
    }

    /** readv puts the incoming bytes behind the write index first and the rest into the
        extra buffer, which is then appended; no byte is lost or reordered. */
    method ReadFd(incoming: seq<Byte>)
      requires Valid() && |incoming| <= ReadLimit()
      modifies this, buf
      ensures Valid() && (buf == old(buf) || fresh(buf))
      ensures Contents() == old(Contents()) + incoming
      ensures var rest := |incoming| - old(WriteableBytes());
              if rest <= 0 then widx == old(widx) + |incoming| && buf == old(buf)
              else (widx - rest, buf.Length) == RoomMade(old(ridx), old(buf.Length), old(buf.Length), rest)
    {
      hide RoomMade;
      var writeable := WriteableBytes();
      if |incoming| <= writeable {
        CopyBehind(incoming);
      } else {
        BothParts(Contents(), incoming, writeable);
        CopyBehind(incoming[..writeable]);
        Append(incoming[writeable..]);
      }
    }
  }

  lemma BothParts(before: seq<Byte>, s: seq<Byte>, n: nat)
    requires n <= |s|
    ensures before + s[..n] + s[n..] == before + s
  {
  }

  /** There is always room made, by as little as possible: bytes are moved to the front only if
      the tail is too small, and the buffer grows, by what the tail lacks, only if moving would
      not do. The assert at the write position fails exactly when nothing is appended to a
      buffer that is full to its end. */
  lemma AppendAssertExact(ridx: nat, widx: nat, size: nat, len: nat)
    requires ridx <= widx <= size
    ensures var (w, s) := RoomMade(ridx, widx, size, len);
            && s - w >= len && (w < s <==> !(len == 0 && widx == size))
            && (s != size <==> size - (widx - ridx) < len) && (s != size ==> s - size == len - (size - widx))
            && (w != widx ==> size - widx < len && w == widx - ridx && s == size)
  {
  }
}
