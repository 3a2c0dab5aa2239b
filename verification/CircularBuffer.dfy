/** circular_buffer/circular_buffer.h: a ring of bytes that grows when a text does not fit. */
module CircularBuffers {
  import opened Bytes

  const INIT_SIZE: nat := 1024

  // ----- the ring as a value -----

  ghost function Ring(b: seq<Byte>, r: nat, w: nat): seq<Byte>
    requires r < |b| && w < |b|
  {
    if r <= w then b[r..w] else b[r..] + b[..w]
  }

  /** How far round the ring the write index is ahead. */
  function Distance(r: nat, w: nat, size: nat): (d: int)
    requires r < size && w < size
  {
    if r <= w then w - r else w - r + size
  }

  /** That is the difference of the indices modulo the size. */
  lemma DistanceIsModulo(r: nat, w: nat, size: nat)
    requires r < size && w < size
    ensures Distance(r, w, size) == (w - r) % size
  {
    RemainderIs(w - r, size, if r <= w then 0 else -1, Distance(r, w, size));
  }

  lemma RemainderIs(d: int, size: nat, q: int, m: nat)
    requires m < size && d == q * size + m
    ensures d % size == m
  {
    var k, r := d / size, d % size;
    assert d == k * size + r;
    RemaindersAgree(k, r, q, m, size);
  }

  lemma RemaindersAgree(a: int, r: nat, b: int, m: nat, size: nat)
    requires a * size + r == b * size + m && r < size && m < size
    ensures r == m
  {
    Gap(a, b, size);
    Gap(b, a, size);
  }

  lemma Gap(a: int, b: int, size: nat)
    ensures a < b ==> a * size + size <= b * size
  {
    if a < b {
      Multiples(a + 1, b, size);
      assert (a + 1) * size == a * size + size;
    }
  }

  lemma Multiples(a: int, b: int, size: nat)
    requires a <= b
    ensures a * size <= b * size
  {
  }

  lemma RingLength(b: seq<Byte>, r: nat, w: nat)
    requires r < |b| && w < |b|
    ensures |Ring(b, r, w)| == Distance(r, w, |b|) < |b|
  {
  }

  lemma MoveOver(out: seq<Byte>, ele: Byte, rest: seq<Byte>)
    ensures out + ([ele] + rest) == out + [ele] + rest
  {
  }

  lemma RingPush(b: seq<Byte>, r: nat, w: nat, next: nat, ele: Byte)
    requires r < |b| && w < |b| && next != r
    requires next == if w + 1 < |b| then w + 1 else 0
    ensures Ring(b[w := ele], r, next) == Ring(b, r, w) + [ele]
  {
  }

  lemma RingPop(b: seq<Byte>, r: nat, next: nat, w: nat)
    requires r < |b| && w < |b| && r != w
    requires next == if r + 1 < |b| then r + 1 else 0
    ensures Ring(b, r, w) == [b[r]] + Ring(b, next, w)
  {
  }

  // ----- the queue it refines -----

  datatype Queue = Queue(bytes: seq<Byte>, capacity: int)

  datatype Call = CallPush(b: Byte) | CallPop | CallPushStr(str: seq<Byte>) | CallRetrieve(len: nat) | CallReadInt32

  /** The bytes of the answer: a push answers its count, pop and read_int32 the bytes read. */
  function OnQueue(q: Queue, call: Call): (Queue, seq<Byte>)
    requires CanCall(q, call)
  {
    match call
    case CallPush(b) =>
      if |q.bytes| < q.capacity then (q.(bytes := q.bytes + [b]), [1]) else (q, [0])
    case CallPop =>
      if q.bytes == [] then (q, []) else (q.(bytes := q.bytes[1..]), [q.bytes[0]])
    case CallPushStr(str) =>
      var bytes := q.bytes + str;
      (Queue(bytes, if q.capacity < |bytes| then |bytes| else q.capacity), [])
    case CallRetrieve(len) => (q.(bytes := q.bytes[len..]), [])
    case CallReadInt32 => (q.(bytes := q.bytes[4..]), q.bytes[..4])
  }

  /** retrieve and read_int32 assert that the bytes are there; nothing else is demanded. */
  predicate CanCall(q: Queue, call: Call) {
    match call
    case CallRetrieve(len) => len <= |q.bytes|
    case CallReadInt32 => 4 <= |q.bytes|
    case _ => true
  }

  predicate Admissible(q: Queue, calls: seq<Call>)
    decreases |calls|
  {
    calls == [] || (CanCall(q, calls[0]) && Admissible(OnQueue(q, calls[0]).0, calls[1..]))
  }

  function RunQueue(q: Queue, calls: seq<Call>): (Queue, seq<seq<Byte>>)
    requires Admissible(q, calls)
    decreases |calls|
  {
    if calls == [] then (q, [])
    else
      var (q1, answer) := OnQueue(q, calls[0]);
      var (q2, answers) := RunQueue(q1, calls[1..]);
      (q2, [answer] + answers)
  }

  // ----- the object -----

  class CircularBuffer {
    var buffer: array<Byte>
    var readableBytes: nat
    var readIdx: nat
    var writeIdx: nat

    /** Both indices lie in the ring and the counter is their distance around it. */
    ghost predicate Valid()
      reads this
    {
      && readIdx < buffer.Length && writeIdx < buffer.Length
      && readableBytes == Distance(readIdx, writeIdx, buffer.Length)
    }

    /** The bytes from the read index round to the write index. */
    ghost function Contents(): (s: seq<Byte>)
      reads this, buffer
      requires readIdx < buffer.Length && writeIdx < buffer.Length
    {
      Ring(buffer[..], readIdx, writeIdx)
    }

    /** One slot always stays free. */
    ghost function Capacity(): int
      reads this
    {
      buffer.Length - 1
    }

    constructor ()
      ensures Valid() && fresh(buffer) && Contents() == [] && Capacity() == INIT_SIZE - 1
    {
      buffer := new Byte[INIT_SIZE];
      readableBytes, readIdx, writeIdx := 0, 0, 0;
    }

    function ReadableBytes(): (n: nat)
      requires Valid()
      reads this, buffer
      ensures n == |Contents()| <= Capacity()
    {
      RingLength(buffer[..], readIdx, writeIdx);
      readableBytes
    }

    function WriteableBytes(): (n: nat)
      requires Valid()
      reads this, buffer
      ensures n == Capacity() - |Contents()|
    {
      buffer.Length - ReadableBytes() - 1
    }

    /** Refused with 0 exactly when only the free slot is left. */
    method Push(ele: Byte) returns (n: nat)
      requires Valid()
      modifies this, buffer
      ensures Valid() && buffer == old(buffer)
      ensures n == if old(|Contents()|) < Capacity() then 1 else 0
      ensures Contents() == if n == 1 then old(Contents()) + [ele] else old(Contents())
    {
      RingLength(buffer[..], readIdx, writeIdx);
      var next := writeIdx + 1;
      if next >= buffer.Length {
        next := 0;
      }
      if next == readIdx {
        return 0;
      }
      RingPush(buffer[..], readIdx, writeIdx, next, ele);
      buffer[writeIdx] := ele;
      writeIdx := next;
      readableBytes := readableBytes + 1;
      RingLength(buffer[..], readIdx, writeIdx);
      return 1;
    }

    /** 0 exactly when there is nothing to pop. */
    method Pop() returns (n: nat, ele: Byte)
      requires Valid()
      modifies this
      ensures Valid() && buffer == old(buffer)
      ensures n == if old(Contents()) != [] then 1 else 0
      ensures if n == 1 then old(Contents()) == [ele] + Contents() else Contents() == old(Contents())
    {
      RingLength(buffer[..], readIdx, writeIdx);
      if readIdx == writeIdx {
        return 0, 0;
      }
      var next := readIdx + 1;
      if next >= buffer.Length {
        next := 0;
      }
      RingPop(buffer[..], readIdx, next, writeIdx);
      ele := buffer[readIdx];
      readIdx := next;
      readableBytes := readableBytes - 1;
      RingLength(buffer[..], readIdx, writeIdx);
      return 1, ele;
    }

    /** Never refused: the ring grows to exactly the missing room, keeping bytes and order. */
    method PushStr(str: seq<Byte>) returns (n: nat)
      requires Valid()
      modifies this, buffer
      ensures Valid() && (buffer == old(buffer) || fresh(buffer))
      ensures n == |str| && Contents() == old(Contents()) + str
      ensures Capacity() == if old(Capacity()) < |Contents()| then |Contents()| else old(Capacity())
    {
      if WriteableBytes() < |str| {
        Grow(|str| - WriteableBytes() + buffer.Length);
      }
      assert WriteableBytes() >= |str|;
      PushAll(str);
      return |str|;
    }

    method PushAll(str: seq<Byte>)
      requires Valid() && |Contents()| + |str| <= Capacity()
      modifies this, buffer
      ensures Valid() && buffer == old(buffer)
      ensures Contents() == old(Contents()) + str
    {
      hide Ring, Distance;
      ghost var before := Contents();
      assert before + str[..0] == before;
      for i := 0 to |str|
        invariant Valid() && buffer == old(buffer)
        invariant Contents() == before + str[..i]
      {
        var rtn := Push(str[i]);
        assert rtn != 0;
        assert before + str[..i + 1] == before + str[..i] + [str[i]];
      }
      assert str[..|str|] == str;
    }

    /** A wrapped ring is unrolled into the new vector; an unwrapped one just gets longer. */
    method Grow(size: nat)
      requires Valid() && buffer.Length < size
      modifies this
      ensures Valid() && fresh(buffer) && buffer.Length == size
      ensures Contents() == old(Contents())
    {
      if writeIdx < readIdx {
        Unroll(size);
      } else {
        Lengthen(size);
      }
    }

    method Unroll(size: nat)
      requires Valid() && buffer.Length < size && writeIdx < readIdx
      modifies this
      ensures Valid() && fresh(buffer) && buffer.Length == size
      ensures Contents() == old(Contents())
    {
      var bigger := new Byte[size](_ => 0);
      var front := buffer.Length - readIdx;
      forall i | 0 <= i < front {
        bigger[i] := buffer[readIdx + i];
      }
      forall i | 0 <= i < writeIdx {
        bigger[front + i] := buffer[i];
      }
      assert bigger[..front + writeIdx] == buffer[readIdx..] + buffer[..writeIdx];
      writeIdx := front + writeIdx;
      readIdx := 0;
      assert bigger[..][0..writeIdx] == bigger[..writeIdx];
      buffer := bigger;
    }

    method Lengthen(size: nat)
      requires Valid() && buffer.Length < size && readIdx <= writeIdx
      modifies this
      ensures Valid() && fresh(buffer) && buffer.Length == size
      ensures Contents() == old(Contents())
    {
      var bigger := new Byte[size](_ => 0);
      forall i | 0 <= i < buffer.Length {
        bigger[i] := buffer[i];
      }
      assert bigger[readIdx..writeIdx] == buffer[readIdx..writeIdx];
      buffer := bigger;
    }

    method Retrieve(len: nat)
      requires Valid() && len <= |Contents()|
      modifies this
      ensures Valid() && buffer == old(buffer)
      ensures Contents() == old(Contents())[len..]
    {
      var i := 0;
      while i < len
        invariant 0 <= i <= len
        invariant Valid() && buffer == old(buffer)
        invariant Contents() == old(Contents())[i..]
      {
        var rtn, _ := Pop();
        assert rtn != 0;
        assert old(Contents())[i..][1..] == old(Contents())[i + 1..];
        i := i + 1;
      }
    }

    method ReadInt32() returns (n: Int32)
      requires Valid() && |Contents()| >= 4
      modifies this
      ensures Valid() && buffer == old(buffer)
      ensures n == Decode(old(Contents())[..4]) && Contents() == old(Contents())[4..]
    {
      var out := PopBytes(4);
      assert out == old(Contents())[..4];
      n := Decode(out);
    }

    method PopBytes(len: nat) returns (out: seq<Byte>)
      requires Valid() && len <= |Contents()|
      modifies this
      ensures Valid() && buffer == old(buffer)
      ensures |out| == len && old(Contents()) == out + Contents()
    {
      out := [];
      for i := 0 to len
        invariant Valid() && buffer == old(buffer)
        invariant |out| == i && old(Contents()) == out + Contents()
      {
        var rtn, ele := Pop();
        assert rtn != 0;
        MoveOver(out, ele, Contents());
        out := out + [ele];
      }
    }

    /** Any run of calls is a run of the queue below: same answers, same bytes left. */
    method RunAll(calls: seq<Call>) returns (answers: seq<seq<Byte>>)
      requires Valid() && Admissible(Queue(Contents(), Capacity()), calls)
      modifies this, buffer
      ensures Valid() && (buffer == old(buffer) || fresh(buffer))
      ensures (Queue(Contents(), Capacity()), answers) == RunQueue(old(Queue(Contents(), Capacity())), calls)
      decreases |calls|
    {
      if calls == [] {
        return [];
      }
      var first := Invoke(calls[0]);
      var rest := RunAll(calls[1..]);
      return [first] + rest;
    }

    method Invoke(call: Call) returns (answer: seq<Byte>)
      requires Valid() && CanCall(Queue(Contents(), Capacity()), call)
      modifies this, buffer
      ensures Valid() && (buffer == old(buffer) || fresh(buffer))
      ensures (Queue(Contents(), Capacity()), answer) == OnQueue(old(Queue(Contents(), Capacity())), call)
    {
      hide Ring, Encode, Decode;
      match call {
        case CallPush(b) =>
          var n := Push(b);
          answer := [n];
        case CallPop =>
          var n, ele := Pop();
          answer := if n == 0 then [] else [ele];
        case CallPushStr(str) =>
          var _ := PushStr(str);
          answer := [];
        case CallRetrieve(len) =>
          Retrieve(len);
          answer := [];
        case CallReadInt32 =>
          EncodeDecode(Contents()[..4]);
          var n := ReadInt32();
          answer := Encode(n);
      }
    }
  }

  // ----- every run -----

  /** Bytes a call puts in and takes out. */
  function PutIn(q: Queue, call: Call): seq<Byte> {
    match call
    case CallPush(b) => if |q.bytes| < q.capacity then [b] else []
    case CallPushStr(str) => str
    case _ => []
  }

  function TakenOut(q: Queue, call: Call): seq<Byte>
    requires CanCall(q, call)
  {
    match call
    case CallPop => if q.bytes == [] then [] else [q.bytes[0]]
    case CallRetrieve(len) => q.bytes[..len]
    case CallReadInt32 => q.bytes[..4]
    case _ => []
  }

  function AllIn(q: Queue, calls: seq<Call>): seq<Byte>
    requires Admissible(q, calls)
    decreases |calls|
  {
    if calls == [] then [] else PutIn(q, calls[0]) + AllIn(OnQueue(q, calls[0]).0, calls[1..])
  }

  function AllOut(q: Queue, calls: seq<Call>): seq<Byte>
    requires Admissible(q, calls)
    decreases |calls|
  {
    if calls == [] then [] else TakenOut(q, calls[0]) + AllOut(OnQueue(q, calls[0]).0, calls[1..])
  }

  /** First in, first out over every run: what was held and put in is what was taken out
      followed by what is left, byte for byte; and one slot is never filled. */
  lemma {:induction false} Fifo(q: Queue, calls: seq<Call>)
    requires Admissible(q, calls) && |q.bytes| <= q.capacity
    ensures var left := RunQueue(q, calls).0;
            q.bytes + AllIn(q, calls) == AllOut(q, calls) + left.bytes && |left.bytes| <= left.capacity
    decreases |calls|
  {
    if calls == [] {
      assert q.bytes + [] == [] + q.bytes;
    } else {
      var q1 := OnQueue(q, calls[0]).0;
      OneCall(q, calls[0]);
      Fifo(q1, calls[1..]);
      var more, out, left := AllIn(q1, calls[1..]), AllOut(q1, calls[1..]), RunQueue(q1, calls[1..]).0.bytes;
      Regroup(q.bytes, PutIn(q, calls[0]), more, TakenOut(q, calls[0]), q1.bytes, out, left);
    }
  }

  /** Every call is answered, in its place, by the queue that the calls before it have left. */
  lemma {:induction false} AnswerAt(q: Queue, calls: seq<Call>, i: nat)
    requires Admissible(q, calls) && i < |calls|
    ensures |RunQueue(q, calls).1| == |calls|
    ensures Admissible(q, calls[..i]) && CanCall(RunQueue(q, calls[..i]).0, calls[i])
    ensures RunQueue(q, calls).1[i] == OnQueue(RunQueue(q, calls[..i]).0, calls[i]).1
    decreases |calls|
  {
    hide OnQueue, CanCall;
    var q1, later := OnQueue(q, calls[0]).0, calls[1..];
    if later == [] {
      assert RunQueue(q1, later).1 == [];
    } else if i == 0 {
      AnswerAt(q1, later, 0);
    } else {
      AnswerAt(q1, later, i - 1);
      assert calls[..i][1..] == later[..i - 1] && calls[..i][0] == calls[0];
    }
  }

  /** What goes in and out in one call; what is read is what goes out, a push counts what
      goes in, and the ring grows only for a text that does not fit, to be full with it. */
  lemma OneCall(q: Queue, call: Call)
    requires CanCall(q, call) && |q.bytes| <= q.capacity
    ensures var (q1, answer) := OnQueue(q, call);
            && q.bytes + PutIn(q, call) == TakenOut(q, call) + q1.bytes && |q1.bytes| <= q1.capacity
            && (call.CallPop? || call.CallReadInt32? ==> answer == TakenOut(q, call))
            && (call.CallPush? ==> answer == [|PutIn(q, call)|])
            && (q1.capacity != q.capacity <==> q.capacity < |q1.bytes|)
            && (q1.capacity != q.capacity ==> call.CallPushStr? && q1.capacity == |q1.bytes|)
  {
  }

  lemma Regroup(held: seq<Byte>, put: seq<Byte>, more: seq<Byte>,
                taken: seq<Byte>, held1: seq<Byte>, out: seq<Byte>, left: seq<Byte>)
    requires held + put == taken + held1 && held1 + more == out + left
    ensures held + (put + more) == (taken + out) + left
  {
    assert held + (put + more) == (held + put) + more == (taken + held1) + more == taken + (held1 + more);
  }
}
