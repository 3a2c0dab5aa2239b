/** ttcp/ttcp_libev.cpp: the event-driven TTCP server's frame reader on top of Tbuf. */
module TtcpLibev {
  import opened Bytes
  import opened Pieces
  import opened Tbufs

  const MAX_BUFFER_LENGTH: int := 1024 * 1024 * 10

  datatype RecvState = ExceptFrameSize | ExceptFrame

  /** Closed once the last frame is acknowledged; Exited where the code calls exit(1). */
  datatype Status = Running | Closed | Exited

  /** One client connection: the frame state, the bytes read and not yet consumed, and the
      bytes handed to write so far. */
  datatype Session = Session(
    status: Status, state: RecvState, number: Int32, length: Int32, readNumber: nat,
    input: seq<Byte>, acks: seq<Byte>) {

    predicate Valid() {
      state == ExceptFrame && status != Exited ==> 0 < length <= MAX_BUFFER_LENGTH
    }

    function Append(piece: seq<Byte>): Session {
      this.(input := input + piece)
    }
  }

  const NEW_SESSION := Session(Running, ExceptFrameSize, 0, 0, 0, [], [])

  /** One round of the loop; the flag says whether it goes on. */
  function Step(s: Session): (r: (Session, bool))
    requires s.Valid()
    ensures r.0.Valid() && (r.1 ==> s.status == r.0.status == Running && |r.0.input| < |s.input|)
  {
    if s.status != Running then (s, false)
    else if s.state == ExceptFrameSize then
      if |s.input| < 8 then (s, false)
      else
        var number, length := Decode(s.input[..4]), Decode(s.input[4..8]);
        var t := s.(number := number, length := length, input := s.input[8..]);
        if number <= 0 || length <= 0 || length > MAX_BUFFER_LENGTH then (t.(status := Exited), false)
        else (t.(state := ExceptFrame), true)
    else if |s.input| < 4 + s.length then (s, false)
    else
      var payloadLen := Decode(s.input[..4]);
      if payloadLen != s.length then (s.(status := Exited, input := s.input[4..]), false)
      else
        var t := s.(input := s.input[4 + s.length..], acks := s.acks + Encode(payloadLen),
                    readNumber := s.readNumber + 1);
        if t.readNumber >= s.number then (t.(status := Closed), false) else (t, true)
  }

  /** What client_read_cb makes of the bytes at hand. A closed or exited session reads no more. */
  function Run(s: Session): (r: Session)
    requires s.Valid()
    ensures r.Valid()
    decreases |s.input|
  {
    var (t, more) := Step(s);
    if more then Run(t) else t
  }

  lemma DropTwice(u: seq<Byte>, a: nat, b: nat)
    requires a + b <= |u|
    ensures u[a..][b..] == u[a + b..]
  {
  }

  // ----- the connection object -----

  class EvClient {
    var status: Status
    var state: RecvState
    var number: Int32
    var length: Int32
    var readNumber: nat
    var inputBuffer: Tbuf
    var acks: seq<Byte>

    ghost predicate Valid()
      reads this, inputBuffer, inputBuffer.buf
    {
      inputBuffer.Valid() && View().Valid()
    }

    ghost function View(): Session
      reads this, inputBuffer, inputBuffer.buf
      requires inputBuffer.Valid()
    {
      Session(status, state, number, length, readNumber, inputBuffer.Contents(), acks)
    }

    constructor ()
      ensures Valid() && View() == NEW_SESSION
      ensures fresh(inputBuffer) && fresh(inputBuffer.buf)
    {
      status, state, number, length, readNumber, acks := Running, ExceptFrameSize, 0, 0, 0, [];
      inputBuffer := new Tbuf();
    }

    /** One readable event; the loop is left after the final close. */
    method ClientReadCb(piece: seq<Byte>)
      requires Valid() && status == Running
      requires piece != [] && |piece| <= inputBuffer.ReadLimit()
      modifies this, inputBuffer, inputBuffer.buf
      ensures inputBuffer == old(inputBuffer)
      ensures inputBuffer.buf == old(inputBuffer.buf) || fresh(inputBuffer.buf)
      ensures Valid() && View() == Run(old(View()).Append(piece))
    {
      hide Encode, Decode, Step;
      inputBuffer.ReadFd(piece);
      ghost var goal := Run(View());
      var more := true;
      while more
        invariant inputBuffer == old(inputBuffer)
        invariant inputBuffer.buf == old(inputBuffer.buf) || fresh(inputBuffer.buf)
        invariant Valid() && (more ==> status == Running)
        invariant if more then Run(View()) == goal else View() == goal
        decreases more, |inputBuffer.Contents()|
      {
        if state == ExceptFrameSize {
          more := ReadSizes();
        } else {
          more := ReadFrame();
        }
      }
    }

    method ReadSizes() returns (more: bool)
      requires Valid() && status == Running && state == ExceptFrameSize
      modifies this, inputBuffer
      ensures inputBuffer == old(inputBuffer) && inputBuffer.buf == old(inputBuffer.buf)
      ensures Valid() && (View(), more) == Step(old(View()))
    {
      hide Encode, Decode;
      if inputBuffer.ReadableBytes() < 8 {
        return false;
      }
      ghost var input := inputBuffer.Contents();
      number := inputBuffer.ReadInt32();
      assert inputBuffer.Contents()[..4] == input[4..8];
      length := inputBuffer.ReadInt32();
      DropTwice(input, 4, 4);
      if number <= 0 || length <= 0 || length > MAX_BUFFER_LENGTH {
        status := Exited;
        return false;
      }
      state := ExceptFrame;
      return true;
    }

    method ReadFrame() returns (more: bool)
      requires Valid() && status == Running && state == ExceptFrame
      modifies this, inputBuffer
      ensures inputBuffer == old(inputBuffer) && inputBuffer.buf == old(inputBuffer.buf)
      ensures Valid() && (View(), more) == Step(old(View()))
    {
      hide Encode, Decode;
      if inputBuffer.ReadableBytes() < 4 + length {
        return false;
      }
      ghost var input := inputBuffer.Contents();
      var payloadLen := inputBuffer.ReadInt32();
      if payloadLen != length {
        status := Exited;
        return false;
      }
      DropTwice(input, 4, length);
      more := Acknowledge(Encode(payloadLen));
    }

    method Acknowledge(ack: seq<Byte>) returns (more: bool)
      requires inputBuffer.Valid() && 0 <= length <= |inputBuffer.Contents()|
      modifies this, inputBuffer
      ensures inputBuffer == old(inputBuffer) && inputBuffer.buf == old(inputBuffer.buf)
      ensures more == (readNumber < number) && inputBuffer.Valid()
      ensures inputBuffer.Contents() == old(inputBuffer.Contents()[length..])
      ensures acks == old(acks) + ack && readNumber == old(readNumber) + 1
      ensures status == if more then old(status) else Closed
      ensures state == old(state) && number == old(number) && length == old(length)
    {
      hide Session.Valid, Tbuf.Valid, Tbuf.Contents;
      inputBuffer.Retrieve(length);
      acks := acks + ack;
      readNumber := readNumber + 1;
      if readNumber >= number {
        status := Closed;
      }
      return readNumber < number;
    }
  }

  // ----- confluence -----

  /** Event after event. */
  function Feed(s: Session, pieces: seq<seq<Byte>>): (r: Session)
    requires s.Valid()
    ensures r.Valid()
  {
    if pieces == [] then s
    else var last := |pieces| - 1; Run(Feed(s, pieces[..last]).Append(pieces[last]))
  }

  /** For any bytes, well formed or not, the state, the acks and the leftover depend on the
      bytes alone, not on how they were cut into reads. */
  lemma {:induction false} Confluence(s: Session, pieces: seq<seq<Byte>>)
    requires s.Valid() && pieces != []
    ensures Feed(s, pieces) == Run(s.Append(Concat(pieces)))
  {
    var last := |pieces| - 1;
    var front := pieces[..last];
    AppendTwice(s, Concat(front), pieces[last]);
    if last == 0 {
      assert s.Append([]) == s;
      assert Feed(s, front) == s && Concat(front) == [];
    } else {
      Confluence(s, front);
      RunResumes(s.Append(Concat(front)), pieces[last]);
    }
  }

  lemma AppendTwice(s: Session, a: seq<Byte>, b: seq<Byte>)
    ensures s.Append(a).Append(b) == s.Append(a + b)
  {
    assert (s.input + a) + b == s.input + (a + b);
  }

  lemma {:induction false} RunResumes(s: Session, more: seq<Byte>)
    requires s.Valid()
    ensures Run(Run(s).Append(more)) == Run(s.Append(more))
    decreases |s.input|
  {
    var (t, goesOn) := Step(s);
    StepOnMore(s, more);
    if goesOn {
      RunResumes(t, more);
    }
  }

  /** A round that changes something does the same with more bytes behind. */
  lemma StepOnMore(s: Session, more: seq<Byte>)
    requires s.Valid()
    ensures Step(s).0 != s || Step(s).1 ==> Step(s.Append(more)) == (Step(s).0.Append(more), Step(s).1)
  {
    var u := s.input;
    if s.status == Running {
      if s.state == ExceptFrameSize && |u| >= 8 {
        HeadOfMore(u, more, 4);
        assert (u + more)[4..8] == u[4..8];
        HeadOfMore(u, more, 8);
      } else if s.state == ExceptFrame && |u| >= 4 + s.length {
        HeadOfMore(u, more, 4);
        HeadOfMore(u, more, 4 + s.length);
      }
    }
  }

  lemma HeadOfMore(u: seq<Byte>, more: seq<Byte>, n: nat)
    requires n <= |u|
    ensures (u + more)[..n] == u[..n] && (u + more)[n..] == u[n..] + more
  {
  }

  // ----- framing -----

  /** Frames that all start with the same head: the length in network order. */
  function Frames(payloads: seq<seq<Byte>>, head: seq<Byte>): seq<Byte> {
    if payloads == [] then [] else head + payloads[0] + Frames(payloads[1..], head)
  }

  function Acks(count: nat, head: seq<Byte>): seq<Byte> {
    if count == 0 then [] else head + Acks(count - 1, head)
  }

  ghost predicate WellSized(payloads: seq<seq<Byte>>, length: Int32) {
    0 < length <= MAX_BUFFER_LENGTH && forall i :: 0 <= i < |payloads| ==> |payloads[i]| == length
  }

  /** `r` is what `s` becomes by consuming the first `done` frames and no more, and it
      stops only for want of a complete frame or because all frames are done. */
  ghost predicate Framed(s: Session, r: Session, payloads: seq<seq<Byte>>, head: seq<Byte>, done: nat) {
    && done <= |payloads| && s.readNumber + done <= s.number
    && s.input == Frames(payloads[..done], head) + r.input
    && (r.status == Running ==> |r.input| < 4 + s.length)
    && r == s.(status := if s.readNumber + done == s.number then Closed else Running,
               readNumber := s.readNumber + done, input := r.input, acks := s.acks + Acks(done, head))
  }

  /** Framing: fed any prefix of a well-formed stream, in any pieces, the server has
      consumed exactly the first `done` frames, where `done` is the number of complete
      frames received but at most `number`. It has sent that many acks, holds exactly the
      bytes behind those frames, and is closed exactly when all `number` are done. */
  lemma Framing(number: Int32, length: Int32, payloads: seq<seq<Byte>>, pieces: seq<seq<Byte>>)
      returns (done: nat)
    requires 0 < number && WellSized(payloads, length) && pieces != []
    requires Concat(pieces) <= Encode(number) + Encode(length) + Frames(payloads, Encode(length))
    ensures var r, received := Feed(NEW_SESSION, pieces), Concat(pieces);
            if |received| < 8 then r == NEW_SESSION.Append(received)
            else
              && Framed(Session(Running, ExceptFrame, number, length, 0, received[8..], []), r,
                        payloads, Encode(length), done)
              && done == Min(number, (|received| - 8) / (4 + length))
  {
    Confluence(NEW_SESSION, pieces);
    done := 0;
    if |Concat(pieces)| < 8 {
      ShortRead(Concat(pieces));
    } else {
      done := LongRead(number, length, Encode(length), payloads, Concat(pieces));
    }
  }

  lemma LongRead(number: Int32, length: Int32, head: seq<Byte>, payloads: seq<seq<Byte>>, received: seq<Byte>)
      returns (done: nat)
    requires 0 < number && WellSized(payloads, length) && head == Encode(length)
    requires |received| >= 8 && received <= Encode(number) + Encode(length) + Frames(payloads, head)
    ensures Framed(Session(Running, ExceptFrame, number, length, 0, received[8..], []),
                   Run(NEW_SESSION.Append(received)), payloads, head, done)
    ensures done == Min(number, (|received| - 8) / (4 + length))
  {
    hide Framed, Frames, Encode, Decode, Run;
    SizesRead(number, length, received, Frames(payloads, head));
    var s := Session(Running, ExceptFrame, number, length, 0, received[8..], []);
    done := FramesRead(s, head, payloads);
    FrameCount(s, Run(s), payloads, head, done);
  }

  function Min(a: int, b: int): int {
    if a < b then a else b
  }

  lemma ShortRead(received: seq<Byte>)
    requires |received| < 8
    ensures Run(NEW_SESSION.Append(received)) == NEW_SESSION.Append(received)
  {
  }

  lemma SizesRead(number: Int32, length: Int32, received: seq<Byte>, frames: seq<Byte>)
    requires 0 < number && 0 < length <= MAX_BUFFER_LENGTH && |received| >= 8
    requires received <= Encode(number) + Encode(length) + frames
    ensures received[8..] <= frames
    ensures Run(NEW_SESSION.Append(received)) ==
            Run(Session(Running, ExceptFrame, number, length, 0, received[8..], []))
  {
    hide Encode, Decode;
    var all := Encode(number) + Encode(length) + frames;
    assert [] + received == received;
    assert received[..4] == all[..4] == Encode(number);
    assert received[4..8] == all[4..8] == Encode(length);
    assert all[8..] == frames;
    DecodeEncode(number);
    DecodeEncode(length);
  }

  lemma {:induction false} FramesRead(s: Session, head: seq<Byte>, payloads: seq<seq<Byte>>) returns (done: nat)
    requires s.status == Running && s.state == ExceptFrame && s.readNumber < s.number
    requires WellSized(payloads, s.length) && head == Encode(s.length) && s.input <= Frames(payloads, head)
    ensures Framed(s, Run(s), payloads, head, done)
    decreases |s.input|
  {
    hide Framed, Frames, Encode, Decode;
    if |s.input| < 4 + s.length {
      done := 0;
      NoFrame(s, payloads, head);
    } else {
      FrameRead(s, head, payloads);
      var t := Step(s).0;
      if t.readNumber < s.number {
        done := FramesRead(t, head, payloads[1..]);
        assert Run(s) == Run(t);
        FramedStep(s, t, Run(t), payloads, head, done);
      } else {
        done := 0;
        NoFrame(t.(status := Closed), payloads[1..], head);
        FramedStep(s, t, t, payloads, head, done);
        assert Run(s) == t;
      }
      done := done + 1;
    }
  }

  lemma NoFrame(s: Session, payloads: seq<seq<Byte>>, head: seq<Byte>)
    requires s.readNumber <= s.number
    requires s.status == if s.readNumber == s.number then Closed else Running
    requires s.status == Running ==> |s.input| < 4 + s.length
    ensures Framed(s, s, payloads, head, 0)
  {
    assert s.acks + [] == s.acks && [] + s.input == s.input;
  }

  lemma FramedStep(s: Session, t: Session, r: Session, payloads: seq<seq<Byte>>, head: seq<Byte>, done: nat)
    requires payloads != [] && s.input == head + payloads[0] + t.input
    requires Framed(t, r, payloads[1..], head, done)
    requires s.status == Running && t.readNumber == s.readNumber + 1 && t.acks == s.acks + head
    requires t == s.(status := t.status, readNumber := t.readNumber, input := t.input, acks := t.acks)
    ensures Framed(s, r, payloads, head, done + 1)
  {
    assert payloads[..done + 1][1..] == payloads[1..][..done];
    var frames := Frames(payloads[1..][..done], head);
    assert head + payloads[0] + (frames + r.input) == (head + payloads[0] + frames) + r.input;
    assert s.acks + head + Acks(done, head) == s.acks + (head + Acks(done, head));
  }

  /** Counting the frames: as many as fit into the bytes received, but at most all. */
  lemma FrameCount(s: Session, r: Session, payloads: seq<seq<Byte>>, head: seq<Byte>, done: nat)
    requires |head| == 4 && WellSized(payloads, s.length) && Framed(s, r, payloads, head, done)
    ensures done == Min(s.number - s.readNumber, |s.input| / (4 + s.length))
  {
    FramesLength(payloads[..done], s.length, head);
    assert |s.input| == |Frames(payloads[..done], head)| + |r.input|;
    CountIs(|s.input|, 4 + s.length, done, |r.input|, s.number - s.readNumber);
  }

  lemma CountIs(n: nat, size: nat, done: nat, left: nat, limit: nat)
    requires size > 0 && n == done * size + left
    requires done <= limit && (done < limit ==> left < size)
    ensures done == Min(limit, n / size)
  {
    if done < limit {
      QuotientIs(n, size, done);
    } else {
      QuotientAtLeast(n, size, done);
    }
  }

  lemma QuotientAtLeast(n: nat, size: nat, q: nat)
    requires size > 0 && q * size <= n
    ensures q <= n / size
  {
    if n / size < q {
      Multiples(n / size + 1, q, size);
    }
  }

  lemma {:induction false} FramesLength(payloads: seq<seq<Byte>>, length: Int32, head: seq<Byte>)
    requires |head| == 4 && forall i :: 0 <= i < |payloads| ==> |payloads[i]| == length
    ensures |Frames(payloads, head)| == |payloads| * (4 + length)
  {
    if payloads != [] {
      FramesLength(payloads[1..], length, head);
    }
  }

  lemma QuotientIs(n: nat, size: nat, q: nat)
    requires size > 0 && q * size <= n < q * size + size
    ensures n / size == q
  {
    QuotientAtLeast(n, size, q);
    if q < n / size {
      Multiples(q + 1, n / size, size);
    }
  }

  lemma Multiples(a: nat, b: nat, size: nat)
    requires a <= b
    ensures a * size <= b * size
  {
  }

  lemma FrameRead(s: Session, head: seq<Byte>, payloads: seq<seq<Byte>>)
    requires s.status == Running && s.state == ExceptFrame && |s.input| >= 4 + s.length
    requires WellSized(payloads, s.length) && head == Encode(s.length) && s.input <= Frames(payloads, head)
    ensures payloads != []
    ensures s.input == head + payloads[0] + s.input[4 + s.length..]
    ensures s.input[4 + s.length..] <= Frames(payloads[1..], head)
    ensures Step(s) == (s.(status := if s.readNumber + 1 >= s.number then Closed else Running,
                           readNumber := s.readNumber + 1, input := s.input[4 + s.length..],
                           acks := s.acks + head), s.readNumber + 1 < s.number)
  {
    hide Encode, Decode;
    var all := head + payloads[0] + Frames(payloads[1..], head);
    assert s.input[..4] == all[..4] == head;
    assert s.input[4..4 + s.length] == all[4..4 + s.length] == payloads[0];
    assert all[4 + s.length..] == Frames(payloads[1..], head);
    DecodeEncode(s.length);
  }

  /** No complete frame waits for a later read: a session still running after an event
      holds less than one whole unit of what it waits for. */
  lemma {:induction false} NothingLeftToDo(s: Session)
    requires s.Valid()
    ensures Run(s).status == Running ==>
              |Run(s).input| < if Run(s).state == ExceptFrameSize then 8 else 4 + Run(s).length
    decreases |s.input|
  {
    if Step(s).1 {
      NothingLeftToDo(Step(s).0);
    }
  }

  // ----- any bytes -----

  /** The complete frames at the front of `u` whose heads hold the length, at most `limit` of
      them: how many, and what is behind them. */
  function Leading(u: seq<Byte>, length: Int32, limit: nat): (nat, seq<Byte>)
    requires 0 < length
    decreases limit
  {
    if limit == 0 || |u| < 4 + length || Decode(u[..4]) != length then (0, u)
    else
      var (n, rest) := Leading(u[4 + length..], length, limit - 1);
      (n + 1, rest)
  }

  /** A session that awaits frames, whatever comes: it acknowledges the leading good frames; it
      is closed if they are all it waits for, exits if another frame is complete, and else goes
      on waiting. */
  lemma {:induction false} FramesExact(s: Session)
    requires s.Valid() && s.status == Running && s.state == ExceptFrame && s.readNumber < s.number
    ensures var (n, rest) := Leading(s.input, s.length, s.number - s.readNumber);
            && Run(s).acks == s.acks + Acks(n, Encode(s.length)) && Run(s).readNumber == s.readNumber + n
            && (Run(s).status == Closed <==> s.readNumber + n == s.number)
            && (Run(s).status == Exited <==> s.readNumber + n < s.number && |rest| >= 4 + s.length)
            && Run(s).input == if Run(s).status == Exited then rest[4..] else rest
    decreases |s.input|
  {
    hide Encode, Decode;
    if |s.input| < 4 + s.length || Decode(s.input[..4]) != s.length {
      assert s.acks + [] == s.acks;
    } else {
      var t := Step(s).0;
      AckOnce(s.acks, Encode(s.length), Leading(t.input, s.length, s.number - t.readNumber).0);
      if t.readNumber < s.number {
        FramesExact(t);
      }
    }
  }

  lemma AckOnce(acks: seq<Byte>, head: seq<Byte>, n: nat)
    ensures acks + Acks(n + 1, head) == acks + head + Acks(n, head)
  {
  }

  /** Over any bytes in any pieces: where the session exits, where it closes, and what it has
      acknowledged. */
  lemma SessionExact(pieces: seq<seq<Byte>>)
    requires pieces != []
    ensures var r, u := Feed(NEW_SESSION, pieces), Concat(pieces);
            if |u| < 8 then r == NEW_SESSION.Append(u) else
            var number, length := Decode(u[..4]), Decode(u[4..8]);
            if number <= 0 || length <= 0 || length > MAX_BUFFER_LENGTH then
              r.status == Exited && r.acks == [] && r.input == u[8..]
            else
              var (n, rest) := Leading(u[8..], length, number);
              && r.acks == Acks(n, Encode(length)) && r.readNumber == n
              && (r.status == Closed <==> n == number)
              && (r.status == Exited <==> n < number && |rest| >= 4 + length)
              && r.input == if r.status == Exited then rest[4..] else rest
  {
    hide Encode, Decode, Leading, Feed;
    var u := Concat(pieces);
    Confluence(NEW_SESSION, pieces);
    assert [] + u == u;
    if |u| < 8 {
      ShortRead(u);
    } else {
      var number, length := Decode(u[..4]), Decode(u[4..8]);
      if 0 < number && 0 < length <= MAX_BUFFER_LENGTH {
        var s := Session(Running, ExceptFrame, number, length, 0, u[8..], []);
        assert Step(NEW_SESSION.Append(u)) == (s, true);
        FramesExact(s);
        var n := Leading(u[8..], length, number).0;
        assert [] + Acks(n, Encode(length)) == Acks(n, Encode(length));
      }
    }
  }
}
