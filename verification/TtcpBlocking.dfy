/** ttcp/ttcp_blocking.cpp: the client and the server of the blocking TTCP test as two
    processes that exchange bytes over two bounded channels. A step is one successful
    read or write call, which moves any positive number of bytes that is available. */
module TtcpBlocking {
  import opened Bytes

  const MAX_BUFFER_LENGTH: int := 1024 * 1024 * 10

  const DIGITS: seq<Byte> := [48, 49, 50, 51, 52, 53, 54, 55, 56, 57, 65, 66, 67, 68, 69, 70]

  /** The options, the three messages built from them, and the room in the two channels. */
  datatype Config = Config(
    number: Int32, length: Int32, session: seq<Byte>, payload: seq<Byte>, ack: seq<Byte>,
    upRoom: nat, downRoom: nat) {

    /** The server takes the length. */
    predicate Valid() {
      Formed() && length <= MAX_BUFFER_LENGTH
    }

    predicate Formed() {
      && 0 <= length && upRoom > 0 && downRoom > 0
      && |session| == 8 && Decode(session[..4]) == number && Decode(session[4..]) == length
      && |payload| == 4 + length && Decode(payload[..4]) == length
      && ack == Encode(length)
    }

    function Count(): nat {
      if number < 0 then 0 else number
    }
  }

  /** What client_send writes for its options. */
  function Configure(number: Int32, length: Int32, upRoom: nat, downRoom: nat): Config
    requires 0 <= length
  {
    var data: seq<Byte> := seq(length, i requires 0 <= i < length => DIGITS[i % 16]);
    Config(number, length, Encode(number) + Encode(length), Encode(length) + data, Encode(length), upRoom, downRoom)
  }

  lemma ConfigureFormed(number: Int32, length: Int32, upRoom: nat, downRoom: nat)
    requires 0 <= length && upRoom > 0 && downRoom > 0
    ensures Configure(number, length, upRoom, downRoom).Formed()
    ensures Configure(number, length, upRoom, downRoom).Valid() <==> length <= MAX_BUFFER_LENGTH
    ensures var data := Configure(number, length, upRoom, downRoom).payload[4..];
            forall i :: 0 <= i < length ==>
              data[i] as int == if i % 16 < 10 then '0' as int + i % 16 else 'A' as int + i % 16 - 10
  {
    hide Encode, Decode;
    DecodeEncode(number);
    DecodeEncode(length);
    assert (Encode(number) + Encode(length))[4..] == Encode(length);
  }

  // ----- read_n and write_n -----

  /** What one read or write call answers: a positive count, 0, EINTR, or another error. */
  datatype Answer = Part(k: nat) | Zero | Interrupted | Failed

  function Least(a: nat, b: nat): nat {
    if a < b then a else b
  }

  /** How far a transfer of `length` bytes gets that has `done` behind it. */
  function Reached(done: nat, length: nat, answers: seq<Answer>): nat
    decreases |answers|
  {
    if done >= length || answers == [] then done
    else match answers[0]
      case Part(k) => Reached(Least(done + k, length), length, answers[1..])
      case Interrupted => Reached(done, length, answers[1..])
      case _ => done
  }

  /** A socket: the bytes that will still arrive and those sent so far. */
  class Socket {
    var incoming: seq<Byte>
    var outgoing: seq<Byte>

    /** The loop goes on after a part and after EINTR, and falls short only when a call
        answered 0 or failed, or (in this finite script) was not answered. */
    method ReadN(length: nat, answers: seq<Answer>) returns (data: seq<Byte>)
      requires forall i :: 0 <= i < |answers| && answers[i].Part? ==> 0 < answers[i].k
      modifies `incoming
      ensures data + incoming == old(incoming) && |data| <= length
      ensures |data| == Reached(0, Least(length, |old(incoming)|), answers)
    {
      data := [];
      var i := 0;
      while |data| < length && i < |answers|
        invariant i <= |answers| && |data| <= length && data + incoming == old(incoming)
        invariant Reached(|data|, Least(length, |old(incoming)|), answers[i..]) ==
                  Reached(0, Least(length, |old(incoming)|), answers)
      {
        var answer := answers[i];
        i := i + 1;
        match answer {
          case Part(k) =>
            var nr := Least(k, Least(length - |data|, |incoming|));
            NextTaken(data, incoming, nr);
            data, incoming := data + incoming[..nr], incoming[nr..];
          case Interrupted =>
          case _ => return;
        }
      }
    }

    method WriteN(buf: seq<Byte>, answers: seq<Answer>) returns (written: nat)
      requires forall i :: 0 <= i < |answers| && answers[i].Part? ==> 0 < answers[i].k
      modifies `outgoing
      ensures written <= |buf| && outgoing == old(outgoing) + buf[..written]
      ensures written == Reached(0, |buf|, answers)
    {
      written := 0;
      var i := 0;
      while written < |buf| && i < |answers|
        invariant i <= |answers| && written <= |buf| && outgoing == old(outgoing) + buf[..written]
        invariant Reached(written, |buf|, answers[i..]) == Reached(0, |buf|, answers)
      {
        var answer := answers[i];
        i := i + 1;
        match answer {
          case Part(k) =>
            var nw := Least(k, |buf| - written);
            assert buf[..written] + buf[written..written + nw] == buf[..written + nw];
            outgoing := outgoing + buf[written..written + nw];
            written := written + nw;
          case Interrupted =>
          case _ => return;
        }
      }
    }
  }

  lemma NextTaken(data: seq<Byte>, incoming: seq<Byte>, n: nat)
    requires n <= |incoming|
    ensures data + incoming[..n] + incoming[n..] == data + incoming
  {
  }

  function Sum(answers: seq<Answer>): nat {
    if answers == [] then 0 else (if answers[0].Part? then answers[0].k else 0) + Sum(answers[1..])
  }

  /** A transfer is complete once the calls have moved enough, however they cut it. */
  lemma {:induction false} ReachedInPieces(done: nat, length: nat, answers: seq<Answer>)
    requires done <= length && forall i :: 0 <= i < |answers| ==> answers[i].Part? || answers[i].Interrupted?
    ensures Reached(done, length, answers) == Least(done + Sum(answers), length)
    decreases |answers|
  {
    if answers != [] && done < length {
      ReachedInPieces(if answers[0].Part? then Least(done + answers[0].k, length) else done, length, answers[1..]);
    }
  }

  /** An answer of 0 or an error ends the transfer where it stands, whatever answers follow. */
  lemma {:induction false} ReachedStops(done: nat, length: nat, front: seq<Answer>, stop: Answer, rest: seq<Answer>)
    requires stop.Zero? || stop.Failed?
    ensures Reached(done, length, front + [stop] + rest) == Reached(done, length, front)
    decreases |front|
  {
    var all := front + [stop] + rest;
    if front == [] {
      assert all[0] == stop;
    } else {
      assert all[0] == front[0] && all[1..] == front[1..] + [stop] + rest;
      if done < length && front[0].Part? {
        ReachedStops(Least(done + front[0].k, length), length, front[1..], stop, rest);
      } else if done < length && front[0].Interrupted? {
        ReachedStops(done, length, front[1..], stop, rest);
      }
    }
  }

  // ----- the two programs -----

  datatype Client = WriteSession(written: nat)
                  | WritePayload(i: nat, written: nat)
                  | ReadAck(i: nat, got: seq<Byte>)
                  | ClientDone
                  | ClientFailed

  datatype Server = ReadSession(got: seq<Byte>)
                  | ReadPayload(i: nat, got: seq<Byte>)
                  | WriteAck(i: nat, written: nat)
                  | ServerDone
                  | ServerFailed

  /** `number` and `length` are what the server has read into its SessionMessage. */
  datatype State = State(
    client: Client, server: Server, number: Int32, length: Int32, up: seq<Byte>, down: seq<Byte>)

  const INIT := State(WriteSession(0), ReadSession([]), 0, 0, [], [])

  predicate ClientClosed(s: State) { s.client.ClientDone? || s.client.ClientFailed? }

  predicate ServerClosed(s: State) { s.server.ServerDone? || s.server.ServerFailed? }

  /** write_n and read_n can go on with `k` bytes, or find the other end closed. */
  predicate ClientCan(c: Config, s: State, k: nat) {
    match s.client
    case WriteSession(w) => ServerClosed(s) || (0 < k <= 8 - w && |s.up| + k <= c.upRoom)
    case WritePayload(_, w) => ServerClosed(s) || (0 < k <= |c.payload| - w && |s.up| + k <= c.upRoom)
    case ReadAck(_, got) => (s.down == [] && ServerClosed(s)) || (0 < k <= 4 - |got| && k <= |s.down|)
    case ClientDone => false
    case ClientFailed => false
  }

  function NextRound(c: Config, i: nat): Client {
    if i < c.number then WritePayload(i, 0) else ClientDone
  }

  function ClientStep(c: Config, s: State, k: nat): State
    requires c.Formed() && ClientCan(c, s, k)
  {
    match s.client
    case WriteSession(w) =>
      if ServerClosed(s) then s.(client := ClientFailed)
      else s.(client := if w + k == 8 then NextRound(c, 0) else WriteSession(w + k),
              up := s.up + c.session[w..w + k])
    case WritePayload(i, w) =>
      if ServerClosed(s) then s.(client := ClientFailed)
      else s.(client := if w + k == |c.payload| then ReadAck(i, []) else WritePayload(i, w + k),
              up := s.up + c.payload[w..w + k])
    case ReadAck(i, got) =>
      if s.down == [] then s.(client := ClientFailed)
      else
        var all := got + s.down[..k];
        s.(client := if |all| < 4 then ReadAck(i, all)
                     else if Decode(all) == c.length then NextRound(c, i + 1) else ClientFailed,
           down := s.down[k..])
  }

  predicate ServerCan(c: Config, s: State, k: nat) {
    match s.server
    case ReadSession(got) => (s.up == [] && ClientClosed(s)) || (0 < k <= 8 - |got| && k <= |s.up|)
    case ReadPayload(_, got) => (s.up == [] && ClientClosed(s)) || (0 < k <= 4 + s.length - |got| && k <= |s.up|)
    case WriteAck(_, w) => ClientClosed(s) || (0 < k <= 4 - w && |s.down| + k <= c.downRoom)
    case ServerDone => false
    case ServerFailed => false
  }

  function Awaiting(number: Int32, i: nat): Server {
    if i < number then ReadPayload(i, []) else ServerDone
  }

  function ServerStep(c: Config, s: State, k: nat): State
    requires c.Formed() && ServerCan(c, s, k)
  {
    match s.server
    case ReadSession(got) =>
      if s.up == [] then s.(server := ServerFailed)
      else
        var all, t := got + s.up[..k], s.(up := s.up[k..]);
        if |all| < 8 then t.(server := ReadSession(all))
        else
          var number, length := Decode(all[..4]), Decode(all[4..]);
          t.(number := number, length := length,
             server := if 0 <= length <= MAX_BUFFER_LENGTH then Awaiting(number, 0) else ServerFailed)
    case ReadPayload(i, got) =>
      if s.up == [] then s.(server := ServerFailed)
      else
        var all, t := got + s.up[..k], s.(up := s.up[k..]);
        if |all| < 4 + s.length then t.(server := ReadPayload(i, all))
        else if |all| >= 4 && Decode(all[..4]) == s.length then t.(server := WriteAck(i, 0))
        else t.(server := ServerFailed)
    case WriteAck(i, w) =>
      if ClientClosed(s) then s.(server := ServerFailed)
      else s.(server := if w + k == 4 then Awaiting(s.number, i + 1) else WriteAck(i, w + k),
              down := s.down + Encode(s.length)[w..w + k])
  }

  datatype Action = ByClient(k: nat) | ByServer(k: nat)

  predicate Can(c: Config, s: State, a: Action) {
    match a
    case ByClient(k) => ClientCan(c, s, k)
    case ByServer(k) => ServerCan(c, s, k)
  }

  function Next(c: Config, s: State, a: Action): State
    requires c.Formed() && Can(c, s, a)
  {
    match a
    case ByClient(k) => ClientStep(c, s, k)
    case ByServer(k) => ServerStep(c, s, k)
  }

  // ----- the invariant -----

  /** The receiver holds the start of message `m` and the channel the next of its bytes. */
  predicate Moving(m: seq<Byte>, got: seq<Byte>, channel: seq<Byte>, sent: nat) {
    |got| <= sent <= |m| && got == m[..|got|] && channel == m[|got|..sent]
  }

  /** Which points the two programs can be at together, and what is under way then. */
  predicate Inv(c: Config, s: State) {
    && |s.up| <= c.upRoom && |s.down| <= c.downRoom
    && (s.server.ReadSession? || (s.number == c.number && s.length == c.length))
    && match (s.client, s.server)
       case (WriteSession(w), ReadSession(got)) =>
         w < 8 && |got| < 8 && s.down == [] && Moving(c.session, got, s.up, w)
       case (WritePayload(i, w), ReadSession(got)) =>
         i == 0 < c.number && w < |c.payload| && |got| < 8 && s.down == [] && Behind(c, got, s.up, w)
       case (ReadAck(i, g), ReadSession(got)) =>
         i == 0 < c.number && g == [] && |got| < 8 && s.down == [] && Behind(c, got, s.up, |c.payload|)
       case (ClientDone, ReadSession(got)) =>
         c.number <= 0 && |got| < 8 && s.down == [] && Moving(c.session, got, s.up, 8)
       case (WritePayload(i, w), ReadPayload(j, got)) =>
         i == j < c.number && w < |c.payload| && s.down == [] && Moving(c.payload, got, s.up, w)
       case (ReadAck(i, g), ReadPayload(j, got)) =>
         j < c.number &&
         (if i == j then g == [] && |got| < |c.payload| && s.down == [] && Moving(c.payload, got, s.up, |c.payload|)
          else j == i + 1 && got == [] && s.up == [] && |g| < 4 && Moving(c.ack, g, s.down, 4))
       case (ReadAck(i, g), WriteAck(j, w)) =>
         i == j < c.number && s.up == [] && |g| < 4 && w < 4 && Moving(c.ack, g, s.down, w)
       case (ReadAck(i, g), ServerDone) =>
         i == c.number - 1 && s.up == [] && |g| < 4 && Moving(c.ack, g, s.down, 4)
       case (ClientDone, ServerDone) => s.up == [] && s.down == []
       case _ => false
  }

  /** The rest of the session message, then the payload up to `sent`. */
  predicate Behind(c: Config, got: seq<Byte>, channel: seq<Byte>, sent: nat) {
    && |got| <= |c.session| && got == c.session[..|got|] && sent <= |c.payload|
    && channel == c.session[|got|..] + c.payload[..sent]
  }

  lemma Send(m: seq<Byte>, got: seq<Byte>, channel: seq<Byte>, sent: nat, k: nat)
    requires Moving(m, got, channel, sent) && sent + k <= |m|
    ensures Moving(m, got, channel + m[sent..sent + k], sent + k)
  {
  }

  lemma Receive(m: seq<Byte>, got: seq<Byte>, channel: seq<Byte>, sent: nat, k: nat)
    requires Moving(m, got, channel, sent) && k <= |channel|
    ensures Moving(m, got + channel[..k], channel[k..], sent)
  {
  }

  lemma SendBehind(c: Config, got: seq<Byte>, channel: seq<Byte>, sent: nat, k: nat)
    requires Behind(c, got, channel, sent) && sent + k <= |c.payload|
    ensures Behind(c, got, channel + c.payload[sent..sent + k], sent + k)
  {
    var p, head := c.payload, c.session[|got|..];
    assert p[..sent] + p[sent..sent + k] == p[..sent + k];
    assert head + p[..sent] + p[sent..sent + k] == head + (p[..sent] + p[sent..sent + k]);
  }

  lemma ReceiveAhead(c: Config, got: seq<Byte>, channel: seq<Byte>, sent: nat, k: nat)
    requires Behind(c, got, channel, sent) && k <= |c.session| - |got|
    ensures k <= |channel| && Behind(c, got + channel[..k], channel[k..], sent)
    ensures |got| + k == |c.session| ==> got + channel[..k] == c.session && channel[k..] == c.payload[..sent]
  {
    var head, tail := c.session[|got|..], c.payload[..sent];
    assert channel[..k] == head[..k] && channel[k..] == head[k..] + tail;
    assert got + head[..k] == c.session[..|got| + k];
    assert head[k..] == c.session[|got| + k..];
    if |got| + k == |c.session| {
      assert head[k..] == [] && [] + tail == tail;
    }
  }

  lemma ClientKeeps(c: Config, s: State, k: nat)
    requires c.Formed() && Inv(c, s) && ClientCan(c, s, k)
    ensures Inv(c, ClientStep(c, s, k))
  {
    match s.client
    case WriteSession(w) => SessionWriteKeeps(c, s, k);
    case WritePayload(i, w) => PayloadWriteKeeps(c, s, k);
    case ReadAck(i, g) => ClientReadKeeps(c, s, k);
  }

  lemma SessionWriteKeeps(c: Config, s: State, k: nat)
    requires c.Formed() && Inv(c, s) && s.client.WriteSession? && ClientCan(c, s, k)
    ensures Inv(c, ClientStep(c, s, k))
  {
    hide Decode, Encode;
    var got, w := s.server.got, s.client.written;
    Send(c.session, got, s.up, w, k);
    if w + k == 8 {
      assert c.session[|got|..8] == c.session[|got|..];
      assert c.session[|got|..] + c.payload[..0] == c.session[|got|..];
    }
  }

  lemma PayloadWriteKeeps(c: Config, s: State, k: nat)
    requires c.Formed() && Inv(c, s) && s.client.WritePayload? && ClientCan(c, s, k)
    ensures Inv(c, ClientStep(c, s, k))
  {
    hide Decode, Encode;
    var got, w := s.server.got, s.client.written;
    if s.server.ReadSession? {
      SendBehind(c, got, s.up, w, k);
    } else {
      Send(c.payload, got, s.up, w, k);
    }
  }

  lemma ClientReadKeeps(c: Config, s: State, k: nat)
    requires c.Formed() && Inv(c, s) && s.client.ReadAck? && ClientCan(c, s, k)
    ensures Inv(c, ClientStep(c, s, k))
  {
    hide Decode, Encode;
    var g := s.client.got;
    var sent := if s.server.WriteAck? then s.server.written else 4;
    Receive(c.ack, g, s.down, sent, k);
    if |g| + k == 4 {
      assert c.ack[..4] == c.ack;
      DecodeEncode(c.length);
      assert c.payload[0..0] == [];
    }
  }

  lemma ServerKeeps(c: Config, s: State, k: nat)
    requires c.Valid() && Inv(c, s) && ServerCan(c, s, k)
    ensures Inv(c, ServerStep(c, s, k))
  {
    match s.server
    case ReadSession(got) => SessionReadKeeps(c, s, k);
    case ReadPayload(j, got) => PayloadReadKeeps(c, s, k);
    case WriteAck(j, w) => AckWriteKeeps(c, s, k);
  }

  lemma PayloadReadKeeps(c: Config, s: State, k: nat)
    requires c.Valid() && Inv(c, s) && s.server.ReadPayload? && ServerCan(c, s, k)
    ensures Inv(c, ServerStep(c, s, k))
  {
    hide Decode, Encode;
    var got := s.server.got;
    Receive(c.payload, got, s.up, if s.client.WritePayload? then s.client.written else |c.payload|, k);
    if |got| + k == |c.payload| {
      assert c.payload[..|c.payload|] == c.payload;
      assert c.ack[0..0] == [];
    }
  }

  lemma AckWriteKeeps(c: Config, s: State, k: nat)
    requires c.Valid() && Inv(c, s) && s.server.WriteAck? && ServerCan(c, s, k)
    ensures Inv(c, ServerStep(c, s, k))
  {
    hide Decode, Encode;
    Send(c.ack, s.client.got, s.down, s.server.written, k);
    assert c.payload[0..0] == [];
  }

  lemma SessionReadKeeps(c: Config, s: State, k: nat)
    requires c.Valid() && Inv(c, s) && s.server.ReadSession? && ServerCan(c, s, k)
    ensures Inv(c, ServerStep(c, s, k))
  {
    hide Decode, Encode;
    var got := s.server.got;
    if s.client.WriteSession? || s.client.ClientDone? {
      var sent := if s.client.WriteSession? then s.client.written else 8;
      Receive(c.session, got, s.up, sent, k);
      assert c.session[..8] == c.session;
    } else {
      ReceiveAhead(c, got, s.up, if s.client.WritePayload? then s.client.written else |c.payload|, k);
      assert c.payload[0..|c.payload|] == c.payload[..|c.payload|];
    }
  }

  // ----- every run -----

  /** The actions lead from `s` to `t`, each of them possible when its turn comes. */
  predicate Leads(c: Config, s: State, actions: seq<Action>, t: State)
    requires c.Formed()
    decreases |actions|
  {
    if actions == [] then s == t
    else Can(c, s, actions[0]) && Leads(c, Next(c, s, actions[0]), actions[1..], t)
  }

  /** Acks and payloads that the two loops have behind them where they are. */
  function AcksBehind(c: Config, client: Client): nat {
    match client
    case WriteSession(_) => 0
    case WritePayload(i, _) => i
    case ReadAck(i, _) => i
    case _ => c.Count()
  }

  function PayloadsBehind(c: Config, server: Server): nat {
    match server
    case ReadSession(_) => 0
    case ReadPayload(i, _) => i
    case WriteAck(i, _) => i + 1
    case _ => c.Count()
  }

  /** The action reads the last byte of an ack, which is the right one. */
  predicate ReadsAck(c: Config, s: State, a: Action)
    requires c.Formed() && Can(c, s, a)
  {
    a.ByClient? && s.client.ReadAck? && (Next(c, s, a).client.WritePayload? || Next(c, s, a).client.ClientDone?)
  }

  /** The action reads the last byte of a payload, which is a right one. */
  predicate ReadsPayload(c: Config, s: State, a: Action)
    requires c.Formed() && Can(c, s, a)
  {
    a.ByServer? && s.server.ReadPayload? && Next(c, s, a).server.WriteAck?
  }

  /** How many acks the actions of a run read. */
  function AcksRead(c: Config, s: State, actions: seq<Action>): nat
    requires c.Formed()
    decreases |actions|
  {
    if actions == [] || !Can(c, s, actions[0]) then 0
    else (if ReadsAck(c, s, actions[0]) then 1 else 0) + AcksRead(c, Next(c, s, actions[0]), actions[1..])
  }

  /** And how many payloads. */
  function PayloadsRead(c: Config, s: State, actions: seq<Action>): nat
    requires c.Formed()
    decreases |actions|
  {
    if actions == [] || !Can(c, s, actions[0]) then 0
    else (if ReadsPayload(c, s, actions[0]) then 1 else 0) + PayloadsRead(c, Next(c, s, actions[0]), actions[1..])
  }

  function Rounds(n: nat, size: nat): nat {
    if n == 0 then 0 else size + Rounds(n - 1, size)
  }

  function RoundSize(c: Config): nat { |c.payload| + 4 }

  function ClientLeft(c: Config, client: Client): nat {
    var n, size := c.Count(), RoundSize(c);
    match client
    case WriteSession(w) => if w < 8 then 8 - w + Rounds(n, size) else 0
    case WritePayload(i, w) => if i < n && w < size then size - w + Rounds(n - i - 1, size) else 0
    case ReadAck(i, g) => if i < n && |g| < 4 then 4 - |g| + Rounds(n - i - 1, size) else 0
    case _ => 0
  }

  function ServerLeft(c: Config, server: Server): nat {
    var n, size := c.Count(), RoundSize(c);
    match server
    case ReadSession(got) => if |got| < 8 then 8 - |got| + Rounds(n, size) else 0
    case ReadPayload(j, got) => if j < n && |got| < size then size - |got| + Rounds(n - j - 1, size) else 0
    case WriteAck(j, w) => if j < n && w < 4 then 4 - w + Rounds(n - j - 1, size) else 0
    case _ => 0
  }

  /** Bytes the two programs have still to move: each is written once and read once. */
  function Work(c: Config, s: State): nat {
    ClientLeft(c, s.client) + ServerLeft(c, s.server)
  }

  lemma RoundsLeft(c: Config, i: nat)
    requires i <= c.Count()
    ensures ClientLeft(c, NextRound(c, i)) == ServerLeft(c, Awaiting(c.number, i))
            == Rounds(c.Count() - i, RoundSize(c))
  {
  }

  lemma ClientWorks(c: Config, s: State, k: nat)
    requires c.Valid() && Inv(c, s) && ClientCan(c, s, k) && Inv(c, ClientStep(c, s, k))
    ensures 0 < k && ClientLeft(c, ClientStep(c, s, k).client) + k == ClientLeft(c, s.client)
  {
    hide Decode, Encode, Behind, Rounds;
    match s.client
    case WriteSession(w) => RoundsLeft(c, 0);
    case WritePayload(i, w) => PayloadWriteWorks(c, s, k);
    case ReadAck(i, g) => AckReadWorks(c, s, k);
  }

  lemma PayloadWriteWorks(c: Config, s: State, k: nat)
    requires c.Valid() && Inv(c, s) && s.client.WritePayload? && ClientCan(c, s, k) && Inv(c, ClientStep(c, s, k))
    ensures 0 < k && ClientLeft(c, ClientStep(c, s, k).client) + k == ClientLeft(c, s.client)
  {
    hide Decode, Encode, Behind, Rounds;
    assert !ServerClosed(s);
  }

  lemma AckReadWorks(c: Config, s: State, k: nat)
    requires c.Valid() && Inv(c, s) && s.client.ReadAck? && ClientCan(c, s, k) && Inv(c, ClientStep(c, s, k))
    ensures 0 < k && ClientLeft(c, ClientStep(c, s, k).client) + k == ClientLeft(c, s.client)
  {
    hide Decode, Encode, Behind, Rounds;
    assert s.down != [];
    RoundsLeft(c, s.client.i + 1);
  }

  lemma ServerWorks(c: Config, s: State, k: nat)
    requires c.Valid() && Inv(c, s) && ServerCan(c, s, k) && Inv(c, ServerStep(c, s, k))
    ensures 0 < k && ServerLeft(c, ServerStep(c, s, k).server) + k == ServerLeft(c, s.server)
  {
    hide Decode, Encode, Behind, Rounds;
    match s.server
    case ReadSession(got) => SessionReadWorks(c, s, k);
    case ReadPayload(j, got) => PayloadReadWorks(c, s, k);
    case WriteAck(j, w) => RoundsLeft(c, j + 1);
  }

  lemma SessionReadWorks(c: Config, s: State, k: nat)
    requires c.Valid() && Inv(c, s) && s.server.ReadSession? && ServerCan(c, s, k) && Inv(c, ServerStep(c, s, k))
    ensures 0 < k && ServerLeft(c, ServerStep(c, s, k).server) + k == ServerLeft(c, s.server)
  {
    hide Decode, Encode, Behind, Rounds;
    assert s.up != [];
    RoundsLeft(c, 0);
  }

  lemma PayloadReadWorks(c: Config, s: State, k: nat)
    requires c.Valid() && Inv(c, s) && s.server.ReadPayload? && ServerCan(c, s, k) && Inv(c, ServerStep(c, s, k))
    ensures 0 < k && ServerLeft(c, ServerStep(c, s, k).server) + k == ServerLeft(c, s.server)
  {
    hide Decode, Encode, Behind, Rounds;
    assert s.up != [];
  }

  lemma StepWorks(c: Config, s: State, a: Action)
    requires c.Valid() && Inv(c, s) && Can(c, s, a)
    ensures Inv(c, Next(c, s, a)) && a.k > 0 && Work(c, Next(c, s, a)) + a.k == Work(c, s)
  {
    hide Inv, ClientStep, ServerStep, ClientLeft, ServerLeft;
    match a
    case ByClient(k) =>
      OtherSideStays(c, s, k);
      ClientKeeps(c, s, k);
      ClientWorks(c, s, k);
    case ByServer(k) =>
      OtherSideStays(c, s, k);
      ServerKeeps(c, s, k);
      ServerWorks(c, s, k);
  }

  function Moved(actions: seq<Action>): nat {
    if actions == [] then 0 else actions[0].k + Moved(actions[1..])
  }

  lemma StepCounts(c: Config, s: State, a: Action)
    requires c.Valid() && Inv(c, s) && Can(c, s, a) && Inv(c, Next(c, s, a))
    ensures var t := Next(c, s, a);
            && AcksBehind(c, t.client) == AcksBehind(c, s.client) + (if ReadsAck(c, s, a) then 1 else 0)
            && PayloadsBehind(c, t.server) == PayloadsBehind(c, s.server) + (if ReadsPayload(c, s, a) then 1 else 0)
  {
    hide Inv, ClientStep, ServerStep;
    match a
    case ByClient(k) =>
      OtherSideStays(c, s, k);
      AckCounts(c, s, k);
    case ByServer(k) =>
      OtherSideStays(c, s, k);
      PayloadCounts(c, s, k);
  }

  lemma OtherSideStays(c: Config, s: State, k: nat)
    requires c.Formed()
    ensures ClientCan(c, s, k) ==> ClientStep(c, s, k).server == s.server
    ensures ServerCan(c, s, k) ==> ServerStep(c, s, k).client == s.client
  {
  }

  lemma AckCounts(c: Config, s: State, k: nat)
    requires c.Valid() && Inv(c, s) && ClientCan(c, s, k) && Inv(c, ClientStep(c, s, k))
    ensures AcksBehind(c, ClientStep(c, s, k).client) ==
            AcksBehind(c, s.client) + (if ReadsAck(c, s, ByClient(k)) then 1 else 0)
  {
    hide Decode, Encode, Moving, Behind;
  }

  lemma PayloadCounts(c: Config, s: State, k: nat)
    requires c.Valid() && Inv(c, s) && ServerCan(c, s, k) && Inv(c, ServerStep(c, s, k))
    ensures PayloadsBehind(c, ServerStep(c, s, k).server) ==
            PayloadsBehind(c, s.server) + (if ReadsPayload(c, s, ByServer(k)) then 1 else 0)
  {
    hide Decode, Encode, Moving, Behind;
  }

  /** Every action moves at least one byte and none moves a byte twice; what has been read is
      what the loops say. */
  lemma {:induction false} RunWorks(c: Config, s: State, actions: seq<Action>, t: State)
    requires c.Valid() && Inv(c, s) && Leads(c, s, actions, t)
    ensures Inv(c, t) && Moved(actions) + Work(c, t) == Work(c, s) && |actions| <= Moved(actions)
    ensures AcksBehind(c, t.client) == AcksBehind(c, s.client) + AcksRead(c, s, actions)
    ensures PayloadsBehind(c, t.server) == PayloadsBehind(c, s.server) + PayloadsRead(c, s, actions)
    decreases |actions|
  {
    hide Inv, Can, Next, Work, AcksBehind, PayloadsBehind, ReadsAck, ReadsPayload;
    if actions != [] {
      StepWorks(c, s, actions[0]);
      StepCounts(c, s, actions[0]);
      RunWorks(c, Next(c, s, actions[0]), actions[1..], t);
    }
  }

  /** Twice the bytes of the protocol: every one is written once and read once. */
  function TotalWork(c: Config): nat {
    2 * (8 + c.Count() * RoundSize(c))
  }

  lemma {:induction false} RoundsAreProduct(n: nat, size: nat)
    ensures Rounds(n, size) == n * size
  {
    if n > 0 {
      RoundsAreProduct(n - 1, size);
    }
  }

  /** Safety of every run: no read meets an early end of file, no write a closed peer, both
      length asserts hold, the channels never hold more than they have room for, and the server
      is never more than one payload ahead. The bytes
      moved so far and those still to move add up to the whole, so every run is finite. */
  lemma Safety(c: Config, actions: seq<Action>, s: State)
    requires c.Valid() && Leads(c, INIT, actions, s)
    ensures !s.client.ClientFailed? && !s.server.ServerFailed?
    ensures AcksRead(c, INIT, actions) <= PayloadsRead(c, INIT, actions) <= AcksRead(c, INIT, actions) + 1
    ensures Moved(actions) + Work(c, s) == TotalWork(c) && |actions| <= TotalWork(c)
    ensures |s.up| <= c.upRoom && |s.down| <= c.downRoom
  {
    hide Leads, AcksRead, PayloadsRead;
    StartsInInv(c);
    RoundsAreProduct(c.Count(), RoundSize(c));
    RunWorks(c, INIT, actions, s);
  }

  /** When a program gives up, in any state at all: on a peer that has closed, on a number of
      payload or ack bytes that is not the one agreed on, and on a length the server does not take. */
  lemma ChecksExact(c: Config, s: State, k: nat)
    requires c.Formed()
    ensures ClientCan(c, s, k) ==>
              (ClientStep(c, s, k).client.ClientFailed? <==>
               if s.client.ReadAck? && s.down != [] then
                 var all := s.client.got + s.down[..k]; |all| >= 4 && Decode(all) != c.length
               else s.client.ReadAck? || ServerClosed(s))
    ensures ServerCan(c, s, k) ==>
              (ServerStep(c, s, k).server.ServerFailed? <==>
               match s.server
               case ReadSession(got) =>
                 var all := got + s.up[..if k <= |s.up| then k else 0];
                 s.up == [] || (|all| == 8 && !(0 <= Decode(all[4..]) <= MAX_BUFFER_LENGTH))
               case ReadPayload(_, got) =>
                 var all := got + s.up[..if k <= |s.up| then k else 0];
                 s.up == [] || (|all| >= 4 + s.length && (|all| < 4 || Decode(all[..4]) != s.length))
               case _ => ClientClosed(s))
  {
    hide Decode, Encode;
  }

  lemma StartsInInv(c: Config)
    requires c.Formed()
    ensures Inv(c, INIT) && AcksBehind(c, INIT.client) == PayloadsBehind(c, INIT.server) == 0
  {
    assert c.session[0..0] == [] && c.session[..0] == [];
  }

  /** No deadlock: whatever has happened, one of the two can move a byte unless both have
      finished, and they have then exchanged exactly `number` payloads and acks and left
      nothing in the channels. Rooms of a single byte are enough. */
  lemma NoDeadlock(c: Config, actions: seq<Action>, s: State)
    requires c.Valid() && Leads(c, INIT, actions, s)
    ensures (exists a :: Can(c, s, a)) <==> !(s.client.ClientDone? && s.server.ServerDone?)
    ensures !(exists a :: Can(c, s, a)) ==>
              s.up == [] == s.down && Moved(actions) == TotalWork(c) &&
              AcksRead(c, INIT, actions) == PayloadsRead(c, INIT, actions) == c.Count()
  {
    hide Inv, Leads, AcksRead, PayloadsRead, Work, TotalWork;
    StartsInInv(c);
    Safety(c, actions, s);
    RunWorks(c, INIT, actions, s);
    SomeoneCan(c, s);
    if s.client.ClientDone? && s.server.ServerDone? {
      DoneMeans(c, s);
    }
  }

  /** Bytes under way can be read, and else the one that has to write has room. */
  lemma SomeoneCan(c: Config, s: State)
    requires c.Valid() && Inv(c, s)
    ensures (exists a :: Can(c, s, a)) <==> !(s.client.ClientDone? && s.server.ServerDone?)
  {
    if !(s.client.ClientDone? && s.server.ServerDone?) {
      if s.client.ReadAck? {
        assert Can(c, s, if s.down == [] then ByServer(1) else ByClient(1));
      } else {
        assert Can(c, s, if s.up == [] then ByClient(1) else ByServer(1));
      }
    }
  }

  lemma DoneMeans(c: Config, s: State)
    requires c.Valid() && Inv(c, s) && s.client.ClientDone? && s.server.ServerDone?
    ensures s.up == [] == s.down && Work(c, s) == 0
    ensures AcksBehind(c, s.client) == PayloadsBehind(c, s.server) == c.Count()
  {
  }

  // ----- a length beyond the server's limit -----

  /** Until the server has read the session message nothing differs; then it has exited, and
      the client has at most one payload under way. */
  predicate InvLong(c: Config, s: State) {
    if s.server.ReadSession? then Inv(c, s)
    else
      && s.server.ServerFailed? && s.down == []
      && match s.client
         case WriteSession(_) => false
         case WritePayload(i, _) => i == 0 < c.number
         case ReadAck(i, _) => i == 0 < c.number
         case ClientDone => c.number <= 0
         case ClientFailed => 0 < c.number
  }

  lemma SessionReadLong(c: Config, s: State, k: nat)
    requires c.Formed() && c.length > MAX_BUFFER_LENGTH && Inv(c, s) && s.server.ReadSession? && ServerCan(c, s, k)
    ensures InvLong(c, ServerStep(c, s, k))
  {
    hide Decode, Encode;
    var got := s.server.got;
    if s.client.WriteSession? || s.client.ClientDone? {
      var sent := if s.client.WriteSession? then s.client.written else 8;
      Receive(c.session, got, s.up, sent, k);
      assert c.session[..8] == c.session;
    } else {
      ReceiveAhead(c, got, s.up, if s.client.WritePayload? then s.client.written else |c.payload|, k);
    }
  }

  lemma StepLong(c: Config, s: State, a: Action)
    requires c.Formed() && c.length > MAX_BUFFER_LENGTH && InvLong(c, s) && Can(c, s, a)
    ensures InvLong(c, Next(c, s, a)) && !ReadsAck(c, s, a) && !ReadsPayload(c, s, a)
  {
    hide Decode, Encode, Moving, Behind;
    match a
    case ByClient(k) =>
      if s.server.ReadSession? {
        ClientKeeps(c, s, k);
      }
    case ByServer(k) =>
      SessionReadLong(c, s, k);
  }

  lemma {:induction false} RunLong(c: Config, s: State, actions: seq<Action>, t: State)
    requires c.Formed() && c.length > MAX_BUFFER_LENGTH && InvLong(c, s) && Leads(c, s, actions, t)
    ensures InvLong(c, t) && AcksRead(c, s, actions) == PayloadsRead(c, s, actions) == 0
    decreases |actions|
  {
    hide InvLong, Can, Next, ReadsAck, ReadsPayload;
    if actions != [] {
      StepLong(c, s, actions[0]);
      RunLong(c, Next(c, s, actions[0]), actions[1..], t);
    }
  }

  lemma SomeoneCanLong(c: Config, s: State)
    requires c.Formed() && InvLong(c, s) && !(exists a :: Can(c, s, a))
    ensures s.server.ServerFailed? && if c.number > 0 then s.client.ClientFailed? else s.client.ClientDone?
  {
    hide Decode, Encode;
    assert !Can(c, s, ByClient(1)) && !Can(c, s, ByServer(1));
  }

  /** What a run comes to in which nobody can go on: for a length up to the server's limit
      both have finished and exchanged everything, for a longer one the server has exited
      and not a single payload or ack has been read. */
  lemma CompletionExact(c: Config, actions: seq<Action>, s: State)
    requires c.Formed() && Leads(c, INIT, actions, s) && !(exists a :: Can(c, s, a))
    ensures s.server.ServerDone? <==> c.length <= MAX_BUFFER_LENGTH
    ensures s.client.ClientDone? <==> c.length <= MAX_BUFFER_LENGTH || c.number <= 0
    ensures AcksRead(c, INIT, actions) == PayloadsRead(c, INIT, actions) ==
            if c.length <= MAX_BUFFER_LENGTH then c.Count() else 0
  {
    hide Leads, AcksRead, PayloadsRead, Inv;
    if c.length <= MAX_BUFFER_LENGTH {
      NoDeadlock(c, actions, s);
    } else {
      StartsInInv(c);
      RunLong(c, INIT, actions, s);
      SomeoneCanLong(c, s);
    }
  }

  // ----- actions as answers to the calls of write_n and read_n -----

  /** The number of the transfer that the client is in; -1 if it is in none any more. */
  function ClientCall(client: Client): int {
    match client
    case WriteSession(_) => 0
    case WritePayload(i, _) => 2 * i + 1
    case ReadAck(i, _) => 2 * i + 2
    case _ => -1
  }

  /** The bytes it has moved, and those it is for. */
  function ClientMoved(client: Client): nat {
    match client
    case WriteSession(w) => w
    case WritePayload(_, w) => w
    case ReadAck(_, got) => |got|
    case _ => 0
  }

  function ClientTotal(c: Config, client: Client): nat {
    match client
    case WriteSession(_) => 8
    case WritePayload(_, _) => |c.payload|
    case ReadAck(_, _) => 4
    case _ => 0
  }

  function ServerCall(server: Server): int {
    match server
    case ReadSession(_) => 0
    case ReadPayload(i, _) => 2 * i + 1
    case WriteAck(i, _) => 2 * i + 2
    case _ => -1
  }

  function ServerMoved(server: Server): nat {
    match server
    case ReadSession(got) => |got|
    case ReadPayload(_, got) => |got|
    case WriteAck(_, w) => w
    case _ => 0
  }

  function ServerTotal(s: State): int {
    match s.server
    case ReadSession(_) => 8
    case ReadPayload(_, _) => 4 + s.length
    case WriteAck(_, _) => 4
    case _ => 0
  }

  predicate NotBefore(call: int, later: int) {
    later == -1 || 0 <= call <= later
  }

  /** An action of the client is a part that its transfer moves; a complete one is left. */
  lemma ClientActionIsPart(c: Config, s: State, k: nat)
    requires c.Formed() && ClientCan(c, s, k)
    ensures var n, t := Reached(ClientMoved(s.client), ClientTotal(c, s.client), [Part(k)]), ClientStep(c, s, k);
            && NotBefore(ClientCall(s.client), ClientCall(t.client))
            && (ClientCall(t.client) == ClientCall(s.client) ==>
                  ClientMoved(t.client) == n < ClientTotal(c, s.client) == ClientTotal(c, t.client))
            && (ClientCall(t.client) != ClientCall(s.client) ==>
                  t.client.ClientFailed? || n == ClientTotal(c, s.client))
  {
    hide Decode, Encode;
  }

  lemma ServerActionIsPart(c: Config, s: State, k: nat)
    requires c.Formed() && ServerCan(c, s, k) && 0 <= ServerTotal(s)
    ensures var n, t := Reached(ServerMoved(s.server), ServerTotal(s), [Part(k)]), ServerStep(c, s, k);
            && NotBefore(ServerCall(s.server), ServerCall(t.server))
            && (ServerCall(t.server) == ServerCall(s.server) ==>
                  ServerMoved(t.server) == n < ServerTotal(s) == ServerTotal(t))
            && (ServerCall(t.server) != ServerCall(s.server) ==>
                  t.server.ServerFailed? || n == ServerTotal(s))
  {
    hide Decode, Encode;
  }

  /** The parts that one of the two has moved in a run. */
  function PartsOf(actions: seq<Action>, client: bool): seq<Answer> {
    if actions == [] then []
    else (if actions[0].ByClient? == client then [Part(actions[0].k)] else []) + PartsOf(actions[1..], client)
  }

  lemma {:induction false} CallsGrow(c: Config, s: State, actions: seq<Action>, t: State)
    requires c.Formed() && Leads(c, s, actions, t)
    ensures NotBefore(ClientCall(s.client), ClientCall(t.client))
    ensures NotBefore(ServerCall(s.server), ServerCall(t.server))
    decreases |actions|
  {
    hide ClientStep, ServerStep, ClientCan, ServerCan;
    if actions == [] {
      CallIsCounted(s);
    } else {
      ActionKeepsOrder(c, s, actions[0]);
      CallsGrow(c, Next(c, s, actions[0]), actions[1..], t);
    }
  }

  lemma CallIsCounted(s: State)
    ensures ClientCall(s.client) >= -1 && ServerCall(s.server) >= -1
  {
  }

  lemma ActionKeepsOrder(c: Config, s: State, a: Action)
    requires c.Formed() && Can(c, s, a)
    ensures NotBefore(ClientCall(s.client), ClientCall(Next(c, s, a).client))
    ensures NotBefore(ServerCall(s.server), ServerCall(Next(c, s, a).server))
  {
    hide Decode, Encode;
  }

  lemma PartThenRest(done: nat, length: nat, k: nat, rest: seq<Answer>)
    requires Reached(done, length, [Part(k)]) < length
    ensures Reached(done, length, [Part(k)] + rest) == Reached(Reached(done, length, [Part(k)]), length, rest)
  {
    assert ([Part(k)] + rest)[1..] == rest && [Part(k)][1..] == [];
  }

  /** However the actions of the two interleave, the transfer that the client is in has come
      as far as write_n or read_n comes with the parts that the client has moved. */
  lemma {:induction false} ClientCallsReach(c: Config, s: State, actions: seq<Action>, t: State)
    requires c.Formed() && Leads(c, s, actions, t) && ClientCall(s.client) == ClientCall(t.client) >= 0
    ensures ClientMoved(t.client) ==
            Reached(ClientMoved(s.client), ClientTotal(c, s.client), PartsOf(actions, true))
    decreases |actions|
  {
    hide ClientStep, ServerStep, ClientCan, ServerCan, ClientCall, ClientMoved, ClientTotal;
    if actions != [] {
      var a, s1 := actions[0], Next(c, s, actions[0]);
      CallsGrow(c, s1, actions[1..], t);
      match a {
        case ByClient(k) =>
          ClientActionIsPart(c, s, k);
          PartThenRest(ClientMoved(s.client), ClientTotal(c, s.client), k, PartsOf(actions[1..], true));
        case ByServer(k) => OtherSideStays(c, s, k);
      }
      ClientCallsReach(c, s1, actions[1..], t);
      assert !a.ByClient? ==> PartsOf(actions, true) == PartsOf(actions[1..], true);
    }
  }

  lemma {:induction false} ServerCallsReach(c: Config, s: State, actions: seq<Action>, t: State)
    requires c.Formed() && Leads(c, s, actions, t) && ServerCall(s.server) == ServerCall(t.server) >= 0
    requires 0 <= ServerTotal(s)
    ensures ServerMoved(t.server) == Reached(ServerMoved(s.server), ServerTotal(s), PartsOf(actions, false))
    decreases |actions|
  {
    hide ClientStep, ServerStep, ClientCan, ServerCan, ServerCall, ServerMoved, ServerTotal;
    if actions != [] {
      var a, s1 := actions[0], Next(c, s, actions[0]);
      CallsGrow(c, s1, actions[1..], t);
      match a {
        case ByServer(k) =>
          ServerActionIsPart(c, s, k);
          PartThenRest(ServerMoved(s.server), ServerTotal(s), k, PartsOf(actions[1..], false));
        case ByClient(k) => ClientLeavesServer(c, s, k);
      }
      ServerCallsReach(c, s1, actions[1..], t);
      assert !a.ByServer? ==> PartsOf(actions, false) == PartsOf(actions[1..], false);
    }
  }

  lemma ClientLeavesServer(c: Config, s: State, k: nat)
    requires c.Formed() && ClientCan(c, s, k)
    ensures ClientStep(c, s, k).server == s.server && ServerTotal(ClientStep(c, s, k)) == ServerTotal(s)
  {
  }
}
