/** tpc/netcat-nonblock.py: the relay's back-pressure. A short write to the socket stops
    the reading of stdin until the socket has taken the rest. */
module NetcatRelay {
  import opened Bytes
  import opened Pieces
  import opened PythonText

  /** One entry of a poll result together with what the kernel answers to the calls made
      for it: bytes received or read (none at end of file), and the count a write returns,
      negative for EWOULDBLOCK. */
  datatype Event = SockEvent(pollin: bool, received: seq<Byte>, pollout: bool, nw: int)
                 | StdinEvent(pollin: bool, data: seq<Byte>, nw: int)

  /** Registrations, pending output and flags; then what has been read from stdin, accepted
      by the socket and written to stdout since the start. `failed` records a failing assert
      or an unregister of something not registered. */
  datatype Relay = Relay(
    stdinOn: bool, polloutOn: bool, pending: seq<Byte>, done: bool, shut: bool, failed: bool,
    fromStdin: seq<Byte>, accepted: seq<Byte>, toStdout: seq<Byte>)

  const START := Relay(true, false, [], false, false, false, [], [], [])

  // ----- the loop as functions -----

  function OnStdin(r: Relay, data: seq<Byte>, kernel: int): Relay
    requires -1 <= kernel <= |data|
  {
    if data == [] then r.(shut := true, stdinOn := false, failed := r.failed || !r.stdinOn)
    else if r.pending != [] then r.(failed := true)
    else
      var nw := if kernel < 0 then 0 else kernel;
      var t := r.(fromStdin := r.fromStdin + data, accepted := r.accepted + data[..nw]);
      if nw == |data| then t
      else t.(pending := data[nw..], polloutOn := true, stdinOn := false, failed := r.failed || !r.stdinOn)
  }

  function OnPollout(r: Relay, nw: int): Relay
    requires -1 <= nw <= |r.pending|
  {
    if r.pending == [] || nw <= 0 then r.(failed := true)
    else
      var t := r.(accepted := r.accepted + r.pending[..nw], pending := r.pending[nw..]);
      if nw < |r.pending| then t else t.(polloutOn := false, stdinOn := true)
  }

  /** The kernel writes no more than it is given. */
  predicate Answers(r: Relay, e: Event) {
    match e
    case SockEvent(_, _, pollout, nw) => pollout ==> -1 <= nw <= |r.pending|
    case StdinEvent(pollin, data, nw) => pollin ==> -1 <= nw <= |data|
  }

  function OnEvent(r: Relay, e: Event): Relay
    requires Answers(r, e)
  {
    match e
    case SockEvent(pollin, received, pollout, nw) =>
      var t := if !pollin then r
               else if received == [] then r.(done := true) else r.(toStdout := r.toStdout + Shown(received));
      if pollout then OnPollout(t, nw) else t
    case StdinEvent(pollin, data, nw) =>
      if pollin then OnStdin(r, data, nw) else r
  }

  predicate AnswersAll(r: Relay, batch: seq<Event>)
    decreases |batch|
  {
    batch == [] || r.failed || (Answers(r, batch[0]) && AnswersAll(OnEvent(r, batch[0]), batch[1..]))
  }

  function RunBatch(r: Relay, batch: seq<Event>): Relay
    requires AnswersAll(r, batch)
    decreases |batch|
  {
    if batch == [] || r.failed then r else RunBatch(OnEvent(r, batch[0]), batch[1..])
  }

  /** What poll may report: each descriptor once, only what is registered. */
  predicate Ready(r: Relay, batch: seq<Event>) {
    && |batch| <= 2 && (|batch| == 2 ==> batch[0].SockEvent? != batch[1].SockEvent?)
    && (forall i :: 0 <= i < |batch| ==>
          if batch[i].StdinEvent? then r.stdinOn else batch[i].pollout ==> r.polloutOn)
  }

  predicate Possible(r: Relay, polls: seq<seq<Event>>)
    decreases |polls|
  {
    polls == [] || r.done || r.failed ||
    (Ready(r, polls[0]) && AnswersAll(r, polls[0]) && Possible(RunBatch(r, polls[0]), polls[1..]))
  }

  function Run(r: Relay, polls: seq<seq<Event>>): Relay
    requires Possible(r, polls)
    decreases |polls|
  {
    if polls == [] || r.done || r.failed then r else Run(RunBatch(r, polls[0]), polls[1..])
  }

  // ----- the object -----

  class Relayer {
    var stdinOn: bool
    var polloutOn: bool
    var socketOutputBuffer: seq<Byte>
    var done: bool
    var shut: bool
    var failed: bool
    ghost var fromStdin: seq<Byte>
    ghost var accepted: seq<Byte>
    ghost var toStdout: seq<Byte>

    ghost function View(): Relay
      reads this
    {
      Relay(stdinOn, polloutOn, socketOutputBuffer, done, shut, failed, fromStdin, accepted, toStdout)
    }

    constructor ()
      ensures View() == START
    {
      stdinOn, polloutOn, socketOutputBuffer := true, false, [];
      done, shut, failed := false, false, false;
      fromStdin, accepted, toStdout := [], [], [];
    }

    method UnregisterStdin()
      modifies `stdinOn, `failed
      ensures !stdinOn && failed == (old(failed) || !old(stdinOn))
    {
      if !stdinOn {
        failed := true;
      }
      stdinOn := false;
    }

    method HandleStdin(data: seq<Byte>, kernel: int)
      requires -1 <= kernel <= |data|
      modifies this
      ensures View() == OnStdin(old(View()), data, kernel)
    {
      if data != [] {
        if |socketOutputBuffer| != 0 {
          failed := true;
          return;
        }
        fromStdin := fromStdin + data;
        var nw := kernel;
        if nw < |data| {
          if nw < 0 {
            nw := 0;
          }
          socketOutputBuffer := data[nw..];
          polloutOn := true;
          UnregisterStdin();
        }
        accepted := accepted + data[..nw];
      } else {
        shut := true;
        UnregisterStdin();
      }
    }

    method HandlePollout(nw: int)
      requires -1 <= nw <= |socketOutputBuffer|
      modifies this
      ensures View() == OnPollout(old(View()), nw)
    {
      if |socketOutputBuffer| == 0 {
        failed := true;
        return;
      }
      if nw < |socketOutputBuffer| {
        if nw <= 0 {
          failed := true;
          return;
        }
        accepted := accepted + socketOutputBuffer[..nw];
        socketOutputBuffer := socketOutputBuffer[nw..];
      } else {
        accepted := accepted + socketOutputBuffer;
        socketOutputBuffer := [];
        polloutOn := false;
        stdinOn := true;
      }
    }

    /** The body of the inner loop. */
    method Handle(e: Event)
      requires Answers(View(), e)
      modifies this
      ensures View() == OnEvent(old(View()), e)
    {
      match e {
        case SockEvent(pollin, received, pollout, nw) =>
          if pollin {
            if received != [] {
              toStdout := toStdout + Shown(received);
            } else {
              done := true;
            }
          }
          if pollout {
            HandlePollout(nw);
          }
        case StdinEvent(pollin, data, nw) =>
          if pollin {
            HandleStdin(data, nw);
          }
      }
    }

    /** As many rounds of the outer loop as poll results are given. */
    method RunAll(polls: seq<seq<Event>>)
      requires Possible(View(), polls)
      modifies this
      ensures View() == Run(old(View()), polls)
    {
      var p := 0;
      ghost var goal := Run(View(), polls);
      assert polls[0..] == polls;
      while p < |polls| && !done && !failed
        invariant p <= |polls| && Possible(View(), polls[p..]) && Run(View(), polls[p..]) == goal
        decreases |polls| - p
      {
        ghost var after := RunBatch(View(), polls[p]);
        assert polls[p..][0] == polls[p] && polls[p..][1..] == polls[p + 1..];
        var i := 0;
        assert polls[p][0..] == polls[p];
        while i < |polls[p]| && !failed
          invariant i <= |polls[p]| && AnswersAll(View(), polls[p][i..]) && RunBatch(View(), polls[p][i..]) == after
        {
          assert polls[p][i..][0] == polls[p][i] && polls[p][i..][1..] == polls[p][i + 1..];
          Handle(polls[p][i]);
          i := i + 1;
        }
        p := p + 1;
      }
    }
  }

  // ----- what every run keeps -----

  predicate Inv(r: Relay) {
    && r.accepted + r.pending == r.fromStdin
    && (r.pending != [] <==> r.polloutOn)
    && (r.polloutOn ==> !r.stdinOn)
    && (r.shut ==> !r.stdinOn && r.pending == [])
    && (!r.shut && !r.polloutOn ==> r.stdinOn)
  }

  /** A report that a batch still holds is not outdated by the entries handled before it. */
  predicate InvWithin(r: Relay, batch: seq<Event>) {
    && (!r.failed ==> Inv(r))
    && (forall i :: 0 <= i < |batch| ==>
          if batch[i].StdinEvent? then r.stdinOn else batch[i].pollout ==> r.polloutOn && |batch| == 1)
    && |batch| <= 2
    && (|batch| == 2 ==> batch[0].SockEvent? != batch[1].SockEvent?)
  }

  lemma EventKeeps(r: Relay, batch: seq<Event>)
    requires batch != [] && InvWithin(r, batch) && !r.failed && Answers(r, batch[0])
    ensures InvWithin(OnEvent(r, batch[0]), batch[1..])
    ensures OnEvent(r, batch[0]).failed <==> Refuses(batch[0])
  {
    match batch[0]
    case SockEvent(pollin, received, pollout, nw) =>
      if pollout && nw > 0 {
        assert r.accepted + r.pending[..nw] + r.pending[nw..] == r.accepted + r.pending;
      }
    case StdinEvent(pollin, data, nw) =>
      if pollin && data != [] {
        var k := if nw < 0 then 0 else nw;
        assert r.pending == [] && r.accepted == r.fromStdin;
        assert r.accepted + data[..k] + data[k..] == r.accepted + data;
      }
  }

  /** A socket reported writable that takes nothing: EWOULDBLOCK or a count of 0. */
  predicate Refuses(e: Event) {
    e.SockEvent? && e.pollout && e.nw <= 0
  }

  /** Some handled entry reported a writable socket that then took nothing. */
  predicate Refused(r: Relay, batch: seq<Event>)
    requires AnswersAll(r, batch)
    decreases |batch|
  {
    batch != [] && !r.failed && (Refuses(batch[0]) || Refused(OnEvent(r, batch[0]), batch[1..]))
  }

  predicate EverRefused(r: Relay, polls: seq<seq<Event>>)
    requires Possible(r, polls)
    decreases |polls|
  {
    polls != [] && !r.done && !r.failed &&
    (Refused(r, polls[0]) || EverRefused(RunBatch(r, polls[0]), polls[1..]))
  }

  lemma {:induction false} BatchKeeps(r: Relay, batch: seq<Event>)
    requires InvWithin(r, batch) && !r.failed && AnswersAll(r, batch)
    ensures RunBatch(r, batch).failed <==> Refused(r, batch)
    ensures !RunBatch(r, batch).failed ==> Inv(RunBatch(r, batch))
    decreases |batch|
  {
    if batch != [] {
      EventKeeps(r, batch);
      if !OnEvent(r, batch[0]).failed {
        BatchKeeps(OnEvent(r, batch[0]), batch[1..]);
      }
    }
  }

  /** Every run of the relay: a failing assert (or a stray unregister) happens exactly when
      a socket reported writable takes no byte; otherwise what the socket accepted, followed
      by the pending output, is what was read from stdin, output is pending exactly while
      POLLOUT is armed and stdin is then not read, and the sending side is shut down only
      with nothing pending. */
  lemma {:induction false} RelayKeeps(r: Relay, polls: seq<seq<Event>>)
    requires Inv(r) && !r.failed && Possible(r, polls)
    ensures Run(r, polls).failed <==> EverRefused(r, polls)
    ensures !Run(r, polls).failed ==> Inv(Run(r, polls))
    decreases |polls|
  {
    if polls != [] && !r.done {
      BatchKeeps(r, polls[0]);
      if !RunBatch(r, polls[0]).failed {
        RelayKeeps(RunBatch(r, polls[0]), polls[1..]);
      }
    }
  }

  /** From the start, as long as every writable socket takes a byte: nothing is lost or
      reordered, and a shut-down connection has taken all of stdin. */
  lemma RelayDelivers(polls: seq<seq<Event>>)
    requires Possible(START, polls) && !EverRefused(START, polls)
    ensures var r := Run(START, polls);
            && !r.failed && r.accepted + r.pending == r.fromStdin
            && (r.shut ==> r.accepted == r.fromStdin)
            && (r.pending != [] <==> r.polloutOn) && (r.stdinOn <==> !r.polloutOn && !r.shut)
  {
    RelayKeeps(START, polls);
  }

  // ----- the other direction -----

  function PieceOf(e: Event): seq<seq<Byte>> {
    if e.SockEvent? && e.pollin && e.received != [] then [e.received] else []
  }

  function BatchPieces(r: Relay, batch: seq<Event>): seq<seq<Byte>>
    requires AnswersAll(r, batch)
    decreases |batch|
  {
    if batch == [] || r.failed then [] else PieceOf(batch[0]) + BatchPieces(OnEvent(r, batch[0]), batch[1..])
  }

  /** What the handled entries received from the socket, piece by piece, up to end of file. */
  function Received(r: Relay, polls: seq<seq<Event>>): seq<seq<Byte>>
    requires Possible(r, polls)
    decreases |polls|
  {
    if polls == [] || r.done || r.failed then []
    else BatchPieces(r, polls[0]) + Received(RunBatch(r, polls[0]), polls[1..])
  }

  lemma EventPrints(r: Relay, e: Event)
    requires Answers(r, e)
    ensures OnEvent(r, e).toStdout == r.toStdout + Printed(PieceOf(e))
  {
    hide Shown;
    if PieceOf(e) == [] {
      assert r.toStdout + [] == r.toStdout;
    } else {
      assert PieceOf(e)[1..] == [] && Shown(e.received) + [] == Shown(e.received);
    }
  }

  lemma {:induction false} PrintedAppend(ps: seq<seq<Byte>>, qs: seq<seq<Byte>>)
    ensures Printed(ps + qs) == Printed(ps) + Printed(qs)
  {
    hide Shown;
    if ps == [] {
      assert [] + qs == qs && [] + Printed(qs) == Printed(qs);
    } else {
      PrintedAppend(ps[1..], qs);
      assert (ps + qs)[1..] == ps[1..] + qs;
      Regroup(Shown(ps[0]), Printed(ps[1..]), Printed(qs));
    }
  }

  lemma Regroup(a: seq<Byte>, b: seq<Byte>, c: seq<Byte>)
    ensures a + b + c == a + (b + c)
  {
  }

  lemma {:induction false} BatchPrints(r: Relay, batch: seq<Event>)
    requires AnswersAll(r, batch)
    ensures RunBatch(r, batch).toStdout == r.toStdout + Printed(BatchPieces(r, batch))
    decreases |batch|
  {
    hide OnEvent, PieceOf, Shown;
    if batch == [] || r.failed {
      assert r.toStdout + [] == r.toStdout;
    } else {
      var q := OnEvent(r, batch[0]);
      EventPrints(r, batch[0]);
      BatchPrints(q, batch[1..]);
      PrintedAppend(PieceOf(batch[0]), BatchPieces(q, batch[1..]));
      Regroup(r.toStdout, Printed(PieceOf(batch[0])), Printed(BatchPieces(q, batch[1..])));
    }
  }

  /** Whatever happens to the output, stdout shows the literal of every piece received, in order. */
  lemma {:induction false} RelayPrints(r: Relay, polls: seq<seq<Event>>)
    requires Possible(r, polls)
    ensures Run(r, polls).toStdout == r.toStdout + Printed(Received(r, polls))
    decreases |polls|
  {
    hide RunBatch, BatchPieces, Shown;
    if polls == [] || r.done || r.failed {
      assert r.toStdout + [] == r.toStdout;
    } else {
      var q := RunBatch(r, polls[0]);
      BatchPrints(r, polls[0]);
      RelayPrints(q, polls[1..]);
      PrintedAppend(BatchPieces(r, polls[0]), Received(q, polls[1..]));
      Regroup(r.toStdout, Printed(BatchPieces(r, polls[0])), Printed(Received(q, polls[1..])));
    }
  }

  /** A relay should forward what it receives. This one writes `str(data)`, so stdout holds the
      received bytes if and only if nothing has been received. It does determine every piece
      that was received. */
  lemma ForwardedExact(polls: seq<seq<Event>>)
    requires Possible(START, polls)
    ensures Run(START, polls).toStdout == Concat(Received(START, polls)) <==> Received(START, polls) == []
    ensures forall qs :: Run(START, polls).toStdout == Printed(qs) ==> qs == Received(START, polls)
  {
    hide Shown, Run, Received;
    var ps := Received(START, polls);
    RelayPrints(START, polls);
    assert [] + Printed(ps) == Printed(ps);
    PrintedLonger(ps);
    forall qs | Printed(ps) == Printed(qs)
      ensures qs == ps
    {
      PrintedReadBack(ps, qs);
    }
  }

  // ----- what is handled, read off the poll results alone -----

  /** What an entry stands for: bytes read from stdin, the count that the socket took of what it
      was given, pieces received, and whether the socket or stdin has come to its end. */
  datatype Account = Account(read: seq<Byte>, taken: nat, pieces: seq<seq<Byte>>, closed: bool, ended: bool) {
    function Then(next: Account): Account {
      Account(read + next.read, taken + next.taken, pieces + next.pieces, closed || next.closed, ended || next.ended)
    }
  }

  const NOTHING := Account([], 0, [], false, false)

  function Count(nw: int): nat {
    if nw < 0 then 0 else nw
  }

  function AccountOf(e: Event): Account {
    match e
    case SockEvent(pollin, received, pollout, nw) =>
      Account([], if pollout then Count(nw) else 0, PieceOf(e), pollin && received == [], false)
    case StdinEvent(pollin, data, nw) =>
      if pollin then Account(data, Count(nw), [], false, data == []) else NOTHING
  }

  function Sum(es: seq<Event>): Account {
    if es == [] then NOTHING else AccountOf(es[0]).Then(Sum(es[1..]))
  }

  /** The entries that the loops handle unless an assert fails: all of them, up to the end of
      the poll result that reports the end of the connection. */
  function Handled(polls: seq<seq<Event>>): seq<Event> {
    if polls == [] then [] else polls[0] + if Sum(polls[0]).closed then [] else Handled(polls[1..])
  }

  /** From `r` to `t` exactly this has happened. */
  ghost predicate Balanced(r: Relay, a: Account, t: Relay) {
    && t.fromStdin == r.fromStdin + a.read && |t.accepted| == |r.accepted| + a.taken
    && t.toStdout == r.toStdout + Printed(a.pieces)
    && (t.done <==> r.done || a.closed) && (t.shut <==> r.shut || a.ended)
  }

  lemma BalancedThen(r: Relay, a: Account, s: Relay, b: Account, t: Relay)
    requires Balanced(r, a, s) && Balanced(s, b, t)
    ensures Balanced(r, a.Then(b), t)
  {
    hide Printed;
    PrintedAppend(a.pieces, b.pieces);
    Regroup(r.fromStdin, a.read, b.read);
    Regroup(r.toStdout, Printed(a.pieces), Printed(b.pieces));
  }

  lemma NothingBalanced(r: Relay)
    ensures Balanced(r, NOTHING, r)
  {
  }

  lemma EventBalanced(r: Relay, batch: seq<Event>)
    requires batch != [] && InvWithin(r, batch) && !r.failed && Answers(r, batch[0]) && !Refuses(batch[0])
    ensures Balanced(r, AccountOf(batch[0]), OnEvent(r, batch[0]))
  {
    hide Shown, Printed;
    EventPrints(r, batch[0]);
    match batch[0]
    case SockEvent(_, _, _, _) => assert r.fromStdin + [] == r.fromStdin;
    case StdinEvent(_, data, _) => assert r.fromStdin + [] == r.fromStdin;
  }

  lemma {:induction false} SumAppend(a: seq<Event>, b: seq<Event>)
    ensures Sum(a + b) == Sum(a).Then(Sum(b))
  {
    hide AccountOf;
    if a == [] {
      assert a + b == b;
      ThenRegroup(NOTHING, Sum(b), NOTHING);
    } else {
      assert (a + b)[1..] == a[1..] + b;
      SumAppend(a[1..], b);
      ThenRegroup(AccountOf(a[0]), Sum(a[1..]), Sum(b));
    }
  }

  lemma ThenRegroup(a: Account, b: Account, c: Account)
    ensures a.Then(b).Then(c) == a.Then(b.Then(c)) && NOTHING.Then(b) == b == b.Then(NOTHING)
  {
    Regroup(a.read, b.read, c.read);
    assert a.pieces + b.pieces + c.pieces == a.pieces + (b.pieces + c.pieces);
  }

  lemma {:induction false} BatchBalanced(r: Relay, batch: seq<Event>)
    requires InvWithin(r, batch) && !r.failed && AnswersAll(r, batch) && forall e :: e in batch ==> !Refuses(e)
    ensures Balanced(r, Sum(batch), RunBatch(r, batch))
    ensures !RunBatch(r, batch).failed && Inv(RunBatch(r, batch)) && !Refused(r, batch)
    decreases |batch|
  {
    hide Balanced, AccountOf, OnEvent, Inv, Refuses;
    if batch == [] {
      NothingBalanced(r);
    } else {
      assert batch[0] in batch;
      var t := OnEvent(r, batch[0]);
      EventBalanced(r, batch);
      EventKeeps(r, batch);
      BatchBalanced(t, batch[1..]);
      BalancedThen(r, AccountOf(batch[0]), t, Sum(batch[1..]), RunBatch(r, batch));
    }
  }

  lemma {:induction false} BatchRefused(r: Relay, batch: seq<Event>)
    requires InvWithin(r, batch) && !r.failed && AnswersAll(r, batch) && exists e :: e in batch && Refuses(e)
    ensures Refused(r, batch)
    decreases |batch|
  {
    hide OnEvent, Inv, Refuses;
    if !Refuses(batch[0]) {
      var e :| e in batch && Refuses(e);
      assert e in batch[1..];
      EventKeeps(r, batch);
      BatchRefused(OnEvent(r, batch[0]), batch[1..]);
    }
  }

  lemma {:induction false} RunBalanced(r: Relay, polls: seq<seq<Event>>)
    requires Inv(r) && !r.failed && !r.done && Possible(r, polls)
    ensures EverRefused(r, polls) <==> exists e :: e in Handled(polls) && Refuses(e)
    ensures !EverRefused(r, polls) ==> Balanced(r, Sum(Handled(polls)), Run(r, polls))
    decreases |polls|
  {
    hide Balanced, Inv, Refuses, RunBatch, Refused, AnswersAll;
    if polls == [] {
      NothingBalanced(r);
    } else if exists e :: e in polls[0] && Refuses(e) {
      ReadyWithin(r, polls[0]);
      BatchRefused(r, polls[0]);
      var e :| e in polls[0] && Refuses(e);
      assert e in Handled(polls);
    } else {
      var t := RunBatch(r, polls[0]);
      ReadyWithin(r, polls[0]);
      BatchBalanced(r, polls[0]);
      BalancedIs(r, Sum(polls[0]), t);
      if t.done {
        assert polls[0] + [] == polls[0] && Handled(polls) == polls[0];
        assert Run(r, polls) == t;
      } else {
        RunBalanced(t, polls[1..]);
        SumAppend(polls[0], Handled(polls[1..]));
        if !EverRefused(t, polls[1..]) {
          BalancedThen(r, Sum(polls[0]), t, Sum(Handled(polls[1..])), Run(t, polls[1..]));
        }
      }
    }
  }

  lemma ReadyWithin(r: Relay, batch: seq<Event>)
    requires Inv(r) && Ready(r, batch)
    ensures InvWithin(r, batch)
  {
  }

  lemma BalancedIs(r: Relay, a: Account, t: Relay)
    requires Balanced(r, a, t)
    ensures t.done <==> r.done || a.closed
  {
  }

  /** The whole relay, from its poll results alone. It fails if and only if a handled entry
      reports a writable socket that takes nothing. Otherwise everything read from stdin is what
      the socket has accepted, whose length is the sum of the counts it answered, followed by the
      pending output; stdout shows every piece received; the relay ends if and only if the
      connection has, and has shut it down for sending if and only if stdin has ended, with
      nothing pending; and output is pending exactly while POLLOUT is armed and stdin is not read. */
  lemma RelayExact(polls: seq<seq<Event>>)
    requires Possible(START, polls)
    ensures var r, a := Run(START, polls), Sum(Handled(polls));
            && (r.failed <==> exists e :: e in Handled(polls) && Refuses(e))
            && (!r.failed ==>
                  && r.accepted + r.pending == a.read && |r.accepted| == a.taken
                  && r.toStdout == Printed(a.pieces) && (r.done <==> a.closed) && (r.shut <==> a.ended)
                  && (r.shut ==> r.pending == [])
                  && (r.pending != [] <==> r.polloutOn) && (r.stdinOn <==> !r.polloutOn && !r.shut))
  {
    hide Handled, Sum, Run, Printed, Possible, EverRefused, Refuses;
    RunBalanced(START, polls);
    RelayKeeps(START, polls);
    var a := Sum(Handled(polls));
    assert [] + a.read == a.read && [] + Printed(a.pieces) == Printed(a.pieces);
  }

  /** One received byte, the letter a, becomes four: b'a'. */
  lemma LetterQuoted(polls: seq<seq<Event>>)
    requires polls == [[SockEvent(true, [97], false, 0)]]
    ensures Possible(START, polls) && Run(START, polls).toStdout == [98, 39, 97, 39]
  {
    var e := SockEvent(true, [97], false, 0);
    var q := OnEvent(START, e);
    assert polls[0] == [e] && polls[1..] == [] && [e][0] == e && [e][1..] == [];
    assert AnswersAll(START, [e]);
    assert RunBatch(START, [e]) == RunBatch(q, [e][1..]) == q;
    assert Run(START, polls) == Run(q, polls[1..]) == q;
    LetterShown();
  }

  lemma LetterShown()
    ensures Shown([97]) == [98, 39, 97, 39]
  {
    var data: seq<Byte> := [97];
    assert data[1..] == [];
    assert Body(data, QUOTE) == Escaped(97, QUOTE) + Body(data[1..], QUOTE) == [97];
  }
}
