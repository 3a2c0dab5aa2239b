/** half_sync_half_async.h: the parent of the process pool hands out connections round
    robin while children exit. */
module ProcessPools {
  import opened Pieces

  const MAX_PROCESS_NUMBER := 16

  const DEAD: int := -1

  // ----- the pool as a value -----

  datatype Pool = Pool(pids: seq<int>, counter: nat, stop: bool) {
    predicate Valid() { counter < |pids| }
    predicate Live(i: nat) { i < |pids| && pids[i] != DEAD }
  }

  /** The child `d` places behind `from` round the circle. */
  function Next(from: nat, d: nat, n: nat): (i: nat)
    requires from < n && d < n
    ensures i < n
  {
    if from + d < n then from + d else from + d - n
  }

  lemma Successor(i: nat, n: nat)
    requires i < n
    ensures (i + 1) % n == if i + 1 < n then i + 1 else 0
  {
  }

  /** How far child `i` is from being asked. */
  function Distance(p: Pool, i: nat): (d: nat)
    requires p.Valid() && i < |p.pids|
    ensures d < |p.pids| && Next(p.counter, d, |p.pids|) == i
  {
    if p.counter <= i then i - p.counter else i + |p.pids| - p.counter
  }

  /** The live child nearest behind the counter. */
  ghost predicate Nearest(p: Pool, i: nat)
    requires p.Valid()
  {
    p.Live(i) && forall j :: 0 <= j < |p.pids| && p.Live(j) ==> Distance(p, i) <= Distance(p, j)
  }

  predicate AllDead(p: Pool) {
    forall i :: 0 <= i < |p.pids| ==> p.pids[i] == DEAD
  }

  function FirstLive(p: Pool, d: nat): (r: Option<nat>)
    requires p.Valid() && d <= |p.pids|
    ensures r.Some? ==> p.Live(r.value) && d <= Distance(p, r.value)
    ensures forall j :: 0 <= j < |p.pids| && p.Live(j) && d <= Distance(p, j) ==>
                        r.Some? && Distance(p, r.value) <= Distance(p, j)
    decreases |p.pids| - d
  {
    if d == |p.pids| then None
    else
      var i := Next(p.counter, d, |p.pids|);
      assert Distance(p, i) == d;
      if p.pids[i] != DEAD then Some(i)
      else
        assert forall j :: 0 <= j < |p.pids| && Distance(p, j) == d ==> j == i;
        FirstLive(p, d + 1)
  }

  function OnConnection(p: Pool): (Pool, Option<nat>)
    requires p.Valid()
  {
    match FirstLive(p, 0)
    case None => (p.(stop := true), None)
    case Some(i) => (p.(counter := if i + 1 < |p.pids| then i + 1 else 0), Some(i))
  }

  function Without(pids: seq<int>, reaped: seq<int>): (s: seq<int>)
    ensures |s| == |pids|
  {
    seq(|pids|, i requires 0 <= i < |pids| => if pids[i] in reaped then DEAD else pids[i])
  }

  function OnExit(p: Pool, reaped: seq<int>): Pool {
    var q := p.(pids := Without(p.pids, reaped));
    q.(stop := AllDead(q))
  }

  // ----- the object -----

  class ProcessPool {
    const processNumber: nat
    /** m_pid of each child; DEAD once it has been waited for. */
    const pids: array<int>
    var stop: bool
    var subProcessCounter: nat

    ghost predicate Valid()
      reads this, pids
    {
      && 0 < processNumber <= MAX_PROCESS_NUMBER && pids.Length == processNumber
      && subProcessCounter < processNumber
    }

    ghost function View(): Pool
      reads this, pids
      requires Valid()
    {
      Pool(pids[..], subProcessCounter, stop)
    }

    constructor (children: seq<int>)
      requires 0 < |children| <= MAX_PROCESS_NUMBER
      ensures Valid() && View() == Pool(children, 0, false)
    {
      processNumber := |children|;
      pids := new int[|children|](i requires 0 <= i < |children| => children[i]);
      stop, subProcessCounter := false, 0;
    }

    /** A new connection: the child it is sent to, or none when the parent stops. */
    method Dispatch() returns (chosen: Option<nat>)
      requires Valid()
      modifies this
      ensures Valid() && (View(), chosen) == OnConnection(old(View()))
    {
      var i := Search();
      if pids[i] == DEAD {
        stop := true;
        return None;
      }
      Successor(i, processNumber);
      subProcessCounter := (i + 1) % processNumber;
      return Some(i);
    }

    /** The do-while search. */
    method Search() returns (i: nat)
      requires Valid()
      ensures i < processNumber
      ensures FirstLive(View(), 0) == if pids[i] != DEAD then Some(i) else None
    {
      i := subProcessCounter;
      ghost var steps := 0;
      while true
        invariant 0 <= steps < processNumber && i == Next(subProcessCounter, steps, processNumber)
        invariant forall d :: 0 <= d < steps ==> pids[Next(subProcessCounter, d, processNumber)] == DEAD
        decreases processNumber - steps
      {
        if pids[i] != DEAD {
          break;
        }
        Successor(i, processNumber);
        i := (i + 1) % processNumber;
        steps := steps + 1;
        if i == subProcessCounter {
          break;
        }
      }
      assert View().pids[i] == pids[i];
      SearchResult(View(), i, steps);
    }

    /** SIGCHLD: every exited child that waitpid reports is marked, then the parent stops
        exactly when none is left. */
    method ChildrenExited(reaped: seq<int>)
      requires Valid()
      modifies this, pids
      ensures Valid() && View() == OnExit(old(View()), reaped)
    {
      for r := 0 to |reaped|
        invariant pids[..] == Without(old(pids[..]), reaped[..r])
        invariant subProcessCounter == old(subProcessCounter)
      {
        ghost var before := pids[..];
        assert reaped[..r + 1] == reaped[..r] + [reaped[r]];
        for i := 0 to processNumber
          invariant forall j :: 0 <= j < i ==> pids[j] == if before[j] == reaped[r] then DEAD else before[j]
          invariant forall j :: i <= j < processNumber ==> pids[j] == before[j]
          invariant subProcessCounter == old(subProcessCounter)
        {
          if pids[i] == reaped[r] {
            pids[i] := DEAD;
          }
        }
      }
      assert reaped[..|reaped|] == reaped;
      stop := true;
      for i := 0 to processNumber
        invariant pids[..] == Without(old(pids[..]), reaped) && subProcessCounter == old(subProcessCounter)
        invariant stop <==> forall j :: 0 <= j < i ==> pids[j] == DEAD
      {
        if pids[i] != DEAD {
          stop := false;
        }
      }
    }
  }

  // ----- one connection -----

  /** The search loop stops at the nearest live child, or back at the start when all are dead. */
  lemma SearchResult(p: Pool, i: nat, steps: nat)
    requires p.Valid() && i < |p.pids| && steps <= |p.pids|
    requires forall d :: 0 <= d < steps ==> p.pids[Next(p.counter, d, |p.pids|)] == DEAD
    requires if steps < |p.pids| then i == Next(p.counter, steps, |p.pids|) && p.pids[i] != DEAD else p.pids[i] == DEAD
    ensures FirstLive(p, 0) == if p.pids[i] != DEAD then Some(i) else None
  {
    var n := |p.pids|;
    forall j | 0 <= j < n && p.Live(j)
      ensures steps <= Distance(p, j)
    {
      assert p.pids[Next(p.counter, Distance(p, j), n)] != DEAD;
    }
    if steps < n {
      assert Distance(p, i) == steps;
      var r := FirstLive(p, 0).value;
      assert Next(p.counter, Distance(p, r), n) == r;
    }
  }

  /** Stopping and choosing: the parent stops on a connection exactly when all children are
      dead, and otherwise takes the live child nearest behind the last one. */
  lemma ConnectionChoice(p: Pool)
    requires p.Valid()
    ensures var (q, chosen) := OnConnection(p);
            (chosen.None? <==> AllDead(p)) && (chosen.Some? ==> Nearest(p, chosen.value)) &&
            q.pids == p.pids && q.Valid() && q.stop == (p.stop || chosen.None?)
  {
    if !AllDead(p) {
      var i :| 0 <= i < |p.pids| && p.pids[i] != DEAD;
      assert p.Live(i) && 0 <= Distance(p, i);
    }
  }

  // ----- runs -----

  datatype Event = Connection | Exit(reaped: seq<int>)

  function OnEvent(p: Pool, e: Event): (r: (Pool, Option<nat>))
    requires p.Valid()
    ensures r.0.Valid() && |r.0.pids| == |p.pids|
  {
    match e
    case Connection => OnConnection(p)
    case Exit(reaped) => (OnExit(p, reaped), None)
  }

  /** The children chosen, in order. */
  function Choices(p: Pool, events: seq<Event>): seq<nat>
    requires p.Valid()
    decreases |events|
  {
    if events == [] then []
    else
      var (q, chosen) := OnEvent(p, events[0]);
      (if chosen.Some? then [chosen.value] else []) + Choices(q, events[1..])
  }

  function After(p: Pool, events: seq<Event>): (q: Pool)
    requires p.Valid()
    ensures q.Valid() && |q.pids| == |p.pids|
    decreases |events|
  {
    if events == [] then p else After(OnEvent(p, events[0]).0, events[1..])
  }

  function Connections(events: seq<Event>): nat {
    if events == [] then 0 else (if events[0].Connection? then 1 else 0) + Connections(events[1..])
  }

  /** The dead stay dead. */
  lemma {:induction false} StaysDead(p: Pool, events: seq<Event>, i: nat)
    requires p.Valid() && i < |p.pids| && After(p, events).Live(i)
    ensures p.Live(i)
    decreases |events|
  {
    if events != [] {
      StaysDead(OnEvent(p, events[0]).0, events[1..], i);
      ConnectionChoice(p);
    }
  }

  /** The pids that waitpid has reported in all. */
  function Reaped(events: seq<Event>): seq<int> {
    if events == [] then []
    else (if events[0].Exit? then events[0].reaped else []) + Reaped(events[1..])
  }

  /** Over every run exactly those children are dead that were dead or have been reaped; the
      others keep their pids. */
  lemma {:induction false} LiveExactly(p: Pool, events: seq<Event>, i: nat)
    requires p.Valid() && i < |p.pids|
    ensures After(p, events).Live(i) <==> p.Live(i) && p.pids[i] !in Reaped(events)
    ensures After(p, events).Live(i) ==> After(p, events).pids[i] == p.pids[i]
    decreases |events|
  {
    if events != [] {
      ConnectionChoice(p);
      LiveExactly(OnEvent(p, events[0]).0, events[1..], i);
    }
  }

  lemma {:induction false} DeadNotChosen(p: Pool, events: seq<Event>, i: nat)
    requires p.Valid() && i < |p.pids| && !p.Live(i)
    ensures i !in Choices(p, events)
    decreases |events|
  {
    if events != [] {
      ConnectionChoice(p);
      DeadNotChosen(OnEvent(p, events[0]).0, events[1..], i);
    }
  }

  /** A child that has been reaped gets no further connection. */
  lemma ReapedNotChosen(p: Pool, before: seq<Event>, after: seq<Event>, i: nat)
    requires p.Valid() && i < |p.pids| && p.pids[i] in Reaped(before)
    ensures i !in Choices(After(p, before), after)
  {
    LiveExactly(p, before, i);
    DeadNotChosen(After(p, before), after, i);
  }

  /** One event in the life of a live child: it is chosen and goes to the end of the line,
      another one nearer to its turn is chosen and it moves up, or nothing changes for it. */
  lemma EventEffect(p: Pool, e: Event, i: nat)
    requires p.Valid() && p.Live(i)
    ensures var (q, chosen) := OnEvent(p, e);
            if e.Exit? then chosen.None? && Distance(q, i) == Distance(p, i)
            else
              && chosen.Some?
              && if chosen.value == i then Distance(q, i) == |p.pids| - 1
                 else && Distance(p, chosen.value) < Distance(p, i)
                      && Distance(q, i) == Distance(p, i) - Distance(p, chosen.value) - 1
  {
    ConnectionChoice(p);
    if e.Connection? {
      var c := OnConnection(p).1.value;
      assert Distance(p, c) == Distance(p, i) ==> c == i;
    }
  }

  /** No starvation: a child that stays live is chosen within as many connections as there
      are children, whatever exits in between and wherever the counter stands. */
  lemma {:induction false} NoStarvation(p: Pool, events: seq<Event>, i: nat)
    requires p.Valid() && i < |p.pids| && After(p, events).Live(i) && |p.pids| <= Connections(events)
    ensures i in Choices(p, events)
  {
    ChosenWithin(p, events, i);
  }

  lemma {:induction false} ChosenWithin(p: Pool, events: seq<Event>, i: nat)
    requires p.Valid() && i < |p.pids| && After(p, events).Live(i) && Distance(p, i) < Connections(events)
    ensures i in Choices(p, events)
    decreases |events|
  {
    var (q, chosen) := OnEvent(p, events[0]);
    StaysDead(p, events, i);
    EventEffect(p, events[0], i);
    if chosen != Some(i) {
      ChosenWithin(q, events[1..], i);
    }
  }

  function Times(i: nat, choices: seq<nat>): nat {
    if choices == [] then 0 else (if choices[0] == i then 1 else 0) + Times(i, choices[1..])
  }

  /** Fair turns: between two successive connections of child `c`, every other child that
      stays live throughout gets exactly one. (`events` runs from just behind the first
      connection of `c` up to and including the second.) */
  lemma FairTurns(before: Pool, events: seq<Event>, c: nat, i: nat)
    requires before.Valid() && OnConnection(before).1 == Some(c)
    requires var p := OnConnection(before).0;
             && events != [] && c !in Choices(p, events[..|events| - 1])
             && OnEvent(After(p, events[..|events| - 1]), events[|events| - 1]).1 == Some(c)
             && i < |p.pids| && i != c && After(p, events).Live(i) && After(p, events).Live(c)
    ensures Times(i, Choices(OnConnection(before).0, events)) == 1
  {
    var p := OnConnection(before).0;
    ConnectionChoice(before);
    assert Distance(p, c) == |p.pids| - 1;
    assert Distance(p, i) == |p.pids| - 1 ==> i == c;
    OneTurn(p, events, c, i);
  }

  lemma {:induction false} OneTurn(p: Pool, events: seq<Event>, c: nat, i: nat)
    requires p.Valid() && events != []
    requires var front, last := events[..|events| - 1], events[|events| - 1];
             c !in Choices(p, front) && OnEvent(After(p, front), last).1 == Some(c)
    requires c < |p.pids| && i < |p.pids| && i != c && After(p, events).Live(i) && After(p, events).Live(c)
    ensures Times(i, Choices(p, events)) == if Distance(p, i) < Distance(p, c) then 1 else 0
    decreases |events|
  {
    StaysDead(p, events, i);
    StaysDead(p, events, c);
    EventEffect(p, events[0], i);
    EventEffect(p, events[0], c);
    var (q, chosen) := OnEvent(p, events[0]);
    assert Distance(p, i) == Distance(p, c) ==> i == c;
    if |events| == 1 {
      assert events[..0] == [];
      assert Choices(q, events[1..]) == [];
      assert Choices(p, events) == [c];
    } else {
      assert events[1..][..|events[1..]| - 1] == events[..|events| - 1][1..];
      OneTurn(q, events[1..], c, i);
      assert Choices(p, events) == (if chosen.Some? then [chosen.value] else []) + Choices(q, events[1..]);
      assert chosen.Some? ==> Choices(p, events)[1..] == Choices(q, events[1..]);
      assert chosen.None? ==> Choices(p, events) == Choices(q, events[1..]);
    }
  }

  /** The parent has stopped exactly when the last event found no child alive. */
  lemma {:induction false} StopsWhenAllDead(p: Pool, events: seq<Event>)
    requires p.Valid() && (p.stop ==> AllDead(p))
    ensures After(p, events).stop ==> AllDead(After(p, events))
    ensures events != [] && AllDead(After(p, events)) ==> After(p, events).stop
    decreases |events|
  {
    if events != [] {
      var q := OnEvent(p, events[0]).0;
      ConnectionChoice(p);
      StopsWhenAllDead(q, events[1..]);
    }
  }
}
