/** Whole runs of the time wheel: when a timer fires. The theorems are about countdowns;
    `RunAll` performs any script on a wheel and records what it did. */
module WheelRuns {
  import opened WheelTimers

  ghost function Final<T>(m: map<T, int>, ops: seq<Op<T>>): map<T, int>
    decreases |ops|
  {
    if ops == [] then m else Final(Step(m, ops[0]), ops[1..])
  }

  ghost function CountTicks<T>(ops: seq<Op<T>>): nat {
    if ops == [] then 0 else (if ops[0].Turn? then 1 else 0) + CountTicks(ops[1..])
  }

  ghost function FiringNow<T>(m: map<T, int>, op: Op<T>, id: T, n: nat): seq<nat> {
    if Fires(m, op, id) then [n] else []
  }

  /** The ticks that fire `id`, numbered from `n`. */
  ghost function Firings<T>(m: map<T, int>, ops: seq<Op<T>>, id: T, n: nat): seq<nat>
    decreases |ops|
  {
    if ops == [] then []
    else
      FiringNow(m, ops[0], id, n) +
      Firings(Step(m, ops[0]), ops[1..], id, if ops[0].Turn? then n + 1 else n)
  }

  /** The script neither deletes `id` nor uses it for another timer. */
  ghost predicate LeavesAlone<T>(ops: seq<Op<T>>, id: T) {
    forall op :: op in ops ==> op.Turn? || op.id != id
  }

  /** An operation on other timers leaves this one's countdown alone. */
  lemma StepOnOthers<T>(m: map<T, int>, op: Op<T>, id: T)
    requires op.Turn? || op.id != id
    ensures id in Step(m, op) <==> id in m && !Fires(m, op, id)
    ensures id in Step(m, op) ==> Step(m, op)[id] == m[id] - if op.Turn? then 1 else 0
    ensures Fires(m, op, id) <==> op.Turn? && id in m && m[id] == 0
  {
  }

  /** A timer worth k ticks fires in exactly the (k+1)-th later tick, once, whatever else is
      added and deleted meanwhile; until then its countdown tells how many are left. */
  lemma {:induction false} FiresOnTime<T>(m: map<T, int>, ops: seq<Op<T>>, id: T, n: nat)
    requires LeavesAlone(ops, id) && id in m && m[id] >= 0
    ensures Firings(m, ops, id, n) == if m[id] < CountTicks(ops) then [n + m[id]] else []
    ensures id in Final(m, ops) <==> CountTicks(ops) <= m[id]
    ensures CountTicks(ops) <= m[id] ==> Final(m, ops)[id] == m[id] - CountTicks(ops)
    decreases |ops|
  {
    if ops != [] {
      hide Step, Fires;
      var m1, n1 := Step(m, ops[0]), if ops[0].Turn? then n + 1 else n;
      assert ops[0] in ops;
      StepOnOthers(m, ops[0], id);
      if id in m1 {
        FiresOnTime(m1, ops[1..], id, n1);
      } else {
        NeverFires(m1, ops[1..], id, n1);
      }
    }
  }

  lemma {:induction false} NeverFires<T>(m: map<T, int>, ops: seq<Op<T>>, id: T, n: nat)
    requires LeavesAlone(ops, id) && id !in m
    ensures Firings(m, ops, id, n) == [] && id !in Final(m, ops)
    decreases |ops|
  {
    if ops != [] {
      hide Step, Fires;
      assert ops[0] in ops;
      StepOnOthers(m, ops[0], id);
      NeverFires(Step(m, ops[0]), ops[1..], id, if ops[0].Turn? then n + 1 else n);
    }
  }

  /** Added at any moment of a run with a timeout of k whole intervals (or of less than one, with
      k = 1), a timer fires in exactly the (k+1)-th later tick: it waits at least one tick
      beyond the current one. */
  lemma {:induction false} AddedFiresOnTime<T>(
      m: map<T, int>, before: seq<Op<T>>, id: T, timeout: nat, k: nat, after: seq<Op<T>>, n: nat)
    requires LeavesAlone(before, id) && LeavesAlone(after, id) && id !in m
    requires if timeout < SI then k == 1 else k * SI <= timeout < (k + 1) * SI
    ensures Firings(m, before + [Add(id, timeout)] + after, id, n) ==
            if k < CountTicks(after) then [n + CountTicks(before) + k] else []
    decreases |before|
  {
    var all := before + [Add(id, timeout)] + after;
    if before == [] {
      assert all[0] == Add(id, timeout) && all[1..] == after;
      FiresOnTime(Step(m, all[0]), after, id, n);
    } else {
      assert before[0] in before && all[0] == before[0];
      assert all[1..] == before[1..] + [Add(id, timeout)] + after;
      AddedFiresOnTime(Step(m, before[0]), before[1..], id, timeout, k, after, if before[0].Turn? then n + 1 else n);
    }
  }

  /** A deleted timer fires only if it was due before the deletion. */
  lemma {:induction false} DeletedFiresBefore<T>(m: map<T, int>, before: seq<Op<T>>, after: seq<Op<T>>, id: T, n: nat)
    requires LeavesAlone(before, id) && LeavesAlone(after, id) && id in m && m[id] >= 0
    ensures Firings(m, before + [Del(id)] + after, id, n) == if m[id] < CountTicks(before) then [n + m[id]] else []
    decreases |before|
  {
    var all := before + [Del(id)] + after;
    if before == [] {
      assert all[0] == Del(id) && all[1..] == after;
      NeverFires(Step(m, Del(id)), after, id, n);
    } else {
      assert before[0] in before && all[0] == before[0] && all[1..] == before[1..] + [Del(id)] + after;
      var m1, n1 := Step(m, before[0]), if before[0].Turn? then n + 1 else n;
      if id in m1 {
        DeletedFiresBefore(m1, before[1..], after, id, n1);
      } else {
        GoneStaysGone(m1, before[1..], after, id, n1);
      }
    }
  }

  lemma {:induction false} GoneStaysGone<T>(m: map<T, int>, before: seq<Op<T>>, after: seq<Op<T>>, id: T, n: nat)
    requires LeavesAlone(before, id) && LeavesAlone(after, id) && id !in m
    ensures Firings(m, before + [Del(id)] + after, id, n) == []
    decreases |before|
  {
    var all := before + [Del(id)] + after;
    if before == [] {
      assert all[0] == Del(id) && all[1..] == after;
      NeverFires(Step(m, Del(id)), after, id, n);
    } else {
      assert before[0] in before && all[0] == before[0] && all[1..] == before[1..] + [Del(id)] + after;
      GoneStaysGone(Step(m, before[0]), before[1..], after, id, if before[0].Turn? then n + 1 else n);
    }
  }

  // ----- on a wheel -----

  lemma {:induction false} OneMore<T>(m: map<T, int>, ops: seq<Op<T>>, op: Op<T>)
    ensures Final(m, ops + [op]) == Step(Final(m, ops), op)
    ensures CountTicks(ops + [op]) == CountTicks(ops) + if op.Turn? then 1 else 0
    decreases |ops|
  {
    if ops == [] {
      assert [] + [op] == [op] && [op][1..] == [];
    } else {
      assert (ops + [op])[1..] == ops[1..] + [op];
      OneMore(Step(m, ops[0]), ops[1..], op);
    }
  }

  lemma Regroup(a: seq<nat>, b: seq<nat>, c: seq<nat>)
    ensures a + b + c == a + (b + c) && [] + a == a == a + []
  {
  }

  lemma {:induction false} FiringsOneMore<T>(m: map<T, int>, ops: seq<Op<T>>, op: Op<T>, id: T, n: nat)
    ensures Firings(m, ops + [op], id, n) ==
            Firings(m, ops, id, n) + FiringNow(Final(m, ops), op, id, n + CountTicks(ops))
    decreases |ops|
  {
    hide Step, FiringNow;
    if ops == [] {
      assert [] + [op] == [op] && [op][1..] == [];
      Regroup(FiringNow(m, op, id, n), [], []);
    } else {
      assert (ops + [op])[1..] == ops[1..] + [op];
      var m1, n1 := Step(m, ops[0]), if ops[0].Turn? then n + 1 else n;
      FiringsOneMore(m1, ops[1..], op, id, n1);
      Regroup(FiringNow(m, ops[0], id, n), Firings(m1, ops[1..], id, n1),
              FiringNow(Final(m1, ops[1..]), op, id, n1 + CountTicks(ops[1..])));
    }
  }

  /** All timers that a run has to do with. */
  ghost function Known<T>(m: map<T, int>, ops: seq<Op<T>>): set<T> {
    m.Keys + set op | op in ops && op.Add? :: op.id
  }

  /** The log of a run: tick after tick, exactly the timers that fire, each once. */
  ghost predicate Logged<T>(m: map<T, int>, ops: seq<Op<T>>, log: seq<seq<T>>) {
    && |log| == CountTicks(ops) && OnlyFired(m, ops, log) && AllFired(m, ops, log)
    && forall n :: 0 <= n < |log| ==> Distinct(log[n])
  }

  ghost predicate OnlyFired<T>(m: map<T, int>, ops: seq<Op<T>>, log: seq<seq<T>>) {
    forall n :: 0 <= n < |log| ==> forall t :: t in log[n] ==> n in Firings(m, ops, t, 0)
  }

  ghost predicate AllFired<T>(m: map<T, int>, ops: seq<Op<T>>, log: seq<seq<T>>) {
    forall t :: t in Known(m, ops) ==> forall n :: n in Firings(m, ops, t, 0) ==> n < |log| && t in log[n]
  }

  lemma {:induction false} UnknownNeverFires<T>(m: map<T, int>, ops: seq<Op<T>>, id: T, n: nat)
    requires id !in Known(m, ops)
    ensures Firings(m, ops, id, n) == [] && id !in Final(m, ops)
    decreases |ops|
  {
    if ops != [] {
      var m1 := Step(m, ops[0]);
      assert id !in m1 && id !in Known(m1, ops[1..]) by {
        assert ops[0] in ops && forall op :: op in ops[1..] ==> op in ops;
      }
      UnknownNeverFires(m1, ops[1..], id, if ops[0].Turn? then n + 1 else n);
    }
  }

  /** No timer is added that the run has seen before. */
  ghost predicate AddsNew<T>(m: map<T, int>, ops: seq<Op<T>>) {
    forall i :: 0 <= i < |ops| && ops[i].Add? ==> ops[i].id !in m && LeavesAlone(ops[..i], ops[i].id)
  }

  /** What a user of the wheel asks for: a new timer, to drop the k-th timer that it got, if
      that still waits, or to let the wheel turn. */
  datatype Request = Start(timeout: int) | Cancel(k: nat) | Wait

  function CountStarted(script: seq<Request>): nat {
    if script == [] then 0
    else
      var last := script[|script| - 1];
      CountStarted(script[..|script| - 1]) + if last.Start? && last.timeout >= 0 then 1 else 0
  }

  /** The operations that the script comes to if it gets the timers `started`. */
  ghost function OpsOf(m: map<TwTimer, int>, script: seq<Request>, started: seq<TwTimer>): seq<Op<TwTimer>>
    requires CountStarted(script) <= |started|
  {
    if script == [] then []
    else
      var front := script[..|script| - 1];
      var ops := OpsOf(m, front, started);
      ops + OpOf(Final(m, ops), script[|script| - 1], started, CountStarted(front))
  }

  /** The one that a request comes to when `k` timers have been got before. */
  ghost function OpOf(m: map<TwTimer, int>, r: Request, started: seq<TwTimer>, k: nat): seq<Op<TwTimer>>
    requires k <= |started| && (r.Start? && r.timeout >= 0 ==> k < |started|)
  {
    match r
    case Start(timeout) => if timeout >= 0 then [Add(started[k], timeout)] else []
    case Cancel(j) => if j < k && started[j] in m then [Del(started[j])] else []
    case Wait => [Turn]
  }

  lemma {:induction false} OpsOfPrefix(m: map<TwTimer, int>, script: seq<Request>, started: seq<TwTimer>, t: TwTimer)
    requires CountStarted(script) <= |started|
    ensures OpsOf(m, script, started + [t]) == OpsOf(m, script, started)
  {
    hide Final;
    if script != [] {
      OpsOfPrefix(m, script[..|script| - 1], started, t);
    }
  }

  /** What holds after every request. */
  ghost predicate Performed(m: map<TwTimer, int>, script: seq<Request>, started: seq<TwTimer>, now: map<TwTimer, int>,
                            ops: seq<Op<TwTimer>>, log: seq<seq<TwTimer>>) {
    && CountStarted(script) == |started| && ops == OpsOf(m, script, started)
    && now == Final(m, ops) && Logged(m, ops, log) && AddsNew(m, ops)
  }

  lemma LoggedOneMore<T>(m: map<T, int>, ops: seq<Op<T>>, log: seq<seq<T>>, op: Op<T>, fired: seq<T>)
    requires Logged(m, ops, log) && Distinct(fired)
    requires forall t :: t in fired ==> Fires(Final(m, ops), op, t)
    requires forall t :: t in Final(m, ops) && Fires(Final(m, ops), op, t) ==> t in fired
    ensures Logged(m, ops + [op], if op.Turn? then log + [fired] else log)
  {
    hide Final, Firings, Step, OnlyFired, AllFired, Distinct;
    var log' := if op.Turn? then log + [fired] else log;
    OneMore(m, ops, op);
    OnlyFiredOneMore(m, ops, log, op, fired, log');
    AllFiredOneMore(m, ops, log, op, fired, log');
  }

  lemma OnlyFiredOneMore<T>(m: map<T, int>, ops: seq<Op<T>>, log: seq<seq<T>>, op: Op<T>, fired: seq<T>,
                            log': seq<seq<T>>)
    requires |log| == CountTicks(ops) && OnlyFired(m, ops, log)
    requires forall t :: t in fired ==> Fires(Final(m, ops), op, t)
    requires log' == if op.Turn? then log + [fired] else log
    ensures OnlyFired(m, ops + [op], log')
  {
    hide Final, Firings, Step, CountTicks;
    forall n | 0 <= n < |log'|
      ensures forall t :: t in log'[n] ==> n in Firings(m, ops + [op], t, 0)
    {
      forall t | t in log'[n]
        ensures n in Firings(m, ops + [op], t, 0)
      {
        FiringsOneMore(m, ops, op, t, 0);
      }
    }
  }

  lemma AllFiredOneMore<T>(m: map<T, int>, ops: seq<Op<T>>, log: seq<seq<T>>, op: Op<T>, fired: seq<T>,
                           log': seq<seq<T>>)
    requires |log| == CountTicks(ops) && AllFired(m, ops, log)
    requires forall t :: t in Final(m, ops) && Fires(Final(m, ops), op, t) ==> t in fired
    requires log' == if op.Turn? then log + [fired] else log
    ensures AllFired(m, ops + [op], log')
  {
    hide Final, Firings, Step, CountTicks, Fires;
    forall t | t in Known(m, ops + [op])
      ensures forall n :: n in Firings(m, ops + [op], t, 0) ==> n < |log'| && t in log'[n]
    {
      FiredOneMore(m, ops, log, op, fired, log', t);
    }
  }

  lemma FiredOneMore<T>(m: map<T, int>, ops: seq<Op<T>>, log: seq<seq<T>>, op: Op<T>, fired: seq<T>,
                        log': seq<seq<T>>, t: T)
    requires |log| == CountTicks(ops) && AllFired(m, ops, log)
    requires t in Final(m, ops) && Fires(Final(m, ops), op, t) ==> t in fired
    requires log' == if op.Turn? then log + [fired] else log
    ensures forall n :: n in Firings(m, ops + [op], t, 0) ==> n < |log'| && t in log'[n]
  {
    hide Final, Firings, Step, CountTicks;
    FiringsOneMore(m, ops, op, t, 0);
    if t !in Known(m, ops) {
      UnknownNeverFires(m, ops, t, 0);
    }
  }

  lemma AddsNewOneMore<T>(m: map<T, int>, ops: seq<Op<T>>, op: Op<T>)
    requires AddsNew(m, ops) && (op.Add? ==> op.id !in m && LeavesAlone(ops, op.id))
    ensures AddsNew(m, ops + [op])
  {
    forall i | 0 <= i < |ops| + 1 && (ops + [op])[i].Add?
      ensures (ops + [op])[i].id !in m && LeavesAlone((ops + [op])[..i], (ops + [op])[i].id)
    {
      assert (ops + [op])[..i] == ops[..i];
      assert ops[..|ops|] == ops;
    }
  }

  /** One request more, that came to `op`. */
  lemma PerformedOneMore(m: map<TwTimer, int>, script: seq<Request>, started: seq<TwTimer>, now: map<TwTimer, int>,
                         ops: seq<Op<TwTimer>>, log: seq<seq<TwTimer>>,
                         r: Request, got: seq<TwTimer>, op: Op<TwTimer>, fired: seq<TwTimer>)
    requires Performed(m, script, started, now, ops, log)
    requires |got| == if r.Start? && r.timeout >= 0 then 1 else 0
    requires OpOf(now, r, started + got, |started|) == [op]
    requires op.Add? ==> op.id !in m && LeavesAlone(ops, op.id)
    requires Distinct(fired) && forall t :: t in fired ==> Fires(now, op, t)
    requires forall t :: t in now && Fires(now, op, t) ==> t in fired
    ensures Performed(m, script + [r], started + got, Step(now, op), ops + [op],
                      if op.Turn? then log + [fired] else log)
  {
    hide Final, Logged, AddsNew, Step, Fires, OpOf;
    ScriptOneMore(m, script, started, r, got);
    OneMore(m, ops, op);
    LoggedOneMore(m, ops, log, op, fired);
    AddsNewOneMore(m, ops, op);
  }

  /** One request more, that came to nothing. */
  lemma PerformedNothing(m: map<TwTimer, int>, script: seq<Request>, started: seq<TwTimer>, now: map<TwTimer, int>,
                         ops: seq<Op<TwTimer>>, log: seq<seq<TwTimer>>, r: Request)
    requires Performed(m, script, started, now, ops, log)
    requires !(r.Start? && r.timeout >= 0) && OpOf(now, r, started, |started|) == []
    ensures Performed(m, script + [r], started, now, ops, log)
  {
    hide Final, Logged, AddsNew, OpOf;
    assert started + [] == started && ops + [] == ops;
    ScriptOneMore(m, script, started, r, []);
  }

  lemma ScriptOneMore(m: map<TwTimer, int>, script: seq<Request>, started: seq<TwTimer>, r: Request, got: seq<TwTimer>)
    requires CountStarted(script) == |started| && |got| == if r.Start? && r.timeout >= 0 then 1 else 0
    ensures CountStarted(script + [r]) == |started + got|
    ensures var ops := OpsOf(m, script, started);
            OpsOf(m, script + [r], started + got) == ops + OpOf(Final(m, ops), r, started + got, |started|)
  {
    hide Final, OpOf;
    assert (script + [r])[..|script|] == script;
    if got == [] {
      assert started + got == started;
    } else {
      assert got == [got[0]];
      OpsOfPrefix(m, script, started, got[0]);
    }
  }

  /** What one request does; `waiting` are the timers on the wheel. */
  method Perform(wheel: TimeWheel, r: Request, started: seq<TwTimer>, waiting: set<TwTimer>)
      returns (got: seq<TwTimer>, fired: seq<TwTimer>, still: set<TwTimer>, ghost ops: seq<Op<TwTimer>>)
    requires wheel.Valid() && waiting == wheel.nodes
    modifies wheel, wheel.slots, wheel.nodes`prev, wheel.nodes`next, wheel.nodes`rotation
    ensures wheel.Valid() && still == wheel.nodes && fresh(still - waiting)
    ensures |got| == if r.Start? && r.timeout >= 0 then 1 else 0
    ensures fresh(set t | t in got)
    ensures ops == OpOf(old(wheel.Countdowns()), r, started + got, |started|)
    ensures ops == [] ==> wheel.Countdowns() == old(wheel.Countdowns())
    ensures ops != [] ==> Took(old(wheel.Countdowns()), ops[0], wheel.Countdowns(), fired)
  {
    hide TimeWheel.Valid, LoweredByOne;
    got, fired, still, ops := [], [], waiting, [];
    assert wheel.Countdowns().Keys == wheel.nodes;
    match r
    case Start(timeout) =>
      var t := wheel.AddTimer(timeout);
      if t != null {
        assert wheel.Countdowns().Keys == wheel.nodes;
        got, still, ops := [t], waiting + {t}, [Add(t, timeout)];
      }
    case Cancel(k) =>
      if k < |started| && started[k] in waiting {
        ghost var at := Position(wheel, started[k]);
        wheel.DelTimer(started[k], at);
        assert wheel.Countdowns().Keys == wheel.nodes;
        still, ops := waiting - {started[k]}, [Del(started[k])];
      }
    case Wait =>
      fired := wheel.Tick();
      TurnKeys(waiting, wheel, old(wheel.Countdowns()), fired);
      still, ops := waiting - (set t | t in fired), [Turn];
  }

  /** The countdowns after an operation, and the timers that fire at it. */
  ghost predicate Took(m: map<TwTimer, int>, op: Op<TwTimer>, now: map<TwTimer, int>, fired: seq<TwTimer>) {
    && now == Step(m, op) && Distinct(fired)
    && (forall t :: t in fired ==> Fires(m, op, t)) && (forall t :: t in m && Fires(m, op, t) ==> t in fired)
  }

  lemma Position(wheel: TimeWheel, t: TwTimer) returns (k: nat)
    requires wheel.Valid() && t in wheel.nodes
    ensures t.timeSlot < |wheel.lists| && k < |wheel.lists[t.timeSlot]| && wheel.lists[t.timeSlot][k] == t
  {
    assert t in wheel.lists[t.timeSlot];
    k :| 0 <= k < |wheel.lists[t.timeSlot]| && wheel.lists[t.timeSlot][k] == t;
  }

  lemma TurnKeys(waiting: set<TwTimer>, wheel: TimeWheel, before: map<TwTimer, int>, fired: seq<TwTimer>)
    requires before.Keys == waiting && wheel.Countdowns() == Step(before, Turn)
    requires forall t :: t in fired <==> Fires(before, Turn, t)
    ensures wheel.nodes == waiting - (set t | t in fired)
  {
    assert wheel.Countdowns().Keys == wheel.nodes;
  }

  /** Any script on a new wheel. What the wheel holds then are the countdowns that the
      theorems above speak of, and the log holds, tick after tick, exactly the timers that
      fire by them. */
  method RunAll(script: seq<Request>)
      returns (wheel: TimeWheel, started: seq<TwTimer>, log: seq<seq<TwTimer>>, ghost ops: seq<Op<TwTimer>>)
    ensures wheel.Valid()
    ensures Performed(map[], script, started, wheel.Countdowns(), ops, log)
  {
    hide Performed, TimeWheel.Valid;
    wheel := new TimeWheel();
    started, log, ops := [], [], [];
    var waiting: set<TwTimer> := {};
    NothingPerformed(wheel);
    for i := 0 to |script|
      invariant wheel.Valid() && waiting == wheel.nodes && fresh(wheel) && fresh(wheel.slots) && fresh(waiting)
      invariant Performed(map[], script[..i], started, wheel.Countdowns(), ops, log)
    {
      assert script[..i + 1] == script[..i] + [script[i]];
      ghost var before := wheel.Countdowns();
      var got, fired, still, took := Perform(wheel, script[i], started, waiting);
      PerformedNext(script[..i], started, before, ops, log, script[i], got, took, wheel.Countdowns(), fired);
      started, waiting := started + got, still;
      ops := ops + took;
      if script[i].Wait? {
        log := log + [fired];
      }
    }
    assert script[..|script|] == script;
  }

  lemma NothingPerformed(wheel: TimeWheel)
    requires wheel.nodes == {}
    ensures Performed(map[], [], [], wheel.Countdowns(), [], [])
  {
    assert wheel.Countdowns().Keys == {};
  }

  /** One request more, whatever it came to. */
  lemma PerformedNext(script: seq<Request>, started: seq<TwTimer>, before: map<TwTimer, int>,
                      ops: seq<Op<TwTimer>>, log: seq<seq<TwTimer>>, r: Request, got: seq<TwTimer>,
                      took: seq<Op<TwTimer>>, now: map<TwTimer, int>, fired: seq<TwTimer>)
    requires Performed(map[], script, started, before, ops, log)
    requires |got| == if r.Start? && r.timeout >= 0 then 1 else 0
    requires forall t, op :: t in got && op in ops ==> op.Turn? || op.id != t
    requires took == OpOf(before, r, started + got, |started|)
    requires if took == [] then now == before else Took(before, took[0], now, fired)
    ensures Performed(map[], script + [r], started + got, now, ops + took, if r.Wait? then log + [fired] else log)
  {
    hide Performed;
    if took == [] {
      assert got == [] && started + got == started && ops + took == ops;
      PerformedNothing(map[], script, started, before, ops, log, r);
    } else {
      assert took[0].Add? ==> took[0].id == got[0] && got[0] in got;
      PerformedOneMore(map[], script, started, before, ops, log, r, got, took[0], fired);
    }
  }

  /** On the wheel: a timer started with a timeout of k whole intervals and not cancelled runs its
      callback in exactly the (k+1)-th tick from then on, once, and in no other. */
  lemma StartedFiresOnTime(script: seq<Request>, started: seq<TwTimer>, now: map<TwTimer, int>,
                           ops: seq<Op<TwTimer>>, log: seq<seq<TwTimer>>,
                           before: seq<Op<TwTimer>>, t: TwTimer, timeout: nat, k: nat, after: seq<Op<TwTimer>>)
    requires if timeout < SI then k == 1 else k * SI <= timeout < (k + 1) * SI
    requires Performed(map[], script, started, now, ops, log)
    requires ops == before + [Add(t, timeout)] + after && Del(t) !in after
    ensures forall n :: 0 <= n < |log| ==>
              multiset(log[n])[t] == if n == CountTicks(before) + k then 1 else 0
  {
    hide Firings, OpsOf, Final;
    AddedOnce(map[], ops, before, t, timeout, after);
    AddedFiresOnTime(map[], before, t, timeout, k, after, 0);
    assert t in Known(map[], ops) by {
      assert ops[|before|] == Add(t, timeout) && ops[|before|] in ops;
    }
    TicksApart(before, Add(t, timeout), after);
    forall n | 0 <= n < |log|
      ensures multiset(log[n])[t] == if t in log[n] then 1 else 0
    {
      CountedOnce(log[n], t);
    }
  }

  lemma {:induction false} CountedOnce<T>(s: seq<T>, x: T)
    requires Distinct(s)
    ensures multiset(s)[x] == if x in s then 1 else 0
    decreases |s|
  {
    if s != [] {
      CountedOnce(s[1..], x);
      assert s == [s[0]] + s[1..];
    }
  }

  lemma AddedOnce<T>(m: map<T, int>, ops: seq<Op<T>>, before: seq<Op<T>>, t: T, timeout: nat, after: seq<Op<T>>)
    requires AddsNew(m, ops) && ops == before + [Add(t, timeout)] + after && Del(t) !in after
    ensures t !in m && LeavesAlone(before, t) && LeavesAlone(after, t)
  {
    var n := |before|;
    assert ops[n] == Add(t, timeout) && ops[..n] == before;
    forall op | op in after
      ensures op.Turn? || op.id != t
    {
      var i :| 0 <= i < |after| && after[i] == op;
      if op.Add? {
        var j := n + 1 + i;
        assert ops[j] == op && ops[..j][n] == Add(t, timeout) && ops[..j][n] in ops[..j];
      }
    }
  }

  lemma {:induction false} TicksApart<T>(before: seq<Op<T>>, op: Op<T>, after: seq<Op<T>>)
    requires !op.Turn?
    ensures CountTicks(before + [op] + after) == CountTicks(before) + CountTicks(after)
    decreases |before|
  {
    var all := before + [op] + after;
    if before == [] {
      assert all[0] == op && all[1..] == after;
    } else {
      assert all[0] == before[0] && all[1..] == before[1..] + [op] + after;
      TicksApart(before[1..], op, after);
    }
  }
}
