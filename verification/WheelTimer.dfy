/** wheel_timer.h: a wheel of N slots, each a doubly linked list of timers that count the
    turns of the wheel they have still to wait. */
module WheelTimers {
  import opened TimerValues

  const N: nat := 60

  const SI: nat := 1

  class TwTimer {
    var rotation: int
    const timeSlot: nat
    var next: TwTimer?
    var prev: TwTimer?

    constructor (rot: int, ts: nat)
      ensures rotation == rot && timeSlot == ts && next == null && prev == null
    {
      rotation, timeSlot, next, prev := rot, ts, null, null;
    }
  }

  /** `l` is linked both ways from `head`, whose `prev` is null, to a null, and holds no timer twice. */
  ghost predicate Chain(head: TwTimer?, l: seq<TwTimer>)
    reads l`next, l`prev
  {
    && head == (if l == [] then null else l[0])
    && (forall i {:trigger l[i].next} :: 0 <= i < |l| - 1 ==> l[i].next == l[i + 1])
    && (forall i {:trigger l[i].prev} :: 0 < i < |l| ==> l[i].prev == l[i - 1])
    && (l != [] ==> l[0].prev == null && l[|l| - 1].next == null)
    && (forall i, j :: 0 <= i < j < |l| ==> l[i] != l[j])
  }

  /** Ticks of the wheel that pass before the timer is due. */
  function Remaining(rotation: int, ts: nat, cur: nat): int {
    rotation * N + if cur <= ts then ts - cur else ts + N - cur
  }

  /** What is done to a wheel; `id` is a timer. */
  datatype Op<T> = Add(id: T, timeout: nat) | Del(id: T) | Turn

  /** A tick of the countdowns: the zeros are out, the others one lower. */
  function LoweredByOne<T>(m: map<T, int>): map<T, int> {
    map t | t in m && m[t] != 0 :: m[t] - 1
  }

  /** What that does to the countdowns. */
  ghost function Step<T>(m: map<T, int>, op: Op<T>): map<T, int> {
    match op
    case Add(id, timeout) => m[id := TimeWheel.Ticks(timeout)]
    case Del(id) => m - {id}
    case Turn => LoweredByOne(m)
  }

  /** It runs the callback of `id`. */
  ghost predicate Fires<T>(m: map<T, int>, op: Op<T>, id: T) {
    op.Turn? && id in m && m[id] == 0
  }

  ghost predicate Disjoint(nodes: set<TwTimer>, lists: seq<seq<TwTimer>>) {
    && (forall s :: 0 <= s < |lists| ==> forall t :: t in lists[s] ==> t in nodes && t.timeSlot == s)
    && (forall t :: t in nodes ==> t.timeSlot < |lists| && t in lists[t.timeSlot])
  }

  lemma DisjointAdd(nodes: set<TwTimer>, lists: seq<seq<TwTimer>>, t: TwTimer)
    requires Disjoint(nodes, lists) && t.timeSlot < |lists|
    ensures Disjoint(nodes + {t}, lists[t.timeSlot := [t] + lists[t.timeSlot]])
  {
  }

  ghost predicate Distinct<T>(s: seq<T>) {
    forall i, j :: 0 <= i < j < |s| ==> s[i] != s[j]
  }

  /** Each of `all` has either fired or is still there, and nothing else is. */
  ghost predicate Partition(all: set<TwTimer>, nodes: set<TwTimer>, fired: seq<TwTimer>) {
    && (forall t :: t in all ==> t in nodes || t in fired)
    && (forall t :: t in nodes ==> t in all && t !in fired)
  }

  /** Halfway through a slot with timers `l`: the first `k` of them have been counted down,
      `fired` are out, and all others are as they were when `r` was taken. */
  ghost predicate Counted(nodes: set<TwTimer>, l: seq<TwTimer>, cur: nat, r: map<TwTimer, int>, k: nat,
                          fired: seq<TwTimer>)
    reads nodes`rotation
  {
    && k <= |l| && Distinct(fired) && Partition(r.Keys, nodes, fired)
    && (forall t :: t in fired ==> t in r && t.timeSlot == cur && r[t] == 0)
    && (forall j :: 0 <= j < k ==> l[j] in r && r[l[j]] > 0)
    && (forall t :: t in nodes ==> r[t] >= 0 && t.rotation == if t in l[..k] then r[t] - 1 else r[t])
  }

  class TimeWheel {
    const slots: array<TwTimer?>
    var curSlot: nat
    ghost var lists: seq<seq<TwTimer>>
    ghost var nodes: set<TwTimer>

    /** Each slot heads its own list, and the lists together hold `nodes`. */
    ghost predicate Shaped()
      reads `lists, `nodes, slots, nodes`next, nodes`prev
    {
      && slots.Length == N == |lists| && Disjoint(nodes, lists)
      && forall s :: 0 <= s < N ==> Chain(slots[s], lists[s])
    }

    ghost predicate Valid()
      reads this, slots, nodes
    {
      Shaped() && curSlot < N && forall t :: t in nodes ==> t.rotation >= 0
    }

    /** The wheel as a value: how many ticks each timer has still to wait. */
    ghost function Countdowns(): (m: map<TwTimer, int>)
      reads this, nodes
    {
      map t | t in nodes :: Remaining(t.rotation, t.timeSlot, curSlot)
    }

    constructor ()
      ensures Valid() && nodes == {} && fresh(slots)
    {
      slots := new TwTimer?[N](_ => null);
      curSlot := 0;
      lists := seq(N, _ => []);
      nodes := {};
    }

    /** The number of ticks a timeout stands for: rounded down, but at least one. */
    static function Ticks(timeout: nat): (k: nat)
      ensures k > 0
      ensures if timeout < SI then k == 1 else k * SI <= timeout < (k + 1) * SI
    {
      if timeout < SI then 1 else timeout / SI
    }

    /** Puts a new timer in front of the list of the slot it will be due in. */
    method AddTimer(timeout: int) returns (timer: TwTimer?)
      requires Valid()
      modifies this, slots, nodes`prev
      ensures Valid() && curSlot == old(curSlot)
      ensures timer == null <==> timeout < 0
      ensures timer == null ==> Countdowns() == old(Countdowns())
      ensures timer != null ==> fresh(timer) && Countdowns() == Step(old(Countdowns()), Add(timer, timeout))
      ensures timer != null ==>
                timer in Countdowns() && Countdowns() - {timer} == old(Countdowns()) &&
                var k := Countdowns()[timer];
                if timeout < SI then k == 1 else k * SI <= timeout < (k + 1) * SI
      ensures timer != null ==>
                timer.timeSlot < N && lists == old(lists)[timer.timeSlot := [timer] + old(lists)[timer.timeSlot]]
    {
      hide Chain, Disjoint, Remaining;
      if timeout < 0 {
        return null;
      }
      var rotation, ts := TurnsAndSlot(timeout);
      timer := Insert(rotation, ts);
    }

    method TurnsAndSlot(timeout: nat) returns (rotation: nat, ts: nat)
      requires curSlot < N
      ensures ts < N && Remaining(rotation, ts, curSlot) == Ticks(timeout)
    {
      var ticks := 0;
      if timeout < SI {
        ticks := 1;
      } else {
        ticks := timeout / SI;
      }
      rotation := ticks / N;
      ts := (curSlot + (ticks % N)) % N;
      RemainingOfNew(ticks, curSlot);
    }

    method Insert(rotation: nat, ts: nat) returns (timer: TwTimer)
      requires Valid() && ts < N
      modifies this, slots, nodes`prev
      ensures Valid() && curSlot == old(curSlot)
      ensures fresh(timer) && timer.timeSlot == ts
      ensures lists == old(lists)[ts := [timer] + old(lists)[ts]]
      ensures Countdowns() == old(Countdowns())[timer := Remaining(rotation, ts, curSlot)]
    {
      hide Chain, Disjoint;
      ghost var before := Countdowns();
      timer := new TwTimer(rotation, ts);
      assert timer !in nodes;
      PutInFront(timer);
      CountdownsGrow(before, timer);
    }

    lemma CountdownsGrow(before: map<TwTimer, int>, timer: TwTimer)
      requires nodes == before.Keys + {timer} && timer !in before
      requires forall t :: t in before ==> before[t] == Remaining(t.rotation, t.timeSlot, curSlot)
      ensures Countdowns() == before[timer := Remaining(timer.rotation, timer.timeSlot, curSlot)]
    {
    }

    method PutInFront(timer: TwTimer)
      requires Valid() && timer !in nodes && timer.timeSlot < N && timer.rotation >= 0
      requires timer.prev == null && timer.next == null
      modifies this, slots, nodes`prev, timer`next
      ensures Valid() && curSlot == old(curSlot)
      ensures nodes == old(nodes) + {timer}
      ensures lists == old(lists)[timer.timeSlot := [timer] + old(lists)[timer.timeSlot]]
    {
      hide Chain;
      ghost var ts := timer.timeSlot;
      LinkInFront(timer);
      DisjointAdd(nodes, lists, timer);
      lists := lists[ts := [timer] + lists[ts]];
      nodes := nodes + {timer};
    }

    /** Relinks slot `ts` only. */
    method LinkInFront(timer: TwTimer)
      requires Valid() && timer !in nodes && timer.timeSlot < N && timer.prev == null && timer.next == null
      modifies slots, lists[timer.timeSlot]`prev, timer`next
      ensures Chain(slots[timer.timeSlot], [timer] + lists[timer.timeSlot])
      ensures ChainsBut(timer.timeSlot)
    {
      hide Chain;
      ghost var ts := timer.timeSlot;
      OtherSlots(nodes, lists, ts);
      LinkHead(slots, timer.timeSlot, timer, lists[ts]);
      forall s | 0 <= s < N && s != ts
        ensures Chain(slots[s], lists[s])
      {
        assert old(Chain(slots[s], lists[s]));
      }
    }

    ghost predicate ChainsBut(ts: nat)
      reads this, slots, nodes
    {
      && slots.Length == N == |lists| && Disjoint(nodes, lists)
      && forall s :: 0 <= s < N && s != ts ==> Chain(slots[s], lists[s])
    }

    method DelTimer(timer: TwTimer?, ghost k: nat)
      requires Valid()
      requires timer != null ==> timer in nodes && k < |lists[timer.timeSlot]| && lists[timer.timeSlot][k] == timer
      modifies this, slots, nodes`prev, nodes`next
      ensures Valid() && curSlot == old(curSlot)
      ensures Countdowns() == if timer == null then old(Countdowns()) else Step(old(Countdowns()), Del(timer))
    {
      hide Chain, Disjoint, Remaining, RemoveAt;
      if timer == null {
        return;
      }
      OwnList(timer);
      Remove(timer, k);
    }

    lemma OwnList(timer: TwTimer)
      requires Shaped() && timer in nodes
      ensures timer.timeSlot < N
      ensures forall t :: t in lists[timer.timeSlot] ==> t in nodes
      ensures forall i, j :: 0 <= i < j < |lists[timer.timeSlot]| ==>
                lists[timer.timeSlot][i] != lists[timer.timeSlot][j]
    {
      assert Chain(slots[timer.timeSlot], lists[timer.timeSlot]);
    }

    ghost function Rotations(): map<TwTimer, int>
      reads `nodes, nodes`rotation
    {
      map t | t in nodes :: t.rotation
    }

    /** Runs the callbacks of exactly the timers whose countdown is zero, each once, and
        removes them; every other countdown drops by one. */
    method Tick() returns (fired: seq<TwTimer>)
      requires Valid()
      modifies this, slots, nodes`prev, nodes`next, nodes`rotation
      ensures Valid() && curSlot == (old(curSlot) + 1) % N
      ensures Distinct(fired)
      ensures forall t :: t in fired <==> Fires(old(Countdowns()), Turn, t)
      ensures Countdowns() == Step(old(Countdowns()), Turn)
    {
      ghost var before, r, cur := Countdowns(), Rotations(), curSlot;
      fired := VisitAndAdvance(before, r);
      CountdownsDrop(before, r, cur, fired);
    }

    method VisitAndAdvance(ghost before: map<TwTimer, int>, ghost r: map<TwTimer, int>) returns (fired: seq<TwTimer>)
      requires Valid() && before == Countdowns() && r == Rotations()
      modifies `lists, `nodes, `curSlot, slots, nodes`prev, nodes`next, nodes`rotation
      ensures Valid() && Ticked(before, r, old(curSlot), fired) && curSlot == (old(curSlot) + 1) % N
    {
      fired := VisitCurrent(before, r);
      Advance();
    }

    method Advance()
      requires Valid()
      modifies `curSlot
      ensures Valid() && curSlot == (old(curSlot) + 1) % N
    {
      curSlot := (curSlot + 1) % N;
    }

    /** The rotations now, against countdowns and rotations before the visit to slot `cur`. */
    ghost predicate Ticked(before: map<TwTimer, int>, r: map<TwTimer, int>, cur: nat, fired: seq<TwTimer>)
      reads `nodes, nodes`rotation
    {
      && cur < N && before.Keys == r.Keys && Distinct(fired) && Partition(before.Keys, nodes, fired)
      && (forall t :: t in before ==>
            r[t] >= 0 && t.timeSlot < N && before[t] == Remaining(r[t], t.timeSlot, cur))
      && (forall t :: t in before ==> (t in fired <==> t.timeSlot == cur && r[t] == 0))
      && (forall t :: t in fired ==> t in before)
      && (forall t :: t in nodes ==> t.rotation == if t.timeSlot == cur then r[t] - 1 else r[t])
    }

    method VisitCurrent(ghost before: map<TwTimer, int>, ghost r: map<TwTimer, int>) returns (fired: seq<TwTimer>)
      requires Valid() && before == Countdowns() && r == Rotations()
      modifies `lists, `nodes, slots, nodes`prev, nodes`next, nodes`rotation
      ensures Valid() && Ticked(before, r, curSlot, fired)
    {
      SlotsBounded();
      fired := VisitSlot();
      SlotDone(r, fired);
    }

    lemma SlotsBounded()
      requires Valid()
      ensures forall t :: t in Rotations() ==>
                Rotations()[t] >= 0 && t.timeSlot < N &&
                Countdowns()[t] == Remaining(Rotations()[t], t.timeSlot, curSlot)
    {
    }

    lemma SlotDone(r: map<TwTimer, int>, fired: seq<TwTimer>)
      requires Shaped() && curSlot < N
      requires Counted(nodes, lists[curSlot], curSlot, r, |lists[curSlot]|, fired)
      ensures forall t :: t in nodes ==>
                t.timeSlot < N && t.rotation == (if t.timeSlot == curSlot then r[t] - 1 else r[t]) && t.rotation >= 0
      ensures forall t :: t in r && t.timeSlot == curSlot && r[t] <= 0 ==> t in fired
    {
      var l := lists[curSlot];
      assert l[..|l|] == l;
      forall t | t in nodes
        ensures t.timeSlot == curSlot <==> t in l
        ensures t in l ==> r[t] > 0
      {
        if t in l {
          var j :| 0 <= j < |l| && l[j] == t;
        }
      }
    }

    lemma CountdownsDrop(before: map<TwTimer, int>, r: map<TwTimer, int>, cur: nat, fired: seq<TwTimer>)
      requires Ticked(before, r, cur, fired) && curSlot == (cur + 1) % N
      ensures Countdowns() == LoweredByOne(before)
      ensures forall t :: t in fired <==> t in before && before[t] == 0
    {
      forall t | t in before
        ensures t in fired <==> before[t] == 0
        ensures t in nodes <==> before[t] != 0
        ensures t in nodes ==> Remaining(t.rotation, t.timeSlot, curSlot) == before[t] - 1
      {
        RemainingAfterTick(r[t], t.timeSlot, cur);
      }
    }

    /** The loop over the current slot's list. */
    method VisitSlot() returns (fired: seq<TwTimer>)
      requires Valid()
      modifies `lists, `nodes, slots, nodes`prev, nodes`next, nodes`rotation
      ensures Shaped()
      ensures Counted(nodes, lists[curSlot], curSlot, old(Rotations()), |lists[curSlot]|, fired)
    {
      hide Chain, Disjoint, Counted, RemoveAt;
      fired := [];
      ghost var r, k := Rotations(), 0;
      var tmp := slots[curSlot];
      NothingCounted();
      while tmp != null
        invariant Between(r, k, fired, tmp) && nodes <= old(nodes)
        decreases |lists[curSlot]| - k
      {
        var ran: seq<TwTimer>;
        ran, tmp, k := VisitOne(tmp, r, k, fired);
        fired := fired + ran;
      }
    }

    lemma NothingCounted()
      requires Valid()
      ensures Counted(nodes, lists[curSlot], curSlot, Rotations(), 0, [])
      ensures slots[curSlot] == if lists[curSlot] == [] then null else lists[curSlot][0]
    {
      assert Chain(slots[curSlot], lists[curSlot]);
    }

    /** Between two rounds of that loop. */
    ghost predicate Between(r: map<TwTimer, int>, k: nat, fired: seq<TwTimer>, tmp: TwTimer?)
      reads `lists, `nodes, `curSlot, slots, nodes
    {
      && Shaped() && curSlot < N && k <= |lists[curSlot]|
      && Counted(nodes, lists[curSlot], curSlot, r, k, fired)
      && tmp == if k < |lists[curSlot]| then lists[curSlot][k] else null
    }

    /** A timer with turns left loses one; any other runs and is removed. */
    method VisitOne(timer: TwTimer, ghost r: map<TwTimer, int>, ghost k: nat, ghost fired: seq<TwTimer>)
        returns (ran: seq<TwTimer>, next: TwTimer?, ghost k': nat)
      requires Between(r, k, fired, timer)
      modifies `lists, `nodes, slots, nodes`prev, nodes`next, nodes`rotation
      ensures Between(r, k', fired + ran, next) && nodes <= old(nodes)
      ensures curSlot < |lists| && curSlot < |old(lists)| && |lists[curSlot]| - k' < |old(lists[curSlot])| - k
    {
      hide Chain, Disjoint, Counted;
      OwnSlot(k);
      next := timer.next;
      if timer.rotation > 0 {
        CountDown(timer, lists[curSlot], r, k, fired);
        ran, k' := [], k + 1;
        assert fired + [] == fired;
      } else {
        Fire(timer, r, k, fired);
        ran, k' := [timer], k;
      }
    }

    method CountDown(tmp: TwTimer, ghost l: seq<TwTimer>, ghost r: map<TwTimer, int>, ghost k: nat,
                     ghost fired: seq<TwTimer>)
      requires Counted(nodes, l, curSlot, r, k, fired) && k < |l| && tmp == l[k]
      requires tmp in nodes && tmp !in l[..k] && tmp.rotation > 0
      modifies tmp`rotation
      ensures Counted(nodes, l, curSlot, r, k + 1, fired)
    {
      assert l[..k + 1] == l[..k] + [tmp];
      tmp.rotation := tmp.rotation - 1;
    }

    lemma OwnSlot(k: nat)
      requires Shaped() && curSlot < N && k < |lists[curSlot]|
      ensures var l := lists[curSlot];
              && l[k] in nodes && l[k].timeSlot == curSlot && l[k] !in l[..k]
              && l[k].next == if k + 1 < |l| then l[k + 1] else null
    {
      var l := lists[curSlot];
      assert Chain(slots[curSlot], l) && l[k] in l;
    }

    method Fire(tmp: TwTimer, ghost r: map<TwTimer, int>, ghost k: nat, ghost fired: seq<TwTimer>)
      requires Shaped() && curSlot < N && k < |lists[curSlot]| && tmp == lists[curSlot][k] && tmp.rotation <= 0
      requires Counted(nodes, lists[curSlot], curSlot, r, k, fired)
      modifies `lists, `nodes, slots, nodes`prev, nodes`next
      ensures Shaped() && Counted(nodes, lists[curSlot], curSlot, r, k, fired + [tmp])
      ensures nodes == old(nodes) - {tmp} && lists[curSlot] == RemoveAt(old(lists[curSlot]), k)
    {
      hide Chain, Disjoint, Counted, RemoveAt;
      OwnSlot(k);
      FireCounted(nodes, lists[curSlot], curSlot, r, k, fired);
      OwnList(tmp);
      Remove(tmp, k);
    }

    /** Takes element `k` of its slot's list out of that list. */
    method Remove(timer: TwTimer, ghost k: nat)
      requires Shaped() && timer.timeSlot < N && k < |lists[timer.timeSlot]| && lists[timer.timeSlot][k] == timer
      modifies this`lists, this`nodes, slots, lists[timer.timeSlot]`prev, lists[timer.timeSlot]`next
      ensures Shaped() && nodes == old(nodes) - {timer}
      ensures timer.next == old(timer.next)
      ensures lists == old(lists)[timer.timeSlot := RemoveAt(old(lists[timer.timeSlot]), k)]
    {
      hide Chain, RemoveAt;
      ghost var ts := timer.timeSlot;
      assert lists[ts][k] in lists[ts];
      OwnList(timer);
      UnlinkFrom(timer, k);
      DisjointRemove(nodes, lists, ts, k);
      lists := lists[ts := RemoveAt(lists[ts], k)];
      nodes := nodes - {timer};
    }

    /** Relinks the slot's list around the timer. */
    method UnlinkFrom(timer: TwTimer, ghost k: nat)
      requires Shaped() && timer.timeSlot < N && k < |lists[timer.timeSlot]| && lists[timer.timeSlot][k] == timer
      modifies slots, lists[timer.timeSlot]`prev, lists[timer.timeSlot]`next
      ensures Chain(slots[timer.timeSlot], RemoveAt(lists[timer.timeSlot], k)) && timer.next == old(timer.next)
      ensures ChainsBut(timer.timeSlot)
    {
      hide Chain, RemoveAt;
      ghost var ts := timer.timeSlot;
      OtherSlots(nodes, lists, ts);
      UnlinkNode(slots, timer.timeSlot, timer, lists[ts], k);
      forall s | 0 <= s < N && s != ts
        ensures Chain(slots[s], lists[s])
      {
        assert old(Chain(slots[s], lists[s]));
      }
    }
  }

  /** The pointer changes of add_timer. */
  method LinkHead(slots: array<TwTimer?>, ts: nat, timer: TwTimer, ghost l: seq<TwTimer>)
    requires ts < slots.Length && Chain(slots[ts], l) && timer !in l && timer.prev == null && timer.next == null
    modifies slots, l`prev, timer`next
    ensures Chain(slots[ts], [timer] + l)
    ensures forall s :: 0 <= s < slots.Length && s != ts ==> slots[s] == old(slots[s])
  {
    if slots[ts] == null {
      slots[ts] := timer;
    } else {
      timer.next := slots[ts];
      slots[ts].prev := timer;
      slots[ts] := timer;
    }
  }

  /** The pointer changes of del_timer, which tick makes too. */
  method UnlinkNode(slots: array<TwTimer?>, ts: nat, timer: TwTimer, ghost l: seq<TwTimer>, ghost k: nat)
    requires ts < slots.Length && Chain(slots[ts], l) && k < |l| && l[k] == timer
    modifies slots, l`prev, l`next
    ensures Chain(slots[ts], RemoveAt(l, k)) && timer.next == old(timer.next)
    ensures forall s :: 0 <= s < slots.Length && s != ts ==> slots[s] == old(slots[s])
  {
    assert (k + 1 < |l| ==> timer.next == l[k + 1]) && (k > 0 ==> timer.prev == l[k - 1]);
    if timer == slots[ts] {
      slots[ts] := slots[ts].next;
      if slots[ts] != null {
        slots[ts].prev := null;
      }
    } else {
      timer.prev.next := timer.next;
      if timer.next != null {
        timer.next.prev := timer.prev;
      }
    }
  }

  lemma FireCounted(nodes: set<TwTimer>, l: seq<TwTimer>, cur: nat, r: map<TwTimer, int>, k: nat, fired: seq<TwTimer>)
    requires Counted(nodes, l, cur, r, k, fired) && k < |l|
    requires l[k] in nodes && l[k].timeSlot == cur && l[k] !in l[..k] && l[k].rotation <= 0
    ensures Counted(nodes - {l[k]}, RemoveAt(l, k), cur, r, k, fired + [l[k]])
  {
    assert RemoveAt(l, k)[..k] == l[..k];
    assert forall j :: 0 <= j < k ==> RemoveAt(l, k)[j] == l[j];
  }

  /** One tick of the wheel on rotation and slot is one tick of the countdown. */
  lemma RemainingAfterTick(rotation: nat, ts: nat, cur: nat)
    requires ts < N && cur < N
    ensures Remaining(rotation, ts, cur) == 0 <==> ts == cur && rotation == 0
    ensures Remaining(rotation, ts, cur) > 0 ==>
              Remaining(if ts == cur then rotation - 1 else rotation, ts, (cur + 1) % N)
              == Remaining(rotation, ts, cur) - 1
  {
  }

  lemma DisjointRemove(nodes: set<TwTimer>, lists: seq<seq<TwTimer>>, ts: nat, k: nat)
    requires Disjoint(nodes, lists) && ts < |lists| && k < |lists[ts]|
    requires forall i, j :: 0 <= i < j < |lists[ts]| ==> lists[ts][i] != lists[ts][j]
    ensures Disjoint(nodes - {lists[ts][k]}, lists[ts := RemoveAt(lists[ts], k)])
  {
    var l, t := lists[ts], lists[ts][k];
    forall u
      ensures u in RemoveAt(l, k) <==> u in l && u != t
    {
      if u in l && u != t {
        var i :| 0 <= i < |l| && l[i] == u;
        assert RemoveAt(l, k)[if i < k then i else i - 1] == u;
      }
    }
    assert t in l && t.timeSlot == ts;
  }

  /** The lists of two slots share no timer. */
  lemma OtherSlots(nodes: set<TwTimer>, lists: seq<seq<TwTimer>>, ts: nat)
    requires Disjoint(nodes, lists) && ts < |lists|
    ensures forall s, i :: 0 <= s < |lists| && s != ts && 0 <= i < |lists[s]| ==>
              lists[s][i] in nodes && lists[s][i] !in lists[ts]
  {
    forall s, i | 0 <= s < |lists| && s != ts && 0 <= i < |lists[s]|
      ensures lists[s][i] in nodes && lists[s][i] !in lists[ts]
    {
      assert lists[s][i] in lists[s];
    }
  }

  /** Rotation and slot encode the number of ticks, from any position of the wheel. */
  lemma RemainingOfNew(ticks: nat, cur: nat)
    requires cur < N
    ensures var ts := (cur + (ticks % N)) % N;
            ts < N && Remaining(ticks / N, ts, cur) == ticks
  {
  }
}
