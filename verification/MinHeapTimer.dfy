/** min_heap_timer.h: timers in a binary heap; deleting one only clears its callback. */
module MinHeapTimers {
  import opened HeapOrder
  import opened TimerValues

  function EntryOf(t: HeapTimer): Entry {
    Entry(t.id, t.expire)
  }

  /** The heap as a value. */
  function HeapEntries(s: Cells): (h: seq<HeapEntry>)
    requires NonNull(s)
    reads set i | 0 <= i < |s| :: s[i]
    ensures |h| == |s| && forall i :: 0 <= i < |s| ==> h[i] == HeapEntry(EntryOf(s[i]), s[i].cbFunc)
  {
    seq(|s|, i requires 0 <= i < |s| && s[i] != null reads set j | 0 <= j < |s| :: s[j] =>
      HeapEntry(EntryOf(s[i]), s[i].cbFunc))
  }

  ghost predicate InExpiryOrder(s: Cells)
    requires NonNull(s)
  {
    forall i, j :: 0 <= i < j < |s| ==> s[i].expire <= s[j].expire
  }

  function WithCallback(s: Cells): Cells
    requires NonNull(s)
    reads set i | 0 <= i < |s| :: s[i]
  {
    if s == [] then [] else
    var last := |s| - 1;
    WithCallback(s[..last]) + if s[last].cbFunc then [s[last]] else []
  }

  /** The removed are due, in order, and none expires behind what is left. */
  ghost predicate TakenOff(all: Cells, popped: Cells, rest: Cells, now: int) {
    && multiset(popped) + multiset(rest) == multiset(all)
    && NonNull(popped) && InExpiryOrder(popped)
    && (forall t :: t in popped ==> t.expire <= now)
    && (forall t, u :: t in popped && u in rest ==> u != null && t.expire <= u.expire)
  }

  ghost predicate RootRemoved(before: Cells, after: Cells) {
    && before != [] && |after| == |before| - 1
    && multiset(after) + multiset{before[0]} == multiset(before)
    && NonNull(after) && OrderedFrom(after, 0)
  }

  class TimeHeap {
    var cells: array<HeapTimer?>
    var capacity: int
    var curSize: nat

    ghost predicate Valid()
      reads this, cells
    {
      && capacity == cells.Length && curSize <= capacity
      && NonNull(Timers()) && OrderedFrom(Timers(), 0)
    }

    /** The part of the array in use. What lies behind it is stale. */
    ghost function Timers(): Cells
      reads this, cells
    {
      if curSize <= cells.Length then cells[..curSize] else []
    }

    constructor (cap: nat)
      ensures Valid() && fresh(cells) && capacity == cap && Timers() == []
    {
      cells := new HeapTimer?[cap](_ => null);
      capacity, curSize := cap, 0;
    }

    /** The second constructor: throws (here: null) exactly when the capacity is too small,
        and otherwise makes a heap of exactly the given timers, in whatever order they come. */
    static method Build(init: Cells, capacity: nat) returns (heap: TimeHeap?)
      requires NonNull(init)
      ensures heap == null <==> capacity < |init|
      ensures heap != null ==>
                fresh(heap) && fresh(heap.cells) && heap.Valid() && heap.capacity == capacity &&
                multiset(heap.Timers()) == multiset(init)
    {
      if capacity < |init| {
        return null;
      }
      heap := new TimeHeap(capacity);
      heap.curSize := |init|;
      forall i | 0 <= i < |init| {
        heap.cells[i] := init[i];
      }
      assert heap.Timers() == init;
      if |init| != 0 {
        heap.Heapify();
      }
    }

    /** Sifts down from the middle to the root. */
    method Heapify()
      requires capacity == cells.Length && 0 < curSize <= capacity && NonNull(Timers())
      modifies cells
      ensures Valid() && multiset(Timers()) == old(multiset(Timers()))
    {
      var i := (curSize - 1) / 2;
      LeavesOrdered(Timers(), i + 1);
      while i >= 0
        invariant -1 <= i < curSize
        invariant NonNull(Timers()) && OrderedFrom(Timers(), i + 1)
        invariant multiset(Timers()) == old(multiset(Timers()))
      {
        SiftDownPermutes(Timers(), i);
        SiftDownOrders(Timers(), i, i);
        PercolateDown(i);
        i := i - 1;
      }
    }

    /** False exactly for a timer on a heap of capacity 0: doubling makes no room there, and the
        original goes on to write past the end of its array. */
    method AddTimer(timer: HeapTimer?) returns (fits: bool)
      requires Valid()
      modifies this, cells
      ensures fits <==> timer == null || 0 < old(capacity)
      ensures Valid() && (cells == old(cells) || fresh(cells))
      ensures timer == null || !fits ==> Timers() == old(Timers())
      ensures timer != null && fits ==> multiset(Timers()) == old(multiset(Timers())) + multiset{timer}
      ensures capacity == if timer != null && old(curSize) == old(capacity) then 2 * old(capacity) else old(capacity)
    {
      if timer == null {
        return true;
      }
      if curSize >= capacity {
        Resize();
      }
      if curSize >= capacity {
        return false;
      }
      Insert(timer);
      return true;
    }

    method Insert(timer: HeapTimer)
      requires Valid() && curSize < capacity
      modifies this, cells
      ensures Valid() && cells == old(cells) && capacity == old(capacity)
      ensures multiset(Timers()) == old(multiset(Timers())) + multiset{timer}
    {
      ghost var before := Timers();
      InsertedHeap(before, timer);
      curSize := curSize + 1;
      assert cells[..curSize][curSize - 1 := timer] == before + [timer];
      PercolateUp(timer);
    }

    /** The loop of add_timer: a hole moves up from the end until the timer fits into it. */
    method PercolateUp(timer: HeapTimer)
      requires 0 < curSize <= cells.Length && NonNull(cells[..curSize][curSize - 1 := timer])
      modifies cells
      ensures NonNull(old(cells[..curSize])[curSize - 1 := timer])
      ensures Timers() == SiftUp(old(cells[..curSize])[curSize - 1 := timer], curSize - 1)
    {
      var hole := curSize - 1;
      ghost var goal := SiftUp(cells[..curSize][hole := timer], hole);
      while hole > 0
        invariant 0 <= hole < curSize
        invariant NonNull(cells[..curSize][hole := timer])
        invariant SiftUp(cells[..curSize][hole := timer], hole) == goal
        decreases hole
      {
        ghost var a := cells[..curSize];
        var parent := (hole - 1) / 2;
        UpStep(a, hole, timer);
        assert a[parent] == cells[parent];
        if cells[parent].expire <= timer.expire {
          break;
        }
        cells[hole] := cells[parent];
        assert cells[..curSize] == a[hole := a[parent]];
        hole := parent;
      }
      ghost var a := cells[..curSize];
      cells[hole] := timer;
      assert cells[..curSize] == a[hole := timer];
    }

    /** Doubles the room. */
    method Resize()
      requires capacity == cells.Length && curSize <= capacity
      modifies this
      ensures fresh(cells) && capacity == 2 * old(capacity) == cells.Length
      ensures curSize == old(curSize) && Timers() == old(Timers())
    {
      var temp := new HeapTimer?[2 * capacity](_ => null);
      capacity := 2 * capacity;
      forall i | 0 <= i < curSize {
        temp[i] := cells[i];
      }
      assert temp[..curSize] == cells[..curSize];
      cells := temp;
    }

    /** Lazy deletion: the timer keeps its place, cell `k`, and loses its callback. */
    method DelTimer(timer: HeapTimer?, ghost k: nat)
      requires Valid()
      requires timer != null ==> k < |Timers()| && Timers()[k] == timer
      requires timer != null ==> forall i :: 0 <= i < |Timers()| && i != k ==> Timers()[i] != timer
      modifies timer
      ensures Valid() && Timers() == old(Timers())
      ensures HeapEntries(Timers()) ==
              if timer == null then old(HeapEntries(Timers()))
              else old(HeapEntries(Timers()))[k := HeapEntry(EntryOf(timer), false)]
    {
      if timer == null {
        return;
      }
      timer.cbFunc := false;
    }

    function Top(): (t: HeapTimer?)
      requires Valid()
      reads this, cells
      ensures t == null <==> Timers() == []
      ensures t != null ==> t in Timers() && forall u :: u in Timers() ==> t.expire <= u.expire
    {
      RootFirst(Timers());
      if curSize == 0 then null else
        assert cells[0] == Timers()[0];
        cells[0]
    }

    /** Removes exactly the root. (Without an element left, the sift would write back what it reads.) */
    method PopTimer()
      requires Valid()
      modifies this, cells
      ensures Valid() && cells == old(cells) && capacity == old(capacity)
      ensures if old(curSize) == 0 then Timers() == [] else RootRemoved(old(Timers()), Timers())
    {
      hide OrderedFrom, SiftDown;
      if curSize == 0 {
        return;
      }
      ghost var before := Timers();
      PoppedHeap(before);
      LastToRoot();
      if curSize != 0 {
        PercolateDown(0);
      }
    }

    /** The last timer takes the place of the root, or nothing is left. */
    method LastToRoot()
      requires 0 < curSize <= cells.Length && NonNull(Timers())
      modifies this`curSize, cells
      ensures curSize == old(curSize) - 1
      ensures Timers() == if curSize == 0 then [] else old(Timers())[..curSize][0 := old(Timers())[curSize]]
    {
      ghost var before := Timers();
      curSize := curSize - 1;
      cells[0] := cells[curSize];
      if curSize == 0 {
        assert Timers() == [];
      } else {
        assert Timers() == before[..curSize][0 := before[curSize]];
      }
    }

    /** Sifts the element at `hole` down. */
    method PercolateDown(hole: nat)
      requires hole < curSize <= cells.Length && NonNull(Timers())
      modifies cells
      ensures NonNull(old(Timers())) && Timers() == SiftDown(old(Timers()), hole)
    {
      var temp := cells[hole];
      var h := hole;
      ghost var goal := SiftDown(Timers(), hole);
      assert Timers()[hole := temp] == Timers();
      while 2 * h + 1 <= curSize - 1
        invariant h < curSize && temp != null && NonNull(Timers()[h := temp])
        invariant SiftDown(Timers()[h := temp], h) == goal
        decreases curSize - h
      {
        ghost var a := Timers();
        var child := ChooseChild(h, temp);
        DownStep(a, h, child, temp);
        if !(cells[child].expire < temp.expire) {
          break;
        }
        cells[h] := cells[child];
        assert Timers() == a[h := a[child]];
        h := child;
      }
      ghost var a := Timers();
      cells[h] := temp;
      assert Timers() == a[h := temp];
    }

    /** The child that expires first, while `temp` is what belongs into the hole. */
    method ChooseChild(h: nat, ghost temp: HeapTimer) returns (child: nat)
      requires 2 * h + 1 < curSize <= cells.Length && NonNull(Timers()[h := temp])
      ensures child == SmallerChild(Timers()[h := temp], h) && cells[child] == Timers()[child] != null
    {
      child := 2 * h + 1;
      ghost var now := Timers()[h := temp];
      assert cells[child] == now[child] && (child + 1 < curSize ==> cells[child + 1] == now[child + 1]);
      if child < curSize - 1 && cells[child + 1].expire < cells[child].expire {
        child := child + 1;
      }
    }

    /** Runs, in this order, the callbacks of exactly the due timers that still have one.
        `popped` are the timers removed: all that are due, in nondecreasing expiry order. With
        capacity 0 the original reads past the end of its array, and uses nothing of it. */
    method Tick(now: int) returns (fired: Cells, ghost popped: Cells)
      requires Valid()
      modifies this, cells
      ensures Valid() && cells == old(cells) && capacity == old(capacity)
      ensures NonNull(popped) && multiset(popped) + multiset(Timers()) == old(multiset(Timers()))
      ensures forall t :: t in popped ==> t.expire <= now
      ensures forall t :: t in Timers() ==> t.expire > now
      ensures InExpiryOrder(popped)
      ensures fired == WithCallback(popped)
    {
      hide OrderedFrom, TakenOff, WithCallback;
      fired, popped := [], [];
      var tmp: HeapTimer? := null;
      if 0 < capacity {
        tmp := cells[0];
      }
      ghost var all := Timers();
      NothingTakenOff(all, now);
      while curSize != 0
        invariant Valid() && cells == old(cells) && capacity == old(capacity)
        invariant 0 < capacity ==> tmp == cells[0]
        invariant NonNull(popped) && TakenOff(all, popped, Timers(), now) && fired == WithCallback(popped)
        decreases curSize
      {
        assert cells[0] == Timers()[0];
        if tmp.expire > now {
          RootFirst(Timers());
          break;
        }
        var ran := RunRoot(all, popped, now);
        fired, popped := fired + ran, popped + [tmp];
        tmp := cells[0];
      }
      TakenOffIs(all, popped, Timers(), now);
    }

    /** Runs the root's callback if it has one, and pops it. */
    method RunRoot(ghost all: Cells, ghost popped: Cells, ghost now: int) returns (ran: Cells)
      requires Valid() && curSize > 0 && TakenOff(all, popped, Timers(), now) && cells[0].expire <= now
      modifies this, cells
      ensures Valid() && cells == old(cells) && capacity == old(capacity) && curSize == old(curSize) - 1
      ensures TakenOff(all, popped + [old(cells[0])], Timers(), now)
      ensures NonNull(popped) && NonNull(popped + [old(cells[0])])
      ensures WithCallback(popped + [old(cells[0])]) == WithCallback(popped) + ran
    {
      hide OrderedFrom, WithCallback;
      ghost var before := Timers();
      assert cells[0] == before[0];
      WithCallbackLast(popped, cells[0]);
      ran := [];
      if cells[0].cbFunc {
        ran := [cells[0]];
      }
      PopTimer();
      Removed(all, popped, before, Timers(), now);
    }
  }

  lemma NothingTakenOff(all: Cells, now: int)
    ensures TakenOff(all, [], all, now) && WithCallback([]) == []
  {
  }

  lemma TakenOffIs(all: Cells, popped: Cells, rest: Cells, now: int)
    requires TakenOff(all, popped, rest, now)
    ensures NonNull(popped) && multiset(popped) + multiset(rest) == multiset(all) && InExpiryOrder(popped)
    ensures forall t :: t in popped ==> t.expire <= now
  {
  }

  lemma Removed(all: Cells, popped: Cells, before: Cells, rest: Cells, now: int)
    requires NonNull(before) && OrderedFrom(before, 0) && RootRemoved(before, rest) && before[0].expire <= now
    requires TakenOff(all, popped, before, now)
    ensures TakenOff(all, popped + [before[0]], rest, now)
  {
    RootFirst(before);
    PartOf(rest, before[0], before);
    assert before[0] in before;
    forall i | 0 <= i < |popped|
      ensures popped[i].expire <= before[0].expire
    {
      assert popped[i] in popped;
    }
  }

  lemma WithCallbackLast(s: Cells, t: HeapTimer)
    requires NonNull(s)
    ensures NonNull(s + [t]) && WithCallback(s + [t]) == WithCallback(s) + if t.cbFunc then [t] else []
  {
    assert (s + [t])[..|s|] == s;
    assert WithCallback(s) + [] == WithCallback(s);
  }

  lemma RootFirst(s: Cells)
    requires NonNull(s) && OrderedFrom(s, 0)
    ensures s != [] ==> forall t :: t in s ==> t != null && s[0].expire <= t.expire
  {
    forall i | 0 <= i < |s|
      ensures s[0].expire <= s[i].expire
    {
      RootIsFirst(s, i);
    }
  }

  lemma PartOf(rest: Cells, t: HeapTimer?, all: Cells)
    requires multiset(rest) + multiset{t} == multiset(all)
    ensures forall u :: u in rest ==> u in all
  {
    assert forall u :: u in rest ==> u in multiset(rest);
    assert forall u :: u in multiset(all) ==> u in all;
  }

  /** One round of the sift that moves a hole up under the timer it is meant for. */
  lemma UpStep(a: Cells, h: nat, t: HeapTimer)
    requires 0 < h < |a| && NonNull(a[h := t])
    ensures var p := Parent(h);
            && p == (h - 1) / 2 && a[p] != null
            && (a[p].expire <= t.expire ==> SiftUp(a[h := t], h) == a[h := t])
            && (a[p].expire > t.expire ==>
                  NonNull(a[h := a[p]][p := t]) && SiftUp(a[h := t], h) == SiftUp(a[h := a[p]][p := t], p))
  {
    assert a[h := t][Parent(h)] == a[Parent(h)];
    SwapPermutes(a[h := t], Parent(h), h);
    HoleMoves(a, h, Parent(h), t);
  }

  /** One round of the sift that moves it down. */
  lemma DownStep(a: Cells, h: nat, c: nat, t: HeapTimer)
    requires 2 * h + 1 < |a| && NonNull(a[h := t]) && c == SmallerChild(a[h := t], h) && a[c] != null
    ensures a[c].expire >= t.expire ==> SiftDown(a[h := t], h) == a[h := t]
    ensures a[c].expire < t.expire ==>
              NonNull(a[h := a[c]][c := t]) && SiftDown(a[h := t], h) == SiftDown(a[h := a[c]][c := t], c)
  {
    SwapPermutes(a[h := t], h, c);
    HoleMoves(a, h, c, t);
  }

  lemma InsertedHeap(s: Cells, t: HeapTimer)
    requires NonNull(s) && OrderedFrom(s, 0)
    ensures NonNull(s + [t])
    ensures var r := SiftUp(s + [t], |s|);
            NonNull(r) && OrderedFrom(r, 0) && multiset(r) == multiset(s) + multiset{t} && |r| == |s| + 1
  {
    AppendedAbove(s, t);
    SiftUpPermutes(s + [t], |s|);
    SiftUpOrders(s + [t], |s|);
  }

  lemma PoppedHeap(s: Cells)
    requires NonNull(s) && OrderedFrom(s, 0) && s != []
    ensures |s| == 1 ==> RootRemoved(s, [])
    ensures |s| > 1 ==> var t := s[..|s| - 1][0 := s[|s| - 1]]; NonNull(t) && RootRemoved(s, SiftDown(t, 0))
  {
    LastToFront(s);
    if |s| > 1 {
      SiftDownPermutes(s[..|s| - 1][0 := s[|s| - 1]], 0);
      SiftDownOrders(s[..|s| - 1][0 := s[|s| - 1]], 0, 0);
    }
  }

  lemma HoleMoves(a: Cells, h: nat, c: nat, t: HeapTimer?)
    requires h < |a| && c < |a| && h != c
    ensures a[h := a[c]][c := t] == Swap(a[h := t], h, c) == Swap(a[h := t], c, h)
  {
  }

  lemma LeavesOrdered(s: Cells, lo: nat)
    requires NonNull(s) && (|s| <= 2 * lo + 1)
    ensures OrderedFrom(s, lo)
  {
  }

  lemma AppendedAbove(s: Cells, t: HeapTimer)
    requires NonNull(s) && OrderedFrom(s, 0)
    ensures NonNull(s + [t]) && OrderedAbove(s + [t], |s|) && multiset(s + [t]) == multiset(s) + multiset{t}
  {
    forall j | 0 < j < |s|
      ensures (s + [t])[Parent(j)].expire <= (s + [t])[j].expire
    {
      assert (s + [t])[j] == s[j] && (s + [t])[Parent(j)] == s[Parent(j)];
    }
  }

  lemma LastToFront(s: Cells)
    requires NonNull(s) && OrderedFrom(s, 0) && s != []
    ensures |s| == 1 ==> multiset(s) == multiset{s[0]}
    ensures |s| > 1 ==>
              var t := s[..|s| - 1][0 := s[|s| - 1]];
              NonNull(t) && OrderedBut(t, 0, 0) && multiset(t) + multiset{s[0]} == multiset(s)
  {
    hide NonNull, OrderedFrom, OrderedBut;
    if |s| == 1 {
      assert s == [s[0]];
    } else {
      LastToFrontOrdered(s);
      LastToFrontCounts(s);
    }
  }

  lemma LastToFrontOrdered(s: Cells)
    requires NonNull(s) && OrderedFrom(s, 0) && |s| > 1
    ensures var t := s[..|s| - 1][0 := s[|s| - 1]];
            NonNull(t) && OrderedBut(t, 0, 0)
  {
  }

  lemma LastToFrontCounts(s: Cells)
    requires |s| > 1
    ensures multiset(s[..|s| - 1][0 := s[|s| - 1]]) + multiset{s[0]} == multiset(s)
  {
    var n := |s| - 1;
    var middle := s[1..n];
    assert s[..n][0 := s[n]] == [s[n]] + middle;
    assert s == [s[0]] + middle + [s[n]];
  }
}
