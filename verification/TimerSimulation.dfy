/** The heap with lazy cancellation and the sorted list with eager deletion run the same
    callbacks, whatever is added, deleted and however the clock ticks. */
module TimerSimulation {
  import opened TimerValues
  import opened HeapOrder
  import opened MinHeapTimers
  import L = ListTimers

  datatype Op = Add(entry: Entry) | Del(entry: Entry) | Tick(now: int)

  // ----- the two containers as values -----

  function LiveOf(popped: seq<HeapEntry>): seq<Entry> {
    if popped == [] then []
    else var last := |popped| - 1; LiveOf(popped[..last]) + if popped[last].live then [popped[last].entry] else []
  }

  /** A tick of the heap: what `popped` holds is taken off, all of it due and in expiry
      order, nothing due is left, and the live ones run. Ties may come in any order. */
  ghost predicate HeapTicks(h: multiset<HeapEntry>, now: int, popped: seq<HeapEntry>, fired: seq<Entry>,
                            h': multiset<HeapEntry>) {
    && multiset(popped) + h' == h
    && (forall i, j :: 0 <= i < j < |popped| ==> popped[i].entry.expire <= popped[j].entry.expire)
    && (forall x :: x in popped ==> x.entry.expire <= now)
    && (forall x :: x in h' ==> x.entry.expire > now)
    && fired == LiveOf(popped)
  }

  ghost predicate HeapStep(h: multiset<HeapEntry>, op: Op, fired: seq<Entry>, h': multiset<HeapEntry>) {
    match op
    case Add(e) => fired == [] && h' == h + multiset{HeapEntry(e, true)}
    case Del(e) =>
      fired == [] && HeapEntry(e, true) in h && h' == h - multiset{HeapEntry(e, true)} + multiset{HeapEntry(e, false)}
    case Tick(now) => exists popped :: HeapTicks(h, now, popped, fired, h')
  }

  ghost predicate ListStep(l: seq<Entry>, op: Op, fired: seq<Entry>, l': seq<Entry>) {
    match op
    case Add(e) => fired == [] && l' == InsertAt(l, Place(l, e.expire), e)
    case Del(e) => fired == [] && exists k :: 0 <= k < |l| && l[k] == e && l' == RemoveAt(l, k)
    case Tick(now) => fired == l[..Place(l, now)] && l' == l[Place(l, now)..]
  }

  /** Runs of the same script; `fired[i]` are the callbacks of operation i, in order. */
  ghost predicate HeapRun(h: multiset<HeapEntry>, ops: seq<Op>, fired: seq<seq<Entry>>, h': multiset<HeapEntry>)
    decreases |ops|
  {
    if ops == [] then fired == [] && h' == h
    else fired != [] && exists h1 :: HeapStep(h, ops[0], fired[0], h1) && HeapRun(h1, ops[1..], fired[1..], h')
  }

  ghost predicate ListRun(l: seq<Entry>, ops: seq<Op>, fired: seq<seq<Entry>>, l': seq<Entry>)
    decreases |ops|
  {
    if ops == [] then fired == [] && l' == l
    else fired != [] && exists l1 :: ListStep(l, ops[0], fired[0], l1) && ListRun(l1, ops[1..], fired[1..], l')
  }

  function Times(l: seq<Entry>): (ts: seq<int>)
    ensures |ts| == |l|
  {
    if l == [] then [] else [l[0].expire] + Times(l[1..])
  }

  /** The same callbacks, each as often, in the same sequence of expiry times. */
  ghost predicate SameCallbacks(f: seq<Entry>, g: seq<Entry>) {
    multiset(f) == multiset(g) && Times(f) == Times(g)
  }

  /** The live timers of the heap are those of the list, which is in order. */
  ghost predicate Matches(h: multiset<HeapEntry>, l: seq<Entry>) {
    SortedEntries(l) && forall e :: h[HeapEntry(e, true)] == multiset(l)[e]
  }

  /** Simulation over every script, and for every way the heap may order ties. */
  lemma {:induction false} HeapSimulatesList(
      h: multiset<HeapEntry>, l: seq<Entry>, ops: seq<Op>,
      heapFired: seq<seq<Entry>>, listFired: seq<seq<Entry>>, h': multiset<HeapEntry>, l': seq<Entry>)
    requires Matches(h, l) && HeapRun(h, ops, heapFired, h') && ListRun(l, ops, listFired, l')
    ensures Matches(h', l') && |heapFired| == |listFired| == |ops|
    ensures forall i :: 0 <= i < |ops| ==> SameCallbacks(heapFired[i], listFired[i])
    decreases |ops|
  {
    hide HeapStep, ListStep, Matches, SameCallbacks;
    if ops != [] {
      var h1 :| HeapStep(h, ops[0], heapFired[0], h1) && HeapRun(h1, ops[1..], heapFired[1..], h');
      var l1 :| ListStep(l, ops[0], listFired[0], l1) && ListRun(l1, ops[1..], listFired[1..], l');
      StepSimulates(h, l, ops[0], heapFired[0], listFired[0], h1, l1);
      HeapSimulatesList(h1, l1, ops[1..], heapFired[1..], listFired[1..], h', l');
      forall i | 0 <= i < |ops|
        ensures SameCallbacks(heapFired[i], listFired[i])
      {
        if i > 0 {
          assert heapFired[i] == heapFired[1..][i - 1] && listFired[i] == listFired[1..][i - 1];
        }
      }
    }
  }

  lemma StepSimulates(h: multiset<HeapEntry>, l: seq<Entry>, op: Op, f: seq<Entry>, g: seq<Entry>,
                      h1: multiset<HeapEntry>, l1: seq<Entry>)
    requires Matches(h, l) && HeapStep(h, op, f, h1) && ListStep(l, op, g, l1)
    ensures Matches(h1, l1) && SameCallbacks(f, g)
  {
    match op
    case Add(e) => AddSimulates(h, l, e);
    case Del(e) =>
      var k :| 0 <= k < |l| && l[k] == e && l1 == RemoveAt(l, k);
      DelSimulates(h, l, k);
    case Tick(now) =>
      var popped :| HeapTicks(h, now, popped, f, h1);
      TickSimulates(h, l, now, popped, f, h1);
  }

  lemma AddSimulates(h: multiset<HeapEntry>, l: seq<Entry>, e: Entry)
    requires Matches(h, l)
    ensures Matches(h + multiset{HeapEntry(e, true)}, InsertAt(l, Place(l, e.expire), e))
  {
    InsertSorted(l, e);
    InsertCounts(l, Place(l, e.expire), e);
  }

  lemma DelSimulates(h: multiset<HeapEntry>, l: seq<Entry>, k: nat)
    requires Matches(h, l) && k < |l|
    ensures Matches(h - multiset{HeapEntry(l[k], true)} + multiset{HeapEntry(l[k], false)}, RemoveAt(l, k))
  {
    RemoveSorted(l, k);
    RemoveCounts(l, k);
  }

  lemma TickSimulates(h: multiset<HeapEntry>, l: seq<Entry>, now: int, popped: seq<HeapEntry>, f: seq<Entry>,
                      h1: multiset<HeapEntry>)
    requires Matches(h, l) && HeapTicks(h, now, popped, f, h1)
    ensures Matches(h1, l[Place(l, now)..]) && SameCallbacks(f, l[..Place(l, now)])
  {
    var g, rest := l[..Place(l, now)], l[Place(l, now)..];
    forall e
      ensures multiset(f)[e] == multiset(g)[e] && h1[HeapEntry(e, true)] == multiset(rest)[e]
    {
      PoppedCounts(h, now, popped, f, h1, e);
      DueCounts(l, now, e);
    }
    SliceSorted(l, Place(l, now));
    LiveSorted(popped);
    assert multiset(f) == multiset(g);
    TimesDetermined(f, g);
  }

  lemma SliceSorted(l: seq<Entry>, k: nat)
    requires SortedEntries(l) && k <= |l|
    ensures SortedEntries(l[..k]) && SortedEntries(l[k..])
  {
  }

  lemma PoppedCounts(h: multiset<HeapEntry>, now: int, popped: seq<HeapEntry>, f: seq<Entry>,
                     h1: multiset<HeapEntry>, e: Entry)
    requires HeapTicks(h, now, popped, f, h1)
    ensures multiset(f)[e] == if e.expire <= now then h[HeapEntry(e, true)] else 0
    ensures h1[HeapEntry(e, true)] == if e.expire <= now then 0 else h[HeapEntry(e, true)]
  {
    var x := HeapEntry(e, true);
    LiveCounts(popped, e);
    assert (multiset(popped) + h1)[x] == h[x];
    assert x in multiset(popped) <==> x in popped;
  }

  lemma {:induction false} LiveCounts(popped: seq<HeapEntry>, e: Entry)
    ensures multiset(LiveOf(popped))[e] == multiset(popped)[HeapEntry(e, true)]
  {
    if popped != [] {
      var last := |popped| - 1;
      LiveCounts(popped[..last], e);
      assert popped == popped[..last] + [popped[last]];
      assert multiset(popped) == multiset(popped[..last]) + multiset{popped[last]};
    }
  }

  lemma {:induction false} LiveSorted(popped: seq<HeapEntry>)
    requires forall i, j :: 0 <= i < j < |popped| ==> popped[i].entry.expire <= popped[j].entry.expire
    ensures SortedEntries(LiveOf(popped))
    ensures forall e :: e in LiveOf(popped) ==> exists i :: 0 <= i < |popped| && popped[i].entry == e
  {
    if popped != [] {
      var last := |popped| - 1;
      var front := popped[..last];
      LiveSorted(front);
      forall e | e in LiveOf(popped)
        ensures exists i :: 0 <= i < |popped| && popped[i].entry == e
      {
        if e in LiveOf(front) {
          var i :| 0 <= i < |front| && front[i].entry == e;
          assert popped[i].entry == e;
        } else {
          assert popped[last].entry == e;
        }
      }
      forall i | 0 <= i < |LiveOf(front)|
        ensures LiveOf(front)[i].expire <= popped[last].entry.expire
      {
        assert LiveOf(front)[i] in LiveOf(front);
        var j :| 0 <= j < |front| && front[j].entry == LiveOf(front)[i];
        assert popped[j] == front[j];
      }
    }
  }

  /** In a sorted list the due entries are all in front, the others all behind. */
  lemma DueCounts(l: seq<Entry>, now: int, e: Entry)
    requires SortedEntries(l)
    ensures multiset(l[..Place(l, now)])[e] == if e.expire <= now then multiset(l)[e] else 0
    ensures multiset(l[Place(l, now)..])[e] == if e.expire <= now then 0 else multiset(l)[e]
  {
    var g, rest := l[..Place(l, now)], l[Place(l, now)..];
    assert l == g + rest;
    assert multiset(l)[e] == multiset(g)[e] + multiset(rest)[e];
    SplitAtPlace(l, now);
    assert e in g <==> e in multiset(g);
    assert e in rest <==> e in multiset(rest);
  }

  lemma SplitAtPlace(l: seq<Entry>, now: int)
    requires SortedEntries(l)
    ensures forall x :: x in l[..Place(l, now)] ==> x.expire <= now
    ensures forall x :: x in l[Place(l, now)..] ==> x.expire > now
  {
    var k := Place(l, now);
    assert forall i :: k <= i < |l| ==> l[k].expire <= l[i].expire;
  }

  /** Two sorted sequences of the same entries agree in their expiry times. */
  lemma {:induction false} TimesDetermined(f: seq<Entry>, g: seq<Entry>)
    requires SortedEntries(f) && SortedEntries(g) && multiset(f) == multiset(g)
    ensures Times(f) == Times(g)
  {
    if f == [] {
      assert |g| == |multiset(g)| == 0;
    } else {
      var j := FirstIn(f, g);
      RemoveSorted(g, j);
      SliceSorted(f, 1);
      TimesDetermined(f[1..], RemoveAt(g, j));
      DropEqual(g, j);
    }
  }

  lemma FirstIn(f: seq<Entry>, g: seq<Entry>) returns (j: nat)
    requires SortedEntries(f) && SortedEntries(g) && multiset(f) == multiset(g) && f != []
    ensures j < |g| && g[j] == f[0] && g[0].expire == f[0].expire
    ensures multiset(f[1..]) == multiset(RemoveAt(g, j))
  {
    hide RemoveAt;
    assert f[0] in multiset(g);
    j :| 0 <= j < |g| && g[j] == f[0];
    assert g[0] in multiset(f);
    var i :| 0 <= i < |f| && f[i] == g[0];
    assert g[0].expire <= g[j].expire && f[0].expire <= f[i].expire;
    RemoveCounts(g, j);
    assert f == [f[0]] + f[1..];
    assert multiset(f[1..]) == multiset(f) - multiset{f[0]};
    assert multiset(RemoveAt(g, j)) == multiset(g) - multiset{g[j]};
  }

  /** Taking out any of the entries that expire first leaves the same times. */
  lemma {:induction false} DropEqual(g: seq<Entry>, j: nat)
    requires SortedEntries(g) && j < |g| && g[j].expire == g[0].expire
    ensures Times(g) == [g[0].expire] + Times(RemoveAt(g, j))
    decreases j
  {
    if j == 0 {
      assert RemoveAt(g, 0) == g[1..];
    } else {
      assert g[1].expire == g[0].expire;
      DropEqual(g[1..], j - 1);
      assert RemoveAt(g, j)[1..] == RemoveAt(g[1..], j - 1);
      assert RemoveAt(g, j)[0] == g[0];
    }
  }

  // ----- the classes take these steps -----

  function EntriesOf(s: Cells): (l: seq<Entry>)
    requires NonNull(s)
  {
    if s == [] then [] else EntriesOf(s[..|s| - 1]) + [EntryOf(s[|s| - 1])]
  }

  /** What TimeHeap.Tick ensures is a tick of the heap's value. */
  lemma HeapTickIsStep(before: Cells, popped: Cells, rest: Cells, now: int)
    requires NonNull(before) && NonNull(popped) && NonNull(rest)
    requires multiset(popped) + multiset(rest) == multiset(before) && InExpiryOrder(popped)
    requires (forall t :: t in popped ==> t.expire <= now) && (forall t :: t in rest ==> t.expire > now)
    ensures NonNull(WithCallback(popped))
    ensures HeapTicks(multiset(HeapEntries(before)), now, HeapEntries(popped),
                      EntriesOf(WithCallback(popped)), multiset(HeapEntries(rest)))
  {
    FiredEntries(popped);
    SplitEntries(popped, rest, before);
    BoundedEntries(popped, now);
    BoundedEntries(rest, now);
  }

  lemma SplitEntries(popped: Cells, rest: Cells, all: Cells)
    requires NonNull(all) && NonNull(popped) && NonNull(rest)
    requires multiset(popped) + multiset(rest) == multiset(all)
    ensures multiset(HeapEntries(popped)) + multiset(HeapEntries(rest)) == multiset(HeapEntries(all))
  {
    assert multiset(popped + rest) == multiset(all);
    PermutedEntries(popped + rest, all);
    assert HeapEntries(popped + rest) == HeapEntries(popped) + HeapEntries(rest);
  }

  lemma BoundedEntries(s: Cells, now: int)
    requires NonNull(s)
    ensures (forall t :: t in s ==> t.expire <= now) ==> forall x :: x in HeapEntries(s) ==> x.entry.expire <= now
    ensures (forall t :: t in s ==> t.expire > now) ==>
              forall x :: x in multiset(HeapEntries(s)) ==> x.entry.expire > now
  {
    forall x | x in HeapEntries(s)
      ensures exists t: HeapTimer :: t in s && t.expire == x.entry.expire
    {
      var i :| 0 <= i < |s| && HeapEntries(s)[i] == x;
      assert s[i] in s && s[i].expire == x.entry.expire;
    }
    assert forall x :: x in multiset(HeapEntries(s)) ==> x in HeapEntries(s);
  }

  lemma {:induction false} FiredEntries(popped: Cells)
    requires NonNull(popped)
    ensures NonNull(WithCallback(popped)) && EntriesOf(WithCallback(popped)) == LiveOf(HeapEntries(popped))
  {
    if popped != [] {
      var last := |popped| - 1;
      var front := WithCallback(popped[..last]);
      FiredEntries(popped[..last]);
      FrontEntries(popped, last);
      hide HeapEntries;
      if popped[last].cbFunc {
        assert (front + [popped[last]])[..|front|] == front;
      } else {
        assert front + [] == front && EntriesOf(front) + [] == EntriesOf(front);
      }
    }
  }

  lemma FrontEntries(s: Cells, n: nat)
    requires NonNull(s) && n < |s|
    ensures HeapEntries(s)[..n] == HeapEntries(s[..n]) && HeapEntries(s)[n] == HeapEntry(EntryOf(s[n]), s[n].cbFunc)
  {
  }

  lemma {:induction false} PermutedEntries(a: Cells, b: Cells)
    requires NonNull(a) && NonNull(b) && multiset(a) == multiset(b)
    ensures multiset(HeapEntries(a)) == multiset(HeapEntries(b))
  {
    hide HeapEntries, EntryOf;
    if a == [] {
      assert |b| == |multiset(b)| == 0;
    } else {
      assert a[0] in multiset(b);
      var j :| 0 <= j < |b| && b[j] == a[0];
      RemoveCounts(a, 0);
      RemoveCounts(b, j);
      assert multiset(RemoveAt(a, 0)) == multiset(a) - multiset{a[0]};
      assert multiset(RemoveAt(b, j)) == multiset(b) - multiset{b[j]};
      EntriesWithout(a, 0);
      EntriesWithout(b, j);
      PermutedEntries(RemoveAt(a, 0), RemoveAt(b, j));
    }
  }

  lemma EntriesWithout(s: Cells, k: nat)
    requires NonNull(s) && k < |s|
    ensures NonNull(RemoveAt(s, k))
    ensures multiset(HeapEntries(s)) ==
            multiset(HeapEntries(RemoveAt(s, k))) + multiset{HeapEntry(EntryOf(s[k]), s[k].cbFunc)}
  {
    RemoveCounts(HeapEntries(s), k);
    forall i | 0 <= i < |s| - 1
      ensures RemoveAt(s, k)[i] != null
      ensures RemoveAt(HeapEntries(s), k)[i] == HeapEntry(EntryOf(RemoveAt(s, k)[i]), RemoveAt(s, k)[i].cbFunc)
    {
      RemoveIndex(s, k, i);
      RemoveIndex(HeapEntries(s), k, i);
    }
    assert HeapEntries(RemoveAt(s, k)) == RemoveAt(HeapEntries(s), k);
  }

  /** What TimeHeap.AddTimer and DelTimer ensure of the timers are steps too. */
  lemma HeapAddIsStep(before: Cells, t: HeapTimer, after: Cells)
    requires NonNull(before) && NonNull(after) && t.cbFunc && multiset(after) == multiset(before) + multiset{t}
    ensures HeapStep(multiset(HeapEntries(before)), Add(EntryOf(t)), [], multiset(HeapEntries(after)))
  {
    assert multiset(after) == multiset(before + [t]);
    PermutedEntries(after, before + [t]);
    assert HeapEntries(before + [t]) == HeapEntries(before) + [HeapEntry(EntryOf(t), true)];
  }

  lemma HeapDelIsStep(h: seq<HeapEntry>, k: nat)
    requires k < |h| && h[k].live
    ensures HeapStep(multiset(h), Del(h[k].entry), [], multiset(h[k := HeapEntry(h[k].entry, false)]))
  {
    assert h[k] in multiset(h);
  }

  /** What SortTimerList ensures of its nodes are steps of the list's value. */
  lemma ListTickIsStep(all: seq<L.UtilTimer>, fired: seq<L.UtilTimer>, rest: seq<L.UtilTimer>, now: int)
    requires L.IsPlace(all, 0, |fired|, now) && all == fired + rest
    ensures ListStep(L.Entries(all), Tick(now), L.Entries(fired), L.Entries(rest))
  {
    L.PlaceOfNodes(all, |fired|, now);
    assert L.Entries(all) == L.Entries(fired) + L.Entries(rest);
  }

  lemma ListAddIsStep(s: seq<L.UtilTimer>, p: nat, t: L.UtilTimer)
    requires L.IsPlace(s, 0, p, t.expire)
    ensures ListStep(L.Entries(s), Add(Entry(t.id, t.expire)), [], L.Entries(InsertAt(s, p, t)))
  {
    L.PlaceOfNodes(s, p, t.expire);
    assert L.Entries(InsertAt(s, p, t)) == InsertAt(L.Entries(s), p, Entry(t.id, t.expire));
  }

  lemma ListDelIsStep(s: seq<L.UtilTimer>, k: nat)
    requires k < |s|
    ensures ListStep(L.Entries(s), Del(Entry(s[k].id, s[k].expire)), [], L.Entries(RemoveAt(s, k)))
  {
    assert L.Entries(s)[k] == Entry(s[k].id, s[k].expire);
    assert L.Entries(RemoveAt(s, k)) == RemoveAt(L.Entries(s), k);
  }
}
