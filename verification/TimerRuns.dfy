/** The timer list and the timer heap under the same script of starts, cancellations, raised
    expiry times and ticks: both do what an abstract set of timers does. */
module TimerRuns {
  import opened TimerValues
  import opened HeapOrder
  import opened MinHeapTimers
  import opened TimerSimulation
  import L = ListTimers

  /** What a user asks for. Timers are numbered as they are started; a request about one that
      does not wait any more is none. */
  datatype Request = Start(expire: int) | Cancel(k: nat) | Raise(k: nat, more: nat) | Turn(now: int)

  /** The abstract set: how many timers have been started, and when those that wait expire. */
  datatype Waiting = Waiting(started: nat, expiry: map<nat, int>)

  const NOTHING_WAITS := Waiting(0, map[])

  function After(w: Waiting, r: Request): Waiting {
    match r
    case Start(expire) => Waiting(w.started + 1, w.expiry[w.started := expire])
    case Cancel(k) => w.(expiry := w.expiry - {k})
    case Raise(k, more) => if k in w.expiry then w.(expiry := w.expiry[k := w.expiry[k] + more]) else w
    case Turn(now) => w.(expiry := NotDue(w.expiry, now))
  }

  function NotDue(m: map<nat, int>, now: int): map<nat, int> {
    map k | k in m && m[k] > now :: m[k]
  }

  function AfterAll(script: seq<Request>): Waiting {
    if script == [] then NOTHING_WAITS else After(AfterAll(script[..|script| - 1]), script[|script| - 1])
  }

  predicate Waits(m: map<nat, int>, e: Entry) {
    e.id in m && m[e.id] == e.expire
  }

  /** The callbacks of a tick: exactly the timers that are due, each once, in the order of their
      times. Nothing else runs callbacks. */
  ghost predicate Fired(w: Waiting, r: Request, fired: seq<Entry>) {
    if r.Turn? then
      SortedEntries(fired) &&
      forall e :: multiset(fired)[e] == if Waits(w.expiry, e) && e.expire <= r.now then 1 else 0
    else fired == []
  }

  ghost predicate Logged(script: seq<Request>, log: seq<seq<Entry>>) {
    |log| == |script| && forall i :: 0 <= i < |script| ==> Fired(AfterAll(script[..i]), script[i], log[i])
  }

  lemma LoggedNext(script: seq<Request>, log: seq<seq<Entry>>, r: Request, fired: seq<Entry>)
    requires Logged(script, log) && Fired(AfterAll(script), r, fired)
    ensures Logged(script + [r], log + [fired]) && AfterAll(script + [r]) == After(AfterAll(script), r)
  {
    hide Fired, After;
    var all := script + [r];
    assert all[..|script|] == script;
    forall i | 0 <= i < |all|
      ensures Fired(AfterAll(all[..i]), all[i], (log + [fired])[i])
    {
      assert i < |script| ==> all[..i] == script[..i];
    }
  }

  /** Two logs of one script have the same callbacks, tick by tick. */
  lemma LogsAgree(script: seq<Request>, f: seq<seq<Entry>>, g: seq<seq<Entry>>)
    requires Logged(script, f) && Logged(script, g)
    ensures forall i :: 0 <= i < |script| ==> SameCallbacks(f[i], g[i])
  {
    hide SortedEntries, Waits;
    forall i | 0 <= i < |script|
      ensures SameCallbacks(f[i], g[i])
    {
      var w := AfterAll(script[..i]);
      assert Fired(w, script[i], f[i]) && Fired(w, script[i], g[i]);
      if script[i].Turn? {
        assert multiset(f[i]) == multiset(g[i]);
        TimesDetermined(f[i], g[i]);
      }
    }
  }

  // ----- the list as a value -----

  /** The list holds exactly the waiting timers, in order. */
  ghost predicate ListHolds(l: seq<Entry>, m: map<nat, int>) {
    SortedEntries(l) && forall e :: multiset(l)[e] == if Waits(m, e) then 1 else 0
  }

  lemma ListAddHolds(l: seq<Entry>, m: map<nat, int>, e: Entry)
    requires ListHolds(l, m) && e.id !in m
    ensures ListHolds(InsertAt(l, Place(l, e.expire), e), m[e.id := e.expire])
  {
    InsertSorted(l, e);
    InsertCounts(l, Place(l, e.expire), e);
  }

  lemma ListDelHolds(l: seq<Entry>, m: map<nat, int>, p: nat)
    requires ListHolds(l, m) && p < |l|
    ensures ListHolds(RemoveAt(l, p), m - {l[p].id}) && Waits(m, l[p])
  {
    hide RemoveAt, SortedEntries;
    RemoveSorted(l, p);
    RemoveCounts(l, p);
    var rest := RemoveAt(l, p);
    assert multiset(l)[l[p]] > 0;
    forall e
      ensures multiset(rest)[e] == if Waits(m - {l[p].id}, e) then 1 else 0
    {
      assert multiset(l)[e] == multiset(rest)[e] + if e == l[p] then 1 else 0;
    }
  }

  lemma ListTickHolds(l: seq<Entry>, w: Waiting, now: int)
    requires ListHolds(l, w.expiry)
    ensures Fired(w, Turn(now), l[..Place(l, now)]) && ListHolds(l[Place(l, now)..], NotDue(w.expiry, now))
  {
    SliceSorted(l, Place(l, now));
    forall e
      ensures multiset(l[..Place(l, now)])[e] == if Waits(w.expiry, e) && e.expire <= now then 1 else 0
      ensures multiset(l[Place(l, now)..])[e] == if Waits(NotDue(w.expiry, now), e) then 1 else 0
    {
      DueCounts(l, now, e);
    }
  }

  // ----- the heap as a value -----

  /** The live timers of the heap are exactly the waiting ones. */
  ghost predicate HeapHolds(h: multiset<HeapEntry>, m: map<nat, int>) {
    forall e :: h[HeapEntry(e, true)] == if Waits(m, e) then 1 else 0
  }

  lemma HeapAddHolds(h: multiset<HeapEntry>, m: map<nat, int>, e: Entry)
    requires HeapHolds(h, m) && e.id !in m
    ensures HeapHolds(h + multiset{HeapEntry(e, true)}, m[e.id := e.expire])
  {
  }

  lemma HeapDelHolds(h: multiset<HeapEntry>, m: map<nat, int>, e: Entry)
    requires HeapHolds(h, m) && HeapEntry(e, true) in h
    ensures HeapHolds(h - multiset{HeapEntry(e, true)} + multiset{HeapEntry(e, false)}, m - {e.id})
  {
  }

  lemma HeapTickHolds(h: multiset<HeapEntry>, w: Waiting, now: int, popped: seq<HeapEntry>, f: seq<Entry>,
                      h': multiset<HeapEntry>)
    requires HeapHolds(h, w.expiry) && HeapTicks(h, now, popped, f, h')
    ensures Fired(w, Turn(now), f) && HeapHolds(h', NotDue(w.expiry, now))
  {
    LiveSorted(popped);
    forall e
      ensures multiset(f)[e] == if Waits(w.expiry, e) && e.expire <= now then 1 else 0
      ensures h'[HeapEntry(e, true)] == if Waits(NotDue(w.expiry, now), e) then 1 else 0
    {
      PoppedCounts(h, now, popped, f, h', e);
    }
  }

  // ----- the list itself -----

  /** A timer list whose timers are numbered by `timers` and are those that wait. */
  ghost predicate OnList(list: L.SortTimerList, timers: seq<L.UtilTimer>, w: Waiting)
    reads list, list.nodes
  {
    && list.Valid() && Numbered(list.nodes, timers) && ListHolds(L.Entries(list.nodes), w.expiry)
    && |timers| == w.started && forall k :: k in w.expiry ==> k < w.started
  }

  ghost predicate Numbered(nodes: seq<L.UtilTimer>, timers: seq<L.UtilTimer>) {
    && (forall k :: 0 <= k < |timers| ==> timers[k].id == k)
    && forall i :: 0 <= i < |nodes| ==> nodes[i].id < |timers| && timers[nodes[i].id] == nodes[i]
  }

  /** Where a waiting timer is. */
  lemma OnListAt(list: L.SortTimerList, timers: seq<L.UtilTimer>, w: Waiting, k: nat) returns (p: nat)
    requires OnList(list, timers, w) && k in w.expiry
    ensures p < |list.nodes| && k < |timers| && list.nodes[p] == timers[k] && timers[k].expire == w.expiry[k]
    ensures timers[k].id == k
  {
    var l, e := L.Entries(list.nodes), Entry(k, w.expiry[k]);
    assert multiset(l)[e] == 1 && e in multiset(l);
    p :| 0 <= p < |l| && l[p] == e;
  }

  method PerformOnList(list: L.SortTimerList, timers: seq<L.UtilTimer>, w: Waiting, r: Request)
      returns (timers': seq<L.UtilTimer>, fired: seq<Entry>)
    requires OnList(list, timers, w)
    modifies list, list.nodes
    ensures OnList(list, timers', After(w, r)) && Fired(w, r, fired)
    ensures forall i :: 0 <= i < |list.nodes| ==> list.nodes[i] in old(list.nodes) || fresh(list.nodes[i])
  {
    hide OnList;
    timers', fired := timers, [];
    match r
    case Start(expire) =>
      timers' := StartOnList(list, timers, w, expire);
    case Cancel(k) =>
      CancelOnList(list, timers, w, k);
    case Raise(k, more) =>
      RaiseOnList(list, timers, w, k, more);
    case Turn(now) =>
      fired := TurnList(list, timers, w, now);
  }

  method StartOnList(list: L.SortTimerList, timers: seq<L.UtilTimer>, w: Waiting, expire: int)
      returns (timers': seq<L.UtilTimer>)
    requires OnList(list, timers, w)
    modifies list, list.nodes
    ensures OnList(list, timers', After(w, Start(expire)))
    ensures forall i :: 0 <= i < |list.nodes| ==> list.nodes[i] in old(list.nodes) || fresh(list.nodes[i])
  {
    hide ListHolds, L.Chain, L.IsPlace, Numbered;
    ghost var nodes, l := list.nodes, L.Entries(list.nodes);
    var t := new L.UtilTimer(expire, w.started);
    var p := list.AddTimer(t);
    timers' := timers + [t];
    assert L.Entries(nodes) == l;
    StartedHolds(nodes, p, t, timers, w);
    assert list.nodes == InsertAt(nodes, p, t);
  }

  lemma StartedHolds(nodes: seq<L.UtilTimer>, p: nat, t: L.UtilTimer, timers: seq<L.UtilTimer>, w: Waiting)
    requires ListHolds(L.Entries(nodes), w.expiry) && L.IsPlace(nodes, 0, p, t.expire) && t.id !in w.expiry
    requires Numbered(nodes, timers) && t.id == |timers|
    ensures var z := InsertAt(nodes, p, t);
            && ListHolds(L.Entries(z), w.expiry[t.id := t.expire]) && Numbered(z, timers + [t])
            && forall i :: 0 <= i < |z| ==> z[i] in nodes || z[i] == t
  {
    hide ListHolds, Place, Numbered;
    L.PlaceOfNodes(nodes, p, t.expire);
    InsertedEntries(nodes, p, t);
    ListAddHolds(L.Entries(nodes), w.expiry, Entry(t.id, t.expire));
    InsertNumbered(nodes, p, t, timers);
  }

  lemma InsertedEntries(nodes: seq<L.UtilTimer>, p: nat, t: L.UtilTimer)
    requires p <= |nodes|
    ensures L.Entries(InsertAt(nodes, p, t)) == InsertAt(L.Entries(nodes), p, Entry(t.id, t.expire))
  {
  }

  lemma InsertNumbered(nodes: seq<L.UtilTimer>, p: nat, t: L.UtilTimer, timers: seq<L.UtilTimer>)
    requires Numbered(nodes, timers) && p <= |nodes| && t.id == |timers|
    ensures Numbered(InsertAt(nodes, p, t), timers + [t])
  {
    var z := InsertAt(nodes, p, t);
    forall i | 0 <= i < |z|
      ensures z[i].id < |timers| + 1 && (timers + [t])[z[i].id] == z[i]
    {
      InsertIndex(nodes, p, t, i);
    }
  }

  lemma RemoveNumbered(nodes: seq<L.UtilTimer>, p: nat, timers: seq<L.UtilTimer>)
    requires Numbered(nodes, timers) && p < |nodes|
    ensures Numbered(RemoveAt(nodes, p), timers)
  {
  }

  lemma ReplacedNumbered(nodes: seq<L.UtilTimer>, p: nat, q: nat, timers: seq<L.UtilTimer>)
    requires Numbered(nodes, timers) && p < |nodes| && q < |nodes|
    ensures var z := InsertAt(RemoveAt(nodes, p), q, nodes[p]);
            Numbered(z, timers) && forall i :: 0 <= i < |z| ==> z[i] in nodes
  {
    var z := InsertAt(RemoveAt(nodes, p), q, nodes[p]);
    forall i | 0 <= i < |z|
      ensures z[i] in nodes
    {
      InsertIndex(RemoveAt(nodes, p), q, nodes[p], i);
    }
  }

  lemma RemovedEntries(nodes: seq<L.UtilTimer>, p: nat)
    requires p < |nodes|
    ensures L.Entries(RemoveAt(nodes, p)) == RemoveAt(L.Entries(nodes), p)
  {
  }

  lemma OthersRemain(nodes: seq<L.UtilTimer>, p: nat)
    requires p < |nodes|
    ensures forall i :: 0 <= i < |RemoveAt(nodes, p)| ==> RemoveAt(nodes, p)[i] in nodes
  {
  }

  method CancelOnList(list: L.SortTimerList, timers: seq<L.UtilTimer>, w: Waiting, k: nat)
    requires OnList(list, timers, w)
    modifies list, list.nodes
    ensures OnList(list, timers, After(w, Cancel(k)))
    ensures forall i :: 0 <= i < |list.nodes| ==> list.nodes[i] in old(list.nodes)
  {
    hide ListHolds, L.Chain, RemoveAt, Numbered;
    if k in w.expiry {
      ghost var p := OnListAt(list, timers, w, k);
      ghost var nodes, l := list.nodes, L.Entries(list.nodes);
      list.DelTimer(timers[k], p);
      assert L.Entries(nodes) == l;
      RemovedEntries(nodes, p);
      OthersRemain(nodes, p);
      ListDelHolds(l, w.expiry, p);
      RemoveNumbered(nodes, p, timers);
    } else {
      assert w.expiry - {k} == w.expiry;
    }
  }

  method RaiseOnList(list: L.SortTimerList, timers: seq<L.UtilTimer>, w: Waiting, k: nat, more: nat)
    requires OnList(list, timers, w)
    modifies list, list.nodes
    ensures OnList(list, timers, After(w, Raise(k, more)))
    ensures forall i :: 0 <= i < |list.nodes| ==> list.nodes[i] in old(list.nodes)
  {
    hide ListHolds, L.Chain, Numbered, L.AdjustedTo, Place;
    if k in w.expiry {
      ghost var p := OnListAt(list, timers, w, k);
      var t := timers[k];
      OthersDiffer(list, p);
      ghost var nodes, l := list.nodes, L.Entries(list.nodes);
      t.expire := t.expire + more;
      ghost var q := list.AdjustTimer(t, p);
      assert list.nodes == InsertAt(RemoveAt(nodes, p), q, nodes[p]);
      assert After(w, Raise(k, more)).expiry == w.expiry[l[p].id := nodes[p].expire];
      RaisedHolds(nodes, l, w.expiry, p, q, more);
      ReplacedNumbered(nodes, p, q, timers);
    }
  }

  lemma OthersDiffer(list: L.SortTimerList, p: nat)
    requires list.Valid() && p < |list.nodes|
    ensures forall i :: 0 <= i < |list.nodes| && i != p ==> list.nodes[i] != list.nodes[p]
  {
  }

  /** Raising and adjusting is taking out and inserting anew. */
  lemma RaisedHolds(nodes: seq<L.UtilTimer>, l: seq<Entry>, m: map<nat, int>, p: nat, q: nat, more: nat)
    requires |l| == |nodes| && p < |nodes| && ListHolds(l, m)
    requires forall i :: 0 <= i < |nodes| && i != p ==> L.Entries(nodes)[i] == l[i]
    requires nodes[p].id == l[p].id && nodes[p].expire == l[p].expire + more
    requires L.AdjustedTo(nodes, p, q)
    ensures ListHolds(L.Entries(InsertAt(RemoveAt(nodes, p), q, nodes[p])), m[l[p].id := nodes[p].expire])
  {
    hide Place, InsertAt, L.AdjustedTo, ListHolds;
    var t, others, rest := nodes[p], RemoveAt(nodes, p), RemoveAt(l, p);
    OthersStay(nodes, l, m, p, more);
    L.AdjustmentExact(nodes, p, q);
    L.PlaceOfNodes(others, q, t.expire);
    InsertedEntries(others, q, t);
    ListDelHolds(l, m, p);
    ListAddHolds(rest, m - {t.id}, Entry(t.id, t.expire));
    assert (m - {t.id})[t.id := t.expire] == m[t.id := t.expire];
  }

  lemma OthersStay(nodes: seq<L.UtilTimer>, l: seq<Entry>, m: map<nat, int>, p: nat, more: nat)
    requires |l| == |nodes| && p < |nodes| && ListHolds(l, m)
    requires forall i :: 0 <= i < |nodes| && i != p ==> L.Entries(nodes)[i] == l[i]
    requires nodes[p].expire == l[p].expire + more
    ensures L.Entries(RemoveAt(nodes, p)) == RemoveAt(l, p) && L.SortedByExpiry(RemoveAt(nodes, p))
    ensures p == 0 || nodes[p - 1].expire <= nodes[p].expire
  {
    RemoveSorted(l, p);
    assert p > 0 ==> L.Entries(nodes)[p - 1] == l[p - 1];
    forall i | 0 <= i < |nodes| - 1
      ensures L.Entries(RemoveAt(nodes, p))[i] == RemoveAt(l, p)[i]
    {
      RemoveIndex(nodes, p, i);
      RemoveIndex(l, p, i);
      assert L.Entries(nodes)[if i < p then i else i + 1] == l[if i < p then i else i + 1];
    }
    assert L.Entries(RemoveAt(nodes, p)) == RemoveAt(l, p);
    SortedNodes(RemoveAt(nodes, p));
  }

  lemma SortedNodes(nodes: seq<L.UtilTimer>)
    requires SortedEntries(L.Entries(nodes))
    ensures L.SortedByExpiry(nodes)
  {
    forall i, j | 0 <= i < j < |nodes|
      ensures nodes[i].expire <= nodes[j].expire
    {
      assert L.Entries(nodes)[i].expire <= L.Entries(nodes)[j].expire;
    }
  }

  method TurnList(list: L.SortTimerList, timers: seq<L.UtilTimer>, w: Waiting, now: int) returns (fired: seq<Entry>)
    requires OnList(list, timers, w)
    modifies list, list.nodes
    ensures OnList(list, timers, After(w, Turn(now))) && Fired(w, Turn(now), fired)
    ensures forall i :: 0 <= i < |list.nodes| ==> list.nodes[i] in old(list.nodes)
  {
    hide ListHolds, L.Chain, Place, Fired, L.IsPlace, Numbered;
    ghost var nodes, l := list.nodes, L.Entries(list.nodes);
    var gone := list.Tick(now);
    fired := L.Entries(gone);
    assert L.Entries(nodes) == l;
    PartsOfList(nodes, gone, list.nodes, timers, w, now);
  }

  lemma PartsOfList(nodes: seq<L.UtilTimer>, gone: seq<L.UtilTimer>, rest: seq<L.UtilTimer>,
                    timers: seq<L.UtilTimer>, w: Waiting, now: int)
    requires nodes == gone + rest && L.IsPlace(nodes, 0, |gone|, now) && Numbered(nodes, timers)
    requires ListHolds(L.Entries(nodes), w.expiry)
    ensures Numbered(rest, timers)
    ensures Fired(w, Turn(now), L.Entries(gone)) && ListHolds(L.Entries(rest), NotDue(w.expiry, now))
  {
    hide Fired, ListHolds, Place, Numbered;
    var l := L.Entries(nodes);
    L.PlaceOfNodes(nodes, |gone|, now);
    assert L.Entries(gone) == l[..|gone|] && L.Entries(rest) == l[|gone|..];
    ListTickHolds(l, w, now);
    BehindNumbered(nodes, gone, rest, timers);
  }

  lemma BehindNumbered(nodes: seq<L.UtilTimer>, gone: seq<L.UtilTimer>, rest: seq<L.UtilTimer>,
                       timers: seq<L.UtilTimer>)
    requires nodes == gone + rest && Numbered(nodes, timers)
    ensures Numbered(rest, timers)
  {
    assert forall i :: 0 <= i < |rest| ==> rest[i] == nodes[|gone| + i];
  }

  /** Any script on a new list: it stays sorted, and each tick fires exactly the due timers. */
  method RunList(script: seq<Request>) returns (list: L.SortTimerList, timers: seq<L.UtilTimer>, log: seq<seq<Entry>>)
    ensures OnList(list, timers, AfterAll(script)) && L.SortedByExpiry(list.nodes)
    ensures Logged(script, log)
  {
    hide OnList, Logged, AfterAll, After, Fired;
    list := new L.SortTimerList();
    timers, log := [], [];
    var w := NOTHING_WAITS;
    NothingOnList(list);
    for i := 0 to |script|
      invariant fresh(list) && fresh(list.nodes)
      invariant w == AfterAll(script[..i]) && OnList(list, timers, w) && Logged(script[..i], log)
    {
      var timers', fired := PerformOnList(list, timers, w, script[i]);
      LoggedNext(script[..i], log, script[i], fired);
      assert script[..i + 1] == script[..i] + [script[i]];
      timers, log, w := timers', log + [fired], After(w, script[i]);
    }
    assert script[..|script|] == script;
    OnListSorted(list, timers, w);
  }

  lemma NothingOnList(list: L.SortTimerList)
    requires list.Valid() && list.nodes == []
    ensures OnList(list, [], NOTHING_WAITS) && AfterAll([]) == NOTHING_WAITS && Logged([], [])
  {
  }

  lemma OnListSorted(list: L.SortTimerList, timers: seq<L.UtilTimer>, w: Waiting)
    requires OnList(list, timers, w)
    ensures L.SortedByExpiry(list.nodes)
  {
    SortedNodes(list.nodes);
  }

  // ----- the heap itself -----

  /** A timer heap whose live timers are numbered by `timers` and are those that wait. */
  ghost predicate OnHeap(heap: TimeHeap, timers: seq<HeapTimer>, w: Waiting)
    reads heap, heap.cells, heap.Timers()
  {
    && heap.Valid() && 0 < heap.capacity && LiveNumbered(heap.Timers(), timers)
    && HeapHolds(multiset(HeapEntries(heap.Timers())), w.expiry)
    && |timers| == w.started && forall k :: k in w.expiry ==> k < w.started
  }

  /** No timer is in the heap twice, and a live one is the last that has its number. */
  ghost predicate LiveNumbered(s: Cells, timers: seq<HeapTimer>)
    reads s
  {
    && (forall k :: 0 <= k < |timers| ==> timers[k].id == k)
    && forall t :: t in s ==>
         t != null && multiset(s)[t] == 1 && (t.cbFunc ==> t.id < |timers| && timers[t.id] == t)
  }

  lemma OnHeapAt(heap: TimeHeap, timers: seq<HeapTimer>, w: Waiting, k: nat) returns (p: nat)
    requires OnHeap(heap, timers, w) && k in w.expiry
    ensures p < |heap.Timers()| && k < |timers| && heap.Timers()[p] == timers[k] && timers[k].cbFunc
    ensures timers[k].id == k && timers[k].expire == w.expiry[k]
    ensures forall i :: 0 <= i < |heap.Timers()| && i != p ==> heap.Timers()[i] != timers[k]
  {
    var s, e := heap.Timers(), HeapEntry(Entry(k, w.expiry[k]), true);
    var h := HeapEntries(s);
    assert multiset(h)[e] == 1 && e in multiset(h);
    p :| 0 <= p < |h| && h[p] == e;
    assert s[p] in s;
    OnlyThere(s, p);
  }

  lemma OnlyThere(s: Cells, p: nat)
    requires p < |s| && multiset(s)[s[p]] == 1
    ensures forall i :: 0 <= i < |s| && i != p ==> s[i] != s[p]
  {
    forall i | 0 <= i < |s| && i != p
      ensures s[i] != s[p]
    {
      RemoveCounts(s, p);
      RemoveIndex(s, p, if i < p then i else i - 1);
      assert s[i] in RemoveAt(s, p) && s[i] in multiset(RemoveAt(s, p));
    }
  }

  method PerformOnHeap(heap: TimeHeap, timers: seq<HeapTimer>, w: Waiting, r: Request)
      returns (timers': seq<HeapTimer>, fired: seq<Entry>)
    requires OnHeap(heap, timers, w)
    modifies heap, heap.cells, heap.Timers()
    ensures heap.cells == old(heap.cells) || fresh(heap.cells)
    ensures OnHeap(heap, timers', After(w, r)) && Fired(w, r, fired)
    ensures forall i :: 0 <= i < |heap.Timers()| ==> heap.Timers()[i] in old(heap.Timers()) || fresh(heap.Timers()[i])
  {
    hide OnHeap;
    timers', fired := timers, [];
    match r
    case Start(expire) =>
      LastNumberFree(heap, timers, w);
      var t := new HeapTimer(expire, w.started);
      timers' := AddNumber(heap, timers, w, t);
    case Cancel(k) =>
      CancelOnHeap(heap, timers, w, k);
    case Raise(k, more) =>
      timers' := RaiseOnHeap(heap, timers, w, k, more);
    case Turn(now) =>
      fired := TurnHeap(heap, timers, w, now);
  }

  /** Adds a timer with a number that none that waits has. */
  method AddNumber(heap: TimeHeap, timers: seq<HeapTimer>, w: Waiting, t: HeapTimer) returns (timers': seq<HeapTimer>)
    requires OnHeap(heap, timers, w) && NoneLive(heap.Timers(), t.id) && t.id <= |timers| && t.id !in w.expiry
    requires t.cbFunc && t !in heap.Timers()
    modifies heap, heap.cells
    ensures heap.cells == old(heap.cells) || fresh(heap.cells)
    ensures OnHeap(heap, timers', Waiting(|timers'|, w.expiry[t.id := t.expire]))
    ensures |timers'| == if t.id == |timers| then |timers| + 1 else |timers|
    ensures forall i :: 0 <= i < |heap.Timers()| ==> heap.Timers()[i] in old(heap.Timers()) || heap.Timers()[i] == t
  {
    hide HeapHolds, LiveNumbered, OrderedFrom, HeapEntries, NoneLive;
    ghost var before := heap.Timers();
    var fits := heap.AddTimer(t);
    timers' := if t.id == |timers| then timers + [t] else timers[t.id := t];
    AddedHolds(before, t, heap.Timers(), timers, timers', w);
  }

  lemma AddedHolds(before: Cells, t: HeapTimer, after: Cells, timers: seq<HeapTimer>, timers': seq<HeapTimer>,
                   w: Waiting)
    requires NonNull(before) && NonNull(after) && LiveNumbered(before, timers) && NoneLive(before, t.id)
    requires t.cbFunc && t !in before && multiset(after) == multiset(before) + multiset{t}
    requires t.id <= |timers| && timers' == if t.id == |timers| then timers + [t] else timers[t.id := t]
    requires HeapHolds(multiset(HeapEntries(before)), w.expiry) && t.id !in w.expiry
    ensures HeapHolds(multiset(HeapEntries(after)), w.expiry[t.id := t.expire]) && LiveNumbered(after, timers')
    ensures forall i :: 0 <= i < |after| ==> after[i] in before || after[i] == t
  {
    hide HeapHolds, LiveNumbered, NoneLive, HeapEntries;
    HeapAddIsStep(before, t, after);
    HeapAddHolds(multiset(HeapEntries(before)), w.expiry, EntryOf(t));
    AddNumbered(before, t, after, timers, timers');
  }

  ghost predicate NoneLive(s: Cells, k: nat)
    reads s
  {
    forall t :: t in s && t != null && t.cbFunc ==> t.id != k
  }

  lemma LastNumberFree(heap: TimeHeap, timers: seq<HeapTimer>, w: Waiting)
    requires OnHeap(heap, timers, w)
    ensures |timers| == w.started && w.started !in w.expiry && NoneLive(heap.Timers(), w.started)
    ensures forall k :: k in w.expiry ==> k < |timers|
  {
  }

  lemma AddNumbered(before: Cells, t: HeapTimer, after: Cells, timers: seq<HeapTimer>, timers': seq<HeapTimer>)
    requires LiveNumbered(before, timers) && t !in before && multiset(after) == multiset(before) + multiset{t}
    requires t.id <= |timers| && timers' == if t.id == |timers| then timers + [t] else timers[t.id := t]
    requires NoneLive(before, t.id)
    ensures LiveNumbered(after, timers')
    ensures forall i :: 0 <= i < |after| ==> after[i] in before || after[i] == t
  {
    assert forall i :: 0 <= i < |after| ==> after[i] in multiset(after);
    forall u | u in after
      ensures u != null && multiset(after)[u] == 1 && (u.cbFunc ==> u.id < |timers'| && timers'[u.id] == u)
    {
      assert u in multiset(after);
      assert u != t ==> u in multiset(before) && u in before;
      assert t !in multiset(before);
    }
  }

  method CancelOnHeap(heap: TimeHeap, timers: seq<HeapTimer>, w: Waiting, k: nat)
    requires OnHeap(heap, timers, w)
    modifies heap.Timers()
    ensures OnHeap(heap, timers, After(w, Cancel(k))) && heap.Timers() == old(heap.Timers())
    ensures k in w.expiry ==> NoneLive(heap.Timers(), k)
  {
    hide HeapHolds, OrderedFrom, LiveNumbered, NoneLive;
    if k in w.expiry {
      ghost var p := OnHeapAt(heap, timers, w, k);
      CancelAt(heap, timers, w, k, p);
    } else {
      assert After(w, Cancel(k)) == w by {
        assert w.expiry - {k} == w.expiry;
      }
    }
  }

  method CancelAt(heap: TimeHeap, timers: seq<HeapTimer>, w: Waiting, k: nat, ghost p: nat)
    requires OnHeap(heap, timers, w) && k < |timers| && timers[k].id == k && timers[k].cbFunc
    requires p < |heap.Timers()| && heap.Timers()[p] == timers[k]
    requires forall i :: 0 <= i < |heap.Timers()| && i != p ==> heap.Timers()[i] != timers[k]
    modifies timers[k]
    ensures OnHeap(heap, timers, After(w, Cancel(k))) && heap.Timers() == old(heap.Timers())
    ensures NoneLive(heap.Timers(), k)
  {
    hide HeapHolds, OrderedFrom, NoneLive;
    ghost var s, h := heap.Timers(), HeapEntries(heap.Timers());
    heap.DelTimer(timers[k], p);
    CancelledHolds(s, h, w.expiry, p);
    OnlyLastLive(s, timers, k);
  }

  lemma OnlyLastLive(s: Cells, timers: seq<HeapTimer>, k: nat)
    requires LiveNumbered(s, timers) && k < |timers| && !timers[k].cbFunc
    ensures NoneLive(s, k)
  {
  }

  lemma CancelledHolds(s: Cells, h: seq<HeapEntry>, m: map<nat, int>, p: nat)
    requires NonNull(s) && p < |h| && h[p].live && HeapHolds(multiset(h), m)
    requires HeapEntries(s) == h[p := HeapEntry(h[p].entry, false)]
    ensures HeapHolds(multiset(HeapEntries(s)), m - {h[p].entry.id}) && !s[p].cbFunc
  {
    var e := h[p].entry;
    assert HeapEntries(s)[p] == HeapEntry(e, false);
    assert multiset(HeapEntries(s)) == multiset(h) - multiset{h[p]} + multiset{HeapEntry(e, false)};
    HeapDelHolds(multiset(h), m, e);
  }

  /** The heap cannot move a timer; its user cancels it and adds another one with its number. */
  method RaiseOnHeap(heap: TimeHeap, timers: seq<HeapTimer>, w: Waiting, k: nat, more: nat)
      returns (timers': seq<HeapTimer>)
    requires OnHeap(heap, timers, w)
    modifies heap, heap.cells, heap.Timers()
    ensures heap.cells == old(heap.cells) || fresh(heap.cells)
    ensures OnHeap(heap, timers', After(w, Raise(k, more)))
    ensures forall i :: 0 <= i < |heap.Timers()| ==> heap.Timers()[i] in old(heap.Timers()) || fresh(heap.Timers()[i])
  {
    hide OnHeap, NoneLive;
    timers' := timers;
    LastNumberFree(heap, timers, w);
    if k in w.expiry {
      var t := new HeapTimer(w.expiry[k] + more, k);
      CancelOnHeap(heap, timers, w, k);
      timers' := AddNumber(heap, timers, After(w, Cancel(k)), t);
      assert (w.expiry - {k})[k := w.expiry[k] + more] == w.expiry[k := w.expiry[k] + more];
    }
  }

  method TurnHeap(heap: TimeHeap, timers: seq<HeapTimer>, w: Waiting, now: int) returns (fired: seq<Entry>)
    requires OnHeap(heap, timers, w)
    modifies heap, heap.cells
    ensures heap.cells == old(heap.cells)
    ensures OnHeap(heap, timers, After(w, Turn(now))) && Fired(w, Turn(now), fired)
    ensures forall i :: 0 <= i < |heap.Timers()| ==> heap.Timers()[i] in old(heap.Timers())
  {
    hide HeapHolds, Fired, LiveNumbered, OrderedFrom, HeapEntries, WithCallback, EntriesOf, InExpiryOrder;
    ghost var before := heap.Timers();
    assert NonNull(before);
    var ran, popped := heap.Tick(now);
    TurnedHeap(before, popped, heap.Timers(), timers, w, now);
    fired := EntriesOf(ran);
  }

  /** What a tick of the heap ensures, as a tick of the set. */
  lemma TurnedHeap(before: Cells, popped: Cells, rest: Cells, timers: seq<HeapTimer>, w: Waiting, now: int)
    requires NonNull(before) && NonNull(popped) && NonNull(rest)
    requires multiset(popped) + multiset(rest) == multiset(before) && InExpiryOrder(popped)
    requires (forall t :: t in popped ==> t.expire <= now) && (forall t :: t in rest ==> t.expire > now)
    requires LiveNumbered(before, timers) && HeapHolds(multiset(HeapEntries(before)), w.expiry)
    ensures NonNull(WithCallback(popped)) && Fired(w, Turn(now), EntriesOf(WithCallback(popped)))
    ensures HeapHolds(multiset(HeapEntries(rest)), NotDue(w.expiry, now))
    ensures LiveNumbered(rest, timers) && forall i :: 0 <= i < |rest| ==> rest[i] in before
  {
    hide HeapHolds, Fired, LiveNumbered, HeapEntries, HeapTicks, WithCallback, EntriesOf, InExpiryOrder, NotDue;
    HeapTickIsStep(before, popped, rest, now);
    HeapTickHolds(multiset(HeapEntries(before)), w, now, HeapEntries(popped), EntriesOf(WithCallback(popped)),
                  multiset(HeapEntries(rest)));
    RestNumbered(before, popped, rest, timers);
  }

  lemma RestNumbered(before: Cells, popped: Cells, rest: Cells, timers: seq<HeapTimer>)
    requires LiveNumbered(before, timers) && multiset(popped) + multiset(rest) == multiset(before)
    ensures LiveNumbered(rest, timers) && forall i :: 0 <= i < |rest| ==> rest[i] in before
  {
    forall t | t in rest
      ensures t in before && multiset(rest)[t] == 1
    {
      assert t in multiset(rest) && t in multiset(before);
    }
    assert forall i :: 0 <= i < |rest| ==> rest[i] in rest;
  }

  /** Any script on a new heap. */
  method RunHeap(script: seq<Request>, capacity: nat)
      returns (heap: TimeHeap, timers: seq<HeapTimer>, log: seq<seq<Entry>>)
    requires 0 < capacity
    ensures OnHeap(heap, timers, AfterAll(script)) && Logged(script, log)
  {
    hide OnHeap, Logged, AfterAll, After, Fired;
    heap := new TimeHeap(capacity);
    timers, log := [], [];
    var w := NOTHING_WAITS;
    NothingOnHeap(heap);
    for i := 0 to |script|
      invariant fresh(heap) && fresh(heap.cells) && fresh(heap.Timers())
      invariant w == AfterAll(script[..i]) && OnHeap(heap, timers, w) && Logged(script[..i], log)
    {
      var timers', fired := PerformOnHeap(heap, timers, w, script[i]);
      LoggedNext(script[..i], log, script[i], fired);
      assert script[..i + 1] == script[..i] + [script[i]];
      timers, log, w := timers', log + [fired], After(w, script[i]);
    }
    assert script[..|script|] == script;
  }

  lemma NothingOnHeap(heap: TimeHeap)
    requires heap.Valid() && 0 < heap.capacity && heap.Timers() == []
    ensures OnHeap(heap, [], NOTHING_WAITS) && AfterAll([]) == NOTHING_WAITS && Logged([], [])
  {
  }

  // ----- both -----

  /** Heap and list under one script: in every tick they run the same callbacks, each as often,
      in the same sequence of expiry times. */
  method RunBoth(script: seq<Request>, capacity: nat) returns (heapLog: seq<seq<Entry>>, listLog: seq<seq<Entry>>)
    requires 0 < capacity
    ensures Logged(script, heapLog) && Logged(script, listLog)
    ensures forall i :: 0 <= i < |script| ==> SameCallbacks(heapLog[i], listLog[i])
  {
    hide OnHeap, OnList, Logged;
    var heap, list, ht, lt;
    heap, ht, heapLog := RunHeap(script, capacity);
    list, lt, listLog := RunList(script);
    LogsAgree(script, heapLog, listLog);
  }
}
