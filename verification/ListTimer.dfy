/** list_timer.h: timers in a doubly linked list in ascending order of expiry. */
module ListTimers {
  import opened TimerValues

  class UtilTimer {
    var expire: int
    const id: nat
    var prev: UtilTimer?
    var next: UtilTimer?

    constructor (expire: int, id: nat)
      ensures this.expire == expire && this.id == id && prev == null && next == null
    {
      this.expire, this.id, prev, next := expire, id, null, null;
    }
  }

  /** `s` is linked in both directions, ends in nulls and holds no timer twice. */
  ghost predicate Chain(s: seq<UtilTimer>)
    reads s`prev, s`next
  {
    && (forall i {:trigger s[i].next} :: 0 <= i < |s| - 1 ==> s[i].next == s[i + 1])
    && (forall i {:trigger s[i].prev} :: 0 < i < |s| ==> s[i].prev == s[i - 1])
    && (s != [] ==> s[0].prev == null && s[|s| - 1].next == null)
    && forall i, j :: 0 <= i < j < |s| ==> s[i] != s[j]
  }

  /** From index `lo` on, the timers in front of `p` expire no later than `e`; the one at `p` does. */
  ghost predicate IsPlace(s: seq<UtilTimer>, lo: nat, p: nat, e: int)
    reads s`expire
  {
    && lo <= p <= |s| && (p < |s| ==> e < s[p].expire)
    && forall i :: lo <= i < p ==> s[i].expire <= e
  }

  /** Where adjust_timer puts timer `k`: it stays unless the next one is no later; then it
      goes behind that one, in front of the first later timer that expires later. */
  ghost predicate AdjustedTo(s: seq<UtilTimer>, k: nat, p: nat)
    requires k < |s|
    reads s`expire
  {
    && k <= p < |s|
    && if k + 1 == |s| || s[k].expire < s[k + 1].expire then p == k
       else IsPlace(RemoveAt(s, k), k + 1, p, s[k].expire)
  }

  ghost predicate SortedByExpiry(s: seq<UtilTimer>)
    reads s`expire
  {
    forall i, j :: 0 <= i < j < |s| ==> s[i].expire <= s[j].expire
  }

  /** The list as a value. */
  function Entries(s: seq<UtilTimer>): (l: seq<Entry>)
    reads s
    ensures |l| == |s| && forall i :: 0 <= i < |s| ==> l[i] == Entry(s[i].id, s[i].expire)
  {
    seq(|s|, i requires 0 <= i < |s| reads s => Entry(s[i].id, s[i].expire))
  }

  /** The places of the methods below are those of the value. */
  lemma PlaceOfNodes(s: seq<UtilTimer>, p: nat, e: int)
    requires IsPlace(s, 0, p, e)
    ensures p == Place(Entries(s), e)
  {
  }

  lemma RemovedIsOut(s: seq<UtilTimer>, k: nat)
    requires Chain(s) && k < |s|
    ensures s[k] !in RemoveAt(s, k)
  {
  }

  /** Adding keeps the list sorted, and equal times stay in the order of arrival. */
  lemma AddedSorted(s: seq<UtilTimer>, p: nat, timer: UtilTimer)
    requires SortedByExpiry(s) && IsPlace(s, 0, p, timer.expire)
    ensures SortedByExpiry(InsertAt(s, p, timer))
    ensures forall i :: p <= i < |s| ==> timer.expire < s[i].expire
  {
  }

  /** adjust_timer is removal and stable re-insertion behind equal times, and keeps the list
      sorted, exactly when the new time is not earlier than that of the timer in front. */
  lemma AdjustmentExact(s: seq<UtilTimer>, k: nat, p: nat)
    requires k < |s| && SortedByExpiry(RemoveAt(s, k)) && AdjustedTo(s, k, p)
    ensures IsPlace(RemoveAt(s, k), 0, p, s[k].expire) <==> (k == 0 || s[k - 1].expire <= s[k].expire)
    ensures SortedByExpiry(InsertAt(RemoveAt(s, k), p, s[k])) <==> (k == 0 || s[k - 1].expire <= s[k].expire)
  {
    var ys, t := RemoveAt(s, k), s[k];
    assert k > 0 ==> ys[k - 1] == s[k - 1];
    assert k + 1 < |s| ==> ys[k] == s[k + 1];
    if k == 0 || s[k - 1].expire <= t.expire {
      forall i | 0 <= i < p
        ensures ys[i].expire <= t.expire
      {
        if i < k {
          assert ys[i].expire <= ys[k - 1].expire;
        }
      }
      AddedSorted(ys, p, t);
    } else {
      var zs := InsertAt(ys, p, t);
      assert zs[k - 1] == s[k - 1] && zs[p] == t;
    }
  }

  /** Of all timers the first have fired, being due, and the others are left. */
  ghost predicate FiredFrom(all: seq<UtilTimer>, fired: seq<UtilTimer>, rest: seq<UtilTimer>, now: int)
    reads all`expire
  {
    && |fired| <= |all| && fired == all[..|fired|] && rest == all[|fired|..]
    && forall i :: 0 <= i < |fired| ==> all[i].expire <= now
  }

  lemma NothingFired(all: seq<UtilTimer>, now: int)
    ensures FiredFrom(all, [], all, now)
  {
  }

  lemma FireNext(all: seq<UtilTimer>, fired: seq<UtilTimer>, rest: seq<UtilTimer>, now: int)
    requires FiredFrom(all, fired, rest, now) && rest != [] && rest[0].expire <= now
    ensures FiredFrom(all, fired + [rest[0]], rest[1..], now)
    ensures |rest| > 1 ==> rest[1] in all
  {
    assert rest[0] == all[|fired|] && (|rest| > 1 ==> rest[1] == all[|fired| + 1]);
    assert all[..|fired|] + [all[|fired|]] == all[..|fired| + 1];
  }

  lemma FiredDone(all: seq<UtilTimer>, fired: seq<UtilTimer>, rest: seq<UtilTimer>, now: int)
    requires FiredFrom(all, fired, rest, now) && (rest != [] ==> now < rest[0].expire)
    ensures IsPlace(all, 0, |fired|, now) && all == fired + rest
  {
    assert rest != [] ==> rest[0] == all[|fired|];
  }

  function Only(timer: UtilTimer?): set<UtilTimer> {
    if timer == null then {} else {timer}
  }

  class SortTimerList {
    var head: UtilTimer?
    var tail: UtilTimer?
    ghost var nodes: seq<UtilTimer>

    /** After a tick that fires everything, `tail` is left as it was. */
    ghost predicate Valid()
      reads this, nodes`prev, nodes`next
    {
      && Chain(nodes)
      && if nodes == [] then head == null else head == nodes[0] && tail == nodes[|nodes| - 1]
    }

    constructor ()
      ensures Valid() && nodes == []
    {
      head, tail, nodes := null, null, [];
    }

    /** Puts the timer in front of the first one that expires later. */
    method AddTimer(timer: UtilTimer?) returns (ghost p: nat)
      requires Valid()
      requires timer != null ==> timer !in nodes && timer.prev == null && timer.next == null
      modifies this, nodes`prev, nodes`next, Only(timer)`prev, Only(timer)`next
      ensures Valid()
      ensures timer == null ==> nodes == old(nodes)
      ensures timer != null ==> IsPlace(old(nodes), 0, p, timer.expire) && nodes == InsertAt(old(nodes), p, timer)
    {
      p := 0;
      if timer == null {
        return;
      }
      if head == null {
        head, tail := timer, timer;
        nodes := [timer];
        return;
      }
      if timer.expire < head.expire {
        PushHead(timer);
        return;
      }
      p := AddBehind(timer, head, 0);
    }

    method PushHead(timer: UtilTimer)
      requires Valid() && nodes != [] && timer !in nodes && timer.prev == null
      modifies this, nodes`prev, nodes`next, timer`prev, timer`next
      ensures Valid() && nodes == [timer] + old(nodes)
    {
      timer.next := head;
      head.prev := timer;
      head := timer;
      nodes := [timer] + nodes;
    }

    /** The private overload: inserts somewhere behind `listHead`, which is node `k`, in
        front of the first later timer that expires later. */
    method AddBehind(timer: UtilTimer, listHead: UtilTimer, ghost k: nat) returns (ghost p: nat)
      requires Valid() && timer !in nodes && k < |nodes| && listHead == nodes[k]
      modifies this, nodes`prev, nodes`next, timer`prev, timer`next
      ensures Valid()
      ensures IsPlace(old(nodes), k + 1, p, timer.expire) && nodes == InsertAt(old(nodes), p, timer)
    {
      var prev := listHead;
      var tmp := prev.next;
      p := k + 1;
      while tmp != null && !(timer.expire < tmp.expire)
        invariant k < p <= |nodes| && prev == nodes[p - 1] && tmp == nodes[p - 1].next
        invariant forall i :: k < i < p ==> nodes[i].expire <= timer.expire
        decreases |nodes| - p
      {
        assert p < |nodes| && tmp == nodes[p];
        prev := tmp;
        tmp := tmp.next;
        p := p + 1;
      }
      assert p < |nodes| ==> tmp == nodes[p];
      LinkBetween(timer, prev, tmp, p - 1);
    }

    /** Sets the four pointers, or the three and `tail` at the end of the list. */
    method LinkBetween(timer: UtilTimer, prev: UtilTimer, tmp: UtilTimer?, ghost p: nat)
      requires Valid() && timer !in nodes && p < |nodes| && prev == nodes[p] && tmp == nodes[p].next
      modifies this, nodes`prev, nodes`next, timer`prev, timer`next
      ensures Valid()
      ensures nodes == InsertAt(old(nodes), p + 1, timer)
    {
      assert tmp != null ==> p + 1 < |nodes| && tmp == nodes[p + 1];
      if tmp != null {
        LinkInside(timer, prev, tmp, p);
      } else {
        LinkAtEnd(timer, prev);
        assert p + 1 == |nodes| - 1;
      }
    }

    method LinkInside(timer: UtilTimer, prev: UtilTimer, tmp: UtilTimer, ghost p: nat)
      requires Valid() && timer !in nodes && p < |nodes| - 1 && prev == nodes[p] && tmp == nodes[p + 1]
      modifies this, nodes`prev, nodes`next, timer`prev, timer`next
      ensures Valid()
      ensures nodes == InsertAt(old(nodes), p + 1, timer)
    {
      prev.next := timer;
      timer.next := tmp;
      tmp.prev := timer;
      timer.prev := prev;
      nodes := InsertAt(nodes, p + 1, timer);
    }

    method LinkAtEnd(timer: UtilTimer, prev: UtilTimer)
      requires Valid() && timer !in nodes && nodes != [] && prev == nodes[|nodes| - 1]
      modifies this, nodes`prev, nodes`next, timer`prev, timer`next
      ensures Valid()
      ensures nodes == old(nodes) + [timer] == InsertAt(old(nodes), |old(nodes)|, timer)
    {
      prev.next := timer;
      timer.prev := prev;
      timer.next := null;
      tail := timer;
      nodes := nodes + [timer];
    }

    /** Called after the caller has changed `timer.expire`. */
    method AdjustTimer(timer: UtilTimer?, ghost k: nat) returns (ghost p: nat)
      requires Valid() && (timer != null ==> k < |nodes| && timer == nodes[k])
      modifies this, nodes`prev, nodes`next
      ensures Valid()
      ensures timer == null ==> nodes == old(nodes)
      ensures timer != null ==>
                AdjustedTo(old(nodes), k, p) && nodes == InsertAt(RemoveAt(old(nodes), k), p, timer)
    {
      p := k;
      if timer == null {
        return;
      }
      var tmp := timer.next;
      assert tmp != null ==> k + 1 < |nodes| && tmp == nodes[k + 1];
      if tmp == null || timer.expire < tmp.expire {
        assert nodes == InsertAt(RemoveAt(nodes, k), k, timer);
        return;
      }
      p := MoveBack(timer, k);
    }

    /** The head and the middle branch. */
    method MoveBack(timer: UtilTimer, ghost k: nat) returns (ghost p: nat)
      requires Valid() && k + 1 < |nodes| && timer == nodes[k]
      modifies this, nodes`prev, nodes`next
      ensures Valid()
      ensures IsPlace(RemoveAt(old(nodes), k), k + 1, p, timer.expire)
      ensures nodes == InsertAt(RemoveAt(old(nodes), k), p, timer)
    {
      hide Chain, IsPlace;
      if timer == head {
        HeadIsFirst(k);
        DetachHead(timer);
        p := AddBehind(timer, head, k);
      } else {
        Unlink(timer, k);
        p := AddBehind(timer, timer.next, k);
      }
    }

    lemma HeadIsFirst(k: nat)
      requires Valid() && k < |nodes| && nodes[k] == head
      ensures k == 0 && nodes[1..] == RemoveAt(nodes, 0)
    {
    }

    method DetachHead(timer: UtilTimer)
      requires Valid() && |nodes| > 1 && timer == head
      modifies this, nodes`prev, nodes`next
      ensures Valid() && nodes == old(nodes)[1..] && timer !in nodes
    {
      PopHead();
      timer.next := null;
    }

    /** Takes the first of several timers off. */
    method PopHead()
      requires Valid() && |nodes| > 1
      modifies this, nodes`prev, nodes`next
      ensures Valid() && nodes == old(nodes)[1..] && old(head) !in nodes
    {
      head := head.next;
      head.prev := null;
      nodes := nodes[1..];
    }

    /** Links the neighbours of a timer that has two; its own pointers stay. */
    method Unlink(timer: UtilTimer, ghost k: nat)
      requires Valid() && 0 < k < |nodes| - 1 && timer == nodes[k]
      modifies this, nodes`prev, nodes`next
      ensures Valid() && nodes == RemoveAt(old(nodes), k)
      ensures timer.next == nodes[k] && timer !in nodes
    {
      RemovedIsOut(nodes, k);
      assert timer.prev == nodes[k - 1] && timer.next == nodes[k + 1];
      timer.prev.next := timer.next;
      timer.next.prev := timer.prev;
      nodes := RemoveAt(nodes, k);
    }

    method DelTimer(timer: UtilTimer?, ghost k: nat)
      requires Valid() && (timer != null ==> k < |nodes| && timer == nodes[k])
      modifies this, nodes`prev, nodes`next
      ensures Valid()
      ensures nodes == if timer == null then old(nodes) else RemoveAt(old(nodes), k)
    {
      if timer == null {
        return;
      }
      if timer == head && timer == tail {
        head := null;
        tail := null;
        nodes := [];
        return;
      }
      if timer == head {
        PopHead();
        return;
      }
      if timer == tail {
        PopTail();
        return;
      }
      Unlink(timer, k);
    }

    method PopTail()
      requires Valid() && |nodes| > 1
      modifies this, nodes`prev, nodes`next
      ensures Valid() && nodes == old(nodes)[..|old(nodes)| - 1]
    {
      tail := tail.prev;
      tail.next := null;
      nodes := nodes[..|nodes| - 1];
    }

    /** Runs the callbacks of the timers in front of the first that is not yet due. */
    method Tick(now: int) returns (fired: seq<UtilTimer>)
      requires Valid()
      modifies this, nodes`prev, nodes`next
      ensures Valid()
      ensures IsPlace(old(nodes), 0, |fired|, now) && old(nodes) == fired + nodes
    {
      hide IsPlace, FiredFrom;
      fired := [];
      ghost var all := nodes;
      NothingFired(all, now);
      var tmp := head;
      while tmp != null
        invariant Valid() && tmp == head && FiredFrom(all, fired, nodes, now)
        decreases |nodes|
      {
        if now < tmp.expire {
          break;
        }
        FireNext(all, fired, nodes, now);
        assert tmp.next != null ==> tmp.next == nodes[1];
        RemoveHead();
        fired := fired + [tmp];
        tmp := head;
      }
      FiredDone(all, fired, nodes, now);
    }

    method RemoveHead()
      requires Valid() && head != null
      modifies this, Only(head.next)`prev
      ensures Valid() && nodes == old(nodes)[1..]
    {
      head := head.next;
      assert head != null ==> |nodes| > 1 && head == nodes[1];
      if head != null {
        head.prev := null;
      }
      nodes := nodes[1..];
    }
  }
}
