/** What timers are to both containers: an identity and an absolute expiry time; and where
    a time belongs among ascending ones. */
module TimerValues {

  datatype Entry = Entry(id: nat, expire: int)

  /** A timer in the heap; `live` until it is deleted. */
  datatype HeapEntry = HeapEntry(entry: Entry, live: bool)

  function InsertAt<T>(s: seq<T>, k: nat, x: T): seq<T>
    requires k <= |s|
  {
    s[..k] + [x] + s[k..]
  }

  function RemoveAt<T>(s: seq<T>, k: nat): seq<T>
    requires k < |s|
  {
    s[..k] + s[k + 1..]
  }

  predicate SortedEntries(l: seq<Entry>) {
    forall i, j :: 0 <= i < j < |l| ==> l[i].expire <= l[j].expire
  }

  /** The number of leading timers that expire no later than `e`. */
  function Place(l: seq<Entry>, e: int): (k: nat)
    ensures k <= |l|
    ensures k < |l| ==> l[k].expire > e
    ensures forall i :: 0 <= i < k ==> l[i].expire <= e
  {
    if l == [] || l[0].expire > e then 0 else 1 + Place(l[1..], e)
  }

  /** Stable insertion keeps the order: everything in front is no later, everything behind is. */
  lemma InsertSorted(l: seq<Entry>, e: Entry)
    requires SortedEntries(l)
    ensures var k := Place(l, e.expire);
            SortedEntries(InsertAt(l, k, e)) && forall i :: k <= i < |l| ==> e.expire < l[i].expire
  {
    var k := Place(l, e.expire);
    var r := InsertAt(l, k, e);
    forall i | k <= i < |l|
      ensures e.expire < l[i].expire
    {
      assert l[k].expire <= l[i].expire;
    }
    forall i, j | 0 <= i < j < |r|
      ensures r[i].expire <= r[j].expire
    {
      InsertIndex(l, k, e, i);
      InsertIndex(l, k, e, j);
    }
  }

  lemma InsertIndex<T>(s: seq<T>, k: nat, x: T, i: nat)
    requires k <= |s| && i <= |s|
    ensures InsertAt(s, k, x)[i] == if i < k then s[i] else if i == k then x else s[i - 1]
  {
  }

  lemma RemoveIndex<T>(s: seq<T>, k: nat, i: nat)
    requires k < |s| && i < |s| - 1
    ensures RemoveAt(s, k)[i] == if i < k then s[i] else s[i + 1]
  {
  }

  lemma RemoveSorted(l: seq<Entry>, k: nat)
    requires SortedEntries(l) && k < |l|
    ensures SortedEntries(RemoveAt(l, k))
  {
    var r := RemoveAt(l, k);
    forall i, j | 0 <= i < j < |r|
      ensures r[i].expire <= r[j].expire
    {
      RemoveIndex(l, k, i);
      RemoveIndex(l, k, j);
    }
  }

  lemma InsertCounts<T>(s: seq<T>, k: nat, x: T)
    requires k <= |s|
    ensures multiset(InsertAt(s, k, x)) == multiset(s) + multiset{x}
  {
    assert s == s[..k] + s[k..];
  }

  lemma RemoveCounts<T>(s: seq<T>, k: nat)
    requires k < |s|
    ensures multiset(s) == multiset(RemoveAt(s, k)) + multiset{s[k]}
  {
    assert s == s[..k] + [s[k]] + s[k + 1..];
  }
}
