/** Heap order in an array, and the two sifts of min_heap_timer.h as functions. */
module HeapOrder {

  /** The key of an element is its absolute expiry time. */
  class HeapTimer {
    const expire: int
    const id: nat
    var cbFunc: bool

    constructor (expire: int, id: nat)
      ensures this.expire == expire && this.id == id && cbFunc
    {
      this.expire, this.id, cbFunc := expire, id, true;
    }
  }

  type Cells = seq<HeapTimer?>

  ghost predicate NonNull(s: Cells) {
    forall i :: 0 <= i < |s| ==> s[i] != null
  }

  function Parent(j: nat): (p: nat)
    requires j > 0
    ensures p < j && (j == 2 * p + 1 || j == 2 * p + 2)
  {
    (j - 1) / 2
  }

  /** Heap order below every node from `lo` on. */
  ghost predicate OrderedFrom(s: Cells, lo: nat)
    requires NonNull(s)
  {
    forall j {:trigger Parent(j)} :: 0 < j < |s| && lo <= Parent(j) ==> s[Parent(j)].expire <= s[j].expire
  }

  /** The same, except between `h` and its children, which are in order with `h`'s parent. */
  ghost predicate OrderedBut(s: Cells, lo: nat, h: nat)
    requires NonNull(s)
  {
    && (forall j {:trigger Parent(j)} :: 0 < j < |s| && lo <= Parent(j) && Parent(j) != h ==>
          s[Parent(j)].expire <= s[j].expire)
    && (forall j {:trigger Parent(j)} :: 0 < j < |s| && Parent(j) == h && 0 < h && lo <= Parent(h) ==>
          s[Parent(h)].expire <= s[j].expire)
  }

  function Swap(s: Cells, i: nat, j: nat): Cells
    requires i < |s| && j < |s|
  {
    s[i := s[j]][j := s[i]]
  }

  lemma SwapPermutes(s: Cells, i: nat, j: nat)
    requires i < |s| && j < |s|
    ensures multiset(Swap(s, i, j)) == multiset(s) && |Swap(s, i, j)| == |s|
    ensures NonNull(s) ==> NonNull(Swap(s, i, j))
  {
  }

  /** The child with the smaller expiry; the left one when they are equal. */
  function SmallerChild(s: Cells, h: nat): (c: nat)
    requires NonNull(s) && 2 * h + 1 < |s|
    ensures h < c < |s| && Parent(c) == h
    ensures forall j {:trigger Parent(j)} :: 0 < j < |s| && Parent(j) == h ==> s[c].expire <= s[j].expire
  {
    var c := 2 * h + 1;
    if c < |s| - 1 && s[c + 1].expire < s[c].expire then c + 1 else c
  }

  function SiftDown(s: Cells, h: nat): (r: Cells)
    requires NonNull(s)
    decreases |s| - h
  {
    if 2 * h + 1 >= |s| then s
    else
      var c := SmallerChild(s, h);
      if s[c].expire < s[h].expire then SwapPermutes(s, h, c); SiftDown(Swap(s, h, c), c) else s
  }

  function SiftUp(s: Cells, h: nat): (r: Cells)
    requires NonNull(s) && h < |s|
    decreases h
  {
    if h == 0 || s[Parent(h)].expire <= s[h].expire then s
    else SwapPermutes(s, Parent(h), h); SiftUp(Swap(s, Parent(h), h), Parent(h))
  }

  lemma {:induction false} SiftDownPermutes(s: Cells, h: nat)
    requires NonNull(s)
    ensures multiset(SiftDown(s, h)) == multiset(s)
    ensures |SiftDown(s, h)| == |s| && NonNull(SiftDown(s, h))
    decreases |s| - h
  {
    if 2 * h + 1 < |s| {
      var c := SmallerChild(s, h);
      if s[c].expire < s[h].expire {
        SwapPermutes(s, h, c);
        SiftDownPermutes(Swap(s, h, c), c);
      }
    }
  }

  /** Sifting the one element that may be out of place restores the order. */
  lemma {:induction false} SiftDownOrders(s: Cells, lo: nat, h: nat)
    requires NonNull(s) && lo <= h && OrderedBut(s, lo, h)
    ensures NonNull(SiftDown(s, h)) && OrderedFrom(SiftDown(s, h), lo)
    decreases |s| - h
  {
    SiftDownPermutes(s, h);
    if 2 * h + 1 < |s| {
      var c := SmallerChild(s, h);
      if s[c].expire < s[h].expire {
        var t := Swap(s, h, c);
        SwapPermutes(s, h, c);
        SwapStaysOrdered(s, lo, h, c);
        SiftDownOrders(t, lo, c);
      }
    }
  }

  lemma SwapStaysOrdered(s: Cells, lo: nat, h: nat, c: nat)
    requires NonNull(s) && lo <= h && OrderedBut(s, lo, h)
    requires 2 * h + 1 < |s| && c == SmallerChild(s, h) && s[c].expire < s[h].expire
    ensures NonNull(Swap(s, h, c)) && OrderedBut(Swap(s, h, c), lo, c)
  {
    var t := Swap(s, h, c);
    SwapPermutes(s, h, c);
    forall j | 0 < j < |t| && lo <= Parent(j) && Parent(j) != c
      ensures t[Parent(j)].expire <= t[j].expire
    {
      if Parent(j) == h {
        assert t[h] == s[c];
      } else if j == h {
        assert t[j] == s[c] && Parent(c) == h;
      } else {
        assert t[j] == s[j] && t[Parent(j)] == s[Parent(j)];
      }
    }
    forall j | 0 < j < |t| && Parent(j) == c
      ensures t[Parent(c)].expire <= t[j].expire
    {
      assert t[j] == s[j] && t[h] == s[c] && lo <= c != h;
    }
  }

  lemma {:induction false} SiftUpPermutes(s: Cells, h: nat)
    requires NonNull(s) && h < |s|
    ensures multiset(SiftUp(s, h)) == multiset(s) && |SiftUp(s, h)| == |s| && NonNull(SiftUp(s, h))
    decreases h
  {
    if h != 0 && s[Parent(h)].expire > s[h].expire {
      SwapPermutes(s, Parent(h), h);
      SiftUpPermutes(Swap(s, Parent(h), h), Parent(h));
    }
  }

  /** In order except towards `h`'s own parent, whose children below `h` it still dominates. */
  ghost predicate OrderedAbove(s: Cells, h: nat)
    requires NonNull(s)
  {
    && (forall j {:trigger Parent(j)} :: 0 < j < |s| && j != h ==> s[Parent(j)].expire <= s[j].expire)
    && (forall j {:trigger Parent(j)} :: 0 < j < |s| && Parent(j) == h && 0 < h ==> s[Parent(h)].expire <= s[j].expire)
  }

  lemma {:induction false} SiftUpOrders(s: Cells, h: nat)
    requires NonNull(s) && h < |s| && OrderedAbove(s, h)
    ensures NonNull(SiftUp(s, h)) && OrderedFrom(SiftUp(s, h), 0)
    decreases h
  {
    SiftUpPermutes(s, h);
    if h != 0 && s[Parent(h)].expire > s[h].expire {
      SwapPermutes(s, Parent(h), h);
      SwapStaysAbove(s, h);
      SiftUpOrders(Swap(s, Parent(h), h), Parent(h));
    }
  }

  lemma SwapStaysAbove(s: Cells, h: nat)
    requires NonNull(s) && 0 < h < |s| && OrderedAbove(s, h) && s[Parent(h)].expire > s[h].expire
    ensures NonNull(Swap(s, Parent(h), h)) && OrderedAbove(Swap(s, Parent(h), h), Parent(h))
  {
    var p := Parent(h);
    var t := Swap(s, p, h);
    SwapPermutes(s, p, h);
    forall j | 0 < j < |t| && j != p
      ensures t[Parent(j)].expire <= t[j].expire
      ensures Parent(j) == p && 0 < p ==> t[Parent(p)].expire <= t[j].expire
    {
      if j == h {
        assert t[h] == s[p];
      } else if Parent(j) == h {
        assert t[j] == s[j] && t[h] == s[p];
      } else {
        assert t[j] == s[j];
      }
    }
  }

  /** The root of an ordered heap expires first. */
  lemma {:induction false} RootIsFirst(s: Cells, i: nat)
    requires NonNull(s) && OrderedFrom(s, 0) && i < |s|
    ensures s[0].expire <= s[i].expire
    decreases i
  {
    if i > 0 {
      RootIsFirst(s, Parent(i));
    }
  }
}
