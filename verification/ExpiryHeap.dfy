/** The expiry heap of pkg/rowcache/memory.go: a binary heap of cache entries, soonest to expire first,
    in which every entry knows its own index. The sifting is container/heap's. */
module ExpiryHeap {
  class Entry<K, R> {
    const key: K
    const rows: R
    const cost: nat
    const expires: int
    /** Where the entry is in the heap, or -1. */
    var index: int

    constructor (key: K, rows: R, cost: nat, expires: int)
      ensures this.key == key && this.rows == rows && this.cost == cost && this.expires == expires
    {
      this.key, this.rows, this.cost, this.expires, index := key, rows, cost, expires, -1;
    }
  }

  function Parent(i: int): int {
    (i - 1) / 2
  }

  /** An entry expires no sooner than its parent. */
  ghost predicate Edge<K, R>(h: seq<Entry<K, R>>, i: int)
    requires 0 < i < |h|
  {
    h[Parent(i)].expires <= h[i].expires
  }

  ghost predicate Ordered<K, R>(h: seq<Entry<K, R>>) {
    forall i | 0 < i < |h| :: Edge(h, i)
  }

  /** Heap order but for the entry at i, whose children still respect its parent. */
  ghost predicate OrderedBut<K, R>(h: seq<Entry<K, R>>, i: int, n: int) {
    && 0 <= i && n <= |h|
    && (forall k | 0 < k < n && k != i && Parent(k) != i :: Edge(h, k))
    && (forall k | 0 < k < n && Parent(k) == i && i > 0 :: h[Parent(i)].expires <= h[k].expires)
  }

  /** The root expires first. */
  lemma {:induction false} RootIsFirst<K, R>(h: seq<Entry<K, R>>, i: nat)
    requires Ordered(h) && i < |h|
    ensures h[0].expires <= h[i].expires
    decreases i
  {
    if i > 0 {
      assert Edge(h, i);
      RootIsFirst(h, Parent(i));
    }
  }

  function Swapped<T>(h: seq<T>, i: nat, j: nat): (s: seq<T>)
    requires i < |h| && j < |h|
    ensures |s| == |h| && s[i] == h[j] && s[j] == h[i]
    ensures forall k | 0 <= k < |h| && k != i && k != j :: s[k] == h[k]
  {
    h[i := h[j]][j := h[i]]
  }

  lemma SwappedSame<T>(h: seq<T>, i: nat, j: nat)
    requires i < |h| && j < |h|
    ensures multiset(Swapped(h, i, j)) == multiset(h)
  {
  }

  /** Moving an entry that expires sooner than its parent up one level moves the gap with it. */
  lemma SiftUpStep<K, R>(h: seq<Entry<K, R>>, j: nat, n: nat)
    requires 0 < j < n && OrderedBut(h, j, n) && (forall k | 0 < k < n && Parent(k) == j :: Edge(h, k))
    requires h[j].expires < h[Parent(j)].expires
    ensures var s := Swapped(h, Parent(j), j);
            OrderedBut(s, Parent(j), n) && forall k | 0 < k < n && Parent(k) == Parent(j) :: Edge(s, k)
  {
    var p := Parent(j);
    var s := Swapped(h, p, j);
    forall k | 0 < k < n && k != p ensures Edge(s, k) {
      if Parent(k) == p && k != j {
        assert Edge(h, k);
      } else if Parent(k) == j {
        assert h[p].expires <= h[k].expires;
      } else if k != j {
        assert Edge(h, k);
      }
    }
    if p > 0 {
      assert Edge(h, p);
      forall k | 0 < k < n && Parent(k) == p ensures s[Parent(p)].expires <= s[k].expires {
        if k != j {
          assert Edge(h, k);
        }
      }
    }
  }

  /** Taking the last entry's place leaves a gap where the removed one was. */
  lemma RemovalLeavesGap<K, R>(h: seq<Entry<K, R>>, i: nat)
    requires Ordered(h) && i < |h| - 1
    ensures OrderedBut(Swapped(h, i, |h| - 1), i, |h| - 1)
  {
    var n := |h| - 1;
    var s := Swapped(h, i, n);
    forall k | 0 < k < n && k != i && Parent(k) != i ensures Edge(s, k) {
      assert Edge(h, k);
    }
    forall k | 0 < k < n && Parent(k) == i && i > 0 ensures s[Parent(i)].expires <= s[k].expires {
      assert Edge(h, k) && Edge(h, i);
    }
  }

  /** Moving an entry below its sooner child moves the gap down and mends the level above. */
  lemma SiftDownStep<K, R>(h: seq<Entry<K, R>>, i: nat, j: nat, n: nat)
    requires OrderedBut(h, i, n) && 0 < j < n && Parent(j) == i
    requires forall k | 0 < k < n && Parent(k) == i :: h[j].expires <= h[k].expires
    requires h[j].expires < h[i].expires
    ensures var s := Swapped(h, i, j);
            OrderedBut(s, j, n) && Edge(s, j) && (i > 0 ==> Edge(s, i))
  {
    var s := Swapped(h, i, j);
    forall k | 0 < k < n && k != j && Parent(k) != j ensures Edge(s, k) {
      if k != i && Parent(k) != i {
        assert Edge(h, k);
      }
    }
    forall k | 0 < k < n && Parent(k) == j ensures s[Parent(j)].expires <= s[k].expires {
      assert Edge(h, k);
    }
  }

  lemma LeafIsDone<K, R>(h: seq<Entry<K, R>>, i: nat, n: nat)
    requires n <= |h| && 2 * i + 1 >= n
    ensures forall k | 0 < k < n && Parent(k) == i :: Edge(h, k)
  {
  }

  lemma ChildIsFirst<K, R>(h: seq<Entry<K, R>>, i: nat, j: nat, n: nat)
    requires 2 * i + 1 < n <= |h|
    requires j == if 2 * i + 2 < n && h[2 * i + 2].expires < h[2 * i + 1].expires then 2 * i + 2 else 2 * i + 1
    ensures Parent(j) == i && forall k | 0 < k < n && Parent(k) == i :: h[j].expires <= h[k].expires
  {
  }

  lemma NodeIsDone<K, R>(h: seq<Entry<K, R>>, i: nat, j: nat, n: nat)
    requires 0 < j < n <= |h| && i < |h| && h[j].expires >= h[i].expires
    requires forall k | 0 < k < n && Parent(k) == i :: h[j].expires <= h[k].expires
    ensures forall k | 0 < k < n && Parent(k) == i :: Edge(h, k)
  {
  }

  class Heap<K, R> {
    var h: seq<Entry<K, R>>

    /** Every entry knows its index, so no entry occurs twice. */
    ghost predicate Indexed()
      reads this, h
    {
      forall i | 0 <= i < |h| :: h[i].index == i
    }

    ghost predicate Valid()
      reads this, h
    {
      Indexed() && Ordered(h)
    }

    constructor ()
      ensures Valid() && h == []
    {
      h := [];
    }

    method Swap(i: nat, j: nat)
      requires Indexed() && i < |h| && j < |h|
      modifies this, h[i], h[j]
      ensures Indexed() && h == Swapped(old(h), i, j) && multiset(h) == multiset(old(h))
    {
      SwappedSame(h, i, j);
      h := Swapped(h, i, j);
      h[i].index := i;
      h[j].index := j;
    }

    /** Sifts an entry toward the root; only the first n entries are in question. */
    method Up(j0: nat, ghost n: nat)
      requires Indexed() && j0 < n <= |h| && OrderedBut(h, j0, n) && forall k | 0 < k < n && Parent(k) == j0 :: Edge(h, k)
      modifies this, h
      ensures |h| == |old(h)| && Indexed() && multiset(h) == multiset(old(h)) && h[n..] == old(h)[n..]
      ensures OrderedTo(h, n)
    {
      var j := j0;
      while j > 0 && h[j].expires < h[Parent(j)].expires
        invariant 0 <= j < n <= |h| == |old(h)| && Indexed() && multiset(h) == multiset(old(h)) && h[n..] == old(h)[n..]
        invariant OrderedBut(h, j, n) && forall k | 0 < k < n && Parent(k) == j :: Edge(h, k)
        invariant forall e | e in h :: e in old(h)
        decreases j
      {
        SiftUpStep(h, j, n);
        assert h[j] in old(h) && h[Parent(j)] in old(h);
        Swap(Parent(j), j);
        j := Parent(j);
      }
    }

    /** Sifts an entry away from the root, within the first n; whether it moved. */
    method Down(i0: nat, n: nat) returns (moved: bool)
      requires Indexed() && i0 < n <= |h| && OrderedBut(h, i0, n)
      modifies this, h
      ensures |h| == |old(h)| && Indexed() && multiset(h) == multiset(old(h)) && h[n..] == old(h)[n..]
      ensures moved ==> OrderedTo(h, n)
      ensures !moved ==> h == old(h) && forall k | 0 < k < n && Parent(k) == i0 :: Edge(h, k)
    {
      hide Edge, OrderedBut, OrderedTo, Parent;
      var i := i0;
      while true
        invariant i0 <= i < n <= |h| == |old(h)| && Indexed() && multiset(h) == multiset(old(h)) && h[n..] == old(h)[n..]
        invariant OrderedBut(h, i, n) && if i > i0 then Edge(h, i) else h == old(h)
        invariant forall e | e in h :: e in old(h)
        decreases n - i
      {
        var j1 := 2 * i + 1;
        if j1 >= n {
          LeafIsDone(h, i, n);
          break;
        }
        var j := j1;
        if j1 + 1 < n && h[j1 + 1].expires < h[j1].expires {
          j := j1 + 1;
        }
        ChildIsFirst(h, i, j, n);
        if h[j].expires >= h[i].expires {
          NodeIsDone(h, i, j, n);
          break;
        }
        SiftDownStep(h, i, j, n);
        assert h[i] in old(h) && h[j] in old(h);
        Swap(i, j);
        i := j;
      }
      if i > i0 {
        GapIsClosed(h, i, n);
      }
      return i > i0;
    }

    method Push(e: Entry<K, R>)
      requires Valid() && e !in h
      modifies this, h, e
      ensures Valid() && multiset(h) == multiset(old(h)) + multiset{e}
    {
      hide Edge, OrderedBut, OrderedTo, Ordered, Parent;
      PushLeavesGap(h, e);
      e.index := |h|;
      h := h + [e];
      Up(|h| - 1, |h|);
      OrderedUpTo(h, |h|);
      assert h[..|h|] == h;
    }

    /** Takes out the entry at i, wherever it is. */
    method Remove(i: nat) returns (e: Entry<K, R>)
      requires Valid() && i < |h|
      modifies this, h
      ensures Valid() && e == old(h)[i] && e !in h
      ensures multiset(h) == multiset(old(h)) - multiset{e}
    {
      hide Edge, OrderedBut, OrderedTo, Ordered, Parent;
      var n := |h| - 1;
      if n != i {
        SwapOut(i);
      } else {
        LastIsFree(h);
      }
      e := Pop();
    }

    /** Moves the entry at i to the end, and whatever took its place where it belongs. */
    method SwapOut(i: nat)
      requires Valid() && i < |h| - 1
      modifies this, h
      ensures |h| == |old(h)| && Indexed() && OrderedTo(h, |h| - 1) && multiset(h) == multiset(old(h))
      ensures h[|h| - 1] == old(h)[i]
    {
      hide Edge, OrderedBut, OrderedTo, Ordered, Parent;
      var n := |h| - 1;
      RemovalLeavesGap(h, i);
      Swap(i, n);
      var moved := Down(i, n);
      if !moved {
        Up(i, n);
      }
      assert h[n] == h[n..][0] == old(h)[i];
    }

    /** Drops the last entry, which then has no index. */
    method Pop() returns (e: Entry<K, R>)
      requires Indexed() && h != [] && OrderedTo(h, |h| - 1)
      modifies this, h[|h| - 1]
      ensures Valid() && e == old(h)[|old(h)| - 1] && e !in h
      ensures multiset(h) == multiset(old(h)) - multiset{e}
    {
      hide Edge, OrderedTo, Ordered;
      var n := |h| - 1;
      e := h[n];
      OrderedUpTo(h, n);
      LastDropped(h);
      e.index := -1;
      h := h[..n];
    }
  }

  /** Heap order among the first n entries. */
  ghost predicate OrderedTo<K, R>(h: seq<Entry<K, R>>, n: int) {
    n <= |h| && forall k | 0 < k < n :: Edge(h, k)
  }

  lemma OrderedUpTo<K, R>(h: seq<Entry<K, R>>, n: nat)
    requires OrderedTo(h, n)
    ensures Ordered(h[..n])
  {
    forall k | 0 < k < n ensures Edge(h[..n], k) {
      assert Edge(h, k);
    }
  }

  lemma LastIsFree<K, R>(h: seq<Entry<K, R>>)
    requires Ordered(h) && h != []
    ensures OrderedTo(h, |h| - 1)
  {
  }

  lemma LastDropped<T>(h: seq<T>)
    requires h != []
    ensures multiset(h[..|h| - 1]) == multiset(h) - multiset{h[|h| - 1]}
  {
    assert h == h[..|h| - 1] + [h[|h| - 1]];
  }

  lemma PushLeavesGap<K, R>(h: seq<Entry<K, R>>, e: Entry<K, R>)
    requires Ordered(h)
    ensures OrderedBut(h + [e], |h|, |h| + 1) && forall k | 0 < k < |h| + 1 && Parent(k) == |h| :: Edge(h + [e], k)
  {
    forall k | 0 < k < |h| ensures Edge(h + [e], k) {
      assert Edge(h, k);
    }
  }

  lemma GapIsClosed<K, R>(h: seq<Entry<K, R>>, i: nat, n: nat)
    requires 0 < i < n && OrderedBut(h, i, n) && Edge(h, i) && forall k | 0 < k < n && Parent(k) == i :: Edge(h, k)
    ensures OrderedTo(h, n)
  {
  }
}
