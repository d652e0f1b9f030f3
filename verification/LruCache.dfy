/** The cost-weighted cache of pkg/cache/cache.go: a recency list under a budget, its total kept in a
    wrapping 64-bit sum. */
module LruCache {
  import opened MachineInts
  import opened Wrappers

  datatype Entry<K, V> = Entry(key: K, value: V, cost: int64, stored: int)

  // The recency list, most recently used first.

  ghost predicate Distinct<K, V>(s: seq<Entry<K, V>>) {
    && (forall i, j | 0 <= i < j < |s| :: s[i].key != s[j].key)
    && (forall e | e in s :: e.cost >= 0)
  }

  function Total<K, V>(s: seq<Entry<K, V>>): int {
    if s == [] then 0 else Total(s[..|s| - 1]) + s[|s| - 1].cost
  }

  function Without<K(==), V>(s: seq<Entry<K, V>>, k: K): seq<Entry<K, V>> {
    if s == [] then []
    else if s[0].key == k then Without(s[1..], k)
    else [s[0]] + Without(s[1..], k)
  }

  /** Over budget as the cache sees it, or over its count. */
  predicate Over<K, V>(s: seq<Entry<K, V>>, budget: int64, maxEntries: nat) {
    I64(Total(s)) > budget || (maxEntries > 0 && |s| > maxEntries)
  }

  /** Evicting the least recently used while over. */
  function Evict<K, V>(s: seq<Entry<K, V>>, budget: int64, maxEntries: nat): seq<Entry<K, V>> {
    if s == [] || !Over(s, budget, maxEntries) then s else Evict(s[..|s| - 1], budget, maxEntries)
  }

  /** Truly within both bounds. */
  ghost predicate Fits<K, V>(s: seq<Entry<K, V>>, budget: int64, maxEntries: nat) {
    Total(s) <= budget && (maxEntries == 0 || |s| <= maxEntries)
  }

  /** The longest most-recent-first prefix that fits. */
  ghost predicate LongestFit<K, V>(t: seq<Entry<K, V>>, s: seq<Entry<K, V>>, budget: int64, maxEntries: nat) {
    t <= s && Fits(t, budget, maxEntries) && forall n | |t| < n <= |s| :: !Fits(s[..n], budget, maxEntries)
  }

  /** What the entry count alone leaves. */
  function Trimmed<K, V>(s: seq<Entry<K, V>>, maxEntries: nat): seq<Entry<K, V>> {
    if maxEntries > 0 && |s| > maxEntries then s[..maxEntries] else s
  }

  lemma {:induction false} TotalConcat<K, V>(a: seq<Entry<K, V>>, b: seq<Entry<K, V>>)
    ensures Total(a + b) == Total(a) + Total(b)
    decreases |b|
  {
    if b == [] {
      assert a + b == a;
    } else {
      assert (a + b)[..|a + b| - 1] == a + b[..|b| - 1];
      TotalConcat(a, b[..|b| - 1]);
    }
  }

  /** Costs are never negative, so a longer prefix never costs less. */
  lemma {:induction false} PrefixCosts<K, V>(s: seq<Entry<K, V>>, n: nat)
    requires Distinct(s) && n <= |s|
    ensures 0 <= Total(s[..n]) <= Total(s)
    decreases |s|
  {
    if n < |s| {
      var t := s[..|s| - 1];
      assert t[..n] == s[..n] && s[|s| - 1] in s;
      PrefixCosts(t, n);
    } else {
      assert s[..n] == s;
      if n > 0 {
        var t := s[..n - 1];
        assert s[n - 1] in s && t[..n - 1] == t;
        PrefixCosts(t, n - 1);
      }
    }
  }

  lemma {:induction false} WithoutKeeps<K, V>(s: seq<Entry<K, V>>, k: K)
    ensures |Without(s, k)| <= |s|
    ensures forall e :: e in Without(s, k) <==> e in s && e.key != k
    ensures (forall e | e in s :: e.key != k) ==> Without(s, k) == s
    decreases |s|
  {
    if s != [] {
      WithoutKeeps(s[1..], k);
      assert s == [s[0]] + s[1..];
    }
  }

  lemma DistinctTail<K, V>(s: seq<Entry<K, V>>)
    requires Distinct(s) && s != []
    ensures Distinct(s[1..])
  {
    assert forall e | e in s[1..] :: e in s;
  }

  lemma {:induction false} WithoutAt<K, V>(s: seq<Entry<K, V>>, i: nat)
    requires Distinct(s) && i < |s|
    ensures Without(s, s[i].key) == s[..i] + s[i + 1..]
    decreases i
  {
    if i == 0 {
      assert forall e | e in s[1..] :: e.key != s[0].key;
      WithoutKeeps(s[1..], s[0].key);
      assert s[..0] + s[1..] == s[1..];
    } else {
      assert s[0].key != s[i].key;
      DistinctTail(s);
      hide Distinct;
      WithoutAt(s[1..], i - 1);
      assert s[1..][i - 1] == s[i];
      assert [s[0]] + (s[1..][..i - 1] + s[1..][i..]) == s[..i] + s[i + 1..];
    }
  }

  lemma DistinctWithout<K, V>(s: seq<Entry<K, V>>, i: nat)
    requires Distinct(s) && i < |s|
    ensures Distinct(Without(s, s[i].key))
  {
    hide Without;
    WithoutAt(s, i);
    var t := s[..i] + s[i + 1..];
    assert forall j | 0 <= j < |t| :: t[j] == if j < i then s[j] else s[j + 1];
    assert forall e | e in t :: e in s;
  }

  /** Removing the entry with a key takes its cost off the total and leaves the rest in order. */
  lemma WithoutCosts<K, V>(s: seq<Entry<K, V>>, i: nat)
    requires Distinct(s) && i < |s|
    ensures Without(s, s[i].key) == s[..i] + s[i + 1..]
    ensures Total(Without(s, s[i].key)) == Total(s) - s[i].cost
  {
    hide Distinct, Without;
    WithoutAt(s, i);
    TotalConcat(s[..i], s[i + 1..]);
    TotalConcat(s[..i] + [s[i]], s[i + 1..]);
    assert s == s[..i] + [s[i]] + s[i + 1..];
    assert (s[..i] + [s[i]])[..i] == s[..i];
  }

  /** Eviction leaves a prefix; the newest entry survives if it fits on its own. */
  lemma {:induction false} EvictKeepsFront<K, V>(s: seq<Entry<K, V>>, budget: int64, maxEntries: nat)
    ensures Evict(s, budget, maxEntries) <= s
    ensures s != [] && 0 <= s[0].cost <= budget ==> Evict(s, budget, maxEntries) != []
    decreases |s|
  {
    if |s| == 1 {
      assert s[..0] == [] && Total(s) == s[0].cost;
    }
    if s != [] && Over(s, budget, maxEntries) {
      EvictKeepsFront(s[..|s| - 1], budget, maxEntries);
    }
  }

  lemma {:induction false} EvictTrims<K, V>(s: seq<Entry<K, V>>, budget: int64, maxEntries: nat)
    ensures Evict(s, budget, maxEntries) == Evict(Trimmed(s, maxEntries), budget, maxEntries)
    decreases |s|
  {
    if maxEntries > 0 && |s| > maxEntries {
      assert s[..|s| - 1][..maxEntries] == s[..maxEntries];
      EvictTrims(s[..|s| - 1], budget, maxEntries);
    }
  }

  /** While the total stays within an int64, what is left is the longest prefix that fits. */
  lemma {:induction false} EvictIsLongestFit<K, V>(s: seq<Entry<K, V>>, budget: int64, maxEntries: nat)
    requires Distinct(s) && budget >= 0 && Total(s) <= MAX_INT64
    ensures LongestFit(Evict(s, budget, maxEntries), s, budget, maxEntries)
    decreases |s|
  {
    PrefixCosts(s, |s|);
    assert s[..|s|] == s;
    if s != [] && Over(s, budget, maxEntries) {
      var t := s[..|s| - 1];
      PrefixCosts(s, |s| - 1);
      EvictIsLongestFit(t, budget, maxEntries);
      assert forall n | 0 <= n <= |t| :: t[..n] == s[..n];
    }
  }

  /** Eviction is exact if and only if the entries the count leaves total within an int64: past that the
      sum wraps negative, and nothing is evicted for cost. */
  lemma EvictIsExactIff<K, V>(s: seq<Entry<K, V>>, budget: int64, maxEntries: nat)
    requires Distinct(s) && budget >= 0 && Total(Trimmed(s, maxEntries)) < TWO_64
    ensures LongestFit(Evict(s, budget, maxEntries), s, budget, maxEntries) <==> Total(Trimmed(s, maxEntries)) <= MAX_INT64
  {
    var t := Trimmed(s, maxEntries);
    EvictTrims(s, budget, maxEntries);
    assert Distinct(t) by {
      assert forall e | e in t :: e in s;
    }
    if Total(t) <= MAX_INT64 {
      EvictIsLongestFit(t, budget, maxEntries);
      assert forall n | 0 <= n <= |t| :: t[..n] == s[..n];
    } else {
      WrapsNegative(Total(t));
      assert t != [];
    }
  }

  lemma WrapsNegative(x: int)
    requires MAX_INT64 < x < TWO_64
    ensures I64(x) == x - TWO_64
  {
    DivUnique(x - MIN_INT64, TWO_64, 1, x - MIN_INT64 - TWO_64);
  }

  /** Two entries within a budget of 2^62 that are both kept at twice the budget. */
  lemma OverflowKeepsTooMuch()
    ensures var budget := 0x4000_0000_0000_0000;
            var s := [Entry(1, (), budget, 0), Entry(0, (), budget, 0)];
            Evict(s, budget, 0) == s && Total(s) == 2 * budget
  {
    var budget := 0x4000_0000_0000_0000;
    var s := [Entry(1, (), budget, 0), Entry(0, (), budget, 0)];
    assert s[..1] == [s[0]] && [s[0]][..0] == [];
    assert Total([s[0]]) == budget;
    WrapsNegative(Total(s));
  }

  lemma WrapAdds(x: int, y: int)
    ensures I64(I64(x) + y) == I64(x + y)
  {
    var q := (x - MIN_INT64) / TWO_64;
    DivUnique(x - MIN_INT64, TWO_64, q, x - MIN_INT64 - q * TWO_64);
    assert I64(x) == x - q * TWO_64;
    var z := x + y - MIN_INT64;
    var p := z / TWO_64;
    DivUnique(z, TWO_64, p, z - p * TWO_64);
    DivUnique(z - q * TWO_64, TWO_64, p - q, z - p * TWO_64);
  }

  /** The duration between two instants, saturating as Go's does. */
  function Elapsed(now: int, then_: int): int64 {
    var d := now - then_;
    if d > MAX_INT64 then MAX_INT64 else if d < MIN_INT64 then MIN_INT64 else d
  }

  lemma FrontCosts<K, V>(e: Entry<K, V>, s: seq<Entry<K, V>>)
    requires Distinct(s) && e.cost >= 0 && forall x | x in s :: x.key != e.key
    ensures Total([e] + s) == e.cost + Total(s) && Distinct([e] + s)
    ensures 0 <= Total(s)
  {
    TotalConcat([e], s);
    assert [e][..0] == [] && Total([e]) == e.cost;
    PrefixCosts(s, |s|);
    assert s[..|s|] == s;
  }

  lemma TrimmedCosts<K, V>(s: seq<Entry<K, V>>, maxEntries: nat)
    requires Distinct(s)
    ensures Total(Trimmed(s, maxEntries)) <= Total(s)
  {
    if maxEntries > 0 && |s| > maxEntries {
      PrefixCosts(s, maxEntries);
    }
  }

  class Lru<K(==), V> {
    const budget: int64
    const maxEntries: nat
    const ttl: int64
    var cost: int64
    /** The recency list. */
    var order: seq<Entry<K, V>>
    var items: map<K, Entry<K, V>>

    /** The map and the list hold the same entries, and the cost is their total as an int64 sees it. */
    ghost predicate Valid()
      reads this
    {
      && budget >= 0
      && Distinct(order) && cost == I64(Total(order))
      && (forall e | e in order :: e.key in items && items[e.key] == e)
      && (forall k | k in items :: items[k] in order && items[k].key == k)
    }

    constructor (budget: int64, maxEntries: nat, ttl: int64)
      requires budget >= 0
      ensures Valid() && order == [] && Fits(order, budget, maxEntries)
      ensures this.budget == budget && this.maxEntries == maxEntries && this.ttl == ttl
    {
      this.budget, this.maxEntries, this.ttl := budget, maxEntries, ttl;
      cost, order, items := 0, [], map[];
    }

    /** Takes one entry out of the list, the map and the cost. */
    method Remove(e: Entry<K, V>)
      requires Valid() && e in order
      modifies this
      ensures Valid() && order == Without(old(order), e.key)
    {
      hide Total, Without, I64, Distinct;
      ghost var i :| 0 <= i < |order| && order[i] == e;
      WithoutCosts(order, i);
      WithoutKeeps(order, e.key);
      DistinctWithout(order, i);
      NotNegative(order, e);
      WrapAdds(Total(order), -e.cost);
      order := Without(order, e.key);
      items := items - {e.key};
      cost := I64(cost - e.cost);
    }

    /** Marks an entry as the most recently used. */
    method MoveToFront(e: Entry<K, V>)
      requires Valid() && e in order
      modifies this`order
      ensures Valid() && order == [e] + Without(old(order), e.key)
      ensures Total(order) == Total(old(order)) && |order| <= |old(order)|
    {
      hide Total, Without, I64;
      ghost var i :| 0 <= i < |order| && order[i] == e;
      WithoutCosts(order, i);
      WithoutKeeps(order, e.key);
      DistinctWithout(order, i);
      FrontCosts(e, Without(order, e.key));
      order := [e] + Without(order, e.key);
    }

    /** Adds a new entry at the front. */
    method PushFront(e: Entry<K, V>)
      requires Valid() && e.key !in items && e.cost >= 0
      modifies this
      ensures Valid() && order == [e] + old(order)
    {
      hide Total, I64;
      FrontCosts(e, order);
      WrapAdds(Total(order), e.cost);
      order, items, cost := [e] + order, items[e.key := e], I64(cost + e.cost);
    }

    /** Evicts from the back while over; the front entry, which fits on its own, stays. */
    method EvictOver()
      requires Valid() && order != [] && order[0].cost <= budget
      modifies this
      ensures Valid() && order == Evict(old(order), budget, maxEntries) && order <= old(order) && order != []
    {
      hide Total, I64, Without, Distinct;
      assert order[0].cost >= 0 by { NotNegative(order, order[0]); }
      EvictKeepsFront(order, budget, maxEntries);
      while cost > budget || (maxEntries > 0 && |order| > maxEntries)
        invariant Valid() && order != [] && order <= old(order)
        invariant Evict(order, budget, maxEntries) == Evict(old(order), budget, maxEntries)
        decreases |order|
      {
        assert order[..|order| - 1] <= old(order);
        LastWithout(order);
        Remove(order[|order| - 1]);
      }
    }

    /** An expired entry is removed and absent; any other becomes the most recently used. */
    method Get(k: K, now: int) returns (r: Option<V>)
      requires Valid()
      modifies this
      ensures Valid()
      ensures !old(k in items) ==> r == None && order == old(order)
      ensures old(k in items) ==>
                var e := old(items[k]);
                if 0 < ttl < MAX_INT64 && now > e.stored + ttl then r == None && order == Without(old(order), k)
                else r == Some(e.value) && order == [e] + Without(old(order), k)
      ensures old(Fits(order, budget, maxEntries)) ==> Fits(order, budget, maxEntries)
    {
      hide Distinct, Total, Without, I64;
      if k !in items {
        return None;
      }
      var e := items[k];
      if ttl > 0 && Elapsed(now, e.stored) > ttl {
        WithoutFits(order, e, budget, maxEntries);
        Remove(e);
        return None;
      }
      MoveToFront(e);
      return Some(e.value);
    }

    /** Stores an entry and evicts the least recently used while over. What survives is a prefix of the
        recency list with the new entry first; it is the longest that fits unless the sum overflows. */
    method Put(k: K, v: V, cost0: int64, now: int)
      requires Valid()
      modifies this
      ensures Valid()
      ensures var c: int64 := if cost0 < 0 then 0 else cost0;
              var all := [Entry(k, v, c, now)] + Without(old(order), k);
              if c > budget then order == Without(old(order), k)
              else
                && order == Evict(all, budget, maxEntries) && order <= all && order != []
                && (old(Fits(order, budget, maxEntries)) ==>
                      (LongestFit(order, all, budget, maxEntries) <==> Total(Trimmed(all, maxEntries)) <= MAX_INT64))
      ensures old(Fits(order, budget, maxEntries)) && budget <= MAX_INT64 / 2 ==>
                Fits(order, budget, maxEntries) && cost == Total(order)
    {
      hide Distinct, Total, Without, I64, Evict, Fits;
      var c: int64 := if cost0 < 0 then 0 else cost0;
      WithoutKeeps(order, k);
      if k in items {
        var e := items[k];
        WithoutFits(order, e, budget, maxEntries);
        Remove(e);
        WithoutKeeps(old(order), k);
      }
      assert forall x | x in order :: x.key != k;
      ghost var rest := order;
      FitsCosts(rest, budget, maxEntries);
      if c > budget {
        return;
      }
      var e := Entry(k, v, c, now);
      PushFront(e);
      ghost var all := order;
      EvictOver();
      if old(Fits(order, budget, maxEntries)) {
        NewCosts(e, rest, budget, maxEntries);
        EvictIsExactIff(all, budget, maxEntries);
      }
      FitsCosts(order, budget, maxEntries);
    }
  }

  lemma LastWithout<K, V>(s: seq<Entry<K, V>>)
    requires Distinct(s) && s != []
    ensures Without(s, s[|s| - 1].key) == s[..|s| - 1]
  {
    WithoutAt(s, |s| - 1);
  }

  lemma NotNegative<K, V>(s: seq<Entry<K, V>>, e: Entry<K, V>)
    requires Distinct(s) && e in s
    ensures e.cost >= 0
  {
  }

  lemma WithoutFits<K, V>(s: seq<Entry<K, V>>, e: Entry<K, V>, budget: int64, maxEntries: nat)
    requires Distinct(s) && e in s
    ensures Fits(s, budget, maxEntries) ==> Fits(Without(s, e.key), budget, maxEntries)
  {
    hide Without, Total;
    var i :| 0 <= i < |s| && s[i] == e;
    WithoutCosts(s, i);
  }

  lemma FitsCosts<K, V>(s: seq<Entry<K, V>>, budget: int64, maxEntries: nat)
    requires Distinct(s)
    ensures 0 <= Total(s)
    ensures Fits(s, budget, maxEntries) ==> Total(s) <= budget && I64(Total(s)) == Total(s)
  {
    PrefixCosts(s, |s|);
    assert s[..|s|] == s;
  }

  /** What a new entry brings the total to before anything is evicted. */
  lemma NewCosts<K, V>(e: Entry<K, V>, rest: seq<Entry<K, V>>, budget: int64, maxEntries: nat)
    requires Distinct([e] + rest) && e.cost <= budget && Fits(rest, budget, maxEntries)
    ensures Total(Trimmed([e] + rest, maxEntries)) <= 2 * budget < TWO_64
  {
    TrimmedCosts([e] + rest, maxEntries);
    TotalConcat([e], rest);
    assert [e][..0] == [] && Total([e]) == e.cost;
  }
}
