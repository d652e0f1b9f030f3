/** The transactional row cache of pkg/rowcache/memory.go: a map, an expiry heap and a recency list over
    the same entries, sharing one byte budget with the writers in progress. */
module RowCache {
  import opened ExpiryHeap
  import RowCost
  import opened MachineInts
  import opened Wrappers

  /** The digest of a read's key; distinct keys have distinct digests. */
  type Key = string

  type Rows = seq<RowCost.Value>

  type E = Entry<Key, Rows>

  /** What one writer has reserved, until it commits or aborts. */
  datatype Slot = Open(cost: nat) | Finished

  datatype Error = Closed | Capacity | Unsupported | Cancelled

  /** The least a writer reserves. */
  const INITIAL_COST := 128

  const MIB := 0x10_0000

  function Least(a: nat, b: nat): nat {
    if a < b then a else b
  }

  // Sums.

  function CostSum(s: seq<E>): nat {
    if s == [] then 0 else CostSum(s[..|s| - 1]) + s[|s| - 1].cost
  }

  function Reserved(slots: seq<Slot>): nat {
    if slots == [] then 0
    else Reserved(slots[..|slots| - 1]) + (var l := slots[|slots| - 1]; if l.Open? then l.cost else 0)
  }

  function Writing(slots: seq<Slot>): nat {
    if slots == [] then 0
    else Writing(slots[..|slots| - 1]) + if slots[|slots| - 1].Open? then 1 else 0
  }

  lemma {:induction false} CostSumConcat(a: seq<E>, b: seq<E>)
    ensures CostSum(a + b) == CostSum(a) + CostSum(b)
    decreases |b|
  {
    if b == [] {
      assert a + b == a;
    } else {
      assert (a + b)[..|a + b| - 1] == a + b[..|b| - 1];
      CostSumConcat(a, b[..|b| - 1]);
    }
  }

  lemma CostSumOne(e: E)
    ensures CostSum([e]) == e.cost
  {
    assert [e][..0] == [];
  }

  lemma {:induction false} SlotUpdated(slots: seq<Slot>, i: nat, s: Slot)
    requires i < |slots|
    ensures Reserved(slots[i := s]) == Reserved(slots) - Reserved([slots[i]]) + Reserved([s])
    ensures Writing(slots[i := s]) == Writing(slots) - Writing([slots[i]]) + Writing([s])
    decreases |slots|
  {
    var n := |slots| - 1;
    assert [slots[i]][..0] == [] && [s][..0] == [];
    if i < n {
      SlotUpdated(slots[..n], i, s);
      assert slots[i := s][..n] == slots[..n][i := s];
    } else {
      assert slots[i := s][..n] == slots[..n];
    }
  }

  lemma SlotChanged(slots: seq<Slot>, i: nat, s: Slot)
    requires i < |slots| && slots[i].Open?
    ensures s.Open? ==> Reserved(slots[i := s]) == Reserved(slots) - slots[i].cost + s.cost && Writing(slots[i := s]) == Writing(slots)
    ensures s.Finished? ==> Reserved(slots[i := s]) == Reserved(slots) - slots[i].cost && Writing(slots[i := s]) == Writing(slots) - 1
  {
    SlotUpdated(slots, i, s);
    assert [slots[i]][..0] == [] && [s][..0] == [];
  }

  lemma RowAdded(rows: Rows, row: RowCost.Value)
    ensures RowCost.ItemsPrice(rows + [row]) == RowCost.ItemsPrice(rows) + RowCost.Price(row)
  {
    assert (rows + [row])[..|rows|] == rows;
  }

  lemma SlotAdded(slots: seq<Slot>, cost: nat)
    ensures Reserved(slots + [Open(cost)]) == Reserved(slots) + cost && Writing(slots + [Open(cost)]) == Writing(slots) + 1
  {
    assert (slots + [Open(cost)])[..|slots|] == slots;
  }

  // The recency list.

  ghost predicate Distinct<T>(s: seq<T>) {
    forall i, j | 0 <= i < j < |s| :: s[i] != s[j]
  }

  function Minus<T(==)>(s: seq<T>, e: T): seq<T> {
    if s == [] then [] else if s[0] == e then s[1..] else [s[0]] + Minus(s[1..], e)
  }

  lemma {:induction false} MinusAt<T>(s: seq<T>, i: nat)
    requires Distinct(s) && i < |s|
    ensures Minus(s, s[i]) == s[..i] + s[i + 1..]
    decreases i
  {
    if i > 0 {
      assert s[0] != s[i] && s[1..][i - 1] == s[i];
      MinusAt(s[1..], i - 1);
      assert [s[0]] + (s[1..][..i - 1] + s[1..][i..]) == s[..i] + s[i + 1..];
    }
  }

  lemma MinusMembers<T>(s: seq<T>, e: T)
    requires Distinct(s) && e in s
    ensures Distinct(Minus(s, e)) && |Minus(s, e)| == |s| - 1
    ensures forall x | x in Minus(s, e) :: x in s && x != e
    ensures forall x | x in s && x != e :: x in Minus(s, e)
  {
    hide Minus, Distinct;
    var i :| 0 <= i < |s| && s[i] == e;
    MinusAt(s, i);
    CutAt(s, i);
  }

  lemma CutAt<T>(s: seq<T>, i: nat)
    requires Distinct(s) && i < |s|
    ensures var t := s[..i] + s[i + 1..];
            && Distinct(t) && (forall x | x in t :: x in s && x != s[i]) && (forall x | x in s && x != s[i] :: x in t)
  {
    var t := s[..i] + s[i + 1..];
    forall j | 0 <= j < |t| ensures t[j] == (if j < i then s[j] else s[j + 1]) && t[j] != s[i] {
    }
    forall x | x in s && x != s[i] ensures x in t {
      var j :| 0 <= j < |s| && s[j] == x;
      assert x == if j < i then t[j] else t[j - 1];
    }
  }

  lemma MinusCosts(s: seq<E>, e: E)
    requires Distinct(s) && e in s
    ensures CostSum(Minus(s, e)) == CostSum(s) - e.cost
  {
    hide CostSum, Minus;
    var i :| 0 <= i < |s| && s[i] == e;
    MinusAt(s, i);
    CostSumConcat(s[..i], s[i + 1..]);
    CostSumConcat(s[..i], [e]);
    CostSumConcat(s[..i] + [e], s[i + 1..]);
    CostSumOne(e);
    assert s == s[..i] + [e] + s[i + 1..];
  }

  /** The entries of one key. */
  function Only(s: seq<E>, k: Key): seq<E> {
    if s == [] then [] else (if s[0].key == k then [s[0]] else []) + Only(s[1..], k)
  }

  /** What is left when all but the first n entries make room, save a protected key's. */
  function Shed(s: seq<E>, n: nat, k: Key): seq<E>
    requires n <= |s|
  {
    s[..n] + Only(s[n..], k)
  }

  lemma {:induction false} OnlyConcat(a: seq<E>, b: seq<E>, k: Key)
    ensures Only(a + b, k) == Only(a, k) + Only(b, k)
    decreases |a|
  {
    if a == [] {
      assert a + b == b;
    } else {
      assert (a + b)[1..] == a[1..] + b && (a + b)[0] == a[0];
      OnlyConcat(a[1..], b, k);
      var one := if a[0].key == k then [a[0]] else [];
      assert Only(a + b, k) == one + Only(a[1..] + b, k);
      Assoc(one, Only(a[1..], k), Only(b, k));
    }
  }

  lemma Assoc<T>(a: seq<T>, b: seq<T>, c: seq<T>)
    ensures a + (b + c) == (a + b) + c
  {
  }

  lemma {:induction false} OnlyKeeps(s: seq<E>, k: Key)
    ensures forall e | e in Only(s, k) :: e in s && e.key == k
    ensures forall e | e in s && e.key == k :: e in Only(s, k)
    ensures (forall e | e in s :: e.key == k) ==> Only(s, k) == s
    decreases |s|
  {
    if s != [] {
      assert s == [s[0]] + s[1..];
      OnlyKeeps(s[1..], k);
    }
  }

  /** Evicting the last unprotected entry sheds down to it. */
  lemma ShedStep(s: seq<E>, n: nat, c: nat, k: Key)
    requires c < n <= |s| && Distinct(Shed(s, n, k))
    requires s[c].key != k && forall i | c < i < n :: s[i].key == k
    ensures Minus(Shed(s, n, k), s[c]) == Shed(s, c, k)
  {
    hide Minus, Distinct;
    var kept, t := Only(s[n..], k), Shed(s, n, k);
    assert t[c] == s[c];
    MinusAt(t, c);
    SplitAround(s[..n], kept, c);
    OnlyTail(s, n, c, k);
    assert s[..n][..c] == s[..c] && s[..n][c + 1..] == s[c + 1..n];
    Assoc(s[..c], s[c + 1..n], kept);
  }

  lemma SplitAround<T>(a: seq<T>, b: seq<T>, c: nat)
    requires c < |a|
    ensures (a + b)[..c] == a[..c] && (a + b)[c + 1..] == a[c + 1..] + b
  {
  }

  lemma OnlyTail(s: seq<E>, n: nat, c: nat, k: Key)
    requires c < n <= |s| && s[c].key != k && forall i | c < i < n :: s[i].key == k
    ensures Only(s[c..], k) == s[c + 1..n] + Only(s[n..], k)
  {
    assert s[c..][1..] == s[c + 1..n] + s[n..];
    OnlyConcat(s[c + 1..n], s[n..], k);
    OnlyKeeps(s[c + 1..n], k);
  }

  /** The cache's three views of its entries. */
  ghost predicate SameEntries(entries: map<Key, E>, order: seq<E>, h: seq<E>) {
    && Distinct(order) && |order| == |entries|
    && (forall e | e in order :: e.key in entries && entries[e.key] == e)
    && (forall k | k in entries :: entries[k] in order && entries[k].key == k)
    && (forall e | e in order :: e in h) && (forall e | e in h :: e in order)
  }

  /** Whatever is held is the last commit of its key. */
  ghost predicate Agrees(entries: map<Key, E>, latest: map<Key, (Rows, int)>) {
    forall k | k in entries :: k in latest && latest[k] == (entries[k].rows, entries[k].expires)
  }

  lemma TakenOut<T>(h: seq<T>, e: T, h': seq<T>)
    requires multiset(h') == multiset(h) - multiset{e} && e !in h'
    ensures forall x | x in h' :: x in h && x != e
    ensures forall x | x in h && x != e :: x in h'
  {
    forall x | x in h' ensures x in h {
      assert x in multiset(h');
    }
    forall x | x in h && x != e ensures x in h' {
      assert x in multiset(h) && x in multiset(h');
    }
  }

  lemma SameWithout(entries: map<Key, E>, order: seq<E>, h: seq<E>, e: E, h': seq<E>)
    requires SameEntries(entries, order, h) && e in order
    requires multiset(h') == multiset(h) - multiset{e} && e !in h'
    ensures SameEntries(entries - {e.key}, Minus(order, e), h')
    ensures forall x | x in h' :: x in h
  {
    hide Minus, Distinct;
    MinusMembers(order, e);
    TakenOut(h, e, h');
    var left, rest := Minus(order, e), entries - {e.key};
    assert entries.Keys == rest.Keys + {e.key};
    forall x | x in left ensures x.key in rest && rest[x.key] == x {
      assert x in order;
    }
    forall k | k in rest ensures rest[k] in left && rest[k].key == k {
    }
    forall x | x in left ensures x in h' {
      assert x in order;
    }
    forall x | x in h' ensures x in left {
      assert x in h;
    }
  }

  lemma SameMember(entries: map<Key, E>, order: seq<E>, h: seq<E>, e: E)
    requires SameEntries(entries, order, h) && e in order
    ensures Distinct(order) && e in h && e.key in entries && |entries - {e.key}| <= |entries|
  {
    assert entries.Keys == (entries - {e.key}).Keys + {e.key};
  }

  lemma AgreesWith(entries: map<Key, E>, latest: map<Key, (Rows, int)>, e: E)
    requires Agrees(entries, latest)
    ensures Agrees(entries[e.key := e], latest[e.key := (e.rows, e.expires)])
  {
  }

  lemma AgreesWithout(entries: map<Key, E>, latest: map<Key, (Rows, int)>, k: Key)
    requires Agrees(entries, latest)
    ensures Agrees(entries - {k}, latest)
  {
  }

  /** The test reserve makes in int64 is the one made here exactly when the sum fits, as it always does under
      a budget of at most half the range; where it does not, the wrapped sum passes. */
  lemma BudgetTestIsExactIff(held: int, cost: int, budget: int)
    requires 0 <= held <= budget <= MAX_INT64 && 0 <= cost <= budget
    ensures (I64(held + cost) > budget <==> held + cost > budget) <==> held + cost <= MAX_INT64
    ensures budget <= MAX_INT64 / 2 ==> held + cost <= MAX_INT64
  {
    if held + cost > MAX_INT64 {
      DivUnique(held + cost - MIN_INT64, TWO_64, 1, held + cost - MIN_INT64 - TWO_64);
    }
  }

  class Memory {
    const maxBytes: nat
    const maxEntryBytes: nat
    const maxEntries: nat
    const expiry: Heap<Key, Rows>
    var entries: map<Key, E>
    /** The recency list, newest use first. */
    var order: seq<E>
    var bytes: int
    var reserved: int
    var writers: int
    var closed: bool
    /** What each writer ever begun has reserved. */
    ghost var slots: seq<Slot>
    /** The last commit of every key, with no bound on how many. */
    ghost var latest: map<Key, (Rows, int)>

    /** Everything but the writers' accounts. */
    ghost predicate Shape()
      reads this, expiry, expiry.h
    {
      && expiry.Valid() && SameEntries(entries, order, expiry.h) && Agrees(entries, latest)
      && bytes == CostSum(order) && (closed ==> order == [])
      && 0 <= reserved && bytes + reserved <= maxBytes && |entries| <= maxEntries
      && 0 < maxEntries && maxEntryBytes <= maxBytes
    }

    ghost predicate Valid()
      reads this, expiry, expiry.h
    {
      Shape() && reserved == Reserved(slots) && writers == Writing(slots) && writers <= maxEntries
    }

    /** An empty cache; a zero limit stands for its default. */
    constructor (maxBytes0: nat, maxEntryBytes0: nat, maxEntries0: nat)
      ensures Valid() && fresh(expiry) && expiry.h == [] && order == [] && slots == [] && latest == map[] && !closed
      ensures maxBytes == (if maxBytes0 == 0 then 64 * MIB else maxBytes0)
      ensures maxEntries == (if maxEntries0 == 0 then 1024 else maxEntries0)
      ensures maxEntryBytes == Least(if maxEntryBytes0 == 0 then 4 * MIB else maxEntryBytes0, maxBytes)
    {
      maxBytes := if maxBytes0 == 0 then 64 * MIB else maxBytes0;
      maxEntries := if maxEntries0 == 0 then 1024 else maxEntries0;
      maxEntryBytes := Least(if maxEntryBytes0 == 0 then 4 * MIB else maxEntryBytes0, if maxBytes0 == 0 then 64 * MIB else maxBytes0);
      expiry := new Heap();
      entries, order, bytes, reserved, writers, closed, slots, latest := map[], [], 0, 0, 0, false, [], map[];
    }

    /** Takes an entry out of the map, the list, the heap and the byte count. */
    method Drop(e: E)
      requires Shape() && e in order
      modifies this`entries, this`order, this`bytes, expiry, expiry.h
      ensures Shape() && order == Minus(old(order), e) && entries == old(entries) - {e.key} && bytes == old(bytes) - e.cost
      ensures forall x | x in expiry.h :: x in old(expiry.h)
    {
      hide CostSum, Minus, SameEntries, Agrees;
      SameMember(entries, order, expiry.h, e);
      MinusCosts(order, e);
      ghost var h := expiry.h;
      assert 0 <= e.index < |expiry.h| && expiry.h[e.index] == e;
      var out := expiry.Remove(e.index);
      SameWithout(entries, order, h, e, expiry.h);
      AgreesWithout(entries, latest, e.key);
      entries := entries - {e.key};
      order := Minus(order, e);
      bytes := bytes - e.cost;
    }

    /** What the one protected key holds. */
    ghost function Pinned(k: Key): nat
      reads this`entries
    {
      if k in entries then entries[k].cost else 0
    }

    /** Makes room for a cost, evicting the least recently used but never the protected key's entry, and
        no more of them than needed. It succeeds exactly when the cost fits beside that entry and what
        writers hold. */
    method Reserve(cost: nat, protected: Key) returns (ok: bool, ghost kept: nat)
      requires Shape()
      modifies this`entries, this`order, this`bytes, this`reserved, expiry, expiry.h
      ensures Shape() && reserved == old(reserved) + if ok then cost else 0
      ensures ok <==> old(Pinned(protected)) + old(reserved) + cost <= maxBytes
      ensures kept <= |old(order)| && order == Shed(old(order), kept, protected)
      ensures kept < |old(order)| ==>
                old(order)[kept].key != protected && CostSum(order) + old(order)[kept].cost + old(reserved) + cost > maxBytes
      ensures protected in old(entries) ==> protected in entries && entries[protected] == old(entries)[protected]
      ensures bytes <= old(bytes)
      ensures old(bytes) + old(reserved) + cost <= maxBytes ==> ok && entries == old(entries)
      ensures forall x | x in expiry.h :: x in old(expiry.h)
    {
      hide CostSum, Minus, SameEntries, Agrees, Shed, Heap.Valid;
      kept := |order|;
      ShedNothing(order, protected);
      while bytes + reserved + cost > maxBytes
        invariant Shape() && reserved == old(reserved) && kept <= |old(order)| && order == Shed(old(order), kept, protected)
        invariant kept < |old(order)| ==>
                    old(order)[kept].key != protected && CostSum(order) + old(order)[kept].cost + reserved + cost > maxBytes
        invariant protected in old(entries) ==> protected in entries && entries[protected] == old(entries)[protected]
        invariant protected !in old(entries) ==> protected !in entries
        invariant bytes <= old(bytes)
        invariant old(bytes) + old(reserved) + cost <= maxBytes ==> bytes == old(bytes) && entries == old(entries)
        invariant forall x | x in expiry.h :: x in old(expiry.h)
        decreases |order|
      {
        var c := |order| - 1;
        while c >= 0 && order[c].key == protected
          invariant -1 <= c < |order|
          invariant forall i | c < i < |order| :: order[i].key == protected
        {
          c := c - 1;
        }
        if c < 0 {
          OnlyPinned(entries, order, expiry.h, protected);
          return false, kept;
        }
        ghost var e := order[c];
        SameMember(entries, order, expiry.h, e);
        ShedDrops(old(order), kept, c, protected);
        MinusCosts(order, e);
        MinusMembers(order, e);
        assert forall i | 0 <= i < |expiry.h| :: expiry.h[i] in old(expiry.h);
        Drop(order[c]);
        kept := c;
      }
      PinnedFits(entries, order, expiry.h, protected);
      reserved := reserved + cost;
      return true, kept;
    }

    /** A hit is the last commit of its key, unexpired, and moves to the front; an expired
        entry is dropped. */
    method Lookup(key: Key, now: int, cancelled: bool) returns (r: Option<Rows>, error: Option<Error>)
      requires Valid()
      modifies this`entries, this`order, this`bytes, expiry, expiry.h
      ensures Valid()
      ensures error == if cancelled then Some(Cancelled) else if closed then Some(Closed) else None
      ensures r.Some? <==> error.None? && key in old(entries) && now < old(entries)[key].expires
      ensures r.Some? ==> key in latest && latest[key].0 == r.value && now < latest[key].1
      ensures r.Some? ==> entries == old(entries) && order == [old(entries)[key]] + Minus(old(order), old(entries)[key])
      ensures r.None? ==>
                if error.None? && key in old(entries) then
                  entries == old(entries) - {key} && order == Minus(old(order), old(entries)[key])
                else entries == old(entries) && order == old(order)
      ensures bytes <= old(bytes)
      ensures forall x | x in expiry.h :: x in old(expiry.h)
    {
      hide CostSum, Minus, SameEntries, Heap.Valid;
      if cancelled {
        return None, Some(Cancelled);
      }
      if closed {
        return None, Some(Closed);
      }
      if key !in entries {
        return None, None;
      }
      var e := entries[key];
      SameEntry(entries, order, expiry.h, key);
      if now >= e.expires {
        Drop(e);
        return None, None;
      }
      MovedToFront(entries, order, expiry.h, e);
      order := [e] + Minus(order, e);
      return Some(e.rows), None;
    }

    /** Reserves more for an open writer. */
    method Grow(ghost id: nat, ghost held: nat, more: nat, key: Key) returns (error: Option<Error>, ghost kept: nat)
      requires Valid() && id < |slots| && slots[id] == Open(held)
      modifies this`entries, this`order, this`bytes, this`reserved, this`slots, expiry, expiry.h
      ensures Valid()
      ensures error == if closed then Some(Closed)
                       else if old(Pinned(key)) + old(reserved) + more <= maxBytes then None
                       else Some(Capacity)
      ensures slots == if error.None? then old(slots)[id := Open(held + more)] else old(slots)
      ensures kept <= |old(order)| && order == Shed(old(order), kept, key)
      ensures key in old(entries) ==> key in entries && entries[key] == old(entries)[key]
      ensures bytes <= old(bytes) && reserved == old(reserved) + if error.None? then more else 0
      ensures old(bytes) + old(reserved) + more <= maxBytes || error == Some(Closed) ==> entries == old(entries)
      ensures forall x | x in expiry.h :: x in old(expiry.h)
    {
      hide CostSum, Minus, SameEntries, Agrees, Shed, Heap.Valid, Reserved, Writing;
      kept := |order|;
      ShedNothing(order, key);
      if closed {
        return Some(Closed), kept;
      }
      var ok;
      ok, kept := Reserve(more, key);
      if !ok {
        return Some(Capacity), kept;
      }
      SlotChanged(slots, id, Open(held + more));
      slots := slots[id := Open(held + more)];
      return None, kept;
    }

    /** When the heap's root has not expired, nothing has. */
    lemma SoonestIsFirst(now: int)
      requires Shape() && (expiry.h == [] || now < expiry.h[0].expires)
      ensures Unexpired(order, now) == order
    {
      NothingExpired(entries, order, expiry.h, now);
    }

    method DropSoonest(ghost now: int)
      requires Shape() && expiry.h != [] && expiry.h[0].expires <= now
      modifies this`entries, this`order, this`bytes, expiry, expiry.h
      ensures Shape() && |order| == |old(order)| - 1 && Unexpired(order, now) == Unexpired(old(order), now) && bytes <= old(bytes)
      ensures forall x | x in expiry.h :: x in old(expiry.h)
    {
      hide CostSum, Minus, SameEntries, Agrees, Unexpired, Heap.Valid, Distinct;
      ghost var e := expiry.h[0];
      SameHeap(entries, order, expiry.h, e);
      MinusMembers(order, e);
      ghost var i :| 0 <= i < |order| && order[i] == e;
      ExpiredLeaves(order, i, now);
      Drop(expiry.h[0]);
    }

    /** Removes what has expired, soonest first, until it is cancelled. */
    method Collect(now: int, cancelled: nat -> bool) returns (n: nat, error: Option<Error>)
      requires Valid()
      modifies this`entries, this`order, this`bytes, expiry, expiry.h
      ensures Valid()
      ensures error.None? ==> order == Unexpired(old(order), now)
      ensures n == |old(order)| - |order| && Unexpired(order, now) == Unexpired(old(order), now)
      ensures closed && !cancelled(0) <==> error == Some(Closed)
      ensures error == Some(Closed) ==> entries == old(entries)
      ensures error == Some(Cancelled) ==> exists i :: cancelled(i)
      ensures !closed && (forall i :: !cancelled(i)) ==> error.None?
      ensures bytes <= old(bytes)
      ensures forall x | x in expiry.h :: x in old(expiry.h)
    {
      hide CostSum, SameEntries, Agrees, Unexpired, Reserved, Writing, Heap.Valid;
      n := 0;
      if cancelled(0) {
        return 0, Some(Cancelled);
      }
      if closed {
        return 0, Some(Closed);
      }
      while expiry.h != [] && now >= expiry.h[0].expires
        invariant Valid() && n == |old(order)| - |order| && Unexpired(order, now) == Unexpired(old(order), now)
        invariant bytes <= old(bytes)
        invariant forall x | x in expiry.h :: x in old(expiry.h)
        decreases |order|
      {
        if cancelled(n + 1) {
          return n, Some(Cancelled);
        }
        assert forall i | 0 <= i < |expiry.h| :: expiry.h[i] in old(expiry.h);
        DropSoonest(now);
        n := n + 1;
      }
      SoonestIsFirst(now);
      return n, None;
    }

    /** Ends the cache: nothing is held, and nothing can be begun, looked up or committed. */
    method Close()
      requires Valid()
      modifies this`entries, this`order, this`bytes, this`closed, expiry
      ensures Valid() && closed && entries == map[] && order == [] && expiry.h == [] && bytes == 0
    {
      closed, entries, order, bytes := true, map[], [], 0;
      expiry.h := [];
    }

    /** Adds a new entry to all three views. */
    method Install(ghost id: nat, cost: nat, key: Key, rows: Rows, expires: int)
      requires Shape() && reserved == Reserved(slots) && writers == Writing(slots) && writers <= maxEntries && !closed
      requires key !in entries && |entries| < maxEntries && id < |slots| && slots[id] == Open(cost)
      modifies this`entries, this`order, this`bytes, this`reserved, this`writers, this`slots, this`latest, expiry, expiry.h
      ensures Valid() && slots == old(slots)[id := Finished] && latest == old(latest)[key := (rows, expires)]
      ensures key in entries && fresh(entries[key]) && order == [entries[key]] + old(order)
      ensures entries[key].rows == rows && entries[key].expires == expires && entries[key].cost == cost
      ensures bytes + reserved == old(bytes) + old(reserved)
      ensures forall x | x in expiry.h :: x in old(expiry.h) || fresh(x)
    {
      hide CostSum, SameEntries, Agrees, Reserved, Writing, Ordered;
      var e := new Entry(key, rows, cost, expires);
      ghost var h := expiry.h;
      expiry.Push(e);
      SameWith(entries, order, h, e, expiry.h);
      PutIn(h, e, expiry.h);
      AgreesWith(entries, latest, e);
      CostSumConcat([e], order);
      CostSumOne(e);
      SlotChanged(slots, id, Finished);
      order := [e] + order;
      entries := entries[key := e];
      reserved, bytes, writers := reserved - cost, bytes + cost, writers - 1;
      slots, latest := slots[id := Finished], latest[key := (rows, expires)];
    }

    method DropLast(ghost key: Key)
      requires Shape() && order != [] && key !in entries
      modifies this`entries, this`order, this`bytes, expiry, expiry.h
      ensures Shape() && order == old(order)[..|old(order)| - 1] && |order| == |entries| && key !in entries && bytes <= old(bytes)
      ensures forall x | x in expiry.h :: x in old(expiry.h)
    {
      hide CostSum, Minus, SameEntries, Agrees, Heap.Valid, Distinct;
      SameMember(entries, order, expiry.h, order[|order| - 1]);
      MinusAt(order, |order| - 1);
      Drop(order[|order| - 1]);
      SameSize(entries, order, expiry.h);
    }

    /** Drops a key's entry, then the least recently used down to one below the entry limit. */
    method ClearFor(key: Key)
      requires Shape()
      modifies this`entries, this`order, this`bytes, expiry, expiry.h
      ensures Shape() && key !in entries && |entries| < maxEntries && bytes <= old(bytes)
      ensures var rest := Others(old(entries), old(order), key);
              order == rest[..Least(|rest|, maxEntries - 1)]
      ensures forall x | x in expiry.h :: x in old(expiry.h)
    {
      hide CostSum, Minus, SameEntries, Agrees, Heap.Valid;
      if key in entries {
        SameEntry(entries, order, expiry.h, key);
        Drop(entries[key]);
      }
      ghost var rest := order;
      SameSize(entries, order, expiry.h);
      while |entries| >= maxEntries
        invariant Shape() && key !in entries && |order| == |entries| && |order| <= |rest| && order == rest[..|order|]
        invariant |order| >= Least(|rest|, maxEntries - 1) && bytes <= old(bytes)
        invariant forall x | x in expiry.h :: x in old(expiry.h)
        decreases |order|
      {
        assert forall i | 0 <= i < |expiry.h| :: expiry.h[i] in old(expiry.h);
        DropLast(key);
      }
    }

    /** Publishes a finished entry in place of its key's last one, evicting the least recently used
        beyond the entry limit. */
    method Publish(ghost id: nat, cost: nat, key: Key, rows: Rows, expires: int)
      requires Valid() && !closed && id < |slots| && slots[id] == Open(cost)
      modifies this`entries, this`order, this`bytes, this`reserved, this`writers, this`slots, this`latest, expiry, expiry.h
      ensures Valid() && slots == old(slots)[id := Finished] && latest == old(latest)[key := (rows, expires)]
      ensures key in entries && entries[key].rows == rows && entries[key].expires == expires && entries[key].cost == cost
      ensures var rest := Others(old(entries), old(order), key);
              order == [entries[key]] + rest[..Least(|rest|, maxEntries - 1)]
      ensures bytes + reserved <= old(bytes) + old(reserved)
      ensures forall x | x in expiry.h :: x in old(expiry.h) || fresh(x)
    {
      hide CostSum, Minus, SameEntries, Agrees, Heap.Valid, Reserved, Writing;
      ClearFor(key);
      assert forall i | 0 <= i < |expiry.h| :: expiry.h[i] in old(expiry.h);
      Install(id, cost, key, rows, expires);
    }

    /** Starts a writer with the least it can cost. */
    method Begin(key: Key, cancelled: bool) returns (w: Option<Writer>, error: Option<Error>, ghost kept: nat)
      requires Valid()
      modifies this`entries, this`order, this`bytes, this`reserved, this`writers, this`slots, expiry, expiry.h
      ensures Valid()
      ensures w.Some? <==> error.None?
      ensures error == if cancelled then Some(Cancelled) else if closed then Some(Closed)
                       else if old(writers) < maxEntries && INITIAL_COST <= maxEntryBytes
                               && old(Pinned(key)) + old(reserved) + INITIAL_COST <= maxBytes then None
                       else Some(Capacity)
      ensures w.Some? ==> fresh(w.value) && w.value.store == this && w.value.key == key && w.value.id == |old(slots)|
                          && w.value.Valid() && !w.value.finished && w.value.rows == []
      ensures slots == if w.Some? then old(slots) + [Open(INITIAL_COST)] else old(slots)
      ensures kept <= |old(order)| && order == Shed(old(order), kept, key)
      ensures key in old(entries) ==> key in entries && entries[key] == old(entries)[key]
      ensures bytes <= old(bytes) && reserved == old(reserved) + if w.Some? then INITIAL_COST else 0
      ensures old(bytes) + old(reserved) + INITIAL_COST <= maxBytes || (error.Some? && error != Some(Capacity)) ==> entries == old(entries)
      ensures forall x | x in expiry.h :: x in old(expiry.h)
    {
      hide CostSum, Minus, SameEntries, Agrees, Shed, Heap.Valid, Reserved, Writing;
      kept := |order|;
      ShedNothing(order, key);
      if cancelled {
        return None, Some(Cancelled), kept;
      }
      if closed {
        return None, Some(Closed), kept;
      }
      if writers >= maxEntries || INITIAL_COST > maxEntryBytes {
        return None, Some(Capacity), kept;
      }
      var ok;
      ok, kept := Reserve(INITIAL_COST, key);
      if !ok {
        return None, Some(Capacity), kept;
      }
      SlotAdded(slots, INITIAL_COST);
      var writer := new Writer(this, key, |slots|);
      writers, slots := writers + 1, slots + [Open(INITIAL_COST)];
      return Some(writer), None, kept;
    }
  }

  lemma PutIn<T>(h: seq<T>, e: T, h': seq<T>)
    requires multiset(h') == multiset(h) + multiset{e}
    ensures e in h' && (forall x | x in h' :: x in h || x == e) && (forall x | x in h :: x in h')
  {
    assert e in multiset(h');
    forall x | x in h' ensures x in h || x == e {
      assert x in multiset(h');
    }
    forall x | x in h ensures x in h' {
      assert x in multiset(h) && x in multiset(h');
    }
  }

  lemma DistinctCons<T>(e: T, s: seq<T>)
    requires Distinct(s) && e !in s
    ensures Distinct([e] + s)
  {
  }

  lemma SameWith(entries: map<Key, E>, order: seq<E>, h: seq<E>, e: E, h': seq<E>)
    requires SameEntries(entries, order, h) && e.key !in entries && e !in h
    requires multiset(h') == multiset(h) + multiset{e}
    ensures SameEntries(entries[e.key := e], [e] + order, h')
  {
    hide Distinct;
    PutIn(h, e, h');
    DistinctCons(e, order);
    assert entries[e.key := e].Keys == entries.Keys + {e.key};
  }

  /** The list without a key's own entry. */
  function Others(entries: map<Key, E>, order: seq<E>, key: Key): seq<E> {
    if key in entries then Minus(order, entries[key]) else order
  }

  lemma OthersStand(entries: map<Key, E>, order: seq<E>, h: seq<E>, key: Key)
    requires SameEntries(entries, order, h)
    ensures |Others(entries, order, key)| + 1 == |entries.Keys + {key}|
    ensures forall k | k in entries && k != key :: entries[k] in Others(entries, order, key)
    ensures forall e | e in Others(entries, order, key) :: e.key in entries
  {
    hide Minus, Distinct;
    if key in entries {
      SameEntry(entries, order, h, key);
      MinusMembers(order, entries[key]);
      assert entries.Keys + {key} == entries.Keys;
    }
  }

  /** A commit drops no other key's entry while all of them are within the limit. */
  lemma NothingEvicted(entries: map<Key, E>, order: seq<E>, h: seq<E>, key: Key, limit: nat,
                       entries': map<Key, E>, order': seq<E>, h': seq<E>)
    requires SameEntries(entries, order, h) && SameEntries(entries', order', h') && key in entries'
    requires var rest := Others(entries, order, key);
             limit > 0 && order' == [entries'[key]] + rest[..Least(|rest|, limit - 1)]
    requires |entries.Keys + {key}| <= limit
    ensures entries'.Keys == entries.Keys + {key}
  {
    hide Others, Distinct;
    var rest := Others(entries, order, key);
    OthersStand(entries, order, h, key);
    assert order' == [entries'[key]] + rest;
    forall k | k in entries && k != key ensures k in entries' {
      assert entries[k] in order' && entries'[entries[k].key] == entries[k];
    }
    forall k | k in entries' && k != key ensures k in entries {
      assert entries'[k] in order' && entries'[k] in rest;
    }
  }

  /** The entries a clock has not reached. */
  function Unexpired(s: seq<E>, now: int): seq<E> {
    if s == [] then [] else (if now < s[0].expires then [s[0]] else []) + Unexpired(s[1..], now)
  }

  lemma {:induction false} AllUnexpired(s: seq<E>, now: int)
    requires forall e | e in s :: now < e.expires
    ensures Unexpired(s, now) == s
    decreases |s|
  {
    if s != [] {
      assert s[0] in s && forall e | e in s[1..] :: e in s;
      AllUnexpired(s[1..], now);
    }
  }

  lemma {:induction false} UnexpiredMembers(s: seq<E>, now: int)
    ensures forall e :: e in Unexpired(s, now) <==> e in s && now < e.expires
    decreases |s|
  {
    if s != [] {
      assert s == [s[0]] + s[1..];
      UnexpiredMembers(s[1..], now);
    }
  }

  /** Collecting drops no unexpired entry. */
  lemma UnexpiredStay(entries: map<Key, E>, order: seq<E>, h: seq<E>, now: int, entries': map<Key, E>, order': seq<E>, h': seq<E>)
    requires SameEntries(entries, order, h) && SameEntries(entries', order', h')
    requires Unexpired(order', now) == Unexpired(order, now)
    ensures forall k | k in entries && now < entries[k].expires :: k in entries'
  {
    hide Distinct;
    UnexpiredMembers(order, now);
    UnexpiredMembers(order', now);
    forall k | k in entries && now < entries[k].expires ensures k in entries' {
      assert entries[k] in Unexpired(order', now);
    }
  }

  lemma {:induction false} ExpiredLeaves(s: seq<E>, i: nat, now: int)
    requires Distinct(s) && i < |s| && s[i].expires <= now
    ensures Unexpired(Minus(s, s[i]), now) == Unexpired(s, now)
    decreases i
  {
    if i > 0 {
      assert s[0] != s[i] && s[1..][i - 1] == s[i];
      ExpiredLeaves(s[1..], i - 1, now);
      assert Minus(s, s[i])[0] == s[0] && Minus(s, s[i])[1..] == Minus(s[1..], s[i]);
    }
  }

  class Writer {
    const store: Memory
    const key: Key
    ghost const id: nat
    var rows: Rows
    var cost: nat
    var finished: bool

    /** A writer's account in the store: its cost while it is open. */
    ghost predicate Valid()
      reads this, store
    {
      && id < |store.slots| && store.slots[id] == (if finished then Finished else Open(cost))
      && (!finished ==> cost == INITIAL_COST + RowCost.ItemsPrice(rows) && cost <= store.maxEntryBytes)
    }

    constructor (store: Memory, key: Key, ghost id: nat)
      ensures this.store == store && this.key == key && this.id == id
      ensures rows == [] && cost == INITIAL_COST && !finished
    {
      this.store, this.key, this.id := store, key, id;
      rows, cost, finished := [], INITIAL_COST, false;
    }

    /** Adds a row if it can be stored, fits in an entry and room can be made for it without evicting
        what its key has published. */
    method Append(row: RowCost.Value, cancelled: bool) returns (error: Option<Error>, ghost kept: nat)
      requires store.Valid() && Valid()
      modifies this`rows, this`cost
      modifies store`entries, store`order, store`bytes, store`reserved, store`slots, store.expiry, store.expiry.h
      ensures store.Valid() && Valid()
      ensures var price := RowCost.Price(row);
              var storable := RowCost.Storable(row, 0);
              error.None? <==> && !cancelled && !finished && storable && old(cost) + price <= store.maxEntryBytes && !store.closed
                               && old(store.Pinned(key)) + old(store.reserved) + price <= store.maxBytes
      ensures cancelled ==> error == Some(Cancelled)
      ensures !cancelled && finished ==> error == Some(Closed)
      ensures !cancelled && !finished && RowCost.Storable(row, 0) && old(cost) + RowCost.Price(row) <= store.maxEntryBytes && error.Some? ==>
                error == Some(if store.closed then Closed else Capacity)
      ensures !cancelled && !finished && error == Some(Unsupported) ==> !RowCost.Storable(row, 0)
      ensures !cancelled && !finished && !(RowCost.Storable(row, 0) && old(cost) + RowCost.Price(row) <= store.maxEntryBytes) ==>
                error == Some(Capacity) || error == Some(Unsupported)
      ensures error.None? ==> rows == old(rows) + [row] && store.slots == old(store.slots)[id := Open(cost)]
      ensures error.Some? ==> rows == old(rows) && cost == old(cost) && store.slots == old(store.slots)
      ensures kept <= |old(store.order)| && store.order == Shed(old(store.order), kept, key)
      ensures key in old(store.entries) ==> key in store.entries && store.entries[key] == old(store.entries)[key]
      ensures store.bytes <= old(store.bytes)
      ensures store.reserved == old(store.reserved) + if error.None? then RowCost.Price(row) else 0
      ensures old(store.bytes) + old(store.reserved) + RowCost.Price(row) <= store.maxBytes || (error.Some? && error != Some(Capacity)) ==>
                store.entries == old(store.entries)
      ensures forall x | x in store.expiry.h :: x in old(store.expiry.h)
    {
      hide Memory.Valid, Shed, RowCost.Price, RowCost.Storable, RowCost.ItemsPrice;
      kept := |store.order|;
      ShedNothing(store.order, key);
      if cancelled {
        return Some(Cancelled), kept;
      }
      if finished {
        return Some(Closed), kept;
      }
      var priced := RowCost.ValueCost(row, 0, store.maxEntryBytes - cost);
      if !priced.Cost? {
        return Some(if priced.TooDear? then Capacity else Unsupported), kept;
      }
      error, kept := store.Grow(id, cost, priced.n, key);
      if error.Some? {
        return;
      }
      cost := cost + priced.n;
      RowAdded(rows, row);
      rows := rows + [row];
    }

    /** Publishes the rows written; a failed commit leaves the store as it was. */
    method Commit(expires: int, cancelled: bool, cancelledLocked: bool) returns (error: Option<Error>)
      requires store.Valid() && Valid()
      modifies this`rows, this`finished
      modifies store`entries, store`order, store`bytes, store`reserved, store`writers, store`slots, store`latest
      modifies store.expiry, store.expiry.h
      ensures store.Valid() && Valid()
      ensures error == if cancelled then Some(Cancelled) else if old(finished) || store.closed then Some(Closed)
                       else if cancelledLocked then Some(Cancelled) else None
      ensures error.Some? ==> unchanged(store, this)
      ensures error.None? ==> finished && store.slots == old(store.slots)[id := Finished]
                              && store.latest == old(store.latest)[key := (old(rows), expires)]
      ensures error.None? ==>
                && key in store.entries && store.entries[key].rows == old(rows)
                && store.entries[key].expires == expires && store.entries[key].cost == cost
                && (var rest := Others(old(store.entries), old(store.order), key);
                    store.order == [store.entries[key]] + rest[..Least(|rest|, store.maxEntries - 1)])
      ensures store.bytes + store.reserved <= old(store.bytes) + old(store.reserved)
      ensures forall x | x in store.expiry.h :: x in old(store.expiry.h) || fresh(x)
    {
      hide Minus, Reserved, Writing, Heap.Valid, Memory.Valid;
      if cancelled {
        return Some(Cancelled);
      }
      if finished {
        return Some(Closed);
      }
      if store.closed {
        return Some(Closed);
      }
      if cancelledLocked {
        return Some(Cancelled);
      }
      store.Publish(id, cost, key, rows, expires);
      finished, rows := true, [];
      return None;
    }

    /** Gives back what is reserved, unless already finished. */
    method Abort()
      requires store.Valid() && Valid()
      modifies this, store`reserved, store`writers, store`slots
      ensures store.Valid() && Valid() && finished
      ensures store.slots == old(store.slots)[id := Finished]
      ensures store.reserved <= old(store.reserved)
    {
      hide CostSum, SameEntries, Agrees, Heap.Valid, Reserved, Writing;
      if finished {
        return;
      }
      SlotChanged(store.slots, id, Finished);
      store.reserved := store.reserved - cost;
      store.writers := store.writers - 1;
      store.slots := store.slots[id := Finished];
      finished, rows := true, [];
    }
  }

  lemma ShedNothing(s: seq<E>, k: Key)
    ensures Shed(s, |s|, k) == s
  {
  }

  /** The last unprotected entry of what is left is the last unprotected one kept so far. */
  lemma ShedDrops(s: seq<E>, n: nat, c: nat, k: Key)
    requires n <= |s| && c < |Shed(s, n, k)| && Distinct(Shed(s, n, k)) && Shed(s, n, k)[c].key != k
    requires forall i | c < i < |Shed(s, n, k)| :: Shed(s, n, k)[i].key == k
    ensures c < n && Shed(s, n, k)[c] == s[c] && Minus(Shed(s, n, k), s[c]) == Shed(s, c, k)
  {
    hide Distinct;
    OnlyKeeps(s[n..], k);
    var t := Shed(s, n, k);
    assert forall i | n <= i < |t| :: t[i] in Only(s[n..], k);
    forall i | c < i < n ensures s[i].key == k {
      assert t[i] == s[i];
    }
    ShedStep(s, n, c, k);
  }

  /** If everything listed has the protected key, its entry is all there is. */
  lemma OnlyPinned(entries: map<Key, E>, order: seq<E>, h: seq<E>, k: Key)
    requires SameEntries(entries, order, h) && forall e | e in order :: e.key == k
    ensures CostSum(order) == if k in entries then entries[k].cost else 0
  {
    if k in entries {
      forall e | e in order ensures e == entries[k] {
        assert entries[e.key] == e;
      }
      Alone(order, entries[k]);
      CostSumOne(entries[k]);
    } else {
      FirstIsIn(order);
    }
  }

  lemma FirstIsIn<T>(s: seq<T>)
    ensures s == [] || s[0] in s
  {
  }

  lemma Alone<T>(s: seq<T>, x: T)
    requires Distinct(s) && x in s && forall e | e in s :: e == x
    ensures s == [x]
  {
    assert s[0] in s && s[|s| - 1] in s;
    assert forall i, j | 0 <= i < |s| && 0 <= j < |s| && s[i] == s[j] :: i == j;
    assert |s| - 1 == 0;
  }

  lemma SameHeap(entries: map<Key, E>, order: seq<E>, h: seq<E>, e: E)
    requires SameEntries(entries, order, h) && e in h
    ensures e in order && Distinct(order)
  {
  }

  lemma SameSize(entries: map<Key, E>, order: seq<E>, h: seq<E>)
    requires SameEntries(entries, order, h)
    ensures |order| == |entries|
  {
  }

  lemma NothingExpired(entries: map<Key, E>, order: seq<E>, h: seq<E>, now: int)
    requires SameEntries(entries, order, h) && Ordered(h) && (h == [] || now < h[0].expires)
    ensures Unexpired(order, now) == order
  {
    forall e | e in order ensures now < e.expires {
      var i :| 0 <= i < |h| && h[i] == e;
      RootIsFirst(h, i);
    }
    AllUnexpired(order, now);
  }

  lemma SameEntry(entries: map<Key, E>, order: seq<E>, h: seq<E>, k: Key)
    requires SameEntries(entries, order, h) && k in entries
    ensures entries[k] in order && entries[k] in h && entries[k].key == k
  {
  }

  lemma MovedToFront(entries: map<Key, E>, order: seq<E>, h: seq<E>, e: E)
    requires SameEntries(entries, order, h) && e in order
    ensures SameEntries(entries, [e] + Minus(order, e), h)
    ensures CostSum([e] + Minus(order, e)) == CostSum(order)
  {
    hide Minus, CostSum;
    MinusMembers(order, e);
    MinusCosts(order, e);
    CostSumConcat([e], Minus(order, e));
    CostSumOne(e);
  }

  /** The entry of any key is part of the total. */
  lemma PinnedFits(entries: map<Key, E>, order: seq<E>, h: seq<E>, k: Key)
    requires SameEntries(entries, order, h)
    ensures (if k in entries then entries[k].cost else 0) <= CostSum(order)
  {
    if k in entries {
      MinusCosts(order, entries[k]);
    }
  }
}
