/** Whole runs of the row cache of pkg/rowcache/memory.go: any sequence of calls on one cache by any number
    of writers at once, told from a log of what each call did. */
module CacheRuns {
  import opened RowCache
  import RowCost
  import opened Wrappers

  /** A call; writers are numbered in the order they were begun. */
  datatype Op =
    | Begin(key: Key, cancelled: bool)
    | Append(w: nat, row: RowCost.Value, cancelled: bool)
    | Commit(w: nat, expires: int, cancelled: bool, cancelledLocked: bool)
    | Abort(w: nat)
    | Lookup(key: Key, now: int, cancelled: bool)
    | Collect(now: int, stop: nat -> bool)
    | Close

  /** What a call did. NoRoom: it was refused for capacity, its writer's key being given. */
  datatype Event =
    | Began(w: nat, key: Key)
    | Appended(w: nat, key: Key, row: RowCost.Value)
    | Published(w: nat, key: Key, expires: int)
    | Aborted(w: nat)
    | Hit(key: Key, now: int, rows: Rows)
    | Missed(key: Key, now: int)
    | Collected(now: int)
    | Ended
    | NoRoom(key: Key)
    | Refused(error: Error)
    | Nothing

  type Log = seq<Event>

  /** What the cache may hold, and each entry. */
  datatype Limits = Limits(maxBytes: nat, maxEntryBytes: nat, maxEntries: nat)

  /** A zero limit stands for its default, and an entry may take no more than the whole. */
  function Effective(l: Limits): Limits {
    var maxBytes := if l.maxBytes == 0 then 64 * MIB else l.maxBytes;
    Limits(maxBytes, Least(if l.maxEntryBytes == 0 then 4 * MIB else l.maxEntryBytes, maxBytes), if l.maxEntries == 0 then 1024 else l.maxEntries)
  }

  // What a log says.

  function Begun(log: Log): nat {
    if log == [] then 0 else Begun(log[..|log| - 1]) + if log[|log| - 1].Began? then 1 else 0
  }

  /** The rows a writer has appended. */
  function Wrote(log: Log, w: nat): Rows {
    if log == [] then []
    else
      var e := log[|log| - 1];
      Wrote(log[..|log| - 1], w) + if e.Appended? && e.w == w then [e.row] else []
  }

  predicate Finishes(e: Event, w: nat) {
    (e.Published? || e.Aborted?) && e.w == w
  }

  /** The writer has committed or aborted. */
  predicate Over(log: Log, w: nat) {
    log != [] && (Over(log[..|log| - 1], w) || Finishes(log[|log| - 1], w))
  }

  predicate IsClosed(log: Log) {
    log != [] && (IsClosed(log[..|log| - 1]) || log[|log| - 1].Ended?)
  }

  /** What each key's last commit published, and until when. */
  function Latest(log: Log): map<Key, (Rows, int)> {
    if log == [] then map[]
    else
      var before, e := log[..|log| - 1], log[|log| - 1];
      if e.Published? then Latest(before)[e.key := (Wrote(before, e.w), e.expires)] else Latest(before)
  }

  /** Everything ever reserved. */
  function Spent(log: Log): nat {
    if log == [] then 0
    else
      var e := log[|log| - 1];
      Spent(log[..|log| - 1]) + if e.Began? then INITIAL_COST else if e.Appended? then RowCost.Price(e.row) else 0
  }

  /** Which of the keys certainly held before an event are certainly held after it: under pressure only the
      key being written is safe. */
  function StillHeld(kept: set<Key>, e: Event, latest: map<Key, (Rows, int)>, spent: nat, limits: Limits): set<Key> {
    match e
    case Began(_, k) => if spent <= limits.maxBytes then kept else kept * {k}
    case Appended(_, k, _) => if spent <= limits.maxBytes then kept else kept * {k}
    case NoRoom(k) => kept * {k}
    case Published(_, k, _) => if |latest.Keys + {k}| <= limits.maxEntries then kept + {k} else {k}
    case Missed(k, now) => if k in latest && now < latest[k].1 then kept else kept - {k}
    case Collected(now) => set k | k in kept && k in latest && now < latest[k].1
    case Ended => {}
    case _ => kept
  }

  /** What an event must spare of the keys there were before it. */
  ghost predicate Spares(e: Event, kept: set<Key>, latest: map<Key, (Rows, int)>, spent: nat, limits: Limits,
                         before: set<Key>, after: set<Key>) {
    match e
    case Began(_, k) => (spent <= limits.maxBytes ==> before <= after) && (k in before ==> k in after)
    case Appended(_, k, _) => (spent <= limits.maxBytes ==> before <= after) && (k in before ==> k in after)
    case NoRoom(k) => k in before ==> k in after
    case Published(_, k, _) => k in after && (|latest.Keys + {k}| <= limits.maxEntries ==> before <= after)
    case Missed(k, now) => before - {k} <= after && (k in kept && k in latest && now < latest[k].1 ==> k in after)
    case Collected(now) => forall k | k in before && k in latest && now < latest[k].1 :: k in after
    case Ended => true
    case _ => before <= after
  }

  lemma SparedAreHeld(e: Event, kept: set<Key>, latest: map<Key, (Rows, int)>, spent: nat, limits: Limits,
                      before: set<Key>, after: set<Key>)
    requires kept <= before && Spares(e, kept, latest, spent, limits, before, after)
    ensures StillHeld(kept, e, latest, spent, limits) <= after
  {
  }

  lemma NothingHappened(kept: set<Key>, latest: map<Key, (Rows, int)>, spent: nat, limits: Limits)
    ensures StillHeld(kept, Nothing, latest, spent, limits) == kept
  {
  }

  /** Keys whose last commit is certainly held. */
  function Retained(log: Log, limits: Limits): set<Key> {
    if log == [] then {}
    else
      var before := log[..|log| - 1];
      StillHeld(Retained(before, limits), log[|log| - 1], Latest(before), Spent(log), limits)
  }

  /** How many of the first writers are open. */
  ghost function Live(log: Log, writers: nat): nat {
    if writers == 0 then 0 else Live(log, writers - 1) + if Over(log, writers - 1) then 0 else 1
  }

  /** What the writers still open hold back: what each began with and the price of its rows. */
  ghost function Holding(log: Log, writers: nat): nat {
    if writers == 0 then 0
    else
      var w := writers - 1;
      Holding(log, w) + if Over(log, w) then 0 else INITIAL_COST + RowCost.ItemsPrice(Wrote(log, w))
  }

  /** Commit j published these rows under a key and no later one did. */
  ghost predicate LastCommit(log: Log, j: nat, k: Key, rows: Rows, expires: int) {
    && j < |log| && log[j].Published? && log[j].key == k && log[j].expires == expires
    && rows == Wrote(log[..j], log[j].w)
    && forall l | j < l < |log| :: !(log[l].Published? && log[l].key == k)
  }

  lemma {:induction false} LatestIsLastCommit(log: Log, k: Key)
    ensures k in Latest(log) <==> exists j | 0 <= j < |log| :: log[j].Published? && log[j].key == k
    ensures k in Latest(log) ==> exists j: nat :: LastCommit(log, j, k, Latest(log)[k].0, Latest(log)[k].1)
    decreases |log|
  {
    if log != [] {
      var n := |log| - 1;
      var before, e := log[..n], log[n];
      LatestIsLastCommit(before, k);
      if e.Published? && e.key == k {
        assert LastCommit(log, n, k, Latest(log)[k].0, Latest(log)[k].1);
      } else {
        if k in Latest(before) {
          var j: nat :| LastCommit(before, j, k, Latest(before)[k].0, Latest(before)[k].1);
          assert before[..j] == log[..j];
          assert LastCommit(log, j, k, Latest(log)[k].0, Latest(log)[k].1);
        }
        forall j | 0 <= j < |log| && log[j].Published? && log[j].key == k ensures k in Latest(log) {
          assert before[j] == log[j];
        }
      }
    }
  }

  lemma {:induction false} OnlyMore(log: Log, n: nat)
    requires n <= |log|
    ensures Spent(log[..n]) <= Spent(log) && Latest(log[..n]).Keys <= Latest(log).Keys && (IsClosed(log[..n]) ==> IsClosed(log))
    decreases |log|
  {
    if n < |log| {
      OnlyMore(log[..|log| - 1], n);
      assert log[..|log| - 1][..n] == log[..n];
    } else {
      assert log[..n] == log;
    }
  }

  /** While everything ever reserved fits the budget and every key ever published the limit, a commit that is
      the last of its key is held until it expires: nothing is lost but to pressure, to time or to Close. */
  lemma {:induction false} NothingIsLost(log: Log, j: nat, k: Key, rows: Rows, expires: int, limits: Limits)
    requires LastCommit(log, j, k, rows, expires) && !IsClosed(log)
    requires Spent(log) <= limits.maxBytes && |Latest(log).Keys| <= limits.maxEntries
    requires forall l | j < l < |log| ::
               !log[l].NoRoom? && (log[l].Collected? || (log[l].Missed? && log[l].key == k) ==> log[l].now < expires)
    ensures k in Retained(log, limits) && k in Latest(log) && Latest(log)[k] == (rows, expires)
    decreases |log|
  {
    var n := |log| - 1;
    OnlyMore(log, n);
    if j < n {
      assert log[..n][..j] == log[..j];
      FewerKeys(Latest(log[..n]).Keys, Latest(log).Keys);
      NothingIsLost(log[..n], j, k, rows, expires, limits);
    }
  }

  lemma FewerKeys(s: set<Key>, t: set<Key>)
    requires s <= t
    ensures |s| <= |t|
  {
    assert t == s + (t - s);
  }

  // What every log of a cache keeps.

  /** A hit shows the rows the last commit of its key published, before they expire. */
  ghost predicate HitIsLastCommit(log: Log, i: nat)
    requires i < |log| && log[i].Hit?
  {
    exists j: nat, expires :: LastCommit(log[..i], j, log[i].key, log[i].rows, expires) && log[i].now < expires
  }

  ghost predicate HitsAreRight(log: Log) {
    forall i | 0 <= i < |log| && log[i].Hit? :: HitIsLastCommit(log, i)
  }

  /** Only an open writer appends, publishes or aborts, and it publishes under the key it was begun for. */
  ghost predicate Orderly(log: Log) {
    && (forall i | 0 <= i < |log| && (log[i].Appended? || log[i].Published? || log[i].Aborted?) :: !Over(log[..i], log[i].w))
    && (forall i | 0 <= i < |log| && (log[i].Appended? || log[i].Published?) :: Began(log[i].w, log[i].key) in log[..i])
  }

  lemma HitsStayRight(log: Log, e: Event)
    requires HitsAreRight(log)
    requires e.Hit? ==> e.key in Latest(log) && Latest(log)[e.key].0 == e.rows && e.now < Latest(log)[e.key].1
    ensures HitsAreRight(log + [e])
  {
    var log' := log + [e];
    forall i | 0 <= i < |log'| && log'[i].Hit? ensures HitIsLastCommit(log', i) {
      assert log'[..i] == log[..i];
      if i < |log| {
        assert HitIsLastCommit(log, i);
        var j: nat, expires :| LastCommit(log[..i], j, log[i].key, log[i].rows, expires) && log[i].now < expires;
        assert LastCommit(log'[..i], j, log'[i].key, log'[i].rows, expires);
      } else {
        LatestIsLastCommit(log, e.key);
        var j: nat :| LastCommit(log, j, e.key, Latest(log)[e.key].0, Latest(log)[e.key].1);
        assert log[..i] == log;
        assert LastCommit(log'[..i], j, log'[i].key, log'[i].rows, Latest(log)[e.key].1);
      }
    }
  }

  lemma StaysOrderly(log: Log, e: Event)
    requires Orderly(log)
    requires e.Appended? || e.Published? || e.Aborted? ==> !Over(log, e.w)
    requires e.Appended? || e.Published? ==> Began(e.w, e.key) in log
    ensures Orderly(log + [e])
  {
    hide Over;
    var log' := log + [e];
    assert log'[..|log|] == log;
    forall i | 0 <= i < |log'| ensures log'[..i] == if i < |log| then log[..i] else log {
    }
  }

  /** A slot of the cache is what the log says of its writer. */
  ghost predicate SlotIs(slot: Slot, log: Log, w: nat) {
    slot == if Over(log, w) then Finished else Open(INITIAL_COST + RowCost.ItemsPrice(Wrote(log, w)))
  }

  ghost predicate SlotsAre(slots: seq<Slot>, log: Log) {
    forall w | 0 <= w < |slots| :: SlotIs(slots[w], log, w)
  }

  /** At most one slot changes or is added, with its writer. */
  lemma SlotsStay(slots: seq<Slot>, log: Log, slots': seq<Slot>, log': Log, v: nat)
    requires SlotsAre(slots, log) && |slots'| == |slots| + if v == |slots| < |slots'| then 1 else 0
    requires forall w: nat | w != v :: Wrote(log', w) == Wrote(log, w) && (Over(log', w) <==> Over(log, w))
    requires forall w: nat | w != v && w < |slots| :: slots'[w] == slots[w]
    requires v < |slots'| ==> SlotIs(slots'[v], log', v)
    ensures SlotsAre(slots', log')
  {
    hide Wrote, Over;
    forall w | 0 <= w < |slots'| ensures SlotIs(slots'[w], log', w) {
      assert w != v ==> SlotIs(slots[w], log, w);
    }
  }

  lemma {:induction false} SlotsHold(slots: seq<Slot>, log: Log)
    requires SlotsAre(slots, log)
    ensures Reserved(slots) == Holding(log, |slots|) && Writing(slots) == Live(log, |slots|)
    decreases |slots|
  {
    if slots != [] {
      SlotsHold(slots[..|slots| - 1], log);
    }
  }

  /** What a call may come to after a log: all of it decided by the log, but for whether there is room. */
  ghost predicate Answers(op: Op, log: Log, e: Event, limits: Limits) {
    match op
    case Begin(key, cancelled) =>
      if cancelled then e == Refused(Cancelled)
      else if IsClosed(log) then e == Refused(Error.Closed)
      else
        && (e == Began(Begun(log), key) || e == NoRoom(key))
        && (INITIAL_COST <= limits.maxEntryBytes && Live(log, Begun(log)) < limits.maxEntries && Spent(log) + INITIAL_COST <= limits.maxBytes ==>
              e.Began?)
    case Append(w, row, cancelled) =>
      if w >= Begun(log) then e == Nothing
      else if cancelled then e == Refused(Cancelled)
      else if Over(log, w) then e == Refused(Error.Closed)
      else
        var whole := INITIAL_COST + RowCost.ItemsPrice(Wrote(log, w)) + RowCost.Price(row);
        && (|| (e.Appended? && e.w == w && e.row == row && !IsClosed(log) && RowCost.Storable(row, 0) && whole <= limits.maxEntryBytes)
            || e.NoRoom? || (e == Refused(Error.Closed) && IsClosed(log))
            || (e == Refused(Unsupported) && !RowCost.Storable(row, 0)))
        && (RowCost.Storable(row, 0) && whole <= limits.maxEntryBytes ==>
              if IsClosed(log) then e.Refused? else Spent(log) + RowCost.Price(row) <= limits.maxBytes ==> e.Appended?)
    case Commit(w, expires, cancelled, cancelledLocked) =>
      if w >= Begun(log) then e == Nothing
      else if cancelled then e == Refused(Cancelled)
      else if Over(log, w) || IsClosed(log) then e == Refused(Error.Closed)
      else if cancelledLocked then e == Refused(Cancelled)
      else e.Published? && e.w == w && e.expires == expires
    case Abort(w) =>
      e == if w >= Begun(log) || Over(log, w) then Nothing else Aborted(w)
    case Lookup(key, now, cancelled) =>
      if cancelled then e == Refused(Cancelled)
      else if IsClosed(log) then e == Refused(Error.Closed)
      else
        && (e == Missed(key, now) || (e.Hit? && e.key == key && e.now == now))
        && (key in Retained(log, limits) && key in Latest(log) && now < Latest(log)[key].1 ==> e.Hit?)
    case Collect(now, stop) =>
      e == if IsClosed(log) && !stop(0) then Refused(Error.Closed) else Collected(now)
    case Close => e == Ended
  }

  lemma NotBegun(op: Op, log: Log, limits: Limits)
    requires (op.Append? || op.Commit? || op.Abort?) && op.w >= Begun(log)
    ensures Answers(op, log, Nothing, limits)
  {
  }

  /** Every event answers its call. */
  ghost predicate AllAnswered(ops: seq<Op>, log: Log, limits: Limits) {
    |log| == |ops| && forall i | 0 <= i < |ops| :: Answers(ops[i], log[..i], log[i], limits)
  }

  lemma OneMoreAnswered(ops: seq<Op>, log: Log, op: Op, e: Event, limits: Limits)
    requires AllAnswered(ops, log, limits) && Answers(op, log, e, limits)
    ensures AllAnswered(ops + [op], log + [e], limits)
  {
    hide Answers;
    assert (log + [e])[..|log|] == log;
    assert forall i | 0 <= i < |log| :: (log + [e])[..i] == log[..i];
  }

  /** So in any answered log a lookup before a commit expires finds exactly its rows, unless another commit of
      the key came since, the cache was closed, or it has been short of room. */
  lemma FoundUnlessPressed(ops: seq<Op>, log: Log, limits: Limits, i: nat, j: nat, rows: Rows, expires: int)
    requires AllAnswered(ops, log, limits) && HitsAreRight(log)
    requires i < |ops| && ops[i].Lookup? && !ops[i].cancelled && ops[i].now < expires
    requires LastCommit(log[..i], j, ops[i].key, rows, expires) && !IsClosed(log[..i])
    requires Spent(log[..i]) <= limits.maxBytes && |Latest(log[..i]).Keys| <= limits.maxEntries
    requires forall l | j < l < i ::
               !log[l].NoRoom? && (log[l].Collected? || (log[l].Missed? && log[l].key == ops[i].key) ==> log[l].now < expires)
    ensures log[i] == Hit(ops[i].key, ops[i].now, rows)
  {
    hide Spent, Latest, IsClosed, Retained, Wrote;
    var before, k := log[..i], ops[i].key;
    NothingIsLost(before, j, k, rows, expires, limits);
    assert Answers(ops[i], before, log[i], limits);
    assert HitIsLastCommit(log, i);
    var j': nat, expires' :| LastCommit(before, j', k, log[i].rows, expires') && log[i].now < expires';
    assert !(j < j') && !(j' < j);
  }

  /** One cache, its writers, and the log of what they did. */
  class Session {
    const store: Memory
    var writers: seq<Writer>
    var log: Log

    ghost function Bounds(): Limits {
      Limits(store.maxBytes, store.maxEntryBytes, store.maxEntries)
    }

    ghost function Owned(): set<object>
      reads this, store, store.expiry
    {
      {this, store, store.expiry} + (set x | x in store.expiry.h) + (set w | w in writers)
    }

    ghost predicate WriterIs(writer: Writer, w: nat)
      reads this`log, writer
    {
      && writer.store == store && writer.id == w && Began(w, writer.key) in log
      && (writer.finished <==> Over(log, w))
      && (!writer.finished ==>
            && writer.rows == Wrote(log, w) && writer.cost == INITIAL_COST + RowCost.ItemsPrice(writer.rows)
            && writer.cost <= store.maxEntryBytes)
    }

    /** The writers are what the log says of them. */
    ghost predicate WritersAre()
      reads this, store, writers
    {
      && |writers| == |store.slots| == Begun(log)
      && (forall w: nat | |writers| <= w :: Wrote(log, w) == [] && !Over(log, w))
      && (forall w | 0 <= w < |writers| :: WriterIs(writers[w], w))
      && SlotsAre(store.slots, log)
    }

    ghost function Held(): set<Key>
      reads this`log
    {
      Retained(log, Bounds())
    }

    /** What an event adds to everything ever reserved. */
    function Reserves(e: Event): nat {
      if e.Began? then INITIAL_COST else if e.Appended? then RowCost.Price(e.row) else 0
    }

    /** The entries and the books are what the log will say once an event is added. */
    ghost predicate BooksBut(e: Event)
      reads this`log, store
    {
      && store.latest == (if e.Published? then Latest(log)[e.key := (Wrote(log, e.w), e.expires)] else Latest(log))
      && (store.closed <==> IsClosed(log) || e.Ended?)
      && store.bytes + store.reserved <= Spent(log) + Reserves(e)
      && StillHeld(Held(), e, Latest(log), Spent(log) + Reserves(e), Bounds()) <= store.entries.Keys
    }

    ghost predicate Valid()
      reads Owned()
    {
      store.Valid() && WritersAre() && BooksBut(Nothing) && HitsAreRight(log) && Orderly(log)
    }

    /** The call added one event, which answers it. */
    ghost predicate Did(op: Op, before: Log)
      reads this`log
    {
      |log| == |before| + 1 && log[..|before|] == before && Answers(op, before, log[|before|], Bounds())
    }

    constructor (limits: Limits)
      ensures Valid() && fresh(Owned()) && log == [] && Bounds() == Effective(limits)
    {
      store := new Memory(limits.maxBytes, limits.maxEntryBytes, limits.maxEntries);
      writers, log := [], [];
    }

    /** Adds to the log what has just happened. */
    method Note(e: Event)
      requires HitsAreRight(log) && Orderly(log)
      requires e.Hit? ==> e.key in Latest(log) && Latest(log)[e.key].0 == e.rows && e.now < Latest(log)[e.key].1
      requires e.Appended? || e.Published? || e.Aborted? ==> !Over(log, e.w)
      requires e.Appended? || e.Published? ==> Began(e.w, e.key) in log
      modifies this`log
      ensures log == old(log) + [e] && HitsAreRight(log) && Orderly(log) && log[..|old(log)|] == old(log)
      ensures Latest(log) == (if e.Published? then Latest(old(log))[e.key := (Wrote(old(log), e.w), e.expires)] else Latest(old(log)))
      ensures forall w :: Wrote(log, w) == Wrote(old(log), w) + if e.Appended? && e.w == w then [e.row] else []
      ensures forall w :: Over(log, w) <==> Over(old(log), w) || Finishes(e, w)
      ensures Held() == StillHeld(old(Held()), e, Latest(old(log)), Spent(log), Bounds())
      ensures Begun(log) == Begun(old(log)) + if e.Began? then 1 else 0
      ensures IsClosed(log) <==> IsClosed(old(log)) || e.Ended?
      ensures Spent(log) == Spent(old(log)) + if e.Began? then INITIAL_COST else if e.Appended? then RowCost.Price(e.row) else 0
    {
      hide HitsAreRight, Orderly, StillHeld, RowCost.Price;
      HitsStayRight(log, e);
      StaysOrderly(log, e);
      log := log + [e];
      assert log[..|old(log)|] == old(log);
    }

    /** Adds an event that concerns no writer. */
    method Remark(e: Event)
      requires !e.Began? && !e.Appended? && !e.Published? && !e.Aborted?
      requires store.Valid() && WritersAre() && BooksBut(e) && HitsAreRight(log) && Orderly(log)
      requires e.Hit? ==> e.key in Latest(log) && Latest(log)[e.key].0 == e.rows && e.now < Latest(log)[e.key].1
      modifies this`log
      ensures Valid() && log == old(log) + [e] && log[..|old(log)|] == old(log)
    {
      hide Memory.Valid, Wrote, Over, Latest, Begun, IsClosed, Spent, Retained, HitsAreRight, Orderly, StillHeld, SlotsAre, SameEntries, Shed, Others, Minus, RowCost.Price, RowCost.ItemsPrice;
      Note(e);
      NothingHappened(Held(), Latest(log), Spent(log), Bounds());
      SlotsStay(store.slots, old(log), store.slots, log, |writers|);
    }

    /** What was held before a call is held, once an event that spares it is added. */
    lemma Sparing(e: Event, log0: Log, before: set<Key>, spent: nat)
      requires var kept := Retained(log0, Bounds());
               && StillHeld(kept, Nothing, Latest(log0), Spent(log0), Bounds()) <= before
               && Spares(e, kept, Latest(log0), spent, Bounds(), before, store.entries.Keys)
      ensures var kept := Retained(log0, Bounds());
              StillHeld(kept, e, Latest(log0), spent, Bounds()) <= store.entries.Keys
    {
      hide Retained, Latest, Spent, StillHeld, Spares;
      var kept := Retained(log0, Bounds());
      NothingHappened(kept, Latest(log0), Spent(log0), Bounds());
      SparedAreHeld(e, kept, Latest(log0), spent, Bounds(), before, store.entries.Keys);
    }

    /** A writer is what the log will say of it once an event of its own is added. */
    ghost predicate WriterBut(writer: Writer, v: nat, e: Event)
      reads this`log, writer
    {
      && writer.store == store && writer.id == v && (Began(v, writer.key) in log || e == Began(v, writer.key))
      && (writer.finished <==> Over(log, v) || Finishes(e, v))
      && (!writer.finished ==>
            && writer.rows == Wrote(log, v) + (if e.Appended? then [e.row] else [])
            && writer.cost == INITIAL_COST + RowCost.ItemsPrice(writer.rows) && writer.cost <= store.maxEntryBytes)
    }

    /** Adds an event of writer v, whose slot alone has changed. */
    method Record(ghost v: nat, e: Event, ghost slots: seq<Slot>)
      requires (e.Began? || e.Appended? || e.Published? || e.Aborted?) && e.w == v < |writers| == |store.slots|
      requires store.Valid() && BooksBut(e) && HitsAreRight(log) && Orderly(log)
      requires SlotsAre(slots, log) && Begun(log) == |slots| && |store.slots| == |slots| + if e.Began? then 1 else 0
      requires e.Began? ==> v == |slots|
      requires forall w: nat | w != v && w < |slots| :: store.slots[w] == slots[w] && WriterIs(writers[w], w)
      requires forall w: nat | |slots| <= w :: Wrote(log, w) == [] && !Over(log, w)
      requires WriterBut(writers[v], v, e)
      requires store.slots[v] == if writers[v].finished then Finished else Open(writers[v].cost)
      requires !e.Began? ==> !Over(log, v)
      requires e.Appended? || e.Published? ==> Began(v, e.key) in log
      modifies this`log
      ensures Valid() && log == old(log) + [e] && log[..|old(log)|] == old(log)
    {
      hide Memory.Valid, Wrote, Over, Latest, Begun, IsClosed, Spent, Retained, HitsAreRight, Orderly, StillHeld, SlotsAre, Shed, Others;
      Note(e);
      NothingHappened(Held(), Latest(log), Spent(log), Bounds());
      SlotsStay(slots, old(log), store.slots, log, v);
    }

    lemma RoomFor(key: Key)
      requires Valid()
      ensures store.Pinned(key) <= store.bytes && store.writers == Live(log, Begun(log))
    {
      hide Wrote, Over, Latest, Begun, IsClosed, Spent, Retained, HitsAreRight, Orderly, StillHeld, SameEntries;
      PinnedFits(store.entries, store.order, store.expiry.h, key);
      SlotsHold(store.slots, log);
    }

    /** The store's part of Begin. */
    method Enter(key: Key, cancelled: bool) returns (w: Option<Writer>, e: Event)
      requires Valid()
      modifies store, store.expiry, store.expiry.h
      ensures store.Valid() && BooksBut(e)
      ensures store.slots == if w.Some? then old(store.slots) + [Open(INITIAL_COST)] else old(store.slots)
      ensures forall x | x in store.expiry.h :: x in old(store.expiry.h)
      ensures Answers(Op.Begin(key, cancelled), log, e, Bounds())
      ensures w.Some? ==> fresh(w.value) && e == Began(|writers|, key) && WriterBut(w.value, |writers|, e) && !w.value.finished
                          && w.value.cost == INITIAL_COST
      ensures w.None? ==> e.NoRoom? || e.Refused?
    {
      hide Memory.Valid, Wrote, Over, Latest, Begun, IsClosed, Spent, Retained, HitsAreRight, Orderly, StillHeld, SlotsAre, SameEntries, Shed, Others, Minus, RowCost.Price;
      ghost var before, kept := store.entries.Keys, 0;
      var error;
      RoomFor(key);
      w, error, kept := store.Begin(key, cancelled);
      e := if w.Some? then Began(|writers|, key) else if error == Some(Capacity) then NoRoom(key) else Refused(error.value);
      Sparing(e, log, before, Spent(log) + Reserves(e));
    }

    method Begin(key: Key, cancelled: bool)
      requires Valid()
      modifies Owned()
      ensures Valid() && fresh(Owned() - old(Owned())) && Did(Op.Begin(key, cancelled), old(log))
    {
      hide Memory.Valid, Wrote, Over, Latest, Begun, IsClosed, Spent, Retained, HitsAreRight, Orderly, StillHeld, SlotsAre, SameEntries, Shed, Others, Minus, RowCost.Price, Answers, Session.WriterIs, Session.WriterBut, Session.BooksBut;
      ghost var slots := store.slots;
      var w, e := Enter(key, cancelled);
      if w.Some? {
        writers := writers + [w.value];
        Record(|slots|, e, slots);
      } else {
        Remark(e);
      }
    }

    lemma WriterStands(w: nat)
      requires Valid() && w < |writers|
      ensures writers[w].store == store && writers[w].id == w && writers[w].Valid()
      ensures forall v | 0 <= v < |writers| && v != w :: writers[v] != writers[w]
    {
      hide Wrote, Over, Latest, Begun, IsClosed, Spent, Retained, HitsAreRight, Orderly, StillHeld, RowCost.ItemsPrice;
      assert WriterIs(writers[w], w) && SlotIs(store.slots[w], log, w);
      forall v | 0 <= v < |writers| && v != w ensures writers[v] != writers[w] {
        assert WriterIs(writers[v], v);
      }
    }

    /** The store's part of Append. */
    method Put(w: nat, row: RowCost.Value, cancelled: bool) returns (e: Event)
      requires Valid() && w < |writers|
      modifies store, store.expiry, store.expiry.h, writers[w]
      ensures store.Valid() && BooksBut(e)
      ensures forall x | x in store.expiry.h :: x in old(store.expiry.h)
      ensures Answers(Op.Append(w, row, cancelled), log, e, Bounds())
      ensures if e.Appended? then
                && e.w == w && Began(w, e.key) in log && !Over(log, w) && WriterBut(writers[w], w, e) && !writers[w].finished
                && store.slots == old(store.slots)[w := Open(writers[w].cost)]
              else
                (e.NoRoom? || e.Refused?) && store.slots == old(store.slots) && WriterIs(writers[w], w)
    {
      hide Memory.Valid, Wrote, Over, Latest, Begun, IsClosed, Spent, Retained, HitsAreRight, Orderly, StillHeld, SlotsAre, SameEntries, Shed, Others, Minus, RowCost.Price, RowCost.Storable, RowCost.ItemsPrice;
      WriterStands(w);
      assert WriterIs(writers[w], w);
      ghost var before, kept := store.entries.Keys, 0;
      var writer, error := writers[w], None;
      RoomFor(writer.key);
      error, kept := writer.Append(row, cancelled);
      e := match error
           case None => Appended(w, writer.key, row)
           case Some(Capacity) => NoRoom(writer.key)
           case Some(other) => Refused(other);
      Sparing(e, log, before, Spent(log) + Reserves(e));
    }

    method Append(w: nat, row: RowCost.Value, cancelled: bool)
      requires Valid()
      modifies Owned()
      ensures Valid() && fresh(Owned() - old(Owned())) && Did(Op.Append(w, row, cancelled), old(log))
    {
      hide Memory.Valid, Wrote, Over, Latest, Begun, IsClosed, Spent, Retained, HitsAreRight, Orderly, StillHeld, SlotsAre, SameEntries, Shed, Others, Minus, RowCost.Price, Answers, Session.WriterIs, Session.WriterBut, Session.BooksBut;
      if w >= |writers| {
        NotBegun(Op.Append(w, row, cancelled), log, Bounds());
        Remark(Nothing);
        return;
      }
      ghost var slots := store.slots;
      WriterStands(w);
      var e := Put(w, row, cancelled);
      if e.Appended? {
        Record(w, e, slots);
      } else {
        Remark(e);
      }
    }

    lemma Views()
      requires store.Valid()
      ensures SameEntries(store.entries, store.order, store.expiry.h) && store.entries.Keys <= store.latest.Keys && 0 < store.maxEntries
      ensures 0 <= store.bytes && Agrees(store.entries, store.latest)
    {
      hide CostSum, Reserved, Writing, SameEntries, Distinct;
    }

    lemma ExpiryOf(k: Key)
      requires store.Valid()
      ensures k in store.entries ==> k in store.latest && store.entries[k].expires == store.latest[k].1
    {
      hide CostSum, Reserved, Writing, SameEntries, Distinct;
    }

    lemma CommitSpares(entries: map<Key, E>, order: seq<E>, h: seq<E>, e: Event, kept: set<Key>, latest: map<Key, (Rows, int)>, spent: nat)
      requires store.Valid() && SameEntries(entries, order, h) && entries.Keys <= latest.Keys && (e.Published? || e.Refused?)
      requires e.Refused? ==> store.entries == entries
      requires e.Published? ==> e.key in store.entries
      requires e.Published? ==>
                 var rest := Others(entries, order, e.key);
                 store.order == [store.entries[e.key]] + rest[..Least(|rest|, store.maxEntries - 1)]
      ensures Spares(e, kept, latest, spent, Bounds(), entries.Keys, store.entries.Keys)
    {
      hide Memory.Valid, Others, SameEntries;
      Views();
      if e.Published? && |latest.Keys + {e.key}| <= store.maxEntries {
        FewerKeys(entries.Keys + {e.key}, latest.Keys + {e.key});
        NothingEvicted(entries, order, h, e.key, store.maxEntries, store.entries, store.order, store.expiry.h);
      }
    }

    /** The store's part of Commit. */
    method Seal(w: nat, expires: int, cancelled: bool, cancelledLocked: bool) returns (e: Event)
      requires Valid() && w < |writers|
      modifies store, store.expiry, store.expiry.h, writers[w]
      ensures store.Valid() && BooksBut(e)
      ensures forall x | x in store.expiry.h :: x in old(store.expiry.h) || fresh(x)
      ensures Answers(Op.Commit(w, expires, cancelled, cancelledLocked), log, e, Bounds())
      ensures if e.Published? then
                && e.w == w && Began(w, e.key) in log && !Over(log, w) && WriterBut(writers[w], w, e) && writers[w].finished
                && store.slots == old(store.slots)[w := Finished]
              else
                e.Refused? && store.slots == old(store.slots) && WriterIs(writers[w], w)
    {
      hide Memory.Valid, Spares, Agrees, Least, Wrote, Over, Latest, Begun, IsClosed, Spent, Retained, HitsAreRight, Orderly, StillHeld, SlotsAre, SameEntries, Shed, Others, Minus, RowCost.Price, RowCost.ItemsPrice;
      WriterStands(w);
      assert WriterIs(writers[w], w);
      var writer := writers[w];
      ghost var before, entries, order, h := store.entries.Keys, store.entries, store.order, store.expiry.h;
      Views();
      var error := writer.Commit(expires, cancelled, cancelledLocked);
      e := if error.None? then Published(w, writer.key, expires) else Refused(error.value);
      CommitSpares(entries, order, h, e, Held(), Latest(log), Spent(log) + Reserves(e));
      Sparing(e, log, before, Spent(log) + Reserves(e));
    }

    method Commit(w: nat, expires: int, cancelled: bool, cancelledLocked: bool)
      requires Valid()
      modifies Owned()
      ensures Valid() && fresh(Owned() - old(Owned())) && Did(Op.Commit(w, expires, cancelled, cancelledLocked), old(log))
    {
      hide Memory.Valid, Wrote, Over, Latest, Begun, IsClosed, Spent, Retained, HitsAreRight, Orderly, StillHeld, SlotsAre, SameEntries, Shed, Others, Minus, RowCost.Price, Answers, Session.WriterIs, Session.WriterBut, Session.BooksBut;
      if w >= |writers| {
        NotBegun(Op.Commit(w, expires, cancelled, cancelledLocked), log, Bounds());
        Remark(Nothing);
        return;
      }
      ghost var slots := store.slots;
      WriterStands(w);
      var e := Seal(w, expires, cancelled, cancelledLocked);
      if e.Published? {
        Record(w, e, slots);
      } else {
        Remark(e);
      }
    }

    /** The store's part of Abort. */
    method Leave(w: nat) returns (e: Event)
      requires Valid() && w < |writers|
      modifies store, writers[w]
      ensures store.Valid() && BooksBut(e) && store.expiry.h == old(store.expiry.h)
      ensures Answers(Op.Abort(w), log, e, Bounds())
      ensures if e.Aborted? then
                && e.w == w && !Over(log, w) && WriterBut(writers[w], w, e) && writers[w].finished
                && store.slots == old(store.slots)[w := Finished]
              else
                e == Nothing && store.slots == old(store.slots) && WriterIs(writers[w], w)
    {
      hide Memory.Valid, Wrote, Over, Latest, Begun, IsClosed, Spent, Retained, HitsAreRight, Orderly, StillHeld, SlotsAre, SameEntries, Shed, Others, Minus, RowCost.Price, RowCost.ItemsPrice;
      WriterStands(w);
      assert WriterIs(writers[w], w);
      var writer := writers[w];
      ghost var before := store.entries.Keys;
      e := if writer.finished then Nothing else Aborted(w);
      writer.Abort();
      Sparing(e, log, before, Spent(log) + Reserves(e));
    }

    method Abort(w: nat)
      requires Valid()
      modifies Owned()
      ensures Valid() && fresh(Owned() - old(Owned())) && Did(Op.Abort(w), old(log))
    {
      hide Memory.Valid, Wrote, Over, Latest, Begun, IsClosed, Spent, Retained, HitsAreRight, Orderly, StillHeld, SlotsAre, SameEntries, Shed, Others, Minus, RowCost.Price, Answers, Session.WriterIs, Session.WriterBut, Session.BooksBut;
      if w >= |writers| {
        NotBegun(Op.Abort(w), log, Bounds());
        Remark(Nothing);
        return;
      }
      ghost var slots := store.slots;
      WriterStands(w);
      var e := Leave(w);
      if e.Aborted? {
        Record(w, e, slots);
      } else {
        Remark(e);
      }
    }

    /** The store's part of Lookup. */
    method Look(key: Key, now: int, cancelled: bool) returns (e: Event)
      requires Valid()
      modifies store, store.expiry, store.expiry.h
      ensures store.Valid() && BooksBut(e) && store.slots == old(store.slots)
      ensures forall x | x in store.expiry.h :: x in old(store.expiry.h)
      ensures Answers(Op.Lookup(key, now, cancelled), log, e, Bounds())
      ensures e.Hit? || e.Missed? || e.Refused?
      ensures e.Hit? ==> e.key in Latest(log) && Latest(log)[e.key].0 == e.rows && e.now < Latest(log)[e.key].1
    {
      hide Memory.Valid, Wrote, Over, Latest, Begun, IsClosed, Spent, Retained, HitsAreRight, Orderly, StillHeld, SlotsAre, SameEntries, Shed, Others, Minus, RowCost.Price, RowCost.ItemsPrice;
      ghost var before := store.entries.Keys;
      ExpiryOf(key);
      var rows, error := store.Lookup(key, now, cancelled);
      e := if rows.Some? then Hit(key, now, rows.value) else if error.Some? then Refused(error.value) else Missed(key, now);
      NothingHappened(Held(), Latest(log), Spent(log), Bounds());
      Sparing(e, log, before, Spent(log) + Reserves(e));
    }

    method Lookup(key: Key, now: int, cancelled: bool)
      requires Valid()
      modifies Owned()
      ensures Valid() && fresh(Owned() - old(Owned())) && Did(Op.Lookup(key, now, cancelled), old(log))
    {
      hide Memory.Valid, Wrote, Over, Latest, Begun, IsClosed, Spent, Retained, HitsAreRight, Orderly, StillHeld, SlotsAre, SameEntries, Shed, Others, Minus, RowCost.Price, Answers, Session.WriterIs, Session.WriterBut, Session.BooksBut;
      var e := Look(key, now, cancelled);
      Remark(e);
    }

    lemma SweepSpares(entries: map<Key, E>, order: seq<E>, h: seq<E>, latest: map<Key, (Rows, int)>, now: int, kept: set<Key>, spent: nat)
      requires store.Valid() && SameEntries(entries, order, h) && Agrees(entries, latest)
      requires store.entries == entries || Unexpired(store.order, now) == Unexpired(order, now)
      ensures Spares(Collected(now), kept, latest, spent, Bounds(), entries.Keys, store.entries.Keys)
      ensures store.entries == entries ==>
                Spares(Refused(Error.Closed), kept, latest, spent, Bounds(), entries.Keys, store.entries.Keys)
    {
      hide Memory.Valid, SameEntries, Unexpired;
      Views();
      if store.entries != entries {
        UnexpiredStay(entries, order, h, now, store.entries, store.order, store.expiry.h);
      }
    }

    /** The store's part of Collect. */
    method Sweep(now: int, stop: nat -> bool) returns (e: Event)
      requires Valid()
      modifies store, store.expiry, store.expiry.h
      ensures store.Valid() && BooksBut(e) && store.slots == old(store.slots)
      ensures forall x | x in store.expiry.h :: x in old(store.expiry.h)
      ensures Answers(Op.Collect(now, stop), log, e, Bounds()) && (e.Collected? || e.Refused?)
    {
      hide Memory.Valid, Wrote, Over, Latest, Begun, IsClosed, Spent, Retained, HitsAreRight, Orderly, StillHeld, SlotsAre, SameEntries, Agrees, Spares, Shed, Unexpired, Others, Minus, RowCost.Price, RowCost.ItemsPrice;
      ghost var before, entries, order, h := store.entries.Keys, store.entries, store.order, store.expiry.h;
      Views();
      forall k | k in store.entries ensures k in store.latest && entries[k].expires == store.latest[k].1 {
        ExpiryOf(k);
      }
      var _, error := store.Collect(now, stop);
      e := if error == Some(Error.Closed) then Refused(Error.Closed) else Collected(now);
      SweepSpares(entries, order, h, Latest(log), now, Held(), Spent(log));
      Sparing(e, log, before, Spent(log) + Reserves(e));
    }

    method Collect(now: int, stop: nat -> bool)
      requires Valid()
      modifies Owned()
      ensures Valid() && fresh(Owned() - old(Owned())) && Did(Op.Collect(now, stop), old(log))
    {
      hide Memory.Valid, Wrote, Over, Latest, Begun, IsClosed, Spent, Retained, HitsAreRight, Orderly, StillHeld, SlotsAre, SameEntries, Shed, Others, Minus, RowCost.Price, Answers, Session.WriterIs, Session.WriterBut, Session.BooksBut;
      var e := Sweep(now, stop);
      Remark(e);
    }

    /** The store's part of Close. */
    method Shut()
      requires Valid()
      modifies store, store.expiry
      ensures store.Valid() && BooksBut(Ended) && store.slots == old(store.slots) && store.expiry.h == []
      ensures Answers(Op.Close, log, Ended, Bounds())
    {
      hide Memory.Valid, Wrote, Over, Latest, Begun, IsClosed, Spent, Retained, HitsAreRight, Orderly, StillHeld, SlotsAre, SameEntries, Shed, Others, Minus, RowCost.Price, RowCost.ItemsPrice;
      ghost var before := store.entries.Keys;
      Views();
      store.Close();
      Sparing(Ended, log, before, Spent(log) + Reserves(Ended));
    }

    method Close()
      requires Valid()
      modifies Owned()
      ensures Valid() && fresh(Owned() - old(Owned())) && Did(Op.Close, old(log))
    {
      hide Memory.Valid, Wrote, Over, Latest, Begun, IsClosed, Spent, Retained, HitsAreRight, Orderly, StillHeld, SlotsAre, SameEntries, Shed, Others, Minus, RowCost.Price, Answers, Session.WriterIs, Session.WriterBut, Session.BooksBut;
      Shut();
      Remark(Ended);
    }

    method Step(op: Op)
      requires Valid()
      modifies Owned()
      ensures Valid() && fresh(Owned() - old(Owned())) && Did(op, old(log))
    {
      hide Valid, Answers;
      match op
      case Begin(key, cancelled) => Begin(key, cancelled);
      case Append(w, row, cancelled) => Append(w, row, cancelled);
      case Commit(w, expires, cancelled, cancelledLocked) => Commit(w, expires, cancelled, cancelledLocked);
      case Abort(w) => Abort(w);
      case Lookup(key, now, cancelled) => Lookup(key, now, cancelled);
      case Collect(now, stop) => Collect(now, stop);
      case Close => Close();
    }

    /** Any calls at all, one after another. */
    method Run(ops: seq<Op>) returns (held: seq<int>)
      requires Valid() && log == []
      modifies Owned()
      ensures Valid() && fresh(Owned() - old(Owned())) && AllAnswered(ops, log, Bounds())
      ensures |held| == |ops| && forall b | b in held :: 0 <= b <= store.maxBytes
    {
      hide Valid, Answers, AllAnswered;
      held := [];
      NoneAnswered(Bounds());
      for i := 0 to |ops|
        invariant Valid() && fresh(Owned() - old(Owned())) && AllAnswered(ops[..i], log, Bounds())
        invariant |held| == i && forall b | b in held :: 0 <= b <= store.maxBytes
      {
        ghost var before := log;
        Step(ops[i]);
        OneMoreAnswered(ops[..i], before, ops[i], log[|before|], Bounds());
        assert log == before + [log[|before|]] && ops[..i + 1] == ops[..i] + [ops[i]];
        StaysInBudget();
        held := held + [store.bytes + store.reserved];
      }
      assert ops[..|ops|] == ops;
    }

    lemma StaysInBudget()
      requires Valid()
      ensures 0 <= store.bytes + store.reserved <= store.maxBytes
    {
    }

    lemma TheLogTells()
      requires Valid()
      ensures HitsAreRight(log) && Orderly(log) && store.reserved == Holding(log, Begun(log))
    {
      hide Wrote, Over, Latest, Begun, IsClosed, Spent, Retained, HitsAreRight, Orderly, StillHeld;
      SlotsHold(store.slots, log);
    }
  }

  lemma NoneAnswered(limits: Limits)
    ensures AllAnswered([], [], limits)
  {
  }

  /** Whatever is called in whatever order on a new cache: each call comes to what the log before it says,
      only room being left open; every hit shows what the last commit of its key published, before it expires,
      and those are the rows its writer had appended; no writer is heard of after it ended; what is held never
      exceeds the budget; and what is reserved in the end is what the writers still open hold back. */
  method Drive(limits: Limits, ops: seq<Op>) returns (log: Log, held: seq<int>, reserved: int)
    ensures AllAnswered(ops, log, Effective(limits))
    ensures HitsAreRight(log) && Orderly(log)
    ensures |held| == |ops| && forall b | b in held :: 0 <= b <= Effective(limits).maxBytes
    ensures reserved == Holding(log, Begun(log))
  {
    hide Session.Valid, HitsAreRight, Orderly, AllAnswered, Holding;
    var s := new Session(limits);
    held := s.Run(ops);
    s.TheLogTells();
    return s.log, held, s.store.reserved;
  }
}
