/** The in-memory ledger of internal/ledger/memory.go, which keeps one slot a key
    where the file ledger keeps a history, and exactly when the two answer alike. */
module MemoryLedger {
  import opened Ledger
  import opened Wrappers

  type Key = string

  /** An entry as callers see it. */
  datatype Entry = Entry(phase: Phase, plan: Bytes, proposed: Bytes, identity: Bytes, about: Bytes, ver: nat)

  /** A call on an entry that is there or not: the entry after it, and the error if any. */
  function MemoryRun(e: Option<Entry>, c: Call): (Option<Entry>, Option<LedgerError>) {
    if c.Begin? && e.Some? && e.value.phase == Pending && e.value.proposed == c.proposed then (e, None)
    else
      var error := match c.v
        case NoVersion => if e.Some? then Some(Conflict) else None
        case At(n) => if e.None? then Some(NotFound) else if e.value.ver != n then Some(Conflict) else None;
      if error.Some? then (e, error)
      else match c
        case Begin(p, _) =>
          if e.None? then (Some(Entry(Pending, [], p, [], [], 1)), None)
          else (Some(e.value.(phase := Pending, proposed := p, ver := e.value.ver + 1)), None)
        case Resolve(id, about, _) =>
          if e.None? then (e, Some(NotFound))
          else if e.value.phase != Pending then (e, Some(WrongPhase))
          else (Some(Entry(Live, e.value.proposed, [], id, if about.Some? then about.value else e.value.about, e.value.ver + 1)), None)
        case Forget(_) =>
          if e.None? then (e, Some(NotFound)) else (None, None)
  }

  class Slot {
    var phase: Phase
    var plan: Bytes
    var proposed: Bytes
    var identity: Bytes
    var about: Bytes
    var ver: nat

    constructor (proposed: Bytes)
      ensures Value() == Entry(Pending, [], proposed, [], [], 1)
    {
      phase, plan, this.proposed, identity, about, ver := Pending, [], proposed, [], [], 1;
    }

    function Value(): Entry
      reads this
    {
      Entry(phase, plan, proposed, identity, about, ver)
    }
  }

  class MemoryLedger {
    var rows: map<Key, Slot>

    ghost predicate Valid()
      reads this
    {
      forall j, k | j in rows && k in rows && j != k :: rows[j] != rows[k]
    }

    function Find(k: Key): Option<Entry>
      reads this, if k in rows then {rows[k]} else {}
    {
      if k in rows then Some(rows[k].Value()) else None
    }

    constructor ()
      ensures Valid() && forall k :: Find(k) == None
    {
      rows := map[];
    }

    /** Validates the presented version; no slot and no error means the caller may create. */
    method Check(k: Key, v: Version) returns (s: Option<Slot>, error: Option<LedgerError>)
      ensures error == match v
        case NoVersion => if k in rows then Some(Conflict) else None
        case At(n) => if k !in rows then Some(NotFound) else if rows[k].ver != n then Some(Conflict) else None
      ensures error.None? ==> (s.Some? <==> k in rows) && (s.Some? ==> s.value == rows[k])
    {
      if v == NoVersion && k in rows {
        return None, Some(Conflict);
      } else if v == NoVersion {
        return None, None;
      } else if k !in rows {
        return None, Some(NotFound);
      } else if rows[k].ver != v.n {
        return None, Some(Conflict);
      }
      return Some(rows[k]), None;
    }

    method Begin(k: Key, proposed: Bytes, v: Version) returns (error: Option<LedgerError>)
      requires Valid()
      modifies this, rows.Values
      ensures Valid() && fresh(rows.Values - old(rows.Values))
      ensures (Find(k), error) == MemoryRun(old(Find(k)), Call.Begin(proposed, v))
      ensures forall j | j != k :: Find(j) == old(Find(j))
    {
      if k in rows && rows[k].phase == Pending && rows[k].proposed == proposed {
        return None;
      }
      var s;
      s, error := Check(k, v);
      if error.Some? {
        return;
      }
      if s.None? {
        var slot := new Slot(proposed);
        rows := rows[k := slot];
        return None;
      }
      var slot := s.value;
      slot.phase := Pending;
      slot.proposed := proposed;
      slot.ver := slot.ver + 1;
    }

    method Resolve(k: Key, identity: Bytes, about: Option<Bytes>, v: Version) returns (error: Option<LedgerError>)
      requires Valid()
      modifies rows.Values
      ensures Valid()
      ensures (Find(k), error) == MemoryRun(old(Find(k)), Call.Resolve(identity, about, v))
      ensures forall j | j != k :: Find(j) == old(Find(j))
    {
      var s;
      s, error := Check(k, v);
      if error.Some? {
        return;
      }
      if s.None? {
        return Some(NotFound);
      }
      var slot := s.value;
      if slot.phase != Pending {
        return Some(WrongPhase);
      }
      slot.plan := slot.proposed;
      slot.proposed := [];
      slot.identity := identity;
      if about.Some? {
        slot.about := about.value;
      }
      slot.phase := Live;
      slot.ver := slot.ver + 1;
    }

    method Forget(k: Key, v: Version) returns (error: Option<LedgerError>)
      requires Valid()
      modifies this
      ensures Valid() && rows.Values <= old(rows.Values)
      ensures (Find(k), error) == MemoryRun(old(Find(k)), Call.Forget(v))
      ensures forall j | j != k :: Find(j) == old(Find(j))
    {
      var s;
      s, error := Check(k, v);
      if error.Some? {
        return;
      }
      if s.None? {
        return Some(NotFound);
      }
      rows := rows - {k};
    }
  }

  // The file ledger against the reference.

  /** How many versions a history had when its entry was last forgotten. */
  function Base(h: seq<State>): nat
    ensures Base(h) <= |h|
  {
    if h == [] then 0 else if h[|h| - 1].tombstone then |h| else Base(h[..|h| - 1])
  }

  /** The file form says what the reference says, but for the identity, which it does not carry through
      a pending update, and the version, which it never starts again. */
  ghost predicate Agrees(h: seq<State>, e: Option<Entry>) {
    && (Found(h) <==> e.Some?)
    && (!Found(h) ==> HeadOf(h) == ABSENT || HeadOf(h) == TOMBSTONE)
    && (e.Some? ==>
          var s := HeadOf(h); var m := e.value;
          && s.phase == m.phase && s.plan == m.plan && s.proposed == m.proposed && s.about == m.about
          && (m.phase == Live ==> s.identity == m.identity)
          && m.ver == |h| - Base(h))
  }

  /** The same call presenting another version. */
  function Presenting(c: Call, v: Version): Call {
    match c
    case Begin(p, _) => Begin(p, v)
    case Resolve(id, about, _) => Resolve(id, about, v)
    case Forget(_) => Forget(v)
  }

  /** The versions one handle presents to the files and to the reference. A fresh one, read since the last
      Forget, counts from that Forget; a stale one counts from some earlier Forget. */
  predicate SameHandle(h: seq<State>, v: Version, w: Version) {
    match v
    case NoVersion => w == NoVersion
    case At(n) => w.At? && if n > Base(h) then w.n == n - Base(h) else 0 < w.n <= n
  }

  predicate Stale(h: seq<State>, v: Version) {
    v.At? && v.n <= Base(h)
  }

  function ErrorOf(o: Outcome): Option<LedgerError> {
    if o.Failed? then Some(o.error) else None
  }

  lemma BaseAfter(h: seq<State>, s: State)
    ensures Base(h + [s]) == (if s.tombstone then |h| + 1 else Base(h)) && HeadOf(h + [s]) == s && h + [s] != []
    ensures h != [] && !Found(h) ==> Base(h) == |h|
  {
    assert (h + [s])[..|h|] == h;
  }

  /** What a version is known by on each side when it is read is one handle ever after. */
  lemma {:induction false} ReadsAreHandles(h: seq<State>, n: nat)
    requires 0 < n <= |h| && Found(h[..n])
    ensures SameHandle(h, At(n), At(n - Base(h[..n])))
    decreases |h|
  {
    if n < |h| {
      var older := h[..|h| - 1];
      assert older[..n] == h[..n] && h == older + [h[|h| - 1]];
      ReadsAreHandles(older, n);
      BaseAfter(older, h[|h| - 1]);
    } else {
      assert h[..n] == h;
    }
  }

  /** Both compare a handle with the same outcome, unless it is stale and the reference has come round to
      its number again. */
  lemma GuardsAgreeIff(h: seq<State>, e: Option<Entry>, v: Version, w: Version)
    requires Agrees(h, e) && SameHandle(h, v, w)
    ensures GuardError(|h|, Found(h), v) == GuardError(if e.Some? then e.value.ver else 0, e.Some?, w)
        <==> !(Stale(h, v) && e.Some? && w.n == e.value.ver)
  {
  }

  /** One call through one handle, fresh or stale, meets the same error or none in both forms exactly when
      the handle is not a stale one whose number the reference has reused, or the call repeats a pending
      proposal; and then the entries agree after it. */
  lemma FilesRefineMemoryIff(h: seq<State>, e: Option<Entry>, c: Call, w: Version)
    requires Agrees(h, e) && SameHandle(h, c.v, w)
    ensures var f := Run(h, c); var m := MemoryRun(e, Presenting(c, w));
      && (ErrorOf(f.1) == m.1
          <==> !(Stale(h, c.v) && e.Some? && w.n == e.value.ver) || (c.Begin? && Repeats(HeadOf(h), Found(h), c.proposed)))
      && (ErrorOf(f.1) == m.1 ==> Agrees(f.0, m.0))
  {
    hide Base;
    GuardsAgreeIff(h, e, c.v, w);
    BaseAfter(h, NextState(c, HeadOf(h)));
  }

  /** So a handle read since the last Forget, or none, is always answered alike. */
  lemma FilesRefineMemory(h: seq<State>, e: Option<Entry>, c: Call, w: Version)
    requires Agrees(h, e) && SameHandle(h, c.v, w) && !Stale(h, c.v)
    ensures var f := Run(h, c); var m := MemoryRun(e, Presenting(c, w));
      ErrorOf(f.1) == m.1 && Agrees(f.0, m.0)
  {
    FilesRefineMemoryIff(h, e, c, w);
  }

  /** Across a Forget the two part: the reference starts its versions again, so a version read before
      the entry was forgotten and made anew can match there, and never matches in the files. */
  lemma ReferenceReusesVersions(p: Bytes, q: Bytes)
    ensures var f := Run(Run(Run([], Begin(p, NoVersion)).0, Forget(At(1))).0, Begin(q, NoVersion)).0;
      var m := MemoryRun(MemoryRun(MemoryRun(None, Begin(p, NoVersion)).0, Forget(At(1))).0, Begin(q, NoVersion)).0;
      && Agrees(f, m)
      && Run(f, Forget(At(1))) == (f, Failed(Conflict))
      && MemoryRun(m, Forget(At(1))) == (None, None)
  {
    var f1 := Run([], Begin(p, NoVersion)).0;
    var f2 := Run(f1, Forget(At(1))).0;
    var f3 := Run(f2, Begin(q, NoVersion)).0;
    assert f3[..2] == f2;
  }
}
