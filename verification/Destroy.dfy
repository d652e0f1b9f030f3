/** Destroying a collection, pkg/omnisdk/destroy.go: dependents first, retrying what the provider
    refuses while a pass still deletes something. */
module Destroy {
  import opened Ledger
  import opened Graph
  import F = FileLedger
  import opened Wrappers

  type Key = F.Key

  /** What a resource's record says it reads from; Unreadable when the ledger does not say what it is. */
  datatype About = About(dependsOn: set<Key>) | Unreadable

  /** A listed entry; bookkeeping is the collection's own, such as its lease. */
  datatype Entry = Entry(key: Key, bookkeeping: bool, about: About, phase: Phase, identity: Bytes)

  datatype Target = Target(identity: Bytes, dependsOn: set<Key>)

  datatype Selection = Targets(targets: map<Key, Target>, unconfirmed: seq<Key>) | Refused(key: Key)

  datatype Answer = Deleted | Declined(why: string)

  datatype Request = Request(key: Key, identity: Bytes)

  /** Whether o reads from another key k. */
  predicate Depends(targets: map<Key, Target>, o: Key, k: Key) {
    o in targets && o != k && k in targets[o].dependsOn
  }

  ghost function Dependencies(targets: map<Key, Target>): set<(Key, Key)> {
    set o, k | o in targets && k in targets[o].dependsOn && o != k :: (o, k)
  }

  /** A resource a destroy may delete: readable, confirmed made, and picked. */
  predicate Deletable(e: Entry, selected: set<Key>) {
    !e.bookkeeping && (selected == {} || e.key in selected) && e.about.About? && e.phase == Live && e.identity != []
  }

  /** Refuses a selection something retained depends on, or that is not there. */
  method CheckSelection(entries: seq<Entry>, selected: set<Key>) returns (refused: Option<Key>)
    ensures refused.Some? <==> !Selectable(entries, selected)
  {
    var found: set<Key> := {};
    for i := 0 to |entries|
      invariant forall j | 0 <= j < i :: Retainable(entries[j], selected)
      invariant forall k :: k in found <==> exists j | 0 <= j < i :: entries[j].key == k && !entries[j].bookkeeping
    {
      var e := entries[i];
      assert e in entries;
      if !e.bookkeeping {
        found := found + {e.key};
        if e.about.Unreadable? {
          return Some(e.key);
        }
        if e.key !in selected && exists d | d in e.about.dependsOn :: d in selected {
          assert !Retainable(e, selected);
          return Some(e.key);
        }
      }
    }
    if exists k | k in selected :: k !in found {
      var k :| k in selected && k !in found;
      assert forall e | e in entries && !e.bookkeeping :: e.key != k;
      return Some(k);
    }
    return None;
  }

  /** Reads the ledger's entries, refusing a selection something retained depends on before anything is
      sent. Listed keys are distinct. */
  method Select(entries: seq<Entry>, selected: set<Key>) returns (s: Selection)
    requires forall i, j | 0 <= i < j < |entries| :: entries[i].key != entries[j].key
    ensures s.Refused? <==> selected != {} && !Selectable(entries, selected)
    ensures s.Targets? ==> forall k :: k in s.targets <==> exists e | e in entries :: e.key == k && Deletable(e, selected)
    ensures s.Targets? ==> forall e | e in entries && Deletable(e, selected) :: s.targets[e.key] == Target(e.identity, e.about.dependsOn)
    ensures s.Targets? ==> forall k :: k in s.unconfirmed <==> exists e | e in entries :: e.key == k && Unconfirmed(e, selected)
    ensures s.Targets? ==> forall k | k in s.targets ::
              && s.targets[k].identity != [] && (selected != {} ==> k in selected)
              && exists e | e in entries :: e.key == k && !e.bookkeeping && e.phase == Live && e.about == About(s.targets[k].dependsOn)
    ensures s.Targets? && selected != {} ==>
              && (forall e | e in entries && !e.bookkeeping && e.key !in selected :: e.about.About? && e.about.dependsOn !! selected)
              && (forall k | k in selected :: k in s.targets || k in s.unconfirmed)
  {
    if selected != {} {
      var refused := CheckSelection(entries, selected);
      if refused.Some? {
        return Refused(refused.value);
      }
    }
    hide Selectable;
    var targets, unconfirmed := Gather(entries, selected);
    return Targets(targets, unconfirmed);
  }

  /** Sorts the picked entries into what can be deleted and what was never confirmed made. */
  method Gather(entries: seq<Entry>, selected: set<Key>) returns (targets: map<Key, Target>, unconfirmed: seq<Key>)
    requires forall i, j | 0 <= i < j < |entries| :: entries[i].key != entries[j].key
    ensures forall k :: k in targets <==> exists e | e in entries :: e.key == k && Deletable(e, selected)
    ensures forall e | e in entries && Deletable(e, selected) :: targets[e.key] == Target(e.identity, e.about.dependsOn)
    ensures forall k :: k in unconfirmed <==> exists e | e in entries :: e.key == k && Unconfirmed(e, selected)
  {
    targets, unconfirmed := map[], [];
    for i := 0 to |entries|
      invariant forall k :: k in targets <==> exists j | 0 <= j < i :: entries[j].key == k && Deletable(entries[j], selected)
      invariant forall j | 0 <= j < i && Deletable(entries[j], selected) ::
                  entries[j].key in targets && targets[entries[j].key] == Target(entries[j].identity, entries[j].about.dependsOn)
      invariant forall k :: k in unconfirmed <==> exists j | 0 <= j < i :: entries[j].key == k && Unconfirmed(entries[j], selected)
    {
      var e := entries[i];
      if !e.bookkeeping && (selected == {} || e.key in selected) {
        if e.about.Unreadable? || e.phase != Live || e.identity == [] {
          unconfirmed := unconfirmed + [e.key];
        } else {
          targets := targets[e.key := Target(e.identity, e.about.dependsOn)];
        }
      }
    }
  }

  predicate Unconfirmed(e: Entry, selected: set<Key>) {
    !e.bookkeeping && (selected == {} || e.key in selected) && !Deletable(e, selected)
  }

  /** An entry that does not stand in the way of deleting the selected keys. */
  predicate Retainable(e: Entry, selected: set<Key>) {
    e.bookkeeping || (e.about.About? && (e.key in selected || e.about.dependsOn !! selected))
  }

  /** Every selected key is listed, and every entry says what it reads from: nothing selected, if kept. */
  ghost predicate Selectable(entries: seq<Entry>, selected: set<Key>) {
    && (forall e | e in entries :: Retainable(e, selected))
    && (forall k | k in selected :: exists e | e in entries :: e.key == k && !e.bookkeeping)
  }

  /** W is everything the provider remembers; storage says how each ledger and journal operation goes. */
  class Destroyer<W(!new)> {
    const log: F.FileLedger
    const effect: (W, Request) -> (W, Answer)
    const storage: nat -> Storage
    const targets: map<Key, Target>
    var world: W
    var calls: nat
    /** The run's journal, as the keys whose deletes it records. */
    var journal: seq<Key>
    /** The delete requests sent, and how long the journal was when each was. */
    ghost var sent: seq<(Request, nat)>

    constructor (log: F.FileLedger, effect: (W, Request) -> (W, Answer), storage: nat -> Storage, targets: map<Key, Target>, world: W)
      ensures this.log == log && this.effect == effect && this.storage == storage && this.targets == targets
      ensures this.world == world && journal == [] && sent == [] && calls == 0
    {
      this.log, this.effect, this.storage, this.targets, this.world := log, effect, storage, targets, world;
      calls, journal, sent := 0, [], [];
    }

    /** Every request sent was in the journal first, and names the target's recorded identity. */
    ghost predicate Recorded()
      reads this`journal, this`sent
    {
      forall i | 0 <= i < |sent| ::
        && 0 < sent[i].1 <= |journal| && journal[sent[i].1 - 1] == sent[i].0.key
        && sent[i].0.key in targets && sent[i].0.identity == targets[sent[i].0.key].identity
    }

    /** Storage fails nothing. */
    ghost predicate Sturdy() {
      forall n :: storage(n).Works?
    }

    /** A provider and storage that refuse nothing. */
    ghost predicate Willing() {
      Sturdy() && forall w, q :: effect(w, q).1 == Deleted
    }

    /** The provider was asked once, and what it answered is the error there is or is not. */
    ghost predicate Sends(q: Request, w: W, w': W, was: seq<(Request, nat)>, now: seq<(Request, nat)>, error: Option<string>) {
      && (exists n :: now == was + [(q, n)]) && w' == effect(w, q).0
      && error == match effect(w, q).1 case Deleted => None case Declined(why) => Some(why)
    }

    /** Each reason is what the provider said of its key, where storage works. */
    ghost predicate Grounded(reasons: map<Key, string>) {
      Sturdy() ==> forall k | k in reasons :: k in targets && Says(k, reasons[k])
    }

    ghost predicate Says(k: Key, why: string)
      requires k in targets
    {
      exists w :: effect(w, Request(k, targets[k].identity)).1 == Declined(why)
    }

    lemma GroundedOn(reasons: map<Key, string>, k: Key, w: W, w': W, was: seq<(Request, nat)>, now: seq<(Request, nat)>, why: string)
      requires Grounded(reasons) && k in targets && (Sturdy() ==> Sends(Request(k, targets[k].identity), w, w', was, now, Some(why)))
      ensures Grounded(reasons[k := why])
    {
    }

    method Meet() returns (st: Storage)
      modifies this`calls
      ensures !st.Works? ==> !Sturdy()
    {
      st := storage(calls);
      calls := calls + 1;
    }

    /** Sends one delete, its intent in the journal first; a failed append means it is not sent. */
    method Send(k: Key) returns (error: Option<string>)
      requires k in targets && Recorded()
      modifies this`world, this`calls, this`journal, this`sent
      ensures Recorded()
      ensures sent == old(sent) || (exists n :: sent == old(sent) + [(Request(k, targets[k].identity), n)])
      ensures error.None? ==> sent != old(sent)
      ensures Sturdy() ==> Sends(Request(k, targets[k].identity), old(world), world, old(sent), sent, error)
      ensures Willing() ==> error.None?
    {
      var st := Meet();
      if st.Fails? { return Some("recording the delete failed, so it was not sent"); }
      journal := journal + [k];
      if st.Unsynced? { return Some("recording the delete failed, so it was not sent"); }
      var q := Request(k, targets[k].identity);
      var r := effect(world, q);
      world, sent := r.0, sent + [(q, |journal|)];
      return if r.1.Declined? then Some(r.1.why) else None;
    }

    /** At most one request, naming the recorded identity; without error the key has no live entry, and
        with one it is as it was or, where only syncing failed, already a tombstone. */
    method Delete(k: Key) returns (error: Option<string>)
      requires log.Valid() && k in targets && Recorded()
      modifies this`world, this`calls, this`journal, this`sent, log
      ensures log.Valid() && Recorded()
      ensures sent == old(sent) || exists n :: sent == old(sent) + [(Request(k, targets[k].identity), n)]
      ensures error.None? ==> sent != old(sent) && !Found(log.Versions(k))
      ensures forall j | j != k :: log.Versions(j) == old(log.Versions(j))
      ensures log.Versions(k) == old(log.Versions(k)) || (sent != old(sent) && log.Versions(k) == old(log.Versions(k)) + [TOMBSTONE])
      ensures Sturdy() ==> Sends(Request(k, targets[k].identity), old(world), world, old(sent), sent, error)
      ensures Willing() ==> error.None?
    {
      hide Run, Recorded;
      error := Send(k);
      if error.Some? { return; }
      var st := Meet();
      if !st.Works? { return Some("ledger"); }
      var _, at, found := log.Get(k);
      if !found { return None; }
      st := Meet();
      if st.Fails? { return Some("ledger"); }
      ForgetAtHead(log.Versions(k));
      var o := log.Forget(k, at);
      return if st.Unsynced? then Some("ledger") else None;
    }

    /** Deleting k leaves it, and whatever was gone before it, gone. */
    method DeleteAfter(k: Key, ghost gone: seq<Key>) returns (error: Option<string>)
      requires log.Valid() && k in targets && Recorded() && AllGone(gone)
      modifies this`world, this`calls, this`journal, this`sent, log
      ensures log.Valid() && Recorded() && AllGone(if error.None? then gone + [k] else gone)
      ensures Sturdy() ==> Sends(Request(k, targets[k].identity), old(world), world, old(sent), sent, error)
      ensures Willing() ==> error.None?
    {
      hide Recorded, Found;
      error := Delete(k);
      ForgottenIsGone(old(log.Versions(k)));
      forall j | j in gone ensures !Found(log.Versions(j)) {
        assert old(!Found(log.Versions(j)));
      }
    }

    ghost predicate AllGone(ks: seq<Key>)
      requires log.Valid()
      reads log
    {
      forall k | k in ks :: !Found(log.Versions(k))
    }

    /** Whether another pending target reads from a key. */
    method Waits(k: Key, pending: seq<Key>) returns (waits: bool)
      requires forall o | o in pending :: o in targets
      ensures waits <==> !Clear(targets, k, pending)
    {
      IsClear(targets, k, pending);
      waits := exists o | o in pending :: o != k && k in targets[o].dependsOn;
    }

    /** Takes one pending key: kept if something pending reads from it or its delete fails. */
    method Visit(k: Key, pending: seq<Key>, ghost was: seq<Key>, ghost next: seq<Key>, ghost destroyed: seq<Key>, reasons0: map<Key, string>)
      returns (taken: bool, reasons: map<Key, string>)
      requires log.Valid() && Recorded() && AllGone(destroyed) && k in pending && forall o | o in pending :: o in targets
      requires TakenClear(targets, was, destroyed, pending) && Explained(targets, next, destroyed, reasons0, pending)
      requires Grounded(reasons0)
      modifies this`world, this`calls, this`journal, this`sent, log
      ensures log.Valid() && Recorded() && AllGone(if taken then destroyed + [k] else destroyed)
      ensures TakenClear(targets, was, if taken then destroyed + [k] else destroyed, pending)
      ensures Explained(targets, if taken then next else next + [k], if taken then destroyed + [k] else destroyed, reasons, pending)
      ensures Grounded(reasons)
      ensures Willing() && Clear(targets, k, pending) ==> taken
    {
      hide TakenClear, AllGone, Explained, Recorded, Clear, Willing, Sends, Says, F.FileLedger.Valid;
      reasons := reasons0;
      ExplainedOn(targets, next, destroyed, reasons, pending, k);
      var waits := Waits(k, pending);
      if waits {
        return false, reasons;
      }
      var error := DeleteAfter(k, destroyed);
      if error.Some? {
        GroundedOn(reasons, k, old(world), world, old(sent), sent, error.value);
        ExplainedBy(targets, next, destroyed, reasons, pending, k, error.value);
        return false, reasons[k := error.value];
      }
      TakenOne(targets, was, destroyed, pending, k);
      return true, reasons - {k};
    }

    /** Nothing a pass destroys has a dependent among what the pass began with, and no pass over acyclic
        targets is idle unless something is refused. */
    method Pass(pending: seq<Key>, was: seq<Key>, reasons0: map<Key, string>)
      returns (next: seq<Key>, progress: bool, destroyed: seq<Key>, reasons: map<Key, string>)
      requires log.Valid() && Recorded() && AllGone(was) && Grounded(reasons0) && forall k | k in pending :: k in targets
      modifies this`world, this`calls, this`journal, this`sent, log
      ensures log.Valid() && Recorded() && AllGone(destroyed)
      ensures Tally(destroyed, next) == Tally(was, pending)
      ensures TakenClear(targets, was, destroyed, pending)
      ensures |next| + (if progress then 1 else 0) <= |pending|
      ensures forall k | k in next :: k in pending
      ensures Acyclic(Dependencies(targets)) && Willing() && pending != [] ==> progress
      ensures !progress ==> next == pending
      ensures Explained(targets, next, destroyed, reasons, pending) && Grounded(reasons)
    {
      hide *;
      next, progress, destroyed, reasons := [], false, was, reasons0;
      AtTheEnds(next, pending);
      NothingTaken(targets, was, reasons0, pending);
      for i := 0 to |pending|
        invariant log.Valid() && Recorded() && AllGone(destroyed)
        invariant Tally(destroyed, next + pending[i..]) == Tally(was, pending)
        invariant TakenClear(targets, was, destroyed, pending)
        invariant |next| + (if progress then 1 else 0) <= i
        invariant forall k | k in next :: k in pending
        invariant !progress ==> next == pending[..i]
        invariant Explained(targets, next, destroyed, reasons, pending) && Grounded(reasons)
        invariant Willing() && !progress ==> forall j | 0 <= j < i :: !Clear(targets, pending[j], pending)
      {
        var k := pending[i];
        TallyTakes(destroyed, next, pending, i);
        var taken;
        taken, reasons := Visit(k, pending, was, next, destroyed, reasons);
        if taken {
          destroyed, progress := destroyed + [k], true;
        } else {
          next := next + [k];
        }
      }
      AtTheEnds(next, pending);
      if Acyclic(Dependencies(targets)) && pending != [] {
        SomethingIsClear(targets, pending);
      }
    }

    /** The dependents-first loop. It ends whatever the provider does; a destroyed target's remaining
        dependents are none, and its dependents went strictly before it; what is left has the provider's
        reason or something left that reads from it. With acyclic dependencies and nothing refused,
        everything is destroyed. */
    method Destroy(order: seq<Key>) returns (destroyed: seq<Key>, outstanding: seq<Key>, reasons: map<Key, string>)
      requires log.Valid() && Recorded() && forall k | k in order :: k in targets
      requires forall i, j | 0 <= i < j < |order| :: order[i] != order[j]
      modifies this`world, this`calls, this`journal, this`sent, log
      ensures log.Valid() && Recorded()
      ensures multiset(destroyed) + multiset(outstanding) == multiset(order)
      ensures forall k | k in destroyed :: !Found(log.Versions(k)) && Clear(targets, k, outstanding)
      ensures forall i, j | 0 <= i < j < |destroyed| :: !Depends(targets, destroyed[j], destroyed[i])
      ensures Grounded(reasons)
      ensures forall k | k in outstanding :: k !in destroyed && (k in reasons || !Clear(targets, k, outstanding))
      ensures Acyclic(Dependencies(targets)) && Willing() ==> outstanding == []
    {
      hide Recorded, Willing, Acyclic, Dependencies, Found;
      var pending, progress := order, true;
      destroyed, reasons := [], map[];
      while progress && pending != []
        invariant log.Valid() && Recorded() && AllGone(destroyed) && Grounded(reasons)
        invariant multiset(destroyed) + multiset(pending) == multiset(order)
        invariant forall k | k in pending :: k in targets
        invariant forall k | k in destroyed :: Clear(targets, k, pending)
        invariant forall i, j | 0 <= i < j < |destroyed| :: !Depends(targets, destroyed[j], destroyed[i])
        invariant Acyclic(Dependencies(targets)) && Willing() && !progress ==> pending == []
        invariant !progress ==> Explained(targets, pending, destroyed, reasons, pending)
        decreases |pending|, progress
      {
        ghost var before, was := pending, destroyed;
        pending, progress, destroyed, reasons := Pass(pending, destroyed, reasons);
        OrderExtends(targets, was, destroyed, before, pending);
      }
      outstanding := pending;
      OneOrTheOther(order, destroyed, outstanding);
    }
  }

  /** Nothing else among some keys reads from k. */
  ghost predicate Clear(targets: map<Key, Target>, k: Key, among: seq<Key>) {
    forall o | o in among :: !Depends(targets, o, k)
  }

  /** Whatever is kept, and not destroyed, has the provider's reason or something that reads from it. */
  ghost predicate Explained(targets: map<Key, Target>, next: seq<Key>, destroyed: seq<Key>, reasons: map<Key, string>, pending: seq<Key>) {
    forall k | k in next && k !in destroyed :: k in reasons || !Clear(targets, k, pending)
  }

  /** What a pass has destroyed since it started: pending keys nothing it started with reads from. */
  ghost predicate TakenClear(targets: map<Key, Target>, was: seq<Key>, destroyed: seq<Key>, pending: seq<Key>) {
    was <= destroyed && forall i | |was| <= i < |destroyed| :: destroyed[i] in pending && Clear(targets, destroyed[i], pending)
  }

  lemma NothingTaken(targets: map<Key, Target>, was: seq<Key>, reasons: map<Key, string>, pending: seq<Key>)
    ensures Explained(targets, [], was, reasons, pending) && TakenClear(targets, was, was, pending)
  {
  }

  lemma TakenOne(targets: map<Key, Target>, was: seq<Key>, destroyed: seq<Key>, pending: seq<Key>, k: Key)
    requires TakenClear(targets, was, destroyed, pending) && k in pending && Clear(targets, k, pending)
    ensures TakenClear(targets, was, destroyed + [k], pending)
  {
    hide Clear;
  }

  lemma ExplainedOn(targets: map<Key, Target>, next: seq<Key>, destroyed: seq<Key>, reasons: map<Key, string>, pending: seq<Key>, k: Key)
    requires Explained(targets, next, destroyed, reasons, pending)
    ensures !Clear(targets, k, pending) ==> Explained(targets, next + [k], destroyed, reasons, pending)
    ensures Explained(targets, next, destroyed + [k], reasons - {k}, pending)
  {
    hide Clear;
  }

  lemma ExplainedBy(targets: map<Key, Target>, next: seq<Key>, destroyed: seq<Key>, reasons: map<Key, string>, pending: seq<Key>, k: Key, why: string)
    requires Explained(targets, next, destroyed, reasons, pending)
    ensures Explained(targets, next + [k], destroyed, reasons[k := why], pending)
  {
    hide Clear;
  }

  lemma IsClear(targets: map<Key, Target>, k: Key, among: seq<Key>)
    requires forall o | o in among :: o in targets
    ensures Clear(targets, k, among) <==> !exists o | o in among :: o != k && k in targets[o].dependsOn
  {
    if o :| o in among && o != k && k in targets[o].dependsOn {
      assert Depends(targets, o, k);
    }
  }

  lemma ClearOfFewer(targets: map<Key, Target>, k: Key, among: seq<Key>, fewer: seq<Key>)
    requires Clear(targets, k, among) && forall o | o in fewer :: o in among
    ensures Clear(targets, k, fewer)
  {
  }

  /** A pass destroys only what nothing it started with reads from, so the whole order stays dependents first. */
  lemma OrderExtends(targets: map<Key, Target>, was: seq<Key>, destroyed: seq<Key>, pending: seq<Key>, next: seq<Key>)
    requires TakenClear(targets, was, destroyed, pending) && forall k | k in next :: k in pending
    requires forall k | k in was :: Clear(targets, k, pending)
    requires forall i, j | 0 <= i < j < |was| :: !Depends(targets, was[j], was[i])
    ensures forall i, j | 0 <= i < j < |destroyed| :: !Depends(targets, destroyed[j], destroyed[i])
    ensures forall k | k in destroyed :: Clear(targets, k, next)
  {
    forall k | k in destroyed ensures Clear(targets, k, next) {
      var i :| 0 <= i < |destroyed| && destroyed[i] == k;
      assert i < |was| ==> was[i] == k && k in was;
      ClearOfFewer(targets, k, pending, next);
    }
    forall i, j | 0 <= i < j < |destroyed| ensures !Depends(targets, destroyed[j], destroyed[i]) {
      if j < |was| {
        assert destroyed[i] == was[i] && destroyed[j] == was[j];
      } else {
        assert i < |was| ==> destroyed[i] == was[i];
        assert Clear(targets, destroyed[i], pending);
      }
    }
  }

  lemma OneOrTheOther(order: seq<Key>, a: seq<Key>, b: seq<Key>)
    requires multiset(a) + multiset(b) == multiset(order) && forall i, j | 0 <= i < j < |order| :: order[i] != order[j]
    ensures forall k | k in b :: k !in a
  {
    OnceEach(order);
    forall k | k in b ensures k !in a {
      assert multiset(order)[k] == multiset(a)[k] + multiset(b)[k];
      assert k in multiset(b);
      assert k in a <==> k in multiset(a);
    }
  }

  lemma {:induction false} OnceEach(s: seq<Key>)
    requires forall i, j | 0 <= i < j < |s| :: s[i] != s[j]
    ensures forall k :: multiset(s)[k] <= 1
    decreases |s|
  {
    if s != [] {
      var n := |s| - 1;
      OnceEach(s[..n]);
      assert s == s[..n] + [s[n]];
      assert s[n] !in s[..n];
    }
  }

  ghost function Tally(a: seq<Key>, b: seq<Key>): multiset<Key> {
    multiset(a) + multiset(b)
  }

  lemma AtTheEnds(next: seq<Key>, pending: seq<Key>)
    ensures [] + pending[0..] == pending && pending[..0] == []
    ensures next + pending[|pending|..] == next && pending[..|pending|] == pending
  {
  }

  /** The next pending key is destroyed or kept. */
  lemma TallyTakes(destroyed: seq<Key>, next: seq<Key>, pending: seq<Key>, i: nat)
    requires i < |pending|
    ensures Tally(destroyed + [pending[i]], next + pending[i + 1..]) == Tally(destroyed, next + pending[i..])
    ensures Tally(destroyed, (next + [pending[i]]) + pending[i + 1..]) == Tally(destroyed, next + pending[i..])
    ensures pending[..i + 1] == pending[..i] + [pending[i]]
  {
    assert next + pending[i..] == next + [pending[i]] + pending[i + 1..];
  }

  lemma SomethingIsClear(targets: map<Key, Target>, pending: seq<Key>)
    requires Acyclic(Dependencies(targets)) && pending != []
    ensures exists j | 0 <= j < |pending| :: Clear(targets, pending[j], pending)
  {
    var s := set k | k in pending;
    assert pending[0] in s;
    var m := HasSource(Dependencies(targets), s);
    var j :| 0 <= j < |pending| && pending[j] == m;
    forall o | o in pending ensures !Depends(targets, o, m) {
      assert o in s;
    }
    assert Clear(targets, pending[j], pending);
  }
}
