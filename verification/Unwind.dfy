/** Compensating a failed run, internal/unwind/unwind.go: retry what the provider refuses until a pass
    reverses nothing. */
module Unwind {
  import opened Ledger
  import opened Graph
  import opened Journal
  import F = FileLedger
  import opened Wrappers

  type Key = F.Key

  datatype Fidelity = Exact | Lossy | Irreversible

  datatype Inverse = Inverse(exchange: string, fidelity: Fidelity)

  datatype Input = Input(mutation: Bytes, identity: Bytes)

  /** What the provider answers a compensating call. */
  datatype Answer = Accepted | Blocked(why: string) | Failed(why: string)

  datatype Reading = Actual(body: Bytes) | Unreadable | ReadBlocked(why: string) | ReadFailed(why: string)

  /** What became of one attempt: only a blocked one is worth another pass. */
  datatype Verdict = Reversed | Retry(why: string) | Stuck(why: string)

  /** What an answer to a compensating request is worth. */
  function Worth(a: Answer): Verdict {
    match a
    case Accepted => Reversed
    case Blocked(why) => Retry(why)
    case Failed(why) => Stuck(why)
  }

  datatype Request = Request(exchange: string, key: Key, input: Input)

  datatype Outcome = Outcome(compensated: seq<Key>, outstanding: seq<Key>, reasons: map<Key, string>)

  function Keys(recs: seq<Record>): seq<Key> {
    seq(|recs|, i requires 0 <= i < |recs| => recs[i].key)
  }

  /** The keys whose creates are recorded. */
  function Made(recs: seq<Record>): set<Key> {
    set r | r in recs && r.form != FormUpdate :: r.key
  }

  function KeySet(recs: seq<Record>): set<Key> {
    set r | r in recs :: r.key
  }

  /** Every key an outcome and what is still to be tried account for, as often as it occurs. */
  ghost function Tally(out: Outcome, todo: seq<Record>): multiset<Key> {
    multiset(out.compensated) + multiset(out.outstanding) + multiset(Keys(todo))
  }

  lemma TallyTakes(out: Outcome, before: seq<Record>, p: Record, after: seq<Record>)
    ensures Tally(out.(compensated := out.compensated + [p.key]), before + after) == Tally(out, before + [p] + after)
    ensures Tally(out.(outstanding := out.outstanding + [p.key]), before + after) == Tally(out, before + [p] + after)
    ensures Made(before + [p] + after) == Made(before + after) + Made([p])
  {
    KeysApart(before, after);
    KeysApart(before, [p]);
    KeysApart(before + [p], after);
    hide Keys, Made;
    MadeApart(before, after);
    MadeApart(before, [p]);
    MadeApart(before + [p], after);
  }

  lemma KeysApart(a: seq<Record>, b: seq<Record>)
    ensures multiset(Keys(a + b)) == multiset(Keys(a)) + multiset(Keys(b))
    ensures |b| == 1 ==> multiset(Keys(b)) == multiset{b[0].key}
  {
    assert Keys(a + b) == Keys(a) + Keys(b);
    assert |b| == 1 ==> Keys(b) == [b[0].key];
  }

  lemma MadeApart(a: seq<Record>, b: seq<Record>)
    ensures Made(a + b) == Made(a) + Made(b)
  {
    forall k | k in Made(a) + Made(b) ensures k in Made(a + b) {
      var r :| (r in a || r in b) && r.form != FormUpdate && r.key == k;
      assert r in a + b;
    }
  }

  const NOTHING := Outcome([], [], map[])

  /** The records of a journal, last first. */
  method Backwards(recs: seq<Record>) returns (todo: seq<Record>)
    ensures |todo| == |recs| && forall j | 0 <= j < |todo| :: todo[j] == recs[|recs| - 1 - j]
    ensures Tally(NOTHING, todo) == multiset(Keys(recs)) && Made(todo) == Made(recs)
  {
    hide Keys, Made, Tally;
    todo := [];
    var i := |recs|;
    assert recs[i..] == [];
    while i > 0
      invariant 0 <= i <= |recs|
      invariant |todo| == |recs| - i && forall j | 0 <= j < |todo| :: todo[j] == recs[|recs| - 1 - j]
      invariant Tally(NOTHING, todo) == Tally(NOTHING, recs[i..]) && Made(todo) == Made(recs[i..])
    {
      i := i - 1;
      assert recs[i..] == [recs[i]] + recs[i + 1..];
      TallyGrows(todo, recs[i], recs[i + 1..]);
      todo := todo + [recs[i]];
    }
    assert recs[0..] == recs;
    TallyNothing(recs);
  }

  lemma TallyEmpty(out: Outcome)
    ensures Tally(out, []) == multiset(out.compensated) + multiset(out.outstanding)
  {
    assert Keys([]) == [];
  }

  lemma MadeOfOne(p: Record)
    ensures Made([p]) == if p.form == FormUpdate then {} else {p.key}
  {
  }

  lemma Shrinks(living: set<Key>, ks: set<Key>, left: set<Key>, k: Key)
    requires living * ks <= left + {k}
    ensures (living - {k}) * ks <= left
  {
    forall x | x in (living - {k}) * ks ensures x in left {
      assert x in living * ks;
    }
  }

  lemma TallyNothing(recs: seq<Record>)
    ensures Tally(NOTHING, recs) == multiset(Keys(recs))
  {
  }

  lemma TallyGrows(todo: seq<Record>, p: Record, after: seq<Record>)
    requires Tally(NOTHING, todo) == Tally(NOTHING, after) && Made(todo) == Made(after)
    ensures Tally(NOTHING, todo + [p]) == Tally(NOTHING, [p] + after) && Made(todo + [p]) == Made([p] + after)
  {
    hide Made, Keys;
    TallyTakes(NOTHING, todo, p, []);
    TallyTakes(NOTHING, [], p, after);
    var one := NOTHING.(compensated := NOTHING.compensated + [p.key]);
    assert Tally(one, todo) == multiset{p.key} + Tally(NOTHING, todo);
    assert Tally(one, after) == multiset{p.key} + Tally(NOTHING, after);
    assert todo + [p] + [] == todo + [p] && todo + [] == todo && [] + [p] + after == [p] + after && [] + after == after;
  }

  lemma KeysInOrder(recs: seq<Record>)
    ensures |Keys(recs)| == |recs| && forall j | 0 <= j < |recs| :: Keys(recs)[j] == recs[j].key
  {
  }

  lemma NoKeys(recs: seq<Record>)
    ensures recs == [] ==> Keys(recs) == [] && Made(recs) == {}
  {
  }

  /** All of some records reversed in order, and none kept back. */
  ghost predicate Straight(was: Outcome, out: Outcome, blocked: seq<Record>, done: seq<Record>) {
    blocked == [] && out.compensated == was.compensated + Keys(done)
  }

  /** Every outstanding or blocked key has a reason. */
  ghost predicate Explained(out: Outcome, blocked: seq<Record>, todo: seq<Record>) {
    && (forall k | k in out.outstanding :: k in out.reasons)
    && (forall r | r in blocked :: r in todo && r.key in out.reasons)
  }

  lemma NothingBlockedYet(out: Outcome, todo: seq<Record>)
    requires forall k | k in out.outstanding :: k in out.reasons
    ensures Explained(out, [], todo)
  {
  }

  lemma ExplainedOn(out: Outcome, blocked: seq<Record>, todo: seq<Record>, p: Record, why: string)
    requires Explained(out, blocked, todo) && p in todo
    ensures Explained(out.(compensated := out.compensated + [p.key]), blocked, todo)
    ensures Explained(out.(reasons := out.reasons[p.key := why]), blocked + [p], todo)
    ensures Explained(out.(outstanding := out.outstanding + [p.key]).(reasons := out.reasons[p.key := why]), blocked, todo)
  {
  }

  lemma StraightFrom(was: Outcome, none: seq<Record>)
    requires none == []
    ensures Straight(was, was, [], none)
  {
    assert Keys(none) == [];
  }

  lemma StraightOn(was: Outcome, out: Outcome, blocked: seq<Record>, todo: seq<Record>, i: nat)
    requires i < |todo|
    ensures Straight(was, out, blocked, todo[..i]) ==>
              Straight(was, out.(compensated := out.compensated + [todo[i].key]), blocked, todo[..i + 1])
  {
    assert Keys(todo[..i + 1]) == Keys(todo[..i]) + [todo[i].key];
  }

  /** What a verdict on a record does to the outcome. */
  function Noted(out: Outcome, p: Record, v: Verdict): Outcome {
    match v
    case Reversed => out.(compensated := out.compensated + [p.key])
    case Retry(why) => out.(reasons := out.reasons[p.key := why])
    case Stuck(why) => out.(outstanding := out.outstanding + [p.key], reasons := out.reasons[p.key := why])
  }

  /** One record of a pass taken: it is accounted for, and explained unless it was reversed. */
  lemma OneTaken(was: Outcome, out: Outcome, blocked: seq<Record>, blocked': seq<Record>, todo: seq<Record>, i: nat, v: Verdict)
    requires i < |todo| && Explained(out, blocked, todo)
    requires blocked' == if v.Retry? then blocked + [todo[i]] else blocked
    ensures var out' := Noted(out, todo[i], v);
      && Tally(out', blocked' + todo[i + 1..]) == Tally(out, blocked + todo[i..])
      && Explained(out', blocked', todo)
      && (v == Reversed && Straight(was, out, blocked, todo[..i]) ==> Straight(was, out', blocked', todo[..i + 1]))
    ensures Made(blocked + todo[i..]) == Made(blocked + todo[i + 1..]) + if todo[i].form == FormUpdate then {} else {todo[i].key}
    ensures v.Retry? ==> blocked' + todo[i + 1..] == blocked + todo[i..]
    ensures forall r | r in blocked + todo[i..] && r != todo[i] :: r in blocked' + todo[i + 1..]
    ensures v.Retry? ==> todo[i] in blocked' + todo[i + 1..]
    ensures forall k | k in out.outstanding :: k in Noted(out, todo[i], v).outstanding
    ensures v.Stuck? ==> todo[i].key in Noted(out, todo[i], v).outstanding
  {
    MadeOfOne(todo[i]);
    hide Straight, Explained, Tally, Made;
    var p, after := todo[i], todo[i + 1..];
    assert blocked + [p] + after == blocked + todo[i..];
    TallyTakes(out, blocked, p, after);
    StraightOn(was, out, blocked, todo, i);
    ExplainedOn(out, blocked, todo, p, if v == Reversed then "" else v.why);
    match v
    case Reversed =>
    case Retry(why) => RetryTally(out, blocked + todo[i..], p.key, why);
    case Stuck(why) => RetryTally(out.(outstanding := out.outstanding + [p.key]), blocked + after, p.key, why);
  }

  lemma NothingBlocks(alive: set<Key>, k: Key)
    ensures !Blocks(alive, k, {})
  {
  }

  lemma RetryTally(out: Outcome, todo: seq<Record>, k: Key, why: string)
    ensures Tally(out.(reasons := out.reasons[k := why]), todo) == Tally(out, todo)
  {
  }

  ghost predicate Blocks(alive: set<Key>, k: Key, deps: set<(Key, Key)>) {
    exists o | o in alive :: (o, k) in deps
  }

  // What is left in the ledger, told from what was there before.

  ghost predicate UpdatesOnly(recs: seq<Record>, k: Key) {
    forall r | r in recs && r.key == k :: r.form == FormUpdate
  }

  /** The entry is live with the prior of one of its key's records, its identity and rest as they were. */
  ghost predicate Walked(recs: seq<Record>, k: Key, before: seq<State>, after: seq<State>) {
    Found(after) && exists r | r in recs ::
      r.key == k && HeadOf(after) == State(Live, r.prior, [], HeadOf(before).identity, HeadOf(before).about, false)
  }

  /** What a record that is not outstanding comes to: its create is forgotten; or its key's updates are
      walked back to a prior. */
  ghost predicate Met(recs: seq<Record>, r: Record, before: seq<State>, after: seq<State>) {
    if r.form != FormUpdate then !Found(after)
    else UpdatesOnly(recs, r.key) && Found(before) ==> Walked(recs, r.key, before, after)
  }

  /** Every record is still to be tried, stuck, or met, and what only updates concern is untouched or walked back. */
  ghost predicate Settled(recs: seq<Record>, todo: seq<Record>, stuck: seq<Key>,
                          before: map<Key, seq<State>>, after: map<Key, seq<State>>) {
    && before.Keys == after.Keys == KeySet(recs)
    && (forall r | r in recs :: r in todo || r.key in stuck || Met(recs, r, before[r.key], after[r.key]))
    && (forall k | k in KeySet(recs) && UpdatesOnly(recs, k) && Found(before[k]) ::
          k in stuck || after[k] == before[k] || Walked(recs, k, before[k], after[k]))
  }

  lemma SettledFirst(recs: seq<Record>, todo: seq<Record>, now: map<Key, seq<State>>)
    requires now.Keys == KeySet(recs) && forall r | r in recs :: r in todo
    ensures Settled(recs, todo, [], now, now)
  {
  }

  /** What one attempt on a record changes in the ledger. */
  ghost predicate Tried(p: Record, v: Verdict, before: map<Key, seq<State>>, after: map<Key, seq<State>>) {
    && p.key in before && after.Keys == before.Keys && (forall k | k in before && k != p.key :: after[k] == before[k])
    && (!Found(before[p.key]) || v.Retry? ==> after[p.key] == before[p.key])
    && (v == Reversed ==> Undone(p, before[p.key], after[p.key]))
  }

  lemma SettledLast(recs: seq<Record>, stuck: seq<Key>, first: map<Key, seq<State>>, now: map<Key, seq<State>>)
    requires Settled(recs, [], stuck, first, now)
    ensures first.Keys == now.Keys == KeySet(recs)
    ensures forall r | r in recs :: r.key in stuck || Met(recs, r, first[r.key], now[r.key])
  {
  }

  /** One attempt: reversed, its record is met and drops out; retried, nothing changed; stuck, its key is
      listed. */
  lemma SettledOn(recs: seq<Record>, todo: seq<Record>, todo': seq<Record>, stuck: seq<Key>, stuck': seq<Key>, p: Record,
                  v: Verdict, first: map<Key, seq<State>>, before: map<Key, seq<State>>, after: map<Key, seq<State>>)
    requires Settled(recs, todo, stuck, first, before) && p in recs && Tried(p, v, before, after)
    requires forall r | r in todo && r != p :: r in todo'
    requires forall k | k in stuck :: k in stuck'
    requires (v.Retry? ==> p in todo') && (v.Stuck? ==> p.key in stuck')
    ensures Settled(recs, todo', stuck', first, after)
  {
    hide HeadOf;
    forall r | r in recs ensures r in todo' || r.key in stuck' || Met(recs, r, first[r.key], after[r.key]) {
    }
  }

  lemma SettledKept(recs: seq<Record>, todo: seq<Record>, j: nat, stuck: seq<Key>, first: map<Key, seq<State>>, now: map<Key, seq<State>>)
    requires j < |todo| && Settled(recs, todo[j..], stuck, first, now)
    ensures Settled(recs, todo[j + 1..], stuck + [todo[j].key], first, now)
  {
    hide Found, Met;
  }

  /** What a reversed record's entry was and now is. */
  ghost predicate Undone(p: Record, before: seq<State>, after: seq<State>) {
    if p.form == FormUpdate then
      Found(before) ==> Found(after) && HeadOf(after) == State(Live, p.prior, [], HeadOf(before).identity, HeadOf(before).about, false)
    else !Found(after)
  }

  /** Acyclic dependencies never block everything at once. */
  lemma NeverStalls(todo: seq<Record>, recs: seq<Record>, alive: set<Key>, deps: set<(Key, Key)>)
    requires Acyclic(deps) && todo != [] && forall r | r in todo :: r in recs && r.form != FormUpdate
    requires forall o, k | k in Made(recs) && o in alive && (o, k) in deps :: o in Made(recs)
    requires alive * Made(recs) <= Made(todo)
    ensures exists j | 0 <= j < |todo| :: !Blocks(alive, todo[j].key, deps)
  {
    assert todo[0] in todo && todo[0].key in Made(todo);
    var m := HasSource(deps, Made(todo));
    var r :| r in todo && r.key == m;
    assert r in recs && m in Made(recs);
    assert forall o | o in alive && (o, m) in deps :: o in Made(todo);
    var j :| 0 <= j < |todo| && todo[j] == r;
    assert !Blocks(alive, todo[j].key, deps);
  }

  /** W is everything the provider remembers; its behaviour is any two functions over it. */
  class Unwinder<W(!new)> {
    const log: F.FileLedger
    const inverse: string -> Option<Inverse>
    const effect: (W, Request) -> (W, Answer)
    const read: (W, Request) -> (W, Reading)
    /** How storage meets each ledger operation, counted from the first. */
    const storage: nat -> Storage
    var world: W
    var calls: nat
    /** The compensating requests sent. */
    ghost var sent: seq<Request>

    constructor (log: F.FileLedger, inverse: string -> Option<Inverse>, effect: (W, Request) -> (W, Answer),
                 read: (W, Request) -> (W, Reading), storage: nat -> Storage, world: W)
      ensures this.log == log && this.inverse == inverse && this.effect == effect && this.read == read
      ensures this.storage == storage && this.world == world && sent == [] && calls == 0
    {
      this.log, this.inverse, this.effect, this.read, this.storage, this.world := log, inverse, effect, read, storage, world;
      calls, sent := 0, [];
    }

    ghost function Entry(k: Key): seq<State>
      reads log
      requires log.Valid()
    {
      log.Versions(k)
    }

    method Meet() returns (st: Storage)
      modifies this`calls
      ensures !st.Works? ==> !Sturdy()
    {
      st := storage(calls);
      calls := calls + 1;
    }

    method Send(q: Request) returns (a: Answer)
      modifies this`world, this`sent
      ensures (world, a) == effect(old(world), q)
      ensures sent == old(sent) + [q]
    {
      var r := effect(world, q);
      world, sent, a := r.0, sent + [q], r.1;
    }

    /** Storage fails nothing. */
    ghost predicate Sturdy() {
      forall n :: storage(n).Works?
    }

    /** One request was sent, the provider took it, and its answer decides. */
    ghost predicate Sends(q: Request, w: W, w': W, was: seq<Request>, now: seq<Request>, v: Verdict) {
      now == was + [q] && w' == effect(w, q).0 && v == Worth(effect(w, q).1)
    }

    /** What undoing an update comes to where storage works: the recorded prior is sent under the entry's
        identity, unless there is no entry or no prior. */
    ghost predicate Restores(p: Record, h: seq<State>, w: W, w': W, was: seq<Request>, now: seq<Request>, v: Verdict) {
      if Found(h) && p.prior != [] then Sends(Request(p.exchange, p.key, Input(p.prior, HeadOf(h).identity)), w, w', was, now, v)
      else w' == w && now == was && v == if Found(h) then Stuck("no prior intent to restore") else Reversed
    }

    /** What undoing a create comes to where storage works: the inverse of a live one is sent; a pending one
        is read first, and only if it is there is its inverse sent. */
    ghost predicate Deletes(p: Record, h: seq<State>, w: W, w': W, was: seq<Request>, now: seq<Request>, v: Verdict)
      requires Invertible(p.exchange)
    {
      if !Found(h) then w' == w && now == was && v == Reversed
      else if HeadOf(h).phase == Live then Sends(Undo(p, HeadOf(h)), w, w', was, now, v)
      else
        var r := read(w, Probe(p, HeadOf(h)));
        match r.1
        case Actual(body) =>
          if body == [] then w' == r.0 && now == was && v == Reversed else Sends(Undo(p, HeadOf(h)), r.0, w', was, now, v)
        case Unreadable => w' == r.0 && now == was && v == Stuck("cannot tell whether the effect landed")
        case ReadBlocked(why) => w' == r.0 && now == was && v == Retry(why)
        case ReadFailed(why) => w' == r.0 && now == was && v == Stuck(why)
    }

    /** Sends at most the recorded prior, under the entry's identity; on success the entry is resolved to
        it, and no version is lost either way. */
    method Restore(p: Record) returns (v: Verdict)
      requires log.Valid()
      modifies this`world, this`sent, this`calls, log
      ensures log.Valid()
      ensures forall j | j != p.key :: Entry(j) == old(Entry(j))
      ensures sent == old(sent)
           || (&& old(Found(Entry(p.key))) && p.prior != []
               && sent == old(sent) + [Request(p.exchange, p.key, Input(p.prior, old(HeadOf(Entry(p.key)).identity)))])
      ensures sent == old(sent) ==> world == old(world) && Entry(p.key) == old(Entry(p.key))
      ensures v == Reversed && old(Found(Entry(p.key))) ==>
                && sent != old(sent) && Found(Entry(p.key))
                && HeadOf(Entry(p.key)) == State(Live, p.prior, [], old(HeadOf(Entry(p.key)).identity), old(HeadOf(Entry(p.key)).about), false)
      ensures v.Retry? ==> sent != old(sent) && Entry(p.key) == old(Entry(p.key))
      ensures old(Entry(p.key)) <= Entry(p.key)
      ensures Sturdy() ==> Restores(p, old(Entry(p.key)), old(world), world, old(sent), sent, v)
      ensures forall calls | Explains(calls, old(Entry(p.key))) ::
                && (sent != old(sent) ==> sent[|sent| - 1].input.identity == LastIdentity(calls))
                && (sent != old(sent) && v == Reversed ==> HeadOf(Entry(p.key)).identity == LastIdentity(calls))
    {
      hide Run, Found, HeadOf;
      forall calls | Explains(calls, Entry(p.key)) ensures HeadOf(Entry(p.key)).identity == LastIdentity(calls) {
        IdentityIsLastResolved(calls, Entry(p.key));
      }
      var st := Meet();
      if !st.Works? { return Stuck("ledger"); }
      var e, at, found := log.Get(p.key);
      if !found { return Reversed; }
      if p.prior == [] { return Stuck("no prior intent to restore"); }
      var a := Send(Request(p.exchange, p.key, Input(p.prior, e.identity)));
      if a.Blocked? { return Retry(a.why); }
      if a.Failed? { return Stuck(a.why); }
      st := Meet();
      if st.Fails? { return Stuck("ledger"); }
      BeginAtHead(Entry(p.key), p.prior);
      var begun := log.Begin(p.key, p.prior, at);
      if begun.Failed? || (begun.Committed? && st.Unsynced?) { return Stuck("ledger"); }
      st := Meet();
      if !st.Works? { return Stuck("ledger"); }
      var e', at', found' := log.Get(p.key);
      if !found' { return Reversed; }
      st := Meet();
      if st.Fails? { return Stuck("ledger"); }
      ResolveAtHead(Entry(p.key), e.identity);
      var resolved := log.Resolve(p.key, e.identity, None, at');
      if resolved.Failed? || st.Unsynced? { return Stuck("ledger"); }
      return Reversed;
    }

    /** Whether an exchange declares an inverse that reverses anything. */
    predicate Invertible(exchange: string) {
      inverse(exchange).Some? && inverse(exchange).value.fidelity != Irreversible
    }

    /** The request that undoes a create found as s. */
    function Undo(p: Record, s: State): Request
      requires Invertible(p.exchange)
    {
      Request(inverse(p.exchange).value.exchange, p.key, Input(s.plan, s.identity))
    }

    /** The reading that says whether a pending create landed. */
    function Probe(p: Record, s: State): Request {
      Request(p.exchange, p.key, Input(s.plan, s.identity))
    }

    /** What may be sent for a record whose entry is h, the provider being w: a restore of a recorded
        prior, or the inverse of an effect known to have landed. */
    ghost predicate Permitted(q: Request, p: Record, h: seq<State>, w: W) {
      && Found(h)
      && if p.form == FormUpdate then
           p.prior != [] && q == Request(p.exchange, p.key, Input(p.prior, HeadOf(h).identity))
         else
           && Invertible(p.exchange) && q == Undo(p, HeadOf(h))
           && (HeadOf(h).phase == Live
               || (read(w, Probe(p, HeadOf(h))).1.Actual? && read(w, Probe(p, HeadOf(h))).1.body != []))
    }

    /** Whatever is sent names the object exactly when the last call on the entry was a Resolve that gave
        it an identity: an entry whose last mutation was never resolved has none, and its restore or
        inverse goes out without. */
    lemma NamedIffResolved(q: Request, p: Record, h: seq<State>, w: W, calls: seq<Call>)
      requires Permitted(q, p, h, w) && Explains(calls, h)
      ensures q.input.identity == LastIdentity(calls)
      ensures HeadOf(h).phase == Pending ==> q.input.identity == []
      ensures p.form != FormUpdate ==> q.input.mutation == LastResolved(calls)
    {
      hide HeadOf;
      IdentityIsLastResolved(calls, h);
      PlanIsLastResolved(calls, h);
    }

    /** An update that died between Begin and Resolve: its object had an identity, and what restores the
        plan it replaced goes out without one. */
    lemma InterruptedUpdateIsUnnamed(plan: Bytes, next: Bytes, id: Bytes, p: Record, q: Request, w: W)
      requires id != [] && p == Record(p.key, p.exchange, FormUpdate, plan)
      ensures var live := Run(Run([], Begin(plan, NoVersion)).0, Resolve(id, None, At(1))).0;
              var h := Run(live, Begin(next, At(2))).0;
              && HeadOf(live) == State(Live, plan, [], id, [], false)
              && (Permitted(q, p, h, w) <==> plan != [] && q == Request(p.exchange, p.key, Input(plan, [])))
    {
    }

    /** Sends at most one request, and only a permitted one; a reversed record is undone in the ledger, a
        retried one untouched there, and a create's entry gains at most a tombstone. */
    method Compensate(p: Record) returns (v: Verdict)
      requires log.Valid()
      modifies this`world, this`sent, this`calls, log
      ensures log.Valid()
      ensures forall j | j != p.key :: Entry(j) == old(Entry(j))
      ensures sent == old(sent) || exists q :: sent == old(sent) + [q] && Permitted(q, p, old(Entry(p.key)), old(world))
      ensures v == Reversed ==> Undone(p, old(Entry(p.key)), Entry(p.key))
      ensures !old(Found(Entry(p.key))) ==> Entry(p.key) == old(Entry(p.key)) && sent == old(sent) && world == old(world)
      ensures v == Reversed && old(Found(Entry(p.key))) && sent == old(sent) ==>
                && p.form != FormUpdate && old(HeadOf(Entry(p.key)).phase) == Pending
                && read(old(world), Probe(p, old(HeadOf(Entry(p.key))))).1 == Actual([])
      ensures v.Retry? ==> Entry(p.key) == old(Entry(p.key))
      ensures old(Entry(p.key)) <= Entry(p.key)
      ensures p.form != FormUpdate && Entry(p.key) != old(Entry(p.key)) ==>
                && Entry(p.key) == old(Entry(p.key)) + [TOMBSTONE] && old(Found(Entry(p.key)))
                && (sent != old(sent) || read(old(world), Probe(p, old(HeadOf(Entry(p.key))))).1 == Actual([]))
      ensures Sturdy() && p.form == FormUpdate ==> Restores(p, old(Entry(p.key)), old(world), world, old(sent), sent, v)
      ensures Sturdy() && p.form != FormUpdate && inverse(p.exchange).Some? && !inverse(p.exchange).value.fidelity.Irreversible? ==>
                Deletes(p, old(Entry(p.key)), old(world), world, old(sent), sent, v)
      ensures p.form != FormUpdate && (inverse(p.exchange).None? || inverse(p.exchange).value.fidelity.Irreversible?) ==>
                v == Stuck("no inverse declared") && sent == old(sent) && world == old(world)
    {
      hide Run, Found, HeadOf, Explains, LastIdentity, F.FileLedger.Versions;
      if p.form == FormUpdate {
        v := Restore(p);
        return;
      }
      var inv := inverse(p.exchange);
      if inv.None? || inv.value.fidelity == Irreversible {
        return Stuck("no inverse declared");
      }
      var st := Meet();
      if !st.Works? { return Stuck("ledger"); }
      var e, at, found := log.Get(p.key);
      if !found { return Reversed; }
      if e.phase == Pending {
        var r := read(world, Probe(p, e));
        world := r.0;
        match r.1 {
          case ReadBlocked(why) => return Retry(why);
          case ReadFailed(why) => return Stuck(why);
          case Unreadable => return Stuck("cannot tell whether the effect landed");
          case Actual(body) =>
            if body == [] {
              v := Drop(p.key, at);
              return;
            }
        }
      }
      var a := Send(Undo(p, e));
      if a.Blocked? { return Retry(a.why); }
      if a.Failed? { return Stuck(a.why); }
      st := Meet();
      if !st.Works? { return Stuck("ledger"); }
      var _, at', found' := log.Get(p.key);
      if !found' { return Reversed; }
      v := Drop(p.key, at');
    }

    /** Forgets an entry at the version just read. A stuck one may be forgotten all the same. */
    method Drop(k: Key, at: Version) returns (v: Verdict)
      requires log.Valid() && Found(Entry(k)) && at == At(|Entry(k)|)
      modifies this`calls, log
      ensures log.Valid()
      ensures forall j | j != k :: Entry(j) == old(Entry(j))
      ensures Entry(k) == old(Entry(k)) || Entry(k) == old(Entry(k)) + [TOMBSTONE]
      ensures if v == Reversed then !Found(Entry(k)) else v.Stuck? && !Sturdy()
    {
      hide Run, HeadOf;
      var st := Meet();
      if st.Fails? { return Stuck("ledger"); }
      ForgetAtHead(Entry(k));
      var o := log.Forget(k, at);
      return if st.Unsynced? then Stuck("ledger") else Reversed;
    }

    /** A provider that deletes what it is asked to unless something live still depends on it. */
    ghost predicate Obliging(r: Record, live: W -> set<Key>, deps: set<(Key, Key)>)
      requires Invertible(r.exchange)
    {
      forall w, s :: Obliges(w, Undo(r, s), live, deps)
    }

    ghost predicate Obliges(w: W, q: Request, live: W -> set<Key>, deps: set<(Key, Key)>) {
      var r := effect(w, q);
      match r.1
      case Accepted => live(r.0) == live(w) - {q.key}
      case Blocked(_) => live(r.0) == live(w) && exists o | o in live(w) :: (o, q.key) in deps
      case Failed(_) => false
    }

    /** How compensating a record can end where storage works. */
    ghost predicate Ends(p: Record, h: seq<State>, w: W, w': W, was: seq<Request>, now: seq<Request>, v: Verdict) {
      if p.form == FormUpdate then Restores(p, h, w, w', was, now, v)
      else if Invertible(p.exchange) then Deletes(p, h, w, w', was, now, v)
      else v == Stuck("no inverse declared") && now == was && w' == w
    }

    ghost predicate CanEnd(p: Record, v: Verdict) {
      exists h, w, w', was, now :: Ends(p, h, w, w', was, now, v)
    }

    /** Each reason is what kept one of its key's records from being reversed. */
    ghost predicate Grounded(recs: seq<Record>, reasons: map<Key, string>) {
      Sturdy() ==> forall k | k in reasons :: exists p, v | p in recs && p.key == k && CanEnd(p, v) :: v != Reversed && v.why == reasons[k]
    }

    lemma GroundedOn(recs: seq<Record>, reasons: map<Key, string>, p: Record, v: Verdict)
      requires Grounded(recs, reasons) && p in recs && v != Reversed && (Sturdy() ==> CanEnd(p, v))
      ensures Grounded(recs, reasons[p.key := v.why])
    {
      hide CanEnd;
    }

    /** A provider that takes every restore of a record's prior and loses nothing by it. */
    ghost predicate Restorable(r: Record, live: W -> set<Key>) {
      r.prior != [] && forall w, id :: Takes(w, Request(r.exchange, r.key, Input(r.prior, id)), live)
    }

    ghost predicate Takes(w: W, q: Request, live: W -> set<Key>) {
      effect(w, q).1.Accepted? && live(effect(w, q).0) == live(w)
    }

    /** Readings of a created object say whether it is there, and change nothing. */
    ghost predicate Truthful(r: Record, live: W -> set<Key>) {
      forall w, s :: Tells(w, Probe(r, s), live)
    }

    ghost predicate Tells(w: W, q: Request, live: W -> set<Key>) {
      var r := read(w, q);
      r.1.Actual? && (r.1.body != [] <==> q.key in live(w)) && live(r.0) == live(w)
    }

    /** A run that can be unwound: every update has a prior the provider will take; every create is
        invertible, and the provider will delete it once nothing live depends on it and tells whether a
        pending one is there; and what depends on one is the run's own. */
    ghost predicate Reversible(recs: seq<Record>, live: W -> set<Key>, deps: set<(Key, Key)>)
      reads this`world, log
      requires log.Valid()
    {
      && Sturdy()
      && (forall r | r in recs ::
            if r.form == FormUpdate then Restorable(r, live)
            else Invertible(r.exchange) && Obliging(r, live, deps) && Truthful(r, live))
      && (forall r | r in recs && r.form != FormUpdate && !Found(Entry(r.key)) :: r.key !in live(world))
      && (forall o, k | k in Made(recs) && o in live(world) && (o, k) in deps :: o in Made(recs))
    }

    /** In particular any run of updates with recorded priors, on a provider that accepts everything. */
    lemma AcceptedUpdatesAreReversible(recs: seq<Record>)
      requires log.Valid() && Sturdy() && (forall w, q :: effect(w, q).1.Accepted?)
      requires forall r | r in recs :: r.form == FormUpdate && r.prior != []
      ensures Acyclic<Key>({}) && Reversible(recs, w => {}, {})
    {
      NoEdgesNoCycle<Key>();
    }

    /** One attempt on any record. */
    method Try(p: Record, recs: seq<Record>) returns (v: Verdict)
      requires log.Valid() && p in recs
      modifies this`world, this`sent, this`calls, log
      ensures log.Valid() && Tried(p, v, old(Entries(recs)), Entries(recs))
      ensures old(Quiet(recs)) ==> Quiet(recs) && sent == old(sent) && world == old(world)
      ensures forall j | j != p.key :: Entry(j) == old(Entry(j))
      ensures v.Retry? ==> Entry(p.key) == old(Entry(p.key))
      ensures v == Reversed ==> if p.form != FormUpdate then !Found(Entry(p.key)) else old(Found(Entry(p.key))) ==> Found(Entry(p.key))
      ensures Sturdy() ==> Ends(p, old(Entry(p.key)), old(world), world, old(sent), sent, v)
    {
      hide HeadOf, Found, Permitted, Restores, Deletes, Entries, F.FileLedger.Valid, F.FileLedger.Versions;
      EntriesAre(recs, p);
      v := Compensate(p);
      EntriesAre(recs, p);
    }

    /** Where storage works and the provider obliges, a record is reversed or waits for what depends on it. */
    lemma AttemptGoes(p: Record, h: seq<State>, w: W, w': W, was: seq<Request>, now: seq<Request>, v: Verdict,
                      live: W -> set<Key>, deps: set<(Key, Key)>)
      requires if p.form == FormUpdate then Restorable(p, live) && Restores(p, h, w, w', was, now, v)
               else Invertible(p.exchange) && Obliging(p, live, deps) && Truthful(p, live) && Deletes(p, h, w, w', was, now, v)
      requires p.form != FormUpdate && !Found(h) ==> p.key !in live(w)
      ensures !v.Stuck?
      ensures v == Reversed ==> live(w') == if p.form == FormUpdate then live(w) else live(w) - {p.key}
      ensures v.Retry? ==> live(w') == live(w) && p.form != FormUpdate && Blocks(live(w'), p.key, deps)
    {
      hide HeadOf, Found;
      if p.form == FormUpdate {
        assert Takes(w, Request(p.exchange, p.key, Input(p.prior, HeadOf(h).identity)), live);
      } else if Found(h) {
        var q, r := Undo(p, HeadOf(h)), read(w, Probe(p, HeadOf(h)));
        assert Tells(w, Probe(p, HeadOf(h)), live);
        assert Obliges(w, q, live, deps) && Obliges(r.0, q, live, deps);
      }
    }

    /** One attempt on a record of a reversible run. */
    method Attempt(p: Record, recs: seq<Record>, ghost live: W -> set<Key>, ghost deps: set<(Key, Key)>, ghost good: bool)
      returns (v: Verdict)
      requires log.Valid() && p in recs
      requires good ==> Reversible(recs, live, deps)
      modifies this`world, this`sent, this`calls, log
      ensures log.Valid()
      ensures good ==> Reversible(recs, live, deps) && live(world) <= live(old(world))
      ensures good && v == Reversed ==> live(world) == if p.form == FormUpdate then live(old(world)) else live(old(world)) - {p.key}
      ensures good && v.Retry? ==> live(world) == live(old(world)) && p.form != FormUpdate && Blocks(live(world), p.key, deps)
      ensures good ==> !v.Stuck?
      ensures old(Quiet(recs)) ==> Quiet(recs) && sent == old(sent) && world == old(world)
      ensures Tried(p, v, old(Entries(recs)), Entries(recs))
      ensures Sturdy() ==> CanEnd(p, v)
    {
      hide HeadOf, Found, Tried, Quiet, Restores, Deletes, Obliging, Truthful, Restorable, Entries, F.FileLedger.Valid, F.FileLedger.Versions;
      v := Try(p, recs);
      if good {
        AttemptGoes(p, old(Entry(p.key)), old(world), world, old(sent), sent, v, live, deps);
      }
    }

    ghost function Entries(recs: seq<Record>): map<Key, seq<State>>
      reads log
      requires log.Valid()
    {
      map k | k in KeySet(recs) :: Entry(k)
    }

    lemma EntriesAre(recs: seq<Record>, p: Record)
      requires log.Valid() && p in recs
      ensures p.key in Entries(recs) && Entries(recs).Keys == KeySet(recs)
      ensures forall k | k in Entries(recs) :: Entries(recs)[k] == Entry(k)
    {
    }

    /** Nothing of the records is in the ledger. */
    ghost predicate Quiet(recs: seq<Record>)
      reads log
      requires log.Valid()
    {
      forall r | r in recs :: !Found(Entry(r.key))
    }

    lemma AllForgotten(recs: seq<Record>, first: map<Key, seq<State>>)
      requires log.Valid() && Settled(recs, [], [], first, Entries(recs)) && forall r | r in recs :: r.form != FormUpdate
      ensures Quiet(recs)
    {
      hide Found;
    }

    lemma Closed(recs: seq<Record>, live: W -> set<Key>, deps: set<(Key, Key)>)
      requires log.Valid() && Reversible(recs, live, deps)
      ensures forall o, k | k in Made(recs) && o in live(world) && (o, k) in deps :: o in Made(recs)
    {
    }

    /** One pass: what the provider refuses is kept for the next. */
    method Pass(recs: seq<Record>, todo: seq<Record>, was: Outcome, ghost live: W -> set<Key>, ghost deps: set<(Key, Key)>,
                ghost good: bool, ghost first: map<Key, seq<State>>)
      returns (blocked: seq<Record>, progressed: bool, out: Outcome)
      requires log.Valid() && forall r | r in todo :: r in recs
      requires Settled(recs, todo, was.outstanding, first, Entries(recs))
      requires Grounded(recs, was.reasons) && forall k | k in was.outstanding :: k in was.reasons
      requires good ==> Acyclic(deps) && Reversible(recs, live, deps) && was.outstanding == []
      requires good ==> live(world) * Made(recs) <= Made(todo)
      modifies this`world, this`sent, this`calls, log
      ensures log.Valid()
      ensures Tally(out, blocked) == Tally(was, todo)
      ensures Explained(out, blocked, todo) && Grounded(recs, out.reasons)
      ensures |blocked| + (if progressed then 1 else 0) <= |todo|
      ensures good ==> Reversible(recs, live, deps) && out.outstanding == []
      ensures good ==> live(world) * Made(recs) <= Made(blocked)
      ensures good && todo != [] ==> progressed
      ensures good && deps == {} ==> Straight(was, out, blocked, todo)
      ensures Settled(recs, blocked, out.outstanding, first, Entries(recs))
      ensures old(Quiet(recs)) ==> Quiet(recs) && sent == old(sent) && world == old(world)
    {
      hide Keys, Straight, Explained, Reversible, Acyclic, Tally, Made, Blocks, F.FileLedger.Valid, Settled, Quiet, Entries, Tried, Grounded, CanEnd;
      blocked, progressed, out := [], false, was;
      ghost var alive := live(world);
      assert [] + todo[0..] == todo;
      StraightFrom(was, todo[..0]);
      assert Explained(out, blocked, todo) by { NothingBlockedYet(was, todo); }
      for i := 0 to |todo|
        invariant log.Valid()
        invariant Tally(out, blocked + todo[i..]) == Tally(was, todo)
        invariant Explained(out, blocked, todo) && Grounded(recs, out.reasons)
        invariant |blocked| + (if progressed then 1 else 0) <= i
        invariant good ==> Reversible(recs, live, deps) && out.outstanding == []
        invariant good ==> live(world) * Made(recs) <= Made(blocked + todo[i..])
        invariant good && deps == {} ==> Straight(was, out, blocked, todo[..i])
        invariant Settled(recs, blocked + todo[i..], out.outstanding, first, Entries(recs))
        invariant old(Quiet(recs)) ==> Quiet(recs) && sent == old(sent) && world == old(world)
        invariant good && !progressed ==> live(world) == alive && forall j | 0 <= j < i :: todo[j].form != FormUpdate && Blocks(alive, todo[j].key, deps)
      {
        var p := todo[i];
        ghost var out0, blocked0, before, living := out, blocked, Entries(recs), live(world);
        var v := Attempt(p, recs, live, deps, good);
        NothingBlocks(live(world), p.key);
        match v {
          case Reversed =>
            out, progressed := out.(compensated := out.compensated + [p.key]), true;
          case Retry(why) =>
            blocked, out := blocked + [p], out.(reasons := out.reasons[p.key := why]);
          case Stuck(why) =>
            out := out.(outstanding := out.outstanding + [p.key]);
            out := out.(reasons := out.reasons[p.key := why]);
        }
        if v != Reversed { GroundedOn(recs, out0.reasons, p, v); }
        OneTaken(was, out0, blocked0, blocked, todo, i, v);
        assert out == Noted(out0, p, v);
        if good && v == Reversed && p.form != FormUpdate { Shrinks(living, Made(recs), Made(blocked + todo[i + 1..]), p.key); }
        SettledOn(recs, blocked0 + todo[i..], blocked + todo[i + 1..], out0.outstanding, out.outstanding, p, v, first, before, Entries(recs));
      }
      assert blocked + todo[|todo|..] == blocked && todo[..|todo|] == todo;
      if good && !progressed && todo != [] {
        Closed(recs, live, deps);
        NeverStalls(todo, recs, alive, deps);
      }
    }

    /** Passes until nothing is left or one reverses nothing; what is left then is outstanding. */
    method Passes(recs: seq<Record>, all: seq<Record>, was: Outcome, ghost live: W -> set<Key>, ghost deps: set<(Key, Key)>,
                  ghost good: bool, ghost first: map<Key, seq<State>>)
      returns (out: Outcome)
      requires log.Valid() && forall r | r in all :: r in recs
      requires Settled(recs, all, was.outstanding, first, Entries(recs))
      requires was.outstanding == [] && Grounded(recs, was.reasons)
      requires good ==> Acyclic(deps) && Reversible(recs, live, deps) && live(world) * Made(recs) <= Made(all)
      modifies this`world, this`sent, this`calls, log
      ensures log.Valid()
      ensures Tally(out, []) == Tally(was, all)
      ensures Grounded(recs, out.reasons) && forall k | k in out.outstanding :: k in out.reasons
      ensures good ==> out.outstanding == []
      ensures good ==> Reversible(recs, live, deps) && live(world) * Made(recs) == {}
      ensures good && deps == {} ==> out.compensated == was.compensated + Keys(all)
      ensures Settled(recs, [], out.outstanding, first, Entries(recs))
      ensures old(Quiet(recs)) ==> Quiet(recs) && sent == old(sent) && world == old(world)
    {
      hide Keys, Reversible, Acyclic, Tally, Made, F.FileLedger.Valid, Settled, Quiet, Entries, CanEnd;
      var todo := all;
      out := was;
      while todo != []
        invariant log.Valid()
        invariant Tally(out, todo) == Tally(was, all)
        invariant Grounded(recs, out.reasons) && forall k | k in out.outstanding :: k in out.reasons
        invariant forall r | r in todo :: r in recs
        invariant good ==> Acyclic(deps) && Reversible(recs, live, deps) && out.outstanding == []
        invariant good ==> live(world) * Made(recs) <= Made(todo)
        invariant good && deps == {} ==>
                    (todo == all && out.compensated == was.compensated) || (todo == [] && out.compensated == was.compensated + Keys(all))
        invariant Settled(recs, todo, out.outstanding, first, Entries(recs))
        invariant old(Quiet(recs)) ==> Quiet(recs) && sent == old(sent) && world == old(world)
        decreases |todo|
      {
        var progressed;
        todo, progressed, out := Pass(recs, todo, out, live, deps, good, first);
        if !progressed {
          break;
        }
      }
      ghost var reversed := out.compensated;
      NoKeys(all);
      NoKeys(todo);
      for j := 0 to |todo|
        invariant log.Valid()
        invariant forall r | r in todo :: r.key in out.reasons
        invariant Tally(out, todo[j..]) == Tally(was, all)
        invariant Grounded(recs, out.reasons) && forall k | k in out.outstanding :: k in out.reasons
        invariant good ==> out.outstanding == []
        invariant out.compensated == reversed
        invariant Settled(recs, todo[j..], out.outstanding, first, Entries(recs))
        invariant good ==> Reversible(recs, live, deps) && live(world) * Made(recs) == {}
        invariant old(Quiet(recs)) ==> Quiet(recs) && sent == old(sent) && world == old(world)
      {
        TallyTakes(out, [], todo[j], todo[j + 1..]);
        assert [] + [todo[j]] + todo[j + 1..] == todo[j..] && [] + todo[j + 1..] == todo[j + 1..];
        ghost var stuck := out.outstanding;
        out := out.(outstanding := out.outstanding + [todo[j].key]);
        SettledKept(recs, todo, j, stuck, first, Entries(recs));
      }
      assert todo[|todo|..] == [];
    }

    /** The fixpoint: passes over what is left until one reverses nothing. Whatever provider and storage do it
        ends, accounting for every record, and what is not outstanding is met in the ledger. An acyclic
        reversible run it reverses entirely, and one where nothing depends on anything last first; and with
        nothing left in the ledger it sends nothing. */
    method Unwind(recs: seq<Record>, ghost live: W -> set<Key>, ghost deps: set<(Key, Key)>) returns (out: Outcome)
      requires log.Valid()
      modifies this`world, this`sent, this`calls, log
      ensures log.Valid()
      ensures multiset(out.compensated) + multiset(out.outstanding) == multiset(Keys(recs))
      ensures Grounded(recs, out.reasons) && forall k | k in out.outstanding :: k in out.reasons
      ensures forall r | r in recs :: r.key in out.outstanding || Met(recs, r, old(Entry(r.key)), Entry(r.key))
      ensures Acyclic(deps) && old(Reversible(recs, live, deps)) ==>
                && out.outstanding == [] && Reversible(recs, live, deps) && live(world) * Made(recs) == {}
                && ((forall r | r in recs :: r.form != FormUpdate) ==> Quiet(recs))
      ensures old(Quiet(recs)) ==> Quiet(recs) && sent == old(sent) && world == old(world)
      ensures deps == {} && old(Reversible(recs, live, deps)) ==>
                |out.compensated| == |recs| && forall j | 0 <= j < |recs| :: out.compensated[j] == recs[|recs| - 1 - j].key
    {
      hide Reversible, Acyclic, Keys, Settled, Quiet, Met, CanEnd, F.FileLedger.Valid, F.FileLedger.Versions;
      var todo := Backwards(recs);
      ghost var first := Entries(recs);
      forall r | r in recs ensures r in todo {
        var i :| 0 <= i < |recs| && recs[i] == r;
        assert todo[|recs| - 1 - i] == r;
      }
      SettledFirst(recs, todo, first);
      ghost var good := Acyclic(deps) && Reversible(recs, live, deps);
      NoEdgesNoCycle<Key>();
      out := Passes(recs, todo, NOTHING, live, deps, good, first);
      KeysInOrder(todo);
      SettledLast(recs, out.outstanding, first, Entries(recs));
      if good && forall r | r in recs :: r.form != FormUpdate { AllForgotten(recs, first); }
      assert Tally(out, []) == multiset(out.compensated) + multiset(out.outstanding) by { TallyEmpty(out); }
    }
  }
}
