/** The ledger's entries, the rules of its writes, and one key's history of versions. */
module Ledger {
  import opened Wrappers

  /** An opaque byte string: only its equality and, for a lease, its fields matter. */
  type Bytes = seq<int>

  datatype Phase = Pending | Live

  /** What one version file says. Nil and empty byte strings are one value here, as they are on disk. */
  datatype State = State(phase: Phase, plan: Bytes, proposed: Bytes, identity: Bytes, about: Bytes, tombstone: bool)

  const ABSENT := State(Pending, [], [], [], [], false)
  const TOMBSTONE := State(Pending, [], [], [], [], true)

  /** The version a writer presents; NoVersion asserts that the entry does not exist. */
  datatype Version = NoVersion | At(n: nat)

  /** How one operation meets storage: it works, it fails with nothing written, or what it wrote lands and
      only syncing it fails, which the caller cannot tell from nothing written. */
  datatype Storage = Works | Fails | Unsynced

  datatype LedgerError = Conflict | NotFound | WrongPhase | Io

  datatype Call =
    | Begin(proposed: Bytes, v: Version)
    | Resolve(identity: Bytes, about: Option<Bytes>, v: Version)
    | Forget(v: Version)

  /** Accepted: an identical proposal is already pending, as version n, and nothing is written.
      Committed: the call wrote version n. */
  datatype Outcome = Accepted(n: nat) | Committed(n: nat) | Failed(error: LedgerError)

  // One key's versions, oldest first: version n is element n - 1.

  function HeadOf(h: seq<State>): State {
    if h == [] then ABSENT else h[|h| - 1]
  }

  predicate Found(h: seq<State>) {
    h != [] && !HeadOf(h).tombstone
  }

  /** Begin's first look: an identical pending proposal is accepted whatever version is presented. */
  predicate Repeats(s: State, found: bool, proposed: Bytes) {
    found && s.phase == Pending && s.proposed == proposed
  }

  /** The compare of the compare-and-swap. */
  function GuardError(ver: nat, found: bool, v: Version): Option<LedgerError> {
    match v
    case NoVersion => if found then Some(Conflict) else None
    case At(n) => if !found then Some(NotFound) else if n != ver then Some(Conflict) else None
  }

  /** What a call may not do even when its version is current. */
  function CallError(c: Call, s: State, found: bool): Option<LedgerError> {
    match c
    case Begin(_, _) => None
    case Resolve(_, _, _) => if !found then Some(NotFound) else if s.phase != Pending then Some(WrongPhase) else None
    case Forget(_) => if !found then Some(NotFound) else None
  }

  /** The version a call writes after s. */
  function NextState(c: Call, s: State): State {
    match c
    case Begin(p, _) => State(Pending, s.plan, p, [], s.about, false)
    case Resolve(id, about, _) => State(Live, s.proposed, [], id, if about.Some? then about.value else s.about, false)
    case Forget(_) => TOMBSTONE
  }

  /** The error a call meets on a state, if any: the guard's, then its own. */
  function ErrorOn(c: Call, ver: nat, s: State, found: bool): Option<LedgerError> {
    var g := GuardError(ver, found, c.v);
    if g.Some? then g else CallError(c, s, found)
  }

  /** A call with nothing between its steps: the sequential ledger. */
  function Run(h: seq<State>, c: Call): (seq<State>, Outcome) {
    var s, found := HeadOf(h), Found(h);
    if c.Begin? && Repeats(s, found, c.proposed) then (h, Accepted(|h|))
    else
      var e := ErrorOn(c, |h|, s, found);
      if e.Some? then (h, Failed(e.value))
      else (h + [NextState(c, s)], Committed(|h| + 1))
  }

  // One ledger call at the version just read, with nothing between.

  lemma BeginAtHead(h: seq<State>, prior: Bytes)
    requires Found(h)
    ensures var r := Run(h, Begin(prior, At(|h|)));
            && !r.1.Failed? && h <= r.0 && Found(r.0) && HeadOf(r.0).phase == Pending
            && HeadOf(r.0).proposed == prior && HeadOf(r.0).about == HeadOf(h).about
  {
  }

  lemma ResolveAtHead(h: seq<State>, id: Bytes)
    requires Found(h) && HeadOf(h).phase == Pending
    ensures var r := Run(h, Resolve(id, None, At(|h|)));
            && !r.1.Failed? && h <= r.0 && Found(r.0)
            && HeadOf(r.0) == State(Live, HeadOf(h).proposed, [], id, HeadOf(h).about, false)
  {
  }

  lemma ForgottenIsGone(h: seq<State>)
    ensures !Found(h + [TOMBSTONE])
  {
  }

  lemma ForgetAtHead(h: seq<State>)
    requires Found(h)
    ensures var r := Run(h, Forget(At(|h|)));
            r.0 == h + [TOMBSTONE] && !r.1.Failed? && !Found(r.0)
  {
  }

  // What a history's entries mean, told from the calls that wrote them.

  /** The intent the last call proposed, if it was a Begin. */
  function LastProposed(calls: seq<Call>): Bytes {
    if calls != [] && calls[|calls| - 1].Begin? then calls[|calls| - 1].proposed else []
  }

  /** The last intent resolved since the entry was last forgotten. */
  function LastResolved(calls: seq<Call>): Bytes {
    if calls == [] then []
    else
      var rest := calls[..|calls| - 1];
      match calls[|calls| - 1]
      case Forget(_) => []
      case Begin(_, _) => LastResolved(rest)
      case Resolve(_, _, _) => LastProposed(rest)
  }

  /** A history is what its calls wrote one after another, each accepted by the sequential ledger. */
  ghost predicate Explains(calls: seq<Call>, h: seq<State>) {
    |calls| == |h| &&
    forall i | 0 <= i < |h| :: LegalWrite(calls[i], h[..i], h[i])
  }

  ghost predicate LegalWrite(c: Call, before: seq<State>, s: State) {
    ErrorOn(c, |before|, HeadOf(before), Found(before)) == None && s == NextState(c, HeadOf(before))
  }

  lemma ExplainsSnoc(calls: seq<Call>, h: seq<State>, c: Call, s: State)
    requires Explains(calls, h) && LegalWrite(c, h, s)
    ensures Explains(calls + [c], h + [s])
  {
    assert forall i | 0 <= i < |h| :: (h + [s])[..i] == h[..i];
    assert (h + [s])[..|h|] == h;
  }

  /** The n - 1 invariant: at every version the plan is the last intent resolved since the last
      Forget, and a pending proposal is the last one begun. */
  lemma {:induction false} PlanIsLastResolved(calls: seq<Call>, h: seq<State>)
    requires Explains(calls, h) && h != []
    ensures HeadOf(h).plan == LastResolved(calls)
    ensures HeadOf(h).proposed == LastProposed(calls)
    ensures Found(h) ==> (HeadOf(h).phase == Pending <==> calls[|calls| - 1].Begin?)
    ensures HeadOf(h).tombstone <==> calls[|calls| - 1].Forget?
    decreases |h|
  {
    var n := |h| - 1;
    assert LegalWrite(calls[n], h[..n], h[n]);
    if n > 0 {
      assert Explains(calls[..n], h[..n]) by {
        assert forall i | 0 <= i < n :: h[..n][..i] == h[..i];
      }
      PlanIsLastResolved(calls[..n], h[..n]);
    }
  }

  /** The identity the last call resolved, if it was a Resolve. */
  function LastIdentity(calls: seq<Call>): Bytes {
    if calls != [] && calls[|calls| - 1].Resolve? then calls[|calls| - 1].identity else []
  }

  /** The last record of what it is about that a Resolve gave since the entry was last forgotten. */
  function LastAbout(calls: seq<Call>): Bytes {
    if calls == [] then []
    else
      match calls[|calls| - 1]
      case Forget(_) => []
      case Begin(_, _) => LastAbout(calls[..|calls| - 1])
      case Resolve(_, about, _) => if about.Some? then about.value else LastAbout(calls[..|calls| - 1])
  }

  /** What an entry is about outlives every Begin and every Resolve that says nothing of it. */
  lemma {:induction false} AboutIsLastGiven(calls: seq<Call>, h: seq<State>)
    requires Explains(calls, h) && h != []
    ensures HeadOf(h).about == LastAbout(calls)
    decreases |h|
  {
    var n := |h| - 1;
    assert LegalWrite(calls[n], h[..n], h[n]);
    if n > 0 {
      assert Explains(calls[..n], h[..n]) by {
        assert forall i | 0 <= i < n :: h[..n][..i] == h[..i];
      }
      AboutIsLastGiven(calls[..n], h[..n]);
    }
  }

  /** An entry names its object only while the last call was the Resolve that named it: a Begin drops the
      identity, so a pending entry has none. */
  lemma IdentityIsLastResolved(calls: seq<Call>, h: seq<State>)
    requires Explains(calls, h)
    ensures HeadOf(h).identity == LastIdentity(calls)
    ensures HeadOf(h).phase == Pending ==> HeadOf(h).identity == []
  {
    if h != [] {
      assert LegalWrite(calls[|h| - 1], h[..|h| - 1], h[|h| - 1]);
    }
  }

  /** The last version from one on to another that a Resolve or Forget wrote, or the first if only Begins
      wrote in between. */
  function LastChange(calls: seq<Call>, lo: nat, hi: nat): (n: nat)
    requires lo <= hi <= |calls|
    ensures lo <= n <= hi
    ensures n == lo || !calls[n - 1].Begin?
    ensures forall k | n <= k < hi :: calls[k].Begin?
    decreases hi
  {
    if hi == lo then lo else if !calls[hi - 1].Begin? then hi else LastChange(calls, lo, hi - 1)
  }

  /** A Begin leaves the plan as it was, so the plan at a version is the one at the last change before it. */
  lemma {:induction false} PlanSinceChange(calls: seq<Call>, h: seq<State>, lo: nat, hi: nat)
    requires Explains(calls, h) && lo <= hi <= |h|
    ensures HeadOf(h[..hi]).plan == HeadOf(h[..LastChange(calls, lo, hi)]).plan
    decreases hi
  {
    if lo < hi && calls[hi - 1].Begin? {
      PlanSinceChange(calls, h, lo, hi - 1);
      assert LegalWrite(calls[hi - 1], h[..hi - 1], h[hi - 1]);
    }
  }
}
