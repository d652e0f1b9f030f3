/** What the lease of internal/lease/lease.go gives its holder over whole runs: for how long, against whom,
    and that an operation nothing interferes with succeeds. */
module LeaseRuns {
  import opened Ledger
  import opened LedgerRuns
  import opened Lease
  import opened Wrappers

  // For how long.

  /** An operation asked for ttl at or after a time is on its way to a record that lasts as long. */
  ghost predicate Lasts(pc: LeasePc, ttl: int, since: int, clock: int) {
    match pc
    case Acquiring(x) => x == ttl
    case Looked(_, _, x) => x == ttl
    case Admitted(_, x) => x == ttl
    case Renewing(_, x) => x == ttl
    case Claiming(r, _) => since + ttl <= r.expiry <= clock + ttl
    case Extending(r, _) => since + ttl <= r.expiry <= clock + ttl
    case _ => false
  }

  lemma LastsStep(s: LeaseSystem, a: LeaseAction, s': LeaseSystem, p: Pid, ttl: int, since: int)
    requires LeaseNext(s, a, s') && Lasts(PcOf(s, p), ttl, since, s.clock) && since <= s.clock && !PcOf(s', p).Idle?
    ensures Lasts(PcOf(s', p), ttl, since, s'.clock) && s.clock <= s'.clock
  {
    hide Next;
  }

  lemma {:induction false} LastsAllAlong(t: LeaseTrace, p: Pid, ttl: int, i: nat, j: nat)
    requires IsLeaseRun(t) && i < j < |t.states| && (t.actions[i] == Acquire(p, ttl) || t.actions[i] == Renew(p, ttl))
    requires forall k | i < k <= j :: !PcOf(t.states[k], p).Idle?
    ensures Lasts(PcOf(t.states[j], p), ttl, t.states[i].clock, t.states[j].clock) && t.states[i].clock <= t.states[j].clock
    decreases j
  {
    hide Next;
    assert LeaseNext(t.states[j - 1], t.actions[j - 1], t.states[j]);
    if i + 1 < j {
      LastsAllAlong(t, p, ttl, i, j - 1);
      LastsStep(t.states[j - 1], t.actions[j - 1], t.states[j], p, ttl, t.states[i].clock);
    }
  }

  /** The record a process holds once its Acquire or Renew returns without error expires the ttl asked for
      after a time between the asking and the return. */
  lemma HeldForTtl(t: LeaseTrace, p: Pid, ttl: int, i: nat, j: nat)
    requires IsLeaseRun(t) && i < j < |t.actions| && (t.actions[i] == Acquire(p, ttl) || t.actions[i] == Renew(p, ttl))
    requires t.actions[j] == Return(p) && forall k | i < k <= j :: !PcOf(t.states[k], p).Idle?
    ensures p in t.states[j].led.procs && t.states[j].led.procs[p].Done?
    ensures !t.states[j].led.procs[p].o.Failed? ==>
              && p in t.states[j + 1].held
              && t.states[i].clock + ttl <= t.states[j + 1].held[p].expiry <= t.states[j].clock + ttl
  {
    LastsAllAlong(t, p, ttl, i, j);
    assert LeaseNext(t.states[j], t.actions[j], t.states[j + 1]);
  }

  // Against whom.

  /** Version u is its holder's doing and ends the lease sooner: a release, or a renewal that expires before t. */
  ghost predicate EndsSooner(h: seq<State>, log: seq<Commit>, u: nat, p: Pid, t: int)
    requires 0 < u <= |h| == |log|
  {
    log[u - 1].pid == p && (h[u - 1].tombstone || (IsLease(h[u - 1]) && LeaseOf(h[u - 1]).expiry < t))
  }

  /** Until a version's expiry every later version records its claim, unless its holder ended it sooner. */
  lemma {:induction false} ClaimStandsUntilExpiry(s: LeaseSystem, v: nat, w: nat)
    requires LeaseInv(s) && 0 < v <= w <= |Versions(s)| && IsLease(Versions(s)[v - 1])
    requires |s.times| == |s.led.log| == |Versions(s)| && s.times[w - 1] < LeaseOf(Versions(s)[v - 1]).expiry
    ensures var h := Versions(s); var r := LeaseOf(h[v - 1]);
      && r.claim in s.owner
      && (Records(h, w, r.claim) || exists u | v < u <= w :: EndsSooner(h, s.led.log, u, s.owner[r.claim], r.expiry))
    decreases w
  {
    hide Explains, History, Inv, LeasePcInv, Held;
    var h := Versions(s);
    var r := LeaseOf(h[v - 1]);
    if v < w {
      assert s.times[w - 2] <= s.times[w - 1];
      ClaimStandsUntilExpiry(s, v, w - 1);
      if Records(h, w - 1, r.claim) {
        assert Handover(h, w - 1, s.led.log, s.owner, s.times);
        if h[w - 1].tombstone {
          assert EndsSooner(h, s.led.log, w, s.owner[r.claim], r.expiry);
        } else if LeaseOf(h[w - 2]).expiry < r.expiry {
          assert EndsSooner(h, s.led.log, w - 1, s.owner[r.claim], r.expiry);
        }
      }
    }
  }

  /** Where a call that began a lease ended without error, some version records the lease. */
  lemma BegunIsRecorded(s: LeaseSystem, p: Pid, r: Record, v: Version) returns (n: nat)
    requires LeaseInv(s) && Runs(s, p, Begin(Encode(r), v)) && s.led.procs[p].Done? && !s.led.procs[p].o.Failed?
    ensures 0 < n <= |Versions(s)| && IsLease(Versions(s)[n - 1]) && LeaseOf(Versions(s)[n - 1]) == r
  {
    hide LeaseHistory, LeasePcInv, Held, Explains, LegalWrite;
    var h, led := Versions(s), s.led;
    assert PcInv(led.procs[p], p, h, led.log);
    n := led.procs[p].o.n;
    HistoryLength(led);
    if led.procs[p].o.Committed? {
      assert Calls(led.log)[n - 1] == Begin(Encode(r), v);
      WrittenAs(Calls(led.log), h, n, Encode(r), v);
    }
  }

  lemma WrittenAs(calls: seq<Call>, h: seq<State>, n: nat, b: Bytes, v: Version)
    requires Explains(calls, h) && 0 < n <= |h| && calls[n - 1] == Begin(b, v)
    ensures h[n - 1].proposed == b && !h[n - 1].tombstone
  {
    assert LegalWrite(calls[n - 1], h[..n - 1], h[n - 1]);
  }

  lemma JustHeld(s: LeaseSystem, s': LeaseSystem, p: Pid) returns (v: nat)
    requires LeaseInv(s) && LeaseNext(s, Return(p), s') && (PcOf(s, p).Claiming? || PcOf(s, p).Extending?)
    requires !s.led.procs[p].o.Failed?
    ensures var r := PcOf(s, p).r;
      && p in s'.held && s'.held[p] == r && r.claim in s.owner && s.owner[r.claim] == p
      && 0 < v <= |Versions(s)| && IsLease(Versions(s)[v - 1]) && LeaseOf(Versions(s)[v - 1]) == r
  {
    hide Next, LeaseHistory, Explains, PcInv;
    assert LeasePcInv(s, p, Versions(s)) && Held(s, p);
    var pc := PcOf(s, p);
    v := BegunIsRecorded(s, p, pc.r, if pc.Claiming? then pc.v else At(pc.n));
    assert Held(s, p);
  }

  /** From the return of an Acquire or Renew on, in every later state: the record the process then held is
      a version of its own, and every version linked before that record's expiry records the same claim,
      unless the process itself has released it or renewed it for less. */
  lemma HeldUntilExpiry(t: LeaseTrace, p: Pid, j: nat, m: nat) returns (v: nat)
    requires IsLeaseRun(t) && j < m < |t.states| && t.actions[j] == Return(p)
    requires PcOf(t.states[j], p).Claiming? || PcOf(t.states[j], p).Extending?
    requires p in t.states[j].led.procs && !(t.states[j].led.procs[p].Done? && t.states[j].led.procs[p].o.Failed?)
    ensures p in t.states[j + 1].held && LeaseInv(t.states[m])
    ensures var s := t.states[m]; var h := Versions(s); var r := t.states[j + 1].held[p];
      && |s.times| == |s.led.log| == |h|
      && 0 < v <= |h| && IsLease(h[v - 1]) && LeaseOf(h[v - 1]) == r && s.led.log[v - 1].pid == p
      && forall w | v <= w <= |h| && s.times[w - 1] < r.expiry ::
           Records(h, w, r.claim) || exists u | v < u <= w :: EndsSooner(h, s.led.log, u, p, r.expiry)
  {
    RunKeepsLeaseInv(t, j);
    var s0, r := t.states[j], PcOf(t.states[j], p).r;
    v := JustHeld(s0, t.states[j + 1], p);
    hide LeaseNext, LeaseInv, EndsSooner;
    VersionsOnlyGrow(t, j, m);
    var s := t.states[m];
    var h := Versions(s);
    assert h[v - 1] == Versions(s0)[v - 1];
    OwnerWrote(s, v);
    OwnersStay(t, j, m, r.claim);
    forall w | v <= w <= |h| && s.times[w - 1] < r.expiry
      ensures Records(h, w, r.claim) || exists u | v < u <= w :: EndsSooner(h, s.led.log, u, p, r.expiry)
    {
      ClaimStandsUntilExpiry(s, v, w);
    }
  }

  lemma OwnerWrote(s: LeaseSystem, v: nat)
    requires LeaseInv(s) && 0 < v <= |Versions(s)| && IsLease(Versions(s)[v - 1])
    ensures |s.times| == |s.led.log| == |Versions(s)|
    ensures var c := LeaseOf(Versions(s)[v - 1]).claim; c in s.owner && s.owner[c] == s.led.log[v - 1].pid
  {
    assert Entries(Versions(s), s.led.log, s.owner);
  }

  lemma {:induction false} OwnersStay(t: LeaseTrace, i: nat, j: nat, c: Claim)
    requires IsLeaseRun(t) && i <= j < |t.states| && c in t.states[i].owner
    ensures c in t.states[j].owner && t.states[j].owner[c] == t.states[i].owner[c]
    decreases j
  {
    hide Next;
    if i < j {
      OwnersStay(t, i, j - 1, c);
      assert LeaseNext(t.states[j - 1], t.actions[j - 1], t.states[j]);
    }
  }

  // What nothing interferes with succeeds.

  /** The version a process presents that has read a history. */
  function VersionOf(h: seq<State>): Version {
    if Found(h) then At(|h|) else NoVersion
  }

  /** Nobody holds the lease a history ends with, or it has expired. */
  predicate Free(h: seq<State>, clock: int) {
    !Found(h) || (IsLease(HeadOf(h)) && LeaseOf(HeadOf(h)).expiry <= clock)
  }

  /** Nothing stops a process, and no other links. */
  ghost predicate LeaseSpared(s: LeaseSystem, a: LeaseAction, s': LeaseSystem, p: Pid) {
    match a
    case Die(q) => q != p
    case LedgerStep(b) => Spared(s.led, b, s'.led, p)
    case _ => true
  }

  /** The reads an operation starts from: Acquire's of a free lease, Renew's and Release's of the process's own. */
  ghost predicate Starts(s: LeaseSystem, a: LeaseAction, p: Pid, h: seq<State>) {
    match a
    case Look(q) => q == p && Free(h, s.clock)
    case Renew(q, _) => q == p && p in s.held && Records(h, |h|, s.held[p].claim)
    case Release(q) => q == p && p in s.held && Records(h, |h|, s.held[p].claim)
    case _ => false
  }

  /** An operation that read h is on its way to succeed. */
  ghost predicate Going(s: LeaseSystem, p: Pid, h: seq<State>, release: bool)
    requires LeaseInv(s)
  {
    PcOf(s, p).Releasing? == release &&
    match PcOf(s, p)
    case Looked(v, held, _) => Versions(s) == h && v == VersionOf(h) && (held.Some? ==> held.value.expiry <= s.clock)
    case Admitted(v, _) => Versions(s) == h && v == VersionOf(h)
    case Renewing(n, _) => Versions(s) == h && Found(h) && n == |h|
    case Claiming(r, v) => OnTrack(s.led, p, Begin(Encode(r), v), h) && v == VersionOf(h)
    case Extending(r, n) => OnTrack(s.led, p, Begin(Encode(r), At(n)), h) && Found(h) && n == |h|
    case Releasing(n) => OnTrack(s.led, p, Forget(At(n)), h) && Found(h) && n == |h|
    case _ => false
  }

  lemma StartIsGoing(s: LeaseSystem, a: LeaseAction, s': LeaseSystem, p: Pid, h: seq<State>)
    requires LeaseInv(s) && LeaseInv(s') && LeaseNext(s, a, s') && Versions(s) == h && Starts(s, a, p, h)
    ensures Going(s', p, h, a.Release?)
  {
    hide Next, LeaseHistory, LeasePcInv, Held, Explains, PcInv;
    match a
    case Look(_) =>
      var ver: nat, st, found :| Sees(s.led.files, ver, st, found) &&
        s' == s.(pcs := s.pcs[p :=
               if !found then Looked(NoVersion, None, s.pcs[p].ttl)
               else if Decode(st.proposed).None? then Idle
               else Looked(At(ver), Decode(st.proposed), s.pcs[p].ttl)]);
      SeesLast(s.led, ver, st, found);
    case Renew(_, ttl) =>
      var ver: nat, st, found :| Sees(s.led.files, ver, st, found) &&
        s' == s.(pcs := s.pcs[p := if Mine(st, found, s.held[p]) then Renewing(ver, ttl) else Idle]);
      SeesLast(s.led, ver, st, found);
    case Release(_) =>
      var ver: nat, st, found :| Sees(s.led.files, ver, st, found) &&
        s' == if Mine(st, found, s.held[p])
              then s.(led := Invoked(s.led, p, Forget(At(ver))), pcs := s.pcs[p := Releasing(ver)])
              else s.(pcs := s.pcs[p := Idle]);
      SeesLast(s.led, ver, st, found);
  }

  /** Steps of the ledger, and steps that leave the process where it stands. */
  lemma GoingOn(s: LeaseSystem, s': LeaseSystem, p: Pid, h: seq<State>, release: bool)
    requires LeaseInv(s) && LeaseInv(s') && Going(s, p, h, release)
    requires PcOf(s', p) == PcOf(s, p) && s.clock <= s'.clock
    requires s'.led.files == s.led.files && (p in s.led.procs ==> p in s'.led.procs && s'.led.procs[p] == s.led.procs[p])
    ensures Going(s', p, h, release)
  {
    hide LeaseInv, Run;
  }

  lemma GoingLedgerStep(s: LeaseSystem, b: Action, s': LeaseSystem, p: Pid, h: seq<State>, release: bool)
    requires LeaseInv(s) && LeaseInv(s') && LeaseNext(s, LedgerStep(b), s') && Spared(s.led, b, s'.led, p)
    requires Going(s, p, h, release)
    ensures Going(s', p, h, release)
  {
    hide Next, LeaseHistory, Held, Explains, PcInv, Run, History, Spared;
    assert LeasePcInv(s, p, Versions(s));
    LedgerStepShape(s.led, b, s'.led);
    if PcOf(s, p).Claiming? || PcOf(s, p).Extending? || PcOf(s, p).Releasing? {
      SparedStep(s.led, b, s'.led, p, s.led.procs[p].c, h);
    } else {
      assert b.p != p;
      SparedElsewhere(s.led, b, s'.led, p);
    }
  }

  /** The process's own steps up to its ledger call. */
  lemma GoingOwnStep(s: LeaseSystem, a: LeaseAction, s': LeaseSystem, p: Pid, h: seq<State>, release: bool)
    requires LeaseInv(s) && LeaseInv(s') && LeaseNext(s, a, s') && Going(s, p, h, release)
    requires a.Check? || a.Mint? || a.Extend?
    requires a.p == p
    ensures Going(s', p, h, release)
  {
    hide Next, LeaseHistory, LeasePcInv, Held, Explains, PcInv, Run, History;
    LedgerContiguous(s.led);
    if a.Extend? {
      assert PcOf(s', p) == Extending(s.held[p].(expiry := s.clock + PcOf(s, p).ttl), |h|);
    }
  }

  lemma GoingStep(s: LeaseSystem, a: LeaseAction, s': LeaseSystem, p: Pid, h: seq<State>, release: bool)
    requires LeaseInv(s) && LeaseInv(s') && LeaseNext(s, a, s') && LeaseSpared(s, a, s', p) && a != Return(p)
    requires Going(s, p, h, release)
    ensures Going(s', p, h, release)
  {
    hide Next, LeaseHistory, Held, Explains, PcInv, Run, LeaseInv, Spared, History;
    match a
    case LedgerStep(b) => GoingLedgerStep(s, b, s', p, h, release);
    case Mint(q, _, _) => if q == p { GoingOwnStep(s, a, s', p, h, release); } else { GoingOn(s, s', p, h, release); }
    case Extend(q) => if q == p { GoingOwnStep(s, a, s', p, h, release); } else { GoingOn(s, s', p, h, release); }
    case Check(q) => if q == p { GoingOwnStep(s, a, s', p, h, release); } else { GoingOn(s, s', p, h, release); }
    case _ => GoingOn(s, s', p, h, release);
  }

  lemma {:induction false} GoesAllAlong(t: LeaseTrace, p: Pid, i: nat, j: nat)
    requires IsLeaseRun(t) && i < j < |t.states|
    requires LeaseInv(t.states[i]) && Starts(t.states[i], t.actions[i], p, Versions(t.states[i]))
    requires forall k | i < k < j :: LeaseSpared(t.states[k], t.actions[k], t.states[k + 1], p) && t.actions[k] != Return(p)
    ensures LeaseInv(t.states[j]) && Going(t.states[j], p, Versions(t.states[i]), t.actions[i].Release?)
    decreases j
  {
    hide LeaseNext, LeaseInv, Going, LeaseSpared, Starts;
    RunKeepsLeaseInv(t, j - 1);
    RunKeepsLeaseInv(t, j);
    if i + 1 < j {
      GoesAllAlong(t, p, i, j - 1);
      GoingStep(t.states[j - 1], t.actions[j - 1], t.states[j], p, Versions(t.states[i]), t.actions[i].Release?);
    } else {
      StartIsGoing(t.states[i], t.actions[i], t.states[j], p, Versions(t.states[i]));
    }
  }

  lemma ReturnSucceeds(s: LeaseSystem, s': LeaseSystem, p: Pid, h: seq<State>, release: bool)
    requires LeaseInv(s) && LeaseInv(s') && LeaseNext(s, Return(p), s') && Going(s, p, h, release)
    ensures var h' := Versions(s');
      if release then h' == h + [TOMBSTONE]
      else p in s'.held && Records(h', |h'|, s'.held[p].claim) && LeaseOf(HeadOf(h')) == s'.held[p]
  {
    hide Next, LeaseHistory, LeasePcInv, Held, Explains, PcInv;
  }

  /** An Acquire that finds the lease free, and a Renew or Release that finds its own, succeeds if until it
      returns nothing stops it and no other process links: the last version then records what it holds, or,
      released, nothing. */
  lemma SparedSucceeds(t: LeaseTrace, p: Pid, i: nat, j: nat)
    requires IsLeaseRun(t) && i < j < |t.actions| && t.actions[j] == Return(p)
    requires LeaseInv(t.states[i]) && Starts(t.states[i], t.actions[i], p, Versions(t.states[i]))
    requires forall k | i < k < j :: LeaseSpared(t.states[k], t.actions[k], t.states[k + 1], p) && t.actions[k] != Return(p)
    ensures LeaseInv(t.states[j + 1])
    ensures var h := Versions(t.states[j + 1]);
      if t.actions[i].Release? then h == Versions(t.states[i]) + [TOMBSTONE]
      else p in t.states[j + 1].held && Records(h, |h|, t.states[j + 1].held[p].claim) && LeaseOf(HeadOf(h)) == t.states[j + 1].held[p]
  {
    hide LeaseNext, Going, Starts, LeaseSpared, LeaseInv;
    GoesAllAlong(t, p, i, j);
    RunKeepsLeaseInv(t, j + 1);
    ReturnSucceeds(t.states[j], t.states[j + 1], p, Versions(t.states[i]), t.actions[i].Release?);
  }
}
