/** The cross-run lease of internal/lease/lease.go, taken, renewed and released by any number of
    processes over one key of the file ledger. Every ledger read, every clock read and every link is a
    step of its own, processes interleave and die anywhere, and one clock never runs backwards. */
module Lease {
  import opened Ledger
  import opened LedgerRuns
  import opened Wrappers

  type Claim = nat

  /** The durable lease. A claim names one acquisition. */
  datatype Record = Record(claim: Claim, holder: int, expiry: int)

  function Encode(r: Record): Bytes {
    [r.claim, r.holder, r.expiry]
  }

  function Decode(b: Bytes): Option<Record> {
    if |b| == 3 && b[0] >= 0 then Some(Record(b[0], b[1], b[2])) else None
  }

  /** Where a process stands between the steps of Acquire, Renew and Release. */
  datatype LeasePc =
    | Idle
    | Acquiring(ttl: int)
    | Looked(v: Version, held: Option<Record>, ttl: int)  // Acquire has read the entry
    | Admitted(v: Version, ttl: int)                    // Acquire found no live lease
    | Claiming(r: Record, v: Version)                   // Acquire's Begin is in progress
    | Renewing(n: nat, ttl: int)                        // Renew has confirmed its claim at version v
    | Extending(r: Record, n: nat)                      // Renew's Begin is in progress
    | Releasing(n: nat)                                 // Release's Forget is in progress

  /** owner says which process minted each claim; times, when each version file was linked. */
  datatype LeaseSystem = LeaseSystem(
    led: System, clock: int, pcs: map<Pid, LeasePc>, held: map<Pid, Record>, owner: map<Claim, Pid>, times: seq<int>)

  datatype LeaseAction =
    | Tick(t: int)
    | Acquire(p: Pid, ttl: int)
    | Look(p: Pid)
    | Check(p: Pid)
    | Mint(p: Pid, claim: Claim, holder: int)
    | Renew(p: Pid, ttl: int)
    | Extend(p: Pid)
    | Release(p: Pid)
    | LedgerStep(a: Action)
    | Return(p: Pid)
    | Die(p: Pid)

  const LEASE_INIT := LeaseSystem(INIT, 0, map[], map[], map[], [])

  function PcOf(s: LeaseSystem, p: Pid): LeasePc {
    if p in s.pcs then s.pcs[p] else Idle
  }

  /** Whether the entry is this handle's claim, as held.version tests it. */
  predicate Mine(st: State, found: bool, r: Record) {
    found && Decode(st.proposed).Some? && Decode(st.proposed).value.claim == r.claim
  }

  ghost predicate LeaseNext(s: LeaseSystem, a: LeaseAction, s': LeaseSystem) {
    match a
    case Tick(t) =>
      t >= s.clock && s' == s.(clock := t)
    case Acquire(p, ttl) =>
      PcOf(s, p).Idle? && s' == s.(pcs := s.pcs[p := Acquiring(ttl)])
    case Look(p) =>
      && PcOf(s, p).Acquiring?
      && exists ver: nat, st, found | Sees(s.led.files, ver, st, found) ::
           s' == s.(pcs := s.pcs[p :=
             if !found then Looked(NoVersion, None, s.pcs[p].ttl)
             else if Decode(st.proposed).None? then Idle
             else Looked(At(ver), Decode(st.proposed), s.pcs[p].ttl)])
    case Check(p) =>
      && PcOf(s, p).Looked?
      && var pc := s.pcs[p];
         s' == s.(pcs := s.pcs[p := if pc.held.Some? && s.clock < pc.held.value.expiry then Idle else Admitted(pc.v, pc.ttl)])
    case Mint(p, claim, holder) =>
      && PcOf(s, p).Admitted? && claim !in s.owner
      && var pc := s.pcs[p]; var r := Record(claim, holder, s.clock + pc.ttl);
         s' == s.(led := Invoked(s.led, p, Begin(Encode(r), pc.v)),
                  pcs := s.pcs[p := Claiming(r, pc.v)], owner := s.owner[claim := p])
    case Renew(p, ttl) =>
      && PcOf(s, p).Idle? && p in s.held
      && exists ver: nat, st, found | Sees(s.led.files, ver, st, found) ::
           s' == s.(pcs := s.pcs[p := if Mine(st, found, s.held[p]) then Renewing(ver, ttl) else Idle])
    case Extend(p) =>
      && PcOf(s, p).Renewing? && p in s.held
      && var pc := s.pcs[p]; var r := s.held[p].(expiry := s.clock + pc.ttl);
         s' == s.(led := Invoked(s.led, p, Begin(Encode(r), At(pc.n))), pcs := s.pcs[p := Extending(r, pc.n)])
    case Release(p) =>
      && PcOf(s, p).Idle? && p in s.held
      && exists ver: nat, st, found | Sees(s.led.files, ver, st, found) ::
           s' == if Mine(st, found, s.held[p])
                 then s.(led := Invoked(s.led, p, Forget(At(ver))), pcs := s.pcs[p := Releasing(ver)])
                 else s.(pcs := s.pcs[p := Idle])
    case LedgerStep(a) =>
      && !a.Invoke? && !a.Crash? && Next(s.led, a, s'.led)
      && s' == s.(led := s'.led, times := if |s'.led.log| > |s.led.log| then s.times + [s.clock] else s.times)
    case Return(p) =>
      && (PcOf(s, p).Claiming? || PcOf(s, p).Extending? || PcOf(s, p).Releasing?)
      && p in s.led.procs && s.led.procs[p].Done?
      && s' == s.(pcs := s.pcs[p := Idle],
                  held := if s.led.procs[p].o.Failed? || s.pcs[p].Releasing? then s.held else s.held[p := s.pcs[p].r])
    case Die(p) =>
      s' == s.(led := s.led.(procs := s.led.procs - {p}), pcs := s.pcs - {p}, held := s.held - {p})
  }

  // What holds in every reachable state.

  /** The lease a version records. */
  function LeaseOf(st: State): Record
    requires IsLease(st)
  {
    Decode(st.proposed).value
  }

  predicate IsLease(st: State) {
    !st.tombstone && Decode(st.proposed).Some?
  }

  ghost predicate Entries(h: seq<State>, log: seq<Commit>, owner: map<Claim, Pid>) {
    && |log| == |h|
    && forall i | 0 <= i < |h| :: h[i].tombstone || (IsLease(h[i]) && LeaseOf(h[i]).claim in owner && owner[LeaseOf(h[i]).claim] == log[i].pid)
  }

  /** Version k + 1 follows version k as the lease allows: its owner releases it, its owner renews it,
      or a new claim takes it once the recorded expiry has passed. */
  ghost predicate Handover(h: seq<State>, k: nat, log: seq<Commit>, owner: map<Claim, Pid>, times: seq<int>)
    requires 0 < k < |h| == |log| == |times|
  {
    h[k - 1].tombstone || !IsLease(h[k - 1]) ||
    var r := LeaseOf(h[k - 1]);
    if h[k].tombstone then r.claim in owner && owner[r.claim] == log[k].pid
    else IsLease(h[k]) && (LeaseOf(h[k]).claim == r.claim || r.expiry <= times[k])
  }

  /** A claim's versions stand together: none after another claim, and none after a release. */
  ghost predicate ClaimsStandTogether(h: seq<State>) {
    forall i, j, k | 0 <= i <= j <= k < |h| && IsLease(h[i]) && IsLease(h[k]) && LeaseOf(h[i]).claim == LeaseOf(h[k]).claim ::
      IsLease(h[j]) && LeaseOf(h[j]).claim == LeaseOf(h[i]).claim
  }

  /** Version v records this claim. */
  predicate Records(h: seq<State>, v: nat, claim: Claim) {
    0 < v <= |h| && IsLease(h[v - 1]) && LeaseOf(h[v - 1]).claim == claim
  }

  /** Version v, where one is presented, records a lease that expires at t or before. */
  predicate ExpiresBy(h: seq<State>, v: Version, t: int) {
    v.At? ==> 0 < v.n <= |h| && IsLease(h[v.n - 1]) && LeaseOf(h[v.n - 1]).expiry <= t
  }

  predicate Absent(h: seq<State>, claim: Claim) {
    forall i | 0 <= i < |h| :: IsLease(h[i]) ==> LeaseOf(h[i]).claim != claim
  }

  predicate Runs(s: LeaseSystem, p: Pid, c: Call) {
    p in s.led.procs && s.led.procs[p].c == c
  }

  ghost predicate LeasePcInv(s: LeaseSystem, p: Pid, h: seq<State>) {
    match PcOf(s, p)
    case Idle => !Busy(s.led, p)
    case Acquiring(_) => !Busy(s.led, p)
    case Looked(v, held, _) => !Busy(s.led, p) && (v.At? ==> held.Some? && ExpiresBy(h, v, held.value.expiry))
    case Admitted(v, _) => !Busy(s.led, p) && ExpiresBy(h, v, s.clock)
    case Claiming(r, v) =>
      && Runs(s, p, Begin(Encode(r), v)) && r.claim in s.owner && s.owner[r.claim] == p
      && ExpiresBy(h, v, s.clock) && (Busy(s.led, p) ==> Absent(h, r.claim))
    case Renewing(v, _) => !Busy(s.led, p) && p in s.held && Records(h, v, s.held[p].claim)
    case Extending(r, v) =>
      && Runs(s, p, Begin(Encode(r), At(v)))
      && p in s.held && r.claim == s.held[p].claim && Records(h, v, r.claim)
    case Releasing(v) =>
      Runs(s, p, Forget(At(v))) && p in s.held && Records(h, v, s.held[p].claim)
  }

  ghost predicate Held(s: LeaseSystem, p: Pid) {
    p in s.held ==> s.held[p].claim in s.owner && s.owner[s.held[p].claim] == p
  }

  ghost predicate LeaseHistory(h: seq<State>, log: seq<Commit>, owner: map<Claim, Pid>, times: seq<int>, clock: int) {
    && Entries(h, log, owner) && ClaimsStandTogether(h) && |times| == |h|
    && (forall k | 0 < k < |h| :: Handover(h, k, log, owner, times))
    && (forall i, j | 0 <= i <= j < |times| :: times[i] <= times[j])
    && (forall i | 0 <= i < |times| :: times[i] <= clock)
  }

  ghost predicate LeaseInv(s: LeaseSystem) {
    && Inv(s.led)
    && var h := History(s.led.files);
       && LeaseHistory(h, s.led.log, s.owner, s.times, s.clock)
       && (forall p :: LeasePcInv(s, p, h))
       && (forall p :: Held(s, p))
  }

  // Steps that link nothing.

  lemma MoreTimeKeepsHistory(h: seq<State>, log: seq<Commit>, owner: map<Claim, Pid>, times: seq<int>, clock: int,
                             owner': map<Claim, Pid>, clock': int)
    requires LeaseHistory(h, log, owner, times, clock) && clock <= clock'
    requires forall c | c in owner :: c in owner' && owner'[c] == owner[c]
    ensures LeaseHistory(h, log, owner', times, clock')
  {
    forall k | 0 < k < |h| ensures Handover(h, k, log, owner', times) {
      assert Handover(h, k, log, owner, times);
    }
  }

  // Links.

  /** What the write of a process in the middle of a lease operation can be. */
  lemma LeaseWrite(s: LeaseSystem, p: Pid, h: seq<State>, next: State)
    requires LeaseInv(s) && h == History(s.led.files) && p in s.led.procs && Busy(s.led, p)
    requires LegalWrite(s.led.procs[p].c, h, next)
    ensures next.tombstone ==>
      h != [] && IsLease(h[|h| - 1]) && var c := LeaseOf(h[|h| - 1]).claim; c in s.owner && s.owner[c] == p
    ensures !next.tombstone ==>
      && IsLease(next) && var c := LeaseOf(next).claim;
      && c in s.owner && s.owner[c] == p
      && (Absent(h, c) || (h != [] && IsLease(h[|h| - 1]) && LeaseOf(h[|h| - 1]).claim == c))
      && (h != [] && IsLease(h[|h| - 1]) && LeaseOf(h[|h| - 1]).claim != c ==> LeaseOf(h[|h| - 1]).expiry <= s.clock)
  {
    hide ClaimsStandTogether, Handover, Explains, History, PcInv;
    assert LeasePcInv(s, p, h) && Held(s, p);
    assert h != [] ==> h[|h| - 1].tombstone || IsLease(h[|h| - 1]);
  }

  lemma LinkKeepsHistory(h: seq<State>, log: seq<Commit>, owner: map<Claim, Pid>, times: seq<int>, clock: int, p: Pid, c: Call, next: State)
    requires LeaseHistory(h, log, owner, times, clock)
    requires next.tombstone ==>
      h != [] && IsLease(h[|h| - 1]) && var c := LeaseOf(h[|h| - 1]).claim; c in owner && owner[c] == p
    requires !next.tombstone ==>
      && IsLease(next) && var c := LeaseOf(next).claim;
      && c in owner && owner[c] == p
      && (Absent(h, c) || (h != [] && IsLease(h[|h| - 1]) && LeaseOf(h[|h| - 1]).claim == c))
      && (h != [] && IsLease(h[|h| - 1]) && LeaseOf(h[|h| - 1]).claim != c ==> LeaseOf(h[|h| - 1]).expiry <= clock)
    ensures LeaseHistory(h + [next], log + [Commit(p, c)], owner, times + [clock], clock)
  {
    var h', log', times' := h + [next], log + [Commit(p, c)], times + [clock];
    forall k | 0 < k < |h'| ensures Handover(h', k, log', owner, times') {
      if k < |h| {
        assert Handover(h, k, log, owner, times);
      }
    }
    StandTogetherSnoc(h, next);
  }

  lemma StandTogetherSnoc(h: seq<State>, next: State)
    requires ClaimsStandTogether(h)
    requires IsLease(next) ==> var c := LeaseOf(next).claim;
      Absent(h, c) || (h != [] && IsLease(h[|h| - 1]) && LeaseOf(h[|h| - 1]).claim == c)
    ensures ClaimsStandTogether(h + [next])
  {
    var h' := h + [next];
    forall i, j, k | 0 <= i <= j <= k < |h'| && IsLease(h'[i]) && IsLease(h'[k]) && LeaseOf(h'[i]).claim == LeaseOf(h'[k]).claim
      ensures IsLease(h'[j]) && LeaseOf(h'[j]).claim == LeaseOf(h'[i]).claim
    {
      if j < |h| {
        var last := |h| - 1;
        var k' := if k < |h| then k else last;
        assert IsLease(h[i]) && IsLease(h[k']) && LeaseOf(h[i]).claim == LeaseOf(h[k']).claim;
      }
    }
  }

  /** A step of process p that writes no version leaves every other process as it stood. */
  ghost predicate QuietFor(s: LeaseSystem, s': LeaseSystem, p: Pid) {
    && s'.led.files == s.led.files && s'.led.log == s.led.log && s'.times == s.times && s.clock <= s'.clock
    && (forall c | c in s.owner :: c in s'.owner && s'.owner[c] == s.owner[c])
    && (forall q | q != p :: SameFor(s, s', q))
  }

  ghost predicate SameFor(s: LeaseSystem, s': LeaseSystem, q: Pid) {
    && PcOf(s', q) == PcOf(s, q)
    && (q in s'.held <==> q in s.held) && (q in s.held ==> s'.held[q] == s.held[q])
    && (q in s'.led.procs <==> q in s.led.procs) && (q in s.led.procs ==> s'.led.procs[q] == s.led.procs[q])
  }

  lemma QuietStepKeepsInv(s: LeaseSystem, s': LeaseSystem, p: Pid)
    requires LeaseInv(s) && QuietFor(s, s', p) && Inv(s'.led)
    requires LeasePcInv(s', p, History(s.led.files)) && Held(s', p)
    ensures LeaseInv(s')
  {
    var h := History(s.led.files);
    MoreTimeKeepsHistory(h, s.led.log, s.owner, s.times, s.clock, s'.owner, s'.clock);
    forall q ensures LeasePcInv(s', q, h) && Held(s', q) {
      if q != p {
        OthersKeepTheirPlace(s, s', p, q, h);
      }
    }
  }

  lemma OthersKeepTheirPlace(s: LeaseSystem, s': LeaseSystem, p: Pid, q: Pid, h: seq<State>)
    requires QuietFor(s, s', p) && q != p && LeasePcInv(s, q, h) && Held(s, q)
    ensures LeasePcInv(s', q, h) && Held(s', q)
  {
    assert SameFor(s, s', q);
  }

  /** A link by p leaves every other process with what it knew. */
  lemma LinkKeepsOthers(s: LeaseSystem, s': LeaseSystem, p: Pid, q: Pid, h: seq<State>, next: State)
    requires SameFor(s, s', q) && q != p && s'.owner == s.owner && s'.clock == s.clock
    requires LeasePcInv(s, q, h) && Held(s, q)
    requires IsLease(next) ==> LeaseOf(next).claim in s.owner && s.owner[LeaseOf(next).claim] == p
    ensures LeasePcInv(s', q, h + [next]) && Held(s', q)
  {}

  /** A ledger step moves one call on, keeping which call it is, and writes nothing or links. */
  lemma LedgerStepShape(led: System, a: Action, led': System)
    requires Next(led, a, led') && !a.Invoke? && !a.Crash?
    ensures var p := a.p;
      && Busy(led, p) && p in led'.procs && led'.procs[p].c == led.procs[p].c
      && (forall q | q != p :: (q in led'.procs <==> q in led.procs) && (q in led.procs ==> led'.procs[q] == led.procs[q]))
      && ((led'.files == led.files && led'.log == led.log)
          || (led.procs[p].Ready? && led.procs[p].base + 1 !in led.files && !Busy(led', p)
              && exists o :: (o == Committed(led.procs[p].base + 1) || o.Failed?) && led' == Linked(led, p, o)))
  {
    match a
    case Read(p) =>
    case Link(p) =>
      if led.procs[p].base + 1 !in led.files {
        assert led' == Linked(led, p, Committed(led.procs[p].base + 1));
      }
    case LinkUnsynced(p) =>
      assert led' == Linked(led, p, Failed(Io));
    case Fault(p) =>
  }

  lemma LedgerStepKeepsInv(s: LeaseSystem, a: Action, s': LeaseSystem)
    requires LeaseInv(s) && LeaseNext(s, LedgerStep(a), s')
    ensures LeaseInv(s')
  {
    hide Next, LeaseHistory, History, Linked, Explains, PcInv;
    NextKeepsInv(s.led, a, s'.led);
    LedgerStepShape(s.led, a, s'.led);
    var p := a.p;
    var h := History(s.led.files);
    assert LeasePcInv(s, p, h) && Held(s, p);
    if s'.led.files == s.led.files && s'.led.log == s.led.log {
      assert QuietFor(s, s', p);
      QuietStepKeepsInv(s, s', p);
    } else {
      var o :| (o == Committed(s.led.procs[p].base + 1) || o.Failed?) && s'.led == Linked(s.led, p, o);
      LinkKeepsInv(s, p, o);
      LinkedLog(s.led, p, o);
      assert s' == s.(led := Linked(s.led, p, o), times := s.times + [s.clock]);
    }
  }

  lemma LinkedLog(led: System, p: Pid, o: Outcome)
    requires p in led.procs && led.procs[p].Ready?
    ensures |Linked(led, p, o).log| > |led.log|
  {}

  lemma LinkKeepsInv(s: LeaseSystem, p: Pid, o: Outcome)
    requires LeaseInv(s) && Busy(s.led, p) && s.led.procs[p].Ready? && s.led.procs[p].base + 1 !in s.led.files
    requires o == Committed(s.led.procs[p].base + 1) || o.Failed?
    ensures LeaseInv(s.(led := Linked(s.led, p, o), times := s.times + [s.clock]))
  {
    hide LeaseHistory, History;
    var s' := s.(led := Linked(s.led, p, o), times := s.times + [s.clock]);
    var pc := s.led.procs[p];
    var h := History(s.led.files);
    assert LeasePcInv(s, p, h) && Held(s, p);
    LinkedKeepsInv(s.led, p, o);
    LinkWrites(s, p, h);
    LeaseWrite(s, p, h, pc.next);
    LinkKeepsHistory(h, s.led.log, s.owner, s.times, s.clock, p, pc.c, pc.next);
    forall q ensures LeasePcInv(s', q, h + [pc.next]) && Held(s', q) {
      assert LeasePcInv(s, q, h) && Held(s, q);
      if q != p {
        LinkKeepsOthers(s, s', p, q, h, pc.next);
      } else {
        LinkEndsCall(s, s', p, h, pc.next);
      }
    }
  }

  lemma LinkWrites(s: LeaseSystem, p: Pid, h: seq<State>)
    requires LeaseInv(s) && h == History(s.led.files)
    requires Busy(s.led, p) && s.led.procs[p].Ready? && s.led.procs[p].base + 1 !in s.led.files
    ensures LegalWrite(s.led.procs[p].c, h, s.led.procs[p].next)
  {
    LinkLandsIffCurrent(s.led, p);
    assert PcInv(s.led.procs[p], p, h, s.led.log);
    assert h[..s.led.procs[p].base] == h;
  }

  lemma LinkEndsCall(s: LeaseSystem, s': LeaseSystem, p: Pid, h: seq<State>, next: State)
    requires LeasePcInv(s, p, h) && Held(s, p) && Busy(s.led, p) && !Busy(s'.led, p)
    requires s'.owner == s.owner && s'.clock == s.clock && s'.pcs == s.pcs && s'.held == s.held
    requires p in s'.led.procs && s'.led.procs[p].c == s.led.procs[p].c
    ensures LeasePcInv(s', p, h + [next]) && Held(s', p)
  {}

  // The process's own steps.

  /** What Get finds is the last version. */
  lemma LookKeepsInv(s: LeaseSystem, p: Pid, s': LeaseSystem)
    requires LeaseInv(s) && LeaseNext(s, Look(p), s')
    ensures LeaseInv(s')
  {
    hide LeaseHistory, Inv, History;
    LedgerContiguous(s.led);
    var h := History(s.led.files);
    assert LeasePcInv(s, p, h) && Held(s, p);
    var ver: nat, st, found :| Sees(s.led.files, ver, st, found) &&
      s' == s.(pcs := s.pcs[p :=
             if !found then Looked(NoVersion, None, s.pcs[p].ttl)
             else if Decode(st.proposed).None? then Idle
             else Looked(At(ver), Decode(st.proposed), s.pcs[p].ttl)]);
    SeesLast(s.led, ver, st, found);
    QuietStepKeepsInv(s, s', p);
  }

  lemma RenewKeepsInv(s: LeaseSystem, p: Pid, ttl: int, s': LeaseSystem)
    requires LeaseInv(s) && LeaseNext(s, Renew(p, ttl), s')
    ensures LeaseInv(s')
  {
    hide LeaseHistory, Inv, History;
    LedgerContiguous(s.led);
    var h := History(s.led.files);
    assert LeasePcInv(s, p, h) && Held(s, p);
    var ver: nat, st, found :| Sees(s.led.files, ver, st, found) &&
      s' == s.(pcs := s.pcs[p := if Mine(st, found, s.held[p]) then Renewing(ver, ttl) else Idle]);
    SeesLast(s.led, ver, st, found);
    QuietStepKeepsInv(s, s', p);
  }

  lemma ReleaseKeepsInv(s: LeaseSystem, p: Pid, s': LeaseSystem)
    requires LeaseInv(s) && LeaseNext(s, Release(p), s')
    ensures LeaseInv(s')
  {
    hide LeaseHistory, Inv, History;
    LedgerContiguous(s.led);
    var h := History(s.led.files);
    assert LeasePcInv(s, p, h) && Held(s, p);
    var ver: nat, st, found :| Sees(s.led.files, ver, st, found) &&
      s' == if Mine(st, found, s.held[p])
            then s.(led := Invoked(s.led, p, Forget(At(ver))), pcs := s.pcs[p := Releasing(ver)])
            else s.(pcs := s.pcs[p := Idle]);
    SeesLast(s.led, ver, st, found);
    InvokeKeepsInv(s.led, p, Forget(At(ver)));
    QuietStepKeepsInv(s, s', p);
  }

  lemma MintKeepsInv(s: LeaseSystem, p: Pid, claim: Claim, holder: int, s': LeaseSystem)
    requires LeaseInv(s) && LeaseNext(s, Mint(p, claim, holder), s')
    ensures LeaseInv(s')
  {
    hide LeaseHistory, Inv, History;
    LedgerContiguous(s.led);
    var h := History(s.led.files);
    assert LeasePcInv(s, p, h) && Held(s, p);
    MintedIsAbsent(s, claim, h);
    InvokeKeepsInv(s.led, p, Begin(Encode(Record(claim, holder, s.clock + s.pcs[p].ttl)), s.pcs[p].v));
    QuietStepKeepsInv(s, s', p);
  }

  lemma ExtendKeepsInv(s: LeaseSystem, p: Pid, s': LeaseSystem)
    requires LeaseInv(s) && LeaseNext(s, Extend(p), s')
    ensures LeaseInv(s')
  {
    hide LeaseHistory, Inv, History;
    LedgerContiguous(s.led);
    var h := History(s.led.files);
    assert LeasePcInv(s, p, h) && Held(s, p);
    InvokeKeepsInv(s.led, p, Begin(Encode(s.held[p].(expiry := s.clock + s.pcs[p].ttl)), At(s.pcs[p].n)));
    QuietStepKeepsInv(s, s', p);
  }

  lemma AcquireKeepsInv(s: LeaseSystem, p: Pid, ttl: int, s': LeaseSystem)
    requires LeaseInv(s) && LeaseNext(s, Acquire(p, ttl), s')
    ensures LeaseInv(s')
  {
    hide LeaseHistory, Inv, History;
    LedgerContiguous(s.led);
    assert LeasePcInv(s, p, History(s.led.files)) && Held(s, p);
    QuietStepKeepsInv(s, s', p);
  }

  lemma CheckKeepsInv(s: LeaseSystem, p: Pid, s': LeaseSystem)
    requires LeaseInv(s) && LeaseNext(s, Check(p), s')
    ensures LeaseInv(s')
  {
    hide LeaseHistory, Inv, History;
    LedgerContiguous(s.led);
    assert LeasePcInv(s, p, History(s.led.files)) && Held(s, p);
    QuietStepKeepsInv(s, s', p);
  }

  lemma ReturnKeepsInv(s: LeaseSystem, p: Pid, s': LeaseSystem)
    requires LeaseInv(s) && LeaseNext(s, Return(p), s')
    ensures LeaseInv(s')
  {
    hide LeaseHistory, Inv, History;
    LedgerContiguous(s.led);
    assert LeasePcInv(s, p, History(s.led.files)) && Held(s, p);
    QuietStepKeepsInv(s, s', p);
  }

  lemma DieKeepsInv(s: LeaseSystem, p: Pid, s': LeaseSystem)
    requires LeaseInv(s) && LeaseNext(s, Die(p), s')
    ensures LeaseInv(s')
  {
    hide LeaseHistory, Inv, History;
    LedgerContiguous(s.led);
    DropKeepsInv(s.led, p);
    QuietStepKeepsInv(s, s', p);
  }

  lemma LedgerContiguous(led: System)
    requires Inv(led)
    ensures Contiguous(led.files)
  {}

  /** A minted claim is in no version yet. */
  lemma MintedIsAbsent(s: LeaseSystem, claim: Claim, h: seq<State>)
    requires LeaseInv(s) && h == History(s.led.files) && claim !in s.owner
    ensures Absent(h, claim)
  {}

  lemma LeaseNextKeepsInv(s: LeaseSystem, a: LeaseAction, s': LeaseSystem)
    requires LeaseInv(s) && LeaseNext(s, a, s')
    ensures LeaseInv(s')
  {
    hide LeaseHistory;
    match a
    case LedgerStep(b) => LedgerStepKeepsInv(s, b, s');
    case Tick(t) =>
      var h := History(s.led.files);
      MoreTimeKeepsHistory(h, s.led.log, s.owner, s.times, s.clock, s'.owner, t);
      forall q ensures LeasePcInv(s', q, h) && Held(s', q) {
        assert LeasePcInv(s, q, h) && Held(s, q);
      }
    case Look(p) => LookKeepsInv(s, p, s');
    case Renew(p, ttl) => RenewKeepsInv(s, p, ttl, s');
    case Release(p) => ReleaseKeepsInv(s, p, s');
    case Mint(p, claim, holder) => MintKeepsInv(s, p, claim, holder, s');
    case Extend(p) => ExtendKeepsInv(s, p, s');
    case Die(p) => DieKeepsInv(s, p, s');
    case Acquire(p, ttl) => AcquireKeepsInv(s, p, ttl, s');
    case Check(p) => CheckKeepsInv(s, p, s');
    case Return(p) => ReturnKeepsInv(s, p, s');
  }

  // Whole runs.

  datatype LeaseTrace = LeaseTrace(states: seq<LeaseSystem>, actions: seq<LeaseAction>)

  ghost predicate IsLeaseRun(t: LeaseTrace) {
    && |t.states| == |t.actions| + 1 && t.states[0] == LEASE_INIT
    && forall i | 0 <= i < |t.actions| :: LeaseNext(t.states[i], t.actions[i], t.states[i + 1])
  }

  lemma LeaseInitHolds()
    ensures LeaseInv(LEASE_INIT)
  {}

  lemma {:induction false} RunKeepsLeaseInv(t: LeaseTrace, i: nat)
    requires IsLeaseRun(t) && i < |t.states|
    ensures LeaseInv(t.states[i])
  {
    hide LeaseInv, LeaseNext;
    if i == 0 {
      LeaseInitHolds();
    } else {
      RunKeepsLeaseInv(t, i - 1);
      LeaseNextKeepsInv(t.states[i - 1], t.actions[i - 1], t.states[i]);
    }
  }

  ghost function Versions(s: LeaseSystem): seq<State>
    requires LeaseInv(s)
  {
    History(s.led.files)
  }

  /** In every interleaving: a version that records another claim than the one before it was linked no
      earlier than that claim's recorded expiry, and a release is by the process that minted the claim
      it ends. So a new claim always follows an expiry or a release. */
  lemma ClaimsFollowExpiryOrRelease(t: LeaseTrace, i: nat, k: nat)
    requires IsLeaseRun(t) && i < |t.states|
    ensures LeaseInv(t.states[i])
    ensures var s := t.states[i]; var h := Versions(s);
      && |s.times| == |h| && |s.led.log| == |h|
      && (0 < k < |h| && IsLease(h[k - 1]) ==>
            var r := LeaseOf(h[k - 1]);
            && (h[k].tombstone ==> r.claim in s.owner && s.owner[r.claim] == s.led.log[k].pid)
            && (!h[k].tombstone ==> IsLease(h[k]))
            && (!h[k].tombstone && LeaseOf(h[k]).claim != r.claim ==> r.expiry <= s.times[k] <= s.clock))
  {
    RunKeepsLeaseInv(t, i);
    var s := t.states[i];
    if 0 < k < |Versions(s)| && IsLease(Versions(s)[k - 1]) {
      assert Handover(Versions(s), k, s.led.log, s.owner, s.times);
    }
  }

  lemma {:induction false} VersionsOnlyGrow(t: LeaseTrace, i: nat, j: nat)
    requires IsLeaseRun(t) && i <= j < |t.states|
    ensures LeaseInv(t.states[i]) && LeaseInv(t.states[j])
    ensures Versions(t.states[i]) <= Versions(t.states[j])
    decreases j
  {
    hide LeaseInv, LeaseNext, Versions;
    RunKeepsLeaseInv(t, i);
    RunKeepsLeaseInv(t, j);
    if i < j {
      RunKeepsLeaseInv(t, j - 1);
      VersionsOnlyGrow(t, i, j - 1);
      StepGrows(t.states[j - 1], t.actions[j - 1], t.states[j]);
    }
  }

  lemma StepGrows(s: LeaseSystem, a: LeaseAction, s': LeaseSystem)
    requires LeaseInv(s) && LeaseInv(s') && LeaseNext(s, a, s')
    ensures Versions(s) <= Versions(s')
  {
    hide LeaseHistory, LeasePcInv, Held;
    if a.LedgerStep? {
      NextKeepsInv(s.led, a.a, s'.led);
    }
  }

  /** Once a claim has been replaced or released, no later version records it and no later release
      ends it: its handle can never renew or release again. */
  lemma ReplacedClaimIsOver(t: LeaseTrace, i: nat, j: nat, claim: Claim, v: nat, w: nat)
    requires IsLeaseRun(t) && i <= j < |t.states|
    ensures LeaseInv(t.states[i]) && LeaseInv(t.states[j])
    ensures var h, h' := Versions(t.states[i]), Versions(t.states[j]);
      v < |h| && Records(h, v, claim) && !Records(h, |h|, claim) && |h| <= w <= |h'| ==> !Records(h', w, claim)
  {
    VersionsOnlyGrow(t, i, j);
    var h, h' := Versions(t.states[i]), Versions(t.states[j]);
    if v <= |h| <= w {
      Between(h', v, |h|, w, claim);
    }
  }

  lemma Between(h: seq<State>, v: nat, m: nat, w: nat, claim: Claim)
    requires ClaimsStandTogether(h) && v <= m <= w
    ensures Records(h, v, claim) && Records(h, w, claim) ==> Records(h, m, claim)
  {}

  /** A claim is live while its latest version is unexpired and no release follows it. */
  ghost predicate Live(s: LeaseSystem, claim: Claim, v: nat)
    requires LeaseInv(s)
  {
    var h := Versions(s);
    && Records(h, v, claim) && (forall w | v < w <= |h| :: !Records(h, w, claim))
    && s.clock < LeaseOf(h[v - 1]).expiry && (v < |h| ==> !h[v].tombstone)
  }

  /** Exclusion: in every reachable state at most one claim is live, it is the last version's, and one
      process holds it. */
  lemma OneLiveClaim(t: LeaseTrace, i: nat, p: Pid, q: Pid, v: nat, w: nat)
    requires IsLeaseRun(t) && i < |t.states|
    ensures LeaseInv(t.states[i])
    ensures var s := t.states[i];
      p in s.held && q in s.held && Live(s, s.held[p].claim, v) && Live(s, s.held[q].claim, w) ==> p == q && v == w == |Versions(s)|
  {
    hide LeaseNext;
    RunKeepsLeaseInv(t, i);
    var s := t.states[i];
    if p in s.held && q in s.held && Live(s, s.held[p].claim, v) && Live(s, s.held[q].claim, w) {
      LiveIsLast(s, s.held[p].claim, v);
      LiveIsLast(s, s.held[q].claim, w);
      assert Held(s, p) && Held(s, q);
    }
  }

  lemma LiveIsLast(s: LeaseSystem, claim: Claim, v: nat)
    requires LeaseInv(s) && Live(s, claim, v)
    ensures v == |Versions(s)|
  {
    WhatFollows(s, v);
  }

  /** A version is followed by nothing, by a release, by a renewal, or by a claim it had expired for. */
  lemma WhatFollows(s: LeaseSystem, v: nat)
    requires LeaseInv(s) && 0 < v <= |Versions(s)| && IsLease(Versions(s)[v - 1])
    ensures var h := Versions(s); var r := LeaseOf(h[v - 1]);
      v == |h| || h[v].tombstone || Records(h, v + 1, r.claim) || r.expiry <= s.clock
  {
    var h := Versions(s);
    if v < |h| {
      assert Handover(h, v, s.led.log, s.owner, s.times);
    }
  }
}
