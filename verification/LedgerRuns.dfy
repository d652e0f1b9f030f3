/** Any number of writers on one key of the file ledger, each taking one directory read or one link at
    a time, failing or dying anywhere. */
module LedgerRuns {
  import opened Ledger

  type Pid = nat

  /** Where a call stands: made; past Begin's first look; its version written to a temporary file and
      ready to be linked after version base; or over. */
  datatype Pc =
    | Called(c: Call)
    | Checked(c: Call)
    | Ready(c: Call, base: nat, next: State)
    | Done(c: Call, o: Outcome)

  datatype Commit = Commit(pid: Pid, c: Call)

  /** The key's version files, the calls in progress, and the record of whose call wrote which file. */
  datatype System = System(files: map<nat, State>, procs: map<Pid, Pc>, log: seq<Commit>)

  datatype Action =
    | Invoke(p: Pid, c: Call)
    | Read(p: Pid)          // one pass of current: list the directory, read the highest version
    | Link(p: Pid)          // os.Link to the next version's name
    | LinkUnsynced(p: Pid)  // the link lands but syncing the directory fails
    | Fault(p: Pid)         // any other I/O error
    | Crash(p: Pid)

  /** The highest version a directory listing shows, 0 if none. */
  ghost predicate IsTop(files: map<nat, State>, v: nat) {
    (v == 0 || v in files) && forall n | n in files :: n <= v
  }

  function StateAt(files: map<nat, State>, v: nat): State {
    if v in files then files[v] else ABSENT
  }

  predicate FoundAt(files: map<nat, State>, v: nat) {
    v in files && !files[v].tombstone
  }

  /** What a call knows after reading version ver. */
  function AfterRead(pc: Pc, ver: nat, s: State, found: bool): Pc
    requires pc.Called? || pc.Checked?
  {
    if pc.Called? && pc.c.Begin? then
      if Repeats(s, found, pc.c.proposed) then Done(pc.c, Accepted(ver)) else Checked(pc.c)
    else
      var e := ErrorOn(pc.c, ver, s, found);
      if e.Some? then Done(pc.c, Failed(e.value)) else Ready(pc.c, ver, NextState(pc.c, s))
  }

  predicate Busy(s: System, p: Pid) {
    p in s.procs && !s.procs[p].Done?
  }

  ghost predicate Next(s: System, a: Action, s': System) {
    match a
    case Invoke(p, c) =>
      !Busy(s, p) && s' == s.(procs := s.procs[p := Called(c)])
    case Read(p) =>
      && Busy(s, p) && !s.procs[p].Ready?
      && exists v: nat | IsTop(s.files, v) ::
           s' == s.(procs := s.procs[p := AfterRead(s.procs[p], v, StateAt(s.files, v), FoundAt(s.files, v))])
    case Link(p) =>
      && Busy(s, p) && s.procs[p].Ready?
      && var pc := s.procs[p];
         s' == if pc.base + 1 in s.files then s.(procs := s.procs[p := Done(pc.c, Failed(Conflict))])
               else Linked(s, p, Committed(pc.base + 1))
    case LinkUnsynced(p) =>
      && Busy(s, p) && s.procs[p].Ready? && s.procs[p].base + 1 !in s.files
      && s' == Linked(s, p, Failed(Io))
    case Fault(p) =>
      Busy(s, p) && s' == s.(procs := s.procs[p := Done(s.procs[p].c, Failed(Io))])
    case Crash(p) =>
      p in s.procs && s' == s.(procs := s.procs - {p})
  }

  function Linked(s: System, p: Pid, o: Outcome): System
    requires p in s.procs && s.procs[p].Ready?
  {
    var pc := s.procs[p];
    System(s.files[pc.base + 1 := pc.next], s.procs[p := Done(pc.c, o)], s.log + [Commit(p, pc.c)])
  }

  const INIT := System(map[], map[], [])

  // The invariant.

  ghost predicate Contiguous(files: map<nat, State>) {
    forall n: nat :: n in files <==> 1 <= n <= |files|
  }

  /** The version files in order. */
  ghost function History(files: map<nat, State>): seq<State>
    requires Contiguous(files)
  {
    seq(|files|, i requires 0 <= i < |files| => files[i + 1])
  }

  function Calls(log: seq<Commit>): seq<Call> {
    seq(|log|, i requires 0 <= i < |log| => log[i].c)
  }

  ghost predicate Inv(s: System) {
    && Contiguous(s.files)
    && var h := History(s.files);
       Explains(Calls(s.log), h) && forall p | p in s.procs :: PcInv(s.procs[p], p, h, s.log)
  }

  ghost predicate PcInv(pc: Pc, p: Pid, h: seq<State>, log: seq<Commit>) {
    match pc
    case Ready(c, base, next) => base <= |h| && LegalWrite(c, h[..base], next)
    case Done(c, Accepted(n)) => 1 <= n <= |h| && c.Begin? && Repeats(h[n - 1], !h[n - 1].tombstone, c.proposed)
    case Done(c, Committed(n)) => 1 <= n <= |log| && log[n - 1] == Commit(p, c)
    case _ => true
  }

  lemma TopIsLast(files: map<nat, State>, v: nat)
    requires Contiguous(files) && IsTop(files, v)
    ensures v == |files| == |History(files)| && StateAt(files, v) == HeadOf(History(files)) && FoundAt(files, v) == Found(History(files))
  {
    if |files| > 0 {
      assert |files| in files;
    }
  }

  /** A link lands exactly when the version read is still the last: link is the compare-and-swap. */
  lemma LinkLandsIffCurrent(s: System, p: Pid)
    requires Inv(s) && Busy(s, p) && s.procs[p].Ready?
    ensures s.procs[p].base + 1 !in s.files <==> s.procs[p].base == |s.files|
  {
    assert PcInv(s.procs[p], p, History(s.files), s.log);
  }

  lemma LinkedKeepsInv(s: System, p: Pid, o: Outcome)
    requires Inv(s) && Busy(s, p) && s.procs[p].Ready? && s.procs[p].base + 1 !in s.files
    requires o == Committed(s.procs[p].base + 1) || o.Failed?
    ensures Inv(Linked(s, p, o))
    ensures History(Linked(s, p, o).files) == History(s.files) + [s.procs[p].next]
  {
    var pc, s' := s.procs[p], Linked(s, p, o);
    var h := History(s.files);
    assert PcInv(pc, p, h, s.log);
    LinkLandsIffCurrent(s, p);
    assert h[..pc.base] == h;
    var h' := History(s'.files);
    assert h' == h + [pc.next];
    assert Calls(s'.log) == Calls(s.log) + [pc.c];
    ExplainsSnoc(Calls(s.log), h, pc.c, pc.next);
    forall q | q in s'.procs && q != p ensures PcInv(s'.procs[q], q, h', s'.log) {
      PcInvGrows(s.procs[q], q, h, s.log, h', s'.log);
    }
    hide Explains, LegalWrite, NextState, ErrorOn;
    assert PcInv(s'.procs[p], p, h', s'.log);
  }

  /** What a call knows stays true of a longer history. */
  lemma PcInvGrows(pc: Pc, p: Pid, h: seq<State>, log: seq<Commit>, h': seq<State>, log': seq<Commit>)
    requires PcInv(pc, p, h, log) && h <= h' && log <= log'
    ensures PcInv(pc, p, h', log')
  {
    if pc.Ready? {
      assert h'[..pc.base] == h[..pc.base];
    }
  }

  lemma PcKeepsInv(s: System, p: Pid, pc: Pc)
    requires Inv(s) && PcInv(pc, p, History(s.files), s.log)
    ensures Inv(s.(procs := s.procs[p := pc]))
  {}

  lemma ReadKeepsPcInv(s: System, p: Pid, v: nat)
    requires Inv(s) && Busy(s, p) && !s.procs[p].Ready? && IsTop(s.files, v)
    ensures PcInv(AfterRead(s.procs[p], v, StateAt(s.files, v), FoundAt(s.files, v)), p, History(s.files), s.log)
  {
    TopIsLast(s.files, v);
    assert History(s.files)[..v] == History(s.files);
  }

  lemma NextKeepsInv(s: System, a: Action, s': System)
    requires Inv(s) && Next(s, a, s')
    ensures Inv(s')
    ensures History(s.files) <= History(s'.files)
  {
    hide Explains, AfterRead, NextState, History, Contiguous;
    match a
    case Invoke(p, c) =>
      PcKeepsInv(s, p, Called(c));
    case Read(p) =>
      var v: nat :| IsTop(s.files, v) &&
        s' == s.(procs := s.procs[p := AfterRead(s.procs[p], v, StateAt(s.files, v), FoundAt(s.files, v))]);
      ReadKeepsPcInv(s, p, v);
      PcKeepsInv(s, p, AfterRead(s.procs[p], v, StateAt(s.files, v), FoundAt(s.files, v)));
    case Link(p) =>
      if s.procs[p].base + 1 !in s.files {
        LinkedKeepsInv(s, p, Committed(s.procs[p].base + 1));
      } else {
        PcKeepsInv(s, p, Done(s.procs[p].c, Failed(Conflict)));
      }
    case LinkUnsynced(p) =>
      LinkedKeepsInv(s, p, Failed(Io));
    case Fault(p) =>
      PcKeepsInv(s, p, Done(s.procs[p].c, Failed(Io)));
    case Crash(p) =>
  }

  // The ledger as its callers use it, one call at a time.

  /** What a process that reads the entry finds. */
  ghost predicate Sees(files: map<nat, State>, ver: nat, st: State, found: bool) {
    IsTop(files, ver) && st == StateAt(files, ver) && found == FoundAt(files, ver)
  }

  function Invoked(led: System, p: Pid, c: Call): System {
    led.(procs := led.procs[p := Called(c)])
  }

  lemma SeesLast(led: System, ver: nat, st: State, found: bool)
    requires Inv(led) && Sees(led.files, ver, st, found)
    ensures var h := History(led.files);
      ver == |h| && st == HeadOf(h) && found == Found(h)
  {
    TopIsLast(led.files, ver);
  }

  lemma InvokeKeepsInv(led: System, p: Pid, c: Call)
    requires Inv(led) && !Busy(led, p)
    ensures Inv(Invoked(led, p, c)) && Invoked(led, p, c).files == led.files
  {
    PcKeepsInv(led, p, Called(c));
  }

  lemma DropKeepsInv(led: System, p: Pid)
    requires Inv(led)
    ensures Inv(led.(procs := led.procs - {p}))
  {}

  lemma HistoryLength(s: System)
    requires Inv(s)
    ensures |History(s.files)| == |s.files| == |s.log|
  {
  }

  // A call nothing comes between.

  /** Nothing stops a process's call, and no other process links. */
  ghost predicate Spared(s: System, a: Action, s': System, p: Pid) {
    match a
    case Link(q) => q == p || s'.files == s.files
    case LinkUnsynced(q) => false
    case Fault(q) => q != p
    case Crash(q) => q != p
    case _ => true
  }

  /** A call made on a history has come as far as the sequential ledger would take it. */
  ghost predicate OnTrack(s: System, p: Pid, c: Call, h: seq<State>) {
    && p in s.procs && s.procs[p].c == c && Contiguous(s.files)
    && match s.procs[p]
       case Called(_) => History(s.files) == h
       case Checked(_) => History(s.files) == h && c.Begin? && !Repeats(HeadOf(h), Found(h), c.proposed)
       case Ready(_, base, next) => History(s.files) == h && base == |h| && Run(h, c) == (h + [next], Committed(|h| + 1))
       case Done(_, o) => History(s.files) == Run(h, c).0 && o == Run(h, c).1
  }

  /** A step that spares a process and is another's links nothing. */
  lemma SparedElsewhere(s: System, a: Action, s': System, p: Pid)
    requires Next(s, a, s') && Spared(s, a, s', p) && a.p != p
    ensures s'.files == s.files
  {
  }

  lemma SparedStep(s: System, a: Action, s': System, p: Pid, c: Call, h: seq<State>)
    requires Inv(s) && Next(s, a, s') && Spared(s, a, s', p) && OnTrack(s, p, c, h)
    requires a.Invoke? ==> a.p != p
    ensures OnTrack(s', p, c, h)
  {
    hide Explains, PcInv;
    NextKeepsInv(s, a, s');
    match a
    case Read(q) =>
      var v: nat :| IsTop(s.files, v) &&
        s' == s.(procs := s.procs[q := AfterRead(s.procs[q], v, StateAt(s.files, v), FoundAt(s.files, v))]);
      TopIsLast(s.files, v);
    case Link(q) =>
      if q == p {
        LinkedIsNext(s, p);
        LinkLandsIffCurrent(s, p);
      }
    case _ =>
  }

  lemma LinkedIsNext(s: System, p: Pid)
    requires Inv(s) && Busy(s, p) && s.procs[p].Ready? && s.procs[p].base == |s.files|
    ensures s.procs[p].base + 1 !in s.files
    ensures var s' := Linked(s, p, Committed(s.procs[p].base + 1));
            Contiguous(s'.files) && History(s'.files) == History(s.files) + [s.procs[p].next]
  {
    LinkedKeepsInv(s, p, Committed(s.procs[p].base + 1));
  }

  // Whole runs.

  datatype Trace = Trace(states: seq<System>, actions: seq<Action>)

  ghost predicate IsRun(t: Trace) {
    && |t.states| == |t.actions| + 1 && t.states[0] == INIT
    && forall i | 0 <= i < |t.actions| :: Next(t.states[i], t.actions[i], t.states[i + 1])
  }

  lemma {:induction false} RunKeepsInv(t: Trace, i: nat)
    requires IsRun(t) && i < |t.states|
    ensures Inv(t.states[i])
  {
    if i > 0 {
      RunKeepsInv(t, i - 1);
      NextKeepsInv(t.states[i - 1], t.actions[i - 1], t.states[i]);
    }
  }

  /** In every interleaving, at every step, the version files are exactly 1..n, and each later
      directory extends each earlier one, so a version once there never changes. */
  lemma {:induction false} VersionsAreWrittenOnce(t: Trace, i: nat, j: nat)
    requires IsRun(t) && i <= j < |t.states|
    ensures Contiguous(t.states[i].files) && Contiguous(t.states[j].files)
    ensures History(t.states[i].files) <= History(t.states[j].files)
    decreases j
  {
    hide History, Next;
    RunKeepsInv(t, i);
    RunKeepsInv(t, j);
    if i < j {
      VersionsAreWrittenOnce(t, i, j - 1);
      RunKeepsInv(t, j - 1);
      StepExtends(t, j);
    }
  }

  lemma StepExtends(t: Trace, j: nat)
    requires IsRun(t) && 0 < j < |t.states| && Inv(t.states[j - 1])
    ensures Inv(t.states[j]) && History(t.states[j - 1].files) <= History(t.states[j].files)
  {
    NextKeepsInv(t.states[j - 1], t.actions[j - 1], t.states[j]);
  }

  /** Of the writers presenting one version at most one commits, and that version is the one its write
      follows; between two writers that asserted absence a Forget commits, just before the second. */
  lemma OneWriterPerVersion(t: Trace, k: nat, i: nat, j: nat)
    requires IsRun(t) && k < |t.states| && i < j < |t.states[k].log|
    ensures var log := t.states[k].log;
      && (log[i].c.v.At? ==> log[i].c.v.n == i && log[j].c.v != log[i].c.v)
      && (log[i].c.v == NoVersion && log[j].c.v == NoVersion ==> i < j - 1 && log[j - 1].c.Forget?)
  {
    RunKeepsInv(t, k);
    var s := t.states[k];
    OneWriter(Calls(s.log), History(s.files), i, j);
  }

  lemma OneWriter(calls: seq<Call>, h: seq<State>, i: nat, j: nat)
    requires Explains(calls, h) && i < j < |h|
    ensures calls[i].v.At? ==> calls[i].v.n == i && calls[j].v != calls[i].v
    ensures calls[i].v == NoVersion && calls[j].v == NoVersion ==> i < j - 1 && calls[j - 1].Forget?
  {
    assert LegalWrite(calls[i], h[..i], h[i]) && LegalWrite(calls[j], h[..j], h[j]);
    if calls[i].v == NoVersion && calls[j].v == NoVersion {
      assert LegalWrite(calls[j - 1], h[..j - 1], h[j - 1]);
      assert HeadOf(h[..j]) == h[j - 1];
    }
  }

  predicate Reported(s: System, p: Pid) {
    p in s.procs && s.procs[p].Done? && s.procs[p].o.Committed?
  }

  /** Every reported commit is in the files, under the version reported, and no two reports share one. */
  lemma ReportsAreCommits(t: Trace, k: nat, p: Pid, q: Pid)
    requires IsRun(t) && k < |t.states|
    requires Reported(t.states[k], p) && Reported(t.states[k], q)
    ensures var s := t.states[k]; var n := s.procs[p].o.n;
      && n in s.files && n > 0 && s.files[n] == NextState(s.procs[p].c, StateAt(s.files, n - 1))
      && (s.procs[q].o.n == n ==> p == q)
  {
    RunKeepsInv(t, k);
    var s := t.states[k];
    var h := History(s.files);
    assert PcInv(s.procs[p], p, h, s.log) && PcInv(s.procs[q], q, h, s.log);
    var n := s.procs[p].o.n;
    assert LegalWrite(Calls(s.log)[n - 1], h[..n - 1], h[n - 1]);
  }

  /** In every reachable directory the plan of the current entry is the last intent resolved since the
      entry was last forgotten. */
  lemma PlanSurvivesInterleaving(t: Trace, k: nat)
    requires IsRun(t) && k < |t.states| && t.states[k].files != map[]
    ensures var s := t.states[k];
      Contiguous(s.files) && HeadOf(History(s.files)).plan == LastResolved(Calls(s.log))
  {
    RunKeepsInv(t, k);
    PlanIsLastResolved(Calls(t.states[k].log), History(t.states[k].files));
  }

  /** Between its making and its end no action stops a call or links for another process. */
  ghost predicate SparedFrom(t: Trace, p: Pid, i: nat, j: nat)
    requires i <= j < |t.states| == |t.actions| + 1
  {
    forall k | i <= k < j :: Spared(t.states[k], t.actions[k], t.states[k + 1], p) && (t.actions[k].Invoke? ==> t.actions[k].p != p)
  }

  lemma {:induction false} SparedStaysOnTrack(t: Trace, p: Pid, c: Call, i: nat, j: nat, h: seq<State>)
    requires IsRun(t) && i <= j < |t.states| && SparedFrom(t, p, i, j) && OnTrack(t.states[i], p, c, h)
    ensures OnTrack(t.states[j], p, c, h)
    decreases j
  {
    hide Next, OnTrack, Spared;
    if i < j {
      SparedStaysOnTrack(t, p, c, i, j - 1, h);
      RunKeepsInv(t, j - 1);
      SparedStep(t.states[j - 1], t.actions[j - 1], t.states[j], p, c, h);
    }
  }

  /** Taken apart into reads and links, a call that nothing comes between does what the sequential ledger
      does, to the versions and in its answer alike. */
  lemma SparedCallIsSequential(t: Trace, p: Pid, c: Call, i: nat, j: nat)
    requires IsRun(t) && i < j < |t.states| && t.actions[i] == Invoke(p, c) && SparedFrom(t, p, i + 1, j)
    ensures Contiguous(t.states[i].files) && Contiguous(t.states[j].files)
    ensures p in t.states[j].procs
    ensures t.states[j].procs[p].Done? ==>
              (History(t.states[j].files), t.states[j].procs[p].o) == Run(History(t.states[i].files), c)
  {
    RunKeepsInv(t, i);
    assert Next(t.states[i], t.actions[i], t.states[i + 1]);
    SparedStaysOnTrack(t, p, c, i + 1, j, History(t.states[i].files));
  }
}
