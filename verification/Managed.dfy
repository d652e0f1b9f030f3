/** The write-ahead order of a managed mutation: durable.open and durableRecords.Next and commit of
    pkg/omnisdk/managed.go, for one key. Any number of mutations of the key run at once, each ledger
    read, link, journal append and request a step of its own, and any of them fails or dies anywhere. */
module Managed {
  import opened Ledger
  import opened LedgerRuns
  import opened Wrappers

  /** What a mutation asks for: a delete, or the intent it records before it is sent. */
  datatype Job = Job(delete: bool, intent: Bytes)

  /** A synced journal record of the key: whose, and the plan it says the request replaces. */
  datatype JournalRecord = JournalRecord(worker: Pid, delete: bool, prior: Bytes)

  /** A request on the wire. seen is the version Get read, recorded the pending version that holds the
      intent, own whether this mutation wrote it, journaled how many records the journal held, and head how
      many versions the entry had. */
  datatype Request = Request(worker: Pid, job: Job, prior: Bytes, seen: nat, recorded: nat, own: bool, journaled: nat, head: nat)

  datatype WorkerPc =
    | Opening(job: Job)
    | Beginning(job: Job, v: Version, prior: Bytes, seen: nat)
    | Recorded(job: Job, v: Version, prior: Bytes, seen: nat, n: nat, own: bool)
    | Journaled(job: Job, v: Version, prior: Bytes, seen: nat, n: nat, own: bool)
    | Sent(job: Job, v: Version)
    | Closing(job: Job)       // the Resolve or Forget after the answer is in progress
    | NotAttempted(job: Job)
    | Over(job: Job)

  datatype Answer = Success(identity: Bytes, about: Option<Bytes>) | Rejected | Unknown

  datatype ManagedSystem = ManagedSystem(
    led: System, workers: map<Pid, WorkerPc>, started: set<Pid>, journal: seq<JournalRecord>, requests: seq<Request>)

  datatype ManagedAction =
    | Start(p: Pid, job: Job)
    | Get(p: Pid)
    | BeginReturns(p: Pid)
    | Append(p: Pid, ok: bool, landed: bool)
    | Send(p: Pid)
    | Answered(p: Pid, answer: Answer)
    | CloseReturns(p: Pid)
    | LedgerStep(a: Action)
    | Die(p: Pid)

  const MANAGED_INIT := ManagedSystem(INIT, map[], {}, [], [])

  /** After Get: a delete goes straight to the journal, anything else begins its intent first. */
  function Opened(s: ManagedSystem, p: Pid, job: Job, ver: nat, st: State, found: bool): ManagedSystem {
    var v := if found then At(ver) else NoVersion;
    var prior := if found then st.plan else [];
    if job.delete then s.(workers := s.workers[p := Recorded(job, v, prior, ver, 0, false)])
    else s.(led := Invoked(s.led, p, Begin(job.intent, v)), workers := s.workers[p := Beginning(job, v, prior, ver)])
  }

  /** After the answer: a success is committed; a create the provider refused is withdrawn; anything
      else is left as it stands. */
  function Closed(s: ManagedSystem, p: Pid, job: Job, v: Version, answer: Answer, ver: nat, found: bool): ManagedSystem {
    match answer
    case Success(identity, about) =>
      if !found then s.(workers := s.workers[p := Over(job)])
      else
        var c := if job.delete then Forget(At(ver)) else Resolve(identity, about, At(ver));
        s.(led := Invoked(s.led, p, c), workers := s.workers[p := Closing(job)])
    case Rejected =>
      if v.At? || !found then s.(workers := s.workers[p := Over(job)])
      else s.(led := Invoked(s.led, p, Forget(At(ver))), workers := s.workers[p := Closing(job)])
    case Unknown =>
      s.(workers := s.workers[p := Over(job)])
  }

  ghost predicate ManagedNext(s: ManagedSystem, a: ManagedAction, s': ManagedSystem) {
    match a
    case Start(p, job) =>
      p !in s.started && p !in s.workers && p !in s.led.procs
      && s' == s.(workers := s.workers[p := Opening(job)], started := s.started + {p})
    case Get(p) =>
      && p in s.workers && s.workers[p].Opening?
      && exists ver: nat, st, found | Sees(s.led.files, ver, st, found) ::
           s' == Opened(s, p, s.workers[p].job, ver, st, found)
    case BeginReturns(p) =>
      && p in s.workers && s.workers[p].Beginning? && p in s.led.procs && s.led.procs[p].Done?
      && var pc := s.workers[p]; var o := s.led.procs[p].o;
         s' == s.(workers := s.workers[p := if o.Failed? then NotAttempted(pc.job)
                                            else Recorded(pc.job, pc.v, pc.prior, pc.seen, o.n, o.Committed?)])
    case Append(p, ok, landed) =>
      && p in s.workers && s.workers[p].Recorded? && (ok ==> landed)
      && var pc := s.workers[p];
         s' == s.(workers := s.workers[p := if ok then Journaled(pc.job, pc.v, pc.prior, pc.seen, pc.n, pc.own) else NotAttempted(pc.job)],
                  journal := if landed then s.journal + [JournalRecord(p, pc.job.delete, pc.prior)] else s.journal)
    case Send(p) =>
      && p in s.workers && s.workers[p].Journaled?
      && var pc := s.workers[p];
         s' == s.(workers := s.workers[p := Sent(pc.job, pc.v)],
                  requests := s.requests + [Request(p, pc.job, pc.prior, pc.seen, pc.n, pc.own, |s.journal|, |s.led.files|)])
    case Answered(p, answer) =>
      && p in s.workers && s.workers[p].Sent?
      && exists ver: nat, st, found | Sees(s.led.files, ver, st, found) ::
           s' == Closed(s, p, s.workers[p].job, s.workers[p].v, answer, ver, found)
    case CloseReturns(p) =>
      && p in s.workers && s.workers[p].Closing? && p in s.led.procs && s.led.procs[p].Done?
      && s' == s.(workers := s.workers[p := Over(s.workers[p].job)])
    case LedgerStep(a) =>
      !a.Invoke? && !a.Crash? && Next(s.led, a, s'.led) && s' == s.(led := s'.led)
    case Die(p) =>
      s' == s.(led := s.led.(procs := s.led.procs - {p}), workers := s.workers - {p})
  }

  // What is durable before a request.

  /** The plan a history shows to Get. */
  function PlanSeen(h: seq<State>): Bytes {
    if Found(h) then HeadOf(h).plan else []
  }

  /** Version n is a pending entry for the intent. */
  predicate HoldsIntent(h: seq<State>, n: nat, intent: Bytes) {
    0 < n <= |h| && !h[n - 1].tombstone && h[n - 1].phase == Pending && h[n - 1].proposed == intent
  }

  /** What the recorded version says of the plan: where this mutation wrote it, or had already seen it,
      its plan is the prior. */
  predicate PriorIsPlan(h: seq<State>, seen: nat, n: nat, own: bool, prior: Bytes) {
    0 < n <= |h| && (own || n == seen ==> h[n - 1].plan == prior)
  }

  ghost predicate Saw(h: seq<State>, v: Version, prior: Bytes, seen: nat) {
    seen <= |h| && prior == PlanSeen(h[..seen]) && v == (if Found(h[..seen]) then At(seen) else NoVersion)
  }

  ghost predicate IntentRecorded(h: seq<State>, job: Job, seen: nat, n: nat, own: bool, prior: Bytes) {
    job.delete || (seen <= n && HoldsIntent(h, n, job.intent) && PriorIsPlan(h, seen, n, own, prior))
  }

  ghost predicate RequestInv(r: Request, h: seq<State>, journal: seq<JournalRecord>) {
    && r.journaled <= |journal|
    && (exists j | 0 <= j < r.journaled :: journal[j] == JournalRecord(r.worker, r.job.delete, r.prior))
    && r.seen <= r.head <= |h| && (!r.job.delete ==> r.recorded <= r.head) && r.prior == PlanSeen(h[..r.seen])
    && IntentRecorded(h, r.job, r.seen, r.recorded, r.own, r.prior)
  }

  predicate SentNothing(requests: seq<Request>, p: Pid) {
    forall k | 0 <= k < |requests| :: requests[k].worker != p
  }

  /** A call that has read the entry since version seen was read. */
  predicate ReadPast(pc: Pc, seen: nat) {
    match pc
    case Ready(_, base, _) => seen <= base
    case Done(_, Accepted(n)) => seen <= n
    case Done(_, Committed(n)) => seen < n
    case _ => true
  }

  ghost predicate WorkerInv(s: ManagedSystem, p: Pid, h: seq<State>)
    requires p in s.workers
  {
    match s.workers[p]
    case Opening(_) => !Busy(s.led, p) && SentNothing(s.requests, p)
    case Beginning(job, v, prior, seen) =>
      && p in s.led.procs && s.led.procs[p].c == Begin(job.intent, v) && !job.delete && ReadPast(s.led.procs[p], seen)
      && Saw(h, v, prior, seen) && SentNothing(s.requests, p)
    case Recorded(job, v, prior, seen, n, own) =>
      && !Busy(s.led, p) && Saw(h, v, prior, seen) && IntentRecorded(h, job, seen, n, own, prior) && SentNothing(s.requests, p)
    case Journaled(job, v, prior, seen, n, own) =>
      && !Busy(s.led, p) && Saw(h, v, prior, seen) && IntentRecorded(h, job, seen, n, own, prior) && SentNothing(s.requests, p)
      && exists j | 0 <= j < |s.journal| :: s.journal[j] == JournalRecord(p, job.delete, prior)
    case Sent(_, _) => !Busy(s.led, p)
    case Closing(_) => p in s.led.procs
    case NotAttempted(_) => !Busy(s.led, p) && SentNothing(s.requests, p)
    case Over(_) => !Busy(s.led, p)
  }

  ghost predicate RequestsInv(s: ManagedSystem, h: seq<State>) {
    && (forall k | 0 <= k < |s.requests| :: RequestInv(s.requests[k], h, s.journal) && s.requests[k].worker in s.started)
    && (forall i, j | 0 <= i < j < |s.requests| :: s.requests[i].worker != s.requests[j].worker)
  }

  ghost predicate ManagedInv(s: ManagedSystem) {
    && Inv(s.led)
    && var h := History(s.led.files);
       && RequestsInv(s, h)
       && (forall p | p in s.workers :: p in s.started && WorkerInv(s, p, h))
       && (forall p | p in s.led.procs && Busy(s.led, p) :: p in s.workers)
  }

  // Growth of the history and of the journal takes nothing back.

  lemma RequestInvGrows(r: Request, h: seq<State>, journal: seq<JournalRecord>, h': seq<State>, journal': seq<JournalRecord>)
    requires RequestInv(r, h, journal) && h <= h' && journal <= journal'
    ensures RequestInv(r, h', journal')
  {
    assert h'[..r.seen] == h[..r.seen];
    var j :| 0 <= j < r.journaled && journal[j] == JournalRecord(r.worker, r.job.delete, r.prior);
    assert journal'[j] == journal[j];
  }

  ghost predicate WorkerSame(s: ManagedSystem, s': ManagedSystem, q: Pid) {
    && q in s.workers && q in s'.workers && s'.workers[q] == s.workers[q]
    && (q in s'.led.procs <==> q in s.led.procs)
    && (q in s.led.procs ==> s'.led.procs[q] == s.led.procs[q])
    && (SentNothing(s.requests, q) ==> SentNothing(s'.requests, q))
    && s.journal <= s'.journal
  }

  lemma WorkerInvGrows(s: ManagedSystem, s': ManagedSystem, q: Pid, h: seq<State>, h': seq<State>)
    requires WorkerSame(s, s', q) && WorkerInv(s, q, h) && h <= h'
    ensures WorkerInv(s', q, h')
  {
    match s.workers[q]
    case Beginning(_, _, _, seen) => assert h'[..seen] == h[..seen];
    case Recorded(_, _, _, seen, _, _) => assert h'[..seen] == h[..seen];
    case Journaled(job, _, prior, seen, _, _) =>
      assert h'[..seen] == h[..seen];
      var j :| 0 <= j < |s.journal| && s.journal[j] == JournalRecord(q, job.delete, prior);
      assert s'.journal[j] == s.journal[j];
    case _ =>
  }

  /** A step of one worker that sends nothing. */
  lemma QuietStepKeepsInv(s: ManagedSystem, s': ManagedSystem, p: Pid)
    requires ManagedInv(s) && Inv(s'.led) && History(s.led.files) <= History(s'.led.files)
    requires s'.requests == s.requests && s.journal <= s'.journal && s.started <= s'.started
    requires forall q | q in s'.workers && q != p :: WorkerSame(s, s', q)
    requires p in s'.workers ==> p in s'.started && WorkerInv(s', p, History(s'.led.files))
    requires forall q | q in s'.led.procs && Busy(s'.led, q) :: q in s'.workers
    ensures ManagedInv(s')
  {
    var h, h' := History(s.led.files), History(s'.led.files);
    forall k | 0 <= k < |s'.requests| ensures RequestInv(s'.requests[k], h', s'.journal) {
      RequestInvGrows(s.requests[k], h, s.journal, h', s'.journal);
    }
    forall q | q in s'.workers ensures q in s'.started && WorkerInv(s', q, h') {
      if q != p {
        assert WorkerSame(s, s', q);
        WorkerInvGrows(s, s', q, h, h');
      }
    }
  }

  // Begin.

  lemma TombstonesAreEmpty(calls: seq<Call>, h: seq<State>, n: nat)
    requires Explains(calls, h) && n <= |h|
    ensures !Found(h[..n]) ==> HeadOf(h[..n]).plan == []
  {
    if n > 0 {
      assert LegalWrite(calls[n - 1], h[..n - 1], h[n - 1]);
      assert HeadOf(h[..n]) == h[n - 1];
    }
  }

  /** A Begin that returned without error has its intent pending, and where it wrote it, or had already
      seen it pending, on the plan that Get read. */
  lemma BegunIntentIsRecorded(led: System, p: Pid, job: Job, v: Version, prior: Bytes, seen: nat)
    requires Inv(led) && p in led.procs && led.procs[p].Done? && led.procs[p].c == Begin(job.intent, v)
    requires !led.procs[p].o.Failed? && Saw(History(led.files), v, prior, seen) && ReadPast(led.procs[p], seen)
    ensures var o := led.procs[p].o; IntentRecorded(History(led.files), job, seen, o.n, o.Committed?, prior)
  {
    hide Explains, LegalWrite, Saw;
    var h, o := History(led.files), led.procs[p].o;
    assert PcInv(led.procs[p], p, h, led.log);
    if o.Committed? {
      assert Calls(led.log)[o.n - 1] == Begin(job.intent, v) && |led.log| == |h| by { HistoryLength(led); }
      CommittedOnSeen(Calls(led.log), h, job.intent, v, prior, seen, o.n);
    } else if o.n == seen {
      SeenPending(h, v, prior, seen);
    }
  }

  lemma CommittedOnSeen(calls: seq<Call>, h: seq<State>, intent: Bytes, v: Version, prior: Bytes, seen: nat, n: nat)
    requires Explains(calls, h) && |calls| == |h| && Saw(h, v, prior, seen)
    requires seen < n <= |h| && calls[n - 1] == Begin(intent, v)
    ensures HoldsIntent(h, n, intent) && h[n - 1].plan == prior
  {
    TombstonesAreEmpty(calls, h, seen);
    TombstonesAreEmpty(calls, h, n - 1);
    assert LegalWrite(calls[n - 1], h[..n - 1], h[n - 1]);
  }

  lemma SeenPending(h: seq<State>, v: Version, prior: Bytes, seen: nat)
    requires Saw(h, v, prior, seen) && 0 < seen <= |h| && !h[seen - 1].tombstone
    ensures h[seen - 1].plan == prior
  {
    assert HeadOf(h[..seen]) == h[seen - 1];
  }

  // Each action.

  lemma GetKeepsInv(s: ManagedSystem, p: Pid, s': ManagedSystem)
    requires ManagedInv(s) && ManagedNext(s, Get(p), s')
    ensures ManagedInv(s')
  {
    hide RequestsInv, History, Explains, PcInv;
    var h := History(s.led.files);
    assert WorkerInv(s, p, h);
    var job := s.workers[p].job;
    var ver: nat, st, found :| Sees(s.led.files, ver, st, found) && s' == Opened(s, p, job, ver, st, found);
    TopIsLast(s.led.files, ver);
    assert h[..ver] == h;
    InvokeKeepsInv(s.led, p, Begin(job.intent, if found then At(ver) else NoVersion));
    assert forall q | q in s'.workers && q != p :: WorkerSame(s, s', q);
    QuietStepKeepsInv(s, s', p);
  }

  lemma BeginReturnsKeepsInv(s: ManagedSystem, p: Pid, s': ManagedSystem)
    requires ManagedInv(s) && ManagedNext(s, BeginReturns(p), s')
    ensures ManagedInv(s')
  {
    hide RequestsInv, History, Explains, PcInv;
    var h := History(s.led.files);
    assert WorkerInv(s, p, h);
    var pc := s.workers[p];
    if !s.led.procs[p].o.Failed? {
      BegunIntentIsRecorded(s.led, p, pc.job, pc.v, pc.prior, pc.seen);
    }
    assert forall q | q in s'.workers && q != p :: WorkerSame(s, s', q);
    QuietStepKeepsInv(s, s', p);
  }

  lemma AppendKeepsInv(s: ManagedSystem, p: Pid, ok: bool, landed: bool, s': ManagedSystem)
    requires ManagedInv(s) && ManagedNext(s, Append(p, ok, landed), s')
    ensures ManagedInv(s')
  {
    hide RequestsInv, History, Explains, PcInv;
    assert WorkerInv(s, p, History(s.led.files));
    if ok {
      assert s'.journal[|s.journal|] == JournalRecord(p, s.workers[p].job.delete, s.workers[p].prior);
    }
    assert forall q | q in s'.workers && q != p :: WorkerSame(s, s', q);
    QuietStepKeepsInv(s, s', p);
  }

  lemma SendKeepsInv(s: ManagedSystem, p: Pid, s': ManagedSystem)
    requires ManagedInv(s) && ManagedNext(s, Send(p), s')
    ensures ManagedInv(s')
  {
    hide Explains, PcInv, PriorIsPlan;
    var h := History(s.led.files);
    assert |h| == |s.led.files|;
    hide History;
    assert WorkerInv(s, p, h);
    var r := s'.requests[|s.requests|];
    assert RequestInv(r, h, s'.journal);
    forall q | q in s'.workers ensures q in s'.started && WorkerInv(s', q, h) {
      assert WorkerInv(s, q, h);
      if q != p {
        assert WorkerSame(s, s', q);
        WorkerInvGrows(s, s', q, h, h);
      }
    }
  }

  lemma OverKeepsInv(s: ManagedSystem, p: Pid)
    requires ManagedInv(s) && p in s.workers && s.workers[p].Sent?
    ensures ManagedInv(s.(workers := s.workers[p := Over(s.workers[p].job)]))
  {
    hide RequestsInv, History, Explains, PcInv, IntentRecorded, Saw;
    var s' := s.(workers := s.workers[p := Over(s.workers[p].job)]);
    assert WorkerInv(s, p, History(s.led.files));
    assert forall q | q in s'.workers && q != p :: WorkerSame(s, s', q);
    QuietStepKeepsInv(s, s', p);
  }

  lemma ClosingKeepsInv(s: ManagedSystem, p: Pid, c: Call)
    requires ManagedInv(s) && p in s.workers && s.workers[p].Sent?
    ensures ManagedInv(s.(led := Invoked(s.led, p, c), workers := s.workers[p := Closing(s.workers[p].job)]))
  {
    hide RequestsInv, History, Explains, PcInv, IntentRecorded, Saw;
    var s' := s.(led := Invoked(s.led, p, c), workers := s.workers[p := Closing(s.workers[p].job)]);
    assert WorkerInv(s, p, History(s.led.files));
    InvokeKeepsInv(s.led, p, c);
    assert forall q | q in s'.workers && q != p :: WorkerSame(s, s', q);
    QuietStepKeepsInv(s, s', p);
  }

  lemma AnsweredKeepsInv(s: ManagedSystem, p: Pid, answer: Answer, s': ManagedSystem)
    requires ManagedInv(s) && ManagedNext(s, Answered(p, answer), s')
    ensures ManagedInv(s')
  {
    hide ManagedInv, Sees;
    var pc := s.workers[p];
    var ver: nat, st, found :| Sees(s.led.files, ver, st, found) && s' == Closed(s, p, pc.job, pc.v, answer, ver, found);
    OverKeepsInv(s, p);
    ClosingKeepsInv(s, p, Forget(At(ver)));
    if answer.Success? {
      ClosingKeepsInv(s, p, Resolve(answer.identity, answer.about, At(ver)));
    }
  }

  lemma ManagedLedgerStepKeepsInv(s: ManagedSystem, a: Action, s': ManagedSystem)
    requires ManagedInv(s) && ManagedNext(s, LedgerStep(a), s')
    ensures ManagedInv(s')
  {
    hide RequestsInv, History, Explains, PcInv;
    NextKeepsInv(s.led, a, s'.led);
    LedgerStepKeepsCalls(s.led, a, s'.led);
    StepperKeepsInv(s, a, s');
    assert forall q | q in s'.workers && q != a.p :: WorkerSame(s, s', q);
    QuietStepKeepsInv(s, s', a.p);
  }

  /** The worker whose ledger call takes a step is beginning or closing. */
  lemma StepperKeepsInv(s: ManagedSystem, a: Action, s': ManagedSystem)
    requires ManagedInv(s) && ManagedNext(s, LedgerStep(a), s')
    ensures Inv(s'.led)
    ensures a.p in s.workers ==> WorkerInv(s', a.p, History(s'.led.files))
  {
    hide RequestsInv, Explains, PcInv;
    NextKeepsInv(s.led, a, s'.led);
    LedgerStepKeepsCalls(s.led, a, s'.led);
    var p := a.p;
    var h, h' := History(s.led.files), History(s'.led.files);
    if p in s.workers {
      assert WorkerInv(s, p, h);
      if s.workers[p].Beginning? {
        var seen := s.workers[p].seen;
        assert h'[..seen] == h[..seen];
        StepReadsPast(s.led, a, s'.led, seen);
      }
    }
  }

  lemma StepReadsPast(led: System, a: Action, led': System, seen: nat)
    requires Inv(led) && Next(led, a, led') && !a.Invoke? && !a.Crash?
    requires a.p in led.procs && ReadPast(led.procs[a.p], seen) && seen <= |History(led.files)|
    ensures a.p in led'.procs && ReadPast(led'.procs[a.p], seen)
  {
    hide Explains, PcInv, NextState, ErrorOn;
    if a.Read? {
      var v: nat :| IsTop(led.files, v) &&
        led' == led.(procs := led.procs[a.p := AfterRead(led.procs[a.p], v, StateAt(led.files, v), FoundAt(led.files, v))]);
      TopIsLast(led.files, v);
    }
  }

  lemma LedgerStepKeepsCalls(led: System, a: Action, led': System)
    requires Next(led, a, led') && !a.Invoke? && !a.Crash?
    ensures Busy(led, a.p)
    ensures forall q :: q in led'.procs <==> q in led.procs
    ensures forall q | q in led.procs && q != a.p :: led'.procs[q] == led.procs[q]
    ensures led'.procs[a.p].c == led.procs[a.p].c
  {}

  lemma StartKeepsInv(s: ManagedSystem, p: Pid, job: Job, s': ManagedSystem)
    requires ManagedInv(s) && ManagedNext(s, Start(p, job), s')
    ensures ManagedInv(s')
  {
    hide History, Explains, PcInv, RequestsInv;
    NeverStartedSentNothing(s, p);
    QuietStepKeepsInv(s, s', p);
  }

  lemma NeverStartedSentNothing(s: ManagedSystem, p: Pid)
    requires ManagedInv(s) && p !in s.started
    ensures SentNothing(s.requests, p)
  {}

  lemma CloseReturnsKeepsInv(s: ManagedSystem, p: Pid, s': ManagedSystem)
    requires ManagedInv(s) && ManagedNext(s, CloseReturns(p), s')
    ensures ManagedInv(s')
  {
    hide History, Explains, PcInv, RequestsInv;
    QuietStepKeepsInv(s, s', p);
  }

  lemma DieKeepsInv(s: ManagedSystem, p: Pid, s': ManagedSystem)
    requires ManagedInv(s) && ManagedNext(s, Die(p), s')
    ensures ManagedInv(s')
  {
    hide History, Explains, PcInv, RequestsInv;
    DropKeepsInv(s.led, p);
    QuietStepKeepsInv(s, s', p);
  }

  lemma ManagedNextKeepsInv(s: ManagedSystem, a: ManagedAction, s': ManagedSystem)
    requires ManagedInv(s) && ManagedNext(s, a, s')
    ensures ManagedInv(s')
  {
    hide ManagedInv, ManagedNext;
    match a
    case Get(p) => GetKeepsInv(s, p, s');
    case BeginReturns(p) => BeginReturnsKeepsInv(s, p, s');
    case Append(p, ok, landed) => AppendKeepsInv(s, p, ok, landed, s');
    case Send(p) => SendKeepsInv(s, p, s');
    case Answered(p, answer) => AnsweredKeepsInv(s, p, answer, s');
    case LedgerStep(b) => ManagedLedgerStepKeepsInv(s, b, s');
    case Start(p, job) => StartKeepsInv(s, p, job, s');
    case CloseReturns(p) => CloseReturnsKeepsInv(s, p, s');
    case Die(p) => DieKeepsInv(s, p, s');
  }

  // Whole runs.

  datatype ManagedTrace = ManagedTrace(states: seq<ManagedSystem>, actions: seq<ManagedAction>)

  ghost predicate IsManagedRun(t: ManagedTrace) {
    && |t.states| == |t.actions| + 1 && t.states[0] == MANAGED_INIT
    && forall i | 0 <= i < |t.actions| :: ManagedNext(t.states[i], t.actions[i], t.states[i + 1])
  }

  lemma InitHolds()
    ensures ManagedInv(MANAGED_INIT)
  {}

  lemma {:induction false} RunKeepsManagedInv(t: ManagedTrace, i: nat)
    requires IsManagedRun(t) && i < |t.states|
    ensures ManagedInv(t.states[i])
  {
    hide ManagedInv, ManagedNext;
    if i == 0 {
      InitHolds();
    } else {
      RunKeepsManagedInv(t, i - 1);
      ManagedNextKeepsInv(t.states[i - 1], t.actions[i - 1], t.states[i]);
    }
  }

  /** In every reachable state, every request that was ever sent has, before it in the journal, a
      record of its own with the plan Get read for the key; and unless it deletes, one of the versions
      there were when it was sent holds its intent pending. Where the request's own Begin wrote that version, or Get had
      already read it, the recorded plan is that version's. */
  lemma RequestsAreRecordedFirst(t: ManagedTrace, i: nat, k: nat)
    requires IsManagedRun(t) && i < |t.states| && k < |t.states[i].requests|
    ensures var s := t.states[i]; var r := s.requests[k];
      && Contiguous(s.led.files) && r.journaled <= |s.journal| && r.seen <= r.head <= |s.led.files|
      && (exists j | 0 <= j < r.journaled :: s.journal[j] == JournalRecord(r.worker, r.job.delete, r.prior))
      && r.prior == PlanSeen(History(s.led.files)[..r.seen])
      && (!r.job.delete ==>
            && r.recorded <= r.head && HoldsIntent(History(s.led.files), r.recorded, r.job.intent)
            && (r.own || r.recorded == r.seen ==> s.led.files[r.recorded].plan == r.prior))
  {
    RunKeepsManagedInv(t, i);
    var s := t.states[i];
    assert RequestInv(s.requests[k], History(s.led.files), s.journal);
  }

  /** A mutation whose Begin or append failed sends nothing, and none sends twice. */
  lemma NotAttemptedMeansNotSent(t: ManagedTrace, i: nat, p: Pid, k: nat)
    requires IsManagedRun(t) && i < |t.states| && k < |t.states[i].requests|
    ensures var s := t.states[i];
      && (p in s.workers && s.workers[p].NotAttempted? ==> s.requests[k].worker != p)
      && (forall j | k < j < |s.requests| :: s.requests[j].worker != s.requests[k].worker)
  {
    RunKeepsManagedInv(t, i);
    var s := t.states[i];
    if p in s.workers {
      assert WorkerInv(s, p, History(s.led.files));
    }
  }

  /** Nothing durable is taken back, whatever dies: the journal, the versions and the requests of a
      state are prefixes of every later state's. */
  lemma {:induction false} RecordsOnlyGrow(t: ManagedTrace, i: nat, j: nat)
    requires IsManagedRun(t) && i <= j < |t.states|
    ensures t.states[i].journal <= t.states[j].journal && t.states[i].requests <= t.states[j].requests
    ensures forall n | n in t.states[i].led.files :: n in t.states[j].led.files && t.states[j].led.files[n] == t.states[i].led.files[n]
    decreases j
  {
    hide ManagedNext;
    if i < j {
      RecordsOnlyGrow(t, i, j - 1);
      StepOnlyAdds(t.states[j - 1], t.actions[j - 1], t.states[j]);
    }
  }

  lemma StepOnlyAdds(s: ManagedSystem, a: ManagedAction, s': ManagedSystem)
    requires ManagedNext(s, a, s')
    ensures s.journal <= s'.journal && s.requests <= s'.requests
    ensures forall n | n in s.led.files :: n in s'.led.files && s'.led.files[n] == s.led.files[n]
  {}

  /** The version that holds the plan a request replaces: the one that holds its intent pending, or for a
      delete the last there was when it was sent. */
  function ReplacedAt(r: Request): nat {
    if r.job.delete then r.head else r.recorded
  }

  /** In every reachable state the plan a request's record carries is the one the request replaces exactly
      when the last Resolve or Forget since Get read the key, if there was one, left that plan behind. */
  lemma PriorIsReplacedIff(t: ManagedTrace, i: nat, k: nat)
    requires IsManagedRun(t) && i < |t.states| && k < |t.states[i].requests|
    ensures var s := t.states[i]; var r := s.requests[k];
      && Contiguous(s.led.files) && r.seen <= ReplacedAt(r) <= r.head <= |s.led.files| == |s.led.log|
      && var h := History(s.led.files); var n := LastChange(Calls(s.led.log), r.seen, ReplacedAt(r));
         (HeadOf(h[..ReplacedAt(r)]).plan == r.prior <==> n == r.seen || h[n - 1].plan == r.prior)
  {
    hide ManagedNext, IsManagedRun, Explains, PcInv, WorkerInv, PriorIsPlan, History;
    RunKeepsManagedInv(t, i);
    var s := t.states[i];
    var r, h := s.requests[k], History(s.led.files);
    assert RequestInv(r, h, s.journal);
    assert |h| == |s.led.files| == |s.led.log| by { HistoryLength(s.led); }
    PriorHeldIff(Calls(s.led.log), h, r.seen, ReplacedAt(r), r.prior);
  }

  lemma PriorHeldIff(calls: seq<Call>, h: seq<State>, seen: nat, at: nat, prior: Bytes)
    requires Explains(calls, h) && |calls| == |h| && seen <= at <= |h| && prior == PlanSeen(h[..seen])
    ensures var n := LastChange(calls, seen, at);
            HeadOf(h[..at]).plan == prior <==> n == seen || h[n - 1].plan == prior
  {
    hide Explains;
    PlanSinceChange(calls, h, seen, at);
    TombstonesAreEmpty(calls, h, seen);
    var n := LastChange(calls, seen, at);
    assert n > 0 ==> HeadOf(h[..n]) == h[n - 1];
  }

  /** So it is wherever only Begins came in between. */
  lemma OnlyBeginsKeepPrior(t: ManagedTrace, i: nat, k: nat)
    requires IsManagedRun(t) && i < |t.states| && k < |t.states[i].requests|
    ensures var s := t.states[i]; var r := s.requests[k];
      && Contiguous(s.led.files) && r.seen <= ReplacedAt(r) <= |s.led.files| == |s.led.log|
      && ((forall n | r.seen <= n < ReplacedAt(r) :: s.led.log[n].c.Begin?) ==>
            HeadOf(History(s.led.files)[..ReplacedAt(r)]).plan == r.prior)
  {
    PriorIsReplacedIff(t, i, k);
    var s := t.states[i];
    var r := s.requests[k];
    var n := LastChange(Calls(s.led.log), r.seen, ReplacedAt(r));
    if n != r.seen {
      assert Calls(s.led.log)[n - 1] == s.led.log[n - 1].c;
    }
  }

  // Two runs whose records are older than what their requests replace.

  ghost predicate Reached(t: ManagedTrace, s: ManagedSystem) {
    IsManagedRun(t) && t.states[|t.states| - 1] == s
  }

  lemma Extended(t: ManagedTrace, s: ManagedSystem, a: ManagedAction, s': ManagedSystem) returns (t': ManagedTrace)
    requires Reached(t, s) && ManagedNext(s, a, s')
    ensures Reached(t', s')
  {
    hide ManagedNext;
    t' := ManagedTrace(t.states + [s'], t.actions + [a]);
    forall i | 0 <= i < |t'.actions| ensures ManagedNext(t'.states[i], t'.actions[i], t'.states[i + 1]) {
      if i < |t.actions| {
        assert ManagedNext(t.states[i], t.actions[i], t.states[i + 1]);
      }
    }
  }

  /** A process reads the entry for its ledger call. */
  lemma Reads(t: ManagedTrace, s: ManagedSystem, p: Pid, v: nat) returns (t': ManagedTrace, s': ManagedSystem)
    requires Reached(t, s) && Busy(s.led, p) && !s.led.procs[p].Ready? && IsTop(s.led.files, v)
    ensures Reached(t', s')
    ensures s' == s.(led := s.led.(procs := s.led.procs[p := AfterRead(s.led.procs[p], v, StateAt(s.led.files, v), FoundAt(s.led.files, v))]))
  {
    hide Reached;
    s' := s.(led := s.led.(procs := s.led.procs[p := AfterRead(s.led.procs[p], v, StateAt(s.led.files, v), FoundAt(s.led.files, v))]));
    t' := Extended(t, s, LedgerStep(Read(p)), s');
  }

  /** Its version is linked. */
  lemma Links(t: ManagedTrace, s: ManagedSystem, p: Pid) returns (t': ManagedTrace, s': ManagedSystem)
    requires Reached(t, s) && Busy(s.led, p) && s.led.procs[p].Ready? && s.led.procs[p].base + 1 !in s.led.files
    ensures Reached(t', s') && s' == s.(led := Linked(s.led, p, Committed(s.led.procs[p].base + 1)))
  {
    hide Reached;
    s' := s.(led := Linked(s.led, p, Committed(s.led.procs[p].base + 1)));
    t' := Extended(t, s, LedgerStep(Link(p)), s');
  }

  /** A mutation starts and reads its key. */
  lemma StartsAndGets(t: ManagedTrace, s: ManagedSystem, p: Pid, job: Job, v: nat) returns (t': ManagedTrace, s': ManagedSystem)
    requires Reached(t, s) && p !in s.started && p !in s.workers && p !in s.led.procs && IsTop(s.led.files, v)
    ensures Reached(t', s')
    ensures s' == Opened(s.(workers := s.workers[p := Opening(job)], started := s.started + {p}), p, job, v, StateAt(s.led.files, v), FoundAt(s.led.files, v))
  {
    hide Reached;
    var s1 := s.(workers := s.workers[p := Opening(job)], started := s.started + {p});
    var t1 := Extended(t, s, Start(p, job), s1);
    s' := Opened(s1, p, job, v, StateAt(s.led.files, v), FoundAt(s.led.files, v));
    assert Sees(s1.led.files, v, StateAt(s.led.files, v), FoundAt(s.led.files, v));
    t' := Extended(t1, s1, Get(p), s');
  }

  /** A recorded mutation appends to the journal and sends. */
  lemma AppendsAndSends(t: ManagedTrace, s: ManagedSystem, p: Pid) returns (t': ManagedTrace, s': ManagedSystem)
    requires Reached(t, s) && p in s.workers && s.workers[p].Recorded?
    ensures var pc := s.workers[p];
            && Reached(t', s') && s'.led == s.led && s'.started == s.started && s'.workers == s.workers[p := Sent(pc.job, pc.v)]
            && s'.requests == s.requests + [Request(p, pc.job, pc.prior, pc.seen, pc.n, pc.own, |s.journal| + 1, |s.led.files|)]
  {
    hide Reached;
    var pc := s.workers[p];
    var s1 := s.(workers := s.workers[p := Journaled(pc.job, pc.v, pc.prior, pc.seen, pc.n, pc.own)],
                 journal := s.journal + [JournalRecord(p, pc.job.delete, pc.prior)]);
    var t1 := Extended(t, s, Append(p, true, true), s1);
    s' := s1.(workers := s1.workers[p := Sent(pc.job, pc.v)],
              requests := s1.requests + [Request(p, pc.job, pc.prior, pc.seen, pc.n, pc.own, |s1.journal|, |s1.led.files|)]);
    t' := Extended(t1, s1, Send(p), s');
    assert s1.workers[p := Sent(pc.job, pc.v)] == s.workers[p := Sent(pc.job, pc.v)];
  }

  const BEGUN: Bytes -> State := q => State(Pending, [], q, [], [], false)
  const MADE: Bytes -> State := q => State(Live, q, [], [1], [], false)

  /** Others are as they were. */
  ghost predicate OthersSame(s: ManagedSystem, s': ManagedSystem, p: Pid) {
    && (forall o | o != p :: (o in s'.workers <==> o in s.workers) && (o in s.workers ==> s'.workers[o] == s.workers[o]))
    && (forall o | o != p :: (o in s'.led.procs <==> o in s.led.procs) && (o in s.led.procs ==> s'.led.procs[o] == s.led.procs[o]))
    && s'.started == s.started + {p} && s.requests <= s'.requests
  }

  /** A mutation with intent q starts on a key with no versions and sends its request. */
  lemma MakesRequest(t: ManagedTrace, s: ManagedSystem, p: Pid, q: Bytes) returns (t': ManagedTrace, s': ManagedSystem)
    requires Reached(t, s) && p !in s.started && p !in s.workers && p !in s.led.procs && s.led.files == map[]
    ensures Reached(t', s') && s'.led.files == map[1 := BEGUN(q)] && OthersSame(s, s', p)
    ensures p in s'.workers && s'.workers[p] == Sent(Job(false, q), NoVersion) && !Busy(s'.led, p)
  {
    hide Reached;
    var job := Job(false, q);
    var t1, s1 := StartsAndGets(t, s, p, job, 0);
    var t2, s2 := Reads(t1, s1, p, 0);
    var t3, s3 := Reads(t2, s2, p, 0);
    var t4, s4 := Links(t3, s3, p);
    var s5 := s4.(workers := s4.workers[p := Recorded(job, NoVersion, [], 0, 1, true)]);
    var t5 := Extended(t4, s4, BeginReturns(p), s5);
    t', s' := AppendsAndSends(t5, s5, p);
  }

  /** The provider makes the object and its intent is resolved. */
  lemma MakesObject(t: ManagedTrace, s: ManagedSystem, p: Pid, q: Bytes) returns (t': ManagedTrace, s': ManagedSystem)
    requires Reached(t, s) && p !in s.started && p !in s.workers && p !in s.led.procs && s.led.files == map[]
    ensures Reached(t', s') && s'.led.files == map[1 := BEGUN(q), 2 := MADE(q)] && OthersSame(s, s', p)
  {
    hide Reached;
    var t1, s1 := MakesRequest(t, s, p, q);
    t', s' := IsMade(t1, s1, p, q);
  }

  /** The provider answers, and the intent it answers is resolved. */
  lemma IsMade(t: ManagedTrace, s: ManagedSystem, p: Pid, q: Bytes) returns (t': ManagedTrace, s': ManagedSystem)
    requires Reached(t, s) && s.led.files == map[1 := BEGUN(q)] && p in s.started
    requires p in s.workers && s.workers[p] == Sent(Job(false, q), NoVersion) && !Busy(s.led, p)
    ensures Reached(t', s') && s'.led.files == map[1 := BEGUN(q), 2 := MADE(q)] && OthersSame(s, s', p)
  {
    hide Reached;
    assert Sees(s.led.files, 1, BEGUN(q), true);
    var s1 := Closed(s, p, Job(false, q), NoVersion, Success([1], None), 1, true);
    var t1 := Extended(t, s, Answered(p, Success([1], None)), s1);
    var t2, s2 := Reads(t1, s1, p, 1);
    t', s' := Links(t2, s2, p);
  }

  /** Another mutation begins p over the object made with q. */
  lemma BeginsOver(t: ManagedTrace, s: ManagedSystem, o: Pid, p: Bytes, q: Bytes) returns (t': ManagedTrace, s': ManagedSystem)
    requires Reached(t, s) && o !in s.started && o !in s.workers && o !in s.led.procs
    requires s.led.files == map[1 := BEGUN(q), 2 := MADE(q)]
    ensures Reached(t', s') && OthersSame(s, s', o)
    ensures s'.led.files == map[1 := BEGUN(q), 2 := MADE(q), 3 := State(Pending, q, p, [], [], false)]
  {
    hide Reached;
    var t1, s1 := StartsAndGets(t, s, o, Job(false, p), 2);
    var t2, s2 := Reads(t1, s1, o, 2);
    var t3, s3 := Reads(t2, s2, o, 2);
    t', s' := Links(t3, s3, o);
  }

  /** A run in which a request's record is older than what it replaces: Get finds no entry, another mutation
      makes the object with intent q, and a third begins p on it; then a Begin of the same p, from the
      first, is accepted as a repeat, and the record sent ahead of its request has the empty plan. */
  lemma AcceptedRepeatCanHoldAnOlderPrior(p: Bytes, q: Bytes) returns (t: ManagedTrace, s: ManagedSystem)
    requires q != []
    ensures Reached(t, s) && s.requests != []
    ensures var r := s.requests[|s.requests| - 1];
            && !r.job.delete && r.job.intent == p && r.prior == [] && ReplacedAt(r) == 3
            && 3 in s.led.files && s.led.files[3].plan == q
  {
    hide Reached;
    var t0 := ManagedTrace([MANAGED_INIT], []);
    assert Reached(t0, MANAGED_INIT) by { StartsReached(); }
    var t1, s1 := StartsAndGets(t0, MANAGED_INIT, 3, Job(false, p), 0);
    var t2, s2 := MakesObject(t1, s1, 1, q);
    var t3, s3 := BeginsOver(t2, s2, 2, p, q);
    var t4, s4 := Reads(t3, s3, 3, 3);
    var s5 := s4.(workers := s4.workers[3 := Recorded(Job(false, p), NoVersion, [], 0, 3, false)]);
    var t5 := Extended(t4, s4, BeginReturns(3), s5);
    t, s := AppendsAndSends(t5, s5, 3);
  }

  lemma StartsReached()
    ensures Reached(ManagedTrace([MANAGED_INIT], []), MANAGED_INIT)
  {
  }

  /** And one for a delete, which begins nothing: Get finds no entry, another mutation makes the object with
      intent q, and the delete is recorded with the empty plan and sent while the entry holds q. */
  lemma LateDeleteCanHoldAnOlderPrior(q: Bytes) returns (t: ManagedTrace, s: ManagedSystem)
    requires q != []
    ensures Reached(t, s) && s.requests != []
    ensures var r := s.requests[|s.requests| - 1];
            && r.job.delete && r.prior == [] && ReplacedAt(r) == 2
            && 2 in s.led.files && s.led.files[2].phase == Live && s.led.files[2].plan == q
  {
    hide Reached;
    var t0 := ManagedTrace([MANAGED_INIT], []);
    assert Reached(t0, MANAGED_INIT) by { StartsReached(); }
    var t1, s1 := StartsAndGets(t0, MANAGED_INIT, 2, Job(true, []), 0);
    var t2, s2 := MakesObject(t1, s1, 1, q);
    t, s := AppendsAndSends(t2, s2, 2);
    assert |s2.led.files| == 2 by { assert s2.led.files.Keys == {1, 2}; }
  }
}
