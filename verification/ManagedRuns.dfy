/** What is written after a managed mutation's answer, over whole runs: durableRecords.Next and commit of
    pkg/omnisdk/managed.go. */
module ManagedRuns {
  import opened Ledger
  import opened LedgerRuns
  import opened Managed
  import opened Wrappers

  // Who wrote what, and why.

  /** The version a directory's reader presents next. */
  function Presented(files: map<nat, State>): Version {
    if FoundAt(files, |files|) then At(|files|) else NoVersion
  }

  /** Before step i worker p was started on a job, and its Get found what v presents. */
  ghost predicate Asked(t: ManagedTrace, i: nat, p: Pid, job: Job, v: Version)
    requires IsManagedRun(t) && i < |t.states|
  {
    exists a: nat, g: nat | a < g < i :: AskedAt(t, a, g, p, job, v)
  }

  ghost predicate AskedAt(t: ManagedTrace, a: nat, g: nat, p: Pid, job: Job, v: Version)
    requires IsManagedRun(t) && a < g < |t.actions|
  {
    t.actions[a] == Start(p, job) && t.actions[g] == Get(p) && v == Presented(t.states[g].led.files)
  }

  /** The calls an answer leads to: a delete that succeeded is forgotten, and so is whatever entry there is
      where a mutation whose Get found none was refused; any other success is resolved. */
  predicate Follows(c: Call, job: Job, v: Version, answer: Answer) {
    match c
    case Begin(_, _) => false
    case Resolve(id, about, _) => answer == Success(id, about) && !job.delete
    case Forget(_) => (answer.Success? && job.delete) || (answer.Rejected? && v == NoVersion)
  }

  /** Why a worker makes a ledger call: to begin its intent, or because of the answer it got. */
  ghost predicate Caused(t: ManagedTrace, i: nat, p: Pid, c: Call)
    requires IsManagedRun(t) && i < |t.states|
  {
    exists job, v | Asked(t, i, p, job, v) ::
      || (c == Begin(job.intent, v) && !job.delete)
      || exists b: nat, answer | b < i :: t.actions[b] == Answered(p, answer) && Follows(c, job, v, answer)
  }

  ghost predicate WorkerPast(t: ManagedTrace, i: nat, p: Pid)
    requires IsManagedRun(t) && i < |t.states| && p in t.states[i].workers
  {
    var s := t.states[i];
    match s.workers[p]
    case Opening(job) => exists a: nat | a < i :: t.actions[a] == Start(p, job)
    case Beginning(job, v, _, _) => Asked(t, i, p, job, v) && p in s.led.procs && Caused(t, i, p, s.led.procs[p].c)
    case Recorded(job, v, _, _, _, _) => Asked(t, i, p, job, v)
    case Journaled(job, v, _, _, _, _) => Asked(t, i, p, job, v)
    case Sent(job, v) => Asked(t, i, p, job, v)
    case Closing(_) => p in s.led.procs && Caused(t, i, p, s.led.procs[p].c)
    case _ => true
  }

  ghost predicate Past(t: ManagedTrace, i: nat)
    requires IsManagedRun(t) && i < |t.states|
  {
    && (forall p | p in t.states[i].workers :: WorkerPast(t, i, p))
    && (forall n | 0 <= n < |t.states[i].led.log| :: Caused(t, i, t.states[i].led.log[n].pid, t.states[i].led.log[n].c))
  }

  lemma AskedStays(t: ManagedTrace, i: nat, p: Pid, job: Job, v: Version)
    requires IsManagedRun(t) && i + 1 < |t.states| && Asked(t, i, p, job, v)
    ensures Asked(t, i + 1, p, job, v)
  {
  }

  lemma CausedStays(t: ManagedTrace, i: nat, p: Pid, c: Call)
    requires IsManagedRun(t) && i + 1 < |t.states| && Caused(t, i, p, c)
    ensures Caused(t, i + 1, p, c)
  {
    hide ManagedNext;
    var job, v :| Asked(t, i, p, job, v) && (
      || (c == Begin(job.intent, v) && !job.delete)
      || exists b: nat, answer | b < i :: t.actions[b] == Answered(p, answer) && Follows(c, job, v, answer));
    AskedStays(t, i, p, job, v);
  }

  /** A worker that does not act, or acts only through the ledger, has the same past. */
  lemma WorkerPastStays(t: ManagedTrace, i: nat, p: Pid)
    requires IsManagedRun(t) && i + 1 < |t.states| && p in t.states[i].workers && WorkerPast(t, i, p)
    requires p in t.states[i + 1].workers && t.states[i + 1].workers[p] == t.states[i].workers[p]
    requires p in t.states[i].led.procs ==> p in t.states[i + 1].led.procs && t.states[i + 1].led.procs[p].c == t.states[i].led.procs[p].c
    ensures WorkerPast(t, i + 1, p)
  {
    hide ManagedNext, Caused, Asked;
    match t.states[i].workers[p]
    case Opening(_) =>
    case Beginning(job, v, _, _) =>
      AskedStays(t, i, p, job, v);
      CausedStays(t, i, p, t.states[i].led.procs[p].c);
    case Recorded(job, v, _, _, _, _) => AskedStays(t, i, p, job, v);
    case Journaled(job, v, _, _, _, _) => AskedStays(t, i, p, job, v);
    case Sent(job, v) => AskedStays(t, i, p, job, v);
    case Closing(_) => CausedStays(t, i, p, t.states[i].led.procs[p].c);
    case _ =>
  }

  /** The past of the one worker an action is about. */
  lemma ActorPast(t: ManagedTrace, i: nat, p: Pid)
    requires IsManagedRun(t) && i + 1 < |t.states| && ManagedInv(t.states[i]) && Past(t, i)
    requires !t.actions[i].LedgerStep? && t.actions[i].p == p && p in t.states[i + 1].workers
    ensures WorkerPast(t, i + 1, p)
  {
    hide Explains, PcInv, IntentRecorded, RequestsInv, Caused, ManagedInv, Asked, Opened, Closed, Sees;
    var s, s', a := t.states[i], t.states[i + 1], t.actions[i];
    assert ManagedNext(s, a, s');
    assert p in s.workers ==> WorkerPast(t, i, p);
    match a
    case Start(_, job) =>
    case Get(_) => GetPast(t, i, p);
    case Answered(_, answer) => AnsweredPast(t, i, p, answer);
    case BeginReturns(_) =>
      var pc := s.workers[p];
      AskedStays(t, i, p, pc.job, pc.v);
    case Append(_, _, _) =>
      var pc := s.workers[p];
      AskedStays(t, i, p, pc.job, pc.v);
    case Send(_) =>
      var pc := s.workers[p];
      AskedStays(t, i, p, pc.job, pc.v);
    case CloseReturns(_) =>
    case Die(_) =>
  }

  lemma GetPast(t: ManagedTrace, i: nat, p: Pid)
    requires IsManagedRun(t) && i + 1 < |t.states| && ManagedInv(t.states[i]) && t.actions[i] == Get(p)
    requires p in t.states[i].workers && WorkerPast(t, i, p)
    ensures p in t.states[i + 1].workers && WorkerPast(t, i + 1, p)
  {
    hide Explains, PcInv, WorkerInv, RequestsInv;
    var s, s' := t.states[i], t.states[i + 1];
    assert ManagedNext(s, Get(p), s');
    var job := s.workers[p].job;
    var ver: nat, st, found :| Sees(s.led.files, ver, st, found) && s' == Opened(s, p, job, ver, st, found);
    TopIsLast(s.led.files, ver);
    var v := Presented(s.led.files);
    var a: nat :| a < i && t.actions[a] == Start(p, job);
    assert AskedAt(t, a, i, p, job, v);
    if !job.delete {
      assert Caused(t, i + 1, p, Begin(job.intent, v));
    }
  }

  lemma AnsweredPast(t: ManagedTrace, i: nat, p: Pid, answer: Answer)
    requires IsManagedRun(t) && i + 1 < |t.states| && t.actions[i] == Answered(p, answer)
    requires p in t.states[i].workers && WorkerPast(t, i, p)
    ensures p in t.states[i + 1].workers && WorkerPast(t, i + 1, p)
  {
    hide ManagedInv, Asked;
    var s, s' := t.states[i], t.states[i + 1];
    assert ManagedNext(s, t.actions[i], s');
    var job, v := s.workers[p].job, s.workers[p].v;
    AskedStays(t, i, p, job, v);
    if s'.workers[p].Closing? {
      var c := s'.led.procs[p].c;
      assert Follows(c, job, v, answer) && t.actions[i] == Answered(p, answer);
      assert Caused(t, i + 1, p, c);
    }
  }

  /** A ledger step is a beginning or closing worker's, and so is the version it writes. */
  lemma LedgerPast(t: ManagedTrace, i: nat)
    requires IsManagedRun(t) && i + 1 < |t.states| && ManagedInv(t.states[i]) && Past(t, i) && t.actions[i].LedgerStep?
    ensures Past(t, i + 1)
  {
    hide Explains, PcInv, IntentRecorded, RequestsInv, Caused, Asked, AfterRead;
    var s, s', a := t.states[i], t.states[i + 1], t.actions[i].a;
    assert ManagedNext(s, t.actions[i], s');
    LedgerStepKeepsCalls(s.led, a, s'.led);
    LedgerStepWrites(s.led, a, s'.led);
    assert a.p in s.workers && WorkerInv(s, a.p, History(s.led.files)) && WorkerPast(t, i, a.p);
    forall p | p in s'.workers ensures WorkerPast(t, i + 1, p) {
      assert WorkerPast(t, i, p);
      WorkerPastStays(t, i, p);
    }
    forall n | 0 <= n < |s'.led.log| ensures Caused(t, i + 1, s'.led.log[n].pid, s'.led.log[n].c) {
      CausedStays(t, i, s'.led.log[n].pid, s'.led.log[n].c);
    }
  }

  lemma LedgerStepWrites(led: System, a: Action, led': System)
    requires Next(led, a, led') && !a.Invoke? && !a.Crash?
    ensures Busy(led, a.p)
    ensures led'.log == led.log || led'.log == led.log + [Commit(a.p, led.procs[a.p].c)]
  {
  }

  lemma StepKeepsPast(t: ManagedTrace, i: nat)
    requires IsManagedRun(t) && i + 1 < |t.states| && ManagedInv(t.states[i]) && Past(t, i)
    ensures Past(t, i + 1)
  {
    hide Explains, PcInv, IntentRecorded, RequestsInv, Caused, Asked, ManagedInv;
    var s, s', a := t.states[i], t.states[i + 1], t.actions[i];
    assert ManagedNext(s, a, s');
    if a.LedgerStep? {
      LedgerPast(t, i);
    } else {
      OthersKeepPlace(s, a, s');
      forall p | p in s'.workers ensures WorkerPast(t, i + 1, p) {
        if p == a.p {
          ActorPast(t, i, p);
        } else {
          WorkerPastStays(t, i, p);
        }
      }
      forall n | 0 <= n < |s'.led.log| ensures Caused(t, i + 1, s'.led.log[n].pid, s'.led.log[n].c) {
        CausedStays(t, i, s'.led.log[n].pid, s'.led.log[n].c);
      }
    }
  }

  lemma OthersKeepPlace(s: ManagedSystem, a: ManagedAction, s': ManagedSystem)
    requires ManagedNext(s, a, s') && !a.LedgerStep?
    ensures s'.led.log == s.led.log && s'.led.files == s.led.files
    ensures forall q | q in s'.workers && q != a.p :: q in s.workers && s'.workers[q] == s.workers[q]
    ensures forall q | q in s.led.procs && q != a.p :: q in s'.led.procs && s'.led.procs[q] == s.led.procs[q]
  {
  }

  lemma {:induction false} RunKeepsPast(t: ManagedTrace, i: nat)
    requires IsManagedRun(t) && i < |t.states|
    ensures ManagedInv(t.states[i]) && Past(t, i)
  {
    hide ManagedInv, ManagedNext;
    RunKeepsManagedInv(t, i);
    if i > 0 {
      RunKeepsPast(t, i - 1);
      StepKeepsPast(t, i - 1);
    }
  }

  /** In every reachable state every version has its cause: a Begin is of a mutation that was started with
      that intent and read what it presents; a live version is written for the identity that answered its
      mutation's success; and a tombstone belongs to a delete that succeeded or to a mutation whose Get found
      no entry and which the provider refused. */
  lemma EveryVersionIsCaused(t: ManagedTrace, i: nat, n: nat)
    requires IsManagedRun(t) && i < |t.states| && 0 < n <= |t.states[i].led.log|
    ensures var s := t.states[i]; var w := s.led.log[n - 1];
      && n in s.led.files && Caused(t, i, w.pid, w.c)
      && (s.led.files[n].tombstone <==> w.c.Forget?)
      && (!s.led.files[n].tombstone ==> (s.led.files[n].phase == Live <==> w.c.Resolve?))
  {
    hide PcInv, RequestsInv, WorkerInv;
    RunKeepsPast(t, i);
    var led := t.states[i].led;
    HistoryLength(led);
    CallsShow(Calls(led.log), History(led.files), n);
  }

  lemma CallsShow(calls: seq<Call>, h: seq<State>, n: nat)
    requires Explains(calls, h) && 0 < n <= |h|
    ensures h[n - 1].tombstone <==> calls[n - 1].Forget?
    ensures !h[n - 1].tombstone ==> (h[n - 1].phase == Live <==> calls[n - 1].Resolve?)
  {
    assert LegalWrite(calls[n - 1], h[..n - 1], h[n - 1]);
  }

  lemma TombstonesAreEarned(t: ManagedTrace, i: nat, n: nat)
    requires IsManagedRun(t) && i < |t.states| && n in t.states[i].led.files && t.states[i].led.files[n].tombstone
    ensures 0 < n <= |t.states[i].led.log|
    ensures var p := t.states[i].led.log[n - 1].pid;
      exists job, v | Asked(t, i, p, job, v) :: exists b: nat, answer | b < i ::
        && t.actions[b] == Answered(p, answer)
        && ((answer.Success? && job.delete) || (answer.Rejected? && v == NoVersion))
  {
    hide ManagedInv, Asked, ManagedNext;
    RunKeepsPast(t, i);
    InLog(t.states[i], n);
    EveryVersionIsCaused(t, i, n);
  }

  lemma InLog(s: ManagedSystem, n: nat)
    requires ManagedInv(s) && n in s.led.files
    ensures 0 < n <= |s.led.log|
  {
    HistoryLength(s.led);
  }

  // What an answer is worth.

  /** What an answer makes of the entry's versions, where there is an entry. */
  function Concluded(h: seq<State>, job: Job, v: Version, answer: Answer): seq<State> {
    var s := HeadOf(h);
    match answer
    case Success(id, about) =>
      if job.delete then h + [TOMBSTONE]
      else if s.phase == Pending then h + [State(Live, s.proposed, [], id, if about.Some? then about.value else s.about, false)]
      else h
    case Rejected => if v == NoVersion then h + [TOMBSTONE] else h
    case Unknown => h
  }

  /** Nothing stops a worker, and no other links. */
  ghost predicate WorkerSpared(s: ManagedSystem, a: ManagedAction, s': ManagedSystem, p: Pid) {
    match a
    case Die(q) => q != p
    case LedgerStep(b) => Spared(s.led, b, s'.led, p)
    case _ => true
  }

  /** A worker whose answer came on history h is done with it or on its way to write what it makes of h. */
  ghost predicate Concluding(s: ManagedSystem, p: Pid, h: seq<State>, h': seq<State>)
    requires ManagedInv(s)
  {
    && p in s.workers
    && match s.workers[p]
       case Closing(_) => p in s.led.procs && OnTrack(s.led, p, s.led.procs[p].c, h) && Run(h, s.led.procs[p].c).0 == h'
       case Over(_) => History(s.led.files) == h'
       case _ => false
  }

  lemma AnswerConcludes(s: ManagedSystem, p: Pid, answer: Answer, s': ManagedSystem)
    requires ManagedInv(s) && ManagedInv(s') && ManagedNext(s, Answered(p, answer), s') && Found(History(s.led.files))
    ensures var h := History(s.led.files); Concluding(s', p, h, Concluded(h, s.workers[p].job, s.workers[p].v, answer))
  {
    hide Explains, PcInv, WorkerInv, RequestsInv, History;
    var job, v := s.workers[p].job, s.workers[p].v;
    var ver: nat, st, found :| Sees(s.led.files, ver, st, found) && s' == Closed(s, p, job, v, answer, ver, found);
    SeesLast(s.led, ver, st, found);
  }

  lemma ConcludingElsewhere(s: ManagedSystem, s': ManagedSystem, p: Pid, h: seq<State>, h': seq<State>)
    requires ManagedInv(s) && ManagedInv(s') && Concluding(s, p, h, h') && s'.led.files == s.led.files
    requires p in s'.workers && s'.workers[p] == s.workers[p]
    requires p in s.led.procs ==> p in s'.led.procs && s'.led.procs[p] == s.led.procs[p]
    ensures Concluding(s', p, h, h')
  {
    hide ManagedInv, Run;
  }

  lemma ConcludingReturns(s: ManagedSystem, s': ManagedSystem, p: Pid, h: seq<State>, h': seq<State>)
    requires ManagedInv(s) && ManagedInv(s') && ManagedNext(s, CloseReturns(p), s') && Concluding(s, p, h, h')
    ensures Concluding(s', p, h, h')
  {
    hide ManagedInv, Run;
  }

  lemma ConcludingLedgerStep(s: ManagedSystem, b: Action, s': ManagedSystem, p: Pid, h: seq<State>, h': seq<State>)
    requires ManagedInv(s) && ManagedInv(s') && ManagedNext(s, LedgerStep(b), s') && Spared(s.led, b, s'.led, p)
    requires Concluding(s, p, h, h')
    ensures Concluding(s', p, h, h')
  {
    hide Explains, PcInv, RequestsInv, History, Run, Next, Spared;
    assert WorkerInv(s, p, History(s.led.files));
    LedgerStepWrites(s.led, b, s'.led);
    LedgerStepKeepsCalls(s.led, b, s'.led);
    if s.workers[p].Closing? {
      SparedStep(s.led, b, s'.led, p, s.led.procs[p].c, h);
    } else {
      SparedElsewhere(s.led, b, s'.led, p);
    }
  }

  lemma ConcludingStep(s: ManagedSystem, a: ManagedAction, s': ManagedSystem, p: Pid, h: seq<State>, h': seq<State>)
    requires ManagedInv(s) && ManagedInv(s') && ManagedNext(s, a, s') && WorkerSpared(s, a, s', p)
    requires Concluding(s, p, h, h')
    ensures Concluding(s', p, h, h')
  {
    hide ManagedInv, Run, OnTrack, Spared, Next;
    if a.LedgerStep? {
      ConcludingLedgerStep(s, a.a, s', p, h, h');
    } else if a == CloseReturns(p) {
      ConcludingReturns(s, s', p, h, h');
    } else {
      hide Concluding;
      OthersKeepPlace(s, a, s');
      NotItsTurn(s, a, s', p, h, h');
      ConcludingElsewhere(s, s', p, h, h');
    }
  }

  /** A worker that is closing or done takes no other step of its own. */
  lemma NotItsTurn(s: ManagedSystem, a: ManagedAction, s': ManagedSystem, p: Pid, h: seq<State>, h': seq<State>)
    requires ManagedInv(s) && ManagedNext(s, a, s') && WorkerSpared(s, a, s', p) && !a.LedgerStep? && a != CloseReturns(p)
    requires Concluding(s, p, h, h')
    ensures a.p != p && p in s'.workers
  {
    hide ManagedInv, Run, OnTrack, Next;
  }

  lemma {:induction false} ConcludesAllAlong(t: ManagedTrace, p: Pid, answer: Answer, b: nat, j: nat)
    requires IsManagedRun(t) && b < j < |t.states| && t.actions[b] == Answered(p, answer)
    requires forall k | b < k < j :: WorkerSpared(t.states[k], t.actions[k], t.states[k + 1], p)
    ensures ManagedInv(t.states[b]) && ManagedInv(t.states[j])
    ensures p in t.states[b].workers && t.states[b].workers[p].Sent?
    ensures var s := t.states[b]; var h := History(s.led.files);
      Found(h) ==> Concluding(t.states[j], p, h, Concluded(h, s.workers[p].job, s.workers[p].v, answer))
    decreases j
  {
    RunKeepsManagedInv(t, b);
    RunKeepsManagedInv(t, j);
    assert ManagedNext(t.states[b], t.actions[b], t.states[b + 1]);
    hide ManagedInv, ManagedNext, Concluding, WorkerSpared, Concluded;
    if b + 1 < j {
      ConcludesAllAlong(t, p, answer, b, j - 1);
      if Found(History(t.states[b].led.files)) {
        var s := t.states[b];
        var h := History(s.led.files);
        ConcludingStep(t.states[j - 1], t.actions[j - 1], t.states[j], p, h, Concluded(h, s.workers[p].job, s.workers[p].v, answer));
      }
    } else if Found(History(t.states[b].led.files)) {
      AnswerConcludes(t.states[b], p, answer, t.states[j]);
    }
  }

  /** Where nothing stops a worker after its answer and no other links, the entry it found comes out as the
      answer makes it: a success is resolved with the answer's identity and the intent that was pending as
      its plan, a deleted entry is forgotten, a refusal where Get found nothing withdraws what is there, and
      after any other refusal or no answer the entry stands. */
  lemma SparedAnswerConcludes(t: ManagedTrace, p: Pid, answer: Answer, b: nat, j: nat)
    requires IsManagedRun(t) && b < j < |t.states| && t.actions[b] == Answered(p, answer)
    requires forall k | b < k < j :: WorkerSpared(t.states[k], t.actions[k], t.states[k + 1], p)
    ensures Contiguous(t.states[b].led.files) && Contiguous(t.states[j].led.files)
    ensures p in t.states[b].workers && t.states[b].workers[p].Sent?
    ensures var s := t.states[b]; var h := History(s.led.files);
      && Asked(t, b, p, s.workers[p].job, s.workers[p].v)
      && (Found(h) && p in t.states[j].workers && t.states[j].workers[p].Over? ==>
            History(t.states[j].led.files) == Concluded(h, s.workers[p].job, s.workers[p].v, answer))
  {
    hide Run, OnTrack, Asked, ManagedNext, ManagedInv, Concluding, Past, Concluded, WorkerSpared, History;
    ConcludesAllAlong(t, p, answer, b, j);
    SentWasAsked(t, b, p);
    var s := t.states[b];
    FilesInOrder(s);
    FilesInOrder(t.states[j]);
    var h := History(s.led.files);
    if Found(h) && p in t.states[j].workers && t.states[j].workers[p].Over? {
      OverIsConcluded(t.states[j], p, h, Concluded(h, s.workers[p].job, s.workers[p].v, answer));
    }
  }

  lemma FilesInOrder(s: ManagedSystem)
    requires ManagedInv(s)
    ensures Contiguous(s.led.files)
  {
  }

  lemma OverIsConcluded(s: ManagedSystem, p: Pid, h: seq<State>, h': seq<State>)
    requires ManagedInv(s) && Concluding(s, p, h, h') && s.workers[p].Over?
    ensures History(s.led.files) == h'
  {
  }

  lemma SentWasAsked(t: ManagedTrace, b: nat, p: Pid)
    requires IsManagedRun(t) && b < |t.states| && p in t.states[b].workers && t.states[b].workers[p].Sent?
    ensures Asked(t, b, p, t.states[b].workers[p].job, t.states[b].workers[p].v)
  {
    hide ManagedInv, Asked, ManagedNext;
    RunKeepsPast(t, b);
    assert WorkerPast(t, b, p);
  }

  // Against whatever others do meanwhile.

  /** While a worker is closing its ledger call is the one its answer led to. */
  lemma {:induction false} ClosesWithOneCall(t: ManagedTrace, p: Pid, b: nat, i: nat)
    requires IsManagedRun(t) && b < i < |t.states| && forall k | b < k <= i :: p in t.states[k].workers && t.states[k].workers[p].Closing?
    ensures p in t.states[b + 1].led.procs && p in t.states[i].led.procs
    ensures t.states[i].led.procs[p].c == t.states[b + 1].led.procs[p].c
    decreases i
  {
    hide ManagedNext, ManagedInv;
    RunKeepsManagedInv(t, i);
    RunKeepsManagedInv(t, b + 1);
    InProcs(t.states[i], p);
    InProcs(t.states[b + 1], p);
    if b + 1 < i {
      ClosesWithOneCall(t, p, b, i - 1);
      ClosingKeepsCall(t.states[i - 1], t.actions[i - 1], t.states[i], p);
    }
  }

  lemma InProcs(s: ManagedSystem, p: Pid)
    requires ManagedInv(s) && p in s.workers && s.workers[p].Closing?
    ensures p in s.led.procs
  {
    assert WorkerInv(s, p, History(s.led.files));
  }

  lemma ClosingKeepsCall(s: ManagedSystem, a: ManagedAction, s': ManagedSystem, p: Pid)
    requires ManagedNext(s, a, s') && p in s.workers && s.workers[p].Closing? && p in s'.workers && s'.workers[p].Closing?
    requires p in s.led.procs && p in s'.led.procs
    ensures s'.led.procs[p].c == s.led.procs[p].c
  {
    if a.LedgerStep? { LedgerStepKeepsCalls(s.led, a.a, s'.led); }
  }

  /** Whatever others do meanwhile: where the call that closes a successful mutation commits, the version it
      wrote follows the one found at the answer and is live, with the intent that was pending there as its plan
      and the answer's identity; or a tombstone, if the mutation was a delete. */
  lemma CommittedSuccessIsLive(t: ManagedTrace, p: Pid, id: Bytes, about: Option<Bytes>, b: nat, i: nat)
    requires IsManagedRun(t) && b < i < |t.states| && t.actions[b] == Answered(p, Success(id, about))
    requires forall k | b < k <= i :: p in t.states[k].workers && t.states[k].workers[p].Closing?
    requires Reported(t.states[i].led, p)
    ensures p in t.states[b].workers && t.states[b].workers[p].Sent?
    ensures Contiguous(t.states[b].led.files) && Contiguous(t.states[i].led.files)
    ensures var h, h' := History(t.states[b].led.files), History(t.states[i].led.files);
      && Found(h) && |h| < |h'| && h <= h'
      && h'[|h|] == (if t.states[b].workers[p].job.delete then TOMBSTONE
                     else State(Live, HeadOf(h).proposed, [], id, if about.Some? then about.value else HeadOf(h).about, false))
      && (!t.states[b].workers[p].job.delete ==> HeadOf(h).phase == Pending)
  {
    hide ManagedNext, ManagedInv, History;
    var s, s' := t.states[b], t.states[i];
    RunKeepsManagedInv(t, b);
    RunKeepsManagedInv(t, i);
    FilesInOrder(s);
    FilesInOrder(s');
    AnsweredWasSent(s, p, Success(id, about), t.states[b + 1]);
    assert p in t.states[b + 1].workers;
    ClosesWithOneCall(t, p, b, i);
    var h, h' := History(s.led.files), History(s'.led.files);
    HistoriesGrow(t, b, i);
    CallAfter(s, p, Success(id, about), t.states[b + 1]);
    ReportShows(s', p);
    AnsweredOn(Calls(s'.led.log), h, h', s'.led.procs[p].o.n);
  }

  lemma {:induction false} HistoriesGrow(t: ManagedTrace, b: nat, i: nat)
    requires IsManagedRun(t) && b <= i < |t.states|
    ensures Contiguous(t.states[b].led.files) && Contiguous(t.states[i].led.files)
    ensures History(t.states[b].led.files) <= History(t.states[i].led.files)
    decreases i
  {
    hide ManagedNext, ManagedInv, History;
    RunKeepsManagedInv(t, i);
    FilesInOrder(t.states[i]);
    if b < i {
      HistoriesGrow(t, b, i - 1);
      RunKeepsManagedInv(t, i - 1);
      HistoryGrows(t.states[i - 1], t.actions[i - 1], t.states[i]);
    }
  }

  lemma HistoryGrows(s: ManagedSystem, a: ManagedAction, s': ManagedSystem)
    requires ManagedInv(s) && ManagedInv(s') && ManagedNext(s, a, s')
    ensures History(s.led.files) <= History(s'.led.files)
  {
    hide Next, WorkerInv, RequestsInv, Explains, PcInv;
    if a.LedgerStep? {
      NextKeepsInv(s.led, a.a, s'.led);
    } else {
      OthersKeepPlace(s, a, s');
    }
  }

  lemma AnsweredWasSent(s: ManagedSystem, p: Pid, answer: Answer, s': ManagedSystem)
    requires ManagedNext(s, Answered(p, answer), s')
    ensures p in s.workers && s.workers[p].Sent?
  {
  }

  /** The call a success leads to presents the version it found. */
  lemma CallAfter(s: ManagedSystem, p: Pid, answer: Answer, s': ManagedSystem)
    requires ManagedInv(s) && ManagedNext(s, Answered(p, answer), s') && answer.Success?
    requires p in s'.workers && s'.workers[p].Closing?
    ensures var h := History(s.led.files);
      && Found(h) && p in s'.led.procs
      && s'.led.procs[p].c == if s.workers[p].job.delete then Forget(At(|h|)) else Resolve(answer.identity, answer.about, At(|h|))
  {
    hide Explains, PcInv, WorkerInv, RequestsInv, History;
    var ver: nat, st, found :| Sees(s.led.files, ver, st, found) && s' == Closed(s, p, s.workers[p].job, s.workers[p].v, answer, ver, found);
    SeesLast(s.led, ver, st, found);
  }

  lemma ReportShows(s: ManagedSystem, p: Pid)
    requires ManagedInv(s) && Reported(s.led, p)
    ensures var n, h := s.led.procs[p].o.n, History(s.led.files);
      Explains(Calls(s.led.log), h) && 0 < n <= |h| && Calls(s.led.log)[n - 1] == s.led.procs[p].c
  {
    hide WorkerInv, RequestsInv, Explains;
    HistoryLength(s.led);
    assert PcInv(s.led.procs[p], p, History(s.led.files), s.led.log);
  }

  /** A write that presents the version h ends with is the one after it. */
  lemma AnsweredOn(calls: seq<Call>, h: seq<State>, h': seq<State>, n: nat)
    requires Explains(calls, h') && h <= h' && Found(h) && 0 < n <= |h'| && calls[n - 1].v == At(|h|) && !calls[n - 1].Begin?
    ensures n == |h| + 1 && h'[|h|] == NextState(calls[n - 1], HeadOf(h))
    ensures calls[n - 1].Resolve? ==> HeadOf(h).phase == Pending
  {
    assert LegalWrite(calls[n - 1], h'[..n - 1], h'[n - 1]);
    assert h'[..|h|] == h;
  }

  // What nothing interferes with is sent.

  /** A request of the worker's has gone out. */
  ghost predicate HasSent(s: ManagedSystem, p: Pid) {
    exists k | 0 <= k < |s.requests| :: s.requests[k].worker == p
  }

  /** A worker that read h is on its way to send, or has sent. */
  ghost predicate Proceeding(s: ManagedSystem, p: Pid, h: seq<State>) {
    && p in s.workers
    && match s.workers[p]
       case Beginning(job, v, _, _) => OnTrack(s.led, p, Begin(job.intent, v), h) && v == (if Found(h) then At(|h|) else NoVersion)
       case Recorded(_, _, _, _, _, _) => true
       case Journaled(_, _, _, _, _, _) => true
       case Opening(_) => false
       case NotAttempted(_) => false
       case _ => HasSent(s, p)
  }

  /** Nothing stops a worker, its appends succeed, and while it begins no other links. */
  ghost predicate SendingSpared(s: ManagedSystem, a: ManagedAction, s': ManagedSystem, p: Pid) {
    WorkerSpared(s, a, s', p) && (a.Append? && a.p == p ==> a.ok)
  }

  lemma GetProceeds(s: ManagedSystem, p: Pid, s': ManagedSystem)
    requires ManagedInv(s) && ManagedNext(s, Get(p), s')
    ensures Proceeding(s', p, History(s.led.files))
  {
    hide Explains, PcInv, WorkerInv, RequestsInv, History;
    var ver: nat, st, found :| Sees(s.led.files, ver, st, found) && s' == Opened(s, p, s.workers[p].job, ver, st, found);
    SeesLast(s.led, ver, st, found);
  }

  lemma ProceedingStep(s: ManagedSystem, a: ManagedAction, s': ManagedSystem, p: Pid, h: seq<State>)
    requires ManagedInv(s) && ManagedNext(s, a, s') && SendingSpared(s, a, s', p) && Proceeding(s, p, h)
    ensures Proceeding(s', p, h)
  {
    hide Explains, PcInv, RequestsInv, History, Spared, Next;
    SentStays(s, a, s', p);
    if a.LedgerStep? {
      LedgerStepWrites(s.led, a.a, s'.led);
      LedgerStepKeepsCalls(s.led, a.a, s'.led);
      if s.workers[p].Beginning? {
        SparedStep(s.led, a.a, s'.led, p, s.led.procs[p].c, h);
      }
    } else if a.p != p {
      OthersKeepPlace(s, a, s');
      OthersStay(s, a, s', p);
    } else if a.Send? {
      assert s'.requests[|s.requests|].worker == p;
    }
  }

  lemma SentStays(s: ManagedSystem, a: ManagedAction, s': ManagedSystem, p: Pid)
    requires ManagedNext(s, a, s')
    ensures HasSent(s, p) ==> HasSent(s', p)
  {
    StepOnlyAdds(s, a, s');
    if HasSent(s, p) {
      var k :| 0 <= k < |s.requests| && s.requests[k].worker == p;
      assert s'.requests[k] == s.requests[k];
    }
  }

  lemma OthersStay(s: ManagedSystem, a: ManagedAction, s': ManagedSystem, p: Pid)
    requires ManagedNext(s, a, s') && !a.LedgerStep? && a.p != p && p in s.workers
    ensures p in s'.workers && s'.workers[p] == s.workers[p]
  {
  }

  /** A mutation of any kind that nothing interferes with from its Get on is sent: as long as its appends
      succeed, nothing stops it and no other process links, it is never given up, and past its journal
      record its request has gone out. */
  lemma {:induction false} SparedMutationIsSent(t: ManagedTrace, p: Pid, i: nat, j: nat)
    requires IsManagedRun(t) && i < j < |t.states| && t.actions[i] == Get(p)
    requires forall k | i < k < j :: SendingSpared(t.states[k], t.actions[k], t.states[k + 1], p)
    ensures Contiguous(t.states[i].led.files) && Proceeding(t.states[j], p, History(t.states[i].led.files))
    decreases j
  {
    hide ManagedNext, ManagedInv, Proceeding, SendingSpared;
    RunKeepsManagedInv(t, i);
    FilesInOrder(t.states[i]);
    if i + 1 < j {
      SparedMutationIsSent(t, p, i, j - 1);
      RunKeepsManagedInv(t, j - 1);
      ProceedingStep(t.states[j - 1], t.actions[j - 1], t.states[j], p, History(t.states[i].led.files));
    } else {
      GetProceeds(t.states[i], p, t.states[j]);
    }
  }

  // What a refusal takes away.

  /** A tombstone takes away an intent alone exactly when the call before its own was a Begin; after a
      Resolve it takes away an object that was made. */
  lemma ForgetsIntentIff(t: ManagedTrace, i: nat, n: nat)
    requires IsManagedRun(t) && i < |t.states| && n in t.states[i].led.files && t.states[i].led.files[n].tombstone
    ensures var led := t.states[i].led;
      && 1 < n <= |led.log| && n - 1 in led.files && !led.files[n - 1].tombstone
      && (led.files[n - 1].phase == Pending <==> led.log[n - 2].c.Begin?)
  {
    hide ManagedInv, Caused, ManagedNext;
    RunKeepsManagedInv(t, i);
    InLog(t.states[i], n);
    EveryVersionIsCaused(t, i, n);
    FollowsAnEntry(t.states[i], n);
    EveryVersionIsCaused(t, i, n - 1);
  }

  lemma FollowsAnEntry(s: ManagedSystem, n: nat)
    requires ManagedInv(s) && n in s.led.files && 0 < n <= |s.led.log| && s.led.log[n - 1].c.Forget?
    ensures 1 < n && n - 1 in s.led.files && !s.led.files[n - 1].tombstone
  {
    hide WorkerInv, RequestsInv, PcInv;
    HistoryLength(s.led);
    var h := History(s.led.files);
    assert LegalWrite(Calls(s.led.log)[n - 1], h[..n - 1], h[n - 1]);
  }

  /** A refused worker whose Get found nothing forgets whatever entry there now is. */
  lemma ForgetsWhatIsThere(t: ManagedTrace, s: ManagedSystem, p: Pid, job: Job, q: Bytes) returns (t': ManagedTrace, s': ManagedSystem)
    requires Reached(t, s) && s.led.files == map[1 := BEGUN(q), 2 := MADE(q)]
    requires p in s.workers && s.workers[p] == Sent(job, NoVersion) && !Busy(s.led, p)
    ensures Reached(t', s') && s'.led.files == map[1 := BEGUN(q), 2 := MADE(q), 3 := TOMBSTONE]
  {
    hide Reached;
    assert Sees(s.led.files, 2, MADE(q), true);
    var s1 := Closed(s, p, job, NoVersion, Rejected, 2, true);
    var t1 := Extended(t, s, Answered(p, Rejected), s1);
    var t2, s2 := Reads(t1, s1, p, 2);
    t', s' := Links(t2, s2, p);
  }

  /** Two creates with one intent: the second's Begin is accepted as a repeat of the first's, the first makes
      the object and resolves it, and the second's refusal forgets the object that was made. */
  lemma RefusedRepeatForgetsTheObject(q: Bytes) returns (t: ManagedTrace, s: ManagedSystem)
    ensures Reached(t, s) && s.led.files == map[1 := BEGUN(q), 2 := MADE(q), 3 := TOMBSTONE]
  {
    hide Reached;
    var t0 := ManagedTrace([MANAGED_INIT], []);
    assert Reached(t0, MANAGED_INIT) by { StartsReached(); }
    var t1, s1 := StartsAndGets(t0, MANAGED_INIT, 3, Job(false, q), 0);
    var t2, s2 := MakesRequest(t1, s1, 1, q);
    var t3, s3 := Reads(t2, s2, 3, 1);
    var s4 := s3.(workers := s3.workers[3 := Recorded(Job(false, q), NoVersion, [], 0, 1, false)]);
    var t4 := Extended(t3, s3, BeginReturns(3), s4);
    var t5, s5 := AppendsAndSends(t4, s4, 3);
    var t6, s6 := IsMade(t5, s5, 1, q);
    t, s := ForgetsWhatIsThere(t6, s6, 3, Job(false, q), q);
  }

  /** A delete whose Get found nothing: another mutation makes the object meanwhile, and the refusal of the
      delete, which should leave its entry, forgets it. */
  lemma RefusedDeleteForgetsTheObject(q: Bytes) returns (t: ManagedTrace, s: ManagedSystem)
    ensures Reached(t, s) && s.led.files == map[1 := BEGUN(q), 2 := MADE(q), 3 := TOMBSTONE]
  {
    hide Reached;
    var t0 := ManagedTrace([MANAGED_INIT], []);
    assert Reached(t0, MANAGED_INIT) by { StartsReached(); }
    var t1, s1 := StartsAndGets(t0, MANAGED_INIT, 2, Job(true, []), 0);
    var t2, s2 := MakesObject(t1, s1, 1, q);
    var t3, s3 := AppendsAndSends(t2, s2, 2);
    t, s := ForgetsWhatIsThere(t3, s3, 2, Job(true, []), q);
  }
}
