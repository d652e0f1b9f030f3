# omnisdk: verified model

omnisdk runs queries and desired-state graphs against provider APIs. This project models the parts
of it whose correctness is hardest to see from the code, and proves what each promises.

* **The durable convergence protocol.** A key's ledger is a row of version files, each written by an
  exclusive link. `Ledger` is the sequential machine, `FileLedger` and `MemoryLedger` are the two forms
  of it, and `LedgerRuns` takes every directory read and every link apart, with any number of writers
  failing and dying anywhere. `Lease` runs Acquire, Renew and Release over that, and `LeaseRuns` says what
  they give their holder; `Managed` is the write-ahead order of a mutation, `ManagedRuns` what its answer
  writes, and `Journal` the run's forward log. `Unwind` and `Destroy` are the two loops that
  undo work, over any provider, and `Dependencies` finds what a destroy must keep in order.
* **The proleptic Gregorian calendar.** `Calendar` counts days; `JulianDay`, `IsoWeek`, `Timestamps` and
  `DateTrunc` are the conversions and truncations built on it, in their wrapping 32- and 64-bit
  arithmetic (`MachineInts`). The week rules are those of ISO 8601:2004, sections 2.2.10 and 4.1.4.
* **Caches and indexes.** `RowCache` (with `ExpiryHeap` and `RowCost`) is the transactional row cache and
  `CacheRuns` every run of it by any number of writers, `LruCache` the cost-weighted one, `Replay` and `JoinKey` the hash index that stands in for a nested loop,
  `Filter` the three-valued conditions that decide a row, and `Matched` the loop over them, probed or not.
* **Field ownership and edge placement.** `Json`, `Merge` and `Converge` are the merge strategies, the
  merge patch of section 2 of RFC 7386, the convergence test and the diff row; `Resolver` places
  hash joins, and `Graph` holds what both it and the two undoing loops need of acyclic graphs.

Each file is one module, named after it. Code that updates state is a class with methods or, where
processes interleave, a state machine over its steps; each method is proved against a specification
function or property, and the lemmas say what that specification is worth.

Several promises hold only under a condition, or not quite as the code's comments put them. Each is
stated with the condition and a concrete case that breaks it:

* truncating to a decade and then to a century or millennium differs from truncating once
  (`DateTrunc.FinerFirstChangesNothing`, `DateTrunc.DecadeThenCenturyDiffers`);
* ThreeWay removes a dropped subtree whole, and with it any field another actor put inside
  (`Merge.LeftAloneIffForeign`, `Merge.DroppedSubtreeTakesForeignFields`);
* the convergence test misjudges exactly the values that print like what is sent without being it, a number
  held as text among them (`Converge.NothingToDoIff`, `Converge.NumberAndTextLookAlike`);
* the diff of a hand-written graph does not see a dropped top-level field
  (`Converge.OwnFieldsSeeEverythingButDrops`, `Converge.DroppedFieldUnseen`);
* the cost-weighted cache keeps too much when its sum overflows, which takes a budget over 2^62
  (`LruCache.EvictIsExactIff`, `LruCache.OverflowKeepsTooMuch`);
* a journal reopened after an append that never reached disk can repeat a sequence number
  (`Journal.ReopeningNeedsNoGap`, `Journal.ReopeningCanRepeatANumber`);
* a number returned by the journal does not promise that the record can be read: a write that broke off
  earlier, or one line too long to scan, leaves the whole journal unreadable (`Journal.ReadsBackIff`,
  `Journal.ReturnedNumberCanBeLost`);
* a compensation names its object exactly when the last call on the entry was the Resolve that named it: the
  restore of an update that died between Begin and Resolve goes out with no identity
  (`Unwind.Unwinder.NamedIffResolved`, `Unwind.Unwinder.InterruptedUpdateIsUnnamed`);
* the row cache's int64 sums are exact unless the budget is over half the range, where a sum that wraps is let
  through (`RowCache.BudgetTestIsExactIff`);
* the plan a journal record carries is the one its request replaces exactly when no Resolve or Forget since
  the key was read left another; a Begin accepted as a repeat and a delete sent late can both carry an
  older one (`Managed.PriorIsReplacedIff`, `Managed.AcceptedRepeatCanHoldAnOlderPrior`,
  `Managed.LateDeleteCanHoldAnOlderPrior`);
* a refused mutation whose Get found no entry forgets whatever entry there then is: only its own intent exactly
  when the call before was a Begin, and else an object another mutation made, by a repeated create or a late
  delete (`ManagedRuns.ForgetsIntentIff`, `ManagedRuns.RefusedRepeatForgetsTheObject`,
  `ManagedRuns.RefusedDeleteForgetsTheObject`);
* a lease stands until the expiry it records unless its own holder releases it or renews it for less
  (`LeaseRuns.HeldUntilExpiry`);
* the in-memory ledger starts its versions again after Forget, so the two ledgers answer a stale version
  differently exactly when its number has come round again and the call repeats nothing pending
  (`MemoryLedger.FilesRefineMemoryIff`, `MemoryLedger.ReferenceReusesVersions`);
* a probe does what matching every row does exactly when matching every row does not stop with an error at
  a row the probe skips, and one by a missing value only if moreover every row is a document
  (`Matched.ProbeThenMatch`, `Matched.ProbeCanSkipAnError`, `Matched.MissingMatchesNothingIff`).

## Model

| member | source | states |
|---|---|---|
| Calendar.DayNumberCountsDays | pkg/sqlfn/pg_datetime.go:90-111 | the day after any date, leap years and year ends included, has the next day number, so day numbers count days |
| Calendar.DayNumberIsMonotone | pkg/sqlfn/pg_datetime.go:97-111 | dates order as their day numbers do, and no two dates share one |
| Calendar.DateOfInvertsDayNumber | pkg/sqlfn/pg_datetime.go:97-134 | dates and day numbers are in bijection, on every integer |
| JulianDay.ValidJulianRange | pkg/sqlfn/pg_datetime.go:62-65 | every real date the check admits has a Julian day from -23 to 2147483644, and both are met |
| JulianDay.Date2j | pkg/sqlfn/pg_datetime.go:97-111 | from 1 March -4800 on the result is the date's day number wrapped to int32, through every wrapping step, so exact wherever it fits |
| JulianDay.J2date | pkg/sqlfn/pg_datetime.go:113-134 | from day -32044 on, negative days included, unsigned wrap-around is harmless and the result is that day's date |
| JulianDay.YearStep | pkg/sqlfn/pg_datetime.go:117-128 | the quotients by 146097 and 1461 give the March year and the day in it, as unsigned arithmetic computes them |
| JulianDay.MonthStep | pkg/sqlfn/pg_datetime.go:130-132 | the multiplications by 2141 and 7834 give the month and day of that day |
| JulianDay.DateRoundTrip | pkg/sqlfn/pg_datetime.go:62-134 | j2date of date2j gives back every real date pgIsValidJulian admits |
| JulianDay.JulianRoundTrip | pkg/sqlfn/pg_datetime.go:97-134 | date2j of j2date gives back every int32 day from -32044 up |
| IsoWeek.IsoYearSpan | pkg/sqlfn/pg_datetime_funcs.go:137-182 | with a week belonging to its Thursday's year, an ISO year runs from its week 1 to the next in 52 or 53 whole weeks |
| IsoWeek.WeekDateNamesItsMonday | pkg/sqlfn/pg_datetime_funcs.go:137-161 | for every day the Monday of its ISO year and week is the Monday on or before it, and weeks lie in 1..53 |
| IsoWeek.MonthDecidesIsoYear | pkg/sqlfn/pg_datetime_funcs.go:112-119 | for every date the week number and the month together give the ISO year by the adjustment truncTm makes |
| IsoWeek.J2day | pkg/sqlfn/pg_datetime.go:137-144 | the weekday of a Julian day, Sunday 0, negative days included |
| IsoWeek.Isoweek2j | pkg/sqlfn/pg_datetime_funcs.go:137-141 | the Julian day of the Monday that many weeks from week 1, wrapped to int32, whatever the week, and so exact for weeks 0 to 53 |
| IsoWeek.Date2isoweek | pkg/sqlfn/pg_datetime_funcs.go:144-161 | the number of the date's Thursday among its year's Thursdays |
| IsoWeek.Date2isoyear | pkg/sqlfn/pg_datetime_funcs.go:164-182 | the calendar year of the date's Thursday |
| Timestamps.Dt2time | pkg/sqlfn/pg_datetime.go:147-155 | microseconds of a day split into fields in range that sum back to them |
| Timestamps.LimitsAreMidnights | pkg/sqlfn/pg_datetime.go:27-60 | the timestamp limits are the midnights of Julian day 0 and of the day the range ends |
| Timestamps.Timestamp2tm | pkg/sqlfn/pg_datetime.go:271-297 | succeeds exactly where the day fits an int32 Julian day, which is every valid timestamp, and the fields are a real date and time whose microseconds are the timestamp |
| Timestamps.Tm2timestamp | pkg/sqlfn/pg_datetime.go:299-319 | on a real date and time of day, with any offset, succeeds exactly when the date passes the Julian check, the unshifted value fits int64 and the shifted one is a valid timestamp, and gives it; with no offset or at most a week's, exactly when the shifted value is valid: the wrap-around tests are exact |
| Timestamps.ModestShiftIsExact | pkg/sqlfn/pg_datetime.go:299-319 | an offset of at most a week brings nothing the earlier tests refuse back into range |
| Timestamps.TimestampRoundTrip | pkg/sqlfn/pg_datetime.go:271-319 | packing what was unpacked gives back every valid timestamp |
| Timestamps.MomentRoundTrip | pkg/sqlfn/pg_datetime.go:271-319 | unpacking what was packed gives back every field of every moment in range |
| Timestamps.MicrosIsMonotone | pkg/sqlfn/pg_datetime.go:299-319 | moments order as their timestamps do, so a timestamp has one moment |
| Timestamps.MomentOfInvertsMicros | pkg/sqlfn/pg_datetime.go:271-319 | moments and microsecond counts are in bijection |
| DateTrunc.TruncatedIsGreatestBoundary | pkg/sqlfn/pg_datetime_funcs.go:63-135 | in both eras a truncation is a boundary of its unit, not after the moment, and no later boundary is |
| DateTrunc.TruncTm | pkg/sqlfn/pg_datetime_funcs.go:63-135 | cuts the broken-down time in place to exactly that truncation, supported for every unit but unknown ones, and reports cuts to a day or coarser |
| DateTrunc.TruncWeek | pkg/sqlfn/pg_datetime_funcs.go:113-121 | the week case lands on the Monday on or before the date |
| DateTrunc.FallThroughFrom | pkg/sqlfn/pg_datetime_funcs.go:64-111 | the loop over the steps from a unit down cuts every field below it, in place |
| DateTrunc.CutYear | pkg/sqlfn/pg_datetime_funcs.go:74-94 | the truncating divisions of the year round toward the start of its unit in both eras |
| DateTrunc.PgTimestampTrunc | pkg/sqlfn/pg_datetime_funcs.go:185-206 | infinities are themselves; any other valid timestamp gives its truncation, a range error exactly where that is no valid timestamp, or the unsupported-unit error |
| DateTrunc.TruncationIsFloor | pkg/sqlfn/pg_datetime_funcs.go:63-206 | on timestamps, truncation is the greatest unit boundary not after the input and is idempotent |
| DateTrunc.FinerFirstChangesNothing | pkg/sqlfn/pg_datetime_funcs.go:63-112 | truncating to a finer unit first leaves a coarser truncation unchanged if and only if it is not a decade whose first years lie in the previous century or millennium |
| DateTrunc.FinerFirstAt | pkg/sqlfn/pg_datetime_funcs.go:63-206 | the same on timestamps |
| DateTrunc.DecadeThenCenturyDiffers | pkg/sqlfn/pg_datetime_funcs.go:86-95 | 2003 truncated to its decade and then its century gives 1901, not 2001 |
| Ledger.IdentityIsLastResolved | internal/ledger/file.go:219-260 | the identity is the one the last call resolved, and a pending entry has none |
| Ledger.AboutIsLastGiven | internal/ledger/file.go:219-260 | what an entry is about is what the last Resolve to say so said since the last Forget, through every Begin and every Resolve that says nothing |
| Ledger.PlanIsLastResolved | internal/ledger/file.go:219-260 | after any legal writes the plan is the last intent resolved since the last Forget, and a pending proposal the last one begun |
| FileLedger.FileLedger.Current | internal/ledger/file.go:69-103 | finds the highest version present, and absent for none or a tombstone |
| FileLedger.FileLedger.Commit | internal/ledger/file.go:113-148 | writes the next version if it does not exist and conflicts otherwise, leaving other keys alone |
| FileLedger.FileLedger.Guard | internal/ledger/file.go:201-217 | the error the presented version meets, or the current entry |
| FileLedger.FileLedger.Get | internal/ledger/file.go:150-156 | the current entry and the version to present next |
| FileLedger.FileLedger.Begin | internal/ledger/file.go:219-232 | does to the key's versions what the sequential ledger does, and nothing to others |
| FileLedger.FileLedger.Resolve | internal/ledger/file.go:234-249 | likewise, phase errors included |
| FileLedger.FileLedger.Forget | internal/ledger/file.go:251-260 | likewise, by adding a tombstone |
| LedgerRuns.LinkLandsIffCurrent | internal/ledger/file.go:113-148 | a link lands exactly when the version read is still the last: the link is the compare-and-swap |
| LedgerRuns.NextKeepsInv | internal/ledger/file.go:69-148 | every step of every writer keeps the versions exactly 1..n, explained by legal sequential writes, and only extends them |
| LedgerRuns.VersionsAreWrittenOnce | internal/ledger/file.go:27-36 | in every run with crashes and failures the version files are exactly 1..n and every later directory extends every earlier one |
| LedgerRuns.OneWriterPerVersion | internal/ledger/file.go:201-217 | of writers presenting one version at most one commits; two that assert absence are separated by a Forget |
| LedgerRuns.ReportsAreCommits | internal/ledger/file.go:113-148 | a reported commit is on disk under the version reported, is what the call writes after the version before it, and no two share one |
| LedgerRuns.PlanSurvivesInterleaving | internal/ledger/file.go:219-260 | in every reachable directory the plan is the last intent resolved since the last Forget, in the order the files were written |
| LedgerRuns.SparedStep | internal/ledger/file.go:113-260 | a step that stops neither the call nor links for another keeps it where the sequential ledger would take it |
| LedgerRuns.SparedCallIsSequential | internal/ledger/file.go:113-260 | taken apart into reads and links, a call that nothing comes between does what the sequential ledger does, to the versions and in its answer |
| MemoryLedger.MemoryLedger.Check | internal/ledger/memory.go:90-103 | the reference's version check, error by error |
| MemoryLedger.MemoryLedger.Begin | internal/ledger/memory.go:105-128 | changes the one slot as the reference machine says, keeping identity, and no other |
| MemoryLedger.MemoryLedger.Resolve | internal/ledger/memory.go:130-152 | likewise |
| MemoryLedger.MemoryLedger.Forget | internal/ledger/memory.go:154-166 | likewise |
| MemoryLedger.FilesRefineMemoryIff | internal/ledger/memory.go:90-166 | through any handle, fresh or stale, a call meets the same error or none in both forms if and only if the handle is not a stale one whose number the reference has reused, or the call repeats a pending proposal; and then the entries agree on all but a pending entry's identity |
| MemoryLedger.FilesRefineMemory | internal/ledger/memory.go:90-166 | with a version read since the last Forget, or none, the two forms always answer alike |
| MemoryLedger.ReadsAreHandles | internal/ledger/memory.go:63-73 | the versions the two forms report when an entry is read are one handle ever after |
| MemoryLedger.ReferenceReusesVersions | internal/ledger/memory.go:119-164 | after Forget and a new Begin a stale version matches in memory and conflicts in the files |
| Lease.ClaimsFollowExpiryOrRelease | internal/lease/lease.go:103-147 | in every interleaving a version with another claim is linked no earlier than the previous claim's recorded expiry, and a release is by the process that minted the claim |
| Lease.ReplacedClaimIsOver | internal/lease/lease.go:170-219 | once a claim is replaced or released no later version records it and no later release ends it |
| Lease.OneLiveClaim | internal/lease/lease.go:103-219 | in every reachable state at most one claim is unexpired and unreleased, it is the last version's, and one process holds it |
| Lease.RunKeepsLeaseInv | internal/lease/lease.go:103-219 | the invariant over history, claims and times that every step of every process keeps |
| Lease.LeaseNextKeepsInv | internal/lease/lease.go:103-219 | each step of Acquire, Renew and Release, and each ledger step, clock tick and death, keeps it |
| LeaseRuns.HeldForTtl | internal/lease/lease.go:125-147 | the record held once an Acquire or Renew returns without error expires the ttl asked for after a time between the asking and the return |
| LeaseRuns.HeldUntilExpiry | internal/lease/lease.go:103-219 | from that return on, in every later state, every version linked before that expiry records the same claim unless the process itself released it or renewed it for less |
| LeaseRuns.ClaimStandsUntilExpiry | internal/lease/lease.go:103-219 | the same of every version that records a lease |
| LeaseRuns.SparedSucceeds | internal/lease/lease.go:103-219 | an Acquire that reads a free or expired lease, and a Renew or Release that reads its own, succeeds if until it returns nothing stops it and no other process links |
| LeaseRuns.GoingStep | internal/lease/lease.go:103-219 | each step that spares such an operation keeps it on its way |
| Managed.RequestsAreRecordedFirst | pkg/omnisdk/managed.go:388-439 | in every reachable state each request sent is preceded by a journal record of its own with the plan read for the key and, unless a delete, by a version holding its intent pending that was there when it was sent |
| Managed.PriorIsReplacedIff | pkg/omnisdk/managed.go:416-431 | in every reachable state, deletes included, the plan a request's record carries is the one it replaces if and only if the last Resolve or Forget since the key was read, if any, left that plan |
| Managed.OnlyBeginsKeepPrior | pkg/omnisdk/managed.go:416-431 | so it is wherever only Begins came in between |
| Managed.NotAttemptedMeansNotSent | pkg/omnisdk/managed.go:412-431 | a mutation whose Begin or append failed sends nothing, and none sends twice |
| Managed.RecordsOnlyGrow | pkg/omnisdk/managed.go:388-520 | whatever dies, journal, versions and requests of a state are prefixes of every later state's |
| Managed.RunKeepsManagedInv | pkg/omnisdk/managed.go:388-520 | every step of opening, answering and committing keeps the protocol's invariant |
| Managed.ManagedNextKeepsInv | pkg/omnisdk/managed.go:388-520 | each of those steps by itself keeps it |
| Managed.AcceptedRepeatCanHoldAnOlderPrior | pkg/omnisdk/managed.go:416-431 | a run of three mutations in which a request is sent whose record carries an older plan than the version holding its intent |
| Managed.LateDeleteCanHoldAnOlderPrior | pkg/omnisdk/managed.go:416-431 | a run in which a delete is sent with an empty plan while the entry holds a resolved one |
| ManagedRuns.EveryVersionIsCaused | pkg/omnisdk/managed.go:388-520 | in every reachable state each version is a Begin by a mutation started with that intent, live by the success of a mutation that is no delete, or a tombstone by one answered |
| ManagedRuns.TombstonesAreEarned | pkg/omnisdk/managed.go:463-500 | every tombstone belongs to a delete that succeeded or to a mutation whose Get found no entry and which the provider refused |
| ManagedRuns.CommittedSuccessIsLive | pkg/omnisdk/managed.go:481-512 | whatever others do, a success whose closing call commits writes the version after the one it found: live, with the intent that was pending as its plan and the answer's identity, or for a delete a tombstone |
| ManagedRuns.SparedAnswerConcludes | pkg/omnisdk/managed.go:463-512 | where nothing interferes after the answer the entry ends as the answer makes it; after a refusal where Get found an entry, or no answer, it stands |
| ManagedRuns.SparedMutationIsSent | pkg/omnisdk/managed.go:388-439 | a mutation of any kind that nothing interferes with from its Get on is not given up, and past its journal record its request goes out |
| ManagedRuns.StepKeepsPast | pkg/omnisdk/managed.go:388-520 | each action keeps every worker's and every version's cause on record |
| ManagedRuns.ForgetsIntentIff | pkg/omnisdk/managed.go:468-475 | a tombstone takes away an intent alone if and only if the call before it was a Begin |
| ManagedRuns.RefusedRepeatForgetsTheObject | pkg/omnisdk/managed.go:468-475 | a run of two creates of one intent in which the refusal of the second forgets the object the first made |
| ManagedRuns.RefusedDeleteForgetsTheObject | pkg/omnisdk/managed.go:468-475 | a run in which the refusal of a delete forgets the object another mutation made |
| Journal.RunJournal.Append | internal/journal/journal.go:92-119 | a returned number means its line was written out and synced after all that was there; the five ways a write can go, one breaking off inside the record or before its newline included |
| Journal.RunJournal.Read | internal/journal/journal.go:121-146 | the lines of the file, or nothing if one is no record or too long to scan |
| Journal.RunJournal.Records | internal/journal/journal.go:148-160 | every record, in append order, exactly when the file can be read |
| Journal.ReadsBackIff | internal/journal/journal.go:92-146 | a run's journal reads back as exactly the records written out, in order, if and only if no write broke off inside a record, none followed one that lost its newline, and every line is short enough to scan |
| Journal.ReturnedNumberCanBeLost | internal/journal/journal.go:112-117 | an append that breaks off and one that succeeds with number 2 leave a journal that cannot be read |
| Journal.OneHandleNumbersIncrease | internal/journal/journal.go:92-119 | through one handle the numbers written out strictly increase whatever fails, and run 1..n exactly when every append was written out |
| Journal.ReopeningNeedsNoGap | internal/journal/journal.go:95-101 | an append after reopening can be read back with numbers increasing if and only if they have no gap, the last line has its newline and the new one is short enough |
| Journal.ReopeningCanRepeatANumber | internal/journal/journal.go:95-101 | a failed append, a written one, and a reopen give out 2 twice |
| Unwind.Unwinder.Restore | internal/unwind/unwind.go:72-100 | undoing an update sends at most the recorded prior, only for a found entry; where storage works it sends exactly that and ends as the provider answers; and it leaves the entry resolved to it with the identity it had, which for any history is the one its last Resolve gave it and none if it was pending |
| Unwind.Unwinder.NamedIffResolved | internal/unwind/unwind.go:62-100 | whatever is sent names the object exactly by what the last call on its entry resolved, and by nothing if that was a Begin; an inverse carries the last resolved plan |
| Unwind.Unwinder.InterruptedUpdateIsUnnamed | internal/unwind/unwind.go:72-89 | an update begun over a resolved entry and never resolved: the only restore permitted has no identity |
| Unwind.Unwinder.Compensate | internal/unwind/unwind.go:159-207 | sends at most one request, never blind: a pending create only after a reading shows it landed; a reversed record is undone in the ledger, a retried one is untouched, no version is lost, and a create's entry gains at most the tombstone, even where syncing it fails; where storage works a live create's inverse is sent, a pending one is read and its inverse sent if it is there, and the verdict is as the provider answers |
| Unwind.Unwinder.Pass | internal/unwind/unwind.go:126-146 | a pass accounts for every record it was given, and over a reversible acyclic run it always makes progress |
| Unwind.Unwinder.Unwind | internal/unwind/unwind.go:102-151 | ends for every provider and storage behaviour with compensated plus outstanding a permutation of the journal's keys and a reason for each outstanding one, which where storage works is what kept one of its records from being reversed; in the ledger the creates that are not outstanding are forgotten and what only updates concern is live with a recorded prior and its own identity; a reversible acyclic run, of updates and of live and pending creates, is reversed entirely, for every journal order, leaving nothing it created live or recorded, and last first where nothing depends on anything; unwinding once more sends nothing |
| Unwind.Unwinder.AcceptedUpdatesAreReversible | internal/unwind/unwind.go:72-100 | a run of updates with recorded priors on a provider that accepts everything is reversible, so none is outstanding |
| Unwind.SettledOn | internal/unwind/unwind.go:126-146 | one attempt keeps every record still to be tried, stuck, or met in the ledger |
| Unwind.Backwards | internal/unwind/unwind.go:112-121 | the records are taken last first, all of them |
| Unwind.Unwinder.Passes | internal/unwind/unwind.go:123-149 | passes repeat until nothing is left or one reverses nothing, and what is left is outstanding with its reason |
| Unwind.NeverStalls | internal/unwind/unwind.go:123-146 | acyclic dependencies never block every remaining record at once |
| Destroy.CheckSelection | pkg/omnisdk/destroy.go:66-91 | refuses a selection exactly when a selected key is not listed, an entry cannot be read, or something retained depends on a selected key |
| Destroy.Select | pkg/omnisdk/destroy.go:59-123 | the targets are exactly the picked, readable, confirmed entries with their identities, and the picked rest are reported; nothing kept reads from anything picked |
| Destroy.Destroyer.Delete | pkg/omnisdk/destroy.go:183-199 | the journal precedes the request, a failed append sends nothing, success leaves the key forgotten, and a failure leaves its versions as they were or, after a request, with a tombstone whose sync failed |
| Destroy.Destroyer.Send | pkg/omnisdk/destroy.go:185-193 | the request names the recorded identity and follows its journal record; where storage works it is sent once and the error is the provider's refusal or none |
| Destroy.Destroyer.Waits | pkg/omnisdk/destroy.go:155-160 | a key waits exactly while another pending target reads from it |
| Destroy.Destroyer.Pass | pkg/omnisdk/destroy.go:151-171 | deletes only what nothing else in the pass's starting list depends on, and with acyclic dependencies and nothing refused deletes something |
| Destroy.Destroyer.Destroy | pkg/omnisdk/destroy.go:148-178 | ends whatever the provider does; nothing destroyed has a remaining dependent, dependents go strictly first, every target is accounted for, what is left has the provider's own reason or a dependent left, and with acyclic dependencies and nothing refused all are destroyed |
| Dependencies.DependsOn | pkg/omnisdk/managed.go:351-386 | exactly the other resources met first on some way back along the wirings, as owner or else as recalled, never the resource itself, cyclic graphs included |
| Dependencies.BackIsThroughOwn | pkg/omnisdk/managed.go:374-383 | the way back goes on through exactly the nodes that belong to and recall no other resource |
| RowCache.Memory.constructor | pkg/rowcache/memory.go:25-43 | a zero limit takes its default and an entry may not exceed the whole budget |
| RowCache.Memory.Drop | pkg/rowcache/memory.go:84-89 | an entry leaves map, list, heap and byte count together |
| RowCache.Memory.Reserve | pkg/rowcache/memory.go:90-106 | succeeds exactly when the cost fits beside the protected key's entry and what writers hold; evicts least recently used first, no more than needed, never the protected entry |
| RowCache.Memory.Lookup | pkg/rowcache/memory.go:107-130 | a hit is the key's last commit, unexpired, and becomes most recently used; an expired entry is dropped; nothing else changes |
| RowCache.Memory.Begin | pkg/rowcache/memory.go:131-150 | admits a writer exactly when a slot and its initial cost fit, keeping its key's published entry |
| RowCache.Memory.Collect | pkg/rowcache/memory.go:151-169 | uncancelled, removes exactly the expired entries and keeps the rest in order; cancelled, removes none that has not expired |
| RowCache.Memory.Close | pkg/rowcache/memory.go:170-178 | holds nothing and stays closed, writers' reservations apart |
| RowCache.Writer.Append | pkg/rowcache/memory.go:188-215 | adds the row exactly when it can be stored, fits in an entry, and room can be made without evicting its key's entry; a failure leaves the writer as it was |
| RowCache.Writer.Commit | pkg/rowcache/memory.go:216-248 | publishes the rows as the key's last commit at the front, evicting the least recently used past the entry limit; a failed commit changes nothing |
| RowCache.Memory.Publish | pkg/rowcache/memory.go:232-245 | replaces the key's entry, evicts the least recently used beyond the limit, and moves the cost from reserved to held |
| RowCache.Memory.Grow | pkg/rowcache/memory.go:200-211 | reserves more for an open writer exactly when it fits |
| RowCache.Writer.Abort | pkg/rowcache/memory.go:249-261 | gives back exactly what was reserved and touches no entry |
| RowCache.ShedStep | pkg/rowcache/memory.go:92-99 | evicting the last unprotected entry is one step down the recency list, the protected one skipped |
| RowCache.Memory.SoonestIsFirst | pkg/rowcache/memory.go:161-165 | when the heap's root has not expired, no entry has |
| RowCache.SameWithout | pkg/rowcache/memory.go:84-89 | removing one entry keeps map, list and heap over the same entries |
| RowCache.BudgetTestIsExactIff | pkg/rowcache/memory.go:90-104 | the int64 test against the budget is the exact one if and only if the sum fits int64, which a budget of at most half the range ensures |
| RowCache.NothingEvicted | pkg/rowcache/memory.go:232-243 | a commit drops no other key while all of them are within the entry limit |
| CacheRuns.Drive | pkg/rowcache/memory.go:25-261 | over any sequence of calls by any number of writers: each call comes to what the calls before it decide, only room being left open; every hit shows the rows the last commit of its key had appended, before they expire; no writer is heard of after it ended; what is held stays within the budget; and what is reserved in the end is what open writers hold back |
| CacheRuns.NothingIsLost | pkg/rowcache/memory.go:90-169 | while all ever reserved fits the budget and all keys the limit, the last commit of a key is held until it expires or the cache is closed |
| CacheRuns.FoundUnlessPressed | pkg/rowcache/memory.go:107-130 | so a lookup then finds exactly its rows |
| CacheRuns.LatestIsLastCommit | pkg/rowcache/memory.go:216-248 | what is latest for a key is what the last commit logged for it published |
| ExpiryHeap.RootIsFirst | pkg/rowcache/memory.go:63-76 | in heap order the root expires no later than any entry |
| ExpiryHeap.Heap.Push | pkg/rowcache/memory.go:63-76 | adds an entry keeping heap order and every back-index |
| ExpiryHeap.Heap.Swap | pkg/rowcache/memory.go:67 | exchanges two entries and their back-indexes |
| ExpiryHeap.Heap.Pop | pkg/rowcache/memory.go:69-76 | drops the last entry, which then has no index |
| ExpiryHeap.Heap.Remove | pkg/rowcache/memory.go:63-76 | takes out the entry at any index keeping heap order and every back-index |
| RowCost.ValueCost | pkg/rowcache/memory.go:291-337 | succeeds exactly for a storable value no deeper than 64 whose full price is within budget, with that price |
| RowCost.AnyOrderCostsTheSame | pkg/rowcache/memory.go:306-318 | the fields of a map cost the same in every order |
| RowCost.ReorderedCostsTheSame | pkg/rowcache/memory.go:291-337 | ranging over the maps at any depth in another order changes neither the price nor whether the value can be stored |
| RowCost.PriceCoversWhatIsHeld | pkg/rowcache/memory.go:291-337 | a price is at least the bytes of text and data a value holds and 32 for each value in it |
| RowCost.StorableIff | pkg/rowcache/memory.go:292-332 | a value can be stored if and only if it holds nothing of another kind and nests no deeper than 64 |
| LruCache.Lru.Remove | pkg/cache/cache.go:141-146 | an entry leaves list, map and cost together |
| LruCache.Lru.Get | pkg/cache/cache.go:105-120 | an entry is removed and absent exactly when there is a ttl, short of the longest duration, and now is past its storing by more; any other is returned and moved to the front |
| LruCache.Lru.Put | pkg/cache/cache.go:122-139 | the survivors are a prefix of the recency list with the new entry first, never empty, and the longest that fits if and only if the sum stays within an int64; a value over budget is not stored |
| LruCache.Lru.EvictOver | pkg/cache/cache.go:136-138 | evicts from the back until within what the cache sees, never reaching an empty list |
| LruCache.EvictIsLongestFit | pkg/cache/cache.go:136-138 | eviction leaves the longest most-recent-first prefix within budget and count |
| LruCache.EvictIsExactIff | pkg/cache/cache.go:135-138 | it does so if and only if what the count alone leaves totals within an int64 |
| LruCache.OverflowKeepsTooMuch | pkg/cache/cache.go:135-138 | two entries of 2^62 under a budget of 2^62 are both kept |
| JoinKey.KeyStandsForEquality | pkg/omnisdk/relational.go:247-319 | two values compare equal exactly when both have a join key and it is the same |
| JoinKey.ComparisonMirrors | pkg/omnisdk/relational.go:247-293 | comparing the other way round gives the opposite sign, or nothing both ways |
| JoinKey.ComparisonOrders | pkg/omnisdk/relational.go:247-293 | two numbers compare as they stand, exactly or as infinities, other values by the first character they differ in, and the sign is -1, 0 or 1 |
| Replay.Entry.CatchUp | pkg/omnisdk/relational.go:510-536 | afterwards the column's index and the unkeyed list say where every recorded row is |
| Replay.Entry.Append | pkg/omnisdk/relational.go:538-546 | a row arriving leaves every column's index and the unkeyed list true |
| Replay.ProbeReader.Next | pkg/omnisdk/relational.go:593-635 | emits the rows with its key and the unkeyed ones, each once, in arrival order; says there is no more only when recording is done and all are emitted |
| Replay.ReaderSurvivesArrival | pkg/omnisdk/relational.go:538-551 | rows arriving between a reader's looks disturb nothing it has emitted or counted |
| Replay.Entry.Finish | pkg/omnisdk/relational.go:547-550 | the end of a recording leaves every index true |
| Matched.JudgeRow | pkg/omnisdk/relational.go:843-868 | a document is kept if every condition is true, dropped at the first that is not, and fails at the first that cannot be evaluated before that |
| Matched.MatchRows | pkg/omnisdk/relational.go:836-871 | the rows kept, in order, up to the first that fails |
| Matched.ProbeDecides | pkg/omnisdk/relational.go:394-432 | the equality a node is probed by never fails and is true exactly on the rows with the probed key |
| Matched.ProbesEitherWay | pkg/omnisdk/relational.go:394-432 | a condition probes exactly when it equates an own column with another node's, the same either way round |
| Matched.ProbeIsFirst | pkg/omnisdk/relational.go:394-411 | the probe is the first such condition's |
| Matched.ProbeThenMatch | pkg/omnisdk/relational.go:457-465 | probing and then matching emits and fails exactly as matching every row does if and only if matching every row does not stop with an error at a row the probe skips |
| Matched.ProbeCanSkipAnError | pkg/omnisdk/relational.go:457-465 | one row with another key and a condition that cannot be evaluated: matching every row fails, the probe emits nothing and does not |
| Matched.ProbeFirstIsExact | pkg/omnisdk/relational.go:393-411 | where the probed equality stands first among the conditions it never does |
| Matched.MissingMatchesNothingIff | pkg/omnisdk/relational.go:460-464 | answering nothing for a missing value agrees with matching every row if and only if every row is a document and none fails |
| Filter.InIsAnyEquality | pkg/omnisdk/relational.go:146-201 | IN a list comes to what OR of the equalities with its items comes to, errors included |
| Filter.DecidedStaysDecided | pkg/omnisdk/relational.go:116-213 | a condition on columns and literals that is decided on a row stays decided the same way however its missing values are filled in |
| Filter.NumbersCompareAsNumbers | pkg/omnisdk/relational.go:116-145 | on two values that read as exact numbers each of the six operators is true exactly when the numbers stand so |
| Filter.OperatorsAgree | pkg/omnisdk/relational.go:116-145 | on all values and errors a comparison is its mirror image, at most is less or equal, and the other three deny their opposites |
| Filter.NotExchanges | pkg/omnisdk/relational.go:204-212 | NOT exchanges true and false, keeps unknown and errors, and undoes itself |
| Filter.OrIsAny | pkg/omnisdk/relational.go:189-203 | OR is true as soon as one branch is and false only if all are |
| Filter.ArgumentsInOrder | pkg/omnisdk/relational.go:222-243 | a function is called with its arguments' values in their order, and fails if one of them does |
| Filter.RewriteKeepsMeaning | pkg/omnisdk/query.go:1274-1345 | a rewritten condition says of a row under its kept names what the original says of the row |
| Filter.ReadsOnlyItsColumns | pkg/omnisdk/query.go:1247-1259 | a condition says the same of any row that holds the same in the columns it is known to read |
| Merge.BuildMutation | internal/merge/merge.go:69-91 | the two loops build the mutation in any order of ranging over the maps |
| Merge.ApplyPatch | pkg/omnisdk/docs.go:169-192 | the loop applies the patch in any order of ranging over it |
| Merge.FateMeaning | internal/merge/merge.go:72-98 | what befalls a path told from the documents alone: settled below a leaf of desired, removed where desired stops mentioning what was claimed |
| Merge.FateDecides | internal/merge/merge.go:61-91 | applied to whatever is live, every path at any depth meets its fate |
| Merge.ThreeWayEnforcesAndRemoves | internal/merge/merge.go:33-67 | every field asked for is there at any depth, every field claimed before and no longer asked for is gone |
| Merge.LeftAloneIffForeign | internal/merge/merge.go:33-91 | a path is left alone whatever is live if and only if it is foreign: off desired's tree at a field neither document has |
| Merge.ForeignIsUnclaimed | internal/merge/merge.go:33-91 | foreign paths are claimed by neither document |
| Merge.DroppedSubtreeTakesForeignFields | internal/merge/merge.go:81-89 | an unclaimed path that is removed with the subtree around it |
| Merge.ReplaceLeavesOnlyDesired | internal/merge/merge.go:24-51 | Replace makes any object exactly what was asked for |
| Merge.AdditiveKeepsDropped | internal/merge/merge.go:29-59 | Additive keeps exactly the paths ThreeWay would remove |
| Converge.PatchSatisfies | internal/apply/apply.go:47-72 | every object satisfies a mutation once it has been applied |
| Converge.PatchSettles | pkg/omnisdk/docs.go:169-192 | a patch applied twice is a patch applied once |
| Converge.NothingToDoIff | internal/apply/apply.go:19-72 | however values print, applying a mutation changes nothing if and only if it is satisfied and nothing held merely looks like what is sent |
| Converge.SatisfiedIsNothingToDo | internal/apply/apply.go:19-72 | so where nothing looks alike, satisfied holds exactly when applying the mutation changes nothing |
| Converge.PrintedApartNothingLooksAlike | internal/apply/apply.go:67-69 | nothing looks alike where distinct values print apart |
| Converge.LooksAreEnough | internal/apply/apply.go:47-72 | what differs from an object the mutation would not change only in leaves that print the same, of any type, is satisfied |
| Converge.NumberAndTextLookAlike | internal/apply/apply.go:67-69 | a number and the string of its digits count as converged though the patch would change one to the other |
| Converge.DiffRow | pkg/omnisdk/managed.go:228-296 | absent without an identity, otherwise match or drift by the three-way mutation against the recorded plan, with what to send and every error |
| Converge.ResolvedIntentIsPrior | pkg/omnisdk/managed.go:240-249 | an intent begun and resolved in the ledger is what the next diff compares with |
| Converge.RerunMatches | pkg/omnisdk/managed.go:228-296 | once a drift's intent is begun, its mutation applied and the intent resolved, the diff of the same desired state against what the ledger then holds is a match: a re-run sends nothing |
| Converge.FirstDiffIsOfDesired | internal/merge/merge.go:106-109 | a key never resolved is diffed against nothing, whatever the decoder makes of no bytes: what is sent is desired, and it matches exactly when the object satisfies it |
| Converge.NullIsAbsent | pkg/omnisdk/managed.go:235-239 | a live field that is null or was not read counts as absent |
| Converge.LoweredSeesEverything | pkg/omnisdk/desired.go:470-476 | with dropped fields lowered to nulls the mutation is the same and the diff decides on the whole object |
| Converge.OwnFieldsSeeEverythingButDrops | pkg/omnisdk/managed.go:206-239 | reading only desired's own fields decides on the whole object exactly when it holds no dropped field |
| Converge.DroppedFieldUnseen | pkg/omnisdk/managed.go:206-239 | a dropped top-level field still held, reported as a match |
| Resolver.Resolver.Reaches | pkg/omnisdk/query.go:1118-1135 | true exactly when a non-empty arrival path exists, ending on cyclic graphs too |
| Resolver.Resolver.Walk | pkg/omnisdk/query.go:1120-1133 | a search from a node that fails has closed off everything it newly saw |
| Resolver.Resolver.Filter | pkg/omnisdk/query.go:1235-1262 | a condition lands on the query or on one node, adding exactly the edges from the other tables it reads, and every column of theirs arrives at the node |
| Resolver.Resolver.Arrive | pkg/omnisdk/query.go:771-777 | adds one arrival and its edge, and its node to the consumers once |
| Resolver.Resolver.HashJoin | pkg/omnisdk/query.go:1080-1116 | an equality is placed exactly when it joins two inner tables and its edge would close no cycle; between two of the query's tables the edge runs from the one that stands first in the order to the later, which is joined; it keeps an acyclic graph acyclic and a forward one forward |
| Resolver.JoinRunsForward | pkg/omnisdk/query.go:1103-1115 | whichever way the equality is written, the condition is put on the later table in the order and fed from the earlier |
| Resolver.Resolver.PlaceUnbound | pkg/omnisdk/query.go:499-512 | all remaining conditions land somewhere; an acyclic arrival graph stays so, and one whose edges run forward in the order too |
| Graph.EdgeKeepsAcyclic | pkg/omnisdk/query.go:1108-1116 | an edge keeps a graph acyclic if and only if it is no loop and its target does not reach its source |
| Graph.HasSource | pkg/omnisdk/destroy.go:148-171 | every non-empty set in an acyclic graph has a member no other points to |
| Graph.PathStartsInside | pkg/omnisdk/query.go:1120-1133 | what a search has closed off holds the start of every path into it |
| Graph.PathStaysInside | pkg/omnisdk/managed.go:367-383 | what a walk has closed off holds the end of every path out of it |
| Graph.PathWithEdge | pkg/omnisdk/query.go:1108-1116 | a path in a graph with one more edge avoids the edge or splits at it |

## Left out

- Lease.OneLiveClaim: the key set a lease names, which is recorded and never compared, is left out; claim ids are taken as fresh, the clock as shared and never running back, and reads of the ledger as not failing, because none of these is the lease's own code.
- IsoWeek.Date2isoweek: for years -4798 to 5874897; beyond them a neighbouring 4 January leaves int32, or lies before the days date2j counts exactly.
- IsoWeek.Date2isoyear: for years -4798 to 5874897, likewise.
- IsoWeek.Isoweek2j: for years -4798 to 5874897, likewise.
- JoinKey.KeyStandsForEquality: parsing is a parameter with the promises stated in `Sound`, and a key is a value rather than its text, because ParseInt, ParseFloat and big.Rat are not part of this model.
- Converge.DiffRow: does not route an update to one of several methods, because routing reads documents; JSON text is decoded by a parameter.
- Filter.DecidedStaysDecided: not for conditions that call functions, which may answer differently on a missing value.
- RowCache.Memory.Reserve: byte counts are unbounded integers; how the source's int64 sums differ is stated apart, in `RowCache.BudgetTestIsExactIff`. Negative limits, which the source refuses, are not representable.
- CacheRuns.Drive: whether there is room for a call is decided only where nothing need be evicted, because what eviction leaves is stated call by call in `RowCache`.
- Unwind.Unwinder.Unwind: the journal is given as its records; opening and reading it can fail before the loop starts.
- Destroy.Select: access checks, the lease around the run and the wiring of provider operations come before or after it.
- Time zones, daylight saving and timestamptz: they depend on the tz database.
- Week truncation among months and coarser units: weeks cut across them, so no nesting is claimed.
- The floating-point functions and their libm ports.
- Provider requests, HTTP, credentials and documents: the provider is a function over an arbitrary state.
- Ledger key validation, List and temporary-file handling: a synced link is taken as durable, atomic and exclusive.
- The rest of query resolution: constants, edges of needed parameters, left joins, projections and pushdown read table documents; the columns a node retains are not tracked.
- compensate of pkg/omnisdk/managed.go: the same passes as Unwind with fewer outcomes.
- The replay store's map of recordings by request, and cancellation of waiting readers.
- Cursors over cached rows and the collector's timer; the row cache's mutex makes its calls atomic, so writers interleave call by call.
