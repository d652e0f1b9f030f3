/** When there is nothing to do: the test of internal/apply/apply.go, and the diff row of
    pkg/omnisdk/managed.go that decides by it what a re-run sends. */
module Converge {
  import opened Json
  import opened Merge
  import L = Ledger
  import F = FileLedger
  import opened Wrappers

  /** How a value prints (fmt.Sprint), a parameter of the model. */
  type Print = Value -> string

  /** Sending the mutation is judged unnecessary: at every depth what it sets prints as what is held, and
      nothing it removes is there. */
  predicate Satisfied(print_: Print, want: Value, have: Value)
    requires want.Object? && have.Object?
    decreases want
  {
    forall k | k in want.fields ::
      var v := want.fields[k];
      if v.Null? then k !in have.fields
      else
        && k in have.fields
        && if v.Object? && have.fields[k].Object? then Satisfied(print_, v, have.fields[k])
           else print_(v) == print_(have.fields[k])
  }

  /** What a patch would not change satisfies it. */
  lemma {:induction false} UnchangedIsSatisfied(print_: Print, m: Value, a: Value)
    requires m.Object? && a.Object? && MergePatch(a, m) == a
    ensures Satisfied(print_, m, a)
    decreases m
  {
    forall k | k in m.fields && !m.fields[k].Null?
      ensures k in a.fields && a.fields[k] == MergePatch(Child(a, k), m.fields[k])
      ensures m.fields[k].Object? && a.fields[k].Object? ==> Satisfied(print_, m.fields[k], a.fields[k])
    {
      assert k in MergePatch(a, m).fields;
      if m.fields[k].Object? {
        UnchangedIsSatisfied(print_, m.fields[k], a.fields[k]);
      }
    }
    forall k | k in m.fields && m.fields[k].Null? ensures k !in a.fields {
      assert k !in MergePatch(a, m).fields;
    }
  }

  /** A patch applied twice is a patch applied once. */
  lemma {:induction false} PatchSettles(a: Value, m: Value)
    ensures MergePatch(MergePatch(a, m), m) == MergePatch(a, m)
    decreases m
  {
    if m.Object? {
      var r := MergePatch(a, m);
      var r' := MergePatch(r, m);
      forall k | k in m.fields && !m.fields[k].Null? ensures r'.fields[k] == r.fields[k] {
        assert r.fields[k] == MergePatch(Child(a, k), m.fields[k]);
        PatchSettles(Child(a, k), m.fields[k]);
      }
      assert r'.fields == r.fields;
    }
  }

  /** Once its mutation is applied, an object satisfies it. */
  lemma PatchSatisfies(print_: Print, a: Value, m: Value)
    requires m.Object?
    ensures Satisfied(print_, m, MergePatch(a, m))
  {
    PatchSettles(a, m);
    UnchangedIsSatisfied(print_, m, MergePatch(a, m));
  }

  /** Somewhere the object holds a value that is not the one the mutation sends but prints like it. */
  predicate LookAlike(print_: Print, m: Value, a: Value)
    requires m.Object? && a.Object?
    decreases m
  {
    exists k | k in m.fields ::
      && !m.fields[k].Null? && k in a.fields
      && if m.fields[k].Object? && a.fields[k].Object? then LookAlike(print_, m.fields[k], a.fields[k])
         else m.fields[k] != a.fields[k] && print_(m.fields[k]) == print_(a.fields[k])
  }

  /** Whatever prints like what: applying a mutation changes nothing exactly when it is satisfied and
      nothing in the object merely looks like what is sent. */
  lemma {:induction false} NothingToDoIff(print_: Print, m: Value, a: Value)
    requires m.Object? && a.Object?
    ensures MergePatch(a, m) == a <==> Satisfied(print_, m, a) && !LookAlike(print_, m, a)
    decreases m
  {
    var r := MergePatch(a, m);
    forall k | k in m.fields && k in a.fields && m.fields[k].Object? && a.fields[k].Object?
      ensures MergePatch(a.fields[k], m.fields[k]) == a.fields[k]
         <==> Satisfied(print_, m.fields[k], a.fields[k]) && !LookAlike(print_, m.fields[k], a.fields[k])
    {
      NothingToDoIff(print_, m.fields[k], a.fields[k]);
    }
    if Satisfied(print_, m, a) && !LookAlike(print_, m, a) {
      forall k | k in m.fields && !m.fields[k].Null? ensures k in a.fields && r.fields[k] == a.fields[k] {
        assert r.fields[k] == MergePatch(a.fields[k], m.fields[k]);
      }
      assert r.fields == a.fields;
    } else if r == a {
      UnchangedIsSatisfied(print_, m, a);
      forall k | k in m.fields && !m.fields[k].Null? && k in a.fields
        ensures r.fields[k] == MergePatch(a.fields[k], m.fields[k])
      {
      }
    }
  }

  /** In particular, where the object's values print apart from those sent unless they are the same. */
  lemma SatisfiedIsNothingToDo(print_: Print, m: Value, a: Value)
    requires m.Object? && a.Object? && !LookAlike(print_, m, a)
    ensures Satisfied(print_, m, a) <==> MergePatch(a, m) == a
  {
    NothingToDoIff(print_, m, a);
  }

  /** Nothing looks like anything else if distinct values print apart. */
  lemma {:induction false} PrintedApartNothingLooksAlike(print_: Print, m: Value, a: Value)
    requires m.Object? && a.Object? && forall x, y | print_(x) == print_(y) :: x == y
    ensures !LookAlike(print_, m, a)
    decreases m
  {
    forall k | k in m.fields && k in a.fields && m.fields[k].Object? && a.fields[k].Object?
      ensures !LookAlike(print_, m.fields[k], a.fields[k])
    {
      PrintedApartNothingLooksAlike(print_, m.fields[k], a.fields[k]);
    }
  }

  /** The object is another with some of its leaves held as values that print the same. */
  predicate OnlyLooksDiffer(print_: Print, b: Value, a: Value)
    requires b.Object? && a.Object?
    decreases b
  {
    && a.fields.Keys == b.fields.Keys
    && forall k | k in b.fields ::
         if b.fields[k].Object? && a.fields[k].Object? then OnlyLooksDiffer(print_, b.fields[k], a.fields[k])
         else a.fields[k] == b.fields[k] || (!b.fields[k].Object? && print_(a.fields[k]) == print_(b.fields[k]))
  }

  /** And it is satisfied by whatever differs from an object it would not change only in leaves that look the
      same: of any type, not of numbers alone. */
  lemma {:induction false} LooksAreEnough(print_: Print, m: Value, b: Value, a: Value)
    requires m.Object? && b.Object? && a.Object? && MergePatch(b, m) == b && OnlyLooksDiffer(print_, b, a)
    ensures Satisfied(print_, m, a)
    decreases m
  {
    forall k | k in m.fields && !m.fields[k].Null?
      ensures k in b.fields && b.fields[k] == MergePatch(b.fields[k], m.fields[k])
      ensures m.fields[k].Object? && a.fields[k].Object? ==> Satisfied(print_, m.fields[k], a.fields[k])
    {
      assert k in MergePatch(b, m).fields;
      if m.fields[k].Object? && a.fields[k].Object? {
        LooksAreEnough(print_, m.fields[k], b.fields[k], a.fields[k]);
      }
    }
    forall k | k in m.fields && m.fields[k].Null? ensures k !in a.fields {
      assert k !in MergePatch(b, m).fields;
    }
  }

  /** As Go prints them, values can look alike: a number and the string of its digits do, so a field held
      as the wrong type counts as converged and is never sent. */
  lemma NumberAndTextLookAlike(print_: Print)
    requires print_(Number("5")) == print_(String("5"))
    ensures var m, a := Object(map["n" := Number("5")]), Object(map["n" := String("5")]);
            Satisfied(print_, m, a) && LookAlike(print_, m, a) && MergePatch(a, m) != a
  {
    var m, a := Object(map["n" := Number("5")]), Object(map["n" := String("5")]);
    assert "n" in m.fields;
    assert MergePatch(a, m).fields["n"] == Number("5");
  }

  /** Nothing but itself is dropped from a document by the document. */
  lemma {:induction false} EnforceItself(d: Value)
    requires d.Object?
    ensures Enforce(d, d) == d
    decreases d
  {
    forall k | k in d.fields && d.fields[k].Object? ensures Enforce(d.fields[k], ChildOf(d, k)) == d.fields[k] {
      EnforceItself(d.fields[k]);
    }
    assert Enforce(d, d).fields == d.fields;
  }

  /** Applying a mutation leaves an object that satisfies the document it enforces, whatever was
      dropped along the way. */
  lemma {:induction false} PatchSatisfiesDesired(print_: Print, a: Value, d: Value, drops: Value)
    requires d.Object? && drops.Object?
    ensures Satisfied(print_, d, MergePatch(a, Enforce(d, drops)))
    decreases d
  {
    var m := Enforce(d, drops);
    var r := MergePatch(a, m);
    forall k | k in d.fields && !d.fields[k].Null?
      ensures k in r.fields
      ensures if d.fields[k].Object? then r.fields[k].Object? && Satisfied(print_, d.fields[k], r.fields[k])
              else r.fields[k] == d.fields[k]
    {
      assert r.fields[k] == MergePatch(Child(a, k), m.fields[k]);
      if d.fields[k].Object? {
        PatchSatisfiesDesired(print_, Child(a, k), d.fields[k], ChildOf(drops, k));
      }
    }
  }

  // The diff row.

  datatype Status = Absent | Match | Drift

  /** A diff: the status, the identity, and what to send. */
  datatype Row = Row(status: Status, identity: string, send: Value)

  datatype DiffResult = Diffed(row: Row) | Failed(why: string)

  /** What a diff sees of an object: the fields it was told to read that are there and not null. */
  function Observed(live: map<string, Value>, fields: set<string>): Value {
    Object(map k | k in live && k in fields && !live[k].Null? :: live[k])
  }

  /** What recorded bytes say was asked for; no bytes claim nothing. */
  function Intent(decode: L.Bytes -> Option<Value>, b: L.Bytes): Option<Value> {
    if b == [] then Some(EMPTY) else decode(b)
  }

  /** The recorded intent a diff compares with: none before the first resolve. */
  function PriorOf(decode: L.Bytes -> Option<Value>, h: seq<L.State>): Option<Value> {
    Intent(decode, if L.Found(h) then L.HeadOf(h).plan else [])
  }

  function StatusOf(print_: Print, prior: Value, desired: Value, live: map<string, Value>, fields: set<string>): Status
    requires prior.Object? && desired.Object?
  {
    if Satisfied(print_, ThreeWay(prior, desired), Observed(live, fields)) then Match else Drift
  }

  /** One diff: the live values bound, the ledger's prior, and what they say to send. */
  method DiffRow(log: F.FileLedger, key: F.Key, fields: seq<string>, desired: Value, live: map<string, Value>, id: string,
                 createUnsupported: bool, unreadable: bool, decode: L.Bytes -> Option<Value>, print_: Print) returns (r: DiffResult)
    requires log.Valid() && desired.Object? && forall b | decode(b).Some? :: decode(b).value.Object?
    ensures r.Failed? <==> unreadable || (if id == "" then createUnsupported else PriorOf(decode, log.Versions(key)).None?)
    ensures r.Diffed? ==> r.row.identity == id
    ensures r.Diffed? && id == "" ==> r.row.status == Absent && r.row.send == desired
    ensures r.Diffed? && id != "" ==>
              var prior := PriorOf(decode, log.Versions(key)).value;
              && r.row.status == StatusOf(print_, prior, desired, live, set f | f in fields)
              && r.row.send == ThreeWay(prior, desired)
  {
    var actual: map<string, Value> := map[];
    for i := 0 to |fields|
      invariant actual == Observed(live, set f | f in fields[..i]).fields
    {
      assert fields[..i + 1] == fields[..i] + [fields[i]];
      var f := fields[i];
      if f in live && !live[f].Null? {
        actual := actual[f := live[f]];
      }
    }
    assert fields[..|fields|] == fields;
    if unreadable {
      return Failed("ledger");
    }
    var e, _, found := log.Get(key);
    var plan := if found then e.plan else [];
    if id == "" {
      if createUnsupported {
        return Failed("fields that require an existing object");
      }
      return Diffed(Row(Absent, id, desired));
    }
    var prior := if plan == [] then Some(EMPTY) else decode(plan);
    if prior.None? {
      return Failed("prior is not a JSON object");
    }
    var mutation := BuildMutation(desired, prior.value);
    var same := Satisfied(print_, mutation, Object(actual));
    return Diffed(Row(if same then Match else Drift, id, mutation));
  }

  /** Where the recorded intent is the desired state, an object its mutation was applied to matches. */
  lemma AppliedMatches(print_: Print, obj: Value, prior: Value, desired: Value, fields: set<string>)
    requires prior.Object? && desired.Object? && obj.Object? && desired.fields.Keys <= fields
    ensures StatusOf(print_, desired, desired, MergePatch(obj, ThreeWay(prior, desired)).fields, fields) == Match
  {
    var r := MergePatch(obj, ThreeWay(prior, desired));
    EnforceItself(desired);
    PatchSatisfiesDesired(print_, obj, desired, prior);
    var seen := Observed(r.fields, fields);
    forall k | k in desired.fields && !desired.fields[k].Null?
      ensures k in seen.fields && seen.fields[k] == r.fields[k]
    {
      assert r.fields[k] == MergePatch(Child(obj, k), Enforce(desired, prior).fields[k]);
    }
  }

  /** Nothing was resolved since the entry was last forgotten. */
  ghost predicate NeverResolved(calls: seq<L.Call>) {
    forall i | 0 <= i < |calls| && calls[i].Resolve? :: exists j | i < j < |calls| :: calls[j].Forget?
  }

  lemma {:induction false} NothingResolved(calls: seq<L.Call>)
    requires NeverResolved(calls)
    ensures L.LastResolved(calls) == []
    decreases |calls|
  {
    if calls != [] && calls[|calls| - 1].Begin? {
      var n := |calls| - 1;
      assert forall i | 0 <= i < n :: calls[..n][i] == calls[i];
      NothingResolved(calls[..n]);
    }
  }

  /** A key never resolved is diffed against nothing, whatever the decoder makes of no bytes: what is sent is
      what is desired, and it matches exactly when the object already has it. */
  lemma FirstDiffIsOfDesired(print_: Print, decode: L.Bytes -> Option<Value>, calls: seq<L.Call>, h: seq<L.State>,
                             desired: Value, live: map<string, Value>, fields: set<string>)
    requires L.Explains(calls, h) && NeverResolved(calls) && desired.Object?
    ensures PriorOf(decode, h) == Some(EMPTY) && ThreeWay(EMPTY, desired) == desired
    ensures StatusOf(print_, EMPTY, desired, live, fields) == Match <==> Satisfied(print_, desired, Observed(live, fields))
  {
    if h != [] {
      NothingResolved(calls);
      L.PlanIsLastResolved(calls, h);
    }
    EnforceAlone(desired);
  }

  lemma {:induction false} EnforceAlone(d: Value)
    requires d.Object?
    ensures Enforce(d, EMPTY) == d
    decreases d
  {
    forall k | k in d.fields && d.fields[k].Object? ensures Enforce(d.fields[k], ChildOf(EMPTY, k)) == d.fields[k] {
      EnforceAlone(d.fields[k]);
    }
    assert Enforce(d, EMPTY).fields == d.fields;
  }

  /** A field the provider holds as null, or that was not read, is as if it were not there. */
  lemma NullIsAbsent(print_: Print, prior: Value, desired: Value, live: map<string, Value>, fields: set<string>)
    requires prior.Object? && desired.Object?
    ensures var there := map k | k in live && k in fields && !live[k].Null? :: live[k];
            StatusOf(print_, prior, desired, live, fields) == Match <==> Satisfied(print_, ThreeWay(prior, desired), Object(there))
  {
    assert Observed(live, fields).fields == map k | k in live && k in fields && !live[k].Null? :: live[k];
  }

  /** An intent begun and then resolved is what the next diff compares with. */
  lemma ResolvedIntentIsPrior(decode: L.Bytes -> Option<Value>, h: seq<L.State>, b: L.Bytes, v: L.Version,
                              id: L.Bytes, about: Option<L.Bytes>, w: L.Version)
    requires var begun := L.Run(h, L.Begin(b, v)); !begun.1.Failed? && !L.Run(begun.0, L.Resolve(id, about, w)).1.Failed?
    ensures PriorOf(decode, L.Run(L.Run(h, L.Begin(b, v)).0, L.Resolve(id, about, w)).0) == Intent(decode, b)
  {
  }

  /** A re-run sends nothing: the ledger holds some prior, the mutation against it is begun as the intent
      it enforces, applied to the object and resolved; then the diff of the same desired state, against
      whatever the ledger now says, is a match. */
  lemma RerunMatches(print_: Print, decode: L.Bytes -> Option<Value>, h: seq<L.State>, b: L.Bytes, v: L.Version,
                     id: L.Bytes, about: Option<L.Bytes>, w: L.Version, obj: Value, desired: Value, fields: set<string>)
    requires forall x | decode(x).Some? :: decode(x).value.Object?
    requires PriorOf(decode, h).Some? && Intent(decode, b) == Some(desired)
    requires obj.Object? && desired.Object? && desired.fields.Keys <= fields
    requires var begun := L.Run(h, L.Begin(b, v)); !begun.1.Failed? && !L.Run(begun.0, L.Resolve(id, about, w)).1.Failed?
    ensures var after := L.Run(L.Run(h, L.Begin(b, v)).0, L.Resolve(id, about, w)).0;
            var applied := MergePatch(obj, ThreeWay(PriorOf(decode, h).value, desired));
            PriorOf(decode, after) == Some(desired) && StatusOf(print_, desired, desired, applied.fields, fields) == Match
  {
    ResolvedIntentIsPrior(decode, h, b, v, id, about, w);
    AppliedMatches(print_, obj, PriorOf(decode, h).value, desired, fields);
  }

  /** Desired state as a converging run lowers it: what prior intent held and desired no longer mentions
      is asked to be unset, so the diff reads it. */
  function Lowered(desired: Value, prior: Value): (want: Value)
    requires desired.Object? && prior.Object?
    ensures want.Object? && want.fields.Keys == desired.fields.Keys + prior.fields.Keys
  {
    Object(map k | k in desired.fields.Keys + prior.fields.Keys :: if k in desired.fields then desired.fields[k] else Null)
  }

  /** A diff that reads every field its two documents name decides on the whole object. */
  lemma LoweredSeesEverything(print_: Print, prior: Value, desired: Value, live: map<string, Value>)
    requires prior.Object? && desired.Object? && forall k | k in live :: !live[k].Null?
    ensures ThreeWay(prior, Lowered(desired, prior)) == ThreeWay(prior, desired)
    ensures StatusOf(print_, prior, Lowered(desired, prior), live, Lowered(desired, prior).fields.Keys) == Match
        <==> Satisfied(print_, ThreeWay(prior, desired), Object(live))
  {
    assert ThreeWay(prior, Lowered(desired, prior)).fields == ThreeWay(prior, desired).fields;
  }

  /** A diff that reads only desired's own fields decides on the whole object exactly when the object
      holds nothing prior claimed and desired dropped. */
  lemma OwnFieldsSeeEverythingButDrops(print_: Print, prior: Value, desired: Value, live: map<string, Value>)
    requires prior.Object? && desired.Object? && forall k | k in live :: !live[k].Null?
    ensures Satisfied(print_, ThreeWay(prior, desired), Object(live))
        <==> && StatusOf(print_, prior, desired, live, desired.fields.Keys) == Match
             && forall k | k in prior.fields && k !in desired.fields :: k !in live
  {
    var m := ThreeWay(prior, desired);
    var seen := Observed(live, desired.fields.Keys);
    forall k | k in desired.fields
      ensures k in m.fields && (k in seen.fields <==> k in live) && (k in live ==> seen.fields[k] == live[k])
    {
    }
    forall k | k in prior.fields && k !in desired.fields ensures k in m.fields && m.fields[k] == Null && k !in seen.fields {
    }
  }

  /** So it can miss a dropped field: the object still holds it, and the status is a match. */
  lemma DroppedFieldUnseen(print_: Print)
    ensures var prior, desired := Object(map["a" := Bool(true)]), EMPTY;
            var live := map["a" := Bool(true)];
            && StatusOf(print_, prior, desired, live, desired.fields.Keys) == Match
            && !Satisfied(print_, ThreeWay(prior, desired), Object(live))
  {
    var m := ThreeWay(Object(map["a" := Bool(true)]), EMPTY);
    assert m.fields["a"] == Null;
  }
}
