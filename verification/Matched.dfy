/** Match conditions on a node's rows, pkg/omnisdk/relational.go: the nested loop that tries every row,
    and the probe that shows it only the rows with one key. */
module Matched {
  import opened JoinKey
  import opened Replay
  import opened Wrappers
  import F = Filter
  import R = Resolver

  /** A node's conditions, and what the inbox delivered of other nodes' columns. */
  datatype Matcher = Matcher(env: F.Env, alias: string, on: seq<R.Predicate>, bound: F.Row)

  datatype Verdict = Keep | Drop | Fail

  /** What matching emits, as positions, and the row it stops at with an error. */
  datatype Outcome = Outcome(emitted: seq<nat>, failedAt: Option<nat>)

  /** A probed equality: which column of the node, against which column elsewhere. */
  datatype Probe = Probe(column: string, other: R.Column)

  /** The inbox delivers other nodes' columns only. */
  ghost predicate Delivered(m: Matcher) {
    Sound(m.env.read) && forall c | c in m.bound :: c.qualifier != m.alias
  }

  /** The row conditions read: the node's own columns and the delivered ones. */
  function RowOf(m: Matcher, fields: map<string, Cell>): F.Row {
    (map k | k in fields :: R.Column(m.alias, k) := fields[k]) + m.bound
  }

  /** Conditions are taken in turn until one is not true. */
  function Judge(env: F.Env, on: seq<R.Predicate>, row: F.Row): Verdict {
    if on == [] then Keep
    else
      var t := F.Eval(env, on[0], row);
      if t.Error? then Fail else if t.value != F.True then Drop else Judge(env, on[1..], row)
  }

  /** What is not a document passes. */
  function VerdictOn(m: Matcher, r: Record): Verdict {
    if r.Opaque? then Keep else Judge(m.env, m.on, RowOf(m, r.fields))
  }

  predicate InRange(shown: seq<nat>, n: nat) {
    forall i | 0 <= i < |shown| :: shown[i] < n
  }

  /** Matching the rows shown, in order, until one fails. */
  function Match(m: Matcher, recs: seq<Record>, shown: seq<nat>): Outcome
    requires InRange(shown, |recs|)
  {
    if shown == [] then Outcome([], None)
    else
      var n := |shown| - 1;
      var before := Match(m, recs, shown[..n]);
      if before.failedAt.Some? then before
      else
        match VerdictOn(m, recs[shown[n]])
        case Keep => before.(emitted := before.emitted + [shown[n]])
        case Drop => before
        case Fail => before.(failedAt := Some(shown[n]))
  }

  /** The loop over conditions. */
  method JudgeRow(m: Matcher, fields: map<string, Cell>) returns (v: Verdict)
    ensures v == VerdictOn(m, Doc(fields))
  {
    var row := RowOf(m, fields);
    for i := 0 to |m.on|
      invariant Judge(m.env, m.on, row) == Judge(m.env, m.on[i..], row)
    {
      var t := F.Eval(m.env, m.on[i], row);
      assert m.on[i..][1..] == m.on[i + 1..];
      if t.Error? {
        return Fail;
      }
      if t.value != F.True {
        return Drop;
      }
    }
    return Keep;
  }

  /** The loop over rows, until the rows end or one fails. */
  method MatchRows(m: Matcher, recs: seq<Record>, shown: seq<nat>) returns (o: Outcome)
    requires InRange(shown, |recs|)
    ensures o == Match(m, recs, shown)
  {
    o := Outcome([], None);
    for i := 0 to |shown|
      invariant o.failedAt.None? && o == Match(m, recs, shown[..i])
    {
      assert shown[..i + 1][..i] == shown[..i];
      var r := recs[shown[i]];
      var v := Keep;
      if r.Doc? {
        v := JudgeRow(m, r.fields);
      }
      if v == Fail {
        o := o.(failedAt := Some(shown[i]));
        FailureIsFinal(m, recs, shown, i + 1);
        return;
      }
      if v == Keep {
        o := o.(emitted := o.emitted + [shown[i]]);
      }
    }
    assert shown[..|shown|] == shown;
  }

  lemma {:induction false} FailureIsFinal(m: Matcher, recs: seq<Record>, shown: seq<nat>, i: nat)
    requires InRange(shown, |recs|) && i <= |shown| && Match(m, recs, shown[..i]).failedAt.Some?
    ensures Match(m, recs, shown) == Match(m, recs, shown[..i])
    decreases |shown|
  {
    if i < |shown| {
      assert shown[..|shown| - 1][..i] == shown[..i];
      FailureIsFinal(m, recs, shown[..|shown| - 1], i);
    } else {
      assert shown[..i] == shown;
    }
  }

  /** A condition as a probe, if it equates one of the node's columns with another node's; the sides may
      come in either order. */
  function ProbeFrom(alias: string, p: R.Predicate): Option<Probe> {
    if p.Compare? && p.op == R.Eq && p.left.Ref? && p.right.Ref? then
      var l, r := p.left.column, p.right.column;
      if l.qualifier == alias && r.qualifier != alias then Some(Probe(l.name, r))
      else if r.qualifier == alias && l.qualifier != alias then Some(Probe(r.name, l))
      else None
    else None
  }

  /** The first such equality, wherever it stands among the conditions. */
  function ProbeOf(alias: string, on: seq<R.Predicate>): Option<Probe> {
    if on == [] then None
    else if ProbeFrom(alias, on[0]).Some? then ProbeFrom(alias, on[0])
    else ProbeOf(alias, on[1..])
  }

  /** A condition probes exactly when it equates one of the node's columns with another node's, and then the
      same whichever side each is on. */
  lemma ProbesEitherWay(alias: string, p: R.Predicate)
    ensures ProbeFrom(alias, p).Some? <==>
              exists c: R.Column, d: R.Column ::
                && c.qualifier == alias && d.qualifier != alias
                && (p == R.Compare(R.Eq, R.Ref(c), R.Ref(d)) || p == R.Compare(R.Eq, R.Ref(d), R.Ref(c)))
    ensures p.Compare? ==> ProbeFrom(alias, p) == ProbeFrom(alias, R.Compare(p.op, p.right, p.left))
    ensures ProbeFrom(alias, p).Some? ==>
              var q := ProbeFrom(alias, p).value;
              var own := R.Column(alias, q.column);
              p == R.Compare(R.Eq, R.Ref(own), R.Ref(q.other)) || p == R.Compare(R.Eq, R.Ref(q.other), R.Ref(own))
  {
  }

  /** The probe is the first condition's that can be one. */
  lemma {:induction false} ProbeIsFirst(alias: string, on: seq<R.Predicate>)
    ensures ProbeOf(alias, on).Some? <==> exists i | 0 <= i < |on| :: ProbeFrom(alias, on[i]).Some?
    ensures forall i | 0 <= i < |on| && ProbeFrom(alias, on[i]).Some? && (forall j | 0 <= j < i :: ProbeFrom(alias, on[j]).None?) ::
              ProbeOf(alias, on) == ProbeFrom(alias, on[i])
    decreases |on|
  {
    if on != [] && ProbeFrom(alias, on[0]).None? {
      ProbeIsFirst(alias, on[1..]);
      forall i | 0 <= i < |on| && ProbeFrom(alias, on[i]).Some? && (forall j | 0 <= j < i :: ProbeFrom(alias, on[j]).None?)
        ensures ProbeOf(alias, on) == ProbeFrom(alias, on[i])
      {
        assert forall j | 0 <= j < i - 1 :: on[1..][j] == on[j + 1];
        assert on[1..][i - 1] == on[i];
      }
    }
  }

  /** The value a reader probes by. */
  function ProbeValue(m: Matcher, p: Probe): Cell {
    if p.other in m.bound then m.bound[p.other] else None
  }

  /** Both sides of the equality as a row has them. */
  lemma ReadsProbe(m: Matcher, fields: map<string, Cell>, p: Probe)
    requires Delivered(m) && p.other.qualifier != m.alias
    ensures F.EvalExpr(m.env, R.Ref(R.Column(m.alias, p.column)), RowOf(m, fields)) == F.Value(Field(fields, p.column))
    ensures F.EvalExpr(m.env, R.Ref(p.other), RowOf(m, fields)) == F.Value(ProbeValue(m, p))
  {
    hide Sound;
    OwnColumn(m, fields, p.column);
    OtherColumn(m, fields, p.other);
  }

  lemma OwnColumn(m: Matcher, fields: map<string, Cell>, column: string)
    requires Delivered(m)
    ensures R.Column(m.alias, column) in RowOf(m, fields) <==> column in fields
    ensures column in fields ==> RowOf(m, fields)[R.Column(m.alias, column)] == fields[column]
  {
    hide Sound;
    assert R.Column(m.alias, column) !in m.bound;
    var own := map k | k in fields :: R.Column(m.alias, k) := fields[k];
    assert R.Column(m.alias, column) in own <==> column in fields;
  }

  lemma OtherColumn(m: Matcher, fields: map<string, Cell>, c: R.Column)
    requires c.qualifier != m.alias
    ensures c in RowOf(m, fields) <==> c in m.bound
    ensures c in m.bound ==> RowOf(m, fields)[c] == m.bound[c]
  {
  }

  /** The equality never fails, and holds exactly on the rows with the probed key. */
  lemma ProbeDecides(m: Matcher, q: R.Predicate, fields: map<string, Cell>)
    requires Delivered(m) && ProbeFrom(m.alias, q).Some?
    ensures var p := ProbeFrom(m.alias, q).value;
            var t := F.Eval(m.env, q, RowOf(m, fields));
            var key := KeyOf(m.env.read, ProbeValue(m, p));
            t.Value? && (t.value == F.True <==> key.Some? && KeyOf(m.env.read, Field(fields, p.column)) == key)
  {
    hide CompareValues, KeyOf, RowOf;
    var p := ProbeFrom(m.alias, q).value;
    ReadsProbe(m, fields, p);
    KeyStandsForEquality(m.env.read, Field(fields, p.column), ProbeValue(m, p));
    KeyStandsForEquality(m.env.read, ProbeValue(m, p), Field(fields, p.column));
  }

  /** A row all conditions hold on has the probed key. */
  lemma {:induction false} KeptRowsHaveKey(m: Matcher, on: seq<R.Predicate>, fields: map<string, Cell>)
    requires Delivered(m) && ProbeOf(m.alias, on).Some? && Judge(m.env, on, RowOf(m, fields)) == Keep
    ensures var p := ProbeOf(m.alias, on).value;
            var key := KeyOf(m.env.read, ProbeValue(m, p));
            key.Some? && KeyOf(m.env.read, Field(fields, p.column)) == key
    decreases |on|
  {
    if ProbeFrom(m.alias, on[0]).Some? {
      ProbeDecides(m, on[0], fields);
    } else {
      KeptRowsHaveKey(m, on[1..], fields);
    }
  }

  // The probe against the nested loop.

  function All(n: nat): seq<nat> {
    seq(n, i => i)
  }

  /** Whether matching every row stops, with an error, at a row the probe would not have been shown. */
  ghost predicate StopsAtSkipped(m: Matcher, recs: seq<Record>, shown: Want) {
    exists p: nat | p < |recs| ::
      && !Wants(m.env.read, shown, recs[p]) && VerdictOn(m, recs[p]) == Fail
      && forall q | 0 <= q < p :: VerdictOn(m, recs[q]) != Fail
  }

  lemma WhereFits(m: Matcher, recs: seq<Record>, w: Want)
    ensures InRange(Where(m.env.read, recs, w), |recs|)
    decreases |recs|
  {
    if recs != [] {
      WhereFits(m, recs[..|recs| - 1], w);
    }
  }

  lemma EveryFits(n: nat)
    ensures InRange(All(n), n)
  {
  }

  lemma MatchNone(m: Matcher, recs: seq<Record>)
    ensures InRange([], |recs|) && Match(m, recs, []) == Outcome([], None)
  {
  }

  lemma {:induction false} MatchOfFewer(m: Matcher, recs: seq<Record>, shown: seq<nat>)
    requires recs != [] && InRange(shown, |recs| - 1)
    ensures InRange(shown, |recs|) && Match(m, recs[..|recs| - 1], shown) == Match(m, recs, shown)
    decreases |shown|
  {
    if shown != [] {
      MatchOfFewer(m, recs, shown[..|shown| - 1]);
    }
  }

  lemma MatchSnoc(m: Matcher, recs: seq<Record>, shown: seq<nat>, p: nat)
    requires InRange(shown, |recs|) && p < |recs|
    ensures InRange(shown + [p], |recs|)
    ensures var before := Match(m, recs, shown);
            Match(m, recs, shown + [p]) ==
              if before.failedAt.Some? then before
              else match VerdictOn(m, recs[p])
                   case Keep => before.(emitted := before.emitted + [p])
                   case Drop => before
                   case Fail => before.(failedAt := Some(p))
  {
    assert (shown + [p])[..|shown|] == shown;
  }

  /** Where matching stops is the first row shown that fails. */
  lemma {:induction false} StopsAtFirstFailure(m: Matcher, recs: seq<Record>)
    ensures InRange(All(|recs|), |recs|)
    ensures var o := Match(m, recs, All(|recs|));
            && (o.failedAt.None? <==> forall q | 0 <= q < |recs| :: VerdictOn(m, recs[q]) != Fail)
            && (o.failedAt.Some? ==>
                  var p := o.failedAt.value;
                  p < |recs| && VerdictOn(m, recs[p]) == Fail && forall q | 0 <= q < p :: VerdictOn(m, recs[q]) != Fail)
    decreases |recs|
  {
    hide VerdictOn;
    if recs != [] {
      var n := |recs| - 1;
      StopsAtFirstFailure(m, recs[..n]);
      MatchOfFewer(m, recs, All(n));
      MatchSnoc(m, recs, All(n), n);
      assert All(n + 1) == All(n) + [n];
      assert forall q | 0 <= q < n :: recs[..n][q] == recs[q];
    }
  }

  /** Showing fewer rows, none of them kept, changes nothing exactly when matching every row does not
      stop at one of them. */
  lemma {:induction false} SkippingIsExactIff(m: Matcher, recs: seq<Record>, shown: Want)
    requires forall r :: !Wants(m.env.read, shown, r) ==> VerdictOn(m, r) != Keep
    ensures InRange(Where(m.env.read, recs, shown), |recs|) && InRange(All(|recs|), |recs|)
    ensures var all := Match(m, recs, All(|recs|));
            var some := Match(m, recs, Where(m.env.read, recs, shown));
            && (some.failedAt.Some? ==> some.failedAt.value < |recs| && Wants(m.env.read, shown, recs[some.failedAt.value]))
            && (all.failedAt.Some? ==> all.failedAt.value < |recs|)
            && (all == some <==> !(all.failedAt.Some? && !Wants(m.env.read, shown, recs[all.failedAt.value])))
    decreases |recs|
  {
    hide VerdictOn, Wants, Match, InRange;
    WhereFits(m, recs, shown);
    EveryFits(|recs|);
    MatchNone(m, recs);
    if recs == [] {
      assert Where(m.env.read, recs, shown) == [] == All(0);
    } else {
      var n := |recs| - 1;
      var before := Where(m.env.read, recs[..n], shown);
      SkippingIsExactIff(m, recs[..n], shown);
      MatchOfFewer(m, recs, All(n));
      MatchOfFewer(m, recs, before);
      MatchSnoc(m, recs, All(n), n);
      MatchSnoc(m, recs, before, n);
      assert All(n + 1) == All(n) + [n];
      assert Where(m.env.read, recs, shown) == if Wants(m.env.read, shown, recs[n]) then before + [n] else before;
      assert forall q | 0 <= q < n :: recs[..n][q] == recs[q];
    }
  }

  /** Probing and then matching does what matching every row does, the rows emitted and any failure alike,
      exactly when matching every row does not stop with an error at a row the probe skips. */
  lemma ProbeThenMatch(m: Matcher, recs: seq<Record>)
    requires Delivered(m) && ProbeOf(m.alias, m.on).Some? && KeyOf(m.env.read, ProbeValue(m, ProbeOf(m.alias, m.on).value)).Some?
    ensures InRange(All(|recs|), |recs|)
    ensures var p := ProbeOf(m.alias, m.on).value;
            var shown := KeyedOrNotDocs(p.column, KeyOf(m.env.read, ProbeValue(m, p)).value);
            && InRange(Where(m.env.read, recs, shown), |recs|)
            && (Match(m, recs, Where(m.env.read, recs, shown)) == Match(m, recs, All(|recs|)) <==> !StopsAtSkipped(m, recs, shown))
  {
    var p := ProbeOf(m.alias, m.on).value;
    var shown := KeyedOrNotDocs(p.column, KeyOf(m.env.read, ProbeValue(m, p)).value);
    hide *;
    forall r ensures !Wants(m.env.read, shown, r) ==> VerdictOn(m, r) != Keep {
      SkippedIsNotKept(m, r);
    }
    SkippingIsExactIff(m, recs, shown);
    StopsAtSkippedIff(m, recs, shown);
  }

  lemma SkippedIsNotKept(m: Matcher, r: Record)
    requires Delivered(m) && ProbeOf(m.alias, m.on).Some? && KeyOf(m.env.read, ProbeValue(m, ProbeOf(m.alias, m.on).value)).Some?
    ensures var p := ProbeOf(m.alias, m.on).value;
            !Wants(m.env.read, KeyedOrNotDocs(p.column, KeyOf(m.env.read, ProbeValue(m, p)).value), r) ==> VerdictOn(m, r) != Keep
  {
    hide KeyOf, ProbeValue, RowOf, Delivered;
    if r.Doc? && Judge(m.env, m.on, RowOf(m, r.fields)) == Keep {
      KeptRowsHaveKey(m, m.on, r.fields);
    }
  }

  lemma StopsAtSkippedIff(m: Matcher, recs: seq<Record>, shown: Want)
    ensures InRange(All(|recs|), |recs|)
    ensures var all := Match(m, recs, All(|recs|));
            && (all.failedAt.Some? ==> all.failedAt.value < |recs|)
            && (StopsAtSkipped(m, recs, shown) <==> all.failedAt.Some? && !Wants(m.env.read, shown, recs[all.failedAt.value]))
  {
    hide VerdictOn, Wants, Match;
    StopsAtFirstFailure(m, recs);
  }

  /** It can: a condition that cannot be evaluated stands before the equality, and the one row has another
      key. Matching it fails; the probe is shown nothing and fails at nothing. */
  lemma ProbeCanSkipAnError() returns (m: Matcher, recs: seq<Record>)
    ensures Delivered(m) && ProbeOf(m.alias, m.on) == Some(Probe("x", R.Column("b", "y")))
    ensures KeyOf(m.env.read, ProbeValue(m, Probe("x", R.Column("b", "y")))) == Some(Text("2"))
    ensures InRange(All(|recs|), |recs|) && Match(m, recs, All(|recs|)) == Outcome([], Some(0))
    ensures var shown := Where(m.env.read, recs, KeyedOrNotDocs("x", Text("2")));
            InRange(shown, |recs|) && Match(m, recs, shown) == Outcome([], None)
  {
    var fails := R.Test(R.Apply("f", []));
    var equal := R.Compare(R.Eq, R.Ref(R.Column("a", "x")), R.Ref(R.Column("b", "y")));
    var env := F.Env(s => Reading(None, None, None), (fn, args) => F.Error, s => F.Unknown);
    m := Matcher(env, "a", [fails, equal], map[R.Column("b", "y") := Some("2")]);
    recs := [Doc(map["x" := Some("1")])];
    assert F.EvalExpr(env, R.Apply("f", []), RowOf(m, recs[0].fields)) == F.Error;
    assert VerdictOn(m, recs[0]) == Fail;
    assert [fails, equal][1..] == [equal];
    assert recs[..0] == [] && All(1) == [0] && [0][..0] == [];
    assert Match(m, recs, [0]) == Outcome([], Some(0));
    assert Where(m.env.read, recs, KeyedOrNotDocs("x", Text("2"))) == [];
  }

  /** Where the equality stands first among the conditions, no row the probe skips can fail. */
  lemma ProbeFirstIsExact(m: Matcher, recs: seq<Record>)
    requires Delivered(m) && m.on != [] && ProbeFrom(m.alias, m.on[0]).Some?
    requires KeyOf(m.env.read, ProbeValue(m, ProbeFrom(m.alias, m.on[0]).value)).Some?
    ensures var p := ProbeFrom(m.alias, m.on[0]).value;
            !StopsAtSkipped(m, recs, KeyedOrNotDocs(p.column, KeyOf(m.env.read, ProbeValue(m, p)).value))
  {
    var p := ProbeFrom(m.alias, m.on[0]).value;
    var shown := KeyedOrNotDocs(p.column, KeyOf(m.env.read, ProbeValue(m, p)).value);
    forall i | 0 <= i < |recs| && !Wants(m.env.read, shown, recs[i]) ensures VerdictOn(m, recs[i]) == Drop {
      ProbeDecides(m, m.on[0], recs[i].fields);
    }
  }

  /** A missing value is never probed, and no document would be kept: answering nothing agrees with matching
      every row exactly when every row is a document and none stops with an error. */
  lemma MissingMatchesNothingIff(m: Matcher, recs: seq<Record>)
    requires Delivered(m) && ProbeOf(m.alias, m.on).Some? && KeyOf(m.env.read, ProbeValue(m, ProbeOf(m.alias, m.on).value)).None?
    ensures InRange(All(|recs|), |recs|)
    ensures Match(m, recs, All(|recs|)) == Outcome([], None)
        <==> forall i | 0 <= i < |recs| :: recs[i].Doc? && VerdictOn(m, recs[i]) != Fail
  {
    forall r: Record | r.Doc? ensures VerdictOn(m, r) != Keep {
      if VerdictOn(m, r) == Keep {
        KeptRowsHaveKey(m, m.on, r.fields);
      }
    }
    StopsAtFirstFailure(m, recs);
    EmitsNothingIff(m, recs);
  }

  lemma {:induction false} EmitsNothingIff(m: Matcher, recs: seq<Record>)
    requires forall r: Record | r.Doc? :: VerdictOn(m, r) != Keep
    ensures InRange(All(|recs|), |recs|)
    ensures Match(m, recs, All(|recs|)).failedAt.None? ==>
              (Match(m, recs, All(|recs|)).emitted == [] <==> forall i | 0 <= i < |recs| :: recs[i].Doc?)
    decreases |recs|
  {
    hide Judge, RowOf;
    if recs != [] {
      var n := |recs| - 1;
      EmitsNothingIff(m, recs[..n]);
      MatchOfFewer(m, recs, All(n));
      MatchSnoc(m, recs, All(n), n);
      assert All(n + 1) == All(n) + [n];
      assert forall q | 0 <= q < n :: recs[..n][q] == recs[q];
    }
  }
}
