/** Field ownership: internal/merge/merge.go's strategies, and the merge patch of section 2 of RFC 7386
    (pkg/omnisdk/docs.go) that applies what they produce. */
module Merge {
  import opened Json
  import opened Wrappers

  /** Has a field for each in either document: desired's own value, merged below where that is an object,
      and null where only drops has it. */
  function Enforce(desired: Value, drops: Value): (m: Value)
    requires desired.Object? && drops.Object?
    ensures m.Object?
    decreases desired
  {
    Object(map k | k in desired.fields.Keys + drops.fields.Keys ::
             if k !in desired.fields then Null
             else if desired.fields[k].Object? then Enforce(desired.fields[k], ChildOf(drops, k))
             else desired.fields[k])
  }

  /** The loop that builds the mutation: desired's fields, then what drops loses. */
  method BuildMutation(desired: Value, drops: Value) returns (m: Value)
    requires desired.Object? && drops.Object?
    ensures m == Enforce(desired, drops)
    decreases desired
  {
    var out: map<string, Value> := map[];
    var keys := desired.fields.Keys;
    while keys != {}
      invariant keys <= desired.fields.Keys && out.Keys == desired.fields.Keys - keys
      invariant forall k | k in out :: out[k] == Enforce(desired, drops).fields[k]
    {
      var k :| k in keys;
      keys := keys - {k};
      var v := desired.fields[k];
      if v.Object? {
        v := BuildMutation(v, ChildOf(drops, k));
      }
      out := out[k := v];
    }
    var dropped := drops.fields.Keys;
    while dropped != {}
      invariant dropped <= drops.fields.Keys && out.Keys == desired.fields.Keys + (drops.fields.Keys - dropped)
      invariant forall k | k in out :: out[k] == Enforce(desired, drops).fields[k]
    {
      var k :| k in dropped;
      dropped := dropped - {k};
      if k !in desired.fields {
        out := out[k := Null];
      }
    }
    assert out == Enforce(desired, drops).fields;
    return Object(out);
  }

  /** Section 2 of RFC 7386 as a function: what a non-object patch gives is the patch, and what an object
      patch gives is an object with no key the patch holds null. */
  function MergePatch(target: Value, patch: Value): (r: Value)
    ensures patch.Object? ==> r.Object?
    decreases patch
  {
    if !patch.Object? then patch
    else
      var t := Fields(target);
      Object(map k | k in t.Keys + patch.fields.Keys && !(k in patch.fields && patch.fields[k].Null?) ::
               if k !in patch.fields then t[k] else MergePatch(Child(target, k), patch.fields[k]))
  }

  function Fields(v: Value): map<string, Value> {
    if v.Object? then v.fields else map[]
  }

  /** What a patch of one field is applied to. */
  function Child(target: Value, k: string): Value {
    if k in Fields(target) then Fields(target)[k] else Null
  }

  /** The loop that applies a patch to a copy of its target. */
  method ApplyPatch(target: Value, patch: Value) returns (r: Value)
    ensures r == MergePatch(target, patch)
    decreases patch
  {
    if !patch.Object? {
      return patch;
    }
    var t, p := Fields(target), patch.fields;
    var out := t;
    var keys := p.Keys;
    while keys != {}
      invariant keys <= p.Keys
      invariant forall k | k in keys :: k in out <==> k in t
      invariant forall k | k in keys && k in t :: out[k] == t[k]
      invariant forall k | k !in keys :: k in out <==> k in MergePatch(target, patch).fields
      invariant forall k | k !in keys && k in out :: out[k] == MergePatch(target, patch).fields[k]
    {
      var k :| k in keys;
      keys := keys - {k};
      if p[k].Null? {
        out := out - {k};
      } else {
        var v := ApplyPatch(if k in out then out[k] else Null, p[k]);
        out := out[k := v];
      }
    }
    assert out == MergePatch(target, patch).fields;
    return Object(out);
  }

  // The strategies: what each takes the dropped fields from.

  function Replace(desired: Value, actual: Value): Value
    requires desired.Object? && actual.Object?
  {
    Enforce(desired, actual)
  }

  function Additive(desired: Value): Value
    requires desired.Object?
  {
    Enforce(desired, EMPTY)
  }

  function ThreeWay(prior: Value, desired: Value): Value
    requires prior.Object? && desired.Object?
  {
    Enforce(desired, prior)
  }

  /** What applying a strategy does to a path: it stays an object both own; it is set, or lies under
      something set; it is removed; or it is someone else's. */
  datatype Fate = Shared | Settled | Removed | Foreign

  /** Owners of a path, told from the documents alone. */
  ghost predicate SettledAt(desired: Value, p: Path, n: int) {
    0 < n <= |p| && At(desired, p[..n]).Some? && !At(desired, p[..n]).value.Object?
  }

  ghost predicate RemovedAt(desired: Value, drops: Value, p: Path, n: int) {
    && 0 < n <= |p|
    && At(desired, p[..n - 1]).Some? && At(desired, p[..n - 1]).value.Object?
    && At(desired, p[..n]).None? && At(drops, p[..n]).Some?
  }

  function FateOf(desired: Value, drops: Value, p: Path): Fate
    requires desired.Object? && drops.Object?
    decreases |p|
  {
    if p == [] then Shared
    else if p[0] !in desired.fields then
      if p[0] in drops.fields then Removed else Foreign
    else if desired.fields[p[0]].Object? then FateOf(desired.fields[p[0]], ChildOf(drops, p[0]), p[1..])
    else Settled
  }

  /** The fates in terms of what the documents hold: settled below a leaf of desired, removed where
      desired stops mentioning what drops claims. */
  lemma {:induction false} FateMeaning(desired: Value, drops: Value, p: Path)
    requires desired.Object? && drops.Object?
    ensures FateOf(desired, drops, p) == Shared <==> At(desired, p).Some? && At(desired, p).value.Object?
    ensures FateOf(desired, drops, p) == Settled <==> exists n :: SettledAt(desired, p, n)
    ensures FateOf(desired, drops, p) == Removed <==> exists n :: RemovedAt(desired, drops, p, n)
    decreases |p|
  {
    if p != [] {
      var k := p[0];
      assert forall n | 0 < n <= |p| :: p[..n][0] == k && p[..n][1..] == p[1..][..n - 1];
      assert p[..0] == [] && p[..1] == [k];
      if k in desired.fields && desired.fields[k].Object? {
        var d, o := desired.fields[k], ChildOf(drops, k);
        FateMeaning(d, o, p[1..]);
        Deeper(desired, drops, p);
      } else if k in desired.fields {
        assert SettledAt(desired, p, 1);
        forall n ensures !RemovedAt(desired, drops, p, n) {
          if n > 1 && n <= |p| { assert At(desired, p[..n - 1]) == At(desired.fields[k], p[..n - 1][1..]); }
        }
      } else {
        assert forall n | 0 < n <= |p| :: At(desired, p[..n]).None?;
        assert At(drops, p[..1]).Some? <==> k in drops.fields;
        assert k in drops.fields ==> RemovedAt(desired, drops, p, 1);
      }
    }
  }

  /** A path's prefix is looked up one field at a time. */
  lemma Step(v: Value, p: Path, n: nat)
    requires 0 < n <= |p|
    ensures At(v, p[..n]) == if v.Object? && p[0] in v.fields then At(v.fields[p[0]], p[1..][..n - 1]) else None
    ensures p[1..][..0] == []
  {
    assert p[..n][0] == p[0] && p[..n][1..] == p[1..][..n - 1];
  }

  /** Below an object both hold, a path's fate is decided inside it. */
  lemma Deeper(desired: Value, drops: Value, p: Path)
    requires desired.Object? && drops.Object? && p != []
    requires p[0] in desired.fields && desired.fields[p[0]].Object?
    ensures forall n :: SettledAt(desired, p, n) <==> n > 1 && SettledAt(desired.fields[p[0]], p[1..], n - 1)
    ensures forall n :: RemovedAt(desired, drops, p, n) <==> n > 1 && RemovedAt(desired.fields[p[0]], ChildOf(drops, p[0]), p[1..], n - 1)
    ensures (exists n :: SettledAt(desired, p, n)) <==> exists n :: SettledAt(desired.fields[p[0]], p[1..], n)
    ensures (exists n :: RemovedAt(desired, drops, p, n)) <==> exists n :: RemovedAt(desired.fields[p[0]], ChildOf(drops, p[0]), p[1..], n)
  {
    var d, o := desired.fields[p[0]], ChildOf(drops, p[0]);
    forall n: int
      ensures SettledAt(desired, p, n) <==> n > 1 && SettledAt(d, p[1..], n - 1)
      ensures RemovedAt(desired, drops, p, n) <==> n > 1 && RemovedAt(d, o, p[1..], n - 1)
    {
      if 0 < n <= |p| {
        Step(desired, p, n);
        Step(drops, p, n);
        if n > 1 {
          Step(desired, p, n - 1);
        }
      }
    }
    if n: int :| SettledAt(d, p[1..], n) { assert SettledAt(desired, p, n + 1); }
    if n: int :| RemovedAt(d, o, p[1..], n) { assert RemovedAt(desired, drops, p, n + 1); }
  }

  /** A document's value at a path once its own unset fields are gone. */
  function Asked(desired: Value, p: Path): Option<Value> {
    var v := At(desired, p);
    if v.Some? && v.value.Null? then None else v
  }

  /** The main law of the mutation: applied to whatever is live, each path meets its fate. */
  lemma {:induction false} FateDecides(live: Value, desired: Value, drops: Value, p: Path)
    requires desired.Object? && drops.Object?
    ensures var r := At(MergePatch(live, Enforce(desired, drops)), p);
            match FateOf(desired, drops, p)
            case Shared => r.Some? && r.value.Object?
            case Settled => r == Asked(desired, p)
            case Removed => r == None
            case Foreign => r == At(live, p)
    decreases |p|
  {
    var m := Enforce(desired, drops);
    var r := MergePatch(live, m);
    if p != [] {
      var k := p[0];
      if k in desired.fields && desired.fields[k].Object? {
        var d, o := desired.fields[k], ChildOf(drops, k);
        assert m.fields[k] == Enforce(d, o);
        assert r.fields[k] == MergePatch(Child(live, k), Enforce(d, o));
        FateDecides(Child(live, k), d, o, p[1..]);
      } else if k in desired.fields {
        assert m.fields[k] == desired.fields[k];
        assert !desired.fields[k].Null? ==> r.fields[k] == MergePatch(Child(live, k), desired.fields[k]) == desired.fields[k];
        assert At(desired, p) == At(desired.fields[k], p[1..]);
        assert At(desired.fields[k], p[1..]) == if p[1..] == [] then Some(desired.fields[k]) else None;
      } else if k in drops.fields {
        assert m.fields[k] == Null;
      } else {
        assert k !in m.fields;
      }
    }
  }

  /** ThreeWay on whatever is live: every field asked for is there at any depth, and every field claimed
      before and asked for no more is gone. */
  lemma ThreeWayEnforcesAndRemoves(live: Value, prior: Value, desired: Value, p: Path)
    requires prior.Object? && desired.Object?
    ensures var r, d := At(MergePatch(live, ThreeWay(prior, desired)), p), At(desired, p);
            && (d.Some? && !d.value.Object? && !d.value.Null? ==> r == d)
            && (d.Some? && d.value.Object? ==> r.Some? && r.value.Object?)
            && ((d.None? && At(prior, p).Some?) || d == Some(Null) ==> r == None)
  {
    FateDecides(live, desired, prior, p);
    FateMeaning(desired, prior, p);
    if At(desired, p).Some? && !At(desired, p).value.Object? {
      assert p[..|p|] == p && SettledAt(desired, p, |p|);
    }
    if FateOf(desired, prior, p) == Foreign {
      ForeignIsUnclaimed(desired, prior, p);
    }
  }

  /** An object holding something at a path and nothing beside it. */
  function Holding(p: Path): Value {
    if p == [] then EMPTY else Object(map[p[0] := Holding(p[1..])])
  }

  lemma {:induction false} HoldingAt(p: Path)
    ensures At(Holding(p), p) == Some(EMPTY)
    decreases |p|
  {
    if p != [] {
      HoldingAt(p[1..]);
    }
  }

  ghost predicate LeftAlone(desired: Value, drops: Value, p: Path)
    requires desired.Object? && drops.Object?
  {
    forall live: Value | live.Object? :: At(MergePatch(live, Enforce(desired, drops)), p) == At(live, p)
  }

  /** Which paths a mutation leaves alone whatever is live: exactly the foreign ones. */
  lemma LeftAloneIffForeign(desired: Value, drops: Value, p: Path)
    requires desired.Object? && drops.Object? && p != []
    ensures LeftAlone(desired, drops, p) <==> FateOf(desired, drops, p) == Foreign
  {
    var m := Enforce(desired, drops);
    forall live: Value | live.Object? && FateOf(desired, drops, p) == Foreign
      ensures At(MergePatch(live, m), p) == At(live, p)
    {
      FateDecides(live, desired, drops, p);
    }
    if FateOf(desired, drops, p) != Foreign {
      FateDecides(EMPTY, desired, drops, p);
      FateDecides(Holding(p), desired, drops, p);
      HoldingAt(p);
      assert At(EMPTY, p) == None;
      assert At(MergePatch(EMPTY, m), p) != None || At(MergePatch(Holding(p), m), p) != Some(EMPTY);
    }
  }

  /** A foreign path is one neither document claims. */
  lemma ForeignIsUnclaimed(desired: Value, drops: Value, p: Path)
    requires desired.Object? && drops.Object? && FateOf(desired, drops, p) == Foreign
    ensures At(desired, p) == None && At(drops, p) == None
    decreases |p|
  {
    if p[0] in desired.fields {
      ForeignIsUnclaimed(desired.fields[p[0]], ChildOf(drops, p[0]), p[1..]);
    }
  }

  /** Not every unclaimed path is foreign: a dropped subtree is removed whole, so a field another actor
      put inside it goes too. */
  lemma DroppedSubtreeTakesForeignFields()
    ensures var prior, desired := Object(map["a" := Object(map["b" := Bool(true)])]), EMPTY;
            var live := Object(map["a" := Object(map["b" := Bool(true), "c" := Bool(true)])]);
            && At(prior, ["a", "c"]) == None && At(desired, ["a", "c"]) == None
            && At(live, ["a", "c"]) == Some(Bool(true))
            && At(MergePatch(live, ThreeWay(prior, desired)), ["a", "c"]) == None
  {
    var prior, desired := Object(map["a" := Object(map["b" := Bool(true)])]), EMPTY;
    var live := Object(map["a" := Object(map["b" := Bool(true), "c" := Bool(true)])]);
    assert ["a", "c"][1..] == ["c"] && ["c"][1..] == [];
    assert FateOf(desired, prior, ["a", "c"]) == Removed;
    FateDecides(live, desired, prior, ["a", "c"]);
    assert At(prior.fields["a"], ["c"]) == None && At(live.fields["a"], ["c"]) == Some(Bool(true));
  }

  // Each strategy on the two contested rows.

  /** A document with its unset fields removed. */
  function Stripped(d: Value): Value
    decreases d
  {
    if !d.Object? then d
    else Object(map k | k in d.fields && !d.fields[k].Null? :: Stripped(d.fields[k]))
  }

  /** Replace makes the object exactly what was asked for, so whatever else it held is gone. */
  lemma {:induction false} ReplaceLeavesOnlyDesired(actual: Value, desired: Value)
    requires desired.Object?
    ensures MergePatch(actual, Replace(desired, if actual.Object? then actual else EMPTY)) == Stripped(desired)
    decreases desired
  {
    var a := if actual.Object? then actual else EMPTY;
    var m := Replace(desired, a);
    var r := MergePatch(actual, m);
    forall k | k in desired.fields && desired.fields[k].Object?
      ensures MergePatch(Child(actual, k), m.fields[k]) == Stripped(desired.fields[k])
    {
      assert ChildOf(a, k) == if Child(actual, k).Object? then Child(actual, k) else EMPTY;
      ReplaceLeavesOnlyDesired(Child(actual, k), desired.fields[k]);
    }
    forall k ensures k in r.fields <==> k in Stripped(desired).fields
             ensures k in r.fields ==> r.fields[k] == Stripped(desired).fields[k]
    {
      if k in desired.fields {
        assert !desired.fields[k].Object? ==> m.fields[k] == desired.fields[k];
        assert k in r.fields ==> r.fields[k] == MergePatch(Child(actual, k), m.fields[k]);
      } else if k in Fields(actual) {
        assert m.fields[k] == Null;
      } else {
        assert k !in m.fields;
      }
    }
    assert r.fields == Stripped(desired).fields;
  }

  /** Additive never removes: what ThreeWay would unset because prior claimed it, Additive keeps. */
  lemma {:induction false} AdditiveKeepsDropped(live: Value, prior: Value, desired: Value, p: Path)
    requires prior.Object? && desired.Object?
    ensures FateOf(desired, EMPTY, p) == if FateOf(desired, prior, p) == Removed then Foreign else FateOf(desired, prior, p)
    ensures FateOf(desired, prior, p) == Removed ==>
              At(MergePatch(live, Additive(desired)), p) == At(live, p) && At(MergePatch(live, ThreeWay(prior, desired)), p) == None
    decreases |p|
  {
    if p != [] && p[0] in desired.fields && desired.fields[p[0]].Object? {
      assert ChildOf(EMPTY, p[0]) == EMPTY;
      AdditiveKeepsDropped(Child(live, p[0]), ChildOf(prior, p[0]), desired.fields[p[0]], p[1..]);
    }
    FateDecides(live, desired, EMPTY, p);
    FateDecides(live, desired, prior, p);
  }
}
