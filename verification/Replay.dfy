/** The replay store of pkg/omnisdk/relational.go: rows recorded as they arrive, an index per column
    extended on demand, and readers that stream the rows with one key. */
module Replay {
  import opened JoinKey
  import opened Wrappers

  /** A recorded row: a document, or something conditions do not apply to. */
  datatype Record = Doc(fields: map<string, Cell>) | Opaque(payload: int)

  /** Which rows something is after. */
  datatype Want =
    | Keyed(column: string, key: Key)                       // documents whose column has a key
    | NotDocs
    | KeyedOrNotDocs(column: string, key: Key)

  function Field(fields: map<string, Cell>, column: string): Cell {
    if column in fields then fields[column] else None
  }

  predicate Wants(read: Reader, w: Want, r: Record) {
    match w
    case Keyed(column, key) => r.Doc? && KeyOf(read, Field(r.fields, column)) == Some(key)
    case NotDocs => r.Opaque?
    case KeyedOrNotDocs(column, key) => r.Opaque? || KeyOf(read, Field(r.fields, column)) == Some(key)
  }

  /** The positions of the rows wanted, in arrival order. */
  function Where(read: Reader, recs: seq<Record>, w: Want): seq<nat> {
    if recs == [] then []
    else
      var n := |recs| - 1;
      Where(read, recs[..n], w) + if Wants(read, w, recs[n]) then [n] else []
  }

  lemma {:induction false} WherePrefix(read: Reader, recs: seq<Record>, low: nat, w: Want)
    requires low <= |recs|
    ensures Where(read, recs[..low], w) <= Where(read, recs, w)
    decreases |recs|
  {
    if low < |recs| {
      assert recs[..|recs| - 1][..low] == recs[..low];
      WherePrefix(read, recs[..|recs| - 1], low, w);
    } else {
      assert recs[..low] == recs;
    }
  }

  lemma WhereSnoc(read: Reader, recs: seq<Record>, p: nat, w: Want)
    requires p < |recs|
    ensures Where(read, recs[..p + 1], w) == Where(read, recs[..p], w) + if Wants(read, w, recs[p]) then [p] else []
  {
    assert recs[..p + 1][..p] == recs[..p];
  }

  /** Past the rows wanted so far, the next one is the first wanted from there on. */
  lemma {:induction false} WhereNext(read: Reader, recs: seq<Record>, low: nat, w: Want)
    requires low <= |recs|
    ensures var n, all := |Where(read, recs[..low], w)|, Where(read, recs, w);
            && n <= |all|
            && (n < |all| ==> low <= all[n] < |recs| && Wants(read, w, recs[all[n]])
                              && forall q | low <= q < all[n] :: !Wants(read, w, recs[q]))
            && (n == |all| ==> forall q | low <= q < |recs| :: !Wants(read, w, recs[q]))
    decreases |recs|
  {
    if low < |recs| {
      var shorter := recs[..|recs| - 1];
      assert shorter[..low] == recs[..low];
      WhereNext(read, shorter, low, w);
    } else {
      assert recs[..low] == recs;
    }
  }

  /** Rows not wanted add nothing. */
  lemma {:induction false} WhereSkips(read: Reader, recs: seq<Record>, low: nat, p: nat, w: Want)
    requires low <= p <= |recs| && forall q | low <= q < p :: !Wants(read, w, recs[q])
    ensures Where(read, recs[..p], w) == Where(read, recs[..low], w)
    decreases p
  {
    if low < p {
      WhereSnoc(read, recs, p - 1, w);
      WhereSkips(read, recs, low, p - 1, w);
    }
  }

  class Entry {
    const read: Reader
    var recs: seq<Record>
    var done: bool
    /** For each column indexed so far, where each key stands among its first indexed[column] rows. */
    var index: map<string, map<Key, seq<nat>>>
    var indexed: map<string, nat>
    var unkeyed: seq<nat>
    var unkeyedTil: nat

    ghost predicate Valid()
      reads this
    {
      && index.Keys == indexed.Keys
      && (forall c | c in index :: indexed[c] <= |recs| && Holds(index[c], recs[..indexed[c]], c))
      && unkeyedTil <= |recs| && unkeyed == Where(read, recs[..unkeyedTil], NotDocs)
    }

    /** A column's index says where every key is. */
    ghost predicate Holds(idx: map<Key, seq<nat>>, recs: seq<Record>, column: string) {
      forall k :: Hits(idx, k) == Where(read, recs, Keyed(column, k))
    }

    constructor (read: Reader)
      ensures Valid() && recs == [] && !done && this.read == read
    {
      this.read, recs, done, index, indexed, unkeyed, unkeyedTil := read, [], false, map[], map[], [], 0;
    }

    /** A row arrives. */
    method Append(r: Record)
      requires Valid() && !done
      modifies this`recs
      ensures Valid() && recs == old(recs) + [r]
    {
      recs := recs + [r];
      assert forall n | 0 <= n <= |old(recs)| :: recs[..n] == old(recs)[..n];
    }

    method Finish()
      requires Valid()
      modifies this`done
      ensures Valid() && done
    {
      done := true;
    }

    /** Brings the list of non-documents up to every row there is. */
    method NoteUnkeyed()
      requires Valid()
      modifies this`unkeyed, this`unkeyedTil
      ensures Valid() && unkeyedTil == |recs| && unkeyed == Where(read, recs, NotDocs)
    {
      hide Where, Holds;
      while unkeyedTil < |recs|
        invariant unkeyedTil <= |recs| && unkeyed == Where(read, recs[..unkeyedTil], NotDocs)
      {
        WhereSnoc(read, recs, unkeyedTil, NotDocs);
        if !recs[unkeyedTil].Doc? {
          unkeyed := unkeyed + [unkeyedTil];
        }
        unkeyedTil := unkeyedTil + 1;
      }
      assert recs[..|recs|] == recs;
    }

    /** Whatever the column's index covered before, it comes out right for every row there is, and so does
        the list of non-documents. */
    method CatchUp(column: string) returns (idx: map<Key, seq<nat>>)
      requires Valid()
      modifies this`index, this`indexed, this`unkeyed, this`unkeyedTil
      ensures Valid() && unkeyedTil == |recs|
      ensures Holds(idx, recs, column) && unkeyed == Where(read, recs, NotDocs)
    {
      hide Where, Holds;
      NoteUnkeyed();
      var start := 0;
      idx := map[];
      EmptyHolds(column);
      assert recs[..0] == [];
      if column in index {
        start, idx := indexed[column], index[column];
      }
      idx := Extend(column, idx, start);
      assert recs[..|recs|] == recs;
      index, indexed := index[column := idx], indexed[column := |recs|];
    }

    method Extend(column: string, idx0: map<Key, seq<nat>>, start: nat) returns (idx: map<Key, seq<nat>>)
      requires start <= |recs| && Holds(idx0, recs[..start], column)
      ensures Holds(idx, recs, column)
    {
      hide Holds;
      idx := idx0;
      for i := start to |recs|
        invariant Holds(idx, recs[..i], column)
      {
        HoldsNext(idx, recs, i, column);
        if recs[i].Doc? {
          var k := KeyOf(read, Field(recs[i].fields, column));
          if k.Some? {
            idx := idx[k.value := Hits(idx, k.value) + [i]];
          }
        }
      }
      assert recs[..|recs|] == recs;
    }

    lemma EmptyHolds(column: string)
      ensures Holds(map[], [], column)
    {
    }

    lemma HoldsNext(idx: map<Key, seq<nat>>, recs: seq<Record>, i: nat, column: string)
      requires i < |recs| && Holds(idx, recs[..i], column)
      ensures var k := if recs[i].Doc? then KeyOf(read, Field(recs[i].fields, column)) else None;
              Holds(if k.Some? then idx[k.value := Hits(idx, k.value) + [i]] else idx, recs[..i + 1], column)
    {
      var k := if recs[i].Doc? then KeyOf(read, Field(recs[i].fields, column)) else None;
      var idx' := if k.Some? then idx[k.value := Hits(idx, k.value) + [i]] else idx;
      forall x ensures Hits(idx', x) == Where(read, recs[..i + 1], Keyed(column, x)) {
        WhereSnoc(read, recs, i, Keyed(column, x));
        assert Hits(idx, x) == Where(read, recs[..i], Keyed(column, x));
      }
    }
  }

  function Hits(idx: map<Key, seq<nat>>, k: Key): seq<nat> {
    if k in idx then idx[k] else []
  }

  /** Where a probing reader is: it has emitted exactly the rows wanted among the first low, and its two
      cursors count the keyed and the unkeyed ones among them. */
  ghost predicate At(read: Reader, recs: seq<Record>, column: string, key: Key, i: nat, j: nat, low: nat, emitted: seq<nat>) {
    && low <= |recs|
    && emitted == Where(read, recs[..low], KeyedOrNotDocs(column, key))
    && i == |Where(read, recs[..low], Keyed(column, key))|
    && j == |Where(read, recs[..low], NotDocs)|
  }

  datatype Step = Emitted(row: Record) | Waiting | Ended

  class ProbeReader {
    const e: Entry
    const column: string
    const key: Key
    var i: nat
    var j: nat
    ghost var low: nat
    /** The positions of the rows emitted so far. */
    ghost var emitted: seq<nat>

    ghost predicate Valid()
      reads this, e
    {
      e.Valid() && At(e.read, e.recs, column, key, i, j, low, emitted)
    }

    constructor (e: Entry, column: string, key: Key)
      requires e.Valid()
      ensures Valid() && this.e == e && this.column == column && this.key == key && emitted == []
    {
      this.e, this.column, this.key := e, column, key;
      i, j, low, emitted := 0, 0, 0, [];
    }

    /** One look under the lock: the next row wanted, or that there is none yet, or that there is no more.
        At the end exactly the keyed and unkeyed rows have been emitted, each once, in arrival order. */
    method Next() returns (s: Step)
      requires Valid()
      modifies this, e`index, e`indexed, e`unkeyed, e`unkeyedTil
      ensures Valid() && old(emitted) <= emitted
      ensures s.Emitted? ==> |emitted| == |old(emitted)| + 1 && emitted[|old(emitted)|] < |e.recs| && s.row == e.recs[emitted[|old(emitted)|]]
      ensures !s.Emitted? ==> emitted == old(emitted) == Where(e.read, e.recs, KeyedOrNotDocs(column, key))
      ensures s.Ended? ==> e.done
      ensures s.Waiting? ==> !e.done
    {
      hide Where, Entry.Valid;
      var idx := e.CatchUp(column);
      var hits := Hits(idx, key);
      assert hits == Where(e.read, e.recs, Keyed(column, key));
      WhereNext(e.read, e.recs, low, Keyed(column, key));
      WhereNext(e.read, e.recs, low, NotDocs);
      var next := -1;
      if i < |hits| {
        next := hits[i];
      }
      if j < |e.unkeyed| && (next < 0 || e.unkeyed[j] < next) {
        Advance(e.read, e.recs, column, key, i, j, low, emitted, e.unkeyed[j]);
        s := Emitted(e.recs[e.unkeyed[j]]);
        low, emitted := e.unkeyed[j] + 1, emitted + [e.unkeyed[j]];
        j := j + 1;
        return;
      }
      if next >= 0 {
        Advance(e.read, e.recs, column, key, i, j, low, emitted, next);
        s := Emitted(e.recs[next]);
        low, emitted := next + 1, emitted + [next];
        i := i + 1;
        return;
      }
      WhereSkips(e.read, e.recs, low, |e.recs|, KeyedOrNotDocs(column, key));
      assert e.recs[..|e.recs|] == e.recs;
      return if e.done then Ended else Waiting;
    }
  }

  /** Emitting the first row wanted from low on. */
  lemma Advance(read: Reader, recs: seq<Record>, column: string, key: Key, i: nat, j: nat, low: nat, emitted: seq<nat>, p: nat)
    requires At(read, recs, column, key, i, j, low, emitted) && low <= p < |recs|
    requires Wants(read, KeyedOrNotDocs(column, key), recs[p])
    requires forall q | low <= q < p :: !Wants(read, KeyedOrNotDocs(column, key), recs[q])
    ensures if recs[p].Opaque? then At(read, recs, column, key, i, j + 1, p + 1, emitted + [p])
            else At(read, recs, column, key, i + 1, j, p + 1, emitted + [p])
  {
    hide Where;
    var keyed, both := Keyed(column, key), KeyedOrNotDocs(column, key);
    assert forall q | low <= q < p :: !Wants(read, keyed, recs[q]) && !Wants(read, NotDocs, recs[q]);
    WhereSkips(read, recs, low, p, keyed);
    WhereSkips(read, recs, low, p, NotDocs);
    WhereSkips(read, recs, low, p, both);
    WhereSnoc(read, recs, p, keyed);
    WhereSnoc(read, recs, p, NotDocs);
    WhereSnoc(read, recs, p, both);
  }

  /** Rows arriving do not move a reader. */
  lemma ReaderSurvivesArrival(read: Reader, recs: seq<Record>, r: Record, column: string, key: Key, i: nat, j: nat, low: nat, emitted: seq<nat>)
    requires At(read, recs, column, key, i, j, low, emitted)
    ensures At(read, recs + [r], column, key, i, j, low, emitted)
  {
    assert (recs + [r])[..low] == recs[..low];
  }
}
