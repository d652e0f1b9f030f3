/** What a managed resource reads from: dependsOn of pkg/omnisdk/managed.go, a breadth-first walk back
    along the graph's wirings that stops at other resources. */
module Dependencies {
  import opened Graph

  type Alias = string
  type Key = string

  /** The graph as the walk reads it: who each node receives from, whose node it is, and what key a
      recall node recalls. */
  datatype Wiring = Wiring(from: map<Alias, seq<Alias>>, owners: map<Alias, Key>, recalls: map<Alias, Key>)

  function Senders(w: Wiring, a: Alias): seq<Alias> {
    if a in w.from then w.from[a] else []
  }

  /** The other resource a node belongs to or recalls, if any: the walk goes no further back. */
  function Stop(w: Wiring, key: Key, a: Alias): set<Key> {
    if a in w.owners && w.owners[a] != key then {w.owners[a]}
    else if a in w.recalls && w.recalls[a] != key then {w.recalls[a]}
    else {}
  }

  predicate Owns(w: Wiring, k: Key, a: Alias) {
    a in w.owners && w.owners[a] == k
  }

  predicate Recalls(w: Wiring, k: Key, a: Alias) {
    a in w.recalls && w.recalls[a] == k
  }

  /** The walk goes back through exactly the nodes that are, and recall, no other resource. */
  lemma BackIsThroughOwn(w: Wiring, key: Key, a: Alias, b: Alias)
    ensures (a, b) in Back(w, key) <==>
              && b in Senders(w, a)
              && (a in w.owners ==> Owns(w, key, a)) && (a in w.recalls ==> Recalls(w, key, a))
  {
  }

  /** One step back through a node that is not another resource's. */
  function Back(w: Wiring, key: Key): set<(Alias, Alias)> {
    set a, b | a in w.from && b in w.from[a] && Stop(w, key, a) == {} :: (a, b)
  }

  /** Reached from a resource's own nodes. */
  ghost predicate Reached(w: Wiring, key: Key, aliases: seq<Alias>, a: Alias) {
    a in aliases || exists s | s in aliases :: Reaches(Back(w, key), s, a)
  }

  lemma ReachedFurther(w: Wiring, key: Key, aliases: seq<Alias>, a: Alias, b: Alias)
    requires Reached(w, key, aliases, a) && (a, b) in Back(w, key)
    ensures Reached(w, key, aliases, b)
  {
    EdgeReaches(Back(w, key), a, b);
    if a !in aliases {
      var s :| s in aliases && Reaches(Back(w, key), s, a);
      ReachesJoin(Back(w, key), s, a, b);
    }
  }

  lemma ClosedHoldsReached(w: Wiring, key: Key, aliases: seq<Alias>, seen: set<Alias>)
    requires forall a | a in aliases :: a in seen
    requires forall x, y | (x, y) in Back(w, key) && x in seen :: y in seen
    ensures forall a | Reached(w, key, aliases, a) :: a in seen
  {
    forall a | Reached(w, key, aliases, a) ensures a in seen {
      if a !in aliases {
        var s :| s in aliases && Reaches(Back(w, key), s, a);
        var p: seq<Alias> :| IsPath(Back(w, key), p) && p[0] == s && p[|p| - 1] == a;
        PathStaysInside(Back(w, key), seen, p);
      }
    }
  }

  /** Exactly the other resources met first on some way back from the resource's nodes. */
  method DependsOn(w: Wiring, key: Key, aliases: seq<Alias>) returns (out: set<Key>)
    ensures forall k :: k in out <==> exists a :: Reached(w, key, aliases, a) && k in Stop(w, key, a)
    ensures forall k | k in out :: k != key && exists a :: Reached(w, key, aliases, a) && (Owns(w, k, a) || Recalls(w, k, a))
    ensures forall a, k | Reached(w, key, aliases, a) && Owns(w, k, a) && k != key :: k in out
    ensures forall a, k | Reached(w, key, aliases, a) && Recalls(w, k, a) && k != key && (a in w.owners ==> Owns(w, key, a)) :: k in out
  {
    out := {};
    var seen: set<Alias> := {};
    var queue := aliases;
    ghost var nodes := (set a | a in aliases) + set a, b | a in w.from && b in w.from[a] :: b;
    while queue != []
      invariant seen <= nodes && forall a | a in queue :: a in nodes
      invariant forall a | a in aliases :: a in seen || a in queue
      invariant forall a | a in seen || a in queue :: Reached(w, key, aliases, a)
      invariant forall x, y | (x, y) in Back(w, key) && x in seen :: y in seen || y in queue
      invariant forall k :: k in out <==> exists a | a in seen :: k in Stop(w, key, a)
      decreases nodes - seen, |queue|
    {
      var a, rest := queue[0], queue[1..];
      assert queue == [a] + rest;
      if a in seen {
        queue := rest;
        continue;
      }
      ghost var before := seen;
      seen := seen + {a};
      if Stop(w, key, a) != {} {
        out := out + Stop(w, key, a);
        queue := rest;
        continue;
      }
      forall b | b in Senders(w, a) ensures (a, b) in Back(w, key) && b in nodes {
      }
      forall b | b in Senders(w, a) ensures Reached(w, key, aliases, b) {
        ReachedFurther(w, key, aliases, a, b);
      }
      queue := rest + Senders(w, a);
    }
    ClosedHoldsReached(w, key, aliases, seen);
  }
}
