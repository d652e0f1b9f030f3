/** Finite directed graphs given by their edges: paths, cycles, and what acyclic graphs promise. */
module Graph {
  ghost predicate IsPath<T>(e: set<(T, T)>, p: seq<T>) {
    |p| >= 2 && forall i | 0 <= i < |p| - 1 :: (p[i], p[i + 1]) in e
  }

  /** A path of at least one edge. */
  ghost predicate Reaches<T(!new)>(e: set<(T, T)>, a: T, b: T) {
    exists p: seq<T> :: IsPath(e, p) && p[0] == a && p[|p| - 1] == b
  }

  ghost predicate Acyclic<T(!new)>(e: set<(T, T)>) {
    forall a: T :: !Reaches(e, a, a)
  }

  lemma EdgeReaches<T(!new)>(e: set<(T, T)>, a: T, b: T)
    requires (a, b) in e
    ensures Reaches(e, a, b)
  {
    assert IsPath(e, [a, b]);
  }

  lemma NoEdgesNoCycle<T(!new)>()
    ensures Acyclic<T>({})
  {
    var e: set<(T, T)> := {};
    forall p: seq<T> ensures !IsPath(e, p) {
      assert |p| >= 2 ==> (p[0], p[1]) !in e;
    }
  }

  lemma ReachesJoin<T(!new)>(e: set<(T, T)>, a: T, b: T, c: T)
    requires Reaches(e, a, b) && Reaches(e, b, c)
    ensures Reaches(e, a, c)
  {
    var p: seq<T> :| IsPath(e, p) && p[0] == a && p[|p| - 1] == b;
    var q: seq<T> :| IsPath(e, q) && q[0] == b && q[|q| - 1] == c;
    assert IsPath(e, p + q[1..]);
  }

  /** A path that starts in a set no edge leaves ends in it. */
  lemma {:induction false} PathStaysInside<T(!new)>(e: set<(T, T)>, inside: set<T>, p: seq<T>)
    requires forall x, y | (x, y) in e && x in inside :: y in inside
    requires IsPath(e, p) && p[0] in inside
    ensures p[|p| - 1] in inside
    decreases |p|
  {
    assert (p[0], p[1]) in e;
    if |p| > 2 {
      assert IsPath(e, p[1..]);
      PathStaysInside(e, inside, p[1..]);
    }
  }

  /** A path that ends in a set no edge enters starts in it. */
  lemma {:induction false} PathStartsInside<T(!new)>(e: set<(T, T)>, inside: set<T>, p: seq<T>)
    requires forall x, y | (x, y) in e && y in inside :: x in inside
    requires IsPath(e, p) && p[|p| - 1] in inside
    ensures p[0] in inside
    decreases |p|
  {
    assert (p[0], p[1]) in e;
    if |p| > 2 {
      assert IsPath(e, p[1..]);
      PathStartsInside(e, inside, p[1..]);
    }
  }

  /** A path in a graph with one more edge either avoids the edge or splits at it. */
  lemma {:induction false} PathWithEdge<T(!new)>(e: set<(T, T)>, a: T, b: T, p: seq<T>)
    requires IsPath(e + {(a, b)}, p)
    ensures Reaches(e, p[0], p[|p| - 1])
         || ((p[0] == a || Reaches(e, p[0], a)) && (p[|p| - 1] == b || Reaches(e, b, p[|p| - 1])))
    decreases |p|
  {
    var x, y, z := p[0], p[1], p[|p| - 1];
    assert (x, y) in e + {(a, b)};
    if (x, y) in e {
      EdgeReaches(e, x, y);
    }
    if |p| > 2 {
      assert IsPath(e + {(a, b)}, p[1..]);
      PathWithEdge(e, a, b, p[1..]);
      if (x, y) in e {
        if Reaches(e, y, z) {
          ReachesJoin(e, x, y, z);
        } else if y != a {
          ReachesJoin(e, x, y, a);
        }
      }
    }
  }

  /** An edge closes a cycle exactly when its target already reaches its source. */
  lemma EdgeKeepsAcyclic<T(!new)>(e: set<(T, T)>, a: T, b: T)
    ensures Acyclic(e + {(a, b)}) <==> Acyclic(e) && a != b && !Reaches(e, b, a)
  {
    var e' := e + {(a, b)};
    if Acyclic(e) && a != b && !Reaches(e, b, a) {
      forall x ensures !Reaches(e', x, x) {
        if Reaches(e', x, x) {
          var p: seq<T> :| IsPath(e', p) && p[0] == x && p[|p| - 1] == x;
          PathWithEdge(e, a, b, p);
          if x != a && x != b {
            ReachesJoin(e, b, x, a);
          }
        }
      }
    }
    if Acyclic(e') {
      forall x, y | Reaches(e, x, y) ensures Reaches(e', x, y) {
        var p: seq<T> :| IsPath(e, p) && p[0] == x && p[|p| - 1] == y;
        assert IsPath(e', p);
      }
      EdgeReaches(e', a, b);
      if Reaches(e, b, a) {
        ReachesJoin(e', a, b, a);
      }
    }
  }

  /** Every non-empty finite set has a member no other member points to. */
  lemma {:induction false} HasSource<T(!new)>(e: set<(T, T)>, s: set<T>) returns (m: T)
    requires Acyclic(e) && s != {}
    ensures m in s && forall o | o in s :: (o, m) !in e
    decreases |s|
  {
    var x :| x in s;
    var above := set o | o in s && Reaches(e, o, x);
    if above == {} {
      m := x;
      forall o | o in s && (o, m) in e ensures o in above {
        EdgeReaches(e, o, m);
      }
    } else {
      assert x !in above;
      Smaller(above, s);
      m := HasSource(e, above);
      forall o | o in s && (o, m) in e ensures o in above {
        EdgeReaches(e, o, m);
        ReachesJoin(e, o, m, x);
      }
    }
  }

  lemma Smaller<T>(s: set<T>, t: set<T>)
    requires s < t
    ensures |s| < |t|
  {
    var x :| x in t && x !in s;
    assert s <= t - {x};
    NoLarger(s, t - {x});
  }

  lemma {:induction false} NoLarger<T>(s: set<T>, t: set<T>)
    requires s <= t
    ensures |s| <= |t|
    decreases s
  {
    if s != {} {
      var x :| x in s;
      NoLarger(s - {x}, t - {x});
    }
  }
}
