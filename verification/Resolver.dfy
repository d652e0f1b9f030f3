/** Where a query's conditions go: the arrival graph of pkg/omnisdk/query.go and the hash joins it
    may take without closing a cycle. */
module Resolver {
  import opened Graph
  import opened Wrappers

  datatype Column = Column(qualifier: string, name: string)

  datatype Expr = Ref(column: Column) | Literal(text: string) | Collection(items: seq<Expr>) | Apply(fn: string, args: seq<Expr>)

  datatype Op = Eq | Ne | Lt | Le | Gt | Ge

  datatype Predicate =
    | Compare(op: Op, left: Expr, right: Expr)
    | In(subject: Expr, among: Expr)
    | Test(cond: Expr)
    | Or(branches: seq<Predicate>)
    | Not(negated: Predicate)

  /** The name a value arrives under: a request input, or another node's private key. */
  datatype Inbox = Input(name: string) | Private(alias: string, attr: string)

  datatype Arrival = Arrival(from: string, src: string, dest: Inbox)

  datatype Placement = Placed | Unplaced | Refused

  // Which columns a condition reads, in order.

  function ExprColumns(e: Expr): seq<Column>
    decreases e
  {
    match e
    case Ref(c) => [c]
    case Literal(_) => []
    case Collection(items) => ListColumns(items)
    case Apply(_, args) => ListColumns(args)
  }

  function ListColumns(es: seq<Expr>): seq<Column>
    decreases es
  {
    if es == [] then [] else ExprColumns(es[0]) + ListColumns(es[1..])
  }

  function PredicateColumns(p: Predicate): seq<Column>
    decreases p
  {
    match p
    case Compare(_, l, r) => ExprColumns(l) + ExprColumns(r)
    case In(e, s) => ExprColumns(e) + ExprColumns(s)
    case Test(e) => ExprColumns(e)
    case Or(branches) => BranchColumns(branches)
    case Not(q) => PredicateColumns(q)
  }

  function BranchColumns(ps: seq<Predicate>): seq<Column>
    decreases ps
  {
    if ps == [] then [] else PredicateColumns(ps[0]) + BranchColumns(ps[1..])
  }

  // Qualification, which reads the tables' documents, is a parameter of the model.

  type Names = Column -> Option<Column>

  function Kept(name: string): string {
    "\0" + name
  }

  function RewriteExpr(names: Names, e: Expr): Option<Expr>
    decreases e
  {
    match e
    case Ref(c) => (var q := names(c); if q.None? then None else Some(Ref(Column(q.value.qualifier, Kept(q.value.name)))))
    case Literal(_) => Some(e)
    case Collection(items) => (var q := RewriteList(names, items); if q.None? then None else Some(Collection(q.value)))
    case Apply(f, args) => (var q := RewriteList(names, args); if q.None? then None else Some(Apply(f, q.value)))
  }

  function RewriteList(names: Names, es: seq<Expr>): Option<seq<Expr>>
    decreases es
  {
    if es == [] then Some([])
    else
      var first, rest := RewriteExpr(names, es[0]), RewriteList(names, es[1..]);
      if first.None? || rest.None? then None else Some([first.value] + rest.value)
  }

  function Rewrite(names: Names, p: Predicate): Option<Predicate>
    decreases p
  {
    match p
    case Compare(op, l, r) => (
      var l', r' := RewriteExpr(names, l), RewriteExpr(names, r);
      if l'.None? || r'.None? then None else Some(Compare(op, l'.value, r'.value)))
    case In(e, s) => (
      var e', s' := RewriteExpr(names, e), RewriteExpr(names, s);
      if e'.None? || s'.None? then None else Some(In(e'.value, s'.value)))
    case Test(e) => (var e' := RewriteExpr(names, e); if e'.None? then None else Some(Test(e'.value)))
    case Or(branches) => (var q := RewriteBranches(names, branches); if q.None? then None else Some(Or(q.value)))
    case Not(n) => (var q := Rewrite(names, n); if q.None? then None else Some(Not(q.value)))
  }

  function RewriteBranches(names: Names, ps: seq<Predicate>): Option<seq<Predicate>>
    decreases ps
  {
    if ps == [] then Some([])
    else
      var first, rest := Rewrite(names, ps[0]), RewriteBranches(names, ps[1..]);
      if first.None? || rest.None? then None else Some([first.value] + rest.value)
  }

  function IndexOf(order: seq<string>, x: string): int {
    if x !in order then -1
    else if order[0] == x then 0
    else 1 + IndexOf(order[1..], x)
  }

  /** x stands at i in the order, and nowhere before. */
  predicate FirstAt(order: seq<string>, x: string, i: int) {
    0 <= i < |order| && order[i] == x && x !in order[..i]
  }

  lemma NotBefore(order: seq<string>, x: string, i: int, j: int)
    requires FirstAt(order, x, i) && 0 <= j < |order| && order[j] == x
    ensures i <= j
  {
    assert forall k | 0 <= k < i :: order[k] in order[..i];
  }

  lemma {:induction false} IndexIsFirst(order: seq<string>, x: string)
    ensures if x in order then FirstAt(order, x, IndexOf(order, x)) else IndexOf(order, x) == -1
    ensures forall i | FirstAt(order, x, i) :: i == IndexOf(order, x)
    decreases |order|
  {
    if x in order {
      if order[0] != x {
        IndexIsFirst(order[1..], x);
        var i := IndexOf(order[1..], x);
        assert order[1..][..i] == order[..i + 1][1..];
        assert order[..i + 1] == [order[0]] + order[1..][..i];
      }
      forall i | FirstAt(order, x, i) ensures i == IndexOf(order, x) {
        NotBefore(order, x, i, IndexOf(order, x));
        NotBefore(order, x, IndexOf(order, x), i);
      }
    }
  }

  /** x is joined before y. */
  ghost predicate Before(order: seq<string>, x: string, y: string) {
    exists i, j :: FirstAt(order, x, i) && FirstAt(order, y, j) && i < j
  }

  /** Values only travel from tables joined earlier to tables joined later. */
  ghost predicate Forward(order: seq<string>, edges: set<(string, string)>) {
    forall x, y | (x, y) in edges :: Before(order, x, y)
  }

  lemma SidesAreOrdered(names: Names, order: seq<string>, p: Predicate)
    requires IsEquiJoin(p) && names(p.left.column).Some? && names(p.right.column).Some?
    requires var l, r := names(p.left.column).value.qualifier, names(p.right.column).value.qualifier;
             l != r && l in order && r in order
    ensures var l, r := names(p.left.column).value.qualifier, names(p.right.column).value.qualifier;
            var (a, b) := JoinSides(names, order, p);
            Before(order, a, b) && {a, b} == {l, r}
  {
    var l, r := names(p.left.column).value.qualifier, names(p.right.column).value.qualifier;
    IndexIsFirst(order, l);
    IndexIsFirst(order, r);
    var (a, b) := JoinSides(names, order, p);
    assert FirstAt(order, a, IndexOf(order, a)) && FirstAt(order, b, IndexOf(order, b));
  }

  /** A condition on two of the order's tables joined the one that stands later, fed by the one that stands earlier. */
  ghost predicate JoinsLater(order: seq<string>, x: string, y: string, q: Predicate, edges: set<(string, string)>, edges': set<(string, string)>,
                             on: map<string, seq<Predicate>>, on': map<string, seq<Predicate>>) {
    exists i, j | 0 <= i < j < |order| ::
      && FirstAt(order, order[i], i) && FirstAt(order, order[j], j) && {order[i], order[j]} == {x, y}
      && edges' == edges + {(order[i], order[j])}
      && on' == on[order[j] := (if order[j] in on then on[order[j]] else []) + [q]]
  }

  lemma JoinRunsForward(names: Names, order: seq<string>, p: Predicate, q: Predicate, edges: set<(string, string)>, edges': set<(string, string)>,
                        on: map<string, seq<Predicate>>, on': map<string, seq<Predicate>>)
    requires IsEquiJoin(p) && names(p.left.column).Some? && names(p.right.column).Some?
    requires var l, r := names(p.left.column).value.qualifier, names(p.right.column).value.qualifier;
             l != r && l in order && r in order
    requires var (a, b) := JoinSides(names, order, p);
             edges' == edges + {(a, b)} && on' == on[b := (if b in on then on[b] else []) + [q]]
    ensures JoinsLater(order, names(p.left.column).value.qualifier, names(p.right.column).value.qualifier, q, edges, edges', on, on')
    ensures Forward(order, edges) ==> Forward(order, edges')
  {
    hide JoinSides;
    SidesAreOrdered(names, order, p);
    var (a, b) := JoinSides(names, order, p);
    var i, j :| FirstAt(order, a, i) && FirstAt(order, b, j) && i < j;
    assert order[i] == a && order[j] == b;
  }

  /** A predicate that compares two columns for equality. */
  predicate IsEquiJoin(p: Predicate) {
    p.Compare? && p.op == Eq && p.left.Ref? && p.right.Ref?
  }

  /** The tables an equality joins, the one joined earlier first. */
  function JoinSides(names: Names, order: seq<string>, p: Predicate): (string, string)
    requires IsEquiJoin(p) && names(p.left.column).Some? && names(p.right.column).Some?
  {
    var l, r := names(p.left.column).value.qualifier, names(p.right.column).value.qualifier;
    if IndexOf(order, l) > IndexOf(order, r) then (r, l) else (l, r)
  }

  /** Who sends a value to whom. */
  function EdgesOf(arrivals: map<string, seq<Arrival>>): set<(string, string)> {
    set to, a | to in arrivals && a in arrivals[to] :: (a.from, to)
  }

  class Resolver {
    const names: Names
    const order: seq<string>
    const outer: set<string>
    const mutating: string
    var arrivals: map<string, seq<Arrival>>
    var consumers: seq<string>
    var filters: seq<Predicate>
    var on: map<string, seq<Predicate>>
    var onTarget: string

    /** Consumers are the nodes something arrives at, once each; a private key names its sender and what it
        sends; and qualifying a column names a table. */
    ghost predicate Valid()
      reads this`arrivals, this`consumers
    {
      && (forall to :: to in consumers <==> to in arrivals)
      && (forall i, j | 0 <= i < j < |consumers| :: consumers[i] != consumers[j])
      && (forall to, a | to in arrivals && a in arrivals[to] && a.dest.Private? :: a.dest == Private(a.from, a.src))
      && (forall c | names(c).Some? :: names(c).value.qualifier != "")
    }

    /** Nothing placed yet. */
    constructor (names: Names, order: seq<string>, outer: set<string>, mutating: string)
      requires forall c | names(c).Some? :: names(c).value.qualifier != ""
      ensures Valid() && onTarget == "" && Edges() == {} && filters == [] && on == map[]
      ensures this.names == names && this.order == order && this.outer == outer && this.mutating == mutating
    {
      this.names, this.order, this.outer, this.mutating := names, order, outer, mutating;
      arrivals, consumers, filters, on, onTarget := map[], [], [], map[], "";
    }

    ghost function Edges(): set<(string, string)>
      reads this`arrivals
    {
      EdgesOf(arrivals)
    }

    /** Every table a column can name is one of the query's. */
    ghost predicate InOrder() {
      forall c | names(c).Some? :: names(c).value.qualifier in order
    }

    /** Whether a rewritten condition is checked somewhere: on the finished rows, or on one node's. */
    ghost predicate Landed(q: Predicate)
      reads this`filters, this`on
    {
      q in filters || exists b | b in on :: q in on[b]
    }

    /** The depth-first search behind Reaches, with the shared set of visited nodes threaded through. */
    method Walk(from: string, at: string, seen: set<string>, ghost nodes: set<string>)
      returns (hit: bool, seen': set<string>)
      requires at in nodes && forall x, y | (x, y) in Edges() :: x in nodes
      ensures seen + {at} <= seen'
      ensures hit ==> Graph.Reaches(Edges(), from, at)
      ensures !hit ==> forall x, y | (x, y) in Edges() && y in seen' - seen :: x != from && x in seen'
      decreases nodes - seen
    {
      seen' := seen;
      if at in seen {
        return false, seen';
      }
      seen' := seen + {at};
      if at !in arrivals {
        return false, seen';
      }
      for i := 0 to |arrivals[at]|
        invariant seen + {at} <= seen'
        invariant forall j | 0 <= j < i :: arrivals[at][j].from != from && arrivals[at][j].from in seen'
        invariant forall x, y | (x, y) in Edges() && y in seen' - seen - {at} :: x != from && x in seen'
      {
        var a := arrivals[at][i];
        assert (a.from, at) in Edges();
        EdgeReaches(Edges(), a.from, at);
        if a.from == from {
          return true, seen';
        }
        ghost var before := seen';
        hit, seen' := Walk(from, a.from, seen', nodes);
        if hit {
          ReachesJoin(Edges(), from, a.from, at);
          return;
        }
        assert seen' - seen - {at} <= (seen' - before) + (before - seen - {at});
      }
      return false, seen';
    }

    /** The search decides path existence in the arrival graph, and ends on cyclic ones. */
    method Reaches(from: string, to: string) returns (r: bool)
      ensures r <==> Graph.Reaches(Edges(), from, to)
    {
      ghost var nodes := {to} + set e | e in Edges() :: e.0;
      assert forall x, y | (x, y) in Edges() :: (x, y).0 in nodes;
      var seen;
      r, seen := Walk(from, to, {}, nodes);
      if !r {
        forall p: seq<string> | IsPath(Edges(), p) && p[|p| - 1] == to ensures p[0] != from {
          assert (p[0], p[1]) in Edges();
          if |p| > 2 {
            assert IsPath(Edges(), p[1..]);
            PathStartsInside(Edges(), seen, p[1..]);
          }
        }
      }
    }

    predicate Arriving(to: string, dest: Inbox)
      reads this`arrivals
    {
      to in arrivals && exists a | a in arrivals[to] :: a.dest == dest
    }

    method Arrive(to: string, a: Arrival)
      requires Valid() && (a.dest.Private? ==> a.dest == Private(a.from, a.src))
      modifies this`arrivals, this`consumers
      ensures Valid()
      ensures arrivals == old(arrivals)[to := (if to in old(arrivals) then old(arrivals)[to] else []) + [a]]
      ensures Edges() == old(Edges()) + {(a.from, to)}
      ensures Arriving(to, a.dest) && forall at, d | old(Arriving(at, d)) :: Arriving(at, d)
    {
      if to !in arrivals {
        consumers := consumers + [to];
      }
      var was := if to in arrivals then arrivals[to] else [];
      arrivals := arrivals[to := was + [a]];
      EdgesAfter(old(arrivals), to, a);
    }

    /** Brings every column another table has to the node the condition is for, unless it arrives already. */
    method Feed(cs: seq<Column>)
      requires Valid()
      modifies this`arrivals, this`consumers
      ensures Valid() && Edges() == old(Edges()) + Senders(cs, onTarget)
      ensures forall c | c in cs && c.qualifier != onTarget :: Arriving(onTarget, Private(c.qualifier, c.name))
    {
      hide EdgesOf, Senders, Arriving;
      assert cs[..0] == [];
      NoSenders(onTarget);
      for i := 0 to |cs|
        invariant Valid() && Edges() == old(Edges()) + Senders(cs[..i], onTarget)
        invariant forall c | c in cs[..i] && c.qualifier != onTarget :: Arriving(onTarget, Private(c.qualifier, c.name))
      {
        var c := cs[i];
        SendersSnoc(cs, i, onTarget);
        assert cs[..i + 1] == cs[..i] + [c];
        if c.qualifier != onTarget {
          var dest := Private(c.qualifier, c.name);
          if !Arriving(onTarget, dest) {
            Arrive(onTarget, Arrival(c.qualifier, c.name, dest));
          } else {
            ArrivesByEdge(onTarget, dest);
          }
        }
      }
      assert cs[..|cs|] == cs;
    }

    lemma ArrivesByEdge(to: string, dest: Inbox)
      requires Valid() && dest.Private? && Arriving(to, dest)
      ensures (dest.alias, to) in Edges()
    {
    }

    /** Accepted, a condition joins the query's filters or one node's, and in the second case the graph gains
        exactly the edges from the other tables it reads; refused, it changes nothing. */
    method Filter(p: Predicate) returns (ok: bool)
      requires Valid()
      modifies this`arrivals, this`consumers, this`filters, this`on
      ensures Valid()
      ensures ok <==> mutating == "" && Rewrite(names, p).Some?
      ensures !ok ==> arrivals == old(arrivals) && filters == old(filters) && on == old(on)
      ensures ok && onTarget == "" ==>
                filters == old(filters) + [Rewrite(names, p).value] && on == old(on) && arrivals == old(arrivals)
      ensures ok && onTarget != "" ==>
                && filters == old(filters)
                && on == old(on)[onTarget := (if onTarget in old(on) then old(on)[onTarget] else []) + [Rewrite(names, p).value]]
                && Edges() == old(Edges()) + Senders(PredicateColumns(Rewrite(names, p).value), onTarget)
      ensures ok && onTarget != "" ==>
                forall c | c in PredicateColumns(Rewrite(names, p).value) && c.qualifier != onTarget ::
                  Arriving(onTarget, Private(c.qualifier, c.name))
    {
      if mutating != "" {
        return false;
      }
      var r := Rewrite(names, p);
      if r.None? {
        return false;
      }
      var q := r.value;
      if onTarget == "" {
        filters := filters + [q];
        return true;
      }
      var cs := PredicateColumns(q);
      Feed(cs);
      on := on[onTarget := (if onTarget in on then on[onTarget] else []) + [q]];
      return true;
    }

    /** Of equalities between two inner-joined tables, exactly those are placed whose edge, from the earlier
        table to the later, closes no cycle; each adds that edge alone. */
    method HashJoin(p: Predicate) returns (r: Placement)
      requires Valid()
      modifies this`arrivals, this`consumers, this`filters, this`on, this`onTarget
      ensures Valid()
      ensures r == Refused <==> IsEquiJoin(p) && mutating == "" && (names(p.left.column).None? || names(p.right.column).None?)
      ensures r == Placed <==> && IsEquiJoin(p) && mutating == "" && names(p.left.column).Some? && names(p.right.column).Some?
                               && (var (a, b) := JoinSides(names, order, p);
                                   a != b && a !in outer && b !in outer && !Graph.Reaches(old(Edges()), b, a))
      ensures r != Placed ==> arrivals == old(arrivals) && on == old(on) && filters == old(filters) && onTarget == old(onTarget)
      ensures r == Placed ==>
                && Rewrite(names, p).Some?
                && (var (a, b) := JoinSides(names, order, p);
                    && Edges() == old(Edges()) + {(a, b)} && filters == old(filters)
                    && on == old(on)[b := (if b in old(on) then old(on)[b] else []) + [Rewrite(names, p).value]])
                && onTarget == ""
      ensures r == Placed ==>
                var x, y := names(p.left.column).value.qualifier, names(p.right.column).value.qualifier;
                x in order && y in order ==> JoinsLater(order, x, y, Rewrite(names, p).value, old(Edges()), Edges(), old(on), on)
      ensures InOrder() && Forward(order, old(Edges())) ==> Forward(order, Edges())
      ensures Acyclic(old(Edges())) ==> Acyclic(Edges())
    {
      if !p.Compare? || p.op != Eq || mutating != "" {
        return Unplaced;
      }
      if !p.left.Ref? || !p.right.Ref? {
        return Unplaced;
      }
      var l, rc := names(p.left.column), names(p.right.column);
      if l.None? || rc.None? {
        return Refused;
      }
      var a, b := l.value.qualifier, rc.value.qualifier;
      if a == b {
        return Unplaced;
      }
      if IndexOf(order, a) > IndexOf(order, b) {
        a, b := b, a;
      }
      var around := Reaches(b, a);
      if a in outer || b in outer || around {
        return Unplaced;
      }
      hide Rewrite, PredicateColumns, Senders, EdgesOf, Acyclic, Graph.Reaches, JoinsLater, Forward;
      EdgeKeepsAcyclic(Edges(), a, b);
      JoinSenders(names, order, p);
      assert JoinSides(names, order, p) == (a, b);
      onTarget := b;
      var ok := Filter(p);
      onTarget := "";
      if a in order && b in order {
        JoinRunsForward(names, order, p, Rewrite(names, p).value, old(Edges()), Edges(), old(on), on);
      }
      return Placed;
    }

    /** The last of a query's conditions: each is a hash join where it can be and a filter otherwise. */
    method PlaceUnbound(unbound: seq<Predicate>) returns (ok: bool)
      requires Valid() && onTarget == ""
      modifies this`arrivals, this`consumers, this`filters, this`on, this`onTarget
      ensures Valid()
      ensures old(Edges()) <= Edges()
      ensures Acyclic(old(Edges())) ==> Acyclic(Edges())
      ensures InOrder() && Forward(order, old(Edges())) ==> Forward(order, Edges())
      ensures forall q | old(Landed(q)) :: Landed(q)
      ensures ok ==> forall p | p in unbound :: Rewrite(names, p).Some? && Landed(Rewrite(names, p).value)
    {
      hide Rewrite, Acyclic, EdgesOf, Graph.Reaches, JoinSides, PredicateColumns, Senders, Forward, InOrder;
      for i := 0 to |unbound|
        invariant Valid() && onTarget == ""
        invariant old(Edges()) <= Edges()
        invariant Acyclic(old(Edges())) ==> Acyclic(Edges())
        invariant InOrder() && Forward(order, old(Edges())) ==> Forward(order, Edges())
        invariant forall q | old(Landed(q)) :: Landed(q)
        invariant forall j | 0 <= j < i :: Rewrite(names, unbound[j]).Some? && Landed(Rewrite(names, unbound[j]).value)
      {
        label Before:
        var placed := HashJoin(unbound[i]);
        if placed == Refused {
          return false;
        }
        if placed == Unplaced {
          ok := Filter(unbound[i]);
          if !ok {
            return;
          }
        }
        ghost var landed := Rewrite(names, unbound[i]).value;
        if placed == Placed {
          ghost var b := JoinSides(names, order, unbound[i]).1;
          assert landed in on[b];
        }
        forall q | old@Before(Landed(q)) ensures Landed(q) {
          if q !in old@Before(filters) {
            var k :| k in old@Before(on) && q in old@Before(on)[k];
            assert k in on && q in on[k];
          }
        }
      }
      return true;
    }
  }

  /** The edges a match condition on a node adds: one from every other table it reads. */
  function Senders(cs: seq<Column>, to: string): set<(string, string)> {
    set c | c in cs && c.qualifier != to :: (c.qualifier, to)
  }

  lemma NoSenders(to: string)
    ensures Senders([], to) == {}
  {
  }

  lemma SendersSnoc(cs: seq<Column>, i: nat, to: string)
    requires i < |cs|
    ensures Senders(cs[..i + 1], to) == Senders(cs[..i], to) + if cs[i].qualifier != to then {(cs[i].qualifier, to)} else {}
  {
    assert cs[..i + 1] == cs[..i] + [cs[i]];
  }

  lemma EdgesAfter(arrivals: map<string, seq<Arrival>>, to: string, a: Arrival)
    ensures EdgesOf(arrivals[to := (if to in arrivals then arrivals[to] else []) + [a]]) == EdgesOf(arrivals) + {(a.from, to)}
  {
    var was := if to in arrivals then arrivals[to] else [];
    var after := arrivals[to := was + [a]];
    assert a in after[to];
    forall x, y | (x, y) in EdgesOf(arrivals) ensures (x, y) in EdgesOf(after) {
      var b :| b in arrivals[y] && b.from == x;
      assert b in after[y];
    }
  }

  lemma JoinSenders(names: Names, order: seq<string>, p: Predicate)
    requires IsEquiJoin(p) && names(p.left.column).Some? && names(p.right.column).Some?
    requires names(p.left.column).value.qualifier != names(p.right.column).value.qualifier
    ensures Rewrite(names, p).Some?
    ensures var (a, b) := JoinSides(names, order, p);
            Senders(PredicateColumns(Rewrite(names, p).value), b) == {(a, b)}
  {
    var l, r := names(p.left.column).value, names(p.right.column).value;
    assert PredicateColumns(Rewrite(names, p).value)
        == [Column(l.qualifier, Kept(l.name)), Column(r.qualifier, Kept(r.name))];
  }
}
