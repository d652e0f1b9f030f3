/** A condition on a row, filterTransform.eval of pkg/omnisdk/relational.go: three-valued logic over
    values that may be missing. */
module Filter {
  import opened Resolver
  import J = JoinKey
  import opened Wrappers

  datatype Truth = Unknown | False | True

  /** An evaluation, or the error it stops at. */
  datatype Result<T> = Value(value: T) | Error

  type Row = map<Column, J.Cell>

  /** What evaluation is given: how texts read as numbers, the functions, and how a present value tests
      as a condition. */
  datatype Env = Env(read: J.Reader, call: (string, seq<J.Cell>) -> Result<J.Cell>, test: string -> Truth)

  function TruthOf(b: bool): Truth {
    if b then True else False
  }

  function EvalExpr(env: Env, e: Expr, row: Row): Result<J.Cell>
    decreases e
  {
    match e
    case Ref(c) => Value(if c in row then row[c] else None)
    case Literal(text) => Value(Some(text))
    case Apply(fn, args) => (var vs := EvalArgs(env, args, row); if vs.Error? then Error else env.call(fn, vs.value))
    case Collection(_) => Error
  }

  function EvalArgs(env: Env, es: seq<Expr>, row: Row): Result<seq<J.Cell>>
    decreases es
  {
    if es == [] then Value([])
    else
      var v := EvalExpr(env, es[0], row);
      if v.Error? then Error
      else (var vs := EvalArgs(env, es[1..], row); if vs.Error? then Error else Value([v.value] + vs.value))
  }

  function Compared(op: Op, c: Option<int>): Truth {
    if c.None? then Unknown
    else
      match op
      case Eq => TruthOf(c.value == 0)
      case Ne => TruthOf(c.value != 0)
      case Lt => TruthOf(c.value < 0)
      case Le => TruthOf(c.value <= 0)
      case Gt => TruthOf(c.value > 0)
      case Ge => TruthOf(c.value >= 0)
  }

  function Eval(env: Env, p: Predicate, row: Row): Result<Truth>
    decreases p
  {
    match p
    case Compare(op, l, r) => (
      var x := EvalExpr(env, l, row);
      if x.Error? then Error
      else
        var y := EvalExpr(env, r, row);
        if y.Error? then Error else Value(Compared(op, J.CompareValues(env.read, x.value, y.value))))
    case In(e, among) => (
      var v := EvalExpr(env, e, row);
      if v.Error? || !among.Collection? then Error else EvalIn(env, v.value, among.items, row, False))
    case Test(e) => (
      var v := EvalExpr(env, e, row);
      if v.Error? then Error else Value(if v.value.None? then Unknown else env.test(v.value.value)))
    case Or(branches) => EvalOr(env, branches, row, False)
    case Not(q) => (
      var t := Eval(env, q, row);
      if t.Error? then Error else Value(match t.value case True => False case False => True case Unknown => Unknown))
  }

  /** The items of an IN list from one on, sofar being what the earlier ones came to. */
  function EvalIn(env: Env, v: J.Cell, items: seq<Expr>, row: Row, sofar: Truth): Result<Truth>
    decreases items
  {
    if items == [] then Value(sofar)
    else
      var x := EvalExpr(env, items[0], row);
      if x.Error? then Error
      else
        var c := J.CompareValues(env.read, v, x.value);
        if c == Some(0) then Value(True)
        else EvalIn(env, v, items[1..], row, if c.None? then Unknown else sofar)
  }

  function EvalOr(env: Env, ps: seq<Predicate>, row: Row, sofar: Truth): Result<Truth>
    decreases ps
  {
    if ps == [] then Value(sofar)
    else
      var t := Eval(env, ps[0], row);
      if t.Error? then Error
      else if t.value == True then Value(True)
      else EvalOr(env, ps[1..], row, if t.value == Unknown then Unknown else sofar)
  }

  function Equalities(e: Expr, items: seq<Expr>): seq<Predicate> {
    if items == [] then [] else [Compare(Eq, e, items[0])] + Equalities(e, items[1..])
  }

  /** IN a list is any of the equalities with its items. */
  lemma InIsAnyEquality(env: Env, e: Expr, items: seq<Expr>, row: Row)
    requires EvalExpr(env, e, row).Value?
    ensures Eval(env, In(e, Collection(items)), row) == Eval(env, Or(Equalities(e, items)), row)
  {
    InMatchesOr(env, e, items, row, False);
  }

  lemma {:induction false} InMatchesOr(env: Env, e: Expr, items: seq<Expr>, row: Row, sofar: Truth)
    requires EvalExpr(env, e, row).Value?
    ensures EvalIn(env, EvalExpr(env, e, row).value, items, row, sofar) == EvalOr(env, Equalities(e, items), row, sofar)
    decreases |items|
  {
    if items != [] {
      var v, x := EvalExpr(env, e, row), EvalExpr(env, items[0], row);
      assert Equalities(e, items)[0] == Compare(Eq, e, items[0]) && Equalities(e, items)[1..] == Equalities(e, items[1..]);
      if x.Value? {
        var c := J.CompareValues(env.read, v.value, x.value);
        InMatchesOr(env, e, items[1..], row, if c.None? then Unknown else sofar);
      }
    }
  }

  // Missing values only withhold an answer.

  /** A row with some of its missing values filled in. */
  ghost predicate Fills(row: Row, fuller: Row) {
    forall c | c in row && row[c].Some? :: c in fuller && fuller[c] == row[c]
  }

  predicate Simple(e: Expr) {
    e.Ref? || e.Literal?
  }

  /** Reads columns and literals only. */
  predicate Plain(p: Predicate)
    decreases p
  {
    match p
    case Compare(_, l, r) => Simple(l) && Simple(r)
    case In(e, among) => Simple(e) && among.Collection? && forall x | x in among.items :: Simple(x)
    case Test(e) => Simple(e)
    case Or(branches) => forall q | q in branches :: Plain(q)
    case Not(q) => Plain(q)
  }

  /** b says at least what a says. */
  predicate Refines(a: Result<Truth>, b: Result<Truth>) {
    a.Value? && b.Value? && (a.value == Unknown || a.value == b.value)
  }

  lemma SimpleFills(env: Env, e: Expr, row: Row, fuller: Row)
    requires Simple(e) && Fills(row, fuller)
    ensures EvalExpr(env, e, row).Value? && EvalExpr(env, e, fuller).Value?
    ensures EvalExpr(env, e, row).value.Some? ==> EvalExpr(env, e, fuller) == EvalExpr(env, e, row)
  {
  }

  /** A condition decided on a row stays decided, and the same way, however its missing values are filled
      in: a row kept or dropped on what is known is not kept or dropped wrongly. */
  lemma {:induction false} DecidedStaysDecided(env: Env, p: Predicate, row: Row, fuller: Row)
    requires Plain(p) && Fills(row, fuller)
    ensures Refines(Eval(env, p, row), Eval(env, p, fuller))
    decreases p
  {
    hide J.CompareValues;
    match p
    case Compare(_, l, r) =>
      SimpleFills(env, l, row, fuller);
      SimpleFills(env, r, row, fuller);
      MissingIsUnknown(env, EvalExpr(env, l, row).value, EvalExpr(env, r, row).value);
    case In(e, among) =>
      SimpleFills(env, e, row, fuller);
      InFills(env, EvalExpr(env, e, row).value, EvalExpr(env, e, fuller).value, among.items, row, fuller, False, False);
    case Test(e) => SimpleFills(env, e, row, fuller);
    case Or(branches) => OrFills(env, branches, row, fuller, False, False);
    case Not(q) => DecidedStaysDecided(env, q, row, fuller);
  }

  lemma MissingIsUnknown(env: Env, x: J.Cell, y: J.Cell)
    ensures J.CompareValues(env.read, x, y).None? <==> x.None? || y.None?
  {
  }

  lemma {:induction false} InFills(env: Env, v: J.Cell, v': J.Cell, items: seq<Expr>, row: Row, fuller: Row, sofar: Truth, sofar': Truth)
    requires Fills(row, fuller) && (forall x | x in items :: Simple(x)) && (v.Some? ==> v' == v)
    requires sofar != True && sofar' != True && (sofar == Unknown || sofar == sofar')
    ensures Refines(EvalIn(env, v, items, row, sofar), EvalIn(env, v', items, fuller, sofar'))
    decreases |items|
  {
    hide J.CompareValues;
    if items != [] {
      SimpleFills(env, items[0], row, fuller);
      var x, x' := EvalExpr(env, items[0], row).value, EvalExpr(env, items[0], fuller).value;
      MissingIsUnknown(env, v, x);
      MissingIsUnknown(env, v', x');
      var c, c' := J.CompareValues(env.read, v, x), J.CompareValues(env.read, v', x');
      if c != Some(0) && c' != Some(0) {
        InFills(env, v, v', items[1..], row, fuller, if c.None? then Unknown else sofar, if c'.None? then Unknown else sofar');
      } else if c != Some(0) {
        InNeverFalse(env, v, items[1..], row);
      }
    }
  }

  /** Once an item compared with nothing, an IN list cannot come to false. */
  lemma {:induction false} InNeverFalse(env: Env, v: J.Cell, items: seq<Expr>, row: Row)
    requires forall x | x in items :: Simple(x)
    ensures EvalIn(env, v, items, row, Unknown).Value? && EvalIn(env, v, items, row, Unknown).value != False
    decreases |items|
  {
    if items != [] {
      assert Simple(items[0]);
      InNeverFalse(env, v, items[1..], row);
    }
  }

  lemma {:induction false} OrFills(env: Env, ps: seq<Predicate>, row: Row, fuller: Row, sofar: Truth, sofar': Truth)
    requires Fills(row, fuller) && forall q | q in ps :: Plain(q)
    requires sofar != True && sofar' != True && (sofar == Unknown || sofar == sofar')
    ensures Refines(EvalOr(env, ps, row, sofar), EvalOr(env, ps, fuller, sofar'))
    decreases ps
  {
    if ps != [] {
      DecidedStaysDecided(env, ps[0], row, fuller);
      var t, t' := Eval(env, ps[0], row).value, Eval(env, ps[0], fuller).value;
      if t != True && t' != True {
        OrFills(env, ps[1..], row, fuller, if t == Unknown then Unknown else sofar, if t' == Unknown then Unknown else sofar');
      } else if t != True {
        OrNeverFalse(env, ps[1..], row, fuller);
      }
    }
  }

  lemma {:induction false} OrNeverFalse(env: Env, ps: seq<Predicate>, row: Row, fuller: Row)
    requires Fills(row, fuller) && forall q | q in ps :: Plain(q)
    ensures EvalOr(env, ps, row, Unknown).Value? && EvalOr(env, ps, row, Unknown).value != False
    decreases ps
  {
    if ps != [] {
      DecidedStaysDecided(env, ps[0], row, fuller);
      OrNeverFalse(env, ps[1..], row, fuller);
    }
  }

  // What the operators mean.

  /** How two reals stand. */
  predicate Stands(op: Op, x: real, y: real) {
    match op
    case Eq => x == y
    case Ne => x != y
    case Lt => x < y
    case Le => x <= y
    case Gt => x > y
    case Ge => x >= y
  }

  /** Two values that read as exact numbers, integers among them, are compared as those numbers. */
  lemma NumbersCompareAsNumbers(env: Env, op: Op, l: Expr, r: Expr, row: Row, a: string, b: string)
    requires J.Sound(env.read) && EvalExpr(env, l, row) == Value(Some(a)) && EvalExpr(env, r, row) == Value(Some(b))
    requires env.read(a).exact.Some? && env.read(a).float.Some? && env.read(b).exact.Some? && env.read(b).float.Some?
    ensures Eval(env, Compare(op, l, r), row) == Value(TruthOf(Stands(op, env.read(a).exact.value, env.read(b).exact.value)))
  {
    hide J.CompareValues;
    J.ComparisonOrders(env.read, a, b);
  }

  function Mirror(op: Op): Op {
    match op
    case Lt => Gt
    case Gt => Lt
    case Le => Ge
    case Ge => Le
    case _ => op
  }

  /** The operators among themselves, on any values and errors: a comparison is its mirror image with the
      sides exchanged, at most is less or equal, and the other three are what they deny. */
  lemma OperatorsAgree(env: Env, op: Op, l: Expr, r: Expr, row: Row)
    requires J.Sound(env.read)
    ensures Eval(env, Compare(op, l, r), row) == Eval(env, Compare(Mirror(op), r, l), row)
    ensures Eval(env, Compare(Le, l, r), row) == Eval(env, Or([Compare(Lt, l, r), Compare(Eq, l, r)]), row)
    ensures Eval(env, Compare(Ge, l, r), row) == Eval(env, Not(Compare(Lt, l, r)), row)
    ensures Eval(env, Compare(Gt, l, r), row) == Eval(env, Not(Compare(Le, l, r)), row)
    ensures Eval(env, Compare(Ne, l, r), row) == Eval(env, Not(Compare(Eq, l, r)), row)
  {
    hide J.CompareValues;
    var x, y := EvalExpr(env, l, row), EvalExpr(env, r, row);
    if x.Value? && y.Value? {
      MirrorsSign(env.read, x.value, y.value);
    }
    OrOfTwo(env, Compare(Lt, l, r), Compare(Eq, l, r), row);
  }

  lemma OrOfTwo(env: Env, p: Predicate, q: Predicate, row: Row)
    ensures Eval(env, Or([p, q]), row) ==
              var t, u := Eval(env, p, row), Eval(env, q, row);
              if t.Error? || t == Value(True) then t
              else if u.Error? || u == Value(True) || t.value == False then u
              else Value(Unknown)
  {
    assert [p, q][1..] == [q];
    OrOfOne(env, q, row, False);
    OrOfOne(env, q, row, Unknown);
  }

  lemma OrOfOne(env: Env, q: Predicate, row: Row, sofar: Truth)
    ensures EvalOr(env, [q], row, sofar) ==
              var u := Eval(env, q, row);
              if u.Error? || u == Value(True) then u else Value(if u.value == Unknown then Unknown else sofar)
  {
    assert [q][1..] == [];
    assert EvalOr(env, [], row, Unknown) == Value(Unknown) && EvalOr(env, [], row, sofar) == Value(sofar);
  }

  lemma MirrorsSign(read: J.Reader, x: J.Cell, y: J.Cell)
    requires J.Sound(read)
    ensures var c, d := J.CompareValues(read, x, y), J.CompareValues(read, y, x);
            && (c.Some? <==> d.Some?) && (c.Some? ==> -1 <= c.value <= 1 && d.value == -c.value)
  {
    J.ComparisonMirrors(read, x, y);
    J.ComparisonMirrors(read, y, x);
    if x.Some? && y.Some? {
      hide J.CompareValues;
      J.ComparisonOrders(read, x.value, y.value);
      J.ComparisonOrders(read, y.value, x.value);
    }
  }

  /** Not exchanges true and false and leaves what is unknown, or fails, as it is. */
  lemma NotExchanges(env: Env, p: Predicate, row: Row)
    ensures Eval(env, Not(p), row) == Value(True) <==> Eval(env, p, row) == Value(False)
    ensures Eval(env, Not(p), row) == Value(False) <==> Eval(env, p, row) == Value(True)
    ensures Eval(env, Not(Not(p)), row) == Eval(env, p, row)
  {
  }

  /** Where every branch can be evaluated, or is true as soon as one branch is, and false only if all are. */
  lemma OrIsAny(env: Env, branches: seq<Predicate>, row: Row)
    requires forall q | q in branches :: Eval(env, q, row).Value?
    ensures Eval(env, Or(branches), row).Value?
    ensures Eval(env, Or(branches), row).value == True <==> exists q | q in branches :: Eval(env, q, row).value == True
    ensures Eval(env, Or(branches), row).value == False <==> forall q | q in branches :: Eval(env, q, row).value == False
  {
    OrFrom(env, branches, row, False);
  }

  lemma {:induction false} OrFrom(env: Env, ps: seq<Predicate>, row: Row, sofar: Truth)
    requires sofar != True && forall q | q in ps :: Eval(env, q, row).Value?
    ensures var r := EvalOr(env, ps, row, sofar);
      && r.Value?
      && (r.value == True <==> exists q | q in ps :: Eval(env, q, row).value == True)
      && (r.value == False <==> sofar == False && forall q | q in ps :: Eval(env, q, row).value == False)
    decreases |ps|
  {
    if ps != [] {
      var t := Eval(env, ps[0], row).value;
      assert ps[0] in ps && forall q :: q in ps <==> q == ps[0] || q in ps[1..];
      assert EvalOr(env, ps, row, sofar) ==
        if t == True then Value(True) else EvalOr(env, ps[1..], row, if t == Unknown then Unknown else sofar);
      hide EvalOr, Eval;
      if t != True {
        OrFrom(env, ps[1..], row, if t == Unknown then Unknown else sofar);
      }
    }
  }

  /** A function is called with its arguments' values in their order, and fails if one of them does. */
  lemma {:induction false} ArgumentsInOrder(env: Env, es: seq<Expr>, row: Row)
    ensures EvalArgs(env, es, row).Error? <==> exists i | 0 <= i < |es| :: EvalExpr(env, es[i], row).Error?
    ensures EvalArgs(env, es, row).Value? ==>
              var vs := EvalArgs(env, es, row).value;
              |vs| == |es| && forall i | 0 <= i < |es| :: EvalExpr(env, es[i], row) == Value(vs[i])
    decreases |es|
  {
    if es != [] {
      ArgumentsInOrder(env, es[1..], row);
      assert forall i | 0 < i < |es| :: es[i] == es[1..][i - 1];
      assert forall i | 0 <= i < |es| - 1 :: es[1..][i] == es[i + 1];
    }
  }

  // Where a condition may be moved.

  function Look(row: Row, c: Column): J.Cell {
    if c in row then row[c] else None
  }

  /** A row under the names its nodes keep its values by. */
  ghost predicate Renamed(names: Names, row: Row, kept: Row) {
    forall c | names(c).Some? :: Look(kept, Column(names(c).value.qualifier, Kept(names(c).value.name))) == Look(row, c)
  }

  lemma {:induction false} ExprMoves(env: Env, names: Names, e: Expr, row: Row, kept: Row)
    requires RewriteExpr(names, e).Some? && Renamed(names, row, kept)
    ensures EvalExpr(env, RewriteExpr(names, e).value, kept) == EvalExpr(env, e, row)
    ensures RewriteExpr(names, e).value.Collection? <==> e.Collection?
    decreases e
  {
    match e
    case Ref(c) =>
    case Apply(_, args) => ArgsMove(env, names, args, row, kept);
    case _ =>
  }

  lemma {:induction false} ArgsMove(env: Env, names: Names, es: seq<Expr>, row: Row, kept: Row)
    requires RewriteList(names, es).Some? && Renamed(names, row, kept)
    ensures EvalArgs(env, RewriteList(names, es).value, kept) == EvalArgs(env, es, row)
    decreases es
  {
    if es != [] {
      ExprMoves(env, names, es[0], row, kept);
      ArgsMove(env, names, es[1..], row, kept);
      assert RewriteList(names, es).value[1..] == RewriteList(names, es[1..]).value;
    }
  }

  lemma {:induction false} ItemsMove(env: Env, names: Names, v: J.Cell, items: seq<Expr>, row: Row, kept: Row, sofar: Truth)
    requires RewriteList(names, items).Some? && Renamed(names, row, kept)
    ensures EvalIn(env, v, RewriteList(names, items).value, kept, sofar) == EvalIn(env, v, items, row, sofar)
    decreases |items|
  {
    hide J.CompareValues;
    if items != [] {
      var x := EvalExpr(env, items[0], row);
      ExprMoves(env, names, items[0], row, kept);
      assert RewriteList(names, items).value[1..] == RewriteList(names, items[1..]).value;
      if x.Value? {
        ItemsMove(env, names, v, items[1..], row, kept, if J.CompareValues(env.read, v, x.value).None? then Unknown else sofar);
      }
    }
  }

  /** A rewritten condition says of a row under its kept names what the original says of the row. */
  lemma {:induction false} RewriteKeepsMeaning(env: Env, names: Names, p: Predicate, row: Row, kept: Row)
    requires Rewrite(names, p).Some? && Renamed(names, row, kept)
    ensures Eval(env, Rewrite(names, p).value, kept) == Eval(env, p, row)
    decreases p
  {
    hide J.CompareValues;
    match p
    case Compare(_, l, r) =>
      ExprMoves(env, names, l, row, kept);
      ExprMoves(env, names, r, row, kept);
    case In(e, among) =>
      ExprMoves(env, names, e, row, kept);
      ExprMoves(env, names, among, row, kept);
      if among.Collection? && EvalExpr(env, e, row).Value? {
        ItemsMove(env, names, EvalExpr(env, e, row).value, among.items, row, kept, False);
      }
    case Test(e) => ExprMoves(env, names, e, row, kept);
    case Or(branches) => BranchesMove(env, names, branches, row, kept, False);
    case Not(q) => RewriteKeepsMeaning(env, names, q, row, kept);
  }

  lemma {:induction false} BranchesMove(env: Env, names: Names, ps: seq<Predicate>, row: Row, kept: Row, sofar: Truth)
    requires RewriteBranches(names, ps).Some? && Renamed(names, row, kept)
    ensures EvalOr(env, RewriteBranches(names, ps).value, kept, sofar) == EvalOr(env, ps, row, sofar)
    decreases ps
  {
    if ps != [] {
      var t := Eval(env, ps[0], row);
      RewriteKeepsMeaning(env, names, ps[0], row, kept);
      assert RewriteBranches(names, ps).value[1..] == RewriteBranches(names, ps[1..]).value;
      if t.Value? {
        BranchesMove(env, names, ps[1..], row, kept, if t.value == Unknown then Unknown else sofar);
      }
    }
  }

  /** Two rows that hold the same in some columns. */
  ghost predicate SameOn(cs: seq<Column>, row: Row, other: Row) {
    forall c | c in cs :: Look(other, c) == Look(row, c)
  }

  lemma {:induction false} ExprReadsColumns(env: Env, e: Expr, row: Row, other: Row)
    requires SameOn(ExprColumns(e), row, other)
    ensures EvalExpr(env, e, other) == EvalExpr(env, e, row)
    decreases e
  {
    match e
    case Ref(c) => assert c in ExprColumns(e) && Look(other, c) == Look(row, c);
    case Apply(_, args) => ArgsReadColumns(env, args, row, other);
    case _ =>
  }

  lemma {:induction false} ArgsReadColumns(env: Env, es: seq<Expr>, row: Row, other: Row)
    requires SameOn(ListColumns(es), row, other)
    ensures EvalArgs(env, es, other) == EvalArgs(env, es, row)
    decreases es
  {
    if es != [] {
      ExprReadsColumns(env, es[0], row, other);
      ArgsReadColumns(env, es[1..], row, other);
    }
  }

  lemma {:induction false} ItemsReadColumns(env: Env, v: J.Cell, items: seq<Expr>, row: Row, other: Row, sofar: Truth)
    requires SameOn(ListColumns(items), row, other)
    ensures EvalIn(env, v, items, other, sofar) == EvalIn(env, v, items, row, sofar)
    decreases |items|
  {
    hide J.CompareValues;
    if items != [] {
      var x := EvalExpr(env, items[0], row);
      ExprReadsColumns(env, items[0], row, other);
      if x.Value? {
        ItemsReadColumns(env, v, items[1..], row, other, if J.CompareValues(env.read, v, x.value).None? then Unknown else sofar);
      }
    }
  }

  /** A condition says the same of any row that holds the same in the columns it is known to read, which are
      those a placement brings to its node. */
  lemma {:induction false} ReadsOnlyItsColumns(env: Env, p: Predicate, row: Row, other: Row)
    requires SameOn(PredicateColumns(p), row, other)
    ensures Eval(env, p, other) == Eval(env, p, row)
    decreases p
  {
    hide J.CompareValues;
    match p
    case Compare(_, l, r) =>
      ExprReadsColumns(env, l, row, other);
      ExprReadsColumns(env, r, row, other);
    case In(e, among) =>
      ExprReadsColumns(env, e, row, other);
      if among.Collection? && EvalExpr(env, e, row).Value? {
        ItemsReadColumns(env, EvalExpr(env, e, row).value, among.items, row, other, False);
      }
    case Test(e) => ExprReadsColumns(env, e, row, other);
    case Or(branches) => BranchesReadColumns(env, branches, row, other, False);
    case Not(q) => ReadsOnlyItsColumns(env, q, row, other);
  }

  lemma {:induction false} BranchesReadColumns(env: Env, ps: seq<Predicate>, row: Row, other: Row, sofar: Truth)
    requires SameOn(BranchColumns(ps), row, other)
    ensures EvalOr(env, ps, other, sofar) == EvalOr(env, ps, row, sofar)
    decreases ps
  {
    if ps != [] {
      var t := Eval(env, ps[0], row);
      ReadsOnlyItsColumns(env, ps[0], row, other);
      if t.Value? {
        BranchesReadColumns(env, ps[1..], row, other, if t.value == Unknown then Unknown else sofar);
      }
    }
  }
}
