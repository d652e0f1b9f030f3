/** What a row costs the row cache, pkg/rowcache/memory.go: a bounded traversal that gives up before it
    has seen more than it may hold. */
module RowCost {
  const MAX_DEPTH := 64

  /** A row value. Fields come in whatever order the map is ranged over. */
  datatype Value =
    | Scalar
    | Text(text: string)
    | Blob(bytes: seq<int>)
    | Fields(fields: seq<Field>)
    | Array(items: seq<Value>)
    | Other

  datatype Field = Field(name: string, value: Value)

  datatype Cost = Cost(n: nat) | TooDear | Unsupported

  /** The full price of a value, with no budget in view. */
  function Price(v: Value): nat
    decreases v
  {
    match v
    case Text(s) => 32 + |s|
    case Blob(b) => 32 + |b|
    case Fields(fs) => 32 + 80 * |fs| + FieldsPrice(fs)
    case Array(vs) => 32 + 16 * |vs| + ItemsPrice(vs)
    case _ => 32
  }

  function FieldsPrice(fs: seq<Field>): nat
    decreases fs
  {
    if fs == [] then 0 else FieldsPrice(fs[..|fs| - 1]) + |fs[|fs| - 1].name| + Price(fs[|fs| - 1].value)
  }

  function ItemsPrice(vs: seq<Value>): nat
    decreases vs
  {
    if vs == [] then 0 else ItemsPrice(vs[..|vs| - 1]) + Price(vs[|vs| - 1])
  }

  /** Made of what a row may hold, and no deeper than allowed. */
  predicate Storable(v: Value, depth: nat)
    decreases v
  {
    depth <= MAX_DEPTH &&
    match v
    case Fields(fs) => forall f | f in fs :: Storable(f.value, depth + 1)
    case Array(vs) => forall x | x in vs :: Storable(x, depth + 1)
    case _ => !v.Other?
  }

  /** The bytes of text and data in a value, field names included. */
  function Bytes(v: Value): nat
    decreases v
  {
    match v
    case Text(s) => |s|
    case Blob(b) => |b|
    case Fields(fs) => FieldBytes(fs)
    case Array(vs) => ItemBytes(vs)
    case _ => 0
  }

  function FieldBytes(fs: seq<Field>): nat
    decreases fs
  {
    if fs == [] then 0 else FieldBytes(fs[1..]) + |fs[0].name| + Bytes(fs[0].value)
  }

  function ItemBytes(vs: seq<Value>): nat
    decreases vs
  {
    if vs == [] then 0 else Bytes(vs[0]) + ItemBytes(vs[1..])
  }

  /** How many values a value is made of, itself included. */
  function Parts(v: Value): nat
    decreases v
  {
    1 + match v
        case Fields(fs) => FieldParts(fs)
        case Array(vs) => ItemParts(vs)
        case _ => 0
  }

  function FieldParts(fs: seq<Field>): nat
    decreases fs
  {
    if fs == [] then 0 else Parts(fs[0].value) + FieldParts(fs[1..])
  }

  function ItemParts(vs: seq<Value>): nat
    decreases vs
  {
    if vs == [] then 0 else Parts(vs[0]) + ItemParts(vs[1..])
  }

  /** A price covers every byte held and a fixed charge for each value, so what the budget bounds is what is
      held. */
  lemma {:induction false} PriceCoversWhatIsHeld(v: Value)
    ensures Price(v) >= Bytes(v) + 32 * Parts(v)
    decreases v
  {
    match v
    case Fields(fs) => FieldsCover(fs);
    case Array(vs) => ItemsCover(vs);
    case _ =>
  }

  lemma {:induction false} FieldsCover(fs: seq<Field>)
    ensures FieldsPrice(fs) >= FieldBytes(fs) + 32 * FieldParts(fs)
    decreases fs
  {
    if fs != [] {
      PriceCoversWhatIsHeld(fs[0].value);
      FieldsCover(fs[1..]);
      FieldTakenOut(fs, 0);
      assert fs[..0] + fs[1..] == fs[1..];
    }
  }

  lemma {:induction false} ItemsCover(vs: seq<Value>)
    ensures ItemsPrice(vs) >= ItemBytes(vs) + 32 * ItemParts(vs)
    decreases vs
  {
    if vs != [] {
      PriceCoversWhatIsHeld(vs[0]);
      ItemsCover(vs[1..]);
      FirstItem(vs);
    }
  }

  lemma {:induction false} FirstItem(vs: seq<Value>)
    requires vs != []
    ensures ItemsPrice(vs) == Price(vs[0]) + ItemsPrice(vs[1..])
    decreases |vs|
  {
    if |vs| > 1 {
      FirstItem(vs[..|vs| - 1]);
      assert vs[..|vs| - 1][1..] == vs[1..][..|vs| - 2];
    }
  }

  /** How many maps and lists stand around the innermost value. */
  function Depth(v: Value): nat
    decreases v
  {
    match v
    case Fields(fs) => if fs == [] then 0 else 1 + FieldsDepth(fs)
    case Array(vs) => if vs == [] then 0 else 1 + ItemsDepth(vs)
    case _ => 0
  }

  function FieldsDepth(fs: seq<Field>): nat
    decreases fs
  {
    if fs == [] then 0
    else
      var d, rest := Depth(fs[0].value), FieldsDepth(fs[1..]);
      if d > rest then d else rest
  }

  function ItemsDepth(vs: seq<Value>): nat
    decreases vs
  {
    if vs == [] then 0
    else
      var d, rest := Depth(vs[0]), ItemsDepth(vs[1..]);
      if d > rest then d else rest
  }

  /** Something in the value is of no kind a row may hold. */
  predicate HoldsOther(v: Value)
    decreases v
  {
    match v
    case Fields(fs) => exists f | f in fs :: HoldsOther(f.value)
    case Array(vs) => exists x | x in vs :: HoldsOther(x)
    case _ => v.Other?
  }

  /** A value can be stored exactly when it holds nothing of another kind and nests no deeper than 64. */
  lemma {:induction false} StorableIff(v: Value, depth: nat)
    requires depth <= MAX_DEPTH
    ensures Storable(v, depth) <==> depth + Depth(v) <= MAX_DEPTH && !HoldsOther(v)
    decreases v
  {
    match v
    case Fields(fs) =>
      FieldsDepthIsMost(fs);
      forall f | f in fs && depth + 1 <= MAX_DEPTH
        ensures Storable(f.value, depth + 1) <==> depth + 1 + Depth(f.value) <= MAX_DEPTH && !HoldsOther(f.value)
      {
        StorableIff(f.value, depth + 1);
      }
      assert fs != [] ==> fs[0] in fs;
    case Array(vs) =>
      ItemsDepthIsMost(vs);
      forall x | x in vs && depth + 1 <= MAX_DEPTH
        ensures Storable(x, depth + 1) <==> depth + 1 + Depth(x) <= MAX_DEPTH && !HoldsOther(x)
      {
        StorableIff(x, depth + 1);
      }
      assert vs != [] ==> vs[0] in vs;
    case _ =>
  }

  lemma {:induction false} FieldsDepthIsMost(fs: seq<Field>)
    ensures forall f | f in fs :: Depth(f.value) <= FieldsDepth(fs)
    ensures fs != [] ==> exists f | f in fs :: Depth(f.value) == FieldsDepth(fs)
    decreases fs
  {
    if fs != [] {
      FieldsDepthIsMost(fs[1..]);
      assert fs == [fs[0]] + fs[1..];
      assert fs[0] in fs && forall f | f in fs[1..] :: f in fs;
    }
  }

  lemma {:induction false} ItemsDepthIsMost(vs: seq<Value>)
    ensures forall x | x in vs :: Depth(x) <= ItemsDepth(vs)
    ensures vs != [] ==> exists x | x in vs :: Depth(x) == ItemsDepth(vs)
    decreases vs
  {
    if vs != [] {
      ItemsDepthIsMost(vs[1..]);
      assert vs == [vs[0]] + vs[1..];
      assert vs[0] in vs && forall x | x in vs[1..] :: x in vs;
    }
  }

  lemma FieldsPriceSnoc(fs: seq<Field>, f: Field)
    ensures FieldsPrice(fs + [f]) == FieldsPrice(fs) + |f.name| + Price(f.value)
  {
    assert (fs + [f])[..|fs|] == fs;
  }

  /** A field counts the same wherever it stands. */
  lemma {:induction false} FieldTakenOut(fs: seq<Field>, i: nat)
    requires i < |fs|
    ensures FieldsPrice(fs) == FieldsPrice(fs[..i] + fs[i + 1..]) + |fs[i].name| + Price(fs[i].value)
    decreases |fs|
  {
    var n := |fs| - 1;
    if i < n {
      FieldTakenOut(fs[..n], i);
      FieldsPriceSnoc(fs[..n][..i] + fs[..n][i + 1..], fs[n]);
      assert fs[..n][..i] + fs[..n][i + 1..] + [fs[n]] == fs[..i] + fs[i + 1..];
    } else {
      assert fs[..i] + fs[i + 1..] == fs[..n];
    }
  }

  lemma TakenFrom<T>(s: seq<T>, i: nat)
    requires i < |s|
    ensures multiset(s[..i] + s[i + 1..]) == multiset(s) - multiset{s[i]}
  {
    assert s == s[..i] + [s[i]] + s[i + 1..];
  }

  /** The fields of a map come to the same whatever order it is ranged over. */
  lemma {:induction false} AnyOrderCostsTheSame(fs: seq<Field>, gs: seq<Field>)
    requires multiset(fs) == multiset(gs)
    ensures FieldsPrice(fs) == FieldsPrice(gs)
    decreases |fs|
  {
    if fs == [] {
      assert |multiset(gs)| == 0;
    } else {
      hide FieldsPrice, Price;
      assert fs[0] in multiset(gs);
      var i :| 0 <= i < |gs| && gs[i] == fs[0];
      TakenFrom(fs, 0);
      TakenFrom(gs, i);
      FieldTakenOut(fs, 0);
      FieldTakenOut(gs, i);
      AnyOrderCostsTheSame(fs[..0] + fs[1..], gs[..i] + gs[i + 1..]);
    }
  }

  /** The same value with the fields of every map in it in any order. */
  ghost predicate Reordered(v: Value, w: Value)
    decreases v
  {
    match (v, w)
    case (Fields(fs), Fields(gs)) =>
      exists ms: seq<Field> :: Paired(fs, ms, gs)
    case (Array(vs), Array(ws)) => |vs| == |ws| && forall i | 0 <= i < |vs| :: Reordered(vs[i], ws[i])
    case _ => v == w
  }

  /** The fields in another order, and each value reordered in turn. */
  ghost predicate Paired(fs: seq<Field>, ms: seq<Field>, gs: seq<Field>)
    decreases fs
  {
    && multiset(ms) == multiset(fs) && |ms| == |gs|
    && forall i | 0 <= i < |gs| :: ms[i] in fs && ms[i].name == gs[i].name && Reordered(ms[i].value, gs[i].value)
  }

  lemma {:induction false} FieldsCostAlike(ms: seq<Field>, gs: seq<Field>)
    requires |ms| == |gs|
    requires forall i | 0 <= i < |gs| :: ms[i].name == gs[i].name && Price(ms[i].value) == Price(gs[i].value)
    ensures FieldsPrice(ms) == FieldsPrice(gs)
    decreases |ms|
  {
    if ms != [] {
      FieldsCostAlike(ms[..|ms| - 1], gs[..|gs| - 1]);
    }
  }

  lemma {:induction false} ItemsCostAlike(vs: seq<Value>, ws: seq<Value>)
    requires |vs| == |ws| && forall i | 0 <= i < |vs| :: Price(vs[i]) == Price(ws[i])
    ensures ItemsPrice(vs) == ItemsPrice(ws)
    decreases |vs|
  {
    if vs != [] {
      ItemsCostAlike(vs[..|vs| - 1], ws[..|ws| - 1]);
    }
  }

  lemma SameMembers<T>(s: seq<T>, t: seq<T>)
    requires multiset(s) == multiset(t)
    ensures forall x :: x in s <==> x in t
  {
    forall x ensures x in s <==> x in t {
      assert x in s <==> x in multiset(s);
      assert x in t <==> x in multiset(t);
    }
  }

  lemma FieldsStorableAlike(fs: seq<Field>, ms: seq<Field>, gs: seq<Field>, depth: nat)
    requires multiset(ms) == multiset(fs) && |ms| == |gs|
    requires forall i | 0 <= i < |gs| :: Storable(ms[i].value, depth) <==> Storable(gs[i].value, depth)
    ensures (forall f | f in fs :: Storable(f.value, depth)) <==> (forall g | g in gs :: Storable(g.value, depth))
  {
    hide Storable;
    SameMembers(ms, fs);
    if forall f | f in fs :: Storable(f.value, depth) {
      forall g | g in gs ensures Storable(g.value, depth) {
        var i :| 0 <= i < |gs| && gs[i] == g;
        assert ms[i] in fs;
      }
    }
    if forall g | g in gs :: Storable(g.value, depth) {
      forall f | f in fs ensures Storable(f.value, depth) {
        var i :| 0 <= i < |ms| && ms[i] == f;
        assert gs[i] in gs;
      }
    }
  }

  lemma ItemsStorableAlike(vs: seq<Value>, ws: seq<Value>, depth: nat)
    requires |vs| == |ws| && forall i | 0 <= i < |vs| :: Storable(vs[i], depth) <==> Storable(ws[i], depth)
    ensures (forall x | x in vs :: Storable(x, depth)) <==> (forall x | x in ws :: Storable(x, depth))
  {
    hide Storable;
    assert forall i | 0 <= i < |vs| :: vs[i] in vs && ws[i] in ws;
  }

  lemma FieldsComeToTheSame(fs: seq<Field>, ms: seq<Field>, gs: seq<Field>, depth: nat)
    requires multiset(ms) == multiset(fs) && |ms| == |gs|
    requires forall i | 0 <= i < |gs| ::
               && ms[i].name == gs[i].name && Price(ms[i].value) == Price(gs[i].value)
               && (Storable(ms[i].value, depth) <==> Storable(gs[i].value, depth))
    ensures |fs| == |gs| && FieldsPrice(fs) == FieldsPrice(gs)
    ensures (forall f | f in fs :: Storable(f.value, depth)) <==> (forall g | g in gs :: Storable(g.value, depth))
  {
    hide Price, Storable, FieldsPrice;
    assert |multiset(fs)| == |fs| && |multiset(ms)| == |ms|;
    AnyOrderCostsTheSame(fs, ms);
    FieldsCostAlike(ms, gs);
    FieldsStorableAlike(fs, ms, gs, depth);
  }

  lemma {:induction false} PairedCostTheSame(fs: seq<Field>, ms: seq<Field>, gs: seq<Field>, depth: nat)
    requires Paired(fs, ms, gs)
    ensures |fs| == |gs| && FieldsPrice(fs) == FieldsPrice(gs)
    ensures (forall f | f in fs :: Storable(f.value, depth)) <==> (forall g | g in gs :: Storable(g.value, depth))
    decreases fs
  {
    hide Price, Storable, FieldsPrice;
    forall i | 0 <= i < |gs|
      ensures Price(ms[i].value) == Price(gs[i].value) && (Storable(ms[i].value, depth) <==> Storable(gs[i].value, depth))
    {
      ReorderedCostsTheSame(ms[i].value, gs[i].value, depth);
    }
    FieldsComeToTheSame(fs, ms, gs, depth);
  }

  lemma OfFields(fs: seq<Field>, depth: nat)
    ensures Price(Fields(fs)) == 32 + 80 * |fs| + FieldsPrice(fs)
    ensures Storable(Fields(fs), depth) <==> depth <= MAX_DEPTH && forall f | f in fs :: Storable(f.value, depth + 1)
  {
  }

  lemma OfItems(vs: seq<Value>, depth: nat)
    ensures Price(Array(vs)) == 32 + 16 * |vs| + ItemsPrice(vs)
    ensures Storable(Array(vs), depth) <==> depth <= MAX_DEPTH && forall x | x in vs :: Storable(x, depth + 1)
  {
  }

  /** However the maps inside a value are ranged over, it costs the same and is as storable: what the
      cache admits does not depend on the order. */
  lemma {:induction false} ReorderedCostsTheSame(v: Value, w: Value, depth: nat)
    requires Reordered(v, w)
    ensures Price(v) == Price(w) && (Storable(v, depth) <==> Storable(w, depth))
    decreases v
  {
    hide Price, Storable, FieldsPrice, ItemsPrice;
    match (v, w)
    case (Fields(fs), Fields(gs)) =>
      var ms: seq<Field> :| Paired(fs, ms, gs);
      PairedCostTheSame(fs, ms, gs, depth + 1);
      OfFields(fs, depth);
      OfFields(gs, depth);
    case (Array(vs), Array(ws)) =>
      forall i | 0 <= i < |vs|
        ensures Price(vs[i]) == Price(ws[i]) && (Storable(vs[i], depth + 1) <==> Storable(ws[i], depth + 1))
      {
        ReorderedCostsTheSame(vs[i], ws[i], depth + 1);
      }
      ItemsCostAlike(vs, ws);
      ItemsStorableAlike(vs, ws, depth + 1);
      OfItems(vs, depth);
      OfItems(ws, depth);
    case _ =>
  }

  lemma {:induction false} FieldsPriceGrows(fs: seq<Field>, i: nat)
    requires i <= |fs|
    ensures FieldsPrice(fs[..i]) <= FieldsPrice(fs)
    decreases |fs|
  {
    if i < |fs| {
      assert fs[..|fs| - 1][..i] == fs[..i];
      FieldsPriceGrows(fs[..|fs| - 1], i);
    } else {
      assert fs[..i] == fs;
    }
  }

  lemma {:induction false} ItemsPriceGrows(vs: seq<Value>, i: nat)
    requires i <= |vs|
    ensures ItemsPrice(vs[..i]) <= ItemsPrice(vs)
    decreases |vs|
  {
    if i < |vs| {
      assert vs[..|vs| - 1][..i] == vs[..i];
      ItemsPriceGrows(vs[..|vs| - 1], i);
    } else {
      assert vs[..i] == vs;
    }
  }

  /** The fields of a map, on top of what is already counted. */
  method FieldsCost(fs: seq<Field>, depth: nat, budget: int, start: nat) returns (r: Cost)
    ensures r.Cost? ==> r.n == start + FieldsPrice(fs) && forall f | f in fs :: Storable(f.value, depth + 1)
    ensures r.TooDear? ==> start + FieldsPrice(fs) > budget
    ensures r.Unsupported? ==> exists f | f in fs :: !Storable(f.value, depth + 1)
    decreases fs
  {
    var cost := start;
    for i := 0 to |fs|
      invariant cost == start + FieldsPrice(fs[..i])
      invariant forall f | f in fs[..i] :: Storable(f.value, depth + 1)
    {
      assert fs[..i + 1] == fs[..i] + [fs[i]] && fs[..i + 1][..i] == fs[..i];
      FieldsPriceGrows(fs, i + 1);
      cost := cost + |fs[i].name|;
      var n := ValueCost(fs[i].value, depth + 1, budget - cost);
      if !n.Cost? {
        assert fs[i] in fs;
        return n;
      }
      cost := cost + n.n;
    }
    assert fs[..|fs|] == fs;
    return Cost(cost);
  }

  method ItemsCost(vs: seq<Value>, depth: nat, budget: int, start: nat) returns (r: Cost)
    ensures r.Cost? ==> r.n == start + ItemsPrice(vs) && forall x | x in vs :: Storable(x, depth + 1)
    ensures r.TooDear? ==> start + ItemsPrice(vs) > budget
    ensures r.Unsupported? ==> exists x | x in vs :: !Storable(x, depth + 1)
    decreases vs
  {
    var cost := start;
    for i := 0 to |vs|
      invariant cost == start + ItemsPrice(vs[..i])
      invariant forall x | x in vs[..i] :: Storable(x, depth + 1)
    {
      assert vs[..i + 1] == vs[..i] + [vs[i]] && vs[..i + 1][..i] == vs[..i];
      ItemsPriceGrows(vs, i + 1);
      var n := ValueCost(vs[i], depth + 1, budget - cost);
      if !n.Cost? {
        assert vs[i] in vs;
        return n;
      }
      cost := cost + n.n;
    }
    assert vs[..|vs|] == vs;
    return Cost(cost);
  }

  /** Succeeds exactly for a storable value within budget, with its full price; which failure a value
      that is neither meets depends on the order of its fields. */
  method ValueCost(v: Value, depth: nat, budget: int) returns (r: Cost)
    ensures r.Cost? <==> Storable(v, depth) && Price(v) <= budget
    ensures r.Cost? ==> r.n == Price(v)
    ensures r.TooDear? ==> Price(v) > budget
    ensures r.Unsupported? ==> !Storable(v, depth)
    decreases v
  {
    if depth > MAX_DEPTH {
      return Unsupported;
    }
    var cost := 32;
    match v {
      case Scalar =>
      case Text(s) => cost := cost + |s|;
      case Blob(b) => cost := cost + |b|;
      case Fields(fs) =>
        cost := cost + |fs| * 80;
        if cost > budget {
          return TooDear;
        }
        r := FieldsCost(fs, depth, budget, cost);
        if !r.Cost? {
          return;
        }
        cost := r.n;
      case Array(vs) =>
        cost := cost + |vs| * 16;
        if cost > budget {
          return TooDear;
        }
        r := ItemsCost(vs, depth, budget, cost);
        if !r.Cost? {
          return;
        }
        cost := r.n;
      case Other => return Unsupported;
    }
    return if cost > budget then TooDear else Cost(cost);
  }
}
