/** How values compare in a join, pkg/omnisdk/relational.go, and the key that stands for equality in a
    hash index. */
module JoinKey {
  import opened Wrappers

  /** A value as it prints, or no value. */
  type Cell = Option<string>

  datatype Float = NegInf | Finite(x: real) | PosInf

  /** What the parsers make of a text: an int64, a float that is not NaN, an exact rational. */
  datatype Reading = Reading(integer: Option<int>, float: Option<Float>, exact: Option<real>)

  type Reader = string -> Reading

  /** What the parsers promise of each other: an integer reads as a float and exactly as itself; what
      reads exactly is a finite float or none. */
  ghost predicate Sound(read: Reader) {
    forall s ::
      var r := read(s);
      && (r.integer.Some? ==> r.float.Some? && r.exact == Some(r.integer.value as real))
      && (r.exact.Some? && r.float.Some? ==> r.float.value.Finite?)
  }

  predicate TextLess(a: string, b: string) {
    b != [] && (a == [] || a[0] < b[0] || (a[0] == b[0] && TextLess(a[1..], b[1..])))
  }

  predicate FloatLess(a: Float, b: Float) {
    match (a, b)
    case (_, NegInf) => false
    case (NegInf, _) => true
    case (PosInf, _) => false
    case (_, PosInf) => true
    case (Finite(x), Finite(y)) => x < y
  }

  function Sign(less: bool, more: bool): int {
    if less then -1 else if more then 1 else 0
  }

  function CompareTexts(a: string, b: string): int {
    Sign(TextLess(a, b), TextLess(b, a))
  }

  /** The sign of a comparison: of integers, then exact rationals, then floats at least one of which is
      infinite, and else of the texts; nothing is compared with a missing value. */
  function CompareValues(read: Reader, a: Cell, b: Cell): Option<int> {
    if a.None? || b.None? then None
    else if a == b then Some(0)
    else
      var x, y := read(a.value), read(b.value);
      if x.integer.Some? && y.integer.Some? then
        Some(Sign(x.integer.value < y.integer.value, x.integer.value > y.integer.value))
      else if x.float.Some? && y.float.Some? && x.exact.Some? && y.exact.Some? then
        Some(Sign(x.exact.value < y.exact.value, x.exact.value > y.exact.value))
      else if x.float.Some? && y.float.Some? && (x.exact.Some? || !x.float.value.Finite?) && (y.exact.Some? || !y.float.value.Finite?) then
        Some(Sign(FloatLess(x.float.value, y.float.value), FloatLess(y.float.value, x.float.value)))
      else Some(CompareTexts(a.value, b.value))
  }

  /** What equal values share: the real they both denote, the infinity, or the text. */
  datatype Key = Number(value: real) | Infinite(positive: bool) | Text(text: string)

  /** The key of a value; a missing one has none. */
  function KeyOf(read: Reader, a: Cell): Option<Key> {
    if a.None? then None
    else
      var r := read(a.value);
      if r.integer.Some? then Some(Number(r.integer.value as real))
      else if r.float.Some? && r.exact.Some? then Some(Number(r.exact.value))
      else if r.float.Some? && !r.float.value.Finite? then Some(Infinite(r.float.value.PosInf?))
      else Some(Text(a.value))
  }

  lemma {:induction false} TextsDiffer(a: string, b: string)
    ensures CompareTexts(a, b) == 0 <==> a == b
    decreases |a|
  {
    if a != [] && b != [] {
      TextsDiffer(a[1..], b[1..]);
      assert a == b <==> a[0] == b[0] && a[1..] == b[1..] by {
        assert a == [a[0]] + a[1..] && b == [b[0]] + b[1..];
      }
    }
  }

  /** Two values compare equal exactly when both have a key and it is the same. */
  lemma KeyStandsForEquality(read: Reader, a: Cell, b: Cell)
    requires Sound(read)
    ensures CompareValues(read, a, b) == Some(0) <==> KeyOf(read, a).Some? && KeyOf(read, a) == KeyOf(read, b)
  {
    if a.Some? && b.Some? {
      TextsDiffer(a.value, b.value);
      var x, y := read(a.value), read(b.value);
      if x.integer.Some? && y.integer.Some? {
        RealsKeepIntegers(x.integer.value, y.integer.value);
      }
    }
  }

  lemma RealsKeepIntegers(m: int, n: int)
    ensures m as real == n as real <==> m == n
  {
    assert (m as real).Floor == m && (n as real).Floor == n;
  }

  /** Comparing is symmetric but for the sign. */
  lemma ComparisonMirrors(read: Reader, a: Cell, b: Cell)
    requires Sound(read)
    ensures CompareValues(read, a, b).Some? <==> CompareValues(read, b, a).Some?
    ensures CompareValues(read, a, b) == Some(-1) <==> CompareValues(read, b, a) == Some(1)
  {
    if a.Some? && b.Some? {
      TextsAreOrdered(a.value, b.value);
    }
  }

  lemma {:induction false} TextsAreOrdered(a: string, b: string)
    ensures !(TextLess(a, b) && TextLess(b, a))
    decreases |a|
  {
    if a != [] && b != [] {
      TextsAreOrdered(a[1..], b[1..]);
    }
  }

  // The order a comparison gives.

  /** Reads as a number that can be placed among numbers: exactly, or as an infinity. */
  predicate IsNumber(r: Reading) {
    r.float.Some? && (r.exact.Some? || !r.float.value.Finite?)
  }

  /** Where a number stands: below every real, at one, or above every real. */
  ghost predicate Below(x: Reading, y: Reading)
    requires IsNumber(x) && IsNumber(y)
  {
    if x.exact.Some? && y.exact.Some? then x.exact.value < y.exact.value
    else if x.exact.Some? then y.float.value.PosInf?
    else if y.exact.Some? then x.float.value.NegInf?
    else x.float.value.NegInf? && y.float.value.PosInf?
  }

  /** The first difference decides, and a text comes after its own beginnings. */
  ghost predicate Precedes(a: string, b: string) {
    exists n :: 0 <= n <= |a| && n < |b| && a[..n] == b[..n] && (n == |a| || a[n] < b[n])
  }

  lemma SameStart(a: string, b: string)
    requires a != [] && b != []
    ensures forall n | 0 < n <= |a| && n <= |b| && a[..n] == b[..n] :: a[0] == b[0]
  {
    forall n | 0 < n <= |a| && n <= |b| && a[..n] == b[..n] ensures a[0] == b[0] {
      assert a[..n][0] == a[0] && b[..n][0] == b[0];
    }
  }

  lemma {:induction false} TextLessIsPrecedes(a: string, b: string)
    ensures TextLess(a, b) <==> Precedes(a, b)
    decreases |a|
  {
    if b != [] && a == [] {
      assert a[..0] == b[..0];
    } else if b != [] && a[0] < b[0] {
      assert a[..0] == b[..0];
    } else if b != [] && a[0] == b[0] {
      TextLessIsPrecedes(a[1..], b[1..]);
      PrecedesDeeper(a, b);
    } else if b != [] {
      SameStart(a, b);
    }
  }

  lemma PrecedesDeeper(a: string, b: string)
    requires a != [] && b != [] && a[0] == b[0]
    ensures Precedes(a, b) <==> Precedes(a[1..], b[1..])
  {
    if Precedes(a, b) {
      var n :| 0 <= n <= |a| && n < |b| && a[..n] == b[..n] && (n == |a| || a[n] < b[n]);
      assert a[1..][..n - 1] == a[..n][1..] && b[1..][..n - 1] == b[..n][1..];
      assert n - 1 == |a[1..]| || a[1..][n - 1] < b[1..][n - 1];
    }
    if Precedes(a[1..], b[1..]) {
      var n :| 0 <= n <= |a[1..]| && n < |b[1..]| && a[1..][..n] == b[1..][..n] && (n == |a[1..]| || a[1..][n] < b[1..][n]);
      assert a[..n + 1] == [a[0]] + a[1..][..n] && b[..n + 1] == [b[0]] + b[1..][..n];
      assert n + 1 == |a| || a[n + 1] < b[n + 1];
    }
  }

  /** Two numbers compare as they stand, other values as texts, and a value with itself as equal: the sign is
      -1, 0 or 1 as the first is below, at or above the second. */
  lemma ComparisonOrders(read: Reader, a: string, b: string)
    requires Sound(read)
    ensures var c := CompareValues(read, Some(a), Some(b));
      && c.Some? && -1 <= c.value <= 1
      && if IsNumber(read(a)) && IsNumber(read(b)) then
           (c.value == -1 <==> Below(read(a), read(b))) && (c.value == 1 <==> Below(read(b), read(a)))
         else
           (c.value == -1 <==> Precedes(a, b)) && (c.value == 1 <==> Precedes(b, a))
  {
    TextLessIsPrecedes(a, b);
    TextLessIsPrecedes(b, a);
    TextsAreOrdered(a, b);
    TextsDiffer(a, b);
    var x, y := read(a), read(b);
    if x.integer.Some? && y.integer.Some? {
      RealsOrderIntegers(x.integer.value, y.integer.value);
    }
  }

  lemma RealsOrderIntegers(m: int, n: int)
    ensures (m as real < n as real <==> m < n) && (n as real < m as real <==> n < m)
  {
    RealsKeepIntegers(m, n);
  }
}
