/**
 Checked 64-bit arithmetic (`include/mlib/integer.h`): the overflow predicates
 with their truncating divisions, the flag-carrying operations, and arbitrary
 expression trees over them, compared with unbounded integer arithmetic.
 */
module Integer {

  const INT64_MAX := 0x7FFF_FFFF_FFFF_FFFF
  const INT64_MIN := -0x8000_0000_0000_0000
  const MAX32 := 0x7FFF_FFFF
  const MIN32 := -0x8000_0000

  type int64 = x: int | -0x8000_0000_0000_0000 <= x <= 0x7FFF_FFFF_FFFF_FFFF
  type size_t = x: int | 0 <= x <= 0xFFFF_FFFF_FFFF_FFFF

  predicate InInt64(x: int) {
    INT64_MIN <= x <= INT64_MAX
  }

  /** Two's complement wrap-around of a 64-bit register. */
  function Wrap(x: int): (r: int64)
    ensures InInt64(x) ==> r == x
  {
    (x - INT64_MIN) % 0x1_0000_0000_0000_0000 + INT64_MIN
  }

  /** C's division, which truncates towards zero. */
  function TruncDiv(n: int, d: int): (q: int)
    requires d != 0
  {
    if n >= 0 then n / d else -(-n / d)
  }

  function Clamp(x: int): (r: int64) {
    if x < INT64_MIN then INT64_MIN else if x > INT64_MAX then INT64_MAX else x
  }

  // ----- the overflow predicates

  predicate MulWouldOverflow(left: int64, right: int64) {
    if right == -1 then left == INT64_MIN
    else if right == 0 then false
    else if left > 0 then
      if right > 0 then left > TruncDiv(INT64_MAX, right)
      else right < TruncDiv(INT64_MIN, left)
    else if right > 0 then left < TruncDiv(INT64_MIN, right)
    else if left == 0 then false
    else right < TruncDiv(INT64_MAX, left)
  }

  predicate AddWouldOverflow(left: int64, right: int64) {
    if right < 0 then left < INT64_MIN - right
    else if right > 0 then left > INT64_MAX - right
    else false
  }

  predicate SubWouldOverflow(left: int64, right: int64) {
    if right > 0 then AddWouldOverflow(left, -right)
    else if right < 0 then
      if left > 0 then AddWouldOverflow(-left, right) else false
    else false
  }

  /** For a positive divisor, comparing with the quotient is comparing the product. */
  lemma QuotientBound(x: int, n: nat, d: int)
    requires d > 0
    ensures x > n / d <==> x * d > n
  {
    var q := n / d;
    assert q * d <= n < (q + 1) * d;
    if x > q {
      assert x * d >= (q + 1) * d by { MulMonotone(q + 1, x, d); }
    } else {
      assert x * d <= q * d by { MulMonotone(x, q, d); }
    }
  }

  lemma MulMonotone(x: int, y: int, d: int)
    requires x <= y && d >= 0
    ensures x * d <= y * d
  {
    assert (y - x) * d >= 0;
  }

  /** The multiplication predicate is exact. */
  lemma MulPredicateExact(left: int64, right: int64)
    ensures MulWouldOverflow(left, right) <==> !InInt64(left as int * right as int)
  {
    var l, r: int := left, right;
    if r == -1 || r == 0 || l == 0 {
    } else if l > 0 && r > 0 {
      QuotientBound(l, INT64_MAX, r);
      assert l * r > 0;
    } else if l > 0 {
      QuotientBound(-r, -INT64_MIN, l);
      assert -r * l == -(l * r);
      assert l * r < 0 by { MulMonotone(1, l, -r); }
    } else if r > 0 {
      QuotientBound(-l, -INT64_MIN, r);
      assert -l * r == -(l * r);
      assert l * r < 0 by { MulMonotone(1, -l, r); }
    } else {
      DivNegative(INT64_MAX, l);
      QuotientBound(-r, INT64_MAX, -l);
      assert -r * -l == l * r;
      assert l * r > 0 by { MulMonotone(1, -l, -r); }
    }
  }

  lemma DivNegative(n: nat, d: int)
    requires d < 0
    ensures n / d == -(n / -d)
  {
  }

  lemma AddPredicateExact(left: int64, right: int64)
    ensures AddWouldOverflow(left, right) <==> !InInt64(left as int + right as int)
  {
  }

  /** The subtraction predicate overlooks exactly one difference, 2^63. */
  lemma SubPredicateMissesOneDifference(left: int64, right: int64)
    ensures var diff := left as int - right as int;
      SubWouldOverflow(left, right) <==> !InInt64(diff) && diff != 0x8000_0000_0000_0000
  {
  }

  // ----- flag-carrying operations

  datatype Flag = AddOverflow | SubOverflow | MulOverflow | DivOverflow | Bounds | ZeroDiv

  /** `mlib_integer`: a 64-bit value with the set of error flags raised so far. */
  datatype Checked = Checked(i64: int64, flags: set<Flag>)

  function FromI64(v: int64): Checked {
    Checked(v, {})
  }

  function FromU64(v: size_t): Checked {
    Checked(Wrap(v), if v > INT64_MAX then {Bounds} else {})
  }

  function Add(l: Checked, r: Checked, saturate: bool): Checked {
    var flags := l.flags + r.flags;
    if AddWouldOverflow(l.i64, r.i64) then
      if saturate then
        Checked(if l.i64 > 0 then INT64_MAX else INT64_MIN, flags + {AddOverflow})
      else
        Checked(Wrap(l.i64 as int + r.i64 as int), flags + {AddOverflow})
    else
      Checked(Wrap(l.i64 as int + r.i64 as int), flags)
  }

  function Sub(l: Checked, r: Checked): Checked {
    Checked(
      Wrap(l.i64 as int - r.i64 as int),
      l.flags + r.flags + if SubWouldOverflow(l.i64, r.i64) then {SubOverflow} else {})
  }

  function Mul(l: Checked, r: Checked, saturate: bool): Checked {
    var flags := l.flags + r.flags;
    if MulWouldOverflow(l.i64, r.i64) then
      if saturate then
        Checked(if (l.i64 < 0) != (r.i64 < 0) then INT64_MIN else INT64_MAX, flags + {MulOverflow})
      else
        Checked(Wrap(l.i64 as int * r.i64 as int), flags + {MulOverflow})
    else
      Checked(Wrap(l.i64 as int * r.i64 as int), flags)
  }

  function Div(num: Checked, den: Checked): Checked {
    var flags := num.flags + den.flags;
    if den.i64 == 0 then Checked(INT64_MAX, flags + {ZeroDiv})
    else if num.i64 == INT64_MIN && den.i64 == -1 then Checked(0, flags + {DivOverflow})
    else QuotientInRange(num.i64, den.i64); Checked(TruncDiv(num.i64, den.i64), flags)
  }

  lemma QuotientInRange(n: int64, d: int64)
    requires d != 0 && !(n == INT64_MIN && d == -1)
    ensures InInt64(TruncDiv(n, d))
  {
    QuotientMagnitude(if n >= 0 then n else -(n as int), d);
  }

  lemma QuotientMagnitude(n: nat, d: int)
    requires d != 0
    ensures -(n as int) <= n / d <= n
    ensures d != 1 && d != -1 && n > 0 ==> -(n as int) < n / d < n
    decreases d < 0
  {
    if d > 0 {
      QuotientBound(n + 1, n, d);
      MulMonotone(1, d, n + 1);
      if d > 1 && n > 0 {
        QuotientBound(n, n, d);
        MulMonotone(2, d, n);
      }
    } else {
      DivNegative(n, d);
      QuotientMagnitude(n, -d);
    }
  }

  function CheckBounds(min: Checked, max: Checked, value: Checked): Checked {
    var flags := value.flags + min.flags + max.flags;
    if value.i64 < min.i64 then Checked(min.i64, flags + {Bounds})
    else if value.i64 > max.i64 then Checked(max.i64, flags + {Bounds})
    else Checked(value.i64, flags)
  }

  /** The saturating forms return the exact result clamped to 64 bits. */
  lemma SaturatingIsClamped(l: Checked, r: Checked)
    ensures Add(l, r, true).i64 == Clamp(l.i64 as int + r.i64 as int)
    ensures Mul(l, r, true).i64 == Clamp(l.i64 as int * r.i64 as int)
  {
    AddPredicateExact(l.i64, r.i64);
    MulPredicateExact(l.i64, r.i64);
    var x, y: int := l.i64, r.i64;
    if !InInt64(x * y) {
      if x < 0 && y < 0 {
        assert x * y > 0 by { MulMonotone(1, -x, -y); assert -x * -y == x * y; }
      } else if x < 0 {
        assert x * y <= 0 by { MulMonotone(0, -x, y); assert -x * y == -(x * y); }
      } else if y < 0 {
        assert x * y <= 0 by { MulMonotone(0, x, -y); assert x * -y == -(x * y); }
      } else {
        assert x * y >= 0 by { MulMonotone(0, x, y); }
      }
    }
  }

  // ----- expression trees

  datatype Expr =
    | Int(v: int64)
    | Unsigned(u: size_t)
    | AddE(l: Expr, r: Expr, saturate: bool)
    | SubE(l: Expr, r: Expr)
    | MulE(l: Expr, r: Expr, saturate: bool)
    | DivE(l: Expr, r: Expr)
    | BoundsE(min: Expr, max: Expr, value: Expr)

  /** What the `mlibMath` macros compute. */
  function Eval(e: Expr): Checked {
    match e
    case Int(v) => FromI64(v)
    case Unsigned(u) => FromU64(u)
    case AddE(l, r, s) => Add(Eval(l), Eval(r), s)
    case SubE(l, r) => Sub(Eval(l), Eval(r))
    case MulE(l, r, s) => Mul(Eval(l), Eval(r), s)
    case DivE(l, r) => Div(Eval(l), Eval(r))
    case BoundsE(min, max, v) => CheckBounds(Eval(min), Eval(max), Eval(v))
  }

  /** The same expression over unbounded integers. */
  function Exact(e: Expr): int {
    match e
    case Int(v) => v
    case Unsigned(u) => u
    case AddE(l, r, _) => Exact(l) + Exact(r)
    case SubE(l, r) => Exact(l) - Exact(r)
    case MulE(l, r, _) => Exact(l) * Exact(r)
    case DivE(l, r) => if Exact(r) == 0 then 0 else TruncDiv(Exact(l), Exact(r))
    case BoundsE(_, _, v) => Exact(v)
  }

  /** No node of the unbounded evaluation leaves 64 bits, divides by zero or misses its bounds. */
  predicate InRange(e: Expr) {
    InInt64(Exact(e)) &&
    match e
    case Int(_) => true
    case Unsigned(_) => true
    case AddE(l, r, _) => InRange(l) && InRange(r)
    case SubE(l, r) => InRange(l) && InRange(r)
    case MulE(l, r, _) => InRange(l) && InRange(r)
    case DivE(l, r) => InRange(l) && InRange(r) && Exact(r) != 0
    case BoundsE(min, max, v) =>
      InRange(min) && InRange(max) && InRange(v) && Exact(min) <= Exact(v) <= Exact(max)
  }

  /** No subtraction is computed from operands that differ by exactly 2^63. */
  predicate AvoidsBlindSpot(e: Expr) {
    match e
    case Int(_) => true
    case Unsigned(_) => true
    case AddE(l, r, _) => AvoidsBlindSpot(l) && AvoidsBlindSpot(r)
    case SubE(l, r) =>
      AvoidsBlindSpot(l) && AvoidsBlindSpot(r) &&
      Eval(l).i64 as int - Eval(r).i64 as int != 0x8000_0000_0000_0000
    case MulE(l, r, _) => AvoidsBlindSpot(l) && AvoidsBlindSpot(r)
    case DivE(l, r) => AvoidsBlindSpot(l) && AvoidsBlindSpot(r)
    case BoundsE(min, max, v) => AvoidsBlindSpot(min) && AvoidsBlindSpot(max) && AvoidsBlindSpot(v)
  }

  /**
   Flags are sticky and complete: away from the blind spot the result carries no
   flag exactly when every node of the unbounded evaluation is in range, and then
   it is the unbounded value.
   */
  lemma {:induction false} FlagFreeIsExact(e: Expr)
    requires AvoidsBlindSpot(e)
    ensures Eval(e).flags == {} <==> InRange(e)
    ensures Eval(e).flags == {} ==> Eval(e).i64 == Exact(e)
  {
    match e
    case Int(_) =>
    case Unsigned(_) =>
    case AddE(l, r, s) =>
      FlagFreeIsExact(l);
      FlagFreeIsExact(r);
      AddPredicateExact(Eval(l).i64, Eval(r).i64);
      EmptyUnion(Eval(l).flags, Eval(r).flags);
    case SubE(l, r) =>
      FlagFreeIsExact(l);
      FlagFreeIsExact(r);
      SubPredicateMissesOneDifference(Eval(l).i64, Eval(r).i64);
      EmptyUnion(Eval(l).flags, Eval(r).flags);
    case MulE(l, r, s) =>
      FlagFreeIsExact(l);
      FlagFreeIsExact(r);
      MulPredicateExact(Eval(l).i64, Eval(r).i64);
      EmptyUnion(Eval(l).flags, Eval(r).flags);
    case DivE(l, r) =>
      FlagFreeIsExact(l);
      FlagFreeIsExact(r);
      EmptyUnion(Eval(l).flags, Eval(r).flags);
      if InRange(l) && InRange(r) && Exact(r) != 0 && !(Exact(l) == INT64_MIN && Exact(r) == -1) {
        QuotientInRange(Exact(l), Exact(r));
      }
    case BoundsE(min, max, v) =>
      FlagFreeIsExact(min);
      FlagFreeIsExact(max);
      FlagFreeIsExact(v);
      EmptyUnion(Eval(v).flags, Eval(min).flags);
      EmptyUnion(Eval(v).flags + Eval(min).flags, Eval(max).flags);
  }

  lemma EmptyUnion(a: set<Flag>, b: set<Flag>)
    ensures a + b == {} <==> a == {} && b == {}
  {
    assert a <= a + b && b <= a + b;
  }

  /** In the blind spot the unflagged result is the most negative number instead of 2^63. */
  lemma BlindSpotIsWrong(l: Expr, r: Expr)
    requires Eval(l).flags == {} && Eval(r).flags == {}
    ensures Eval(SubE(l, r)).flags == {} ==>
      (Eval(SubE(l, r)).i64 == Eval(l).i64 as int - Eval(r).i64 as int <==>
       Eval(l).i64 as int - Eval(r).i64 as int != 0x8000_0000_0000_0000)
    ensures Eval(SubE(Int(0), Int(INT64_MIN))) == Checked(INT64_MIN, {})
  {
    SubPredicateMissesOneDifference(Eval(l).i64, Eval(r).i64);
  }

  /** Every node of the evaluation has the value of the unbounded one, and no flag. */
  predicate NodesExact(e: Expr) {
    Eval(e).flags == {} && Eval(e).i64 == Exact(e) &&
    match e
    case Int(_) => true
    case Unsigned(_) => true
    case AddE(l, r, _) => NodesExact(l) && NodesExact(r)
    case SubE(l, r) => NodesExact(l) && NodesExact(r)
    case MulE(l, r, _) => NodesExact(l) && NodesExact(r)
    case DivE(l, r) => NodesExact(l) && NodesExact(r)
    case BoundsE(min, max, v) => NodesExact(min) && NodesExact(max) && NodesExact(v)
  }

  /** An unflagged evaluation is exact at every node exactly if it avoids the blind spot. */
  lemma {:induction false} ExactIffAvoidsBlindSpot(e: Expr)
    requires Eval(e).flags == {}
    ensures NodesExact(e) <==> AvoidsBlindSpot(e)
  {
    if AvoidsBlindSpot(e) {
      FlagFreeIsExact(e);
    }
    match e
    case Int(_) =>
    case Unsigned(_) =>
    case AddE(l, r, _) =>
      EmptyUnion(Eval(l).flags, Eval(r).flags);
      ExactIffAvoidsBlindSpot(l);
      ExactIffAvoidsBlindSpot(r);
    case SubE(l, r) =>
      EmptyUnion(Eval(l).flags, Eval(r).flags);
      ExactIffAvoidsBlindSpot(l);
      ExactIffAvoidsBlindSpot(r);
    case MulE(l, r, _) =>
      EmptyUnion(Eval(l).flags, Eval(r).flags);
      ExactIffAvoidsBlindSpot(l);
      ExactIffAvoidsBlindSpot(r);
    case DivE(l, r) =>
      EmptyUnion(Eval(l).flags, Eval(r).flags);
      ExactIffAvoidsBlindSpot(l);
      ExactIffAvoidsBlindSpot(r);
    case BoundsE(min, max, v) =>
      EmptyUnion(Eval(v).flags, Eval(min).flags);
      EmptyUnion(Eval(v).flags + Eval(min).flags, Eval(max).flags);
      ExactIffAvoidsBlindSpot(min);
      ExactIffAvoidsBlindSpot(max);
      ExactIffAvoidsBlindSpot(v);
  }

  // ----- the compound checks used by the document engine

  /** `castInt32(V)`: flagged unless V is flag-free and fits in 32 bits. */
  function CastInt32(v: Checked): Checked {
    CheckBounds(FromI64(MIN32), FromI64(MAX32), v)
  }

  /** `castNonNegativeInt32(V)`. */
  function CastNonNegativeInt32(v: Checked): Checked {
    CastInt32(CheckBounds(FromI64(0), FromI64(INT64_MAX), v))
  }

  /** `castPositiveInt32(V)`. */
  function CastPositiveInt32(v: Checked): Checked {
    CastInt32(CheckBounds(FromI64(1), FromI64(MAX32), v))
  }

  method Strnlen(s: seq<int>, maxlen: Checked) returns (r: Checked)
    requires maxlen.flags == {} && maxlen.i64 > |s| ==> 0 in s
    ensures maxlen.flags != {} ==> r == Checked(0, maxlen.flags)
    ensures maxlen.flags == {} && maxlen.i64 < 0 ==> r == Checked(0, {Bounds})
    ensures maxlen.flags == {} && maxlen.i64 >= 0 ==>
      && r.flags == {} && 0 <= r.i64 <= maxlen.i64 && r.i64 <= |s|
      && 0 !in s[..r.i64]
      && (r.i64 < maxlen.i64 ==> r.i64 < |s| && s[r.i64] == 0)
  {
    if maxlen.flags != {} {
      return Checked(0, maxlen.flags);
    }
    if maxlen.i64 < 0 {
      return Checked(0, {Bounds});
    }
    var n := 0;
    while n < maxlen.i64 && s[n] != 0
      invariant 0 <= n <= maxlen.i64 && n <= |s|
      invariant 0 !in s[..n]
    {
      n := n + 1;
    }
    r := Checked(n, {});
  }
}
