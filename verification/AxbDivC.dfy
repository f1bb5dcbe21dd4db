/**
 `axb_div_c` (osal/mpp_common.c:49-99): a * b / c without a 64-bit product. Signed arithmetic is
 taken to wrap at 32 bits.
 */
module AxbDivC {

  const TWO_30: int := 0x4000_0000
  const TWO_31: int := 0x8000_0000
  const TWO_32: int := 0x1_0000_0000
  const INT_MAX: int := 0x7FFF_FFFF

  /** A 32-bit signed value other than INT_MIN. */
  predicate Arg(x: int) {
    -TWO_31 < x < TWO_31
  }

  predicate Fits(x: int) {
    -TWO_31 <= x < TWO_31
  }

  function Wrap(x: int): (r: int)
    ensures Fits(r)
  {
    (x + TWO_31) % TWO_32 - TWO_31
  }

  /** Division of natural numbers. */
  function Quot(n: nat, d: nat): nat
    requires d > 0
  {
    n / d
  }

  function Abs(x: int): nat {
    if x < 0 then -x else x
  }

  /** Division that truncates toward zero. */
  function Div(x: int, y: int): int
    requires y != 0
  {
    if (x >= 0) == (y > 0) then Quot(Abs(x), Abs(y)) else 0 - Quot(Abs(x), Abs(y))
  }

  // ---- Small facts of arithmetic

  lemma Mono(a: int, b: int, c: int)
    requires a <= b && c >= 0
    ensures a * c <= b * c
  {
  }

  lemma Strict(a: int, b: int, c: int)
    requires a < b && c > 0
    ensures a * c < b * c
  {
  }

  lemma Cancel(a: int, b: int, c: int)
    requires a * c <= b * c && c > 0
    ensures a <= b
  {
    if b < a {
      Strict(b, a, c);
    }
  }

  lemma DivBounds(n: nat, d: nat)
    requires d > 0
    ensures Quot(n, d) * d <= n < (Quot(n, d) + 1) * d
  {
  }

  lemma NoMultiple(k: int, b: int)
    requires Abs(k * b) < Abs(b)
    ensures k == 0
  {
    if k >= 1 {
      Mono(1, k, Abs(b));
      AbsTimes(k, b);
    } else if k <= -1 {
      assert -k * b == -(k * b);
      Mono(1, -k, Abs(b));
      AbsTimes(-k, b);
    }
  }

  lemma AbsTimes(k: int, b: int)
    requires k >= 0
    ensures Abs(k * b) == k * Abs(b)
  {
    if b < 0 {
      assert k * b == -(k * -b);
      Mono(0, k, -b);
    } else {
      Mono(0, k, b);
    }
  }

  lemma DivRemainder(x: int, y: int)
    requires y != 0
    ensures Abs(x - Div(x, y) * y) < Abs(y)
  {
    var q := Quot(Abs(x), Abs(y));
    DivBounds(Abs(x), Abs(y));
    assert (q + 1) * Abs(y) == q * Abs(y) + Abs(y);
    if (x >= 0) == (y > 0) {
      assert Div(x, y) * y == (if x >= 0 then q * Abs(y) else -(q * Abs(y))) by {
        if y < 0 {
          assert q * y == -(q * -y);
        }
      }
    } else {
      assert Div(x, y) * y == (if x >= 0 then q * Abs(y) else -(q * Abs(y))) by {
        if y < 0 {
          assert -q * y == q * -y;
        } else {
          assert -q * y == -(q * y);
        }
      }
    }
  }

  lemma WrapIs(x: int)
    ensures (Wrap(x) - x) % TWO_32 == 0 && (Wrap(x) == x <==> Fits(x))
  {
  }

  lemma NearEqual(p: int, x: int)
    requires Abs(p - x) < TWO_31 && (p - x) % TWO_32 == 0
    ensures p == x
  {
  }

  /** The test `a * b / b == a` on wrapped products accepts exactly the products that fit. */
  lemma DivideBackDecides(a: int, b: int)
    requires Fits(b) && b != 0
    ensures Div(Wrap(a * b), b) == a <==> Fits(a * b)
  {
    hide Div, Wrap;
    var p := Wrap(a * b);
    WrapIs(a * b);
    DivRemainder(p, b);
    if Fits(a * b) {
      var q := Div(p, b);
      assert p - q * b == (a - q) * b;
      NoMultiple(a - q, b);
    }
    if Div(p, b) == a {
      NearEqual(p, a * b);
    }
  }

  // ---- Shifts

  function Pow2(n: nat): (p: nat)
    ensures p > 0
  {
    if n == 0 then 1 else 2 * Pow2(n - 1)
  }

  lemma {:induction false} Pow2Sum(m: nat, n: nat)
    ensures Pow2(m + n) == Pow2(m) * Pow2(n)
  {
    if m > 0 {
      Pow2Sum(m - 1, n);
      assert Pow2(m + n) == 2 * (Pow2(m - 1) * Pow2(n));
    }
  }

  lemma {:induction false} Pow2Grows(m: nat, n: nat)
    requires m <= n
    ensures Pow2(m) <= Pow2(n)
  {
    if m < n {
      Pow2Grows(m, n - 1);
    }
  }

  lemma Pow2Values()
    ensures Pow2(30) == TWO_30 && Pow2(31) == TWO_31 && Pow2(32) == TWO_32
  {
    Pow2Sum(16, 16);
    assert Pow2(4) == 16;
    Pow2Sum(4, 4);
    Pow2Sum(8, 8);
  }

  /** Arithmetic of 32-bit unsigned values. */
  function Unsigned32(n: nat): (r: nat)
    ensures r < TWO_32 && (n < TWO_32 ==> r == n)
  {
    n % TWO_32
  }

  /** `x << n` on 32-bit unsigned values. */
  function ShiftLeft(x: nat, n: nat): nat {
    Unsigned32(x * Pow2(n))
  }

  /** `x >> n`. */
  function ShiftRight(x: nat, n: nat): nat {
    Quot(x, Pow2(n))
  }

  /** Shifting left and back loses nothing exactly when the shifted value fits 32 bits. */
  lemma ShiftBack(x: nat, n: nat)
    requires n <= 32
    ensures ShiftRight(ShiftLeft(x, n), n) == x <==> x * Pow2(n) < TWO_32
  {
    hide *;
    Pow2Sum(n, 32 - n);
    Pow2Values();
    assert Pow2(n) * Pow2(32 - n) == TWO_32;
    ShiftsAre(x, n);
    BackThrough(x, Pow2(n), Pow2(32 - n));
  }

  lemma BackThrough(x: nat, p: nat, m: nat)
    requires p > 0 && p * m == TWO_32
    ensures Quot(Unsigned32(x * p), p) == x <==> x * p < TWO_32
  {
    hide *;
    Unsigned32Facts(x * p);
    if x * p < TWO_32 {
      MultipleDivides(x, p);
    } else {
      TooLarge(x, p, m);
      QuotBelow(Unsigned32(x * p), p, m);
    }
  }

  lemma Unsigned32Facts(n: nat)
    ensures Unsigned32(n) < TWO_32 && (n < TWO_32 ==> Unsigned32(n) == n)
  {
  }

  lemma ShiftsAre(x: nat, n: nat)
    ensures Pow2(n) > 0 && ShiftRight(ShiftLeft(x, n), n) == Quot(Unsigned32(x * Pow2(n)), Pow2(n))
  {
  }

  lemma TooLarge(x: nat, p: nat, m: nat)
    requires p * m == TWO_32 <= x * p
    ensures x >= m
  {
    if x < m {
      Mono(x + 1, m, p);
    }
  }

  lemma QuotBelow(n: nat, p: nat, m: nat)
    requires p > 0 && n < p * m
    ensures Quot(n, p) < m
  {
    hide Quot;
    DivBounds(n, p);
    if Quot(n, p) >= m {
      Mono(m, Quot(n, p), p);
    }
  }

  lemma MultipleDivides(x: nat, p: nat)
    requires p > 0
    ensures Quot(x * p, p) == x
  {
    hide Quot;
    DivBounds(x * p, p);
    var q := Quot(x * p, p);
    if q < x {
      Mono(q + 1, x, p);
    } else if q > x {
      Strict(x, q, p);
    }
  }

  // ---- What the function computes

  /** The largest shift, at most `from`, that keeps x below 2^31. */
  function LeftFrom(x: nat, from: nat): nat {
    if from == 0 || x * Pow2(from) < TWO_31 then from else LeftFrom(x, from - 1)
  }

  /** `left` after its loop and the last decrement. */
  function Left(x: nat): nat {
    LeftFrom(x, 30)
  }

  /** `right` after its loop. */
  function RightFrom(y: nat, c: nat, from: nat): (r: nat)
    requires c > 0
    ensures r >= from
    decreases Quot(y, Pow2(from))
  {
    if Quot(y, Pow2(from)) <= c then from else
      Halves(y, from);
      RightFrom(y, c, from + 1)
  }

  function Right(y: nat, c: nat): nat
    requires c > 0
  {
    RightFrom(y, c, 0)
  }

  lemma Halves(y: nat, n: nat)
    requires Quot(y, Pow2(n)) > 0
    ensures Quot(y, Pow2(n + 1)) < Quot(y, Pow2(n))
  {
    hide Quot;
    var p := Pow2(n);
    DivBounds(y, p);
    DivBounds(y, 2 * p);
    var q := Quot(y, 2 * p);
    assert q * (2 * p) == (2 * q) * p;
    if 2 * q > Quot(y, p) {
      Mono(Quot(y, p) + 1, 2 * q, p);
    }
  }

  /** `((a << shift) / c * b) >> shift`, without wrap-around. */
  function Scaled(x: nat, y: nat, c: nat, shift: nat): nat
    requires c > 0
  {
    Quot(Quot(x * Pow2(shift), c) * y, Pow2(shift))
  }

  function Sign(a: int, b: int, c: int): int {
    (if a < 0 then -1 else 1) * (if b < 0 then -1 else 1) * (if c < 0 then -1 else 1)
  }

  function Larger(a: int, b: int): nat {
    if Abs(b) > Abs(a) then Abs(b) else Abs(a)
  }

  function Smaller(a: int, b: int): nat {
    if Abs(b) > Abs(a) then Abs(a) else Abs(b)
  }

  /** The result of `axb_div_c`. */
  function Result(a: int, b: int, c: int): int {
    if a == 0 || b == 0 then 0
    else if Fits(a * b) && c != 0 then Wrap(Div(a * b, c))
    else if c == 0 || Right(Smaller(a, b), Abs(c)) > Left(Larger(a, b)) then INT_MAX * Sign(a, b, c)
    else Wrap(Wrap(Unsigned(a, b, c)) * Sign(a, b, c))
  }

  function ShiftOf(a: int, b: int, c: int): nat
    requires c != 0 && Right(Smaller(a, b), Abs(c)) <= Left(Larger(a, b))
  {
    Left(Larger(a, b)) - Right(Smaller(a, b), Abs(c))
  }

  /** The unsigned value before the final cast. */
  function Unsigned(a: int, b: int, c: int): nat
    requires c != 0 && Right(Smaller(a, b), Abs(c)) <= Left(Larger(a, b))
  {
    Scaled(Larger(a, b), Smaller(a, b), Abs(c), ShiftOf(a, b, c))
  }

  // ---- The two shifts

  lemma {:induction false} LeftFromBounds(x: nat, from: nat)
    requires 0 < x < TWO_31 && (x * Pow2(from + 1) >= TWO_31)
    ensures var l := LeftFrom(x, from); l <= from && TWO_30 <= x * Pow2(l) < TWO_31
  {
    assert x * Pow2(from + 1) == 2 * (x * Pow2(from));
    if from == 0 {
      assert x * Pow2(0) == x;
    } else if x * Pow2(from) >= TWO_31 {
      LeftFromBounds(x, from - 1);
    }
  }

  lemma {:induction false} LeftFromIs(x: nat, l: nat, from: nat)
    requires l <= from && x * Pow2(l) < TWO_31 <= x * Pow2(l + 1)
    ensures LeftFrom(x, from) == l
  {
    hide Pow2;
    if from > l {
      Pow2Grows(l + 1, from);
      Mono(Pow2(l + 1), Pow2(from), x);
      LeftFromIs(x, l, from - 1);
    }
  }

  lemma LeftBounds(x: nat)
    requires 0 < x < TWO_31
    ensures Left(x) <= 30 && TWO_30 <= x * Pow2(Left(x)) < TWO_31
  {
    Pow2Values();
    Mono(1, x, Pow2(31));
    LeftFromBounds(x, 30);
  }

  lemma {:induction false} RightFromBounds(y: nat, c: nat, from: nat)
    requires c > 0
    ensures var r := RightFrom(y, c, from);
            Quot(y, Pow2(r)) <= c && forall k: nat | from <= k < r :: Quot(y, Pow2(k)) > c
    decreases Quot(y, Pow2(from))
  {
    hide Quot, Pow2;
    if Quot(y, Pow2(from)) > c {
      Halves(y, from);
      RightFromBounds(y, c, from + 1);
    }
  }

  // ---- The slow path

  lemma ProductBound(x: nat, s: nat, c: nat, p: nat, q: nat, y: nat)
    requires q * c <= x * s && c >= 1 && y <= (c + 1) * p && x * (s * p) < TWO_31
    ensures q * y < TWO_32
  {
    Mono(1, c, q);
    Mono(y, (c + 1) * p, q);
    Mono(q * c + q, 2 * (x * s), p);
    Regroup(q, c, p);
    Regroup2(x, s, p);
    assert y * q == q * y;
  }

  /** `(a << shift) / c * b` never exceeds 32 bits. */
  lemma ProductFits(x: nat, y: nat, c: nat, l: nat, r: nat)
    requires c > 0 && r <= l && x * Pow2(l) < TWO_31 && Quot(y, Pow2(r)) <= c
    ensures Quot(x * Pow2(l - r), c) * y < TWO_32
  {
    hide *;
    Pow2Sum(l - r, r);
    PowerPositive(r);
    var (s, p) := (Pow2(l - r), Pow2(r));
    DivBounds(y, p);
    DivBounds(x * s, c);
    Mono(Quot(y, p) + 1, c + 1, p);
    assert s * p == Pow2(l);
    ProductBound(x, s, c, p, Quot(x * s, c), y);
  }

  lemma PowerPositive(n: nat)
    ensures Pow2(n) > 0
  {
  }

  lemma Regroup(q: nat, c: nat, p: nat)
    ensures ((c + 1) * p) * q == (q * c + q) * p
  {
  }

  lemma Regroup2(x: nat, s: nat, p: nat)
    ensures (2 * (x * s)) * p == 2 * (x * (s * p))
  {
  }

  /** The scaled value is at most the quotient. */
  lemma ScaledBelow(x: nat, y: nat, c: nat, shift: nat)
    requires c > 0
    ensures Scaled(x, y, c, shift) * c <= x * y
  {
    hide Pow2, Quot;
    PowerPositive(shift);
    var s := Pow2(shift);
    var q := Quot(x * s, c);
    var r := Quot(q * y, s);
    DivBounds(x * s, c);
    DivBounds(q * y, s);
    Mono(r * s, q * y, c);
    Mono(q * c, x * s, y);
    Swap(r, s, c);
    Swap(q, y, c);
    Swap(x, s, y);
    Cancel(r * c, x * y, s);
  }

  lemma Swap(a: int, b: int, c: int)
    ensures a * b * c == a * c * b
  {
  }

  /** And short of it by less than b / 2^shift + 1. */
  lemma ScaledAbove(x: nat, y: nat, c: nat, shift: nat)
    requires c > 0 && y > 0
    ensures x * y * Pow2(shift) < c * ((Scaled(x, y, c, shift) + 1) * Pow2(shift) + y)
  {
    hide Pow2, Quot;
    PowerPositive(shift);
    var s := Pow2(shift);
    var q := Quot(x * s, c);
    var r := Quot(q * y, s);
    DivBounds(x * s, c);
    DivBounds(q * y, s);
    Strict(x * s, (q + 1) * c, y);
    Swap(x, s, y);
    Swap(q + 1, c, y);
    assert (q + 1) * y == q * y + y;
    Strict(q * y + y, (r + 1) * s + y, c);
  }

  /** Saturation happens only when the quotient exceeds 2^30. */
  lemma SaturatesAbove(x: nat, y: nat, c: nat)
    requires 0 < x < TWO_31 && c > 0 && Right(y, c) > Left(x)
    ensures x * y > c * TWO_30
  {
    hide Quot, Pow2, LeftFrom, RightFrom;
    var l := Left(x);
    LeftBounds(x);
    RightFromBounds(y, c, 0);
    assert Quot(y, Pow2(l)) > c;
    PowerPositive(l);
    DivBounds(y, Pow2(l));
    Mono(c + 1, Quot(y, Pow2(l)), Pow2(l));
    Mono((c + 1) * Pow2(l), y, x);
    Mono(TWO_30, x * Pow2(l), c + 1);
    Ordered(x, c + 1, Pow2(l));
  }

  lemma Ordered(x: nat, c: nat, p: nat)
    ensures c * p * x == x * p * c
  {
  }

  // ---- The C code

  /** The loop over `left`. */
  method FindLeft(a: nat) returns (left: nat)
    requires 0 < a < TWO_31
    ensures left == Left(a)
  {
    Pow2Values();
    LeftBounds(a);
    hide LeftFrom, ShiftLeft, ShiftRight, Pow2;
    left := 32;
    left := left - 1;
    LeftStart(a);
    while ShiftRight(ShiftLeft(a, left), left) != a
      invariant 1 <= left <= 31 && LeftFrom(a, left - 1) == Left(a)
      decreases left
    {
      ShiftBack(a, left);
      LeftStep(a, left);
      left := left - 1;
    }
    ShiftBack(a, left);
    LeftStep(a, left);
    left := left - 1;
  }

  lemma LeftStart(a: nat)
    ensures LeftFrom(a, 30) == Left(a)
  {
  }

  lemma LeftStep(a: nat, left: nat)
    requires 1 <= left <= 31 && a < TWO_31
    ensures a * Pow2(left) < TWO_32 ==> LeftFrom(a, left - 1) == left - 1
    ensures a * Pow2(left) >= TWO_32 ==> left >= 2 && LeftFrom(a, left - 1) == LeftFrom(a, left - 2)
  {
    assert a * Pow2(left) == 2 * (a * Pow2(left - 1));
    if left == 1 {
      assert Pow2(0) == 1;
    }
  }

  /** The loop over `right`. */
  method FindRight(b: nat, c: nat) returns (right: nat)
    requires c > 0
    ensures right == Right(b, c)
  {
    right := 0;
    while ShiftRight(b, right) > c
      invariant RightFrom(b, c, right) == Right(b, c)
      decreases Quot(b, Pow2(right))
    {
      Halves(b, right);
      right := right + 1;
    }
  }

  /** The slow path negates its negative arguments, so that none may be INT_MIN there. */
  predicate Defined(a: int, b: int, c: int) {
    && Fits(a) && Fits(b) && Fits(c)
    && (a != 0 && b != 0 && !(Fits(a * b) && c != 0) ==> Arg(a) && Arg(b) && Arg(c))
  }

  /** `axb_div_c`. */
  method AxbDivC(a: int, b: int, c: int) returns (r: int)
    requires Defined(a, b, c)
    ensures r == Result(a, b, c)
  {
    hide Left, Right, Div, Wrap, Pow2, Quot;
    if a == 0 || b == 0 {
      return 0;
    }
    DivideBackDecides(a, b);
    var p := Wrap(a * b);
    FitsWrap(a * b);
    if Div(p, b) == a && c != 0 {
      return Wrap(Div(p, c));
    }
    var x, y, z, sign := a, b, c, 1;
    if x < 0 {
      sign := -1;
      x := -x;
    }
    if y < 0 {
      sign := sign * -1;
      y := -y;
    }
    if z < 0 {
      sign := sign * -1;
      z := -z;
    }
    assert sign == Sign(a, b, c);
    if z == 0 {
      return INT_MAX * sign;
    }
    if y > x {
      x, y := y, x;
    }
    var left := FindLeft(x);
    var right := FindRight(y, z);
    if right > left {
      return INT_MAX * sign;
    }
    var shift := left - right;
    SlowPath(x, y, z, shift);
    var q := Quot(ShiftLeft(x, shift), z);
    var u := ShiftRight(Unsigned32(q * y), shift);
    r := Wrap(Wrap(u) * sign);
  }

  lemma FitsWrap(x: int)
    ensures Fits(x) ==> Wrap(x) == x
  {
  }

  /** No unsigned operation of the slow path wraps. */
  lemma SlowPath(x: nat, y: nat, c: nat, shift: nat)
    requires 0 < x < TWO_31 && c > 0 && Left(x) == Right(y, c) + shift
    ensures ShiftLeft(x, shift) == x * Pow2(shift)
    ensures Quot(x * Pow2(shift), c) * y < TWO_32
    ensures ShiftRight(Unsigned32(Quot(ShiftLeft(x, shift), c) * y), shift) == Scaled(x, y, c, shift)
  {
    var (l, r) := (Left(x), Right(y, c));
    LeftBounds(x);
    RightFromBounds(y, c, 0);
    Pow2Grows(shift, l);
    hide Left, Right, Quot, Pow2, LeftFrom, RightFrom;
    Mono(Pow2(shift), Pow2(l), x);
    ProductFits(x, y, c, l, r);
  }

  // ---- How good the result is

  /** In the slow path the value before the cast lies below the exact quotient |a b / c| by less
      than min(|a|, |b|) / 2^shift + 1. */
  lemma SlowPathAccuracy(a: int, b: int, c: int)
    requires Arg(a) && Arg(b) && Arg(c) && a != 0 && b != 0 && c != 0
    requires Right(Smaller(a, b), Abs(c)) <= Left(Larger(a, b))
    ensures var (r, s) := (Unsigned(a, b, c), Pow2(ShiftOf(a, b, c)));
            && r * Abs(c) <= Abs(a) * Abs(b)
            && Abs(a) * Abs(b) * s < Abs(c) * ((r + 1) * s + Smaller(a, b))
  {
    hide Left, Right, Scaled, Pow2;
    var (x, y) := (Larger(a, b), Smaller(a, b));
    ScaledBelow(x, y, Abs(c), ShiftOf(a, b, c));
    ScaledAbove(x, y, Abs(c), ShiftOf(a, b, c));
  }

  /** The result has the sign and the value of that unsigned number exactly when bits are shifted
      out, or the number, which then is (max / |c|) * min, fits the result: the cast cannot wrap
      otherwise. A true quotient below 2^31 guarantees it. */
  lemma NoWrapIff(a: int, b: int, c: int)
    requires Arg(a) && Arg(b) && Arg(c) && a != 0 && b != 0 && c != 0 && !Fits(a * b)
    requires Right(Smaller(a, b), Abs(c)) <= Left(Larger(a, b))
    ensures Result(a, b, c) == Sign(a, b, c) * Unsigned(a, b, c) <==>
              || ShiftOf(a, b, c) > 0
              || Quot(Larger(a, b), Abs(c)) * Smaller(a, b) < TWO_31
              || (Quot(Larger(a, b), Abs(c)) * Smaller(a, b) == TWO_31 && Sign(a, b, c) == -1)
    ensures Abs(a) * Abs(b) < Abs(c) * TWO_31 ==> Result(a, b, c) == Sign(a, b, c) * Unsigned(a, b, c)
  {
    hide Left, Right, Scaled, Pow2, Quot;
    var (r, z) := (Unsigned(a, b, c), Abs(c));
    SlowPathAccuracy(a, b, c);
    UnsignedBelow(a, b, c);
    WrapTwice(r, Sign(a, b, c));
    if Abs(a) * Abs(b) < z * TWO_31 && r >= TWO_31 {
      Mono(TWO_31, r, z);
    }
  }

  /** The unsigned number fits 32 bits, and 31 when bits are shifted out. */
  lemma UnsignedBelow(a: int, b: int, c: int)
    requires Arg(a) && Arg(b) && Arg(c) && a != 0 && b != 0 && c != 0
    requires Right(Smaller(a, b), Abs(c)) <= Left(Larger(a, b))
    ensures Unsigned(a, b, c) < TWO_32
    ensures ShiftOf(a, b, c) > 0 ==> Unsigned(a, b, c) < TWO_31
    ensures ShiftOf(a, b, c) == 0 ==> Unsigned(a, b, c) == Quot(Larger(a, b), Abs(c)) * Smaller(a, b)
  {
    SlowPath(Larger(a, b), Smaller(a, b), Abs(c), ShiftOf(a, b, c));
    hide Left, Right, Quot;
    PowerPositive(ShiftOf(a, b, c));
    var n := Quot(Larger(a, b) * Pow2(ShiftOf(a, b, c)), Abs(c)) * Smaller(a, b);
    QuotSmaller(n, Pow2(ShiftOf(a, b, c)));
    if ShiftOf(a, b, c) > 0 {
      assert Pow2(ShiftOf(a, b, c)) == 2 * Pow2(ShiftOf(a, b, c) - 1);
      QuotHalf(n, Pow2(ShiftOf(a, b, c)));
    } else {
      QuotOne(n);
      assert Larger(a, b) * Pow2(0) == Larger(a, b);
    }
  }

  lemma QuotHalf(n: nat, d: nat)
    requires d >= 2
    ensures 2 * Quot(n, d) <= n
  {
    hide Quot;
    DivBounds(n, d);
    Mono(2, d, Quot(n, d));
  }

  lemma QuotOne(n: nat)
    ensures Quot(n, 1) == n
  {
  }

  lemma QuotSmaller(n: nat, d: nat)
    requires d > 0
    ensures Quot(n, d) <= n
  {
    hide Quot;
    DivBounds(n, d);
    Mono(1, d, Quot(n, d));
  }

  lemma WrapTwice(r: nat, sign: int)
    requires r < TWO_32 && (sign == 1 || sign == -1)
    ensures Wrap(Wrap(r) * sign) == sign * r <==> r < TWO_31 || (r == TWO_31 && sign == -1)
  {
  }

  /** Saturation happens only for quotients above 2^30 in magnitude, or for a zero divisor. */
  lemma SaturationOnlyAbove(a: int, b: int, c: int)
    requires Arg(a) && Arg(b) && Arg(c) && a != 0 && b != 0 && c != 0
    requires Right(Smaller(a, b), Abs(c)) > Left(Larger(a, b))
    ensures Abs(a) * Abs(b) > Abs(c) * TWO_30
  {
    hide Left, Right;
    SaturatesAbove(Larger(a, b), Smaller(a, b), Abs(c));
  }

  lemma ResultSlow(a: int, b: int, c: int, x: nat, y: nat, u: nat)
    requires a != 0 && b != 0 && c > 0 && !Fits(a * b) && x == Larger(a, b) && y == Smaller(a, b)
    requires Left(x) == Right(y, c) && Scaled(x, y, c, 0) == u
    ensures Result(a, b, c) == Wrap(Wrap(u) * Sign(a, b, c))
  {
    hide Left, Right, Scaled, Wrap, Div;
  }

  lemma ExampleShifts()
    ensures Left(0x3FFF_FFFF) == 1 && Right(3, 1) == 1
  {
    assert Pow2(0) == 1 && Pow2(1) == 2 && Pow2(2) == 4;
    LeftFromIs(0x3FFF_FFFF, 1, 30);
    assert RightFrom(3, 1, 1) == 1;
    assert Quot(3, Pow2(0)) > 1;
  }

  lemma ExampleScaled()
    ensures Scaled(0x3FFF_FFFF, 3, 1, 0) == 0xBFFF_FFFD
  {
    assert Pow2(0) == 1;
  }

  /** The cast can wrap: a quotient beyond 31 bits that is not saturated comes out negative. */
  lemma CastWraps()
    ensures Result(0x3FFF_FFFF, 3, 1) == -0x4000_0003
  {
    hide Left, Right, Scaled, Result;
    ExampleShifts();
    ExampleScaled();
    ResultSlow(0x3FFF_FFFF, 3, 1, 0x3FFF_FFFF, 3, 0xBFFF_FFFD);
  }
}
