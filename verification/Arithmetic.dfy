/** Integer division and remainder of arithmetic_evaluator.py, which go through binary64. */
module Arithmetic {
  import opened Values

  const TWO52: nat := 0x10_0000_0000_0000
  const TWO53: nat := 0x20_0000_0000_0000

  function Pow2(n: nat): (r: nat)
    ensures r > 0
  {
    if n == 0 then 1 else 2 * Pow2(n - 1)
  }

  // ---- Rounding to binary64: IEEE 754-2019, section 4.3.1, roundTiesToEven ----

  /** num / den to the nearest integer, ties to even. */
  function RoundHalfEven(num: nat, den: nat): nat
    requires den > 0
  {
    var q, r := num / den, num % den;
    if 2 * r < den || (2 * r == den && q % 2 == 0) then q else q + 1
  }

  /** How often num is doubled to give a quotient of 53 bits. */
  function UpShift(num: nat, den: nat): (k: nat)
    requires 0 < num && num < TWO53 * den
    ensures TWO52 * den <= num * Pow2(k) < TWO53 * den
    decreases TWO52 * den - num
  {
    if num >= TWO52 * den then 0
    else
      var k := UpShift(2 * num, den);
      assert num * Pow2(k + 1) == 2 * num * Pow2(k);
      k + 1
  }

  /** How often den is doubled to give a quotient of 53 bits. */
  function DownShift(num: nat, den: nat): (k: nat)
    requires 0 < den && TWO52 * den <= num
    ensures TWO52 * (den * Pow2(k)) <= num < TWO53 * (den * Pow2(k))
    ensures num >= TWO53 * den ==> k > 0
    decreases num - den
  {
    if num < TWO53 * den then 0
    else
      var k := DownShift(num, 2 * den);
      assert den * Pow2(k + 1) == 2 * den * Pow2(k);
      k + 1
  }

  /** The non-negative number mantissa / 2^scale, scale possibly negative. */
  datatype Float = Float(mantissa: nat, scale: int)

  /** a / b rounded to 53 significant bits; 64-bit operands neither overflow nor underflow. */
  function Quotient(a: nat, b: nat): Float
    requires b > 0
  {
    if a == 0 then Float(0, 0)
    else if a < TWO53 * b then
      var k := UpShift(a, b);
      Float(RoundHalfEven(a * Pow2(k), b), k)
    else
      var k := DownShift(a, b);
      Float(RoundHalfEven(a, b * Pow2(k)), 0 - k)
  }

  function Trunc(f: Float): nat {
    hide Pow2;
    if f.scale >= 0 then f.mantissa / Pow2(f.scale) else f.mantissa * Pow2(-f.scale)
  }

  /** The float nearest to an integer, which is again an integer. */
  function FromInt(a: nat): nat {
    Trunc(Quotient(a, 1))
  }

  /** Within half a unit of the exact value. */
  lemma RoundIsNearest(num: nat, den: nat)
    requires den > 0
    ensures 0 <= 2 * (RoundHalfEven(num, den) * den - num) + den <= 2 * den
  {
    var q, r := num / den, num % den;
    assert num == q * den + r;
    assert (q + 1) * den == q * den + den;
  }

  /** Exactly between two integers, the even one. */
  lemma TiesToEven(num: nat, den: nat)
    requires den > 0 && 2 * (num % den) == den
    ensures RoundHalfEven(num, den) % 2 == 0
  {}

  lemma DivBelow(num: nat, den: nat, n: nat)
    requires den > 0 && num / den < n
    ensures num < n * den
  {
    var q := num / den;
    assert num < q * den + den && (q + 1) * den == q * den + den;
    MulMono(q + 1, n, den);
  }

  /** Rounding does not cross an integer ... */
  lemma RoundAtLeast(num: nat, den: nat, n: nat)
    requires den > 0 && n * den <= num
    ensures RoundHalfEven(num, den) >= n
  {
    if num / den < n {
      DivBelow(num, den, n);
      assert false;
    }
  }

  /** ... and stays below one that is more than half a unit away. */
  lemma RoundBelow(num: nat, den: nat, n: nat)
    requires den > 0 && 2 * num + den < 2 * (n * den)
    ensures RoundHalfEven(num, den) < n
  {
    RoundIsNearest(num, den);
    var m := RoundHalfEven(num, den);
    if m >= n {
      MulMono(n, m, den);
      assert false;
    }
  }

  lemma MulMono(a: nat, b: nat, c: nat)
    requires a <= b
    ensures a * c <= b * c
  {}

  lemma RoundExact(n: nat, den: nat)
    requires den > 0
    ensures RoundHalfEven(n * den, den) == n
  {
    RoundAtLeast(n * den, den, n);
    assert 2 * (n * den) + den < 2 * ((n + 1) * den) by {
      assert (n + 1) * den == n * den + den;
    }
    RoundBelow(n * den, den, n + 1);
  }

  /** A non-zero quotient keeps 53 significant bits and is within half a unit in the last place. */
  lemma QuotientIsNearest(a: nat, b: nat)
    requires a > 0 && b > 0
    ensures var f := Quotient(a, b);
            var num := if f.scale >= 0 then a * Pow2(f.scale) else a;
            var den := if f.scale >= 0 then b else b * Pow2(-f.scale);
            TWO52 <= f.mantissa <= TWO53 && 0 <= 2 * (f.mantissa * den - num) + den <= 2 * den
  {
    if a < TWO53 * b {
      var k := UpShift(a, b);
      BinaryBounds(a * Pow2(k), b);
      RoundIsNearest(a * Pow2(k), b);
    } else {
      var k := DownShift(a, b);
      BinaryBounds(a, b * Pow2(k));
      RoundIsNearest(a, b * Pow2(k));
    }
  }

  lemma BinaryBounds(num: nat, den: nat)
    requires den > 0 && TWO52 * den <= num < TWO53 * den
    ensures TWO52 <= RoundHalfEven(num, den) <= TWO53
  {
    RoundAtLeast(num, den, TWO52);
    assert 2 * num + den < 2 * ((TWO53 + 1) * den);
    RoundBelow(num, den, TWO53 + 1);
  }

  // ---- Truncating the rounded quotient ----

  lemma DivAbove(m: nat, p: nat, q: nat)
    requires p > 0 && m / p > q
    ensures m >= (q + 1) * p
  {
    var d := m / p;
    assert m >= d * p;
    MulMono(q + 1, d, p);
  }

  lemma DivBetween(m: nat, p: nat, q: nat)
    requires p > 0 && q * p <= m < (q + 1) * p
    ensures m / p == q
  {
    if m / p < q {
      DivBelow(m, p, q);
      assert false;
    }
    if m / p > q {
      DivAbove(m, p, q);
      assert false;
    }
  }

  lemma UpperGap(a: nat, b: nat, q: nat, p: nat)
    requires b > 0 && a < (q + 1) * b && b < 2 * p
    ensures 2 * (a * p) + b < 2 * ((q + 1) * p * b)
  {
    MulMono(a + 1, (q + 1) * b, p);
    assert (a + 1) * p == a * p + p;
    assert ((q + 1) * b) * p == (q + 1) * p * b;
  }

  lemma LowerGap(a: nat, b: nat, q: nat, p: nat)
    requires q * b <= a
    ensures (q * p) * b <= a * p
  {
    MulMono(q * b, a, p);
    assert (q * b) * p == (q * p) * b;
  }

  /** The key step: when p is large enough for a 53-bit quotient and a < 2^53, rounding a * p / b never reaches the next
      multiple of p. */
  lemma RoundedThenTruncated(a: nat, b: nat, p: nat)
    requires a < TWO53 && b > 0 && p > 0 && TWO52 * b <= a * p
    ensures RoundHalfEven(a * p, b) / p == a / b
  {
    hide RoundHalfEven;
    var q := a / b;
    assert q * b <= a && a < (q + 1) * b by {
      assert a == q * b + a % b && (q + 1) * b == q * b + b;
    }
    assert b < 2 * p by {
      MulMono(a + 1, TWO53, p);
      assert (a + 1) * p == a * p + p;
    }
    LowerGap(a, b, q, p);
    RoundAtLeast(a * p, b, q * p);
    UpperGap(a, b, q, p);
    RoundBelow(a * p, b, (q + 1) * p);
    DivBetween(RoundHalfEven(a * p, b), p, q);
  }

  /** Below 2^53 the truncated float quotient is the integer quotient. */
  lemma TruncatesExactly(a: nat, b: nat)
    requires a < TWO53 && b > 0
    ensures Trunc(Quotient(a, b)) == a / b
  {
    hide Pow2, RoundHalfEven;
    if a == 0 {
      DivBetween(0, b, 0);
      DivBetween(0, Pow2(0), 0);
    } else {
      assert a < TWO53 * b by { MulMono(1, b, TWO53); }
      var k := UpShift(a, b);
      RoundedThenTruncated(a, b, Pow2(k));
    }
  }

  lemma FromIntExact(a: nat)
    requires a < TWO53
    ensures FromInt(a) == a
  {
    TruncatesExactly(a, 1);
  }

  lemma FromIntLarge(a: nat)
    requires a >= TWO53
    ensures FromInt(a) >= TWO53
  {
    var k := DownShift(a, 1);
    assert Pow2(k) >= 2;
    BinaryBounds(a, 1 * Pow2(k));
    MulMono(TWO52, RoundHalfEven(a, 1 * Pow2(k)), Pow2(k));
  }

  // ---- One row ----

  function Abs(a: int): nat {
    if a < 0 then -a else a
  }

  /** Division toward zero, as the language promises it. */
  function TruncDiv(a: int, b: int): int
    requires b != 0
  {
    if (a < 0) == (b < 0) then Abs(a) / Abs(b) else -(Abs(a) / Abs(b))
  }

  /** The remainder of division toward zero. */
  function TruncRem(a: int, b: int): int
    requires b != 0
  {
    if a < 0 then -(Abs(a) % Abs(b)) else Abs(a) % Abs(b)
  }

  predicate InInt64(a: int) {
    -0x8000_0000_0000_0000 <= a < 0x8000_0000_0000_0000
  }

  lemma FromIntPositive(a: nat)
    requires a > 0
    ensures FromInt(a) > 0
  {
    if a < TWO53 {
      FromIntExact(a);
    } else {
      FromIntLarge(a);
    }
  }

  /** `np.trunc(float(a) / float(b))`. */
  function FloatDiv(a: int, b: int): int
    requires b != 0
  {
    hide FromInt, Quotient, Trunc;
    FromIntPositive(Abs(b));
    var q: int := Trunc(Quotient(FromInt(Abs(a)), FromInt(Abs(b))));
    if (a < 0) == (b < 0) then q else -q
  }

  /** `np.fmod(float(a), float(b))`: the remainder itself is exact (C17, section 7.12.10.1). */
  function FloatMod(a: int, b: int): int
    requires b != 0
  {
    hide FromInt;
    FromIntPositive(Abs(b));
    var r: int := FromInt(Abs(a)) % FromInt(Abs(b));
    if a < 0 then -r else r
  }

  lemma SmallDividend(a: nat, b: nat)
    requires a < b
    ensures a / b == 0 && a % b == a
  {
    DivBetween(a, b, 0);
  }

  /** Division and remainder through binary64 are exact for dividends below 2^53, whatever the divisor. */
  lemma ExactBelow(a: int, b: int)
    requires Abs(a) < TWO53 && b != 0
    ensures FloatDiv(a, b) == TruncDiv(a, b) && FloatMod(a, b) == TruncRem(a, b)
  {
    var m, n := Abs(a), Abs(b);
    FromIntExact(m);
    FromIntPositive(n);
    TruncatesExactly(m, FromInt(n));
    if n < TWO53 {
      FromIntExact(n);
    } else {
      FromIntLarge(n);
      SmallDividend(m, n);
      SmallDividend(m, FromInt(n));
    }
  }

  lemma OneShift(a: nat)
    requires TWO53 <= a < 2 * TWO53
    ensures FromInt(a) == 2 * RoundHalfEven(a, 2)
  {
    hide UpShift, RoundHalfEven;
    assert DownShift(a, 2) == 0;
    assert DownShift(a, 1) == 1;
    assert Pow2(1) == 2 * Pow2(0) == 2;
  }

  /** 2^53 and its successor become the same float. */
  lemma SuccessorLost(n: nat)
    requires n == TWO53
    ensures FromInt(n) == n && FromInt(n + 1) == n
  {
    hide FromInt;
    OneShift(n);
    OneShift(n + 1);
    assert RoundHalfEven(n, 2) == TWO52 && RoundHalfEven(n + 1, 2) == TWO52;
  }

  lemma SelfQuotient(n: nat)
    requires n > 0
    ensures Trunc(Quotient(n, n)) == 1
  {
    hide Pow2, RoundHalfEven;
    var k := UpShift(n, n);
    var p := Pow2(k);
    assert n * p == p * n;
    RoundExact(p, n);
    DivBetween(p, p, 1);
  }

  /** 2^53 / (2^53 + 1) comes out as 1 with remainder 0. */
  lemma FailsAtBound(n: nat)
    requires n == TWO53
    ensures FloatDiv(n, n + 1) == 1 && TruncDiv(n, n + 1) == 0
    ensures FloatMod(n, n + 1) == 0 && TruncRem(n, n + 1) == n
  {
    hide FromInt, Quotient, Trunc;
    SuccessorLost(n);
    SelfQuotient(n);
    SmallDividend(n, n + 1);
  }

  ghost predicate ExactUnder(n: nat) {
    forall a: int, b: int :: InInt64(a) && InInt64(b) && Abs(a) < n && b != 0 ==>
      FloatDiv(a, b) == TruncDiv(a, b) && FloatMod(a, b) == TruncRem(a, b)
  }

  /** 2^53 is the exact bound: every dividend below it is divided exactly by every divisor, and no larger bound will
      do. */
  lemma ExactBound(n: nat)
    ensures ExactUnder(n) <==> n <= TWO53
  {
    hide FloatDiv, FloatMod, TruncDiv, TruncRem;
    if n <= TWO53 {
      forall a: int, b: int | InInt64(a) && InInt64(b) && Abs(a) < n && b != 0
        ensures FloatDiv(a, b) == TruncDiv(a, b) && FloatMod(a, b) == TruncRem(a, b)
      {
        ExactBelow(a, b);
      }
    } else {
      var a: nat := TWO53;
      FailsAtBound(a);
      assert InInt64(a) && InInt64(a + 1) && Abs(a) < n;
      assert FloatDiv(a, a + 1) != TruncDiv(a, a + 1);
    }
  }

  /** Quotient and remainder belong together, and the remainder has the dividend's sign and is smaller than the
      divisor. */
  lemma DivModLaw(a: int, b: int)
    requires Abs(a) < TWO53 && b != 0
    ensures a == FloatDiv(a, b) * b + FloatMod(a, b)
    ensures Abs(FloatMod(a, b)) < Abs(b)
    ensures FloatMod(a, b) != 0 ==> (FloatMod(a, b) < 0 <==> a < 0)
  {
    hide FloatDiv, FloatMod;
    ExactBelow(a, b);
    TruncLaw(a, b);
  }

  lemma TruncLaw(a: int, b: int)
    requires b != 0
    ensures a == TruncDiv(a, b) * b + TruncRem(a, b) && Abs(TruncRem(a, b)) < Abs(b)
    ensures TruncRem(a, b) != 0 ==> (TruncRem(a, b) < 0 <==> a < 0)
  {
    var m, n: int := Abs(a), Abs(b);
    var q, r: int := m / n, m % n;
    assert m == q * n + r;
    assert q * n == (-q) * (-n);
  }

  /** These laws leave no other quotient and remainder. */
  lemma TruncDivUnique(a: int, b: int, q: int, r: int)
    requires b != 0 && a == q * b + r && Abs(r) < Abs(b) && (r != 0 ==> (r < 0 <==> a < 0))
    ensures q == TruncDiv(a, b) && r == TruncRem(a, b)
  {
    hide TruncDiv, TruncRem;
    TruncLaw(a, b);
    var p, s := TruncDiv(a, b), TruncRem(a, b);
    assert (q - p) * b == s - r by {
      assert (q - p) * b == q * b - p * b;
    }
    NoMultipleBetween(q - p, b, s - r);
  }

  lemma MultipleAtLeast(k: int, b: int)
    requires k != 0
    ensures Abs(k * b) >= Abs(b)
  {
    MulMono(1, Abs(k), Abs(b));
    assert Abs(k) * Abs(b) == Abs(k * b);
  }

  lemma NoMultipleBetween(k: int, b: int, d: int)
    requires b != 0 && k * b == d && Abs(d) < Abs(b)
    ensures k == 0 && d == 0
  {
    if k != 0 {
      MultipleAtLeast(k, b);
      assert false;
    }
  }

  // ---- What the float results are, for operands of any size ----

  /** 2 * |x * den - num| <= unit: x is within half a unit (over den) of num / den. */
  predicate Near(x: int, den: int, num: int, unit: int) {
    -unit <= 2 * (x * den - num) <= unit
  }

  /** x has at most 53 significant bits, m followed by s zeros, and is within half a unit of n. */
  predicate RoundedTo(x: nat, n: nat, m: nat, s: nat) {
    x == m * Pow2(s) && TWO52 <= m <= TWO53 && Near(x, 1, n, Pow2(s))
  }

  /** x is the integer n itself, or rounded from it. */
  ghost predicate IsFloatOf(x: nat, n: nat) {
    if n < TWO53 then x == n else exists m: nat, s: nat :: RoundedTo(x, n, m, s)
  }

  /** q is the integer part of m / 2^s (of m * 2^s), which is within half a unit of x / y. */
  predicate Fraction(q: nat, x: nat, y: nat, m: nat, s: nat) {
    TWO52 <= m <= TWO53 && Near(m, y, x * Pow2(s), y) && q == m / Pow2(s)
  }

  predicate Multiple(q: nat, x: nat, y: nat, m: nat, s: nat) {
    TWO52 <= m <= TWO53 && Near(m, y * Pow2(s), x, y * Pow2(s)) && q == m * Pow2(s)
  }

  /** q is the integer part of a number of 53 significant bits within half a unit of x / y. */
  ghost predicate IsFloatQuotient(q: nat, x: nat, y: nat) {
    if x == 0 then q == 0
    else (exists m: nat, s: nat :: Fraction(q, x, y, m, s)) || (exists m: nat, s: nat :: Multiple(q, x, y, m, s))
  }

  lemma QuotientIsFloat(x: nat, y: nat)
    requires y > 0
    ensures IsFloatQuotient(Trunc(Quotient(x, y)), x, y)
  {
    hide Quotient;
    if x == 0 {
      assert Quotient(x, y) == Float(0, 0) by { NoDividend(y); }
      DivBetween(0, Pow2(0), 0);
    } else {
      QuotientIsNearest(x, y);
      var f := Quotient(x, y);
      if f.scale >= 0 {
        var s: nat := f.scale;
        assert Fraction(Trunc(f), x, y, f.mantissa, s);
      } else {
        var s: nat := -f.scale;
        assert Multiple(Trunc(f), x, y, f.mantissa, s);
      }
    }
  }

  lemma NoDividend(b: nat)
    requires b > 0
    ensures Quotient(0, b) == Float(0, 0)
  {}

  lemma FromIntIsFloat(n: nat)
    ensures IsFloatOf(FromInt(n), n)
  {
    hide RoundHalfEven, UpShift, FromInt;
    if n < TWO53 {
      FromIntExact(n);
    } else {
      var k := DownShift(n, 1);
      var m := RoundHalfEven(n, 1 * Pow2(k));
      BinaryBounds(n, 1 * Pow2(k));
      RoundIsNearest(n, 1 * Pow2(k));
      LargeFloat(n);
      assert RoundedTo(FromInt(n), n, m, k);
    }
  }

  lemma LargeFloat(n: nat)
    requires n >= TWO53
    ensures FromInt(n) == RoundHalfEven(n, 1 * Pow2(DownShift(n, 1))) * Pow2(DownShift(n, 1))
  {
    hide RoundHalfEven, UpShift;
  }

  predicate SameSign(a: int, b: int) {
    (a < 0) == (b < 0)
  }

  /** The sign is that of division, the size that of the float quotient of the operands' floats. */
  ghost predicate IsDivision(q: int, a: int, b: int) {
    && (q != 0 ==> (q > 0 <==> SameSign(a, b)))
    && exists x: nat, y: nat :: y > 0 && IsFloatOf(x, Abs(a)) && IsFloatOf(y, Abs(b)) && IsFloatQuotient(Abs(q), x, y)
  }

  /** The sign is the dividend's, the size the remainder of dividing the operands' floats. */
  ghost predicate IsRemainder(r: int, a: int, b: int) {
    && (r != 0 ==> (r < 0 <==> a < 0))
    && exists x: nat, y: nat, q: nat :: IsFloatOf(x, Abs(a)) && IsFloatOf(y, Abs(b)) && Divides(x, y, q, Abs(r))
  }

  predicate Divides(x: nat, y: nat, q: nat, r: nat) {
    x == q * y + r && r < y
  }

  lemma FloatDivMeaning(a: int, b: int)
    requires b != 0
    ensures IsDivision(FloatDiv(a, b), a, b)
  {
    hide FromInt, Quotient, Trunc, IsFloatOf, IsFloatQuotient;
    var x, y := FromInt(Abs(a)), FromInt(Abs(b));
    FromIntPositive(Abs(b));
    FromIntIsFloat(Abs(a));
    FromIntIsFloat(Abs(b));
    QuotientIsFloat(x, y);
    assert Abs(FloatDiv(a, b)) == Trunc(Quotient(x, y));
  }

  lemma FloatModMeaning(a: int, b: int)
    requires b != 0
    ensures IsRemainder(FloatMod(a, b), a, b)
  {
    hide FromInt, IsFloatOf;
    var x, y := FromInt(Abs(a)), FromInt(Abs(b));
    FromIntPositive(Abs(b));
    FromIntIsFloat(Abs(a));
    FromIntIsFloat(Abs(b));
    assert Abs(FloatMod(a, b)) == x % y;
    assert Divides(x, y, x / y, x % y);
  }

  // ---- Columns ----

  /** A column of integers and nulls. */
  type IntColumn = seq<Option<int>>

  function DivOne(a: Option<int>, b: Option<int>): Option<int> {
    if a.None? || b.None? || b.value == 0 then None else Some(FloatDiv(a.value, b.value))
  }

  function ModOne(a: Option<int>, b: Option<int>): Option<int> {
    if a.None? || b.None? || b.value == 0 then None else Some(FloatMod(a.value, b.value))
  }

  /** `right.where(~zero_mask, other=1.0)`. */
  function ZeroToOne(col: IntColumn): (r: IntColumn)
    ensures |r| == |col|
    ensures forall i :: 0 <= i < |col| ==> r[i] == (if col[i] == Some(0) then Some(1) else col[i]) && r[i] != Some(0)
  {
    seq(|col|, i requires 0 <= i < |col| => if col[i] == Some(0) then Some(1) else col[i])
  }

  /** `result[replace_mask] = None`. */
  method Mask(result: IntColumn, left: IntColumn, right: IntColumn) returns (r: IntColumn)
    requires |result| == |left| == |right|
    ensures |r| == |left|
    ensures forall i :: 0 <= i < |r| ==>
              r[i] == if right[i] == Some(0) || left[i].None? || right[i].None? then None else result[i]
  {
    r := result;
    for i := 0 to |r|
      invariant |r| == |left|
      invariant forall j :: 0 <= j < |r| ==>
                  r[j] == if j < i && (right[j] == Some(0) || left[j].None? || right[j].None?) then None else result[j]
    {
      if right[i] == Some(0) || left[i].None? || right[i].None? {
        r := r[i := None];
      }
    }
  }

  /** Row by row on floats: a null operand gives NaN, which the mask replaces. */
  function Elementwise(op: (int, int) -> int, left: IntColumn, right: IntColumn): (r: IntColumn)
    requires |left| == |right|
    ensures |r| == |left|
    ensures forall i :: 0 <= i < |r| ==>
              r[i] == if left[i].None? || right[i].None? then None else Some(op(left[i].value, right[i].value))
  {
    seq(|left|, i requires 0 <= i < |left| =>
      if left[i].None? || right[i].None? then None else Some(op(left[i].value, right[i].value)))
  }

  /** _cypher_div on two integer columns. */
  method CypherDiv(left: IntColumn, right: IntColumn) returns (r: IntColumn)
    requires |left| == |right|
    ensures |r| == |left| && forall i :: 0 <= i < |r| ==> r[i] == DivOne(left[i], right[i])
    ensures forall i :: 0 <= i < |left| && left[i].Some? && right[i].Some? && right[i].value != 0
                        && Abs(left[i].value) < TWO53 ==>
              r[i] == Some(TruncDiv(left[i].value, right[i].value))
    ensures forall i :: 0 <= i < |left| ==>
              (r[i].None? <==> left[i].None? || right[i].None? || right[i].value == 0)
    ensures forall i :: 0 <= i < |left| && r[i].Some? ==> IsDivision(r[i].value, left[i].value, right[i].value)
  {
    hide FloatDiv, TruncDiv, IsDivision;
    if exists i :: 0 <= i < |left| && (right[i] == Some(0) || left[i].None? || right[i].None?) {
      var quotients := Elementwise((a, b) => if b == 0 then 0 else FloatDiv(a, b), left, ZeroToOne(right));
      r := Mask(quotients, left, right);
    } else {
      r := Elementwise((a, b) => if b == 0 then 0 else FloatDiv(a, b), left, right);
    }
    forall i | 0 <= i < |left| && left[i].Some? && right[i].Some? && right[i].value != 0 && Abs(left[i].value) < TWO53
      ensures r[i] == Some(TruncDiv(left[i].value, right[i].value))
    {
      ExactBelow(left[i].value, right[i].value);
    }
    forall i | 0 <= i < |left| && r[i].Some?
      ensures IsDivision(r[i].value, left[i].value, right[i].value)
    {
      FloatDivMeaning(left[i].value, right[i].value);
    }
  }

  /** _cypher_mod on two integer columns. */
  method CypherMod(left: IntColumn, right: IntColumn) returns (r: IntColumn)
    requires |left| == |right|
    ensures |r| == |left| && forall i :: 0 <= i < |r| ==> r[i] == ModOne(left[i], right[i])
    ensures forall i :: 0 <= i < |left| && left[i].Some? && right[i].Some? && right[i].value != 0
                        && Abs(left[i].value) < TWO53 ==>
              r[i] == Some(TruncRem(left[i].value, right[i].value))
    ensures forall i :: 0 <= i < |left| ==>
              (r[i].None? <==> left[i].None? || right[i].None? || right[i].value == 0)
    ensures forall i :: 0 <= i < |left| && r[i].Some? ==> IsRemainder(r[i].value, left[i].value, right[i].value)
  {
    hide FloatMod, TruncRem, IsRemainder;
    if exists i :: 0 <= i < |left| && (right[i] == Some(0) || left[i].None? || right[i].None?) {
      var remainders := Elementwise((a, b) => if b == 0 then 0 else FloatMod(a, b), left, ZeroToOne(right));
      r := Mask(remainders, left, right);
    } else {
      r := Elementwise((a, b) => if b == 0 then 0 else FloatMod(a, b), left, right);
    }
    forall i | 0 <= i < |left| && left[i].Some? && right[i].Some? && right[i].value != 0 && Abs(left[i].value) < TWO53
      ensures r[i] == Some(TruncRem(left[i].value, right[i].value))
    {
      ExactBelow(left[i].value, right[i].value);
    }
    forall i | 0 <= i < |left| && r[i].Some?
      ensures IsRemainder(r[i].value, left[i].value, right[i].value)
    {
      FloatModMeaning(left[i].value, right[i].value);
    }
  }
}
