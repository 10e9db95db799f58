/** compare_double on the doubles: which of them count as equal, and where that is not transitive. */
module Doubles {
  import opened Compare

  /** 2^52, the smallest significand of a normal double. */
  const SIGNIFICAND: int := 4503599627370496

  predicate IsSignificand(m: int) { SIGNIFICAND <= m < 2 * SIGNIFICAND }

  function Power(e: int): (p: real)
    ensures p > 0.0
    decreases if e < 0 then -e else e
  {
    if e == 0 then 1.0 else if e > 0 then 2.0 * Power(e - 1) else Power(e + 1) / 2.0
  }

  /** Zero or a normal double: a significand times a power of two, with a sign. */
  datatype Double = Zero | Normal(negative: bool, significand: int, exponent: int)

  predicate IsDouble(x: Double) { x.Normal? ==> IsSignificand(x.significand) }

  function Scaled(scale: real, x: real): real { scale * x }

  function Size(m: int, e: int): real { Scaled(Power(e), m as real) }

  function RealOf(x: Double): real {
    match x
    case Zero => 0.0
    case Normal(negative, m, e) => if negative then -Size(m, e) else Size(m, e)
  }

  /** Positive doubles are numbered in their order: the last of a binade is followed by the first of the next. */
  function Rank(m: int, e: int): int { e * SIGNIFICAND + m }

  /** How many doubles up from `x` to `y` in size. */
  function Steps(x: Double, y: Double): int
    requires x.Normal? && y.Normal?
  {
    Rank(y.significand, y.exponent) - Rank(x.significand, x.exponent)
  }

  predicate IsPowerOfTwo(x: Double) { x.Normal? && x.significand == SIGNIFICAND }

  /** `x` is the second double below the power of two `y`, in size. */
  predicate SecondBelow(x: Double, y: Double) { x.Normal? && IsPowerOfTwo(y) && Steps(x, y) == 2 }

  predicate Near(x: Double, y: Double) {
    if x.Zero? || y.Zero? then x == y
    else x.negative == y.negative && (-1 <= Steps(x, y) <= 1 || SecondBelow(x, y) || SecondBelow(y, x))
  }

  // ---- Powers and products.

  lemma PowerNext(e: int)
    ensures Power(e + 1) == 2.0 * Power(e)
  {
  }

  lemma PowerAdd(e: int, k: nat)
    ensures Power(e + k) == Power(e) * Power(k)
    decreases k
  {
    if k > 0 {
      PowerAdd(e, k - 1);
      PowerNext(e + k - 1);
    }
  }

  lemma {:induction false} PowerAtLeast(k: nat)
    ensures Power(k) >= 1.0 && (k >= 2 ==> Power(k) >= 4.0)
    decreases k
  {
    if k > 0 { PowerAtLeast(k - 1); }
  }

  lemma CloseScaled(x: real, y: real, s: real)
    requires x >= 0.0 && y >= 0.0 && s > 0.0
    ensures Close(Scaled(s, x), Scaled(s, y)) <==> Close(x, y)
  {
    var larger, d := if x > y then x else y, Abs(x - y);
    ScaledOrder(s, x, y);
    ScaledOrder(s, d, larger * EPSILON);
    assert s * x - s * y == s * (x - y);
    assert Abs(s * x - s * y) == s * d;
    assert (s * larger) * EPSILON == s * (larger * EPSILON);
  }

  lemma ScaledOrder(s: real, x: real, y: real)
    requires s > 0.0
    ensures Scaled(s, x) > Scaled(s, y) <==> x > y
    ensures x >= 0.0 ==> Scaled(s, x) >= 0.0
    ensures y >= 0.0 ==> Scaled(s, y) >= 0.0
  {
    if x > y { assert s * (x - y) > 0.0; } else { assert s * (y - x) >= 0.0; }
  }

  // ---- The binades of the two sizes: the same, the next, or further apart.

  lemma CloseInBinade(m: int, n: int, y: real)
    requires IsSignificand(m) && IsSignificand(n) && y == n as real
    ensures Close(m as real, y) <==> -1 <= m - n <= 1
  {
    var larger := if m > n then m else n;
    assert m as real - y == (m - n) as real;
    assert 1.0 <= larger as real * EPSILON < 2.0;
  }

  lemma CloseNextBinade(m: int, n: int, y: real)
    requires IsSignificand(m) && IsSignificand(n) && y == 2.0 * n as real
    ensures Close(m as real, y) <==> 2 * n - m <= 2 && n == SIGNIFICAND
  {
    var d := 2 * n - m;
    assert y - m as real == d as real;
    var bound := y * EPSILON;
    assert bound == 2.0 + 2.0 * (n - SIGNIFICAND) as real * EPSILON;
    if n > SIGNIFICAND {
      assert d >= 2 * (n - SIGNIFICAND) + 1;
      assert 2.0 * (n - SIGNIFICAND) as real * EPSILON < (2 * (n - SIGNIFICAND) - 1) as real;
    }
  }

  lemma CloseFar(m: int, n: int, y: real)
    requires IsSignificand(m) && IsSignificand(n) && y >= 4.0 * n as real
    ensures !Close(m as real, y)
  {
    assert y - m as real > y / 2.0 && y * EPSILON < y / 2.0;
  }

  /** The second size in terms of the binade of the first. */
  lemma InOneBinade(m: int, e: int, n: int, k: nat) returns (y: real)
    requires IsSignificand(m) && IsSignificand(n)
    ensures Size(m, e) == Scaled(Power(e), m as real) && Size(n, e + k) == Scaled(Power(e), y)
    ensures var r := Rank(n, e + k) - Rank(m, e);
      if k == 0 then y == n as real && r == n - m
      else if k == 1 then y == 2.0 * n as real && r == SIGNIFICAND + n - m
      else y >= 4.0 * n as real && r >= 2 * SIGNIFICAND + n - m
  {
    hide Power;
    PowerAdd(e, k);
    PowerAtLeast(k);
    SmallPowers();
    y := Power(k) * n as real;
    assert Power(e) * Power(k) * n as real == Power(e) * y;
    if k >= 2 { ScaledOrder(n as real, Power(k), 4.0); }
  }

  /** Two positive normal doubles, the second in the same or a later binade. */
  lemma CloseSizes(m: int, e: int, n: int, k: nat)
    requires IsSignificand(m) && IsSignificand(n)
    ensures var r := Rank(n, e + k) - Rank(m, e);
      Close(Size(m, e), Size(n, e + k)) <==> -1 <= r <= 1 || (r == 2 && n == SIGNIFICAND)
  {
    hide Close, Power, Size, Rank, Scaled;
    var y := InOneBinade(m, e, n, k);
    CloseScaled(m as real, y, Power(e));
    if k == 0 {
      CloseInBinade(m, n, y);
    } else if k == 1 {
      CloseNextBinade(m, n, y);
    } else {
      CloseFar(m, n, y);
    }
  }

  lemma SmallPowers()
    ensures Power(0) == 1.0 && Power(1) == 2.0
  {
  }

  lemma CloseSigns(x: real, y: real)
    ensures Close(x, y) == Close(y, x) == Close(-x, -y)
    ensures Close(x, x) && (x > 0.0 >= y ==> !Close(x, y))
  {
    if x > 0.0 >= y {
      assert x * EPSILON < x && -y * EPSILON <= -y;
    }
  }

  lemma SizePositive(m: int, e: int)
    requires IsSignificand(m)
    ensures Size(m, e) > 0.0
  {
    ScaledOrder(Power(e), m as real, 0.0);
  }

  // ---- Results.

  /**
   * Two doubles compare equal exactly when they are the same, neighbours, or a power of
   * two and the second double below it in size.
   */
  lemma CloseDoubles(x: Double, y: Double)
    requires IsDouble(x) && IsDouble(y)
    ensures Close(RealOf(x), RealOf(y)) <==> Near(x, y)
  {
    hide Close, Size;
    if x.Normal? { SizePositive(x.significand, x.exponent); }
    if y.Normal? { SizePositive(y.significand, y.exponent); }
    CloseSigns(RealOf(x), RealOf(y));
    CloseSigns(RealOf(y), RealOf(x));
    CloseSigns(-RealOf(x), -RealOf(y));
    CloseSigns(-RealOf(y), -RealOf(x));
    if x.Normal? && y.Normal? {
      if x.exponent <= y.exponent {
        CloseSizes(x.significand, x.exponent, y.significand, y.exponent - x.exponent);
      } else {
        CloseSizes(y.significand, y.exponent, x.significand, x.exponent - y.exponent);
      }
    }
  }

  /** The numbering follows the values. */
  lemma RankOrders(m: int, e: int, n: int, f: int)
    requires IsSignificand(m) && IsSignificand(n)
    ensures Size(m, e) < Size(n, f) <==> Rank(m, e) < Rank(n, f)
    ensures Rank(m, e) == Rank(n, f) <==> m == n && e == f
  {
    if e <= f { RankOrdered(m, e, n, f - e); } else { RankOrdered(n, f, m, e - f); }
  }

  lemma RankOrdered(m: int, e: int, n: int, k: nat)
    requires IsSignificand(m) && IsSignificand(n)
    ensures Size(m, e) < Size(n, e + k) <==> Rank(m, e) < Rank(n, e + k)
    ensures Size(n, e + k) < Size(m, e) <==> Rank(n, e + k) < Rank(m, e)
    ensures Rank(m, e) == Rank(n, e + k) <==> m == n && k == 0
  {
    hide Power, Size, Rank, Scaled;
    var y := InOneBinade(m, e, n, k);
    ScaledOrder(Power(e), m as real, y);
    ScaledOrder(Power(e), y, m as real);
  }

  /** `y` stands strictly between `x` and `z`. */
  predicate StrictlyBetween(x: Double, y: Double, z: Double) {
    RealOf(x) < RealOf(y) < RealOf(z) || RealOf(z) < RealOf(y) < RealOf(x)
  }

  /**
   * Any three doubles of which `y` compares equal to both others: these do so too unless
   * `y` stands strictly between them, and even then if they are a power of two and the
   * second double below it.
   */
  lemma TransitiveExactly(x: Double, y: Double, z: Double)
    requires IsDouble(x) && IsDouble(y) && IsDouble(z)
    requires Close(RealOf(x), RealOf(y)) && Close(RealOf(y), RealOf(z))
    ensures Close(RealOf(x), RealOf(z)) <==> !StrictlyBetween(x, y, z) || SecondBelow(x, z) || SecondBelow(z, x)
  {
    hide Close, Size, Rank;
    CloseDoubles(x, y);
    CloseDoubles(y, z);
    CloseDoubles(x, z);
    if x.Normal? && y.Normal? && z.Normal? {
      RankOrders(x.significand, x.exponent, y.significand, y.exponent);
      RankOrders(y.significand, y.exponent, x.significand, x.exponent);
      RankOrders(y.significand, y.exponent, z.significand, z.exponent);
      RankOrders(z.significand, z.exponent, y.significand, y.exponent);
    }
  }

  /** 1 - DBL_EPSILON / 2 * `k` for the doubles below 1, and 1 + DBL_EPSILON * `k` from there on. */
  function BelowOne(k: int): Double { Normal(false, 2 * SIGNIFICAND - k, -53) }
  function FromOne(k: int): Double { Normal(false, SIGNIFICAND + k, -52) }

  lemma AroundOne(k: nat)
    requires k < SIGNIFICAND
    ensures IsDouble(FromOne(k)) && RealOf(FromOne(k)) == 1.0 + k as real * EPSILON
    ensures k > 0 ==> IsDouble(BelowOne(k)) && RealOf(BelowOne(k)) == 1.0 - k as real * EPSILON / 2.0
  {
    SmallestPowers();
    assert (SIGNIFICAND + k) as real * EPSILON == 1.0 + k as real * EPSILON;
  }

  lemma SmallestPowers()
    ensures Power(-52) == EPSILON && Power(-53) == EPSILON / 2.0
  {
    hide Power;
    ThirteenTwos();
    SmallPowers();
    PowerAdd(-13, 13);
    PowerAdd(-26, 13);
    PowerAdd(-39, 13);
    PowerAdd(-52, 13);
    assert Power(-13) == 1.0 / 8192.0;
    assert Power(-26) == 1.0 / 67108864.0;
    assert Power(-39) == 1.0 / 549755813888.0;
    PowerNext(-53);
  }

  lemma ThirteenTwos()
    ensures Power(13) == 8192.0
  {
    assert Power(5) == 32.0;
    assert Power(10) == 32.0 * Power(5) by { PowerAdd(5, 5); }
    assert Power(13) == 8.0 * Power(10);
  }

  /** The tolerance adds up above 1 and across it, but not from 1 - DBL_EPSILON to 1. */
  lemma ToleranceAccumulates()
    ensures var x, y, z := 1.0, 1.0 + EPSILON, 1.0 + 2.0 * EPSILON;
      Close(x, y) && Close(y, z) && !Close(x, z)
    ensures var x, y, z := 1.0 - EPSILON, 1.0, 1.0 + EPSILON;
      Close(x, y) && Close(y, z) && !Close(x, z)
    ensures var x, y, z := 1.0 - EPSILON, 1.0 - EPSILON / 2.0, 1.0;
      Close(x, y) && Close(y, z) && Close(x, z)
  {
    hide Close, RealOf;
    AroundOne(0);
    AroundOne(1);
    AroundOne(2);
    CloseDoubles(FromOne(0), FromOne(1));
    CloseDoubles(FromOne(1), FromOne(2));
    CloseDoubles(FromOne(0), FromOne(2));
    CloseDoubles(BelowOne(2), FromOne(0));
    CloseDoubles(BelowOne(2), FromOne(1));
    CloseDoubles(BelowOne(2), BelowOne(1));
    CloseDoubles(BelowOne(1), FromOne(0));
  }
}
