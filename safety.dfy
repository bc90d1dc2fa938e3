/**
 * The safety oracle of the robot grid: a cell (x, y) is safe when both
 * coordinates lie in [MIN, MAX] and the decimal digits of |x * y| add up
 * to less than Threshold.
 */
module Safety {

  const MIN: int := -999
  const MAX: int := 999
  /** A digit sum must stay strictly below this value. */
  const Threshold: int := 19

  function Abs(n: int): (r: nat)
    ensures r == n || r == -n
  {
    if n < 0 then -n else n
  }

  predicate InBounds(x: int, y: int) {
    MIN <= x <= MAX && MIN <= y <= MAX
  }

  /** Sum of the decimal digits of n; the digit sum of 0 is 0. */
  function DigitSum(n: nat): nat {
    if n < 10 then n else DigitSum(n / 10) + n % 10
  }

  /** The safety rule, the specification of IsSafe. */
  predicate Safe(x: int, y: int) {
    InBounds(x, y) && DigitSum(Abs(x * y)) < Threshold
  }

  function DigitChar(d: nat): (c: char)
    requires d < 10
    ensures '0' <= c <= '9' && c as int - '0' as int == d
  {
    ('0' as int + d) as char
  }

  /** The decimal rendering of a natural number, most significant digit first, without leading zeros. */
  function Decimal(n: nat): (s: string)
    ensures 0 < |s|
    ensures forall i :: 0 <= i < |s| ==> '0' <= s[i] <= '9'
    ensures s[0] == '0' <==> n == 0
  {
    if n < 10 then [DigitChar(n)] else Decimal(n / 10) + [DigitChar(n % 10)]
  }

  /** The sum of `c - '0'` over the characters of s, the accumulation the safety loop performs. */
  function CharDigitSum(s: string): int {
    if s == [] then 0 else CharDigitSum(s[..|s| - 1]) + (s[|s| - 1] as int - '0' as int)
  }

  /** Adding up the characters of the decimal rendering gives the digit sum. */
  lemma {:induction false} DecimalDigitSum(n: nat)
    ensures CharDigitSum(Decimal(n)) == DigitSum(n)
  {
    if n >= 10 {
      DecimalDigitSum(n / 10);
      var s := Decimal(n);
      assert s[..|s| - 1] == Decimal(n / 10);
    }
  }

  /** |x * y| is |x| * |y|. */
  lemma AbsProduct(x: int, y: int)
    ensures Abs(x * y) == Abs(x) * Abs(y)
  {
    if x < 0 && y < 0 {
      assert x * y == (-x) * (-y);
    } else if x < 0 {
      assert x * y == -((-x) * y);
    } else if y < 0 {
      assert x * y == -(x * (-y));
    }
  }

  lemma ProductBound(a: nat, b: nat)
    requires a <= 999 && b <= 999
    ensures a * b <= 998001
  {
    assert a * b <= 999 * b by { assert (999 - a) * b >= 0; }
  }

  /** Inside the bounds the product has magnitude at most 999 * 999, so a 32-bit product cannot overflow. */
  lemma ProductFitsInt32(x: int, y: int)
    requires InBounds(x, y)
    ensures Abs(x * y) <= 998001
    ensures -0x8000_0000 <= x * y < 0x8000_0000
  {
    AbsProduct(x, y);
    ProductBound(Abs(x), Abs(y));
  }

  /** A cell outside the bounds is never safe, whatever its digit sum. */
  lemma OutOfBoundsUnsafe(x: int, y: int)
    requires x < MIN || MAX < x || y < MIN || MAX < y
    ensures !Safe(x, y)
  {
  }

  /** A cell on either axis is safe whenever it is in bounds: its product is 0. */
  lemma AxisSafe(x: int, y: int)
    requires InBounds(x, y)
    requires x == 0 || y == 0
    ensures Safe(x, y)
  {
  }

  /** Only |x * y| matters: swapping or negating coordinates keeps safety. */
  lemma SafeSymmetric(x: int, y: int)
    ensures Safe(x, y) == Safe(y, x)
    ensures Safe(x, y) == Safe(-x, y)
    ensures Safe(x, y) == Safe(x, -y)
    ensures Safe(x, y) == Safe(-x, -y)
  {
    assert Abs(x * y) == Abs(y * x);
    assert Abs((-x) * y) == Abs(x * y) by { assert (-x) * y == -(x * y); }
    assert Abs(x * (-y)) == Abs(x * y) by { assert x * (-y) == -(x * y); }
    assert (-x) * (-y) == x * y;
  }

  /** The concrete cells the RobotGrid tests expect to be safe. */
  lemma SafeExamples()
    ensures Safe(0, 0) && Safe(3, 4) && Safe(99, 99) && Safe(100, 100)
    ensures Safe(-3, 6) && Safe(0, 999)
  {
    assert DigitSum(98) == 17;
    assert DigitSum(980) == 17;
    assert DigitSum(9801) == 18;
    assert DigitSum(1000) == 1;
    assert DigitSum(10000) == 1;
  }

  /** The concrete cells the RobotGrid tests expect to be unsafe, or use as unsafe journey ends. */
  lemma UnsafeExamples()
    ensures !Safe(123, 456) && !Safe(999, 999) && !Safe(-999, -999)
    ensures !Safe(1000, 0) && !Safe(0, -1000)
  {
    assert DigitSum(560) == 11;
    assert DigitSum(5608) == 19;
    assert DigitSum(56088) == 27;
    assert DigitSum(998) == 26;
    assert DigitSum(9980) == 26;
    assert DigitSum(99800) == 26;
    assert DigitSum(998001) == 27;
  }

  /**
   * The safety check as RobotGrid.isSafe performs it: reject out-of-bounds cells,
   * then add up the characters of the decimal rendering of |x * y|.
   */
  method IsSafe(x: int, y: int) returns (safe: bool)
    ensures safe == Safe(x, y)
    ensures safe ==> InBounds(x, y)
  {
    if x < MIN || x > MAX || y < MIN || y > MAX {
      return false;
    }
    var product := x * y;
    ProductFitsInt32(x, y);
    var digits := Decimal(Abs(product));
    var sum := 0;
    for i := 0 to |digits|
      invariant sum == CharDigitSum(digits[..i])
    {
      assert digits[..i + 1][..i] == digits[..i];
      sum := sum + (digits[i] as int - '0' as int);
    }
    assert digits[..|digits|] == digits;
    DecimalDigitSum(Abs(product));
    return sum < Threshold;
  }
}
