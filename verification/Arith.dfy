/** Division by constants through a truncated reciprocal, and the integer square root
    (bcmutils.c: div_1K, div_1M, sqrt_int). */
module Arith {
  import opened Bits

  const TWO32 := 0x1_0000_0000
  const TWO64 := 0x1_0000_0000_0000_0000
  const TWO41 := 0x200_0000_0000
  const TWO51 := 0x8_0000_0000_0000

  /** By how much the rounded-up reciprocals overshoot: 1000 times the scaled product exceeds
      2^41 times the dividend by exactly this, and likewise for one million and 2^51. */
  function Excess1K(q: u64): nat { (q / TWO32) * 608 + (q % TWO32) * 448 }
  function Excess1M(q: u64): nat { (q / TWO32) * 350592 + (q % TWO32) * 314752 }

  /** Does the excess stay in front of the next multiple of the divisor? */
  predicate Exact1K(q: u64) { (q % 1000) * TWO41 + Excess1K(q) < 1000 * TWO41 }
  predicate Exact1M(q: u64) { (q % 1000000) * TWO51 + Excess1M(q) < 1000000 * TWO51 }

  /** div_1K: the quotient by 1000, or one more; the second exactly when the excess carries the
      remainder over the divisor. */
  method Div1K(q: u64) returns (a: u64)
    ensures a == q / 1000 || a == q / 1000 + 1
    ensures a == q / 1000 <==> Exact1K(q)
    ensures q < 0x1000_0000_0000_0000 ==> a == q / 1000
  {
    hide Exact1K;
    var d1: u64, d2: u64 := 0x8312_6E97, 0x8D4F_DF3B;
    var lo, hi := q % TWO32, q / TWO32;
    var a1: u64 := lo * (d1 + 1);
    var a2: u64 := hi * (d2 + 1);
    CarryIsExact(a2, a1);
    a := (a2 + a1) % TWO64;
    var carry := a < a1;
    var aLow := a / TWO32;
    a := hi * d1 + aLow;
    if carry {
      a := a + TWO32;
    }
    assert a == hi * d1 + (a2 + a1) / TWO32;
    a := a / 512;
    Reciprocal1K(q, hi, lo, a);
  }

  /** div_1M: the same for one million. */
  method Div1M(q: u64) returns (a: u64)
    ensures a == q / 1000000 || a == q / 1000000 + 1
    ensures a == q / 1000000 <==> Exact1M(q)
    ensures q < 0x8000_0000_0000_0000 ==> a == q / 1000000
  {
    hide Exact1M;
    var d1: u64, d2: u64 := 0x8637_BD05, 0xAF6C_69B5;
    var lo, hi := q % TWO32, q / TWO32;
    var a1: u64 := lo * (d1 + 1);
    var a2: u64 := hi * (d2 + 1);
    CarryIsExact(a2, a1);
    a := (a2 + a1) % TWO64;
    var carry := a < a1;
    var aLow := a / TWO32;
    a := hi * d1 + aLow;
    if carry {
      a := a + TWO32;
    }
    assert a == hi * d1 + (a2 + a1) / TWO32;
    a := a / 0x8_0000;
    Reciprocal1M(q, hi, lo, a);
  }

  lemma Reciprocal1K(q: u64, hi: nat, lo: nat, a: nat)
    requires q == hi * TWO32 + lo && lo < TWO32 && hi < TWO32
    requires a == (hi * 0x8312_6E97 + (hi * 0x8D4F_DF3C + lo * 0x8312_6E98) / TWO32) / 512
    ensures
      && (a == q / 1000 || a == q / 1000 + 1)
      && (a == q / 1000 <==> Exact1K(q))
      && (q < 0x1000_0000_0000_0000 ==> a == q / 1000)
  {
    var x, y := hi * 0x8312_6E97, hi * 0x8D4F_DF3C + lo * 0x8312_6E98;
    Scaled(x, y, 512);
    assert q / TWO32 == hi && q % TWO32 == lo;
    assert 1000 * (x * TWO32 + y) == TWO41 * q + Excess1K(q);
    Overshoot(q, 1000, TWO41, Excess1K(q), x * TWO32 + y);
  }

  lemma Reciprocal1M(q: u64, hi: nat, lo: nat, a: nat)
    requires q == hi * TWO32 + lo && lo < TWO32 && hi < TWO32
    requires a == (hi * 0x8637_BD05 + (hi * 0xAF6C_69B6 + lo * 0x8637_BD06) / TWO32) / 0x8_0000
    ensures
      && (a == q / 1000000 || a == q / 1000000 + 1)
      && (a == q / 1000000 <==> Exact1M(q))
      && (q < 0x8000_0000_0000_0000 ==> a == q / 1000000)
  {
    var x, y := hi * 0x8637_BD05, hi * 0xAF6C_69B6 + lo * 0x8637_BD06;
    Scaled(x, y, 0x8_0000);
    assert q / TWO32 == hi && q % TWO32 == lo;
    assert 1000000 * (x * TWO32 + y) == TWO51 * q + Excess1M(q);
    Overshoot(q, 1000000, TWO51, Excess1M(q), x * TWO32 + y);
  }

  /** The comparison after a wrapped 64-bit addition detects exactly the lost 2^64. */
  lemma CarryIsExact(x: u64, y: u64)
    ensures ((x + y) % TWO64 < y) == (x + y >= TWO64)
    ensures (x + y) % TWO64 / TWO32 + (if (x + y) % TWO64 < y then TWO32 else 0) == (x + y) / TWO32
  {
  }

  /** Dropping 32 bits and then s more is dropping both at once. */
  lemma Scaled(x: nat, y: nat, s: nat)
    requires s > 0
    ensures (x + y / TWO32) / s == (x * TWO32 + y) / (s * TWO32)
  {
    var q := (x + y / TWO32) / s;
    var r := (x + y / TWO32) % s;
    assert x + y / TWO32 == q * s + r;
    assert x * TWO32 + y == (q * s + r) * TWO32 + y % TWO32;
    assert (q * s + r) * TWO32 + y % TWO32 == q * (s * TWO32) + (r * TWO32 + y % TWO32);
    MulMono(r + 1, s, TWO32);
    DivUnique(x * TWO32 + y, s * TWO32, q, r * TWO32 + y % TWO32);
  }

  /** A scaled product n with d*n == k*q + e and e < d*k divides down to q/d, or to one more. */
  lemma Overshoot(q: nat, d: nat, k: nat, e: nat, n: nat)
    requires d > 0 && k > 0 && d * n == k * q + e && e < d * k
    ensures n / k == q / d || n / k == q / d + 1
    ensures n / k == q / d <==> (q % d) * k + e < d * k
    ensures e < k ==> n / k == q / d
  {
    var u, r := q / d, q % d;
    Remaining(q, d, k, e, n, u, r);
    Remaining(q, d, k, e - d * k, n - k, u, r);
    RestBound(r, d, k);
    if r * k + e < d * k { Within(n, d, k, u); } else { Within(n - k, d, k, u); }
  }

  /** What is left of n behind u units. */
  lemma Remaining(q: nat, d: nat, k: nat, e: int, n: int, u: nat, r: nat)
    requires d * n == k * q + e && q == u * d + r
    ensures d * (n - u * k) == r * k + e
  {
    assert k * q == k * (u * d) + k * r;
    assert d * (n - u * k) == d * n - d * (u * k);
    assert k * (u * d) == d * (u * k);
  }

  lemma RestBound(r: nat, d: nat, k: nat)
    requires r < d
    ensures r * k + k <= d * k
  {
    MulMono(r + 1, d, k);
  }

  lemma Within(n: int, d: nat, k: nat, u: nat)
    requires d > 0 && k > 0 && 0 <= d * (n - u * k) < d * k
    ensures n / k == u && (n + k) / k == u + 1
  {
    Between(d, n - u * k, 0, k);
    DivUnique(n, k, u, n - u * k);
    DivUnique(n + k, k, u + 1, n - u * k);
  }

  lemma Between(d: nat, m: int, lo: nat, hi: nat)
    requires d > 0 && d * lo <= d * m < d * hi
    ensures lo <= m < hi
  {
    if m < lo { MulMono(m + 1, lo, d); }
    if hi <= m { MulMono(hi, m, d); }
  }

  /** The bound 2^60 for div_1K is not far from the truth: below 2^61 it is already wrong. */
  method Div1KFails() returns (q: u64, a: u64)
    ensures q < 0x2000_0000_0000_0000 && a != q / 1000
  {
    q := 1941762651621162999;
    a := Div1K(q);
  }

  /** And div_1M is wrong somewhere below 2^64. */
  method Div1MFails() returns (q: u64, a: u64)
    ensures a != q / 1000000
  {
    q := 11024948334618999999;
    a := Div1M(q);
  }

  // ---------------------------------------------------------------- square root

  /** x times 4^k. */
  function Scale(x: nat, k: nat): (s: nat)
    ensures x > 0 ==> s > 0
  {
    if k == 0 then x else 4 * Scale(x, k - 1)
  }

  lemma {:induction false} ScaleAdd(a: nat, b: nat, k: nat)
    ensures Scale(a + b, k) == Scale(a, k) + Scale(b, k)
  {
    if k > 0 { ScaleAdd(a, b, k - 1); }
  }

  lemma {:induction false} ScaleQuad(x: nat, k: nat)
    requires k >= 1
    ensures Scale(4 * x, k - 1) == Scale(x, k)
  {
    if k > 1 { ScaleQuad(x, k - 1); }
  }

  /** Or-ing a unit to an even multiple of it is addition. */
  lemma {:induction false} OrUnit(e: nat, k: nat)
    requires e % 2 == 0
    ensures Or(Scale(e, k), Scale(1, k)) == Scale(e + 1, k)
  {
    hide Or;
    if k == 0 {
      OrLow(e);
    } else {
      OrUnit(e, k - 1);
      var x, p := Scale(e, k - 1), Scale(1, k - 1);
      OrDouble(4 * x, 2 * p);
      OrDouble(2 * x, p);
    }
  }

  /** Half-way through, with k of the 16 digits to go: r is the root of the leading digits, root is
      r scaled, and rest is what the scaled square leaves of the value. */
  ghost predicate Digits(value: nat, r: nat, k: nat, root: nat, rest: nat)
  {
    && root == Scale(r, k) && rest + Scale(r * r, k) == value
    && rest < Scale(2 * r + 1, k)
    && Scale(r + 1, k) <= 0x1_0000_0000
  }

  /** The scaled quantities of one digit expressed in units of the next. */
  lemma NextUnits(r: nat, k: nat)
    requires k >= 1
    ensures Scale(r, k) == 4 * Scale(r, k - 1) && Scale(1, k) == 4 * Scale(1, k - 1)
    ensures Scale(2 * r + 1, k) == 4 * Scale(2 * r + 1, k - 1) && Scale(r + 1, k) == 4 * Scale(r + 1, k - 1)
  {
  }

  lemma NextSquares(r: nat, k: nat)
    requires k >= 1
    ensures Scale((2 * r) * (2 * r), k - 1) == Scale(r * r, k)
    ensures Scale((2 * r + 1) * (2 * r + 1), k - 1) == Scale(r * r, k) + Scale(r, k) + Scale(1, k - 1)
  {
    assert (2 * r) * (2 * r) == 4 * (r * r);
    assert (2 * r + 1) * (2 * r + 1) == 4 * (r * r) + 4 * r + 1;
    hide Scale;
    ScaleQuad(r * r, k);
    ScaleQuad(r, k);
    ScaleAdd(4 * (r * r), 4 * r, k - 1);
    ScaleAdd(4 * (r * r) + 4 * r, 1, k - 1);
  }

  lemma TakeDigit(value: nat, r: nat, k: nat, root: nat, rest: nat)
    requires k >= 1 && Digits(value, r, k, root, rest) && Scale(1, k - 1) + root <= rest
    ensures Digits(value, 2 * r + 1, k - 1, Or(root / 2, Scale(1, k - 1)), rest - (Scale(1, k - 1) + root))
  {
    hide Scale, Or;
    NextUnits(r, k);
    NextSquares(r, k);
    OrUnit(2 * r, k - 1);
    NewBounds(r, k - 1);
    NewBounds(2 * r, k - 1);
    NewBounds(2 * r + 1, k - 1);
    ghost var square := (2 * r + 1) * (2 * r + 1);
    assert rest - (Scale(1, k - 1) + root) + Scale(square, k - 1) == value;
  }

  lemma SkipDigit(value: nat, r: nat, k: nat, root: nat, rest: nat)
    requires k >= 1 && Digits(value, r, k, root, rest) && rest < Scale(1, k - 1) + root
    ensures Digits(value, 2 * r, k - 1, root / 2, rest)
  {
    hide Scale;
    NextUnits(r, k);
    NextSquares(r, k);
    NewBounds(r, k - 1);
    NewBounds(2 * r, k - 1);
    ghost var square := (2 * r) * (2 * r);
    assert rest + Scale(square, k - 1) == value;
  }

  lemma NewBounds(r: nat, k: nat)
    ensures Scale(r + 1, k) == Scale(r, k) + Scale(1, k)
    ensures Scale(2 * r, k) == 2 * Scale(r, k)
    ensures Scale(2 * r + 1, k) == 2 * Scale(r, k) + Scale(1, k)
  {
    ScaleAdd(r, 1, k);
    ScaleAdd(r, r, k);
    ScaleAdd(2 * r, 1, k);
  }

  lemma RootFits(value: nat, r: nat, k: nat, root: nat, rest: nat)
    requires Digits(value, r, k, root, rest)
    ensures root + Scale(1, k) <= 0x1_0000_0000
  {
    ScaleAdd(r, 1, k);
  }

  /** sqrt_int: the integer nearest to the square root. No square root of an integer lies half-way
      between two integers, so the bounds determine the result. */
  method SqrtInt(value: u32) returns (root: u32)
    ensures (root == 0 && value == 0) || root * root - root < value <= root * root + root
  {
    hide Digits, Scale, Or, Shr;
    var rest: u32 := value;
    root := 0;
    var shift := 0;
    ghost var r: nat, k: nat := 0, 16;
    FirstDigits(value);
    while shift < 32
      invariant shift == 32 - 2 * k && 0 <= k <= 16
      invariant Digits(value, r, k, root, rest)
    {
      var one := Shr(0x4000_0000, shift);
      OneIsScaled(k);
      RootFits(value, r, k, root, rest);
      if one + root <= rest {
        TakeDigit(value, r, k, root, rest);
        RootFits(value, 2 * r + 1, k - 1, Or(root / 2, one), rest - (one + root));
        rest := rest - (one + root);
        root := Or(root / 2, one);
        r := 2 * r + 1;
      } else {
        SkipDigit(value, r, k, root, rest);
        root := root / 2;
        r := 2 * r;
      }
      k := k - 1;
      shift := shift + 2;
    }
    LastDigits(value, r, root, rest);
    Rounding(value, r, rest);
    if root < rest { root := root + 1; }
  }

  lemma FirstDigits(value: u32)
    ensures Digits(value, 0, 16, 0, value)
  {
    ScaleValue();
    ZeroScaled(16);
  }

  lemma {:induction false} ZeroScaled(k: nat)
    ensures Scale(0, k) == 0
  {
    if k > 0 { ZeroScaled(k - 1); }
  }

  lemma LastDigits(value: nat, r: nat, root: nat, rest: nat)
    requires Digits(value, r, 0, root, rest)
    ensures root == r && rest + r * r == value && rest <= 2 * r
  {
  }

  /** Rounding up exactly when the remainder exceeds the root gives the nearest integer. */
  lemma Rounding(value: nat, r: nat, rest: nat)
    requires rest + r * r == value && rest <= 2 * r
    ensures r < rest ==> (r + 1) * (r + 1) - (r + 1) < value <= (r + 1) * (r + 1) + (r + 1)
    ensures r >= rest ==> (r == 0 && value == 0) || r * r - r < value <= r * r + r
  {
    assert (r + 1) * (r + 1) == r * r + 2 * r + 1;
  }

  /** The two bounds leave only one candidate: the contract of SqrtInt determines its result. */
  lemma NearestIsUnique(value: nat, a: nat, b: nat)
    requires (a == 0 && value == 0) || a * a - a < value <= a * a + a
    requires (b == 0 && value == 0) || b * b - b < value <= b * b + b
    ensures a == b
  {
    if a < b {
      assert b * b - b == b * (b - 1) && a * a + a == (a + 1) * a;
      MulMono(a + 1, b, a);
      MulMono(a, b - 1, b);
    } else if b < a {
      NearestIsUnique(value, b, a);
    }
  }

  lemma ScaleValue()
    ensures Scale(1, 16) == 0x1_0000_0000 && Scale(1, 15) == 0x4000_0000
  {
    assert Scale(1, 8) == 0x1_0000;
    assert Scale(1, 12) == 0x100_0000;
  }

  lemma {:induction false} OneIsScaled(k: nat)
    requires 1 <= k <= 16
    ensures Shr(0x4000_0000, 32 - 2 * k) == Scale(1, k - 1)
    decreases 16 - k
  {
    ScaleValue();
    if k < 16 {
      OneIsScaled(k + 1);
      ShrStep(0x4000_0000, 32 - 2 * (k + 1));
      ShrStep(0x4000_0000, 32 - 2 * (k + 1) + 1);
    }
  }
}
