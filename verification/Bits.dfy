/** Machine words as natural numbers, together with the bitwise operators of C on them.
    A word of any width is the number it stands for, so a shift is a multiplication or a
    division by a power of two, and the bitwise operators are defined from the lowest bit up. */
module Bits {

  type u8 = x: int | 0 <= x < 0x100
  type u16 = x: int | 0 <= x < 0x1_0000
  type u32 = x: int | 0 <= x < 0x1_0000_0000
  type u64 = x: int | 0 <= x < 0x1_0000_0000_0000_0000

  function Pow2(n: nat): (p: nat)
    ensures p >= 1
  {
    if n == 0 then 1 else 2 * Pow2(n - 1)
  }

  /** Is bit i of w set? */
  predicate Bit(w: nat, i: nat)
    decreases i
  {
    if i == 0 then w % 2 == 1 else Bit(w / 2, i - 1)
  }

  function And(a: nat, b: nat): (r: nat)
    ensures r <= a && r <= b
    decreases a
  {
    if a == 0 then 0
    else 2 * And(a / 2, b / 2) + (if a % 2 == 1 && b % 2 == 1 then 1 else 0)
  }

  function Or(a: nat, b: nat): (r: nat)
    ensures a <= r && b <= r <= a + b
    decreases a + b
  {
    if a == 0 && b == 0 then 0
    else 2 * Or(a / 2, b / 2) + (if a % 2 == 1 || b % 2 == 1 then 1 else 0)
  }

  function Xor(a: nat, b: nat): (r: nat)
    ensures r <= a + b
    decreases a + b
  {
    if a == 0 && b == 0 then 0
    else 2 * Xor(a / 2, b / 2) + (if a % 2 != b % 2 then 1 else 0)
  }

  /** Left shift without loss of high bits. */
  function Shl(w: nat, k: nat): nat
  {
    if k == 0 then w else 2 * Shl(w, k - 1)
  }

  /** Right shift. */
  function Shr(w: nat, k: nat): (r: nat)
    ensures r <= w
    decreases k
  {
    if k == 0 then w else Shr(w / 2, k - 1)
  }

  /** The low n bits. */
  function Low(w: nat, n: nat): (r: nat)
    ensures r <= w && r < Pow2(n)
    decreases n
  {
    if n == 0 then 0 else 2 * Low(w / 2, n - 1) + w % 2
  }

  /** Left shift in a 32-bit word: the high bits are lost. */
  function Shl32(w: u32, k: nat): u32
  {
    Pow2Values();
    Low(Shl(w, k), 32)
  }

  /** The number of one bits. */
  function PopCount(w: nat): (c: nat)
    ensures c <= w
    ensures c == 0 <==> w == 0
  {
    if w == 0 then 0 else w % 2 + PopCount(w / 2)
  }

  // ---------------------------------------------------------------- powers of two

  lemma {:induction false} Pow2Add(a: nat, b: nat)
    ensures Pow2(a + b) == Pow2(a) * Pow2(b)
  {
    if a > 0 { Pow2Add(a - 1, b); }
  }

  lemma {:induction false} Pow2Mono(a: nat, b: nat)
    requires a <= b
    ensures Pow2(a) <= Pow2(b)
    ensures a < b ==> 2 * Pow2(a) <= Pow2(b)
  {
    if a < b { Pow2Mono(a, b - 1); }
  }

  lemma Pow2Values()
    ensures Pow2(5) == 32 && Pow2(8) == 0x100 && Pow2(16) == 0x1_0000 && Pow2(32) == 0x1_0000_0000
  {
    assert Pow2(8) == 0x100;
    Pow2Add(8, 8);
    Pow2Add(16, 16);
  }

  // ---------------------------------------------------------------- single bits

  lemma {:induction false} BitOfZero(i: nat)
    ensures !Bit(0, i)
  {
    if i > 0 { BitOfZero(i - 1); }
  }

  lemma {:induction false} BitOfPow2(k: nat, i: nat)
    ensures Bit(Pow2(k), i) == (i == k)
  {
    if k == 0 {
      if i > 0 { BitOfZero(i - 1); }
    } else if i > 0 {
      BitOfPow2(k - 1, i - 1);
    }
  }

  /** A word below 2^n has no bit at or above n. */
  lemma {:induction false} BitAbove(w: nat, n: nat, i: nat)
    requires w < Pow2(n) && n <= i
    ensures !Bit(w, i)
    decreases i
  {
    if n == 0 { BitOfZero(i); } else { BitAbove(w / 2, n - 1, i - 1); }
  }

  /** A word whose bits at or above n are clear is below 2^n. */
  lemma {:induction false} BoundFromBits(w: nat, n: nat, m: nat)
    requires w < Pow2(m)
    requires forall i: nat | n <= i < m :: !Bit(w, i)
    ensures w < Pow2(n)
    decreases m
  {
    if m <= n {
      Pow2Mono(m, n);
    } else if n == 0 {
      if w > 0 {
        NonzeroHasBit(w, m);
      }
    } else {
      forall i: nat | n - 1 <= i < m - 1 ensures !Bit(w / 2, i) { assert !Bit(w, i + 1); }
      BoundFromBits(w / 2, n - 1, m - 1);
    }
  }

  /** Two words below 2^n with the same n low bits are equal. */
  lemma {:induction false} SameBits(a: nat, b: nat, n: nat)
    requires a < Pow2(n) && b < Pow2(n)
    requires forall i: nat | i < n :: Bit(a, i) == Bit(b, i)
    ensures a == b
  {
    if n > 0 {
      assert Bit(a, 0) == Bit(b, 0);
      forall i: nat | i < n - 1 ensures Bit(a / 2, i) == Bit(b / 2, i) {
        assert Bit(a, i + 1) == Bit(b, i + 1);
      }
      SameBits(a / 2, b / 2, n - 1);
    }
  }

  lemma {:induction false} NonzeroHasBit(w: nat, n: nat)
    requires 0 < w < Pow2(n)
    ensures exists i: nat :: i < n && Bit(w, i)
  {
    if w % 2 == 1 {
      assert Bit(w, 0);
    } else {
      NonzeroHasBit(w / 2, n - 1);
      var i: nat :| i < n - 1 && Bit(w / 2, i);
      assert Bit(w, i + 1);
    }
  }

  // ---------------------------------------------------------------- operators, bit by bit

  lemma {:induction false} AndBit(a: nat, b: nat, i: nat)
    ensures Bit(And(a, b), i) == (Bit(a, i) && Bit(b, i))
    decreases i
  {
    if a == 0 {
      BitOfZero(i);
    } else if i > 0 {
      AndBit(a / 2, b / 2, i - 1);
    }
  }

  lemma {:induction false} OrBit(a: nat, b: nat, i: nat)
    ensures Bit(Or(a, b), i) == (Bit(a, i) || Bit(b, i))
    decreases i
  {
    if a == 0 && b == 0 {
      BitOfZero(i);
    } else if i > 0 {
      OrBit(a / 2, b / 2, i - 1);
    }
  }

  lemma {:induction false} XorBit(a: nat, b: nat, i: nat)
    ensures Bit(Xor(a, b), i) == (Bit(a, i) != Bit(b, i))
    decreases i
  {
    if a == 0 && b == 0 {
      BitOfZero(i);
    } else if i > 0 {
      XorBit(a / 2, b / 2, i - 1);
    }
  }

  /** Exclusive-or with one bit flips that bit and no other. */
  lemma XorOne(w: nat, b: nat)
    ensures forall i: nat :: Bit(Xor(w, Pow2(b)), i) == (Bit(w, i) != (i == b))
  {
    forall i: nat ensures Bit(Xor(w, Pow2(b)), i) == (Bit(w, i) != (i == b)) {
      XorBit(w, Pow2(b), i);
      BitOfPow2(b, i);
    }
  }

  /** Or with one bit sets that bit and no other. */
  lemma OrOne(w: nat, b: nat)
    ensures forall i: nat :: Bit(Or(w, Pow2(b)), i) == (Bit(w, i) || i == b)
  {
    forall i: nat ensures Bit(Or(w, Pow2(b)), i) == (Bit(w, i) || i == b) {
      OrBit(w, Pow2(b), i);
      BitOfPow2(b, i);
    }
  }

  lemma {:induction false} OrBound(a: nat, b: nat, n: nat)
    requires a < Pow2(n) && b < Pow2(n)
    ensures Or(a, b) < Pow2(n)
  {
    if n > 0 { OrBound(a / 2, b / 2, n - 1); }
  }

  lemma {:induction false} XorBound(a: nat, b: nat, n: nat)
    requires a < Pow2(n) && b < Pow2(n)
    ensures Xor(a, b) < Pow2(n)
  {
    if n > 0 { XorBound(a / 2, b / 2, n - 1); }
  }

  /** Complement within n bits: subtraction from the all-ones word. */
  lemma {:induction false} NotBit(w: nat, n: nat, i: nat)
    requires w < Pow2(n) && i < n
    ensures Bit(Pow2(n) - 1 - w, i) == !Bit(w, i)
  {
    NotHalf(w, Pow2(n - 1));
    if i > 0 { NotBit(w / 2, n - 1, i - 1); }
  }

  lemma NotHalf(w: nat, p: nat)
    requires w < 2 * p
    ensures (2 * p - 1 - w) / 2 == p - 1 - w / 2 && (2 * p - 1 - w) % 2 == 1 - w % 2
  {
  }

  /** A left shift moves every bit up by k. */
  lemma {:induction false} ShlBit(w: nat, k: nat, i: nat)
    ensures Bit(Shl(w, k), i) == (k <= i && Bit(w, i - k))
    decreases i
  {
    if k > 0 {
      assert Shl(w, k) / 2 == Shl(w, k - 1) && Shl(w, k) % 2 == 0;
      if i > 0 { ShlBit(w, k - 1, i - 1); }
    }
  }

  /** A right shift moves every bit down by k. */
  lemma {:induction false} ShrBit(w: nat, k: nat, i: nat)
    ensures Bit(Shr(w, k), i) == Bit(w, i + k)
    decreases k
  {
    if k > 0 { ShrBit(w / 2, k - 1, i); }
  }

  /** Truncation keeps exactly the low n bits. */
  lemma {:induction false} LowBit(w: nat, n: nat, i: nat)
    ensures Bit(Low(w, n), i) == (i < n && Bit(w, i))
    decreases n
  {
    if n == 0 {
      BitOfZero(i);
    } else {
      assert Low(w, n) / 2 == Low(w / 2, n - 1) && Low(w, n) % 2 == w % 2;
      if i > 0 { LowBit(w / 2, n - 1, i - 1); }
    }
  }

  lemma {:induction false} LowOfSmall(w: nat, n: nat)
    requires w < Pow2(n)
    ensures Low(w, n) == w
    decreases n
  {
    if n > 0 { LowOfSmall(w / 2, n - 1); }
  }

  lemma {:induction false} AndSelf(w: nat)
    ensures And(w, w) == w
  {
    if w > 0 { AndSelf(w / 2); }
  }

  lemma Shl32Bit(w: u32, k: nat, i: nat)
    ensures Bit(Shl32(w, k), i) == (k <= i < 32 && Bit(w, i - k))
  {
    hide Bit, Low, Shl;
    LowBit(Shl(w, k), 32, i);
    ShlBit(w, k, i);
  }

  lemma {:induction false} ShrStep(w: nat, k: nat)
    ensures Shr(w, k + 1) == Shr(w, k) / 2
    decreases k
  {
    if k > 0 { ShrStep(w / 2, k - 1); }
  }

  lemma {:induction false} ShrIsZero(w: nat, k: nat)
    ensures Shr(w, k) == 0 <==> w < Pow2(k)
    decreases k
  {
    if k > 0 { ShrIsZero(w / 2, k - 1); }
  }

  lemma {:induction false} ShlZero(k: nat)
    ensures Shl(0, k) == 0
  {
    if k > 0 { ShlZero(k - 1); }
  }

  lemma {:induction false} ShlOne(k: nat)
    ensures Shl(1, k) == Pow2(k)
  {
    if k > 0 { ShlOne(k - 1); }
  }

  lemma {:induction false} ShlBound(w: nat, k: nat, n: nat)
    requires w < Pow2(n)
    ensures Shl(w, k) < Pow2(n + k)
  {
    if k > 0 { ShlBound(w, k - 1, n); }
  }

  /** The bits of 2^n - 1 are exactly the low n. */
  lemma {:induction false} OnesBit(n: nat, i: nat)
    ensures Bit(Pow2(n) - 1, i) == (i < n)
  {
    if i < n {
      BitOfZero(i);
      NotBit(0, n, i);
    } else {
      BitAbove(Pow2(n) - 1, n, i);
    }
  }

  /** A low part and a shifted high part side by side. */
  lemma JoinBit(lo: nat, hi: nat, n: nat, i: nat)
    requires lo < Pow2(n)
    ensures Bit(lo + Shl(hi, n), i) == if i < n then Bit(lo, i) else Bit(hi, i - n)
  {
    OrIsAdd(hi, n, lo);
    hide Bit, Or, Shl, Pow2;
    OrBit(Shl(hi, n), lo, i);
    ShlBit(hi, n, i);
    if i >= n { BitAbove(lo, n, i); }
  }

  lemma ShrNone(w: nat)
    ensures Shr(w, 0) == w
  {
  }

  lemma {:induction false} ShrShr(w: nat, a: nat, b: nat)
    ensures Shr(Shr(w, a), b) == Shr(w, a + b)
    decreases a
  {
    if a > 0 { ShrShr(w / 2, a - 1, b); }
  }

  // ---------------------------------------------------------------- shifts as arithmetic

  lemma {:induction false} ShlIsMul(w: nat, k: nat)
    ensures Shl(w, k) == w * Pow2(k)
  {
    if k > 0 { ShlIsMul(w, k - 1); }
  }

  lemma {:induction false} ShrIsDiv(w: nat, k: nat)
    ensures Shr(w, k) == w / Pow2(k)
    decreases k
  {
    if k > 0 {
      ShrIsDiv(w / 2, k - 1);
      DivDiv(w, Pow2(k - 1));
    }
  }

  lemma {:induction false} LowIsMod(w: nat, n: nat)
    ensures Low(w, n) == w % Pow2(n)
    decreases n
  {
    if n > 0 {
      LowIsMod(w / 2, n - 1);
      DivDiv(w, Pow2(n - 1));
    }
  }

  /** Dividing by two first, and then by p. */
  lemma DivDiv(w: nat, p: nat)
    requires p > 0
    ensures w / 2 / p == w / (2 * p) && w % (2 * p) == 2 * (w / 2 % p) + w % 2
  {
    var h, b := w / 2, w % 2;
    var q, r := h / p, h % p;
    TwiceMul(q, p);
    DivUnique(w, 2 * p, q, 2 * r + b);
  }

  lemma TwiceMul(q: int, p: int)
    ensures q * (2 * p) == 2 * (q * p)
  {
  }

  lemma MulMono(a: int, b: int, d: int)
    requires a <= b && d >= 0
    ensures a * d <= b * d
  {
    assert (b - a) * d >= 0;
  }

  /** The quotient and the remainder of a division are determined by their defining equation. */
  lemma DivUnique(w: int, d: int, q: int, r: int)
    requires d > 0 && w == q * d + r && 0 <= r < d
    ensures w / d == q && w % d == r
  {
    var q' := w / d;
    assert q' * d <= w < q' * d + d;
    if q < q' {
      MulMono(q + 1, q', d);
    } else if q' < q {
      MulMono(q' + 1, q, d);
    }
  }

  /** Or-ing a value below 2^k into a word shifted by k is addition: the fields do not overlap. */
  lemma {:induction false} OrIsAdd(a: nat, k: nat, b: nat)
    requires b < Pow2(k)
    ensures Or(Shl(a, k), b) == Shl(a, k) + b
    decreases k
  {
    if k == 0 {
      OrZero(a);
    } else {
      var h := Shl(a, k - 1);
      OrIsAdd(a, k - 1, b / 2);
      assert (2 * h) / 2 == h && (2 * h) % 2 == 0;
      assert Or(2 * h, b) == 2 * Or(h, b / 2) + b % 2;
    }
  }

  lemma {:induction false} OrZero(a: nat)
    ensures Or(a, 0) == a
  {
    if a > 0 { OrZero(a / 2); }
  }

  // ---------------------------------------------------------------- population count

  lemma {:induction false} PopClear(w: nat, i: nat)
    requires Bit(w, i)
    ensures PopCount(Xor(w, Pow2(i))) == PopCount(w) - 1
    decreases i
  {
    hide Xor, PopCount;
    PopShift(w / 2, w % 2);
    if i == 0 {
      XorLow(w);
      PopShift(w / 2, 0);
    } else {
      PopClear(w / 2, i - 1);
      XorDouble(w, Pow2(i - 1));
      PopShift(Xor(w / 2, Pow2(i - 1)), w % 2);
    }
  }

  lemma {:induction false} PopSet(w: nat, i: nat)
    requires !Bit(w, i)
    ensures PopCount(Or(w, Pow2(i))) == PopCount(w) + 1
    decreases i
  {
    hide Or, PopCount;
    PopShift(w / 2, w % 2);
    if i == 0 {
      OrLow(w);
      PopShift(w / 2, 1);
    } else {
      PopSet(w / 2, i - 1);
      OrDouble(w, Pow2(i - 1));
      PopShift(Or(w / 2, Pow2(i - 1)), w % 2);
    }
  }

  lemma XorLow(w: nat)
    ensures Xor(w, 1) == 2 * (w / 2) + (1 - w % 2)
  {
    XorZero(w / 2);
  }

  lemma OrLow(w: nat)
    ensures Or(w, 1) == 2 * (w / 2) + 1
  {
    OrZero(w / 2);
  }

  lemma XorDouble(w: nat, p: nat)
    requires p > 0
    ensures Xor(w, 2 * p) == 2 * Xor(w / 2, p) + w % 2
  {
    assert 2 * p / 2 == p && 2 * p % 2 == 0;
  }

  lemma OrDouble(w: nat, p: nat)
    requires p > 0
    ensures Or(w, 2 * p) == 2 * Or(w / 2, p) + w % 2
  {
    assert 2 * p / 2 == p && 2 * p % 2 == 0;
  }

  lemma PopShift(h: nat, b: nat)
    requires b < 2
    ensures PopCount(2 * h + b) == PopCount(h) + b
  {
    assert (2 * h + b) / 2 == h && (2 * h + b) % 2 == b;
  }

  lemma {:induction false} XorZero(a: nat)
    ensures Xor(a, 0) == a
  {
    if a > 0 { XorZero(a / 2); }
  }

  lemma {:induction false} PopBound(w: nat, n: nat)
    requires w < Pow2(n)
    ensures PopCount(w) <= n
  {
    if n > 0 && w > 0 { PopBound(w / 2, n - 1); }
  }
}
