/** Setting, clearing and counting ranges of bits in byte and word arrays (bcmutils.c:
    set_bitrange, clr_bitrange, their word versions, and bcm_count_bits). */
module BitRange {
  import opened Bits

  /** Is bit k inside the range? A range whose end lies before its start wraps around at maxbit. */
  predicate InRange(k: nat, start: nat, end: nat, maxbit: nat)
  {
    if start <= end then start <= k <= end else start <= k <= maxbit || k <= end
  }

  /** Bit k of an array of w-bit words. */
  predicate WordsBit(s: seq<nat>, w: nat, k: nat)
    requires w > 0
  {
    k / w < |s| && Bit(s[k / w], k % w)
  }

  /** The only change is that the bits of the range now have the value `on`. */
  ghost predicate RangeIs(old': seq<nat>, new': seq<nat>, w: nat, start: nat, end: nat, maxbit: nat, on: bool)
    requires w > 0
  {
    && |new'| == |old'|
    && forall k: nat ::
      WordsBit(new', w, k) == (if InRange(k, start, end, maxbit) then on && k / w < |old'| else WordsBit(old', w, k))
  }

  /** As RangeIs, word by word. */
  ghost predicate WordIs(x: nat, y: nat, i: nat, w: nat, start: nat, end: nat, on: bool)
  {
    forall b: nat | b < w :: Bit(y, b) == (if start <= w * i + b <= end then on else Bit(x, b))
  }

  lemma AllWordsAre(old': seq<nat>, new': seq<nat>, w: nat, start: nat, end: nat, maxbit: nat, on: bool)
    requires w > 0 && |new'| == |old'| && start <= end
    requires forall i: nat | i < |old'| :: WordIs(old'[i], new'[i], i, w, start, end, on)
    ensures RangeIs(old', new', w, start, end, maxbit, on)
  {
    forall k: nat
      ensures WordsBit(new', w, k) ==
        (if InRange(k, start, end, maxbit) then on && k / w < |old'| else WordsBit(old', w, k))
    {
      var i, b := k / w, k % w;
      hide Bit;
      assert k == w * i + b;
      if i < |old'| { assert WordIs(old'[i], new'[i], i, w, start, end, on); }
    }
  }

  /** Two adjoining or separate ranges, one after the other, are one wrapped range. */
  lemma WrappedRange(a: seq<nat>, b: seq<nat>, c: seq<nat>, w: nat, start: nat, end: nat, maxbit: nat, on: bool)
    requires w > 0 && end < start <= maxbit
    requires RangeIs(a, b, w, start, maxbit, maxbit, on) && RangeIs(b, c, w, 0, end, maxbit, on)
    ensures RangeIs(a, c, w, start, end, maxbit, on)
  {
    hide Bit;
    forall k: nat
      ensures WordsBit(c, w, k) == (if InRange(k, start, end, maxbit) then on && k / w < |a| else WordsBit(a, w, k))
    {
      assert WordsBit(b, w, k) == (if InRange(k, start, maxbit, maxbit) then on && k / w < |a| else WordsBit(a, w, k));
    }
  }

  // ---------------------------------------------------------------- single bits of a byte array

  lemma OneBitWritten(x: u8, b: nat)
    requires b < 8
    ensures Pow2(b) < 0x100 && Or(x, Pow2(b)) < 0x100
    ensures forall i: nat :: Bit(Or(x, Pow2(b)), i) == (Bit(x, i) || i == b)
    ensures forall i: nat | i < 8 :: Bit(And(x, 0xFF - Pow2(b)), i) == (Bit(x, i) && i != b)
  {
    hide Bit, And, Or, Pow2;
    ByteMask(b);
    OrBound(x, Pow2(b), 8);
    OrOne(x, b);
    forall i: nat | i < 8 ensures Bit(And(x, 0xFF - Pow2(b)), i) == (Bit(x, i) && i != b) { OneBitCleared(x, b, i); }
  }

  lemma ByteMask(b: nat)
    requires b < 8
    ensures Pow2(8) == 0x100 && Pow2(b) < 0x100
  {
    Pow2Values();
    Pow2Mono(b + 1, 8);
  }

  lemma OneBitCleared(x: u8, b: nat, i: nat)
    requires b < 8 && i < 8 && Pow2(b) < 0x100
    ensures Bit(And(x, 0xFF - Pow2(b)), i) == (Bit(x, i) && i != b)
  {
    hide Bit, And, Pow2;
    Pow2Values();
    AndBit(x, 0xFF - Pow2(b), i);
    NotBit(Pow2(b), 8, i);
    BitOfPow2(b, i);
  }

  /** setbit and clrbit. */
  method PutBit(a: array<u8>, bit: nat, on: bool)
    requires bit / 8 < a.Length
    modifies a
    ensures RangeIs(old(a[..]), a[..], 8, bit, bit, bit, on)
  {
    hide Bit, Pow2, And, Or, WordIs;
    ghost var was := a[..];
    var i, b := bit / 8, bit % 8;
    OneBitWritten(a[i], b);
    forall j: nat | j < |was| && j != i ensures WordIs(was[j], was[j], j, 8, bit, bit, on) {
      Untouched(was[j], j, 8, bit, bit, on);
    }
    a[i] := if on then Or(a[i], Pow2(b)) else And(a[i], 0xFF - Pow2(b));
    OneBitWord(was[i], a[i], i, b, on);
    AllWordsAre(was, a[..], 8, bit, bit, bit, on);
  }

  lemma Untouched(x: nat, i: nat, w: nat, start: nat, end: nat, on: bool)
    requires w * i + w <= start || end < w * i
    ensures WordIs(x, x, i, w, start, end, on)
  {
    hide Bit;
  }

  lemma OneBitWord(x: u8, y: u8, i: nat, b: nat, on: bool)
    requires b < 8
    requires forall k: nat | k < 8 :: Bit(y, k) == (if k == b then on else Bit(x, k))
    ensures WordIs(x, y, i, 8, 8 * i + b, 8 * i + b, on)
  {
    hide Bit;
    var k := 8 * i + b;
    assert WordIs(x, y, i, 8, k, k, on);
  }

  /** The bit-by-bit loop of the range functions. */
  method PutBits(a: array<u8>, start: nat, end: nat, on: bool)
    requires end / 8 < a.Length && start <= end
    modifies a
    ensures RangeIs(old(a[..]), a[..], 8, start, end, end, on)
  {
    hide Bit;
    for i := start to end + 1
      invariant forall k: nat ::
        WordsBit(a[..], 8, k) == (if start <= k < i then on && k / 8 < a.Length else WordsBit(old(a[..]), 8, k))
    {
      ghost var before := a[..];
      PutBit(a, i, on);
      assert RangeIs(before, a[..], 8, i, i, i, on);
    }
  }

  /** set_bitrange and clr_bitrange, byte version. */
  method PutBitRange(a: array<u8>, start: nat, end: nat, maxbit: nat, on: bool)
    requires end / 8 < a.Length
    requires end < start ==> start <= maxbit && maxbit / 8 < a.Length
    modifies a
    ensures RangeIs(old(a[..]), a[..], 8, start, end, maxbit, on)
    decreases if start <= end then 0 else 1
  {
    hide Bit, WordIs, WordsBit;
    ghost var was := a[..];
    var startbyte, endbyte := start / 8, end / 8;
    if end >= start {
      if endbyte - startbyte > 1 {
        var startbytelastbit, endbytestartbit := (startbyte + 1) * 8 - 1, endbyte * 8;
        var i := startbyte + 1;
        while i < endbyte
          invariant startbyte + 1 <= i <= endbyte
          invariant forall j | 0 <= j < a.Length ::
            a[j] == if startbyte + 1 <= j < i then (if on then 0xFF else 0) else was[j]
        {
          a[i] := if on then 0xFF else 0;
          i := i + 1;
        }
        ghost var filled := a[..];
        MiddleFilled(was, filled, startbyte, endbyte, on);
        PutBits(a, start, startbytelastbit, on);
        ghost var left := a[..];
        PutBits(a, endbytestartbit, end, on);
        JoinRanges(was, filled, left, a[..], start, startbytelastbit, endbytestartbit, end, maxbit, on);
      } else {
        PutBits(a, start, end, on);
        SameRange(was, a[..], start, end, maxbit, on);
      }
    } else {
      PutBitRange(a, start, maxbit, maxbit, on);
      ghost var mid := a[..];
      PutBitRange(a, 0, end, maxbit, on);
      WrappedRange(was, mid, a[..], 8, start, end, maxbit, on);
    }
  }

  lemma MiddleFilled(was: seq<u8>, filled: seq<u8>, startbyte: nat, endbyte: nat, on: bool)
    requires startbyte + 1 < endbyte < |was| && |filled| == |was|
    requires forall j | 0 <= j < |was| ::
      filled[j] == if startbyte + 1 <= j < endbyte then (if on then 0xFF else 0) else was[j]
    ensures RangeIs(was, filled, 8, 8 * startbyte + 8, 8 * endbyte - 1, 8 * endbyte - 1, on)
  {
    Pow2Values();
    hide Bit, Pow2;
    forall i: nat | i < |was|
      ensures WordIs(was[i], filled[i], i, 8, 8 * startbyte + 8, 8 * endbyte - 1, on)
    {
      if startbyte + 1 <= i < endbyte {
        forall b: nat | b < 8 ensures Bit(filled[i], b) == on {
          OnesBit(8, b);
          BitOfZero(b);
        }
      }
    }
    AllWordsAre(was, filled, 8, 8 * startbyte + 8, 8 * endbyte - 1, 8 * endbyte - 1, on);
  }

  lemma SameRange(a: seq<nat>, b: seq<nat>, start: nat, end: nat, maxbit: nat, on: bool)
    requires start <= end && RangeIs(a, b, 8, start, end, end, on)
    ensures RangeIs(a, b, 8, start, end, maxbit, on)
  {
    hide WordsBit;
    forall k: nat
      ensures WordsBit(b, 8, k) == (if InRange(k, start, end, maxbit) then on && k / 8 < |a| else WordsBit(a, 8, k))
    {
      assert InRange(k, start, end, maxbit) == InRange(k, start, end, end);
    }
  }

  lemma JoinRanges(a: seq<nat>, b: seq<nat>, c: seq<nat>, d: seq<nat>, start: nat, x: nat, y: nat, end: nat,
                   maxbit: nat, on: bool)
    requires start <= x && x + 1 < y <= end
    requires RangeIs(a, b, 8, x + 1, y - 1, y - 1, on)
    requires RangeIs(b, c, 8, start, x, x, on)
    requires RangeIs(c, d, 8, y, end, end, on)
    ensures RangeIs(a, d, 8, start, end, maxbit, on)
  {
    hide WordsBit;
    forall k: nat
      ensures WordsBit(d, 8, k) == (if InRange(k, start, end, maxbit) then on && k / 8 < |a| else WordsBit(a, 8, k))
    {
      assert WordsBit(d, 8, k) == (if InRange(k, y, end, end) then on && k / 8 < |a| else WordsBit(c, 8, k));
      assert WordsBit(c, 8, k) == (if InRange(k, start, x, x) then on && k / 8 < |a| else WordsBit(b, 8, k));
      assert WordsBit(b, 8, k) == (if InRange(k, x + 1, y - 1, y - 1) then on && k / 8 < |a| else WordsBit(a, 8, k));
    }
  }

  // ---------------------------------------------------------------- word version

  const U32MAX: u32 := 0xFFFF_FFFF

  /** The mask of bits lo..hi of a word. */
  ghost predicate MaskIs(mask: u32, lo: nat, hi: nat)
  {
    forall b: nat | b < 32 :: Bit(mask, b) == (lo <= b <= hi)
  }

  lemma HighMask(lo: nat)
    requires lo < 32
    ensures MaskIs(Shl32(U32MAX, lo), lo, 31)
  {
    Pow2Values();
    hide Bit, Shl32, Pow2;
    forall b: nat | b < 32 ensures Bit(Shl32(U32MAX, lo), b) == (lo <= b <= 31) {
      Shl32Bit(U32MAX, lo, b);
      if lo <= b { OnesBit(32, b - lo); }
    }
  }

  lemma LowMask(hi: nat)
    requires hi < 32
    ensures MaskIs(Shr(U32MAX, 31 - hi), 0, hi)
  {
    Pow2Values();
    hide Bit, Shr, Pow2;
    var mask := Shr(U32MAX, 31 - hi);
    forall b: nat | b < 32 ensures Bit(mask, b) == (b <= hi) {
      ShrBit(U32MAX, 31 - hi, b);
      OnesBit(32, b + 31 - hi);
    }
  }

  lemma BothMask(m1: u32, m2: u32, lo: nat, hi: nat)
    requires MaskIs(m1, lo, 31) && MaskIs(m2, 0, hi) && hi < 32
    ensures MaskIs(And(m1, m2), lo, hi)
  {
    hide Bit, And;
    forall b: nat | b < 32 ensures Bit(And(m1, m2), b) == (lo <= b <= hi) { AndBit(m1, m2, b); }
  }

  /** Or-ing a mask in, or and-ing its complement. */
  lemma MaskedWord(x: u32, mask: u32, i: nat, lo: nat, hi: nat, start: nat, end: nat)
    requires MaskIs(mask, lo, hi) && hi < 32
    requires start <= 32 * i + lo && (lo > 0 ==> start == 32 * i + lo)
    requires 32 * i + hi <= end && (hi < 31 ==> end == 32 * i + hi)
    ensures Or(x, mask) < 0x1_0000_0000
    ensures WordIs(x, Or(x, mask), i, 32, start, end, true)
    ensures WordIs(x, And(x, U32MAX - mask), i, 32, start, end, false)
  {
    Pow2Values();
    hide Bit, And, Or, Pow2;
    OrBound(x, mask, 32);
    var set', clr := Or(x, mask), And(x, U32MAX - mask);
    forall b: nat | b < 32
      ensures Bit(set', b) == (if start <= 32 * i + b <= end then true else Bit(x, b))
      ensures Bit(clr, b) == (if start <= 32 * i + b <= end then false else Bit(x, b))
    {
      OrBit(x, mask, b);
      AndBit(x, U32MAX - mask, b);
      NotBit(mask, 32, b);
    }
    assert WordIs(x, set', i, 32, start, end, true);
    assert WordIs(x, clr, i, 32, start, end, false);
  }

  lemma FilledWord(x: u32, i: nat, start: nat, end: nat, on: bool)
    requires start <= 32 * i && 32 * i + 31 <= end
    ensures WordIs(x, if on then U32MAX else 0, i, 32, start, end, on)
  {
    Pow2Values();
    hide Bit, Pow2;
    var y := if on then U32MAX else 0;
    forall b: nat | b < 32 ensures Bit(y, b) == on {
      OnesBit(32, b);
      BitOfZero(b);
    }
  }

  /** And-ing with the or of two complements clears where both masks are set. */
  lemma ClearBoth(x: u32, m1: u32, m2: u32)
    ensures Or(U32MAX - m1, U32MAX - m2) == U32MAX - And(m1, m2)
  {
    Pow2Values();
    hide Bit, And, Or, Pow2;
    OrBound(U32MAX - m1, U32MAX - m2, 32);
    var l, r := Or(U32MAX - m1, U32MAX - m2), U32MAX - And(m1, m2);
    forall b: nat | b < 32 ensures Bit(l, b) == Bit(r, b) {
      OrBit(U32MAX - m1, U32MAX - m2, b);
      AndBit(m1, m2, b);
      NotBit(m1, 32, b);
      NotBit(m2, 32, b);
      NotBit(And(m1, m2), 32, b);
    }
    SameBits(l, r, 32);
  }

  /** set_bitrange_u32 and clr_bitrange_u32. */
  method PutBitRangeU32(a: array<u32>, start: nat, end: nat, maxbit: nat, on: bool)
    requires end / 32 < a.Length
    requires end < start ==> start <= maxbit && maxbit / 32 < a.Length
    modifies a
    ensures RangeIs(old(a[..]), a[..], 32, start, end, maxbit, on)
    decreases if start <= end then 0 else 1
  {
    hide Bit, WordIs, MaskIs, RangeIs, And, Or, Shl32, Shr;
    ghost var was := a[..];
    if start > end {
      PutBitRangeU32(a, start, maxbit, maxbit, on);
      ghost var mid := a[..];
      PutBitRangeU32(a, 0, end, maxbit, on);
      WrappedRange(was, mid, a[..], 32, start, end, maxbit, on);
      return;
    }
    var startword, endword := start / 32, end / 32;
    var startbit, endbit := start % 32, end % 32;
    var high, low := Shl32(U32MAX, startbit), Shr(U32MAX, 31 - endbit);
    HighMask(startbit);
    LowMask(endbit);
    forall j: nat | j < a.Length && !(startword <= j <= endword) ensures WordIs(was[j], was[j], j, 32, start, end, on) {
      Untouched(was[j], j, 32, start, end, on);
    }
    if endword - startword != 0 {
      MaskedWord(was[startword], high, startword, startbit, 31, start, end);
      MaskedWord(was[endword], low, endword, 0, endbit, start, end);
      a[startword] := if on then Or(a[startword], high) else And(a[startword], U32MAX - high);
      var i := startword + 1;
      while i <= endword - 1
        invariant startword + 1 <= i <= endword
        invariant forall j | i <= j < a.Length :: a[j] == was[j]
        invariant forall j: nat | j < i :: WordIs(was[j], a[j], j, 32, start, end, on)
      {
        FilledWord(was[i], i, start, end, on);
        a[i] := if on then U32MAX else 0;
        i := i + 1;
      }
      a[endword] := if on then Or(a[endword], low) else And(a[endword], U32MAX - low);
    } else {
      BothMask(high, low, startbit, endbit);
      ClearBoth(was[startword], high, low);
      MaskedWord(was[startword], And(high, low), startword, startbit, endbit, start, end);
      a[startword] := if on then Or(a[startword], And(high, low))
                      else And(a[startword], Or(U32MAX - high, U32MAX - low));
    }
    AllWordsAre(was, a[..], 32, start, end, maxbit, on);
  }

  /** The byte version on the bytes of a little-endian word array has the same effect, bit for bit. */
  lemma VersionsAgree(bytes: seq<nat>, bytes': seq<nat>, words: seq<nat>, words': seq<nat>,
                      start: nat, end: nat, maxbit: nat, on: bool)
    requires |bytes| == 4 * |words|
    requires forall k: nat :: WordsBit(bytes, 8, k) == WordsBit(words, 32, k)
    requires RangeIs(bytes, bytes', 8, start, end, maxbit, on) && RangeIs(words, words', 32, start, end, maxbit, on)
    ensures forall k: nat :: WordsBit(bytes', 8, k) == WordsBit(words', 32, k)
  {
    hide Bit;
    forall k: nat ensures WordsBit(bytes', 8, k) == WordsBit(words', 32, k) {
      assert k / 8 < |bytes| <==> k / 32 < |words|;
      assert WordsBit(bytes, 8, k) == WordsBit(words, 32, k);
    }
  }

  // ---------------------------------------------------------------- counting

  /** The number of ones among the bits from..to-1. */
  function Ones(s: seq<u8>, from: nat, to: nat): nat
    decreases to - from
  {
    if from >= to then 0 else Ones(s, from, to - 1) + (if WordsBit(s, 8, to - 1) then 1 else 0)
  }

  lemma {:induction false} OnesSplit(s: seq<u8>, a: nat, b: nat, c: nat)
    requires a <= b <= c
    ensures Ones(s, a, c) == Ones(s, a, b) + Ones(s, b, c)
    decreases c
  {
    if b < c { OnesSplit(s, a, b, c - 1); }
  }

  /** The ones of a byte, counted up to bit n, when its bits below lo and from hi up are masked out. */
  lemma {:induction false} MaskedCount(s: seq<u8>, i: nat, t: nat, lo: nat, hi: nat, n: nat)
    requires i < |s| && lo <= hi <= 8 && n <= 8
    requires forall b: nat | b < 8 :: Bit(t, b) == (lo <= b < hi && Bit(s[i], b))
    ensures PopCount(Low(t, n)) == Ones(s, 8 * i + lo, 8 * i + (if n < hi then n else hi))
    decreases n
  {
    hide Bit, Low, PopCount, Ones;
    if n > 0 {
      MaskedCount(s, i, t, lo, hi, n - 1);
      LowGrows(t, n - 1);
      if lo < n <= hi {
        OneMore(s, 8 * i + lo, i, n - 1);
      } else {
        NoOnes(s, 8 * i + lo, 8 * i + n);
        NoOnes(s, 8 * i + lo, 8 * i + n - 1);
      }
    } else {
      LowNone(t);
      NoOnes(s, 8 * i + lo, 8 * i);
    }
  }

  lemma OneMore(s: seq<u8>, from: nat, i: nat, b: nat)
    requires i < |s| && b < 8 && from <= 8 * i + b
    ensures Ones(s, from, 8 * i + b + 1) == Ones(s, from, 8 * i + b) + (if Bit(s[i], b) then 1 else 0)
  {
    hide Bit;
    assert (8 * i + b) / 8 == i && (8 * i + b) % 8 == b;
  }

  /** One more low bit adds that bit to the population count. */
  lemma {:induction false} LowGrows(t: nat, n: nat)
    ensures PopCount(Low(t, n + 1)) == PopCount(Low(t, n)) + (if Bit(t, n) then 1 else 0)
    decreases n
  {
    hide PopCount;
    PopShift(Low(t / 2, n), t % 2);
    if n == 0 {
      assert Low(t / 2, 0) == 0 && Low(t, 1) == t % 2 && Low(t, 0) == 0;
      PopShift(0, 0);
    } else {
      LowGrows(t / 2, n - 1);
      PopShift(Low(t / 2, n - 1), t % 2);
    }
  }

  lemma LowNone(t: nat)
    ensures Low(t, 0) == 0 && PopCount(0) == 0
  {
  }

  lemma ByteCount(s: seq<u8>, i: nat, t: u8, lo: nat, hi: nat)
    requires i < |s| && lo <= hi <= 8
    requires forall b: nat | b < 8 :: Bit(t, b) == (lo <= b < hi && Bit(s[i], b))
    ensures PopCount(t) == Ones(s, 8 * i + lo, 8 * i + hi)
  {
    hide Bit, Low, PopCount, Ones, Pow2;
    Pow2Values();
    LowOfSmall(t, 8);
    MaskedCount(s, i, t, lo, hi, 8);
  }

  /** bcm_bitcount on one byte: each round clears the lowest set bit. */
  method BitCountByte(x: u8) returns (count: nat)
    ensures count == PopCount(x)
  {
    hide And, PopCount;
    var tmp: u8 := x;
    count := 0;
    while tmp != 0
      invariant count + PopCount(tmp) == PopCount(x)
    {
      ClearLowest(tmp);
      count := count + 1;
      tmp := And(tmp, tmp - 1);
    }
    assert PopCount(0) == 0;
  }

  lemma {:induction false} ClearLowest(t: nat)
    requires t > 0
    ensures PopCount(And(t, t - 1)) == PopCount(t) - 1 && And(t, t - 1) < t
  {
    hide PopCount;
    PopShift(t / 2, t % 2);
    if t % 2 == 1 {
      assert (t - 1) / 2 == t / 2 && (t - 1) % 2 == 0;
      AndSelf(t / 2);
      assert And(t, t - 1) == 2 * (t / 2);
      PopShift(t / 2, 0);
    } else {
      assert (t - 1) / 2 == t / 2 - 1;
      ClearLowest(t / 2);
      PopShift(And(t / 2, t / 2 - 1), 0);
    }
  }

  /** bcm_bitcount over the bytes from..to-1. */
  method BitCount(buf: array<u8>, from: nat, to: nat) returns (count: nat)
    requires from <= to <= buf.Length
    ensures count == Ones(buf[..], 8 * from, 8 * to)
  {
    hide Ones, PopCount, Bit;
    assert Ones(buf[..], 8 * from, 8 * from) == 0 by { NoOnes(buf[..], 8 * from, 8 * from); }
    count := 0;
    for i := from to to
      invariant count == Ones(buf[..], 8 * from, 8 * i)
    {
      var n := BitCountByte(buf[i]);
      ByteCount(buf[..], i, buf[i], 0, 8);
      OnesSplit(buf[..], 8 * from, 8 * i, 8 * i + 8);
      count := count + n;
    }
  }

  lemma NoOnes(s: seq<u8>, from: nat, to: nat)
    ensures to <= from ==> Ones(s, from, to) == 0
  {
  }

  const FF: u8 := 0xFF

  /** The byte with its bits below lo cleared. */
  function KeepFrom(x: u8, lo: nat): u8
  {
    And(x, Low(Shl(FF, lo), 8))
  }

  /** The byte with its bits above hi cleared. */
  function KeepUpTo(x: u8, hi: nat): u8
  {
    Pow2Values();
    And(x, FF - Low(Shl(FF, hi + 1), 8))
  }

  lemma KeptBits(x: u8, lo: nat, hi: nat)
    requires lo < 8 && hi < 8
    ensures forall b: nat | b < 8 :: Bit(KeepFrom(x, lo), b) == (lo <= b && Bit(x, b))
    ensures forall b: nat | b < 8 :: Bit(KeepUpTo(x, hi), b) == (b <= hi && Bit(x, b))
  {
    Pow2Values();
    hide Bit, And, Shl, Low, Pow2;
    var m1, m2 := Low(Shl(FF, lo), 8), Low(Shl(FF, hi + 1), 8);
    forall b: nat | b < 8
      ensures Bit(KeepFrom(x, lo), b) == (lo <= b && Bit(x, b))
      ensures Bit(KeepUpTo(x, hi), b) == (b <= hi && Bit(x, b))
    {
      AndBit(x, m1, b);
      AndBit(x, FF - m2, b);
      NotBit(m2, 8, b);
      LowBit(Shl(FF, lo), 8, b);
      LowBit(Shl(FF, hi + 1), 8, b);
      ShlBit(FF, lo, b);
      ShlBit(FF, hi + 1, b);
      if lo <= b { OnesBit(8, b - lo); }
      if hi + 1 <= b { OnesBit(8, b - hi - 1); }
    }
  }

  /** The part of bcm_count_bits that always counts ones, from bit lo of byte `from` to bit hi of byte `to`. */
  method CountOnes(buf: array<u8>, from: nat, lo: nat, to: nat, hi: nat) returns (bits: nat)
    requires from <= to < buf.Length && lo < 8 && hi < 8 && (from == to ==> lo <= hi)
    ensures bits == Ones(buf[..], 8 * from + lo, 8 * to + hi + 1)
  {
    hide Ones, PopCount, Bit, KeepFrom, KeepUpTo;
    ghost var s := buf[..];
    KeptBits(buf[from], lo, hi);
    var tmp := KeepFrom(buf[from], lo);
    var len := to - from + 1;
    if len == 1 {
      KeptBits(tmp, lo, hi);
      tmp := KeepUpTo(tmp, hi);
      bits := BitCountByte(tmp);
      ByteCount(s, from, tmp, lo, hi + 1);
    } else {
      bits := BitCountByte(tmp);
      ByteCount(s, from, tmp, lo, 8);
      if len > 2 {
        var middle := BitCount(buf, from + 1, to);
        bits := bits + middle;
        OnesSplit(s, 8 * from + lo, 8 * from + 8, 8 * to);
      }
      KeptBits(buf[to], lo, hi);
      tmp := KeepUpTo(buf[to], hi);
      var tail := BitCountByte(tmp);
      ByteCount(s, to, tmp, 0, hi + 1);
      bits := bits + tail;
      OnesSplit(s, 8 * from + lo, 8 * to, 8 * to + hi + 1);
    }
  }

  /** bcm_count_bits: the exact number of ones, or zeros, from fromBit to toBit inclusive;
      0 for an empty range or one that leaves the buffer. */
  method CountBits(buf: array<u8>, fromBit: nat, toBit: nat, val1: bool) returns (bits: nat)
    ensures fromBit <= toBit && toBit / 8 < buf.Length ==>
      bits == if val1 then Ones(buf[..], fromBit, toBit + 1) else Zeros(buf[..], fromBit, toBit + 1)
    ensures !(fromBit <= toBit && toBit / 8 < buf.Length) ==> bits == 0
  {
    if toBit < fromBit { return 0; }
    var from, to := fromBit / 8, toBit / 8;
    if from >= buf.Length || to >= buf.Length { return 0; }
    bits := CountOnes(buf, from, fromBit % 8, to, toBit % 8);
    OnesAndZeros(buf[..], fromBit, toBit + 1);
    if !val1 {
      bits := toBit - fromBit + 1 - bits;
    }
  }

  /** The number of zeros among the bits from..to-1. */
  function Zeros(s: seq<u8>, from: nat, to: nat): nat
    decreases to - from
  {
    if from >= to then 0 else Zeros(s, from, to - 1) + (if WordsBit(s, 8, to - 1) then 0 else 1)
  }

  lemma {:induction false} OnesAndZeros(s: seq<u8>, a: nat, b: nat)
    requires a <= b
    ensures Ones(s, a, b) + Zeros(s, a, b) == b - a
    decreases b
  {
    if a < b { OnesAndZeros(s, a, b - 1); }
  }
}
