/** The CRCs seen as polynomial arithmetic: a message is a row of bits, and what the register holds
    is the remainder of a schoolbook long division. From this view come the bursts that are seen
    wherever they begin. */
module CrcBits {
  import opened Crc

  type Bits = seq<bool>

  // ---------------------------------------------------------------- rows of coefficients

  function Zeros(n: nat): (z: Bits)
    ensures |z| == n && forall k :: 0 <= k < n ==> !z[k]
  {
    seq(n, _ => false)
  }

  /** Row p added to the first coefficients of row d; addition is exclusive-or. */
  function Plus(d: Bits, p: Bits): (r: Bits)
    requires |p| <= |d|
    ensures |r| == |d| && forall k :: 0 <= k < |d| ==> r[k] == (if k < |p| then d[k] != p[k] else d[k])
  {
    seq(|d|, k requires 0 <= k < |d| => if k < |p| then d[k] != p[k] else d[k])
  }

  /** Schoolbook division, highest coefficient first, by the polynomial with a leading one followed by
      the coefficients p: as long as the row is longer than the remainder may be, its leading
      coefficient goes, and the divisor is subtracted if it is one. */
  function LongDivision(d: Bits, p: Bits): Bits
    requires |p| <= |d|
    decreases |d|
  {
    if |d| == |p| then d
    else LongDivision(if d[0] then Plus(d[1..], p) else d[1..], p)
  }

  /** The coefficients of a message in the order in which they are fed: the lowest bit of the first
      byte comes first. */
  function BitsOf(msg: seq<bv8>): (b: Bits)
    ensures |b| == 8 * |msg|
  {
    if msg == [] then [] else Bits8(msg[0], 8) + BitsOf(msg[1..])
  }

  // ---------------------------------------------------------------- words as rows of bits

  /** The n lowest bits of a word, lowest first. */
  function Bits8(x: bv8, n: nat): (b: Bits)
    ensures |b| == n
    decreases n
  {
    if n == 0 then [] else [Low8(x)] + Bits8(Half8(x), n - 1)
  }

  function Bits16(x: bv16, n: nat): (b: Bits)
    ensures |b| == n
    decreases n
  {
    if n == 0 then [] else [Low16(x)] + Bits16(Half16(x), n - 1)
  }

  /** x^8 + x^7 + x^6 + x^4 + x^2 + 1 and x^16 + x^12 + x^5 + 1 behind their leading terms. */
  const DIVISOR8: Bits := [true, true, false, true, false, true, false, true]
  const DIVISOR16: Bits :=
    [false, false, false, true, false, false, false, false, false, false, true, false, false, false, false, true]

  lemma {:induction false} WidenedBits(x: bv8, n: nat)
    ensures Bits16(x as bv16, n) == Bits8(x, n)
    decreases n
  {
    if n > 0 {
      WidenedHalf(x);
      WidenedBits(Half8(x), n - 1);
    }
  }

  lemma WidenedHalf(x: bv8)
    ensures Half16(x as bv16) == Half8(x) as bv16 && Low16(x as bv16) == Low8(x)
  {
  }

  lemma DivisorLengths()
    ensures |DIVISOR8| == 8 && |DIVISOR16| == 16
  {
  }

  lemma PlusNothing()
    ensures Plus([], []) == []
  {
  }

  lemma PlusCons(x: bool, y: bool, s: Bits, t: Bits)
    requires |s| == |t|
    ensures Plus([x] + s, [y] + t) == [x != y] + Plus(s, t)
  {
  }

  lemma PlusZeros(r: Bits, n: nat)
    requires |r| == n
    ensures Plus(Zeros(n), r) == r
  {
  }

  /** Adding a row one place further on, with what the divisor adds. */
  lemma ShiftedPlus(b: bool, rest: Bits, r: Bits, p: Bits)
    requires 0 < |r| == |p| <= |rest|
    ensures var d := Plus([b] + rest, r);
      && Plus(rest, r[1..] + [false]) == d[1..]
      && Plus(rest, Plus(r[1..] + [false], p)) == Plus(d[1..], p)
  {
  }

  lemma ShiftAll16(c: bv16)
    ensures Shift16(c, 16) == 0
  {
    hide Half16;
    HighLeft16(c);
    NothingLeft16(Shift16(c, 8));
    ShiftShift(c, 8, 8);
  }

  lemma HighLeft16(c: bv16)
    ensures Shift16(c, 8) <= 0xFF
  {
  }

  lemma ShiftAll8(c: bv8)
    ensures Shift8(c, 8) == 0
  {
    NothingLeft8(c);
  }

  lemma PolyBits16()
    ensures Bits16(POLY16, 16) == DIVISOR16
  {
    hide Bits16, Shift16;
    MoreBits16(0x8408, 8, 8);
    PolyLow16();
    PolyHigh16();
  }

  lemma PolyLow16()
    ensures Bits16(0x8408, 8) == [false, false, false, true, false, false, false, false]
  {
  }

  lemma PolyHigh16()
    ensures Shift16(0x8408, 8) == 0x84
    ensures Bits16(0x84, 8) == [false, false, true, false, false, false, false, true]
  {
  }

  lemma {:induction false} MoreBits16(x: bv16, m: nat, n: nat)
    ensures Bits16(x, m + n) == Bits16(x, m) + Bits16(Shift16(x, m), n)
    decreases m
  {
    hide Half16, Low16;
    if m > 0 { MoreBits16(Half16(x), m - 1, n); }
  }

  lemma PolyBits8()
    ensures Bits8(POLY8, 8) == DIVISOR8
  {
  }

  lemma TopFree16()
    ensures !Top16(Ones16(15))
  {
    assert Ones16(5) == 0x1F;
    assert Ones16(10) == 0x3FF;
  }

  lemma TopFree8()
    ensures !Top8(Ones8(7))
  {
  }

  // ---------------------------------------------------------------- the 16-bit register, bit by bit

  function Unit16(b: bool): bv16 { if b then 1 else 0 }

  /** The register after a row of bits. */
  function Fed16(bits: Bits, c: bv16): bv16
    decreases |bits|
  {
    if bits == [] then c else Fed16(bits[1..], BitStep16(c, Unit16(bits[0])))
  }

  lemma {:induction false} FedPieces16(a: Bits, b: Bits, c: bv16)
    ensures Fed16(a + b, c) == Fed16(b, Fed16(a, c))
    decreases |a|
  {
    hide BitStep16;
    if a == [] {
      assert a + b == b;
    } else {
      assert (a + b)[1..] == a[1..] + b;
      FedPieces16(a[1..], b, BitStep16(c, Unit16(a[0])));
    }
  }

  lemma UnitStep16(c: bv16, x: bv16)
    ensures BitStep16(c, Unit16(Low16(x))) == BitStep16(c, x)
  {
    LowLaws16(c, x);
    LowLaws16(c, Unit16(Low16(x)));
  }

  /** Steps with the bits of a word are steps with its row of bits. */
  lemma {:induction false} StepsAreFed16(c: bv16, x: bv16, n: nat)
    ensures Steps16(c, x, n) == Fed16(Bits16(x, n), c)
    decreases n
  {
    hide BitStep16, Half16, Low16;
    if n > 0 {
      var b := Bits16(x, n);
      assert b[1..] == Bits16(Half16(x), n - 1);
      UnitStep16(c, x);
      StepsAreFed16(BitStep16(c, x), Half16(x), n - 1);
    }
  }

  /** The register over whole bytes is the register over the bits of the message. */
  lemma {:induction false} SerialIsFed16(msg: seq<bv8>, crc: bv16)
    ensures Serial16(msg, crc) == Fed16(BitsOf(msg), crc)
    decreases |msg|
  {
    hide Steps16, Bits8, Bits16;
    if msg != [] {
      var x := msg[0] as bv16;
      StepsAreFed16(crc, x, 8);
      WidenedBits(msg[0], 8);
      FedPieces16(Bits8(msg[0], 8), BitsOf(msg[1..]), crc);
      SerialIsFed16(msg[1..], ByteStep16(crc, x));
    }
  }

  // ---------------------------------------------------------------- the register is a remainder

  lemma {:induction false} BitsOfSum16(a: bv16, b: bv16, n: nat)
    ensures Bits16(Xor16(a, b), n) == Plus(Bits16(a, n), Bits16(b, n))
    decreases n
  {
    hide Half16, Low16, Xor16, Plus;
    if n == 0 {
      PlusNothing();
    } else {
      HalfLaws16(a, b);
      LowLaws16(a, b);
      BitsOfSum16(Half16(a), Half16(b), n - 1);
      PlusCons(Low16(a), Low16(b), Bits16(Half16(a), n - 1), Bits16(Half16(b), n - 1));
    }
  }

  /** The last of n bits. */
  lemma {:induction false} LastBit16(x: bv16, n: nat)
    ensures Bits16(x, n + 1) == Bits16(x, n) + [Low16(Shift16(x, n))]
    decreases n
  {
    hide Half16, Low16;
    if n > 0 { LastBit16(Half16(x), n - 1); }
  }

  /** Halving the register drops its first coefficient and appends a zero. */
  lemma HalfBits16(c: bv16)
    ensures Bits16(Half16(c), 16) == Bits16(c, 16)[1..] + [false]
  {
    hide Half16, Low16, Shift16;
    LastBit16(Half16(c), 15);
    ShiftedOut16(c);
  }

  lemma ShiftedOut16(c: bv16)
    ensures !Low16(Shift16(Half16(c), 15))
  {
    hide Half16;
    assert Shift16(c, 16) == Shift16(Half16(c), 15);
    ShiftAll16(c);
  }

  /** One step of the register is one step of the division. */
  lemma StepDivides16(c: bv16, b: bool, rest: Bits)
    requires |rest| >= 16
    ensures var d := Plus([b] + rest, Bits16(c, 16));
      Plus(rest, Bits16(BitStep16(c, Unit16(b)), 16)) == if d[0] then Plus(d[1..], DIVISOR16) else d[1..]
  {
    hide Half16, Low16, Xor16, Unit16, POLY16, DIVISOR16;
    var r := Bits16(c, 16);
    assert r[0] == Low16(c);
    LowOfStep16(c, b);
    HalfBits16(c);
    BitsOfSum16(Half16(c), POLY16, 16);
    PolyBits16();
    var d := Plus([b] + rest, r);
    assert d[0] == (b != Low16(c));
    ShiftedPlus(b, rest, r, DIVISOR16);
  }

  lemma LowOfStep16(c: bv16, b: bool)
    ensures Low16(Xor16(c, Unit16(b))) == (b != Low16(c))
  {
  }

  /** What the register holds after a message is the remainder of the message followed by sixteen
      zeros, with the initial value added to its first coefficients. */
  lemma {:induction false} FedDivides16(bits: Bits, c: bv16)
    ensures Bits16(Fed16(bits, c), 16) == LongDivision(Plus(bits + Zeros(16), Bits16(c, 16)), DIVISOR16)
    decreases |bits|
  {
    hide BitStep16, Bits16, DIVISOR16, Plus, Zeros;
    DivisorLengths();
    if bits == [] {
      assert bits + Zeros(16) == Zeros(16);
      PlusZeros(Bits16(c, 16), 16);
    } else {
      var rest := bits[1..] + Zeros(16);
      assert bits + Zeros(16) == [bits[0]] + rest;
      StepDivides16(c, bits[0], rest);
      FedDivides16(bits[1..], BitStep16(c, Unit16(bits[0])));
    }
  }

  lemma SerialDivides16(msg: seq<bv8>, crc: bv16)
    ensures Bits16(Serial16(msg, crc), 16) ==
      LongDivision(Plus(BitsOf(msg) + Zeros(16), Bits16(crc, 16)), DIVISOR16)
  {
    hide Bits16, DIVISOR16, Plus, Zeros, Serial16, LongDivision;
    DivisorLengths();
    SerialIsFed16(msg, crc);
    FedDivides16(BitsOf(msg), crc);
  }

  // ---------------------------------------------------------------- bursts

  /** A row of at most 16 bits as a word, and the n lowest bits set. */
  function WordOf16(u: Bits): bv16
  {
    if u == [] then 0 else Join16(WordOf16(u[1..]), u[0])
  }

  /** A word moved up by one bit, with a new lowest bit. */
  function Join16(w: bv16, b: bool): bv16 { Double16(w) | Unit16(b) }

  function Double16(w: bv16): bv16 { w << 1 }

  function Ones16(n: nat): bv16 { if n == 0 then 0 else Join16(Ones16(n - 1), true) }

  /** Are the bits of w among those of m? */
  predicate Inside16(w: bv16, m: bv16) { w | m == m }

  lemma {:induction false} WordBounded16(u: Bits)
    ensures Inside16(WordOf16(u), Ones16(|u|))
  {
    hide Inside16, Join16;
    if u == [] {
      Itself16(0);
    } else {
      WordBounded16(u[1..]);
      ShiftBounded16(WordOf16(u[1..]), Ones16(|u| - 1), u[0]);
    }
  }

  lemma ShiftBounded16(w: bv16, m: bv16, b: bool)
    requires Inside16(w, m)
    ensures Inside16(Join16(w, b), Join16(m, true))
  {
    hide Double16, Unit16;
    DoubleInside16(w, m);
    UnitInside16(Double16(w), Double16(m), b);
  }

  lemma DoubleInside16(w: bv16, m: bv16)
    requires w | m == m
    ensures Double16(w) | Double16(m) == Double16(m)
  {
  }

  lemma UnitInside16(w: bv16, m: bv16, b: bool)
    requires w | m == m
    ensures (w | Unit16(b)) | (m | Unit16(true)) == m | Unit16(true)
  {
  }

  /** Fewer than 16 ones leave the top bit free. */
  lemma {:induction false} OnesBelowTop16(n: nat)
    requires n <= 15
    ensures Inside16(Ones16(n), Ones16(15))
    decreases 15 - n
  {
    hide Inside16, Join16, Ones16;
    if n < 15 {
      OnesBelowTop16(n + 1);
      OnesGrow16(n);
      Within16(Ones16(n), Ones16(n + 1), Ones16(15));
    } else {
      Itself16(Ones16(15));
    }
  }

  lemma Itself16(m: bv16)
    ensures Inside16(m, m) && Inside16(0, m)
  {
  }

  lemma Within16(a: bv16, b: bv16, c: bv16)
    requires Inside16(a, b) && Inside16(b, c)
    ensures Inside16(a, c)
  {
  }

  lemma {:induction false} OnesGrow16(n: nat)
    ensures Inside16(Ones16(n), Ones16(n + 1))
  {
    hide Inside16, Join16;
    if n == 0 {
      Itself16(Ones16(1));
    } else {
      OnesGrow16(n - 1);
      ShiftBounded16(Ones16(n - 1), Ones16(n), true);
    }
  }

  lemma AppendLow16(w: bv16, m: bv16, b: bool)
    requires Inside16(w, m) && !Top16(m)
    ensures Half16(Join16(w, b)) == w && Low16(Join16(w, b)) == b
  {
  }

  /** The word has the bits of the row and no others. */
  lemma {:induction false} BitsOfWord16(u: Bits)
    requires |u| <= 16
    ensures Bits16(WordOf16(u), |u|) == u && Shift16(WordOf16(u), |u|) == 0
  {
    hide Half16, Low16, Top16, Join16, Inside16;
    if u != [] {
      var t := u[1..];
      BitsOfWord16(t);
      WordBounded16(t);
      OnesBelowTop16(|t|);
      Within16(WordOf16(t), Ones16(|t|), Ones16(15));
      TopFree16();
      AppendLow16(WordOf16(t), Ones16(15), u[0]);
    }
  }

  /** Two rows of the same length that fit the register never lead it to the same value. */
  lemma ShortDiffers16(u: Bits, v: Bits, c: bv16)
    requires |u| == |v| <= 16 && u != v
    ensures Fed16(u, c) != Fed16(v, c)
  {
    hide Steps16, Xor16, WordOf16, Shift16, Bits16;
    FedAsZeros16(u, c);
    FedAsZeros16(v, c);
    BitsOfWord16(u);
    BitsOfWord16(v);
    XorDiffers16(WordOf16(u), WordOf16(v), c);
    Injective16(Xor16(c, WordOf16(u)), Xor16(c, WordOf16(v)), |u|);
  }

  lemma FedAsZeros16(u: Bits, c: bv16)
    requires |u| <= 16
    ensures Fed16(u, c) == Steps16(Xor16(c, WordOf16(u)), 0, |u|)
  {
    hide Steps16, Xor16, WordOf16, Shift16, Bits16;
    var w := WordOf16(u);
    BitsOfWord16(u);
    StepsAreFed16(c, w, |u|);
    Merge16(c, w, |u|);
    XorNothing16(Steps16(c, w, |u|));
  }

  lemma {:induction false} FedStaysDifferent16(z: Bits, c: bv16, d: bv16)
    requires c != d
    ensures Fed16(z, c) != Fed16(z, d)
    decreases |z|
  {
    hide BitStep16;
    if z != [] {
      OneBitDiffers16(c, d, Unit16(z[0]));
      FedStaysDifferent16(z[1..], BitStep16(c, Unit16(z[0])), BitStep16(d, Unit16(z[0])));
    }
  }

  lemma OneBitDiffers16(c: bv16, d: bv16, b: bv16)
    requires c != d
    ensures BitStep16(c, b) != BitStep16(d, b)
  {
    hide BitStep16, Xor16, Half16;
    MergeBit16(c, b);
    MergeBit16(d, b);
    XorDiffers16(c, d, b);
    InjectiveBit16(Xor16(c, b), Xor16(d, b));
  }

  /** Any burst of at most 16 bits, at any bit of any message, changes its CRC-16. */
  lemma DetectsBurst16(m: seq<bv8>, m': seq<bv8>, a: Bits, u: Bits, v: Bits, z: Bits, crc: bv16)
    requires BitsOf(m) == a + u + z && BitsOf(m') == a + v + z
    requires |u| == |v| <= 16 && u != v
    ensures Serial16(m, crc) != Serial16(m', crc)
  {
    hide Serial16, Fed16, BitsOf;
    SerialIsFed16(m, crc);
    SerialIsFed16(m', crc);
    FedPieces16(a + u, z, crc);
    FedPieces16(a + v, z, crc);
    FedPieces16(a, u, crc);
    FedPieces16(a, v, crc);
    ShortDiffers16(u, v, Fed16(a, crc));
    FedStaysDifferent16(z, Fed16(u, Fed16(a, crc)), Fed16(v, Fed16(a, crc)));
  }

  // ---------------------------------------------------------------- the 8-bit register, bit by bit

  function Unit8(b: bool): bv8 { if b then 1 else 0 }

  /** The register after a row of bits. */
  function Fed8(bits: Bits, c: bv8): bv8
    decreases |bits|
  {
    if bits == [] then c else Fed8(bits[1..], BitStep8(c, Unit8(bits[0])))
  }

  lemma {:induction false} FedPieces8(a: Bits, b: Bits, c: bv8)
    ensures Fed8(a + b, c) == Fed8(b, Fed8(a, c))
    decreases |a|
  {
    hide BitStep8;
    if a == [] {
      assert a + b == b;
    } else {
      assert (a + b)[1..] == a[1..] + b;
      FedPieces8(a[1..], b, BitStep8(c, Unit8(a[0])));
    }
  }

  lemma UnitStep8(c: bv8, x: bv8)
    ensures BitStep8(c, Unit8(Low8(x))) == BitStep8(c, x)
  {
    LowLaws8(c, x);
    LowLaws8(c, Unit8(Low8(x)));
  }

  /** Steps with the bits of a word are steps with its row of bits. */
  lemma {:induction false} StepsAreFed8(c: bv8, x: bv8, n: nat)
    ensures Steps8(c, x, n) == Fed8(Bits8(x, n), c)
    decreases n
  {
    hide BitStep8, Half8, Low8;
    if n > 0 {
      var b := Bits8(x, n);
      assert b[1..] == Bits8(Half8(x), n - 1);
      UnitStep8(c, x);
      StepsAreFed8(BitStep8(c, x), Half8(x), n - 1);
    }
  }

  /** The register over whole bytes is the register over the bits of the message. */
  lemma {:induction false} SerialIsFed8(msg: seq<bv8>, crc: bv8)
    ensures Serial8(msg, crc) == Fed8(BitsOf(msg), crc)
    decreases |msg|
  {
    hide Steps8, Bits8;
    if msg != [] {
      var x := msg[0];
      StepsAreFed8(crc, x, 8);
      FedPieces8(Bits8(msg[0], 8), BitsOf(msg[1..]), crc);
      SerialIsFed8(msg[1..], ByteStep8(crc, x));
    }
  }

  // ---------------------------------------------------------------- the register is a remainder

  lemma {:induction false} BitsOfSum8(a: bv8, b: bv8, n: nat)
    ensures Bits8(Xor8(a, b), n) == Plus(Bits8(a, n), Bits8(b, n))
    decreases n
  {
    hide Half8, Low8, Xor8, Plus;
    if n == 0 {
      PlusNothing();
    } else {
      HalfLaws8(a, b);
      LowLaws8(a, b);
      BitsOfSum8(Half8(a), Half8(b), n - 1);
      PlusCons(Low8(a), Low8(b), Bits8(Half8(a), n - 1), Bits8(Half8(b), n - 1));
    }
  }

  /** The last of n bits. */
  lemma {:induction false} LastBit8(x: bv8, n: nat)
    ensures Bits8(x, n + 1) == Bits8(x, n) + [Low8(Shift8(x, n))]
    decreases n
  {
    hide Half8, Low8;
    if n > 0 { LastBit8(Half8(x), n - 1); }
  }

  /** Halving the register drops its first coefficient and appends a zero. */
  lemma HalfBits8(c: bv8)
    ensures Bits8(Half8(c), 8) == Bits8(c, 8)[1..] + [false]
  {
    hide Half8, Low8, Shift8;
    LastBit8(Half8(c), 7);
    ShiftedOut8(c);
  }

  lemma ShiftedOut8(c: bv8)
    ensures !Low8(Shift8(Half8(c), 7))
  {
    hide Half8;
    assert Shift8(c, 8) == Shift8(Half8(c), 7);
    ShiftAll8(c);
  }

  /** One step of the register is one step of the division. */
  lemma StepDivides8(c: bv8, b: bool, rest: Bits)
    requires |rest| >= 8
    ensures var d := Plus([b] + rest, Bits8(c, 8));
      Plus(rest, Bits8(BitStep8(c, Unit8(b)), 8)) == if d[0] then Plus(d[1..], DIVISOR8) else d[1..]
  {
    hide Half8, Low8, Xor8, Unit8, POLY8, DIVISOR8;
    var r := Bits8(c, 8);
    assert r[0] == Low8(c);
    LowOfStep8(c, b);
    HalfBits8(c);
    BitsOfSum8(Half8(c), POLY8, 8);
    PolyBits8();
    var d := Plus([b] + rest, r);
    assert d[0] == (b != Low8(c));
    ShiftedPlus(b, rest, r, DIVISOR8);
  }

  lemma LowOfStep8(c: bv8, b: bool)
    ensures Low8(Xor8(c, Unit8(b))) == (b != Low8(c))
  {
  }

  /** What the register holds after a message is the remainder of the message followed by eight
      zeros, with the initial value added to its first coefficients. */
  lemma {:induction false} FedDivides8(bits: Bits, c: bv8)
    ensures Bits8(Fed8(bits, c), 8) == LongDivision(Plus(bits + Zeros(8), Bits8(c, 8)), DIVISOR8)
    decreases |bits|
  {
    hide BitStep8, Bits8, DIVISOR8, Plus, Zeros;
    DivisorLengths();
    if bits == [] {
      assert bits + Zeros(8) == Zeros(8);
      PlusZeros(Bits8(c, 8), 8);
    } else {
      var rest := bits[1..] + Zeros(8);
      assert bits + Zeros(8) == [bits[0]] + rest;
      StepDivides8(c, bits[0], rest);
      FedDivides8(bits[1..], BitStep8(c, Unit8(bits[0])));
    }
  }

  lemma SerialDivides8(msg: seq<bv8>, crc: bv8)
    ensures Bits8(Serial8(msg, crc), 8) ==
      LongDivision(Plus(BitsOf(msg) + Zeros(8), Bits8(crc, 8)), DIVISOR8)
  {
    hide Bits8, DIVISOR8, Plus, Zeros, Serial8, LongDivision;
    DivisorLengths();
    SerialIsFed8(msg, crc);
    FedDivides8(BitsOf(msg), crc);
  }

  // ---------------------------------------------------------------- bursts

  /** A row of at most 8 bits as a word, and the n lowest bits set. */
  function WordOf8(u: Bits): bv8
  {
    if u == [] then 0 else Join8(WordOf8(u[1..]), u[0])
  }

  /** A word moved up by one bit, with a new lowest bit. */
  function Join8(w: bv8, b: bool): bv8 { Double8(w) | Unit8(b) }

  function Double8(w: bv8): bv8 { w << 1 }

  function Ones8(n: nat): bv8 { if n == 0 then 0 else Join8(Ones8(n - 1), true) }

  /** Are the bits of w among those of m? */
  predicate Inside8(w: bv8, m: bv8) { w | m == m }

  lemma {:induction false} WordBounded8(u: Bits)
    ensures Inside8(WordOf8(u), Ones8(|u|))
  {
    hide Inside8, Join8;
    if u == [] {
      Itself8(0);
    } else {
      WordBounded8(u[1..]);
      ShiftBounded8(WordOf8(u[1..]), Ones8(|u| - 1), u[0]);
    }
  }

  lemma ShiftBounded8(w: bv8, m: bv8, b: bool)
    requires Inside8(w, m)
    ensures Inside8(Join8(w, b), Join8(m, true))
  {
    hide Double8, Unit8;
    DoubleInside8(w, m);
    UnitInside8(Double8(w), Double8(m), b);
  }

  lemma DoubleInside8(w: bv8, m: bv8)
    requires w | m == m
    ensures Double8(w) | Double8(m) == Double8(m)
  {
  }

  lemma UnitInside8(w: bv8, m: bv8, b: bool)
    requires w | m == m
    ensures (w | Unit8(b)) | (m | Unit8(true)) == m | Unit8(true)
  {
  }

  /** Fewer than 8 ones leave the top bit free. */
  lemma {:induction false} OnesBelowTop8(n: nat)
    requires n <= 7
    ensures Inside8(Ones8(n), Ones8(7))
    decreases 7 - n
  {
    hide Inside8, Join8, Ones8;
    if n < 7 {
      OnesBelowTop8(n + 1);
      OnesGrow8(n);
      Within8(Ones8(n), Ones8(n + 1), Ones8(7));
    } else {
      Itself8(Ones8(7));
    }
  }

  lemma Itself8(m: bv8)
    ensures Inside8(m, m) && Inside8(0, m)
  {
  }

  lemma Within8(a: bv8, b: bv8, c: bv8)
    requires Inside8(a, b) && Inside8(b, c)
    ensures Inside8(a, c)
  {
  }

  lemma {:induction false} OnesGrow8(n: nat)
    ensures Inside8(Ones8(n), Ones8(n + 1))
  {
    hide Inside8, Join8;
    if n == 0 {
      Itself8(Ones8(1));
    } else {
      OnesGrow8(n - 1);
      ShiftBounded8(Ones8(n - 1), Ones8(n), true);
    }
  }

  lemma AppendLow8(w: bv8, m: bv8, b: bool)
    requires Inside8(w, m) && !Top8(m)
    ensures Half8(Join8(w, b)) == w && Low8(Join8(w, b)) == b
  {
  }

  /** The word has the bits of the row and no others. */
  lemma {:induction false} BitsOfWord8(u: Bits)
    requires |u| <= 8
    ensures Bits8(WordOf8(u), |u|) == u && Shift8(WordOf8(u), |u|) == 0
  {
    hide Half8, Low8, Top8, Join8, Inside8;
    if u != [] {
      var t := u[1..];
      BitsOfWord8(t);
      WordBounded8(t);
      OnesBelowTop8(|t|);
      Within8(WordOf8(t), Ones8(|t|), Ones8(7));
      TopFree8();
      AppendLow8(WordOf8(t), Ones8(7), u[0]);
    }
  }

  /** Two rows of the same length that fit the register never lead it to the same value. */
  lemma ShortDiffers8(u: Bits, v: Bits, c: bv8)
    requires |u| == |v| <= 8 && u != v
    ensures Fed8(u, c) != Fed8(v, c)
  {
    hide Steps8, Xor8, WordOf8, Shift8, Bits8;
    FedAsZeros8(u, c);
    FedAsZeros8(v, c);
    BitsOfWord8(u);
    BitsOfWord8(v);
    XorDiffers8(WordOf8(u), WordOf8(v), c);
    Injective8(Xor8(c, WordOf8(u)), Xor8(c, WordOf8(v)), |u|);
  }

  lemma FedAsZeros8(u: Bits, c: bv8)
    requires |u| <= 8
    ensures Fed8(u, c) == Steps8(Xor8(c, WordOf8(u)), 0, |u|)
  {
    hide Steps8, Xor8, WordOf8, Shift8, Bits8;
    var w := WordOf8(u);
    BitsOfWord8(u);
    StepsAreFed8(c, w, |u|);
    Merge8(c, w, |u|);
    XorNothing8(Steps8(c, w, |u|));
  }

  lemma {:induction false} FedStaysDifferent8(z: Bits, c: bv8, d: bv8)
    requires c != d
    ensures Fed8(z, c) != Fed8(z, d)
    decreases |z|
  {
    hide BitStep8;
    if z != [] {
      OneBitDiffers8(c, d, Unit8(z[0]));
      FedStaysDifferent8(z[1..], BitStep8(c, Unit8(z[0])), BitStep8(d, Unit8(z[0])));
    }
  }

  lemma OneBitDiffers8(c: bv8, d: bv8, b: bv8)
    requires c != d
    ensures BitStep8(c, b) != BitStep8(d, b)
  {
    hide BitStep8, Xor8, Half8;
    MergeBit8(c, b);
    MergeBit8(d, b);
    XorDiffers8(c, d, b);
    InjectiveBit8(Xor8(c, b), Xor8(d, b));
  }

  /** Any burst of at most 8 bits, at any bit of any message, changes its CRC-8. */
  lemma DetectsBurst8(m: seq<bv8>, m': seq<bv8>, a: Bits, u: Bits, v: Bits, z: Bits, crc: bv8)
    requires BitsOf(m) == a + u + z && BitsOf(m') == a + v + z
    requires |u| == |v| <= 8 && u != v
    ensures Serial8(m, crc) != Serial8(m', crc)
  {
    hide Serial8, Fed8, BitsOf;
    SerialIsFed8(m, crc);
    SerialIsFed8(m', crc);
    FedPieces8(a + u, z, crc);
    FedPieces8(a + v, z, crc);
    FedPieces8(a, u, crc);
    FedPieces8(a, v, crc);
    ShortDiffers8(u, v, Fed8(a, crc));
    FedStaysDifferent8(z, Fed8(u, Fed8(a, crc)), Fed8(v, Fed8(a, crc)));
  }

  // ---------------------------------------------------------------- parity

  /** Is the number of ones in the row odd? */
  predicate Odd(b: Bits) { b != [] && b[0] != Odd(b[1..]) }

  lemma {:induction false} OddPieces(a: Bits, b: Bits)
    ensures Odd(a + b) == (Odd(a) != Odd(b))
    decreases |a|
  {
    if a == [] {
      assert a + b == b;
    } else {
      assert (a + b)[1..] == a[1..] + b;
      OddPieces(a[1..], b);
    }
  }

  lemma {:induction false} OddSum(d: Bits, p: Bits)
    requires |d| == |p|
    ensures Odd(Plus(d, p)) == (Odd(d) != Odd(p))
    decreases |d|
  {
    if d != [] {
      var s := Plus(d, p);
      assert s[1..] == Plus(d[1..], p[1..]);
      OddSum(d[1..], p[1..]);
    }
  }

  /** In how many places do two rows of the same length differ? */
  function Differences(a: Bits, b: Bits): nat
    requires |a| == |b|
  {
    if a == [] then 0 else (if a[0] != b[0] then 1 else 0) + Differences(a[1..], b[1..])
  }

  lemma {:induction false} OddDifferences(a: Bits, b: Bits)
    requires |a| == |b|
    ensures Odd(a) != Odd(b) <==> Differences(a, b) % 2 == 1
    decreases |a|
  {
    if a != [] { OddDifferences(a[1..], b[1..]); }
  }

  /** Both divisors, with their leading terms, have an even number of terms. */
  lemma DivisorsOdd()
    ensures Odd(DIVISOR8) && Odd(DIVISOR16)
  {
    OddEight(DIVISOR8);
    OddEight(DIVISOR16[..8]);
    OddEight(DIVISOR16[8..]);
    OddPieces(DIVISOR16[..8], DIVISOR16[8..]);
    assert DIVISOR16[..8] + DIVISOR16[8..] == DIVISOR16;
  }

  lemma OddEight(b: Bits)
    requires |b| == 8
    ensures Odd(b) == (b[0] != (b[1] != (b[2] != (b[3] != (b[4] != (b[5] != (b[6] != b[7])))))))
  {
    hide Odd;
    OddFrom(b, 0);
    OddFrom(b, 1);
    OddFrom(b, 2);
    OddFrom(b, 3);
    OddFrom(b, 4);
    OddFrom(b, 5);
    OddFrom(b, 6);
    OddFrom(b, 7);
    assert b[0..] == b;
  }

  lemma OddFrom(b: Bits, i: nat)
    requires i < |b|
    ensures Odd(b[i..]) == (b[i] != Odd(b[i + 1..])) && !Odd(b[|b|..])
  {
    assert b[i..][1..] == b[i + 1..];
  }

  lemma OneFalse()
    ensures !Odd([false])
  {
    assert [false][1..] == [];
  }

  /** A step adds its bit to the parity of the register. */
  lemma StepParity16(c: bv16, b: bool)
    ensures Odd(Bits16(BitStep16(c, Unit16(b)), 16)) == (Odd(Bits16(c, 16)) != b)
  {
    hide Half16, Low16, Xor16, Unit16, POLY16, DIVISOR16, Plus;
    var r := Bits16(c, 16);
    assert r[0] == Low16(c);
    LowOfStep16(c, b);
    HalfBits16(c);
    OddPieces(r[1..], [false]);
    BitsOfSum16(Half16(c), POLY16, 16);
    PolyBits16();
    DivisorsOdd();
    OddSum(Bits16(Half16(c), 16), Bits16(POLY16, 16));
    OneFalse();
  }

  /** The register's parity is that of its initial value and of all the bits fed. */
  lemma {:induction false} FedParity16(bits: Bits, c: bv16)
    ensures Odd(Bits16(Fed16(bits, c), 16)) == (Odd(Bits16(c, 16)) != Odd(bits))
    decreases |bits|
  {
    hide BitStep16, Bits16;
    if bits != [] {
      StepParity16(c, bits[0]);
      FedParity16(bits[1..], BitStep16(c, Unit16(bits[0])));
    }
  }

  /** Any odd number of changed bits, however far apart, changes the CRC-16. */
  lemma DetectsOdd16(m: seq<bv8>, m': seq<bv8>, crc: bv16)
    requires |m| == |m'| && Differences(BitsOf(m), BitsOf(m')) % 2 == 1
    ensures Serial16(m, crc) != Serial16(m', crc)
  {
    hide Serial16, Fed16, BitsOf, Bits16, Odd, Differences;
    OddDifferences(BitsOf(m), BitsOf(m'));
    SerialIsFed16(m, crc);
    SerialIsFed16(m', crc);
    FedParity16(BitsOf(m), crc);
    FedParity16(BitsOf(m'), crc);
  }

  /** A step adds its bit to the parity of the register. */
  lemma StepParity8(c: bv8, b: bool)
    ensures Odd(Bits8(BitStep8(c, Unit8(b)), 8)) == (Odd(Bits8(c, 8)) != b)
  {
    hide Half8, Low8, Xor8, Unit8, POLY8, DIVISOR8, Plus;
    var r := Bits8(c, 8);
    assert r[0] == Low8(c);
    LowOfStep8(c, b);
    HalfBits8(c);
    OddPieces(r[1..], [false]);
    BitsOfSum8(Half8(c), POLY8, 8);
    PolyBits8();
    DivisorsOdd();
    OddSum(Bits8(Half8(c), 8), Bits8(POLY8, 8));
    OneFalse();
  }

  /** The register's parity is that of its initial value and of all the bits fed. */
  lemma {:induction false} FedParity8(bits: Bits, c: bv8)
    ensures Odd(Bits8(Fed8(bits, c), 8)) == (Odd(Bits8(c, 8)) != Odd(bits))
    decreases |bits|
  {
    hide BitStep8, Bits8;
    if bits != [] {
      StepParity8(c, bits[0]);
      FedParity8(bits[1..], BitStep8(c, Unit8(bits[0])));
    }
  }

  /** Any odd number of changed bits, however far apart, changes the CRC-8. */
  lemma DetectsOdd8(m: seq<bv8>, m': seq<bv8>, crc: bv8)
    requires |m| == |m'| && Differences(BitsOf(m), BitsOf(m')) % 2 == 1
    ensures Serial8(m, crc) != Serial8(m', crc)
  {
    hide Serial8, Fed8, BitsOf, Bits8, Odd, Differences;
    OddDifferences(BitsOf(m), BitsOf(m'));
    SerialIsFed8(m, crc);
    SerialIsFed8(m', crc);
    FedParity8(BitsOf(m), crc);
    FedParity8(BitsOf(m'), crc);
  }
}
