/** Reading and writing a bit field at an arbitrary offset of a byte array
    (bcmutils.c, setbits and getbits). */
module BitField {
  import opened Bits

  /** Bit k of a byte string, counted from the lowest bit of its first byte. */
  predicate BufBit(buf: seq<u8>, k: nat)
  {
    k / 8 < |buf| && Bit(buf[k / 8], k % 8)
  }

  /** The byte string read as a little-endian number. */
  function LeNum(buf: seq<u8>): nat
  {
    if buf == [] then 0 else buf[0] + Shl(LeNum(buf[1..]), 8)
  }

  /** The n-bit field that starts at bit stbit, as arithmetic on the little-endian number. */
  function Field(buf: seq<u8>, stbit: nat, n: nat): nat
  {
    LeNum(buf) / Pow2(stbit) % Pow2(n)
  }

  lemma {:induction false} LeNumBit(buf: seq<u8>, k: nat)
    ensures Bit(LeNum(buf), k) == BufBit(buf, k)
  {
    hide Bit, BufBit, Shl, Pow2;
    if buf == [] {
      BitOfZero(k);
      NoBits(k);
    } else {
      Pow2Values();
      JoinBit(buf[0], LeNum(buf[1..]), 8, k);
      BehindFirst(buf, k);
      if k >= 8 { LeNumBit(buf[1..], k - 8); }
    }
  }

  lemma NoBits(k: nat)
    ensures !BufBit([], k)
  {
  }

  lemma BehindFirst(buf: seq<u8>, k: nat)
    requires buf != []
    ensures BufBit(buf, k) == if k < 8 then Bit(buf[0], k) else BufBit(buf[1..], k - 8)
  {
    if k >= 8 { assert k / 8 == (k - 8) / 8 + 1 && k % 8 == (k - 8) % 8; }
  }

  lemma {:induction false} LeNumBound(buf: seq<u8>)
    ensures LeNum(buf) < Pow2(8 * |buf|)
  {
    if buf != [] {
      LeNumBound(buf[1..]);
      var m, p := LeNum(buf[1..]), Pow2(8 * |buf[1..]|);
      ShlIsMul(m, 8);
      Pow2Add(8 * |buf[1..]|, 8);
      Pow2Values();
    }
  }

  lemma FieldBit(buf: seq<u8>, stbit: nat, n: nat, j: nat)
    ensures Field(buf, stbit, n) < Pow2(n)
    ensures Bit(Field(buf, stbit, n), j) == (j < n && BufBit(buf, j + stbit))
  {
    var w := LeNum(buf);
    ShrIsDiv(w, stbit);
    LowIsMod(Shr(w, stbit), n);
    hide Bit, Shr, Low, LeNum, BufBit;
    LowBit(Shr(w, stbit), n, j);
    ShrBit(w, stbit, j);
    LeNumBit(buf, j + stbit);
  }

  // ---------------------------------------------------------------- what setbits writes

  /** The new value of bit k: the value's bit inside the field; above the field, in the rest of the
      field's last byte, excess bits of an oversized value are or-ed in; elsewhere the old bit. */
  predicate NewBit(old': seq<u8>, stbit: nat, n: nat, val: nat, k: nat)
    requires stbit + n >= 1
  {
    if stbit <= k < stbit + n then Bit(val, k - stbit)
    else if stbit + n <= k < 8 * LastIndex(stbit, n) + 8 then BufBit(old', k) || Bit(val, k - stbit)
    else BufBit(old', k)
  }

  ghost predicate Written(old': seq<u8>, new': seq<u8>, stbit: nat, n: nat, val: nat)
    requires stbit + n >= 1
  {
    |new'| == |old'| && forall k: nat :: BufBit(new', k) == NewBit(old', stbit, n, val, k)
  }

  /** Byte y already has its final value. */
  predicate ByteDone(old': seq<u8>, x: u8, y: nat, stbit: nat, n: nat, val: nat)
    requires stbit + n >= 1
  {
    forall b: nat | b < 8 :: Bit(x, b) == NewBit(old', stbit, n, val, 8 * y + b)
  }

  lemma ByteIndex(buf: seq<u8>, y: nat, b: nat)
    requires b < 8
    ensures BufBit(buf, 8 * y + b) == (y < |buf| && Bit(buf[y], b))
  {
    assert (8 * y + b) / 8 == y && (8 * y + b) % 8 == b;
  }

  lemma AllBytesDone(old': seq<u8>, new': seq<u8>, stbit: nat, n: nat, val: nat)
    requires stbit + n >= 1 && |new'| == |old'| && LastIndex(stbit, n) < |old'|
    requires forall y: nat | y < |new'| :: ByteDone(old', new'[y], y, stbit, n, val)
    ensures Written(old', new', stbit, n, val)
  {
    forall k: nat ensures BufBit(new', k) == NewBit(old', stbit, n, val, k) {
      var y, b := k / 8, k % 8;
      hide Bit;
      assert k == 8 * y + b;
      if y < |new'| { assert ByteDone(old', new'[y], y, stbit, n, val); }
    }
  }

  /** Clearing the bits of a mask and or-ing a value in, bit by bit. */
  lemma MaskedWrite(x: u8, mask: u8, w: u8)
    ensures Or(And(x, 0xFF - mask), w) < 0x100
    ensures forall b: nat | b < 8 :: Bit(Or(And(x, 0xFF - mask), w), b) == ((Bit(x, b) && !Bit(mask, b)) || Bit(w, b))
  {
    hide Bit, And, Or, Pow2;
    Pow2Values();
    OrBound(And(x, 0xFF - mask), w, 8);
    forall b: nat | b < 8
      ensures Bit(Or(And(x, 0xFF - mask), w), b) == ((Bit(x, b) && !Bit(mask, b)) || Bit(w, b))
    {
      OrBit(And(x, 0xFF - mask), w, b);
      AndBit(x, 0xFF - mask, b);
      NotBit(mask, 8, b);
    }
  }

  /** A value truncated to a byte. */
  function Byte(w: nat): u8
  {
    Pow2Values();
    Low(w, 8)
  }

  lemma ByteBit(w: nat, b: nat)
    requires b < 8
    ensures Bit(Byte(w), b) == Bit(w, b)
  {
    LowBit(w, 8, b);
  }

  /** The mask of bits lo..hi-1 of a byte, as setbits and getbits build it. */
  lemma MaskBit(n: nat, fbit: nat, b: nat)
    requires b < 8
    ensures Bit(Byte(Shl(Pow2(n) - 1, fbit)), b) == (fbit <= b < fbit + n)
  {
    hide Bit, Shl, Byte, Pow2;
    ByteBit(Shl(Pow2(n) - 1, fbit), b);
    ShlBit(Pow2(n) - 1, fbit, b);
    if fbit <= b { OnesBit(n, b - fbit); }
  }

  /** The first byte, when the field ends in it or runs through its top bit. */
  lemma FirstByte(old': seq<u8>, stbit: nat, n: nat, val: nat, y: nat, fbit: nat, mask: u8)
    requires stbit + n >= 1 && stbit == 8 * y + fbit && fbit < 8 && y < |old'|
    requires y == LastIndex(stbit, n) || 8 * y + 8 <= stbit + n
    requires forall b: nat | b < 8 :: Bit(mask, b) == (fbit <= b < fbit + n)
    ensures Or(And(old'[y], 0xFF - mask), Byte(Shl(val, fbit))) < 0x100
    ensures ByteDone(old', Or(And(old'[y], 0xFF - mask), Byte(Shl(val, fbit))), y, stbit, n, val)
  {
    hide Bit, Shl, Byte, And, Or, BufBit;
    var w := Byte(Shl(val, fbit));
    MaskedWrite(old'[y], mask, w);
    var x := Or(And(old'[y], 0xFF - mask), w);
    forall b: nat | b < 8
      ensures Bit(x, b) == NewBit(old', stbit, n, val, 8 * y + b)
    {
      ByteIndex(old', y, b);
      ByteBit(Shl(val, fbit), b);
      ShlBit(val, fbit, b);
    }
  }

  /** The last byte, of which the field covers the low rbits bits. */
  lemma LastByte(old': seq<u8>, stbit: nat, n: nat, val: nat, y: nat, rbits: nat, mask: u8, w: u8)
    requires 0 < rbits < 8 && 8 * y + rbits == stbit + n && stbit <= 8 * y && y < |old'|
    requires forall b: nat | b < 8 :: Bit(mask, b) == (b < rbits) && Bit(w, b) == Bit(val, 8 * y + b - stbit)
    ensures Or(And(old'[y], 0xFF - mask), w) < 0x100
    ensures ByteDone(old', Or(And(old'[y], 0xFF - mask), w), y, stbit, n, val)
  {
    hide Bit, And, Or, BufBit;
    MaskedWrite(old'[y], mask, w);
    assert LastIndex(stbit, n) == y;
    var x := Or(And(old'[y], 0xFF - mask), w);
    forall b: nat | b < 8
      ensures Bit(x, b) == NewBit(old', stbit, n, val, 8 * y + b)
    {
      ByteIndex(old', y, b);
    }
  }

  lemma FullByte(old': seq<u8>, stbit: nat, n: nat, val: nat, y: nat)
    requires stbit <= 8 * y && 8 * y + 8 <= stbit + n
    ensures ByteDone(old', Byte(Shr(val, 8 * y - stbit)), y, stbit, n, val)
  {
    hide Bit, Byte, Shr;
    var x := Byte(Shr(val, 8 * y - stbit));
    forall b: nat | b < 8
      ensures Bit(x, b) == NewBit(old', stbit, n, val, 8 * y + b)
    {
      ByteBit(Shr(val, 8 * y - stbit), b);
      ShrBit(val, 8 * y - stbit, b);
    }
  }

  lemma ByteOutside(old': seq<u8>, stbit: nat, n: nat, val: nat, y: nat)
    requires stbit + n >= 1 && y < |old'|
    requires y < FirstIndex(stbit) || y > LastIndex(stbit, n)
    ensures ByteDone(old', old'[y], y, stbit, n, val)
  {
    hide Bit, BufBit;
    forall b: nat | b < 8 ensures Bit(old'[y], b) == NewBit(old', stbit, n, val, 8 * y + b) {
      ByteIndex(old', y, b);
    }
  }

  // ---------------------------------------------------------------- where a field lies

  /** First and last byte of the field, its place in the first byte, and how many of its bits are in a
      last byte that it does not fill. */
  function FirstIndex(stbit: nat): nat { stbit / 8 }
  function FirstOffset(stbit: nat): nat { stbit % 8 }

  function LastIndex(stbit: nat, n: nat): nat
    requires 1 <= stbit + n
  {
    (stbit + n - 1) / 8
  }

  function LastBits(stbit: nat, n: nat): nat
  {
    var fbit := stbit % 8;
    (if n > 8 - fbit then n - (8 - fbit) else 0) % 8
  }

  /** How the numbers belong together; full bytes are those between a partial first and a partial
      last one. */
  lemma Layout(stbit: nat, n: nat)
    requires 1 <= stbit + n
    ensures var fbyte, fbit, rbits := FirstIndex(stbit), FirstOffset(stbit), LastBits(stbit, n);
      && stbit == 8 * fbyte + fbit && fbit < 8 && rbits < 8
      && (FirstIndex(stbit) == LastIndex(stbit, n) ==> fbit + n <= 8)
      && (fbyte != LastIndex(stbit, n) ==> SpreadOut(stbit, n, fbyte, LastIndex(stbit, n), fbit, rbits))
  {
    var fbyte, fbit, rbits := stbit / 8, stbit % 8, LastBits(stbit, n);
    var behind := fbit + n - 8;
    if behind > 0 {
      var full := behind / 8;
      assert stbit + n - 1 == 8 * (fbyte + 1 + full) + rbits - 1;
    }
  }

  predicate SpreadOut(stbit: nat, n: nat, fbyte: nat, lbyte: nat, fbit: nat, rbits: nat)
  {
    && fbyte <= lbyte + 1 && n >= rbits
    && (fbit > 0 ==> fbyte < lbyte && n >= 8 - fbit + rbits) && (rbits > 0 ==> fbyte < lbyte)
    && (if rbits > 0 then 8 * lbyte + rbits == stbit + n else 8 * lbyte + 8 == stbit + n)
  }

  /** setbits: writes the low n bits of val at bit stbit. */
  method SetBits(addr: array<u8>, stbit: nat, nbits: nat, val: u32)
    requires 1 <= stbit + nbits && nbits <= 32
    requires FirstIndex(stbit) < addr.Length && LastIndex(stbit, nbits) < addr.Length
    modifies addr
    ensures Written(old(addr[..]), addr[..], stbit, nbits, val)
  {
    hide Bit, Shl, Shr, Byte, And, Or, Pow2, NewBit, ByteDone, FirstIndex, LastIndex, FirstOffset, LastBits;
    ghost var old' := addr[..];
    var fbyte, lbyte, fbit := FirstIndex(stbit), LastIndex(stbit, nbits), FirstOffset(stbit);
    var rbits := LastBits(stbit, nbits);
    Layout(stbit, nbits);
    ghost var first, last := fbyte, lbyte;
    forall y: nat | y < addr.Length && (y < fbyte || y > lbyte)
      ensures ByteDone(old', old'[y], y, stbit, nbits, val)
    {
      ByteOutside(old', stbit, nbits, val, y);
    }
    if fbyte == lbyte {
      var mask := Byte(Shl(Pow2(nbits) - 1, fbit));
      forall b: nat | b < 8 ensures Bit(mask, b) == (fbit <= b < fbit + nbits) { MaskBit(nbits, fbit, b); }
      FirstByte(old', stbit, nbits, val, fbyte, fbit, mask);
      addr[fbyte] := And(addr[fbyte], 0xFF - mask);
      addr[fbyte] := Or(addr[fbyte], Byte(Shl(val, fbit)));
      AllBytesDone(old', addr[..], stbit, nbits, val);
      return;
    }
    var v: nat, rest := val, nbits;
    assert Shr(val, 0) == val by { ShrNone(val); }
    if fbit > 0 {
      FirstMask(stbit, nbits, fbit);
      var mask := Byte(Shl(0xFF, fbit));
      FirstByte(old', stbit, nbits, val, fbyte, fbit, mask);
      addr[fbyte] := And(addr[fbyte], 0xFF - mask);
      addr[fbyte] := Or(addr[fbyte], Byte(Shl(val, fbit)));
      v := Shr(v, 8 - fbit);
      rest := rest - (8 - fbit);
      fbyte := fbyte + 1;
    }
    assert v == Shr(val, 8 * fbyte - stbit) && stbit + nbits == 8 * fbyte + rest;
    if rbits > 0 {
      LastMask(val, v, 8 * fbyte - stbit, rest - rbits, rbits, Pow2(rbits) - 1);
      var mask := Pow2(rbits) - 1;
      var w := Byte(Shr(v, rest - rbits));
      LastByte(old', stbit, nbits, val, lbyte, rbits, mask, w);
      addr[lbyte] := And(addr[lbyte], 0xFF - mask);
      addr[lbyte] := Or(addr[lbyte], w);
      lbyte := lbyte - 1;
    }
    var byte := fbyte;
    while byte <= lbyte
      invariant fbyte <= byte <= lbyte + 1
      invariant v == Shr(val, 8 * byte - stbit)
      invariant forall y: nat | y < addr.Length && !(byte <= y <= lbyte) ::
        ByteDone(old', addr[y], y, stbit, nbits, val)
    {
      FullByte(old', stbit, nbits, val, byte);
      ShrShr(val, 8 * byte - stbit, 8);
      addr[byte] := Byte(v);
      v := Shr(v, 8);
      byte := byte + 1;
    }
    AllBytesDone(old', addr[..], stbit, nbits, val);
  }

  lemma FirstMask(stbit: nat, n: nat, fbit: nat)
    requires 0 < fbit < 8 && n >= 8 - fbit
    ensures forall b: nat | b < 8 :: Bit(Byte(Shl(0xFF, fbit)), b) == (fbit <= b < fbit + n)
  {
    Pow2Values();
    forall b: nat | b < 8 ensures Bit(Byte(Shl(0xFF, fbit)), b) == (fbit <= b < fbit + n) {
      MaskBit(8, fbit, b);
    }
  }

  lemma LastMask(val: nat, v: nat, c: nat, d: nat, rbits: nat, mask: nat)
    requires v == Shr(val, c) && 0 < rbits < 8 && mask == Pow2(rbits) - 1
    ensures mask < 0x100
    ensures forall b: nat | b < 8 :: Bit(mask, b) == (b < rbits)
    ensures forall b: nat | b < 8 :: Bit(Byte(Shr(v, d)), b) == Bit(val, b + d + c)
  {
    Pow2Values();
    Pow2Mono(rbits, 8);
    hide Bit, Byte, Shr, Pow2;
    forall b: nat | b < 8
      ensures Bit(mask, b) == (b < rbits) && Bit(Byte(Shr(v, d)), b) == Bit(val, b + d + c)
    {
      OnesBit(rbits, b);
      ByteBit(Shr(v, d), b);
      ShrBit(v, d, b);
      ShrBit(val, c, b + d);
    }
  }

  // ---------------------------------------------------------------- what getbits reads

  /** getbits: the field as a number. */
  method GetBits(addr: array<u8>, stbit: nat, nbits: nat) returns (val: u32)
    requires 1 <= stbit + nbits && nbits <= 32
    requires FirstIndex(stbit) < addr.Length && LastIndex(stbit, nbits) < addr.Length
    ensures val == Field(addr[..], stbit, nbits)
  {
    hide Bit, Shl, Shr, Byte, And, Or, Pow2, BufBit, Field, Covered;
    hide FirstIndex, LastIndex, FirstOffset, LastBits;
    ghost var buf := addr[..];
    var fbyte, lbyte, fbit := FirstIndex(stbit), LastIndex(stbit, nbits), FirstOffset(stbit);
    var rbits := LastBits(stbit, nbits);
    Layout(stbit, nbits);
    if fbyte == lbyte {
      var mask := Byte(Shl(Pow2(nbits) - 1, fbit));
      val := Shr(And(addr[fbyte], mask), fbit);
      OneByteField(buf, stbit, nbits, fbyte, fbit, val);
      return;
    }
    var bits := 0;
    val := 0;
    NothingRead(buf, stbit);
    if fbit > 0 {
      bits := 8 - fbit;
      var mask := Byte(Shl(0xFF, fbit));
      FirstPart(buf, stbit, fbyte, fbit);
      val := Or(val, Shr(And(addr[fbyte], mask), fbit));
      fbyte := fbyte + 1;
    }
    ghost var top: nat := nbits - rbits;
    if rbits > 0 {
      var mask := Pow2(rbits) - 1;
      LastPart(buf, stbit, bits, val, lbyte, rbits, top);
      val := Or(val, Shl(And(addr[lbyte], mask), nbits - rbits));
      lbyte := lbyte - 1;
    } else {
      assert Covered(buf, stbit, val, bits, top, 0) by { NothingAbove(buf, stbit, val, bits, top); }
    }
    var byte := fbyte;
    while byte <= lbyte
      invariant fbyte <= byte <= lbyte + 1
      invariant Covered(buf, stbit, val, bits + 8 * (byte - fbyte), top, rbits)
    {
      FullPart(buf, stbit, val, byte, bits + 8 * (byte - fbyte), top, rbits);
      val := Or(val, Shl(addr[byte], 8 * (byte - fbyte) + bits));
      byte := byte + 1;
    }
    AllCovered(buf, stbit, nbits, val, top, rbits);
  }

  /** The bits of val read so far: those below `low`, and `extra` bits from `top` up. */
  ghost predicate Covered(buf: seq<u8>, stbit: nat, val: nat, low: nat, top: nat, extra: nat)
  {
    val < 0x1_0000_0000 &&
    forall j: nat :: Bit(val, j) == ((j < low || top <= j < top + extra) && BufBit(buf, j + stbit))
  }

  lemma NothingRead(buf: seq<u8>, stbit: nat)
    ensures forall top: nat :: Covered(buf, stbit, 0, 0, top, 0)
  {
    forall j: nat ensures !Bit(0, j) { BitOfZero(j); }
  }

  lemma NothingAbove(buf: seq<u8>, stbit: nat, val: nat, low: nat, top: nat)
    requires Covered(buf, stbit, val, low, low, 0)
    ensures Covered(buf, stbit, val, low, top, 0)
  {
  }

  lemma OneByteField(buf: seq<u8>, stbit: nat, n: nat, y: nat, fbit: nat, val: nat)
    requires stbit == 8 * y + fbit && fbit < 8 && y < |buf| && fbit + n <= 8
    requires val == Shr(And(buf[y], Byte(Shl(Pow2(n) - 1, fbit))), fbit)
    ensures val == Field(buf, stbit, n)
  {
    hide Bit, Shl, Shr, Byte, And, Pow2, BufBit, Field;
    var mask := Byte(Shl(Pow2(n) - 1, fbit));
    forall j: nat ensures Bit(val, j) == Bit(Field(buf, stbit, n), j) {
      FieldBit(buf, stbit, n, j);
      ShrBit(And(buf[y], mask), fbit, j);
      AndBit(buf[y], mask, j + fbit);
      if j + fbit < 8 {
        MaskBit(n, fbit, j + fbit);
        ByteIndex(buf, y, j + fbit);
      } else {
        Pow2Values();
        BitAbove(mask, 8, j + fbit);
      }
    }
    Pow2Values();
    Pow2Mono(n, 8);
    FieldBit(buf, stbit, n, 0);
    SameBits(val, Field(buf, stbit, n), 8);
  }

  lemma FirstPart(buf: seq<u8>, stbit: nat, y: nat, fbit: nat)
    requires stbit == 8 * y + fbit && 0 < fbit < 8 && y < |buf|
    ensures Or(0, Shr(And(buf[y], Byte(Shl(0xFF, fbit))), fbit)) < 0x1_0000_0000
    ensures Covered(buf, stbit, Or(0, Shr(And(buf[y], Byte(Shl(0xFF, fbit))), fbit)), 8 - fbit, 8 - fbit, 0)
  {
    hide Bit, Shl, Shr, Byte, And, Or, Pow2, BufBit;
    Pow2Values();
    var mask := Byte(Shl(0xFF, fbit));
    var part := Shr(And(buf[y], mask), fbit);
    forall j: nat ensures Bit(Or(0, part), j) == (j < 8 - fbit && BufBit(buf, j + stbit)) {
      OrBit(0, part, j);
      BitOfZero(j);
      ShrBit(And(buf[y], mask), fbit, j);
      AndBit(buf[y], mask, j + fbit);
      if j + fbit < 8 {
        MaskBit(8, fbit, j + fbit);
        ByteIndex(buf, y, j + fbit);
      } else {
        BitAbove(mask, 8, j + fbit);
      }
    }
  }

  lemma LastPart(buf: seq<u8>, stbit: nat, low: nat, val: nat, y: nat, rbits: nat, top: nat)
    requires Covered(buf, stbit, val, low, low, 0) && low <= top && top + rbits <= 32
    requires 0 < rbits < 8 && 8 * y == stbit + top && y < |buf|
    ensures Pow2(rbits) - 1 < 0x100
    ensures Or(val, Shl(And(buf[y], Pow2(rbits) - 1), top)) < 0x1_0000_0000
    ensures Covered(buf, stbit, Or(val, Shl(And(buf[y], Pow2(rbits) - 1), top)), low, top, rbits)
  {
    hide Bit, Shl, And, Or, Pow2, BufBit;
    Pow2Values();
    Pow2Mono(rbits, 8);
    Pow2Mono(rbits + top, 32);
    var part := And(buf[y], Pow2(rbits) - 1);
    ShlBound(part, top, rbits);
    OrBound(val, Shl(part, top), 32);
    forall j: nat
      ensures Bit(Or(val, Shl(part, top)), j) == ((j < low || top <= j < top + rbits) && BufBit(buf, j + stbit))
    {
      OrBit(val, Shl(part, top), j);
      ShlBit(part, top, j);
      if top <= j {
        AndBit(buf[y], Pow2(rbits) - 1, j - top);
        OnesBit(rbits, j - top);
        if j - top < 8 { ByteIndex(buf, y, j - top); }
      }
    }
  }

  lemma FullPart(buf: seq<u8>, stbit: nat, val: nat, y: nat, low: nat, top: nat, extra: nat)
    requires Covered(buf, stbit, val, low, top, extra)
    requires 8 * y == stbit + low && low + 8 <= top && top + extra <= 32 && y < |buf|
    ensures Or(val, Shl(buf[y], low)) < 0x1_0000_0000
    ensures Covered(buf, stbit, Or(val, Shl(buf[y], low)), low + 8, top, extra)
  {
    hide Bit, Shl, Or, Pow2, BufBit;
    Pow2Values();
    Pow2Mono(8 + low, 32);
    ShlBound(buf[y], low, 8);
    OrBound(val, Shl(buf[y], low), 32);
    forall j: nat
      ensures Bit(Or(val, Shl(buf[y], low)), j) == ((j < low + 8 || top <= j < top + extra) && BufBit(buf, j + stbit))
    {
      FullPartBit(buf, stbit, val, y, low, j);
    }
  }

  lemma FullPartBit(buf: seq<u8>, stbit: nat, val: nat, y: nat, low: nat, j: nat)
    requires 8 * y == stbit + low && y < |buf|
    ensures Bit(Or(val, Shl(buf[y], low)), j) == (Bit(val, j) || (low <= j < low + 8 && BufBit(buf, j + stbit)))
  {
    hide Bit, Shl, Or, BufBit;
    Pow2Values();
    OrBit(val, Shl(buf[y], low), j);
    ShlBit(buf[y], low, j);
    if low <= j < low + 8 { ByteIndex(buf, y, j - low); }
    if low + 8 <= j { BitAbove(buf[y], 8, j - low); }
  }

  lemma AllCovered(buf: seq<u8>, stbit: nat, n: nat, val: nat, top: nat, extra: nat)
    requires Covered(buf, stbit, val, top, top, extra) && top + extra == n <= 32
    ensures val == Field(buf, stbit, n)
  {
    Pow2Values();
    Pow2Mono(n, 32);
    FieldBit(buf, stbit, n, 0);
    hide Bit, Pow2, BufBit, Field;
    forall j: nat ensures Bit(val, j) == Bit(Field(buf, stbit, n), j) { FieldBit(buf, stbit, n, j); }
    SameBits(val, Field(buf, stbit, n), 32);
  }

  // ---------------------------------------------------------------- the two together

  /** A value that fits is read back, and every other field keeps its value. */
  lemma ReadBack(old': seq<u8>, new': seq<u8>, stbit: nat, n: nat, val: nat)
    requires stbit + n >= 1 && Written(old', new', stbit, n, val)
    requires val < Pow2(n)
    ensures Field(new', stbit, n) == val
    ensures forall st: nat, m: nat | st + m <= stbit || stbit + n <= st :: Field(new', st, m) == Field(old', st, m)
  {
    hide Bit, Pow2, BufBit, Field;
    FieldBit(new', stbit, n, 0);
    forall j: nat | j < n ensures Bit(Field(new', stbit, n), j) == Bit(val, j) {
      FieldBit(new', stbit, n, j);
      assert BufBit(new', j + stbit) == NewBit(old', stbit, n, val, j + stbit);
    }
    SameBits(Field(new', stbit, n), val, n);
    forall st: nat, m: nat | st + m <= stbit || stbit + n <= st ensures Field(new', st, m) == Field(old', st, m) {
      FieldBit(new', st, m, 0);
      FieldBit(old', st, m, 0);
      forall j: nat | j < m ensures Bit(Field(new', st, m), j) == Bit(Field(old', st, m), j) {
        FieldBit(new', st, m, j);
        FieldBit(old', st, m, j);
        assert BufBit(new', j + st) == NewBit(old', stbit, n, val, j + st);
        if j + st >= stbit + n { BitAbove(val, n, j + st - stbit); }
      }
      SameBits(Field(new', st, m), Field(old', st, m), m);
    }
  }

  /** With a value of any size, the bits outside the field are unchanged exactly when every excess
      bit of the value that falls into the field's last byte meets a bit that was already set. */
  lemma OversizedValue(old': seq<u8>, new': seq<u8>, stbit: nat, n: nat, val: nat)
    requires stbit + n >= 1 && Written(old', new', stbit, n, val)
    ensures (forall k: nat | k < stbit || stbit + n <= k :: BufBit(new', k) == BufBit(old', k))
       <==> (forall k: nat | stbit + n <= k < 8 * LastIndex(stbit, n) + 8 :: Bit(val, k - stbit) ==> BufBit(old', k))
  {
    hide Bit, BufBit;
    if forall k: nat | k < stbit || stbit + n <= k :: BufBit(new', k) == BufBit(old', k) {
      forall k: nat | stbit + n <= k < 8 * LastIndex(stbit, n) + 8 ensures Bit(val, k - stbit) ==> BufBit(old', k) {
        assert BufBit(new', k) == NewBit(old', stbit, n, val, k);
      }
    }
  }

  /** setbits really can disturb a neighbour: a 1-bit field given the value 3. */
  method SetBitsSpills() returns (neighbour: u32)
    ensures neighbour == 1
  {
    var addr := new u8[1](_ => 0);
    ghost var before := addr[..];
    SetBits(addr, 0, 1, 3);
    neighbour := GetBits(addr, 1, 1);
    assert Bit(3, 1) && Bit(3 / 2, 0);
    assert BufBit(addr[..], 1) == NewBit(before, 0, 1, 3, 1);
    FieldBit(addr[..], 1, 1, 0);
    assert Pow2(1) == 2;
  }
}
