/** The table-driven CRC-8 and CRC-16 (bcmutils.c: hndcrc8, hndcrc16). Both are reflected: the
    register shifts right and the bits of a byte enter lowest first, so the polynomials appear
    with their coefficients reversed. */
module Crc {

  /** x^8 + x^7 + x^6 + x^4 + x^2 + 1, without its leading term, reversed. */
  const POLY8: bv8 := 0xAB
  const CRC8_GOOD_VALUE: bv8 := 0x9F

  /** x^16 + x^12 + x^5 + 1, without its leading term, reversed. */
  const POLY16: bv16 := 0x8408
  const CRC16_GOOD_VALUE: bv16 := 0xF0B8

  // ---------------------------------------------------------------- reference: one bit at a time

  /** One step of the division register: the message bit, which is the lowest bit of b, joins the
      bit shifted out, and when their sum is one the polynomial is subtracted. The names for the
      two word operations keep the proofs by induction free of bit-level reasoning. */
  function Xor8(a: bv8, b: bv8): bv8 { a ^ b }

  function Half8(a: bv8): bv8 { a >> 1 }

  predicate Low8(a: bv8) { a & 1 == 1 }

  function BitStep8(c: bv8, b: bv8): bv8
  {
    if Low8(Xor8(c, b)) then Xor8(Half8(c), POLY8) else Half8(c)
  }

  function Xor16(a: bv16, b: bv16): bv16 { a ^ b }

  function Half16(a: bv16): bv16 { a >> 1 }

  predicate Low16(a: bv16) { a & 1 == 1 }

  function BitStep16(c: bv16, b: bv16): bv16
  {
    if Low16(Xor16(c, b)) then Xor16(Half16(c), POLY16) else Half16(c)
  }

  /** n steps with the n lowest bits of x, lowest first. */
  function Steps8(c: bv8, x: bv8, n: nat): bv8
    decreases n
  {
    if n == 0 then c else Steps8(BitStep8(c, x), Half8(x), n - 1)
  }

  function Steps16(c: bv16, x: bv16, n: nat): bv16
    decreases n
  {
    if n == 0 then c else Steps16(BitStep16(c, x), Half16(x), n - 1)
  }

  function ByteStep8(c: bv8, x: bv8): bv8 { Steps8(c, x, 8) }

  function ByteStep16(c: bv16, x: bv16): bv16 { Steps16(c, x, 8) }

  /** The register after a whole message. */
  function Serial8(msg: seq<bv8>, crc: bv8): bv8
  {
    if msg == [] then crc else Serial8(msg[1..], ByteStep8(crc, msg[0]))
  }

  function Serial16(msg: seq<bv8>, crc: bv16): bv16
  {
    if msg == [] then crc else Serial16(msg[1..], ByteStep16(crc, msg[0] as bv16))
  }

  // ---------------------------------------------------------------- the tables

  function Pick8(i: bv8, t0: bv8, t1: bv8, t2: bv8, t3: bv8, t4: bv8, t5: bv8, t6: bv8, t7: bv8,
                  t8: bv8, t9: bv8, t10: bv8, t11: bv8, t12: bv8, t13: bv8, t14: bv8, t15: bv8): bv8
  {
    if i == 0 then t0
    else if i == 1 then t1
    else if i == 2 then t2
    else if i == 3 then t3
    else if i == 4 then t4
    else if i == 5 then t5
    else if i == 6 then t6
    else if i == 7 then t7
    else if i == 8 then t8
    else if i == 9 then t9
    else if i == 10 then t10
    else if i == 11 then t11
    else if i == 12 then t12
    else if i == 13 then t13
    else if i == 14 then t14
    else t15
  }

  function Crc8Table(v: bv8): bv8
  {
    var hi, lo := v >> 4, v & 0x0F;
    if hi == 0x0 then
      Pick8(lo, 0x00, 0xF7, 0xB9, 0x4E, 0x25, 0xD2, 0x9C, 0x6B, 0x4A, 0xBD, 0xF3, 0x04, 0x6F, 0x98, 0xD6, 0x21)
    else if hi == 0x1 then
      Pick8(lo, 0x94, 0x63, 0x2D, 0xDA, 0xB1, 0x46, 0x08, 0xFF, 0xDE, 0x29, 0x67, 0x90, 0xFB, 0x0C, 0x42, 0xB5)
    else if hi == 0x2 then
      Pick8(lo, 0x7F, 0x88, 0xC6, 0x31, 0x5A, 0xAD, 0xE3, 0x14, 0x35, 0xC2, 0x8C, 0x7B, 0x10, 0xE7, 0xA9, 0x5E)
    else if hi == 0x3 then
      Pick8(lo, 0xEB, 0x1C, 0x52, 0xA5, 0xCE, 0x39, 0x77, 0x80, 0xA1, 0x56, 0x18, 0xEF, 0x84, 0x73, 0x3D, 0xCA)
    else if hi == 0x4 then
      Pick8(lo, 0xFE, 0x09, 0x47, 0xB0, 0xDB, 0x2C, 0x62, 0x95, 0xB4, 0x43, 0x0D, 0xFA, 0x91, 0x66, 0x28, 0xDF)
    else if hi == 0x5 then
      Pick8(lo, 0x6A, 0x9D, 0xD3, 0x24, 0x4F, 0xB8, 0xF6, 0x01, 0x20, 0xD7, 0x99, 0x6E, 0x05, 0xF2, 0xBC, 0x4B)
    else if hi == 0x6 then
      Pick8(lo, 0x81, 0x76, 0x38, 0xCF, 0xA4, 0x53, 0x1D, 0xEA, 0xCB, 0x3C, 0x72, 0x85, 0xEE, 0x19, 0x57, 0xA0)
    else if hi == 0x7 then
      Pick8(lo, 0x15, 0xE2, 0xAC, 0x5B, 0x30, 0xC7, 0x89, 0x7E, 0x5F, 0xA8, 0xE6, 0x11, 0x7A, 0x8D, 0xC3, 0x34)
    else if hi == 0x8 then
      Pick8(lo, 0xAB, 0x5C, 0x12, 0xE5, 0x8E, 0x79, 0x37, 0xC0, 0xE1, 0x16, 0x58, 0xAF, 0xC4, 0x33, 0x7D, 0x8A)
    else if hi == 0x9 then
      Pick8(lo, 0x3F, 0xC8, 0x86, 0x71, 0x1A, 0xED, 0xA3, 0x54, 0x75, 0x82, 0xCC, 0x3B, 0x50, 0xA7, 0xE9, 0x1E)
    else if hi == 0xA then
      Pick8(lo, 0xD4, 0x23, 0x6D, 0x9A, 0xF1, 0x06, 0x48, 0xBF, 0x9E, 0x69, 0x27, 0xD0, 0xBB, 0x4C, 0x02, 0xF5)
    else if hi == 0xB then
      Pick8(lo, 0x40, 0xB7, 0xF9, 0x0E, 0x65, 0x92, 0xDC, 0x2B, 0x0A, 0xFD, 0xB3, 0x44, 0x2F, 0xD8, 0x96, 0x61)
    else if hi == 0xC then
      Pick8(lo, 0x55, 0xA2, 0xEC, 0x1B, 0x70, 0x87, 0xC9, 0x3E, 0x1F, 0xE8, 0xA6, 0x51, 0x3A, 0xCD, 0x83, 0x74)
    else if hi == 0xD then
      Pick8(lo, 0xC1, 0x36, 0x78, 0x8F, 0xE4, 0x13, 0x5D, 0xAA, 0x8B, 0x7C, 0x32, 0xC5, 0xAE, 0x59, 0x17, 0xE0)
    else if hi == 0xE then
      Pick8(lo, 0x2A, 0xDD, 0x93, 0x64, 0x0F, 0xF8, 0xB6, 0x41, 0x60, 0x97, 0xD9, 0x2E, 0x45, 0xB2, 0xFC, 0x0B)
    else
      Pick8(lo, 0xBE, 0x49, 0x07, 0xF0, 0x9B, 0x6C, 0x22, 0xD5, 0xF4, 0x03, 0x4D, 0xBA, 0xD1, 0x26, 0x68, 0x9F)
  }

  function Pick16(i: bv16, t0: bv16, t1: bv16, t2: bv16, t3: bv16, t4: bv16, t5: bv16, t6: bv16, t7: bv16,
                  t8: bv16, t9: bv16, t10: bv16, t11: bv16, t12: bv16, t13: bv16, t14: bv16, t15: bv16): bv16
  {
    if i == 0 then t0
    else if i == 1 then t1
    else if i == 2 then t2
    else if i == 3 then t3
    else if i == 4 then t4
    else if i == 5 then t5
    else if i == 6 then t6
    else if i == 7 then t7
    else if i == 8 then t8
    else if i == 9 then t9
    else if i == 10 then t10
    else if i == 11 then t11
    else if i == 12 then t12
    else if i == 13 then t13
    else if i == 14 then t14
    else t15
  }

  function Crc16Table(v: bv16): bv16
  {
    var hi, lo := v >> 4, v & 0x0F;
    if hi == 0x0 then
      Pick16(lo, 0x0000, 0x1189, 0x2312, 0x329B, 0x4624, 0x57AD, 0x6536, 0x74BF,
                 0x8C48, 0x9DC1, 0xAF5A, 0xBED3, 0xCA6C, 0xDBE5, 0xE97E, 0xF8F7)
    else if hi == 0x1 then
      Pick16(lo, 0x1081, 0x0108, 0x3393, 0x221A, 0x56A5, 0x472C, 0x75B7, 0x643E,
                 0x9CC9, 0x8D40, 0xBFDB, 0xAE52, 0xDAED, 0xCB64, 0xF9FF, 0xE876)
    else if hi == 0x2 then
      Pick16(lo, 0x2102, 0x308B, 0x0210, 0x1399, 0x6726, 0x76AF, 0x4434, 0x55BD,
                 0xAD4A, 0xBCC3, 0x8E58, 0x9FD1, 0xEB6E, 0xFAE7, 0xC87C, 0xD9F5)
    else if hi == 0x3 then
      Pick16(lo, 0x3183, 0x200A, 0x1291, 0x0318, 0x77A7, 0x662E, 0x54B5, 0x453C,
                 0xBDCB, 0xAC42, 0x9ED9, 0x8F50, 0xFBEF, 0xEA66, 0xD8FD, 0xC974)
    else if hi == 0x4 then
      Pick16(lo, 0x4204, 0x538D, 0x6116, 0x709F, 0x0420, 0x15A9, 0x2732, 0x36BB,
                 0xCE4C, 0xDFC5, 0xED5E, 0xFCD7, 0x8868, 0x99E1, 0xAB7A, 0xBAF3)
    else if hi == 0x5 then
      Pick16(lo, 0x5285, 0x430C, 0x7197, 0x601E, 0x14A1, 0x0528, 0x37B3, 0x263A,
                 0xDECD, 0xCF44, 0xFDDF, 0xEC56, 0x98E9, 0x8960, 0xBBFB, 0xAA72)
    else if hi == 0x6 then
      Pick16(lo, 0x6306, 0x728F, 0x4014, 0x519D, 0x2522, 0x34AB, 0x0630, 0x17B9,
                 0xEF4E, 0xFEC7, 0xCC5C, 0xDDD5, 0xA96A, 0xB8E3, 0x8A78, 0x9BF1)
    else if hi == 0x7 then
      Pick16(lo, 0x7387, 0x620E, 0x5095, 0x411C, 0x35A3, 0x242A, 0x16B1, 0x0738,
                 0xFFCF, 0xEE46, 0xDCDD, 0xCD54, 0xB9EB, 0xA862, 0x9AF9, 0x8B70)
    else if hi == 0x8 then
      Pick16(lo, 0x8408, 0x9581, 0xA71A, 0xB693, 0xC22C, 0xD3A5, 0xE13E, 0xF0B7,
                 0x0840, 0x19C9, 0x2B52, 0x3ADB, 0x4E64, 0x5FED, 0x6D76, 0x7CFF)
    else if hi == 0x9 then
      Pick16(lo, 0x9489, 0x8500, 0xB79B, 0xA612, 0xD2AD, 0xC324, 0xF1BF, 0xE036,
                 0x18C1, 0x0948, 0x3BD3, 0x2A5A, 0x5EE5, 0x4F6C, 0x7DF7, 0x6C7E)
    else if hi == 0xA then
      Pick16(lo, 0xA50A, 0xB483, 0x8618, 0x9791, 0xE32E, 0xF2A7, 0xC03C, 0xD1B5,
                 0x2942, 0x38CB, 0x0A50, 0x1BD9, 0x6F66, 0x7EEF, 0x4C74, 0x5DFD)
    else if hi == 0xB then
      Pick16(lo, 0xB58B, 0xA402, 0x9699, 0x8710, 0xF3AF, 0xE226, 0xD0BD, 0xC134,
                 0x39C3, 0x284A, 0x1AD1, 0x0B58, 0x7FE7, 0x6E6E, 0x5CF5, 0x4D7C)
    else if hi == 0xC then
      Pick16(lo, 0xC60C, 0xD785, 0xE51E, 0xF497, 0x8028, 0x91A1, 0xA33A, 0xB2B3,
                 0x4A44, 0x5BCD, 0x6956, 0x78DF, 0x0C60, 0x1DE9, 0x2F72, 0x3EFB)
    else if hi == 0xD then
      Pick16(lo, 0xD68D, 0xC704, 0xF59F, 0xE416, 0x90A9, 0x8120, 0xB3BB, 0xA232,
                 0x5AC5, 0x4B4C, 0x79D7, 0x685E, 0x1CE1, 0x0D68, 0x3FF3, 0x2E7A)
    else if hi == 0xE then
      Pick16(lo, 0xE70E, 0xF687, 0xC41C, 0xD595, 0xA12A, 0xB0A3, 0x8238, 0x93B1,
                 0x6B46, 0x7ACF, 0x4854, 0x59DD, 0x2D62, 0x3CEB, 0x0E70, 0x1FF9)
    else
      Pick16(lo, 0xF78F, 0xE606, 0xD49D, 0xC514, 0xB1AB, 0xA022, 0x92B9, 0x8330,
                 0x7BC7, 0x6A4E, 0x58D5, 0x495C, 0x3DE3, 0x2C6A, 0x1EF1, 0x0F78)
  }

  // ---------------------------------------------------------------- laws of 8-bit words

  lemma XorLaws8(a: bv8, b: bv8, c: bv8)
    ensures Xor8(Xor8(a, b), c) == Xor8(Xor8(a, c), b)
    ensures Xor8(a, b) == Xor8(b, a)
    ensures Xor8(a, 0) == a
    ensures Xor8(Xor8(a, b), b) == a
  {
  }

  lemma HalfLaws8(a: bv8, b: bv8)
    ensures Half8(Xor8(a, b)) == Xor8(Half8(a), Half8(b))
    ensures Half8(0) == 0
  {
  }

  predicate Top8(a: bv8) { a & 0x80 != 0 }

  /** The polynomial has its top bit set, so a step shows whether it was subtracted. */
  lemma TopLaws8(a: bv8)
    ensures !Top8(Half8(a)) && Top8(Xor8(Half8(a), POLY8))
  {
  }

  lemma Rebuild8(a: bv8, b: bv8)
    requires Half8(a) == Half8(b) && Low8(a) == Low8(b)
    ensures a == b
  {
  }

  /** Feeding bits is exclusive-or-ing them in first and then feeding zeros. */
  lemma {:induction false} Merge8(c: bv8, x: bv8, n: nat)
    ensures Xor8(Steps8(c, x, n), Shift8(x, n)) == Steps8(Xor8(c, x), 0, n)
    decreases n
  {
    hide BitStep8, Xor8, Half8;
    if n > 0 {
      MergeBit8(c, x);
      Merge8(BitStep8(c, x), Half8(x), n - 1);
    }
  }

  lemma MergeBit8(c: bv8, x: bv8)
    ensures Xor8(BitStep8(c, x), Half8(x)) == BitStep8(Xor8(c, x), 0)
    ensures Half8(0) == 0
  {
    hide Xor8, Half8, Low8, POLY8;
    XorLaws8(Half8(c), POLY8, Half8(x));
    XorLaws8(Xor8(c, x), 0, 0);
    HalfLaws8(c, x);
  }

  /** n one-place shifts. */
  function Shift8(x: bv8, n: nat): bv8
    decreases n
  {
    if n == 0 then x else Shift8(Half8(x), n - 1)
  }

  /** The register never merges: different values stay different while zeros are fed. */
  lemma {:induction false} Injective8(m: bv8, k: bv8, n: nat)
    requires m != k
    ensures Steps8(m, 0, n) != Steps8(k, 0, n)
    decreases n
  {
    hide BitStep8, Xor8, Half8;
    if n > 0 {
      InjectiveBit8(m, k);
      MergeBit8(m, 0);
      Injective8(BitStep8(m, 0), BitStep8(k, 0), n - 1);
    }
  }

  lemma InjectiveBit8(m: bv8, k: bv8)
    requires m != k
    ensures BitStep8(m, 0) != BitStep8(k, 0)
  {
    hide Xor8, Half8, Low8, POLY8, Top8;
    TopLaws8(m);
    TopLaws8(k);
    XorLaws8(m, 0, 0);
    XorLaws8(k, 0, 0);
    XorLaws8(Half8(m), POLY8, 0);
    XorLaws8(Half8(k), POLY8, 0);
    if Half8(m) == Half8(k) && Low8(m) == Low8(k) { Rebuild8(m, k); }
  }

  // ---------------------------------------------------------------- laws of 16-bit words

  lemma XorLaws16(a: bv16, b: bv16, c: bv16)
    ensures Xor16(Xor16(a, b), c) == Xor16(Xor16(a, c), b)
    ensures Xor16(a, b) == Xor16(b, a)
    ensures Xor16(a, 0) == a
    ensures Xor16(Xor16(a, b), b) == a
  {
  }

  lemma HalfLaws16(a: bv16, b: bv16)
    ensures Half16(Xor16(a, b)) == Xor16(Half16(a), Half16(b))
    ensures Half16(0) == 0
  {
  }

  lemma LowLaws16(a: bv16, b: bv16)
    ensures Low16(Xor16(a, b)) == (Low16(a) != Low16(b))
    ensures !Low16(0)
  {
  }

  predicate Top16(a: bv16) { a & 0x8000 != 0 }

  /** The polynomial has its top bit set, so a step shows whether it was subtracted. */
  lemma TopLaws16(a: bv16)
    ensures !Top16(Half16(a)) && Top16(Xor16(Half16(a), POLY16))
  {
  }

  lemma Rebuild16(a: bv16, b: bv16)
    requires Half16(a) == Half16(b) && Low16(a) == Low16(b)
    ensures a == b
  {
  }

  lemma {:induction false} Merge16(c: bv16, x: bv16, n: nat)
    ensures Xor16(Steps16(c, x, n), Shift16(x, n)) == Steps16(Xor16(c, x), 0, n)
    decreases n
  {
    hide BitStep16, Xor16, Half16;
    if n > 0 {
      MergeBit16(c, x);
      Merge16(BitStep16(c, x), Half16(x), n - 1);
    }
  }

  lemma MergeBit16(c: bv16, x: bv16)
    ensures Xor16(BitStep16(c, x), Half16(x)) == BitStep16(Xor16(c, x), 0)
    ensures Half16(0) == 0
  {
    hide Xor16, Half16, Low16, POLY16;
    XorLaws16(Half16(c), POLY16, Half16(x));
    XorLaws16(Xor16(c, x), 0, 0);
    HalfLaws16(c, x);
  }

  /** n one-place shifts. */
  function Shift16(x: bv16, n: nat): bv16
    decreases n
  {
    if n == 0 then x else Shift16(Half16(x), n - 1)
  }

  /** The register never merges: different values stay different while zeros are fed. */
  lemma {:induction false} Injective16(m: bv16, k: bv16, n: nat)
    requires m != k
    ensures Steps16(m, 0, n) != Steps16(k, 0, n)
    decreases n
  {
    hide BitStep16, Xor16, Half16;
    if n > 0 {
      InjectiveBit16(m, k);
      MergeBit16(m, 0);
      Injective16(BitStep16(m, 0), BitStep16(k, 0), n - 1);
    }
  }

  lemma InjectiveBit16(m: bv16, k: bv16)
    requires m != k
    ensures BitStep16(m, 0) != BitStep16(k, 0)
  {
    hide Xor16, Half16, Low16, POLY16, Top16;
    TopLaws16(m);
    TopLaws16(k);
    XorLaws16(m, 0, 0);
    XorLaws16(k, 0, 0);
    XorLaws16(Half16(m), POLY16, 0);
    XorLaws16(Half16(k), POLY16, 0);
    if Half16(m) == Half16(k) && Low16(m) == Low16(k) { Rebuild16(m, k); }
  }

  /** A whole byte: nothing of it is left over after eight steps. */
  lemma MergeByte8(c: bv8, x: bv8)
    ensures ByteStep8(c, x) == ByteStep8(Xor8(c, x), 0)
  {
    NothingLeft8(x);
    hide BitStep8, Xor8, Half8, Steps8, Shift8;
    Merge8(c, x, 8);
    XorNothing8(Steps8(c, x, 8));
  }

  lemma NothingLeft8(x: bv8)
    ensures Shift8(x, 8) == 0
  {
  }

  lemma XorNothing8(x: bv8)
    ensures Xor8(x, 0) == x
  {
  }

  lemma MergeByte16(c: bv16, x: bv16)
    requires x <= 0xFF
    ensures ByteStep16(c, x) == ByteStep16(Xor16(c, x), 0)
  {
    hide BitStep16, Xor16, Half16, Steps16, Shift16;
    NothingLeft16(x);
    Merge16(c, x, 8);
    XorNothing16(Steps16(c, x, 8));
  }

  lemma NothingLeft16(x: bv16)
    requires x <= 0xFF
    ensures Shift16(x, 8) == 0
  {
  }

  lemma XorNothing16(x: bv16)
    ensures Xor16(x, 0) == x
  {
  }

  lemma LowLaws8(a: bv8, b: bv8)
    ensures Low8(Xor8(a, b)) == (Low8(a) != Low8(b))
    ensures !Low8(0)
  {
  }

  /** The steps are additive. */
  lemma {:induction false} Additive8(a: bv8, b: bv8, n: nat)
    ensures Steps8(Xor8(a, b), 0, n) == Xor8(Steps8(a, 0, n), Steps8(b, 0, n))
    decreases n
  {
    hide BitStep8, Xor8, Half8;
    if n > 0 {
      AdditiveBit8(a, b);
      MergeBit8(a, 0);
      Additive8(BitStep8(a, 0), BitStep8(b, 0), n - 1);
    }
  }

  lemma AdditiveBit8(a: bv8, b: bv8)
    ensures BitStep8(Xor8(a, b), 0) == Xor8(BitStep8(a, 0), BitStep8(b, 0))
  {
    hide Xor8, Half8, Low8, POLY8;
    var p, q := Half8(a), Half8(b);
    var p', q' := Xor8(p, POLY8), Xor8(q, POLY8);
    XorLaws8(Xor8(a, b), 0, 0);
    XorLaws8(a, 0, 0);
    XorLaws8(b, 0, 0);
    LowLaws8(a, b);
    HalfLaws8(a, b);
    XorLaws8(p, POLY8, q);
    XorLaws8(q', p, 0);
    XorLaws8(q, POLY8, p);
    XorLaws8(Xor8(p, q), POLY8, 0);
    XorLaws8(p, q', 0);
    XorLaws8(p, q, 0);
    XorLaws8(p', q, POLY8);
    XorLaws8(p', q', 0);
    XorLaws8(q, POLY8, p');
  }

  /** The steps are additive, so the two bytes of the register can be treated apart. */
  lemma {:induction false} Additive16(a: bv16, b: bv16, n: nat)
    ensures Steps16(Xor16(a, b), 0, n) == Xor16(Steps16(a, 0, n), Steps16(b, 0, n))
    decreases n
  {
    hide BitStep16, Xor16, Half16;
    if n > 0 {
      AdditiveBit16(a, b);
      MergeBit16(a, 0);
      Additive16(BitStep16(a, 0), BitStep16(b, 0), n - 1);
    }
  }

  lemma AdditiveBit16(a: bv16, b: bv16)
    ensures BitStep16(Xor16(a, b), 0) == Xor16(BitStep16(a, 0), BitStep16(b, 0))
  {
    hide Xor16, Half16, Low16, POLY16;
    var p, q := Half16(a), Half16(b);
    var p', q' := Xor16(p, POLY16), Xor16(q, POLY16);
    XorLaws16(Xor16(a, b), 0, 0);
    XorLaws16(a, 0, 0);
    XorLaws16(b, 0, 0);
    LowLaws16(a, b);
    HalfLaws16(a, b);
    XorLaws16(p, POLY16, q);
    XorLaws16(q', p, 0);
    XorLaws16(q, POLY16, p);
    XorLaws16(Xor16(p, q), POLY16, 0);
    XorLaws16(p, q', 0);
    XorLaws16(p, q, 0);
    XorLaws16(p', q, POLY16);
    XorLaws16(p', q', 0);
    XorLaws16(q, POLY16, p');
  }

  function HighByte(m: bv16): bv16 { m >> 8 }

  function LowByte(m: bv16): bv16 { m & 0xFF }

  /** With zeros fed, the high byte only moves down. */
  lemma HighByte16(m: bv16)
    ensures ByteStep16(m, 0) == Xor16(HighByte(m), ByteStep16(LowByte(m), 0))
  {
    hide BitStep16, Xor16, Half16, Steps16;
    SplitBytes16(m);
    Additive16(m & 0xFF00, m & 0xFF, 8);
    HighAlone16(m);
  }

  lemma SplitBytes16(m: bv16)
    ensures m == Xor16(m & 0xFF00, m & 0xFF)
  {
  }

  lemma HighAlone16(m: bv16)
    ensures Steps16(m & 0xFF00, 0, 8) == m >> 8
  {
  }

  /** One step with a zero bit, as an expression. */
  function Zero8(c: bv8): bv8 { (c >> 1) ^ (if c & 1 == 1 then POLY8 else 0) }

  /** Eight steps with zero bits. */
  function Eight8(v: bv8): bv8 { Zero8(Zero8(Zero8(Zero8(Zero8(Zero8(Zero8(Zero8(v)))))))) }

  lemma EightZeros8(v: bv8)
    ensures ByteStep8(v, 0) == Eight8(v)
  {
    hide BitStep8, Zero8, Half8;
    forall c: bv8 ensures BitStep8(c, 0) == Zero8(c) && Half8(0) == 0 { ZeroBit8(c); }
  }

  lemma ZeroBit8(c: bv8)
    ensures BitStep8(c, 0) == Zero8(c) && Half8(0) == 0
  {
  }

  /** b if the bit m of v is set. */
  function Chosen8(v: bv8, m: bv8, b: bv8): bv8 { if v & m != 0 then b else 0 }

  /** The entries at the powers of two, added up over the bits of v. */
  function Combined8(v: bv8): bv8
  {
    Xor8(Chosen8(v, 0x80, 0xAB),
    Xor8(Chosen8(v, 0x40, 0xFE),
    Xor8(Chosen8(v, 0x20, 0x7F),
    Xor8(Chosen8(v, 0x10, 0x94),
    Xor8(Chosen8(v, 0x08, 0x4A),
    Xor8(Chosen8(v, 0x04, 0x25),
    Xor8(Chosen8(v, 0x02, 0xB9),
    Xor8(Chosen8(v, 0x01, 0xF7), 0))))))))
  }

  lemma PowerEntries8()
    ensures Eight8(0) == 0
    ensures Eight8(0x01) == 0xF7 && Eight8(0x02) == 0xB9 && Eight8(0x04) == 0x25 && Eight8(0x08) == 0x4A
    ensures Eight8(0x10) == 0x94 && Eight8(0x20) == 0x7F && Eight8(0x40) == 0xFE && Eight8(0x80) == 0xAB
  {
  }

  function Masked8(v: bv8, m: bv8): bv8 { v & m }

  predicate OneMoreBit8(both: bv8, m: bv8, low: bv8) { both == m | low && m & low == 0 && m & (m - 1) == 0 }

  /** Taking one bit off. */
  lemma OneBitOff8(v: bv8, both: bv8, m: bv8, low: bv8, b: bv8)
    requires OneMoreBit8(both, m, low) && Eight8(m) == b && Eight8(0) == 0
    ensures Eight8(Masked8(v, both)) == Xor8(Chosen8(v, m, b), Eight8(Masked8(v, low)))
  {
    hide Steps8, Eight8, Xor8, Masked8, Chosen8, OneMoreBit8;
    MaskParts8(v, both, m, low, b);
    Additive8(Masked8(v, m), Masked8(v, low), 8);
    EightZeros8(Masked8(v, both));
    EightZeros8(Masked8(v, m));
    EightZeros8(Masked8(v, low));
  }

  lemma MaskParts8(v: bv8, both: bv8, m: bv8, low: bv8, b: bv8)
    requires OneMoreBit8(both, m, low)
    ensures Masked8(v, both) == Xor8(Masked8(v, m), Masked8(v, low))
    ensures (Masked8(v, m) == 0 && Chosen8(v, m, b) == 0) || (Masked8(v, m) == m && Chosen8(v, m, b) == b)
  {
  }

  lemma WholeMask8(v: bv8)
    ensures Masked8(v, 0xFF) == v && Masked8(v, 0) == 0
  {
  }

  lemma Linear8(v: bv8)
    ensures ByteStep8(v, 0) == Combined8(v)
  {
    hide Eight8, ByteStep8, Chosen8, Xor8, Masked8;
    PowerEntries8();
    EightZeros8(v);
    WholeMask8(v);
    OneBitOff8(v, 0xFF, 0x80, 0x7F, 0xAB);
    OneBitOff8(v, 0x7F, 0x40, 0x3F, 0xFE);
    OneBitOff8(v, 0x3F, 0x20, 0x1F, 0x7F);
    OneBitOff8(v, 0x1F, 0x10, 0x0F, 0x94);
    OneBitOff8(v, 0x0F, 0x08, 0x07, 0x4A);
    OneBitOff8(v, 0x07, 0x04, 0x03, 0x25);
    OneBitOff8(v, 0x03, 0x02, 0x01, 0xB9);
    OneBitOff8(v, 0x01, 0x01, 0x00, 0xF7);
  }

  /** Every table entry is such a combination: one lemma for each row of sixteen. */
  lemma Table8Row0(v: bv8)
    requires v >> 4 == 0x0
    ensures Crc8Table(v) == Combined8(v)
  {
  }

  lemma Table8Row1(v: bv8)
    requires v >> 4 == 0x1
    ensures Crc8Table(v) == Combined8(v)
  {
  }

  lemma Table8Row2(v: bv8)
    requires v >> 4 == 0x2
    ensures Crc8Table(v) == Combined8(v)
  {
  }

  lemma Table8Row3(v: bv8)
    requires v >> 4 == 0x3
    ensures Crc8Table(v) == Combined8(v)
  {
  }

  lemma Table8Row4(v: bv8)
    requires v >> 4 == 0x4
    ensures Crc8Table(v) == Combined8(v)
  {
  }

  lemma Table8Row5(v: bv8)
    requires v >> 4 == 0x5
    ensures Crc8Table(v) == Combined8(v)
  {
  }

  lemma Table8Row6(v: bv8)
    requires v >> 4 == 0x6
    ensures Crc8Table(v) == Combined8(v)
  {
  }

  lemma Table8Row7(v: bv8)
    requires v >> 4 == 0x7
    ensures Crc8Table(v) == Combined8(v)
  {
  }

  lemma Table8Row8(v: bv8)
    requires v >> 4 == 0x8
    ensures Crc8Table(v) == Combined8(v)
  {
  }

  lemma Table8Row9(v: bv8)
    requires v >> 4 == 0x9
    ensures Crc8Table(v) == Combined8(v)
  {
  }

  lemma Table8RowA(v: bv8)
    requires v >> 4 == 0xA
    ensures Crc8Table(v) == Combined8(v)
  {
  }

  lemma Table8RowB(v: bv8)
    requires v >> 4 == 0xB
    ensures Crc8Table(v) == Combined8(v)
  {
  }

  lemma Table8RowC(v: bv8)
    requires v >> 4 == 0xC
    ensures Crc8Table(v) == Combined8(v)
  {
  }

  lemma Table8RowD(v: bv8)
    requires v >> 4 == 0xD
    ensures Crc8Table(v) == Combined8(v)
  {
  }

  lemma Table8RowE(v: bv8)
    requires v >> 4 == 0xE
    ensures Crc8Table(v) == Combined8(v)
  {
  }

  lemma Table8RowF(v: bv8)
    requires v >> 4 == 0xF
    ensures Crc8Table(v) == Combined8(v)
  {
  }

  /** One step with a zero bit, as an expression. */
  function Zero16(c: bv16): bv16 { (c >> 1) ^ (if c & 1 == 1 then POLY16 else 0) }

  /** Eight steps with zero bits. */
  function Eight16(v: bv16): bv16 { Zero16(Zero16(Zero16(Zero16(Zero16(Zero16(Zero16(Zero16(v)))))))) }

  lemma EightZeros16(v: bv16)
    ensures ByteStep16(v, 0) == Eight16(v)
  {
    hide BitStep16, Zero16, Half16;
    forall c: bv16 ensures BitStep16(c, 0) == Zero16(c) && Half16(0) == 0 { ZeroBit16(c); }
  }

  lemma ZeroBit16(c: bv16)
    ensures BitStep16(c, 0) == Zero16(c) && Half16(0) == 0
  {
  }

  /** b if the bit m of v is set. */
  function Chosen16(v: bv16, m: bv16, b: bv16): bv16 { if v & m != 0 then b else 0 }

  /** The entries at the powers of two, added up over the bits of v. */
  function Combined16(v: bv16): bv16
  {
    Xor16(Chosen16(v, 0x80, 0x8408),
    Xor16(Chosen16(v, 0x40, 0x4204),
    Xor16(Chosen16(v, 0x20, 0x2102),
    Xor16(Chosen16(v, 0x10, 0x1081),
    Xor16(Chosen16(v, 0x08, 0x8C48),
    Xor16(Chosen16(v, 0x04, 0x4624),
    Xor16(Chosen16(v, 0x02, 0x2312),
    Xor16(Chosen16(v, 0x01, 0x1189), 0))))))))
  }

  lemma PowerEntries16()
    ensures Eight16(0) == 0
    ensures Eight16(0x01) == 0x1189 && Eight16(0x02) == 0x2312 && Eight16(0x04) == 0x4624 && Eight16(0x08) == 0x8C48
    ensures Eight16(0x10) == 0x1081 && Eight16(0x20) == 0x2102 && Eight16(0x40) == 0x4204 && Eight16(0x80) == 0x8408
  {
  }

  function Masked16(v: bv16, m: bv16): bv16 { v & m }

  predicate OneMoreBit16(both: bv16, m: bv16, low: bv16) { both == m | low && m & low == 0 && m & (m - 1) == 0 }

  /** Taking one bit off. */
  lemma OneBitOff16(v: bv16, both: bv16, m: bv16, low: bv16, b: bv16)
    requires OneMoreBit16(both, m, low) && Eight16(m) == b && Eight16(0) == 0
    ensures Eight16(Masked16(v, both)) == Xor16(Chosen16(v, m, b), Eight16(Masked16(v, low)))
  {
    hide Steps16, Eight16, Xor16, Masked16, Chosen16, OneMoreBit16;
    MaskParts16(v, both, m, low, b);
    Additive16(Masked16(v, m), Masked16(v, low), 8);
    EightZeros16(Masked16(v, both));
    EightZeros16(Masked16(v, m));
    EightZeros16(Masked16(v, low));
  }

  lemma MaskParts16(v: bv16, both: bv16, m: bv16, low: bv16, b: bv16)
    requires OneMoreBit16(both, m, low)
    ensures Masked16(v, both) == Xor16(Masked16(v, m), Masked16(v, low))
    ensures (Masked16(v, m) == 0 && Chosen16(v, m, b) == 0) || (Masked16(v, m) == m && Chosen16(v, m, b) == b)
  {
  }

  lemma WholeMask16(v: bv16)
    requires v <= 0xFF
    ensures Masked16(v, 0xFF) == v && Masked16(v, 0) == 0
  {
  }

  lemma Linear16(v: bv16)
    requires v <= 0xFF
    ensures ByteStep16(v, 0) == Combined16(v)
  {
    hide Eight16, ByteStep16, Chosen16, Xor16, Masked16;
    PowerEntries16();
    EightZeros16(v);
    WholeMask16(v);
    OneBitOff16(v, 0xFF, 0x80, 0x7F, 0x8408);
    OneBitOff16(v, 0x7F, 0x40, 0x3F, 0x4204);
    OneBitOff16(v, 0x3F, 0x20, 0x1F, 0x2102);
    OneBitOff16(v, 0x1F, 0x10, 0x0F, 0x1081);
    OneBitOff16(v, 0x0F, 0x08, 0x07, 0x8C48);
    OneBitOff16(v, 0x07, 0x04, 0x03, 0x4624);
    OneBitOff16(v, 0x03, 0x02, 0x01, 0x2312);
    OneBitOff16(v, 0x01, 0x01, 0x00, 0x1189);
  }

  lemma Table16Row0(v: bv16)
    requires v >> 4 == 0x0
    ensures Crc16Table(v) == Combined16(v)
  {
  }

  lemma Table16Row1(v: bv16)
    requires v >> 4 == 0x1
    ensures Crc16Table(v) == Combined16(v)
  {
  }

  lemma Table16Row2(v: bv16)
    requires v >> 4 == 0x2
    ensures Crc16Table(v) == Combined16(v)
  {
  }

  lemma Table16Row3(v: bv16)
    requires v >> 4 == 0x3
    ensures Crc16Table(v) == Combined16(v)
  {
  }

  lemma Table16Row4(v: bv16)
    requires v >> 4 == 0x4
    ensures Crc16Table(v) == Combined16(v)
  {
  }

  lemma Table16Row5(v: bv16)
    requires v >> 4 == 0x5
    ensures Crc16Table(v) == Combined16(v)
  {
  }

  lemma Table16Row6(v: bv16)
    requires v >> 4 == 0x6
    ensures Crc16Table(v) == Combined16(v)
  {
  }

  lemma Table16Row7(v: bv16)
    requires v >> 4 == 0x7
    ensures Crc16Table(v) == Combined16(v)
  {
  }

  lemma Table16Row8(v: bv16)
    requires v >> 4 == 0x8
    ensures Crc16Table(v) == Combined16(v)
  {
  }

  lemma Table16Row9(v: bv16)
    requires v >> 4 == 0x9
    ensures Crc16Table(v) == Combined16(v)
  {
  }

  lemma Table16RowA(v: bv16)
    requires v >> 4 == 0xA
    ensures Crc16Table(v) == Combined16(v)
  {
  }

  lemma Table16RowB(v: bv16)
    requires v >> 4 == 0xB
    ensures Crc16Table(v) == Combined16(v)
  {
  }

  lemma Table16RowC(v: bv16)
    requires v >> 4 == 0xC
    ensures Crc16Table(v) == Combined16(v)
  {
  }

  lemma Table16RowD(v: bv16)
    requires v >> 4 == 0xD
    ensures Crc16Table(v) == Combined16(v)
  {
  }

  lemma Table16RowE(v: bv16)
    requires v >> 4 == 0xE
    ensures Crc16Table(v) == Combined16(v)
  {
  }

  lemma Table16RowF(v: bv16)
    requires v >> 4 == 0xF
    ensures Crc16Table(v) == Combined16(v)
  {
  }

  lemma Table8Entry(v: bv8)
    ensures Crc8Table(v) == ByteStep8(v, 0)
  {
    hide Crc8Table, ByteStep8, Combined8;
    Linear8(v);
    Rows8(v);
    var hi := v >> 4;
    if hi == 0x0 {
      Table8Row0(v);
    } else if hi == 0x1 {
      Table8Row1(v);
    } else if hi == 0x2 {
      Table8Row2(v);
    } else if hi == 0x3 {
      Table8Row3(v);
    } else if hi == 0x4 {
      Table8Row4(v);
    } else if hi == 0x5 {
      Table8Row5(v);
    } else if hi == 0x6 {
      Table8Row6(v);
    } else if hi == 0x7 {
      Table8Row7(v);
    } else if hi == 0x8 {
      Table8Row8(v);
    } else if hi == 0x9 {
      Table8Row9(v);
    } else if hi == 0xA {
      Table8RowA(v);
    } else if hi == 0xB {
      Table8RowB(v);
    } else if hi == 0xC {
      Table8RowC(v);
    } else if hi == 0xD {
      Table8RowD(v);
    } else if hi == 0xE {
      Table8RowE(v);
    } else {
      Table8RowF(v);
    }
  }

  lemma Rows8(v: bv8)
    ensures v >> 4 <= 0xF
  {
  }

  lemma Table16Entry(v: bv16)
    requires v <= 0xFF
    ensures Crc16Table(v) == ByteStep16(v, 0)
  {
    hide Crc16Table, ByteStep16, Combined16;
    Linear16(v);
    Rows16(v);
    var hi := v >> 4;
    if hi == 0x0 {
      Table16Row0(v);
    } else if hi == 0x1 {
      Table16Row1(v);
    } else if hi == 0x2 {
      Table16Row2(v);
    } else if hi == 0x3 {
      Table16Row3(v);
    } else if hi == 0x4 {
      Table16Row4(v);
    } else if hi == 0x5 {
      Table16Row5(v);
    } else if hi == 0x6 {
      Table16Row6(v);
    } else if hi == 0x7 {
      Table16Row7(v);
    } else if hi == 0x8 {
      Table16Row8(v);
    } else if hi == 0x9 {
      Table16Row9(v);
    } else if hi == 0xA {
      Table16RowA(v);
    } else if hi == 0xB {
      Table16RowB(v);
    } else if hi == 0xC {
      Table16RowC(v);
    } else if hi == 0xD {
      Table16RowD(v);
    } else if hi == 0xE {
      Table16RowE(v);
    } else {
      Table16RowF(v);
    }
  }

  lemma Rows16(v: bv16)
    requires v <= 0xFF
    ensures v >> 4 <= 0xF
  {
  }

  /** So one table step is eight division steps. */
  lemma TableStep8(c: bv8, x: bv8)
    ensures Crc8Table((c ^ x) & 0xFF) == ByteStep8(c, x)
  {
    hide Crc8Table, ByteStep8, Xor8;
    MergeByte8(c, x);
    Table8Entry(Xor8(c, x));
    IndexIs8(c, x);
  }

  lemma IndexIs8(c: bv8, x: bv8)
    ensures (c ^ x) & 0xFF == Xor8(c, x)
  {
  }

  /** CRC_INNER_LOOP for the 16-bit register. */
  function InnerLoop16(c: bv16, x: bv16): bv16
  {
    Xor16(HighByte(c), Crc16Table(LowByte(Xor16(c, x))))
  }

  lemma TableStep16(c: bv16, x: bv16)
    requires x <= 0xFF
    ensures InnerLoop16(c, x) == ByteStep16(c, x)
  {
    hide Crc16Table, ByteStep16, Xor16, HighByte, LowByte;
    HighUntouched(c, x);
    MergeByte16(c, x);
    HighByte16(Xor16(c, x));
    LowByteSmall(Xor16(c, x));
    Table16Entry(LowByte(Xor16(c, x)));
  }

  lemma LowByteSmall(m: bv16)
    ensures LowByte(m) <= 0xFF
  {
  }

  /** A byte joins the low half of the register only. */
  lemma HighUntouched(c: bv16, x: bv16)
    requires x <= 0xFF
    ensures HighByte(Xor16(c, x)) == HighByte(c)
  {
  }

  // ---------------------------------------------------------------- the implementations

  /** hndcrc8. */
  method HndCrc8(pdata: seq<bv8>, crc: bv8) returns (r: bv8)
    ensures r == Serial8(pdata, crc)
  {
    hide Crc8Table, ByteStep8;
    r := crc;
    for i := 0 to |pdata|
      invariant Serial8(pdata[i..], r) == Serial8(pdata, crc)
    {
      TableStep8(r, pdata[i]);
      assert pdata[i..][1..] == pdata[i + 1..];
      r := Crc8Table((r ^ pdata[i]) & 0xFF);
    }
  }

  /** hndcrc16. */
  method HndCrc16(pdata: seq<bv8>, crc: bv16) returns (r: bv16)
    ensures r == Serial16(pdata, crc)
  {
    hide Crc16Table, ByteStep16, InnerLoop16;
    r := crc;
    for i := 0 to |pdata|
      invariant Serial16(pdata[i..], r) == Serial16(pdata, crc)
    {
      var x := pdata[i] as bv16;
      Widened(pdata[i], pdata[i]);
      TableStep16(r, x);
      assert pdata[i..][1..] == pdata[i + 1..];
      r := InnerLoop16(r, x);
    }
  }

  // ---------------------------------------------------------------- pieces, residues, detection

  /** Feeding a message in two pieces is feeding it whole. */
  lemma {:induction false} Pieces8(a: seq<bv8>, b: seq<bv8>, crc: bv8)
    ensures Serial8(a + b, crc) == Serial8(b, Serial8(a, crc))
  {
    hide ByteStep8;
    if a == [] {
      assert a + b == b;
    } else {
      assert (a + b)[1..] == a[1..] + b;
      Pieces8(a[1..], b, ByteStep8(crc, a[0]));
    }
  }

  lemma {:induction false} Pieces16(a: seq<bv8>, b: seq<bv8>, crc: bv16)
    ensures Serial16(a + b, crc) == Serial16(b, Serial16(a, crc))
  {
    hide ByteStep16;
    if a == [] {
      assert a + b == b;
    } else {
      assert (a + b)[1..] == a[1..] + b;
      Pieces16(a[1..], b, ByteStep16(crc, a[0] as bv16));
    }
  }

  /** Whatever the message and the initial value, appending the complemented CRC leaves the good
      value; and no other byte in that place does. */
  lemma Residue8(msg: seq<bv8>, crc: bv8, last: bv8)
    ensures Serial8(msg + [last], crc) == CRC8_GOOD_VALUE <==> last == !Serial8(msg, crc)
  {
    Pieces8(msg, [last], crc);
    One8(last, Serial8(msg, crc));
    hide Serial8;
    GoodStep8(Serial8(msg, crc), last);
  }

  lemma One8(x: bv8, c: bv8)
    ensures Serial8([x], c) == ByteStep8(c, x)
  {
    hide ByteStep8;
    assert [x][1..] == [];
  }

  lemma GoodStep8(c: bv8, x: bv8)
    ensures ByteStep8(c, x) == CRC8_GOOD_VALUE <==> x == !c
  {
    assert Steps8(0xFF, 0, 8) == CRC8_GOOD_VALUE;
    hide Steps8, Xor8;
    MergeByte8(c, x);
    AllOnes8(c, x);
    if Xor8(c, x) != 0xFF { Injective8(Xor8(c, x), 0xFF, 8); }
  }

  lemma Complement8(c: bv8)
    ensures !c == Xor8(0xFF, c) && Xor8(!c, c) == 0xFF
  {
  }

  lemma AllOnes8(c: bv8, w: bv8)
    ensures Xor8(c, w) == 0xFF <==> w == !c
  {
    Complement8(c);
    hide Xor8;
    XorLaws8(w, c, 0);
    XorLaws8(c, w, 0);
  }

  lemma Residue16(msg: seq<bv8>, crc: bv16, low: bv8, high: bv8)
    ensures Serial16(msg + [low, high], crc) == CRC16_GOOD_VALUE <==>
      Word(low as bv16, high as bv16) == !Serial16(msg, crc)
  {
    hide Serial16, ByteStep16, Word;
    Pieces16(msg, [low, high], crc);
    Two16(low, high, Serial16(msg, crc));
    Widened(low, high);
    GoodSteps16(Serial16(msg, crc), low as bv16, high as bv16);
  }

  lemma Two16(x: bv8, y: bv8, c: bv16)
    ensures Serial16([x, y], c) == ByteStep16(ByteStep16(c, x as bv16), y as bv16)
  {
    hide ByteStep16;
    assert [x, y][1..] == [y] && [y][1..] == [];
    assert Serial16([x, y], c) == Serial16([y], ByteStep16(c, x as bv16));
    assert Serial16([y], ByteStep16(c, x as bv16)) == Serial16([], ByteStep16(ByteStep16(c, x as bv16), y as bv16));
  }

  /** Two bytes as one word, low byte first. */
  function Word(x: bv16, y: bv16): bv16 { (y << 8) | x }

  /** Two bytes are sixteen steps with one word. */
  lemma TwoBytes(c: bv16, x: bv16, y: bv16)
    requires x <= 0xFF && y <= 0xFF
    ensures ByteStep16(ByteStep16(c, x), y) == Steps16(Xor16(c, Word(x, y)), 0, 16)
  {
    hide Steps16, BitStep16, Xor16, Half16, Shift16, Word, LowZero;
    var w := Word(x, y);
    WordLow(x, y);
    WordHigh(x, y);
    SameSteps(c, w, x, 8);
    Consecutive(c, w, 8, 8);
    ShiftShift(w, 8, 8);
    NothingLeft16(y);
    Merge16(c, w, 16);
    XorNothing16(Steps16(c, w, 16));
  }

  lemma WordLow(x: bv16, y: bv16)
    requires x <= 0xFF && y <= 0xFF
    ensures LowZero(Xor16(Word(x, y), x), 8)
  {
    assert Xor16(Word(x, y), x) == y << 8;
    LowerEight(y << 8);
  }

  lemma LowerEight(d: bv16)
    requires d & 0xFF == 0
    ensures LowZero(d, 8)
  {
  }

  lemma WordHigh(x: bv16, y: bv16)
    requires x <= 0xFF && y <= 0xFF
    ensures Shift16(Word(x, y), 8) == y
  {
  }

  lemma {:induction false} ShiftShift(x: bv16, m: nat, n: nat)
    ensures Shift16(x, m + n) == Shift16(Shift16(x, m), n)
    decreases m
  {
    hide Half16;
    if m > 0 { ShiftShift(Half16(x), m - 1, n); }
  }

  /** Are the n lowest bits zero? */
  predicate LowZero(d: bv16, n: nat)
    decreases n
  {
    n == 0 || (!Low16(d) && LowZero(Half16(d), n - 1))
  }

  lemma {:induction false} SameSteps(c: bv16, x: bv16, y: bv16, n: nat)
    requires LowZero(Xor16(x, y), n)
    ensures Steps16(c, x, n) == Steps16(c, y, n)
    decreases n
  {
    hide BitStep16, Half16, Xor16, Low16;
    if n > 0 {
      SameBitStep(c, x, y);
      HalfLaws16(x, y);
      SameSteps(BitStep16(c, x), Half16(x), Half16(y), n - 1);
    }
  }

  lemma SameBitStep(c: bv16, x: bv16, y: bv16)
    requires !Low16(Xor16(x, y))
    ensures BitStep16(c, x) == BitStep16(c, y)
  {
  }

  lemma {:induction false} Consecutive(c: bv16, x: bv16, m: nat, n: nat)
    ensures Steps16(c, x, m + n) == Steps16(Steps16(c, x, m), Shift16(x, m), n)
    decreases m
  {
    hide BitStep16, Half16, Xor16;
    if m > 0 { Consecutive(BitStep16(c, x), Half16(x), m - 1, n); }
  }

  lemma GoodSteps16(c: bv16, x: bv16, y: bv16)
    requires x <= 0xFF && y <= 0xFF
    ensures ByteStep16(ByteStep16(c, x), y) == CRC16_GOOD_VALUE <==> Word(x, y) == !c
  {
    GoodValue16();
    hide Steps16, Xor16, Word;
    TwoBytes(c, x, y);
    AllOnes16(c, Word(x, y));
    if Xor16(c, Word(x, y)) != 0xFFFF { Injective16(Xor16(c, Word(x, y)), 0xFFFF, 16); }
  }

  lemma GoodValue16()
    ensures Steps16(0xFFFF, 0, 16) == CRC16_GOOD_VALUE
  {
    assert Steps16(0xFFFF, 0, 8) == 0x0F87;
    assert Steps16(0x0F87, 0, 8) == CRC16_GOOD_VALUE;
    assert Shift16(0, 8) == 0;
    Consecutive(0xFFFF, 0, 8, 8);
  }

  lemma Complement16(c: bv16)
    ensures !c == Xor16(0xFFFF, c) && Xor16(!c, c) == 0xFFFF
  {
  }

  lemma AllOnes16(c: bv16, w: bv16)
    ensures Xor16(c, w) == 0xFFFF <==> w == !c
  {
    Complement16(c);
    hide Xor16;
    XorLaws16(w, c, 0);
    XorLaws16(c, w, 0);
  }

  lemma {:induction false} StaysDifferent8(msg: seq<bv8>, c: bv8, d: bv8)
    requires c != d
    ensures Serial8(msg, c) != Serial8(msg, d)
  {
    hide Steps8, Xor8;
    if msg != [] {
      var x := msg[0];
      MergeByte8(c, x);
      MergeByte8(d, x);
      XorDiffers8(c, d, x);
      Injective8(Xor8(c, x), Xor8(d, x), 8);
      StaysDifferent8(msg[1..], ByteStep8(c, x), ByteStep8(d, x));
    }
  }

  lemma XorDiffers8(c: bv8, d: bv8, x: bv8)
    requires c != d
    ensures Xor8(c, x) != Xor8(d, x) && Xor8(x, c) != Xor8(x, d)
  {
    hide Xor8;
    XorLaws8(c, x, 0);
    XorLaws8(d, x, 0);
    XorLaws8(x, c, 0);
    XorLaws8(x, d, 0);
  }

  lemma {:induction false} StaysDifferent16(msg: seq<bv8>, c: bv16, d: bv16)
    requires c != d
    ensures Serial16(msg, c) != Serial16(msg, d)
  {
    hide Steps16, Xor16;
    if msg != [] {
      var x := msg[0] as bv16;
      MergeByte16(c, x);
      MergeByte16(d, x);
      XorDiffers16(c, d, x);
      Injective16(Xor16(c, x), Xor16(d, x), 8);
      StaysDifferent16(msg[1..], ByteStep16(c, x), ByteStep16(d, x));
    }
  }

  lemma XorDiffers16(c: bv16, d: bv16, x: bv16)
    requires c != d
    ensures Xor16(c, x) != Xor16(d, x) && Xor16(x, c) != Xor16(x, d)
  {
    hide Xor16;
    XorLaws16(c, x, 0);
    XorLaws16(d, x, 0);
    XorLaws16(x, c, 0);
    XorLaws16(x, d, 0);
  }

  /** CRC-8 detects every corruption of a single byte. */
  lemma DetectsOneByte8(before: seq<bv8>, x: bv8, y: bv8, after: seq<bv8>, crc: bv8)
    requires x != y
    ensures Serial8(before + [x] + after, crc) != Serial8(before + [y] + after, crc)
  {
    hide Steps8, Xor8, Serial8;
    var c := Serial8(before, crc);
    Pieces8(before + [x], after, crc);
    Pieces8(before + [y], after, crc);
    Pieces8(before, [x], crc);
    Pieces8(before, [y], crc);
    One8(x, c);
    One8(y, c);
    MergeByte8(c, x);
    MergeByte8(c, y);
    XorDiffers8(x, y, c);
    Injective8(Xor8(c, x), Xor8(c, y), 8);
    StaysDifferent8(after, ByteStep8(c, x), ByteStep8(c, y));
  }

  /** CRC-16 detects every corruption of two neighbouring bytes. */
  lemma DetectsTwoBytes16(before: seq<bv8>, x: bv8, y: bv8, x': bv8, y': bv8, after: seq<bv8>, crc: bv16)
    requires x != x' || y != y'
    ensures Serial16(before + [x, y] + after, crc) != Serial16(before + [x', y'] + after, crc)
  {
    hide Serial16, ByteStep16;
    var c := Serial16(before, crc);
    Pieces16(before + [x, y], after, crc);
    Pieces16(before + [x', y'], after, crc);
    Pieces16(before, [x, y], crc);
    Pieces16(before, [x', y'], crc);
    Two16(x, y, c);
    Two16(x', y', c);
    Widened(x, x');
    Widened(y, y');
    Distinguishes16(c, x as bv16, y as bv16, x' as bv16, y' as bv16);
    StaysDifferent16(after, ByteStep16(ByteStep16(c, x as bv16), y as bv16),
                     ByteStep16(ByteStep16(c, x' as bv16), y' as bv16));
  }

  lemma Widened(x: bv8, y: bv8)
    ensures (x as bv16 == y as bv16) == (x == y)
    ensures x as bv16 <= 0xFF && y as bv16 <= 0xFF
  {
  }

  lemma Distinguishes16(c: bv16, x: bv16, y: bv16, x': bv16, y': bv16)
    requires x <= 0xFF && y <= 0xFF && x' <= 0xFF && y' <= 0xFF
    requires x != x' || y != y'
    ensures ByteStep16(ByteStep16(c, x), y) != ByteStep16(ByteStep16(c, x'), y')
  {
    hide ByteStep16, Steps16, Xor16, Word;
    TwoBytes(c, x, y);
    TwoBytes(c, x', y');
    DifferentWords(x, y, x', y');
    XorDiffers16(Word(x, y), Word(x', y'), c);
    Injective16(Xor16(c, Word(x, y)), Xor16(c, Word(x', y')), 16);
  }

  lemma DifferentWords(x: bv16, y: bv16, x': bv16, y': bv16)
    requires x <= 0xFF && y <= 0xFF && x' <= 0xFF && y' <= 0xFF
    requires x != x' || y != y'
    ensures Word(x, y) != Word(x', y')
  {
  }
}
