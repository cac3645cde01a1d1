/** The Internet checksum (RFC 1071), written twice in different ways, and the IPv4 header
    checksum (bcmutils.c: bcm_ip_cksum, ip_cksum_partial, ip_cksum, ipv4_hdr_cksum). The second
    form loads 16-bit words in host order; the host is little-endian. */
module Checksum {
  import opened Bits

  const TWO32 := 0x1_0000_0000
  const IPV4_MIN_HEADER_LEN := 20
  const HDR_CHKSUM_OFFSET := 10
  const SRC_IP_OFFSET := 12

  // ---------------------------------------------------------------- what is summed

  /** The sum of the big-endian 16-bit words; an odd last byte is a high byte. */
  function BeSum(buf: seq<u8>): nat
  {
    if |buf| == 0 then 0
    else if |buf| == 1 then buf[0] * 0x100
    else buf[0] * 0x100 + buf[1] + BeSum(buf[2..])
  }

  /** The sum of the little-endian 16-bit words; an odd last byte is a low byte. */
  function LeSum(buf: seq<u8>): nat
  {
    if |buf| == 0 then 0
    else if |buf| == 1 then buf[0]
    else buf[0] + buf[1] * 0x100 + LeSum(buf[2..])
  }

  /** The ones'-complement value of a sum: its residue modulo 0xFFFF, where only the sum 0 is
      represented by 0. */
  function OnesValue(s: nat): (v: u16)
  {
    if s == 0 then 0 else 1 + (s - 1) % 0xFFFF
  }

  lemma {:induction false} BeSumSplit(a: seq<u8>, b: seq<u8>)
    requires |a| % 2 == 0
    ensures BeSum(a + b) == BeSum(a) + BeSum(b)
  {
    if a == [] {
      assert a + b == b;
    } else {
      assert (a + b)[2..] == a[2..] + b;
      BeSumSplit(a[2..], b);
    }
  }

  lemma {:induction false} LeSumSplit(a: seq<u8>, b: seq<u8>)
    requires |a| % 2 == 0
    ensures LeSum(a + b) == LeSum(a) + LeSum(b)
  {
    if a == [] {
      assert a + b == b;
    } else {
      assert (a + b)[2..] == a[2..] + b;
      LeSumSplit(a[2..], b);
    }
  }

  /** The sum of what follows place i, one word at a time. */
  lemma BeRest(buf: seq<u8>, i: nat)
    requires i <= |buf|
    ensures BeSum(buf[i..]) ==
      if i == |buf| then 0
      else if i + 1 == |buf| then buf[i] * 0x100
      else buf[i] * 0x100 + buf[i + 1] + BeSum(buf[i + 2..])
  {
    if i + 2 <= |buf| { assert buf[i..][2..] == buf[i + 2..]; }
  }

  lemma LeRest(buf: seq<u8>, i: nat)
    requires i <= |buf|
    ensures LeSum(buf[i..]) ==
      if i == |buf| then 0
      else if i + 1 == |buf| then buf[i]
      else buf[i] + buf[i + 1] * 0x100 + LeSum(buf[i + 2..])
  {
    if i + 2 <= |buf| { assert buf[i..][2..] == buf[i + 2..]; }
  }

  // ---------------------------------------------------------------- the two implementations

  /** A 32-bit addition that drops its carry; the carry is returned for the proofs only. */
  method AddWrapped(acc: u32, x: u16) returns (r: u32, ghost carry: nat)
    ensures acc + x == r + carry * TWO32
  {
    r := (acc + x as int) % TWO32;
    carry := (acc + x as int) / TWO32;
  }

  /** bcm_ip_cksum: adds high byte first and folds in a loop until the carry is gone. */
  method BcmIpCksum(buf: seq<u8>, sum: u32) returns (cksum: u16)
    ensures cksum == 0xFFFF - OnesValue((sum + BeSum(buf)) % TWO32)
  {
    hide OnesValue, BeSum;
    var acc: u32, i := sum, 0;
    ghost var lost := 0;
    assert buf[0..] == buf;
    while |buf| - i > 1
      invariant 0 <= i <= |buf| && i % 2 == 0
      invariant acc + lost * TWO32 + BeSum(buf[i..]) == sum + BeSum(buf)
    {
      BeRest(buf, i);
      ghost var carry;
      acc, carry := AddWrapped(acc, buf[i] as int * 0x100 + buf[i + 1]);
      lost := lost + carry;
      i := i + 2;
    }
    BeRest(buf, i);
    if |buf| - i > 0 {
      ghost var carry;
      acc, carry := AddWrapped(acc, buf[i] as int * 0x100);
      lost := lost + carry;
    }
    DivUnique(sum + BeSum(buf), TWO32, lost, acc);
    ghost var total := acc;
    while acc / 0x1_0000 != 0
      invariant OnesValue(acc) == OnesValue(total)
      decreases acc
    {
      FoldOnce(acc);
      acc := acc % 0x1_0000 + acc / 0x1_0000;
    }
    SmallValue(acc);
    cksum := 0xFFFF - acc;
  }

  /** ip_cksum_partial: the even-length prefix sum. */
  method IpCksumPartial(sum: u32, val8: seq<u8>) returns (r: u32)
    requires |val8| % 2 == 0
    ensures r == (sum + LeSum(val8)) % TWO32
  {
    hide LeSum;
    r := sum;
    var count := |val8| / 2;
    ghost var lost := 0;
    assert val8[2 * 0..] == val8;
    for i := 0 to count
      invariant r + lost * TWO32 + LeSum(val8[2 * i..]) == sum + LeSum(val8)
    {
      LeRest(val8, 2 * i);
      ghost var carry;
      r, carry := AddWrapped(r, val8[2 * i] + val8[2 * i + 1] as int * 0x100);
      lost := lost + carry;
    }
    LeRest(val8, 2 * count);
    DivUnique(sum + LeSum(val8), TWO32, lost, r);
  }

  /** ip_cksum: adds host words and folds twice. */
  method IpCksum(sum: u32, val8: seq<u8>) returns (cksum: u16)
    ensures cksum == 0xFFFF - OnesValue((sum + LeSum(val8)) % TWO32)
  {
    hide OnesValue, LeSum;
    var acc: u32, i := sum, 0;
    ghost var lost := 0;
    assert val8[0..] == val8;
    while |val8| - i > 1
      invariant 0 <= i <= |val8| && i % 2 == 0
      invariant acc + lost * TWO32 + LeSum(val8[i..]) == sum + LeSum(val8)
    {
      LeRest(val8, i);
      ghost var carry;
      acc, carry := AddWrapped(acc, val8[i] + val8[i + 1] as int * 0x100);
      lost := lost + carry;
      i := i + 2;
    }
    LeRest(val8, i);
    if |val8| - i > 0 {
      ghost var carry;
      acc, carry := AddWrapped(acc, val8[i]);
      lost := lost + carry;
    }
    DivUnique(sum + LeSum(val8), TWO32, lost, acc);
    TwoFolds(acc);
    acc := acc / 0x1_0000 + acc % 0x1_0000;
    acc := acc + acc / 0x1_0000;
    cksum := 0xFFFF - acc % 0x1_0000;
  }

  /** ipv4_hdr_cksum: the checksum of a header whose checksum field is skipped, ready to be stored
      as it is; 0 for a header that is too short. */
  method Ipv4HdrCksum(ip: seq<u8>) returns (cksum: u16)
    ensures |ip| < IPV4_MIN_HEADER_LEN ==> cksum == 0
    ensures |ip| >= IPV4_MIN_HEADER_LEN ==> cksum == 0xFFFF - OnesValue(OtherFields(ip) % TWO32)
    ensures |ip| >= 20 ==> cksum == 0xFFFF - OnesValue((LeSum(ip[..10]) + LeSum(ip[12..])) % 0x1_0000_0000)
  {
    if |ip| < IPV4_MIN_HEADER_LEN {
      return 0;
    }
    hide OnesValue, LeSum;
    var sum := IpCksumPartial(0, ip[..HDR_CHKSUM_OFFSET]);
    var ptr := ip[HDR_CHKSUM_OFFSET + 2..];
    assert ptr[..|ip| - SRC_IP_OFFSET] == ip[SRC_IP_OFFSET..];
    cksum := IpCksum(sum, ptr[..|ip| - SRC_IP_OFFSET]);
    WrapTwice(LeSum(ip[..HDR_CHKSUM_OFFSET]), LeSum(ip[SRC_IP_OFFSET..]));
  }

  /** The sum of everything but the checksum field. */
  function OtherFields(ip: seq<u8>): nat
    requires |ip| >= IPV4_MIN_HEADER_LEN
  {
    LeSum(ip[..HDR_CHKSUM_OFFSET]) + LeSum(ip[SRC_IP_OFFSET..])
  }

  // ---------------------------------------------------------------- folding

  lemma WrapTwice(a: nat, b: nat)
    ensures (a % TWO32 + b) % TWO32 == (a + b) % TWO32
  {
    var x := a % TWO32 + b;
    DivUnique(a + b, TWO32, a / TWO32 + x / TWO32, x % TWO32);
  }

  lemma SmallValue(s: u16)
    ensures OnesValue(s) == s
  {
  }

  lemma FoldOnce(s: nat)
    requires s >= 0x1_0000
    ensures 0 < s % 0x1_0000 + s / 0x1_0000 < s
    ensures OnesValue(s % 0x1_0000 + s / 0x1_0000) == OnesValue(s)
  {
    Congruent(s, s % 0x1_0000 + s / 0x1_0000, s / 0x1_0000);
  }

  lemma TwoFolds(s: u32)
    ensures var t := s / 0x1_0000 + s % 0x1_0000; (t + t / 0x1_0000) % 0x1_0000 == OnesValue(s)
  {
    hide OnesValue;
    var t := s / 0x1_0000 + s % 0x1_0000;
    if s >= 0x1_0000 { FoldOnce(s); }
    if t >= 0x1_0000 {
      FoldOnce(t);
      SmallValue(t % 0x1_0000 + t / 0x1_0000);
    } else {
      SmallValue(t);
    }
  }

  /** Positive sums that differ by a multiple of 0xFFFF have the same value. */
  lemma Congruent(a: nat, b: nat, k: nat)
    requires a > 0 && b > 0 && a == b + 0xFFFF * k
    ensures OnesValue(a) == OnesValue(b)
  {
    DivUnique(a - 1, 0xFFFF, (b - 1) / 0xFFFF + k, (b - 1) % 0xFFFF);
  }

  /** The ones-complement value of a sum: equal to it modulo 0xFFFF, and zero for zero only. */
  lemma OnesValueMeaning(s: nat)
    ensures exists k: nat :: s == OnesValue(s) + 0xFFFF * k
    ensures OnesValue(s) == 0 <==> s == 0
  {
    if s > 0 {
      assert s == OnesValue(s) + 0xFFFF * ((s - 1) / 0xFFFF);
    } else {
      assert s == OnesValue(s) + 0xFFFF * 0;
    }
  }

  // ---------------------------------------------------------------- byte order independence

  function Swap(v: u16): u16
  {
    var w: int := v;
    w % 0x100 * 0x100 + w / 0x100
  }

  /** The bytes at even positions. */
  function EvenSum(buf: seq<u8>): nat
  {
    if |buf| == 0 then 0 else if |buf| == 1 then buf[0] else buf[0] + EvenSum(buf[2..])
  }

  lemma {:induction false} SumsCorrespond(buf: seq<u8>)
    ensures 0x100 * BeSum(buf) == LeSum(buf) + 0xFFFF * EvenSum(buf)
    ensures BeSum(buf) == 0 <==> LeSum(buf) == 0
  {
    if |buf| > 1 { SumsCorrespond(buf[2..]); }
  }

  /** The byte-swapped value of a sum is the value of the correspondingly swapped sum. */
  lemma SwapValue(be: nat, le: nat, k: nat)
    requires 0x100 * be == le + 0xFFFF * k && (be == 0 <==> le == 0)
    ensures Swap(OnesValue(be)) == OnesValue(le)
  {
    if be > 0 {
      var v: int := OnesValue(be);
      var q := (be - 1) / 0xFFFF;
      assert be == v + 0xFFFF * q;
      assert 0x100 * v == Swap(v) + 0xFFFF * (v / 0x100);
      assert Swap(v) + 0xFFFF * (v / 0x100 + 0x100 * q) == le + 0xFFFF * k;
      SameClass(Swap(v), le, v / 0x100 + 0x100 * q, k);
      assert OnesValue(Swap(v)) == Swap(v);
    }
  }

  lemma SameClass(a: nat, b: nat, i: nat, j: nat)
    requires a > 0 && b > 0 && a + 0xFFFF * i == b + 0xFFFF * j
    ensures OnesValue(a) == OnesValue(b)
  {
    if i <= j { Congruent(a, b, j - i); } else { Congruent(b, a, i - j); }
  }

  /** RFC 1071, section 2 (B): summing in either byte order gives byte-swapped checksums. */
  lemma ByteOrderIndependence(buf: seq<u8>)
    requires BeSum(buf) < TWO32 && LeSum(buf) < TWO32
    ensures Swap(0xFFFF - OnesValue(BeSum(buf) % TWO32)) == 0xFFFF - OnesValue(LeSum(buf) % TWO32)
  {
    hide OnesValue, BeSum, LeSum, EvenSum, Swap;
    SumsCorrespond(buf);
    SwapValue(BeSum(buf), LeSum(buf), EvenSum(buf));
    SwapComplement(OnesValue(BeSum(buf)));
  }

  lemma SwapTwice(v: u16)
    ensures Swap(Swap(v)) == v
  {
  }

  lemma SwapComplement(v: u16)
    ensures Swap(0xFFFF - v) == 0xFFFF - Swap(v)
  {
  }

  /** The two functions on the same bytes, started at zero. */
  method BothOrders(buf: seq<u8>) returns (be: u16, le: u16)
    requires BeSum(buf) < TWO32 && LeSum(buf) < TWO32
    ensures Swap(be) == le && Swap(le) == be
  {
    hide OnesValue, BeSum, LeSum, Swap;
    be := BcmIpCksum(buf, 0);
    le := IpCksum(0, buf);
    ByteOrderIndependence(buf);
    SwapTwice(be);
  }

  // ---------------------------------------------------------------- the stored header checksum

  /** The header with c stored in its checksum field, as a host-order 16-bit store does. */
  function WithChecksum(ip: seq<u8>, c: u16): seq<u8>
    requires |ip| >= IPV4_MIN_HEADER_LEN
  {
    ip[..HDR_CHKSUM_OFFSET] + [c % 0x100, c / 0x100] + ip[SRC_IP_OFFSET..]
  }

  /** What stands in bytes 10 and 11 does not matter to the checksum. */
  lemma FieldIgnored(ip: seq<u8>, x: u8, y: u8)
    requires |ip| >= 20
    ensures OtherFields(ip[10 := x][11 := y]) == OtherFields(ip) == LeSum(ip[..10]) + LeSum(ip[12..])
  {
    hide LeSum;
    var ip' := ip[10 := x][11 := y];
    assert ip'[..10] == ip[..10] && ip'[12..] == ip[12..];
  }

  lemma StoredSum(ip: seq<u8>, c: u16)
    requires |ip| >= IPV4_MIN_HEADER_LEN
    ensures LeSum(WithChecksum(ip, c)) == OtherFields(ip) + c
    ensures OtherFields(WithChecksum(ip, c)) == OtherFields(ip)
  {
    var a, f, b := ip[..HDR_CHKSUM_OFFSET], [c % 0x100, c / 0x100], ip[SRC_IP_OFFSET..];
    assert WithChecksum(ip, c) == a + (f + b);
    LeSumSplit(a, f + b);
    LeSumSplit(f, b);
    assert f[2..] == [];
    assert WithChecksum(ip, c)[..HDR_CHKSUM_OFFSET] == a && WithChecksum(ip, c)[SRC_IP_OFFSET..] == b;
  }

  /** Which stored values verify: exactly the computed one, and the other representation of zero
      when the computed one is zero. */
  lemma WhatVerifies(ip: seq<u8>, c: u16)
    requires |ip| >= IPV4_MIN_HEADER_LEN && OtherFields(ip) + 0xFFFF < TWO32
    ensures var good := 0xFFFF - OnesValue(OtherFields(ip) % TWO32);
      0xFFFF - OnesValue(LeSum(WithChecksum(ip, c)) % TWO32) == 0 <==> c == good || (good == 0 && c == 0xFFFF)
  {
    hide OnesValue, LeSum, OtherFields, WithChecksum;
    StoredSum(ip, c);
    VerifyingComplement(OtherFields(ip), c);
  }

  lemma VerifyingComplement(s: nat, c: u16)
    ensures OnesValue(s + c) == 0xFFFF <==> c == 0xFFFF - OnesValue(s) || (OnesValue(s) == 0xFFFF && c == 0xFFFF)
  {
    if s > 0 {
      var v := OnesValue(s);
      Congruent(s + c, v + c, (s - 1) / 0xFFFF);
    }
  }

  /** Storing the computed checksum in bytes 10 and 11 makes the header verify, in either byte order. */
  method StoreAndVerify(ip: seq<u8>) returns (ip': seq<u8>, le: u16, be: u16)
    requires |ip| >= IPV4_MIN_HEADER_LEN && OtherFields(ip) + 0xFFFF < TWO32
    requires BeSum(ip) + 0xFFFF < TWO32
    ensures |ip'| == |ip| && ip'[..10] == ip[..10] && ip'[12..] == ip[12..]
    ensures le == 0 && be == 0
  {
    assert Swap(0) == 0;
    hide OnesValue, LeSum, BeSum, Swap;
    var c := Ipv4HdrCksum(ip);
    ip' := ip[HDR_CHKSUM_OFFSET := c % 0x100][HDR_CHKSUM_OFFSET + 1 := c / 0x100];
    assert ip' == WithChecksum(ip, c);
    le := IpCksum(0, ip');
    be := BcmIpCksum(ip', 0);
    WhatVerifies(ip, c);
    StoredSum(ip, c);
    BeSumBound(ip, c);
    ByteOrderIndependence(ip');
    SwapTwice(be);
  }

  lemma BeSumBound(ip: seq<u8>, c: u16)
    requires |ip| >= IPV4_MIN_HEADER_LEN
    ensures BeSum(WithChecksum(ip, c)) <= BeSum(ip) + 0xFFFF
  {
    hide BeSum, WithChecksum;
    var a, b := ip[..HDR_CHKSUM_OFFSET], ip[SRC_IP_OFFSET..];
    var f, g := [c % 0x100, c / 0x100], ip[HDR_CHKSUM_OFFSET..SRC_IP_OFFSET];
    HeaderParts(ip, c);
    ThreeParts(a, f, b);
    ThreeParts(a, g, b);
    TwoBytes(f);
  }

  lemma HeaderParts(ip: seq<u8>, c: u16)
    requires |ip| >= IPV4_MIN_HEADER_LEN
    ensures WithChecksum(ip, c) == ip[..HDR_CHKSUM_OFFSET] + ([c % 0x100, c / 0x100] + ip[SRC_IP_OFFSET..])
    ensures ip == ip[..HDR_CHKSUM_OFFSET] + (ip[HDR_CHKSUM_OFFSET..SRC_IP_OFFSET] + ip[SRC_IP_OFFSET..])
  {
  }

  lemma ThreeParts(a: seq<u8>, f: seq<u8>, b: seq<u8>)
    requires |a| % 2 == 0 && |f| % 2 == 0
    ensures BeSum(a + (f + b)) == BeSum(a) + BeSum(f) + BeSum(b)
  {
    hide BeSum;
    BeSumSplit(a, f + b);
    BeSumSplit(f, b);
  }

  lemma TwoBytes(f: seq<u8>)
    requires |f| == 2
    ensures BeSum(f) <= 0xFFFF
  {
    assert f[2..] == [];
  }
}
