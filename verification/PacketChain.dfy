/** The planner that cuts a chain of packets into CMD53 commands with scatter-gather lists
    (bcmsdh_sdmmc.c: sdioh_request_packet_chain, multi-descriptor mode). */
module PacketChain {
  import opened Bits
  import opened Common

  const MAX_IO_RW_EXTENDED_BLK := 511
  const SDIOH_SDMMC_MAX_SG_ENTRIES := 64

  type Bytes = seq<u8>

  /** One scatter-gather entry: len bytes of a packet's data, from offset. */
  datatype Seg = Seg(packet: nat, offset: nat, len: nat)

  /** One request handed to the MMC core: the CMD53 argument and its data descriptors. */
  datatype Request = Request(arg: nat, blksz: nat, blocks: nat, sg: seq<Seg>)

  datatype Host = Host(maxBlkCount: nat, maxReqSize: nat, maxSegSize: nat)

  datatype Status = Success | SgOverflow | NotAligned | BusError

  /** How many bytes one command may carry. */
  function MaxReqSize(h: Host, blkSize: nat): nat
  {
    Min(Min(h.maxBlkCount, MAX_IO_RW_EXTENDED_BLK) * blkSize, h.maxReqSize)
  }

  // ---------------------------------------------------------------- what is sent

  function Flat(packets: seq<Bytes>): Bytes
  {
    if packets == [] then [] else Flat(packets[..|packets| - 1]) + packets[|packets| - 1]
  }

  predicate SegIn(packets: seq<Bytes>, g: Seg)
  {
    g.packet < |packets| && g.offset + g.len <= |packets[g.packet]|
  }

  predicate SegsIn(packets: seq<Bytes>, sg: seq<Seg>) { forall k :: 0 <= k < |sg| ==> SegIn(packets, sg[k]) }

  function SegBytes(packets: seq<Bytes>, g: Seg): Bytes
    requires SegIn(packets, g)
  {
    packets[g.packet][g.offset..g.offset + g.len]
  }

  /** The bytes a scatter-gather list stands for. */
  function Gathered(packets: seq<Bytes>, sg: seq<Seg>): Bytes
    requires SegsIn(packets, sg)
  {
    if sg == [] then []
    else
      assert forall k :: 0 <= k < |sg| - 1 ==> sg[..|sg| - 1][k] == sg[k];
      Gathered(packets, sg[..|sg| - 1]) + SegBytes(packets, sg[|sg| - 1])
  }

  function Total(sg: seq<Seg>): nat
  {
    if sg == [] then 0 else Total(sg[..|sg| - 1]) + sg[|sg| - 1].len
  }

  /** The bytes of the first k requests. */
  function SentBefore(reqs: seq<Request>, k: nat): nat
    requires k <= |reqs|
  {
    if k == 0 then 0 else SentBefore(reqs, k - 1) + Total(reqs[k - 1].sg)
  }

  predicate RequestsIn(packets: seq<Bytes>, reqs: seq<Request>)
  {
    forall k :: 0 <= k < |reqs| ==> SegsIn(packets, reqs[k].sg)
  }

  /** The bytes of all the requests in order. */
  function Sent(packets: seq<Bytes>, reqs: seq<Request>): Bytes
    requires RequestsIn(packets, reqs)
  {
    if reqs == [] then []
    else
      assert forall k :: 0 <= k < |reqs| - 1 ==> reqs[..|reqs| - 1][k] == reqs[k];
      Sent(packets, reqs[..|reqs| - 1]) + Gathered(packets, reqs[|reqs| - 1].sg)
  }

  // ---------------------------------------------------------------- the command argument

  /** Where the fields of the argument begin, and the widths of the wider ones. */
  const RW_FLAG := 31
  const FUNCTION := 28
  const BLOCK_MODE := 27
  const OP_CODE := 26
  const REG_ADDR := 9
  const FUNCTION_BITS := 3
  const REG_ADDR_BITS := 17
  const COUNT_BITS := 9

  /** mmc_cmd.arg as the driver puts it together. */
  function Argument(write: bool, func: nat, fifo: bool, addr: nat, blkNum: nat): nat
  {
    var a0 := if write then Shl(1, RW_FLAG) else 0;
    var a1 := Or(a0, Shl(Low(func, FUNCTION_BITS), FUNCTION));
    var a2 := Or(a1, Shl(1, BLOCK_MODE));
    var a3 := Or(a2, if fifo then 0 else Shl(1, OP_CODE));
    var a4 := Or(a3, Shl(Low(addr, REG_ADDR_BITS), REG_ADDR));
    Or(a4, Low(blkNum, COUNT_BITS))
  }

  /** The fields of a CMD53 argument (section 5.3 of the SDIO Simplified Specification). */
  datatype Cmd53 = Cmd53(write: bool, func: nat, blockMode: bool, increment: bool, addr: nat, count: nat)

  function Fields(arg: nat): Cmd53
  {
    Cmd53(Bit(arg, RW_FLAG), Low(Shr(arg, FUNCTION), FUNCTION_BITS), Bit(arg, BLOCK_MODE), Bit(arg, OP_CODE),
          Low(Shr(arg, REG_ADDR), REG_ADDR_BITS), Low(arg, COUNT_BITS))
  }

  /** No field runs into another, and what the controller reads out is what was put in: the block
      count without loss when it is at most 511, the address modulo 2^17. */
  lemma ArgumentFields(write: bool, func: nat, fifo: bool, addr: nat, blkNum: nat)
    requires blkNum <= MAX_IO_RW_EXTENDED_BLK
    ensures Fields(Argument(write, func, fifo, addr, blkNum)) ==
      Cmd53(write, Low(func, FUNCTION_BITS), true, !fifo, Low(addr, REG_ADDR_BITS), blkNum)
  {
    var arg := Argument(write, func, fifo, addr, blkNum);
    Nine();
    hide Low, Shr, Argument, Pow2;
    LowOfSmall(blkNum, COUNT_BITS);
    Word(write, func, fifo, addr, blkNum, 31);
    Word(write, func, fifo, addr, blkNum, 27);
    Word(write, func, fifo, addr, blkNum, 26);
    Word3(write, func, fifo, addr, blkNum);
    Word17(write, func, fifo, addr, blkNum);
    Word9(write, func, fifo, addr, blkNum);
  }

  lemma Nine()
    ensures Pow2(COUNT_BITS) == 512
  {
  }

  /** Every bit of the argument, told by its place. */
  lemma Word(write: bool, func: nat, fifo: bool, addr: nat, blkNum: nat, i: nat)
    ensures Bit(Argument(write, func, fifo, addr, blkNum), i) ==
      if i < 9 then Bit(blkNum, i)
      else if i < 26 then Bit(addr, i - 9)
      else if i == 26 then !fifo
      else if i == 27 then true
      else if i < 31 then Bit(func, i - 28)
      else i == 31 && write
  {
    hide Bit, Or, Shl, Low;
    var a0 := if write then Shl(1, RW_FLAG) else 0;
    var a1 := Or(a0, Shl(Low(func, FUNCTION_BITS), FUNCTION));
    var a2 := Or(a1, Shl(1, BLOCK_MODE));
    var inc := if fifo then 0 else Shl(1, OP_CODE);
    var a3 := Or(a2, inc);
    var a4 := Or(a3, Shl(Low(addr, REG_ADDR_BITS), REG_ADDR));
    OneAt(RW_FLAG, i);
    OneAt(BLOCK_MODE, i);
    OneAt(OP_CODE, i);
    BitOfZero(i);
    OrBit(a0, Shl(Low(func, FUNCTION_BITS), FUNCTION), i);
    FieldBit(func, FUNCTION_BITS, FUNCTION, i);
    OrBit(a1, Shl(1, BLOCK_MODE), i);
    OrBit(a2, inc, i);
    OrBit(a3, Shl(Low(addr, REG_ADDR_BITS), REG_ADDR), i);
    FieldBit(addr, REG_ADDR_BITS, REG_ADDR, i);
    OrBit(a4, Low(blkNum, COUNT_BITS), i);
    LowBit(blkNum, COUNT_BITS, i);
  }

  lemma OneAt(k: nat, i: nat)
    ensures Bit(Shl(1, k), i) == (i == k)
  {
    ShlOne(k);
    BitOfPow2(k, i);
  }

  lemma FieldBit(w: nat, n: nat, k: nat, i: nat)
    ensures Bit(Shl(Low(w, n), k), i) == (k <= i < k + n && Bit(w, i - k))
  {
    hide Bit, Shl, Low;
    ShlBit(Low(w, n), k, i);
    if i >= k { LowBit(w, n, i - k); }
  }

  lemma Word3(write: bool, func: nat, fifo: bool, addr: nat, blkNum: nat)
    ensures Low(Shr(Argument(write, func, fifo, addr, blkNum), FUNCTION), FUNCTION_BITS) == Low(func, FUNCTION_BITS)
  {
    hide Bit, Low, Shr, Argument;
    var arg := Argument(write, func, fifo, addr, blkNum);
    forall i: nat | i < 3 ensures Bit(Low(Shr(arg, FUNCTION), FUNCTION_BITS), i) == Bit(Low(func, FUNCTION_BITS), i) {
      LowBit(Shr(arg, FUNCTION), FUNCTION_BITS, i);
      ShrBit(arg, FUNCTION, i);
      Word(write, func, fifo, addr, blkNum, i + FUNCTION);
      LowBit(func, FUNCTION_BITS, i);
    }
    SameBits(Low(Shr(arg, FUNCTION), FUNCTION_BITS), Low(func, FUNCTION_BITS), FUNCTION_BITS);
  }

  lemma Word17(write: bool, func: nat, fifo: bool, addr: nat, blkNum: nat)
    ensures Low(Shr(Argument(write, func, fifo, addr, blkNum), REG_ADDR), REG_ADDR_BITS) == Low(addr, REG_ADDR_BITS)
  {
    hide Bit, Low, Shr, Argument;
    var arg := Argument(write, func, fifo, addr, blkNum);
    forall i: nat | i < 17 ensures Bit(Low(Shr(arg, REG_ADDR), REG_ADDR_BITS), i) == Bit(Low(addr, REG_ADDR_BITS), i) {
      LowBit(Shr(arg, REG_ADDR), REG_ADDR_BITS, i);
      ShrBit(arg, REG_ADDR, i);
      Word(write, func, fifo, addr, blkNum, i + REG_ADDR);
      LowBit(addr, REG_ADDR_BITS, i);
    }
    SameBits(Low(Shr(arg, REG_ADDR), REG_ADDR_BITS), Low(addr, REG_ADDR_BITS), REG_ADDR_BITS);
  }

  lemma Word9(write: bool, func: nat, fifo: bool, addr: nat, blkNum: nat)
    ensures Low(Argument(write, func, fifo, addr, blkNum), COUNT_BITS) == Low(blkNum, COUNT_BITS)
  {
    hide Bit, Low, Shr, Argument;
    var arg := Argument(write, func, fifo, addr, blkNum);
    forall i: nat | i < 9 ensures Bit(Low(arg, COUNT_BITS), i) == Bit(Low(blkNum, COUNT_BITS), i) {
      LowBit(arg, COUNT_BITS, i);
      Word(write, func, fifo, addr, blkNum, i);
      LowBit(blkNum, COUNT_BITS, i);
    }
    SameBits(Low(arg, COUNT_BITS), Low(blkNum, COUNT_BITS), COUNT_BITS);
  }

  // ---------------------------------------------------------------- positions in the chain

  /** How many bytes lie before packet p. */
  function Before(packets: seq<Bytes>, p: nat): nat
    requires p <= |packets|
  {
    if p == 0 then 0 else Before(packets, p - 1) + |packets[p - 1]|
  }

  lemma {:induction false} FlatPrefix(packets: seq<Bytes>, p: nat)
    requires p <= |packets|
    ensures |Flat(packets[..p])| == Before(packets, p)
  {
    if p > 0 {
      FlatPrefix(packets, p - 1);
      assert packets[..p][..p - 1] == packets[..p - 1];
    }
  }

  lemma {:induction false} FlatSplits(packets: seq<Bytes>, p: nat)
    requires p <= |packets|
    ensures Before(packets, p) <= |Flat(packets)|
    ensures Flat(packets)[..Before(packets, p)] == Flat(packets[..p])
    decreases |packets|
  {
    FlatPrefix(packets, p);
    FlatPrefix(packets, |packets|);
    assert packets[..|packets|] == packets;
    if p < |packets| {
      var shorter := packets[..|packets| - 1];
      FlatSplits(shorter, p);
      assert shorter[..p] == packets[..p];
      SameBefore(packets, shorter, p);
    }
  }

  lemma {:induction false} SameBefore(a: seq<Bytes>, b: seq<Bytes>, p: nat)
    requires p <= |b| <= |a| && b == a[..|b|]
    ensures Before(a, p) == Before(b, p)
  {
    if p > 0 { SameBefore(a, b, p - 1); }
  }

  /** The bytes of packet p lie in the stream at its place. */
  lemma PacketInStream(packets: seq<Bytes>, p: nat)
    requires p < |packets|
    ensures Before(packets, p) + |packets[p]| <= |Flat(packets)|
    ensures Flat(packets)[Before(packets, p)..Before(packets, p) + |packets[p]|] == packets[p]
  {
    hide Flat;
    FlatSplits(packets, p + 1);
    FlatPrefix(packets, p);
    NextFlat(packets, p);
    BehindPrefix(Flat(packets), Flat(packets[..p]), packets[p]);
  }

  lemma BehindPrefix(t: Bytes, a: Bytes, c: Bytes)
    requires |a| + |c| <= |t| && t[..|a| + |c|] == a + c
    ensures t[|a|..|a| + |c|] == c
  {
    assert t[..|a| + |c|][|a|..] == c;
  }

  lemma NextFlat(packets: seq<Bytes>, p: nat)
    requires p < |packets|
    ensures Flat(packets[..p + 1]) == Flat(packets[..p]) + packets[p]
  {
    assert packets[..p + 1][..p] == packets[..p];
  }

  lemma SegmentInStream(packets: seq<Bytes>, g: Seg)
    requires SegIn(packets, g)
    ensures var s := Before(packets, g.packet) + g.offset;
      s + g.len <= |Flat(packets)| && SegBytes(packets, g) == Flat(packets)[s..s + g.len]
  {
    PacketInStream(packets, g.packet);
    hide Flat, Before;
    var t, b := Flat(packets), Before(packets, g.packet);
    var n := |packets[g.packet]|;
    assert t[b..b + n] == packets[g.packet];
    SliceOfSlice(t, b, b + n, g.offset, g.offset + g.len);
  }

  lemma WholeStream(packets: seq<Bytes>)
    ensures Before(packets, |packets|) == |Flat(packets)|
  {
    FlatPrefix(packets, |packets|);
    assert packets[..|packets|] == packets;
  }

  // ---------------------------------------------------------------- the planner

  predicate Limits(h: Host, blkSize: nat) { h.maxBlkCount > 0 && h.maxReqSize > 0 && h.maxSegSize > 0 && blkSize > 0 }

  lemma RequestFits(h: Host, blkSize: nat, ttl: nat)
    requires Limits(h, blkSize)
    requires ttl <= MaxReqSize(h, blkSize)
    ensures MaxReqSize(h, blkSize) > 0
    ensures Quotient(ttl, blkSize) <= Min(h.maxBlkCount, MAX_IO_RW_EXTENDED_BLK)
  {
    var n := Min(h.maxBlkCount, MAX_IO_RW_EXTENDED_BLK);
    MulMono(1, n, blkSize);
    var q := ttl / blkSize;
    if q > n { MulMono(n + 1, q, blkSize); }
  }

  lemma GatherOne(packets: seq<Bytes>, sg: seq<Seg>, g: Seg)
    requires SegsIn(packets, sg) && SegIn(packets, g)
    ensures SegsIn(packets, sg + [g])
    ensures Gathered(packets, sg + [g]) == Gathered(packets, sg) + SegBytes(packets, g)
    ensures Total(sg + [g]) == Total(sg) + g.len
  {
    assert (sg + [g])[..|sg|] == sg;
  }

  /** Is (p, offset) a place in the chain where the planner can stand? */
  predicate Place(packets: seq<Bytes>, p: nat, offset: nat)
  {
    p <= |packets| &&
    if p == |packets| then offset == 0 else offset <= |packets[p]| && (offset == |packets[p]| ==> offset == 0)
  }

  function Position(packets: seq<Bytes>, p: nat, offset: nat): nat
    requires Place(packets, p, offset)
  {
    Before(packets, p) + offset
  }

  predicate ShortSegs(sg: seq<Seg>, most: nat) { forall k :: 0 <= k < |sg| ==> sg[k].len <= most }

  /** Every entry but the last ends its packet or is as long as an entry may be. */
  predicate NoneCut(packets: seq<Bytes>, sg: seq<Seg>, most: nat)
    requires SegsIn(packets, sg)
  {
    forall k :: 0 <= k < |sg| - 1 ==> sg[k].len == most || sg[k].offset + sg[k].len == |packets[sg[k].packet]|
  }

  /** Where the entries end that begin at packet p, at this offset. */
  function Behind(packets: seq<Bytes>, sg: seq<Seg>, p: nat, offset: nat): (nat, nat)
    requires SegsIn(packets, sg)
  {
    if sg == [] then (p, offset)
    else
      var g := sg[|sg| - 1];
      if g.offset + g.len == |packets[g.packet]| then (g.packet + 1, 0) else (g.packet, g.offset + g.len)
  }

  lemma SegsMore(packets: seq<Bytes>, sg: seq<Seg>, more: seq<Seg>)
    ensures SegsIn(packets, sg + more) <==> SegsIn(packets, sg) && SegsIn(packets, more)
  {
    var all := sg + more;
    assert forall k :: 0 <= k < |sg| ==> all[k] == sg[k];
    assert forall k :: 0 <= k < |more| ==> all[k + |sg|] == more[k];
  }

  /** Each entry begins where the one before it ended: no packet is left out, not even an empty one. */
  predicate InOrder(packets: seq<Bytes>, sg: seq<Seg>, p: nat, offset: nat)
    requires SegsIn(packets, sg)
  {
    sg == [] ||
    var n := |sg| - 1;
    InOrder(packets, sg[..n], p, offset) && (sg[n].packet, sg[n].offset) == Behind(packets, sg[..n], p, offset)
  }

  lemma BehindMore(packets: seq<Bytes>, sg: seq<Seg>, more: seq<Seg>, p: nat, offset: nat)
    requires SegsIn(packets, sg) && SegsIn(packets, more)
    ensures SegsIn(packets, sg + more)
    ensures var (p', offset') := Behind(packets, sg, p, offset);
      Behind(packets, sg + more, p, offset) == Behind(packets, more, p', offset')
  {
    SegsMore(packets, sg, more);
    if more == [] { assert sg + more == sg; }
  }

  lemma {:induction false} InOrderMore(packets: seq<Bytes>, sg: seq<Seg>, more: seq<Seg>, p: nat, offset: nat)
    requires SegsIn(packets, sg) && SegsIn(packets, more) && InOrder(packets, sg, p, offset)
    requires var (p', offset') := Behind(packets, sg, p, offset); InOrder(packets, more, p', offset')
    ensures SegsIn(packets, sg + more) && InOrder(packets, sg + more, p, offset)
    ensures var (p', offset') := Behind(packets, sg, p, offset);
      Behind(packets, sg + more, p, offset) == Behind(packets, more, p', offset')
    decreases |more|
  {
    hide Behind, SegIn;
    BehindMore(packets, sg, more, p, offset);
    if more == [] {
      assert sg + more == sg;
    } else {
      var n := |more| - 1;
      BehindMore(packets, sg, more[..n], p, offset);
      assert (sg + more)[..|sg| + n] == sg + more[..n];
      InOrderMore(packets, sg, more[..n], p, offset);
    }
  }

  /** sg stands for the ttl bytes of the stream from s on. */
  predicate Covers(packets: seq<Bytes>, sg: seq<Seg>, s: nat, ttl: nat)
  {
    && SegsIn(packets, sg) && s + ttl <= |Flat(packets)|
    && Gathered(packets, sg) == Flat(packets)[s..s + ttl]
    && Total(sg) == ttl
  }

  /** A bound on the number of entries: each one ends its packet or is of full size. */
  ghost predicate FewSegs(count: nat, done: int, maxSeg: nat, ttl: nat)
  {
    exists full: nat :: count <= done + full && full * maxSeg <= ttl
  }

  lemma FewSegsStep(count: nat, done: int, maxSeg: nat, ttl: nat, size: nat, ended: bool)
    requires FewSegs(count, done, maxSeg, ttl) && (ended || size == maxSeg)
    ensures FewSegs(count + 1, if ended then done + 1 else done, maxSeg, ttl + size)
  {
    var full: nat :| count <= done + full && full * maxSeg <= ttl;
    if !ended {
      assert (full + 1) * maxSeg == full * maxSeg + maxSeg;
      assert count + 1 <= done + (full + 1);
    } else {
      assert count + 1 <= done + 1 + full;
    }
  }

  lemma FewSegsBound(packets: seq<Bytes>, count: nat, done: int, maxSeg: nat, ttl: nat, maxReq: nat)
    requires maxSeg > 0 && ttl < maxReq && FewSegs(count, done, maxSeg, ttl)
    requires done < |packets| && count >= SDIOH_SDMMC_MAX_SG_ENTRIES
    ensures TooManySegs(packets, maxReq, maxSeg)
  {
    var full: nat :| count <= done + full && full * maxSeg <= ttl;
    FullSegs(full, maxSeg, ttl, maxReq);
  }

  lemma FullSegs(full: nat, d: nat, ttl: nat, maxReq: nat)
    requires d > 0 && full * d <= ttl < maxReq
    ensures full <= (maxReq - 1) / d
  {
    var q, r := (maxReq - 1) / d, (maxReq - 1) % d;
    assert maxReq - 1 == q * d + r;
    if full > q { MulMono(q + 1, full, d); }
  }

  lemma FewSegsStart(maxSeg: nat)
    ensures FewSegs(0, 0, maxSeg, 0)
  {
    var full: nat := 0;
    assert 0 <= 0 + full && full * maxSeg <= 0;
  }

  /** Does a command of the chain from this place on need more entries than the table has? The
      command at hand carries ttl bytes in count entries so far. */
  predicate Overfull(packets: seq<Bytes>, p: nat, offset: nat, ttl: nat, count: nat, maxReq: nat, maxSeg: nat)
    requires Place(packets, p, offset) && ttl <= maxReq && maxReq > 0 && maxSeg > 0
    decreases |packets| - p, if p < |packets| then |packets[p]| - offset else 0, ttl
  {
    if p == |packets| then false
    else if ttl == maxReq then Overfull(packets, p, offset, 0, 0, maxReq, maxSeg)
    else if count >= SDIOH_SDMMC_MAX_SG_ENTRIES then true
    else
      var size := Min(Min(|packets[p]| - offset, maxReq - ttl), maxSeg);
      if offset + size == |packets[p]| then Overfull(packets, p + 1, 0, ttl + size, count + 1, maxReq, maxSeg)
      else Overfull(packets, p, offset + size, ttl + size, count + 1, maxReq, maxSeg)
  }

  lemma OverfullStep(packets: seq<Bytes>, p: nat, offset: nat, ttl: nat, count: nat, maxReq: nat, maxSeg: nat)
    requires Place(packets, p, offset) && ttl < maxReq && maxSeg > 0 && p < |packets|
    ensures count >= SDIOH_SDMMC_MAX_SG_ENTRIES ==> Overfull(packets, p, offset, ttl, count, maxReq, maxSeg)
    ensures count < SDIOH_SDMMC_MAX_SG_ENTRIES ==>
      var size := Min(Min(|packets[p]| - offset, maxReq - ttl), maxSeg);
      Overfull(packets, p, offset, ttl, count, maxReq, maxSeg) ==
      if offset + size == |packets[p]| then Overfull(packets, p + 1, 0, ttl + size, count + 1, maxReq, maxSeg)
      else Overfull(packets, p, offset + size, ttl + size, count + 1, maxReq, maxSeg)
  {
  }

  lemma OverfullAgain(packets: seq<Bytes>, p: nat, offset: nat, ttl: nat, count: nat, maxReq: nat, maxSeg: nat)
    requires Place(packets, p, offset) && ttl <= maxReq && maxReq > 0 && maxSeg > 0
    requires p == |packets| || ttl == maxReq
    ensures Overfull(packets, p, offset, ttl, count, maxReq, maxSeg) ==
      Overfull(packets, p, offset, 0, 0, maxReq, maxSeg)
  {
  }

  // ---------------------------------------------------------------- crowded windows

  /** How many entries of at most d bytes n bytes take. */
  function Ceiling(n: nat, d: nat): nat
    requires d > 0
  {
    (n + d - 1) / d
  }

  function Max(a: nat, b: nat): nat { if a <= b then b else a }

  /** The entries that packet i has among the bytes from..to of the stream; an empty packet has one at
      its place. */
  function Pieces(packets: seq<Bytes>, i: nat, from: nat, to: nat, maxSeg: nat): nat
    requires i < |packets| && maxSeg > 0
  {
    var b, n := Before(packets, i), |packets[i]|;
    if n == 0 then (if from <= b < to then 1 else 0)
    else
      var lo, hi := Max(b, from), Min(b + n, to);
      if lo < hi then Ceiling(hi - lo, maxSeg) else 0
  }

  /** The entries of the packets from p on among those bytes. */
  function Entries(packets: seq<Bytes>, p: nat, from: nat, to: nat, maxSeg: nat): nat
    requires p <= |packets| && maxSeg > 0
    decreases |packets| - p
  {
    if p == |packets| then 0 else Pieces(packets, p, from, to, maxSeg) + Entries(packets, p + 1, from, to, maxSeg)
  }

  /** The entries that the k-th stretch of maxReq bytes takes. */
  function WindowEntries(packets: seq<Bytes>, k: nat, maxReq: nat, maxSeg: nat): nat
    requires maxSeg > 0
  {
    Entries(packets, 0, k * maxReq, (k + 1) * maxReq, maxSeg)
  }

  /** Does a stretch from the w-th on take more entries than the table has? */
  ghost predicate CrowdedFrom(packets: seq<Bytes>, w: nat, maxReq: nat, maxSeg: nat)
    requires maxSeg > 0
  {
    exists k: nat :: k >= w && WindowEntries(packets, k, maxReq, maxSeg) > SDIOH_SDMMC_MAX_SG_ENTRIES
  }

  /** All packets in front of p begin below this place. */
  predicate Passed(packets: seq<Bytes>, p: nat, bound: nat)
    requires p <= |packets|
  {
    forall i :: 0 <= i < p ==> Before(packets, i) < bound
  }

  lemma {:induction false} BeforeMono(packets: seq<Bytes>, i: nat, j: nat)
    requires i < j <= |packets|
    ensures Before(packets, i) + |packets[i]| <= Before(packets, j)
    decreases j
  {
    if i + 1 < j { BeforeMono(packets, i, j - 1); }
  }

  /** Packets that begin at s' or behind have nothing between s and s'. */
  lemma {:induction false} EntriesShift(packets: seq<Bytes>, p: nat, s: nat, s': nat, to: nat, maxSeg: nat)
    requires p <= |packets| && maxSeg > 0 && s <= s' && (p < |packets| ==> s' <= Before(packets, p))
    ensures Entries(packets, p, s, to, maxSeg) == Entries(packets, p, s', to, maxSeg)
    decreases |packets| - p
  {
    hide Ceiling;
    if p < |packets| {
      if p + 1 < |packets| { NextPacket(packets, p); }
      EntriesShift(packets, p + 1, s, s', to, maxSeg);
    }
  }

  /** Nothing is taken where there is no room, nor behind the end of the stream. */
  lemma {:induction false} NoEntries(packets: seq<Bytes>, p: nat, from: nat, to: nat, maxSeg: nat)
    requires p <= |packets| && maxSeg > 0
    requires to <= from || (Passed(packets, |packets|, from) && |Flat(packets)| <= from)
    ensures Entries(packets, p, from, to, maxSeg) == 0
    decreases |packets| - p
  {
    hide Ceiling, Flat;
    if p < |packets| {
      PacketInStream(packets, p);
      NoEntries(packets, p + 1, from, to, maxSeg);
    }
  }

  /** Packets in front of place p have nothing from there on. */
  lemma {:induction false} EntriesFrom(packets: seq<Bytes>, q: nat, p: nat, from: nat, to: nat, maxSeg: nat)
    requires q <= p <= |packets| && maxSeg > 0 && Passed(packets, p, from)
    requires p > 0 ==> Before(packets, p - 1) + |packets[p - 1]| <= from
    ensures Entries(packets, q, from, to, maxSeg) == Entries(packets, p, from, to, maxSeg)
    decreases p - q
  {
    hide Ceiling;
    if q < p {
      if q + 1 < p { BeforeMono(packets, q, p - 1); }
      EntriesFrom(packets, q + 1, p, from, to, maxSeg);
    }
  }

  lemma CeilingStep(n: nat, d: nat)
    requires d > 0 && n > 0
    ensures Ceiling(n, d) == 1 + Ceiling(n - Min(n, d), d)
  {
    if n > d {
      var m := n - d + d - 1;
      DivUnique(m + d, d, m / d + 1, m % d);
    } else {
      DivUnique(n + d - 1, d, 1, n - 1);
      DivUnique(d - 1, d, 0, d - 1);
    }
  }

  /** Taking one entry leaves one fewer. */
  lemma OneEntry(packets: seq<Bytes>, p: nat, offset: nat, to: nat, maxSeg: nat)
    requires Place(packets, p, offset) && p < |packets| && maxSeg > 0 && Position(packets, p, offset) < to
    ensures var s := Position(packets, p, offset);
      var size := Min(Min(|packets[p]| - offset, to - s), maxSeg);
      Entries(packets, p, s, to, maxSeg) == 1 +
        if offset + size == |packets[p]| then Entries(packets, p + 1, s + size, to, maxSeg)
        else Entries(packets, p, s + size, to, maxSeg)
  {
    hide Ceiling;
    var s, b, n := Position(packets, p, offset), Before(packets, p), |packets[p]|;
    var size := Min(Min(n - offset, to - s), maxSeg);
    NextPacket(packets, p);
    EntriesShift(packets, p + 1, s, s + size, to, maxSeg);
    if n > 0 {
      CeilingStep(Min(b + n, to) - s, maxSeg);
      CeilingZero(maxSeg);
    }
  }

  lemma CeilingZero(d: nat)
    requires d > 0
    ensures Ceiling(0, d) == 0
  {
    DivUnique(d - 1, d, 0, d - 1);
  }

  /** What is crowded, told by the stretches of maxReq bytes into which the commands cut the stream: the
      planner stands in the w-th one, ttl bytes from its start, with count entries so far. */
  lemma {:induction false} OverfullIsCrowded(packets: seq<Bytes>, p: nat, offset: nat, ttl: nat, count: nat,
                                             maxReq: nat, maxSeg: nat, w: nat)
    requires Place(packets, p, offset) && ttl <= maxReq && maxReq > 0 && maxSeg > 0
    requires Position(packets, p, offset) == w * maxReq + ttl && count <= SDIOH_SDMMC_MAX_SG_ENTRIES
    requires Passed(packets, p, (w + 1) * maxReq)
    ensures Overfull(packets, p, offset, ttl, count, maxReq, maxSeg) <==>
      || count + Entries(packets, p, w * maxReq + ttl, (w + 1) * maxReq, maxSeg) > SDIOH_SDMMC_MAX_SG_ENTRIES
      || CrowdedFrom(packets, w + 1, maxReq, maxSeg)
    decreases |packets| - p, if p < |packets| then |packets[p]| - offset else 0, ttl
  {
    hide Entries, CrowdedFrom, Overfull, Passed;
    var s, to := w * maxReq + ttl, (w + 1) * maxReq;
    NextWindow(w, maxReq);
    if p == |packets| {
      OverfullEnd(packets, ttl, count, maxReq, maxSeg);
      NoneBehind(packets, w, s, maxReq, maxSeg);
    } else if ttl == maxReq {
      OverfullAgain(packets, p, offset, ttl, count, maxReq, maxSeg);
      PassedMore(packets, p, to, to + maxReq);
      NextWindow(w + 1, maxReq);
      OverfullIsCrowded(packets, p, offset, 0, 0, maxReq, maxSeg, w + 1);
      NoEntries(packets, p, s, to, maxSeg);
      NewWindow(packets, p, offset, w + 1, maxReq, maxSeg);
    } else {
      OverfullStep(packets, p, offset, ttl, count, maxReq, maxSeg);
      OneEntry(packets, p, offset, to, maxSeg);
      if count < SDIOH_SDMMC_MAX_SG_ENTRIES {
        var size := Min(Min(|packets[p]| - offset, maxReq - ttl), maxSeg);
        if offset + size == |packets[p]| {
          PassedOne(packets, p, to);
          NextPacket(packets, p);
          OverfullIsCrowded(packets, p + 1, 0, ttl + size, count + 1, maxReq, maxSeg, w);
        } else {
          OverfullIsCrowded(packets, p, offset + size, ttl + size, count + 1, maxReq, maxSeg, w);
        }
      }
    }
  }

  lemma NextWindow(w: nat, maxReq: nat)
    ensures (w + 1) * maxReq == w * maxReq + maxReq
  {
  }

  lemma OverfullEnd(packets: seq<Bytes>, ttl: nat, count: nat, maxReq: nat, maxSeg: nat)
    requires ttl <= maxReq && maxReq > 0 && maxSeg > 0
    ensures !Overfull(packets, |packets|, 0, ttl, count, maxReq, maxSeg)
  {
  }

  lemma PassedMore(packets: seq<Bytes>, p: nat, bound: nat, more: nat)
    requires p <= |packets| && Passed(packets, p, bound) && bound <= more
    ensures Passed(packets, p, more)
  {
  }

  lemma PassedOne(packets: seq<Bytes>, p: nat, bound: nat)
    requires p < |packets| && Passed(packets, p, bound) && Before(packets, p) < bound
    ensures Passed(packets, p + 1, bound)
  {
  }

  /** At the end of the stream no later stretch takes any entry. */
  lemma NoneBehind(packets: seq<Bytes>, w: nat, s: nat, maxReq: nat, maxSeg: nat)
    requires maxSeg > 0 && s == Before(packets, |packets|) <= (w + 1) * maxReq
    requires Passed(packets, |packets|, (w + 1) * maxReq)
    ensures Entries(packets, |packets|, s, (w + 1) * maxReq, maxSeg) == 0
    ensures !CrowdedFrom(packets, w + 1, maxReq, maxSeg)
  {
    WholeStream(packets);
    hide Entries, Passed, Flat, Before;
    EntriesNone(packets, s, (w + 1) * maxReq, maxSeg);
    forall k: nat | k >= w + 1 ensures WindowEntries(packets, k, maxReq, maxSeg) == 0 {
      MulMono(w + 1, k, maxReq);
      PassedMore(packets, |packets|, (w + 1) * maxReq, k * maxReq);
      NoEntries(packets, 0, k * maxReq, (k + 1) * maxReq, maxSeg);
    }
  }

  lemma EntriesNone(packets: seq<Bytes>, from: nat, to: nat, maxSeg: nat)
    requires maxSeg > 0
    ensures Entries(packets, |packets|, from, to, maxSeg) == 0
  {
  }

  /** A stretch begins where the planner stands, so all its entries lie ahead. */
  lemma NewWindow(packets: seq<Bytes>, p: nat, offset: nat, w: nat, maxReq: nat, maxSeg: nat)
    requires Place(packets, p, offset) && p < |packets| && maxSeg > 0
    requires Position(packets, p, offset) == w * maxReq && Passed(packets, p, w * maxReq)
    ensures CrowdedFrom(packets, w, maxReq, maxSeg) <==>
      || Entries(packets, p, w * maxReq, (w + 1) * maxReq, maxSeg) > SDIOH_SDMMC_MAX_SG_ENTRIES
      || CrowdedFrom(packets, w + 1, maxReq, maxSeg)
  {
    hide Entries, Passed;
    EntriesFrom(packets, 0, p, w * maxReq, (w + 1) * maxReq, maxSeg);
    assert WindowEntries(packets, w, maxReq, maxSeg) == Entries(packets, p, w * maxReq, (w + 1) * maxReq, maxSeg);
    CrowdedNext(packets, w, maxReq, maxSeg);
  }

  lemma CrowdedNext(packets: seq<Bytes>, w: nat, maxReq: nat, maxSeg: nat)
    requires maxSeg > 0
    ensures CrowdedFrom(packets, w, maxReq, maxSeg) <==>
      || WindowEntries(packets, w, maxReq, maxSeg) > SDIOH_SDMMC_MAX_SG_ENTRIES
      || CrowdedFrom(packets, w + 1, maxReq, maxSeg)
  {
    hide WindowEntries;
    if CrowdedFrom(packets, w, maxReq, maxSeg) {
      var k: nat :| k >= w && WindowEntries(packets, k, maxReq, maxSeg) > SDIOH_SDMMC_MAX_SG_ENTRIES;
      assert k == w || k >= w + 1;
    }
  }

  predicate TooManySegs(packets: seq<Bytes>, maxReq: nat, maxSeg: nat)
    requires maxReq > 0 && maxSeg > 0
  {
    |packets| + (maxReq - 1) / maxSeg > SDIOH_SDMMC_MAX_SG_ENTRIES
  }

  /** The table is large enough as long as the packets, and the full segments that fit in front of the
      last byte of a command, do not outnumber it together. */
  lemma {:induction false} OverfullIsLong(packets: seq<Bytes>, p: nat, offset: nat, ttl: nat, count: nat,
                                          maxReq: nat, maxSeg: nat, done: nat)
    requires Place(packets, p, offset) && ttl <= maxReq && maxReq > 0 && maxSeg > 0
    requires Overfull(packets, p, offset, ttl, count, maxReq, maxSeg)
    requires done <= p && (ttl < maxReq ==> FewSegs(count, done, maxSeg, ttl))
    ensures TooManySegs(packets, maxReq, maxSeg)
    decreases |packets| - p, if p < |packets| then |packets[p]| - offset else 0, ttl
  {
    hide FewSegs, TooManySegs;
    if ttl == maxReq {
      FewSegsStart(maxSeg);
      OverfullIsLong(packets, p, offset, 0, 0, maxReq, maxSeg, 0);
    } else if count >= SDIOH_SDMMC_MAX_SG_ENTRIES {
      FewSegsBound(packets, count, done, maxSeg, ttl, maxReq);
    } else {
      var size := Min(Min(|packets[p]| - offset, maxReq - ttl), maxSeg);
      var ended := offset + size == |packets[p]|;
      if ttl + size < maxReq { FewSegsStep(count, done, maxSeg, ttl, size, ended); }
      if ended {
        OverfullIsLong(packets, p + 1, 0, ttl + size, count + 1, maxReq, maxSeg, done + 1);
      } else {
        OverfullIsLong(packets, p, offset + size, ttl + size, count + 1, maxReq, maxSeg, done);
      }
    }
  }

  function Quotient(a: nat, d: nat): nat
    requires d > 0
  {
    a / d
  }

  predicate Divides(d: nat, a: nat)
    requires d > 0
  {
    a % d == 0
  }

  /** The entries run through the packets from one place to another. */
  predicate Listed(packets: seq<Bytes>, sg: seq<Seg>, p0: nat, offset0: nat, p: nat, offset: nat)
    requires SegsIn(packets, sg)
  {
    InOrder(packets, sg, p0, offset0) && Behind(packets, sg, p0, offset0) == (p, offset)
  }

  lemma ListedOne(packets: seq<Bytes>, sg: seq<Seg>, p0: nat, offset0: nat, p: nat, offset: nat, size: nat)
    requires SegsIn(packets, sg) && Listed(packets, sg, p0, offset0, p, offset) && SegIn(packets, Seg(p, offset, size))
    ensures SegsIn(packets, sg + [Seg(p, offset, size)])
    ensures Listed(packets, sg + [Seg(p, offset, size)], p0, offset0,
                   if offset + size == |packets[p]| then p + 1 else p,
                   if offset + size == |packets[p]| then 0 else offset + size)
  {
    InOrderMore(packets, sg, [Seg(p, offset, size)], p0, offset0);
  }

  /** Is the last entry too as long as it can be? It is while the command has room. */
  predicate LastFull(packets: seq<Bytes>, sg: seq<Seg>, most: nat)
    requires SegsIn(packets, sg)
  {
    sg == [] || var g := sg[|sg| - 1]; g.len == most || g.offset + g.len == |packets[g.packet]|
  }

  lemma NoneCutOne(packets: seq<Bytes>, sg: seq<Seg>, g: Seg, most: nat)
    requires SegsIn(packets, sg) && NoneCut(packets, sg, most) && LastFull(packets, sg, most) && SegIn(packets, g)
    ensures SegsIn(packets, sg + [g]) && NoneCut(packets, sg + [g], most)
    ensures LastFull(packets, sg + [g], most) <==> g.len == most || g.offset + g.len == |packets[g.packet]|
  {
  }

  /** The inner loop: fills the list for one command from place (p, offset). overflow tells that the
      list was full with room left in the command. */
  method Fill(sgList: array<Seg>, packets: seq<Bytes>, p0: nat, offset0: nat, maxReq: nat, maxSeg: nat)
    returns (overflow: bool, p: nat, offset: nat, ttlLen: nat, sgCount: nat)
    requires sgList.Length == SDIOH_SDMMC_MAX_SG_ENTRIES
    requires Place(packets, p0, offset0) && p0 < |packets| && maxReq > 0 && maxSeg > 0
    modifies sgList
    ensures sgCount <= SDIOH_SDMMC_MAX_SG_ENTRIES && Place(packets, p, offset)
    ensures Covers(packets, sgList[..sgCount], Position(packets, p0, offset0), ttlLen)
    ensures ShortSegs(sgList[..sgCount], maxSeg) && ttlLen <= maxReq
    ensures SegsIn(packets, sgList[..sgCount]) && NoneCut(packets, sgList[..sgCount], maxSeg)
    ensures Listed(packets, sgList[..sgCount], p0, offset0, p, offset)
    ensures Position(packets, p, offset) == Position(packets, p0, offset0) + ttlLen
    ensures !overflow ==> (p == |packets| || ttlLen == maxReq)
    ensures !overflow && p == |packets| && ttlLen == maxReq ==> packets[|packets| - 1] != []
    ensures !overflow ==> p0 < p || (p0 == p && offset0 < offset)
    ensures overflow ==> Overfull(packets, p0, offset0, 0, 0, maxReq, maxSeg)
    ensures !overflow ==>
      Overfull(packets, p0, offset0, 0, 0, maxReq, maxSeg) == Overfull(packets, p, offset, 0, 0, maxReq, maxSeg)
  {
    hide Covers, Flat, Before, ShortSegs, Overfull, SegsIn, Listed, NoneCut, LastFull;
    p, offset, ttlLen, sgCount, overflow := p0, offset0, 0, 0, false;
    ghost var s := Position(packets, p0, offset0);
    StreamPlace(packets, p0, offset0);
    CoversNothing(packets, s, maxSeg);
    assert sgList[..0] == [];
    ListedNone(packets, p, offset, maxSeg);
    while p < |packets| && ttlLen < maxReq
      invariant sgCount <= SDIOH_SDMMC_MAX_SG_ENTRIES && Place(packets, p, offset) && p0 <= p
      invariant Covers(packets, sgList[..sgCount], s, ttlLen) && ShortSegs(sgList[..sgCount], maxSeg)
      invariant Position(packets, p, offset) == s + ttlLen && ttlLen <= maxReq
      invariant SegsIn(packets, sgList[..sgCount]) && NoneCut(packets, sgList[..sgCount], maxSeg)
      invariant ttlLen < maxReq ==> LastFull(packets, sgList[..sgCount], maxSeg)
      invariant Listed(packets, sgList[..sgCount], p0, offset0, p, offset)
      invariant Overfull(packets, p0, offset0, 0, 0, maxReq, maxSeg) ==
        Overfull(packets, p, offset, ttlLen, sgCount, maxReq, maxSeg)
      invariant p0 < p || (p0 == p && offset0 <= offset)
      invariant p0 == p && offset0 == offset ==> ttlLen == 0
      invariant p == |packets| && ttlLen == maxReq ==> packets[|packets| - 1] != []
      decreases |packets| - p, if p < |packets| then |packets[p]| - offset else 0
    {
      OverfullStep(packets, p, offset, ttlLen, sgCount, maxReq, maxSeg);
      var pktLen := |packets[p]|;
      if sgCount >= sgList.Length {
        overflow := true;
        return;
      }
      var size: nat := pktLen - offset;
      if size > maxReq - ttlLen { size := maxReq - ttlLen; }
      if size > maxSeg { size := maxSeg; }
      ghost var before := sgList[..sgCount];
      Extend(packets, before, Seg(p, offset, size), s, ttlLen, maxSeg);
      ListedOne(packets, before, p0, offset0, p, offset, size);
      NoneCutOne(packets, before, Seg(p, offset, size), maxSeg);
      NextPacket(packets, p);
      sgList[sgCount] := Seg(p, offset, size);
      sgCount := sgCount + 1;
      assert sgList[..sgCount] == before + [Seg(p, offset, size)];
      ttlLen := ttlLen + size;
      offset := offset + size;
      if offset == pktLen {
        p, offset := p + 1, 0;
      }
    }
    OverfullAgain(packets, p, offset, ttlLen, sgCount, maxReq, maxSeg);
  }

  lemma ListedNone(packets: seq<Bytes>, p: nat, offset: nat, most: nat)
    ensures SegsIn(packets, []) && Listed(packets, [], p, offset, p, offset)
    ensures NoneCut(packets, [], most) && LastFull(packets, [], most)
  {
  }

  lemma CoversNothing(packets: seq<Bytes>, s: nat, most: nat)
    requires s <= |Flat(packets)|
    ensures Covers(packets, [], s, 0) && ShortSegs([], most)
  {
  }

  lemma StreamPlace(packets: seq<Bytes>, p: nat, offset: nat)
    requires Place(packets, p, offset)
    ensures Position(packets, p, offset) <= |Flat(packets)|
  {
    if p == |packets| { WholeStream(packets); } else { PacketInStream(packets, p); }
  }

  lemma NextPacket(packets: seq<Bytes>, p: nat)
    requires p < |packets|
    ensures Before(packets, p + 1) == Before(packets, p) + |packets[p]|
  {
  }

  lemma Extend(packets: seq<Bytes>, sg: seq<Seg>, g: Seg, s: nat, ttl: nat, most: nat)
    requires Covers(packets, sg, s, ttl) && SegIn(packets, g) && ShortSegs(sg, most) && g.len <= most
    requires Before(packets, g.packet) + g.offset == s + ttl
    ensures Covers(packets, sg + [g], s, ttl + g.len) && ShortSegs(sg + [g], most)
  {
    hide Flat, Gathered, Total, SegBytes, Before, ShortSegs;
    SegmentInStream(packets, g);
    GatherOne(packets, sg, g);
    SlicesJoin(Flat(packets), s, s + ttl, s + ttl + g.len);
    ShortMore(sg, g, most);
  }

  lemma ShortMore(sg: seq<Seg>, g: Seg, most: nat)
    requires ShortSegs(sg, most) && g.len <= most
    ensures ShortSegs(sg + [g], most)
  {
  }

  // ---------------------------------------------------------------- the commands of a chain

  /** A request made after s bytes: whole blocks, segments within the host's limit and none shorter than it
      must be, as many bytes as one command may carry or as are left, and a CMD53 argument that says so and
      points at the address reached by the bytes before it. */
  predicate Fits(packets: seq<Bytes>, q: Request, s: nat, write: bool, func: nat, fifo: bool,
                 addr: nat, blkSize: nat, h: Host)
  {
    && SegsIn(packets, q.sg) && ShortSegs(q.sg, h.maxSegSize) && NoneCut(packets, q.sg, h.maxSegSize)
    && |q.sg| <= SDIOH_SDMMC_MAX_SG_ENTRIES
    && q.blksz == blkSize && q.blocks * blkSize == Total(q.sg)
    && s <= |Flat(packets)| && Total(q.sg) == Min(MaxReqSize(h, blkSize), |Flat(packets)| - s)
    && (NoneEmpty(packets) ==> s < |Flat(packets)|)
    && q.blocks <= Min(h.maxBlkCount, MAX_IO_RW_EXTENDED_BLK)
    && q.arg == Argument(write, func, fifo, if fifo then addr else addr + s, q.blocks)
  }

  predicate NoneEmpty(packets: seq<Bytes>) { forall i :: 0 <= i < |packets| ==> |packets[i]| > 0 }

  /** What the controller makes of a request: the fields it reads from the argument, a block count
      that loses nothing in its nine bits and times the block size is the length of the data, at
      least one block when no packet is empty, and none exactly when nothing was left to send. */
  lemma RequestReadBack(packets: seq<Bytes>, q: Request, s: nat, write: bool, func: nat, fifo: bool,
                        addr: nat, blkSize: nat, h: Host)
    requires Limits(h, blkSize) && Fits(packets, q, s, write, func, fifo, addr, blkSize, h)
    ensures Fields(q.arg) == Cmd53(
      write, Low(func, FUNCTION_BITS), true, !fifo, Low(if fifo then addr else addr + s, REG_ADDR_BITS), q.blocks)
    ensures |Gathered(packets, q.sg)| == q.blocks * blkSize
    ensures q.blocks == 0 <==> s == |Flat(packets)|
    ensures NoneEmpty(packets) ==> 1 <= q.blocks <= MAX_IO_RW_EXTENDED_BLK
  {
    hide Argument, Fields, Gathered, Total, Flat, MaxReqSize, SegsIn, Low;
    ArgumentFields(write, func, fifo, if fifo then addr else addr + s, q.blocks);
    GatheredLength(packets, q.sg);
    RequestFits(h, blkSize, 0);
    NoBlocks(q.blocks, blkSize);
  }

  /** Is the last packet empty, and would the ones before it just fill their commands? */
  predicate EndsInEmpty(packets: seq<Bytes>, maxReq: nat)
    requires packets != [] && maxReq > 0
  {
    packets[|packets| - 1] == [] && Divides(maxReq, |Flat(packets)|)
  }

  /** A command as large as one may be, which has at least one block. */
  predicate Full(q: Request, maxReq: nat) { q.blocks >= 1 && Total(q.sg) == maxReq }

  /** Only the last command can be less than full, and one of no blocks exactly when the chain ends that
      way. ended tells whether this is the last command. */
  predicate BlocksRight(packets: seq<Bytes>, reqs: seq<Request>, ended: bool, maxReq: nat)
    requires packets != [] && maxReq > 0
  {
    && (forall k :: 0 <= k < |reqs| - 1 ==> Full(reqs[k], maxReq))
    && if ended then reqs != [] && (reqs[|reqs| - 1].blocks == 0 <==> EndsInEmpty(packets, maxReq))
       else reqs != [] ==> Full(reqs[|reqs| - 1], maxReq)
  }

  /** A place at the end of the stream has empty packets before it only. */
  lemma {:induction false} OnlyEmptyAhead(packets: seq<Bytes>, p: nat)
    requires p < |packets| && Before(packets, p) >= |Flat(packets)|
    ensures packets[|packets| - 1] == []
    decreases |packets| - p
  {
    PacketInStream(packets, p);
    if p + 1 < |packets| { OnlyEmptyAhead(packets, p + 1); }
  }

  /** The command at hand keeps that: from place (p0, offset0) it carries ttl bytes, as many as it may
      unless it is the last. */
  lemma BlocksKept(packets: seq<Bytes>, reqs: seq<Request>, q: Request, p0: nat, offset0: nat, ttl: nat, ended: bool,
                   blkSize: nat, maxReq: nat)
    requires Place(packets, p0, offset0) && p0 < |packets| && blkSize > 0 && maxReq > 0
    requires BlocksRight(packets, reqs, false, maxReq) && Divides(maxReq, Position(packets, p0, offset0))
    requires ttl <= maxReq && (ended || ttl == maxReq) && q.blocks * blkSize == ttl == Total(q.sg)
    requires ended ==> Position(packets, p0, offset0) + ttl == |Flat(packets)|
    requires ended && ttl == maxReq ==> packets[|packets| - 1] != []
    ensures BlocksRight(packets, reqs + [q], ended, maxReq)
    ensures !ended ==> Divides(maxReq, Position(packets, p0, offset0) + ttl)
  {
    hide Flat, Divides, Total;
    var s := Position(packets, p0, offset0);
    NoBlocks(q.blocks, blkSize);
    NextMultiple(s, ttl, maxReq);
    if ended && ttl == 0 {
      StreamPlace(packets, p0, offset0);
      AllBefore(packets, p0, offset0);
      OnlyEmptyAhead(packets, p0);
    }
  }

  lemma NextMultiple(s: nat, ttl: nat, d: nat)
    requires d > 0 && Divides(d, s) && ttl <= d
    ensures Divides(d, s + ttl) <==> ttl == 0 || ttl == d
  {
    Multiples(s, ttl, d);
  }

  /** At the end of the stream a place is at the start of its packet. */
  lemma AllBefore(packets: seq<Bytes>, p: nat, offset: nat)
    requires Place(packets, p, offset) && p < |packets| && Position(packets, p, offset) == |Flat(packets)|
    ensures offset == 0
  {
    PacketInStream(packets, p);
  }

  lemma NoBlocks(blocks: nat, blkSize: nat)
    requires blkSize > 0
    ensures blocks == 0 <==> blocks * blkSize == 0
  {
    if blocks > 0 { MulMono(1, blocks, blkSize); }
  }

  lemma {:induction false} GatheredLength(packets: seq<Bytes>, sg: seq<Seg>)
    requires SegsIn(packets, sg)
    ensures |Gathered(packets, sg)| == Total(sg)
  {
    if sg != [] {
      var rest := sg[..|sg| - 1];
      assert forall k :: 0 <= k < |rest| ==> rest[k] == sg[k];
      GatheredLength(packets, rest);
    }
  }

  /** Without empty packets, a place before the end of the chain is before the end of the stream. */
  lemma BytesAhead(packets: seq<Bytes>, p: nat, offset: nat)
    requires NoneEmpty(packets) && Place(packets, p, offset) && p < |packets|
    ensures Position(packets, p, offset) < |Flat(packets)|
  {
    PacketInStream(packets, p);
  }

  /** Every request of a call, in its place. */
  predicate AllRight(packets: seq<Bytes>, reqs: seq<Request>, write: bool, func: nat, fifo: bool,
                     addr: nat, blkSize: nat, h: Host)
  {
    forall k :: 0 <= k < |reqs| ==> Fits(packets, reqs[k], SentBefore(reqs, k), write, func, fifo, addr, blkSize, h)
  }

  /** The driver's own condition: every command is a whole number of blocks exactly when the chain
      is, and so is the largest command if one command is not enough. */
  predicate Aligned(packets: seq<Bytes>, blkSize: nat, maxReq: nat)
    requires blkSize > 0
  {
    |Flat(packets)| % blkSize == 0 && (|Flat(packets)| <= maxReq || maxReq % blkSize == 0)
  }

  /** The same condition told by the host's limits: the largest command has whole blocks too, or one
      command is enough, or it is the count of blocks that limits a command. */
  predicate WholeBlocks(packets: seq<Bytes>, blkSize: nat, h: Host)
    requires blkSize > 0
  {
    |Flat(packets)| % blkSize == 0 &&
    (h.maxReqSize % blkSize == 0 || |Flat(packets)| <= h.maxReqSize ||
     h.maxBlkCount * blkSize <= h.maxReqSize || 511 * blkSize <= h.maxReqSize)
  }

  lemma AlignedMeans(packets: seq<Bytes>, blkSize: nat, h: Host)
    requires Limits(h, blkSize)
    ensures Aligned(packets, blkSize, MaxReqSize(h, blkSize)) <==> WholeBlocks(packets, blkSize, h)
  {
    hide Flat;
    var n := Min(h.maxBlkCount, 511);
    DivUnique(n * blkSize, blkSize, n, 0);
    if h.maxBlkCount <= 511 { MulMono(h.maxBlkCount, 511, blkSize); } else { MulMono(511, h.maxBlkCount, blkSize); }
  }

  /** A list can only be too short when packets and full segments of one command outnumber it. */
  lemma CrowdedMeans(packets: seq<Bytes>, blkSize: nat, h: Host)
    requires Limits(h, blkSize) && |packets| > 0
    ensures MaxReqSize(h, blkSize) > 0
    ensures CrowdedFrom(packets, 0, MaxReqSize(h, blkSize), h.maxSegSize) ==>
      |packets| + (h.maxReqSize - 1) / h.maxSegSize > 64
  {
    hide CrowdedFrom, MaxReqSize;
    NotCrowded(packets, h, blkSize);
    MaxReqWithin(h, blkSize);
    DivMono(MaxReqSize(h, blkSize) - 1, h.maxReqSize - 1, h.maxSegSize);
  }

  lemma MaxReqWithin(h: Host, blkSize: nat)
    ensures MaxReqSize(h, blkSize) <= h.maxReqSize
  {
  }

  lemma DivMono(a: nat, b: nat, d: nat)
    requires d > 0 && a <= b
    ensures a / d <= b / d
  {
    var p, q := a / d, b / d;
    if p > q { MulMono(q + 1, p, d); }
  }

  lemma {:induction false} SentBeforePrefix(reqs: seq<Request>, q: Request, k: nat)
    requires k <= |reqs|
    ensures SentBefore(reqs + [q], k) == SentBefore(reqs, k)
  {
    if k > 0 { SentBeforePrefix(reqs, q, k - 1); }
  }

  lemma AddRequest(packets: seq<Bytes>, reqs: seq<Request>, q: Request, write: bool, func: nat, fifo: bool,
                   addr: nat, blkSize: nat, h: Host)
    requires AllRight(packets, reqs, write, func, fifo, addr, blkSize, h)
    requires Fits(packets, q, SentBefore(reqs, |reqs|), write, func, fifo, addr, blkSize, h)
    ensures AllRight(packets, reqs + [q], write, func, fifo, addr, blkSize, h)
  {
    hide Fits, SentBefore;
    var all := reqs + [q];
    SentBeforePrefix(reqs, q, |reqs|);
    forall k | 0 <= k < |all| ensures Fits(packets, all[k], SentBefore(all, k), write, func, fifo, addr, blkSize, h) {
      if k < |reqs| {
        assert Fits(packets, reqs[k], SentBefore(reqs, k), write, func, fifo, addr, blkSize, h);
        SentBeforePrefix(reqs, q, k);
      }
    }
  }

  /** What has been handed over is the beginning of the stream. */
  predicate SentIs(packets: seq<Bytes>, reqs: seq<Request>, s: nat)
  {
    s == SentBefore(reqs, |reqs|) <= |Flat(packets)| && RequestsIn(packets, reqs)
    && Sent(packets, reqs) == Flat(packets)[..s]
  }

  lemma SendOne(packets: seq<Bytes>, reqs: seq<Request>, q: Request, s: nat)
    requires SentIs(packets, reqs, s) && Covers(packets, q.sg, s, Total(q.sg))
    ensures SentIs(packets, reqs + [q], s + Total(q.sg))
  {
    var all := reqs + [q];
    assert all[..|reqs|] == reqs;
    SentBeforePrefix(reqs, q, |reqs|);
    hide Flat, Gathered, Total;
    SlicesJoin(Flat(packets), 0, s, s + Total(q.sg));
  }

  lemma Multiples(a: nat, b: nat, d: nat)
    requires d > 0 && a % d == 0
    ensures (a + b) % d == b % d
  {
    var q, r := b / d, b % d;
    assert a + b == (a / d + q) * d + r;
    DivUnique(a + b, d, a / d + q, r);
  }

  /** Where the planner stands between two commands. */
  predicate Between(packets: seq<Bytes>, reqs: seq<Request>, s: nat, ended: bool, blkSize: nat, maxReq: nat)
    requires blkSize > 0
  {
    && s % blkSize == 0 && s <= |Flat(packets)| && (ended ==> s == |Flat(packets)|)
    && (|reqs| == 0 ==> s == 0)
    && (|reqs| > 0 ==> maxReq % blkSize == 0 || (ended && s <= maxReq))
  }

  lemma OneMore(packets: seq<Bytes>, reqs: seq<Request>, s: nat, ttl: nat, ended: bool, blkSize: nat, maxReq: nat,
                q: Request)
    requires blkSize > 0 && Between(packets, reqs, s, false, blkSize, maxReq)
    requires s + ttl <= |Flat(packets)| && ttl <= maxReq && (ttl == maxReq || ended)
    requires ended ==> s + ttl == |Flat(packets)|
    ensures ttl == Min(maxReq, |Flat(packets)| - s)
    ensures Divides(blkSize, ttl) ==> Between(packets, reqs + [q], s + ttl, ended, blkSize, maxReq)
    ensures !Divides(blkSize, ttl) ==> !Aligned(packets, blkSize, maxReq)
  {
    hide Flat;
    Multiples(s, ttl, blkSize);
    if ttl % blkSize != 0 && maxReq % blkSize == 0 {
      Multiples(s, ttl, blkSize);
    }
  }

  lemma EndAligned(packets: seq<Bytes>, reqs: seq<Request>, s: nat, blkSize: nat, maxReq: nat)
    requires blkSize > 0 && Between(packets, reqs, s, true, blkSize, maxReq)
    ensures s == |Flat(packets)| && Aligned(packets, blkSize, maxReq)
  {
  }

  lemma Blocks(ttl: nat, blkSize: nat)
    requires blkSize > 0 && Divides(blkSize, ttl)
    ensures Quotient(ttl, blkSize) * blkSize == ttl
  {
  }

  lemma EndOfStream(packets: seq<Bytes>, p: nat, offset: nat)
    requires Place(packets, p, offset)
    ensures p == |packets| ==> Position(packets, p, offset) == |Flat(packets)|
  {
    WholeStream(packets);
  }

  lemma FitsNow(packets: seq<Bytes>, q: Request, s: nat, ttl: nat, write: bool, func: nat, fifo: bool,
                addr: nat, blkSize: nat, h: Host)
    requires Limits(h, blkSize) && Covers(packets, q.sg, s, ttl) && ShortSegs(q.sg, h.maxSegSize)
    requires NoneCut(packets, q.sg, h.maxSegSize) && |q.sg| <= SDIOH_SDMMC_MAX_SG_ENTRIES
    requires ttl == Min(MaxReqSize(h, blkSize), |Flat(packets)| - s) && Divides(blkSize, ttl)
    requires NoneEmpty(packets) ==> s < |Flat(packets)|
    requires q == Request(
      Argument(write, func, fifo, if fifo then addr else addr + s, q.blocks), blkSize, Quotient(ttl, blkSize), q.sg)
    ensures Fits(packets, q, s, write, func, fifo, addr, blkSize, h)
  {
    hide Argument, Flat, SegsIn, ShortSegs, Total, Gathered, MaxReqSize;
    RequestFits(h, blkSize, ttl);
    Blocks(ttl, blkSize);
  }

  /** Does some command of the chain, from this place on, need more entries than the table has? */
  predicate Crowded(packets: seq<Bytes>, p: nat, offset: nat, h: Host, blkSize: nat)
    requires Limits(h, blkSize) && Place(packets, p, offset)
  {
    RequestFits(h, blkSize, 0);
    Overfull(packets, p, offset, 0, 0, MaxReqSize(h, blkSize), h.maxSegSize)
  }

  lemma CrowdedIs(packets: seq<Bytes>, p: nat, offset: nat, h: Host, blkSize: nat)
    requires Limits(h, blkSize) && Place(packets, p, offset)
    ensures MaxReqSize(h, blkSize) > 0
    ensures Crowded(packets, p, offset, h, blkSize) ==
      Overfull(packets, p, offset, 0, 0, MaxReqSize(h, blkSize), h.maxSegSize)
  {
    RequestFits(h, blkSize, 0);
  }

  /** The chain is crowded exactly when one of the stretches of a command's size is: the commands cut
      the stream into these stretches. */
  lemma CrowdedWindows(packets: seq<Bytes>, h: Host, blkSize: nat)
    requires Limits(h, blkSize) && |packets| > 0
    ensures Crowded(packets, 0, 0, h, blkSize) <==>
      CrowdedFrom(packets, 0, MaxReqSize(h, blkSize), h.maxSegSize)
  {
    hide MaxReqSize, CrowdedFrom, Entries;
    CrowdedIs(packets, 0, 0, h, blkSize);
    var maxReq := MaxReqSize(h, blkSize);
    OverfullIsCrowded(packets, 0, 0, 0, 0, maxReq, h.maxSegSize, 0);
    NewWindow(packets, 0, 0, 0, maxReq, h.maxSegSize);
  }

  /** No command is crowded as long as the packets and the full segments of a command do not outnumber
      the table. */
  lemma NotCrowded(packets: seq<Bytes>, h: Host, blkSize: nat)
    requires Limits(h, blkSize) && |packets| > 0
    ensures MaxReqSize(h, blkSize) > 0
    ensures !TooManySegs(packets, MaxReqSize(h, blkSize), h.maxSegSize) ==>
      !CrowdedFrom(packets, 0, MaxReqSize(h, blkSize), h.maxSegSize)
  {
    hide TooManySegs, MaxReqSize, CrowdedFrom;
    CrowdedWindows(packets, h, blkSize);
    CrowdedIs(packets, 0, 0, h, blkSize);
    FewSegsStart(h.maxSegSize);
    if Crowded(packets, 0, 0, h, blkSize) {
      OverfullIsLong(packets, 0, 0, 0, 0, MaxReqSize(h, blkSize), h.maxSegSize, 0);
    }
  }

  /** What the host, the nine bits of the block count and the table of entries allow of one command. */
  predicate WithinLimits(q: Request, h: Host)
  {
    Total(q.sg) <= h.maxReqSize && q.blocks <= h.maxBlkCount && q.blocks <= 511 && |q.sg| <= 64
  }

  /** Nothing could be added to the command. */
  predicate AtLimit(q: Request, h: Host)
  {
    Total(q.sg) == h.maxReqSize || q.blocks == h.maxBlkCount || q.blocks == 511
  }

  /** A full command has reached one of the limits, and none of them is exceeded by any command. */
  lemma LimitsMet(packets: seq<Bytes>, reqs: seq<Request>, write: bool, func: nat, fifo: bool, addr: nat, blkSize: nat,
                  h: Host)
    requires Limits(h, blkSize) && AllRight(packets, reqs, write, func, fifo, addr, blkSize, h)
    ensures forall k :: 0 <= k < |reqs| ==> WithinLimits(reqs[k], h)
    ensures forall k :: 0 <= k < |reqs| && Full(reqs[k], MaxReqSize(h, blkSize)) ==>
      reqs[k].blocks >= 1 && AtLimit(reqs[k], h)
  {
    hide Flat, Total, Argument, SegsIn, ShortSegs, SentBefore;
    forall k | 0 <= k < |reqs|
      ensures WithinLimits(reqs[k], h) && (Full(reqs[k], MaxReqSize(h, blkSize)) ==> AtLimit(reqs[k], h))
    {
      var q, n := reqs[k], Min(h.maxBlkCount, MAX_IO_RW_EXTENDED_BLK);
      assert Fits(packets, q, SentBefore(reqs, k), write, func, fifo, addr, blkSize, h);
      if q.blocks < n { MulMono(q.blocks + 1, n, blkSize); }
    }
  }

  /** The entries of all requests in order. */
  function AllEntries(reqs: seq<Request>): seq<Seg>
  {
    if reqs == [] then [] else AllEntries(reqs[..|reqs| - 1]) + reqs[|reqs| - 1].sg
  }

  /** The entries of all requests run through the packets, from the first one up to this place. */
  predicate RunsTo(packets: seq<Bytes>, reqs: seq<Request>, p: nat, offset: nat)
  {
    SegsIn(packets, AllEntries(reqs)) && Listed(packets, AllEntries(reqs), 0, 0, p, offset)
  }

  lemma RunOn(packets: seq<Bytes>, reqs: seq<Request>, q: Request, p: nat, offset: nat, p': nat, offset': nat)
    requires RunsTo(packets, reqs, p, offset) && SegsIn(packets, q.sg)
    requires Listed(packets, q.sg, p, offset, p', offset')
    ensures RunsTo(packets, reqs + [q], p', offset')
  {
    assert (reqs + [q])[..|reqs|] == reqs;
    InOrderMore(packets, AllEntries(reqs), q.sg, 0, 0);
  }

  predicate SentPrefix(packets: seq<Bytes>, reqs: seq<Request>) { SentIs(packets, reqs, SentBefore(reqs, |reqs|)) }

  /** The body of the outer loop up to the request: one list, one command. The ghost parameters are
      the requests handed over before and the bytes they carried. */
  method Plan(sgList: array<Seg>, packets: seq<Bytes>, p0: nat, offset0: nat, write: bool, func: nat, fifo: bool,
              addr: nat, blkSize: nat, h: Host, ghost reqs: seq<Request>, ghost addr0: nat)
    returns (status: Status, p: nat, offset: nat, q: Request, ttlLen: nat)
    requires sgList.Length == SDIOH_SDMMC_MAX_SG_ENTRIES && Limits(h, blkSize)
    requires Place(packets, p0, offset0) && p0 < |packets|
    requires SentIs(packets, reqs, Position(packets, p0, offset0)) && RunsTo(packets, reqs, p0, offset0)
    requires AllRight(packets, reqs, write, func, fifo, addr0, blkSize, h)
    requires Between(packets, reqs, Position(packets, p0, offset0), false, blkSize, MaxReqSize(h, blkSize))
    requires addr == if fifo then addr0 else addr0 + Position(packets, p0, offset0)
    requires MaxReqSize(h, blkSize) > 0 && BlocksRight(packets, reqs, false, MaxReqSize(h, blkSize))
    requires Divides(MaxReqSize(h, blkSize), Position(packets, p0, offset0))
    modifies sgList
    ensures Place(packets, p, offset) && Position(packets, p, offset) == Position(packets, p0, offset0) + ttlLen
    ensures status == NotAligned ==> !Aligned(packets, blkSize, MaxReqSize(h, blkSize))
    ensures status == SgOverflow ==> Crowded(packets, p0, offset0, h, blkSize)
    ensures status == Success ==>
      && Crowded(packets, p0, offset0, h, blkSize) == Crowded(packets, p, offset, h, blkSize)
      && (p0 < p || (p0 == p && offset0 < offset))
      && RunsTo(packets, reqs + [q], p, offset)
      && SentIs(packets, reqs + [q], Position(packets, p, offset))
      && AllRight(packets, reqs + [q], write, func, fifo, addr0, blkSize, h)
      && Between(packets, reqs + [q], Position(packets, p, offset), p == |packets|, blkSize, MaxReqSize(h, blkSize))
      && BlocksRight(packets, reqs + [q], p == |packets|, MaxReqSize(h, blkSize))
      && (p < |packets| ==> Divides(MaxReqSize(h, blkSize), Position(packets, p, offset)))
    ensures status != BusError
  {
    hide AllRight, SentIs, Between, Covers, Aligned, Flat, Argument, MaxReqSize, ShortSegs, SegsIn, Total;
    hide Quotient, Divides, Crowded, Overfull, Fits, BlocksRight, RunsTo, Listed, NoneCut;
    var maxReq := MaxReqSize(h, blkSize);
    CrowdedIs(packets, p0, offset0, h, blkSize);
    ghost var s := Position(packets, p0, offset0);
    var overflow, sgCount;
    overflow, p, offset, ttlLen, sgCount := Fill(sgList, packets, p0, offset0, maxReq, h.maxSegSize);
    q := Request(0, 0, 0, []);
    if overflow { return SgOverflow, p, offset, q, ttlLen; }
    CrowdedIs(packets, p, offset, h, blkSize);
    EndOfStream(packets, p, offset);
    CoversTotal(packets, sgList[..sgCount], s, ttlLen);
    if !Divides(blkSize, ttlLen) {
      OneMore(packets, reqs, s, ttlLen, p == |packets|, blkSize, maxReq, q);
      return NotAligned, p, offset, q, ttlLen;
    }
    var blkNum := Quotient(ttlLen, blkSize);
    q := Request(Argument(write, func, fifo, addr, blkNum), blkSize, blkNum, sgList[..sgCount]);
    OneMore(packets, reqs, s, ttlLen, p == |packets|, blkSize, maxReq, q);
    if NoneEmpty(packets) { BytesAhead(packets, p0, offset0); }
    FitsNow(packets, q, s, ttlLen, write, func, fifo, addr0, blkSize, h);
    Blocks(ttlLen, blkSize);
    BlocksKept(packets, reqs, q, p0, offset0, ttlLen, p == |packets|, blkSize, maxReq);
    SentSoFar(packets, reqs, s);
    SendOne(packets, reqs, q, s);
    RunOn(packets, reqs, q, p0, offset0, p, offset);
    AddRequest(packets, reqs, q, write, func, fifo, addr0, blkSize, h);
    status := Success;
  }

  /** sdioh_request_packet_chain with SDPCM_TXGLOM_MDESC. Request k succeeds on the bus when busOk(k).
      sgList is the table in sdioh_info that every command reuses. */
  method RequestPacketChain(sgList: array<Seg>, packets: seq<Bytes>, write: bool, func: nat, fifo: bool, addr0: nat,
                            blkSize: nat, h: Host, busOk: nat -> bool)
    returns (status: Status, reqs: seq<Request>)
    requires sgList.Length == SDIOH_SDMMC_MAX_SG_ENTRIES && |packets| > 0 && Limits(h, blkSize)
    modifies sgList
    ensures status == NotAligned ==> !WholeBlocks(packets, blkSize, h)
    ensures status == BusError <==> |reqs| > 0 && !busOk(|reqs| - 1)
    ensures forall k: nat :: k < |reqs| - 1 ==> busOk(k)
    ensures status == SgOverflow ==>
      && CrowdedFrom(packets, 0, MaxReqSize(h, blkSize), h.maxSegSize)
      && |packets| + (h.maxReqSize - 1) / h.maxSegSize > 64
    ensures status == Success ==>
      && WholeBlocks(packets, blkSize, h)
      && !CrowdedFrom(packets, 0, MaxReqSize(h, blkSize), h.maxSegSize)
    ensures MaxReqSize(h, blkSize) > 0
    ensures status == Success ==>
      reqs != [] && (reqs[|reqs| - 1].blocks == 0 <==> EndsInEmpty(packets, MaxReqSize(h, blkSize)))
    ensures forall k :: 0 <= k < |reqs| ==> WithinLimits(reqs[k], h)
    ensures forall k :: 0 <= k < |reqs| - 1 ==> reqs[k].blocks >= 1 && AtLimit(reqs[k], h)
    ensures AllRight(packets, reqs, write, func, fifo, addr0, blkSize, h) && SentPrefix(packets, reqs)
    ensures status == Success ==> SentIs(packets, reqs, |Flat(packets)|) && RunsTo(packets, reqs, |packets|, 0)
  {
    hide AllRight, SentIs, Between, Aligned, Flat, MaxReqSize, Fits, Argument, Crowded, SentPrefix;
    hide BlocksRight, Divides, EndsInEmpty, CrowdedFrom, RunsTo, WithinLimits, AtLimit, Full, WholeBlocks;
    CrowdedWindows(packets, h, blkSize);
    CrowdedMeans(packets, blkSize, h);
    AlignedMeans(packets, blkSize, h);
    var addr := addr0;
    var p: nat, offset: nat := 0, 0;
    reqs := [];
    AtStart(packets, write, func, fifo, addr0, blkSize, h);
    while p < |packets|
      invariant Place(packets, p, offset)
      invariant SentIs(packets, reqs, Position(packets, p, offset)) && RunsTo(packets, reqs, p, offset)
      invariant AllRight(packets, reqs, write, func, fifo, addr0, blkSize, h)
      invariant addr == if fifo then addr0 else addr0 + Position(packets, p, offset)
      invariant Between(packets, reqs, Position(packets, p, offset), p == |packets|, blkSize, MaxReqSize(h, blkSize))
      invariant forall k: nat :: k < |reqs| ==> busOk(k)
      invariant Crowded(packets, 0, 0, h, blkSize) == Crowded(packets, p, offset, h, blkSize)
      invariant BlocksRight(packets, reqs, p == |packets|, MaxReqSize(h, blkSize))
      invariant p < |packets| ==> Divides(MaxReqSize(h, blkSize), Position(packets, p, offset))
      decreases |packets| - p, if p < |packets| then |packets[p]| - offset else 0
    {
      SentSoFar(packets, reqs, Position(packets, p, offset));
      BlocksBefore(packets, reqs, false, MaxReqSize(h, blkSize));
      var q, ttlLen;
      status, p, offset, q, ttlLen :=
        Plan(sgList, packets, p, offset, write, func, fifo, addr, blkSize, h, reqs, addr0);
      if status != Success {
        LimitsMet(packets, reqs, write, func, fifo, addr0, blkSize, h);
        return;
      }
      reqs := reqs + [q];
      if !fifo { addr := addr + ttlLen; }
      SentSoFar(packets, reqs, Position(packets, p, offset));
      BlocksBefore(packets, reqs, p == |packets|, MaxReqSize(h, blkSize));
      if !busOk(|reqs| - 1) {
        LimitsMet(packets, reqs, write, func, fifo, addr0, blkSize, h);
        return BusError, reqs;
      }
    }
    SentSoFar(packets, reqs, Position(packets, p, offset));
    EndAligned(packets, reqs, Position(packets, p, offset), blkSize, MaxReqSize(h, blkSize));
    EndNotCrowded(packets, h, blkSize);
    BlocksBefore(packets, reqs, true, MaxReqSize(h, blkSize));
    LimitsMet(packets, reqs, write, func, fifo, addr0, blkSize, h);
    status := Success;
  }

  lemma BlocksBefore(packets: seq<Bytes>, reqs: seq<Request>, ended: bool, maxReq: nat)
    requires packets != [] && maxReq > 0 && BlocksRight(packets, reqs, ended, maxReq)
    ensures forall k :: 0 <= k < |reqs| - 1 ==> Full(reqs[k], maxReq)
    ensures ended ==> reqs != [] && (reqs[|reqs| - 1].blocks == 0 <==> EndsInEmpty(packets, maxReq))
  {
  }

  lemma EndNotCrowded(packets: seq<Bytes>, h: Host, blkSize: nat)
    requires Limits(h, blkSize)
    ensures !Crowded(packets, |packets|, 0, h, blkSize)
  {
    hide MaxReqSize;
  }

  lemma AtStart(packets: seq<Bytes>, write: bool, func: nat, fifo: bool, addr: nat, blkSize: nat, h: Host)
    requires Limits(h, blkSize) && |packets| > 0
    ensures Place(packets, 0, 0) && Position(packets, 0, 0) == 0
    ensures SentIs(packets, [], 0) && RunsTo(packets, [], 0, 0)
    ensures AllRight(packets, [], write, func, fifo, addr, blkSize, h)
    ensures Between(packets, [], 0, false, blkSize, MaxReqSize(h, blkSize))
    ensures MaxReqSize(h, blkSize) > 0 && Divides(MaxReqSize(h, blkSize), 0)
    ensures BlocksRight(packets, [], false, MaxReqSize(h, blkSize))
  {
    hide Fits, MaxReqSize, Flat;
    RequestFits(h, blkSize, 0);
  }

  lemma CoversTotal(packets: seq<Bytes>, sg: seq<Seg>, s: nat, ttl: nat)
    requires Covers(packets, sg, s, ttl)
    ensures SegsIn(packets, sg) && Total(sg) == ttl && s + ttl <= |Flat(packets)|
  {
  }

  lemma SentSoFar(packets: seq<Bytes>, reqs: seq<Request>, s: nat)
    requires SentIs(packets, reqs, s)
    ensures s == SentBefore(reqs, |reqs|) <= |Flat(packets)| && SentPrefix(packets, reqs)
  {
  }

  /** Commands of no blocks do occur: for a single empty packet, and behind a packet that fills its
      command. */
  method EmptyCommands() returns (reqs: seq<Request>, reqs': seq<Request>)
    ensures |reqs| > 0 && reqs[|reqs| - 1].blocks == 0
    ensures |reqs'| > 0 && reqs'[|reqs'| - 1].blocks == 0
  {
    reqs := OneByteCommands([[]]);
    reqs' := OneByteCommands([[7], []]);
  }

  /** Any chain of one or two packets through a host that takes one byte at a time. */
  method OneByteCommands(packets: seq<Bytes>) returns (reqs: seq<Request>)
    requires 1 <= |packets| <= 2
    ensures reqs != []
    ensures reqs[|reqs| - 1].blocks == 0 <==> packets[|packets| - 1] == []
  {
    var h := Host(1, 1, 1);
    var sgList := new Seg[SDIOH_SDMMC_MAX_SG_ENTRIES](_ => Seg(0, 0, 0));
    NotCrowded(packets, h, 1);
    var status;
    status, reqs := RequestPacketChain(sgList, packets, true, 2, false, 0, 1, h, _ => true);
  }

  predicate OneByteEach(packets: seq<Bytes>) { forall i :: 0 <= i < |packets| ==> |packets[i]| == 1 }

  lemma {:induction false} OneByteBefore(packets: seq<Bytes>, p: nat)
    requires OneByteEach(packets) && p <= |packets|
    ensures Before(packets, p) == p
  {
    if p > 0 { OneByteBefore(packets, p - 1); }
  }

  /** Each of them takes one entry. */
  lemma {:induction false} OneByteEntries(packets: seq<Bytes>, p: nat)
    requires OneByteEach(packets) && p <= |packets| <= 100
    ensures Entries(packets, p, 0, 100, 100) == |packets| - p
    decreases |packets| - p
  {
    hide Ceiling;
    if p < |packets| {
      OneByteBefore(packets, p);
      CeilingStep(1, 100);
      CeilingZero(100);
      OneByteEntries(packets, p + 1);
    }
  }

  /** A chain that the table is too short for: 65 packets of one byte, which one command could carry. */
  method TooManyPackets() returns (status: Status, reqs: seq<Request>)
    ensures status == SgOverflow
  {
    hide Flat, Entries, CrowdedFrom, BlocksRight, EndsInEmpty;
    var packets: seq<Bytes>, h := seq(65, _ => [0]), Host(511, 100, 100);
    OneByteEntries(packets, 0);
    OneWindow(packets);
    var sgList := new Seg[SDIOH_SDMMC_MAX_SG_ENTRIES](_ => Seg(0, 0, 0));
    status, reqs := RequestPacketChain(sgList, packets, true, 2, false, 0, 1, h, _ => true);
  }

  lemma OneWindow(packets: seq<Bytes>)
    ensures Entries(packets, 0, 0, 100, 100) > SDIOH_SDMMC_MAX_SG_ENTRIES ==> CrowdedFrom(packets, 0, 100, 100)
  {
    hide Entries;
    assert WindowEntries(packets, 0, 100, 100) == Entries(packets, 0, 0, 100, 100);
  }
}
