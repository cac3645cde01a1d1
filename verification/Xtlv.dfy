/** Extended TLV records (bcmxtlv.c): an id, a length and data, with headers of two to four bytes
    and records padded to words or not, as the options say. Ids and lengths are little-endian. */
module Xtlv {
  import opened Bits
  import opened Common

  datatype Opts = Opts(idU8: bool, lenU8: bool, align32: bool)

  datatype Record = Record(id: u16, data: seq<u8>)

  datatype Error = BCME_OK | BCME_BADARG | BCME_NOMEM | BCME_BADLEN | BCME_BUFTOOSHORT | BCME_CALLBACK

  /** bcm_xtlv_hdr_size. */
  function HdrSize(o: Opts): (n: nat)
    ensures 2 <= n <= 4
  {
    4 - (if o.lenU8 then 1 else 0) - (if o.idU8 then 1 else 0)
  }

  function LenAt(o: Opts): (n: nat)
    ensures 1 <= n < HdrSize(o)
  {
    if o.idU8 then 1 else 2
  }

  function RoundUp4(n: nat): (r: nat)
    ensures n <= r < n + 4 && r % 4 == 0
  {
    (n + 3) / 4 * 4
  }

  /** bcm_xtlv_size_for_data. */
  function SizeForData(n: nat, o: Opts): (size: nat)
    ensures n + HdrSize(o) <= size
    ensures if o.align32 then size % 4 == 0 && size < n + HdrSize(o) + 4 else size == n + HdrSize(o)
  {
    if o.align32 then RoundUp4(n + HdrSize(o)) else n + HdrSize(o)
  }

  /** bcm_xtlv_id and bcm_xtlv_len. */
  function Id(m: seq<u8>, elt: nat, o: Opts): u16
    requires elt + HdrSize(o) <= |m|
  {
    if o.idU8 then m[elt] as int else m[elt] as int + 0x100 * m[elt + 1] as int
  }

  function Len(m: seq<u8>, elt: nat, o: Opts): u16
    requires elt + HdrSize(o) <= |m|
  {
    var at := elt + LenAt(o);
    if o.lenU8 then m[at] as int else m[at] as int + 0x100 * m[at + 1] as int
  }

  /** The header bytes bcm_xtlv_pack_xtlv writes. */
  function Header(id: u16, len: u16, o: Opts): (h: seq<u8>)
    ensures |h| == HdrSize(o)
  {
    (if o.idU8 then [id % 0x100] else [id % 0x100, id / 0x100]) +
    (if o.lenU8 then [len % 0x100] else [len % 0x100, len / 0x100])
  }

  /** What is kept of an id that its field may be too small for. */
  function Kept(id: u16, o: Opts): u16 { if o.idU8 then id % 0x100 else id }

  predicate ShortEnough(n: nat, o: Opts) { n < if o.lenU8 then 0x100 else 0x1_0000 }

  /** Do the id and the length of a record fit their fields? */
  predicate Fits(r: Record, o: Opts) { Kept(r.id, o) == r.id && ShortEnough(|r.data|, o) }

  lemma HeaderKept(id: u16, len: u16, o: Opts)
    ensures Header(Kept(id, o), len, o) == Header(id, len, o) && Kept(Kept(id, o), o) == Kept(id, o)
  {
  }

  /** Is the length kept? A longer one is cut to its low byte, while the record keeps its full size. */
  lemma HeaderReadBack(m: seq<u8>, elt: nat, id: u16, len: u16, o: Opts)
    requires elt + HdrSize(o) <= |m| && m[elt..elt + HdrSize(o)] == Header(id, len, o)
    ensures Id(m, elt, o) == Kept(id, o)
    ensures Len(m, elt, o) == if o.lenU8 then len % 0x100 else len
    ensures m[elt] == id % 0x100 && m[elt + if o.idU8 then 1 else 2] == len % 0x100
  {
    var h := m[elt..elt + HdrSize(o)];
    assert m[elt] == h[0] && m[elt + LenAt(o)] == h[LenAt(o)];
    assert !o.idU8 ==> m[elt + 1] == h[1];
    assert !o.lenU8 ==> m[elt + LenAt(o) + 1] == h[LenAt(o) + 1];
  }

  // ---------------------------------------------------------------- reference: the records of a buffer

  /** bcm_valid_xtlv: does the record at elt, padding included, end by end? */
  predicate Valid(m: seq<u8>, elt: nat, end: nat, o: Opts)
  {
    end <= |m| && elt + HdrSize(o) <= end && elt + SizeForData(Len(m, elt, o), o) <= end
  }

  function RecordAt(m: seq<u8>, elt: nat, o: Opts): Record
    requires elt + HdrSize(o) <= |m| && elt + HdrSize(o) + Len(m, elt, o) <= |m|
  {
    Record(Id(m, elt, o), m[elt + HdrSize(o)..elt + HdrSize(o) + Len(m, elt, o)])
  }

  function After(m: seq<u8>, elt: nat, end: nat, o: Opts): (next: nat)
    requires Valid(m, elt, end, o)
    ensures elt < next <= end
  {
    elt + SizeForData(Len(m, elt, o), o)
  }

  /** The records that follow each other from elt on, as long as they fit. */
  function Parse(m: seq<u8>, elt: nat, end: nat, o: Opts): seq<Record>
    decreases end - elt
  {
    if Valid(m, elt, end, o) then [RecordAt(m, elt, o)] + Parse(m, After(m, elt, end, o), end, o) else []
  }

  function TotalSize(rs: seq<Record>, o: Opts): nat
  {
    if rs == [] then 0 else SizeForData(|rs[0].data|, o) + TotalSize(rs[1..], o)
  }

  /** What packing leaves behind: header and data in place; the padding is not written. */
  predicate Holds(m: seq<u8>, elt: nat, r: Record, o: Opts)
  {
    && elt + SizeForData(|r.data|, o) <= |m| && |r.data| < 0x1_0000
    && m[elt..elt + HdrSize(o)] == Header(r.id, |r.data|, o)
    && m[elt + HdrSize(o)..elt + HdrSize(o) + |r.data|] == r.data
  }

  predicate HoldsAll(m: seq<u8>, elt: nat, rs: seq<Record>, o: Opts)
    decreases |rs|
  {
    rs == [] || (Holds(m, elt, rs[0], o) && HoldsAll(m, elt + SizeForData(|rs[0].data|, o), rs[1..], o))
  }

  predicate AllFit(rs: seq<Record>, o: Opts) { forall k :: 0 <= k < |rs| ==> Fits(rs[k], o) }

  lemma RecordReadBack(m: seq<u8>, elt: nat, end: nat, r: Record, o: Opts)
    requires Holds(m, elt, r, o) && Fits(r, o) && elt + SizeForData(|r.data|, o) <= end <= |m|
    ensures Valid(m, elt, end, o) && RecordAt(m, elt, o) == r
    ensures After(m, elt, end, o) == elt + SizeForData(|r.data|, o)
  {
    HeaderReadBack(m, elt, r.id, |r.data|, o);
  }

  /** Unpacking what was packed gives back the same records, and then whatever follows them. */
  lemma {:induction false} RoundTrip(m: seq<u8>, elt: nat, end: nat, rs: seq<Record>, o: Opts)
    requires HoldsAll(m, elt, rs, o) && AllFit(rs, o) && elt + TotalSize(rs, o) <= end <= |m|
    ensures Parse(m, elt, end, o) == rs + Parse(m, elt + TotalSize(rs, o), end, o)
    decreases |rs|
  {
    hide Holds, Valid, RecordAt, Fits;
    if rs != [] {
      RecordReadBack(m, elt, end, rs[0], o);
      RoundTrip(m, After(m, elt, end, o), end, rs[1..], o);
    }
  }

  /** In a buffer of exactly their size, nothing follows. */
  lemma ExactRoundTrip(m: seq<u8>, elt: nat, rs: seq<Record>, o: Opts)
    requires HoldsAll(m, elt, rs, o) && AllFit(rs, o) && elt + TotalSize(rs, o) <= |m|
    ensures Parse(m, elt, elt + TotalSize(rs, o), o) == rs
  {
    RoundTrip(m, elt, elt + TotalSize(rs, o), rs, o);
  }

  // ---------------------------------------------------------------- packing

  /** m is old with record r written at elt. */
  predicate Packed(m: seq<u8>, old_: seq<u8>, elt: nat, r: Record, o: Opts)
  {
    && |m| == |old_| && Holds(m, elt, r, o)
    && m[..elt] == old_[..elt]
    && m[elt + HdrSize(o) + |r.data|..] == old_[elt + HdrSize(o) + |r.data|..]
  }

  method PackHeader(m: array<u8>, elt: nat, id: u16, len: u16, o: Opts) returns (dataBuf: nat)
    requires elt + HdrSize(o) <= m.Length && (o.lenU8 ==> len < 0x100)
    modifies m
    ensures dataBuf == elt + HdrSize(o) && m[elt..dataBuf] == Header(id, len, o)
    ensures m[..elt] == old(m[..elt]) && m[dataBuf..] == old(m[dataBuf..])
  {
    if !o.idU8 && !o.lenU8 {
      m[elt] := id % 0x100;
      m[elt + 1] := id / 0x100;
      m[elt + 2] := len % 0x100;
      m[elt + 3] := len / 0x100;
      dataBuf := elt + 4;
    } else if o.idU8 && o.lenU8 {
      m[elt] := id % 0x100;
      m[elt + 1] := len % 0x100;
      dataBuf := elt + 2;
    } else if o.idU8 {
      m[elt] := id % 0x100;
      m[elt + 1] := len % 0x100;
      m[elt + 2] := len / 0x100;
      dataBuf := elt + 3;
    } else {
      m[elt] := id % 0x100;
      m[elt + 1] := id / 0x100;
      m[elt + 2] := len % 0x100;
      dataBuf := elt + 3;
    }
  }

  /** The data of a record put at elt: those given, or the bytes that are there already. */
  function Payload(m: seq<u8>, elt: nat, len: nat, data: Option<seq<u8>>, o: Opts): seq<u8>
    requires elt + HdrSize(o) + len <= |m|
  {
    match data
    case Some(d) => d
    case None => m[elt + HdrSize(o)..elt + HdrSize(o) + len]
  }

  /** bcm_xtlv_pack_xtlv, with a length that fits its field. Without data it writes the header only and
      so reserves the space. */
  method PackXtlv(m: array<u8>, elt: nat, id: u16, len: u16, data: Option<seq<u8>>, o: Opts)
    requires ShortEnough(len, o) && (data.Some? ==> |data.value| == len)
    requires elt + SizeForData(len, o) <= m.Length
    modifies m
    ensures Packed(m[..], old(m[..]), elt, Record(Kept(id, o), Payload(old(m[..]), elt, len, data, o)), o)
  {
    hide Header, Packed, Payload;
    ghost var was := m[..];
    var dataBuf := PackHeader(m, elt, id, len, o);
    ghost var head := m[..];
    if data.Some? { Copy(m, dataBuf, data.value); }
    PackedIs(m[..], head, was, elt, id, len, data, o);
  }

  /** memcpy of data to m[at..]. */
  method Copy(m: array<u8>, at: nat, data: seq<u8>)
    requires at + |data| <= m.Length
    modifies m
    ensures m[..] == old(m[..at]) + data + old(m[at + |data|..])
  {
    forall k | 0 <= k < |data| { m[at + k] := data[k]; }
  }

  /** Header, and data over the bytes behind it. */
  lemma PackedIs(m: seq<u8>, head: seq<u8>, was: seq<u8>, elt: nat, id: u16, len: u16, data: Option<seq<u8>>, o: Opts)
    requires elt + SizeForData(len, o) <= |was| == |head| && (data.Some? ==> |data.value| == len)
    requires var at := elt + HdrSize(o);
      && head[elt..at] == Header(id, len, o) && head[..elt] == was[..elt] && head[at..] == was[at..]
      && m == if data.Some? then head[..at] + data.value + head[at + len..] else head
    ensures Packed(m, was, elt, Record(Kept(id, o), Payload(was, elt, len, data, o)), o)
  {
    hide Header, SizeForData, Kept, HdrSize;
    HeaderKept(id, len, o);
    var at := elt + HdrSize(o);
    SameTail(head, was, at, len);
    match data {
      case Some(d) => ThreeParts(head, elt, at, d);
      case None =>
    }
  }

  lemma SameTail(head: seq<u8>, was: seq<u8>, at: nat, n: nat)
    requires |head| == |was| && at + n <= |was| && head[at..] == was[at..]
    ensures head[at..at + n] == was[at..at + n] && head[at + n..] == was[at + n..]
  {
    assert forall k :: at <= k < |was| ==> head[k] == head[at..][k - at] == was[at..][k - at] == was[k];
  }

  lemma ThreeParts(head: seq<u8>, elt: nat, at: nat, data: seq<u8>)
    requires elt <= at && at + |data| <= |head|
    ensures var m := head[..at] + data + head[at + |data|..];
      && |m| == |head| && m[..elt] == head[..elt] && m[elt..at] == head[elt..at]
      && m[at..at + |data|] == data && m[at + |data|..] == head[at + |data|..]
  {
  }

  /** Records packed one behind the other. */
  lemma {:induction false} HoldsAppend(m: seq<u8>, elt: nat, rs: seq<Record>, r: Record, o: Opts)
    requires HoldsAll(m, elt, rs, o) && Holds(m, elt + TotalSize(rs, o), r, o)
    ensures HoldsAll(m, elt, rs + [r], o) && TotalSize(rs + [r], o) == TotalSize(rs, o) + SizeForData(|r.data|, o)
    decreases |rs|
  {
    hide Holds;
    if rs == [] {
      assert [r][1..] == [];
      assert HoldsAll(m, elt + SizeForData(|r.data|, o), [], o);
      assert rs + [r] == [r];
    } else {
      assert (rs + [r])[1..] == rs[1..] + [r];
      HoldsAppend(m, elt + SizeForData(|rs[0].data|, o), rs[1..], r, o);
    }
  }

  /** Earlier records stay when memory changes behind them only. */
  lemma {:induction false} HoldsFrame(m: seq<u8>, q: seq<u8>, elt: nat, rs: seq<Record>, o: Opts)
    requires HoldsAll(m, elt, rs, o) && elt + TotalSize(rs, o) <= |m| == |q|
    requires m[..elt + TotalSize(rs, o)] == q[..elt + TotalSize(rs, o)]
    ensures HoldsAll(q, elt, rs, o)
    decreases |rs|
  {
    hide Holds;
    if rs != [] {
      HoldsOne(m, q, elt, elt + TotalSize(rs, o), rs[0], o);
      HoldsFrame(m, q, elt + SizeForData(|rs[0].data|, o), rs[1..], o);
    }
  }

  lemma HoldsOne(m: seq<u8>, q: seq<u8>, elt: nat, end: nat, r: Record, o: Opts)
    requires Holds(m, elt, r, o) && elt + SizeForData(|r.data|, o) <= end <= |m| == |q| && m[..end] == q[..end]
    ensures Holds(q, elt, r, o)
  {
    hide Header;
    var a, b := elt + HdrSize(o), elt + HdrSize(o) + |r.data|;
    SliceOfSlice(m, 0, end, elt, a);
    SliceOfSlice(q, 0, end, elt, a);
    SliceOfSlice(m, 0, end, a, b);
    SliceOfSlice(q, 0, end, a, b);
  }

  /** bcm_xtlvbuf_t: a buffer and the place in it where the next record goes. */
  class Buf {
    const mem: array<u8>
    const head: nat
    const size: u16
    const opts: Opts
    var buf: nat
    ghost var records: seq<Record>

    /** The buffer holds the records put so far, one behind the other. */
    ghost predicate Valid()
      reads this, mem
    {
      && head + size <= mem.Length && head <= buf <= head + size
      && buf == head + TotalSize(records, opts) && HoldsAll(mem[..], head, records, opts) && AllFit(records, opts)
    }

    /** bcm_xtlv_buf_init, given a buffer of at least one byte. */
    constructor (mem: array<u8>, head: nat, size: u16, opts: Opts)
      requires size > 0 && head + size <= mem.Length
      ensures Valid() && this.mem == mem && this.head == head && this.size == size && this.opts == opts && records == []
    {
      this.mem, this.head, this.size, this.opts := mem, head, size, opts;
      buf := head;
      records := [];
    }

    /** bcm_xtlv_buf_init. */
    static method Init(mem: array?<u8>, head: nat, size: u16, opts: Opts) returns (res: Error, b: Buf?)
      requires mem != null ==> head + size <= mem.Length
      ensures res == if mem == null || size == 0 then BCME_BADARG else BCME_OK
      ensures res == BCME_OK <==> b != null
      ensures b != null ==>
        fresh(b) && b.Valid() && b.mem == mem && b.head == head && b.size == size && b.opts == opts && b.records == []
    {
      if mem == null || size == 0 { return BCME_BADARG, null; }
      b := new Buf(mem, head, size, opts);
      res := BCME_OK;
    }

    function BufLen(): nat
      requires Valid()
      reads this, mem
    {
      buf - head
    }

    function Rlen(): nat
      requires Valid()
      reads this, mem
    {
      size - BufLen()
    }

    /** bcm_xtlv_put_data. Without data the record is put with the bytes that are in its place. */
    method PutData(id: u16, data: Option<seq<u8>>, n: nat) returns (res: Error)
      requires Valid() && (data.Some? ==> |data.value| == n)
      requires SizeForData(n, opts) <= Rlen() ==> ShortEnough(n, opts)
      modifies this, mem
      ensures Valid()
      ensures res == BCME_OK <==> old(Rlen()) >= SizeForData(n, opts)
      ensures res == BCME_OK ==>
        && records == old(records) + [Record(Kept(id, opts), Payload(old(mem[..]), old(buf), n, data, opts))]
        && buf == old(buf) + SizeForData(n, opts)
      ensures res == BCME_OK ==> mem[..old(buf)] == old(mem[..buf]) && mem[buf..] == old(mem[..])[buf..]
      ensures res != BCME_OK ==>
        res == BCME_NOMEM && records == old(records) && buf == old(buf) && mem[..] == old(mem[..])
    {
      hide HoldsAll, Holds, Header, TotalSize, Packed;
      ghost var was := mem[..];
      var size := SizeForData(n, opts);
      if Rlen() < size { return BCME_NOMEM; }
      ghost var r := Record(Kept(id, opts), Payload(was, buf, n, data, opts));
      PackXtlv(mem, buf, id, n, data, opts);
      HeaderKept(id, n, opts);
      PutOne(mem[..], was, head, records, buf, r, opts);
      buf := buf + size;
      records := records + [r];
      res := BCME_OK;
    }
  }

  /** Packing a record behind the records of a buffer. */
  lemma PutOne(m: seq<u8>, was: seq<u8>, head: nat, rs: seq<Record>, at: nat, r: Record, o: Opts)
    requires HoldsAll(was, head, rs, o) && at == head + TotalSize(rs, o) && Packed(m, was, at, r, o)
    ensures HoldsAll(m, head, rs + [r], o) && head + TotalSize(rs + [r], o) == at + SizeForData(|r.data|, o)
    ensures at + SizeForData(|r.data|, o) <= |m| == |was|
    ensures m[..at] == was[..at] && m[at + SizeForData(|r.data|, o)..] == was[at + SizeForData(|r.data|, o)..]
    ensures AllFit(rs, o) && Fits(r, o) ==> AllFit(rs + [r], o)
  {
    hide HoldsAll, Header, TotalSize, Fits;
    PackedParts(m, was, at, r, o);
    hide Packed, Holds;
    HoldsFrame(was, m, head, rs, o);
    HoldsAppend(m, head, rs, r, o);
  }

  lemma PackedParts(m: seq<u8>, was: seq<u8>, at: nat, r: Record, o: Opts)
    requires Packed(m, was, at, r, o)
    ensures Holds(m, at, r, o) && at + SizeForData(|r.data|, o) <= |m| == |was|
    ensures m[..at] == was[..at] && m[at + SizeForData(|r.data|, o)..] == was[at + SizeForData(|r.data|, o)..]
  {
    hide Header;
    var d, n := HdrSize(o) + |r.data|, SizeForData(|r.data|, o);
    SliceOfSlice(m, at + d, |m|, n - d, |m| - (at + d));
    SliceOfSlice(was, at + d, |m|, n - d, |m| - (at + d));
  }

  // ---------------------------------------------------------------- packing from memory

  /** xtlv_desc_t as a source: an entry without data or without a pointer is skipped, and id zero
      ends the table. */
  datatype Item = Item(id: u16, data: seq<u8>, ptr: bool)

  predicate Taken(i: Item) { |i.data| > 0 && i.ptr }

  /** The records a table stands for. */
  function Selected(items: seq<Item>, o: Opts): seq<Record>
  {
    if items == [] || items[0].id == 0 then []
    else (if Taken(items[0]) then [Record(Kept(items[0].id, o), items[0].data)] else []) + Selected(items[1..], o)
  }

  predicate HasEnd(items: seq<Item>) { exists k :: 0 <= k < |items| && items[k].id == 0 }

  /** One entry more, behind a table without an end: it gives a record exactly when it has data and a
      pointer, with the low byte of its id if the field has room for that only. */
  lemma {:induction false} SelectedMore(items: seq<Item>, i: Item, o: Opts)
    ensures Selected(items + [i], o) == Selected(items, o) +
      if !HasEnd(items) && i.id != 0 && |i.data| > 0 && i.ptr
      then [Record(if o.idU8 then i.id % 0x100 else i.id, i.data)] else []
    decreases |items|
  {
    if items == [] {
      assert items + [i] == [i] && [i][1..] == [];
    } else {
      assert (items + [i])[1..] == items[1..] + [i];
      SelectedMore(items[1..], i, o);
      EndBehind(items);
    }
  }

  lemma EndBehind(items: seq<Item>)
    requires items != []
    ensures HasEnd(items) <==> items[0].id == 0 || HasEnd(items[1..])
  {
    if HasEnd(items) {
      var k :| 0 <= k < |items| && items[k].id == 0;
      if k > 0 { assert items[1..][k - 1].id == 0; }
    }
  }

  /** The records selected from the first i entries. */
  predicate Chosen(items: seq<Item>, i: nat, done: seq<Record>, o: Opts)
    requires i <= |items|
  {
    Selected(items, o) == done + Selected(items[i..], o) && AllFit(Selected(items, o), o)
  }

  lemma ChosenNone(items: seq<Item>, o: Opts)
    requires AllFit(Selected(items, o), o)
    ensures Chosen(items, 0, [], o)
  {
    assert items[0..] == items;
  }

  lemma ChosenNext(items: seq<Item>, i: nat, done: seq<Record>, o: Opts)
    requires i < |items| && items[i].id != 0 && Chosen(items, i, done, o)
    ensures !Taken(items[i]) ==> Chosen(items, i + 1, done, o)
    ensures var r := Record(Kept(items[i].id, o), items[i].data);
      Taken(items[i]) ==> (Chosen(items, i + 1, done + [r], o) && Fits(r, o) && done <= Selected(items, o) &&
        |done| < |Selected(items, o)| && Selected(items, o)[|done|] == r)
  {
    assert items[i..][1..] == items[i + 1..];
    if Taken(items[i]) { assert Selected(items, o)[|done|] == Record(Kept(items[i].id, o), items[i].data); }
  }

  lemma ChosenAll(items: seq<Item>, i: nat, done: seq<Record>, o: Opts)
    requires i <= |items| && Chosen(items, i, done, o) && (i == |items| || items[i].id == 0)
    ensures done == Selected(items, o)
  {
    if i < |items| { assert items[i..][0].id == 0; }
  }

  /** Memory is as before outside lo..hi. */
  predicate SameOutside(m: seq<u8>, was: seq<u8>, lo: nat, hi: nat)
  {
    |m| == |was| && lo <= hi <= |m| && m[..lo] == was[..lo] && m[hi..] == was[hi..]
  }

  /** bcm_pack_xtlv_buf_from_mem, with bcm_pack_xtlv_entry. done are the records packed. */
  method PackFromMem(mem: array<u8>, at0: nat, buflen0: nat, items: seq<Item>, o: Opts)
    returns (res: Error, at: nat, buflen: nat, ghost done: seq<Record>)
    requires at0 + buflen0 <= mem.Length && AllFit(Selected(items, o), o)
    modifies mem
    ensures done <= Selected(items, o) && HoldsAll(mem[..], at0, done, o)
    ensures at == at0 + TotalSize(done, o) && at + buflen == at0 + buflen0
    ensures SameOutside(mem[..], old(mem[..]), at0, at)
    ensures res == BCME_OK ==> done == Selected(items, o)
    ensures res != BCME_OK ==> (res == BCME_BADLEN && |done| < |Selected(items, o)| &&
        SizeForData(|Selected(items, o)[|done|].data|, o) > buflen)
  {
    hide Holds, HoldsAll, Header, TotalSize, Packed, SizeForData, Selected, AllFit, SameOutside, Chosen;
    at, buflen, done := at0, buflen0, [];
    var i := 0;
    NothingHeld(mem[..], at0, o);
    ChosenNone(items, o);
    ghost var first := mem[..];
    while i < |items| && items[i].id != 0
      invariant 0 <= i <= |items| && Chosen(items, i, done, o)
      invariant HoldsAll(mem[..], at0, done, o) && at == at0 + TotalSize(done, o) && at + buflen == at0 + buflen0
      invariant SameOutside(mem[..], first, at0, at)
    {
      ChosenNext(items, i, done, o);
      if |items[i].data| > 0 && items[i].ptr {
        ghost var r := Record(Kept(items[i].id, o), items[i].data);
        ghost var was := mem[..];
        var size := SizeForData(|items[i].data|, o);
        if size > buflen { return BCME_BADLEN, at, buflen, done; }
        PackXtlv(mem, at, items[i].id, |items[i].data|, Some(items[i].data), o);
        PutOne(mem[..], was, at0, done, at, r, o);
        StillBefore(mem[..], was, first, at0, at, size);
        done := done + [r];
        at := at + size;
        buflen := buflen - size;
      }
      i := i + 1;
    }
    ChosenAll(items, i, done, o);
    res := BCME_OK;
  }

  lemma NothingHeld(m: seq<u8>, at: nat, o: Opts)
    ensures HoldsAll(m, at, [], o) && TotalSize([], o) == 0
    ensures at <= |m| ==> SameOutside(m, m, at, at)
  {
  }

  lemma StillBefore(m: seq<u8>, was: seq<u8>, first: seq<u8>, at0: nat, at: nat, size: nat)
    requires SameOutside(was, first, at0, at) && at + size <= |m| == |was|
    requires m[..at] == was[..at] && m[at + size..] == was[at + size..]
    ensures SameOutside(m, first, at0, at + size)
  {
    assert m[..at][..at0] == m[..at0] && was[..at][..at0] == was[..at0];
    assert was[at..][size..] == was[at + size..] && first[at..][size..] == first[at + size..];
  }

  // ---------------------------------------------------------------- unpacking

  lemma ParseStep(m: seq<u8>, elt: nat, end: nat, o: Opts)
    ensures Valid(m, elt, end, o) ==>
      Parse(m, elt, end, o) == [RecordAt(m, elt, o)] + Parse(m, After(m, elt, end, o), end, o)
    ensures !Valid(m, elt, end, o) ==> Parse(m, elt, end, o) == []
  {
  }

  /** bcm_unpack_xtlv_buf. The callback accepts its k-th record when accept(k); given are the records
      it was called with. On any bytes the walk stays in the buffer and ends. */
  method UnpackBuf(m: seq<u8>, buf: nat, buflen: nat, o: Opts, accept: nat -> bool)
    returns (res: Error, given: seq<Record>)
    requires buf + buflen <= |m|
    ensures given <= Parse(m, buf, buf + buflen, o)
    ensures res == BCME_OK ==> given == Parse(m, buf, buf + buflen, o) && forall k: nat :: k < |given| ==> accept(k)
    ensures res != BCME_OK ==> res == BCME_CALLBACK && |given| > 0 && !accept(|given| - 1)
    ensures forall k: nat :: k < |given| - 1 ==> accept(k)
  {
    hide RecordAt, SizeForData, Parse, Walked;
    ghost var end := buf + buflen;
    var at, left := buf, buflen;
    given := [];
    WalkedNone(m, buf, end, o);
    while left >= HdrSize(o)
      invariant 0 <= left && at + left == end
      invariant Walked(m, buf, at, end, given, o)
      invariant forall k: nat :: k < |given| ==> accept(k)
      decreases left
    {
      var size := SizeForData(Len(m, at, o), o);
      if left < size { break; }
      WalkedNext(m, buf, at, end, given, o);
      given := given + [RecordAt(m, at, o)];
      left := left - size;
      if !accept(|given| - 1) { return BCME_CALLBACK, given; }
      at := at + size;
    }
    WalkedAll(m, buf, at, end, given, o);
    res := BCME_OK;
  }

  /** done are the records from lo to at, of those up to hi. */
  predicate Walked(m: seq<u8>, lo: nat, at: nat, hi: nat, done: seq<Record>, o: Opts)
  {
    Parse(m, lo, hi, o) == done + Parse(m, at, hi, o)
  }

  lemma WalkedNone(m: seq<u8>, lo: nat, hi: nat, o: Opts)
    ensures Walked(m, lo, lo, hi, [], o)
  {
  }

  lemma WalkedNext(m: seq<u8>, lo: nat, at: nat, hi: nat, done: seq<Record>, o: Opts)
    requires Walked(m, lo, at, hi, done, o) && Valid(m, at, hi, o)
    ensures Walked(m, lo, After(m, at, hi, o), hi, done + [RecordAt(m, at, o)], o)
    ensures done + [RecordAt(m, at, o)] <= Parse(m, lo, hi, o)
  {
    hide RecordAt, After, Valid;
    ParseStep(m, at, hi, o);
  }

  lemma WalkedAll(m: seq<u8>, lo: nat, at: nat, hi: nat, done: seq<Record>, o: Opts)
    requires Walked(m, lo, at, hi, done, o) && !Valid(m, at, hi, o)
    ensures done == Parse(m, lo, hi, o)
  {
  }

  /** The place of the first record with this id, or the number of records. */
  function FindId(rs: seq<Record>, id: u16): (k: nat)
    ensures k <= |rs| && (k < |rs| ==> rs[k].id == id)
    ensures forall j :: 0 <= j < k ==> rs[j].id != id
  {
    if rs == [] || rs[0].id == id then 0 else 1 + FindId(rs[1..], id)
  }

  lemma {:induction false} FindIdSkips(a: seq<Record>, b: seq<Record>, id: u16)
    requires forall j :: 0 <= j < |a| ==> a[j].id != id
    ensures FindId(a + b, id) == |a| + FindId(b, id)
    decreases |a|
  {
    if a == [] {
      assert a + b == b;
    } else {
      assert (a + b)[1..] == a[1..] + b;
      FindIdSkips(a[1..], b, id);
    }
  }

  /** ptr and datalen tell where in m[lo..hi] the data of the first record with this id lie. */
  predicate Located(m: seq<u8>, lo: nat, hi: nat, rs: seq<Record>, id: u16, ptr: Option<nat>, datalen: u16)
    requires hi <= |m|
  {
    match ptr
    case None => FindId(rs, id) == |rs| && datalen == 0
    case Some(at) => (FindId(rs, id) < |rs| && lo <= at <= at + datalen <= hi &&
      m[at..at + datalen] == rs[FindId(rs, id)].data)
  }

  lemma LocatedHere(m: seq<u8>, lo: nat, tlv: nat, hi: nat, skipped: seq<Record>, id: u16, o: Opts)
    requires lo <= tlv && Valid(m, tlv, hi, o) && Id(m, tlv, o) == id
    requires forall j :: 0 <= j < |skipped| ==> skipped[j].id != id
    ensures Located(m, lo, hi, skipped + Parse(m, tlv, hi, o), id, Some(tlv + HdrSize(o)), Len(m, tlv, o))
  {
    var rest := Parse(m, tlv, hi, o);
    assert rest[0] == RecordAt(m, tlv, o);
    FindIdSkips(skipped, rest, id);
  }

  lemma LocatedNowhere(m: seq<u8>, lo: nat, tlv: nat, hi: nat, skipped: seq<Record>, id: u16, o: Opts)
    requires hi <= |m| && !Valid(m, tlv, hi, o)
    requires forall j :: 0 <= j < |skipped| ==> skipped[j].id != id
    ensures Located(m, lo, hi, skipped + Parse(m, tlv, hi, o), id, None, 0)
  {
    FindIdSkips(skipped, [], id);
  }

  /** bcm_get_data_from_xtlv_buf: where the data lie, and their length. */
  method GetData(m: seq<u8>, buf: nat, buflen: nat, id: u16, o: Opts) returns (ptr: Option<nat>, datalen: u16)
    requires buf + buflen <= |m|
    ensures Located(m, buf, buf + buflen, Parse(m, buf, buf + buflen, o), id, ptr, datalen)
  {
    hide SizeForData, Located, RecordAt, Parse;
    ghost var end := buf + buflen;
    ghost var skipped := [];
    var tlv, left := buf, buflen;
    while left >= HdrSize(o)
      invariant 0 <= left && tlv + left == end && buf <= tlv
      invariant Parse(m, buf, end, o) == skipped + Parse(m, tlv, end, o)
      invariant forall j :: 0 <= j < |skipped| ==> skipped[j].id != id
      decreases left
    {
      ParseStep(m, tlv, end, o);
      var size := SizeForData(Len(m, tlv, o), o);
      if left < size { break; }
      if Id(m, tlv, o) == id {
        LocatedHere(m, buf, tlv, end, skipped, id, o);
        return Some(tlv + HdrSize(o)), Len(m, tlv, o);
      }
      IdOf(m, tlv, o);
      skipped := skipped + [RecordAt(m, tlv, o)];
      left := left - size;
      tlv := tlv + size;
    }
    LocatedNowhere(m, buf, tlv, end, skipped, id, o);
    return None, 0;
  }

  lemma IdOf(m: seq<u8>, elt: nat, o: Opts)
    requires elt + HdrSize(o) <= |m| && elt + HdrSize(o) + Len(m, elt, o) <= |m|
    ensures RecordAt(m, elt, o).id == Id(m, elt, o)
  {
  }

  // ---------------------------------------------------------------- unpacking to memory

  /** xtlv_desc_t as a destination. */
  datatype Slot = Slot(id: u16, len: u16, content: seq<u8>)

  /** The first entry for an id before the end of the table, or the number of entries. */
  function SlotOf(slots: seq<Slot>, id: u16): (k: nat)
    ensures k <= |slots| && (k < |slots| ==> slots[k].id == id)
  {
    if slots == [] || slots[0].id == 0 then |slots| else if slots[0].id == id then 0 else 1 + SlotOf(slots[1..], id)
  }

  datatype Stores = Stores(slots: seq<Slot>, ok: bool)

  function Stored(slots: seq<Slot>, r: Record): Stores
  {
    var k := SlotOf(slots, r.id);
    if k == |slots| then Stores(slots, true)
    else if slots[k].len != |r.data| then Stores(slots, false)
    else Stores(slots[k := slots[k].(content := r.data)], true)
  }

  /** No entry of these, nor the end of the table, is in the way of a record. */
  predicate NotBefore(slots: seq<Slot>, r: Record, k: nat)
    requires k <= |slots|
  {
    forall j :: 0 <= j < k ==> slots[j].id != 0 && slots[j].id != r.id
  }

  /** The first entry of the id takes the data if they have the length it expects, and stops the unpacking
      if not; without an entry nothing happens. */
  lemma {:induction false} StoredFirst(slots: seq<Slot>, r: Record, k: nat)
    requires k <= |slots| && NotBefore(slots, r, k) && (k < |slots| ==> slots[k].id == 0 || slots[k].id == r.id)
    ensures Stored(slots, r) ==
      if k == |slots| || slots[k].id == 0 then Stores(slots, true)
      else if slots[k].len == |r.data| then Stores(slots[k := Slot(r.id, slots[k].len, r.data)], true)
      else Stores(slots, false)
  {
    SlotIs(slots, r, k);
  }

  lemma {:induction false} SlotIs(slots: seq<Slot>, r: Record, k: nat)
    requires k <= |slots| && NotBefore(slots, r, k) && (k < |slots| ==> slots[k].id == 0 || slots[k].id == r.id)
    ensures SlotOf(slots, r.id) == if k == |slots| || slots[k].id == 0 then |slots| else k
    decreases k
  {
    if k > 0 {
      assert forall j :: 0 <= j < k - 1 ==> slots[1..][j] == slots[j + 1];
      SlotIs(slots[1..], r, k - 1);
    }
  }

  /** Records stored one after the other, up to the first whose length is not the one expected. */
  function StoredAll(slots: seq<Slot>, rs: seq<Record>): Stores
    decreases |rs|
  {
    if rs == [] then Stores(slots, true)
    else
      var first := Stored(slots, rs[0]);
      if first.ok then StoredAll(first.slots, rs[1..]) else first
  }

  /** The bytes behind the last record. */
  function Leftover(m: seq<u8>, elt: nat, end: nat, o: Opts): nat
    requires elt <= end
    decreases end - elt
  {
    if Valid(m, elt, end, o) then Leftover(m, After(m, elt, end, o), end, o) else end - elt
  }

  /** What is left over is what the records do not take. */
  lemma {:induction false} LeftoverIs(m: seq<u8>, elt: nat, end: nat, o: Opts)
    requires elt <= end
    ensures Leftover(m, elt, end, o) + TotalSize(Parse(m, elt, end, o), o) == end - elt
    decreases end - elt
  {
    hide SizeForData;
    if Valid(m, elt, end, o) {
      LeftoverIs(m, After(m, elt, end, o), end, o);
      var rest := Parse(m, After(m, elt, end, o), end, o);
      assert ([RecordAt(m, elt, o)] + rest)[1..] == rest;
    }
  }

  /** bcm_next_xtlv. */
  method NextXtlv(m: seq<u8>, elt: nat, buflen: nat, o: Opts) returns (next: Option<nat>, buflen': nat)
    requires elt + buflen <= |m|
    ensures var end := elt + buflen;
      if !Valid(m, elt, end, o) then next == None && buflen' == buflen
      else
        var a := After(m, elt, end, o);
        a + buflen' == end && next == if Valid(m, a, end, o) then Some(a) else None
  {
    next, buflen' := None, buflen;
    if !Valid(m, elt, elt + buflen, o) { return; }
    var sz := SizeForData(Len(m, elt, o), o);
    buflen' := buflen - sz;
    if !Valid(m, elt + sz, elt + sz + buflen', o) { return; }
    next := Some(elt + sz);
  }

  /** The search of one record's entry, and the copy. */
  method StoreRecord(slots: array<Slot>, r: Record) returns (ok: bool)
    modifies slots
    ensures Stores(slots[..], ok) == Stored(old(slots[..]), r)
  {
    ghost var was := slots[..];
    var k := 0;
    while k < slots.Length && slots[k].id != 0
      invariant 0 <= k <= slots.Length && slots[..] == was
      invariant SlotOf(was, r.id) == k + SlotOf(was[k..], r.id)
    {
      assert was[k..][1..] == was[k + 1..];
      if slots[k].id == r.id {
        if slots[k].len != |r.data| { return false; }
        slots[k] := slots[k].(content := r.data);
        assert slots[..] == was[k := was[k].(content := r.data)];
        return true;
      }
      k := k + 1;
    }
    assert k < slots.Length ==> was[k..][0].id == 0;
    ok := true;
  }

  /** bcm_unpack_xtlv_buf_to_mem. */
  method UnpackBufToMem(m: seq<u8>, buf: nat, buflen0: nat, slots: array<Slot>, o: Opts)
    returns (res: Error)
    requires buf + buflen0 <= |m|
    modifies slots
    ensures !Valid(m, buf, buf + buflen0, o) ==> res == BCME_BADARG && slots[..] == old(slots[..])
    ensures Valid(m, buf, buf + buflen0, o) ==>
      var stores := StoredAll(old(slots[..]), Parse(m, buf, buf + buflen0, o));
      && slots[..] == stores.slots
      && res ==
        if !stores.ok then BCME_BADLEN
        else if Leftover(m, buf, buf + buflen0, o) != 0 then BCME_BUFTOOSHORT
        else BCME_OK
  {
    hide Stored, RecordAt, SizeForData;
    ghost var end: nat := buf + buflen0;
    var buflen := buflen0;
    if !Valid(m, buf, buf + buflen, o) { return BCME_BADARG; }
    res := BCME_OK;
    var elt := Some(buf);
    ghost var at := buf;
    ghost var all := StoredAll(slots[..], Parse(m, buf, end, o));
    while elt.Some? && res == BCME_OK
      invariant at + buflen == end && (elt.Some? ==> elt.value == at && Valid(m, at, end, o))
      invariant elt.None? && res == BCME_OK ==> !Valid(m, at, end, o)
      invariant res == BCME_OK || res == BCME_BADLEN
      invariant res == BCME_OK ==> all == StoredAll(slots[..], Parse(m, at, end, o))
      invariant res == BCME_OK ==> Leftover(m, at, end, o) == Leftover(m, buf, end, o)
      invariant res == BCME_BADLEN ==> all == Stores(slots[..], false)
      decreases buflen, if elt.Some? then 1 else 0
    {
      ParseStep(m, at, end, o);
      ghost var rs := Parse(m, at, end, o);
      assert rs[1..] == Parse(m, After(m, at, end, o), end, o);
      var ok := StoreRecord(slots, RecordAt(m, elt.value, o));
      if !ok { res := BCME_BADLEN; }
      elt, buflen := NextXtlv(m, elt.value, buflen, o);
      at := After(m, at, end, o);
    }
    ParseStep(m, at, end, o);
    if res == BCME_OK && buflen != 0 { res := BCME_BUFTOOSHORT; }
  }

  // ---------------------------------------------------------------- from memory and back

  /** The destination table asks for the entries of the source table. */
  predicate SameTable(items: seq<Item>, slots: seq<Slot>)
  {
    |items| == |slots| && forall k :: 0 <= k < |items| ==> slots[k].id == items[k].id && slots[k].len == |items[k].data|
  }

  predicate DistinctIds(items: seq<Item>)
  {
    forall j, k :: 0 <= j < k < |items| ==> items[j].id != items[k].id
  }

  /** No entry before the last is the end of the table. */
  predicate NoEnd(items: seq<Item>) { forall k :: 0 <= k < |items| ==> items[k].id != 0 }

  /** No id of an entry that is packed is cut by its field. */
  predicate IdsKept(items: seq<Item>, o: Opts)
  {
    forall k :: 0 <= k < |items| && Taken(items[k]) ==> Kept(items[k].id, o) == items[k].id
  }

  lemma {:induction false} SlotFound(items: seq<Item>, slots: seq<Slot>, k: nat)
    requires SameTable(items, slots) && DistinctIds(items) && NoEnd(items) && k < |items|
    ensures SlotOf(slots, items[k].id) == k
    decreases k
  {
    if k > 0 { SlotFound(items[1..], slots[1..], k - 1); }
  }

  /** What the destination table holds once the entries from i on were stored. */
  function Filled(items: seq<Item>, slots: seq<Slot>, i: nat): (r: seq<Slot>)
    requires SameTable(items, slots) && i <= |items|
    ensures |r| == |slots|
    ensures forall k :: 0 <= k < |r| ==>
      r[k] == if i <= k && Taken(items[k]) then slots[k].(content := items[k].data) else slots[k]
    decreases |items| - i
  {
    if i == |items| then slots
    else if Taken(items[i]) then Filled(items, slots[i := slots[i].(content := items[i].data)], i + 1)
    else Filled(items, slots, i + 1)
  }

  lemma {:induction false} StoresSelected(items: seq<Item>, slots: seq<Slot>, i: nat, o: Opts)
    requires SameTable(items, slots) && DistinctIds(items) && NoEnd(items) && IdsKept(items, o) && i <= |items|
    ensures StoredAll(slots, Selected(items[i..], o)) == Stores(Filled(items, slots, i), true)
    decreases |items| - i
  {
    if i < |items| {
      assert items[i..][1..] == items[i + 1..];
      SlotFound(items, slots, i);
      if Taken(items[i]) {
        var r := Record(Kept(items[i].id, o), items[i].data);
        assert Selected(items[i..], o) == [r] + Selected(items[i + 1..], o);
        StoresSelected(items, slots[i := slots[i].(content := items[i].data)], i + 1, o);
      } else {
        assert Selected(items[i..], o) == Selected(items[i + 1..], o);
        StoresSelected(items, slots, i + 1, o);
      }
    }
  }

  lemma {:induction false} NothingLeft(m: seq<u8>, elt: nat, rs: seq<Record>, o: Opts)
    requires HoldsAll(m, elt, rs, o) && AllFit(rs, o) && elt + TotalSize(rs, o) <= |m|
    ensures Leftover(m, elt, elt + TotalSize(rs, o), o) == 0
    decreases |rs|
  {
    hide Holds, Valid, RecordAt, Fits;
    if rs == [] {
      EmptyInvalid(m, elt, o);
    } else {
      RecordReadBack(m, elt, elt + TotalSize(rs, o), rs[0], o);
      NothingLeft(m, After(m, elt, elt + TotalSize(rs, o), o), rs[1..], o);
    }
  }

  lemma EmptyInvalid(m: seq<u8>, elt: nat, o: Opts)
    ensures !Valid(m, elt, elt, o)
  {
  }

  /** Packing a table with distinct ids and unpacking the bytes into a table of the same shape
      restores every entry that was packed, leaves the others as they were, and leaves no byte over. */
  lemma MemRoundTrip(m: seq<u8>, at: nat, items: seq<Item>, slots: seq<Slot>, o: Opts)
    requires SameTable(items, slots) && DistinctIds(items) && NoEnd(items) && IdsKept(items, o)
    requires HoldsAll(m, at, Selected(items, o), o) && AllFit(Selected(items, o), o)
    requires at + TotalSize(Selected(items, o), o) <= |m|
    ensures var end := at + TotalSize(Selected(items, o), o);
      && StoredAll(slots, Parse(m, at, end, o)) == Stores(Filled(items, slots, 0), true)
      && Leftover(m, at, end, o) == 0
      && (Valid(m, at, end, o) <==> Selected(items, o) != [])
  {
    hide HoldsAll, AllFit, Selected, Valid, Leftover, StoredAll, Filled, TotalSize;
    var rs := Selected(items, o);
    ExactRoundTrip(m, at, rs, o);
    NothingLeft(m, at, rs, o);
    assert items[0..] == items;
    StoresSelected(items, slots, 0, o);
    ParseStep(m, at, at + TotalSize(rs, o), o);
  }

  lemma {:induction false} SelectedIds(items: seq<Item>, o: Opts, j: nat)
    requires j < |Selected(items, o)|
    ensures Kept(Selected(items, o)[j].id, o) == Selected(items, o)[j].id
    decreases |items|
  {
    hide Kept;
    if Taken(items[0]) {
      HeaderKept(items[0].id, 0, o);
      if j > 0 { SelectedIds(items[1..], o, j - 1); }
    } else {
      SelectedIds(items[1..], o, j);
    }
  }

  /** An entry whose id none of the records has stays as it is. */
  lemma {:induction false} OthersStored(slots: seq<Slot>, rs: seq<Record>, k: nat)
    requires k < |slots| && forall j :: 0 <= j < |rs| ==> rs[j].id != slots[k].id
    ensures |StoredAll(slots, rs).slots| == |slots| && StoredAll(slots, rs).slots[k] == slots[k]
    decreases |rs|
  {
    if rs != [] {
      var first := Stored(slots, rs[0]);
      if first.ok { OthersStored(first.slots, rs[1..], k); }
    }
  }

  /** An id that its field cuts is not found again: its entry stays as it was, whatever else is in the
      table and wherever the record with the cut id goes. */
  lemma CutIdLost(items: seq<Item>, slots: seq<Slot>, o: Opts, k: nat)
    requires SameTable(items, slots) && k < |items| && Kept(items[k].id, o) != items[k].id
    ensures |StoredAll(slots, Selected(items, o)).slots| == |slots|
    ensures StoredAll(slots, Selected(items, o)).slots[k] == slots[k]
  {
    hide Selected, StoredAll;
    var rs := Selected(items, o);
    forall j | 0 <= j < |rs| ensures rs[j].id != slots[k].id { SelectedIds(items, o, j); }
    OthersStored(slots, rs, k);
  }

  /** Where the record goes instead: to the entry of the cut id, whose length it must have, or else the
      unpacking stops there. */
  lemma CutIdGoes(items: seq<Item>, slots: seq<Slot>, o: Opts, k: nat, j: nat)
    requires SameTable(items, slots) && DistinctIds(items) && NoEnd(items)
    requires k < |items| && j < |items| && items[j].id == Kept(items[k].id, o)
    ensures Stored(slots, Record(Kept(items[k].id, o), items[k].data)) ==
      if |items[j].data| == |items[k].data| then Stores(slots[j := slots[j].(content := items[k].data)], true)
      else Stores(slots, false)
  {
    hide Kept;
    SlotFound(items, slots, j);
  }

  /** Does no entry hold beforehand what is packed for it? */
  predicate NothingYet(items: seq<Item>, slots: seq<Slot>)
    requires SameTable(items, slots)
  {
    forall k :: 0 <= k < |items| && Taken(items[k]) ==> slots[k].content != items[k].data
  }

  /** So packing a table to memory and back restores it if and only if no field cuts an id that is
      packed. */
  lemma MemRoundTripExactly(m: seq<u8>, at: nat, items: seq<Item>, slots: seq<Slot>, o: Opts)
    requires SameTable(items, slots) && DistinctIds(items) && NoEnd(items) && NothingYet(items, slots)
    requires HoldsAll(m, at, Selected(items, o), o) && AllFit(Selected(items, o), o)
    requires at + TotalSize(Selected(items, o), o) <= |m|
    ensures var packed := Parse(m, at, at + TotalSize(Selected(items, o), o), o);
      StoredAll(slots, packed) == Stores(Filled(items, slots, 0), true) <==> IdsKept(items, o)
  {
    hide HoldsAll, AllFit, Selected, StoredAll, Filled, TotalSize, SameTable, DistinctIds, NoEnd;
    ExactRoundTrip(m, at, Selected(items, o), o);
    if IdsKept(items, o) {
      MemRoundTrip(m, at, items, slots, o);
    } else {
      var k :| 0 <= k < |items| && Taken(items[k]) && Kept(items[k].id, o) != items[k].id;
      FilledAt(items, slots, k);
      CutIdLost(items, slots, o, k);
    }
  }

  lemma FilledAt(items: seq<Item>, slots: seq<Slot>, k: nat)
    requires SameTable(items, slots) && k < |items| && Taken(items[k])
    ensures |items| == |slots| == |Filled(items, slots, 0)| && Filled(items, slots, 0)[k].content == items[k].data
  {
  }

  const ID_U8 := Opts(true, true, false)
  const TWO_IDS: seq<Item> := [Item(0x05, [7], true), Item(0x105, [8], true)]

  lemma TwoIdsSelected()
    ensures Selected(TWO_IDS, ID_U8) == [Record(0x05, [7]), Record(0x05, [8])]
    ensures TotalSize(Selected(TWO_IDS, ID_U8), ID_U8) == 6 && AllFit(Selected(TWO_IDS, ID_U8), ID_U8)
    ensures TotalSize([Record(0x05, [7])], ID_U8) == 3
  {
    var rest: seq<Item> := TWO_IDS[1..];
    assert rest == [Item(0x105, [8], true)] && rest[1..] == [] && Selected(rest[1..], ID_U8) == [];
    assert Selected(rest, ID_U8) == [Record(0x05, [8])];
    var rs := Selected(TWO_IDS, ID_U8);
    assert rs == [Record(0x05, [7]), Record(0x05, [8])];
    assert rs[1..] == [Record(0x05, [8])] && rs[1..][1..] == [];
    assert TotalSize(rs[1..][1..], ID_U8) == 0 && TotalSize(rs[1..], ID_U8) == 3;
    assert [Record(0x05, [7])][1..] == [];
  }

  lemma TwoIdsStored()
    ensures StoredAll([Slot(0x05, 1, [0]), Slot(0x105, 1, [0])], [Record(0x05, [7]), Record(0x05, [8])]) ==
      Stores([Slot(0x05, 1, [8]), Slot(0x105, 1, [0])], true)
  {
    var s0, s1 := [Slot(0x05, 1, [0]), Slot(0x105, 1, [0])], [Slot(0x05, 1, [7]), Slot(0x105, 1, [0])];
    var rs := [Record(0x05, [7]), Record(0x05, [8])];
    assert rs[1..] == [Record(0x05, [8])] && rs[1..][1..] == [];
    assert Stored(s0, rs[0]) == Stores(s1, true);
    assert Stored(s1, rs[1]) == Stores([Slot(0x05, 1, [8]), Slot(0x105, 1, [0])], true);
  }

  /** A prefix of the two records that is not all of them leaves room for the next. */
  lemma TwoIdsFit(done: seq<Record>)
    requires done <= [Record(0x05, [7]), Record(0x05, [8])] && |done| < 2
    ensures TotalSize(done, ID_U8) <= 3
  {
    if |done| == 1 {
      assert done == [Record(0x05, [7])];
      TwoIdsSelected();
    }
  }

  /** Two ids that only differ in the byte that is cut: the second record overwrites the first one's
      entry, and its own entry is not restored. */
  method TwoIdsMixedUp() returns (res: Error, restored: seq<Slot>)
    ensures res == BCME_OK && restored == [Slot(0x05, 1, [8]), Slot(0x105, 1, [0])]
  {
    hide Selected, TotalSize, HoldsAll, Parse, StoredAll, Leftover, Valid, AllFit;
    TwoIdsSelected();
    var mem := new u8[8](_ => 0);
    var packed, at, left, done := PackFromMem(mem, 0, 8, TWO_IDS, ID_U8);
    if packed != BCME_OK { TwoIdsFit(done); }
    ExactRoundTrip(mem[..], 0, done, ID_U8);
    NothingLeft(mem[..], 0, done, ID_U8);
    ParseStep(mem[..], 0, at, ID_U8);
    TwoIdsStored();
    var slots := new Slot[] [Slot(0x05, 1, [0]), Slot(0x105, 1, [0])];
    assert slots[..] == [Slot(0x05, 1, [0]), Slot(0x105, 1, [0])];
    res := UnpackBufToMem(mem[..], 0, at, slots, ID_U8);
    restored := slots[..];
  }

  /** Lookup in what was packed: the first record of the list with the id. */
  lemma LookupOfPacked(m: seq<u8>, at: nat, rs: seq<Record>, o: Opts, id: u16)
    requires HoldsAll(m, at, rs, o) && AllFit(rs, o) && at + TotalSize(rs, o) <= |m|
    ensures FindId(Parse(m, at, at + TotalSize(rs, o), o), id) == FindId(rs, id)
  {
    ExactRoundTrip(m, at, rs, o);
  }
}
