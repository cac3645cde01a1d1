/** The radiotap header parser (bcmwifi_radiotap.c): a cursor that remembers where the last search
    ended, so that fields asked for in ascending order are found in one pass. */
module Radiotap {
  import opened Bits
  import opened Common

  const IEEE80211_RADIOTAP_EXT := 31
  const HEADER_SIZE := 8

  /** Length and alignment of a field; alignment zero stands for a field nothing is known about. */
  datatype FieldInfo = FieldInfo(len: nat, align: nat)

  /** rtap_parse_info. */
  function Info(i: nat): FieldInfo
  {
    if i == 0 then FieldInfo(8, 8)
    else if i == 3 then FieldInfo(4, 2)
    else if i == 4 || 7 <= i <= 9 || i == 15 then FieldInfo(2, 2)
    else if i <= 13 || i == 17 then FieldInfo(1, 1)
    else if i == 18 || i == 20 then FieldInfo(8, 4)
    else if i == 19 then FieldInfo(3, 1)
    else if i == 21 then FieldInfo(12, 2)
    else if i == 30 then FieldInfo(6, 2)
    else FieldInfo(0, 0)
  }

  function RoundUp(offset: nat, align: nat): nat
    requires align > 0
  {
    (offset + (align - 1)) / align * align
  }

  /** The least multiple of align that is not below offset. */
  lemma RoundUpLeast(offset: nat, align: nat)
    requires align > 0
    ensures offset <= RoundUp(offset, align) < offset + align && RoundUp(offset, align) % align == 0
  {
    var n := offset + (align - 1);
    var q, r := n / align, n % align;
    assert n == q * align + r;
    DivUnique(q * align, align, q, 0);
  }

  // ---------------------------------------------------------------- reference: where a field is

  /** Does field i start and end inside an area of size bytes when the cursor stands at offset? */
  predicate Readable(i: nat, offset: nat, size: nat)
  {
    Info(i).align > 0 && RoundUp(offset, Info(i).align) + Info(i).len <= size
  }

  /** Where the fields before i end, in an area of size bytes described by the presence word; none
      when one of them is unknown or runs over the end. */
  function EndOfFields(present: u32, size: nat, i: nat): Option<nat>
  {
    if i == 0 then Some(0)
    else
      var before := EndOfFields(present, size, i - 1);
      if before.None? then None
      else if !Bit(present, i - 1) then before
      else if !Readable(i - 1, before.value, size) then None
      else Some(RoundUp(before.value, Info(i - 1).align) + Info(i - 1).len)
  }

  /** The offset of field i, if it is present and can be reached and read. */
  function FieldAt(present: u32, size: nat, i: nat): Option<nat>
  {
    var before := EndOfFields(present, size, i);
    if i > IEEE80211_RADIOTAP_EXT || before.None? || !Bit(present, i) || !Readable(i, before.value, size) then None
    else Some(RoundUp(before.value, Info(i).align))
  }

  lemma {:induction false} BlockedStays(present: u32, size: nat, i: nat, j: nat)
    requires i <= j && EndOfFields(present, size, i).None?
    ensures EndOfFields(present, size, j).None?
    decreases j
  {
    if i < j { BlockedStays(present, size, i, j - 1); }
  }

  lemma {:induction false} EndsGrow(present: u32, size: nat, i: nat, j: nat)
    requires i <= j && EndOfFields(present, size, j).Some?
    ensures EndOfFields(present, size, i).Some?
    ensures EndOfFields(present, size, i).value <= EndOfFields(present, size, j).value
    decreases j
  {
    hide RoundUp;
    if i < j {
      EndsGrow(present, size, i, j - 1);
      if Info(j - 1).align > 0 { RoundUpLeast(EndOfFields(present, size, j - 1).value, Info(j - 1).align); }
    }
  }

  /** A field found is aligned within the area and lies inside it. */
  lemma FoundInside(present: u32, size: nat, i: nat)
    requires FieldAt(present, size, i).Some?
    ensures Info(i).align > 0 && FieldAt(present, size, i).value % Info(i).align == 0
    ensures FieldAt(present, size, i).value + Info(i).len <= size
  {
    hide RoundUp;
    RoundUpLeast(EndOfFields(present, size, i).value, Info(i).align);
  }

  /** The cursor never comes near the limit of 32 bits: a field takes at most twenty bytes. */
  lemma {:induction false} EndsSmall(present: u32, size: nat, i: nat)
    requires EndOfFields(present, size, i).Some?
    ensures EndOfFields(present, size, i).value <= 20 * i
  {
    hide RoundUp;
    if i > 0 {
      EndsSmall(present, size, i - 1);
      if Info(i - 1).align > 0 { RoundUpLeast(EndOfFields(present, size, i - 1).value, Info(i - 1).align); }
    }
  }

  /** Fields found do not overlap, and come in the order of their numbers. */
  lemma FoundApart(present: u32, size: nat, i: nat, j: nat)
    requires i < j && FieldAt(present, size, i).Some? && FieldAt(present, size, j).Some?
    ensures FieldAt(present, size, i).value + Info(i).len <= FieldAt(present, size, j).value
  {
    hide RoundUp;
    EndsGrow(present, size, i + 1, j);
    RoundUpLeast(EndOfFields(present, size, j).value, Info(j).align);
  }

  /** A present field is missed only if an unknown one, or one that does not fit, is in the way. */
  lemma {:induction false} FoundUnlessBlocked(present: u32, size: nat, i: nat)
    requires i <= IEEE80211_RADIOTAP_EXT && Bit(present, i)
    ensures FieldAt(present, size, i).None? <==>
      exists j: nat :: j <= i && Bit(present, j) &&
        EndOfFields(present, size, j).Some? && !Readable(j, EndOfFields(present, size, j).value, size)
  {
    hide RoundUp, Bit, Readable;
    if FieldAt(present, size, i).None? {
      if EndOfFields(present, size, i).None? { var j := FirstBlock(present, size, i); }
    } else {
      forall j: nat | j <= i && Bit(present, j) && EndOfFields(present, size, j).Some?
        ensures Readable(j, EndOfFields(present, size, j).value, size)
      {
        if j < i { EndsGrow(present, size, j + 1, i); }
      }
    }
  }

  lemma {:induction false} FirstBlock(present: u32, size: nat, i: nat) returns (j: nat)
    requires EndOfFields(present, size, i).None?
    ensures j < i && Bit(present, j)
    ensures EndOfFields(present, size, j).Some? && !Readable(j, EndOfFields(present, size, j).value, size)
  {
    hide Bit, Readable;
    if EndOfFields(present, size, i - 1).None? {
      j := FirstBlock(present, size, i - 1);
    } else {
      j := i - 1;
    }
  }

  predicate NonePresent(present: u32, j: nat, i: nat) { forall l: nat :: j <= l < i ==> !Bit(present, l) }

  /** Is j the last present field before i? */
  predicate LastPresent(present: u32, j: nat, i: nat) { j < i && Bit(present, j) && NonePresent(present, j + 1, i) }

  /** Does the last present field before i end at e? At zero, if none is present. */
  ghost predicate EndsAt(present: u32, size: nat, i: nat, e: nat)
  {
    || (e == 0 && NonePresent(present, 0, i))
    || exists j: nat :: LastPresent(present, j, i) && FieldAt(present, size, j).Some? &&
         e == FieldAt(present, size, j).value + Info(j).len
  }

  lemma {:induction false} NoneBetween(present: u32, size: nat, j: nat, i: nat)
    requires j <= i && NonePresent(present, j, i)
    ensures EndOfFields(present, size, i) == EndOfFields(present, size, j)
    decreases i
  {
    hide Bit;
    if j < i { NoneBetween(present, size, j, i - 1); }
  }

  lemma EndsBehind(present: u32, size: nat, i: nat, j: nat)
    requires LastPresent(present, j, i) && FieldAt(present, size, j).Some?
    ensures EndOfFields(present, size, i) == Some(FieldAt(present, size, j).value + Info(j).len)
  {
    hide Bit, Readable, RoundUp, Info, NonePresent;
    NoneBetween(present, size, j + 1, i);
  }

  lemma EndsAtIs(present: u32, size: nat, i: nat, e: nat)
    requires EndsAt(present, size, i, e)
    ensures EndOfFields(present, size, i) == Some(e)
  {
    hide FieldAt, Info, NonePresent, LastPresent;
    if e == 0 && NonePresent(present, 0, i) {
      NoneBetween(present, size, 0, i);
    } else {
      var j: nat :| LastPresent(present, j, i) && FieldAt(present, size, j).Some? &&
        e == FieldAt(present, size, j).value + Info(j).len;
      EndsBehind(present, size, i, j);
    }
  }

  /** Where a present field is, told by the one before it: at the first multiple of its alignment not
      before the end of that one, if it ends inside the area there. */
  lemma PlacedBehind(present: u32, size: nat, i: nat, e: nat)
    requires i <= IEEE80211_RADIOTAP_EXT && Bit(present, i) && EndsAt(present, size, i, e)
    ensures var a, len := Info(i).align, Info(i).len;
      match FieldAt(present, size, i)
      case Some(v) => a > 0 && v % a == 0 && e <= v < e + a && v + len <= size
      case None => a == 0 || forall v: nat :: e <= v && v % a == 0 ==> v + len > size
  {
    hide Bit, RoundUp, EndsAt, Info, NonePresent;
    EndsAtIs(present, size, i, e);
    if Info(i).align > 0 {
      var a := Info(i).align;
      RoundUpLeast(e, a);
      forall v: nat | e <= v && v % a == 0 ensures v >= RoundUp(e, a) { MultiplesApart(RoundUp(e, a), v, a); }
    }
  }

  lemma MultiplesApart(u: nat, v: nat, a: nat)
    requires a > 0 && u % a == 0 && v % a == 0
    ensures v < u ==> v + a <= u
  {
    var p, q := u / a, v / a;
    assert u == p * a && v == q * a;
    if q < p { assert (q + 1) * a <= p * a by { MulMono(q + 1, p, a); } } else { MulMono(p, q, a); }
  }

  /** A field is found only if its bit is set, it has a number of the first presence word, and every present
      field before it is found. */
  lemma OnlyBehindFound(present: u32, size: nat, i: nat)
    requires FieldAt(present, size, i).Some?
    ensures i <= IEEE80211_RADIOTAP_EXT && Bit(present, i)
    ensures forall j: nat :: j < i && Bit(present, j) ==> FieldAt(present, size, j).Some?
  {
    hide Bit, Readable, RoundUp;
    forall j: nat | j < i && Bit(present, j) ensures FieldAt(present, size, j).Some? {
      EndsGrow(present, size, j, i);
      EndsGrow(present, size, j + 1, i);
    }
  }

  /** The fields something is known about. */
  predicate Known(i: nat) { (i <= 21 && i != 14 && i != 16) || i == 30 }

  /** With all of them present, these are their places in an area of seventy bytes. */
  function Place(i: nat): nat
  {
    if i < 22 then [0, 8, 9, 10, 14, 16, 17, 18, 20, 22, 24, 25, 26, 27, 28, 28, 30, 30, 32, 40, 44, 52][i] else 64
  }

  /** The places behind the fields before number i. */
  function Ends(i: nat): nat
  {
    if i < 22 then [0, 8, 9, 10, 14, 16, 17, 18, 20, 22, 24, 25, 26, 27, 28, 28, 30, 30, 31, 40, 43, 52][i]
    else if i < 31 then 64 else 70
  }

  /** The step over field i. */
  predicate NextEnd(i: nat)
  {
    if Known(i) then Readable(i, Ends(i), 70) && RoundUp(Ends(i), Info(i).align) == Place(i) &&
                     Place(i) + Info(i).len == Ends(i + 1)
    else Ends(i + 1) == Ends(i)
  }

  lemma Rounds()
    ensures RoundUp(0, 8) == 0 && RoundUp(8, 1) == 8 && RoundUp(9, 1) == 9 && RoundUp(10, 2) == 10
    ensures RoundUp(14, 2) == 14 && RoundUp(16, 1) == 16 && RoundUp(17, 1) == 17 && RoundUp(18, 2) == 18
    ensures RoundUp(20, 2) == 20 && RoundUp(22, 2) == 22 && RoundUp(24, 1) == 24 && RoundUp(25, 1) == 25
    ensures RoundUp(26, 1) == 26 && RoundUp(27, 1) == 27 && RoundUp(28, 2) == 28 && RoundUp(30, 1) == 30
    ensures RoundUp(31, 4) == 32 && RoundUp(40, 1) == 40 && RoundUp(43, 4) == 44 && RoundUp(52, 2) == 52
    ensures RoundUp(64, 2) == 64
  {
  }

  lemma NextEnds(i: nat)
    requires i < 31
    ensures NextEnd(i)
  {
    hide RoundUp;
    Rounds();
  }

  lemma {:induction false} AllPresent(present: u32, size: nat, i: nat)
    requires size >= 70 && i <= 31 && forall j: nat :: j < 31 ==> Bit(present, j) == Known(j)
    ensures EndOfFields(present, size, i) == Some(Ends(i))
    ensures i < 31 && Known(i) ==> FieldAt(present, size, i) == Some(Place(i))
  {
    hide Bit, Ends, Place, Known, Info, RoundUp;
    NoEnds();
    if i > 0 {
      AllPresent(present, size, i - 1);
      NextEnds(i - 1);
    }
    if i < 31 { NextEnds(i); }
  }

  lemma NoEnds()
    ensures Ends(0) == 0
  {
  }

  // ---------------------------------------------------------------- the presence words

  function Word(hdr: seq<u8>, at: nat): (w: u32)
    requires at + 4 <= |hdr|
  {
    hdr[at] as int + 0x100 * hdr[at + 1] as int + 0x1_0000 * hdr[at + 2] as int + 0x100_0000 * hdr[at + 3] as int
  }

  function ItLen(hdr: seq<u8>): nat
    requires |hdr| >= HEADER_SIZE
  {
    hdr[2] as int + 0x100 * hdr[3] as int
  }

  const TWO32 := 0x1_0000_0000

  /** What the header's length leaves behind its fixed part, in 32 bits: below eight it wraps. */
  function Remaining(len: nat): (r: u32) { (len - HEADER_SIZE) % TWO32 }

  /** The bytes from a header on: the fixed part, and all of the header if its length field covers the
      fixed part. If it does not, nothing stops the walk over the presence words but one that announces
      no other. */
  ghost predicate Header(hdr: seq<u8>)
  {
    && HEADER_SIZE <= |hdr| <= TWO32
    && if ItLen(hdr) >= HEADER_SIZE then ItLen(hdr) <= |hdr|
       else exists k: nat :: LastWord(hdr, k)
  }

  predicate LastWord(hdr: seq<u8>, k: nat) { 4 * k + 8 <= |hdr| && !Extended(hdr, k) }

  /** Is the k-th presence word followed by another? */
  predicate Extended(hdr: seq<u8>, k: nat)
    requires 4 * k + 8 <= |hdr|
  {
    Bit(Word(hdr, 4 * k + 4), IEEE80211_RADIOTAP_EXT)
  }

  /** The k-th presence word is the last: the earlier ones announce another, and it does not, or has
      no room for one. The field area starts behind it. */
  predicate WordsEnd(hdr: seq<u8>, k: nat, fields: nat, size: nat)
  {
    && fields == HEADER_SIZE + 4 * k <= |hdr|
    && (forall j: nat :: j < k ==> Extended(hdr, j))
    && (!Extended(hdr, k) || size < 4)
  }

  /** Seen from the start of the header, a field is aligned too, except an eight-byte field behind an
      odd number of additional presence words. */
  lemma AlignedInHeader(hdr: seq<u8>, k: nat, fields: nat, present: u32, size: nat, i: nat)
    requires WordsEnd(hdr, k, fields, size) && FieldAt(present, size, i).Some?
    ensures Info(i).align > 0
    ensures (fields + FieldAt(present, size, i).value) % Info(i).align == 0 <==> Info(i).align < 8 || k % 2 == 0
  {
    hide FieldAt, Info;
    FoundInside(present, size, i);
    KnownAlign(i);
    FourK(k, FieldAt(present, size, i).value, Info(i).align);
  }

  lemma KnownAlign(i: nat)
    ensures Info(i).align == 0 || Info(i).align == 1 || Info(i).align == 2 || Info(i).align == 4 || Info(i).align == 8
  {
  }

  lemma FourK(k: nat, v: nat, a: nat)
    requires (a == 1 || a == 2 || a == 4 || a == 8) && v % a == 0
    ensures (HEADER_SIZE + 4 * k + v) % a == 0 <==> a < 8 || k % 2 == 0
  {
    var t := HEADER_SIZE + 4 * k + v;
    var h, odd := k / 2, k % 2;
    var q := v / a;
    if a == 8 {
      DivUnique(t, 8, 1 + h + q, 4 * odd);
    } else if a == 4 {
      DivUnique(t, 4, 2 + k + q, 0);
    } else if a == 2 {
      DivUnique(t, 2, 4 + 2 * k + q, 0);
    }
  }

  class Parser {
    const hdr: seq<u8>
    const present: u32
    const fields: nat
    const fieldsLen: nat
    var idx: nat
    var offset: nat

    /** The cursor stands where the fields before idx end. */
    predicate Valid()
      reads this
    {
      idx <= 32 && EndOfFields(present, fieldsLen, idx) == Some(offset)
    }

    /** wl_rtapParseInit. The field area begins after the presence words, and it ends with the header
        if and only if the length field covers the fixed part. */
    constructor (header: seq<u8>)
      requires Header(header)
      ensures Valid() && hdr == header && present == Word(header, 4)
      ensures fields + fieldsLen == ItLen(header) + if ItLen(header) < HEADER_SIZE then TWO32 else 0
      ensures fields + fieldsLen <= ItLen(header) <==> ItLen(header) >= HEADER_SIZE
      ensures exists k: nat :: WordsEnd(header, k, fields, fieldsLen)
    {
      hide Bit, Word;
      var len := ItLen(header);
      ghost var last: nat := 0;
      if len < HEADER_SIZE { last :| LastWord(header, last); }
      var rlen: int := Remaining(len);
      var presentWord := 4;
      ghost var k: nat := 0;
      while Bit(Word(header, presentWord), IEEE80211_RADIOTAP_EXT) && rlen >= 4
        invariant presentWord == 4 + 4 * k && rlen == Remaining(len) - 4 * k >= 0
        invariant len < HEADER_SIZE ==> k <= last
        invariant 4 * k + 8 <= |header|
        invariant forall j: nat :: j < k ==> Extended(header, j)
        decreases rlen
      {
        assert Extended(header, k);
        presentWord := presentWord + 4;
        rlen := rlen - 4;
        k := k + 1;
      }
      assert WordsEnd(header, k, presentWord + 4, rlen);
      hdr := header;
      present := Word(header, 4);
      fields := presentWord + 4;
      fieldsLen := rlen;
      idx, offset := 0, 0;
    }

    /** wl_rtapParseReset. */
    method Reset()
      modifies this`idx, this`offset
      ensures idx == 0 && offset == 0
    {
      idx := 0;
      offset := 0;
    }

    /** wl_rtapParseFindField: wherever earlier searches left the cursor, the answer is that of a
        search from the start. */
    method FindField(search: nat) returns (ptr: Option<nat>)
      requires Valid()
      modifies this`idx, this`offset
      ensures Valid()
      ensures ptr == match FieldAt(present, fieldsLen, search) case None => None case Some(at) => Some(fields + at)
    {
      hide RoundUp, Bit, Info;
      ptr := None;
      if search > IEEE80211_RADIOTAP_EXT { return; }
      if search < idx { Reset(); }
      var i, at := idx, offset;
      while i <= search
        invariant i <= search + 1 && EndOfFields(present, fieldsLen, i) == Some(at)
        invariant i <= search ==> ptr == None
        invariant i == search + 1 ==>
          ptr == match FieldAt(present, fieldsLen, search) case None => None case Some(a) => Some(fields + a)
      {
        if Bit(present, i) {
          if Info(i).align == 0 {
            if i < search { BlockedStays(present, fieldsLen, i + 1, search); }
            break;
          }
          var fieldOffset := RoundUp(at, Info(i).align);
          if fieldOffset + Info(i).len > fieldsLen {
            if i < search { BlockedStays(present, fieldsLen, i + 1, search); }
            break;
          }
          if i == search { ptr := Some(fields + fieldOffset); }
          at := fieldOffset + Info(i).len;
        }
        i := i + 1;
      }
      idx := i;
      offset := at;
    }
  }

  /** A timestamp field (number 0) behind one additional presence word. */
  const WITH_TIMESTAMP: seq<u8> := [0, 0, 20, 0, 1, 0, 0, 0x80, 0, 0, 0, 0, 1, 2, 3, 4, 5, 6, 7, 8]

  lemma TimestampWords(k: nat, fields: nat, size: nat)
    requires WordsEnd(WITH_TIMESTAMP, k, fields, size) && fields + size == 20
    ensures Word(WITH_TIMESTAMP, 4) == 0x8000_0001 && k == 1 && fields == 12 && size == 8
  {
    hide Bit;
    TopAndLowest();
    BitOfZero(IEEE80211_RADIOTAP_EXT);
    assert Extended(WITH_TIMESTAMP, 0) && !Extended(WITH_TIMESTAMP, 1);
  }

  lemma TopAndLowest()
    ensures Bit(0x8000_0001, 31) && Bit(0x8000_0001, 0)
  {
    Pow2Values();
    ShlOne(31);
    JoinBit(1, 1, 31, 31);
  }

  /** Such a header: the parser finds the timestamp, and not at a multiple of eight from the start. */
  method MisalignedTimestamp() returns (ptr: Option<nat>)
    ensures ptr == Some(12) && 12 % Info(0).align != 0
  {
    hide Bit, Word;
    var p := new Parser(WITH_TIMESTAMP);
    ghost var k: nat :| WordsEnd(WITH_TIMESTAMP, k, p.fields, p.fieldsLen);
    TimestampWords(k, p.fields, p.fieldsLen);
    TopAndLowest();
    ptr := p.FindField(0);
  }

  lemma SixBits()
    ensures !Bit(6, 0) && Bit(6, 1) && Bit(6, 2) && !Bit(6, IEEE80211_RADIOTAP_EXT)
  {
    BitOfZero(IEEE80211_RADIOTAP_EXT - 3);
    assert Bit(6, 31) == Bit(3, 30) == Bit(1, 29) == Bit(0, 28);
  }

  lemma WordSix(header: seq<u8>)
    requires |header| >= 8 && header[4..8] == [6, 0, 0, 0]
    ensures Word(header, 4) == 6
  {
    assert header[4] == 6 && header[5] == 0 && header[6] == 0 && header[7] == 0 by {
      assert forall i :: 0 <= i < 4 ==> header[4 + i] == header[4..8][i];
    }
  }

  lemma TwoFields(present: u32, size: nat)
    requires present == 6 && size == 2
    ensures FieldAt(present, size, 2) == Some(1)
  {
    hide Bit, RoundUp;
    SixBits();
    RoundUpLeast(0, 1);
    RoundUpLeast(1, 1);
    assert EndOfFields(present, size, 1) == Some(0);
    assert EndOfFields(present, size, 2) == Some(1);
  }

  /** Flags at byte eight, and behind them the rate, which ends the header. */
  method RateBehindFlags(flags: u8, rate: u8) returns (ptr: Option<nat>)
    ensures ptr == Some(9)
  {
    hide Bit, Word, EndOfFields;
    var header: seq<u8> := [0, 0, 10, 0, 6, 0, 0, 0, flags, rate];
    SixBits();
    WordSix(header);
    var p := new Parser(header);
    ghost var k: nat :| WordsEnd(header, k, p.fields, p.fieldsLen);
    TwoFields(p.present, p.fieldsLen);
    ptr := p.FindField(2);
  }

  /** A length field of four: the field area that the parser sees runs over the end of the header by
      2^32 bytes. */
  method WrappedLength() returns (p: Parser)
    ensures p.fields == 8 && p.fieldsLen == TWO32 - 4
  {
    hide Bit;
    var header: seq<u8> := [0, 0, 4, 0, 0, 0, 0, 0];
    BitOfZero(IEEE80211_RADIOTAP_EXT);
    assert Word(header, 4) == 0 && LastWord(header, 0);
    p := new Parser(header);
    ghost var k: nat :| WordsEnd(header, k, p.fields, p.fieldsLen);
  }
}
