/** Walks over 802.11 information elements, one byte of id, one of length, then the data
    (bcmutils.c: bcm_parse_tlvs and its users; bcmtlv.h). Memory is a sequence of bytes and a
    pointer an index into it. */
module Tlv {
  import opened Bits
  import opened Common

  const TLV_HDR_LEN := 2
  const DOT11_MNG_VS_ID := 221
  const DOT11_MNG_ID_EXT_ID := 255
  const DOT11_OUI_LEN := 3

  type Memory = seq<u8>

  /** bcm_valid_tlv: does the element at elt fit into the bytes up to end? */
  predicate Valid(m: Memory, elt: int, end: nat)
  {
    0 <= elt && end <= |m| && elt + TLV_HDR_LEN <= end && elt + TLV_HDR_LEN + m[elt + 1] <= end
  }

  function Id(m: Memory, elt: int, end: nat): u8
    requires Valid(m, elt, end)
  {
    m[elt]
  }

  function Data(m: Memory, elt: int, end: nat): Memory
    requires Valid(m, elt, end)
  {
    m[elt + 2..elt + 2 + m[elt + 1]]
  }

  function After(m: Memory, elt: int, end: nat): (next: nat)
    requires Valid(m, elt, end)
    ensures elt < next <= end
  {
    elt + TLV_HDR_LEN + m[elt + 1]
  }

  // ---------------------------------------------------------------- reference: the elements of a buffer

  /** Where the elements begin that follow each other from elt on, as long as they fit. */
  function Starts(m: Memory, elt: nat, end: nat): seq<nat>
    decreases end - elt
  {
    if Valid(m, elt, end) then [elt] + Starts(m, After(m, elt, end), end) else []
  }

  /** What is looked for: an element with an id, extended ids being counted on from 255; with an id,
      an OUI and a type byte; or the vendor's, with a three-byte OUI and more bytes. */
  datatype Query = WithKey(key: nat) | WithOui(tag: u8, oui: Memory, type_: u8) | OfVendor(voui: Memory, more: Memory)

  predicate Matches(m: Memory, elt: nat, end: nat, q: Query)
    requires Valid(m, elt, end)
  {
    var id, data := Id(m, elt, end), Data(m, elt, end);
    match q
    case WithKey(key) => id == key || (id == DOT11_MNG_ID_EXT_ID && data != [] && DOT11_MNG_ID_EXT_ID + data[0] == key)
    case WithOui(tag, oui, type_) => id == tag && oui + [type_] <= data
    case OfVendor(voui, more) => id == DOT11_MNG_VS_ID && voui + more <= data
  }

  function First(m: Memory, elt: nat, end: nat, q: Query): (r: int)
    ensures r == NULL || (elt <= r && Valid(m, r, end) && Matches(m, r, end, q))
    decreases end - elt
  {
    if !Valid(m, elt, end) then NULL
    else if Matches(m, elt, end, q) then elt
    else First(m, After(m, elt, end), end, q)
  }

  lemma {:induction false} StartsValid(m: Memory, elt: nat, end: nat)
    ensures forall k :: 0 <= k < |Starts(m, elt, end)| ==> Valid(m, Starts(m, elt, end)[k], end)
    decreases end - elt
  {
    if Valid(m, elt, end) { StartsValid(m, After(m, elt, end), end); }
  }

  /** The elements lie end to end, and behind the last one nothing more fits. */
  lemma {:induction false} StartsMaximal(m: Memory, elt: nat, end: nat)
    requires Valid(m, elt, end)
    ensures var s := Starts(m, elt, end);
      && s != [] && s[0] == elt && Valid(m, s[|s| - 1], end)
      && !Valid(m, After(m, s[|s| - 1], end), end)
      && forall k :: 0 <= k < |s| - 1 ==> Valid(m, s[k], end) && s[k + 1] == After(m, s[k], end)
    decreases end - elt
  {
    var next := After(m, elt, end);
    var s, t := Starts(m, elt, end), Starts(m, next, end);
    assert s == [elt] + t;
    if Valid(m, next, end) {
      StartsMaximal(m, next, end);
      hide Starts, After, Valid;
      forall k | 0 <= k < |s| - 1 ensures Valid(m, s[k], end) && s[k + 1] == After(m, s[k], end) {
        assert s[k + 1] == t[k];
        if k > 0 { assert s[k] == t[k - 1]; }
      }
      assert s[|s| - 1] == t[|t| - 1];
    }
  }

  predicate NoneBefore(m: Memory, s: seq<nat>, k: nat, end: nat, q: Query)
    requires k <= |s| && forall j :: 0 <= j < |s| ==> Valid(m, s[j], end)
  {
    forall j :: 0 <= j < k ==> !Matches(m, s[j], end, q)
  }

  predicate FoundAt(m: Memory, s: seq<nat>, k: nat, r: int, end: nat, q: Query)
    requires forall j :: 0 <= j < |s| ==> Valid(m, s[j], end)
  {
    k < |s| && s[k] == r && Matches(m, s[k], end, q) && NoneBefore(m, s, k, end, q)
  }

  /** r is the first of the elements s that matches, or none does and r is null. */
  ghost predicate IsFirst(m: Memory, s: seq<nat>, r: int, end: nat, q: Query)
    requires forall j :: 0 <= j < |s| ==> Valid(m, s[j], end)
  {
    if r == NULL then NoneBefore(m, s, |s|, end, q) else exists k: nat :: FoundAt(m, s, k, r, end, q)
  }

  lemma IsFirstStep(m: Memory, elt: nat, t: seq<nat>, r: int, end: nat, q: Query)
    requires Valid(m, elt, end) && forall j :: 0 <= j < |t| ==> Valid(m, t[j], end)
    requires if Matches(m, elt, end, q) then r == elt else IsFirst(m, t, r, end, q)
    ensures var s := [elt] + t; (forall j :: 0 <= j < |s| ==> Valid(m, s[j], end)) && IsFirst(m, s, r, end, q)
  {
    var s := [elt] + t;
    if Matches(m, elt, end, q) {
      assert FoundAt(m, s, 0, r, end, q);
    } else if r == NULL {
      assert NoneBefore(m, s, |s|, end, q);
    } else {
      var k: nat :| FoundAt(m, t, k, r, end, q);
      assert FoundAt(m, s, k + 1, r, end, q);
    }
  }

  /** First is the first element that matches, and fails exactly when none does. */
  lemma {:induction false} FirstIsFirst(m: Memory, elt: nat, end: nat, q: Query)
    ensures (StartsValid(m, elt, end); IsFirst(m, Starts(m, elt, end), First(m, elt, end, q), end, q))
    decreases end - elt
  {
    StartsValid(m, elt, end);
    if Valid(m, elt, end) {
      var next := After(m, elt, end);
      StartsValid(m, next, end);
      FirstIsFirst(m, next, end, q);
      hide IsFirst, Matches, NoneBefore;
      IsFirstStep(m, elt, Starts(m, next, end), First(m, elt, end, q), end, q);
    }
  }

  /** An id of one byte is never an extended one, so the extra clause adds no match. */
  lemma PlainKey(m: Memory, elt: nat, end: nat, tag: u8)
    requires Valid(m, elt, end)
    ensures Matches(m, elt, end, WithKey(tag)) <==> Id(m, elt, end) == tag
  {
    if Data(m, elt, end) != [] {
      var first: int := Data(m, elt, end)[0];
      assert first == m[elt + 2] && 0 <= m[elt + 2];
    }
  }

  lemma DataSlice(m: Memory, elt: nat, end: nat, i: nat, j: nat)
    requires Valid(m, elt, end) && i <= j <= |Data(m, elt, end)|
    ensures Data(m, elt, end)[i..j] == m[elt + 2 + i..elt + 2 + j]
  {
    SliceOfSlice(m, elt + 2, elt + 2 + |Data(m, elt, end)|, i, j);
  }

  lemma PrefixTest(data: Memory, oui: Memory, type_: u8)
    ensures oui + [type_] <= data <==> (|data| > |oui| && data[..|oui|] == oui && data[|oui|] == type_)
  {
    if |data| > |oui| {
      assert data[..|oui| + 1] == data[..|oui|] + [data[|oui|]];
      if oui + [type_] <= data {
        assert data[..|oui| + 1] == oui + [type_];
        assert data[..|oui|] == (oui + [type_])[..|oui|];
      }
    }
  }

  /** Does an element begin here and fit, told by its bytes? */
  predicate FitsAt(m: Memory, at: nat, end: nat)
    requires end <= |m|
  {
    at + 2 <= end && at + 2 + m[at + 1] <= end
  }

  /** When the search stops at the element at hand, in bytes: by its id, or by an extended id, which is its
      first byte of data counted on from 255; by id, OUI and type; as the vendor's. */
  predicate StopsAt(m: Memory, at: nat, end: nat, q: Query)
    requires end <= |m| && FitsAt(m, at, end)
  {
    match q
    case WithKey(key) => m[at] == key || (m[at] == 255 && m[at + 1] > 0 && key == 255 + m[at + 2] as int)
    case WithOui(tag, oui, type_) =>
      m[at] == tag && m[at + 1] > |oui| && m[at + 2..at + 2 + |oui|] == oui && m[at + 2 + |oui|] == type_
    case OfVendor(voui, more) =>
      var n := |voui| + |more|;
      m[at] == 221 && m[at + 1] >= n && m[at + 2..at + 2 + n] == voui + more
  }

  lemma StopsByKey(m: Memory, at: nat, end: nat, key: nat)
    requires end <= |m| && FitsAt(m, at, end)
    ensures Matches(m, at, end, WithKey(key)) == StopsAt(m, at, end, WithKey(key))
  {
    if m[at + 1] > 0 { assert Data(m, at, end)[0] == m[at + 2]; }
  }

  lemma StopsByOui(m: Memory, at: nat, end: nat, tag: u8, oui: Memory, type_: u8)
    requires end <= |m| && FitsAt(m, at, end)
    ensures Matches(m, at, end, WithOui(tag, oui, type_)) == StopsAt(m, at, end, WithOui(tag, oui, type_))
  {
    var data := Data(m, at, end);
    PrefixTest(data, oui, type_);
    if m[at + 1] > |oui| {
      DataSlice(m, at, end, 0, |oui|);
      assert data[0..|oui|] == data[..|oui|];
      assert data[|oui|] == m[at + 2 + |oui|];
    }
  }

  lemma StopsByVendor(m: Memory, at: nat, end: nat, voui: Memory, more: Memory)
    requires end <= |m| && FitsAt(m, at, end)
    ensures Matches(m, at, end, OfVendor(voui, more)) == StopsAt(m, at, end, OfVendor(voui, more))
  {
    var data, n := Data(m, at, end), |voui| + |more|;
    if m[at + 1] >= n {
      DataSlice(m, at, end, 0, n);
      assert data[0..n] == data[..n];
      assert |voui + more| == n;
      if voui + more <= data { assert data[..n] == voui + more; }
    }
  }

  /** The search from one element to the next, told by bytes only. */
  lemma SearchInBytes(m: Memory, at: nat, end: nat, q: Query)
    requires end <= |m|
    ensures First(m, at, end, q) ==
      if !FitsAt(m, at, end) then NULL
      else if StopsAt(m, at, end, q) then at
      else First(m, at + 2 + m[at + 1], end, q)
  {
    hide Matches, StopsAt;
    if FitsAt(m, at, end) {
      match q
      case WithKey(key) => StopsByKey(m, at, end, key);
      case WithOui(tag, oui, type_) => StopsByOui(m, at, end, tag, oui, type_);
      case OfVendor(voui, more) => StopsByVendor(m, at, end, voui, more);
    }
  }

  // ---------------------------------------------------------------- the walks

  /** bcm_parse_tlvs. */
  method ParseTlvs(m: Memory, buf: int, buflen: nat, key: nat) returns (elt: int)
    requires buf == NULL || 0 <= buf <= buf + buflen <= |m|
    ensures elt == if buf == NULL then NULL else First(m, buf, buf + buflen, WithKey(key))
  {
    elt := buf;
    if elt == NULL { return NULL; }
    var totlen := buflen;
    while totlen >= TLV_HDR_LEN
      invariant 0 <= elt && elt + totlen == buf + buflen
      invariant First(m, elt, buf + buflen, WithKey(key)) == First(m, buf, buf + buflen, WithKey(key))
    {
      var len: nat := m[elt + 1];
      if totlen < len + TLV_HDR_LEN { break; }
      if m[elt] == key || (m[elt] == DOT11_MNG_ID_EXT_ID && len > 0 && m[elt + 2] + DOT11_MNG_ID_EXT_ID == key) {
        assert Data(m, elt, buf + buflen) != [] ==> Data(m, elt, buf + buflen)[0] == m[elt + 2];
        return;
      }
      elt := elt + (len + TLV_HDR_LEN);
      totlen := totlen - (len + TLV_HDR_LEN);
    }
    elt := NULL;
  }

  /** bcm_tlv_buffer_advance_to. */
  method AdvanceTo(m: Memory, elt: int, buf: int, buflen: nat) returns (buf': int, buflen': nat)
    requires buf == NULL || 0 <= buf <= buf + buflen <= |m|
    ensures if buf != NULL && buf <= elt && Valid(m, elt, buf + buflen)
      then buf' == elt && buf' + buflen' == buf + buflen
      else buf' == NULL && buflen' == 0
  {
    if buf != NULL && 0 < buflen && buf <= elt < buf + buflen {
      var newBuflen := buflen - (elt - buf);
      if TLV_HDR_LEN <= newBuflen && TLV_HDR_LEN + m[elt + 1] <= newBuflen {
        return elt, newBuflen;
      }
    }
    return NULL, 0;
  }

  /** bcm_tlv_buffer_advance_past: to the element after elt, or to nothing if there is none. */
  method AdvancePast(m: Memory, elt: int, buf: int, buflen: nat) returns (buf': int, buflen': nat)
    requires buf == NULL || 0 <= buf <= buf + buflen <= |m|
    ensures buf' == NULL ==> buflen' == 0
    ensures buf' != NULL <==> (buf != NULL && buf <= elt && Valid(m, elt, buf + buflen) &&
        Valid(m, After(m, elt, buf + buflen), buf + buflen))
    ensures buf' != NULL ==> buf' == After(m, elt, buf + buflen) && buf' + buflen' == buf + buflen
  {
    buf', buflen' := AdvanceTo(m, elt, buf, buflen);
    if buflen' == 0 { return; }
    var next := elt + 2 + m[elt + 1];
    buf', buflen' := AdvanceTo(m, next, buf', buflen');
  }

  /** bcm_parse_tlvs_advance with BCM_TLV_ADVANCE_TO. */
  method ParseTlvsAdvanceTo(m: Memory, buf: int, buflen: nat, key: nat) returns (elt: int, buf': int, buflen': nat)
    requires buf == NULL || 0 <= buf <= buf + buflen <= |m|
    ensures elt == if buf == NULL then NULL else First(m, buf, buf + buflen, WithKey(key))
    ensures if elt == NULL then buf' == buf && buflen' == buflen else buf' == elt && buf' + buflen' == buf + buflen
  {
    elt := ParseTlvs(m, buf, buflen, key);
    buf', buflen' := buf, buflen;
    if elt == NULL { return; }
    buf', buflen' := AdvanceTo(m, elt, buf, buflen);
  }

  /** Nothing that a query with this tag could match lies before the next element with the tag. */
  lemma {:induction false} SkipToTag(m: Memory, elt: nat, end: nat, tag: u8, oui: Memory, type_: u8)
    ensures var e := First(m, elt, end, WithKey(tag));
      First(m, elt, end, WithOui(tag, oui, type_)) == if e < 0 then NULL else First(m, e, end, WithOui(tag, oui, type_))
    decreases end - elt
  {
    if Valid(m, elt, end) {
      PlainKey(m, elt, end, tag);
      if !Matches(m, elt, end, WithKey(tag)) { SkipToTag(m, After(m, elt, end), end, tag, oui, type_); }
    }
  }

  /** The comparison bcm_find_ie makes with an element. */
  method CompareOui(m: Memory, elt: nat, ghost end: nat, oui: Memory, type_: u8) returns (same: bool)
    requires Valid(m, elt, end)
    ensures same == (oui + [type_] <= Data(m, elt, end))
  {
    ghost var data := Data(m, elt, end);
    PrefixTest(data, oui, type_);
    var len: nat := m[elt + 1];
    if len > |oui| {
      DataSlice(m, elt, end, 0, |oui|);
      DataSlice(m, elt, end, |oui|, |oui| + 1);
      assert data[|oui|] == data[|oui|..|oui| + 1][0];
    }
    same := len > |oui| && m[elt + 2..elt + 2 + |oui|] == oui && m[elt + 2 + |oui|] == type_;
  }

  /** bcm_find_ie: jumps to the next element with the tag, then past it. */
  method FindIe(m: Memory, tlvs: int, tlvsLen: nat, tag: u8, oui: Memory, type_: u8) returns (ie: int)
    requires tlvs == NULL || 0 <= tlvs <= tlvs + tlvsLen <= |m|
    ensures ie == if tlvs == NULL then NULL else First(m, tlvs, tlvs + tlvsLen, WithOui(tag, oui, type_))
  {
    hide Data, After, Valid;
    if tlvs == NULL {
      var elt, buf, buflen := ParseTlvsAdvanceTo(m, tlvs, tlvsLen, tag);
      return NULL;
    }
    ghost var end: nat := tlvs + tlvsLen;
    ghost var q := WithOui(tag, oui, type_);
    var buf: int, buflen: nat := tlvs, tlvsLen;
    while true
      invariant buf == NULL || 0 <= buf <= buf + buflen == end
      invariant First(m, tlvs, end, q) == if buf == NULL then NULL else First(m, buf, end, q)
      decreases if buf == NULL then 0 else 1 + end - buf
    {
      ghost var buf0 := buf;
      if buf != NULL {
        SkipToTag(m, buf, end, tag, oui, type_);
        assert buf + buflen == end;
      }
      ghost var found := if buf == NULL then NULL else First(m, buf, end, WithKey(tag));
      var elt;
      elt, buf, buflen := ParseTlvsAdvanceTo(m, buf, buflen, tag);
      if elt == NULL { return NULL; }
      assert elt == found && buf0 != NULL;
      assert 0 <= buf0 <= elt && Valid(m, elt, end);
      assert First(m, buf0, end, q) == First(m, elt, end, q);
      PlainKey(m, elt, end, tag);
      var same := CompareOui(m, elt, end, oui, type_);
      if same { return elt; }
      ghost var next := After(m, elt, end);
      assert First(m, elt, end, q) == First(m, next, end, q);
      buf, buflen := AdvancePast(m, elt, buf, buflen);
    }
    ie := NULL;
  }

  /** bcm_next_tlv. */
  method NextTlv(m: Memory, elt: int, buflen: nat) returns (next: int, buflen': nat)
    requires 0 <= elt <= elt + buflen <= |m|
    ensures Valid(m, elt, elt + buflen) ==> After(m, elt, elt + buflen) + buflen' == elt + buflen
    ensures !Valid(m, elt, elt + buflen) ==> buflen' == buflen
    ensures next == if Valid(m, elt, elt + buflen) && Valid(m, After(m, elt, elt + buflen), elt + buflen)
      then After(m, elt, elt + buflen) else NULL
  {
    buflen' := buflen;
    if !(TLV_HDR_LEN <= buflen && TLV_HDR_LEN + m[elt + 1] <= buflen) { return NULL, buflen'; }
    var len: nat := TLV_HDR_LEN + m[elt + 1];
    next := elt + len;
    buflen' := buflen' - len;
    if !(TLV_HDR_LEN <= buflen' && TLV_HDR_LEN + m[next + 1] <= buflen') { return NULL, buflen'; }
  }

  lemma VendorTest(data: Memory, voui: Memory, more: Memory)
    requires |voui| == DOT11_OUI_LEN
    ensures voui + more <= data <==> (
      |data| >= DOT11_OUI_LEN + |more| && data[..DOT11_OUI_LEN] == voui &&
      data[DOT11_OUI_LEN..DOT11_OUI_LEN + |more|] == more)
  {
    var n := DOT11_OUI_LEN + |more|;
    if |data| >= n {
      assert data[..n] == data[..DOT11_OUI_LEN] + data[DOT11_OUI_LEN..n];
      if voui + more <= data {
        assert data[..n] == voui + more;
        assert data[..DOT11_OUI_LEN] == (voui + more)[..DOT11_OUI_LEN];
        assert data[DOT11_OUI_LEN..n] == (voui + more)[DOT11_OUI_LEN..];
      }
    }
  }

  /** The comparison bcm_find_vendor_ie makes with an element. */
  method CompareVendor(m: Memory, elt: nat, ghost end: nat, voui: Memory, type_: Memory) returns (same: bool)
    requires Valid(m, elt, end) && |voui| == DOT11_OUI_LEN
    ensures same == Matches(m, elt, end, OfVendor(voui, type_))
  {
    VendorTest(Data(m, elt, end), voui, type_);
    var len: nat := m[elt + 1];
    if m[elt] == DOT11_MNG_VS_ID && len >= DOT11_OUI_LEN + |type_| {
      DataSlice(m, elt, end, 0, DOT11_OUI_LEN);
      DataSlice(m, elt, end, DOT11_OUI_LEN, DOT11_OUI_LEN + |type_|);
      if m[elt + 2..elt + 2 + DOT11_OUI_LEN] == voui {
        return |type_| == 0 || m[elt + 5..elt + 5 + |type_|] == type_;
      }
    }
    same := false;
  }

  /** bcm_find_vendor_ie: steps from element to element. type is not looked at when it is empty. */
  method FindVendorIe(m: Memory, tlvs: int, tlvsLen: nat, voui: Memory, type_: Memory) returns (ie: int)
    requires tlvs == NULL || 0 <= tlvs <= tlvs + tlvsLen <= |m|
    requires |voui| == DOT11_OUI_LEN
    ensures ie == if tlvs == NULL then NULL else First(m, tlvs, tlvs + tlvsLen, OfVendor(voui, type_))
  {
    ie := tlvs;
    if ie == NULL || !(TLV_HDR_LEN <= tlvsLen && TLV_HDR_LEN + m[ie + 1] <= tlvsLen) { return NULL; }
    ghost var end: nat := tlvs + tlvsLen;
    ghost var q := OfVendor(voui, type_);
    hide Data, After, Valid;
    var buflen := tlvsLen;
    while true
      invariant 0 <= ie && ie + buflen == end && Valid(m, ie, end)
      invariant First(m, ie, end, q) == First(m, tlvs, end, q)
      decreases buflen
    {
      var same := CompareVendor(m, ie, end, voui, type_);
      if same { return; }
      ie, buflen := NextTlv(m, ie, buflen);
      if ie == NULL { return NULL; }
    }
  }

  /** For the vendor's id, a three-byte OUI and one type byte, the two searches find the same element
      in any buffer, well-formed or not. */
  lemma {:induction false} SearchesAgree(m: Memory, elt: nat, end: nat, oui: Memory, type_: u8)
    requires |oui| == DOT11_OUI_LEN
    ensures First(m, elt, end, WithOui(DOT11_MNG_VS_ID, oui, type_)) == First(m, elt, end, OfVendor(oui, [type_]))
    decreases end - elt
  {
    if Valid(m, elt, end) {
      SearchesAgree(m, After(m, elt, end), end, oui, type_);
    }
  }
}
