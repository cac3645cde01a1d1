/** The IPv6 address printer (bcmutils.c: bcm_ipv6_ntoa) and a reader for its text. An address is its
    eight groups of sixteen bits. */
module Ipv6 {
  import opened Bits
  import opened Common

  const GROUPS := 8

  // ---------------------------------------------------------------- numbers as text

  predicate Base(base: nat) { base == 10 || base == 16 }

  function DigitChar(d: nat): char
    requires d < 16
  {
    "0123456789abcdef"[d]
  }

  function DigitValue(c: char): int
  {
    if '0' <= c <= '9' then c as int - '0' as int
    else if 'a' <= c <= 'f' then c as int - 'a' as int + 10
    else if 'A' <= c <= 'F' then c as int - 'A' as int + 10
    else -1
  }

  /** A number with no leading zeros, in lower case. */
  function Digits(v: nat, base: nat): (s: string)
    requires Base(base)
    ensures |s| > 0
  {
    if v < base then [DigitChar(v)] else Digits(v / base, base) + [DigitChar(v % base)]
  }

  /** The number a text stands for, negative if it is none. */
  function Number(s: string, base: nat): int
    requires Base(base)
    decreases |s|
  {
    if s == "" then -1
    else
      var d := DigitValue(s[|s| - 1]);
      if d < 0 || d >= base then -1
      else if |s| == 1 then d
      else
        var high := Number(s[..|s| - 1], base);
        if high < 0 then -1 else base * high + d
  }

  lemma DigitRead(d: nat)
    requires d < 16
    ensures DigitValue(DigitChar(d)) == d && DigitChar(d) != ':' && DigitChar(d) != '.' && DigitChar(d) != '\0'
    ensures DigitChar(d) == '0' <==> d == 0
    ensures LowerHex(DigitChar(d))
  {
  }

  predicate LowerHex(c: char) { '0' <= c <= '9' || 'a' <= c <= 'f' }

  lemma {:induction false} NumberRead(v: nat, base: nat)
    requires Base(base)
    ensures Number(Digits(v, base), base) == v
  {
    hide DigitChar, DigitValue;
    if v < base {
      DigitRead(v);
    } else {
      var q, d := v / base, v % base;
      var s, high := Digits(v, base), Digits(q, base);
      DigitRead(d);
      NumberRead(q, base);
      assert s[..|s| - 1] == high && s[|s| - 1] == DigitChar(d);
      assert Number(s, base) == base * q + d;
    }
  }

  predicate DigitText(s: string)
  {
    forall k :: 0 <= k < |s| ==> s[k] != ':' && s[k] != '.' && s[k] != '\0' && LowerHex(s[k])
  }

  lemma {:induction false} DigitsPlain(v: nat, base: nat)
    requires Base(base)
    ensures DigitText(Digits(v, base))
  {
    hide DigitChar;
    DigitRead(v % base);
    if v < base { DigitRead(v); } else { DigitsPlain(v / base, base); }
  }

  /** Leading zeros are suppressed (RFC 5952 section 4.1). */
  lemma {:induction false} NoLeadingZero(v: nat, base: nat)
    requires Base(base)
    ensures Digits(v, base)[0] == '0' <==> v == 0
    ensures v == 0 ==> Digits(v, base) == "0"
  {
    hide DigitChar;
    if v < base { DigitRead(v); } else { NoLeadingZero(v / base, base); }
  }

  function Hex(v: u16): string { Digits(v, 16) }

  lemma HexLength(v: u16)
    ensures 1 <= |Hex(v)| <= 4
  {
    var a := v / 16;
    var b := a / 16;
    var c := b / 16;
    hide DigitChar;
    assert |Digits(c, 16)| == 1;
    assert |Digits(b, 16)| <= 2;
    assert |Digits(a, 16)| <= 3;
  }

  function Quad(x: u16, y: u16): string
  {
    Digits(x / 0x100, 10) + "." + Digits(x % 0x100, 10) + "." + Digits(y / 0x100, 10) + "." + Digits(y % 0x100, 10)
  }

  lemma OctetLength(v: nat)
    requires v < 0x100
    ensures 1 <= |Digits(v, 10)| <= 3
  {
    var a := v / 10;
    hide DigitChar;
    assert |Digits(a / 10, 10)| == 1;
    assert |Digits(a, 10)| <= 2;
  }

  // ---------------------------------------------------------------- fields and colons

  function Join(fs: seq<string>): string
  {
    if fs == [] then "" else if |fs| == 1 then fs[0] else fs[0] + ":" + Join(fs[1..])
  }

  function Hexes(g: seq<u16>): (fs: seq<string>)
    ensures |fs| == |g| && forall k :: 0 <= k < |g| ==> fs[k] == Hex(g[k])
  {
    if g == [] then [] else [Hex(g[0])] + Hexes(g[1..])
  }

  lemma {:induction false} JoinMore(fs: seq<string>, f: string)
    ensures Join(fs + [f]) == if fs == [] then f else Join(fs) + ":" + f
    decreases |fs|
  {
    if fs == [] {
      assert fs + [f] == [f];
    } else {
      assert (fs + [f])[1..] == fs[1..] + [f];
      JoinMore(fs[1..], f);
      if |fs| == 1 { assert fs[1..] == []; }
    }
  }

  lemma {:induction false} HexesMore(g: seq<u16>, v: u16)
    ensures Hexes(g + [v]) == Hexes(g) + [Hex(v)]
  {
  }

  // ---------------------------------------------------------------- runs of zeros

  predicate ZeroRun(a: seq<u16>, s: nat, n: nat) { s + n <= |a| && forall k :: s <= k < s + n ==> a[k] == 0 }

  /** No run of zeros within the first end groups is better than the run of n from s on: none is
      longer, and none before it is as long. */
  ghost predicate BestUpTo(a: seq<u16>, end: nat, s: nat, n: nat)
  {
    forall t: nat, m: nat :: ZeroRun(a, t, m) && t + m <= end && m >= 2 ==> m <= n && (t < s ==> m < n)
  }

  /** The leftmost longest run of at least two zero groups is n groups from s on; n is zero if there
      is none (RFC 5952 sections 4.2.2 and 4.2.3). */
  ghost predicate Best(a: seq<u16>, s: nat, n: nat)
  {
    BestUpTo(a, |a|, s, n) && if n == 0 then s == |a| else n >= 2 && ZeroRun(a, s, n)
  }

  /** There is only one such run. */
  lemma BestIsUnique(a: seq<u16>, s: nat, n: nat, s': nat, n': nat)
    requires Best(a, s, n) && Best(a, s', n')
    ensures s == s' && n == n'
  {
    if n > 0 { assert ZeroRun(a, s, n); }
    if n' > 0 { assert ZeroRun(a, s', n'); }
  }

  /** The search of the printer: its first loop. */
  method FindRun(a: seq<u16>) returns (iMax: int, cntMax: nat)
    requires |a| == GROUPS
    ensures iMax == -1 ==> Best(a, |a|, 0)
    ensures iMax != -1 ==> iMax >= 0 && cntMax >= 2 && Best(a, iMax, cntMax)
  {
    var i: nat, cnt: nat := 0, 0;
    iMax, cntMax := -1, 1;
    while i < GROUPS
      invariant i <= GROUPS && cnt <= i && ZeroRun(a, i - cnt, cnt)
      invariant i - cnt > 0 ==> a[i - cnt - 1] != 0
      invariant iMax == -1 ==> cntMax == 1
      invariant iMax != -1 ==> iMax >= 0 && cntMax >= 2 && ZeroRun(a, iMax, cntMax) && iMax + cntMax <= i - cnt
      invariant BestUpTo(a, i - cnt, if iMax == -1 then 0 else iMax, cntMax)
    {
      if a[i] != 0 {
        CloseRun(a, i - cnt, cnt, if iMax == -1 then 0 else iMax, cntMax);
        if cnt > cntMax {
          cntMax := cnt;
          iMax := i - cnt;
        }
        cnt := 0;
        AfterNonzero(a, i, if iMax == -1 then 0 else iMax, cntMax);
      } else {
        cnt := cnt + 1;
      }
      i := i + 1;
    }
    CloseRun(a, i - cnt, cnt, if iMax == -1 then 0 else iMax, cntMax);
    if cnt > cntMax {
      cntMax := cnt;
      iMax := i - cnt;
    }
  }

  /** The runs up to the end of the maximal run of cnt groups from s0 on. */
  lemma CloseRun(a: seq<u16>, s0: nat, cnt: nat, s: nat, n: nat)
    requires ZeroRun(a, s0, cnt) && (s0 > 0 ==> a[s0 - 1] != 0) && BestUpTo(a, s0, s, n) && n >= 1
    requires s + n <= s0 || n == 1
    ensures cnt > n ==> BestUpTo(a, s0 + cnt, s0, cnt)
    ensures cnt <= n ==> BestUpTo(a, s0 + cnt, s, n)
  {
    forall t: nat, m: nat | ZeroRun(a, t, m) && t + m <= s0 + cnt && m >= 2
      ensures if cnt > n then m <= cnt && (t < s0 ==> m < cnt) else m <= n && (t < s ==> m < n)
    {
      if t + m > s0 {
        assert t >= s0;
      }
    }
  }

  lemma AfterNonzero(a: seq<u16>, i: nat, s: nat, n: nat)
    requires i < |a| && a[i] != 0 && BestUpTo(a, i, s, n)
    ensures BestUpTo(a, i + 1, s, n)
  {
    forall t: nat, m: nat | ZeroRun(a, t, m) && t + m <= i + 1 && m >= 2 ensures m <= n && (t < s ==> m < n) {
      if t + m == i + 1 { assert false; }
    }
  }

  // ---------------------------------------------------------------- the text of an address

  /** Is the address one of those written with a dotted quad at the end: ::ffff:0:a.b.c.d or
      ::ffff:a.b.c.d? s and n are its best run. */
  predicate Dotted(a: seq<u16>, s: nat, n: nat)
    requires |a| == GROUPS
  {
    s == 0 && ((n == 4 && a[4] == 0xffff && a[5] == 0) || (n == 5 && a[5] == 0xffff))
  }

  /** The fields behind the run. */
  function Right(a: seq<u16>, s: nat, n: nat): seq<string>
    requires |a| == GROUPS && s + n <= GROUPS
  {
    if Dotted(a, s, n) then Hexes(a[n..6]) + [Quad(a[6], a[7])] else Hexes(a[s + n..])
  }

  function Text(a: seq<u16>, s: nat, n: nat): string
    requires |a| == GROUPS && s + n <= GROUPS
  {
    if n == 0 then Join(Hexes(a)) else Join(Hexes(a[..s])) + "::" + Join(Right(a, s, n))
  }

  // ---------------------------------------------------------------- a reader (RFC 4291 section 2.2)

  function Find(s: string, c: char): (k: nat)
    ensures k <= |s| && (k < |s| ==> s[k] == c) && forall j :: 0 <= j < k ==> s[j] != c
  {
    if s == "" || s[0] == c then 0 else 1 + Find(s[1..], c)
  }

  predicate DoubleColon(s: string, k: nat)
    requires k + 1 < |s|
  {
    s[k] == ':' && s[k + 1] == ':'
  }

  /** The place of the first "::", or the length. */
  function FindDouble(s: string): (k: nat)
    ensures k <= |s| && (k < |s| ==> k + 2 <= |s| && DoubleColon(s, k))
    ensures forall j :: 0 <= j < k && j + 1 < |s| ==> !DoubleColon(s, j)
  {
    if |s| < 2 then |s|
    else if DoubleColon(s, 0) then 0
    else
      assert forall j :: 1 <= j && j + 1 < |s| ==> DoubleColon(s, j) == DoubleColon(s[1..], j - 1);
      1 + FindDouble(s[1..])
  }

  function ReadHex(f: string): Option<u16>
  {
    var v := Number(f, 16);
    if |f| <= 4 && 0 <= v < 0x1_0000 then Some(v) else None
  }

  function ReadOctet(f: string): Option<u8>
  {
    var v := Number(f, 10);
    if |f| <= 3 && 0 <= v < 0x100 then Some(v) else None
  }

  function ReadQuad(f: string): Option<seq<u16>>
  {
    var i := Find(f, '.');
    if i == |f| then None
    else
      var f1 := f[i + 1..];
      var j := Find(f1, '.');
      if j == |f1| then None
      else
        var f2 := f1[j + 1..];
        var k := Find(f2, '.');
        if k == |f2| then None
        else
          var a, b, c, d := ReadOctet(f[..i]), ReadOctet(f1[..j]), ReadOctet(f2[..k]), ReadOctet(f2[k + 1..]);
          if a.Some? && b.Some? && c.Some? && d.Some?
          then Some([0x100 * a.value as int + b.value as int, 0x100 * c.value as int + d.value as int])
          else None
  }

  /** One or more fields with colons between them; the last may be a dotted quad. */
  function ReadFields(s: string): Option<seq<u16>>
    decreases |s|
  {
    var k := Find(s, ':');
    if k == |s| then
      if Find(s, '.') < |s| then ReadQuad(s)
      else
        var v := ReadHex(s);
        if v.Some? then Some([v.value]) else None
    else
      var v, rest := ReadHex(s[..k]), ReadFields(s[k + 1..]);
      if v.Some? && rest.Some? then Some([v.value] + rest.value) else None
  }

  function ReadPart(s: string): Option<seq<u16>>
  {
    if s == "" then Some([]) else ReadFields(s)
  }

  function Zeros(n: nat): seq<u16> { if n == 0 then [] else [0] + Zeros(n - 1) }

  function Read(s: string): Option<seq<u16>>
  {
    var k := FindDouble(s);
    if k == |s| then
      var g := ReadFields(s);
      if g.Some? && |g.value| == GROUPS then g else None
    else
      var l, r := ReadPart(s[..k]), ReadPart(s[k + 2..]);
      if l.Some? && r.Some? && |l.value| + |r.value| < GROUPS
      then Some(l.value + Zeros(GROUPS - |l.value| - |r.value|) + r.value)
      else None
  }

  // ---------------------------------------------------------------- reading what was printed

  /** A field of a printed address: no colon in it, and not empty. */
  predicate Field(f: string) { f != "" && forall k :: 0 <= k < |f| ==> f[k] != ':' }

  predicate AllFields(fs: seq<string>) { forall k :: 0 <= k < |fs| ==> Field(fs[k]) }

  lemma FindAt(s: string, c: char, k: nat)
    requires k < |s| && s[k] == c && forall j :: 0 <= j < k ==> s[j] != c
    ensures Find(s, c) == k
  {
  }

  lemma FindNone(s: string, c: char)
    requires forall j :: 0 <= j < |s| ==> s[j] != c
    ensures Find(s, c) == |s|
  {
  }

  lemma HexRead(v: u16)
    ensures ReadHex(Hex(v)) == Some(v) && Field(Hex(v)) && Find(Hex(v), '.') == |Hex(v)|
  {
    hide Digits, Number;
    HexLength(v);
    NumberRead(v, 16);
    DigitsPlain(v, 16);
    FindNone(Hex(v), '.');
  }

  lemma OctetRead(v: u8)
    ensures ReadOctet(Digits(v, 10)) == Some(v) && DigitText(Digits(v, 10))
  {
    OctetLength(v);
    hide Digits, Number;
    NumberRead(v, 10);
    DigitsPlain(v, 10);
  }

  lemma QuadRead(x: u16, y: u16)
    ensures ReadQuad(Quad(x, y)) == Some([x, y]) && Field(Quad(x, y)) && Find(Quad(x, y), '.') < |Quad(x, y)|
  {
    hide Digits, ReadOctet, Find;
    var a, b, c, d: u8 := x / 0x100, x % 0x100, y / 0x100, y % 0x100;
    OctetRead(a);
    OctetRead(b);
    OctetRead(c);
    OctetRead(d);
    QuadParts(Digits(a, 10), Digits(b, 10), Digits(c, 10), Digits(d, 10));
    QuadField(Digits(a, 10), Digits(b, 10), Digits(c, 10), Digits(d, 10));
  }

  lemma QuadField(sa: string, sb: string, sc: string, sd: string)
    requires DigitText(sa) && DigitText(sb) && DigitText(sc) && DigitText(sd)
    ensures Field(sa + "." + sb + "." + sc + "." + sd)
  {
  }

  lemma QuadParts(sa: string, sb: string, sc: string, sd: string)
    requires DigitText(sa) && DigitText(sb) && DigitText(sc) && DigitText(sd)
    ensures var f := sa + "." + sb + "." + sc + "." + sd;
      && Find(f, '.') == |sa| < |f| && f[..|sa|] == sa
      && var f1 := f[|sa| + 1..];
        && Find(f1, '.') == |sb| < |f1| && f1[..|sb|] == sb
        && var f2 := f1[|sb| + 1..];
          Find(f2, '.') == |sc| < |f2| && f2[..|sc|] == sc && f2[|sc| + 1..] == sd
  {
    var f := sa + "." + sb + "." + sc + "." + sd;
    var f1 := sb + "." + sc + "." + sd;
    var f2 := sc + "." + sd;
    hide Find, DigitText;
    assert f == sa + "." + f1 && f1 == sb + "." + f2;
    Cut(f, sa, f1);
    Cut(f1, sb, f2);
    Cut(f2, sc, sd);
  }

  lemma Cut(f: string, head: string, tail: string)
    requires f == head + "." + tail && DigitText(head)
    ensures Find(f, '.') == |head| < |f| && f[..|head|] == head && f[|head| + 1..] == tail
  {
    FindAt(f, '.', |head|);
  }

  /** Reading a field and the rest behind its colon. */
  lemma ReadMore(f: string, rest: string)
    requires Field(f)
    ensures var s := f + ":" + rest; Find(s, ':') == |f| < |s| && s[..|f|] == f && s[|f| + 1..] == rest
  {
    var s := f + ":" + rest;
    FindAt(s, ':', |f|);
  }

  lemma FieldThen(v: u16, rest: string, g: seq<u16>)
    requires ReadFields(rest) == Some(g)
    ensures ReadFields(Hex(v) + ":" + rest) == Some([v] + g)
  {
    hide ReadHex, Hex, Find;
    HexRead(v);
    ReadMore(Hex(v), rest);
  }

  lemma JoinFront(f: string, fs: seq<string>)
    ensures Join([f] + fs) == if fs == [] then f else f + ":" + Join(fs)
  {
    assert ([f] + fs)[1..] == fs;
  }

  lemma {:induction false} HexesRead(g: seq<u16>)
    requires g != []
    ensures ReadFields(Join(Hexes(g))) == Some(g) && Join(Hexes(g)) != ""
    decreases |g|
  {
    hide ReadFields, Join, Hex;
    JoinFront(Hex(g[0]), Hexes(g[1..]));
    if |g| == 1 {
      HexAlone(g[0]);
      assert g == [g[0]];
    } else {
      HexesRead(g[1..]);
      FieldThen(g[0], Join(Hexes(g[1..])), g[1..]);
      assert g == [g[0]] + g[1..];
    }
  }

  lemma HexAlone(v: u16)
    ensures ReadFields(Hex(v)) == Some([v]) && Hex(v) != ""
  {
    hide ReadHex, Hex;
    HexRead(v);
    FindNone(Hex(v), ':');
  }

  lemma QuadAlone(x: u16, y: u16)
    ensures ReadFields(Quad(x, y)) == Some([x, y]) && Quad(x, y) != ""
  {
    hide Quad, ReadQuad;
    QuadRead(x, y);
    FindNone(Quad(x, y), ':');
  }

  lemma {:induction false} QuadFieldsRead(g: seq<u16>, x: u16, y: u16)
    ensures ReadFields(Join(Hexes(g) + [Quad(x, y)])) == Some(g + [x, y]) && Join(Hexes(g) + [Quad(x, y)]) != ""
    decreases |g|
  {
    hide ReadFields, Join, Hex, Quad;
    var q := Quad(x, y);
    if g == [] {
      QuadAlone(x, y);
      JoinFront(q, []);
      assert Hexes(g) + [q] == [q] + [];
      assert g + [x, y] == [x, y];
    } else {
      QuadFieldsRead(g[1..], x, y);
      FieldThen(g[0], Join(Hexes(g[1..]) + [q]), g[1..] + [x, y]);
      JoinFront(Hex(g[0]), Hexes(g[1..]) + [q]);
      assert Hexes(g) + [q] == [Hex(g[0])] + (Hexes(g[1..]) + [q]);
      assert g + [x, y] == [g[0]] + (g[1..] + [x, y]);
    }
  }

  /** Fields joined by colons hold no double colon, and neither begin nor end with a colon. */
  lemma {:induction false} JoinSingle(fs: seq<string>)
    requires AllFields(fs)
    ensures var s := Join(fs);
      && (fs != [] ==> s != "" && s[0] != ':' && s[|s| - 1] != ':')
      && FindDouble(s) == |s|
    decreases |fs|
  {
    if fs == [] {
    } else if |fs| == 1 {
      NoDouble(fs[0], "");
    } else {
      JoinSingle(fs[1..]);
      NoDouble(fs[0], Join(fs[1..]));
    }
  }

  /** A field before a text without a double colon that does not begin with a colon. */
  lemma NoDouble(f: string, rest: string)
    requires Field(f) && FindDouble(rest) == |rest| && (rest != "" ==> rest[0] != ':')
    ensures FindDouble(f) == |f|
    ensures rest != "" ==> FindDouble(f + ":" + rest) == |f + ":" + rest|
  {
    if rest != "" {
      var s := f + ":" + rest;
      forall j | 0 <= j && j + 1 < |s| ensures !DoubleColon(s, j) {
        if j < |f| {
          assert s[j] == f[j];
        } else if j == |f| {
          assert s[j + 1] == rest[0];
        } else {
          assert DoubleColon(s, j) == DoubleColon(rest, j - |f| - 1);
        }
      }
    }
  }

  lemma DoubleAt(l: string, r: string)
    requires FindDouble(l) == |l| && (l != "" ==> l[|l| - 1] != ':')
    ensures var s := l + "::" + r; FindDouble(s) == |l| && s[..|l|] == l && s[|l| + 2..] == r
  {
    var s := l + "::" + r;
    assert DoubleColon(s, |l|);
    forall j | 0 <= j < |l| ensures !DoubleColon(s, j) {
      if j + 1 < |l| { assert DoubleColon(s, j) == DoubleColon(l, j); } else { assert s[j] == l[j]; }
    }
  }

  lemma {:induction false} HexesAreFields(g: seq<u16>)
    ensures AllFields(Hexes(g))
  {
    forall k | 0 <= k < |g| ensures Field(Hexes(g)[k]) { HexRead(g[k]); }
  }

  lemma ZerosAre(a: seq<u16>, s: nat, n: nat)
    requires ZeroRun(a, s, n)
    ensures a[s..s + n] == Zeros(n)
    decreases n
  {
    if n > 0 {
      ZerosAre(a, s + 1, n - 1);
      assert a[s..s + n] == [a[s]] + a[s + 1..s + n];
    }
  }

  lemma RightRead(a: seq<u16>, s: nat, n: nat)
    requires |a| == GROUPS && s + n <= GROUPS
    ensures ReadPart(Join(Right(a, s, n))) == Some(a[s + n..])
  {
    hide Hexes, Join, ReadFields, Quad;
    if Dotted(a, s, n) {
      QuadFieldsRead(a[n..6], a[6], a[7]);
      assert a[n..6] + [a[6], a[7]] == a[n..];
    } else if s + n < GROUPS {
      HexesRead(a[s + n..]);
    } else {
      NoFields();
      assert a[s + n..] == [];
    }
  }

  lemma NoFields()
    ensures Hexes([]) == [] && Join([]) == ""
  {
  }

  /** Where the text has its "::", and what stands on both sides of it: the run is left out there, and
      nowhere else; without a run there is none. */
  lemma RunLeftOut(a: seq<u16>, s: nat, n: nat)
    requires |a| == GROUPS && Best(a, s, n)
    ensures s + n <= GROUPS
    ensures var t := Text(a, s, n); var k := FindDouble(t);
      if n == 0 then k == |t| && ReadFields(t) == Some(a)
      else k + 2 <= |t| && ReadPart(t[..k]) == Some(a[..s]) && ReadPart(t[k + 2..]) == Some(a[s + n..])
  {
    hide Hexes, Join, ReadFields, Right, FindDouble, BestUpTo;
    if n == 0 {
      HexesAreFields(a);
      JoinSingle(Hexes(a));
      HexesRead(a);
    } else {
      var l := Hexes(a[..s]);
      HexesAreFields(a[..s]);
      JoinSingle(l);
      NoFields();
      if s > 0 { HexesRead(a[..s]); } else { assert a[..s] == []; }
      RightRead(a, s, n);
      DoubleAt(Join(l), Join(Right(a, s, n)));
    }
  }

  /** Reading the printed text gives back the address, dotted forms included. */
  lemma ReadOfText(a: seq<u16>, s: nat, n: nat)
    requires |a| == GROUPS && Best(a, s, n)
    ensures s + n <= GROUPS && Read(Text(a, s, n)) == Some(a)
  {
    hide Hexes, Join, ReadFields, Right, FindDouble, Zeros, BestUpTo, Text, ReadPart;
    RunLeftOut(a, s, n);
    if n > 0 {
      ZerosAre(a, s, n);
      assert a == a[..s] + a[s..s + n] + a[s + n..];
    }
  }

  /** So distinct addresses never print alike. */
  lemma TextTellsApart(a: seq<u16>, s: nat, n: nat, b: seq<u16>, t: nat, m: nat)
    requires |a| == |b| == GROUPS && Best(a, s, n) && Best(b, t, m)
    ensures s + n <= GROUPS && t + m <= GROUPS && (Text(a, s, n) == Text(b, t, m) ==> a == b)
  {
    ReadOfText(a, s, n);
    ReadOfText(b, t, m);
  }

  // ---------------------------------------------------------------- the characters of the text

  /** ::ffff:a.b.c.d, an address that stands for one of IPv4. */
  predicate Mapped(a: seq<u16>)
    requires |a| == GROUPS
  {
    a[0] == a[1] == a[2] == a[3] == a[4] == 0 && a[5] == 0xffff
  }

  /** ::ffff:0:a.b.c.d, a translated one. */
  predicate Translated(a: seq<u16>)
    requires |a| == GROUPS
  {
    a[0] == a[1] == a[2] == a[3] == 0 && a[4] == 0xffff && a[5] == 0
  }

  /** The four octets of the last two groups. */
  function Octets(a: seq<u16>): string
    requires |a| == GROUPS
  {
    Digits(a[6] / 0x100, 10) + "." + Digits(a[6] % 0x100, 10) + "." +
    Digits(a[7] / 0x100, 10) + "." + Digits(a[7] % 0x100, 10)
  }

  lemma DottedAre(a: seq<u16>, s: nat, n: nat)
    requires |a| == GROUPS && Best(a, s, n)
    ensures Dotted(a, s, n) <==> Mapped(a) || Translated(a)
    ensures Mapped(a) ==> s == 0 && n == 5
    ensures Translated(a) ==> s == 0 && n == 4
  {
    if Mapped(a) {
      BestBefore(a, 5);
      BestIsUnique(a, s, n, 0, 5);
    } else if Translated(a) {
      BestBefore(a, 4);
      BestIsUnique(a, s, n, 0, 4);
    }
  }

  /** A run from the start that is longer than what is left behind it is the best one. */
  lemma BestBefore(a: seq<u16>, n: nat)
    requires |a| == GROUPS && 4 <= n < GROUPS && ZeroRun(a, 0, n) && a[n] != 0
    ensures Best(a, 0, n)
  {
    forall t: nat, m: nat | ZeroRun(a, t, m) && t + m <= |a| && m >= 2 ensures m <= n {
      if t <= n && n < t + m { assert false; }
    }
  }

  predicate HexText(s: string) { forall k :: 0 <= k < |s| ==> LowerHex(s[k]) || s[k] == ':' }

  lemma {:induction false} HexesText(g: seq<u16>)
    ensures HexText(Join(Hexes(g))) && NoPadding(Join(Hexes(g)))
    decreases |g|
  {
    hide Hex;
    if g != [] {
      HexPlain(g[0]);
      HexesText(g[1..]);
      assert Hexes(g)[1..] == Hexes(g[1..]);
      if |g| > 1 { PaddingJoin(Hex(g[0]), ':', Join(Hexes(g[1..]))); }
    }
  }

  lemma HexPlain(v: u16)
    ensures DigitText(Hex(v)) && HexText(Hex(v)) && NoPadding(Hex(v))
  {
    hide Digits;
    DigitsPlain(v, 16);
    NoLeadingZero(v, 16);
  }

  predicate Separator(c: char) { c == ':' || c == '.' }

  /** Is the character at k not a leading zero? */
  predicate Unpadded(t: string, k: nat)
    requires k < |t|
  {
    t[k] == '0' && (k == 0 || Separator(t[k - 1])) ==> k + 1 == |t| || Separator(t[k + 1])
  }

  /** No number in the text begins with a zero, except zero itself. */
  predicate NoPadding(t: string) { forall k :: 0 <= k < |t| ==> Unpadded(t, k) }

  lemma PaddingJoin(x: string, c: char, y: string)
    requires NoPadding(x) && NoPadding(y) && Separator(c)
    ensures NoPadding(x + [c] + y)
  {
    var t := x + [c] + y;
    forall k | 0 <= k < |t| ensures Unpadded(t, k) {
      if k < |x| {
        assert Unpadded(x, k);
      } else if k > |x| {
        assert Unpadded(y, k - |x| - 1);
      }
    }
  }

  lemma OctetsText(a: seq<u16>)
    requires |a| == GROUPS
    ensures Octets(a) == Quad(a[6], a[7]) && NoPadding(Octets(a)) && '.' in Octets(a)
    ensures forall k :: 0 <= k < |Octets(a)| ==> LowerHex(Octets(a)[k]) || Octets(a)[k] == '.'
  {
    var w, x, y, z := a[6] / 0x100, a[6] % 0x100, a[7] / 0x100, a[7] % 0x100;
    OctetPlain(w);
    OctetPlain(x);
    OctetPlain(y);
    OctetPlain(z);
    hide Digits, NoPadding;
    var p, q, r, o := Digits(w, 10), Digits(x, 10), Digits(y, 10), Digits(z, 10);
    PaddingJoin(p, '.', q);
    PaddingJoin(p + "." + q, '.', r);
    PaddingJoin(p + "." + q + "." + r, '.', o);
    assert (p + "." + q + "." + r + "." + o)[|p|] == '.';
  }

  lemma OctetPlain(v: nat)
    ensures DigitText(Digits(v, 10)) && NoPadding(Digits(v, 10))
  {
    hide Digits;
    DigitsPlain(v, 10);
    NoLeadingZero(v, 10);
  }

  lemma AllOnes()
    ensures Hex(0xffff) == "ffff" && Hex(0) == "0"
  {
    assert Digits(0xf, 16) == "f";
    assert Digits(0xff, 16) == "ff";
    assert Digits(0xfff, 16) == "fff";
  }

  lemma MappedText(a: seq<u16>)
    requires |a| == GROUPS
    ensures Mapped(a) ==> Text(a, 0, 5) == "::ffff:" + Octets(a)
    ensures Translated(a) ==> Text(a, 0, 4) == "::ffff:0:" + Octets(a)
  {
    hide Hex, Quad, Octets;
    AllOnes();
    OctetsText(a);
    NoFields();
    assert a[..0] == [];
    var q := Quad(a[6], a[7]);
    if Mapped(a) {
      assert a[5..6] == [0xffff];
      assert Hexes([0xffff]) == ["ffff"];
      assert Right(a, 0, 5) == ["ffff", q];
      JoinTwo("ffff", q);
    } else if Translated(a) {
      assert a[4..6] == [0xffff, 0];
      assert Hexes([0xffff, 0]) == ["ffff", "0"];
      assert Right(a, 0, 4) == ["ffff", "0", q];
      assert ["ffff", "0", q][1..] == ["0", q];
      JoinTwo("0", q);
    }
  }

  lemma JoinTwo(f: string, g: string)
    ensures Join([f, g]) == f + ":" + g
  {
    assert [f, g][1..] == [g];
  }

  /** What the text looks like (RFC 5952 section 4): a dotted quad exactly for the two kinds of addresses,
      digits in lower case, and no leading zeros. */
  lemma TextLooks(a: seq<u16>, s: nat, n: nat)
    requires |a| == GROUPS && Best(a, s, n)
    ensures s + n <= GROUPS && NoPadding(Text(a, s, n))
    ensures var t := Text(a, s, n);
      && ('.' in t <==> Mapped(a) || Translated(a))
      && (Mapped(a) ==> t == "::ffff:" + Octets(a))
      && (Translated(a) ==> t == "::ffff:0:" + Octets(a))
      && forall k :: 0 <= k < |t| ==> LowerHex(t[k]) || t[k] == ':' || t[k] == '.'
  {
    hide Hex, Best, Join, Hexes, Octets, NoPadding, LowerHex;
    BestInside(a, s, n);
    DottedAre(a, s, n);
    MappedText(a);
    NoPaddingHere();
    if Mapped(a) || Translated(a) {
      OctetsText(a);
      QuadBehind(if Mapped(a) then "::ffff" else "::ffff:0", Octets(a));
    } else if n == 0 {
      HexesText(a);
    } else {
      HexesText(a[..s]);
      HexesText(a[s + n..]);
      var l, r := Join(Hexes(a[..s])), Join(Hexes(a[s + n..]));
      RunBetween(l, r);
    }
  }

  lemma QuadBehind(head: string, quad: string)
    requires NoPadding(head) && NoPadding(quad) && HexText(head) && '.' in quad
    requires forall k :: 0 <= k < |quad| ==> LowerHex(quad[k]) || quad[k] == '.'
    ensures var t := head + ":" + quad;
      NoPadding(t) && '.' in t && forall k :: 0 <= k < |t| ==> LowerHex(t[k]) || t[k] == ':' || t[k] == '.'
  {
    hide NoPadding, LowerHex;
    PaddingJoin(head, ':', quad);
  }

  lemma RunBetween(l: string, r: string)
    requires NoPadding(l) && NoPadding(r) && HexText(l) && HexText(r)
    ensures NoPadding(l + "::" + r) && HexText(l + "::" + r)
  {
    hide NoPadding, LowerHex;
    NoPaddingHere();
    PaddingJoin("", ':', r);
    assert "" + [':'] + r == ":" + r;
    PaddingJoin(l, ':', ":" + r);
    assert l + [':'] + (":" + r) == l + "::" + r;
  }

  lemma NoPaddingHere()
    ensures NoPadding("::ffff") && NoPadding("::ffff:0") && NoPadding("")
    ensures HexText("::ffff") && HexText("::ffff:0") && !LowerHex('.')
    ensures "::ffff:" == "::ffff" + ":" && "::ffff:0:" == "::ffff:0" + ":"
  {
  }

  // ---------------------------------------------------------------- the printer

  /** What stands before the write position when group i is next. Behind the run, the second colon is
      still to come: it belongs to the next group, or to the end of the text. */
  function Pre(a: seq<u16>, s: nat, n: nat, i: nat): string
    requires s + n <= |a| && i <= |a|
  {
    if n == 0 || i <= s then Join(Hexes(a[..i]))
    else if i <= s + n then Join(Hexes(a[..s])) + ":"
    else Join(Hexes(a[..s])) + "::" + Join(Hexes(a[s + n..i]))
  }

  lemma PreGroup(a: seq<u16>, s: nat, n: nat, i: nat)
    requires s + n <= |a| && i < |a| && (n == 0 || i < s || s + n <= i) && (n == 0 || n >= 2)
    ensures Pre(a, s, n, i + 1) == (if i == 0 then "" else Pre(a, s, n, i) + ":") + Hex(a[i])
  {
    hide Hex, Hexes, Join;
    if n == 0 || i < s {
      GroupAfter(a, 0, i);
      assert a[0..i] == a[..i] && a[0..i + 1] == a[..i + 1];
      if i == 0 { NoFields(); }
    } else {
      GroupAfter(a, s + n, i);
      if i == s + n { NoFields(); }
    }
  }

  /** One more group behind those from place f on. */
  lemma GroupAfter(a: seq<u16>, f: nat, i: nat)
    requires f <= i < |a|
    ensures Join(Hexes(a[f..i + 1])) == (if i == f then "" else Join(Hexes(a[f..i])) + ":") + Hex(a[i])
    ensures i == f ==> a[f..i] == []
  {
    hide Hex, Hexes, Join;
    assert a[f..i + 1] == a[f..i] + [a[i]];
    HexesMore(a[f..i], a[i]);
    JoinMore(Hexes(a[f..i]), Hex(a[i]));
    if i == f { NoFields(); }
    assert |Hexes(a[f..i])| == i - f;
  }

  lemma PreRun(a: seq<u16>, s: nat, n: nat)
    requires s + n <= |a| && n >= 2
    ensures Pre(a, s, n, s + n) == Pre(a, s, n, s) + ":"
  {
  }

  lemma PreEnd(a: seq<u16>, s: nat, n: nat)
    requires |a| == GROUPS && s + n <= GROUPS && (n == 0 || n >= 2)
    ensures !Dotted(a, s, n) ==>
      Text(a, s, n) == Pre(a, s, n, GROUPS) + (if n > 0 && s + n == GROUPS then ":" else "")
    ensures Dotted(a, s, n) ==> Text(a, s, n) == Pre(a, s, n, 6) + ":" + Quad(a[6], a[7])
  {
    hide Hexes, Quad;
    assert a[..GROUPS] == a && a[s + n..GROUPS] == a[s + n..];
    NoFields();
    if n > 0 && s + n == GROUPS { assert a[s + n..] == []; }
    if Dotted(a, s, n) {
      hide Join;
      var l := Hexes(a[n..6]);
      JoinMore(l, Quad(a[6], a[7]));
      assert a[..0] == [];
      assert |l| == 6 - n;
    }
  }

  lemma {:induction false} JoinLength(g: seq<u16>)
    ensures |Join(Hexes(g))| <= if g == [] then 0 else 5 * |g| - 1
    decreases |g|
  {
    hide Hex;
    if g != [] {
      HexLength(g[0]);
      JoinLength(g[1..]);
      assert Hexes(g)[1..] == Hexes(g[1..]);
    }
  }

  lemma PreLength(a: seq<u16>, s: nat, n: nat, i: nat)
    requires s + n <= |a| && 0 < i <= |a| && (n == 0 || n >= 2) && (n == 0 || i <= s || s + n <= i)
    ensures |Pre(a, s, n, i)| <= 5 * i - (if n > 0 && s + n <= i then 2 else 1)
  {
    hide Hexes, Join;
    JoinLength(a[..i]);
    JoinLength(a[..s]);
    if n > 0 && s + n <= i { JoinLength(a[s + n..i]); }
  }

  lemma DottedLength(a: seq<u16>, s: nat, n: nat)
    requires |a| == GROUPS && Dotted(a, s, n)
    ensures |Pre(a, s, n, 6)| <= 11
  {
    hide Hexes, Join;
    NoFields();
    assert a[..0] == [];
    JoinLength(a[n..6]);
  }

  /** snprintf of a text that fits. */
  method Put(buf: array<char>, p: nat, t: string) returns (p': nat)
    requires p + |t| < buf.Length
    modifies buf
    ensures p' == p + |t| && buf[..p'] == old(buf[..p]) + t && buf[p'] == '\0'
  {
    forall k | 0 <= k < |t| { buf[p + k] := t[k]; }
    buf[p + |t|] := '\0';
    p' := p + |t|;
    assert buf[p..p'] == t;
    assert buf[..p'] == buf[..p] + buf[p..p'];
  }

  /** The buffer before group i: the text so far, and provisionally its end. */
  predicate Standing(buf: seq<char>, a: seq<u16>, s: nat, n: nat, i: nat, p: nat)
    requires s + n <= |a| && i <= |a|
  {
    && p < |buf| && buf[..p] == (if i == 0 then "" else Pre(a, s, n, i))
    && (i > 0 ==> if n > 0 && i == s + n then p + 1 < |buf| && buf[p] == ':' && buf[p + 1] == '\0' else buf[p] == '\0')
  }

  /** One group, with the colon before it. */
  method PutGroup(buf: array<char>, p: nat, a: seq<u16>, i: nat, ghost s: nat, ghost n: nat) returns (p': nat)
    requires |a| == GROUPS && s + n <= GROUPS && i < GROUPS && (n == 0 || n >= 2) && (n == 0 || i < s || s + n <= i)
    requires buf.Length >= 40 && Standing(buf[..], a, s, n, i, p)
    modifies buf
    ensures Standing(buf[..], a, s, n, i + 1, p')
  {
    hide Hex, Pre;
    HexLength(a[i]);
    PreGroup(a, s, n, i);
    PreLength(a, s, n, i + 1);
    assert buf[..p] == buf[..][..p];
    p' := p;
    if i > 0 {
      buf[p'] := ':';
      p' := p' + 1;
      assert buf[..p'] == Pre(a, s, n, i) + ":";
    } else {
      assert buf[..p'] == "";
    }
    p' := Put(buf, p', Hex(a[i]));
    assert buf[..p'] == buf[..][..p'];
  }

  /** The run of zero groups: its two colons, the second of which the next group may overwrite. */
  method PutRun(buf: array<char>, p: nat, a: seq<u16>, ghost s: nat, ghost n: nat) returns (p': nat)
    requires |a| == GROUPS && s + n <= GROUPS && n >= 2
    requires buf.Length >= 40 && Standing(buf[..], a, s, n, s, p)
    modifies buf
    ensures Standing(buf[..], a, s, n, s + n, p')
  {
    hide Pre;
    PreRun(a, s, n);
    if s > 0 { PreLength(a, s, n, s); } else { EmptyPre(a, s, n); }
    assert buf[..p] == buf[..][..p];
    buf[p] := ':';
    p' := p + 1;
    buf[p'] := ':';
    buf[p' + 1] := '\0';
    assert buf[..][..p'] == Pre(a, s, n, s) + ":";
  }

  /** The last two groups as a dotted quad, which ends the text. */
  method PutQuad(buf: array<char>, p: nat, a: seq<u16>, ghost s: nat, ghost n: nat) returns (p': nat)
    requires |a| == GROUPS && s + n <= GROUPS && (n == 0 || n >= 2) && Dotted(a, s, n)
    requires buf.Length >= 40 && Standing(buf[..], a, s, n, 6, p)
    modifies buf
    ensures p' < 40 && buf[..p'] == Text(a, s, n) && buf[p'] == '\0'
  {
    hide Pre, Text, Quad;
    QuadLength(a[6], a[7]);
    DottedLength(a, s, n);
    PreEnd(a, s, n);
    assert buf[..p] == buf[..][..p];
    assert Pre(a, s, n, 6) + (":" + Quad(a[6], a[7])) == Pre(a, s, n, 6) + ":" + Quad(a[6], a[7]);
    p' := Put(buf, p, ":" + Quad(a[6], a[7]));
  }

  /** Behind the last group the text is complete, except for the second colon of a run at its end. */
  lemma EndOfText(buf: seq<char>, a: seq<u16>, s: nat, n: nat, p: nat)
    requires |a| == GROUPS && s + n <= GROUPS && (n == 0 || n >= 2) && !Dotted(a, s, n)
    requires |buf| >= 40 && Standing(buf, a, s, n, GROUPS, p)
    ensures var len := if n > 0 && s + n == GROUPS then p + 1 else p;
      len < 40 && buf[..len] == Text(a, s, n) && buf[len] == '\0'
  {
    hide Pre, Text;
    PreEnd(a, s, n);
    PreLength(a, s, n, GROUPS);
    if n > 0 && s + n == GROUPS { assert buf[..p + 1] == buf[..p] + [':']; }
  }

  lemma StartOfText(buf: seq<char>, a: seq<u16>, s: nat, n: nat)
    requires s + n <= |a| && |buf| > 0
    ensures Standing(buf, a, s, n, 0, 0)
  {
  }

  /** What the characters in the buffer are, told without the functions that put them together: the text
      reads back as the address; it has a "::" exactly when there is a run to leave out, and there the
      run is left out; it ends in four octets exactly for the two kinds of addresses; its digits are in
      lower case, and no number has leading zeros. */
  predicate Written(t: string, a: seq<u16>, s: nat, n: nat)
    requires |a| == GROUPS && s + n <= GROUPS
  {
    var k := FindDouble(t);
    && Read(t) == Some(a)
    && (if n == 0 then k == |t|
        else k + 2 <= |t| && ReadPart(t[..k]) == Some(a[..s]) && ReadPart(t[k + 2..]) == Some(a[s + n..]))
    && ('.' in t <==> Mapped(a) || Translated(a))
    && (Mapped(a) ==> t == "::ffff:" + Octets(a))
    && (Translated(a) ==> t == "::ffff:0:" + Octets(a))
    && (forall i :: 0 <= i < |t| ==> LowerHex(t[i]) || t[i] == ':' || t[i] == '.')
    && NoPadding(t)
  }

  lemma TextIsWritten(a: seq<u16>, s: nat, n: nat)
    requires |a| == GROUPS && Best(a, s, n)
    ensures s + n <= GROUPS && Written(Text(a, s, n), a, s, n)
  {
    hide Best, Text, Read, ReadPart, FindDouble, Octets, NoPadding;
    RunLeftOut(a, s, n);
    ReadOfText(a, s, n);
    TextLooks(a, s, n);
  }

  /** bcm_ipv6_ntoa. The text ends before a zero; with it, 40 characters are always enough. */
  method Ntoa(a: seq<u16>, buf: array<char>) returns (ghost s: nat, ghost n: nat, ghost len: nat)
    requires |a| == GROUPS && buf.Length >= 40
    modifies buf
    ensures Best(a, s, n) && s + n <= GROUPS
    ensures len < 40 && buf[..len] == Text(a, s, n) && buf[len] == '\0'
    ensures Written(buf[..len], a, s, n)
  {
    hide Best, Text, Standing, Written;
    var iMax, cntMax := FindRun(a);
    s, n := GROUPS, 0;
    if iMax != -1 { s, n := iMax, cntMax; }
    BestInside(a, s, n);
    TextIsWritten(a, s, n);
    var dotted := iMax == 0 && ((cntMax == 4 && a[4] == 0xffff && a[5] == 0) || (cntMax == 5 && a[5] == 0xffff));
    assert dotted == Dotted(a, s, n);
    var p: nat, i: nat := 0, 0;
    StartOfText(buf[..], a, s, n);
    while i < GROUPS
      invariant i <= GROUPS && Standing(buf[..], a, s, n, i, p)
      invariant iMax == -1 || i <= iMax || iMax + cntMax <= i
      invariant dotted ==> i <= 6
      decreases GROUPS - i
    {
      if dotted && i == 6 {
        p := PutQuad(buf, p, a, s, n);
        len := p;
        return;
      } else if i == iMax {
        p := PutRun(buf, p, a, s, n);
        i := i + cntMax - 1;
      } else {
        p := PutGroup(buf, p, a, i, s, n);
      }
      i := i + 1;
    }
    EndOfText(buf[..], a, s, n, p);
    len := if n > 0 && s + n == GROUPS then p + 1 else p;
    assert buf[..len] == buf[..][..len];
  }

  lemma EmptyPre(a: seq<u16>, s: nat, n: nat)
    requires s + n <= |a|
    ensures Pre(a, s, n, 0) == ""
  {
    assert a[..0] == [];
  }

  lemma BestInside(a: seq<u16>, s: nat, n: nat)
    requires Best(a, s, n)
    ensures s + n <= |a| && (n == 0 || n >= 2)
  {
  }

  lemma QuadLength(x: u16, y: u16)
    ensures |Quad(x, y)| <= 15
  {
    OctetLength(x / 0x100);
    OctetLength(x % 0x100);
    OctetLength(y / 0x100);
    OctetLength(y % 0x100);
    hide Digits;
  }
}
