/** The flat table of name=value strings (bcmutils.c: varbuf_append, getvar_internal): records ended
    by a zero byte, one behind the other, with one more zero byte at the end of the table. */
module VarBuf {
  import opened Bits
  import opened Common

  type Text = seq<u8>

  const EQ := 0x3D

  // ---------------------------------------------------------------- tables as lists of records

  predicate NoZero(t: Text) { forall k :: 0 <= k < |t| ==> t[k] != 0 }

  predicate AllNoZero(rs: seq<Text>) { forall k :: 0 <= k < |rs| ==> NoZero(rs[k]) }

  function Flat(rs: seq<Text>): Text
  {
    if rs == [] then [] else rs[0] + [0] + Flat(rs[1..])
  }

  /** The place of the first '=' in a text, or its length. */
  function FindEq(t: Text): (k: nat)
    ensures k <= |t| && (k < |t| ==> t[k] == EQ) && forall j :: 0 <= j < k ==> t[j] != EQ
  {
    if t == [] || t[0] == EQ then 0 else 1 + FindEq(t[1..])
  }

  predicate HasName(t: Text, name: Text) { name + [EQ] <= t }

  /** Does the text set the variable it names, and which? */
  predicate Sets(t: Text) { FindEq(t) < |t| }

  function NameOf(t: Text): Text { t[..FindEq(t)] }

  /** The first record of this name, or the number of records. */
  function IndexOf(rs: seq<Text>, name: Text): (k: nat)
    ensures k <= |rs| && (k < |rs| ==> HasName(rs[k], name))
    ensures forall j :: 0 <= j < k ==> !HasName(rs[j], name)
  {
    if rs == [] || HasName(rs[0], name) then 0 else 1 + IndexOf(rs[1..], name)
  }

  /** The records after an append that fits: an earlier one of the same name goes. */
  function Replaced(rs: seq<Text>, t: Text): seq<Text>
  {
    (if Sets(t) then Without(rs, IndexOf(rs, NameOf(t))) else rs) + [t]
  }

  function Lookup(rs: seq<Text>, name: Text): Option<Text>
  {
    var k := IndexOf(rs, name);
    if k < |rs| then Some(rs[k][|name| + 1..]) else None
  }

  predicate Plain(name: Text) { name != [] && NoZero(name) && forall k :: 0 <= k < |name| ==> name[k] != EQ }

  /** A text of the form name=value with a nonempty name. */
  predicate Assignment(t: Text) { Sets(t) && FindEq(t) > 0 && NoZero(t) }

  predicate OnePerName(rs: seq<Text>)
  {
    forall j, k :: 0 <= j < k < |rs| ==> !HasName(rs[k], NameOf(rs[j]))
  }

  predicate AllAssign(rs: seq<Text>) { forall k :: 0 <= k < |rs| ==> Assignment(rs[k]) }

  /** Of an assignment, a plain name is the name exactly when the text starts with it and '='. */
  lemma NameIs(t: Text, name: Text)
    requires Sets(t) && forall k :: 0 <= k < |name| ==> name[k] != EQ
    ensures HasName(t, name) <==> name == NameOf(t)
  {
    var n := FindEq(t);
    if HasName(t, name) {
      assert t[..|name| + 1] == name + [EQ];
      assert t[|name|] == (name + [EQ])[|name|] == EQ;
      assert forall j :: 0 <= j < |name| ==> t[j] == (name + [EQ])[j] == name[j];
      assert n == |name|;
      assert name == (name + [EQ])[..|name|] == t[..|name|];
    }
    if name == NameOf(t) { assert t[..n + 1] == t[..n] + [EQ]; }
  }

  lemma NamePlain(t: Text)
    ensures forall k :: 0 <= k < |NameOf(t)| ==> NameOf(t)[k] != EQ
  {
  }

  lemma NamesDiffer(rs: seq<Text>, i: nat, j: nat)
    requires OnePerName(rs) && AllAssign(rs) && i < |rs| && j < |rs| && i != j
    ensures NameOf(rs[i]) != NameOf(rs[j])
  {
    hide FindEq, HasName;
    var a, b := if i < j then i else j, if i < j then j else i;
    NamePlain(rs[a]);
    NameIs(rs[b], NameOf(rs[a]));
  }

  /** With one record per name, a record of the name is the one found. */
  lemma FoundIs(rs: seq<Text>, name: Text, k: nat)
    requires OnePerName(rs) && AllAssign(rs) && k < |rs| && name == NameOf(rs[k])
    ensures IndexOf(rs, name) == k
  {
    hide FindEq, HasName;
    NamePlain(rs[k]);
    NameIs(rs[k], name);
    var i := IndexOf(rs, name);
    NameIs(rs[i], name);
    if i != k { NamesDiffer(rs, i, k); }
  }

  /** The other records have other names. */
  lemma OthersDiffer(rs: seq<Text>, name: Text, i: nat)
    requires OnePerName(rs) && AllAssign(rs) && i < |rs| && forall k :: 0 <= k < |name| ==> name[k] != EQ
    ensures i != IndexOf(rs, name) ==> NameOf(rs[i]) != name
  {
    if NameOf(rs[i]) == name { FoundIs(rs, name, i); }
  }

  /** Record j of what is left was record Origin(j, k). */
  function Origin(j: nat, k: nat): nat { if j < k then j else j + 1 }

  /** An append keeps one record per name. */
  lemma ReplacedKeeps(rs: seq<Text>, t: Text)
    requires OnePerName(rs) && AllAssign(rs) && Assignment(t)
    ensures OnePerName(Replaced(rs, t)) && AllAssign(Replaced(rs, t))
  {
    hide FindEq, IndexOf, HasName;
    var name := NameOf(t);
    var k := IndexOf(rs, name);
    var rest := Without(rs, k);
    var all := rest + [t];
    assert Replaced(rs, t) == all;
    NamePlain(t);
    forall j | 0 <= j < |rest| ensures Assignment(rest[j]) && !HasName(t, NameOf(rest[j])) {
      var i := Origin(j, k);
      assert rest[j] == rs[i];
      NamePlain(rs[i]);
      NameIs(t, NameOf(rs[i]));
      OthersDiffer(rs, name, i);
    }
    forall i, j | 0 <= i < j < |all| ensures !HasName(all[j], NameOf(all[i])) {
      if j < |rest| {
        assert rest[i] == rs[Origin(i, k)] && rest[j] == rs[Origin(j, k)];
      }
    }
  }

  /** An append sets its variable and no other. */
  lemma ReplacedLookup(rs: seq<Text>, t: Text, name: Text)
    requires OnePerName(rs) && AllAssign(rs) && Assignment(t) && Plain(name)
    ensures Lookup(Replaced(rs, t), name) ==
      if name == NameOf(t) then Some(t[FindEq(t) + 1..]) else Lookup(rs, name)
  {
    hide FindEq, IndexOf, HasName, OnePerName, AllAssign, Without, Lookup, NameOf;
    ReplacedKeeps(rs, t);
    EarlierRecord(rs, t);
    var rest := Without(rs, IndexOf(rs, NameOf(t)));
    assert Replaced(rs, t) == rest + [t];
    if name == NameOf(t) {
      NewLookup(rest, t);
    } else {
      OtherLookup(rs, IndexOf(rs, NameOf(t)), t, name);
    }
  }

  lemma EarlierRecord(rs: seq<Text>, t: Text)
    requires AllAssign(rs) && Sets(t)
    ensures var k := IndexOf(rs, NameOf(t)); k <= |rs| && (k < |rs| ==> NameOf(rs[k]) == NameOf(t))
  {
    hide FindEq, HasName;
    NamePlain(t);
    var k := IndexOf(rs, NameOf(t));
    if k < |rs| { NameIs(rs[k], NameOf(t)); }
  }

  lemma NewLookup(rest: seq<Text>, t: Text)
    requires OnePerName(rest + [t]) && AllAssign(rest + [t]) && Sets(t)
    ensures Lookup(rest + [t], NameOf(t)) == Some(t[FindEq(t) + 1..])
  {
    hide FindEq, HasName, OnePerName;
    FoundIs(rest + [t], NameOf(t), |rest|);
  }

  lemma OtherLookup(rs: seq<Text>, k: nat, t: Text, name: Text)
    requires OnePerName(rs) && AllAssign(rs) && Assignment(t) && Plain(name)
    requires name != NameOf(t) && k <= |rs| && (k < |rs| ==> NameOf(rs[k]) == NameOf(t))
    requires OnePerName(Without(rs, k) + [t]) && AllAssign(Without(rs, k) + [t])
    ensures Lookup(Without(rs, k) + [t], name) == Lookup(rs, name)
  {
    hide FindEq, HasName, OnePerName;
    var rest := Without(rs, k);
    var all := rest + [t];
    var i := IndexOf(rs, name);
    if i < |rs| {
      NameIs(rs[i], name);
      var j := if i < k then i else i - 1;
      assert all[j] == rs[i];
      FoundIs(all, name, j);
    } else {
      forall j | 0 <= j < |all| ensures !HasName(all[j], name) {
        if j < |rest| { assert all[j] == rs[Origin(j, k)]; } else { NameIs(t, name); }
      }
    }
  }

  // ---------------------------------------------------------------- runs of appends

  /** The table, and whether it still takes appends. */
  datatype State = State(records: seq<Text>, overflow: bool)

  /** Two bytes are kept for the zero behind the text and the one behind the table. The room is
      checked before an earlier record of the same name is given up. */
  predicate Fits(rs: seq<Text>, t: Text, capacity: nat) { |Flat(rs)| + |t| + 2 <= capacity }

  function Appended(s: State, t: Text, capacity: nat): State
  {
    if s.overflow || capacity < |Flat(s.records)| + 2 then s
    else if !Fits(s.records, t, capacity) then s.(overflow := true)
    else State(Replaced(s.records, t), false)
  }

  function Run(ts: seq<Text>, capacity: nat): State
  {
    if ts == [] then State([], false) else Appended(Run(ts[..|ts| - 1], capacity), ts[|ts| - 1], capacity)
  }

  /** The value in the last text that sets the name. */
  function LastValue(ts: seq<Text>, name: Text): Option<Text>
    decreases |ts|
  {
    if ts == [] then None
    else
      var t := ts[|ts| - 1];
      if Sets(t) && NameOf(t) == name then Some(t[FindEq(t) + 1..]) else LastValue(ts[..|ts| - 1], name)
  }

  /** Does this append find too little room? From then on, none is taken. */
  predicate Refused(s: State, t: Text, capacity: nat) { s.overflow || !Fits(s.records, t, capacity) }

  /** How many appends are taken before the first that is not. */
  function Accepted(ts: seq<Text>, capacity: nat): (n: nat)
    ensures n <= |ts|
  {
    if ts == [] then 0
    else
      var n := Accepted(ts[..|ts| - 1], capacity);
      if n < |ts| - 1 || Refused(Run(ts[..|ts| - 1], capacity), ts[|ts| - 1], capacity) then n else |ts|
  }

  lemma {:induction false} RunKeeps(ts: seq<Text>, capacity: nat)
    requires AllAssign(ts)
    ensures OnePerName(Run(ts, capacity).records) && AllAssign(Run(ts, capacity).records)
    decreases |ts|
  {
    hide Replaced, OnePerName, Flat;
    if ts == [] {
      NoneYet();
    } else {
      RunKeeps(ts[..|ts| - 1], capacity);
      ReplacedKeeps(Run(ts[..|ts| - 1], capacity).records, ts[|ts| - 1]);
    }
  }

  lemma NoneYet()
    ensures OnePerName([])
  {
  }

  /** After any run of appends, looking a name up gives the value last appended for it, among the
      appends before the first that did not fit; those that came later change nothing. */
  lemma {:induction false} RunLookup(ts: seq<Text>, capacity: nat, name: Text)
    requires AllAssign(ts) && Plain(name)
    ensures Lookup(Run(ts, capacity).records, name) == LastValue(ts[..Accepted(ts, capacity)], name)
    ensures Accepted(ts, capacity) < |ts| ==> Stuck(Run(ts, capacity), capacity)
    decreases |ts|
  {
    hide Replaced, OnePerName, Flat, IndexOf, FindEq;
    if ts == [] {
      NothingFound(name);
    } else {
      var before, t := ts[..|ts| - 1], ts[|ts| - 1];
      var s, n := Run(before, capacity), Accepted(before, capacity);
      RunKeeps(before, capacity);
      RunLookup(before, capacity, name);
      if n < |before| {
        assert ts[..n] == before[..n];
      } else if Refused(s, t, capacity) {
        assert ts[..n] == before[..n];
      } else {
        assert before[..n] == before && ts[..|ts|] == ts;
        ReplacedLookup(s.records, t, name);
      }
    }
  }

  lemma NothingFound(name: Text)
    ensures Lookup([], name) == None
  {
  }

  /** No append is taken any more. */
  predicate Stuck(s: State, capacity: nat) { s.overflow || capacity < |Flat(s.records)| + 2 }

  // ---------------------------------------------------------------- records in memory

  lemma {:induction false} FlatConcat(a: seq<Text>, b: seq<Text>)
    ensures Flat(a + b) == Flat(a) + Flat(b)
    decreases |a|
  {
    if a == [] {
      assert a + b == b;
    } else {
      assert (a + b)[1..] == a[1..] + b;
      FlatConcat(a[1..], b);
    }
  }

  lemma FlatOne(t: Text)
    ensures Flat([t]) == t + [0]
  {
    assert [t][1..] == [];
  }

  /** Record i in the middle of the flat table. */
  lemma FlatAround(rs: seq<Text>, i: nat)
    requires i < |rs|
    ensures Flat(rs) == Flat(rs[..i]) + (rs[i] + [0]) + Flat(rs[i + 1..])
    ensures Flat(rs[..i + 1]) == Flat(rs[..i]) + (rs[i] + [0])
    ensures Flat(Without(rs, i)) == Flat(rs[..i]) + Flat(rs[i + 1..])
  {
    hide Flat;
    FlatNext(rs, i);
    assert rs == rs[..i + 1] + rs[i + 1..];
    FlatConcat(rs[..i + 1], rs[i + 1..]);
    FlatConcat(rs[..i], rs[i + 1..]);
  }

  lemma FlatNext(rs: seq<Text>, i: nat)
    requires i < |rs|
    ensures Flat(rs[..i + 1]) == Flat(rs[..i]) + (rs[i] + [0])
  {
    hide Flat;
    FlatOne(rs[i]);
    assert rs[..i + 1] == rs[..i] + [rs[i]];
    FlatConcat(rs[..i], [rs[i]]);
  }

  /** A record, and the zero behind it, at a place in memory. */
  predicate RecordAt(m: Text, at: nat, t: Text)
  {
    at + |t| < |m| && m[at..at + |t|] == t && m[at + |t|] == 0 && NoZero(t)
  }

  /** The records begin at the start of memory and end at end. */
  predicate Table(m: Text, end: nat, rs: seq<Text>)
  {
    end <= |m| && m[..end] == Flat(rs) && AllNoZero(rs)
  }

  lemma TableRecord(m: Text, end: nat, rs: seq<Text>, i: nat)
    requires Table(m, end, rs) && i < |rs|
    ensures var at := |Flat(rs[..i])|;
      RecordAt(m, at, rs[i]) && at + |rs[i]| + 1 == |Flat(rs[..i + 1])| <= end
  {
    FlatAround(rs, i);
    hide Flat;
    var at, n := |Flat(rs[..i])|, |rs[i]|;
    assert m[..end][at..at + n] == rs[i];
    assert m[..end][at..at + n] == m[at..at + n];
    assert m[..end][at + n] == 0;
  }

  lemma TableEnd(rs: seq<Text>)
    ensures rs[..|rs|] == rs && |Flat(rs[..0])| == 0
  {
    assert rs[..0] == [];
  }

  /** Comparing bytes with a name and '=' stops at a record's zero at the latest, so it tells whether
      the record has the name even if what lies behind the record is compared too. */
  lemma CompareTells(m: Text, at: nat, t: Text, name: Text)
    requires RecordAt(m, at, t) && NoZero(name) && at + |name| < |m|
    ensures m[at..at + |name|] == name && m[at + |name|] == EQ <==> HasName(t, name)
  {
    var n := |name|;
    if |t| > n {
      assert m[at..at + |t|][..n] == m[at..at + n];
      assert m[at + n] == t[n];
      assert t[..n + 1] == t[..n] + [t[n]];
      if HasName(t, name) {
        assert t[..n] == (name + [EQ])[..n] == name;
        assert t[n] == (name + [EQ])[n];
      }
    } else if |t| < n {
      assert m[at..at + n][|t|] == 0;
    }
  }

  // ---------------------------------------------------------------- varbuf_append

  class Buffer {
    const mem: array<u8>
    const capacity: nat
    var buf: nat
    var size: nat
    ghost var records: seq<Text>
    ghost var overflow: bool

    ghost predicate Valid()
      reads this, mem
    {
      && capacity <= mem.Length && buf <= capacity && Table(mem[..], buf, records)
      && size == if overflow then 0 else capacity - buf
    }

    ghost function View(): State
      reads this
    {
      State(records, overflow)
    }

    /** varbuf_init. */
    constructor (mem: array<u8>, capacity: nat)
      requires capacity <= mem.Length
      ensures Valid() && this.mem == mem && this.capacity == capacity && View() == State([], false)
    {
      this.mem, this.capacity := mem, capacity;
      buf, size, records, overflow := 0, capacity, [], false;
    }

    /** vsnprintf: as much of the text as fits, and a zero. */
    method Print(t: Text)
      requires buf + size <= mem.Length && size > 0
      modifies mem
      ensures mem[..buf] == old(mem[..buf])
      ensures |t| < size ==> mem[buf..buf + |t|] == t && mem[buf + |t|] == 0
      ensures mem[buf + size..] == old(mem[buf + size..])
    {
      var n := if |t| < size then |t| else size - 1;
      forall k | 0 <= k < n { mem[buf + k] := t[k]; }
      mem[buf + n] := 0;
    }

    /** strchr(b->buf, '='): its distance from buf, or none. */
    method FindName(t: Text) returns (len: Option<nat>)
      requires buf <= mem.Length && RecordAt(mem[..], buf, t)
      ensures len == if Sets(t) then Some(FindEq(t)) else None
    {
      var k := 0;
      while mem[buf + k] != 0
        invariant 0 <= k <= |t| && forall j :: 0 <= j < k ==> t[j] != EQ
        decreases |t| - k
      {
        assert k < |t|;
        assert mem[..][buf..buf + |t|][k] == mem[buf + k];
        if mem[buf + k] == EQ { return Some(k); }
        k := k + 1;
      }
      ZeroIsEnd(mem[..], buf, t, buf + k);
      len := None;
    }

    /** The search for an earlier record of the name in mem[buf..buf+len]. */
    method FindRecord(t: Text, len: nat) returns (s: nat, ghost i: nat)
      requires Valid() && RecordAt(mem[..], buf, t) && len == FindEq(t) < |t|
      ensures i == IndexOf(records, NameOf(t)) && s == |Flat(records[..i])| <= buf
      ensures s == buf <==> i == |records|
    {
      hide FindEq, HasName, Flat, Table;
      ghost var name := NameOf(t);
      NameInMemory(mem[..], buf, t);
      s, i := 0, 0;
      TableEnd(records);
      SizeIs(mem[..], buf, records);
      while s < buf
        invariant i <= |records| && s == |Flat(records[..i])| <= buf
        invariant i == |records| ==> s == buf
        invariant forall j :: 0 <= j < i ==> !HasName(records[j], name)
      {
        if i == |records| { assert false; }
        TableRecord(mem[..], buf, records, i);
        CompareTells(mem[..], s, records[i], name);
        if mem[s..s + len] == mem[buf..buf + len] && mem[s + len] == EQ { return; }
        s := SkipRecord(mem[..], s, records[i]);
        i := i + 1;
        TableEnd(records);
      }
      if i < |records| { TableRecord(mem[..], buf, records, i); }
    }

    /** memmove of mem[from..end] down to mem[to..]. */
    method MoveDown(to: nat, from: nat, end: nat)
      requires to <= from <= end <= mem.Length
      modifies mem
      ensures Moved(old(mem[..]), mem[..], to, from, end)
    {
      var tmp := mem[from..end];
      forall k | 0 <= k < |tmp| { mem[to + k] := tmp[k]; }
    }

    /** varbuf_append of a text that vsnprintf makes; formatted is false when it reports an error. */
    method Append(t: Text, formatted: bool) returns (r: nat)
      requires Valid() && NoZero(t)
      modifies this, mem
      ensures Valid()
      ensures formatted ==> View() == Appended(old(View()), t, capacity)
      ensures !formatted ==> records == old(records)
      ensures r == if formatted && |t| + 2 <= old(size) then |t| + 1 else 0
      ensures r == if formatted && !old(overflow) && old(Fits(records, t, capacity)) then |t| + 1 else 0
      ensures overflow || buf + size == capacity
    {
      hide Flat, Replaced, RecordAt;
      SizeIs(mem[..], buf, records);
      if size < 2 { return 0; }
      ghost var was := mem[..];
      Print(t);
      StillTable(was, mem[..], buf, records);
      if !formatted || |t| > size - 2 {
        size := 0;
        overflow := true;
        return 0;
      }
      Written(mem[..], buf, t);
      RemoveEarlier(t);
      AddLast(mem[..], buf, records, t);
      ReplacedIs(old(records), records, t);
      records := records + [t];
      r := |t| + 1;
      size := size - r;
      buf := buf + r;
    }

    /** The part of varbuf_append that gives up an earlier record of the same name. */
    method RemoveEarlier(t: Text)
      requires Valid() && !overflow && RecordAt(mem[..], buf, t) && size >= |t| + 2
      modifies this, mem
      ensures Valid() && !overflow && RecordAt(mem[..], buf, t) && size >= |t| + 2
      ensures records == old(if Sets(t) then Without(records, IndexOf(records, NameOf(t))) else records)
    {
      hide Flat, Table, RecordAt, FindEq;
      var eq := FindName(t);
      if eq.None? { return; }
      ghost var i;
      var s;
      s, i := FindRecord(t, eq.value);
      if s < buf {
        var n := RecordLen(s, i);
        ghost var before := mem[..];
        Removal(before, buf, records, i, t);
        MoveDown(s, s + n, buf + |t| + 1);
        Removed(before, mem[..], buf, records, i, t);
        buf := buf - n;
        size := size + n;
        records := Without(records, i);
      }
    }

    /** The zero byte behind the last record, which ends the table. */
    method Close()
      requires Valid() && buf < capacity && AllAssign(records)
      modifies mem
      ensures Valid() && Terminated(mem[..], buf, records)
    {
      hide Table;
      ghost var was := mem[..];
      mem[buf] := 0;
      StillTable(was, mem[..], buf, records);
      NoneEmpty(records);
    }

    /** strlen(s) + 1 at record i. */
    method RecordLen(s: nat, ghost i: nat) returns (n: nat)
      requires Valid() && i < |records| && s == |Flat(records[..i])|
      ensures n == |records[i]| + 1
    {
      TableRecord(mem[..], buf, records, i);
      hide Flat;
      n := 0;
      while mem[s + n] != 0
        invariant 0 <= n <= |records[i]|
        decreases |records[i]| - n
      {
        assert n < |records[i]|;
        n := n + 1;
      }
      ZeroIsEnd(mem[..], s, records[i], s + n);
      n := n + 1;
    }
  }

  lemma Written(m: Text, at: nat, t: Text)
    requires at + |t| < |m| && m[at..at + |t|] == t && m[at + |t|] == 0 && NoZero(t)
    ensures RecordAt(m, at, t)
  {
  }

  lemma SizeIs(m: Text, end: nat, rs: seq<Text>)
    requires Table(m, end, rs)
    ensures |Flat(rs)| == end
  {
  }

  lemma StillTable(was: Text, m: Text, end: nat, rs: seq<Text>)
    requires Table(was, end, rs) && |m| == |was| && m[..end] == was[..end]
    ensures Table(m, end, rs)
  {
  }

  lemma Removal(m: Text, end: nat, rs: seq<Text>, i: nat, t: Text)
    requires Table(m, end, rs) && RecordAt(m, end, t) && i < |rs|
    ensures |Flat(rs[..i])| + |rs[i]| + 1 <= end < end + |t| + 1 <= |m|
  {
    TableRecord(m, end, rs, i);
  }

  /** q is m with the bytes from b to c moved down to a. */
  predicate Moved(m: Text, q: Text, a: nat, b: nat, c: nat)
  {
    a <= b <= c <= |m| == |q| && q[..a] == m[..a] && q[a..a + (c - b)] == m[b..c]
  }

  lemma MovedSlice(m: Text, q: Text, a: nat, b: nat, c: nat, i: nat, j: nat)
    requires Moved(m, q, a, b, c) && b <= i <= j <= c
    ensures q[i - (b - a)..j - (b - a)] == m[i..j]
  {
    SliceOfSlice(q, a, a + (c - b), i - b, j - b);
    SliceOfSlice(m, b, c, i - b, j - b);
  }

  /** Moving what follows record i down over it removes it, and brings the new text behind the rest. */
  lemma Removed(m: Text, q: Text, end: nat, rs: seq<Text>, i: nat, t: Text)
    requires Table(m, end, rs) && RecordAt(m, end, t) && i < |rs|
    requires var s := |Flat(rs[..i])|; Moved(m, q, s, s + |rs[i]| + 1, end + |t| + 1)
    ensures var n := |rs[i]| + 1; n <= end && Table(q, end - n, Without(rs, i)) && RecordAt(q, end - n, t)
  {
    hide Flat, Table, RecordAt, Moved;
    Removal(m, end, rs, i, t);
    RemovedTable(m, q, end, rs, i, end + |t| + 1);
    var s := |Flat(rs[..i])|;
    MovedRecord(m, q, s, s + |rs[i]| + 1, end + |t| + 1, end, t);
  }

  lemma MovedRecord(m: Text, q: Text, a: nat, b: nat, c: nat, at: nat, t: Text)
    requires Moved(m, q, a, b, c) && RecordAt(m, at, t) && b <= at && at + |t| + 1 <= c
    ensures RecordAt(q, at - (b - a), t)
  {
    MovedSlice(m, q, a, b, c, at, at + |t|);
    MovedSlice(m, q, a, b, c, at + |t|, at + |t| + 1);
    assert q[at + |t| - (b - a)] == q[at + |t| - (b - a)..at + |t| + 1 - (b - a)][0];
    assert m[at + |t|] == m[at + |t|..at + |t| + 1][0];
  }

  lemma RemovedTable(m: Text, q: Text, end: nat, rs: seq<Text>, i: nat, c: nat)
    requires Table(m, end, rs) && i < |rs|
    requires var s := |Flat(rs[..i])|; s + |rs[i]| + 1 <= end <= c && Moved(m, q, s, s + |rs[i]| + 1, c)
    ensures var n := |rs[i]| + 1; n <= end && Table(q, end - n, Without(rs, i))
  {
    hide Flat, Moved;
    FlatAround(rs, i);
    var s, n := |Flat(rs[..i])|, |rs[i]| + 1;
    MovedParts(m, q, s, s + n, c, end);
    assert Flat(rs)[..s] == Flat(rs[..i]) && Flat(rs)[s + n..] == Flat(rs[i + 1..]);
  }

  lemma MovedParts(m: Text, q: Text, a: nat, b: nat, c: nat, end: nat)
    requires Moved(m, q, a, b, c) && b <= end <= c
    ensures a <= b <= |m| == |q| && q[..end - (b - a)] == m[..end][..a] + m[..end][b..]
  {
    MovedSlice(m, q, a, b, c, b, end);
    SliceOfSlice(m, 0, end, 0, a);
    SliceOfSlice(m, 0, end, b, end);
    assert m[..end] == m[0..end];
    assert q[..end - (b - a)] == q[..a] + q[a..end - (b - a)];
  }

  lemma AddLast(m: Text, end: nat, rs: seq<Text>, t: Text)
    requires Table(m, end, rs) && RecordAt(m, end, t)
    ensures end + |t| + 1 <= |m| && Table(m, end + |t| + 1, rs + [t])
  {
    FlatConcat(rs, [t]);
    FlatOne(t);
    hide Flat;
    assert m[..end + |t| + 1] == m[..end] + (m[end..end + |t|] + [m[end + |t|]]);
  }

  lemma ReplacedIs(rs: seq<Text>, rest: seq<Text>, t: Text)
    requires rest == if Sets(t) then Without(rs, IndexOf(rs, NameOf(t))) else rs
    ensures rest + [t] == Replaced(rs, t)
  {
  }

  lemma NameInMemory(m: Text, at: nat, t: Text)
    requires RecordAt(m, at, t) && FindEq(t) < |t|
    ensures m[at..at + FindEq(t)] == NameOf(t) && NoZero(NameOf(t))
  {
    hide FindEq;
    SliceOfSlice(m, at, at + |t|, 0, FindEq(t));
  }

  lemma ZeroIsEnd(m: Text, at: nat, t: Text, s: nat)
    requires RecordAt(m, at, t) && at <= s <= at + |t| && m[s] == 0
    ensures s == at + |t|
  {
    if s < at + |t| { NotZero(m, at, t, s); }
  }

  lemma NotZero(m: Text, at: nat, t: Text, s: nat)
    requires RecordAt(m, at, t) && at <= s < at + |t|
    ensures m[s] == t[s - at] != 0
  {
    assert m[at..at + |t|][s - at] == m[s];
  }

  // ---------------------------------------------------------------- getvar_internal

  /** A table whose end is marked: no record is empty, and a zero byte stands behind the last. */
  predicate Terminated(m: Text, end: nat, rs: seq<Text>)
  {
    Table(m, end, rs) && end < |m| && m[end] == 0 && forall k :: 0 <= k < |rs| ==> |rs[k]| > 0
  }

  /** Room for the zero behind the table is always kept. */
  lemma RoomForEnd(s: State, t: Text, capacity: nat)
    requires |Flat(s.records)| < capacity
    ensures |Flat(Appended(s, t, capacity).records)| < capacity
  {
    var rs := s.records;
    var k := IndexOf(rs, NameOf(t));
    var rest := if Sets(t) then Without(rs, k) else rs;
    FlatConcat(rest, [t]);
    FlatOne(t);
    if k < |rs| { FlatAround(rs, k); }
    hide Flat;
  }

  /** The comparison with a record: bcmp of the whole name, which may look at bytes behind the record,
      and then the byte behind it. */
  method CompareName(m: Text, s: nat, name: Text, ghost t: Text) returns (same: bool)
    requires RecordAt(m, s, t) && NoZero(name) && s + |name| < |m|
    ensures same == HasName(t, name)
  {
    hide RecordAt, HasName, NoZero;
    var equal := true;
    for k := 0 to |name|
      invariant equal == (m[s..s + k] == name[..k])
    {
      assert m[s..s + k + 1] == m[s..s + k] + [m[s + k]] && name[..k + 1] == name[..k] + [name[k]];
      if m[s + k] != name[k] { equal := false; }
    }
    same := equal && m[s + |name|] == EQ;
    CompareTells(m, s, t, name);
  }

  lemma ValueAt(m: Text, s: nat, t: Text, n: nat)
    requires RecordAt(m, s, t) && n <= |t|
    ensures RecordAt(m, s + n, t[n..])
  {
    SliceOfSlice(m, s, s + |t|, n, |t|);
    assert t[n..] == t[n..|t|];
  }

  /** Where a variable was found: in the table at this place, or in the nvram. */
  datatype Found = InTable(at: nat) | InNvram(value: Text) | NotFound

  /** getvar_internal: first the table, then the nvram. No table at all is like an empty one. */
  method GetVar(vars: Option<Text>, name: Option<Text>, nvram: Text -> Option<Text>,
                ghost end: nat, ghost rs: seq<Text>)
    returns (r: Found)
    requires if vars.Some? then Terminated(vars.value, end, rs) else rs == []
    requires vars.Some? && name.Some? ==> end + |name.value| <= |vars.value|
    requires name.Some? ==> NoZero(name.value)
    ensures name == None || name == Some([]) ==> r == NotFound
    ensures name.Some? && name.value != [] ==>
      match Lookup(rs, name.value)
      case Some(v) => r.InTable? && vars.Some? && RecordAt(vars.value, r.at, v)
      case None => r == match nvram(name.value) case Some(v) => InNvram(v) case None => NotFound
  {
    hide Flat, RecordAt, HasName, Terminated, Lookup;
    if name.None? { return NotFound; }
    if |name.value| == 0 { return NotFound; }
    EmptyLookup(name.value);
    if vars.Some? {
      var ptr := LookInTable(vars.value, name.value, end, rs);
      if ptr.Some? { return InTable(ptr.value); }
    }
    var value := nvram(name.value);
    r := if value.Some? then InNvram(value.value) else NotFound;
  }

  lemma EmptyLookup(name: Text)
    ensures Lookup([], name) == None
  {
  }

  /** The walk over the table: a pointer to the value looked for. As many bytes as the name has are read
      at each record, so that many must be readable behind the table. */
  method LookInTable(m: Text, name: Text, ghost end: nat, ghost rs: seq<Text>) returns (ptr: Option<nat>)
    requires Terminated(m, end, rs) && NoZero(name) && name != [] && end + |name| <= |m|
    ensures ptr.None? <==> Lookup(rs, name) == None
    ensures ptr.Some? ==> Lookup(rs, name).Some? && RecordAt(m, ptr.value, Lookup(rs, name).value)
  {
    hide Flat, RecordAt, HasName;
    var s := 0;
    ghost var i := 0;
    TableEnd(rs);
    AtRecord(m, end, rs, 0);
    while m[s] != 0
      invariant 0 <= i <= |rs| && s == |Flat(rs[..i])| <= end
      invariant i < |rs| ==> RecordAt(m, s, rs[i])
      invariant m[s] == 0 <==> i == |rs|
      invariant forall j :: 0 <= j < i ==> !HasName(rs[j], name)
      decreases end - s
    {
      TableRecord(m, end, rs, i);
      var same := CompareName(m, s, name, rs[i]);
      if same {
        HasLength(rs[i], name);
        ValueAt(m, s, rs[i], |name| + 1);
        return Some(s + |name| + 1);
      }
      s := SkipRecord(m, s, rs[i]);
      i := i + 1;
      AtRecord(m, end, rs, i);
    }
    ptr := None;
  }

  lemma HasLength(t: Text, name: Text)
    requires HasName(t, name)
    ensures |name| < |t|
  {
  }

  /** The step to the next record. */
  method SkipRecord(m: Text, s: nat, ghost t: Text) returns (next: nat)
    requires RecordAt(m, s, t)
    ensures next == s + |t| + 1
  {
    next := s;
    while m[next] != 0
      invariant s <= next <= s + |t|
      decreases s + |t| - next
    {
      assert next < s + |t|;
      next := next + 1;
    }
    ZeroIsEnd(m, s, t, next);
    next := next + 1;
  }

  lemma AtRecord(m: Text, end: nat, rs: seq<Text>, i: nat)
    requires Terminated(m, end, rs) && i <= |rs|
    ensures var s := |Flat(rs[..i])|;
      s <= end && (i < |rs| ==> RecordAt(m, s, rs[i])) && (m[s] == 0 <==> i == |rs|)
  {
    if i < |rs| {
      TableRecord(m, end, rs, i);
      NotZero(m, |Flat(rs[..i])|, rs[i], |Flat(rs[..i])|);
    } else {
      assert rs[..i] == rs;
    }
  }

  lemma NoneEmpty(rs: seq<Text>)
    requires AllAssign(rs)
    ensures forall k :: 0 <= k < |rs| ==> |rs[k]| > 0
  {
    hide FindEq;
    forall k | 0 <= k < |rs| ensures |rs[k]| > 0 { assert Assignment(rs[k]); }
  }

  lemma {:induction false} RunHasRoom(ts: seq<Text>, capacity: nat)
    requires capacity > 0
    ensures |Flat(Run(ts, capacity).records)| < capacity
    decreases |ts|
  {
    hide Appended, Flat;
    if ts == [] {
      NothingFlat();
    } else {
      RunHasRoom(ts[..|ts| - 1], capacity);
      RoomForEnd(Run(ts[..|ts| - 1], capacity), ts[|ts| - 1], capacity);
    }
  }

  lemma NothingFlat()
    ensures |Flat([])| == 0
  {
  }

  lemma RunMore(ts: seq<Text>, k: nat, capacity: nat)
    requires k < |ts|
    ensures Run(ts[..k + 1], capacity) == Appended(Run(ts[..k], capacity), ts[k], capacity)
  {
    hide Appended;
    assert ts[..k + 1][..k] == ts[..k];
  }

  /** A buffer led through a run of appends, closed, and then asked for a name: the answer is the value
      last appended for it before the first append that did not fit, and the nvram's if there is none. */
  method AppendAndGet(mem: array<u8>, capacity: nat, ts: seq<Text>, name: Text, nvram: Text -> Option<Text>)
    returns (r: Found)
    requires 0 < capacity && capacity + |name| <= mem.Length && AllAssign(ts) && Plain(name)
    modifies mem
    ensures
      match LastValue(ts[..Accepted(ts, capacity)], name)
      case Some(v) => r.InTable? && RecordAt(mem[..], r.at, v)
      case None => r == match nvram(name) case Some(v) => InNvram(v) case None => NotFound
  {
    hide Appended, Accepted, LastValue, Table, RecordAt, Run, Lookup, OnePerName, Flat, Terminated, FindEq;
    var b := new Buffer(mem, capacity);
    assert ts[..0] == [];
    RunStarts(capacity);
    for k := 0 to |ts|
      invariant fresh(b) && b.Valid() && b.mem == mem && b.capacity == capacity
      invariant b.View() == Run(ts[..k], capacity)
    {
      assert Assignment(ts[k]);
      RunMore(ts, k, capacity);
      var taken := b.Append(ts[k], true);
    }
    assert ts[..|ts|] == ts;
    RunHasRoom(ts, capacity);
    RunKeeps(ts, capacity);
    SizeIs(mem[..], b.buf, b.records);
    b.Close();
    RunLookup(ts, capacity, name);
    r := GetVar(Some(mem[..]), Some(name), nvram, b.buf, b.records);
  }

  lemma RunStarts(capacity: nat)
    ensures Run([], capacity) == State([], false)
  {
  }

  const A1: Text := [0x61, 0x3D, 0x31]
  const A2: Text := [0x61, 0x3D, 0x32]

  lemma TwoValues()
    ensures Appended(State([], false), A1, 7) == State([A1], false)
    ensures Appended(State([A1], false), A2, 7) == State([A1], true) && !Fits([A1], A2, 7)
    ensures Replaced([A1], A2) == [A2] && |Flat([A2])| == 4 && NoZero(A1) && NoZero(A2)
  {
    hide Flat, FindEq, IndexOf;
    FlatOne(A1);
    FlatOne(A2);
    NothingFlat();
    NameIsA();
    assert Replaced([], A1) == [A1];
    assert Replaced([A1], A2) == [A2];
  }

  lemma NameIsA()
    ensures Sets(A1) && Sets(A2) && IndexOf([], NameOf(A1)) == 0 && IndexOf([A1], NameOf(A2)) == 0
  {
    assert A1[1..][0] == EQ && A2[1..][0] == EQ;
    assert FindEq(A1) == 1 && FindEq(A2) == 1;
    assert NameOf(A2) + [EQ] == [0x61, EQ] == A1[..2];
    assert HasName(A1, NameOf(A2));
  }

  /** A new value for a name refused although it would fit in place of the old one, in seven bytes. */
  method RefusedReplacement() returns (b: Buffer, r: nat)
    ensures r == 0 && b.Valid() && b.records == [A1] && b.overflow && b.capacity == 7
    ensures |Flat(Replaced([A1], A2))| + 1 <= 7
  {
    hide Appended, Table, RecordAt, Flat, Replaced, FindEq;
    TwoValues();
    var mem := new u8[7](_ => 0);
    b := new Buffer(mem, 7);
    var first := b.Append(A1, true);
    r := b.Append(A2, true);
  }
}
