/** The run-length compressed log of 802.11 sequence numbers (bcmutils.c: dbg_seq_log_seq, compressed
    format), for one module id. An entry holds a number of twelve bits and marks the start of a run
    of consecutive numbers, its end, or both. */
module SeqLog {
  import opened Bits
  import opened Common

  const DBG_SEQ_SEQ_LOG_MAX := 10000
  const SEQNUM_MAX := 0x1000
  const SEQ_BITS := 12

  const START := 1
  const END := 2

  type Entry = u16

  /** (seq & MASK) | flags, the flags being bits twelve and thirteen. */
  function Make(seq_: u16, flags: nat): Entry
    requires flags < 4
  {
    MakeSmall(seq_, flags);
    Or(Shl(flags, SEQ_BITS), Low(seq_, SEQ_BITS))
  }

  predicate Starts(e: Entry) { Bit(e, SEQ_BITS) }

  predicate Ends(e: Entry) { Bit(e, SEQ_BITS + 1) }

  function Number(e: Entry): (n: nat)
    ensures n < SEQNUM_MAX
  {
    assert Pow2(SEQ_BITS) == SEQNUM_MAX;
    Low(e, SEQ_BITS)
  }

  /** The entry with DBG_SEQ_SEQ_END added. */
  function Ended(e: Entry): Entry
  {
    EndedSmall(e);
    Or(e, Shl(END, SEQ_BITS))
  }

  lemma MakeSmall(seq_: u16, flags: nat)
    requires flags < 4
    ensures Or(Shl(flags, SEQ_BITS), Low(seq_, SEQ_BITS)) < 0x1_0000
  {
    Pow2Values();
    ShlBound(flags, SEQ_BITS, 2);
    assert Pow2(2) == 4;
    Pow2Mono(14, 16);
    Pow2Mono(12, 16);
    OrBound(Shl(flags, SEQ_BITS), Low(seq_, SEQ_BITS), 16);
  }

  lemma EndedSmall(e: Entry)
    ensures Or(e, Shl(END, SEQ_BITS)) < 0x1_0000
  {
    Pow2Values();
    ShlBound(END, SEQ_BITS, 2);
    assert Pow2(2) == 4;
    Pow2Mono(14, 16);
    OrBound(e, Shl(END, SEQ_BITS), 16);
  }

  /** Where the bits of an entry come from. */
  lemma MakeBit(n: u16, flags: nat, i: nat)
    requires flags < 4
    ensures Bit(Make(n, flags), i) == if i < SEQ_BITS then Bit(n, i) else Bit(flags, i - SEQ_BITS)
  {
    hide Bit, Or, Shl, Low, Pow2;
    OrBit(Shl(flags, SEQ_BITS), Low(n, SEQ_BITS), i);
    ShlBit(flags, SEQ_BITS, i);
    LowBit(n, SEQ_BITS, i);
  }

  lemma MakeParts(n: u16, flags: nat)
    requires n < SEQNUM_MAX && flags < 4
    ensures Starts(Make(n, flags)) == (flags % 2 == 1) && Ends(Make(n, flags)) == (flags / 2 == 1)
    ensures Number(Make(n, flags)) == n
  {
    hide Bit, Make, Number;
    TwoBits(flags);
    MakeBit(n, flags, SEQ_BITS);
    MakeBit(n, flags, SEQ_BITS + 1);
    MakeNumber(n, flags);
  }

  lemma MakeNumber(n: u16, flags: nat)
    requires n < SEQNUM_MAX && flags < 4
    ensures Number(Make(n, flags)) == n
  {
    SeqBound();
    hide Bit, Make, Low, Pow2;
    var e := Make(n, flags);
    forall i: nat | i < SEQ_BITS ensures Bit(Low(e, SEQ_BITS), i) == Bit(n, i) {
      LowBit(e, SEQ_BITS, i);
      MakeBit(n, flags, i);
    }
    SameBits(Low(e, SEQ_BITS), n, SEQ_BITS);
  }

  /** The sixteen bits of an entry in one number. */
  lemma EntryValue(n: u16, flags: nat)
    requires n < 0x1000 && flags < 4
    ensures Make(n, flags) == n + 0x1000 * flags
  {
    hide Or, Low, Shl, Pow2;
    SeqBound();
    LowOfSmall(n, SEQ_BITS);
    OrIsAdd(flags, SEQ_BITS, n);
    ShlIsMul(flags, SEQ_BITS);
  }

  lemma SeqBound()
    ensures Pow2(SEQ_BITS) == SEQNUM_MAX
  {
  }

  lemma TwoBits(flags: nat)
    requires flags < 4
    ensures Bit(flags, 0) == (flags % 2 == 1) && Bit(flags, 1) == (flags / 2 == 1)
  {
  }

  lemma EndedParts(n: u16)
    requires n < SEQNUM_MAX
    ensures Ended(Make(n, START)) == Make(n, START + END)
  {
    hide Bit, Or, Shl, Low, Pow2;
    var a, b := Ended(Make(n, START)), Make(n, START + END);
    Pow2Values();
    forall i: nat | i < 16 ensures Bit(a, i) == Bit(b, i) {
      OrBit(Make(n, START), Shl(END, SEQ_BITS), i);
      OrBit(Shl(START, SEQ_BITS), Low(n, SEQ_BITS), i);
      OrBit(Shl(START + END, SEQ_BITS), Low(n, SEQ_BITS), i);
      ShlBit(END, SEQ_BITS, i);
      ShlBit(START, SEQ_BITS, i);
      ShlBit(START + END, SEQ_BITS, i);
      if i >= SEQ_BITS { SplitBits(i - SEQ_BITS); }
    }
    SameBits(a, b, 16);
  }

  lemma SplitBits(i: nat)
    ensures Bit(START + END, i) == (Bit(START, i) || Bit(END, i))
  {
    if i > 1 {
      BitOfZero(i - 2);
      assert Bit(START + END, i) == Bit(1, i - 1) == Bit(0, i - 2);
    }
  }

  // ---------------------------------------------------------------- reference: logging without a ring

  /** All entries ever made, the last number logged and the number expected next. */
  datatype State = State(es: seq<Entry>, last: u16, expected: u16)

  const Empty := State([], 0, 0)

  /** Is a run open in the last entry? */
  predicate Open(s: State) { s.es != [] && Starts(s.es[|s.es| - 1]) && !Ends(s.es[|s.es| - 1]) }

  function Closed(s: State): seq<Entry>
    requires Open(s)
  {
    var n := |s.es| - 1;
    if Number(s.es[n]) == s.last then s.es[n := Ended(s.es[n])] else s.es + [Make(s.last, END)]
  }

  function Expected(seq_: u16): u16 { (seq_ + 1) % SEQNUM_MAX }

  function Log(s: State, seq_: u16): State
  {
    var es :=
      if !Open(s) then s.es + [Make(seq_, START)]
      else if seq_ != s.expected || seq_ == 0 then Closed(s) + [Make(seq_, START)]
      else s.es;
    State(es, seq_, Expected(seq_))
  }

  function LogAll(l: seq<u16>): State
  {
    if l == [] then Empty else Log(LogAll(l[..|l| - 1]), l[|l| - 1])
  }

  // ---------------------------------------------------------------- reading the log

  function Range(a: nat, b: nat): (r: seq<nat>)
    ensures |r| == if a <= b then b - a + 1 else 0
    ensures forall k :: 0 <= k < |r| ==> r[k] == a + k
    decreases b + 1 - a
  {
    if a > b then [] else [a] + Range(a + 1, b)
  }

  /** The numbers a list of entries stands for; a run still open ends with the last number logged. */
  function Decode(es: seq<Entry>, last: u16): seq<nat>
    decreases |es|
  {
    if es == [] || !Starts(es[0]) then []
    else if Ends(es[0]) then [Number(es[0])] + Decode(es[1..], last)
    else if |es| == 1 then Range(Number(es[0]), last)
    else Range(Number(es[0]), Number(es[1])) + Decode(es[2..], last)
  }

  /** Complete runs: a start and an end that is greater, or one entry that is both. */
  predicate Complete(es: seq<Entry>)
    decreases |es|
  {
    es == [] || (Starts(es[0]) &&
    if Ends(es[0]) then Complete(es[1..])
    else |es| >= 2 && Ends(es[1]) && !Starts(es[1]) && Number(es[0]) < Number(es[1]) && Complete(es[2..]))
  }

  /** Complete runs and then one open, whose numbers do not pass through zero. */
  predicate Proper(s: State)
  {
    && |s.es| > 0 && Complete(s.es[..|s.es| - 1])
    && Open(s) && Number(s.es[|s.es| - 1]) <= s.last < SEQNUM_MAX
    && s.expected == Expected(s.last)
  }

  lemma {:induction false} DecodeOpen(es: seq<Entry>, e: Entry, last: u16)
    requires Complete(es) && Starts(e) && !Ends(e)
    ensures Decode(es + [e], last) == Decode(es, last) + Range(Number(e), last)
    decreases |es|
  {
    hide Number, Starts, Ends, Range;
    if es == [] {
      assert es + [e] == [e];
    } else if Ends(es[0]) {
      assert (es + [e])[1..] == es[1..] + [e];
      DecodeOpen(es[1..], e, last);
    } else {
      assert (es + [e])[2..] == es[2..] + [e];
      DecodeOpen(es[2..], e, last);
    }
  }

  /** The first run of a list of entries. */
  lemma FirstRun(es: seq<Entry>, last: u16)
    requires es != []
    ensures Complete(es) ==> Starts(es[0]) && (Ends(es[0]) || |es| >= 2)
    ensures Starts(es[0]) && Ends(es[0]) ==>
      Decode(es, last) == [Number(es[0])] + Decode(es[1..], last) && Complete(es) == Complete(es[1..])
    ensures Starts(es[0]) && !Ends(es[0]) && |es| >= 2 ==>
      Decode(es, last) == Range(Number(es[0]), Number(es[1])) + Decode(es[2..], last) &&
      Complete(es) == (Ends(es[1]) && !Starts(es[1]) && Number(es[0]) < Number(es[1]) && Complete(es[2..]))
  {
    hide Number, Starts, Ends, Range;
  }

  lemma Associative(a: seq<nat>, b: seq<nat>, c: seq<nat>)
    ensures a + (b + c) == (a + b) + c
  {
  }

  /** Complete runs followed by one more. */
  lemma {:induction false} CompleteMore(es: seq<Entry>, run: seq<Entry>, last: u16)
    requires Complete(es) && Complete(run)
    ensures Complete(es + run) && Decode(es + run, last) == Decode(es, last) + Decode(run, last)
    decreases |es|
  {
    hide Number, Starts, Ends, Range, Complete, Decode;
    var all := es + run;
    if es == [] {
      assert all == run;
      NothingDecoded(last);
    } else if Ends(es[0]) {
      FirstRun(es, last);
      FirstRun(all, last);
      assert all[1..] == es[1..] + run;
      CompleteMore(es[1..], run, last);
      Associative([Number(es[0])], Decode(es[1..], last), Decode(run, last));
    } else {
      FirstRun(es, last);
      FirstRun(all, last);
      assert all[2..] == es[2..] + run;
      CompleteMore(es[2..], run, last);
      Associative(Range(Number(es[0]), Number(es[1])), Decode(es[2..], last), Decode(run, last));
    }
  }

  lemma NothingDecoded(last: u16)
    ensures Decode([], last) == []
  {
  }

  /** The last number does not matter to complete runs. */
  lemma {:induction false} LastUnused(es: seq<Entry>, a: u16, b: u16)
    requires Complete(es)
    ensures Decode(es, a) == Decode(es, b)
    decreases |es|
  {
    hide Number, Starts, Ends, Range;
    if es != [] { LastUnused(if Ends(es[0]) then es[1..] else es[2..], a, b); }
  }

  /** Closing the open run completes it, whether in place or with an end entry. */
  lemma CloseRun(s: State)
    requires Proper(s)
    requires s.es[|s.es| - 1] == Make(Number(s.es[|s.es| - 1]), START)
    ensures Complete(Closed(s)) && Decode(Closed(s), 0) == Decode(s.es, s.last)
  {
    hide Starts, Ends, Number, Make, Ended, Complete, Decode, Range;
    var n := |s.es| - 1;
    var first, done := Number(s.es[n]), s.es[..n];
    assert s.es == done + [s.es[n]];
    DecodeOpen(done, s.es[n], s.last);
    LastUnused(done, s.last, 0);
    if first == s.last {
      EndedParts(first);
      SingleRun(first);
      CompleteMore(done, [Make(first, START + END)], 0);
      assert Closed(s) == done + [Make(first, START + END)];
    } else {
      LongRun(first, s.last);
      CompleteMore(done, [s.es[n], Make(s.last, END)], 0);
      assert Closed(s) == done + [s.es[n], Make(s.last, END)];
    }
  }

  lemma SingleRun(n: u16)
    requires n < SEQNUM_MAX
    ensures Complete([Make(n, START + END)]) && Decode([Make(n, START + END)], 0) == Range(n, n)
  {
    hide Starts, Ends, Number, Make;
    MakeParts(n, START + END);
    var run := [Make(n, START + END)];
    assert run[1..] == [];
    assert Decode(run, 0) == [Number(run[0])] + Decode([], 0);
  }

  lemma LongRun(a: u16, b: u16)
    requires a < b < SEQNUM_MAX
    ensures Complete([Make(a, START), Make(b, END)]) && Decode([Make(a, START), Make(b, END)], 0) == Range(a, b)
  {
    hide Starts, Ends, Number, Make, Range;
    MakeParts(a, START);
    MakeParts(b, END);
    var run := [Make(a, START), Make(b, END)];
    assert run[2..] == [];
    assert Decode(run, 0) == Range(Number(run[0]), Number(run[1])) + Decode([], 0);
  }

  /** The state after a log: proper, its last entry a bare start, its decoding what was logged. */
  predicate Faithful(s: State, l: seq<u16>)
  {
    if l == [] then s == Empty
    else
      && Proper(s) && s.es[|s.es| - 1] == Make(Number(s.es[|s.es| - 1]), START)
      && s.last == l[|l| - 1] && Decode(s.es, s.last) == l
  }

  lemma OpenNew(es: seq<Entry>, seq_: u16)
    requires Complete(es) && seq_ < SEQNUM_MAX
    ensures var s := State(es + [Make(seq_, START)], seq_, Expected(seq_));
      && Proper(s) && s.es[|s.es| - 1] == Make(Number(s.es[|s.es| - 1]), START)
      && Decode(s.es, seq_) == Decode(es, 0) + [seq_]
  {
    var s := State(es + [Make(seq_, START)], seq_, Expected(seq_));
    MakeParts(seq_, START);
    hide Starts, Ends, Number, Make, Complete;
    assert s.es[..|s.es| - 1] == es;
    DecodeOpen(es, Make(seq_, START), seq_);
    LastUnused(es, seq_, 0);
    assert Range(seq_, seq_) == [seq_];
  }

  lemma LogKeeps(s: State, l: seq<u16>, seq_: u16)
    requires Faithful(s, l) && seq_ < SEQNUM_MAX
    ensures Faithful(Log(s, seq_), l + [seq_])
  {
    hide Starts, Ends, Number, Make, Complete, Decode;
    if l == [] {
      FirstLogged(seq_);
    } else if seq_ != s.expected || seq_ == 0 {
      hide Proper, Closed;
      CloseRun(s);
      OpenNew(Closed(s), seq_);
    } else {
      GoesOn(s, l, seq_);
    }
  }

  lemma FirstLogged(seq_: u16)
    requires seq_ < SEQNUM_MAX
    ensures Faithful(Log(Empty, seq_), [seq_])
  {
    hide Starts, Ends, Number, Make, Complete, Decode, Proper;
    NothingComplete();
    OpenNew([], seq_);
    assert [] + [Make(seq_, START)] == [Make(seq_, START)];
  }

  /** The number expected makes the open run longer. */
  lemma GoesOn(s: State, l: seq<u16>, seq_: u16)
    requires Faithful(s, l) && l != [] && seq_ == s.expected != 0 && seq_ < SEQNUM_MAX
    ensures Faithful(Log(s, seq_), l + [seq_])
  {
    hide Starts, Ends, Number, Make, Complete, Decode;
    var n := |s.es| - 1;
    assert s.es == s.es[..n] + [s.es[n]];
    DecodeOpen(s.es[..n], s.es[n], s.last);
    DecodeOpen(s.es[..n], s.es[n], seq_);
    LastUnused(s.es[..n], s.last, seq_);
    RangeMore(Number(s.es[n]), s.last);
  }

  lemma RangeMore(a: nat, b: nat)
    requires a <= b
    ensures Range(a, b + 1) == Range(a, b) + [b + 1]
  {
  }

  lemma NothingComplete()
    ensures Complete([]) && Decode([], 0) == []
  {
  }

  /** Decoding the entries gives back exactly the numbers logged, whatever they were. */
  lemma {:induction false} DecodeOfLog(l: seq<u16>)
    requires forall k :: 0 <= k < |l| ==> l[k] < SEQNUM_MAX
    ensures Faithful(LogAll(l), l)
  {
    hide Log, Proper, Decode, Make, Number;
    if l != [] {
      DecodeOfLog(l[..|l| - 1]);
      assert l == l[..|l| - 1] + [l[|l| - 1]];
      hide Faithful;
      LogKeeps(LogAll(l[..|l| - 1]), l[..|l| - 1], l[|l| - 1]);
    }
  }

  lemma {:induction false} CompleteShort(es: seq<Entry>, last: u16)
    requires Complete(es)
    ensures |es| <= |Decode(es, last)|
    decreases |es|
  {
    hide Starts, Ends, Number;
    if es != [] { CompleteShort(if Ends(es[0]) then es[1..] else es[2..], last); }
  }

  /** The compressed log never has more entries than numbers. */
  lemma NeverLonger(l: seq<u16>)
    requires forall k :: 0 <= k < |l| ==> l[k] < SEQNUM_MAX
    ensures |LogAll(l).es| <= |l|
  {
    hide Starts, Ends, Number, LogAll, Make, Decode;
    DecodeOfLog(l);
    if l != [] {
      var s := LogAll(l);
      var n := |s.es| - 1;
      assert s.es == s.es[..n] + [s.es[n]];
      CompleteShort(s.es[..n], s.last);
      DecodeOpen(s.es[..n], s.es[n], s.last);
    }
  }

  // ---------------------------------------------------------------- how short the log is

  /** Does number k of a list begin a run: is it the first, zero, or not one more than the number before? */
  predicate Begins(l: seq<u16>, k: nat)
    requires k < |l|
  {
    k == 0 || l[k] == 0 || l[k] as int != l[k - 1] as int + 1
  }

  /** How many runs of consecutive numbers a list has. */
  function Runs(l: seq<u16>): nat
  {
    if l == [] then 0 else Runs(l[..|l| - 1]) + if Begins(l, |l| - 1) then 1 else 0
  }

  function StartEntries(es: seq<Entry>): nat
  {
    if es == [] then 0 else StartEntries(es[..|es| - 1]) + if Starts(es[|es| - 1]) then 1 else 0
  }

  /** No run goes on where the one before it ended. */
  predicate RunsApart(es: seq<Entry>)
  {
    forall k :: 0 < k < |es| && Starts(es[k]) ==> Number(es[k]) == 0 || Number(es[k]) != Number(es[k - 1]) + 1
  }

  /** The entries after closing the open run: as many starts as before, and the last number at the end. */
  lemma ClosedEnd(s: State)
    requires Open(s) && s.es[|s.es| - 1] == Make(Number(s.es[|s.es| - 1]), START) && s.last < SEQNUM_MAX
    ensures var es := Closed(s);
      && |s.es| <= |es| <= |s.es| + 1 && StartEntries(es) == StartEntries(s.es)
      && Number(es[|es| - 1]) == s.last && (RunsApart(s.es) ==> RunsApart(es))
  {
    hide Make, Number, Ended, Ends;
    var n := |s.es| - 1;
    var first := Number(s.es[n]);
    MakeParts(first, START);
    if first == s.last {
      EndedParts(first);
      MakeParts(first, START + END);
      assert s.es[n := Ended(s.es[n])][..n] == s.es[..n];
    } else {
      MakeParts(s.last, END);
      assert (s.es + [Make(s.last, END)])[..n + 1] == s.es;
    }
  }

  /** There is one entry that starts a run for each run of the numbers, whatever numbers they are, and at
      most one other for each run but the last; and the runs are as long as they can be. */
  lemma {:induction false} OneEntryPerRun(l: seq<u16>)
    requires forall k :: 0 <= k < |l| ==> l[k] < SEQNUM_MAX
    ensures StartEntries(LogAll(l).es) == Runs(l)
    ensures |LogAll(l).es| <= if l == [] then 0 else 2 * Runs(l) - 1
    ensures RunsApart(LogAll(l).es)
  {
    hide Starts, Number, Make, Closed, Faithful, Log, RunsApart, StartEntries;
    NoRuns();
    if l != [] {
      var rest, seq_ := l[..|l| - 1], l[|l| - 1];
      OneEntryPerRun(rest);
      DecodeOfLog(rest);
      LogAllLast(rest);
      EntriesMore(LogAll(rest), rest, seq_);
    }
  }

  lemma NoRuns()
    ensures StartEntries([]) == 0 && RunsApart([])
  {
  }

  /** The same of one number more. */
  lemma EntriesMore(s: State, l: seq<u16>, seq_: u16)
    requires Faithful(s, l) && seq_ < SEQNUM_MAX && RunsApart(s.es)
    requires l != [] ==> s.expected == (l[|l| - 1] + 1) % SEQNUM_MAX
    ensures var begins, es := l == [] || seq_ == 0 || seq_ != l[|l| - 1] + 1, Log(s, seq_).es;
      && RunsApart(es) && StartEntries(es) == StartEntries(s.es) + (if begins then 1 else 0)
      && |es| <= |s.es| + (if !begins then 0 else if l == [] then 1 else 2)
  {
    hide Starts, Ends, Number, Make, Complete, Decode, Closed, RunsApart, StartEntries;
    if l == [] {
      FirstStart(seq_);
      NoRuns();
      assert [] + [Make(seq_, START)] == [Make(seq_, START)];
    } else if seq_ == 0 || seq_ != l[|l| - 1] + 1 {
      ClosedEnd(s);
      OneMoreStart(Closed(s), seq_);
    }
  }

  lemma FirstStart(seq_: u16)
    requires seq_ < SEQNUM_MAX
    ensures StartEntries([Make(seq_, START)]) == 1 && RunsApart([Make(seq_, START)])
  {
    hide Starts, Make;
    MakeParts(seq_, START);
    var es := [Make(seq_, START)];
    assert es[..0] == [];
  }

  lemma OneMoreStart(es: seq<Entry>, seq_: u16)
    requires es != [] && seq_ < SEQNUM_MAX && RunsApart(es)
    requires seq_ == 0 || seq_ != Number(es[|es| - 1]) + 1
    ensures var es' := es + [Make(seq_, START)]; StartEntries(es') == StartEntries(es) + 1 && RunsApart(es')
  {
    hide Starts, Number, Make;
    MakeParts(seq_, START);
    assert (es + [Make(seq_, START)])[..|es|] == es;
  }

  // ---------------------------------------------------------------- reading from the middle of a log

  /** From the first entry on that starts a run. */
  function FromStart(es: seq<Entry>): seq<Entry>
  {
    if es == [] || Starts(es[0]) then es else FromStart(es[1..])
  }

  predicate Suffix(a: seq<nat>, b: seq<nat>) { |a| <= |b| && b[|b| - |a|..] == a }

  lemma SuffixMore(a: seq<nat>, b: seq<nat>, front: seq<nat>)
    requires Suffix(a, b)
    ensures Suffix(a, front + b)
  {
  }

  /** A log cut off in front: at most one entry, the end of a run whose start was lost, has to be
      skipped, and what is left decodes to the last of the numbers. rest are its closed runs. */
  lemma {:induction false} CutInFront(es: seq<Entry>, e: Entry, cut: nat, last: u16) returns (rest: seq<Entry>)
    requires Complete(es) && Starts(e) && !Ends(e) && cut <= |es|
    ensures FromStart((es + [e])[cut..]) == rest + [e] && Complete(rest) && |rest| + cut + 1 >= |es|
    ensures Suffix(Decode(rest, last), Decode(es, last))
    decreases |es|
  {
    hide Starts, Ends, Number, Range, Complete, Decode, FromStart;
    var all := es + [e];
    if cut == 0 {
      rest := es;
      assert all[0..] == all;
      StartsAtOnce(es, e);
    } else {
      FirstRun(es, last);
      var n := if Ends(es[0]) then 1 else 2;
      if cut >= n {
        assert all[cut..] == (es[n..] + [e])[cut - n..];
        rest := CutInFront(es[n..], e, cut - n, last);
        SuffixMore(Decode(rest, last), Decode(es[n..], last),
                   if n == 1 then [Number(es[0])] else Range(Number(es[0]), Number(es[1])));
      } else {
        rest := es[2..];
        assert all[1..] == [es[1]] + (es[2..] + [e]);
        SkipOne(es[1], es[2..] + [e]);
        StartsAtOnce(es[2..], e);
        SuffixMore(Decode(rest, last), Decode(rest, last), Range(Number(es[0]), Number(es[1])));
      }
    }
  }

  lemma StartsAtOnce(es: seq<Entry>, e: Entry)
    requires Complete(es) && Starts(e)
    ensures FromStart(es + [e]) == es + [e]
  {
    hide Starts, Ends, Number;
  }

  lemma SkipOne(e: Entry, es: seq<Entry>)
    requires !Starts(e)
    ensures FromStart([e] + es) == FromStart(es)
  {
    hide Starts;
    assert ([e] + es)[1..] == es;
  }

  // ---------------------------------------------------------------- the ring

  /** Where entry j of the log lies in the ring: index zero is used last. */
  function Place(j: nat): (k: nat)
    ensures k < DBG_SEQ_SEQ_LOG_MAX
  {
    (j + 1) % DBG_SEQ_SEQ_LOG_MAX
  }

  lemma PlacesDiffer(i: nat, j: nat)
    requires i < j < i + DBG_SEQ_SEQ_LOG_MAX
    ensures Place(i) != Place(j)
  {
  }

  /** Does the ring hold the latest entries, as many as there is room for, and zeros in the rest? */
  predicate Holds(ring: seq<Entry>, es: seq<Entry>)
    requires |ring| == DBG_SEQ_SEQ_LOG_MAX
  {
    && (forall j :: |es| <= j < DBG_SEQ_SEQ_LOG_MAX ==> ring[Place(j)] == 0)
    && forall j :: 0 <= j < |es| && |es| - DBG_SEQ_SEQ_LOG_MAX <= j ==> ring[Place(j)] == es[j]
  }

  lemma HoldsMore(ring: seq<Entry>, es: seq<Entry>, e: Entry)
    requires |ring| == DBG_SEQ_SEQ_LOG_MAX && Holds(ring, es)
    ensures Holds(ring[Place(|es|) := e], es + [e])
  {
    var ring', es' := ring[Place(|es|) := e], es + [e];
    forall j | |es'| <= j < DBG_SEQ_SEQ_LOG_MAX ensures ring'[Place(j)] == 0 { PlacesDiffer(|es|, j); }
    forall j | 0 <= j < |es'| && |es'| - DBG_SEQ_SEQ_LOG_MAX <= j ensures ring'[Place(j)] == es'[j] {
      if j < |es| { PlacesDiffer(j, |es|); }
    }
  }

  lemma HoldsLast(ring: seq<Entry>, es: seq<Entry>, e: Entry)
    requires |ring| == DBG_SEQ_SEQ_LOG_MAX && Holds(ring, es) && es != []
    ensures Holds(ring[Place(|es| - 1) := e], es[|es| - 1 := e])
  {
    var ring', es' := ring[Place(|es| - 1) := e], es[|es| - 1 := e];
    forall j | |es'| <= j < DBG_SEQ_SEQ_LOG_MAX ensures ring'[Place(j)] == 0 { PlacesDiffer(|es| - 1, j); }
    forall j | 0 <= j < |es'| && |es'| - DBG_SEQ_SEQ_LOG_MAX <= j ensures ring'[Place(j)] == es'[j] {
      if j < |es| - 1 { PlacesDiffer(j, |es| - 1); }
    }
  }

  /** g_dbg_seq_* for one id. */
  class SeqLog {
    const ring: array<Entry>
    var idx: nat
    var lastSeq: u16
    var expected: u16
    ghost var logged: seq<u16>

    ghost predicate Valid()
      reads this, ring
    {
      && ring.Length == DBG_SEQ_SEQ_LOG_MAX
      && var s := LogAll(logged);
        idx == |s.es| % DBG_SEQ_SEQ_LOG_MAX && Holds(ring[..], s.es) && lastSeq == s.last && expected == s.expected
    }

    constructor ()
      ensures Valid() && fresh(ring) && logged == []
    {
      ring := new Entry[DBG_SEQ_SEQ_LOG_MAX](i => 0);
      idx, lastSeq, expected, logged := 0, 0, 0, [];
    }

    /** DBG_SEQ_SEQ_INC_UPDATE. */
    method IncUpdate(e: Entry, ghost es: seq<Entry>)
      requires ring.Length == DBG_SEQ_SEQ_LOG_MAX && idx == |es| % DBG_SEQ_SEQ_LOG_MAX && Holds(ring[..], es)
      modifies this`idx, ring
      ensures idx == (|es| + 1) % DBG_SEQ_SEQ_LOG_MAX && Holds(ring[..], es + [e])
    {
      ghost var was := ring[..];
      NextIndex(|es|);
      idx := idx + 1;
      idx := idx % DBG_SEQ_SEQ_LOG_MAX;
      ring[idx] := e;
      HoldsMore(was, es, e);
      assert ring[..] == was[Place(|es|) := e];
    }

    /** Closes the open run, in place when it has one number only. */
    method CloseOpen(ghost s: State) returns (ghost es: seq<Entry>)
      requires ring.Length == DBG_SEQ_SEQ_LOG_MAX && idx == |s.es| % DBG_SEQ_SEQ_LOG_MAX && Holds(ring[..], s.es)
      requires Open(s) && lastSeq == s.last
      modifies this`idx, ring
      ensures es == Closed(s) && idx == |es| % DBG_SEQ_SEQ_LOG_MAX && Holds(ring[..], es)
    {
      hide Holds, Starts, Ends, Number, Make, Ended;
      ghost var was := ring[..];
      CurrentEntry(was, s.es);
      if Number(ring[idx]) == lastSeq {
        HoldsLast(was, s.es, Ended(ring[idx]));
        ring[idx] := Ended(ring[idx]);
        es := s.es[|s.es| - 1 := ring[idx]];
        assert ring[..] == was[Place(|es| - 1) := ring[idx]];
      } else {
        IncUpdate(Make(lastSeq, END), s.es);
        es := s.es + [Make(lastSeq, END)];
      }
    }

    /** Is the run in the entry written last still open? */
    ghost predicate RunOpen()
      reads this, ring
    {
      idx < ring.Length && Starts(ring[idx]) && !Ends(ring[idx])
    }

    /** dbg_seq_log_seq. A number that continues the open run takes no room. */
    method LogSeq(seq_: u16)
      requires Valid()
      modifies this, ring
      ensures Valid() && logged == old(logged) + [seq_]
      ensures old(RunOpen()) && seq_ == old(lastSeq) + 1 < SEQNUM_MAX ==> ring[..] == old(ring[..]) && idx == old(idx)
    {
      hide Holds, Starts, Ends, Number, Make, Ended, LogAll, Closed, Expected;
      ghost var s := LogAll(logged);
      ghost var es := s.es;
      CurrentEntry(ring[..], es);
      LogAllMore(logged, seq_);
      LogAllLast(logged);
      if Starts(ring[idx]) && !Ends(ring[idx]) {
        if seq_ != expected || seq_ == 0 {
          es := CloseOpen(s);
          IncUpdate(Make(seq_, START), es);
        }
      } else {
        IncUpdate(Make(seq_, START), es);
      }
      lastSeq := seq_;
      expected := Expected(seq_);
      logged := logged + [seq_];
    }

    /** As long as the entries fit into the ring, reading them from index one on, and closing the
        open run with the last number, gives back every number logged. */
    lemma ReadBack()
      requires Valid() && forall k :: 0 <= k < |logged| ==> logged[k] < SEQNUM_MAX
      requires |LogAll(logged).es| < DBG_SEQ_SEQ_LOG_MAX
      ensures idx < ring.Length && Decode(ring[1..idx + 1], lastSeq) == logged
    {
      hide Decode, Proper, LogAll, Make, Number, Holds;
      DecodeOfLog(logged);
      RingRead(ring[..], LogAll(logged).es);
      if logged == [] { NothingComplete(); }
      assert ring[1..idx + 1] == ring[..][1..idx + 1];
    }

    /** However often the ring has wrapped: reading it from the oldest entry that starts a run gives back
        the last of the numbers logged, at least one for each entry but one; and all of them as long as
        no entry was overwritten. */
    lemma ReadLatest()
      requires Valid() && forall k :: 0 <= k < |logged| ==> logged[k] < SEQNUM_MAX
      ensures idx < ring.Length
      ensures var back := Decode(FromStart(OldestFirst(ring[..], idx)), lastSeq);
        && Suffix(back, logged)
        && |back| + 1 >= Min(|LogAll(logged).es|, DBG_SEQ_SEQ_LOG_MAX)
        && (|LogAll(logged).es| <= DBG_SEQ_SEQ_LOG_MAX ==> back == logged)
    {
      hide Decode, Proper, LogAll, Make, Number, Holds, Starts, Ends, Complete, FromStart, OldestFirst;
      DecodeOfLog(logged);
      RingOrder(ring[..], LogAll(logged).es);
      ReadLog(LogAll(logged), logged);
    }
  }

  /** The same of the log: its last entries, with zeros in front of it if it is short. */
  lemma ReadLog(s: State, l: seq<u16>)
    requires Faithful(s, l)
    ensures var n, max := |s.es|, DBG_SEQ_SEQ_LOG_MAX;
      var back := Decode(FromStart(if n < max then Empties(max - n) + s.es else s.es[n - max..]), s.last);
      Suffix(back, l) && |back| + 1 >= Min(n, max) && (n <= max ==> back == l)
  {
    hide Decode, Make, Number, Starts, Ends, Complete, FromStart, Range;
    var n, max := |s.es|, DBG_SEQ_SEQ_LOG_MAX;
    if n < max { SkipEmpties(max - n, s.es); }
    if l == [] {
      NothingToStart(s.last);
    } else {
      var es, e := s.es[..n - 1], s.es[n - 1];
      assert es + [e] == s.es;
      var cut := if n < max then 0 else n - max;
      var rest := CutInFront(es, e, cut, s.last);
      assert s.es[0..] == s.es;
      DecodeOpen(rest, e, s.last);
      DecodeOpen(es, e, s.last);
      CompleteShort(rest, s.last);
      SuffixEnd(Decode(rest, s.last), Decode(es, s.last), Range(Number(e), s.last));
      if n <= max { StartsAtOnce(es, e); }
    }
  }

  lemma NothingToStart(last: u16)
    ensures FromStart([]) == [] && Decode([], last) == []
  {
  }

  lemma SuffixEnd(a: seq<nat>, b: seq<nat>, end: seq<nat>)
    requires Suffix(a, b)
    ensures Suffix(a + end, b + end)
  {
  }

  /** The entries of a ring, the oldest first. */
  function OldestFirst(ring: seq<Entry>, idx: nat): seq<Entry>
    requires idx < |ring|
  {
    ring[idx + 1..] + ring[..idx + 1]
  }

  function Empties(n: nat): (r: seq<Entry>)
    ensures |r| == n && forall k :: 0 <= k < n ==> r[k] == 0
  {
    seq(n, _ => 0)
  }

  /** They are the latest entries of the log, behind as many zeros as there is room left. */
  lemma RingOrder(ring: seq<Entry>, es: seq<Entry>)
    requires |ring| == DBG_SEQ_SEQ_LOG_MAX && Holds(ring, es)
    ensures var n, max := |es|, DBG_SEQ_SEQ_LOG_MAX;
      OldestFirst(ring, n % max) == if n < max then Empties(max - n) + es else es[n - max..]
  {
    hide Holds;
    var n, max := |es|, DBG_SEQ_SEQ_LOG_MAX;
    var r := OldestFirst(ring, n % max);
    forall i | 0 <= i < max ensures r[i] == if i + n < max then 0 else es[i + n - max] {
      HoldsAt(ring, es, i);
    }
  }

  lemma HoldsAt(ring: seq<Entry>, es: seq<Entry>, i: nat)
    requires |ring| == DBG_SEQ_SEQ_LOG_MAX && Holds(ring, es) && i < DBG_SEQ_SEQ_LOG_MAX
    ensures OldestFirst(ring, |es| % DBG_SEQ_SEQ_LOG_MAX)[i] ==
      if i + |es| < DBG_SEQ_SEQ_LOG_MAX then 0 else es[i + |es| - DBG_SEQ_SEQ_LOG_MAX]
  {
    var n, max := |es|, DBG_SEQ_SEQ_LOG_MAX;
    RotatedIndex(n, i);
    var k := (n + 1 + i) % max;
    assert OldestFirst(ring, n % max)[i] == ring[k];
    if i + n < max {
      assert ring[Place(n + i)] == 0;
    } else {
      assert ring[Place(i + n - max)] == es[i + n - max];
    }
  }

  lemma RotatedIndex(n: nat, i: nat)
    requires i < DBG_SEQ_SEQ_LOG_MAX
    ensures var max := DBG_SEQ_SEQ_LOG_MAX; var x := n % max;
      && (n + 1 + i) % max == (if i < max - x - 1 then x + 1 + i else i - (max - x - 1))
      && Place(n + i) == (n + 1 + i) % max && (i + n >= max ==> Place(i + n - max) == (n + 1 + i) % max)
  {
  }

  lemma {:induction false} SkipEmpties(n: nat, es: seq<Entry>)
    ensures FromStart(Empties(n) + es) == FromStart(es)
  {
    if n == 0 {
      assert Empties(0) + es == es;
    } else {
      BitOfZero(SEQ_BITS);
      assert Empties(n) + es == [0] + (Empties(n - 1) + es);
      SkipOne(0, Empties(n - 1) + es);
      SkipEmpties(n - 1, es);
    }
  }

  lemma RingRead(ring: seq<Entry>, es: seq<Entry>)
    requires |ring| == DBG_SEQ_SEQ_LOG_MAX && Holds(ring, es) && |es| < DBG_SEQ_SEQ_LOG_MAX
    ensures |es| % DBG_SEQ_SEQ_LOG_MAX == |es| && ring[1..|es| + 1] == es
  {
    assert forall j :: 0 <= j < |es| ==> Place(j) == j + 1;
  }

  lemma NextIndex(n: nat)
    ensures (n % DBG_SEQ_SEQ_LOG_MAX + 1) % DBG_SEQ_SEQ_LOG_MAX == Place(n)
  {
  }

  /** The entry at the current index is the last one made, or zero before the first. */
  lemma CurrentEntry(ring: seq<Entry>, es: seq<Entry>)
    requires |ring| == DBG_SEQ_SEQ_LOG_MAX && Holds(ring, es)
    ensures var e := ring[|es| % DBG_SEQ_SEQ_LOG_MAX];
      if es == [] then !Starts(e) else e == es[|es| - 1] && |es| % DBG_SEQ_SEQ_LOG_MAX == Place(|es| - 1)
  {
    if es == [] {
      BitOfZero(SEQ_BITS);
      assert ring[Place(DBG_SEQ_SEQ_LOG_MAX - 1)] == 0;
    }
  }

  lemma LogAllLast(l: seq<u16>)
    ensures if l == [] then LogAll(l).es == []
            else LogAll(l).last == l[|l| - 1] && LogAll(l).expected == (l[|l| - 1] + 1) % SEQNUM_MAX
  {
  }

  lemma LogAllMore(l: seq<u16>, seq_: u16)
    ensures LogAll(l + [seq_]) == Log(LogAll(l), seq_)
  {
    assert (l + [seq_])[..|l|] == l;
  }
}
