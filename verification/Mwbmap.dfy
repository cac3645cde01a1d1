/** The two-level bitmap allocator of small ids (bcmutils.c, bcm_mwbmap_*), in the build that
    keeps a running count of free ids for each word. Four redundant views of one set of free ids
    are updated in place: the id words, one first-level bit for each word, one count for each
    word, and a total. */
module Mwbmap {
  import opened Bits
  import opened Common

  const BITS_WORD := 32
  const ITEMS_MAX := 64 * 1024
  const WORDS_MAX := ITEMS_MAX / BITS_WORD
  const WDMAP_MAX := WORDS_MAX / BITS_WORD
  const ALL_ONES: u32 := 0xFFFF_FFFF
  const INVALID_IDX: u32 := 0xFFFF_FFFF

  type i8 = x: int | -128 <= x < 128

  // ---------------------------------------------------------------- lowest set bit

  /** The position of the lowest set bit. */
  function LowestBit(w: nat): (k: nat)
    requires w > 0
    ensures Bit(w, k)
    ensures forall j: nat | j < k :: !Bit(w, j)
  {
    if w % 2 == 1 then 0
    else
      var k := LowestBit(w / 2);
      assert forall j: nat | 0 < j <= k :: Bit(w, j) == Bit(w / 2, j - 1);
      k + 1
  }

  /** A word and its two's complement share exactly the lowest set bit. */
  lemma {:induction false} IsolateLowestBit(w: nat, n: nat)
    requires 0 < w < Pow2(n)
    ensures LowestBit(w) < n
    ensures And(w, Pow2(n) - w) == Pow2(LowestBit(w))
  {
    hide And;
    Negated(w, Pow2(n - 1));
    AndStep(w, Pow2(n) - w);
    if w % 2 == 1 {
      AndComplement(w / 2, n - 1);
    } else {
      IsolateLowestBit(w / 2, n - 1);
    }
  }

  lemma AndStep(a: nat, b: nat)
    requires a > 0
    ensures And(a, b) == 2 * And(a / 2, b / 2) + (if a % 2 == 1 && b % 2 == 1 then 1 else 0)
  {
  }

  /** The negation of a word within 2p. */
  lemma Negated(w: nat, p: nat)
    requires 0 < w < 2 * p
    ensures (2 * p - w) % 2 == w % 2 && (2 * p - w) / 2 == p - w / 2 - w % 2
  {
  }

  lemma {:induction false} AndComplement(w: nat, n: nat)
    requires w < Pow2(n)
    ensures And(w, Pow2(n) - 1 - w) == 0
  {
    if w > 0 {
      assert (Pow2(n) - 1 - w) / 2 == Pow2(n - 1) - 1 - w / 2;
      assert (Pow2(n) - 1 - w) % 2 != w % 2;
      AndComplement(w / 2, n - 1);
    }
  }

  method CountLeadingZeros(arg: u32) returns (zeros: nat)
    ensures zeros <= 32
    ensures arg < Pow2(32 - zeros)
    ensures arg > 0 ==> zeros < 32 && Pow2(31 - zeros) <= arg
  {
    hide Shr, Pow2;
    var shifts, w := 0, arg;
    Pow2Values();
    ShrNone(arg);
    while w > 0
      invariant 0 <= shifts <= 32 && w == Shr(arg, shifts)
      invariant shifts > 0 ==> Shr(arg, shifts - 1) > 0
    {
      ShrStep(arg, shifts);
      ShrIsZero(arg, 32);
      shifts, w := shifts + 1, w / 2;
    }
    ShrIsZero(arg, shifts);
    if shifts > 0 { ShrIsZero(arg, shifts - 1); }
    zeros := 32 - shifts;
  }

  /** The index of the lowest set bit, found as the allocator finds it: isolate the bit with
      two's complement arithmetic, then count the zeros above it. */
  method FindLowestBit(bitmap: u32) returns (isolated: u32, bitix: nat)
    requires bitmap != 0
    ensures bitix < 32 && bitix == LowestBit(bitmap)
    ensures isolated == Pow2(bitix)
  {
    hide And, LowestBit, Bit;
    isolated := bitmap;
    if bitmap != 0x8000_0000 {
      isolated := And(bitmap, 0x1_0000_0000 - bitmap);
    }
    IsolatedBit(bitmap, isolated);
    var clz := CountLeadingZeros(isolated);
    var fromTop: int := if clz <= BITS_WORD - 1 then (BITS_WORD - 1) - clz else 0;
    bitix := fromTop;
    Pow2Order(bitix, LowestBit(bitmap));
  }

  lemma IsolatedBit(bitmap: u32, isolated: u32)
    requires bitmap != 0
    requires isolated == if bitmap != 0x8000_0000 then And(bitmap, 0x1_0000_0000 - bitmap) else bitmap
    ensures LowestBit(bitmap) < 32 && isolated == Pow2(LowestBit(bitmap)) && isolated > 0
  {
    Pow2Values();
    IsolateLowestBit(bitmap, 32);
    AndSelf(bitmap);
  }

  /** Powers of two determine their exponents. */
  lemma Pow2Order(a: nat, b: nat)
    requires Pow2(a) <= Pow2(b) < Pow2(a + 1)
    ensures a == b
  {
    if a < b { Pow2Mono(a + 1, b); }
    if b < a { Pow2Mono(b, a); }
  }

  // ---------------------------------------------------------------- the four views

  predicate IdBit(id: seq<u32>, i: nat)
  {
    i / 32 < |id| && Bit(id[i / 32], i % 32)
  }

  /** The set of free ids that the id words stand for. */
  ghost function FreeSet(id: seq<u32>): set<nat>
  {
    set i: nat | i < 32 * |id| && IdBit(id, i)
  }

  predicate Nonzero(id: seq<u32>, w: nat) { w < |id| && id[w] != 0 }

  predicate ZeroBefore(id: seq<u32>, n: nat)
  {
    forall v: nat | v < n && v < |id| :: id[v] == 0
  }

  /** The population count of all id words. */
  function SumPop(id: seq<u32>): nat
  {
    if id == [] then 0 else SumPop(id[..|id| - 1]) + PopCount(id[|id| - 1])
  }

  ghost predicate CountsAgree(id: seq<u32>, cnt: seq<i8>)
  {
    |id| <= |cnt| && forall w: nat | w < |id| :: cnt[w] == PopCount(id[w])
  }

  ghost predicate LevelOneAgrees(id: seq<u32>, wd: seq<u32>, wmaps: nat)
  {
    wmaps <= |wd| && forall a: nat, b: nat | a < wmaps && b < 32 :: Bit(wd[a], b) == Nonzero(id, 32 * a + b)
  }

  ghost predicate OnlyBelow(id: seq<u32>, items: nat)
  {
    forall w: nat, b: nat | w < |id| && b < 32 && Bit(id[w], b) :: 32 * w + b < items
  }

  ghost predicate Shape(id: seq<u32>, wd: seq<u32>, cnt: seq<i8>, items: nat, wmaps: nat)
  {
    && items <= ITEMS_MAX
    && |id| == (items + 31) / 32 && wmaps == (|id| + 31) / 32
    && |wd| == WDMAP_MAX && |cnt| == WORDS_MAX
  }

  /** The four views agree, and no id at or above `items` is free. */
  ghost predicate Consistent(id: seq<u32>, wd: seq<u32>, cnt: seq<i8>, ifree: int, items: nat, wmaps: nat)
  {
    && Shape(id, wd, cnt, items, wmaps)
    && CountsAgree(id, cnt)
    && LevelOneAgrees(id, wd, wmaps)
    && OnlyBelow(id, items)
    && ifree == |FreeSet(id)|
  }

  lemma ConsistentShape(id: seq<u32>, wd: seq<u32>, cnt: seq<i8>, ifree: int, items: nat, wmaps: nat)
    requires Consistent(id, wd, cnt, ifree, items, wmaps)
    ensures Shape(id, wd, cnt, items, wmaps) && ifree == |FreeSet(id)|
    ensures CountsAgree(id, cnt) && LevelOneAgrees(id, wd, wmaps) && OnlyBelow(id, items)
  {
  }

  /** The least element. */
  ghost function Least(s: set<nat>): (m: nat)
    requires s != {}
    ensures m in s && forall i | i in s :: m <= i
  {
    var x :| x in s;
    var rest := s - {x};
    assert s == rest + {x};
    if rest == {} then x else Min(x, Least(rest))
  }

  lemma SplitIndex(w: nat, b: nat)
    requires b < 32
    ensures (32 * w + b) / 32 == w && (32 * w + b) % 32 == b
  {
  }

  /** Changing one bit of one word, seen through the flat index. */
  lemma ChangeOneId(id: seq<u32>, w: nat, b: nat, x: u32, on: bool)
    requires w < |id| && b < 32
    requires forall i: nat :: Bit(x, i) == (if i == b then on else Bit(id[w], i))
    ensures FreeSet(id[w := x]) == if on then FreeSet(id) + {32 * w + b} else FreeSet(id) - {32 * w + b}
    ensures Bit(id[w], b) <==> 32 * w + b in FreeSet(id)
  {
    hide Bit;
    SplitIndex(w, b);
    var id' := id[w := x];
    forall i: nat ensures i in FreeSet(id') <==> if i == 32 * w + b then on else i in FreeSet(id) {
      assert i in FreeSet(id') <==> i / 32 < |id| && Bit(id'[i / 32], i % 32);
      assert i in FreeSet(id) <==> i / 32 < |id| && Bit(id[i / 32], i % 32);
    }
  }

  /** The first-level bit follows its word. */
  lemma LevelOneFollows(id: seq<u32>, wd: seq<u32>, a: nat, c: nat, x: u32, y: u32, wmaps: nat)
    requires a < wmaps && c < 32 && 32 * a + c < |id|
    requires LevelOneAgrees(id, wd, wmaps)
    requires forall i: nat :: Bit(y, i) == (if i == c then x != 0 else Bit(wd[a], i))
    ensures LevelOneAgrees(id[32 * a + c := x], wd[a := y], wmaps)
  {
    hide Bit;
    var id', wd' := id[32 * a + c := x], wd[a := y];
    forall a': nat, b: nat | a' < wmaps && b < 32
      ensures Bit(wd'[a'], b) == Nonzero(id', 32 * a' + b)
    {
      assert Bit(wd[a'], b) == Nonzero(id, 32 * a' + b);
    }
  }

  lemma CountFollows(id: seq<u32>, cnt: seq<i8>, w: nat, x: u32, n: i8)
    requires CountsAgree(id, cnt) && w < |id| && n == PopCount(x)
    ensures CountsAgree(id[w := x], cnt[w := n])
  {
    hide PopCount;
  }

  lemma OnlyBelowFollows(id: seq<u32>, items: nat, w: nat, b: nat, x: u32, on: bool)
    requires OnlyBelow(id, items) && w < |id| && b < 32 && (on ==> 32 * w + b < items)
    requires forall i: nat :: Bit(x, i) == (if i == b then on else Bit(id[w], i))
    ensures OnlyBelow(id[w := x], items)
  {
    hide Bit;
  }

  /** All four views follow when one bit of word w changes; a and c locate the first-level bit. */
  lemma ViewsFollow(id: seq<u32>, wd: seq<u32>, cnt: seq<i8>, ifree: int, items: nat, wmaps: nat,
                    a: nat, c: nat, w: nat, b: nat, x: u32, n: i8, y: u32, on: bool)
    requires Consistent(id, wd, cnt, ifree, items, wmaps)
    requires a < wmaps && c < 32 && w == 32 * a + c && w < |id| && b < 32
    requires Bit(id[w], b) != on && (on ==> 32 * w + b < items)
    requires forall i: nat :: Bit(x, i) == (if i == b then on else Bit(id[w], i))
    requires forall i: nat :: Bit(y, i) == (if i == c then x != 0 else Bit(wd[a], i))
    requires n == PopCount(x)
    ensures FreeSet(id[w := x]) == if on then FreeSet(id) + {32 * w + b} else FreeSet(id) - {32 * w + b}
    ensures Consistent(id[w := x], wd[a := y], cnt[w := n], if on then ifree + 1 else ifree - 1, items, wmaps)
  {
    hide Bit, PopCount, CountsAgree, LevelOneAgrees, OnlyBelow, FreeSet;
    ChangeOneId(id, w, b, x, on);
    LevelOneFollows(id, wd, a, c, x, y, wmaps);
    CountFollows(id, cnt, w, x, n);
    OnlyBelowFollows(id, items, w, b, x, on);
  }

  lemma FlipStaysWord(w: u32, b: nat, flip: bool)
    requires b < 32
    ensures Pow2(b) < 0x1_0000_0000
    ensures Xor(w, Shl(if flip then 1 else 0, b)) < 0x1_0000_0000
  {
    Pow2Values();
    Pow2Mono(b + 1, 32);
    ShlZero(b);
    ShlOne(b);
    XorBound(w, Shl(if flip then 1 else 0, b), 32);
  }

  lemma SetStaysWord(w: u32, b: nat)
    requires b < 32
    ensures Pow2(b) < 0x1_0000_0000
    ensures Or(w, Pow2(b)) < 0x1_0000_0000
  {
    Pow2Values();
    Pow2Mono(b + 1, 32);
    OrBound(w, Pow2(b), 32);
  }

  /** Taking id 32w+b out of the set. */
  lemma TakeKeepsConsistent(id: seq<u32>, wd: seq<u32>, cnt: seq<i8>, ifree: int, items: nat, wmaps: nat,
                            a: nat, c: nat, w: nat, b: nat)
    requires Consistent(id, wd, cnt, ifree, items, wmaps)
    requires a < wmaps && c < 32 && w == 32 * a + c && w < |id| && b < 32 && Bit(id[w], b)
    ensures 0 < cnt[w]
    ensures Xor(id[w], Pow2(b)) < 0x1_0000_0000
    ensures Xor(wd[a], Shl(if cnt[w] == 1 then 1 else 0, c)) < 0x1_0000_0000
    ensures FreeSet(id[w := Xor(id[w], Pow2(b))]) == FreeSet(id) - {32 * w + b}
    ensures Consistent(id[w := Xor(id[w], Pow2(b))], wd[a := Xor(wd[a], Shl(if cnt[w] == 1 then 1 else 0, c))],
                       cnt[w := cnt[w] - 1], ifree - 1, items, wmaps)
  {
    CountInRange(id, cnt, w);
    if id[w] == 0 { BitOfZero(b); }
    FirstLevelBit(id, wd, wmaps, a, c);
    hide Bit, PopCount, Xor, Pow2, Shl, Consistent;
    FlipStaysWord(wd[a], c, cnt[w] == 1);
    FlipStaysWord(id[w], b, true);
    PopClear(id[w], b);
    XorOne(id[w], b);
    XorOne(wd[a], c);
    XorZero(wd[a]);
    ShlZero(c);
    ShlOne(c);
    ShlOne(b);
    ViewsFollow(id, wd, cnt, ifree, items, wmaps, a, c, w, b, Xor(id[w], Pow2(b)), cnt[w] - 1,
                Xor(wd[a], Shl(if cnt[w] == 1 then 1 else 0, c)), false);
  }

  /** Putting id 32w+b back. */
  lemma GiveKeepsConsistent(id: seq<u32>, wd: seq<u32>, cnt: seq<i8>, ifree: int, items: nat, wmaps: nat,
                            a: nat, c: nat, w: nat, b: nat)
    requires Consistent(id, wd, cnt, ifree, items, wmaps)
    requires a < wmaps && c < 32 && w == 32 * a + c && w < |id| && b < 32 && !Bit(id[w], b)
    requires 32 * w + b < items
    ensures 0 <= cnt[w] <= 32
    ensures Or(id[w], Pow2(b)) < 0x1_0000_0000 && Or(wd[a], Pow2(c)) < 0x1_0000_0000
    ensures FreeSet(id[w := Or(id[w], Pow2(b))]) == FreeSet(id) + {32 * w + b}
    ensures Consistent(id[w := Or(id[w], Pow2(b))], wd[a := Or(wd[a], Pow2(c))],
                       cnt[w := cnt[w] + 1], ifree + 1, items, wmaps)
  {
    CountInRange(id, cnt, w);
    hide Bit, PopCount, Or, Pow2, Consistent;
    SetStaysWord(wd[a], c);
    SetStaysWord(id[w], b);
    PopSet(id[w], b);
    OrOne(id[w], b);
    OrOne(wd[a], c);
    ViewsFollow(id, wd, cnt, ifree, items, wmaps, a, c, w, b, Or(id[w], Pow2(b)), cnt[w] + 1,
                Or(wd[a], Pow2(c)), true);
  }

  lemma FirstLevelBit(id: seq<u32>, wd: seq<u32>, wmaps: nat, a: nat, c: nat)
    requires LevelOneAgrees(id, wd, wmaps) && a < wmaps && c < 32
    ensures Bit(wd[a], c) == Nonzero(id, 32 * a + c)
  {
  }

  /** The count of a word, which is zero exactly when the word is. */
  lemma CountInRange(id: seq<u32>, cnt: seq<i8>, w: nat)
    requires CountsAgree(id, cnt) && w < |id|
    ensures cnt[w] == PopCount(id[w])
    ensures 0 <= cnt[w] <= 32 && (cnt[w] == 0 <==> id[w] == 0)
  {
    Pow2Values();
    PopBound(id[w], 32);
  }

  // ---------------------------------------------------------------- counting

  lemma {:induction false} PopOnes(n: nat)
    ensures PopCount(Pow2(n) - 1) == n
  {
    if n > 0 {
      PopOnes(n - 1);
      OnesHalf(Pow2(n - 1));
    }
  }

  lemma OnesHalf(p: nat)
    requires p > 0
    ensures (2 * p - 1) / 2 == p - 1 && (2 * p - 1) % 2 == 1
  {
  }

  ghost function Below(n: nat): (s: set<nat>)
    ensures forall i: nat :: i in s <==> i < n
    ensures |s| == n
  {
    if n == 0 then {} else Below(n - 1) + {n - 1}
  }

  /** The bits of a word, as positions starting at base. */
  ghost function Positions(w: u32, base: nat, n: nat): set<nat>
  {
    set k: nat | k < n && Bit(w, k) :: base + k
  }

  lemma {:induction false} CardPositions(w: u32, base: nat, n: nat)
    requires w < Pow2(n)
    ensures |Positions(w, base, n)| == PopCount(w)
    decreases n
  {
    if n == 0 {
      assert Positions(w, base, 0) == {};
    } else {
      CardPositions(w / 2, base + 1, n - 1);
      var rest := Positions(w / 2, base + 1, n - 1);
      assert base !in rest;
      forall i: nat ensures i in Positions(w, base, n) <==> i in rest || (i == base && w % 2 == 1) {
        if i in Positions(w, base, n) && i != base {
          assert Bit(w / 2, i - base - 1) && i == base + 1 + (i - base - 1);
        }
        if i in rest {
          assert Bit(w, i - base) && i == base + (i - base);
        }
        if i == base && w % 2 == 1 { assert Bit(w, 0) && i == base + 0; }
      }
      assert Positions(w, base, n) == (if w % 2 == 1 then {base} else {}) + rest;
    }
  }

  /** The free ids are those of the words before the last and those of the last. */
  lemma FreeSetSplits(id: seq<u32>, i: nat)
    requires id != []
    ensures var k := |id| - 1;
      i in FreeSet(id) <==> i in FreeSet(id[..k]) || i in Positions(id[k], 32 * k, 32)
    ensures i in FreeSet(id[..|id| - 1]) ==> i < 32 * (|id| - 1)
    ensures i in Positions(id[|id| - 1], 32 * (|id| - 1), 32) ==> i >= 32 * (|id| - 1)
  {
    hide Bit;
    var k := |id| - 1;
    assert i < 32 * k ==> IdBit(id, i) == IdBit(id[..k], i);
    if 32 * k <= i < 32 * k + 32 {
      SplitIndex(k, i - 32 * k);
      assert i == 32 * k + (i - 32 * k);
    }
  }

  /** The total of the words' population counts is the number of free ids. */
  lemma {:induction false} SumPopIsCard(id: seq<u32>)
    ensures SumPop(id) == |FreeSet(id)|
  {
    if id == [] {
      assert FreeSet(id) == {};
    } else {
      hide FreeSet, Positions, PopCount, Bit, Pow2;
      var k := |id| - 1;
      SumPopIsCard(id[..k]);
      Pow2Values();
      CardPositions(id[k], 32 * k, 32);
      var front, last := FreeSet(id[..k]), Positions(id[k], 32 * k, 32);
      forall i: nat ensures (i in FreeSet(id) <==> i in front || i in last) && !(i in front && i in last) {
        FreeSetSplits(id, i);
      }
      assert FreeSet(id) == front + last;
      assert front !! last;
    }
  }

  /** The lowest bit of the first nonzero first-level word points to the first nonzero id word. */
  lemma FirstNonzeroWord(id: seq<u32>, wd: seq<u32>, wmaps: nat, a: nat)
    requires LevelOneAgrees(id, wd, wmaps) && a < wmaps && wd[a] != 0
    requires ZeroBefore(id, 32 * a)
    ensures LowestBit(wd[a]) < 32
    ensures Nonzero(id, 32 * a + LowestBit(wd[a]))
    ensures ZeroBefore(id, 32 * a + LowestBit(wd[a]))
  {
    hide Bit, LowestBit, Pow2;
    Pow2Values();
    IsolateLowestBit(wd[a], 32);
    var c := LowestBit(wd[a]);
    assert Bit(wd[a], c) == Nonzero(id, 32 * a + c);
    forall v: nat | v < 32 * a + c ensures id[v] == 0 {
      if 32 * a <= v {
        assert Bit(wd[a], v - 32 * a) == Nonzero(id, 32 * a + (v - 32 * a));
      }
    }
  }

  lemma ZeroGroup(id: seq<u32>, wd: seq<u32>, wmaps: nat, a: nat)
    requires LevelOneAgrees(id, wd, wmaps) && a < wmaps && wd[a] == 0 && ZeroBefore(id, 32 * a)
    ensures ZeroBefore(id, 32 * a + 32)
  {
    forall v: nat | 32 * a <= v < 32 * a + 32 && v < |id| ensures id[v] == 0 {
      BitOfZero(v - 32 * a);
      assert Bit(wd[a], v - 32 * a) == Nonzero(id, 32 * a + (v - 32 * a));
    }
  }

  lemma LeastFreeId(id: seq<u32>, w: nat)
    requires w < |id| && id[w] != 0 && ZeroBefore(id, w)
    ensures LowestBit(id[w]) < 32
    ensures 32 * w + LowestBit(id[w]) in FreeSet(id)
    ensures forall i | i in FreeSet(id) :: 32 * w + LowestBit(id[w]) <= i
  {
    hide Bit, LowestBit, Pow2;
    Pow2Values();
    IsolateLowestBit(id[w], 32);
    var b := LowestBit(id[w]);
    SplitIndex(w, b);
    assert IdBit(id, 32 * w + b);
    forall i | i in FreeSet(id) ensures 32 * w + b <= i { NotBefore(id, w, b, i); }
  }

  lemma NotBefore(id: seq<u32>, w: nat, b: nat, i: nat)
    requires w < |id| && b < 32 && ZeroBefore(id, w) && i in FreeSet(id)
    requires forall k: nat | k < b :: !Bit(id[w], k)
    ensures 32 * w + b <= i
  {
    hide Bit;
    var v, k := i / 32, i % 32;
    BitOfZero(k);
    assert Bit(id[v], k) && v >= w && i == 32 * v + k;
    assert v == w ==> b <= k;
  }

  /** The id that Alloc finds is the least free one, and taking it keeps the views in step. */
  lemma TakeFirst(id: seq<u32>, wd: seq<u32>, cnt: seq<i8>, ifree: int, items: nat, wmaps: nat,
                  a: nat, c: nat, w: nat, b: nat)
    requires Consistent(id, wd, cnt, ifree, items, wmaps)
    requires a < wmaps && c < 32 && w == 32 * a + c && w < |id| && b < 32
    requires ZeroBefore(id, w)
    requires id[w] != 0 && b == LowestBit(id[w])
    ensures 0 < cnt[w]
    ensures Xor(id[w], Pow2(b)) < 0x1_0000_0000
    ensures Xor(wd[a], Shl(if cnt[w] == 1 then 1 else 0, c)) < 0x1_0000_0000
    ensures FreeSet(id) != {} && 32 * w + b == Least(FreeSet(id)) && 32 * w + b < items
    ensures FreeSet(id[w := Xor(id[w], Pow2(b))]) == FreeSet(id) - {32 * w + b}
    ensures Consistent(id[w := Xor(id[w], Pow2(b))], wd[a := Xor(wd[a], Shl(if cnt[w] == 1 then 1 else 0, c))],
                       cnt[w := cnt[w] - 1], ifree - 1, items, wmaps)
  {
    LeastFreeId(id, w);
    IdsAreBelow(id, items);
    hide *;
    TakeKeepsConsistent(id, wd, cnt, ifree, items, wmaps, a, c, w, b);
  }

  lemma NoneFree(id: seq<u32>)
    requires ZeroBefore(id, |id|)
    ensures FreeSet(id) == {}
  {
    forall i: nat ensures !IdBit(id, i) { BitOfZero(i % 32); }
  }

  lemma WordOfId(id: seq<u32>, items: nat, i: nat, w: nat, b: nat, a: nat)
    requires i < items && |id| == (items + 31) / 32
    requires w == i / 32 && b == i % 32 && a == w / 32
    ensures w < |id| && a < (|id| + 31) / 32
    ensures w == 32 * a + w % 32 && i == 32 * w + b
    ensures i in FreeSet(id) <==> Bit(id[w], b)
  {
    hide Bit;
    assert IdBit(id, i) == Bit(id[w], b);
  }

  lemma IdsAreBelow(id: seq<u32>, items: nat)
    requires OnlyBelow(id, items)
    ensures forall i | i in FreeSet(id) :: i < items
  {
    hide Bit;
    forall i | i in FreeSet(id) ensures i < items {
      assert 32 * (i / 32) + i % 32 == i;
    }
  }

  /** Taking a given free id, told by its number. */
  lemma TakeId(id: seq<u32>, wd: seq<u32>, cnt: seq<i8>, ifree: int, items: nat, wmaps: nat,
               i: nat, a: nat, c: nat, w: nat, b: nat)
    requires Consistent(id, wd, cnt, ifree, items, wmaps) && i in FreeSet(id)
    requires w == i / 32 && b == i % 32 && a == w / 32 && c == w % 32
    ensures w < |id| && w < |cnt| && a < |wd| && b < 32 && c < 32 && 0 < cnt[w]
    ensures Xor(id[w], Pow2(b)) < 0x1_0000_0000
    ensures Xor(wd[a], Shl(if cnt[w] == 1 then 1 else 0, c)) < 0x1_0000_0000
    ensures FreeSet(id[w := Xor(id[w], Pow2(b))]) == FreeSet(id) - {i}
    ensures Consistent(id[w := Xor(id[w], Pow2(b))], wd[a := Xor(wd[a], Shl(if cnt[w] == 1 then 1 else 0, c))],
                       cnt[w := cnt[w] - 1], ifree - 1, items, wmaps)
  {
    hide Bit, Xor, Pow2, Shl, Consistent, FreeSet, LevelOneAgrees, CountsAgree, OnlyBelow;
    ConsistentShape(id, wd, cnt, ifree, items, wmaps);
    IdsAreBelow(id, items);
    WordOfId(id, items, i, w, b, a);
    TakeKeepsConsistent(id, wd, cnt, ifree, items, wmaps, a, c, w, b);
  }

  /** Putting an id in use back, told by its number. */
  lemma GiveId(id: seq<u32>, wd: seq<u32>, cnt: seq<i8>, ifree: int, items: nat, wmaps: nat,
               i: nat, a: nat, c: nat, w: nat, b: nat)
    requires Consistent(id, wd, cnt, ifree, items, wmaps) && i < items && i !in FreeSet(id)
    requires w == i / 32 && b == i % 32 && a == w / 32 && c == w % 32
    ensures w < |id| && w < |cnt| && a < |wd| && b < 32 && c < 32 && 0 <= cnt[w] <= 32
    ensures Or(id[w], Pow2(b)) < 0x1_0000_0000 && Or(wd[a], Pow2(c)) < 0x1_0000_0000
    ensures FreeSet(id[w := Or(id[w], Pow2(b))]) == FreeSet(id) + {i}
    ensures Consistent(id[w := Or(id[w], Pow2(b))], wd[a := Or(wd[a], Pow2(c))],
                       cnt[w := cnt[w] + 1], ifree + 1, items, wmaps)
  {
    hide Bit, Or, Pow2, Consistent, FreeSet, LevelOneAgrees, CountsAgree, OnlyBelow;
    ConsistentShape(id, wd, cnt, ifree, items, wmaps);
    WordOfId(id, items, i, w, b, a);
    GiveKeepsConsistent(id, wd, cnt, ifree, items, wmaps, a, c, w, b);
  }

  /** Initialisation of the id words and of the per-word counts. */
  method InitialIdWords(itemsMax: u32, words: nat) returns (idMap: array<u32>, count: array<i8>)
    requires itemsMax <= ITEMS_MAX && words == (itemsMax + 31) / 32
    ensures fresh(idMap) && fresh(count) && idMap.Length == words && count.Length == WORDS_MAX
    ensures forall v | 0 <= v < words :: idMap[v] == FullWord(itemsMax, v) && count[v] == Min(32, itemsMax - 32 * v)
  {
    hide Pow2, Xor, Shl32, FullWord;
    var extra := itemsMax % BITS_WORD;
    idMap := new u32[words](_ => 0);
    count := new i8[WORDS_MAX](_ => 0);
    for wordix := 0 to words
      invariant forall v | 0 <= v < wordix :: idMap[v] == ALL_ONES && count[v] == BITS_WORD
    {
      idMap[wordix] := ALL_ONES;
      count[wordix] := BITS_WORD;
    }
    if extra != 0 {
      FullWordFacts(itemsMax, words - 1);
      idMap[words - 1] := Xor(idMap[words - 1], Shl32(ALL_ONES, extra));
      count[words - 1] := extra;
    }
    forall v: nat | v < words ensures idMap[v] == FullWord(itemsMax, v) && count[v] == Min(32, itemsMax - 32 * v) {
      FullWordFacts(itemsMax, v);
    }
  }

  /** Initialisation of the first-level words. */
  method InitialLevelOne(words: nat, levelOne: nat) returns (wdMap: array<u32>)
    requires levelOne == (words + 31) / 32 && levelOne <= WDMAP_MAX
    ensures fresh(wdMap) && wdMap.Length == WDMAP_MAX
    ensures forall v | 0 <= v < levelOne :: wdMap[v] == FullWord(words, v)
  {
    hide Pow2, Xor, Shl32, FullWord;
    var extra := words % BITS_WORD;
    wdMap := new u32[WDMAP_MAX](_ => 0);
    for wordix := 0 to levelOne
      invariant forall v | 0 <= v < wordix :: wdMap[v] == ALL_ONES
    {
      wdMap[wordix] := ALL_ONES;
    }
    if extra != 0 {
      FullWordFacts(words, levelOne - 1);
      wdMap[levelOne - 1] := Xor(wdMap[levelOne - 1], Shl32(ALL_ONES, extra));
    }
    forall v: nat | v < levelOne ensures wdMap[v] == FullWord(words, v) { FullWordFacts(words, v); }
  }

  // ---------------------------------------------------------------- the allocator

  class Allocator {
    ghost const items: nat
    var imaps: u16
    var wmaps: u16
    var ifree: int
    var total: u16
    const wdBitmap: array<u32>
    const wdCount: array<i8>
    const idBitmap: array<u32>

    ghost predicate Valid()
      reads this, wdBitmap, wdCount, idBitmap
    {
      && wdBitmap != idBitmap
      && wdCount as object != wdBitmap && wdCount as object != idBitmap
      && imaps == idBitmap.Length && total == items % 0x1_0000
      && Consistent(idBitmap[..], wdBitmap[..], wdCount[..], ifree, items, wmaps)
    }

    /** The abstract value: the ids that may still be handed out. */
    ghost function FreeIds(): set<nat>
      reads idBitmap
    {
      FreeSet(idBitmap[..])
    }

    lemma Views()
      requires Valid()
      ensures wdBitmap != idBitmap && wdCount as object != wdBitmap && wdCount as object != idBitmap
      ensures imaps == idBitmap.Length && total == items % 0x1_0000 && items <= ITEMS_MAX
      ensures Consistent(idBitmap[..], wdBitmap[..], wdCount[..], ifree, items, wmaps)
      ensures FreeIds() == FreeSet(idBitmap[..])
    {
    }

    /** The bound that Force, Free and IsFree assert of an id: it is that of the ids, except that with 64K
        of them the total wraps to zero and the assertion holds of none. */
    lemma TotalWraps()
      requires Valid()
      ensures total == items <==> items < ITEMS_MAX
      ensures items == ITEMS_MAX ==> total == 0
    {
      Views();
      ConsistentShape(idBitmap[..], wdBitmap[..], wdCount[..], ifree, items, wmaps);
    }

    lemma StillValid()
      requires wdBitmap != idBitmap && wdCount as object != wdBitmap && wdCount as object != idBitmap
      requires imaps == idBitmap.Length && total == items % 0x1_0000
      requires Consistent(idBitmap[..], wdBitmap[..], wdCount[..], ifree, items, wmaps)
      ensures Valid() && FreeIds() == FreeSet(idBitmap[..])
    {
    }

    constructor (itemsMax: u32)
      requires itemsMax <= ITEMS_MAX
      ensures Valid() && items == itemsMax && fresh(wdBitmap) && fresh(wdCount) && fresh(idBitmap)
      ensures FreeIds() == Below(itemsMax)
    {
      var extra := itemsMax % BITS_WORD;
      var words := itemsMax / BITS_WORD + (if extra != 0 then 1 else 0);
      var idMap, count := InitialIdWords(itemsMax, words);
      var extraWords := words % BITS_WORD;
      var levelOne := words / BITS_WORD + (if extraWords != 0 then 1 else 0);
      var wdMap := InitialLevelOne(words, levelOne);
      InitialWords(idMap[..], wdMap[..], count[..], itemsMax, levelOne);
      items := itemsMax;
      imaps, wmaps, ifree, total := words, levelOne, itemsMax, itemsMax % 0x1_0000;
      idBitmap, wdBitmap, wdCount := idMap, wdMap, count;
      new;
      hide *;
      StillValid();
    }

    /** Hands out the least free id, or INVALID_IDX exactly when there is none. */
    method Alloc() returns (r: u32)
      requires Valid()
      modifies this, wdBitmap, wdCount, idBitmap
      ensures Valid()
      ensures r == INVALID_IDX <==> old(FreeIds()) == {}
      ensures r == INVALID_IDX ==> FreeIds() == {}
      ensures r != INVALID_IDX ==>
        && r == Least(old(FreeIds()))
        && FreeIds() == old(FreeIds()) - {r}
    {
      ghost var id, wd, cnt := idBitmap[..], wdBitmap[..], wdCount[..];
      hide Bit, Pow2, Shl, Xor, PopCount, Consistent, FreeSet, CountsAgree, LevelOneAgrees, OnlyBelow;
      ConsistentShape(id, wd, cnt, ifree, items, wmaps);
      var wordix := 0;
      while wordix < wmaps
        modifies {}
        invariant 0 <= wordix <= wmaps
        invariant ZeroBefore(id, 32 * wordix)
      {
        if wdBitmap[wordix] != 0 {
          break;
        }
        ZeroGroup(id, wd, wmaps, wordix);
        wordix := wordix + 1;
      }
      if wordix == wmaps {
        assert ZeroBefore(id, |id|);
        NoneFree(id);
        return INVALID_IDX;
      }
      assert id == idBitmap[..];
      r := TakeLeast(wordix);
    }

    /** The word and the bit of the least free id, from the first nonzero first-level word. */
    method Locate(wordix: nat) returns (bitix: nat, word: nat, idIsolated: u32, idBitix: nat)
      requires Valid()
      requires wordix < wmaps && wdBitmap[wordix] != 0
      requires ZeroBefore(idBitmap[..], 32 * wordix)
      ensures bitix < 32 && word == 32 * wordix + bitix && word < idBitmap.Length && idBitix < 32
      ensures ZeroBefore(idBitmap[..], word)
      ensures idBitmap[word] != 0 && idBitix == LowestBit(idBitmap[word]) && idIsolated == Pow2(idBitix)
    {
      hide Bit, Pow2;
      var isolated, b := FindLowestBit(wdBitmap[wordix]);
      bitix := b;
      word := wordix * BITS_WORD + bitix;
      FirstNonzeroWord(idBitmap[..], wdBitmap[..], wmaps, wordix);
      idIsolated, idBitix := FindLowestBit(idBitmap[word]);
    }

    /** The part of Alloc below its test for a nonzero first-level word. */
    method TakeLeast(wordix: nat) returns (r: u32)
      requires Valid()
      requires wordix < wmaps && wdBitmap[wordix] != 0
      requires ZeroBefore(idBitmap[..], 32 * wordix)
      modifies this, wdBitmap, wdCount, idBitmap
      ensures Valid()
      ensures old(FreeIds()) != {} && r == Least(old(FreeIds())) && r < ITEMS_MAX
      ensures FreeIds() == old(FreeIds()) - {r}
    {
      hide Xor, Shl, Pow2, Bit, LowestBit, Least, ZeroBefore, FreeSet;
      ghost var id, wd, cnt := idBitmap[..], wdBitmap[..], wdCount[..];
      var bitix, word, idIsolated, idBitix := Locate(wordix);
      assert old(FreeIds()) == FreeSet(id);
      hide Consistent, FreeIds;
      TakeFirst(id, wd, cnt, ifree, items, wmaps, wordix, bitix, word, idBitix);
      assert word < idBitmap.Length && word < wdCount.Length && wordix < wdBitmap.Length;
      r := word * BITS_WORD + idBitix;
      assert r == 32 * word + idBitix;
      hide *;
      wdCount[word] := wdCount[word] - 1;
      var count := wdCount[word];
      wdBitmap[wordix] := Xor(wdBitmap[wordix], Shl(if count == 0 then 1 else 0, bitix));
      ifree := ifree - 1;
      idBitmap[word] := Xor(idBitmap[word], idIsolated);
      assert idBitmap[..] == id[word := Xor(id[word], idIsolated)];
      assert wdBitmap[..] == wd[wordix := wdBitmap[wordix]];
      assert wdCount[..] == cnt[word := count];
      StillValid();
      assert FreeIds() == FreeSet(id) - {r};
    }

    /** Marks a given free id as in use. That the id is below the total, which the code asserts, is not
        needed. */
    method Force(bitix: u32)
      requires Valid()
      requires bitix in FreeIds()
      modifies this, wdBitmap, wdCount, idBitmap
      ensures Valid()
      ensures FreeIds() == old(FreeIds()) - {bitix}
    {
      hide Valid, FreeIds, Consistent, FreeSet, Xor, Or, Shl, Pow2, Bit;
      Views();
      ghost var id, wd, cnt := idBitmap[..], wdBitmap[..], wdCount[..];
      var word, bit := bitix / BITS_WORD, bitix % BITS_WORD;
      var levelOne, levelOneBit := word / BITS_WORD, word % BITS_WORD;
      TakeId(id, wd, cnt, ifree, items, wmaps, bitix, levelOne, levelOneBit, word, bit);
      ifree := ifree - 1;
      idBitmap[word] := Xor(idBitmap[word], Pow2(bit));
      wdCount[word] := wdCount[word] - 1;
      var count := wdCount[word];
      wdBitmap[levelOne] := Xor(wdBitmap[levelOne], Shl(if count == 0 then 1 else 0, levelOneBit));
      assert idBitmap[..] == id[word := Xor(id[word], Pow2(bit))];
      assert wdBitmap[..] == wd[levelOne := wdBitmap[levelOne]];
      assert wdCount[..] == cnt[word := count];
      StillValid();
      assert FreeIds() == FreeSet(id) - {bitix};
    }

    /** Puts an id that is in use back. */
    method Free(bitix: u32)
      requires Valid()
      requires bitix < items && bitix !in FreeIds()
      modifies this, wdBitmap, wdCount, idBitmap
      ensures Valid()
      ensures FreeIds() == old(FreeIds()) + {bitix}
    {
      hide Valid, FreeIds, Consistent, FreeSet, Xor, Or, Shl, Pow2, Bit;
      Views();
      ghost var id, wd, cnt := idBitmap[..], wdBitmap[..], wdCount[..];
      var word, bit := bitix / BITS_WORD, bitix % BITS_WORD;
      var levelOne, levelOneBit := word / BITS_WORD, word % BITS_WORD;
      GiveId(id, wd, cnt, ifree, items, wmaps, bitix, levelOne, levelOneBit, word, bit);
      ifree := ifree + 1;
      idBitmap[word] := Or(idBitmap[word], Pow2(bit));
      wdCount[word] := wdCount[word] + 1;
      wdBitmap[levelOne] := Or(wdBitmap[levelOne], Pow2(levelOneBit));
      assert idBitmap[..] == id[word := Or(id[word], Pow2(bit))];
      assert wdBitmap[..] == wd[levelOne := Or(wd[levelOne], Pow2(levelOneBit))];
      assert wdCount[..] == cnt[word := cnt[word] + 1];
      StillValid();
      assert FreeIds() == FreeSet(id) + {bitix};
    }

    method FreeCount() returns (n: u32)
      requires Valid()
      ensures n == |FreeIds()|
    {
      IdsAreBelow(idBitmap[..], items);
      SubsetCard(FreeIds(), Below(items));
      n := ifree;
    }

    method IsFree(bitix: u32) returns (b: bool)
      requires Valid()
      requires bitix < items
      ensures b <==> bitix in FreeIds()
    {
      var word, bit := bitix / BITS_WORD, bitix % BITS_WORD;
      WordOfId(idBitmap[..], items, bitix, word, bit, word / BITS_WORD);
      b := And(idBitmap[word], Pow2(bit)) != 0;
      TestMask(idBitmap[word], bit);
    }

    /** The audit: every assertion it makes holds in every reachable state, and the total it adds up
        over the words that the first level points to is the number of all free ids. */
    method Audit() returns (passed: bool, freeCnt: int)
      requires Valid()
      ensures passed && freeCnt == ifree && freeCnt == |FreeIds()|
    {
      ghost var id, wd, cnt := idBitmap[..], wdBitmap[..], wdCount[..];
      assert SumPop(id[..0]) == 0;
      hide Bit, And, Pow2, PopCount, CountsAgree, LevelOneAgrees, OnlyBelow, FreeSet, SumPop;
      passed := true;
      freeCnt := 0;
      for wordix := 0 to wmaps
        invariant passed && freeCnt == SumPop(id[..Min(32 * wordix, |id|)])
      {
        for bitix := 0 to BITS_WORD
          invariant passed && freeCnt == SumPop(id[..Min(32 * wordix + bitix, |id|)])
        {
          var ix := wordix * BITS_WORD + bitix;
          AuditStep(id, wd, cnt, wmaps, wordix, bitix);
          if And(wdBitmap[wordix], Pow2(bitix)) != 0 {
            var count := wdCount[ix];
            passed := passed && count == PopCount(idBitmap[ix]);
            passed := passed && count != 0;
            freeCnt := freeCnt + count;
          }
        }
      }
      assert id[..|id|] == id;
      SumPopIsCard(id);
      passed := passed && freeCnt == ifree;
    }
  }

  lemma AuditStep(id: seq<u32>, wd: seq<u32>, cnt: seq<i8>, wmaps: nat, a: nat, b: nat)
    requires LevelOneAgrees(id, wd, wmaps) && CountsAgree(id, cnt)
    requires a < wmaps && b < 32
    ensures var ix := 32 * a + b;
      && (And(wd[a], Pow2(b)) != 0 <==> Nonzero(id, ix))
      && (Nonzero(id, ix) ==> cnt[ix] == PopCount(id[ix]) && cnt[ix] > 0)
      && SumPop(id[..Min(ix + 1, |id|)]) ==
           SumPop(id[..Min(ix, |id|)]) + (if Nonzero(id, ix) then PopCount(id[ix]) else 0)
  {
    hide Bit, And, SumPop, PopCount, Pow2;
    TestMask(wd[a], b);
    var ix := 32 * a + b;
    assert Bit(wd[a], b) == Nonzero(id, ix);
    if ix < |id| { SumPopNext(id, ix); }
  }

  lemma SumPopNext(id: seq<u32>, ix: nat)
    requires ix < |id|
    ensures SumPop(id[..ix + 1]) == SumPop(id[..ix]) + PopCount(id[ix])
  {
    hide PopCount;
    var s := id[..ix + 1];
    assert s[..|s| - 1] == id[..ix];
  }

  lemma {:induction false} TestMask(w: nat, k: nat)
    ensures (And(w, Pow2(k)) != 0) == Bit(w, k)
    decreases k
  {
    if k == 0 {
      AndWithZero(w / 2);
    } else if w > 0 {
      assert Pow2(k) / 2 == Pow2(k - 1) && Pow2(k) % 2 == 0;
      TestMask(w / 2, k - 1);
    } else {
      BitOfZero(k);
    }
  }

  lemma {:induction false} AndWithZero(w: nat)
    ensures And(w, 0) == 0
  {
  }

  lemma {:induction false} SubsetCard(a: set<nat>, b: set<nat>)
    requires a <= b
    ensures |a| <= |b|
  {
    if a != {} {
      var x :| x in a;
      SubsetCard(a - {x}, b - {x});
    }
  }

  // ---------------------------------------------------------------- the initial state

  /** The word that initialisation leaves at index v: all ones, or only the remaining low ones. */
  function FullWord(items: nat, v: nat): u32
    requires 32 * v < items
  {
    Pow2Values();
    Pow2Mono(Min(32, items - 32 * v), 32);
    Pow2(Min(32, items - 32 * v)) - 1
  }

  /** Clearing by exclusive-or all bits of the all-ones word from position k up. */
  lemma XorHighOnes(n: nat, k: nat, high: nat)
    requires k <= n && high < Pow2(n)
    requires forall i: nat | i < n :: Bit(high, i) == (k <= i)
    ensures Xor(Pow2(n) - 1, high) == Pow2(k) - 1
  {
    hide Bit, Xor, Pow2;
    var ones := Pow2(n) - 1;
    XorBound(ones, high, n);
    Pow2Mono(k, n);
    forall i: nat | i < n ensures Bit(Xor(ones, high), i) == Bit(Pow2(k) - 1, i) {
      XorBit(ones, high, i);
      OnesBit(n, i);
      OnesBit(k, i);
    }
    SameBits(Xor(ones, high), Pow2(k) - 1, n);
  }

  lemma HighOnes(w: u32, k: nat)
    requires w == Pow2(32) - 1 && k < 32
    ensures Xor(w, Shl32(w, k)) == Pow2(k) - 1
  {
    hide Bit, Xor, Pow2, Shl32;
    Pow2Values();
    forall i: nat | i < 32 ensures Bit(Shl32(w, k), i) == (k <= i) {
      Shl32Bit(w, k, i);
      if k <= i { OnesBit(32, i - k); }
    }
    XorHighOnes(32, k, Shl32(w, k));
  }

  lemma FullWordFacts(items: nat, v: nat)
    requires 32 * v < items
    ensures 32 * v + 32 <= items ==> FullWord(items, v) == ALL_ONES
    ensures items < 32 * v + 32 ==>
      && items % 32 == items - 32 * v
      && FullWord(items, v) == Xor(ALL_ONES, Shl32(ALL_ONES, items % 32))
  {
    hide Xor, Shl32, Pow2;
    Pow2Values();
    HighOnes(ALL_ONES, items % 32);
  }

  lemma InitialFreeSet(id: seq<u32>, items: nat)
    requires |id| == (items + 31) / 32
    requires forall v | 0 <= v < |id| :: id[v] == FullWord(items, v)
    ensures FreeSet(id) == Below(items) && OnlyBelow(id, items)
  {
    hide Bit, FullWord, Below;
    forall w: nat, b: nat | w < |id| && b < 32 ensures Bit(id[w], b) == (32 * w + b < items) {
      FullWordBits(items, w, b);
    }
    forall i: nat ensures i in FreeSet(id) <==> i < items {
      var w, b := i / 32, i % 32;
      if w < |id| { assert Bit(id[w], b) == (32 * w + b < items); }
    }
  }

  lemma InitialWords(id: seq<u32>, wd: seq<u32>, cnt: seq<i8>, items: nat, wmaps: nat)
    requires |id| == (items + 31) / 32 && wmaps == (|id| + 31) / 32 <= |wd| && |id| <= |cnt|
    requires forall v | 0 <= v < |id| :: id[v] == FullWord(items, v) && cnt[v] == Min(32, items - 32 * v)
    requires forall v | 0 <= v < wmaps :: wd[v] == FullWord(|id|, v)
    requires items <= ITEMS_MAX && |wd| == WDMAP_MAX && |cnt| == WORDS_MAX
    ensures FreeSet(id) == Below(items)
    ensures Consistent(id, wd, cnt, items, items, wmaps)
  {
    hide Bit, PopCount, FullWord, FreeSet, Below, OnlyBelow, CountsAgree, LevelOneAgrees;
    InitialFreeSet(id, items);
    InitialCounts(id, cnt, items);
    InitialLevel(id, wd, wmaps);
    BelowCard(items);
  }

  lemma BelowCard(n: nat)
    ensures |Below(n)| == n
  {
  }

  lemma InitialCounts(id: seq<u32>, cnt: seq<i8>, items: nat)
    requires |id| == (items + 31) / 32 && |id| <= |cnt|
    requires forall v | 0 <= v < |id| :: id[v] == FullWord(items, v) && cnt[v] == Min(32, items - 32 * v)
    ensures CountsAgree(id, cnt) && forall v | 0 <= v < |id| :: id[v] != 0
  {
    hide PopCount, FullWord;
    forall v: nat | v < |id| ensures cnt[v] == PopCount(id[v]) && id[v] != 0 { FullWordCount(items, v); }
  }

  lemma InitialLevel(id: seq<u32>, wd: seq<u32>, wmaps: nat)
    requires wmaps == (|id| + 31) / 32 <= |wd|
    requires forall v | 0 <= v < |id| :: id[v] != 0
    requires forall v | 0 <= v < wmaps :: wd[v] == FullWord(|id|, v)
    ensures LevelOneAgrees(id, wd, wmaps)
  {
    hide Bit, FullWord;
    forall a: nat, b: nat | a < wmaps && b < 32 ensures Bit(wd[a], b) == Nonzero(id, 32 * a + b) {
      FullWordBits(|id|, a, b);
    }
  }

  lemma FullWordBits(items: nat, v: nat, b: nat)
    requires 32 * v < items && b < 32
    ensures Bit(FullWord(items, v), b) == (32 * v + b < items)
  {
    OnesBit(Min(32, items - 32 * v), b);
  }

  lemma FullWordCount(items: nat, v: nat)
    requires 32 * v < items
    ensures PopCount(FullWord(items, v)) == Min(32, items - 32 * v) && FullWord(items, v) != 0
  {
    PopOnes(Min(32, items - 32 * v));
  }

  // ---------------------------------------------------------------- whole runs

  datatype Op = Alloc | Force(id: nat) | Free(id: nat)

  /** The free set together with the ids handed out and not yet given back, oldest first. */
  datatype Heap = Heap(free: set<nat>, live: seq<nat>)

  /** The live ids s once x is given back. */
  function Returned(s: seq<nat>, x: nat): seq<nat>
  {
    if s == [] then [] else if s[0] == x then s[1..] else [s[0]] + Returned(s[1..], x)
  }

  ghost predicate Allowed(h: Heap, op: Op)
  {
    match op
    case Alloc => true
    case Force(id) => id in h.free
    case Free(id) => id in h.live
  }

  /** What Alloc, Force and Free do to the abstract value. */
  ghost function Step(h: Heap, op: Op): Heap
    requires Allowed(h, op)
  {
    match op
    case Alloc => if h.free == {} then h else var m := Least(h.free); Heap(h.free - {m}, h.live + [m])
    case Force(id) => Heap(h.free - {id}, h.live + [id])
    case Free(id) => Heap(h.free + {id}, Returned(h.live, id))
  }

  ghost predicate Run(states: seq<Heap>, ops: seq<Op>, items: nat)
  {
    && |states| == |ops| + 1
    && states[0] == Heap(Below(items), [])
    && forall k | 0 <= k < |ops| :: Allowed(states[k], ops[k]) && states[k + 1] == Step(states[k], ops[k])
  }

  /** The ids below items are parted between the live and the free ones. */
  ghost predicate Parted(h: Heap, items: nat)
  {
    && Distinct(h.live) && |h.free| + |h.live| == items
    && (forall i: nat :: (i in h.live) != (i in h.free) <==> i < items)
    && (forall i | i in h.live :: i !in h.free && i < items)
  }

  /** In every run, no id is live twice, live and free ids are apart, and together they are
      exactly the ids below `items`. */
  lemma {:induction false} RunSafety(states: seq<Heap>, ops: seq<Op>, items: nat, k: nat)
    requires Run(states, ops, items) && k < |states|
    ensures Parted(states[k], items)
  {
    if k == 0 {
      assert states[0] == Heap(Below(items), []);
    } else {
      RunSafety(states, ops, items, k - 1);
      assert states[k] == Step(states[k - 1], ops[k - 1]);
      hide Run, Step, Allowed;
      StepParts(states[k - 1], ops[k - 1], items);
    }
  }

  lemma StepParts(h: Heap, op: Op, items: nat)
    requires Parted(h, items) && Allowed(h, op)
    ensures Parted(Step(h, op), items)
  {
    hide Least, Parted;
    match op
    case Alloc => if h.free != {} { TakenParts(h, Least(h.free), items); }
    case Force(id) => TakenParts(h, id, items);
    case Free(id) => ReturnedParts(h, id, items);
  }

  lemma TakenParts(h: Heap, x: nat, items: nat)
    requires Parted(h, items) && x in h.free
    ensures Parted(Heap(h.free - {x}, h.live + [x]), items)
  {
    var live := h.live + [x];
    assert x !in h.live;
    assert forall i: nat :: i in live <==> i in h.live || i == x;
    assert Distinct(live);
  }

  lemma {:induction false} ReturnedDistinct(s: seq<nat>, x: nat)
    requires Distinct(s) && x in s
    ensures Distinct(Returned(s, x)) && |Returned(s, x)| == |s| - 1
    ensures forall i :: i in Returned(s, x) <==> i in s && i != x
  {
    if s[0] != x {
      ReturnedDistinct(s[1..], x);
      assert s[0] !in s[1..];
    }
  }

  lemma ReturnedParts(h: Heap, x: nat, items: nat)
    requires Parted(h, items) && x in h.live
    ensures Parted(Heap(h.free + {x}, Returned(h.live, x)), items)
  {
    ReturnedDistinct(h.live, x);
    hide Returned, Distinct;
    assert x !in h.free;
  }

  // ---- a run of an allocator

  /** What Alloc hands out. */
  ghost function HandedOut(free: set<nat>): nat { if free == {} then INVALID_IDX else Least(free) }

  lemma RunStarts(states: seq<Heap>, ops: seq<Op>, items: nat)
    requires Run(states, ops, items)
    ensures |states| == |ops| + 1 && states[0].free == Below(items)
  {
  }

  /** What an operation asks of the free ids, and what it leaves. */
  ghost predicate MayDo(free: set<nat>, op: Op, items: nat)
  {
    match op
    case Alloc => true
    case Force(id) => id < items && id in free
    case Free(id) => id < items && id !in free
  }

  ghost function FreeAfter(free: set<nat>, op: Op): set<nat>
  {
    match op
    case Alloc => if free == {} then {} else free - {Least(free)}
    case Force(id) => free - {id}
    case Free(id) => free + {id}
  }

  lemma NextOp(states: seq<Heap>, ops: seq<Op>, items: nat, k: nat)
    requires Run(states, ops, items) && k < |ops| && |states| == |ops| + 1 && Parted(states[k], items)
    ensures MayDo(states[k].free, ops[k], items) && states[k + 1].free == FreeAfter(states[k].free, ops[k])
  {
    assert Allowed(states[k], ops[k]) && states[k + 1] == Step(states[k], ops[k]);
  }

  method DoOp(a: Allocator, op: Op) returns (r: u32)
    requires a.Valid() && MayDo(a.FreeIds(), op, a.items)
    modifies a, a.wdBitmap, a.wdCount, a.idBitmap
    ensures a.Valid() && a.FreeIds() == FreeAfter(old(a.FreeIds()), op)
    ensures op.Alloc? ==> r == HandedOut(old(a.FreeIds()))
  {
    hide Least, Consistent, FreeSet, Allocator.Valid, Allocator.FreeIds;
    a.Views();
    r := 0;
    match op
    case Alloc => r := a.Alloc();
    case Force(id) => a.Force(id);
    case Free(id) => a.Free(id);
  }

  /** A new allocator led through a run: every allocation hands out the least free id or none, and at
      the end its free ids are those of the run. */
  method RunOps(itemsMax: u32, ops: seq<Op>, ghost states: seq<Heap>) returns (a: Allocator, ids: seq<u32>)
    requires itemsMax <= ITEMS_MAX && Run(states, ops, itemsMax)
    ensures a.Valid() && a.items == itemsMax && a.FreeIds() == states[|ops|].free
    ensures |ids| == |ops|
    ensures forall k | 0 <= k < |ops| && ops[k].Alloc? :: ids[k] == HandedOut(states[k].free)
  {
    hide Least, Run, Parted, Distinct, Step, MayDo, FreeAfter, HandedOut;
    hide Consistent, FreeSet;
    RunStarts(states, ops, itemsMax);
    a := new Allocator(itemsMax);
    ids := [];
    for k := 0 to |ops|
      invariant fresh(a) && fresh(a.wdBitmap) && fresh(a.wdCount) && fresh(a.idBitmap)
      invariant a.Valid() && a.items == itemsMax && a.FreeIds() == states[k].free && |ids| == k
      invariant forall j | 0 <= j < k && ops[j].Alloc? :: ids[j] == HandedOut(states[j].free)
    {
      RunSafety(states, ops, itemsMax, k);
      NextOp(states, ops, itemsMax, k);
      var r := DoOp(a, ops[k]);
      ids := ids + [r];
    }
  }

  /** An allocator of 64K ids, all free: none of them is below its total. */
  method FullTotal() returns (a: Allocator)
    ensures a.Valid() && a.items == ITEMS_MAX && |a.FreeIds()| == ITEMS_MAX && a.total == 0
  {
    hide Below, Consistent, FreeSet;
    a := new Allocator(ITEMS_MAX);
    a.TotalWraps();
    BelowCard(ITEMS_MAX);
  }
}
