/** The object trace: a fixed pool of nodes threaded on two circular doubly linked lists, one of the
    objects being traced and one of free nodes (bcmutils.c: bcm_object_trace_*). A pointer to a node
    is its index in the pool. */
module ObjTrace {
  import opened Common

  /** obj is the address traced, zero in a node never used. */
  datatype Node = Node(prior: int, next: int, obj: nat)

  type Pool = seq<Node>

  // ---------------------------------------------------------------- rings

  predicate InPool(n: nat, l: seq<nat>) { forall k :: 0 <= k < |l| ==> l[k] < n }

  function Successor(l: seq<nat>, k: nat): nat
    requires k < |l|
  {
    if k + 1 < |l| then l[k + 1] else l[0]
  }

  function Predecessor(l: seq<nat>, k: nat): nat
    requires k < |l|
  {
    if k > 0 then l[k - 1] else l[|l| - 1]
  }

  predicate LinkRight(pool: Pool, l: seq<nat>, k: nat)
    requires k < |l|
  {
    l[k] < |pool| && pool[l[k]].next == Successor(l, k) && pool[l[k]].prior == Predecessor(l, k)
  }

  predicate Linked(pool: Pool, l: seq<nat>)
  {
    Distinct(l) && forall k :: 0 <= k < |l| ==> LinkRight(pool, l, k)
  }

  /** The circular doubly linked list from head to tail runs through the nodes l, in this order. */
  predicate Ring(pool: Pool, head: int, tail: int, l: seq<nat>)
  {
    && Linked(pool, l)
    && head == (if l == [] then NULL else l[0])
    && tail == (if l == [] then NULL else l[|l| - 1])
  }

  /** In a ring, next and prior undo each other. */
  lemma NextPriorInverse(pool: Pool, head: int, tail: int, l: seq<nat>, k: nat)
    requires Ring(pool, head, tail, l) && k < |l|
    ensures l[k] < |pool| && 0 <= head < |pool| && 0 <= tail < |pool|
    ensures 0 <= pool[l[k]].next < |pool| && pool[pool[l[k]].next].prior == l[k]
    ensures 0 <= pool[l[k]].prior < |pool| && pool[pool[l[k]].prior].next == l[k]
    ensures pool[head].prior == tail && pool[tail].next == head
  {
    assert LinkRight(pool, l, k);
    assert LinkRight(pool, l, if k + 1 < |l| then k + 1 else 0);
    assert LinkRight(pool, l, if k > 0 then k - 1 else |l| - 1);
    assert LinkRight(pool, l, 0);
    assert LinkRight(pool, l, |l| - 1);
  }

  /** The two pointer writes of bcm_object_rm_list. */
  function Unlinked(pool: Pool, x: nat): Pool
    requires x < |pool| && 0 <= pool[x].next < |pool| && 0 <= pool[x].prior < |pool|
  {
    var p1 := pool[pool[x].next := pool[pool[x].next].(prior := pool[x].prior)];
    p1[p1[x].prior := p1[p1[x].prior].(next := p1[x].next)]
  }

  /** The four pointer writes of bcm_object_add_list on a nonempty list. */
  function Appended(pool: Pool, head: nat, tail: nat, x: nat): Pool
    requires x < |pool| && head < |pool| && tail < |pool|
  {
    var p1 := pool[tail := pool[tail].(next := x)];
    var p2 := p1[head := p1[head].(prior := x)];
    p2[x := p2[x].(next := head, prior := tail)]
  }

  function Alone(pool: Pool, x: nat): Pool
    requires x < |pool|
  {
    pool[x := pool[x].(next := x, prior := x)]
  }

  lemma UnlinkSafe(pool: Pool, l: seq<nat>, k: nat)
    requires Linked(pool, l) && k < |l|
    ensures var x := l[k];
      x < |pool| && 0 <= pool[x].next < |pool| && 0 <= pool[x].prior < |pool|
  {
    assert LinkRight(pool, l, k);
    assert LinkRight(pool, l, if k + 1 < |l| then k + 1 else 0);
    assert LinkRight(pool, l, if k > 0 then k - 1 else |l| - 1);
  }

  /** Unlinking node l[k] leaves a ring through the others. */
  lemma UnlinkRing(pool: Pool, l: seq<nat>, k: nat)
    requires Linked(pool, l) && k < |l|
    ensures (UnlinkSafe(pool, l, k); Linked(Unlinked(pool, l[k]), Without(l, k)))
  {
    UnlinkSafe(pool, l, k);
    var m := Without(l, k);
    var q := Unlinked(pool, l[k]);
    WithoutDistinct(l, k);
    forall j | 0 <= j < |m| ensures LinkRight(q, m, j) {
      UnlinkLink(pool, l, k, j);
    }
  }

  /** What the two writes do to another node. */
  lemma UnlinkedAt(pool: Pool, x: nat, y: nat)
    requires x < |pool| && 0 <= pool[x].next < |pool| && 0 <= pool[x].prior < |pool|
    requires y < |pool| && y != x && pool[x].next != x && pool[x].prior != x
    ensures var q, n := Unlinked(pool, x), pool[x];
      |q| == |pool| && q[y] == Node(if y == n.next then n.prior else pool[y].prior,
                                    if y == n.prior then n.next else pool[y].next, pool[y].obj)
  {
  }

  /** The nodes behind and in front of the remaining ones: one gap is closed. */
  lemma NeighboursWithout(l: seq<nat>, k: nat, j: nat)
    requires Distinct(l) && k < |l| && j < |l| - 1
    ensures var m, i := Without(l, k), if j < k then j else j + 1;
      && |m| == |l| - 1 && m[j] == l[i] != l[k]
      && Successor(m, j) == (if l[i] == Predecessor(l, k) then Successor(l, k) else Successor(l, i))
      && Predecessor(m, j) == (if l[i] == Successor(l, k) then Predecessor(l, k) else Predecessor(l, i))
  {
    hide Without;
    var n := |l| - 1;
    WithoutAt(l, k, j);
    if j + 1 < n { WithoutAt(l, k, j + 1); }
    if j > 0 { WithoutAt(l, k, j - 1); }
    WithoutAt(l, k, 0);
    WithoutAt(l, k, n - 1);
  }

  lemma UnlinkLink(pool: Pool, l: seq<nat>, k: nat, j: nat)
    requires Linked(pool, l) && k < |l| && j < |l| - 1
    ensures (UnlinkSafe(pool, l, k); LinkRight(Unlinked(pool, l[k]), Without(l, k), j))
  {
    hide Unlinked, Without, Successor, Predecessor;
    UnlinkSafe(pool, l, k);
    NeighboursWithout(l, k, j);
    var i := if j < k then j else j + 1;
    OthersAround(l, k);
    assert LinkRight(pool, l, k);
    assert LinkRight(pool, l, i);
    UnlinkedAt(pool, l[k], l[i]);
  }

  lemma OthersAround(l: seq<nat>, k: nat)
    requires Distinct(l) && |l| > 1 && k < |l|
    ensures Successor(l, k) != l[k] && Predecessor(l, k) != l[k]
  {
  }

  /** The head and tail of what remains. */
  lemma UnlinkEnds(pool: Pool, head: int, tail: int, l: seq<nat>, k: nat)
    requires Ring(pool, head, tail, l) && k < |l|
    ensures l[k] < |pool|
    ensures var m, x := Without(l, k), l[k];
      && (m == [] <==> x == head && x == tail)
      && (m != [] ==> m[0] == (if x == head then pool[x].next else head))
      && (m != [] ==> m[|m| - 1] == (if x == tail then pool[x].prior else tail))
  {
    WithoutLength(l, k);
    if |l| > 1 {
      WithoutAt(l, k, 0);
      WithoutAt(l, k, |l| - 2);
    }
    hide Without;
    assert LinkRight(pool, l, k);
  }

  /** Nodes outside a ring keep what they hold when one of its nodes is unlinked. */
  lemma UnlinkFrame(pool: Pool, l: seq<nat>, k: nat, y: nat)
    requires Linked(pool, l) && k < |l| && y < |pool| && y !in l
    ensures (UnlinkSafe(pool, l, k); Unlinked(pool, l[k])[y] == pool[y])
  {
    assert LinkRight(pool, l, k);
    UnlinkSafe(pool, l, k);
  }

  lemma AppendRing(pool: Pool, l: seq<nat>, x: nat)
    requires Linked(pool, l) && x < |pool| && x !in l && l != []
    ensures l[0] < |pool| && l[|l| - 1] < |pool|
    ensures Linked(Appended(pool, l[0], l[|l| - 1], x), l + [x])
  {
    assert LinkRight(pool, l, 0) && LinkRight(pool, l, |l| - 1);
    var q, m := Appended(pool, l[0], l[|l| - 1], x), l + [x];
    forall j | 0 <= j < |m| ensures LinkRight(q, m, j) {
      if j < |l| { assert LinkRight(pool, l, j); }
    }
  }

  lemma AloneRing(pool: Pool, x: nat)
    requires x < |pool|
    ensures Linked(Alone(pool, x), [x])
  {
  }

  /** The same links, with the last node taken as the first. */
  lemma Rotated(pool: Pool, l: seq<nat>, x: nat)
    requires Linked(pool, l + [x])
    ensures Linked(pool, [x] + l)
  {
    var a, b := l + [x], [x] + l;
    forall k | 0 <= k < |b| ensures LinkRight(pool, b, k) {
      assert LinkRight(pool, a, if k == 0 then |l| else k - 1);
    }
    forall j, k | 0 <= j < k < |b| ensures b[j] != b[k] {
      assert a[k - 1] == b[k];
      if j == 0 { assert a[|l|] == b[j]; } else { assert a[j - 1] == b[j]; }
    }
  }

  /** A ring looks at its own nodes only. */
  lemma RingFrame(pool: Pool, q: Pool, l: seq<nat>)
    requires Linked(pool, l) && |q| == |pool|
    requires forall k :: 0 <= k < |l| && l[k] < |pool| ==>
      q[l[k]].next == pool[l[k]].next && q[l[k]].prior == pool[l[k]].prior
    ensures Linked(q, l)
  {
    forall k | 0 <= k < |l| ensures LinkRight(q, l, k) { assert LinkRight(pool, l, k); }
  }

  // ---------------------------------------------------------------- the two lists together

  /** Each node is on exactly one of the two lists, exactly once. */
  predicate Partition(n: nat, free: seq<nat>, active: seq<nat>)
  {
    && InPool(n, free) && InPool(n, active) && Distinct(free) && Distinct(active)
    && (forall x :: x in free ==> x !in active)
    && (forall x: nat :: x < n ==> x in free || x in active)
    && |free| + |active| == n
  }

  /** Node l[k] moves to the end of the other list. */
  lemma MovedPartition(n: nat, from: seq<nat>, to: seq<nat>, k: nat)
    requires Partition(n, from, to) && k < |from|
    ensures Partition(n, Without(from, k), to + [from[k]]) && Partition(n, to + [from[k]], Without(from, k))
  {
    var x, rest, more := from[k], Without(from, k), to + [from[k]];
    WithoutDistinct(from, k);
    assert x in from && x !in to;
    forall y: nat | y < n ensures y in rest || y in more {
      if y in from && y != x {
        var i :| 0 <= i < |from| && from[i] == y;
        assert rest[if i < k then i else i - 1] == y;
      } else if y in to {
        var i :| 0 <= i < |to| && to[i] == y;
        assert more[i] == y;
      } else {
        assert more[|to|] == y;
      }
    }
    forall y | y in rest ensures y !in more { assert y in from; }
  }

  lemma SwappedPartition(n: nat, free: seq<nat>, active: seq<nat>)
    requires Partition(n, free, active)
    ensures Partition(n, active, free)
  {
  }

  /** The objects held by the nodes of a list, in order. */
  function Objs(pool: Pool, l: seq<nat>): (r: seq<nat>)
    requires InPool(|pool|, l)
    ensures |r| == |l| && forall k :: 0 <= k < |l| ==> r[k] == pool[l[k]].obj
  {
    if l == [] then [] else Objs(pool, l[..|l| - 1]) + [pool[l[|l| - 1]].obj]
  }

  // ---------------------------------------------------------------- what a trace of objects is

  /** The objects being traced, oldest first; most is the size of the pool. */
  function Added(l: seq<nat>, o: nat, most: nat): seq<nat>
  {
    if o in l || |l| == most then l else l + [o]
  }

  /** The last place of o in l. */
  function LastOf(l: seq<nat>, o: nat): (k: nat)
    requires o in l
    ensures k < |l| && l[k] == o && forall j :: k < j < |l| ==> l[j] != o
    decreases |l|
  {
    if l[|l| - 1] == o then |l| - 1 else LastOf(l[..|l| - 1], o)
  }

  function Removed(l: seq<nat>, o: nat): seq<nat>
  {
    if o in l then Without(l, LastOf(l, o)) else l
  }

  /** The object gets a new address and becomes the newest. */
  function Updated(l: seq<nat>, o: nat, o': nat): seq<nat>
  {
    if o in l then Without(l, LastOf(l, o)) + [o'] else l
  }

  /** l' is l with the newest entry of o taken out and more put behind all others, which keep their order. */
  ghost predicate Replaces(l: seq<nat>, o: nat, more: seq<nat>, l': seq<nat>)
  {
    exists k :: 0 <= k < |l| && l[k] == o && (forall j :: k < j < |l| ==> l[j] != o) && l' == l[..k] + l[k + 1..] + more
  }

  lemma NewestReplaced(l: seq<nat>, o: nat, o': nat)
    ensures o in l ==> Replaces(l, o, [o'], Updated(l, o, o')) && Replaces(l, o, [], Removed(l, o))
    ensures o in l ==> Updated(l, o, o') == Without(l, LastOf(l, o)) + [o']
    ensures o !in l ==> Updated(l, o, o') == l && Removed(l, o) == l
  {
    if o in l {
      var k := LastOf(l, o);
      assert l[..k] + l[k + 1..] + [] == l[..k] + l[k + 1..];
    }
  }

  /** CheckObj stands for the three operations that look an object up and make it the newest. */
  datatype Op = AddObj(obj: nat) | RemoveObj(obj: nat) | UpdateObj(obj: nat, new_: nat) | CheckObj(obj: nat)

  function Traced(l: seq<nat>, op: Op, most: nat): seq<nat>
  {
    match op
    case AddObj(o) => Added(l, o, most)
    case RemoveObj(o) => Removed(l, o)
    case UpdateObj(o, o') => Updated(l, o, o')
    case CheckObj(o) => Updated(l, o, o)
  }

  function RunOps(l: seq<nat>, ops: seq<Op>, most: nat): seq<nat>
    decreases |ops|
  {
    if ops == [] then l else RunOps(Traced(l, ops[0], most), ops[1..], most)
  }

  /** The objects released and still remembered, oldest first, after o is added to the objects l. */
  function FreedByAdd(l: seq<nat>, freed: seq<nat>, o: nat, most: nat): seq<nat>
  {
    if o in l || |l| == most || |l| + |freed| < most || freed == [] then freed else freed[1..]
  }

  /** An add takes a node never used as long as there is one, and then the one released first. */
  lemma OldestForgotten(l: seq<nat>, freed: seq<nat>, o: nat, most: nat)
    requires |l| + |freed| <= most
    ensures var took := o !in l && |l| < most;
      && Added(l, o, most) == l + (if took then [o] else [])
      && if took && |l| + |freed| == most then [freed[0]] + FreedByAdd(l, freed, o, most) == freed
         else FreedByAdd(l, freed, o, most) == freed
  {
  }

  function FreedByRemove(l: seq<nat>, freed: seq<nat>, o: nat): seq<nat>
  {
    if o !in l then freed else if o == 0 then [] else freed + [o]
  }

  function Forgets(l: seq<nat>, freed: seq<nat>, op: Op, most: nat): seq<nat>
  {
    match op
    case AddObj(o) => FreedByAdd(l, freed, o, most)
    case RemoveObj(o) => FreedByRemove(l, freed, o)
    case _ => freed
  }

  function RunFreed(l: seq<nat>, freed: seq<nat>, ops: seq<Op>, most: nat): seq<nat>
    decreases |ops|
  {
    if ops == [] then freed
    else RunFreed(Traced(l, ops[0], most), Forgets(l, freed, ops[0], most), ops[1..], most)
  }

  /** Over any run: the two lists together never exceed the pool, an object is told to be freed
      already only if it was released before, and it is not forgotten until the run is as long as
      the rest of the pool. */
  lemma {:induction false} RunRemembers(l: seq<nat>, freed: seq<nat>, ops: seq<Op>, most: nat, o: nat)
    requires |l| + |freed| <= most
    ensures |RunOps(l, ops, most)| + |RunFreed(l, freed, ops, most)| <= most
    ensures o in RunFreed(l, freed, ops, most) ==> o in freed || RemoveObj(o) in ops
    ensures o in freed && |l| + |freed| + |ops| <= most && RemoveObj(0) !in ops ==> o in RunFreed(l, freed, ops, most)
    decreases |ops|
  {
    if ops != [] {
      RunRemembers(Traced(l, ops[0], most), Forgets(l, freed, ops[0], most), ops[1..], most, o);
    }
  }

  lemma RemovedDistinct(l: seq<nat>, o: nat)
    requires Distinct(l)
    ensures Distinct(Removed(l, o)) && o !in Removed(l, o)
    ensures forall p :: p != o ==> (p in Removed(l, o) <==> p in l)
  {
    if o in l {
      var k := LastOf(l, o);
      WithoutDistinct(l, k);
      var r := Without(l, k);
      forall p | p != o ensures p in r <==> p in l {
        if p in l {
          var i :| 0 <= i < |l| && l[i] == p;
          assert r[if i < k then i else i - 1] == p;
        }
      }
    }
  }

  /** An update of a traced object keeps the objects distinct exactly when its new address is not
      that of another object being traced, which bcm_object_trace_upd does not check. */
  lemma UpdateDistinct(l: seq<nat>, o: nat, o': nat)
    requires Distinct(l) && o in l
    ensures Distinct(Updated(l, o, o')) <==> o' == o || o' !in l
  {
    RemovedDistinct(l, o);
    var r := Without(l, LastOf(l, o));
    assert Updated(l, o, o') == r + [o'];
    if o' in r {
      var i :| 0 <= i < |r| && r[i] == o';
      assert (r + [o'])[i] == (r + [o'])[|r|];
    }
  }

  predicate HarmlessOp(l: seq<nat>, op: Op)
  {
    op.UpdateObj? && op.obj in l ==> op.new_ == op.obj || op.new_ !in l
  }

  /** No step of the run gives an object the address of another one being traced. */
  predicate Harmless(l: seq<nat>, ops: seq<Op>, most: nat)
    decreases |ops|
  {
    ops == [] || (HarmlessOp(l, ops[0]) && Harmless(Traced(l, ops[0], most), ops[1..], most))
  }

  /** Over any such run from the empty trace, every object is traced at most once and the pool is
      never exceeded. */
  lemma {:induction false} RunDistinct(l: seq<nat>, ops: seq<Op>, most: nat)
    requires Distinct(l) && |l| <= most && Harmless(l, ops, most)
    ensures Distinct(RunOps(l, ops, most)) && |RunOps(l, ops, most)| <= most
    decreases |ops|
  {
    if ops != [] {
      match ops[0] {
        case AddObj(o) =>
        case RemoveObj(o) => RemovedDistinct(l, o);
        case UpdateObj(o, o') => if o in l { UpdateDistinct(l, o, o'); }
        case CheckObj(o) => if o in l { UpdateDistinct(l, o, o); }
      }
      RunDistinct(Traced(l, ops[0], most), ops[1..], most);
    }
  }

  // ---------------------------------------------------------------- the module's state

  datatype RemoveResult = Released | AlreadyFreed | NoneExisting

  datatype CheckResult = Active | WasFreed | NotFound

  /** The objects on the free list behind the last node that holds none. */
  function Remembered(objs: seq<nat>): (r: seq<nat>)
    ensures Suffix(objs, r)
    decreases |objs|
  {
    if objs == [] || objs[|objs| - 1] == 0 then []
    else Remembered(objs[..|objs| - 1]) + [objs[|objs| - 1]]
  }

  /** The free list gives up its first node: the oldest object is forgotten only if no node in front
      of it is left. */
  lemma RememberedTake(objs: seq<nat>)
    requires objs != []
    ensures Remembered(objs[1..]) == if Remembered(objs) == objs then objs[1..] else Remembered(objs)
  {
    hide Remembered;
    var r, s := Remembered(objs), Remembered(objs[1..]);
    if |r| < |objs| { TailSuffix(objs, r); } else { WholeSuffix(objs, r); }
    SameSuffix(objs[1..], if |r| < |objs| then r else objs[1..], s);
  }

  /** r is all of l that lies behind its last zero. */
  predicate Suffix(l: seq<nat>, r: seq<nat>)
  {
    |r| <= |l| && r == l[|l| - |r|..] && 0 !in r && (|r| < |l| ==> l[|l| - |r| - 1] == 0)
  }

  lemma TailSuffix(l: seq<nat>, r: seq<nat>)
    requires Suffix(l, r) && |r| < |l|
    ensures Suffix(l[1..], r)
  {
    var m := l[1..];
    assert m[|m| - |r|..] == l[|l| - |r|..];
  }

  lemma WholeSuffix(l: seq<nat>, r: seq<nat>)
    requires Suffix(l, r) && |r| == |l| && l != []
    ensures r == l && Suffix(l[1..], l[1..])
  {
    assert l[0..] == l;
    assert 0 !in l[1..];
  }

  /** Only one suffix without zeros has a zero in front of it or nothing. */
  lemma SameSuffix(l: seq<nat>, r: seq<nat>, s: seq<nat>)
    requires Suffix(l, r) && Suffix(l, s)
    ensures r == s
  {
    NoZeroBehind(l, r);
    NoZeroBehind(l, s);
  }

  lemma NoZeroBehind(l: seq<nat>, s: seq<nat>)
    requires |s| <= |l| && s == l[|l| - |s|..] && 0 !in s
    ensures forall j :: |l| - |s| <= j < |l| ==> l[j] != 0
  {
    forall j | |l| - |s| <= j < |l| ensures l[j] != 0 { assert s[j - (|l| - |s|)] == l[j]; }
  }

  class Trace {
    const objs: array<Node>
    var freeHead: int
    var freeTail: int
    var objHead: int
    var objTail: int
    var count: int
    ghost var free: seq<nat>
    ghost var active: seq<nat>

    ghost predicate Valid()
      reads this, objs
    {
      && Ring(objs[..], freeHead, freeTail, free)
      && Ring(objs[..], objHead, objTail, active)
      && Partition(objs.Length, free, active)
      && count == |active|
    }

    /** The objects being traced, oldest first. */
    ghost function Contents(): seq<nat>
      requires Valid()
      reads this, objs
    {
      Objs(objs[..], active)
    }

    /** The objects released and not forgotten yet, oldest first. */
    ghost function Freed(): seq<nat>
      requires Valid()
      reads this, objs
    {
      Remembered(Objs(objs[..], free))
    }

    /** bcm_object_trace_init, for a pool of n nodes. */
    constructor (n: nat)
      requires n > 0
      ensures Valid() && fresh(objs) && objs.Length == n && Contents() == [] && Freed() == []
      ensures freeHead == 0 && freeTail == n - 1 && |free| == n && Counting(free)
      ensures objHead == NULL && objTail == NULL && count == 0
    {
      var pool := new Node[n](i => Node(0, 0, 0));
      objs := pool;
      freeHead, freeTail := 0, n - 1;
      objHead, objTail, count := NULL, NULL, 0;
      free := seq(n, i => i);
      active := [];
      new;
      hide Ring, Partition, Objs, Remembered;
      for i := 0 to n
        modifies objs
        invariant forall k :: 0 <= k < i ==> objs[k] == InitialNode(n, k)
      {
        objs[i] := Node(if i == 0 then freeTail else i - 1, if i == n - 1 then freeHead else i + 1, 0);
      }
      StartRing(objs[..], free);
      StartEmpty(objs[..], free);
    }

    /** The pointer writes of bcm_object_rm_list, and the list's new head and tail. l is the list
        and x its node at place k. */
    method RmList(head: int, tail: int, x: nat, ghost l: seq<nat>, ghost k: nat) returns (head': int, tail': int)
      requires Ring(objs[..], head, tail, l) && k < |l| && x == l[k]
      modifies objs
      ensures (UnlinkSafe(old(objs[..]), l, k); objs[..] == Unlinked(old(objs[..]), x))
      ensures Ring(objs[..], head', tail', Without(l, k))
    {
      hide Linked, Without, LinkRight;
      ghost var pool := objs[..];
      UnlinkSafe(pool, l, k);
      UnlinkRing(pool, l, k);
      UnlinkEnds(pool, head, tail, l, k);
      head', tail' := head, tail;
      if x == head && x == tail {
        head', tail' := NULL, NULL;
      } else if x == head {
        head' := objs[head].next;
      } else if x == tail {
        tail' := objs[tail].prior;
      }
      var next := objs[x].next;
      objs[next] := objs[next].(prior := objs[x].prior);
      var prior := objs[x].prior;
      objs[prior] := objs[prior].(next := objs[x].next);
      assert objs[..] == Unlinked(pool, x);
    }

    /** bcm_object_add_list. */
    method AddList(head: int, tail: int, x: nat, toTail: bool, ghost l: seq<nat>) returns (head': int, tail': int)
      requires Ring(objs[..], head, tail, l) && x < objs.Length && x !in l
      modifies objs
      ensures AppendedTo(objs[..], old(objs[..]), l, x)
      ensures Ring(objs[..], head', tail', if toTail then l + [x] else [x] + l)
    {
      ghost var pool := objs[..];
      head', tail' := head, tail;
      if head == NULL && tail == NULL {
        assert l == [];
        head', tail' := x, x;
        AloneRing(pool, x);
        objs[x] := objs[x].(next := x, prior := x);
        assert l + [x] == [x] && [x] + l == [x];
        assert objs[..] == Alone(pool, x);
      } else {
        AppendRing(pool, l, x);
        hide Linked;
        objs[tail] := objs[tail].(next := x);
        objs[head] := objs[head].(prior := x);
        objs[x] := objs[x].(next := head, prior := tail);
        assert objs[..] == Appended(pool, head, tail, x);
        if toTail { tail' := x; } else {
          head' := x;
          Rotated(objs[..], l, x);
        }
      }
    }

    /** bcm_object_movetoend: node active[k] becomes the last one of its list, or the first. */
    method MoveToEnd(x: nat, toTail: bool, ghost k: nat)
      requires Valid() && k < |active| && x == active[k]
      modifies this`objHead, this`objTail, this`active, objs
      ensures Valid() && free == old(free)
      ensures active == if toTail then Without(old(active), k) + [x] else [x] + Without(old(active), k)
      ensures SameObjs(objs[..], old(objs[..]))
    {
      ghost var pool, rest := objs[..], Without(active, k);
      if toTail {
        if x == objTail {
          LastAlready(active, k);
          return;
        }
      } else {
        if x == objHead {
          FirstAlready(active, k);
          return;
        }
      }
      MovedWithin(objs.Length, free, active, k);
      UnlinkSafe(pool, active, k);
      OtherAfterUnlink(pool, active, k, free, freeHead, freeTail);
      LinksKeepObjs(pool, x);
      WithoutDistinct(active, k);
      hide Linked, Partition, Unlinked, Appended, Alone, SameObjs;
      objHead, objTail := RmList(objHead, objTail, x, active, k);
      ghost var mid := objs[..];
      LinksKeepObjs(mid, x);
      objHead, objTail := AddList(objHead, objTail, x, toTail, rest);
      OtherAfterAppend(objs[..], mid, rest, x, free, freeHead, freeTail);
      active := if toTail then rest + [x] else [x] + rest;
      SameSame(objs[..], mid, pool);
    }

    /** The search every operation begins with: backwards from the newest object. */
    method Find(o: nat) returns (cur: int)
      requires Valid()
      ensures cur == NULL <==> o !in Contents()
      ensures o in Contents() ==> cur == active[LastOf(Contents(), o)]
    {
      ghost var l := Contents();
      cur := objTail;
      if cur == NULL { return; }
      ghost var k := |active| - 1;
      while objs[cur].obj != o
        invariant 0 <= k < |active| && cur == active[k] < objs.Length && l[k] == objs[cur].obj
        invariant forall j :: k < j < |active| ==> l[j] != o
        decreases k
      {
        assert LinkRight(objs[..], active, k);
        cur := objs[cur].prior;
        if cur == objTail {
          assert k == 0;
          return NULL;
        }
        k := k - 1;
      }
      assert l[k] in l;
    }

    /** Node x = active[k] leaves the list of objects for the tail of the free list. */
    method Release(x: nat, ghost k: nat)
      requires Valid() && k < |active| && x == active[k]
      modifies this, objs
      ensures Valid()
      ensures active == Without(old(active), k) && free == old(free) + [x]
      ensures Contents() == Without(old(Contents()), k)
      ensures Objs(objs[..], free) == old(Objs(objs[..], free)) + [old(Contents())[k]]
    {
      hide Linked, Partition, Unlinked, Appended, Alone, SameObjs, Objs, AppendedTo, Without;
      ghost var pool, rest := objs[..], Without(active, k);
      ReleaseFacts(pool, free, active, freeHead, freeTail, k);
      objHead, objTail := RmList(objHead, objTail, x, active, k);
      ghost var mid := objs[..];
      freeHead, freeTail := AddList(freeHead, freeTail, x, true, free);
      OtherAfterAppend(objs[..], mid, free, x, rest, objHead, objTail);
      AppendKeepsObjs(objs[..], mid, free, x);
      SameSame(objs[..], mid, pool);
      ObjsSame(objs[..], pool, rest);
      ObjsSame(objs[..], pool, free + [x]);
      active, free := rest, free + [x];
      count := count - 1;
    }

    /** The first free node becomes the newest object o. */
    method Take(o: nat)
      requires Valid() && |free| > 0
      modifies this, objs
      ensures Valid()
      ensures active == old(active) + [old(free)[0]] && free == old(free)[1..]
      ensures Contents() == old(Contents()) + [o]
      ensures Objs(objs[..], free) == old(Objs(objs[..], free))[1..]
    {
      hide Linked, Partition, Unlinked, Appended, Alone, SameObjs, Objs, AppendedTo, Without;
      ghost var pool, rest := objs[..], Without(free, 0);
      var x := freeHead;
      TakeFacts(pool, free, active, objHead, objTail);
      freeHead, freeTail := RmList(freeHead, freeTail, x, free, 0);
      ghost var mid := objs[..];
      objs[x] := objs[x].(obj := o);
      ghost var set_ := objs[..];
      assert set_ == mid[x := mid[x].(obj := o)];
      ObjSet(mid, rest, x, o);
      ObjSet(mid, active, x, o);
      ObjsSame(mid, pool, active);
      objHead, objTail := AddList(objHead, objTail, x, true, active);
      OtherAfterAppend(objs[..], set_, active, x, rest, freeHead, freeTail);
      AppendKeepsObjs(objs[..], set_, active, x);
      ObjsSame(objs[..], set_, active);
      ObjsAppend(objs[..], active, x);
      ObjOf(objs[..], set_, x);
      active, free := active + [x], rest;
      count := count + 1;
    }

    /** bcm_object_trace_opr with BCM_OBJDBG_ADD. taken: the object was not being traced and there
        was a node for it. */
    method Add(o: nat) returns (taken: bool)
      requires Valid()
      modifies this, objs
      ensures Valid() && Contents() == Added(old(Contents()), o, objs.Length)
      ensures Freed() == FreedByAdd(old(Contents()), old(Freed()), o, objs.Length)
      ensures Contents() == old(Contents()) + (if taken then [o] else [])
      ensures old(|Contents()| + |Freed()|) <= objs.Length
      ensures if taken && old(|Contents()| + |Freed()|) == objs.Length
              then [old(Freed()[0])] + Freed() == old(Freed()) else Freed() == old(Freed())
      ensures taken <==> old(o !in Contents() && |Contents()| < objs.Length)
      ensures !taken ==> objs[..] == old(objs[..])
    {
      hide Linked, Partition, Objs, Remembered, Added, FreedByAdd;
      TakenFreed(objs.Length, objs[..], free, active, o);
      OldestForgotten(Contents(), Freed(), o, objs.Length);
      var cur := Find(o);
      if cur != NULL { return false; }
      if freeHead == NULL { return false; }
      Take(o);
      taken := true;
    }

    /** The search of the free list: backwards from the node released last, up to one never used. */
    method FindFreed(o: nat) returns (found: bool)
      requires Valid()
      ensures found <==> o in Freed()
    {
      hide Remembered, Objs;
      var cur := freeTail;
      ghost var l := Objs(objs[..], free);
      ghost var r := Remembered(l);
      ghost var m := |l| - |r|;
      if cur == NULL { return false; }
      ghost var k := |free| - 1;
      while objs[cur].obj != 0
        invariant 0 <= k < |free| && cur == free[k] < objs.Length && l[k] == objs[cur].obj
        invariant m - 1 <= k && forall j :: k < j < |l| ==> l[j] != o
        decreases k
      {
        if objs[cur].obj == o { return true; }
        assert LinkRight(objs[..], free, k);
        cur := objs[cur].prior;
        if cur == freeTail {
          assert k == 0;
          return false;
        }
        k := k - 1;
      }
      found := false;
    }

    /** bcm_object_trace_opr with BCM_OBJDBG_REMOVE, and what it reports. */
    method Remove(o: nat) returns (result: RemoveResult)
      requires Valid()
      modifies this, objs
      ensures Valid() && Contents() == Removed(old(Contents()), o)
      ensures if old(o in Contents()) then Replaces(old(Contents()), o, [], Contents())
              else Contents() == old(Contents()) && Freed() == old(Freed())
      ensures old(o in Contents()) && o != 0 ==> Freed() == old(Freed()) + [o]
      ensures result == Released <==> o in old(Contents())
      ensures result == AlreadyFreed <==> o !in old(Contents()) && o in old(Freed())
      ensures Freed() == FreedByRemove(old(Contents()), old(Freed()), o)
    {
      hide Ring, Partition, Objs, Replaces;
      NewestReplaced(Contents(), o, o);
      var cur := Find(o);
      if cur != NULL {
        Release(cur, LastOf(Contents(), o));
        return Released;
      }
      var found := FindFreed(o);
      result := if found then AlreadyFreed else NoneExisting;
    }

    /** bcm_object_trace_upd. */
    method Update(o: nat, o': nat)
      requires Valid()
      modifies this, objs
      ensures Valid() && Contents() == Updated(old(Contents()), o, o') && Freed() == old(Freed())
      ensures if old(o in Contents()) then Replaces(old(Contents()), o, [o'], Contents())
              else Contents() == old(Contents())
    {
      hide Linked, Partition, Unlinked, Appended, Alone, SameObjs, Objs, Without, Remembered, Replaces, Updated;
      NewestReplaced(Contents(), o, o');
      var x := Find(o);
      if x == NULL { return; }
      ghost var pool, k := objs[..], LastOf(Contents(), o);
      UpdateFacts(pool, free, active, k, o');
      objs[x] := objs[x].(obj := o');
      ghost var set_ := objs[..];
      assert set_ == pool[x := pool[x].(obj := o')];
      if x != objTail {
        MoveToEnd(x, true, k);
      }
      SameAgain(objs[..], set_);
      UpdatedObjs(objs[..], set_, pool, active, old(active), k, o');
      UpdatedFreed(objs[..], set_, pool, free, x, o');
    }

    /** The search of the free list that a check makes: it compares a node before it stops at one that
        holds no object. */
    method FindOnFree(o: nat) returns (found: bool)
      requires Valid()
      ensures found <==> o in Freed() || (o == 0 && |Freed()| + |Contents()| < objs.Length)
    {
      hide Remembered, Objs;
      var cur := freeTail;
      ghost var l := Objs(objs[..], free);
      ghost var r := Remembered(l);
      ghost var m := |l| - |r|;
      if cur == NULL { return false; }
      ghost var k := |free| - 1;
      while true
        invariant 0 <= k < |free| && cur == free[k] < objs.Length && l[k] == objs[cur].obj
        invariant m - 1 <= k && forall j :: k < j < |l| ==> l[j] != o
        decreases k
      {
        assert k >= m ==> r[k - m] == l[k];
        if objs[cur].obj == o { return true; }
        if objs[cur].obj == 0 { break; }
        assert LinkRight(objs[..], free, k);
        cur := objs[cur].prior;
        if cur == freeTail {
          assert k == 0;
          return false;
        }
        k := k - 1;
      }
      found := false;
    }

    /** bcm_object_trace_chk without a serial number, and what it reports. bcm_object_feature_set and
        bcm_object_feature_get move the object in the same way. */
    method Check(o: nat) returns (result: CheckResult)
      requires Valid()
      modifies this, objs
      ensures Valid() && Contents() == Updated(old(Contents()), o, o) && Freed() == old(Freed())
      ensures if old(o in Contents()) then Replaces(old(Contents()), o, [o], Contents())
              else Contents() == old(Contents())
      ensures result == Active <==> o in old(Contents())
      ensures result == WasFreed ==> o !in old(Contents())
      ensures o !in old(Contents()) ==>
        (result == WasFreed <==> o in old(Freed()) || (o == 0 && |old(Freed())| + |old(Contents())| < objs.Length))
    {
      hide Linked, Partition, Unlinked, Appended, Alone, SameObjs, Objs, Without, Remembered, Replaces;
      NewestReplaced(Contents(), o, o);
      var x := Find(o);
      if x == NULL {
        var found := FindOnFree(o);
        return if found then WasFreed else NotFound;
      }
      ghost var pool, k := objs[..], LastOf(Contents(), o);
      CheckFacts(pool, free, active, k, o);
      if x != objTail {
        MoveToEnd(x, true, k);
      }
      SameAgain(objs[..], pool);
      UpdatedObjs(objs[..], pool, pool, active, old(active), k, o);
      UpdatedFreed(objs[..], pool, pool, free, x, o);
      result := Active;
    }
  }

  predicate Counting(l: seq<nat>) { forall k :: 0 <= k < |l| ==> l[k] == k }

  function InitialNode(n: nat, k: nat): Node
  {
    Node(if k == 0 then n - 1 else k - 1, if k == n - 1 then 0 else k + 1, 0)
  }

  /** The pool as initialisation leaves it. */
  lemma StartRing(pool: Pool, l: seq<nat>)
    requires |l| == |pool| > 0 && Counting(l)
    requires forall k :: 0 <= k < |pool| ==> pool[k] == InitialNode(|pool|, k)
    ensures Ring(pool, 0, |pool| - 1, l) && Partition(|pool|, l, [])
  {
    forall k | 0 <= k < |l| ensures LinkRight(pool, l, k) { }
    forall x: nat | x < |l| ensures x in l { assert l[x] == x; }
  }

  lemma StartEmpty(pool: Pool, l: seq<nat>)
    requires |l| > 0 && InPool(|pool|, l) && pool[l[|l| - 1]].obj == 0
    ensures Remembered(Objs(pool, l)) == [] && Objs(pool, []) == []
  {
  }

  /** The other list when node l[k] of one is taken off, and when it is put on. */
  lemma OtherAfterUnlink(pool: Pool, l: seq<nat>, k: nat, other: seq<nat>, head: int, tail: int)
    requires Linked(pool, l) && k < |l| && Ring(pool, head, tail, other)
    requires forall y :: y in other ==> y !in l
    ensures (UnlinkSafe(pool, l, k); Ring(Unlinked(pool, l[k]), head, tail, other))
  {
    UnlinkSafe(pool, l, k);
    var q := Unlinked(pool, l[k]);
    forall j | 0 <= j < |other| ensures other[j] < |pool| && q[other[j]] == pool[other[j]] {
      assert LinkRight(pool, other, j);
      UnlinkFrame(pool, l, k, other[j]);
    }
    RingFrame(pool, q, other);
  }

  /** pool after x was appended to the list l. */
  predicate AppendedTo(q: Pool, pool: Pool, l: seq<nat>, x: nat)
    requires x < |pool|
  {
    if l == [] then q == Alone(pool, x)
    else l[0] < |pool| && l[|l| - 1] < |pool| && q == Appended(pool, l[0], l[|l| - 1], x)
  }

  lemma OtherAfterAppend(q: Pool, pool: Pool, l: seq<nat>, x: nat, other: seq<nat>, head: int, tail: int)
    requires x < |pool| && AppendedTo(q, pool, l, x) && Ring(pool, head, tail, other)
    requires x !in other && forall y :: y in other ==> y !in l
    ensures Ring(q, head, tail, other)
  {
    forall j | 0 <= j < |other| ensures other[j] < |pool| && q[other[j]] == pool[other[j]] {
      assert LinkRight(pool, other, j);
      assert other[j] in other;
    }
    RingFrame(pool, q, other);
  }

  /** Do the nodes hold the same objects? */
  predicate SameObjs(q: Pool, pool: Pool) { |q| == |pool| && forall y :: 0 <= y < |pool| ==> q[y].obj == pool[y].obj }

  lemma LinksKeepObjs(pool: Pool, x: nat)
    requires x < |pool|
    ensures 0 <= pool[x].next < |pool| && 0 <= pool[x].prior < |pool| ==> SameObjs(Unlinked(pool, x), pool)
    ensures forall q, l :: AppendedTo(q, pool, l, x) ==> SameObjs(q, pool)
  {
  }

  lemma {:induction false} ObjsSame(q: Pool, pool: Pool, l: seq<nat>)
    requires SameObjs(q, pool) && InPool(|pool|, l)
    ensures Objs(q, l) == Objs(pool, l)
  {
    if l != [] { ObjsSame(q, pool, l[..|l| - 1]); }
  }

  lemma ObjsWithout(pool: Pool, l: seq<nat>, k: nat)
    requires InPool(|pool|, l) && k < |l|
    ensures InPool(|pool|, Without(l, k)) && Objs(pool, Without(l, k)) == Without(Objs(pool, l), k)
  {
    hide Without, Objs;
    var r, objs := Without(l, k), Objs(pool, l);
    forall j | 0 <= j < |l| - 1 ensures |r| == |Without(objs, k)| == |l| - 1
      ensures r[j] < |pool| && pool[r[j]].obj == Without(objs, k)[j]
    {
      WithoutAt(l, k, j);
      WithoutAt(objs, k, j);
    }
    WithoutLength(l, k);
    WithoutLength(objs, k);
  }

  lemma ObjsAppend(pool: Pool, l: seq<nat>, x: nat)
    requires InPool(|pool|, l) && x < |pool|
    ensures InPool(|pool|, l + [x]) && Objs(pool, l + [x]) == Objs(pool, l) + [pool[x].obj]
  {
  }

  /** Node x of one list, and a list it is not on, when x gets another object. */
  lemma ObjSet(pool: Pool, l: seq<nat>, x: nat, o: nat)
    requires x < |pool|
    ensures Linked(pool, l) ==> Linked(pool[x := pool[x].(obj := o)], l)
    ensures InPool(|pool|, l) && x !in l ==> Objs(pool[x := pool[x].(obj := o)], l) == Objs(pool, l)
  {
    var q := pool[x := pool[x].(obj := o)];
    if Linked(pool, l) {
      forall k | 0 <= k < |l| ensures LinkRight(q, l, k) { assert LinkRight(pool, l, k); }
    }
    if InPool(|pool|, l) && x !in l {
      forall k | 0 <= k < |l| ensures Objs(q, l)[k] == Objs(pool, l)[k] { assert l[k] in l; }
    }
  }

  lemma AppendKeepsObjs(q: Pool, pool: Pool, l: seq<nat>, x: nat)
    requires x < |pool| && AppendedTo(q, pool, l, x)
    ensures SameObjs(q, pool)
  {
    LinksKeepObjs(pool, x);
  }

  /** What holds before the first free node is taken. */
  lemma TakeFacts(pool: Pool, free: seq<nat>, active: seq<nat>, objHead: int, objTail: int)
    requires Linked(pool, free) && free != [] && Ring(pool, objHead, objTail, active)
    requires Partition(|pool|, free, active)
    ensures var x, rest := free[0], Without(free, 0);
      && x < |pool| && x !in rest && x !in active && rest == free[1..]
      && Partition(|pool|, rest, active + [x])
      && (UnlinkSafe(pool, free, 0);
        Ring(Unlinked(pool, x), objHead, objTail, active) && SameObjs(Unlinked(pool, x), pool))
      && (forall y :: y in rest ==> y !in active) && InPool(|pool|, active) && InPool(|pool|, rest)
  {
    MovedPartition(|pool|, free, active, 0);
    UnlinkSafe(pool, free, 0);
    LeavesOther(|pool|, free, active, 0);
    OtherAfterUnlink(pool, free, 0, active, objHead, objTail);
    LinksKeepObjs(pool, free[0]);
  }

  lemma TakenFreed(most: nat, pool: Pool, free: seq<nat>, active: seq<nat>, o: nat)
    requires Partition(most, free, active) && |pool| == most
    ensures var l, freed := Objs(pool, active), Objs(pool, free);
      && |l| == |active| && |freed| == |free| && |free| + |active| == most && |Remembered(freed)| <= |freed|
      && (free != [] && o !in l ==> Remembered(freed[1..]) == FreedByAdd(l, Remembered(freed), o, most))
      && (free == [] || o in l ==> Remembered(freed) == FreedByAdd(l, Remembered(freed), o, most))
  {
    var freed := Objs(pool, free);
    if freed != [] { RememberedTake(freed); }
  }

  /** What holds before node active[k] is released. */
  lemma ReleaseFacts(pool: Pool, free: seq<nat>, active: seq<nat>, freeHead: int, freeTail: int, k: nat)
    requires Linked(pool, active) && k < |active| && Ring(pool, freeHead, freeTail, free)
    requires Partition(|pool|, free, active)
    ensures var x, rest := active[k], Without(active, k);
      && |rest| == |active| - 1 && x < |pool| && x !in rest && x !in free
      && Partition(|pool|, free + [x], rest)
      && (UnlinkSafe(pool, active, k);
        Ring(Unlinked(pool, x), freeHead, freeTail, free) && SameObjs(Unlinked(pool, x), pool))
      && (forall y :: y in rest ==> y !in free) && InPool(|pool|, rest) && InPool(|pool|, free + [x])
      && InPool(|pool|, active) && InPool(|pool|, free)
      && Objs(pool, rest) == Without(Objs(pool, active), k)
      && Objs(pool, free + [x]) == Objs(pool, free) + [Objs(pool, active)[k]]
  {
    SwappedPartition(|pool|, free, active);
    MovedPartition(|pool|, active, free, k);
    UnlinkSafe(pool, active, k);
    LeavesOther(|pool|, active, free, k);
    OtherAfterUnlink(pool, active, k, free, freeHead, freeTail);
    LinksKeepObjs(pool, active[k]);
    ObjsWithout(pool, active, k);
    ObjsAppend(pool, free, active[k]);
  }

  lemma UpdateFacts(pool: Pool, free: seq<nat>, active: seq<nat>, k: nat, o: nat)
    requires Linked(pool, free) && Linked(pool, active) && Partition(|pool|, free, active) && k < |active|
    ensures active[k] < |pool| && InPool(|pool|, active) && Distinct(active)
    ensures active[k] !in free && InPool(|pool|, free)
    ensures active[k] == active[|active| - 1] ==> k == |active| - 1
    ensures var q := pool[active[k] := pool[active[k]].(obj := o)]; Linked(q, free) && Linked(q, active)
  {
    ObjSet(pool, active, active[k], o);
    ObjSet(pool, free, active[k], o);
  }

  lemma CheckFacts(pool: Pool, free: seq<nat>, active: seq<nat>, k: nat, o: nat)
    requires Linked(pool, free) && Linked(pool, active) && Partition(|pool|, free, active) && k < |active|
    ensures InPool(|pool|, active) && Distinct(active) && active[k] !in free && InPool(|pool|, free)
    ensures active[k] == active[|active| - 1] ==> k == |active| - 1
    ensures Objs(pool, active)[k] == o ==> pool == pool[active[k] := pool[active[k]].(obj := o)]
  {
  }

  /** The objects after node active[k] got object o and became the last of its list. */
  lemma UpdatedObjs(q: Pool, set_: Pool, pool: Pool, active': seq<nat>, active: seq<nat>, k: nat, o: nat)
    requires InPool(|pool|, active) && Distinct(active) && k < |active|
    requires set_ == pool[active[k] := pool[active[k]].(obj := o)] && SameObjs(q, set_)
    requires active' == Without(active, k) + [active[k]] || (active' == active && k == |active| - 1)
    ensures InPool(|q|, active') && Objs(q, active') == Without(Objs(pool, active), k) + [o]
  {
    var x, rest := active[k], Without(active, k);
    WithoutDistinct(active, k);
    ObjsWithout(pool, active, k);
    assert active' == rest + [x];
    ObjSet(pool, rest, x, o);
    ObjsSame(q, set_, rest);
    ObjsAppend(q, rest, x);
  }

  lemma UpdatedFreed(q: Pool, set_: Pool, pool: Pool, free: seq<nat>, x: nat, o: nat)
    requires x < |pool| && x !in free && InPool(|pool|, free)
    requires set_ == pool[x := pool[x].(obj := o)] && SameObjs(q, set_)
    ensures |q| == |pool| && Objs(q, free) == Objs(pool, free)
  {
    ObjSet(pool, free, x, o);
    ObjsSame(q, set_, free);
  }

  lemma SameAgain(q: Pool, pool: Pool)
    ensures q == pool ==> SameObjs(q, pool)
  {
  }

  lemma ObjOf(q: Pool, pool: Pool, x: nat)
    requires SameObjs(q, pool) && x < |pool|
    ensures q[x].obj == pool[x].obj
  {
  }

  lemma LeavesOther(n: nat, from: seq<nat>, to: seq<nat>, k: nat)
    requires Partition(n, from, to) && k < |from|
    ensures from[k] < n && from[k] !in to && from[k] !in Without(from, k)
    ensures forall y :: y in to ==> y !in from && y !in Without(from, k)
    ensures forall y :: y in Without(from, k) ==> y !in to
    ensures InPool(n, to) && InPool(n, Without(from, k))
  {
    WithoutDistinct(from, k);
  }

  lemma SameSame(a: Pool, b: Pool, c: Pool)
    requires SameObjs(a, b) && SameObjs(b, c)
    ensures SameObjs(a, c)
  {
  }

  lemma LastAlready(l: seq<nat>, k: nat)
    requires Distinct(l) && k < |l| && l[k] == l[|l| - 1]
    ensures l == Without(l, k) + [l[k]]
  {
  }

  lemma FirstAlready(l: seq<nat>, k: nat)
    requires Distinct(l) && k < |l| && l[k] == l[0]
    ensures l == [l[k]] + Without(l, k)
  {
  }

  lemma MovedWithin(n: nat, free: seq<nat>, active: seq<nat>, k: nat)
    requires Partition(n, free, active) && k < |active|
    ensures Partition(n, free, Without(active, k) + [active[k]]) && Partition(n, free, [active[k]] + Without(active, k))
    ensures active[k] !in free && forall y :: y in free ==> y !in Without(active, k)
  {
  }

  // ---------------------------------------------------------------- a run of a trace

  /** A new trace of n nodes led through a run: its objects, traced and remembered, are those of the
      run. */
  method RunTrace(n: nat, ops: seq<Op>) returns (t: Trace)
    requires n > 0
    ensures t.Valid() && t.objs.Length == n
    ensures t.Contents() == RunOps([], ops, n) && t.Freed() == RunFreed([], [], ops, n)
  {
    hide Ring, Partition, Objs, Remembered, RunOps, RunFreed, Traced, Forgets;
    t := new Trace(n);
    assert ops[0..] == ops;
    for k := 0 to |ops|
      invariant fresh(t) && fresh(t.objs) && t.Valid() && t.objs.Length == n
      invariant RunOps(t.Contents(), ops[k..], n) == RunOps([], ops, n)
      invariant RunFreed(t.Contents(), t.Freed(), ops[k..], n) == RunFreed([], [], ops, n)
    {
      RunNext(t.Contents(), t.Freed(), ops[k..], n);
      assert ops[k..][0] == ops[k] && ops[k..][1..] == ops[k + 1..];
      DoOp(t, ops[k]);
    }
    assert ops[|ops|..] == [];
    RunEnds(t.Contents(), t.Freed(), n);
  }

  method DoOp(t: Trace, op: Op)
    requires t.Valid()
    modifies t, t.objs
    ensures t.Valid() && t.Contents() == Traced(old(t.Contents()), op, t.objs.Length)
    ensures t.Freed() == Forgets(old(t.Contents()), old(t.Freed()), op, t.objs.Length)
  {
    hide Ring, Partition, Objs, Remembered, Added, Removed, Updated, FreedByAdd, FreedByRemove;
    match op
    case AddObj(o) => var _ := t.Add(o);
    case RemoveObj(o) => var _ := t.Remove(o);
    case UpdateObj(o, o') => t.Update(o, o');
    case CheckObj(o) => var _ := t.Check(o);
  }

  lemma RunNext(l: seq<nat>, freed: seq<nat>, ops: seq<Op>, most: nat)
    requires ops != []
    ensures RunOps(l, ops, most) == RunOps(Traced(l, ops[0], most), ops[1..], most)
    ensures RunFreed(l, freed, ops, most) ==
      RunFreed(Traced(l, ops[0], most), Forgets(l, freed, ops[0], most), ops[1..], most)
  {
  }

  lemma RunEnds(l: seq<nat>, freed: seq<nat>, most: nat)
    ensures RunOps(l, [], most) == l && RunFreed(l, freed, [], most) == freed
  {
  }

  /** An update does give two objects one address. */
  method OneAddressTwice() returns (t: Trace)
    ensures t.Valid() && t.Contents() == [2, 2]
  {
    hide Ring, Partition, Objs, Remembered, Added, Updated, FreedByAdd;
    t := new Trace(3);
    TwoObjects();
    var first := t.Add(1);
    var second := t.Add(2);
    t.Update(1, 2);
  }

  lemma TwoObjects()
    ensures Added([], 1, 3) == [1] && Added([1], 2, 3) == [1, 2] && Updated([1, 2], 1, 2) == [2, 2]
  {
    assert [1, 2][..1] == [1];
    WithoutAt([1, 2], 0, 0);
  }
}
