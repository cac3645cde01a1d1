/** The lock, the clock tuning and the client interrupt of the standard SDIO host controller
    (bcmsdstd.c, bcmsdstd_linux.c), as a state machine: the requesters run concurrently with the
    interrupt handler, the timer and the tasklet. The driver's functions themselves, in SdioDriver,
    write the same fields in place. */
module SdioHost {
  import opened Bits

  datatype TunState = TUNING_IDLE | TUNING_START | TUNING_START_AFTER_DAT | TUNING_ONGOING

  datatype DatState = DATA_TRANSFER_IDLE | DATA_TRANSFER_ONGOING

  /** Bits of intmask: the card interrupt and the re-tuning request. */
  const CLIENT_INTR_BIT := 8
  const HC_INTR_RETUNING_BIT := 12

  /** The fields of sdioh_info that the handlers and the requesters share, in two groups: those that
      sdos->lock guards, and those of the clock tuning. tunings is a history variable: how many
      clock tunings were begun so far. */
  datatype Lock = Lock(
    count: nat, clientIntrEnabled: bool, intmask: u16, useClientInts: bool,
    hostInitDone: bool, cardInitDone: bool, handlerSet: bool)

  datatype Tune = Tune(tun: TunState, dat: DatState, reqd: bool, disable: bool, tasklet: bool, tunings: nat)

  datatype Regs = Regs(lock: Lock, tune: Tune)

  function SetMask(w: u16, bit: nat): u16
    requires bit < 16
  {
    Pow2Values();
    Pow2Mono(bit + 1, 16);
    OrBound(w, Pow2(bit), 16);
    Or(w, Pow2(bit))
  }

  function ClearMask(w: u16, bit: nat): u16
    requires bit < 16
  {
    Pow2Mono(bit, 16);
    And(w, Pow2(16) - 1 - Pow2(bit))
  }

  lemma MaskBits(w: u16, bit: nat, i: nat)
    requires bit < 16 && i < 16
    ensures Bit(SetMask(w, bit), i) == (Bit(w, i) || i == bit)
    ensures Bit(ClearMask(w, bit), i) == (Bit(w, i) && i != bit)
  {
    hide Bit, Or, And, Pow2;
    OrBit(w, Pow2(bit), i);
    BitOfPow2(bit, i);
    Pow2Mono(bit, 16);
    AndBit(w, Pow2(16) - 1 - Pow2(bit), i);
    NotBit(Pow2(bit), 16, i);
  }

  /** Is w' the word w with this bit set or clear, and every other bit as it was? */
  ghost predicate OneBit(w: u16, w': u16, bit: nat, on: bool)
  {
    forall i: nat :: i < 16 ==> Bit(w', i) == if i == bit then on else Bit(w, i)
  }

  lemma MaskOneBit(w: u16, bit: nat)
    requires bit < 16
    ensures OneBit(w, SetMask(w, bit), bit, true) && OneBit(w, ClearMask(w, bit), bit, false)
  {
    hide Bit, SetMask, ClearMask;
    forall i: nat | i < 16
      ensures Bit(SetMask(w, bit), i) == if i == bit then true else Bit(w, i)
      ensures Bit(ClearMask(w, bit), i) == if i == bit then false else Bit(w, i)
    {
      MaskBits(w, bit, i);
    }
  }

  // ---------------------------------------------------------------- what one function does

  function ClientMasked(l: Lock): Lock
  {
    if l.useClientInts then l.(intmask := ClearMask(l.intmask, CLIENT_INTR_BIT)) else l
  }

  function ClientUnmasked(l: Lock): Lock
  {
    if l.useClientInts then l.(intmask := SetMask(l.intmask, CLIENT_INTR_BIT)) else l
  }

  /** The part of sdstd_lock under the spin lock, once the count is seen to be zero. */
  function Locked(l: Lock): Lock { ClientMasked(l).(count := l.count + 1) }

  function Unlocked(l: Lock): Lock
    requires l.count > 0
  {
    var q := l.(count := l.count - 1);
    if q.count == 0 && q.clientIntrEnabled then ClientUnmasked(q) else q
  }

  predicate InterruptSetFails(l: Lock, enable: bool)
  {
    !(l.hostInitDone && l.cardInitDone) || (enable && !l.handlerSet)
  }

  function InterruptsSet(l: Lock, enable: bool): Lock
  {
    if InterruptSetFails(l, enable) then l
    else
      var q := l.(clientIntrEnabled := enable);
      if enable && q.count == 0 then ClientUnmasked(q) else ClientMasked(q)
  }

  function RetuningMasked(l: Lock): Lock { l.(intmask := ClearMask(l.intmask, HC_INTR_RETUNING_BIT)) }

  /** sdstd_3_check_and_set_retuning, whose result schedules the tasklet. */
  function RetuningAsked(t: Tune): Tune
  {
    if t.tun != TUNING_IDLE then t
    else if t.dat == DATA_TRANSFER_IDLE then t.(tun := TUNING_START, tasklet := true)
    else t.(tun := TUNING_START_AFTER_DAT)
  }

  function TaskletRun(t: Tune): Tune
  {
    if !t.tasklet then t
    else if t.tun != TUNING_IDLE then t.(tasklet := false)
    else if t.dat == DATA_TRANSFER_IDLE then t.(tasklet := false, tun := TUNING_START)
    else t.(tasklet := false, tun := TUNING_START_AFTER_DAT)
  }

  predicate TuningEnabled(t: Tune) { !t.disable && t.reqd }

  function TuningBegun(t: Tune): Tune { t.(tun := TUNING_ONGOING, tunings := t.tunings + 1) }

  function TuningEnded(t: Tune): Tune { t.(tun := TUNING_IDLE) }

  /** Everything that can run between two steps of a requester, each as one atomic step: the
      re-tuning timer, the interrupt handler, the tasklet, and the settings other threads make. */
  datatype Handler =
    | TuningTimer
    | Interrupt(retuningInt: bool)
    | TuningTasklet
    | SetInterrupts(enable: bool)
    | SetHandler(registered: bool)
    | SetTuningDisable(off: bool)

  function HandleLock(l: Lock, e: Handler): Lock
  {
    match e
    case Interrupt(b) => if l.cardInitDone && b then RetuningMasked(l) else l
    case SetInterrupts(b) => InterruptsSet(l, b)
    case SetHandler(b) => l.(handlerSet := b)
    case _ => l
  }

  /** ready: the card is initialised, without which the interrupt handler returns at once. */
  function HandleTune(t: Tune, e: Handler, ready: bool): Tune
  {
    match e
    case TuningTimer => RetuningAsked(t)
    case Interrupt(b) => if ready && b then RetuningAsked(t) else t
    case TuningTasklet => TaskletRun(t)
    case SetTuningDisable(b) => t.(disable := b)
    case _ => t
  }

  function Handle(r: Regs, e: Handler): Regs
  {
    Regs(HandleLock(r.lock, e), HandleTune(r.tune, e, r.lock.cardInitDone))
  }

  // ---------------------------------------------------------------- the requesters

  /** sdioh_request_byte checks for tuning before the command only when it reads; sdioh_request_word
      and sdioh_request_buffer always do. */
  datatype Kind = ByteRead | ByteWrite | Data

  predicate PreChecks(k: Kind) { k != ByteWrite }

  /** Where a requester is. Starting stands before sdstd_3_start_tuning has looked at the state,
      Tuning is the tuning itself; pre tells whether it was asked for before or after the command.
      Leaving remembers whether the check after the command was made. */
  datatype Pc =
    | Outside
    | Waiting(kind: Kind)
    | Entered(kind: Kind)
    | Starting(kind: Kind, pre: bool)
    | Tuning(kind: Kind, pre: bool)
    | Ready(kind: Kind)
    | Command(kind: Kind)
    | PostCheck(kind: Kind)
    | Leaving(kind: Kind, checked: bool)

  predicate Holds(pc: Pc) { !pc.Outside? && !pc.Waiting? }

  function AfterTuning(kind: Kind, pre: bool): Pc { if pre then Ready(kind) else Leaving(kind, true) }

  datatype Machine = Machine(r: Regs, pcs: seq<Pc>)

  /** A step of requester i. issued is false when the command of a byte request cannot be issued,
      which is the one way out without a second check. */
  datatype Event = Begin(i: nat, kind: Kind) | Step(i: nat, issued: bool) | Handled(h: Handler)

  /** What a requester does next; from Waiting, only with the lock free. */
  function StepPc(t: Tune, pc: Pc, issued: bool): Pc
  {
    match pc
    case Outside => pc
    case Waiting(k) => Entered(k)
    case Entered(k) => if PreChecks(k) && TuningEnabled(t) && t.tun == TUNING_START then Starting(k, true) else Ready(k)
    case Starting(k, pre) => if t.tun == TUNING_ONGOING then AfterTuning(k, pre) else Tuning(k, pre)
    case Tuning(k, pre) => AfterTuning(k, pre)
    case Ready(k) => Command(k)
    case Command(k) => if k == Data || issued then PostCheck(k) else Leaving(k, false)
    case PostCheck(k) =>
      if TuningEnabled(t) && t.tun == TUNING_START_AFTER_DAT then Starting(k, false) else Leaving(k, true)
    case Leaving(k, checked) => Outside
  }

  function StepTune(t: Tune, pc: Pc): Tune
  {
    match pc
    case Starting(k, pre) => if t.tun == TUNING_ONGOING then t else TuningBegun(t)
    case Tuning(k, pre) => TuningEnded(t)
    case Ready(k) => t.(dat := DATA_TRANSFER_ONGOING)
    case Command(k) => t.(dat := DATA_TRANSFER_IDLE)
    case _ => t
  }

  function StepLock(l: Lock, pc: Pc): Lock
    requires Holds(pc) ==> l.count > 0
  {
    match pc
    case Waiting(k) => Locked(l)
    case Leaving(k, checked) => Unlocked(l)
    case _ => l
  }

  function StepOf(r: Regs, pc: Pc, issued: bool): (Regs, Pc)
    requires Holds(pc) ==> r.lock.count > 0
  {
    if pc.Waiting? && r.lock.count > 0 then (r, pc)
    else (Regs(StepLock(r.lock, pc), StepTune(r.tune, pc)), StepPc(r.tune, pc, issued))
  }

  predicate HoldersLock(m: Machine) { forall i :: 0 <= i < |m.pcs| && Holds(m.pcs[i]) ==> m.r.lock.count > 0 }

  function Next(m: Machine, e: Event): Machine
    requires HoldersLock(m)
  {
    match e
    case Begin(i, k) => if i < |m.pcs| && m.pcs[i] == Outside then m.(pcs := m.pcs[i := Waiting(k)]) else m
    case Step(i, issued) =>
      if i < |m.pcs| then
        var (r, pc) := StepOf(m.r, m.pcs[i], issued);
        Machine(r, m.pcs[i := pc])
      else m
    case Handled(h) => m.(r := Handle(m.r, h))
  }

  // ---------------------------------------------------------------- the invariant

  function Holders(pcs: seq<Pc>): (n: nat)
  {
    if pcs == [] then 0 else (if Holds(pcs[0]) then 1 else 0) + Holders(pcs[1..])
  }

  lemma {:induction false} HoldersUpdate(pcs: seq<Pc>, i: nat, pc: Pc)
    requires i < |pcs|
    ensures Holders(pcs[i := pc]) ==
      Holders(pcs) - (if Holds(pcs[i]) then 1 else 0) + (if Holds(pc) then 1 else 0)
  {
    if i == 0 {
      assert pcs[0 := pc][1..] == pcs[1..];
    } else {
      assert pcs[i := pc][1..] == pcs[1..][i - 1 := pc];
      HoldersUpdate(pcs[1..], i - 1, pc);
    }
  }

  lemma {:induction false} HolderCounts(pcs: seq<Pc>, i: nat)
    requires i < |pcs| && Holds(pcs[i])
    ensures Holders(pcs) >= 1
    ensures forall j :: 0 <= j < |pcs| && j != i && Holds(pcs[j]) ==> Holders(pcs) >= 2
  {
    if i > 0 {
      HolderCounts(pcs[1..], i - 1);
    }
    forall j | 0 <= j < |pcs| && j != i && Holds(pcs[j]) ensures Holders(pcs) >= 2 {
      if i == 0 {
        assert pcs[1..][j - 1] == pcs[j];
        HolderCounts(pcs[1..], j - 1);
      } else if j > 0 {
        assert pcs[1..][j - 1] == pcs[j];
        assert pcs[1..][i - 1] == pcs[i];
      }
    }
  }

  lemma {:induction false} SomeHolder(pcs: seq<Pc>)
    ensures Holders(pcs) > 0 ==> exists i :: 0 <= i < |pcs| && Holds(pcs[i])
    ensures Holders(pcs) == 0 ==> forall i :: 0 <= i < |pcs| ==> !Holds(pcs[i])
  {
    if pcs != [] {
      SomeHolder(pcs[1..]);
      if Holders(pcs) > 0 {
        if Holds(pcs[0]) {
        } else {
          var i :| 0 <= i < |pcs[1..]| && Holds(pcs[1..][i]);
          assert Holds(pcs[i + 1]);
        }
      } else {
        forall i | 0 <= i < |pcs| ensures !Holds(pcs[i]) {
          if i > 0 { assert pcs[i] == pcs[1..][i - 1]; }
        }
      }
    }
  }

  /** The client interrupt is let through exactly when the client wants it and nobody is inside. */
  predicate MaskRight(l: Lock)
  {
    l.useClientInts ==> Bit(l.intmask, CLIENT_INTR_BIT) == (l.clientIntrEnabled && l.count == 0)
  }

  /** What the place of the lock holder says about the tuning fields. */
  predicate PlaceRight(t: Tune, pc: Pc)
  {
    && (t.dat == DATA_TRANSFER_ONGOING <==> pc.Command?)
    && (t.tun == TUNING_ONGOING <==> pc.Tuning?)
    && (pc.Starting? ==> t.tun == if pc.pre then TUNING_START else TUNING_START_AFTER_DAT)
  }

  predicate PlacesRight(m: Machine)
  {
    forall i :: 0 <= i < |m.pcs| && Holds(m.pcs[i]) ==> PlaceRight(m.r.tune, m.pcs[i])
  }

  /** With nobody inside, nothing is under way. */
  predicate QuietRight(m: Machine)
  {
    m.r.lock.count == 0 ==> PlaceRight(m.r.tune, Outside)
  }

  predicate Inv(m: Machine)
    ensures Inv(m) ==> HoldersLock(m)
  {
    AnyHolder(m.pcs);
    m.r.lock.count == Holders(m.pcs) <= 1 && MaskRight(m.r.lock) && QuietRight(m) && PlacesRight(m)
  }

  lemma AnyHolder(pcs: seq<Pc>)
    ensures forall i :: 0 <= i < |pcs| && Holds(pcs[i]) ==> Holders(pcs) > 0
  {
    forall i | 0 <= i < |pcs| && Holds(pcs[i]) ensures Holders(pcs) > 0 {
      HolderCounts(pcs, i);
    }
  }

  /** The state the bring-up leaves: nobody inside, nothing pending, the mask in step. */
  predicate Initial(m: Machine)
  {
    && m.r.lock.count == 0 && m.r.tune.tun == TUNING_IDLE && m.r.tune.dat == DATA_TRANSFER_IDLE && MaskRight(m.r.lock)
    && NobodyYet(m.pcs)
  }

  predicate NobodyYet(pcs: seq<Pc>) { forall i :: 0 <= i < |pcs| ==> pcs[i] == Outside }

  lemma InitialInv(m: Machine)
    requires Initial(m)
    ensures Inv(m)
  {
    SomeHolder(m.pcs);
    assert forall i :: 0 <= i < |m.pcs| ==> !Holds(m.pcs[i]);
  }

  // ---- one step keeps the invariant

  lemma ClientBit(l: Lock)
    ensures l.useClientInts ==> !Bit(ClientMasked(l).intmask, CLIENT_INTR_BIT)
    ensures l.useClientInts ==> Bit(ClientUnmasked(l).intmask, CLIENT_INTR_BIT)
    ensures ClientMasked(l) == l.(intmask := ClientMasked(l).intmask)
    ensures ClientUnmasked(l) == l.(intmask := ClientUnmasked(l).intmask)
  {
    hide Bit, SetMask, ClearMask;
    MaskBits(l.intmask, CLIENT_INTR_BIT, CLIENT_INTR_BIT);
  }

  lemma LockedKeeps(l: Lock)
    ensures MaskRight(Locked(l)) && Locked(l).count == l.count + 1
  {
    hide ClientMasked, Bit;
    ClientBit(l);
  }

  lemma UnlockedKeeps(l: Lock)
    requires l.count > 0 && MaskRight(l)
    ensures Unlocked(l).count == l.count - 1
    ensures l.count == 1 ==> MaskRight(Unlocked(l))
  {
    hide ClientUnmasked, Bit;
    ClientBit(l.(count := l.count - 1));
  }

  /** A handler never touches the lock count, and keeps the client interrupt bit in step. */
  lemma HandleLockKeeps(l: Lock, e: Handler)
    requires MaskRight(l)
    ensures MaskRight(HandleLock(l, e)) && HandleLock(l, e).count == l.count
  {
    hide ClientMasked, ClientUnmasked, Bit, ClearMask;
    match e
    case Interrupt(b) => MaskBits(l.intmask, HC_INTR_RETUNING_BIT, CLIENT_INTR_BIT);
    case SetInterrupts(b) => ClientBit(l.(clientIntrEnabled := b));
    case _ =>
  }

  /** A handler never touches a running transfer, never begins a tuning, and leaves a pending or
      running tuning alone; it asks for one after the data only while data moves. */
  lemma HandleTuneKeeps(t: Tune, e: Handler, ready: bool)
    ensures var t' := HandleTune(t, e, ready);
      && t'.dat == t.dat && t'.tunings == t.tunings && t'.reqd == t.reqd
      && (t.tun != TUNING_IDLE ==> t'.tun == t.tun)
      && (t'.tun == TUNING_ONGOING ==> t.tun == TUNING_ONGOING)
      && (t'.tun == TUNING_START_AFTER_DAT && t.tun == TUNING_IDLE ==> t.dat == DATA_TRANSFER_ONGOING)
      && (e.SetTuningDisable? || t'.disable == t.disable)
      && (t'.tun != t.tun ==>
        e == TuningTimer || (e == Interrupt(true) && ready) || (e == TuningTasklet && t.tasklet))
  {
  }

  /** A step of the holder, or of a requester that takes the free lock. */
  lemma StepKeeps(r: Regs, pc: Pc, issued: bool)
    requires MaskRight(r.lock) && PlaceRight(r.tune, pc)
    requires r.lock.count == if Holds(pc) then 1 else 0
    ensures var (r', pc') := StepOf(r, pc, issued);
      r'.lock.count == (if Holds(pc') then 1 else 0) && MaskRight(r'.lock) && PlaceRight(r'.tune, pc')
  {
    hide MaskRight, Locked, Unlocked;
    if pc.Waiting? { LockedKeeps(r.lock); }
    if pc.Leaving? { UnlockedKeeps(r.lock); }
  }

  /** Every step, of whatever requester or handler, keeps the invariant. */
  lemma NextKeeps(m: Machine, e: Event)
    requires Inv(m)
    ensures Inv(Next(m, e))
  {
    match e
    case Begin(i, k) =>
      if i < |m.pcs| && m.pcs[i] == Outside {
        hide MaskRight, QuietRight, PlaceRight;
        HoldersUpdate(m.pcs, i, Waiting(k));
      }
    case Step(i, issued) =>
      if i < |m.pcs| { RequesterKeeps(m, i, issued); }
    case Handled(h) =>
      HandleLockKeeps(m.r.lock, h);
      HandleTuneKeeps(m.r.tune, h, m.r.lock.cardInitDone);
      hide MaskRight, HandleLock, HandleTune;
  }

  lemma RequesterKeeps(m: Machine, i: nat, issued: bool)
    requires Inv(m) && i < |m.pcs|
    ensures Inv(Next(m, Step(i, issued)))
  {
    var pc := m.pcs[i];
    var (r', pc') := StepOf(m.r, pc, issued);
    var m' := Machine(r', m.pcs[i := pc']);
    assert Next(m, Step(i, issued)) == m';
    if pc.Outside? || (pc.Waiting? && m.r.lock.count > 0) {
      assert m' == m;
    } else {
      if Holds(pc) { HolderCounts(m.pcs, i); } else { SomeHolder(m.pcs); }
      StepKeeps(m.r, pc, issued);
      hide MaskRight, StepOf;
      HoldersUpdate(m.pcs, i, pc');
      forall j | 0 <= j < |m'.pcs| && Holds(m'.pcs[j]) ensures PlaceRight(r'.tune, m'.pcs[j]) {
        if j != i { assert false; }
      }
    }
  }

  lemma HandlerCount(r: Regs, h: Handler)
    ensures Handle(r, h).lock.count == r.lock.count
  {
    hide Bit, ClientMasked, ClientUnmasked, ClearMask;
    if h.SetInterrupts? { ClientBit(r.lock.(clientIntrEnabled := h.enable)); }
  }
}
