/** The functions of the SDIO host driver on the fields of sdioh_info (bcmsdstd.c, bcmsdstd_linux.c),
    each proved against its step in SdioHost, and whole requests proved to be runs of that state
    machine whatever handlers run in between. */
module SdioDriver {
  import opened Bits
  import opened SdioHost
  import opened SdioRuns

  datatype Status = SDIOH_API_RC_SUCCESS | SDIOH_API_RC_FAIL

  function InitialMask(retuning: bool): u16 { if retuning then SetMask(0, HC_INTR_RETUNING_BIT) else 0 }

  lemma InitialClientBit(retuning: bool)
    ensures !Bit(InitialMask(retuning), CLIENT_INTR_BIT)
  {
    hide Bit, SetMask;
    BitOfZero(CLIENT_INTR_BIT);
    MaskBits(0, HC_INTR_RETUNING_BIT, CLIENT_INTR_BIT);
  }

  lemma InitialBits(retuning: bool)
    ensures OneBit(0, InitialMask(retuning), 12, retuning)
  {
    hide Bit, SetMask;
    MaskOneBit(0, HC_INTR_RETUNING_BIT);
    BitOfZero(HC_INTR_RETUNING_BIT);
  }

  /** One whole request: its beginning, and then own steps, whose command has the outcome issued, and
      handlers. */
  predicate Course(es: seq<Event>, kind: Kind, issued: bool)
  {
    [Begin(0, kind)] <= es && forall k :: 1 <= k < |es| ==> es[k].Handled? || es[k] == Step(0, issued)
  }

  lemma CourseMore(es: seq<Event>, e: Event, kind: Kind, issued: bool)
    requires Course(es, kind, issued) && (e.Handled? || e == Step(0, issued))
    ensures Course(es + [e], kind, issued)
  {
  }

  /** The two steps of a tuning. */
  lemma TuningSteps(l: Lock, t: Tune, k: Kind, pre: bool, issued: bool)
    ensures l.count > 0 ==>
      && StepOf(Regs(l, t), Starting(k, pre), issued) ==
        (if t.tun == TUNING_ONGOING then (Regs(l, t), AfterTuning(k, pre))
         else (Regs(l, TuningBegun(t)), Tuning(k, pre)))
      && StepOf(Regs(l, t), Tuning(k, pre), issued) == (Regs(l, TuningEnded(t)), AfterTuning(k, pre))
  {
  }

  /** The shared fields in place, and the functions of the driver that write them. */
  class Sdioh {
    var lockcount: nat
    var clientIntrEnabled: bool
    var intmask: u16
    const useClientInts: bool
    var hostInitDone: bool
    var cardInitDone: bool
    var handlerSet: bool
    var tunState: TunState
    var datState: DatState
    var tuningReqd: bool
    var tuningDisable: bool
    var taskletScheduled: bool
    ghost var tunings: nat

    /** sdstd_driver_init: the controller has re-tuning modes or not, which counts only if the clock
        needs tuning at all. */
    constructor (useClientInts: bool, tuningReqd: bool, retuningModes: bool)
      ensures View() == Regs(
        Lock(0, false, InitialMask(tuningReqd && retuningModes), useClientInts, true, true, false),
        Tune(TUNING_IDLE, DATA_TRANSFER_IDLE, tuningReqd, false, false, 0))
      ensures OneBit(0, intmask, 12, tuningReqd && retuningModes)
      ensures Initial(Machine(View(), [Outside]))
    {
      InitialClientBit(tuningReqd && retuningModes);
      InitialBits(tuningReqd && retuningModes);
      lockcount, clientIntrEnabled, intmask := 0, false, 0;
      if tuningReqd && retuningModes { intmask := SetMask(0, HC_INTR_RETUNING_BIT); }
      this.useClientInts := useClientInts;
      hostInitDone, cardInitDone, handlerSet := true, true, false;
      tunState, datState := TUNING_IDLE, DATA_TRANSFER_IDLE;
      this.tuningReqd, tuningDisable, taskletScheduled, tunings := tuningReqd, false, false, 0;
    }

    ghost function LockView(): Lock
      reads this
    {
      Lock(lockcount, clientIntrEnabled, intmask, useClientInts, hostInitDone, cardInitDone, handlerSet)
    }

    ghost function TuneView(): Tune
      reads this
    {
      Tune(tunState, datState, tuningReqd, tuningDisable, taskletScheduled, tunings)
    }

    ghost function View(): Regs
      reads this
    {
      Regs(LockView(), TuneView())
    }

    method DevintrOff()
      modifies this`intmask
      ensures LockView() == ClientMasked(old(LockView()))
      ensures if useClientInts then OneBit(old(intmask), intmask, 8, false) else intmask == old(intmask)
    {
      MaskOneBit(intmask, CLIENT_INTR_BIT);
      if useClientInts { intmask := ClearMask(intmask, CLIENT_INTR_BIT); }
    }

    method DevintrOn()
      requires lockcount == 0
      modifies this`intmask
      ensures LockView() == ClientUnmasked(old(LockView()))
      ensures if useClientInts then OneBit(old(intmask), intmask, 8, true) else intmask == old(intmask)
    {
      MaskOneBit(intmask, CLIENT_INTR_BIT);
      if useClientInts { intmask := SetMask(intmask, CLIENT_INTR_BIT); }
    }

    /** One look of sdstd_lock at the count under the spin lock; the caller looks again when it
        was not zero. */
    method TryLock() returns (taken: bool)
      modifies this`intmask, this`lockcount
      ensures taken == (old(lockcount) == 0)
      ensures LockView() == if taken then Locked(old(LockView())) else old(LockView())
      ensures lockcount == old(lockcount) + if taken then 1 else 0
      ensures if taken && useClientInts then OneBit(old(intmask), intmask, 8, false) else intmask == old(intmask)
    {
      taken := lockcount == 0;
      if taken {
        DevintrOff();
        lockcount := lockcount + 1;
      }
    }

    method Unlock()
      requires lockcount > 0
      modifies this`intmask, this`lockcount
      ensures LockView() == Unlocked(old(LockView()))
      ensures lockcount == old(lockcount) - 1
      ensures if lockcount == 0 && clientIntrEnabled && useClientInts then OneBit(old(intmask), intmask, 8, true)
              else intmask == old(intmask)
    {
      lockcount := lockcount - 1;
      if lockcount == 0 && clientIntrEnabled { DevintrOn(); }
    }

    method InterruptSet(enable: bool) returns (status: Status)
      modifies this`intmask, this`clientIntrEnabled
      ensures LockView() == InterruptsSet(old(LockView()), enable)
      ensures status == SDIOH_API_RC_FAIL <==> !hostInitDone || !cardInitDone || (enable && !handlerSet)
      ensures clientIntrEnabled == if status == SDIOH_API_RC_SUCCESS then enable else old(clientIntrEnabled)
      ensures if status == SDIOH_API_RC_SUCCESS && useClientInts
              then OneBit(old(intmask), intmask, 8, enable && lockcount == 0) else intmask == old(intmask)
    {
      if !(hostInitDone && cardInitDone) { return SDIOH_API_RC_FAIL; }
      if enable && !handlerSet { return SDIOH_API_RC_FAIL; }
      clientIntrEnabled := enable;
      if enable && lockcount == 0 {
        DevintrOn();
      } else {
        DevintrOff();
      }
      status := SDIOH_API_RC_SUCCESS;
    }

    /** sdioh_interrupt_register and sdioh_interrupt_deregister: a handler with its argument is there,
        or none. What InterruptSet did before stays as it is. */
    method InterruptRegister()
      modifies this`handlerSet
      ensures LockView() == old(LockView()).(handlerSet := true)
    {
      handlerSet := true;
    }

    method InterruptDeregister()
      modifies this`handlerSet
      ensures LockView() == old(LockView()).(handlerSet := false)
    {
      handlerSet := false;
    }

    /** The state a request leaves. */
    static function AskedState(tun: TunState, dat: DatState): TunState
    {
      if tun != TUNING_IDLE then tun else if dat == DATA_TRANSFER_IDLE then TUNING_START else TUNING_START_AFTER_DAT
    }

    /** sdstd_3_check_and_set_retuning. */
    method CheckAndSetRetuning() returns (schedule: bool)
      modifies this`tunState
      ensures TuneView() == RetuningAsked(old(TuneView())).(tasklet := taskletScheduled)
      ensures RetuningAsked(old(TuneView())).tasklet == (schedule || taskletScheduled)
      ensures schedule <==> old(tunState) == TUNING_IDLE && datState == DATA_TRANSFER_IDLE
      ensures tunState == AskedState(old(tunState), datState)
    {
      if tunState == TUNING_START || tunState == TUNING_ONGOING || tunState == TUNING_START_AFTER_DAT { return false; }
      if datState == DATA_TRANSFER_IDLE {
        tunState := TUNING_START;
        return true;
      } else {
        tunState := TUNING_START_AFTER_DAT;
      }
      schedule := false;
    }

    /** sdstd_3_tuning_timer. */
    method Timer()
      modifies this`tunState, this`taskletScheduled
      ensures TuneView() == RetuningAsked(old(TuneView()))
      ensures tunState == AskedState(old(tunState), datState)
      ensures taskletScheduled == (old(taskletScheduled) ||
                                   (old(tunState) == TUNING_IDLE && datState == DATA_TRANSFER_IDLE))
    {
      var schedule := CheckAndSetRetuning();
      if schedule { taskletScheduled := true; }
    }

    /** sdstd_isr, up to the call of the client's handler. */
    method InterruptHandler(retuningInt: bool)
      modifies this`tunState, this`taskletScheduled, this`intmask
      ensures View() == Handle(old(View()), Interrupt(retuningInt))
      ensures cardInitDone && retuningInt ==>
        && tunState == AskedState(old(tunState), datState)
        && taskletScheduled == (old(taskletScheduled) ||
                                (old(tunState) == TUNING_IDLE && datState == DATA_TRANSFER_IDLE))
        && OneBit(old(intmask), intmask, 12, false)
      ensures !cardInitDone || !retuningInt ==>
        tunState == old(tunState) && taskletScheduled == old(taskletScheduled) && intmask == old(intmask)
    {
      hide OneBit, ClearMask, RetuningAsked;
      MaskOneBit(intmask, HC_INTR_RETUNING_BIT);
      if !cardInitDone { return; }
      if retuningInt {
        Timer();
        intmask := ClearMask(intmask, HC_INTR_RETUNING_BIT);
      }
    }

    /** sdstd_3_ostasklet, when it was scheduled. */
    method RunTasklet()
      modifies this`tunState, this`taskletScheduled
      ensures TuneView() == TaskletRun(old(TuneView()))
      ensures !taskletScheduled
      ensures tunState == if old(taskletScheduled) then AskedState(old(tunState), datState) else old(tunState)
    {
      if !taskletScheduled { return; }
      taskletScheduled := false;
      if tunState == TUNING_START || tunState == TUNING_ONGOING || tunState == TUNING_START_AFTER_DAT {
        return;
      } else if datState == DATA_TRANSFER_IDLE {
        tunState := TUNING_START;
      } else if datState == DATA_TRANSFER_ONGOING {
        tunState := TUNING_START_AFTER_DAT;
      }
    }

    method RunHandler(h: Handler)
      modifies this
      ensures View() == Handle(old(View()), h)
    {
      match h
      case TuningTimer => Timer();
      case Interrupt(b) => InterruptHandler(b);
      case TuningTasklet => RunTasklet();
      case SetInterrupts(b) => var _ := InterruptSet(b);
      case SetHandler(b) => if b { InterruptRegister(); } else { InterruptDeregister(); }
      case SetTuningDisable(b) => tuningDisable := b;
    }

    // ---- requests, with handlers between any two steps

    /** The handlers that happen to run at this point, while a requester that started from state m
        stands at pc. es is the history of the run. */
    method Preempt(hs: seq<Handler>, ghost m: Machine, ghost es: seq<Event>, ghost pc: Pc,
                   ghost kind: Kind, ghost issued: bool)
      returns (ghost es': seq<Event>)
      requires Inv(m) && Run(m, es) == Machine(View(), [pc]) && Course(es, kind, issued)
      modifies this
      ensures Run(m, es') == Machine(View(), [pc]) && Course(es', kind, issued)
      ensures lockcount == old(lockcount)
    {
      es' := es;
      for i := 0 to |hs|
        invariant Run(m, es') == Machine(View(), [pc]) && Course(es', kind, issued)
        invariant lockcount == old(lockcount)
      {
        SoloHandled(m, es', View(), pc, hs[i]);
        hide Run, Inv, Course;
        CourseMore(es', Handled(hs[i]), kind, issued);
        es' := es' + [Handled(hs[i])];
        HandlerCount(View(), hs[i]);
        RunHandler(hs[i]);
      }
    }

    /** sdstd_3_start_tuning; hs runs during the tuning. */
    method StartTuning(hs: seq<Handler>, ghost m: Machine, ghost es: seq<Event>, ghost kind: Kind, ghost pre: bool,
                       ghost issued: bool)
      returns (ghost es': seq<Event>)
      requires Inv(m) && Run(m, es) == Machine(View(), [Starting(kind, pre)]) && Course(es, kind, issued)
      modifies this
      ensures Run(m, es') == Machine(View(), [AfterTuning(kind, pre)]) && Course(es', kind, issued)
      ensures lockcount == old(lockcount)
    {
      hide Inv, Run, Course, StepOf, PlaceRight, AfterTuning;
      TuningSteps(LockView(), TuneView(), kind, pre, issued);
      SoloStep(m, es, View(), Starting(kind, pre), issued);
      CourseMore(es, Step(0, issued), kind, issued);
      es' := es + [Step(0, issued)];
      if tunState == TUNING_ONGOING { return; }
      tunState := TUNING_ONGOING;
      tunings := tunings + 1;
      es' := Preempt(hs, m, es', Tuning(kind, pre), kind, issued);
      TuningSteps(LockView(), TuneView(), kind, pre, issued);
      SoloStep(m, es', View(), Tuning(kind, pre), issued);
      CourseMore(es', Step(0, issued), kind, issued);
      es' := es' + [Step(0, issued)];
      tunState := TUNING_IDLE;
    }

    /** sdstd_3_check_and_do_tuning. */
    method CheckAndDoTuning(pre: bool, hs: seq<Handler>, during: seq<Handler>, ghost m: Machine, ghost es: seq<Event>,
                            ghost kind: Kind, ghost issued: bool)
      returns (ghost es': seq<Event>)
      requires Inv(m) && Run(m, es) == Machine(View(), [if pre then Entered(kind) else PostCheck(kind)])
      requires (pre ==> PreChecks(kind)) && Course(es, kind, issued)
      modifies this
      ensures Run(m, es') == Machine(View(), [AfterTuning(kind, pre)]) && Course(es', kind, issued)
      ensures lockcount == old(lockcount)
    {
      SoloStep(m, es, View(), if pre then Entered(kind) else PostCheck(kind), issued);
      hide Inv, Run, Course;
      CourseMore(es, Step(0, issued), kind, issued);
      es' := es + [Step(0, issued)];
      if !tuningDisable && tuningReqd {
        if pre {
          if tunState == TUNING_ONGOING {
            // waits for the controller; nothing of the shared state changes
          } else if tunState == TUNING_START {
            es' := Preempt(hs, m, es', Starting(kind, pre), kind, issued);
            es' := StartTuning(during, m, es', kind, pre, issued);
          }
        } else {
          if tunState == TUNING_START_AFTER_DAT {
            es' := Preempt(hs, m, es', Starting(kind, pre), kind, issued);
            es' := StartTuning(during, m, es', kind, pre, issued);
          }
        }
      }
    }

    /** sdioh_request_byte on a free lock. env(k) is what runs at the k-th point between two steps;
        issued and answered are the outcome of the command. The whole call is a run of the
        requester's steps, from its beginning to its end, whatever the handlers do in between. */
    method RequestByte(read: bool, env: nat -> seq<Handler>, issued: bool, answered: bool)
      returns (status: Status, ghost es: seq<Event>)
      requires lockcount == 0 && Inv(Machine(View(), [Outside]))
      modifies this
      ensures Run(old(Machine(View(), [Outside])), es) == Machine(View(), [Outside])
      ensures Course(es, if read then ByteRead else ByteWrite, issued)
      ensures lockcount == 0
      ensures status == SDIOH_API_RC_SUCCESS <==> issued && answered
    {
      ghost var m := Machine(View(), [Outside]);
      ghost var kind := if read then ByteRead else ByteWrite;
      es := Enter(m, kind, issued);
      hide Inv, Run, Course;
      es := Preempt(env(0), m, es, Entered(kind), kind, issued);
      if read {
        es := CheckAndDoTuning(true, env(1), env(2), m, es, kind, issued);
      } else {
        SoloStep(m, es, View(), Entered(kind), issued);
        CourseMore(es, Step(0, issued), kind, issued);
        es := es + [Step(0, issued)];
      }
      es := Transfer(env(3), env(4), issued, m, es, kind);
      if !issued {
        es := Preempt(env(5), m, es, Leaving(kind, false), kind, issued);
        es := Leave(m, es, kind, false, issued);
        return SDIOH_API_RC_FAIL, es;
      }
      es := Preempt(env(5), m, es, PostCheck(kind), kind, issued);
      es := CheckAndDoTuning(false, env(6), env(7), m, es, kind, issued);
      es := Preempt(env(8), m, es, Leaving(kind, true), kind, issued);
      es := Leave(m, es, kind, true, issued);
      status := if answered then SDIOH_API_RC_SUCCESS else SDIOH_API_RC_FAIL;
    }

    /** sdioh_request_word, and sdioh_request_buffer around its transfer loop, on a free lock. */
    method RequestData(env: nat -> seq<Handler>, done: bool) returns (status: Status, ghost es: seq<Event>)
      requires lockcount == 0 && Inv(Machine(View(), [Outside]))
      modifies this
      ensures Run(old(Machine(View(), [Outside])), es) == Machine(View(), [Outside])
      ensures Course(es, Data, true)
      ensures lockcount == 0
      ensures status == SDIOH_API_RC_SUCCESS <==> done
    {
      ghost var m := Machine(View(), [Outside]);
      es := Enter(m, Data, true);
      hide Inv, Run, Course;
      es := Preempt(env(0), m, es, Entered(Data), Data, true);
      es := CheckAndDoTuning(true, env(1), env(2), m, es, Data, true);
      es := Transfer(env(3), env(4), true, m, es, Data);
      es := Preempt(env(5), m, es, PostCheck(Data), Data, true);
      es := CheckAndDoTuning(false, env(6), env(7), m, es, Data, true);
      es := Preempt(env(8), m, es, Leaving(Data, true), Data, true);
      es := Leave(m, es, Data, true, true);
      status := if done then SDIOH_API_RC_SUCCESS else SDIOH_API_RC_FAIL;
    }

    /** The command between the two changes of the data state. */
    method Transfer(before: seq<Handler>, during: seq<Handler>, issued: bool,
                    ghost m: Machine, ghost es: seq<Event>, ghost kind: Kind)
      returns (ghost es': seq<Event>)
      requires Inv(m) && Run(m, es) == Machine(View(), [Ready(kind)]) && Course(es, kind, issued)
      modifies this
      ensures Run(m, es') ==
        Machine(View(), [if kind == Data || issued then PostCheck(kind) else Leaving(kind, false)])
      ensures Course(es', kind, issued)
      ensures lockcount == old(lockcount)
    {
      hide Inv, Run, Course;
      es' := Preempt(before, m, es, Ready(kind), kind, issued);
      SoloStep(m, es', View(), Ready(kind), issued);
      CourseMore(es', Step(0, issued), kind, issued);
      es' := es' + [Step(0, issued)];
      datState := DATA_TRANSFER_ONGOING;
      es' := Preempt(during, m, es', Command(kind), kind, issued);
      SoloStep(m, es', View(), Command(kind), issued);
      CourseMore(es', Step(0, issued), kind, issued);
      es' := es' + [Step(0, issued)];
      datState := DATA_TRANSFER_IDLE;
    }

    method Enter(ghost m: Machine, ghost kind: Kind, ghost issued: bool) returns (ghost es: seq<Event>)
      requires Inv(m) && m == Machine(View(), [Outside]) && lockcount == 0
      modifies this`intmask, this`lockcount
      ensures Run(m, es) == Machine(View(), [Entered(kind)]) && lockcount == 1
      ensures Course(es, kind, issued)
    {
      SoloBegin(m, [], View(), kind);
      hide Inv, Run, Course;
      es := [] + [Begin(0, kind)];
      SoloStep(m, es, View(), Waiting(kind), issued);
      CourseMore(es, Step(0, issued), kind, issued);
      es := es + [Step(0, issued)];
      var taken := TryLock();
    }

    method Leave(ghost m: Machine, ghost es: seq<Event>, ghost kind: Kind, ghost checked: bool,
                 ghost issued: bool)
      returns (ghost es': seq<Event>)
      requires Inv(m) && Run(m, es) == Machine(View(), [Leaving(kind, checked)]) && lockcount == 1
      requires Course(es, kind, issued)
      modifies this`intmask, this`lockcount
      ensures Run(m, es') == Machine(View(), [Outside]) && lockcount == 0 && Course(es', kind, issued)
    {
      SoloStep(m, es, View(), Leaving(kind, checked), issued);
      hide Inv, Run, Course;
      CourseMore(es, Step(0, issued), kind, issued);
      es' := es + [Step(0, issued)];
      Unlock();
    }
  }
}
