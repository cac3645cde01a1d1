/** What holds over whole runs of the SDIO host's state machine: safety, that no request for tuning is
    dropped, when exactly it is served, and when it is left behind. */
module SdioRuns {
  import opened Bits
  import opened SdioHost

  /** The state after any run of steps, of any requesters and handlers in any order. */
  ghost function Run(m: Machine, es: seq<Event>): (m': Machine)
    requires Inv(m)
    ensures Inv(m') && |m'.pcs| == |m.pcs|
  {
    if es == [] then m
    else
      var before := Run(m, es[..|es| - 1]);
      NextKeeps(before, es[|es| - 1]);
      Next(before, es[|es| - 1])
  }

  /** In every reachable state at most one requester is inside, the count says so, the client
      interrupt is let through exactly when wanted with nobody inside, and the clock is tuned only
      by the one requester inside and never while data moves. */
  lemma RunSafety(m: Machine, es: seq<Event>, i: nat, j: nat)
    requires Initial(m) && i < |m.pcs| && j < |m.pcs| && i != j
    ensures (InitialInv(m); var m' := Run(m, es);
      && !(Holds(m'.pcs[i]) && Holds(m'.pcs[j]))
      && (Holds(m'.pcs[i]) ==> m'.r.lock.count == 1)
      && (m'.r.lock.useClientInts ==>
        Bit(m'.r.lock.intmask, CLIENT_INTR_BIT) == (m'.r.lock.clientIntrEnabled && m'.r.lock.count == 0))
      && (m'.pcs[i].Tuning? ==> m'.r.tune.dat == DATA_TRANSFER_IDLE && m'.r.tune.tun == TUNING_ONGOING)
      && (m'.pcs[i].Command? ==> m'.r.tune.dat == DATA_TRANSFER_ONGOING && m'.r.tune.tun != TUNING_ONGOING))
  {
    InitialInv(m);
    var m' := Run(m, es);
    hide Run;
    if Holds(m'.pcs[i]) { HolderCounts(m'.pcs, i); }
    if m'.pcs[i].Tuning? || m'.pcs[i].Command? { assert PlaceRight(m'.r.tune, m'.pcs[i]); }
  }

  /** A tuning in progress belongs to a requester inside, so the wait for somebody else's tuning in
      the check before the command is never entered. */
  lemma NobodyElseTunes(m: Machine, i: nat)
    requires Inv(m) && i < |m.pcs| && m.pcs[i].Entered?
    ensures m.r.tune.tun != TUNING_ONGOING
  {
    assert PlaceRight(m.r.tune, m.pcs[i]);
  }

  // ---------------------------------------------------------------- no request is dropped

  predicate Pending(t: Tune) { t.tun == TUNING_START || t.tun == TUNING_START_AFTER_DAT }

  /** What a step of a requester does to the tuning state. */
  lemma StepTuning(t: Tune, pc: Pc)
    requires PlaceRight(t, pc) || !Holds(pc)
    ensures var t' := StepTune(t, pc);
      && t'.reqd == t.reqd && t'.disable == t.disable
      && if pc.Starting? then t' == TuningBegun(t)
         else t'.tunings == t.tunings && t'.tun == if pc.Tuning? then TUNING_IDLE else t.tun
  {
  }

  lemma PlaceOf(m: Machine, i: nat)
    requires Inv(m) && i < |m.pcs| && Holds(m.pcs[i])
    ensures PlaceRight(m.r.tune, m.pcs[i]) && m.r.lock.count > 0
  {
  }

  /** A step leaves a pending request as it is, or is the start of a tuning. */
  lemma PendingStep(m: Machine, e: Event)
    requires Inv(m) && Pending(m.r.tune)
    ensures var t' := Next(m, e).r.tune;
      if t'.tunings == m.r.tune.tunings then t'.tun == m.r.tune.tun
      else e.Step? && e.i < |m.pcs| && m.pcs[e.i].Starting? && t' == TuningBegun(m.r.tune)
  {
    if e.Step? && e.i < |m.pcs| && Holds(m.pcs[e.i]) { PlaceOf(m, e.i); }
    hide Inv, StepTune, HandleTune, StepLock, HandleLock, StepPc;
    match e
    case Begin(i, k) =>
    case Step(i, issued) => if i < |m.pcs| { StepTuning(m.r.tune, m.pcs[i]); }
    case Handled(h) => HandleTuneKeeps(m.r.tune, h, m.r.lock.cardInitDone);
  }

  /** The count of tunings never decreases. */
  lemma TuningsGrow(m: Machine, e: Event)
    requires Inv(m)
    ensures m.r.tune.tunings <= Next(m, e).r.tune.tunings <= m.r.tune.tunings + 1
  {
    if e.Step? && e.i < |m.pcs| && Holds(m.pcs[e.i]) { PlaceOf(m, e.i); }
    hide Inv, StepTune, HandleTune, StepLock, HandleLock, StepPc;
    match e
    case Begin(i, k) =>
    case Step(i, issued) => if i < |m.pcs| { StepTuning(m.r.tune, m.pcs[i]); }
    case Handled(h) => HandleTuneKeeps(m.r.tune, h, m.r.lock.cardInitDone);
  }

  lemma {:induction false} TuningsGrowRun(m: Machine, es: seq<Event>)
    requires Inv(m)
    ensures m.r.tune.tunings <= Run(m, es).r.tune.tunings
  {
    if es != [] {
      TuningsGrowRun(m, es[..|es| - 1]);
      TuningsGrow(Run(m, es[..|es| - 1]), es[|es| - 1]);
    }
  }

  /** Over any run: a recorded request for tuning is still there, in the same form, unless a tuning
      was begun in between. */
  lemma {:induction false} NeverDropped(m: Machine, es: seq<Event>)
    requires Inv(m) && Pending(m.r.tune)
    ensures Run(m, es).r.tune.tun == m.r.tune.tun || Run(m, es).r.tune.tunings > m.r.tune.tunings
  {
    if es != [] {
      var before := Run(m, es[..|es| - 1]);
      NeverDropped(m, es[..|es| - 1]);
      TuningsGrowRun(m, es[..|es| - 1]);
      hide Next, Inv, Holds, HoldersLock;
      TuningsGrow(before, es[|es| - 1]);
      if before.r.tune.tunings == m.r.tune.tunings { PendingStep(before, es[|es| - 1]); }
    }
  }

  // ---------------------------------------------------------------- what records a request

  /** The card stays initialised. */
  lemma {:induction false} StaysReady(m: Machine, es: seq<Event>)
    requires Inv(m) && m.r.lock.cardInitDone
    ensures Run(m, es).r.lock.cardInitDone
  {
    if es != [] {
      StaysReady(m, es[..|es| - 1]);
      ReadyStep(Run(m, es[..|es| - 1]), es[|es| - 1]);
    }
  }

  lemma ReadyStep(m: Machine, e: Event)
    requires Inv(m) && m.r.lock.cardInitDone
    ensures Next(m, e).r.lock.cardInitDone
  {
    hide Inv, SetMask, ClearMask;
  }

  /** After any run, the timer, a re-tuning interrupt of an initialised card and a scheduled tasklet leave
      a request recorded, if there was none and no tuning is running: for now if no data moves, and the
      tasklet scheduled, or for when the data are through. */
  lemma AskedIsRecorded(m: Machine, es: seq<Event>, h: Handler)
    requires Inv(m) && m.r.lock.cardInitDone && Run(m, es).r.tune.tun == TUNING_IDLE
    requires h == TuningTimer || h == Interrupt(true) || (h == TuningTasklet && Run(m, es).r.tune.tasklet)
    ensures var t, t' := Run(m, es).r.tune, Run(m, es + [Handled(h)]).r.tune;
      && (t.dat == DATA_TRANSFER_IDLE ==> t'.tun == TUNING_START)
      && (t.dat == DATA_TRANSFER_ONGOING ==> t'.tun == TUNING_START_AFTER_DAT)
      && (h != TuningTasklet && t.dat == DATA_TRANSFER_IDLE ==> t'.tasklet)
      && t'.tunings == t.tunings
  {
    StaysReady(m, es);
    hide Run, Inv, HandleLock;
    RunStep(m, es, Handled(h));
  }

  /** So after a re-tuning interrupt, and whatever runs later, a request is pending, a tuning is running, or
      a tuning has been begun since. */
  lemma InterruptIsServed(m: Machine, es: seq<Event>, es': seq<Event>)
    requires Inv(m) && m.r.lock.cardInitDone
    ensures var t, t' := Run(m, es).r.tune, Run(m, es + [Handled(Interrupt(true))] + es').r.tune;
      || t'.tun == TUNING_START || t'.tun == TUNING_START_AFTER_DAT
      || t.tun == TUNING_ONGOING || t'.tunings > t.tunings
  {
    var asked := es + [Handled(Interrupt(true))];
    var t := Run(m, es).r.tune;
    if t.tun == TUNING_IDLE { AskedIsRecorded(m, es, Interrupt(true)); }
    hide Run, Inv, HandleLock;
    RunStep(m, es, Handled(Interrupt(true)));
    HandleTuneKeeps(t, Interrupt(true), Run(m, es).r.lock.cardInitDone);
    RunPieces(m, asked, es');
    if t.tun != TUNING_ONGOING { NeverDropped(Run(m, asked), es'); }
  }

  // ---------------------------------------------------------------- when it is served

  predicate NoDisable(es: seq<Event>)
  {
    forall k :: 0 <= k < |es| ==> !(es[k].Handled? && es[k].h.SetTuningDisable?)
  }

  predicate NoRestart(es: seq<Event>, i: nat)
  {
    forall k :: 0 <= k < |es| ==> !(es[k].Begin? && es[k].i == i)
  }

  /** Is a pending state p attended to by a request of kind k, once its second check is made or not? */
  predicate Attends(k: Kind, p: TunState, checked: bool)
  {
    if p == TUNING_START then k == ByteRead || k == Data else checked
  }

  /** Where a request of kind k is that found state p pending when it took the lock, at t0 tunings. */
  predicate Underway(p: TunState, k: Kind, t0: nat, t: Tune, pc: Pc)
  {
    TuningEnabled(t) && (pc == Outside || (Holds(pc) && pc.kind == k &&
    if t.tunings > t0 then
      if p == TUNING_START then PreChecks(k)
      else pc == Tuning(k, false) || pc == Leaving(k, true)
    else
      && t.tunings == t0 && t.tun == p && !pc.Tuning?
      && (pc.Starting? ==> pc.pre == (p == TUNING_START) && (pc.pre ==> PreChecks(k)))
      && (pc.Ready? || pc.Command? || pc.PostCheck? ==> !Attends(k, p, false))
      && (pc.Leaving? ==> !Attends(k, p, pc.checked))))
  }

  lemma UnderwayOwn(p: TunState, k: Kind, t0: nat, t: Tune, pc: Pc, issued: bool)
    requires Underway(p, k, t0, t, pc) && (p == TUNING_START || p == TUNING_START_AFTER_DAT)
    requires PlaceRight(t, pc)
    ensures Underway(p, k, t0, StepTune(t, pc), StepPc(t, pc, issued))
  {
  }

  /** The steps of the others while i is inside. */
  lemma OthersStep(m: Machine, e: Event, i: nat)
    requires Inv(m) && i < |m.pcs| && Holds(m.pcs[i]) && !(e.Step? && e.i == i)
    ensures Next(m, e).pcs[i] == m.pcs[i]
    ensures e.Handled? || Next(m, e).r == m.r
  {
    if e.Step? && e.i < |m.pcs| {
      HolderCounts(m.pcs, i);
    }
  }

  lemma OutsideStays(m: Machine, e: Event, i: nat)
    requires Inv(m) && i < |m.pcs| && m.pcs[i] == Outside && !(e.Begin? && e.i == i)
    ensures Next(m, e).pcs[i] == Outside
  {
  }

  lemma UnderwayStep(p: TunState, k: Kind, t0: nat, m: Machine, e: Event, i: nat)
    requires Inv(m) && i < |m.pcs| && (p == TUNING_START || p == TUNING_START_AFTER_DAT)
    requires m.pcs[i] == Outside || Underway(p, k, t0, m.r.tune, m.pcs[i])
    requires NoDisable([e]) && NoRestart([e], i)
    ensures var m' := Next(m, e); m'.pcs[i] == Outside || Underway(p, k, t0, m'.r.tune, m'.pcs[i])
  {
    assert e == [e][0];
    if m.pcs[i] == Outside {
      OutsideStays(m, e, i);
    } else if e.Step? && e.i == i {
      PlaceOf(m, i);
      UnderwayOwn(p, k, t0, m.r.tune, m.pcs[i], e.issued);
    } else {
      OthersStep(m, e, i);
      if e.Handled? {
        hide Inv, HandleTune;
        HandleTuneKeeps(m.r.tune, e.h, m.r.lock.cardInitDone);
      }
    }
  }

  lemma {:induction false} UnderwayRun(p: TunState, k: Kind, t0: nat, m: Machine, es: seq<Event>, i: nat)
    requires Inv(m) && i < |m.pcs| && (p == TUNING_START || p == TUNING_START_AFTER_DAT)
    requires Underway(p, k, t0, m.r.tune, m.pcs[i])
    requires NoDisable(es) && NoRestart(es, i)
    ensures var m' := Run(m, es); m'.pcs[i] == Outside || Underway(p, k, t0, m'.r.tune, m'.pcs[i])
  {
    if es != [] {
      UnderwayRun(p, k, t0, m, es[..|es| - 1], i);
      var before := Run(m, es[..|es| - 1]);
      var e := es[|es| - 1];
      assert NoDisable([e]) && NoRestart([e], i);
      hide Underway;
      UnderwayStep(p, k, t0, before, e, i);
    }
  }

  /** When a requester takes the lock with a request for tuning pending, and tuning is not switched
      off, then by the time it is about to let go the clock has been tuned exactly in these cases: for
      TUNING_START, when the request checks before its command, so a byte write passes it by; for
      TUNING_START_AFTER_DAT, when the check after the command was reached. */
  lemma ServedExactly(m: Machine, es: seq<Event>, i: nat)
    requires Inv(m) && i < |m.pcs| && m.pcs[i].Entered? && Pending(m.r.tune)
    requires !m.r.tune.disable && m.r.tune.reqd
    requires NoDisable(es) && NoRestart(es, i)
    requires Run(m, es).pcs[i].Leaving?
    ensures var k, checked := m.pcs[i].kind, Run(m, es).pcs[i].checked;
      Run(m, es).r.tune.tunings > m.r.tune.tunings <==> Attends(k, m.r.tune.tun, checked)
  {
    UnderwayRun(m.r.tune.tun, m.pcs[i].kind, m.r.tune.tunings, m, es, i);
  }

  /** Where a requester is that found tuning switched off, or the clock not to need it. */
  predicate Untuned(t0: nat, t: Tune, pc: Pc)
  {
    (t.disable || !t.reqd) && t.tunings == t0 && !pc.Starting? && !pc.Tuning?
  }

  lemma UntunedStep(t0: nat, m: Machine, e: Event, i: nat)
    requires Inv(m) && i < |m.pcs| && NoDisable([e]) && NoRestart([e], i)
    requires m.pcs[i] == Outside || (Holds(m.pcs[i]) && Untuned(t0, m.r.tune, m.pcs[i]))
    ensures var m' := Next(m, e); m'.pcs[i] == Outside || (Holds(m'.pcs[i]) && Untuned(t0, m'.r.tune, m'.pcs[i]))
  {
    assert e == [e][0];
    if m.pcs[i] == Outside {
      OutsideStays(m, e, i);
    } else if e.Step? && e.i == i {
      PlaceOf(m, i);
    } else {
      OthersStep(m, e, i);
      if e.Handled? {
        hide Inv, HandleTune;
        HandleTuneKeeps(m.r.tune, e.h, m.r.lock.cardInitDone);
      }
    }
  }

  /** A requester that takes the lock with tuning switched off, or a clock that does not need it, never
      tunes the clock. */
  lemma {:induction false} NotTunedWhenOff(m: Machine, es: seq<Event>, i: nat)
    requires Inv(m) && i < |m.pcs| && m.pcs[i].Entered? && (m.r.tune.disable || !m.r.tune.reqd)
    requires NoDisable(es) && NoRestart(es, i)
    ensures var m' := Run(m, es);
      m'.pcs[i] == Outside || (Holds(m'.pcs[i]) && Untuned(m.r.tune.tunings, m'.r.tune, m'.pcs[i]))
  {
    if es != [] {
      NotTunedWhenOff(m, es[..|es| - 1], i);
      var e := es[|es| - 1];
      assert NoDisable([e]) && NoRestart([e], i);
      hide Untuned;
      UntunedStep(m.r.tune.tunings, Run(m, es[..|es| - 1]), e, i);
    }
  }

  /** A request recorded while the command of requester i is on its way is served by this requester
      exactly when it reaches the check behind its command; otherwise it stays recorded as it was. */
  lemma ServedBehindCommand(m: Machine, es: seq<Event>, i: nat)
    requires Inv(m) && i < |m.pcs| && m.pcs[i].Command?
    requires m.r.tune.tun == TUNING_START_AFTER_DAT && !m.r.tune.disable && m.r.tune.reqd
    requires NoDisable(es) && NoRestart(es, i)
    requires Run(m, es).pcs[i].Leaving?
    ensures var t, checked := Run(m, es).r.tune, Run(m, es).pcs[i].checked;
      && (t.tunings > m.r.tune.tunings <==> checked)
      && (!checked ==> t.tun == TUNING_START_AFTER_DAT && t.tunings == m.r.tune.tunings)
  {
    UnderwayRun(TUNING_START_AFTER_DAT, m.pcs[i].kind, m.r.tune.tunings, m, es, i);
  }

  predicate NoStepOf(es: seq<Event>, i: nat) { forall k :: 0 <= k < |es| ==> !(es[k].Step? && es[k].i == i) }

  lemma {:induction false} StandsStill(m: Machine, es: seq<Event>, i: nat)
    requires Inv(m) && i < |m.pcs| && Holds(m.pcs[i]) && NoStepOf(es, i)
    ensures Run(m, es).pcs[i] == m.pcs[i]
  {
    if es != [] {
      StandsStill(m, es[..|es| - 1], i);
      OthersStep(Run(m, es[..|es| - 1]), es[|es| - 1], i);
    }
  }

  /** Where a requester is whose command was issued, or not, until it leaves. */
  predicate Behind(k: Kind, checks: bool, pc: Pc)
  {
    || pc == Outside || pc == Leaving(k, checks)
    || (checks && (pc == PostCheck(k) || pc == Starting(k, false) || pc == Tuning(k, false)))
  }

  lemma BehindStep(k: Kind, checks: bool, m: Machine, e: Event, i: nat)
    requires Inv(m) && i < |m.pcs| && Behind(k, checks, m.pcs[i]) && NoRestart([e], i)
    ensures Behind(k, checks, Next(m, e).pcs[i])
  {
    assert e == [e][0];
    if m.pcs[i] == Outside {
      OutsideStays(m, e, i);
    } else if !(e.Step? && e.i == i) {
      OthersStep(m, e, i);
    }
  }

  lemma {:induction false} BehindRun(k: Kind, checks: bool, m: Machine, es: seq<Event>, i: nat)
    requires Inv(m) && i < |m.pcs| && Behind(k, checks, m.pcs[i]) && NoRestart(es, i)
    ensures Behind(k, checks, Run(m, es).pcs[i])
  {
    if es != [] {
      BehindRun(k, checks, m, es[..|es| - 1], i);
      var e := es[|es| - 1];
      assert NoRestart([e], i);
      hide Behind;
      BehindStep(k, checks, Run(m, es[..|es| - 1]), e, i);
    }
  }

  /** Told by the command's outcome: the requester inside serves a request recorded during its command
      if and only if it is no byte request or its command could be issued. */
  lemma ServedByOutcome(m: Machine, es: seq<Event>, issued: bool, es': seq<Event>, i: nat)
    requires Inv(m) && i < |m.pcs| && m.pcs[i].Command?
    requires m.r.tune.tun == TUNING_START_AFTER_DAT && !m.r.tune.disable && m.r.tune.reqd
    requires NoStepOf(es, i) && NoDisable(es) && NoRestart(es, i) && NoDisable(es') && NoRestart(es', i)
    requires Run(m, es + [Step(i, issued)] + es').pcs[i].Leaving?
    ensures var t := Run(m, es + [Step(i, issued)] + es').r.tune;
      if m.pcs[i].kind == Data || issued then t.tunings > m.r.tune.tunings
      else t.tun == TUNING_START_AFTER_DAT && t.tunings == m.r.tune.tunings
  {
    hide Run, Next, Inv, Behind, Underway;
    var k, checks := m.pcs[i].kind, m.pcs[i].kind == Data || issued;
    var step := es + [Step(i, issued)];
    AllFine(es, Step(i, issued), es', i);
    StandsStill(m, es, i);
    RunStep(m, es, Step(i, issued));
    CommandEnds(Run(m, es), issued, i);
    BehindRun(k, checks, Run(m, step), es', i);
    RunPieces(m, step, es');
    ServedBehindCommand(m, step + es', i);
    BehindLeaving(k, checks, Run(m, step + es').pcs[i]);
  }

  lemma AllFine(es: seq<Event>, e: Event, es': seq<Event>, i: nat)
    requires NoDisable(es) && NoRestart(es, i) && NoDisable(es') && NoRestart(es', i) && e.Step?
    ensures NoDisable(es + [e] + es') && NoRestart(es + [e] + es', i)
  {
  }

  lemma CommandEnds(m: Machine, issued: bool, i: nat)
    requires Inv(m) && i < |m.pcs| && m.pcs[i].Command?
    ensures Behind(m.pcs[i].kind, m.pcs[i].kind == Data || issued, Next(m, Step(i, issued)).pcs[i])
  {
  }

  lemma BehindLeaving(k: Kind, checks: bool, pc: Pc)
    requires Behind(k, checks, pc) && pc.Leaving?
    ensures pc.checked == checks
  {
  }

  lemma {:induction false} RunPieces(m: Machine, es: seq<Event>, es': seq<Event>)
    requires Inv(m)
    ensures Run(m, es + es') == Run(Run(m, es), es')
  {
    if es' == [] {
      assert es + es' == es;
    } else {
      var rest, e := es'[..|es'| - 1], es'[|es'| - 1];
      assert (es + es')[..|es + es'| - 1] == es + rest;
      RunPieces(m, es, rest);
    }
  }

  // ---------------------------------------------------------------- requests left behind

  /** Is the check after the command still ahead? */
  predicate CheckAhead(pc: Pc) { pc.Command? || pc.PostCheck? || (pc.Starting? && !pc.pre) }

  predicate Attended(m: Machine)
  {
    m.r.tune.tun == TUNING_START_AFTER_DAT ==> exists i :: 0 <= i < |m.pcs| && CheckAhead(m.pcs[i])
  }

  predicate AllIssued(es: seq<Event>) { forall k :: 0 <= k < |es| && es[k].Step? ==> es[k].issued }

  lemma AttendedOwn(t: Tune, pc: Pc)
    requires PlaceRight(t, pc) && TuningEnabled(t)
    requires t.tun == TUNING_START_AFTER_DAT ==> CheckAhead(pc)
    ensures var t' := StepTune(t, pc);
      TuningEnabled(t') && (t'.tun == TUNING_START_AFTER_DAT ==> CheckAhead(StepPc(t, pc, true)))
  {
  }

  lemma TransferHasOwner(m: Machine) returns (i: nat)
    requires Inv(m) && m.r.tune.dat == DATA_TRANSFER_ONGOING
    ensures i < |m.pcs| && m.pcs[i].Command?
  {
    SomeHolder(m.pcs);
    i :| i < |m.pcs| && Holds(m.pcs[i]);
    PlaceOf(m, i);
  }

  lemma AttendedStep(m: Machine, e: Event)
    requires Inv(m) && Attended(m) && TuningEnabled(m.r.tune) && NoDisable([e]) && AllIssued([e])
    ensures Attended(Next(m, e)) && TuningEnabled(Next(m, e).r.tune)
  {
    assert e == [e][0];
    match e
    case Begin(i, k) =>
      if m.r.tune.tun == TUNING_START_AFTER_DAT && i < |m.pcs| && m.pcs[i] == Outside {
        var j :| 0 <= j < |m.pcs| && CheckAhead(m.pcs[j]);
        assert CheckAhead(Next(m, e).pcs[j]);
      }
    case Step(i, issued) =>
      if i < |m.pcs| {
        if m.r.tune.tun == TUNING_START_AFTER_DAT {
          var j :| 0 <= j < |m.pcs| && CheckAhead(m.pcs[j]);
          if i != j {
            OthersStep(m, e, j);
            assert CheckAhead(Next(m, e).pcs[j]);
          } else {
            PlaceOf(m, i);
            AttendedOwn(m.r.tune, m.pcs[i]);
            assert Next(m, e).pcs[i] == StepPc(m.r.tune, m.pcs[i], true);
          }
        } else {
          if Holds(m.pcs[i]) { PlaceOf(m, i); }
          StepTuning(m.r.tune, m.pcs[i]);
        }
      }
    case Handled(h) =>
      HandleTuneKeeps(m.r.tune, h, m.r.lock.cardInitDone);
      hide HandleTune, Inv;
      if m.r.tune.tun == TUNING_START_AFTER_DAT {
        var j :| 0 <= j < |m.pcs| && CheckAhead(m.pcs[j]);
        assert CheckAhead(Next(m, e).pcs[j]);
      } else if Next(m, e).r.tune.tun == TUNING_START_AFTER_DAT {
        var j := TransferHasOwner(m);
        assert CheckAhead(Next(m, e).pcs[j]);
      }
  }

  /** As long as byte commands can be issued and tuning is on, a request recorded during a transfer
      is never left behind: the requester inside still has its second check ahead. */
  lemma {:induction false} NeverLeftBehind(m: Machine, es: seq<Event>)
    requires Initial(m) && !m.r.tune.disable && m.r.tune.reqd && NoDisable(es) && AllIssued(es)
    ensures (InitialInv(m); var m' := Run(m, es);
      && Attended(m') && TuningEnabled(m'.r.tune) && (m'.r.lock.count == 0 ==> m'.r.tune.tun != TUNING_START_AFTER_DAT))
  {
    InitialInv(m);
    if es != [] {
      var rest, e := es[..|es| - 1], es[|es| - 1];
      NeverLeftBehind(m, rest);
      assert NoDisable([e]) && AllIssued([e]);
      hide Initial;
      AttendedStep(Run(m, rest), e);
    }
    if Run(m, es).r.tune.tun == TUNING_START_AFTER_DAT {
      var j :| 0 <= j < |Run(m, es).pcs| && CheckAhead(Run(m, es).pcs[j]);
      PlaceOf(Run(m, es), j);
    }
  }

  // ---------------------------------------------------------------- two runs of a byte write

  /** The steps of a machine with a single requester. */
  lemma NextSolo(r: Regs, pc: Pc, issued: bool)
    requires HoldersLock(Machine(r, [pc]))
    ensures Holds(pc) ==> r.lock.count > 0
    ensures Next(Machine(r, [pc]), Step(0, issued)) == Machine(StepOf(r, pc, issued).0, [StepOf(r, pc, issued).1])
  {
    assert Holds([pc][0]) ==> r.lock.count > 0;
    hide StepOf, HoldersLock;
    var pc' := StepOf(r, pc, issued).1;
    assert [pc][0 := pc'] == [pc'];
  }

  lemma NextBegin(r: Regs, k: Kind)
    requires HoldersLock(Machine(r, [Outside]))
    ensures Next(Machine(r, [Outside]), Begin(0, k)) == Machine(r, [Waiting(k)])
  {
    hide HoldersLock;
    var pcs: seq<Pc> := [Outside];
    assert pcs[0 := Waiting(k)] == [Waiting(k)];
  }

  lemma SoloStep(m: Machine, es: seq<Event>, r: Regs, pc: Pc, issued: bool)
    requires Inv(m) && Run(m, es) == Machine(r, [pc])
    ensures Holds(pc) ==> r.lock.count > 0 && PlaceRight(r.tune, pc)
    ensures Run(m, es + [Step(0, issued)]) == Machine(StepOf(r, pc, issued).0, [StepOf(r, pc, issued).1])
  {
    if Holds(pc) { PlaceOf(Machine(r, [pc]), 0); }
    RunStep(m, es, Step(0, issued));
    hide Run, StepOf, Next, Inv, HoldersLock, PlaceRight, Holds;
    NextSolo(r, pc, issued);
  }

  lemma SoloBegin(m: Machine, es: seq<Event>, r: Regs, k: Kind)
    requires Inv(m) && Run(m, es) == Machine(r, [Outside])
    ensures Run(m, es + [Begin(0, k)]) == Machine(r, [Waiting(k)])
  {
    hide Run, Next, Inv, HoldersLock, Holds;
    RunStep(m, es, Begin(0, k));
    NextBegin(r, k);
  }

  lemma SoloHandled(m: Machine, es: seq<Event>, r: Regs, pc: Pc, h: Handler)
    requires Inv(m) && Run(m, es) == Machine(r, [pc])
    ensures Run(m, es + [Handled(h)]) == Machine(Handle(r, h), [pc])
  {
    hide Run, Handle, Inv;
    RunStep(m, es, Handled(h));
  }

  lemma RunStep(m: Machine, es: seq<Event>, e: Event)
    requires Inv(m)
    ensures Run(m, es + [e]) == Next(Run(m, es), e)
  {
    assert (es + [e])[..|es|] == es;
  }

  /** A run without settings of the tuning switch, and if asked for without commands that fail, has led
      the only requester to pc. */
  ghost predicate At(m: Machine, es: seq<Event>, r: Regs, pc: Pc, allIssued: bool)
    requires Inv(m)
  {
    Run(m, es) == Machine(r, [pc]) && NoDisable(es) && (allIssued ==> AllIssued(es))
  }

  lemma GoStep(m: Machine, es: seq<Event>, r: Regs, pc: Pc, issued: bool, all: bool) returns (es': seq<Event>)
    requires Inv(m) && At(m, es, r, pc, all) && (all ==> issued)
    ensures Holds(pc) ==> r.lock.count > 0
    ensures At(m, es', StepOf(r, pc, issued).0, StepOf(r, pc, issued).1, all) && es < es'
  {
    hide Run, StepOf, Inv, PlaceRight;
    SoloStep(m, es, r, pc, issued);
    es' := es + [Step(0, issued)];
  }

  lemma GoBegin(m: Machine, es: seq<Event>, r: Regs, k: Kind, all: bool) returns (es': seq<Event>)
    requires Inv(m) && At(m, es, r, Outside, all)
    ensures At(m, es', r, Waiting(k), all) && es' == es + [Begin(0, k)]
  {
    hide Run, Inv;
    SoloBegin(m, es, r, k);
    es' := es + [Begin(0, k)];
  }

  lemma GoTimer(m: Machine, es: seq<Event>, r: Regs, pc: Pc, all: bool) returns (es': seq<Event>)
    requires Inv(m) && At(m, es, r, pc, all)
    ensures At(m, es', Regs(r.lock, RetuningAsked(r.tune)), pc, all)
  {
    hide Run, Inv, RetuningAsked;
    SoloHandled(m, es, r, pc, TuningTimer);
    es' := es + [Handled(TuningTimer)];
  }

  /** What the steps of a byte write do, one by one. */
  lemma WriteSteps(l: Lock, t: Tune, issued: bool)
    ensures l.count == 0 ==>
      StepOf(Regs(l, t), Waiting(ByteWrite), true) == (Regs(Locked(l), t), Entered(ByteWrite))
    ensures l.count > 0 ==>
      && StepOf(Regs(l, t), Entered(ByteWrite), true) == (Regs(l, t), Ready(ByteWrite))
      && StepOf(Regs(l, t), Ready(ByteWrite), true) == (Regs(l, t.(dat := DATA_TRANSFER_ONGOING)), Command(ByteWrite))
      && StepOf(Regs(l, t), Command(ByteWrite), issued) ==
        (Regs(l, t.(dat := DATA_TRANSFER_IDLE)), if issued then PostCheck(ByteWrite) else Leaving(ByteWrite, false))
  {
    hide Locked;
  }

  lemma LastSteps(l: Lock, t: Tune, checked: bool)
    ensures l.count > 0 && t.tun != TUNING_START_AFTER_DAT ==>
      StepOf(Regs(l, t), PostCheck(ByteWrite), true) == (Regs(l, t), Leaving(ByteWrite, true))
    ensures l.count > 0 ==> StepOf(Regs(l, t), Leaving(ByteWrite, checked), true) == (Regs(Unlocked(l), t), Outside)
  {
    hide Unlocked;
  }

  /** From outside to the command. */
  lemma WriteToCommand(m: Machine, es: seq<Event>, r: Regs, all: bool) returns (es': seq<Event>)
    requires Inv(m) && At(m, es, r, Outside, all) && r.lock.count == 0
    ensures Locked(r.lock).count == 1
    ensures At(m, es', Regs(Locked(r.lock), r.tune.(dat := DATA_TRANSFER_ONGOING)), Command(ByteWrite), all)
    ensures es + [Begin(0, ByteWrite)] < es'
  {
    hide At, Inv, StepOf, Locked;
    LockedCounts(r.lock);
    var q := Regs(Locked(r.lock), r.tune);
    WriteSteps(r.lock, r.tune, true);
    WriteSteps(q.lock, q.tune, true);
    es' := GoBegin(m, es, r, ByteWrite, all);
    es' := GoStep(m, es', r, Waiting(ByteWrite), true, all);
    es' := GoStep(m, es', q, Entered(ByteWrite), true, all);
    es' := GoStep(m, es', q, Ready(ByteWrite), true, all);
  }

  lemma LockedCounts(l: Lock)
    ensures Locked(l).count == l.count + 1
    ensures l.count > 0 ==> Unlocked(l).count == l.count - 1
  {
    hide SetMask, ClearMask;
  }

  /** A byte write whose command cannot be issued does leave it behind: the lock is free, no data
      moves, and the request made during the command waits for the check of a later transfer. */
  lemma FailedByteLeavesBehind(r: Regs) returns (es: seq<Event>)
    requires Initial(Machine(r, [Outside])) && TuningEnabled(r.tune)
    ensures NoDisable(es)
    ensures (InitialInv(Machine(r, [Outside])); var m' := Run(Machine(r, [Outside]), es);
      m'.pcs == [Outside] && m'.r.lock.count == 0 && m'.r.tune.tun == TUNING_START_AFTER_DAT)
  {
    var m := Machine(r, [Outside]);
    InitialInv(m);
    InitialFacts(r);
    hide Inv, Run, StepOf, Locked, Unlocked, Initial, RetuningAsked;
    es := WriteToCommand(m, [], r, false);
    var l, t := Locked(r.lock), r.tune.(dat := DATA_TRANSFER_ONGOING);
    TimerDuring(t);
    es := GoTimer(m, es, Regs(l, t), Command(ByteWrite), false);
    t := t.(tun := TUNING_START_AFTER_DAT);
    WriteSteps(l, t, false);
    es := GoStep(m, es, Regs(l, t), Command(ByteWrite), false, false);
    t := t.(dat := DATA_TRANSFER_IDLE);
    LastSteps(l, t, false);
    es := GoStep(m, es, Regs(l, t), Leaving(ByteWrite, false), true, false);
    LockedCounts(l);
  }

  lemma InitialFacts(r: Regs)
    requires Initial(Machine(r, [Outside]))
    ensures r.lock.count == 0 && r.tune.tun == TUNING_IDLE && r.tune.dat == DATA_TRANSFER_IDLE
    ensures (InitialInv(Machine(r, [Outside])); At(Machine(r, [Outside]), [], r, Outside, true))
  {
    InitialInv(Machine(r, [Outside]));
  }

  lemma TimerDuring(t: Tune)
    requires t.tun == TUNING_IDLE
    ensures RetuningAsked(t) == if t.dat == DATA_TRANSFER_ONGOING then t.(tun := TUNING_START_AFTER_DAT)
                                else t.(tun := TUNING_START, tasklet := true)
  {
  }

  /** And a byte write passes by a tuning that was asked for before it began: it goes all the way with
      its command issued, and the clock is not tuned. */
  lemma ByteWritePassesBy(r: Regs) returns (es: seq<Event>)
    requires Initial(Machine(r, [Outside])) && TuningEnabled(r.tune)
    ensures NoDisable(es) && AllIssued(es)
    ensures [Handled(TuningTimer), Begin(0, ByteWrite)] <= es
    ensures (InitialInv(Machine(r, [Outside])); var m' := Run(Machine(r, [Outside]), es);
      && m'.pcs == [Outside] && m'.r.lock.count == 0
      && m'.r.tune.tun == TUNING_START && m'.r.tune.tunings == r.tune.tunings)
  {
    var m := Machine(r, [Outside]);
    InitialInv(m);
    InitialFacts(r);
    hide Inv, Run, StepOf, Locked, Unlocked, Initial, RetuningAsked;
    TimerDuring(r.tune);
    es := [Handled(TuningTimer)];
    SoloHandled(m, [], r, Outside, TuningTimer);
    assert [] + es == es;
    var t := r.tune.(tun := TUNING_START, tasklet := true);
    es := WriteToCommand(m, es, Regs(r.lock, t), true);
    var l := Locked(r.lock);
    t := t.(dat := DATA_TRANSFER_ONGOING);
    WriteSteps(l, t, true);
    es := GoStep(m, es, Regs(l, t), Command(ByteWrite), true, true);
    t := t.(dat := DATA_TRANSFER_IDLE);
    LastSteps(l, t, true);
    es := GoStep(m, es, Regs(l, t), PostCheck(ByteWrite), true, true);
    es := GoStep(m, es, Regs(l, t), Leaving(ByteWrite, true), true, true);
    LockedCounts(l);
  }
}
