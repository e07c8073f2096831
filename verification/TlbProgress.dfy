// When a call of tlb_shootdown can return, and when it leaves no stale entry.
module TlbProgress {
  import opened ModArith
  import opened TlbShootdown

  // ---- A measure of the work left ----

  function MainCost(pc: Pc): nat {
    match pc
    case Out => 0
    case AtRestore => 1
    case AtUnlock => 2
    case AtStore => 3
    case AtCount => 4
    case AtCheck => 5
    case AtWait => 6
    case AtSend => 7
    case AtPend => 8
    case AtAddr => 9
    case AtMask => 10
    case AtXchg => 11
    case AtSpin => 12
    case AtSti => 13
    case AtSave => 14
    case AtInvlpg => 15
  }

  function IrqCost(k: Core): nat {
    (if k.ipi then 5 else 0) +
    match k.h
    case Idle => 0
    case Eoi => 1
    case Ack => 2
    case Flush(_) => 3
    case Load => 4
  }

  // Sending raises the interrupt cost of at most n cores by five each.
  function Cost(k: Core, n: nat): nat {
    MainCost(k.pc) * (5 * n + 6) + IrqCost(k)
  }

  function Total(cores: seq<Core>, n: nat): nat {
    if cores == [] then 0 else Cost(cores[0], n) + Total(cores[1..], n)
  }

  function Measure(s: State): nat {
    Total(s.cores, |s.cores|)
  }

  lemma {:induction false} TotalUpdate(cores: seq<Core>, n: nat, c: nat, k: Core)
    requires c < |cores|
    ensures Total(cores[c := k], n) == Total(cores, n) - Cost(cores[c], n) + Cost(k, n)
  {
    if c == 0 {
      assert cores[0 := k][1..] == cores[1..];
    } else {
      assert cores[c := k][1..] == cores[1..][c - 1 := k];
      TotalUpdate(cores[1..], n, c - 1, k);
    }
  }

  lemma {:induction false} TotalSend(cores: seq<Core>, sent: seq<Core>, n: nat)
    requires |sent| == |cores|
    requires forall i :: 0 <= i < |cores| ==> sent[i] == cores[i] || sent[i] == cores[i].(ipi := true)
    ensures Total(sent, n) <= Total(cores, n) + 5 * |cores|
  {
    if cores != [] {
      TotalSend(cores[1..], sent[1..], n);
      assert sent[0] == cores[0] || sent[0] == cores[0].(ipi := true);
    }
  }

  lemma CostDrop(k: Core, k': Core, n: nat)
    requires MainCost(k'.pc) < MainCost(k.pc) && IrqCost(k') == IrqCost(k)
    ensures Cost(k', n) + 5 * n + 6 <= Cost(k, n)
  {
    hide MainCost, IrqCost;
    MulLe(MainCost(k'.pc) + 1, MainCost(k.pc), 5 * n + 6);
  }

  lemma LocalLowers(s: State, c: nat, k': Core)
    requires c < |s.cores|
    requires MainCost(k'.pc) < MainCost(s.cores[c].pc) && IrqCost(k') == IrqCost(s.cores[c])
    ensures Total(s.cores[c := k'], |s.cores|) < Measure(s)
  {
    hide MainCost, IrqCost, Cost;
    CostDrop(s.cores[c], k', |s.cores|);
    TotalUpdate(s.cores, |s.cores|, c, k');
  }

  lemma SendLowers(s: State, c: nat)
    requires c < |s.cores| && s.cores[c].pc.AtSend?
    ensures Measure(SendIpi(s, c)) < Measure(s)
  {
    var s', k, n := SendIpi(s, c), s.cores[c], |s.cores|;
    var sent := s'.cores[c := k];
    assert forall i :: 0 <= i < n ==> sent[i] == s.cores[i] || sent[i] == s.cores[i].(ipi := true);
    assert s'.cores == sent[c := s'.cores[c]];
    hide Total, Cost, SendIpi;
    TotalSend(s.cores, sent, n);
    TotalUpdate(sent, n, c, s'.cores[c]);
    CostDrop(k, s'.cores[c], n);
  }

  // A step of tlb_shootdown other than the send changes only its own core and,
  // unless it spins on the lock or the mask, moves it forward.
  ghost predicate Moves(s: State, s': State, c: nat) {
    && c < |s.cores| == |s'.cores| && s'.cores == s.cores[c := s'.cores[c]]
    && s'.running == s.running && s'.cpuCount == s.cpuCount && s'.lapic == s.lapic && s'.pt == s.pt
    && (s.cores[c].pc.AtXchg? || s.cores[c].pc.AtUnlock? || s'.lock == s.lock)
    && (s.cores[c].pc.AtPend? || s'.pending == s.pending)
    && (s'.cores[c].pc.AtAddr? ==> s.cores[c].pc.AtMask? && Counted(s) - {c} != {})
    && (s'.cores[c].pc.AtPend? ==> s.cores[c].pc.AtAddr?)
    && (s'.cores[c].pc.AtSend? ==> s.cores[c].pc.AtPend?)
    && (BeforeSti(s'.cores[c].pc) ==> BeforeSti(s.cores[c].pc))
    && (s'.cores[c].pc.AtXchg? ==> s.cores[c].pc.AtSti? || s.cores[c].pc.AtSpin?)
    && (s'.cores[c].pc.AtSpin? ==> s.lock)
    && s'.cores[c].ipi == s.cores[c].ipi && s'.cores[c].h == s.cores[c].h
    && (Spins(s, c) || MainCost(s'.cores[c].pc) < MainCost(s.cores[c].pc))
    && (s'.cores[c].pc.Out? ==> s.cores[c].pc.AtRestore? || !Smp(s))
  }

  predicate Spins(s: State, c: nat)
    requires c < |s.cores|
  {
    ((s.cores[c].pc.AtXchg? || s.cores[c].pc.AtSpin?) && s.lock) || (s.cores[c].pc.AtWait? && s.pending != {})
  }

  lemma InvlpgMoves(s: State, c: nat)
    requires c < |s.cores| && s.cores[c].pc.AtInvlpg?
    ensures Moves(s, Invlpg(s, c), c)
  {}

  lemma SaveFlagsMoves(s: State, c: nat)
    requires c < |s.cores| && s.cores[c].pc.AtSave?
    ensures Moves(s, SaveFlags(s, c), c)
  {}

  lemma EnableInterruptsMoves(s: State, c: nat)
    requires c < |s.cores| && s.cores[c].pc.AtSti?
    ensures Moves(s, EnableInterrupts(s, c), c)
  {}

  lemma ExchangeMoves(s: State, c: nat)
    requires c < |s.cores| && s.cores[c].pc.AtXchg?
    ensures Moves(s, Exchange(s, c), c)
  {}

  lemma SpinMoves(s: State, c: nat)
    requires c < |s.cores| && s.cores[c].pc.AtSpin?
    ensures Moves(s, Spin(s, c), c)
  {}

  lemma CollectMaskMoves(s: State, c: nat)
    requires c < |s.cores| && s.cores[c].pc.AtMask?
    ensures Moves(s, CollectMask(s, c), c)
  {}

  lemma WriteAddrMoves(s: State, c: nat)
    requires c < |s.cores| && s.cores[c].pc.AtAddr?
    ensures Moves(s, WriteAddr(s, c), c)
  {}

  lemma WritePendingMoves(s: State, c: nat)
    requires c < |s.cores| && s.cores[c].pc.AtPend?
    ensures Moves(s, WritePending(s, c), c)
  {}

  lemma WaitMoves(s: State, c: nat)
    requires c < |s.cores| && s.cores[c].pc.AtWait?
    ensures Moves(s, Wait(s, c), c)
  {}

  lemma CheckMoves(s: State, c: nat)
    requires c < |s.cores| && s.cores[c].pc.AtCheck?
    ensures Moves(s, Check(s, c), c)
  {}

  lemma LoadCountMoves(s: State, c: nat)
    requires c < |s.cores| && s.cores[c].pc.AtCount?
    ensures Moves(s, LoadCount(s, c), c)
  {}

  lemma StoreCountMoves(s: State, c: nat)
    requires c < |s.cores| && s.cores[c].pc.AtStore?
    ensures Moves(s, StoreCount(s, c), c)
  {}

  lemma UnlockMoves(s: State, c: nat)
    requires c < |s.cores| && s.cores[c].pc.AtUnlock?
    ensures Moves(s, Unlock(s, c), c)
  {}

  lemma RestoreFlagsMoves(s: State, c: nat)
    requires c < |s.cores| && s.cores[c].pc.AtRestore?
    ensures Moves(s, RestoreFlags(s, c), c)
  {}

  lemma MainMoves(s: State, c: nat)
    requires Enabled(s, Main(c)) && !s.cores[c].pc.AtSend?
    ensures Moves(s, MainStep(s, c), c)
  {
    hide Moves, Invlpg, SaveFlags, EnableInterrupts, Exchange, Spin, CollectMask, WriteAddr, WritePending, SendIpi, Wait, Check, LoadCount, StoreCount, Unlock, RestoreFlags;
    match s.cores[c].pc
    case AtInvlpg => InvlpgMoves(s, c);
    case AtSave => SaveFlagsMoves(s, c);
    case AtSti => EnableInterruptsMoves(s, c);
    case AtXchg => ExchangeMoves(s, c);
    case AtSpin => SpinMoves(s, c);
    case AtMask => CollectMaskMoves(s, c);
    case AtAddr => WriteAddrMoves(s, c);
    case AtPend => WritePendingMoves(s, c);
    case AtWait => WaitMoves(s, c);
    case AtCheck => CheckMoves(s, c);
    case AtCount => LoadCountMoves(s, c);
    case AtStore => StoreCountMoves(s, c);
    case AtUnlock => UnlockMoves(s, c);
    case AtRestore => RestoreFlagsMoves(s, c);
  }

  // A main step that does not spin lowers the measure.
  lemma MainLowers(s: State, c: nat)
    requires Enabled(s, Main(c)) && |MainStep(s, c).cores| == |s.cores|
    requires MainCost(MainStep(s, c).cores[c].pc) < MainCost(s.cores[c].pc)
    ensures Measure(MainStep(s, c)) < Measure(s)
  {
    if s.cores[c].pc.AtSend? {
      SendLowers(s, c);
    } else {
      MainMoves(s, c);
      hide MainStep;
      LocalLowers(s, c, MainStep(s, c).cores[c]);
    }
  }

  lemma InterruptLowers(s: State, step: Step)
    requires Enabled(s, step) && (step.Irq? || step.Deliver?)
    ensures Measure(Apply(s, step)) < Measure(s)
  {
    var s', c, n := Apply(s, step), step.c, |s.cores|;
    assert s'.cores == s.cores[c := s'.cores[c]];
    assert s'.cores[c].pc == s.cores[c].pc && IrqCost(s'.cores[c]) < IrqCost(s.cores[c]);
    TotalUpdate(s.cores, n, c, s'.cores[c]);
  }

  // ---- Some protocol step always brings a call nearer to its return ----

  // Core d is in code outside the protocol that keeps interrupts off.
  predicate Deaf(s: State, d: nat) {
    d < |s.cores| && s.cores[d].pc.Out? && s.cores[d].h.Idle? && !s.cores[d].ifl
  }

  // The CPUs whose acknowledgement the call on c still needs.
  function Awaited(s: State, c: nat): set<nat>
    requires c < |s.cores|
  {
    var pc := s.cores[c].pc;
    if !Smp(s) || Finished(pc) then {}
    else if pc.AtWait? || pc.AtCheck? then s.pending
    else Counted(s) - {c}
  }

  // None of them is deaf.
  ghost predicate Willing(s: State, c: nat)
    requires c < |s.cores|
  {
    forall d :: d in Awaited(s, c) ==> !Deaf(s, d)
  }

  predicate Protocol(step: Step) {
    step.Main? || step.Irq? || step.Deliver?
  }

  // Step brings the call on c nearer to its return, and is a step of c, of the
  // lock holder or of a CPU with an acknowledgement to give.
  ghost predicate Helps(s: State, step: Step, c: nat)
    requires c < |s.cores|
  {
    && Enabled(s, step) && Protocol(step)
    && (step.c == c || step.c == s.owner || step.c in s.pending)
    && Measure(Apply(s, step)) < Measure(s)
    && |Apply(s, step).cores| == |s.cores|
    && (Apply(s, step).cores[c].pc.Out? || Willing(Apply(s, step), c))
  }

  // A step of core t leaves the others as they are, but for a latched IPI.
  ghost predicate Elsewhere(s: State, s': State, t: nat) {
    && t < |s.cores| == |s'.cores|
    && s'.running == s.running && s'.cpuCount == s.cpuCount && s'.lapic == s.lapic
    && forall e :: 0 <= e < |s.cores| && e != t ==> s'.cores[e] == s.cores[e].(ipi := s'.cores[e].ipi)
  }

  lemma MainElsewhere(s: State, t: nat)
    requires Enabled(s, Main(t))
    ensures Elsewhere(s, MainStep(s, t), t)
    ensures s.cores[t].pc.AtPend? || MainStep(s, t).pending == s.pending
  {
    if !s.cores[t].pc.AtSend? {
      MainMoves(s, t);
      hide MainStep, CountedIn, Smp;
    }
  }

  lemma IrqElsewhere(s: State, t: nat)
    requires Enabled(s, Irq(t))
    ensures Elsewhere(s, IrqStep(s, t), t)
    ensures IrqStep(s, t).pending == s.pending || IrqStep(s, t).pending == s.pending - {t}
  {}

  lemma StepElsewhere(s: State, step: Step)
    requires Enabled(s, step) && !step.PageChange?
    ensures Elsewhere(s, Apply(s, step), step.c)
    ensures !step.Main? && !step.Timeout? && !step.Irq? ==> Apply(s, step).pending == s.pending
  {
    hide MainStep, IrqStep;
    if step.Main? {
      MainElsewhere(s, step.c);
    } else if step.Irq? {
      IrqElsewhere(s, step.c);
    }
  }

  // Only the lock holder writes the mask, and only before it sends.
  lemma PendingKept(s: State, step: Step, c: nat)
    requires Inv(s) && Enabled(s, step) && !step.Timeout? && c < |s.cores| && (step.PageChange? || step.c != c)
    requires s.cores[c].pc.AtWait? || s.cores[c].pc.AtCheck?
    ensures Apply(s, step).pending == s.pending || (step.Irq? && Apply(s, step).pending == s.pending - {step.c})
  {
    hide MainStep, IrqStep, Enabled;
    InvAt(s, c);
    if step.Main? {
      MainElsewhere(s, step.c);
      InvAt(s, step.c);
    } else if step.Irq? {
      IrqElsewhere(s, step.c);
    }
  }

  // Another core's step takes nothing but its own acknowledgement from the set.
  lemma OtherAwaited(s: State, step: Step, c: nat, d: nat)
    requires Inv(s) && Enabled(s, step) && !step.Timeout? && c < |s.cores| && !s.cores[c].pc.Out?
    requires step.PageChange? || step.c != c
    ensures |Apply(s, step).cores| == |s.cores| && !Apply(s, step).cores[c].pc.Out?
    ensures d in Awaited(Apply(s, step), c) ==> d in Awaited(s, c)
    ensures d in Awaited(s, c) && step != Irq(d) ==> d in Awaited(Apply(s, step), c)
  {
    if step.PageChange? {
      hide Inv, CountedIn, Smp, Enabled;
    } else {
      StepElsewhere(s, step);
      if s.cores[c].pc.AtWait? || s.cores[c].pc.AtCheck? {
        PendingKept(s, step, c);
      }
      hide Apply, Inv, CountedIn, Smp, Enabled;
    }
  }

  // What becomes of the set when c itself moves from s to s'.
  ghost predicate SameAwaited(s: State, s': State, c: nat, d: nat)
    requires c < |s.cores|
  {
    && |s'.cores| == |s.cores|
    && (!s'.cores[c].pc.Out? && d in Awaited(s', c) ==> d in Awaited(s, c))
    && (d in Awaited(s, c) ==> !s'.cores[c].pc.Out? && d in Awaited(s', c))
  }

  lemma EarlyAwaited(s: State, c: nat, d: nat)
    requires Inv(s) && Enabled(s, Main(c)) && !Holding(s.cores[c].pc)
    ensures SameAwaited(s, MainStep(s, c), c, d)
  {
    hide Inv, CountedIn;
    InvAt(s, c);
  }

  lemma HoldingAwaited(s: State, c: nat, d: nat)
    requires Inv(s) && Enabled(s, Main(c)) && Holding(s.cores[c].pc)
    ensures SameAwaited(s, MainStep(s, c), c, d)
  {
    hide Inv, CountedIn, FlagInv, AckInv, Configured;
    InvAt(s, c);
  }

  // Its own step keeps the set until the set is empty.
  lemma OwnAwaited(s: State, c: nat, d: nat)
    requires Inv(s) && Enabled(s, Main(c))
    ensures SameAwaited(s, MainStep(s, c), c, d)
  {
    hide Inv, MainStep, SameAwaited;
    if Holding(s.cores[c].pc) {
      HoldingAwaited(s, c, d);
    } else {
      EarlyAwaited(s, c, d);
    }
  }

  // A handler leaves its core's main code where it was, with interrupts on.
  lemma IrqKeepsPc(s: State, t: nat)
    requires Enabled(s, Irq(t))
    ensures |IrqStep(s, t).cores| == |s.cores| && IrqStep(s, t).cores[t].pc == s.cores[t].pc
    ensures IrqStep(s, t).cores[t].h.Idle? ==> IrqStep(s, t).cores[t].ifl
  {}

  lemma OwnIrqAwaited(s: State, step: Step, d: nat)
    requires Inv(s) && Enabled(s, step) && !step.Timeout? && !step.Main? && !step.PageChange?
    requires step.c < |s.cores| && !s.cores[step.c].pc.Out?
    ensures |Apply(s, step).cores| == |s.cores| && !Apply(s, step).cores[step.c].pc.Out?
    ensures d in Awaited(Apply(s, step), step.c) ==> d in Awaited(s, step.c)
    ensures d in Awaited(s, step.c) && step != Irq(d) ==> d in Awaited(Apply(s, step), step.c)
  {
    hide Inv, CountedIn, MainStep, IrqStep;
    if step.Irq? {
      IrqElsewhere(s, step.c);
      IrqKeepsPc(s, step.c);
    }
  }

  // Unless the timeout fires, a CPU leaves the set only by acknowledging, and
  // none joins it.
  lemma AwaitedStep(s: State, step: Step, c: nat, d: nat)
    requires Inv(s) && Enabled(s, step) && !step.Timeout? && c < |s.cores| && !s.cores[c].pc.Out?
    ensures |Apply(s, step).cores| == |s.cores|
    ensures !Apply(s, step).cores[c].pc.Out? && d in Awaited(Apply(s, step), c) ==> d in Awaited(s, c)
    ensures d in Awaited(s, c) && step != Irq(d) ==>
              !Apply(s, step).cores[c].pc.Out? && d in Awaited(Apply(s, step), c)
  {
    if step.PageChange? || step.c != c {
      hide Inv, Awaited, Enabled, Apply;
      OtherAwaited(s, step, c, d);
    } else if step.Main? {
      hide Inv, Awaited, MainStep, Enabled;
      OwnAwaited(s, c, d);
    } else {
      OwnIrqAwaited(s, step, d);
    }
  }

  lemma HandlerStep(s: State, step: Step)
    requires Enabled(s, step) && (step.Irq? || step.Deliver?)
    ensures |Apply(s, step).cores| == |s.cores| && !Deaf(Apply(s, step), step.c)
    ensures Apply(s, step).cores[step.c].pc == s.cores[step.c].pc
  {
    hide MainStep, IrqStep;
    if step.Irq? { IrqKeepsPc(s, step.c); }
  }

  // A protocol step makes no core deaf, except by returning.
  lemma DeafStep(s: State, step: Step, d: nat)
    requires Enabled(s, step) && Protocol(step) && Deaf(Apply(s, step), d)
    ensures Deaf(s, d) || step == Main(d)
  {
    hide Apply, Enabled;
    StepElsewhere(s, step);
    if step.c == d && !step.Main? {
      HandlerStep(s, step);
    }
  }

  lemma DeafOut(s: State, d: nat)
    requires Deaf(s, d)
    ensures d < |s.cores| && s.cores[d].pc.Out?
  {}

  lemma WillingStep(s: State, step: Step, c: nat)
    requires Inv(s) && Enabled(s, step) && Protocol(step) && c < |s.cores| && !s.cores[c].pc.Out?
    requires Willing(s, c) && |Apply(s, step).cores| == |s.cores| && !Apply(s, step).cores[c].pc.Out?
    requires step.Main? ==> !Apply(s, step).cores[step.c].pc.Out?
    ensures Willing(Apply(s, step), c)
  {
    hide Inv, Apply, Enabled, Deaf, Awaited;
    forall d | d in Awaited(Apply(s, step), c)
      ensures !Deaf(Apply(s, step), d)
    {
      AwaitedStep(s, step, c, d);
      if Deaf(Apply(s, step), d) {
        DeafStep(s, step, d);
        DeafOut(Apply(s, step), d);
      }
    }
  }

  // The step of core t itself, where it does not spin: t is c, the lock holder
  // or a CPU that has yet to enable interrupts.
  lemma Drive(s: State, c: nat, t: nat)
    requires Inv(s) && c < |s.cores| && Willing(s, c) && !s.cores[c].pc.Out?
    requires Enabled(s, Main(t)) && !Spins(s, t)
    requires t == c || t == s.owner || (t in s.pending && BeforeSti(s.cores[t].pc))
    ensures Helps(s, Main(t), c)
  {
    var s' := MainStep(s, t);
    InvAt(s, t);
    InvAt(s, c);
    MainForward(s, t);
    if t in s.pending { PendingRuns(s, t); }
    assert s'.cores[t].pc.Out? ==> t == c;
    hide Inv, Measure, MainStep, MainCost, Willing, Spins, CoreInv, LockInv;
    MainLowers(s, t);
    OwnAwaited(s, t, t);
    if !s'.cores[c].pc.Out? {
      WillingStep(s, Main(t), c);
    }
  }

  lemma MainForward(s: State, t: nat)
    requires Enabled(s, Main(t)) && !Spins(s, t)
    ensures |MainStep(s, t).cores| == |s.cores|
    ensures MainCost(MainStep(s, t).cores[t].pc) < MainCost(s.cores[t].pc)
    ensures MainStep(s, t).cores[t].pc.Out? ==> s.cores[t].pc.AtRestore? || !Smp(s)
    ensures forall c :: 0 <= c < |s.cores| && c != t ==> MainStep(s, t).cores[c].pc == s.cores[c].pc
  {
    hide CountedIn, Smp;
    if !s.cores[t].pc.AtSend? {
      MainMoves(s, t);
      hide MainStep;
    }
  }

  lemma DriveIrq(s: State, c: nat, step: Step)
    requires Inv(s) && c < |s.cores| && Willing(s, c) && !s.cores[c].pc.Out?
    requires Enabled(s, step) && (step.Irq? || step.Deliver?)
    requires step.c == c || step.c == s.owner || step.c in s.pending
    ensures Helps(s, step, c)
  {
    hide Inv, Apply, Enabled, Measure, Willing, Deaf;
    HandlerStep(s, step);
    StepElsewhere(s, step);
    InterruptLowers(s, step);
    WillingStep(s, step, c);
  }

  // The step that brings a missing acknowledgement nearer.
  lemma DriveAck(s: State, c: nat, d: nat) returns (step: Step)
    requires Inv(s) && c < |s.cores| && Willing(s, c) && !s.cores[c].pc.Out?
    requires Sent(s) && d in s.pending && !Deaf(s, d)
    ensures Helps(s, step, c)
  {
    InvAt(s, s.owner);
    PendingRuns(s, d);
    InvAt(s, d);
    var k := s.cores[d];
    if !k.h.Idle? {
      step := Irq(d);
    } else if k.ifl {
      step := Deliver(d);
    } else {
      step := Main(d);
      assert BeforeSti(k.pc);
    }
    hide Inv, Helps, Willing;
    if step.Main? {
      Drive(s, c, d);
    } else {
      DriveIrq(s, c, step);
    }
  }

  lemma PendingRuns(s: State, d: nat)
    requires Inv(s) && d in s.pending
    ensures d < |s.cores| && d in Counted(s) && d != s.owner && s.owner >= 0
    ensures Smp(s)
  {
    InvAt(s, s.owner);
  }

  // An acknowledgement that the lock holder misses and c does not await is that
  // of c itself, which is not deaf.
  lemma PendingWilling(s: State, c: nat, d: nat)
    requires Inv(s) && c < |s.cores| && Willing(s, c) && !s.cores[c].pc.Out?
    requires !Finished(s.cores[c].pc) && d in s.pending
    ensures !Deaf(s, d)
  {
    PendingRuns(s, d);
  }

  lemma HelpfulStep(s: State, c: nat) returns (step: Step)
    requires Inv(s) && c < |s.cores| && !s.cores[c].pc.Out? && Willing(s, c)
    ensures Helps(s, step, c)
  {
    hide Inv, Helps, Willing, FlagInv, AckInv, DoneInv, Apply, MainStep, IrqStep, Configured;
    InvAt(s, c);
    var waits := (s.cores[c].pc.AtXchg? || s.cores[c].pc.AtSpin?) && s.lock;
    var t := if waits then s.owner as nat else c;
    InvAt(s, t);
    if !s.cores[t].h.Idle? {
      step := Irq(t);
      DriveIrq(s, c, step);
    } else if (s.cores[t].pc.AtWait? || s.cores[t].pc.AtCheck?) && s.pending != {} {
      var d :| d in s.pending;
      PendingWilling(s, c, d);
      step := DriveAck(s, c, d);
    } else {
      step := Main(t);
      Drive(s, c, t);
    }
  }

  ghost predicate Leads(s: State, steps: seq<Step>, s': State)
    decreases |steps|
  {
    if steps == [] then s' == s
    else Enabled(s, steps[0]) && Leads(Apply(s, steps[0]), steps[1..], s')
  }

  // Steps of the protocol alone, without the timeout, can bring the call on c
  // to its return.
  ghost predicate CanReturn(s: State, c: nat) {
    exists steps, s' :: Leads(s, steps, s') && (forall i :: 0 <= i < |steps| ==> Protocol(steps[i])) &&
      c < |s'.cores| && s'.cores[c].pc.Out?
  }

  // They can when no awaited CPU is deaf; a CPU that is itself inside
  // tlb_shootdown never is.
  lemma {:induction false} WillingReturns(s: State, c: nat)
    requires Inv(s) && c < |s.cores| && !s.cores[c].pc.Out? && Willing(s, c)
    ensures CanReturn(s, c)
    decreases Measure(s)
  {
    hide Inv, Willing, Apply, Enabled, Measure;
    var step := HelpfulStep(s, c);
    var next := Apply(s, step);
    StepKeeps(s, step);
    var steps, s' := [step], next;
    if !next.cores[c].pc.Out? {
      WillingReturns(next, c);
      var rest: seq<Step>, end: State :| Leads(next, rest, end) && (forall i :: 0 <= i < |rest| ==> Protocol(rest[i])) &&
        c < |end.cores| && end.cores[c].pc.Out?;
      steps, s' := [step] + rest, end;
      assert steps[1..] == rest;
    } else {
      assert steps[1..] == [];
      assert Leads(next, [], next);
    }
    assert Leads(s, steps, s');
  }

  // Step gives core d a reason to listen.
  predicate Wakes(step: Step, d: nat) {
    step == SetIf(d, true) || (step.Call? && step.c == d)
  }

  // While an awaited CPU stays outside with interrupts off, no continuation
  // without the timeout lets the call return, whatever else the cores do.
  lemma {:induction false} DeafBlocks(s: State, steps: seq<Step>, s': State, c: nat, d: nat)
    requires Inv(s) && c < |s.cores| && !s.cores[c].pc.Out? && d in Awaited(s, c) && Deaf(s, d)
    requires Leads(s, steps, s') && NoTimeout(steps) && forall i :: 0 <= i < |steps| ==> !Wakes(steps[i], d)
    ensures c < |s'.cores| && !s'.cores[c].pc.Out? && d in Awaited(s', c) && Deaf(s', d)
    decreases |steps|
  {
    if steps != [] {
      var step, next := steps[0], Apply(s, steps[0]);
      assert !step.Timeout? && !Wakes(step, d);
      DeafStays(s, step, d);
      hide Inv, Apply, Enabled, Awaited;
      AwaitedStep(s, step, c, d);
      StepKeeps(s, step);
      forall i | 0 <= i < |steps[1..]| ensures !steps[1..][i].Timeout? && !Wakes(steps[1..][i], d) {
        assert steps[1..][i] == steps[i + 1];
      }
      DeafBlocks(next, steps[1..], s', c, d);
    }
  }

  lemma DeafStays(s: State, step: Step, d: nat)
    requires Enabled(s, step) && Deaf(s, d) && !Wakes(step, d)
    ensures Deaf(Apply(s, step), d) && step != Irq(d)
  {
    if !step.PageChange? && step.c != d {
      StepElsewhere(s, step);
      hide Apply, Enabled;
    }
  }

  // So a call in progress in a state a run without a timeout can reach can
  // return exactly when no CPU it awaits is deaf.
  lemma ReturnsExactly(states: seq<State>, steps: seq<Step>, c: nat)
    requires Run(states, steps) && NoTimeout(steps)
    requires c < |states[|steps|].cores| && !states[|steps|].cores[c].pc.Out?
    ensures CanReturn(states[|steps|], c) <==> Willing(states[|steps|], c)
  {
    hide Inv, Awaited, Deaf, Leads, Init, Enabled, Apply;
    var s := states[|steps|];
    RunInv(states, steps, |steps|);
    if Willing(s, c) {
      WillingReturns(s, c);
    } else if CanReturn(s, c) {
      var d :| d in Awaited(s, c) && Deaf(s, d);
      var more: seq<Step>, s': State :| Leads(s, more, s') && (forall i :: 0 <= i < |more| ==> Protocol(more[i])) &&
        c < |s'.cores| && s'.cores[c].pc.Out?;
      forall i | 0 <= i < |more| ensures !more[i].Timeout? && !Wakes(more[i], d) {
        assert Protocol(more[i]);
      }
      DeafBlocks(s, more, s', c, d);
    }
  }

  // ---- When the mask loop misses a running CPU ----

  lemma Extend(states: seq<State>, steps: seq<Step>, step: Step) returns (states': seq<State>, steps': seq<Step>)
    requires Run(states, steps) && Enabled(states[|steps|], step)
    ensures Run(states', steps') && steps' == steps + [step]
    ensures states' == states + [Apply(states[|steps|], step)]
  {
    states', steps' := states + [Apply(states[|steps|], step)], steps + [step];
  }

  // Code outside the protocol enables interrupts on the first n cores.
  lemma {:induction false} AllListen(s: State, n: nat) returns (states: seq<State>, steps: seq<Step>)
    requires Init(s) && n <= |s.cores|
    ensures Run(states, steps) && NoTimeout(steps) && states[0] == s && Init(states[|steps|])
    ensures var t := states[|steps|];
            t.running == s.running && t.cpuCount == s.cpuCount && t.lapic == s.lapic && |t.cores| == |s.cores| &&
            forall i :: 0 <= i < n ==> t.cores[i].ifl
  {
    if n == 0 {
      states, steps := [s], [];
    } else {
      states, steps := AllListen(s, n - 1);
      states, steps := Extend(states, steps, SetIf(n - 1, true));
    }
  }

  // CPU d caches v, the page table changes, and CPU 0 calls tlb_shootdown(v).
  lemma Opening(before: seq<State>, done: seq<Step>, d: nat, v: int) returns (states: seq<State>, steps: seq<Step>)
    requires Run(before, done) && NoTimeout(done) && Init(before[|done|]) && d in before[|done|].running && d != 0
    ensures Run(states, steps) && |steps| == |done| + 3 && states[0] == before[0] && steps[|done| + 2] == Call(0, v)
    ensures NoTimeout(steps) && During(states, 0, |done| + 2, |steps|)
    ensures var t, s := before[|done|], states[|steps|];
            && Alone(s, d) && Free(s) && s.cpuCount == t.cpuCount && s.lapic == t.lapic && |s.cores| == |t.cores|
            && !Fresh(s.cores[d].tlb, v, Version(states[|done| + 2].pt, v))
            && forall i :: 0 <= i < |s.cores| ==> s.cores[i].ifl == t.cores[i].ifl
  {
    states, steps := Extend(before, done, Refill(d, v));
    states, steps := Extend(states, steps, PageChange(v));
    states, steps := Extend(states, steps, Call(0, v));
    var s := states[|steps|];
    assert s.cores[0].pc.AtInvlpg?;
  }

  // CPU 0 is the only one inside tlb_shootdown; d is another CPU.
  ghost predicate Alone(s: State, d: nat) {
    && 0 < d < |s.cores| && !s.cores[0].pc.Out?
    && forall i :: 0 < i < |s.cores| ==> s.cores[i].pc.Out?
  }

  lemma AloneOwner(s: State, d: nat)
    requires Inv(s) && Alone(s, d)
    ensures s.owner <= 0
  {
    InvAt(s, 0);
  }

  // A helpful step is then one of CPU 0 or of a CPU that has been asked.
  lemma AloneHelps(s: State, step: Step, d: nat)
    requires Inv(s) && Alone(s, d) && d !in Counted(s) && Helps(s, step, 0)
    ensures Apply(s, step).cores[d].tlb == s.cores[d].tlb && !step.Timeout?
    ensures !Apply(s, step).cores[0].pc.Out? ==> Alone(Apply(s, step), d)
  {
    hide Inv, Apply, MainStep, Measure, CountedIn, Willing;
    AloneOwner(s, d);
    if step.c in s.pending { PendingRuns(s, step.c); }
    StepElsewhere(s, step);
    if !step.Main? { HandlerStep(s, step); }
  }

  // The call then returns without a timeout and without disturbing d.
  lemma {:induction false} AloneReturns(states: seq<State>, steps: seq<Step>, i: nat, d: nat, v: int)
    returns (states': seq<State>, steps': seq<Step>)
    requires Run(states, steps) && NoTimeout(steps)
    requires i < |steps| && steps[i] == Call(0, v) && During(states, 0, i, |steps|)
    requires var s := states[|steps|]; Alone(s, d) && Willing(s, 0) && d !in Counted(s)
    ensures Run(states', steps') && NoTimeout(steps') && |steps'| > |steps| && states'[..|states|] == states
    ensures Returns(states', steps', i, |steps'| - 1, 0, v)
    ensures |states'[|steps'|].cores| == |states[|steps|].cores|
    ensures states'[|steps'|].cores[d].tlb == states[|steps|].cores[d].tlb
    decreases Measure(states[|steps|])
  {
    hide Init, Enabled, Apply, Measure, Inv, Willing, Alone, CountedIn;
    var s := states[|steps|];
    assert 0 < |s.cores| && !s.cores[0].pc.Out? && d < |s.cores| by { AloneIs(s, d); }
    RunInv(states, steps, |steps|);
    var step := HelpfulStep(s, 0);
    AloneHelps(s, step, d);
    StepKeepsAt(s, step, 0, 0);
    states', steps' := Extend(states, steps, step);
    if !states'[|steps'|].cores[0].pc.Out? {
      states', steps' := AloneReturns(states', steps', i, d, v);
    }
  }

  lemma AloneIs(s: State, d: nat)
    requires Alone(s, d)
    ensures 0 < d < |s.cores| && !s.cores[0].pc.Out?
  {}

  // From every boot with a running CPU d that is not counted, a run without a
  // timeout in which CPU 0 shoots down a page and returns while d still caches
  // the old entry.
  lemma UncountedStale(s: State, d: nat, v: int) returns (states: seq<State>, steps: seq<Step>, i: nat, j: nat)
    requires Init(s) && d in s.running && d >= s.cpuCount
    ensures Run(states, steps) && NoTimeout(steps) && states[0] == s && Returns(states, steps, i, j, 0, v)
    ensures |states[j + 1].cores| == |s.cores| && d < |s.cores|
    ensures !Fresh(states[j + 1].cores[d].tlb, v, Version(states[i].pt, v))
  {
    states, steps := AllListen(s, |s.cores|);
    i := |steps| + 2;
    states, steps := Opening(states, steps, d, v);
    var called := states;
    assert Willing(states[|steps|], 0) && d !in Counted(states[|steps|]);
    hide Init, Enabled, Apply, Alone, Willing, Fresh, CountedIn;
    states, steps := AloneReturns(states, steps, i, d, v);
    j := |steps| - 1;
    assert states[i] == states[..|called|][i] && states[0] == states[..|called|][0];
  }

  // Every run without a timeout from a boot is coherent for all running CPUs
  // exactly when all their numbers are below cpu_count.
  lemma CoherentExactly(s: State)
    requires Init(s)
    ensures (forall states, steps :: Run(states, steps) && states[0] == s && NoTimeout(steps) ==>
               Coherent(states, steps)) <==>
            (forall d :: d in s.running ==> d < s.cpuCount)
  {
    if forall d :: d in s.running ==> d < s.cpuCount {
      hide Run, NoTimeout, Coherent;
      forall states, steps | Run(states, steps) && states[0] == s && NoTimeout(steps)
        ensures Coherent(states, steps)
      {
        CoherenceEverywhere(states, steps);
      }
    } else {
      var d :| d in s.running && d >= s.cpuCount;
      var states, steps, i, j := UncountedStale(s, d, 0);
      hide Init, NoTimeout, Returns, Fresh;
      ConfigurationFixed(states, steps, j + 1);
      assert !NoneStale(states[j + 1], 0, Version(states[i].pt, 0));
      assert !Coherent(states, steps);
    }
  }

  // ---- How the timeout loses coherence ----

  // CPU 0 goes on by itself, giving up on acknowledgements where it must.
  ghost predicate GoesOn(s: State, s': State, d: nat) {
    && 0 < d < |s.cores| == |s'.cores| && s'.cores[d].tlb == s.cores[d].tlb
    && MainCost(s'.cores[0].pc) < MainCost(s.cores[0].pc)
    && (!s'.cores[0].pc.Out? ==> Alone(s', d) && Free(s'))
  }

  // CPU 0 runs no interrupt handler and, where it has yet to take the lock, finds
  // it free.
  predicate Free(s: State) {
    |s.cores| > 0 && s.cores[0].h.Idle? &&
    (BeforeSti(s.cores[0].pc) || s.cores[0].pc.AtXchg? || s.cores[0].pc.AtSpin? ==> !s.lock)
  }

  lemma AloneStep(s: State, d: nat) returns (step: Step)
    requires Alone(s, d) && Free(s)
    ensures Enabled(s, step) && GoesOn(s, Apply(s, step), d)
  {
    if s.pending != {} && s.cores[0].pc.AtWait? {
      step := SpinOut(0);
    } else if s.pending != {} && s.cores[0].pc.AtCheck? {
      step := Timeout(0);
    } else {
      step := Main(0);
      hide CountedIn;
      AloneMain(s, d);
    }
  }

  lemma AloneMain(s: State, d: nat)
    requires Alone(s, d) && Free(s) && Enabled(s, Main(0)) && !Spins(s, 0)
    ensures GoesOn(s, MainStep(s, 0), d)
  {
    hide CountedIn, Smp;
    if !s.cores[0].pc.AtSend? {
      MainMoves(s, 0);
      hide MainStep;
    }
  }

  lemma {:induction false} AloneFinish(states: seq<State>, steps: seq<Step>, i: nat, d: nat, v: int)
    returns (states': seq<State>, steps': seq<Step>)
    requires Run(states, steps) && i < |steps| && steps[i] == Call(0, v) && During(states, 0, i, |steps|)
    requires Alone(states[|steps|], d) && Free(states[|steps|])
    ensures Run(states', steps') && |steps'| > |steps| && states'[..|states|] == states
    ensures Returns(states', steps', i, |steps'| - 1, 0, v)
    ensures |states'[|steps'|].cores| == |states[|steps|].cores|
    ensures states'[|steps'|].cores[d].tlb == states[|steps|].cores[d].tlb
    decreases MainCost(states[|steps|].cores[0].pc)
  {
    hide Init, Enabled, Apply, MainCost, Alone, Free;
    var step := AloneStep(states[|steps|], d);
    states', steps' := Extend(states, steps, step);
    if !states'[|steps'|].cores[0].pc.Out? {
      states', steps' := AloneFinish(states', steps', i, d, v);
    }
  }

  // From every boot with a second running CPU d, counted or not, a run in which
  // CPU 0 shoots down a page and returns while d still caches the old entry.
  // So without the timeout taken out, no boot with two CPUs is coherent.
  lemma TimeoutStale(s: State, d: nat, v: int) returns (states: seq<State>, steps: seq<Step>, i: nat, j: nat)
    requires Init(s) && d in s.running && d != 0
    ensures Run(states, steps) && states[0] == s && Returns(states, steps, i, j, 0, v)
    ensures |states[j + 1].cores| == |s.cores| && d < |s.cores|
    ensures !Fresh(states[j + 1].cores[d].tlb, v, Version(states[i].pt, v))
  {
    i := 2;
    assert Run([s], []);
    states, steps := Opening([s], [], d, v);
    hide Init, Enabled, Apply, Alone, Fresh;
    var called := states;
    states, steps := AloneFinish(states, steps, i, d, v);
    j := |steps| - 1;
    assert states[i] == states[..|called|][i] && states[0] == states[..|called|][0];
  }
}
