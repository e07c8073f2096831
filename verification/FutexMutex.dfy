// The futex mutex and the counter it protects (user/threads.c:28-70).
module FutexMutex {
  // One step per access to a shared word; futex_wait and futex_wake are as
  // specified at kernel/core/kernel.h:148-151.

  // AtWait: the exchange returned 1 and futex_wait is next.  AtWake: the lock
  // word is already 0 and futex_wake is next.
  datatype Pc = AtXchg | AtWait | Asleep | AtRead | AtWrite(read: int) | AtStore | AtWake | Exited

  // rounds counts the finished lock/unlock pairs: the first iters increment
  // the counter, one more increments done.
  datatype Worker = Worker(pc: Pc, rounds: nat)

  datatype State = State(lock: int, counter: int, done: int, ws: seq<Worker>, iters: nat)

  // Spurious: futex_wait may return early.  Wake(i, j): worker i wakes j, or
  // nobody (j == i) if nobody sleeps.
  datatype Step = Run(i: nat) | Wake(i: nat, j: nat) | Spurious(i: nat)

  // A 32-bit signed int.
  function Wrap(x: int): int {
    (x + 0x8000_0000) % 0x1_0000_0000 - 0x8000_0000
  }

  function Wanted(s: State, i: nat): int
    requires i < |s.ws|
  {
    if s.ws[i].rounds < s.iters then s.counter else s.done
  }

  predicate Enabled(s: State, t: Step) {
    match t
    case Run(i) => i < |s.ws| && !s.ws[i].pc.Asleep? && !s.ws[i].pc.AtWake? && !s.ws[i].pc.Exited?
    case Wake(i, j) =>
      && i < |s.ws| && j < |s.ws| && s.ws[i].pc.AtWake?
      && (s.ws[j].pc.Asleep? || (j == i && forall k :: 0 <= k < |s.ws| ==> !s.ws[k].pc.Asleep?))
    case Spurious(i) => i < |s.ws| && s.ws[i].pc.Asleep?
  }

  function At(s: State, i: nat, pc: Pc): State
    requires i < |s.ws|
  {
    s.(ws := s.ws[i := s.ws[i].(pc := pc)])
  }

  // The next round, or the exit after the last.
  function Advance(w: Worker, iters: nat): Worker {
    Worker(if w.rounds >= iters then Exited else AtXchg, w.rounds + 1)
  }

  function Apply(s: State, t: Step): State
    requires Enabled(s, t)
  {
    match t
    case Run(i) =>
      (match s.ws[i].pc
       case AtXchg => At(s, i, if s.lock == 0 then AtRead else AtWait).(lock := 1)
       case AtWait => At(s, i, if s.lock == 1 then Asleep else AtXchg)
       case AtRead => At(s, i, AtWrite(Wanted(s, i)))
       case AtWrite(read) =>
         var s' := At(s, i, AtStore);
         if s.ws[i].rounds < s.iters then s'.(counter := Wrap(read + 1)) else s'.(done := Wrap(read + 1))
       case AtStore => At(s, i, AtWake).(lock := 0)
       case _ => s)
    case Wake(i, j) =>
      var ws := s.ws[i := Advance(s.ws[i], s.iters)];
      s.(ws := if i == j then ws else ws[j := ws[j].(pc := AtXchg)])
    case Spurious(i) => At(s, i, AtXchg)
  }

  ghost predicate Init(s: State) {
    s.lock == 0 && s.counter == 0 && s.done == 0 && forall i :: 0 <= i < |s.ws| ==> s.ws[i] == Worker(AtXchg, 0)
  }

  ghost predicate IsRun(states: seq<State>, steps: seq<Step>) {
    && |states| == |steps| + 1 && Init(states[0])
    && forall k :: 0 <= k < |steps| ==> Enabled(states[k], steps[k]) && states[k + 1] == Apply(states[k], steps[k])
  }

  // ---- Sums over the workers ----

  ghost function Sum(ws: seq<Worker>, f: Worker -> int): int {
    if ws == [] then 0 else f(ws[0]) + Sum(ws[1..], f)
  }

  lemma {:induction false} SumUpdate(ws: seq<Worker>, f: Worker -> int, i: nat, w: Worker)
    requires i < |ws|
    ensures Sum(ws[i := w], f) == Sum(ws, f) - f(ws[i]) + f(w)
  {
    if i == 0 {
      assert ws[i := w][1..] == ws[1..];
    } else {
      assert ws[i := w][1..] == ws[1..][i - 1 := w];
      SumUpdate(ws[1..], f, i - 1, w);
    }
  }

  lemma {:induction false} SumConstant(ws: seq<Worker>, f: Worker -> int, c: int)
    requires forall i :: 0 <= i < |ws| ==> f(ws[i]) == c
    ensures Sum(ws, f) == |ws| * c
  {
    if ws != [] {
      SumConstant(ws[1..], f, c);
      assert |ws| * c == c + (|ws| - 1) * c;
    }
  }

  // ---- The invariant ----

  predicate InSection(pc: Pc) {
    pc.AtRead? || pc.AtWrite? || pc.AtStore?
  }

  predicate Written(pc: Pc) {
    pc.AtStore? || pc.AtWake?
  }

  // Increments of the counter, and of done, a worker has made.
  function Credit(iters: nat): Worker -> int {
    (w: Worker) => if w.rounds < iters then w.rounds + (if Written(w.pc) then 1 else 0) else iters
  }

  function DoneCredit(iters: nat): Worker -> int {
    (w: Worker) => if w.rounds > iters || (w.rounds == iters && Written(w.pc)) then 1 else 0
  }

  // The lock word is 1 exactly while one worker is inside.
  ghost predicate Exclusive(s: State) {
    && (s.lock == 0 || s.lock == 1)
    && (s.lock == 1 <==> exists i :: 0 <= i < |s.ws| && InSection(s.ws[i].pc))
    && forall i, j :: 0 <= i < |s.ws| && 0 <= j < |s.ws| && InSection(s.ws[i].pc) && InSection(s.ws[j].pc) ==> i == j
  }

  ghost predicate Tallied(s: State) {
    && s.counter == Wrap(Sum(s.ws, Credit(s.iters)))
    && s.done == Wrap(Sum(s.ws, DoneCredit(s.iters)))
    && (forall i :: 0 <= i < |s.ws| ==> s.ws[i].rounds <= s.iters + 1 && (s.ws[i].pc.Exited? <==> s.ws[i].rounds == s.iters + 1))
    && forall i :: 0 <= i < |s.ws| && s.ws[i].pc.AtWrite? ==> s.ws[i].pc.read == Wanted(s, i)
  }

  // A worker that will take the lock or let a sleeper do so.
  predicate Stirring(pc: Pc) {
    InSection(pc) || pc.AtXchg? || pc.AtWait? || pc.AtWake?
  }

  // No wake-up is lost.
  ghost predicate NotLost(s: State) {
    (exists i :: 0 <= i < |s.ws| && s.ws[i].pc.Asleep?) ==>
      s.lock == 1 || exists j :: 0 <= j < |s.ws| && (s.ws[j].pc.AtXchg? || s.ws[j].pc.AtWait? || s.ws[j].pc.AtWake?)
  }

  ghost predicate Inv(s: State) {
    Exclusive(s) && Tallied(s) && NotLost(s)
  }

  lemma InitInv(s: State)
    requires Init(s)
    ensures Inv(s)
  {
    SumConstant(s.ws, Credit(s.iters), 0);
    SumConstant(s.ws, DoneCredit(s.iters), 0);
  }

  lemma ExclusiveKeeps(s: State, t: Step)
    requires Exclusive(s) && Enabled(s, t)
    ensures Exclusive(Apply(s, t))
  {
    var s' := Apply(s, t);
    assert |s'.ws| == |s.ws|;
    if s.lock == 1 {
      var o :| 0 <= o < |s.ws| && InSection(s.ws[o].pc);
      assert s'.lock == 1 ==> InSection(s'.ws[o].pc);
    } else if s'.lock == 1 {
      assert InSection(s'.ws[t.i].pc);
    }
  }

  lemma WrapNext(x: int)
    ensures Wrap(Wrap(x) + 1) == Wrap(x + 1)
  {}

  lemma TalliedRun(s: State, i: nat)
    requires Exclusive(s) && Tallied(s) && Enabled(s, Run(i))
    ensures Tallied(Apply(s, Run(i)))
  {
    hide Wrap, Sum;
    var s' := Apply(s, Run(i));
    var w, w' := s.ws[i], s'.ws[i];
    assert s'.ws == s.ws[i := w'];
    SumUpdate(s.ws, Credit(s.iters), i, w');
    SumUpdate(s.ws, DoneCredit(s.iters), i, w');
    WrapNext(Sum(s.ws, Credit(s.iters)));
    WrapNext(Sum(s.ws, DoneCredit(s.iters)));
  }

  lemma TalliedWake(s: State, i: nat, j: nat)
    requires Tallied(s) && Enabled(s, Wake(i, j))
    ensures Tallied(Apply(s, Wake(i, j)))
  {
    hide Wrap, Sum;
    var ws := s.ws[i := Advance(s.ws[i], s.iters)];
    SumUpdate(s.ws, Credit(s.iters), i, ws[i]);
    SumUpdate(s.ws, DoneCredit(s.iters), i, ws[i]);
    var w := ws[j].(pc := AtXchg);
    SumUpdate(ws, Credit(s.iters), j, w);
    SumUpdate(ws, DoneCredit(s.iters), j, w);
  }

  lemma TalliedSpurious(s: State, i: nat)
    requires Tallied(s) && Enabled(s, Spurious(i))
    ensures Tallied(Apply(s, Spurious(i)))
  {
    hide Wrap, Sum;
    var w := s.ws[i].(pc := AtXchg);
    SumUpdate(s.ws, Credit(s.iters), i, w);
    SumUpdate(s.ws, DoneCredit(s.iters), i, w);
  }

  lemma NotLostKeeps(s: State, t: Step)
    requires Exclusive(s) && NotLost(s) && Enabled(s, t)
    ensures NotLost(Apply(s, t))
  {
    var s' := Apply(s, t);
    assert |s'.ws| == |s.ws|;
    if s.lock == 0 && exists i :: 0 <= i < |s.ws| && s.ws[i].pc.Asleep? {
      var j :| 0 <= j < |s.ws| && (s.ws[j].pc.AtXchg? || s.ws[j].pc.AtWait? || s.ws[j].pc.AtWake?);
      assert s'.ws[j].pc == s.ws[j].pc || j == t.i;
    }
    assert t.Wake? && t.i != t.j ==> s'.ws[t.j].pc.AtXchg?;
    assert s'.ws[t.i].pc == s'.ws[t.i].pc;
  }

  lemma StepInv(s: State, t: Step)
    requires Inv(s) && Enabled(s, t)
    ensures Inv(Apply(s, t))
  {
    ExclusiveKeeps(s, t);
    NotLostKeeps(s, t);
    match t {
      case Run(i) => TalliedRun(s, i);
      case Wake(i, j) => TalliedWake(s, i, j);
      case Spurious(i) => TalliedSpurious(s, i);
    }
  }

  lemma {:induction false} RunInv(states: seq<State>, steps: seq<Step>, k: nat)
    requires IsRun(states, steps) && k < |states|
    ensures Inv(states[k]) && |states[k].ws| == |states[0].ws| && states[k].iters == states[0].iters
  {
    hide Inv;
    if k == 0 {
      InitInv(states[0]);
    } else {
      RunInv(states, steps, k - 1);
      assert states[k - 1 + 1] == Apply(states[k - 1], steps[k - 1]);
      StepInv(states[k - 1], steps[k - 1]);
    }
  }

  // At most one worker is inside the lock.
  lemma MutualExclusion(states: seq<State>, steps: seq<Step>, k: nat, i: nat, j: nat)
    requires IsRun(states, steps) && k < |states| && i < |states[k].ws| && j < |states[k].ws|
    requires InSection(states[k].ws[i].pc) && InSection(states[k].ws[j].pc)
    ensures i == j && states[k].lock == 1
  {
    RunInv(states, steps, k);
  }

  // While a worker sleeps the lock is held, or an awake worker is acquiring
  // it, or one is about to wake a sleeper.
  lemma NoLostWakeUp(states: seq<State>, steps: seq<Step>, k: nat, i: nat) returns (j: nat)
    requires IsRun(states, steps) && k < |states| && i < |states[k].ws| && states[k].ws[i].pc.Asleep?
    ensures j < |states[k].ws| && Stirring(states[k].ws[j].pc)
  {
    RunInv(states, steps, k);
    var s := states[k];
    j :| 0 <= j < |s.ws| && Stirring(s.ws[j].pc);
  }

  // ---- All workers finish ----

  ghost predicate AllExited(s: State) {
    forall i :: 0 <= i < |s.ws| ==> s.ws[i].pc.Exited?
  }

  lemma Awake(s: State) returns (i: nat)
    requires Inv(s) && !AllExited(s)
    ensures i < |s.ws| && Stirring(s.ws[i].pc)
  {
    i :| 0 <= i < |s.ws| && !s.ws[i].pc.Exited?;
    if s.ws[i].pc.Asleep? {
      var j :| 0 <= j < |s.ws| && Stirring(s.ws[j].pc);
      i := j;
    }
  }

  // Until all are done some worker can step without a spurious wake-up.
  lemma SomeStep(s: State) returns (t: Step)
    requires Inv(s) && !AllExited(s)
    ensures Enabled(s, t) && !t.Spurious?
  {
    var i := Awake(s);
    hide Inv;
    if s.ws[i].pc.AtWake? {
      if j :| 0 <= j < |s.ws| && s.ws[j].pc.Asleep? {
        t := Wake(i, j);
      } else {
        t := Wake(i, i);
      }
    } else {
      t := Run(i);
    }
  }

  // The final values: every increment counted once.
  lemma FinalValues(states: seq<State>, steps: seq<Step>)
    requires IsRun(states, steps) && AllExited(states[|steps|])
    ensures var s := states[|steps|];
            && -0x8000_0000 <= s.counter < 0x8000_0000 && (s.counter - |s.ws| * s.iters) % 0x1_0000_0000 == 0
            && (|s.ws| * s.iters < 0x8000_0000 ==> s.counter == |s.ws| * s.iters)
            && -0x8000_0000 <= s.done < 0x8000_0000 && (s.done - |s.ws|) % 0x1_0000_0000 == 0
            && (|s.ws| < 0x8000_0000 ==> s.done == |s.ws|)
            && s.lock == 0 && |s.ws| == |states[0].ws| && s.iters == states[0].iters
  {
    RunInv(states, steps, |steps|);
    var s := states[|steps|];
    SumConstant(s.ws, Credit(s.iters), s.iters);
    SumConstant(s.ws, DoneCredit(s.iters), 1);
    hide Wrap;
    Positive(|s.ws|, s.iters);
    WrapIs(|s.ws| * s.iters);
    WrapIs(|s.ws|);
  }

  lemma WrapIs(x: int)
    ensures -0x8000_0000 <= Wrap(x) < 0x8000_0000 && (Wrap(x) - x) % 0x1_0000_0000 == 0
    ensures 0 <= x < 0x8000_0000 ==> Wrap(x) == x
  {}

  lemma Positive(x: nat, y: nat)
    ensures x * y >= 0
  {}

  // A bound on the steps a worker still takes, given how many workers may be
  // made to retry by each release.
  function Round(n: nat): nat {
    2 * n + 11
  }

  function Position(pc: Pc, lock: int, n: nat): int {
    match pc
    case Exited => 0
    case AtXchg => 3
    case AtWait => if lock == 1 then 2 else 4
    case Asleep => 0
    case AtRead => -1
    case AtWrite(_) => -2
    case AtStore => -3
    case AtWake => -4 - 2 * n
  }

  function Cost(n: nat, iters: nat, lock: int): Worker -> int {
    (w: Worker) => (iters + 1 - w.rounds) * Round(n) + Position(w.pc, lock, n)
  }

  ghost function Potential(s: State): int {
    Sum(s.ws, Cost(|s.ws|, s.iters, s.lock))
  }

  // Changing the lock word changes only what waiting workers still have to do.
  lemma {:induction false} SumLock(ws: seq<Worker>, n: nat, iters: nat, from: int, to: int)
    requires from == 0 || from == 1
    requires to == 0 || to == 1
    ensures Sum(ws, Cost(n, iters, to)) <= Sum(ws, Cost(n, iters, from)) + if from == 1 && to == 0 then 2 * |ws| else 0
  {
    if ws != [] { SumLock(ws[1..], n, iters, from, to); }
  }

  lemma {:induction false} SumNonNegative(ws: seq<Worker>, n: nat, iters: nat, lock: int)
    requires forall i :: 0 <= i < |ws| ==> ws[i].rounds <= iters + 1 && (ws[i].pc.Exited? <==> ws[i].rounds == iters + 1)
    ensures Sum(ws, Cost(n, iters, lock)) >= 0
  {
    if ws != [] {
      CostNonNegative(ws[0], n, iters, lock);
      hide Cost, Round;
      SumNonNegative(ws[1..], n, iters, lock);
    }
  }

  lemma CostNonNegative(w: Worker, n: nat, iters: nat, lock: int)
    requires w.rounds <= iters + 1 && (w.pc.Exited? <==> w.rounds == iters + 1)
    ensures Cost(n, iters, lock)(w) >= 0
  {
    if w.rounds <= iters {
      AtLeast(iters + 1 - w.rounds, Round(n));
      var product := (iters + 1 - w.rounds) * Round(n);
      assert product >= 2 * n + 11;
    }
  }

  lemma AtLeast(k: nat, m: nat)
    requires k >= 1
    ensures k * m >= m
  {}

  lemma RunLowers(s: State, i: nat)
    requires Inv(s) && Enabled(s, Run(i))
    ensures Potential(Apply(s, Run(i))) < Potential(s)
  {
    hide Sum, Round, Tallied;
    var s' := Apply(s, Run(i));
    var n, w' := |s.ws|, s'.ws[i];
    assert s'.ws == s.ws[i := w'];
    SumUpdate(s.ws, Cost(n, s.iters, s'.lock), i, w');
    SumLock(s.ws, n, s.iters, s.lock, s'.lock);
    assert (s.iters + 1 - w'.rounds) * Round(n) == (s.iters + 1 - s.ws[i].rounds) * Round(n);
  }

  lemma WakeLowers(s: State, i: nat, j: nat)
    requires Inv(s) && Enabled(s, Wake(i, j))
    ensures Potential(Apply(s, Wake(i, j))) < Potential(s)
  {
    hide Sum, Inv;
    var n := |s.ws|;
    var f := Cost(n, s.iters, s.lock);
    var ws := s.ws[i := Advance(s.ws[i], s.iters)];
    SumUpdate(s.ws, f, i, ws[i]);
    SumUpdate(ws, f, j, ws[j].(pc := AtXchg));
    OneLess(s.iters + 1 - s.ws[i].rounds, Round(n));
  }

  lemma OneLess(k: int, m: int)
    ensures (k - 1) * m == k * m - m
  {}

  lemma SpuriousRaises(s: State, i: nat)
    requires Enabled(s, Spurious(i))
    ensures Potential(Apply(s, Spurious(i))) == Potential(s) + 3
  {
    hide Sum;
    SumUpdate(s.ws, Cost(|s.ws|, s.iters, s.lock), i, s.ws[i].(pc := AtXchg));
  }

  function SpuriousCount(steps: seq<Step>): nat {
    if steps == [] then 0
    else SpuriousCount(steps[..|steps| - 1]) + if steps[|steps| - 1].Spurious? then 1 else 0
  }

  lemma {:induction false} PotentialBound(states: seq<State>, steps: seq<Step>, k: nat)
    requires IsRun(states, steps) && k < |states|
    ensures Potential(states[k]) + k <= Potential(states[0]) + 4 * SpuriousCount(steps[..k])
  {
    hide Potential, Inv, Apply, Enabled, Init;
    if k > 0 {
      PotentialBound(states, steps, k - 1);
      RunInv(states, steps, k - 1);
      assert steps[..k][..k - 1] == steps[..k - 1];
      assert states[k - 1 + 1] == Apply(states[k - 1], steps[k - 1]);
      match steps[k - 1] {
        case Run(i) => RunLowers(states[k - 1], i);
        case Wake(i, j) => WakeLowers(states[k - 1], i, j);
        case Spurious(i) => SpuriousRaises(states[k - 1], i);
      }
    }
  }

  // Every run is finite: with n workers and c spurious wake-ups it has at most
  // n * ((iters + 1) * (2n + 11) + 3) + 4c steps.  With SomeStep, a run goes
  // on until all workers have finished.
  lemma RunsEnd(states: seq<State>, steps: seq<Step>)
    requires IsRun(states, steps)
    ensures var n := |states[0].ws|;
            |steps| <= n * ((states[0].iters + 1) * (2 * n + 11) + 3) + 4 * SpuriousCount(steps)
  {
    hide Potential, Inv, Apply, Enabled;
    assert Round(|states[0].ws|) == 2 * |states[0].ws| + 11;
    var s, t := states[0], states[|steps|];
    PotentialBound(states, steps, |steps|);
    assert steps[..|steps|] == steps;
    RunInv(states, steps, |steps|);
    InitPotential(s);
    NonNegative(t);
  }

  lemma InitPotential(s: State)
    requires Init(s)
    ensures Potential(s) == |s.ws| * ((s.iters + 1) * Round(|s.ws|) + 3)
  {
    hide Sum, Round;
    SumConstant(s.ws, Cost(|s.ws|, s.iters, s.lock), (s.iters + 1) * Round(|s.ws|) + 3);
  }

  lemma NonNegative(s: State)
    requires Inv(s)
    ensures Potential(s) >= 0
  {
    SumNonNegative(s.ws, |s.ws|, s.iters, s.lock);
  }
}
