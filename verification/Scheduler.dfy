// The per-CPU round-robin scheduler of the application processors.
module Scheduler {
  // kernel/core/smp.c:151-224; sched_target and sched_forget are at
  // kernel/proc/process.c:853-902.

  import ModArith

  // A process_t, named by its position in tasks; the table names tasks, and a
  // task keeps its CPU for life.
  datatype Task = Task(run: bool, cpu: int, stack: nat, user: bool, managed: bool)

  datatype Option<T> = None | Some(value: T)

  // ticking: between the save at the start of a tick and its answer.
  datatype Cpu = Cpu(preempt: nat, cur: Option<nat>, idleRsp: nat, savedRsp: nat, nextRsp: nat, scan: nat, ticking: bool)

  // table is process_table[0..process_count], with holes.
  datatype Machine = Machine(tasks: seq<Task>, table: seq<Option<nat>>, cpus: seq<Cpu>)

  predicate Eligible(p: Task, cpu: int) {
    p.run && p.cpu == cpu && p.stack != 0 && (!p.user || p.managed)
  }

  predicate SlotEligible(m: Machine, c: nat, slot: nat)
    requires slot < |m.table|
  {
    m.table[slot].Some? && m.table[slot].value < |m.tasks| && Eligible(m.tasks[m.table[slot].value], c)
  }

  // The i-th slot after the cursor.
  function Slot(scan: nat, i: nat, n: nat): nat
    requires n > 0
  {
    (scan + i) % n
  }

  // The first i' >= i whose slot is eligible, or n + 1.
  function FirstFrom(m: Machine, c: nat, i: nat): (r: nat)
    requires c < |m.cpus| && 1 <= i <= |m.table| + 1
    ensures i <= r <= |m.table| + 1
    ensures r <= |m.table| ==> |m.table| > 0 && SlotEligible(m, c, Slot(m.cpus[c].scan, r, |m.table|))
    ensures forall k: nat :: i <= k < r ==> |m.table| > 0 && !SlotEligible(m, c, Slot(m.cpus[c].scan, k, |m.table|))
    decreases |m.table| + 1 - i
  {
    if i > |m.table| then |m.table| + 1
    else if SlotEligible(m, c, Slot(m.cpus[c].scan, i, |m.table|)) then i
    else FirstFrom(m, c, i + 1)
  }

  // ---- One tick: save where the core was, then answer where it goes ----

  function Saved(m: Machine, c: nat, rsp: nat): Machine
    requires c < |m.cpus|
  {
    var me := m.cpus[c].(savedRsp := rsp, ticking := true);
    match me.cur
    case Some(t) =>
      if t < |m.tasks| then m.(tasks := m.tasks[t := m.tasks[t].(stack := rsp)], cpus := m.cpus[c := me]) else m
    case None => m.(cpus := m.cpus[c := me.(idleRsp := rsp)])
  }

  function Answered(m: Machine, c: nat): Machine
    requires c < |m.cpus|
  {
    var me := m.cpus[c].(ticking := false);
    if me.preempt > 0 then m.(cpus := m.cpus[c := me.(nextRsp := me.savedRsp)])
    else
      var i := FirstFrom(m, c, 1);
      if i <= |m.table| then
        var slot := Slot(me.scan, i, |m.table|);
        var t := m.table[slot].value;
        m.(cpus := m.cpus[c := me.(scan := slot, cur := Some(t), nextRsp := m.tasks[t].stack)])
      else m.(cpus := m.cpus[c := me.(cur := None, nextRsp := me.idleRsp)])
  }

  // ---- The interrupt handler ----

  class Kernel {
    const tasks: array<Task>
    var table: array<Option<nat>>
    var processCount: nat
    const cpus: array<Cpu>

    ghost predicate Valid()
      reads this, tasks, table, cpus
    {
      && processCount <= table.Length
      && (forall s :: 0 <= s < processCount && table[s].Some? ==> table[s].value < tasks.Length)
      && (forall c :: 0 <= c < cpus.Length && cpus[c].cur.Some? ==> cpus[c].cur.value < tasks.Length)
    }

    ghost function View(): Machine
      requires processCount <= table.Length
      reads this, tasks, table, cpus
    {
      Machine(tasks[..], table[..processCount], cpus[..])
    }

    constructor (tasks: array<Task>, table: array<Option<nat>>, processCount: nat, cpus: array<Cpu>)
      requires processCount <= table.Length
      requires forall s :: 0 <= s < processCount && table[s].Some? ==> table[s].value < tasks.Length
      requires forall c :: 0 <= c < cpus.Length && cpus[c].cur.Some? ==> cpus[c].cur.value < tasks.Length
      ensures Valid() && View() == Machine(tasks[..], table[..processCount], cpus[..])
    {
      this.tasks := tasks;
      this.table := table;
      this.processCount := processCount;
      this.cpus := cpus;
    }

    // The scan under sched_lock.
    method Scan(c: nat) returns (pick: Option<nat>)
      requires Valid() && c < cpus.Length
      modifies cpus
      ensures var i := FirstFrom(old(View()), c, 1);
              if i <= processCount then
                var slot := Slot(old(cpus[c]).scan, i, processCount);
                pick == old(table[slot]) && pick.Some? && pick.value < tasks.Length
                && cpus[..] == old(cpus[..])[c := old(cpus[c]).(scan := slot)]
              else pick == None && cpus[..] == old(cpus[..])
    {
      var me := cpus[c];
      var n := processCount;
      ghost var m := View();
      pick := None;
      var i := 1;
      while i <= n
        invariant 1 <= i <= n + 1 && FirstFrom(m, c, 1) == FirstFrom(m, c, i)
        invariant cpus[..] == old(cpus[..])
        decreases n + 1 - i
      {
        var idx := (me.scan + i) % n;
        assert m.table[idx] == table[idx];
        if table[idx].Some? && Eligible(tasks[table[idx].value], c) {
          pick := table[idx];
          cpus[c] := me.(scan := idx);
          return;
        }
        i := i + 1;
      }
    }

    // Remember where to resume the interrupted context.
    method Save(c: nat, rsp: nat)
      requires Valid() && c < cpus.Length
      modifies tasks, cpus
      ensures Valid() && View() == Saved(old(View()), c, rsp)
    {
      var me := cpus[c].(savedRsp := rsp, ticking := true);
      if me.cur.Some? {
        tasks[me.cur.value] := tasks[me.cur.value].(stack := rsp);
        cpus[c] := me;
      } else {
        cpus[c] := me.(idleRsp := rsp);
      }
    }

    method Answer(c: nat)
      requires Valid() && c < cpus.Length
      modifies cpus
      ensures Valid() && View() == Answered(old(View()), c)
    {
      hide FirstFrom;
      if cpus[c].preempt > 0 {
        cpus[c] := cpus[c].(nextRsp := cpus[c].savedRsp, ticking := false);
        return;
      }
      ghost var m := View();
      ghost var me := cpus[c];
      var pick := Scan(c);
      if pick.Some? {
        cpus[c] := cpus[c].(cur := pick, nextRsp := tasks[pick.value].stack, ticking := false);
      } else {
        cpus[c] := cpus[c].(cur := None, nextRsp := cpus[c].idleRsp, ticking := false);
      }
      ghost var i := FirstFrom(m, c, 1);
      if i <= processCount {
        assert m.table[Slot(me.scan, i, processCount)] == pick;
      }
      assert cpus[..] == m.cpus[c := cpus[c]];
      assert View() == m.(cpus := m.cpus[c := cpus[c]]);
    }

    method Tick(c: nat, rsp: nat)
      requires Valid() && c < cpus.Length
      modifies tasks, cpus
      ensures Valid() && View() == Answered(Saved(old(View()), c, rsp), c)
    {
      hide Saved, Answered, FirstFrom, Slot;
      Save(c, rsp);
      Answer(c);
    }
  }

  // ---- Runs ----

  // Ticks of several cores interleaved with everything else that touches what
  // they read: tasks created, blocked or woken, the table reshaped, preemption
  // held or released, and sched_forget.
  datatype Step =
    | SaveStep(c: nat, rsp: nat)
    | AnswerStep(c: nat)
    | SetTask(t: nat, run: bool, user: bool, managed: bool)
    | Spawn(task: Task)
    | SetTable(table: seq<Option<nat>>)
    | SetPreempt(c: nat, preempt: nat)
    | Forget(t: nat)

  predicate Enabled(m: Machine, step: Step) {
    match step
    case SaveStep(c, _) => c < |m.cpus| && !m.cpus[c].ticking
    case AnswerStep(c) => c < |m.cpus| && m.cpus[c].ticking
    case SetTask(t, _, _, _) => t < |m.tasks|
    case Spawn(_) => true
    case SetTable(table) => forall s :: 0 <= s < |table| && table[s].Some? ==> table[s].value < |m.tasks|
    case SetPreempt(c, _) => c < |m.cpus| && !m.cpus[c].ticking
    case Forget(t) => true
  }

  function Forgotten(m: Machine, t: nat): Machine {
    m.(cpus := seq(|m.cpus|, c requires 0 <= c < |m.cpus| =>
                     if m.cpus[c].cur == Some(t) then m.cpus[c].(cur := None) else m.cpus[c]))
  }

  function Apply(m: Machine, step: Step): Machine
    requires Enabled(m, step)
  {
    match step
    case SaveStep(c, rsp) => Saved(m, c, rsp)
    case AnswerStep(c) => Answered(m, c)
    case SetTask(t, run, user, managed) =>
      m.(tasks := m.tasks[t := m.tasks[t].(run := run, user := user, managed := managed)])
    case Spawn(task) => m.(tasks := m.tasks + [task])
    case SetTable(table) => m.(table := table)
    case SetPreempt(c, preempt) => m.(cpus := m.cpus[c := m.cpus[c].(preempt := preempt)])
    case Forget(t) => Forgotten(m, t)
  }

  ghost predicate Init(m: Machine) {
    && (forall c :: 0 <= c < |m.cpus| ==> m.cpus[c].cur == None && !m.cpus[c].ticking)
    && forall s :: 0 <= s < |m.table| && m.table[s].Some? ==> m.table[s].value < |m.tasks|
  }

  ghost predicate IsRun(states: seq<Machine>, steps: seq<Step>) {
    && |states| == |steps| + 1 && Init(states[0])
    && forall k :: 0 <= k < |steps| ==> Enabled(states[k], steps[k]) && states[k + 1] == Apply(states[k], steps[k])
  }

  // The pinning invariant.
  ghost predicate Pinned(m: Machine) {
    && (forall c :: 0 <= c < |m.cpus| && m.cpus[c].cur.Some? ==>
          m.cpus[c].cur.value < |m.tasks| && m.tasks[m.cpus[c].cur.value].cpu == c)
    && forall s :: 0 <= s < |m.table| && m.table[s].Some? ==> m.table[s].value < |m.tasks|
  }

  lemma PinnedStep(m: Machine, step: Step)
    requires Pinned(m) && Enabled(m, step)
    ensures Pinned(Apply(m, step)) && |Apply(m, step).cpus| == |m.cpus| && |Apply(m, step).tasks| >= |m.tasks|
  {
    hide FirstFrom, Slot;
    if step.AnswerStep? {
      AnsweredIs(m, step.c);
    }
  }

  // What an answer can be.
  lemma AnsweredIs(m: Machine, c: nat)
    requires c < |m.cpus|
    ensures var m' := Answered(m, c);
            && m' == m.(cpus := m.cpus[c := m'.cpus[c]]) && |m'.cpus| == |m.cpus|
            && var me, me' := m.cpus[c], m'.cpus[c];
               && !me'.ticking && me'.idleRsp == me.idleRsp && me'.preempt == me.preempt
               && (me.preempt > 0 ==> me'.cur == me.cur && me'.nextRsp == me.savedRsp && me'.scan == me.scan)
               && (me.preempt == 0 && me'.cur.None? ==> me'.nextRsp == me.idleRsp)
               && (me.preempt == 0 && me'.cur.Some? ==>
                     me'.cur.value < |m.tasks| && Eligible(m.tasks[me'.cur.value], c)
                     && me'.nextRsp == m.tasks[me'.cur.value].stack)
  {
    var i := FirstFrom(m, c, 1);
    hide FirstFrom;
  }

  lemma {:induction false} RunPinned(states: seq<Machine>, steps: seq<Step>, k: nat)
    requires IsRun(states, steps) && k < |states|
    ensures Pinned(states[k]) && |states[k].cpus| == |states[0].cpus|
  {
    if k > 0 {
      RunPinned(states, steps, k - 1);
      hide Pinned, Apply, Init, Enabled;
      assert states[k - 1 + 1] == Apply(states[k - 1], steps[k - 1]);
      PinnedStep(states[k - 1], steps[k - 1]);
    }
  }

  // No task is current on two cores.
  lemma NeverOnTwoCores(states: seq<Machine>, steps: seq<Step>, k: nat, c: nat, d: nat)
    requires IsRun(states, steps) && k < |states| && c < |states[k].cpus| && d < |states[k].cpus|
    requires states[k].cpus[c].cur.Some? && states[k].cpus[c].cur == states[k].cpus[d].cur
    ensures c == d
  {
    RunPinned(states, steps, k);
  }

  // ---- Where a context resumes ----

  // What really runs on core c before step k, by the answers given so far.
  ghost function Running(states: seq<Machine>, steps: seq<Step>, k: nat, c: nat): Option<nat>
    requires |states| == |steps| + 1 && k < |states|
  {
    if k == 0 then None
    else if steps[k - 1] == AnswerStep(c) && c < |states[k - 1].cpus| && states[k - 1].cpus[c].preempt == 0 && c < |states[k].cpus|
    then states[k].cpus[c].cur
    else Running(states, steps, k - 1, c)
  }

  // The stack pointer at which context x (a task, or core c's idle loop) was
  // last interrupted, or started.
  ghost function LastAt(states: seq<Machine>, steps: seq<Step>, k: nat, c: nat, x: Option<nat>): nat
    requires |states| == |steps| + 1 && k < |states|
  {
    if k == 0 then
      if x.Some? && x.value < |states[0].tasks| then states[0].tasks[x.value].stack
      else if x.None? && c < |states[0].cpus| then states[0].cpus[c].idleRsp
      else 0
    else if steps[k - 1].SaveStep? && Running(states, steps, k - 1, steps[k - 1].c) == x && (x.Some? || steps[k - 1].c == c)
    then steps[k - 1].rsp
    else if steps[k - 1].Spawn? && x == Some(|states[k - 1].tasks| as nat) then steps[k - 1].task.stack
    else LastAt(states, steps, k - 1, c, x)
  }

  // No core will go on with t as its current task: t is current nowhere, or only
  // where a tick is about to choose anew.
  predicate Droppable(m: Machine, t: nat) {
    forall c :: 0 <= c < |m.cpus| && m.cpus[c].cur == Some(t) ==> Choosing(m.cpus[c])
  }

  predicate Choosing(me: Cpu) {
    me.ticking && me.preempt == 0
  }

  // From step a on, sched_forget only names such tasks.
  ghost predicate NoLiveForget(states: seq<Machine>, steps: seq<Step>, a: nat)
    requires |states| == |steps| + 1
  {
    forall k :: a <= k < |steps| && steps[k].Forget? ==> Droppable(states[k], steps[k].t)
  }

  lemma RunningStep(states: seq<Machine>, steps: seq<Step>, k: nat, c: nat)
    requires |states| == |steps| + 1 && k < |steps|
    ensures Running(states, steps, k + 1, c) ==
            if steps[k] == AnswerStep(c) && c < |states[k].cpus| && states[k].cpus[c].preempt == 0 && c < |states[k + 1].cpus|
            then states[k + 1].cpus[c].cur
            else Running(states, steps, k, c)
  {}

  lemma LastAtStep(states: seq<Machine>, steps: seq<Step>, k: nat, c: nat, x: Option<nat>)
    requires |states| == |steps| + 1 && k < |steps|
    ensures LastAt(states, steps, k + 1, c, x) ==
            if steps[k].SaveStep? && Running(states, steps, k, steps[k].c) == x && (x.Some? || steps[k].c == c) then steps[k].rsp
            else if steps[k].Spawn? && x == Some(|states[k].tasks| as nat) then steps[k].task.stack
            else LastAt(states, steps, k, c, x)
  {}

  // The faithful values of one core and of one task.
  ghost predicate FaithfulCpu(states: seq<Machine>, steps: seq<Step>, k: nat, c: nat)
    requires |states| == |steps| + 1 && k < |states| && c < |states[k].cpus|
  {
    var me := states[k].cpus[c];
    && (!Choosing(me) ==> me.cur == Running(states, steps, k, c))
    && me.idleRsp == LastAt(states, steps, k, c, None)
    && (me.ticking && !Choosing(me) ==> me.savedRsp == LastAt(states, steps, k, c, me.cur))
  }

  ghost predicate FaithfulTask(states: seq<Machine>, steps: seq<Step>, k: nat, t: nat)
    requires |states| == |steps| + 1 && k < |states| && t < |states[k].tasks|
  {
    forall c: nat :: states[k].tasks[t].stack == LastAt(states, steps, k, c, Some(t))
  }

  ghost predicate Faithful(states: seq<Machine>, steps: seq<Step>, k: nat)
    requires |states| == |steps| + 1 && k < |states|
  {
    && (forall c: nat :: c < |states[k].cpus| ==> FaithfulCpu(states, steps, k, c))
    && forall t: nat :: t < |states[k].tasks| ==> FaithfulTask(states, steps, k, t)
  }

  lemma FaithfulSave(states: seq<Machine>, steps: seq<Step>, k: nat)
    requires IsRun(states, steps) && k < |steps| && Pinned(states[k]) && Faithful(states, steps, k)
    requires steps[k].SaveStep?
    ensures Faithful(states, steps, k + 1)
  {
    hide Running, LastAt;
    var next := k + 1;
    var m, m', d := states[k], states[k + 1], steps[k].c;
    assert m' == Saved(m, d, steps[k].rsp) && Enabled(m, steps[k]);
    assert FaithfulCpu(states, steps, k, d);
    forall c: nat | c < |m'.cpus| ensures FaithfulCpu(states, steps, next, c) {
      assert FaithfulCpu(states, steps, k, c);
      RunningStep(states, steps, k, c);
      LastAtStep(states, steps, k, c, None);
      LastAtStep(states, steps, k, c, m.cpus[c].cur);
    }
    forall t: nat | t < |m'.tasks| ensures FaithfulTask(states, steps, next, t) {
      assert FaithfulTask(states, steps, k, t);
      forall c: nat ensures m'.tasks[t].stack == LastAt(states, steps, next, c, Some(t)) {
        LastAtStep(states, steps, k, c, Some(t));
      }
    }
  }

  lemma FaithfulAnswer(states: seq<Machine>, steps: seq<Step>, k: nat)
    requires IsRun(states, steps) && k < |steps| && Pinned(states[k]) && Faithful(states, steps, k)
    requires steps[k].AnswerStep?
    ensures Faithful(states, steps, k + 1) && steps[k].c < |states[k + 1].cpus|
    ensures states[k + 1].cpus[steps[k].c].nextRsp ==
            LastAt(states, steps, k + 1, steps[k].c, Running(states, steps, k + 1, steps[k].c))
  {
    hide Answered, Running, LastAt;
    var next := k + 1;
    var m, m', d := states[k], states[k + 1], steps[k].c;
    assert Enabled(m, steps[k]) && m' == Answered(m, d);
    AnsweredIs(m, d);
    forall c: nat | c < |m'.cpus| ensures FaithfulCpu(states, steps, next, c) {
      assert FaithfulCpu(states, steps, k, c);
      RunningStep(states, steps, k, c);
      LastAtStep(states, steps, k, c, None);
      LastAtStep(states, steps, k, c, m'.cpus[c].cur);
    }
    forall t: nat | t < |m'.tasks| ensures FaithfulTask(states, steps, next, t) {
      assert FaithfulTask(states, steps, k, t);
      forall c: nat ensures m'.tasks[t].stack == LastAt(states, steps, next, c, Some(t)) {
        LastAtStep(states, steps, k, c, Some(t));
      }
    }
    AnswerFaithful(states, steps, k);
  }

  lemma AnswerFaithful(states: seq<Machine>, steps: seq<Step>, k: nat)
    requires IsRun(states, steps) && k < |steps| && Pinned(states[k]) && Faithful(states, steps, k)
    requires steps[k].AnswerStep? && Faithful(states, steps, k + 1) && steps[k].c < |states[k + 1].cpus|
    ensures states[k + 1].cpus[steps[k].c].nextRsp ==
            LastAt(states, steps, k + 1, steps[k].c, Running(states, steps, k + 1, steps[k].c))
  {
    hide Answered, Running, LastAt;
    var m, m', d := states[k], states[k + 1], steps[k].c;
    assert Enabled(m, steps[k]) && m' == Answered(m, d);
    AnsweredIs(m, d);
    assert FaithfulCpu(states, steps, k, d) && FaithfulCpu(states, steps, k + 1, d);
    var x := m'.cpus[d].cur;
    LastAtStep(states, steps, k, d, x);
    if m.cpus[d].preempt == 0 && x.Some? {
      assert FaithfulTask(states, steps, k + 1, x.value);
    }
  }

  lemma FaithfulOther(states: seq<Machine>, steps: seq<Step>, k: nat)
    requires IsRun(states, steps) && k < |steps| && Pinned(states[k]) && Faithful(states, steps, k)
    requires !steps[k].SaveStep? && !steps[k].AnswerStep? && NoLiveForget(states, steps, 0)
    ensures Faithful(states, steps, k + 1)
  {
    hide Running, LastAt;
    var next := k + 1;
    var m, m' := states[k], states[k + 1];
    assert Enabled(m, steps[k]) && m' == Apply(m, steps[k]);
    forall c: nat | c < |m'.cpus| ensures FaithfulCpu(states, steps, next, c) {
      assert FaithfulCpu(states, steps, k, c);
      RunningStep(states, steps, k, c);
      LastAtStep(states, steps, k, c, None);
      LastAtStep(states, steps, k, c, m.cpus[c].cur);
    }
    forall t: nat | t < |m'.tasks| ensures FaithfulTask(states, steps, next, t) {
      if t < |m.tasks| { assert FaithfulTask(states, steps, k, t); }
      forall c: nat ensures m'.tasks[t].stack == LastAt(states, steps, next, c, Some(t)) {
        LastAtStep(states, steps, k, c, Some(t));
      }
    }
  }

  lemma {:induction false} RunFaithful(states: seq<Machine>, steps: seq<Step>, k: nat)
    requires IsRun(states, steps) && NoLiveForget(states, steps, 0) && k < |states|
    ensures Faithful(states, steps, k)
  {
    if k > 0 {
      RunFaithful(states, steps, k - 1);
      RunPinned(states, steps, k - 1);
      hide IsRun, Faithful, NoLiveForget, Pinned;
      if steps[k - 1].SaveStep? {
        FaithfulSave(states, steps, k - 1);
      } else if steps[k - 1].AnswerStep? {
        FaithfulAnswer(states, steps, k - 1);
      } else {
        FaithfulOther(states, steps, k - 1);
      }
    }
  }

  // Whatever a tick resumes, task or idle loop, it resumes where that context
  // was last interrupted.
  ghost predicate Resumes(states: seq<Machine>, steps: seq<Step>)
    requires |states| == |steps| + 1
  {
    forall k :: 0 <= k < |steps| && steps[k].AnswerStep? ==> ResumesAt(states, steps, k)
  }

  ghost predicate ResumesAt(states: seq<Machine>, steps: seq<Step>, k: nat)
    requires |states| == |steps| + 1 && k < |steps| && steps[k].AnswerStep?
  {
    && steps[k].c < |states[k + 1].cpus|
    && states[k + 1].cpus[steps[k].c].nextRsp ==
       LastAt(states, steps, k + 1, steps[k].c, Running(states, steps, k + 1, steps[k].c))
  }

  lemma ResumesWhereInterrupted(states: seq<Machine>, steps: seq<Step>)
    requires IsRun(states, steps) && NoLiveForget(states, steps, 0)
    ensures Resumes(states, steps)
  {
    hide Faithful, NoLiveForget, Pinned, Apply, Enabled, Init;
    forall k | 0 <= k < |steps| && steps[k].AnswerStep?
      ensures ResumesAt(states, steps, k)
    {
      RunFaithful(states, steps, k);
      RunPinned(states, steps, k);
      FaithfulAnswer(states, steps, k);
    }
  }

  // ---- What happens when sched_forget names a live task ----

  lemma Extend(states: seq<Machine>, steps: seq<Step>, step: Step) returns (states': seq<Machine>, steps': seq<Step>)
    requires IsRun(states, steps) && Enabled(states[|steps|], step)
    ensures IsRun(states', steps') && steps' == steps + [step]
    ensures states' == states + [Apply(states[|steps|], step)]
  {
    states', steps' := states + [Apply(states[|steps|], step)], steps + [step];
  }

  // History depends on the past only.
  lemma {:induction false} PastOnly(states: seq<Machine>, steps: seq<Step>, states': seq<Machine>, steps': seq<Step>,
                                    k: nat, c: nat, x: Option<nat>)
    requires |states| == |steps| + 1 && |states'| == |steps'| + 1 && k < |states| <= |states'|
    requires states'[..|states|] == states && steps'[..|steps|] == steps
    ensures Running(states', steps', k, c) == Running(states, steps, k, c)
    ensures LastAt(states', steps', k, c, x) == LastAt(states, steps, k, c, x)
  {
    assert states'[k] == states'[..|states|][k];
    if k > 0 {
      assert states'[k - 1] == states'[..|states|][k - 1] && steps'[k - 1] == steps'[..|steps|][k - 1];
      PastOnly(states, steps, states', steps', k - 1, c, x);
      if steps[k - 1].SaveStep? {
        PastOnly(states, steps, states', steps', k - 1, steps[k - 1].c, x);
      }
    }
  }

  // Core c runs t although its slot says idle, and its idle stack pointer is
  // still right.
  ghost predicate Lost(states: seq<Machine>, steps: seq<Step>, c: nat, t: nat)
    requires |states| == |steps| + 1
  {
    var m := states[|steps|];
    && c < |m.cpus| && m.cpus[c].cur.None? && Running(states, steps, |steps|, c) == Some(t)
    && LastAt(states, steps, |steps|, c, None) == m.cpus[c].idleRsp
  }

  lemma ForgetLoses(states: seq<Machine>, steps: seq<Step>, c: nat, t: nat)
    returns (states': seq<Machine>, steps': seq<Step>)
    requires IsRun(states, steps) && NoLiveForget(states, steps, 0)
    requires var m := states[|steps|]; c < |m.cpus| && m.cpus[c].cur == Some(t) && !Choosing(m.cpus[c])
    ensures IsRun(states', steps') && steps' == steps + [Forget(t)] && Lost(states', steps', c, t)
    ensures states' == states + [Forgotten(states[|steps|], t)]
  {
    RunFaithful(states, steps, |steps|);
    assert FaithfulCpu(states, steps, |steps|, c);
    states', steps' := Extend(states, steps, Forget(t));
    hide Running, LastAt, FaithfulCpu, Faithful, IsRun;
    LostStep(states, steps, states', steps', c);
  }

  // A step that is no save and no choice on c leaves the history of c alone.
  lemma LostStep(states: seq<Machine>, steps: seq<Step>, states': seq<Machine>, steps': seq<Step>, c: nat)
    requires |states| == |steps| + 1 && |states'| == |steps'| + 1 && |steps'| == |steps| + 1
    requires states'[..|states|] == states && steps'[..|steps|] == steps
    requires !steps'[|steps|].SaveStep?
    requires steps'[|steps|] == AnswerStep(c) ==> c < |states[|steps|].cpus| && states[|steps|].cpus[c].preempt > 0
    ensures Running(states', steps', |steps'|, c) == Running(states, steps, |steps|, c)
    ensures LastAt(states', steps', |steps'|, c, None) == LastAt(states, steps, |steps|, c, None)
  {
    hide Running, LastAt;
    var k := |steps|;
    PastOnly(states, steps, states', steps', k, c, None);
    assert states'[k] == states'[..|states|][k];
    RunningStep(states', steps', k, c);
    LastAtStep(states', steps', k, c, None);
  }

  // The next tick that finds nothing to run stores t's stack pointer as
  // the idle one and resumes idle there: right if and only if the two happen to
  // be equal.
  lemma LostTick(states: seq<Machine>, steps: seq<Step>, c: nat, t: nat, rsp: nat)
    returns (states': seq<Machine>, steps': seq<Step>)
    requires IsRun(states, steps) && Lost(states, steps, c, t)
    requires var m := states[|steps|]; !m.cpus[c].ticking && m.cpus[c].preempt == 0
    requires forall s: nat :: s < |states[|steps|].table| ==> !SlotEligible(states[|steps|], c, s)
    ensures IsRun(states', steps') && steps' == steps + [SaveStep(c, rsp), AnswerStep(c)]
    ensures |states'| == |states| + 2 && states'[..|states|] == states
    ensures ResumesAt(states', steps', |steps| + 1) <==> rsp == states[|steps|].cpus[c].idleRsp
  {
    var n, m := |steps|, states[|steps|];
    var saved := Saved(m, c, rsp);
    var answered := Answered(saved, c);
    assert !saved.cpus[c].cur.Some? && saved.table == m.table && saved.tasks == m.tasks;
    NothingEligible(m, saved, c);
    var states1, steps1 := Extend(states, steps, SaveStep(c, rsp));
    states', steps' := Extend(states1, steps1, AnswerStep(c));
    assert steps' == steps + [SaveStep(c, rsp), AnswerStep(c)] && states' == states + [saved, answered];
    hide Running, LastAt, IsRun, FirstFrom, Saved, Answered;
    PastOnly(states, steps, states', steps', n, c, None);
    assert states'[n + 1] == saved && states'[n] == m;
    RunningStep(states', steps', n + 1, c);
    LastAtStep(states', steps', n + 1, c, None);
    LastAtStep(states', steps', n, c, None);
    RunningStep(states', steps', n, c);
  }

  lemma NothingEligible(m: Machine, saved: Machine, c: nat)
    requires c < |m.cpus| == |saved.cpus| && saved.tasks == m.tasks && saved.table == m.table
    requires saved.cpus[c].preempt == 0
    requires forall s: nat :: s < |m.table| ==> !SlotEligible(m, c, s)
    ensures var me := Answered(saved, c).cpus[c]; me.cur.None? && me.nextRsp == saved.cpus[c].idleRsp
  {
    var i := FirstFrom(saved, c, 1);
    if i <= |saved.table| {
      assert SlotEligible(m, c, Slot(saved.cpus[c].scan, i, |saved.table|));
    }
  }

  // If sched_forget names what core c is running and nothing else is
  // runnable there, the next tick resumes idle at that task's stack pointer.
  lemma ForgetLosesIdle(states: seq<Machine>, steps: seq<Step>, c: nat, t: nat, rsp: nat)
    returns (states': seq<Machine>, steps': seq<Step>)
    requires IsRun(states, steps) && NoLiveForget(states, steps, 0)
    requires var m := states[|steps|]; c < |m.cpus| && m.cpus[c].cur == Some(t) && !m.cpus[c].ticking && m.cpus[c].preempt == 0
    requires forall s: nat :: s < |states[|steps|].table| ==> !SlotEligible(states[|steps|], c, s)
    ensures IsRun(states', steps') && steps' == steps + [Forget(t), SaveStep(c, rsp), AnswerStep(c)]
    ensures ResumesAt(states', steps', |steps| + 2) <==> rsp == states[|steps|].cpus[c].idleRsp
  {
    hide NoLiveForget, ResumesAt, Running, LastAt, Apply, Enabled, Init, Lost;
    var states1, steps1 := ForgetLoses(states, steps, c, t);
    var m, m' := states[|steps|], states1[|steps1|];
    assert m' == Forgotten(m, t);
    assert forall s: nat :: s < |m'.table| ==> SlotEligible(m', c, s) == SlotEligible(m, c, s);
    states', steps' := LostTick(states1, steps1, c, t, rsp);
  }

  // A continuation of a run by sched_forget(t) and then anything but a further
  // live forget.
  ghost predicate ForgetsThen(states: seq<Machine>, steps: seq<Step>, t: nat, states': seq<Machine>, steps': seq<Step>)
    requires |states| == |steps| + 1
  {
    && IsRun(states', steps') && |steps'| > |steps| && states'[..|states|] == states && steps'[..|steps|] == steps
    && steps'[|steps|] == Forget(t) && NoLiveForget(states', steps', |steps| + 1)
  }

  // After any run, forgetting t is harmless in every continuation exactly when
  // no core will go on with t as its current task.
  lemma ForgetExactly(states: seq<Machine>, steps: seq<Step>, t: nat)
    requires IsRun(states, steps) && NoLiveForget(states, steps, 0)
    ensures Droppable(states[|steps|], t) <==>
            (forall states', steps' :: ForgetsThen(states, steps, t, states', steps') ==> Resumes(states', steps'))
  {
    if Droppable(states[|steps|], t) {
      hide Resumes, Running, LastAt, Apply, Enabled, Init;
      forall states', steps' | ForgetsThen(states, steps, t, states', steps')
        ensures Resumes(states', steps')
      {
        PrefixForgets(states, steps, t, states', steps');
        ResumesWhereInterrupted(states', steps');
      }
    } else {
      hide IsRun, NoLiveForget, Resumes;
      var states', steps' := ForgetHarms(states, steps, t);
    }
  }

  lemma PrefixForgets(states: seq<Machine>, steps: seq<Step>, t: nat, states': seq<Machine>, steps': seq<Step>)
    requires IsRun(states, steps) && NoLiveForget(states, steps, 0) && Droppable(states[|steps|], t)
    requires ForgetsThen(states, steps, t, states', steps')
    ensures NoLiveForget(states', steps', 0)
  {
    hide Apply, Enabled, Init, Droppable;
    forall k | 0 <= k < |steps'| && steps'[k].Forget?
      ensures Droppable(states'[k], steps'[k].t)
    {
      if k <= |steps| {
        assert states'[k] == states'[..|states|][k];
        if k < |steps| { assert steps'[k] == steps'[..|steps|][k]; }
      }
    }
  }

  // A live forget, after which core c is ready to take a tick that finds the
  // table empty.
  lemma ForgetPrepares(states: seq<Machine>, steps: seq<Step>, c: nat, t: nat)
    returns (states': seq<Machine>, steps': seq<Step>)
    requires IsRun(states, steps) && NoLiveForget(states, steps, 0)
    requires var m := states[|steps|]; c < |m.cpus| && m.cpus[c].cur == Some(t) && !Choosing(m.cpus[c])
    ensures IsRun(states', steps') && Lost(states', steps', c, t) && |steps'| > |steps|
    ensures states'[..|states|] == states && steps'[..|steps|] == steps && steps'[|steps|] == Forget(t)
    ensures forall k :: |steps| < k < |steps'| ==> !steps'[k].Forget?
    ensures var m := states'[|steps'|]; !m.cpus[c].ticking && m.cpus[c].preempt == 0 && m.table == []
  {
    hide NoLiveForget, Running, LastAt, FirstFrom, Answered, Init;
    states', steps' := ForgetLoses(states, steps, c, t);
    if states'[|steps'|].cpus[c].ticking {
      AnsweredIs(states'[|steps'|], c);
      states', steps' := LostMore(states', steps', c, t, AnswerStep(c));
    }
    states', steps' := LostMore(states', steps', c, t, SetPreempt(c, 0));
    states', steps' := LostMore(states', steps', c, t, SetTable([]));
  }

  lemma ForgetHarms(states: seq<Machine>, steps: seq<Step>, t: nat) returns (states': seq<Machine>, steps': seq<Step>)
    requires IsRun(states, steps) && NoLiveForget(states, steps, 0) && !Droppable(states[|steps|], t)
    ensures ForgetsThen(states, steps, t, states', steps') && !Resumes(states', steps')
  {
    var m := states[|steps|];
    var c: nat :| c < |m.cpus| && m.cpus[c].cur == Some(t) && !Choosing(m.cpus[c]);
    hide NoLiveForget, Running, LastAt, Resumes, ResumesAt, Lost, Apply, Enabled, Init, SlotEligible;
    states', steps' := ForgetPrepares(states, steps, c, t);
    var n, prepared, done := |steps'|, states', steps';
    assert c < |states'[n].cpus| by { LostCore(states', steps', c, t); }
    states', steps' := LostTick(states', steps', c, t, states'[n].cpus[c].idleRsp + 1);
    assert states'[..|states|] == states'[..|prepared|][..|states|];
    NoForgetsAfter(states', steps', |steps| + 1);
    NotResumes(states', steps', n + 1);
  }

  lemma LostCore(states: seq<Machine>, steps: seq<Step>, c: nat, t: nat)
    requires |states| == |steps| + 1 && Lost(states, steps, c, t)
    ensures c < |states[|steps|].cpus|
  {}

  lemma NotResumes(states: seq<Machine>, steps: seq<Step>, k: nat)
    requires |states| == |steps| + 1 && k < |steps| && steps[k].AnswerStep? && !ResumesAt(states, steps, k)
    ensures !Resumes(states, steps)
  {}

  lemma NoForgetsAfter(states: seq<Machine>, steps: seq<Step>, a: nat)
    requires |states| == |steps| + 1 && forall k :: a <= k < |steps| ==> !steps[k].Forget?
    ensures NoLiveForget(states, steps, a)
  {}

  lemma LostMore(states: seq<Machine>, steps: seq<Step>, c: nat, t: nat, step: Step)
    returns (states': seq<Machine>, steps': seq<Step>)
    requires IsRun(states, steps) && Lost(states, steps, c, t) && Enabled(states[|steps|], step)
    requires step == SetPreempt(c, 0) || step == SetTable([]) ||
             (step == AnswerStep(c) && states[|steps|].cpus[c].preempt > 0)
    ensures IsRun(states', steps') && Lost(states', steps', c, t)
    ensures steps' == steps + [step] && states' == states + [Apply(states[|steps|], step)]
  {
    states', steps' := Extend(states, steps, step);
    hide Running, LastAt, IsRun;
    LostStep(states, steps, states', steps', c);
    if step.AnswerStep? { AnsweredIs(states[|steps|], c); }
  }

  // It does happen: the only core picks the only task, sched_forget names it,
  // and the next tick resumes a context elsewhere than where it was interrupted.
  lemma LiveForgetHappens() returns (states: seq<Machine>, steps: seq<Step>)
    ensures IsRun(states, steps) && !Resumes(states, steps)
  {
    var m := Machine([Task(true, 0, 1, false, false)], [Some(0)], [Cpu(0, None, 0, 0, 0, 0, false)]);
    states, steps := Extend([m], [], SaveStep(0, 0));
    assert SlotEligible(states[1], 0, Slot(0, 1, 1));
    assert FirstFrom(states[1], 0, 1) == 1;
    states, steps := Extend(states, steps, AnswerStep(0));
    assert states[2] == Answered(states[1], 0);
    assert states[2].cpus[0].cur == Some(0) && !Droppable(states[2], 0);
    NoForgetsAfter(states, steps, 0);
    hide Resumes;
    states, steps := ForgetHarms(states, steps, 0);
  }

  // ---- What an answer may pick ----

  // Without a preemption hold the core goes on with a task of the table that is
  // in the run state, pinned to it, has a stack to resume at and, if it is a user
  // process, is managed by the scheduler; it goes idle only if the table names
  // none.
  lemma PickLaw(m: Machine, c: nat, t: nat)
    requires c < |m.cpus| && m.cpus[c].preempt == 0
    ensures |Answered(m, c).cpus| == |m.cpus|
    ensures Answered(m, c).cpus[c].cur == Some(t) ==>
              && Some(t) in m.table && t < |m.tasks| && m.tasks[t].run && m.tasks[t].cpu == c && m.tasks[t].stack != 0
              && (m.tasks[t].user ==> m.tasks[t].managed) && Answered(m, c).cpus[c].nextRsp == m.tasks[t].stack
    ensures Answered(m, c).cpus[c].cur == None && Some(t) in m.table && t < |m.tasks| ==>
              !(m.tasks[t].run && m.tasks[t].cpu == c && m.tasks[t].stack != 0 && (m.tasks[t].user ==> m.tasks[t].managed))
  {
    var i, n := FirstFrom(m, c, 1), |m.table|;
    hide FirstFrom;
    if i > n && Some(t) in m.table && t < |m.tasks| {
      var s: nat :| s < n && m.table[s] == Some(t);
      var k := SomeRank(m.cpus[c].scan, s, n);
      assert !SlotEligible(m, c, Slot(m.cpus[c].scan, k, n));
    }
  }

  // ---- Nobody eligible waits more than a round ----

  // Between steps a and b the table is fixed, core c answers without a
  // preemption hold, and what the slot names is eligible at each answer.
  ghost predicate Steady(states: seq<Machine>, steps: seq<Step>, a: nat, b: nat, c: nat, slot: nat)
    requires |states| == |steps| + 1 && a <= b <= |steps|
  {
    && (forall k :: a <= k <= b ==> states[k].table == states[a].table)
    && slot < |states[a].table| && states[a].table[slot].Some?
    && forall k :: a <= k < b && steps[k] == AnswerStep(c) && c < |states[k].cpus| ==>
         states[k].cpus[c].preempt == 0 && SlotEligible(states[k], c, slot)
  }

  // How often core c answers.
  function Answers(steps: seq<Step>, a: nat, b: nat, c: nat): nat
    requires a <= b <= |steps|
    decreases b - a
  {
    if a == b then 0 else (if steps[a] == AnswerStep(c) then 1 else 0) + Answers(steps, a + 1, b, c)
  }

  lemma SlotAdd(scan: nat, i: nat, j: nat, n: nat)
    requires n > 0
    ensures Slot(Slot(scan, i, n), j, n) == Slot(scan, i + j, n)
  {
    Remainder(scan + i, j, n);
  }

  lemma Remainder(x: nat, j: nat, n: nat)
    requires n > 0
    ensures (x % n + j) % n == (x + j) % n
  {
    var q, y := x / n, x % n;
    Split(x, n);
    ModArith.ModShift(y + j, q, n);
  }

  lemma Split(x: nat, n: nat)
    requires n > 0
    ensures x == x % n + (x / n) * n
  {}

  lemma CursorMoves(m: Machine, c: nat, slot: nat, r: nat)
    requires c < |m.cpus| && m.cpus[c].preempt == 0 && slot < |m.table| && m.table[slot].Some?
    requires SlotEligible(m, c, slot) && 1 <= r <= |m.table| && Slot(m.cpus[c].scan, r, |m.table|) == slot
    ensures var m' := Answered(m, c);
            m'.cpus[c].cur == m.table[slot] ||
            exists r' :: 0 < r' < r && Slot(m'.cpus[c].scan, r', |m.table|) == slot
  {
    var n, i := |m.table|, FirstFrom(m, c, 1);
    assert i <= r;
    hide FirstFrom;
    if i < r {
      SlotAdd(m.cpus[c].scan, i, r - i, n);
    }
  }

  lemma CursorStays(m: Machine, step: Step, c: nat)
    requires Enabled(m, step) && step != AnswerStep(c) && c < |m.cpus|
    ensures c < |Apply(m, step).cpus| && Apply(m, step).cpus[c].scan == m.cpus[c].scan
  {
    hide FirstFrom, Slot;
    if step.AnswerStep? { AnsweredIs(m, step.c); }
  }

  lemma {:induction false} PickedWithin(states: seq<Machine>, steps: seq<Step>, a: nat, b: nat, c: nat, slot: nat, r: nat)
    returns (k: nat)
    requires IsRun(states, steps) && a <= b <= |steps| && c < |states[a].cpus| && Steady(states, steps, a, b, c, slot)
    requires 1 <= r <= |states[a].table| && Slot(states[a].cpus[c].scan, r, |states[a].table|) == slot
    requires Answers(steps, a, b, c) >= r
    ensures a <= k < b && steps[k] == AnswerStep(c) && c < |states[k + 1].cpus|
    ensures states[k + 1].cpus[c].cur == states[a].table[slot]
    decreases b - a
  {
    hide FirstFrom, Slot;
    var m, m' := states[a], states[a + 1];
    assert Enabled(m, steps[a]) && m' == Apply(m, steps[a]);
    if steps[a] == AnswerStep(c) {
      AnsweredIs(m, c);
      CursorMoves(m, c, slot, r);
      if m'.cpus[c].cur == m.table[slot] {
        k := a;
      } else {
        var r' :| 0 < r' < r && Slot(m'.cpus[c].scan, r', |m.table|) == slot;
        k := PickedWithin(states, steps, a + 1, b, c, slot, r');
      }
    } else {
      CursorStays(m, steps[a], c);
      k := PickedWithin(states, steps, a + 1, b, c, slot, r);
    }
  }

  lemma SomeRank(scan: nat, slot: nat, n: nat) returns (r: nat)
    requires slot < n
    ensures 1 <= r <= n && Slot(scan, r, n) == slot
  {
    var s := scan % n;
    r := if slot > s then slot - s else slot + n - s;
    Remainder(scan, r, n);
    Wrapped(slot, n, if slot > s then slot else slot + n);
  }

  lemma Wrapped(slot: nat, n: nat, x: nat)
    requires slot < n && (x == slot || x == slot + n)
    ensures x % n == slot
  {
    if x == slot + n { ModArith.DivModUnique(x, 1, slot, n); }
  }

  // With a fixed table of n slots and no preemption hold, a pinned task that
  // stays eligible is picked within n ticks of its core.
  lemma PickedWithinOneRound(states: seq<Machine>, steps: seq<Step>, a: nat, b: nat, c: nat, slot: nat) returns (k: nat)
    requires IsRun(states, steps) && a <= b <= |steps| && c < |states[a].cpus| && Steady(states, steps, a, b, c, slot)
    requires Answers(steps, a, b, c) >= |states[a].table|
    ensures a <= k < b && steps[k] == AnswerStep(c) && c < |states[k + 1].cpus|
    ensures states[k + 1].cpus[c].cur == states[a].table[slot]
  {
    hide Slot;
    var r := SomeRank(states[a].cpus[c].scan, slot, |states[a].table|);
    k := PickedWithin(states, steps, a, b, c, slot, r);
  }
}
