// The TLB shootdown protocol (kernel/core/smp.c, kernel/core/spinlock.h) as a
// transition system.
module TlbShootdown {
  // One step per access to shared memory, with arbitrary page-table changes, TLB
  // refills and interrupt deliveries in between.

  // Where a core is inside tlb_shootdown; each location names the access that
  // comes next.  Out is any other code.
  datatype Pc =
    | Out
    | AtInvlpg    // local invlpg, then the early return on one CPU
    | AtSave      // pushfq
    | AtSti       // sti
    | AtXchg      // spin_lock: atomic exchange
    | AtSpin      // spin_lock: plain re-read of the lock word
    | AtMask      // collect the running CPUs
    | AtAddr      // shootdown_addr = vaddr
    | AtPend      // shootdown_pending = mask
    | AtSend      // send the IPI to all but self
    | AtWait      // read shootdown_pending in the bounded wait
    | AtCheck     // read it once more after the wait
    | AtCount     // tlb_shootdowns++: load
    | AtStore     // tlb_shootdowns++: store
    | AtUnlock    // spin_unlock
    | AtRestore   // popfq

  // The IPI handler, which runs on top of whatever its core was doing.
  datatype Handler =
    | Idle
    | Load              // read shootdown_addr
    | Flush(page: int)  // invlpg
    | Ack               // lock andl: clear our bit
    | Eoi               // end of interrupt and return

  datatype Core = Core(
    tlb: map<int, nat>,    // cached translations: page -> version of its entry
    ifl: bool,             // interrupt flag
    ipi: bool,             // a shootdown IPI is latched
    h: Handler,
    pc: Pc,
    vaddr: int,            // argument of the current call
    fl: bool,              // saved interrupt flag
    mask: set<nat>,
    n: nat,                // loaded counter
    req: nat,              // history: entry version when the call was made
    callIf: bool)          // history: interrupt flag when the call was made

  datatype State = State(
    cores: seq<Core>,
    cpuCount: nat,
    lapic: bool,
    running: set<nat>,
    pt: map<int, nat>,     // page table: page -> version of its entry
    lock: bool,
    addr: int,             // shootdown_addr
    pending: set<nat>,     // shootdown_pending
    count: nat,            // tlb_shootdowns
    owner: int,            // history: the lock holder, or -1
    sections: nat)         // history: completed critical sections

  datatype Step =
    | Call(c: nat, v: int)       // enter tlb_shootdown(v)
    | Main(c: nat)               // next access of tlb_shootdown on c
    | SpinOut(c: nat)            // the bounded wait runs out
    | Timeout(c: nat)            // acknowledgements missing after the wait
    | Deliver(c: nat)            // c takes the latched IPI
    | Irq(c: nat)                // next access of the handler on c
    | SetIf(c: nat, on: bool)    // code outside the protocol: sti or cli
    | PageChange(v: int)         // a page-table entry is rewritten
    | Refill(c: nat, v: int)     // c caches the current entry of v
    | Evict(c: nat, v: int)      // c drops its entry of v

  function Version(pt: map<int, nat>, v: int): nat {
    if v in pt then pt[v] else 0
  }

  // The CPUs the mask loop can see.
  function CountedIn(running: set<nat>, cpuCount: nat): set<nat> {
    set i | i in running && i < cpuCount
  }

  function Counted(s: State): set<nat> {
    CountedIn(s.running, s.cpuCount)
  }

  predicate Smp(s: State) {
    s.cpuCount >= 2 && s.lapic
  }

  // The CPUs that a call of tlb_shootdown on c flushes or waits for.
  function Reached(s: State, c: nat): set<nat> {
    if Smp(s) then Counted(s) + {c} else {c}
  }

  predicate Holding(pc: Pc) {
    pc.AtMask? || pc.AtAddr? || pc.AtPend? || pc.AtSend? || pc.AtWait? || pc.AtCheck? ||
    pc.AtCount? || pc.AtStore? || pc.AtUnlock?
  }

  predicate Enabled(s: State, step: Step) {
    match step
    case Call(c, v) => c < |s.cores| && c in s.running && s.cores[c].pc.Out? && s.cores[c].h.Idle?
    case Main(c) => c < |s.cores| && !s.cores[c].pc.Out? && s.cores[c].h.Idle? &&
                    (s.cores[c].pc.AtCheck? ==> s.pending == {})
    case SpinOut(c) => c < |s.cores| && s.cores[c].pc.AtWait? && s.cores[c].h.Idle?
    case Timeout(c) => c < |s.cores| && s.cores[c].pc.AtCheck? && s.cores[c].h.Idle? && s.pending != {}
    case Deliver(c) => c < |s.cores| && s.cores[c].ipi && s.cores[c].ifl && s.cores[c].h.Idle?
    case Irq(c) => c < |s.cores| && !s.cores[c].h.Idle?
    case SetIf(c, on) => c < |s.cores| && s.cores[c].pc.Out? && s.cores[c].h.Idle?
    case PageChange(v) => true
    case Refill(c, v) => c < |s.cores|
    case Evict(c, v) => c < |s.cores|
  }

  function Put(s: State, c: nat, k: Core): State
    requires c < |s.cores|
  {
    s.(cores := s.cores[c := k])
  }

  function SendTo(k: Core, send: bool): Core {
    if send then k.(ipi := true) else k
  }

  function Invlpg(s: State, c: nat): State
    requires c < |s.cores|
  {
    var k := s.cores[c];
    Put(s, c, k.(tlb := k.tlb - {k.vaddr}, pc := if Smp(s) then AtSave else Out))
  }

  function SaveFlags(s: State, c: nat): State
    requires c < |s.cores|
  {
    var k := s.cores[c];
    Put(s, c, k.(fl := k.ifl, pc := AtSti))
  }

  function EnableInterrupts(s: State, c: nat): State
    requires c < |s.cores|
  {
    var k := s.cores[c];
    Put(s, c, k.(ifl := true, pc := AtXchg))
  }

  function Exchange(s: State, c: nat): State
    requires c < |s.cores|
  {
    var k := s.cores[c];
    if s.lock then Put(s, c, k.(pc := AtSpin))
    else Put(s, c, k.(pc := AtMask)).(lock := true, owner := c)
  }

  function Spin(s: State, c: nat): State
    requires c < |s.cores|
  {
    var k := s.cores[c];
    if s.lock then s else Put(s, c, k.(pc := AtXchg))
  }

  function CollectMask(s: State, c: nat): State
    requires c < |s.cores|
  {
    var k := s.cores[c];
    var mask := Counted(s) - {c};
    Put(s, c, k.(mask := mask, pc := if mask == {} then AtCount else AtAddr))
  }

  function WriteAddr(s: State, c: nat): State
    requires c < |s.cores|
  {
    var k := s.cores[c];
    Put(s, c, k.(pc := AtPend)).(addr := k.vaddr)
  }

  function WritePending(s: State, c: nat): State
    requires c < |s.cores|
  {
    var k := s.cores[c];
    Put(s, c, k.(pc := AtSend)).(pending := k.mask)
  }

  function SendIpi(s: State, c: nat): State
    requires c < |s.cores|
  {
    var k := s.cores[c];
    var sent := seq(|s.cores|, i requires 0 <= i < |s.cores| => SendTo(s.cores[i], i != c));
    s.(cores := sent[c := k.(pc := AtWait)])
  }

  function Wait(s: State, c: nat): State
    requires c < |s.cores|
  {
    var k := s.cores[c];
    if s.pending == {} then Put(s, c, k.(pc := AtCheck)) else s
  }

  function Check(s: State, c: nat): State
    requires c < |s.cores|
  {
    var k := s.cores[c];
    Put(s, c, k.(pc := AtCount))
  }

  function LoadCount(s: State, c: nat): State
    requires c < |s.cores|
  {
    var k := s.cores[c];
    Put(s, c, k.(n := s.count, pc := AtStore))
  }

  function StoreCount(s: State, c: nat): State
    requires c < |s.cores|
  {
    var k := s.cores[c];
    Put(s, c, k.(pc := AtUnlock)).(count := k.n + 1, sections := s.sections + 1)
  }

  function Unlock(s: State, c: nat): State
    requires c < |s.cores|
  {
    var k := s.cores[c];
    Put(s, c, k.(pc := AtRestore)).(lock := false, owner := -1)
  }

  function RestoreFlags(s: State, c: nat): State
    requires c < |s.cores|
  {
    var k := s.cores[c];
    Put(s, c, k.(ifl := k.fl, pc := Out))
  }

  function MainStep(s: State, c: nat): State
    requires Enabled(s, Main(c))
  {
    match s.cores[c].pc
    case AtInvlpg => Invlpg(s, c)
    case AtSave => SaveFlags(s, c)
    case AtSti => EnableInterrupts(s, c)
    case AtXchg => Exchange(s, c)
    case AtSpin => Spin(s, c)
    case AtMask => CollectMask(s, c)
    case AtAddr => WriteAddr(s, c)
    case AtPend => WritePending(s, c)
    case AtSend => SendIpi(s, c)
    case AtWait => Wait(s, c)
    case AtCheck => Check(s, c)
    case AtCount => LoadCount(s, c)
    case AtStore => StoreCount(s, c)
    case AtUnlock => Unlock(s, c)
    case AtRestore => RestoreFlags(s, c)
  }

  function IrqLoad(s: State, c: nat): State
    requires c < |s.cores|
  {
    var k := s.cores[c];
    Put(s, c, k.(h := Flush(s.addr)))
  }

  function IrqFlush(s: State, c: nat): State
    requires c < |s.cores| && s.cores[c].h.Flush?
  {
    var k := s.cores[c];
    Put(s, c, k.(tlb := k.tlb - {k.h.page}, h := Ack))
  }

  function IrqAck(s: State, c: nat): State
    requires c < |s.cores|
  {
    var k := s.cores[c];
    Put(s, c, k.(h := Eoi)).(pending := s.pending - {c})
  }

  function IrqEoi(s: State, c: nat): State
    requires c < |s.cores|
  {
    var k := s.cores[c];
    Put(s, c, k.(h := Idle, ifl := true))
  }

  function IrqStep(s: State, c: nat): State
    requires Enabled(s, Irq(c))
  {
    match s.cores[c].h
    case Load => IrqLoad(s, c)
    case Flush(_) => IrqFlush(s, c)
    case Ack => IrqAck(s, c)
    case Eoi => IrqEoi(s, c)
  }

  function Enter(s: State, c: nat, v: int): State
    requires c < |s.cores|
  {
    var k := s.cores[c];
    Put(s, c, k.(pc := AtInvlpg, vaddr := v, req := Version(s.pt, v), callIf := k.ifl))
  }

  function TakeIpi(s: State, c: nat): State
    requires c < |s.cores|
  {
    Put(s, c, s.cores[c].(ipi := false, ifl := false, h := Load))
  }

  function CacheEntry(s: State, c: nat, v: int): State
    requires c < |s.cores|
  {
    Put(s, c, s.cores[c].(tlb := s.cores[c].tlb[v := Version(s.pt, v)]))
  }

  function DropEntry(s: State, c: nat, v: int): State
    requires c < |s.cores|
  {
    Put(s, c, s.cores[c].(tlb := s.cores[c].tlb - {v}))
  }

  function ChangePage(s: State, v: int): State {
    s.(pt := s.pt[v := Version(s.pt, v) + 1])
  }

  function Apply(s: State, step: Step): State
    requires Enabled(s, step)
  {
    match step
    case Call(c, v) => Enter(s, c, v)
    case Main(c) => MainStep(s, c)
    case SpinOut(c) => Put(s, c, s.cores[c].(pc := AtCheck))
    case Timeout(c) => Put(s, c, s.cores[c].(pc := AtCount)).(pending := {})
    case Deliver(c) => TakeIpi(s, c)
    case Irq(c) => IrqStep(s, c)
    case SetIf(c, on) => Put(s, c, s.cores[c].(ifl := on))
    case PageChange(v) => ChangePage(s, v)
    case Refill(c, v) => CacheEntry(s, c, v)
    case Evict(c, v) => DropEntry(s, c, v)
  }

  // What boot leaves: CPU 0 runs and is counted, cpuCount counts the CPUs that
  // came up in time (others can be running too), and CPUs other than 0 can only
  // have been started through the local APIC.
  ghost predicate Configured(running: set<nat>, cpuCount: nat, lapic: bool, cores: nat) {
    && 0 in running && 1 <= cpuCount <= |running| && (!lapic ==> running == {0})
    && forall i :: i in running ==> i < cores
  }

  ghost predicate Init(s: State) {
    && Configured(s.running, s.cpuCount, s.lapic, |s.cores|)
    && !s.lock && s.pending == {} && s.owner == -1 && s.count == s.sections
    && forall c :: 0 <= c < |s.cores| ==> s.cores[c].pc.Out? && s.cores[c].h.Idle? && !s.cores[c].ipi
  }

  ghost predicate Run(states: seq<State>, steps: seq<Step>) {
    && |states| == |steps| + 1
    && Init(states[0])
    && forall i :: 0 <= i < |steps| ==> Enabled(states[i], steps[i]) && states[i + 1] == Apply(states[i], steps[i])
  }

  ghost predicate NoTimeout(steps: seq<Step>) {
    forall i :: 0 <= i < |steps| ==> !steps[i].Timeout?
  }

  // ---- The invariant ----

  // No entry of v older than req.
  predicate Fresh(tlb: map<int, nat>, v: int, req: nat) {
    v in tlb ==> tlb[v] >= req
  }

  predicate PreAck(h: Handler) {
    h.Load? || h.Flush? || h.Ack?
  }

  predicate Finished(pc: Pc) {
    pc.AtCount? || pc.AtStore? || pc.AtUnlock? || pc.AtRestore?
  }

  predicate BeforeSti(pc: Pc) {
    pc.AtInvlpg? || pc.AtSave? || pc.AtSti?
  }

  // The holder has sent its IPI and is waiting.
  predicate Sent(s: State) {
    0 <= s.owner < |s.cores| && (s.cores[s.owner].pc.AtWait? || s.cores[s.owner].pc.AtCheck?)
  }

  // The interrupt flag of the interrupted code.
  predicate ThreadIf(k: Core) {
    k.h.Idle? ==> k.ifl
  }

  ghost predicate FlagInv(k: Core) {
    && (!k.h.Idle? ==> !k.ifl)
    && (BeforeSti(k.pc) ==> ThreadIf(k) == k.callIf)
    && (k.pc.AtSti? ==> k.fl == k.callIf)
    && (!k.pc.Out? && !BeforeSti(k.pc) ==> ThreadIf(k) && k.fl == k.callIf)
  }

  ghost predicate CallInv(s: State, c: nat)
    requires c < |s.cores|
  {
    var k := s.cores[c];
    && (Holding(k.pc) <==> s.owner == c)
    && (!k.pc.Out? ==> c in s.running && k.req <= Version(s.pt, k.vaddr))
    && (!k.pc.Out? && !k.pc.AtInvlpg? ==> Fresh(k.tlb, k.vaddr, k.req) && Smp(s))
    && (k.pc.AtAddr? || k.pc.AtPend? || k.pc.AtSend? ==> k.mask == Counted(s) - {c})
    && (k.pc.AtPend? || k.pc.AtSend? || k.pc.AtWait? || k.pc.AtCheck? ==> s.addr == k.vaddr)
    && (k.pc.AtSend? ==> s.pending == k.mask)
    && (k.pc.AtStore? ==> k.n == s.count)
  }

  ghost predicate AckInv(s: State, c: nat)
    requires c < |s.cores|
  {
    var k := s.cores[c];
    c in Counted(s) ==>
      && (k.ipi || PreAck(k.h) ==> c in s.pending && Sent(s))
      && !(k.ipi && PreAck(k.h))
      && (c in s.pending && Sent(s) ==> k.ipi || PreAck(k.h))
      && (k.h.Flush? ==> k.h.page == s.addr)
      && (Sent(s) && c != s.owner && (c !in s.pending || k.h.Ack?) ==>
            Fresh(k.tlb, s.cores[s.owner].vaddr, s.cores[s.owner].req))
  }

  ghost predicate DoneInv(s: State, c: nat, d: nat)
    requires c < |s.cores| && d < |s.cores|
  {
    Finished(s.cores[c].pc) && d in Counted(s) ==> Fresh(s.cores[d].tlb, s.cores[c].vaddr, s.cores[c].req)
  }

  ghost predicate LockInv(s: State) {
    && (s.lock <==> s.owner >= 0) && -1 <= s.owner < |s.cores|
    && (s.pending != {} ==> s.owner >= 0 && (s.cores[s.owner].pc.AtSend? || Sent(s)))
    && (s.pending != {} ==> s.pending <= Counted(s) - {s.owner as nat})
    && s.count == s.sections
    && Configured(s.running, s.cpuCount, s.lapic, |s.cores|)
  }

  ghost predicate Inv(s: State) {
    && LockInv(s)
    && (forall c :: 0 <= c < |s.cores| ==> FlagInv(s.cores[c]))
    && (forall c :: 0 <= c < |s.cores| ==> CallInv(s, c))
    && (forall c :: 0 <= c < |s.cores| ==> AckInv(s, c))
    && (forall c, d :: 0 <= c < |s.cores| && 0 <= d < |s.cores| ==> DoneInv(s, c, d))
  }

  lemma InitInv(s: State)
    requires Init(s)
    ensures Inv(s)
  {}

  // What the invariant says of one core.
  ghost predicate CoreInv(s: State, d: nat)
    requires d < |s.cores|
  {
    FlagInv(s.cores[d]) && CallInv(s, d) && AckInv(s, d)
  }

  lemma InvAt(s: State, d: nat)
    requires Inv(s) && d < |s.cores|
    ensures CoreInv(s, d)
    ensures LockInv(s)
    ensures 0 <= s.owner < |s.cores| ==> CoreInv(s, s.owner) && DoneInv(s, s.owner, d)
  {}

  // The invariant of core d, and of the pair e, d, after the step.
  ghost predicate KeptAt(s: State, s': State, d: nat, e: nat) {
    |s'.cores| == |s.cores| && d < |s.cores| && e < |s.cores| &&
    LockInv(s') && CoreInv(s', d) && DoneInv(s', e, d) && CallFrame(s, s', d) && Returned(s, s', e, d)
  }

  // A call in progress on d remembers its arguments, and returns with the
  // interrupt flag it was made with.
  ghost predicate CallFrame(s: State, s': State, d: nat)
    requires d < |s.cores| == |s'.cores|
  {
    var k, k' := s.cores[d], s'.cores[d];
    && s'.running == s.running && s'.cpuCount == s.cpuCount && s'.lapic == s.lapic
    && (!k.pc.Out? ==> k'.vaddr == k.vaddr && k'.req == k.req && k'.callIf == k.callIf)
    && (!k.pc.Out? && k'.pc.Out? ==> k'.ifl == k.callIf)
  }

  // A call returning on e leaves nothing stale in the TLB of d.
  ghost predicate Returned(s: State, s': State, e: nat, d: nat)
    requires d < |s.cores| == |s'.cores| && e < |s.cores|
  {
    !s.cores[e].pc.Out? && s'.cores[e].pc.Out? && d in Reached(s, e) ==>
      Fresh(s'.cores[d].tlb, s.cores[e].vaddr, s.cores[e].req)
  }

  // What the invariant says of cores c, d and e.
  ghost predicate Known(s: State, c: nat, d: nat, e: nat) {
    && c < |s.cores| && d < |s.cores| && e < |s.cores|
    && LockInv(s) && CoreInv(s, c) && CoreInv(s, d) && CoreInv(s, e) && DoneInv(s, e, d)
    && (s.owner >= 0 ==> CoreInv(s, s.owner) && DoneInv(s, s.owner, d))
  }

  lemma InvKnown(s: State, c: nat, d: nat, e: nat)
    requires Inv(s) && c < |s.cores| && d < |s.cores| && e < |s.cores|
    ensures Known(s, c, d, e)
  {}

  lemma EnterKeeps(s: State, c: nat, v: int, d: nat, e: nat)
    requires Known(s, c, d, e) && Enabled(s, Call(c, v))
    ensures KeptAt(s, Enter(s, c, v), d, e)
  {
    hide CountedIn, Configured;
  }

  lemma ChangePageKeeps(s: State, v: int, d: nat, e: nat)
    requires Known(s, d, d, e)
    ensures KeptAt(s, ChangePage(s, v), d, e)
  {
    hide CountedIn, Configured;
  }

  lemma CacheEntryLocks(s: State, c: nat, v: int, d: nat, e: nat)
    requires Known(s, c, d, e)
    ensures LockInv(CacheEntry(s, c, v)) && AckInv(CacheEntry(s, c, v), d)
  {
    hide CountedIn, Configured;
  }

  lemma CacheEntryKeeps(s: State, c: nat, v: int, d: nat, e: nat)
    requires Known(s, c, d, e)
    ensures KeptAt(s, CacheEntry(s, c, v), d, e)
  {
    hide CountedIn, Configured, LockInv, AckInv;
    CacheEntryLocks(s, c, v, d, e);
  }

  lemma DropEntryLocks(s: State, c: nat, v: int, d: nat, e: nat)
    requires Known(s, c, d, e)
    ensures LockInv(DropEntry(s, c, v)) && AckInv(DropEntry(s, c, v), d)
  {
    hide CountedIn, Configured;
  }

  lemma DropEntryKeeps(s: State, c: nat, v: int, d: nat, e: nat)
    requires Known(s, c, d, e)
    ensures KeptAt(s, DropEntry(s, c, v), d, e)
  {
    hide CountedIn, Configured, LockInv, AckInv;
    DropEntryLocks(s, c, v, d, e);
  }

  lemma SetIfKeeps(s: State, c: nat, on: bool, d: nat, e: nat)
    requires Known(s, c, d, e) && s.cores[c].pc.Out? && s.cores[c].h.Idle?
    ensures KeptAt(s, Put(s, c, s.cores[c].(ifl := on)), d, e)
  {
    hide CountedIn, Configured;
  }

  lemma TakeIpiKeeps(s: State, c: nat, d: nat, e: nat)
    requires Known(s, c, d, e) && s.cores[c].ipi && s.cores[c].ifl && s.cores[c].h.Idle?
    ensures KeptAt(s, TakeIpi(s, c), d, e)
  {
    hide CountedIn, Configured;
    var s' := TakeIpi(s, c);
    assert LockInv(s');
    assert CallInv(s', d);
    assert AckInv(s', d);
    assert DoneInv(s', e, d);
  }

  lemma SpinOutKeeps(s: State, c: nat, d: nat, e: nat)
    requires Known(s, c, d, e) && s.cores[c].pc.AtWait? && s.cores[c].h.Idle?
    ensures KeptAt(s, Put(s, c, s.cores[c].(pc := AtCheck)), d, e)
  {
    hide CountedIn, Configured;
  }

  lemma IrqLoadKeeps(s: State, c: nat, d: nat, e: nat)
    requires Known(s, c, d, e) && s.cores[c].h.Load?
    ensures KeptAt(s, IrqLoad(s, c), d, e)
  {
    hide CountedIn, Configured;
  }

  lemma IrqFlushKeeps(s: State, c: nat, d: nat, e: nat)
    requires Known(s, c, d, e) && s.cores[c].h.Flush?
    ensures KeptAt(s, IrqFlush(s, c), d, e)
  {
    hide CountedIn, Configured;
  }

  lemma IrqAckLocks(s: State, c: nat, d: nat, e: nat)
    requires Known(s, c, d, e) && s.cores[c].h.Ack?
    ensures LockInv(IrqAck(s, c)) && AckInv(IrqAck(s, c), d)
  {
    hide CountedIn, Configured;
  }

  lemma IrqAckKeeps(s: State, c: nat, d: nat, e: nat)
    requires Known(s, c, d, e) && s.cores[c].h.Ack?
    ensures KeptAt(s, IrqAck(s, c), d, e)
  {
    hide CountedIn, Configured;
    IrqAckLocks(s, c, d, e);
  }

  lemma IrqEoiKeeps(s: State, c: nat, d: nat, e: nat)
    requires Known(s, c, d, e) && s.cores[c].h.Eoi?
    ensures KeptAt(s, IrqEoi(s, c), d, e)
  {
    hide CountedIn, Configured;
  }

  lemma InvlpgKeeps(s: State, c: nat, d: nat, e: nat)
    requires Known(s, c, d, e) && s.cores[c].pc.AtInvlpg? && s.cores[c].h.Idle?
    ensures KeptAt(s, Invlpg(s, c), d, e)
  {
    hide CountedIn, Configured;
  }

  lemma SaveFlagsKeeps(s: State, c: nat, d: nat, e: nat)
    requires Known(s, c, d, e) && s.cores[c].pc.AtSave? && s.cores[c].h.Idle?
    ensures KeptAt(s, SaveFlags(s, c), d, e)
  {
    hide CountedIn, Configured;
  }

  lemma EnableInterruptsKeeps(s: State, c: nat, d: nat, e: nat)
    requires Known(s, c, d, e) && s.cores[c].pc.AtSti? && s.cores[c].h.Idle?
    ensures KeptAt(s, EnableInterrupts(s, c), d, e)
  {
    hide CountedIn, Configured;
  }

  lemma ExchangeLocks(s: State, c: nat, d: nat, e: nat)
    requires Known(s, c, d, e) && s.cores[c].pc.AtXchg? && s.cores[c].h.Idle?
    ensures LockInv(Exchange(s, c)) && AckInv(Exchange(s, c), d)
  {
    hide CountedIn, Configured;
  }

  lemma ExchangeKeeps(s: State, c: nat, d: nat, e: nat)
    requires Known(s, c, d, e) && s.cores[c].pc.AtXchg? && s.cores[c].h.Idle?
    ensures KeptAt(s, Exchange(s, c), d, e)
  {
    hide CountedIn, Configured, AckInv;
    ExchangeLocks(s, c, d, e);
  }

  lemma SpinKeeps(s: State, c: nat, d: nat, e: nat)
    requires Known(s, c, d, e) && s.cores[c].pc.AtSpin? && s.cores[c].h.Idle?
    ensures KeptAt(s, Spin(s, c), d, e)
  {
    hide CountedIn, Configured;
  }

  lemma CollectMaskKeeps(s: State, c: nat, d: nat, e: nat)
    requires Known(s, c, d, e) && s.cores[c].pc.AtMask? && s.cores[c].h.Idle?
    ensures KeptAt(s, CollectMask(s, c), d, e)
  {
    hide CountedIn, Configured;
  }

  lemma WriteAddrKeeps(s: State, c: nat, d: nat, e: nat)
    requires Known(s, c, d, e) && s.cores[c].pc.AtAddr? && s.cores[c].h.Idle?
    ensures KeptAt(s, WriteAddr(s, c), d, e)
  {
    hide CountedIn, Configured;
  }

  lemma WritePendingKeeps(s: State, c: nat, d: nat, e: nat)
    requires Known(s, c, d, e) && s.cores[c].pc.AtPend? && s.cores[c].h.Idle?
    ensures KeptAt(s, WritePending(s, c), d, e)
  {
    hide CountedIn, Configured;
  }

  lemma SendIpiKeeps(s: State, c: nat, d: nat, e: nat)
    requires Known(s, c, d, e) && s.cores[c].pc.AtSend? && s.cores[c].h.Idle?
    ensures KeptAt(s, SendIpi(s, c), d, e)
  {
    hide CountedIn, Configured;
  }

  lemma WaitKeeps(s: State, c: nat, d: nat, e: nat)
    requires Known(s, c, d, e) && s.cores[c].pc.AtWait? && s.cores[c].h.Idle?
    ensures KeptAt(s, Wait(s, c), d, e)
  {
    hide CountedIn, Configured;
  }

  lemma CheckKeeps(s: State, c: nat, d: nat, e: nat)
    requires Known(s, c, d, e) && s.cores[c].pc.AtCheck? && s.pending == {} && s.cores[c].h.Idle?
    ensures KeptAt(s, Check(s, c), d, e)
  {
    hide CountedIn, Configured;
  }

  lemma LoadCountKeeps(s: State, c: nat, d: nat, e: nat)
    requires Known(s, c, d, e) && s.cores[c].pc.AtCount? && s.cores[c].h.Idle?
    ensures KeptAt(s, LoadCount(s, c), d, e)
  {
    hide CountedIn, Configured;
  }

  lemma StoreCountKeeps(s: State, c: nat, d: nat, e: nat)
    requires Known(s, c, d, e) && s.cores[c].pc.AtStore? && s.cores[c].h.Idle?
    ensures KeptAt(s, StoreCount(s, c), d, e)
  {
    hide CountedIn, Configured;
  }

  lemma UnlockKeeps(s: State, c: nat, d: nat, e: nat)
    requires Known(s, c, d, e) && s.cores[c].pc.AtUnlock? && s.cores[c].h.Idle?
    ensures KeptAt(s, Unlock(s, c), d, e)
  {
    hide CountedIn, Configured;
  }

  lemma RestoreFlagsKeeps(s: State, c: nat, d: nat, e: nat)
    requires Known(s, c, d, e) && s.cores[c].pc.AtRestore? && s.cores[c].h.Idle?
    ensures KeptAt(s, RestoreFlags(s, c), d, e)
  {
    hide CountedIn, Configured;
  }

  lemma MainKeeps(s: State, c: nat, d: nat, e: nat)
    requires Inv(s) && Enabled(s, Main(c)) && d < |s.cores| && e < |s.cores|
    ensures KeptAt(s, MainStep(s, c), d, e)
  {
    hide Inv, LockInv, CoreInv, DoneInv, Counted, Put, Invlpg, SaveFlags, EnableInterrupts, Exchange, Spin, CollectMask, WriteAddr, WritePending, SendIpi, Wait, Check, LoadCount, StoreCount, Unlock, RestoreFlags,
         KeptAt;
    InvKnown(s, c, d, e);
    match s.cores[c].pc
    case AtInvlpg => InvlpgKeeps(s, c, d, e);
    case AtSave => SaveFlagsKeeps(s, c, d, e);
    case AtSti => EnableInterruptsKeeps(s, c, d, e);
    case AtXchg => ExchangeKeeps(s, c, d, e);
    case AtSpin => SpinKeeps(s, c, d, e);
    case AtMask => CollectMaskKeeps(s, c, d, e);
    case AtAddr => WriteAddrKeeps(s, c, d, e);
    case AtPend => WritePendingKeeps(s, c, d, e);
    case AtSend => SendIpiKeeps(s, c, d, e);
    case AtWait => WaitKeeps(s, c, d, e);
    case AtCheck => CheckKeeps(s, c, d, e);
    case AtCount => LoadCountKeeps(s, c, d, e);
    case AtStore => StoreCountKeeps(s, c, d, e);
    case AtUnlock => UnlockKeeps(s, c, d, e);
    case AtRestore => RestoreFlagsKeeps(s, c, d, e);
  }

  lemma StepKeepsAt(s: State, step: Step, d: nat, e: nat)
    requires Inv(s) && Enabled(s, step) && !step.Timeout? && d < |s.cores| && e < |s.cores|
    ensures KeptAt(s, Apply(s, step), d, e)
  {
    hide Inv, LockInv, CoreInv, DoneInv, Counted, Put, Invlpg, SaveFlags, EnableInterrupts, Exchange, Spin, CollectMask, WriteAddr, WritePending, SendIpi, Wait, Check, LoadCount, StoreCount, Unlock, RestoreFlags,
         Enter, TakeIpi, CacheEntry, DropEntry, ChangePage, IrqLoad, IrqFlush, IrqAck, IrqEoi, MainStep, KeptAt;
    if !step.PageChange? { InvKnown(s, step.c, d, e); } else { InvKnown(s, d, d, e); }
    match step
    case Call(c, v) => EnterKeeps(s, c, v, d, e);
    case Main(c) => MainKeeps(s, c, d, e);
    case SpinOut(c) => SpinOutKeeps(s, c, d, e);
    case Deliver(c) => TakeIpiKeeps(s, c, d, e);
    case Irq(c) =>
      match s.cores[c].h {
        case Load => IrqLoadKeeps(s, c, d, e);
        case Flush(_) => IrqFlushKeeps(s, c, d, e);
        case Ack => IrqAckKeeps(s, c, d, e);
        case Eoi => IrqEoiKeeps(s, c, d, e);
      }
    case SetIf(c, on) => SetIfKeeps(s, c, on, d, e);
    case PageChange(v) => ChangePageKeeps(s, v, d, e);
    case Refill(c, v) => CacheEntryKeeps(s, c, v, d, e);
    case Evict(c, v) => DropEntryKeeps(s, c, v, d, e);
  }

  // Every step but the timeout keeps the invariant.
  lemma StepKeeps(s: State, step: Step)
    requires Inv(s) && Enabled(s, step) && !step.Timeout?
    ensures Inv(Apply(s, step))
  {
    hide LockInv, FlagInv, CallInv, AckInv, DoneInv, Apply, Enabled, CallFrame, Returned;
    assert |s.cores| > 0 by { NonEmpty(s); }
    var s' := Apply(s, step);
    forall d, e | 0 <= d < |s.cores| && 0 <= e < |s.cores|
      ensures KeptAt(s, s', d, e)
    {
      StepKeepsAt(s, step, d, e);
    }
    assert KeptAt(s, s', 0, 0);
    forall d | 0 <= d < |s'.cores|
      ensures FlagInv(s'.cores[d]) && CallInv(s', d) && AckInv(s', d)
    {
      assert KeptAt(s, s', d, 0);
    }
    forall c, d | 0 <= c < |s'.cores| && 0 <= d < |s'.cores|
      ensures DoneInv(s', c, d)
    {
      assert KeptAt(s, s', d, c);
    }
  }

  lemma NonEmpty(s: State)
    requires Inv(s)
    ensures |s.cores| > 0
  {}

  lemma {:induction false} RunInv(states: seq<State>, steps: seq<Step>, i: nat)
    requires Run(states, steps) && NoTimeout(steps) && i < |states|
    ensures Inv(states[i])
  {
    if i == 0 {
      InitInv(states[0]);
    } else {
      RunInv(states, steps, i - 1);
      StepKeeps(states[i - 1], steps[i - 1]);
    }
  }

  // ---- Mutual exclusion and the counter ----

  // At most one sender is between lock and unlock, and the unlocked increment
  // of tlb_shootdowns loses no count.
  lemma MutualExclusion(states: seq<State>, steps: seq<Step>, i: nat, c: nat, d: nat)
    requires Run(states, steps) && NoTimeout(steps) && i < |states|
    requires c < |states[i].cores| && d < |states[i].cores|
    ensures Holding(states[i].cores[c].pc) && Holding(states[i].cores[d].pc) ==> c == d
    ensures Holding(states[i].cores[c].pc) ==> states[i].lock
    ensures states[i].count == states[i].sections
  {
    RunInv(states, steps, i);
    InvAt(states[i], c);
    InvAt(states[i], d);
  }

  // ---- Coherence ----

  ghost predicate During(states: seq<State>, c: nat, i: nat, j: nat)
    requires i < j < |states|
  {
    forall m :: i < m <= j ==> c < |states[m].cores| && !states[m].cores[c].pc.Out?
  }

  lemma {:induction false} CallRemembers(states: seq<State>, steps: seq<Step>, i: nat, j: nat, c: nat, v: int)
    requires Run(states, steps) && NoTimeout(steps) && i < j < |states|
    requires steps[i] == Call(c, v) && During(states, c, i, j)
    ensures var k := states[j].cores[c];
            k.vaddr == v && k.req == Version(states[i].pt, v) && k.callIf == states[i].cores[c].ifl
    ensures Reached(states[j], c) == Reached(states[i], c) && states[j].running == states[i].running
    ensures |states[j].cores| == |states[i].cores|
  {
    hide Inv, MainStep, IrqStep, Init, Fresh, LockInv, CoreInv, DoneInv, Returned;
    if j == i + 1 {
      assert states[j] == Apply(states[i], steps[i]);
    } else {
      CallRemembers(states, steps, i, j - 1, c, v);
      RunInv(states, steps, j - 1);
      assert Enabled(states[j - 1], steps[j - 1]) && states[j] == Apply(states[j - 1], steps[j - 1]);
      hide Apply, Enabled;
      StepKeepsAt(states[j - 1], steps[j - 1], c, c);
    }
  }

  // The call of tlb_shootdown(v) that c makes in step i returns in step j.
  ghost predicate Returns(states: seq<State>, steps: seq<Step>, i: nat, j: nat, c: nat, v: int) {
    && i < j < |steps| && |states| == |steps| + 1
    && steps[i] == Call(c, v) && During(states, c, i, j)
    && c < |states[j + 1].cores| && states[j + 1].cores[c].pc.Out?
  }

  // When tlb_shootdown(v) returns, neither the caller nor any counted CPU
  // caches a translation of v older than the page table was when it was called,
  // and the caller's interrupt flag is what it was.  Where the protocol is
  // skipped, only the caller is covered.
  lemma Coherence(states: seq<State>, steps: seq<Step>, i: nat, j: nat, c: nat, v: int)
    requires Run(states, steps) && NoTimeout(steps) && Returns(states, steps, i, j, c, v)
    ensures forall d :: d in Reached(states[i], c) && d < |states[j + 1].cores| ==>
              Fresh(states[j + 1].cores[d].tlb, v, Version(states[i].pt, v))
    ensures states[j + 1].cores[c].ifl == states[i].cores[c].ifl
    ensures c in states[i].running && states[j + 1].running == states[i].running
  {
    hide Inv, MainStep, IrqStep, Init, Fresh, LockInv, CoreInv, DoneInv, Reached, Version;
    CallRemembers(states, steps, i, j, c, v);
    RunInv(states, steps, j);
    assert Enabled(states[i], steps[i]);
    assert Enabled(states[j], steps[j]) && states[j + 1] == Apply(states[j], steps[j]);
    hide Apply, Enabled;
    StepKeepsAt(states[j], steps[j], c, c);
    forall d | d in Reached(states[i], c) && d < |states[j + 1].cores|
      ensures Fresh(states[j + 1].cores[d].tlb, v, Version(states[i].pt, v))
    {
      StepKeepsAt(states[j], steps[j], d, c);
    }
  }

  // No running CPU caches an entry of v older than req.
  ghost predicate NoneStale(s: State, v: int, req: nat) {
    forall d :: d in s.running && d < |s.cores| ==> Fresh(s.cores[d].tlb, v, req)
  }

  // Every call that returns leaves no running CPU with a stale entry.
  ghost predicate Coherent(states: seq<State>, steps: seq<Step>) {
    forall i: nat, j: nat, c: nat, v: int :: Returns(states, steps, i, j, c, v) ==>
      NoneStale(states[j + 1], v, Version(states[i].pt, v))
  }

  // So it is when the mask loop sees every running CPU.
  lemma CoherenceEverywhere(states: seq<State>, steps: seq<Step>)
    requires Run(states, steps) && NoTimeout(steps)
    requires forall d :: d in states[0].running ==> d < states[0].cpuCount
    ensures Coherent(states, steps)
  {
    forall i: nat, j: nat, c: nat, v: int | Returns(states, steps, i, j, c, v)
      ensures NoneStale(states[j + 1], v, Version(states[i].pt, v))
    {
      Coherence(states, steps, i, j, c, v);
      ConfigurationFixed(states, steps, i);
      RunInv(states, steps, i);
      AllReached(states[i], c);
    }
  }

  lemma AllReached(s: State, c: nat)
    requires Inv(s) && c in s.running && forall d :: d in s.running ==> d < s.cpuCount
    ensures s.running <= Reached(s, c)
  {}

  lemma {:induction false} ConfigurationFixed(states: seq<State>, steps: seq<Step>, i: nat)
    requires Run(states, steps) && NoTimeout(steps) && i < |states|
    ensures states[i].running == states[0].running && states[i].cpuCount == states[0].cpuCount
    ensures states[i].lapic == states[0].lapic && |states[i].cores| == |states[0].cores|
  {
    hide Inv, Apply, Enabled, Init, Returned, LockInv, CoreInv, DoneInv;
    if i > 0 {
      ConfigurationFixed(states, steps, i - 1);
      RunInv(states, steps, i - 1);
      assert |states[i - 1].cores| > 0 by { NonEmpty(states[i - 1]); }
      StepKeepsAt(states[i - 1], steps[i - 1], 0, 0);
    }
  }
}
