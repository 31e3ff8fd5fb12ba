/** Sliced execution with host services (src/runtime/a32_service_dispatch.cpp and the
    step loop of src/cpu/dynarmic_cpu.cpp:205-219), and the single-step interpreter it
    refines.  `W` is everything outside the core registers: guest memory and whatever
    the host services keep. */
module ServiceDispatch {
  import opened Words

  type Registers = r: seq<u32> | |r| == 16 witness [0, 0, 0, 0, 0, 0, 0, 0, 0, 0, 0, 0, 0, 0, 0, 0]

  datatype Cpu = Cpu(regs: Registers, cpsr: u32)
  {
    function Pc(): u32 { regs[15] }
  }

  datatype InstructionSet = Arm | Thumb

  /** What one step did; a supervisor call raises an exception as well. */
  datatype Stepped<W> = Stepped(cpu: Cpu, world: W, exception: bool, fault: bool, svc: Option<u32>)
  {
    predicate Raised() { exception || svc.Some? }
  }

  datatype Disposition = Handled | Unhandled | Failed

  datatype Serviced<W> = Serviced(cpu: Cpu, world: W, disposition: Disposition)

  /** Any step function and any service handler. */
  datatype Machine<!W> = Machine(step: (Cpu, W) -> Stepped<W>, service: (Cpu, W, u32) -> Serviced<W>)

  datatype Request = Request(instructionSet: InstructionSet, entryPc: u32, regs: Registers, count: nat, stopPc: Option<u32>,
                             initialCpsr: Option<u32>)
  {
    /** The registers a CPU starts from. */
    function Start(): Cpu {
      Cpu(regs[15 := entryPc], match initialCpsr
                               case Some(c) => c
                               case None => if instructionSet.Thumb? then 0x30 else 0x10)
    }
  }

  /** The state a request asks for: its registers with the entry address as program counter, and its
      CPSR; without one, user mode (bits 0x10) with the T bit (0x20) for Thumb code. */
  predicate StartsAt(request: Request, cpu: Cpu) {
    && cpu.Pc() == request.entryPc && (forall k :: 0 <= k < 15 ==> cpu.regs[k] == request.regs[k])
    && match request.initialCpsr
       case Some(c) => cpu.cpsr == c
       case None => BitAnd(cpu.cpsr, 0x1f) == 0x10 && (BitSet(cpu.cpsr, 0x20) <==> request.instructionSet.Thumb?) && cpu.cpsr < 0x40
  }

  /** It is the state the CPU starts from. */
  lemma {:induction false} StartExact(request: Request, cpu: Cpu)
    ensures StartsAt(request, cpu) <==> cpu == request.Start()
  {
    hide BitAnd;
    var start := request.Start();
    assert forall k :: 0 <= k < 15 ==> start.regs[k] == request.regs[k];
    ModeBits(cpu.cpsr);
    ModeBits(start.cpsr);
    if StartsAt(request, cpu) {
      assert cpu.regs == start.regs;
    }
  }

  lemma {:induction false} ModeBits(c: u32)
    ensures BitAnd(c, 0x1f) == c % 32
    ensures c < 0x40 ==> (BitSet(c, 0x20) <==> c >= 0x20)
  {
    assert IsPowerOfTwo(1) && IsPowerOfTwo(2) && IsPowerOfTwo(4) && IsPowerOfTwo(8) && IsPowerOfTwo(16) && IsPowerOfTwo(32);
    MaskIsRemainder(c, 32);
    TwiceBit(c, 16);
    TwiceBit(c / 2, 8);
    TwiceBit(c / 4, 4);
    TwiceBit(c / 8, 2);
    TwiceBit(c / 16, 1);
    OneBit(c / 32);
    assert c / 2 / 2 == c / 4 && c / 4 / 2 == c / 8 && c / 8 / 2 == c / 16 && c / 16 / 2 == c / 32;
  }

  predicate AtStop(cpu: Cpu, stop: Option<u32>) { stop.Some? && cpu.Pc() == stop.value }

  // ------------------------------------------------------------------------------ one slice

  datatype Slice<W> = Slice(cpu: Cpu, world: W, executed: nat, raised: bool, fault: bool, stopped: bool, svc: Option<u32>)

  /** Step until the stop address, an exception, a fault or the count. */
  function Run<W>(m: Machine<W>, cpu: Cpu, w: W, count: nat, stop: Option<u32>): (s: Slice<W>)
    ensures s.executed <= count
    ensures s.svc.Some? ==> s.raised && s.executed >= 1
    ensures !s.raised && !s.fault && !s.stopped ==> s.executed == count
    ensures s.stopped ==> !s.raised && !s.fault
    decreases count
  {
    if AtStop(cpu, stop) then Slice(cpu, w, 0, false, false, true, None)
    else if count == 0 then Slice(cpu, w, 0, false, false, false, None)
    else
      var t := m.step(cpu, w);
      if t.Raised() || t.fault then Slice(t.cpu, t.world, 1, t.Raised(), t.fault, false, t.svc)
      else
        var rest := Run(m, t.cpu, t.world, count - 1, stop);
        rest.(executed := rest.executed + 1)
  }

  /** cpu::execute. */
  method Execute<W>(m: Machine<W>, request: Request, world: W) returns (s: Slice<W>)
    ensures s == Run(m, request.Start(), world, request.count, request.stopPc)
    ensures forall cpu :: StartsAt(request, cpu) ==> s == Run(m, cpu, world, request.count, request.stopPc)
  {
    forall cpu | StartsAt(request, cpu) ensures cpu == request.Start() {
      StartExact(request, cpu);
    }
    hide StartsAt;
    var cpu, w := request.Start(), world;
    var executed: nat := 0;
    var raised, fault := false, false;
    var svc: Option<u32> := None;
    var stopped := request.stopPc.Some? && cpu.regs[15] == request.stopPc.value;
    ghost var full := Run(m, cpu, w, request.count, request.stopPc);
    while executed < request.count && !stopped && !raised && !fault
      invariant executed <= request.count
      invariant raised || fault ==> full == Slice(cpu, w, executed, raised, fault, false, svc) && !stopped
      invariant !raised && !fault ==> svc == None && stopped == AtStop(cpu, request.stopPc)
      invariant !raised && !fault ==>
                  var rest := Run(m, cpu, w, request.count - executed, request.stopPc);
                  full == rest.(executed := rest.executed + executed)
    {
      var t := m.step(cpu, w);
      cpu, w, raised, fault, svc := t.cpu, t.world, t.Raised(), t.fault, t.svc;
      executed := executed + 1;
      stopped := !raised && !fault && request.stopPc.Some? && cpu.regs[15] == request.stopPc.value;
    }
    return Slice(cpu, w, executed, raised, fault, stopped, svc);
  }

  // --------------------------------------------------------------------------- the reference

  datatype DispatchError =
    | MemoryFault | CpuException | ServiceLimitExceeded | ServiceUnhandled | ServiceFailed | InstructionLimitExceeded

  datatype Outcome<W> = Outcome(error: Option<DispatchError>, cpu: Cpu, world: W, executed: nat, services: nat, stopped: bool,
                                failingSvc: Option<u32>)

  /** One loop under the total budget: step, and handle each supervisor call on the spot. */
  function Interpret<W>(m: Machine<W>, cpu: Cpu, w: W, left: nat, stop: Option<u32>, maxServices: nat, executed: nat, services: nat)
    : (o: Outcome<W>)
    requires services <= maxServices
    ensures o.executed <= executed + left && o.services <= maxServices
    ensures o.stopped ==> o.error.None? && AtStop(o.cpu, stop)
    decreases left
  {
    if AtStop(cpu, stop) then Outcome(None, cpu, w, executed, services, true, None)
    else if left == 0 then Outcome(if stop.Some? then Some(InstructionLimitExceeded) else None, cpu, w, executed, services, false, None)
    else
      var t := m.step(cpu, w);
      if t.fault then Outcome(Some(MemoryFault), t.cpu, t.world, executed + 1, services, false, None)
      else if t.svc.Some? then
        if services == maxServices then
          Outcome(Some(ServiceLimitExceeded), t.cpu, t.world, executed + 1, services, false, t.svc)
        else
          var h := m.service(t.cpu, t.world, t.svc.value);
          match h.disposition
          case Unhandled => Outcome(Some(ServiceUnhandled), h.cpu, h.world, executed + 1, services, false, t.svc)
          case Failed => Outcome(Some(ServiceFailed), h.cpu, h.world, executed + 1, services, false, t.svc)
          case Handled => Interpret(m, h.cpu, h.world, left - 1, stop, maxServices, executed + 1, services + 1)
      else if t.exception then Outcome(Some(CpuException), t.cpu, t.world, executed + 1, services, false, None)
      else Interpret(m, t.cpu, t.world, left - 1, stop, maxServices, executed + 1, services)
  }

  /** What the dispatcher makes of a slice. */
  function AfterSlice<W>(m: Machine<W>, s: Slice<W>, left: nat, stop: Option<u32>, maxServices: nat, executed: nat, services: nat)
    : Outcome<W>
    requires services <= maxServices
  {
    if s.fault then Outcome(Some(MemoryFault), s.cpu, s.world, executed, services, false, None)
    else if s.svc.Some? then
      if services == maxServices then Outcome(Some(ServiceLimitExceeded), s.cpu, s.world, executed, services, false, s.svc)
      else
        var h := m.service(s.cpu, s.world, s.svc.value);
        match h.disposition
        case Unhandled => Outcome(Some(ServiceUnhandled), h.cpu, h.world, executed, services, false, s.svc)
        case Failed => Outcome(Some(ServiceFailed), h.cpu, h.world, executed, services, false, s.svc)
        case Handled => Interpret(m, h.cpu, h.world, left, stop, maxServices, executed, services + 1)
    else if s.raised then Outcome(Some(CpuException), s.cpu, s.world, executed, services, false, None)
    else if s.stopped then Outcome(None, s.cpu, s.world, executed, services, true, None)
    else Outcome(if stop.Some? then Some(InstructionLimitExceeded) else None, s.cpu, s.world, executed, services, false, None)
  }

  /** A slice is a stretch of the single loop. */
  lemma {:induction false} SliceIsStretch<W>(m: Machine<W>, cpu: Cpu, w: W, left: nat, stop: Option<u32>, maxServices: nat,
                                             executed: nat, services: nat)
    requires services <= maxServices
    ensures var s := Run(m, cpu, w, left, stop);
            Interpret(m, cpu, w, left, stop, maxServices, executed, services)
            == AfterSlice(m, s, left - s.executed, stop, maxServices, executed + s.executed, services)
    decreases left
  {
    if AtStop(cpu, stop) || left == 0 {
      return;
    }
    var t := m.step(cpu, w);
    if !t.Raised() && !t.fault {
      SliceIsStretch(m, t.cpu, t.world, left - 1, stop, maxServices, executed + 1, services);
    }
  }

  // -------------------------------------------------------------------------- the dispatcher

  /** execute_a32_with_services: the same final state, counts and outcome as the single
      loop, for every step function and handler. */
  method ExecuteWithServices<W>(m: Machine<W>, request: Request, world: W, maxServices: nat) returns (r: Outcome<W>)
    ensures r == Interpret(m, request.Start(), world, request.count, request.stopPc, maxServices, 0, 0)
    ensures forall cpu :: StartsAt(request, cpu) ==> r == Interpret(m, cpu, world, request.count, request.stopPc, maxServices, 0, 0)
    ensures r.executed <= request.count && r.services <= maxServices
  {
    forall cpu | StartsAt(request, cpu) ensures cpu == request.Start() {
      StartExact(request, cpu);
    }
    hide StartsAt;
    var current := request;
    var w := world;
    var remaining: nat := request.count;
    var executed: nat, services: nat := 0, 0;
    ghost var full := Interpret(m, request.Start(), world, request.count, request.stopPc, maxServices, 0, 0);
    while true
      invariant services <= maxServices && current.stopPc == request.stopPc
      invariant full == Interpret(m, current.Start(), w, remaining, request.stopPc, maxServices, executed, services)
      decreases remaining
    {
      current := current.(count := remaining);
      var s := Execute(m, current, w);
      SliceIsStretch(m, current.Start(), w, remaining, request.stopPc, maxServices, executed, services);
      // A slice never exceeds its count, so the corresponding check of the source cannot fire.
      remaining := remaining - s.executed;
      executed := executed + s.executed;
      if s.fault {
        return Outcome(Some(MemoryFault), s.cpu, s.world, executed, services, s.stopped, None);
      }
      if s.svc.Some? {
        if services >= maxServices {
          return Outcome(Some(ServiceLimitExceeded), s.cpu, s.world, executed, services, s.stopped, s.svc);
        }
        var h := m.service(s.cpu, s.world, s.svc.value);
        if h.disposition == Unhandled {
          return Outcome(Some(ServiceUnhandled), h.cpu, h.world, executed, services, s.stopped, s.svc);
        }
        if h.disposition == Failed {
          return Outcome(Some(ServiceFailed), h.cpu, h.world, executed, services, s.stopped, s.svc);
        }
        services := services + 1;
        if AtStop(h.cpu, request.stopPc) {
          return Outcome(None, h.cpu, h.world, executed, services, true, None);
        }
        if remaining == 0 {
          return Outcome(if request.stopPc.Some? then Some(InstructionLimitExceeded) else None, h.cpu, h.world, executed, services,
                         s.stopped, None);
        }
        current := current.(regs := h.cpu.regs, entryPc := h.cpu.Pc(), initialCpsr := Some(h.cpu.cpsr));
        w := h.world;
        Resumed(current, h.cpu);
        continue;
      }
      if s.raised {
        return Outcome(Some(CpuException), s.cpu, s.world, executed, services, s.stopped, None);
      }
      if s.stopped {
        return Outcome(None, s.cpu, s.world, executed, services, true, None);
      }
      return Outcome(if request.stopPc.Some? then Some(InstructionLimitExceeded) else None, s.cpu, s.world, executed, services, false, None);
    }
  }

  /** Resuming from a snapshot starts exactly there. */
  lemma {:induction false} Resumed(request: Request, cpu: Cpu)
    requires request.regs == cpu.regs && request.entryPc == cpu.Pc() && request.initialCpsr == Some(cpu.cpsr)
    ensures request.Start() == cpu
  {
    assert cpu.regs[15 := cpu.regs[15]] == cpu.regs;
  }

  /** Larger budgets never change a run that did not end on a budget. */
  lemma {:induction false} BudgetsMonotone<W>(m: Machine<W>, cpu: Cpu, w: W, left: nat, more: nat, stop: Option<u32>, maxServices: nat,
                                              moreServices: nat, executed: nat, services: nat)
    requires services <= maxServices <= moreServices && left <= more
    requires var o := Interpret(m, cpu, w, left, stop, maxServices, executed, services);
             o.stopped || (o.error.Some? && o.error.value !in {InstructionLimitExceeded, ServiceLimitExceeded})
    ensures Interpret(m, cpu, w, more, stop, moreServices, executed, services)
            == Interpret(m, cpu, w, left, stop, maxServices, executed, services)
    decreases left
  {
    if AtStop(cpu, stop) || left == 0 {
      return;
    }
    var t := m.step(cpu, w);
    if t.fault {
      return;
    }
    if t.svc.Some? {
      var h := m.service(t.cpu, t.world, t.svc.value);
      if h.disposition.Handled? {
        BudgetsMonotone(m, h.cpu, h.world, left - 1, more - 1, stop, maxServices, moreServices, executed + 1, services + 1);
      }
      return;
    }
    if !t.exception {
      BudgetsMonotone(m, t.cpu, t.world, left - 1, more - 1, stop, maxServices, moreServices, executed + 1, services);
    }
  }
}
