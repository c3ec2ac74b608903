/**
 The VM-exit path: the assembly trampoline saves fifteen registers on the host stack, the C handler edits
 them there through a struct, and the trampoline restores them and resumes the guest.
 */
module VmExit {
  import opened Wrappers
  import opened Bytes

  const TWO_8 := 0x100
  const TWO_16 := 0x1_0000
  const TWO_32 := 0x1_0000_0000

  type U32 = x: int | 0 <= x < TWO_32

  datatype Reg = RAX | RCX | RDX | RBX | RBP | RSI | RDI | R8 | R9 | R10 | R11 | R12 | R13 | R14 | R15

  /** The fifteen general-purpose registers other than RSP. */
  datatype Gprs = Gprs(
    rax: U64, rcx: U64, rdx: U64, rbx: U64, rbp: U64, rsi: U64, rdi: U64, r8: U64,
    r9: U64, r10: U64, r11: U64, r12: U64, r13: U64, r14: U64, r15: U64)
  {
    function Get(r: Reg): U64 {
      match r
      case RAX => rax case RCX => rcx case RDX => rdx case RBX => rbx
      case RBP => rbp case RSI => rsi case RDI => rdi case R8 => r8
      case R9 => r9 case R10 => r10 case R11 => r11 case R12 => r12
      case R13 => r13 case R14 => r14 case R15 => r15
    }

    function Set(r: Reg, v: U64): Gprs {
      match r
      case RAX => this.(rax := v) case RCX => this.(rcx := v) case RDX => this.(rdx := v) case RBX => this.(rbx := v)
      case RBP => this.(rbp := v) case RSI => this.(rsi := v) case RDI => this.(rdi := v) case R8 => this.(r8 := v)
      case R9 => this.(r9 := v) case R10 => this.(r10 := v) case R11 => this.(r11 := v) case R12 => this.(r12 := v)
      case R13 => this.(r13 := v) case R14 => this.(r14 := v) case R15 => this.(r15 := v)
    }
  }

  lemma GetAfterSet(g: Gprs, r: Reg, v: U64, x: Reg)
    ensures g.Set(r, v).Get(x) == if x == r then v else g.Get(x)
  {
  }

  lemma SameRegisters(g: Gprs, h: Gprs)
    requires forall r: Reg :: g.Get(r) == h.Get(r)
    ensures g == h
  {
    assert g.Get(RAX) == h.Get(RAX) && g.Get(RCX) == h.Get(RCX) && g.Get(RDX) == h.Get(RDX);
    assert g.Get(RBX) == h.Get(RBX) && g.Get(RBP) == h.Get(RBP) && g.Get(RSI) == h.Get(RSI);
    assert g.Get(RDI) == h.Get(RDI) && g.Get(R8) == h.Get(R8) && g.Get(R9) == h.Get(R9);
    assert g.Get(R10) == h.Get(R10) && g.Get(R11) == h.Get(R11) && g.Get(R12) == h.Get(R12);
    assert g.Get(R13) == h.Get(R13) && g.Get(R14) == h.Get(R14) && g.Get(R15) == h.Get(R15);
  }

  // ---------- CPUID ----------

  datatype CpuidResult = CpuidResult(eax: U32, ebx: U32, ecx: U32, edx: U32)

  type Cpuid = (U32, U32) -> CpuidResult

  /** What executing CPUID does to the registers: the four results, with their upper halves cleared. */
  ghost function CpuidApplied(g: Gprs, cpuid: Cpuid): Gprs {
    var r := cpuid(g.rax % TWO_32, g.rcx % TWO_32);
    g.(rax := r.eax, rbx := r.ebx, rcx := r.ecx, rdx := r.edx)
  }

  // ---------- The host processor during an exit ----------

  type Memory = map<int, U64>

  function Load(mem: Memory, a: int): U64 {
    if a in mem then mem[a] else 0
  }

  datatype Vmcs = Vmcs(exitReason: U32, instructionLen: U64, guestRip: U64, guestRsp: U64)

  datatype Status = Running | Resumed | Trapped

  /** The registers besides the general-purpose ones that a call need not preserve: XMM0 to XMM5, the upper
      halves of the YMM registers and the x87 stack, in some fixed order. The trampoline does not save them. */
  type Vectors = seq<nat>

  datatype Host = Host(
    gpr: Gprs, vectors: Vectors, rsp: int, zf: bool, mem: Memory, vmcs: Vmcs, status: Status)

  const HOST_STACK_SIZE := 16 * 1024

  /** The stack pointer that every exit starts with, for a host stack at `base`. */
  function HostRsp(base: nat): nat {
    base + HOST_STACK_SIZE - 0x20
  }

  /** The environment of a run: the CPUID instruction, and where the host stack is. */
  datatype Machine = Machine(cpuid: Cpuid, base: nat)

  ghost predicate FitsAddressSpace(m: Machine) {
    m.base + HOST_STACK_SIZE <= TWO_64
  }

  /** What the compiled handler may leave behind: values in the general-purpose registers that a call does not
      preserve, the vector registers if it uses them, and anything in its own stack frame and in the 32 bytes
      its caller reserves for it. */
  datatype Noise = Noise(regs: Gprs, vectors: Option<Vectors>, mem: Memory)

  function VectorsAfter(v: Vectors, noise: Noise): Vectors {
    if noise.vectors.Some? then noise.vectors.value else v
  }

  function Clobbered(g: Gprs, noise: Noise, al: nat): Gprs
    requires al < TWO_8
  {
    var n := noise.regs;
    g.(rax := n.rax - n.rax % TWO_8 + al,
       rcx := n.rcx, rdx := n.rdx, r8 := n.r8, r9 := n.r9, r10 := n.r10, r11 := n.r11)
  }

  function Scribbled(mem: Memory, noise: Noise, base: nat, rsp: int): Memory {
    mem + map a | a in noise.mem && base <= a && a + 8 <= rsp + 0x20 :: noise.mem[a]
  }

  /** Byte offsets of the fields of `HV_GUEST_REGISTERS`, in declaration order. */
  function FieldOffset(r: Reg): nat {
    match r
    case R15 => 0x00 case R14 => 0x08 case R13 => 0x10 case R12 => 0x18
    case R11 => 0x20 case R10 => 0x28 case R9 => 0x30 case R8 => 0x38
    case RDI => 0x40 case RSI => 0x48 case RBP => 0x50 case RBX => 0x58
    case RDX => 0x60 case RCX => 0x68 case RAX => 0x70
  }

  const EXIT_REASON_CPUID := 10

  /** The four stores through the struct pointer. */
  function StoreResults(mem: Memory, regs: int, r: CpuidResult): Memory {
    mem[regs + FieldOffset(RAX) := r.eax][regs + FieldOffset(RBX) := r.ebx]
       [regs + FieldOffset(RCX) := r.ecx][regs + FieldOffset(RDX) := r.edx]
  }

  function NextRip(v: Vmcs): U64 {
    ToU64(v.guestRip + v.instructionLen)
  }

  /** The C handler, called with RCX pointing to the saved registers. */
  function HandleVmExit(s: Host, m: Machine, noise: Noise): Host {
    var regs, mem := s.gpr.rcx, Scribbled(s.mem, noise, m.base, s.rsp);
    var vectors := VectorsAfter(s.vectors, noise);
    if s.vmcs.exitReason % TWO_16 != EXIT_REASON_CPUID then
      s.(mem := mem, gpr := Clobbered(s.gpr, noise, 1), vectors := vectors)
    else
      var r := m.cpuid(Load(mem, regs + FieldOffset(RAX)) % TWO_32, Load(mem, regs + FieldOffset(RCX)) % TWO_32);
      s.(mem := StoreResults(mem, regs, r), vmcs := s.vmcs.(guestRip := NextRip(s.vmcs)),
         gpr := Clobbered(s.gpr, noise, 0), vectors := vectors)
  }

  // ---------- The trampoline ----------

  datatype Instr =
    | Push(r: Reg)
    | Pop(r: Reg)
    | MovRcxRsp
    | SubRsp(n: nat)
    | AddRsp(n: nat)
    | CallHandler
    | TestAl
    | JnzBail
    | Vmresume
    | Int3

  const PUSH_ORDER: seq<Reg> := [RAX, RCX, RDX, RBX, RBP, RSI, RDI, R8, R9, R10, R11, R12, R13, R14, R15]
  const POP_ORDER: seq<Reg> := [R15, R14, R13, R12, R11, R10, R9, R8, RDI, RSI, RBP, RBX, RDX, RCX, RAX]

  function Pushes(order: seq<Reg>): (code: seq<Instr>)
    ensures |code| == |order|
  {
    seq(|order|, i requires 0 <= i < |order| => Push(order[i]))
  }

  function Pops(order: seq<Reg>): (code: seq<Instr>)
    ensures |code| == |order|
  {
    seq(|order|, i requires 0 <= i < |order| => Pop(order[i]))
  }

  const CALL_CODE: seq<Instr> := [MovRcxRsp, SubRsp(0x20), CallHandler, AddRsp(0x20), TestAl, JnzBail]

  /** `HvExitHandler`, instruction by instruction. */
  const EXIT_HANDLER: seq<Instr> := Pushes(PUSH_ORDER) + CALL_CODE + Pops(POP_ORDER) + [Vmresume, Int3]

  function Step(i: Instr, s: Host, m: Machine, noise: Noise): Host {
    if s.status != Running then s
    else
      match i
      case Push(r) => s.(rsp := s.rsp - 8, mem := s.mem[s.rsp - 8 := s.gpr.Get(r)])
      case Pop(r) => s.(rsp := s.rsp + 8, gpr := s.gpr.Set(r, Load(s.mem, s.rsp)))
      case MovRcxRsp => s.(gpr := s.gpr.(rcx := ToU64(s.rsp)))
      case SubRsp(n) => s.(rsp := s.rsp - n)
      case AddRsp(n) => s.(rsp := s.rsp + n)
      case CallHandler => HandleVmExit(s, m, noise)
      case TestAl => s.(zf := s.gpr.rax % TWO_8 == 0)
      case JnzBail => if s.zf then s else s.(status := Trapped)
      case Vmresume => s.(status := Resumed)
      case Int3 => s.(status := Trapped)
  }

  function Exec(code: seq<Instr>, s: Host, m: Machine, noise: Noise): Host {
    if code == [] then s else Exec(code[1..], Step(code[0], s, m, noise), m, noise)
  }

  lemma {:induction false} ExecConcat(a: seq<Instr>, b: seq<Instr>, s: Host, m: Machine, noise: Noise)
    ensures Exec(a + b, s, m, noise) == Exec(b, Exec(a, s, m, noise), m, noise)
    decreases |a|
  {
    hide Step;
    if a == [] {
      assert a + b == b;
    } else {
      assert (a + b)[1..] == a[1..] + b;
      ExecConcat(a[1..], b, Step(a[0], s, m, noise), m, noise);
    }
  }

  /** The same processor, changed in place. */
  class HostCpu {
    var gpr: Gprs
    var vectors: Vectors
    var rsp: int
    var zf: bool
    var mem: Memory
    var vmcs: Vmcs
    var status: Status

    ghost function State(): Host
      reads this
    {
      Host(gpr, vectors, rsp, zf, mem, vmcs, status)
    }

    constructor (s: Host)
      ensures State() == s
    {
      gpr, vectors, rsp, zf, mem, vmcs, status := s.gpr, s.vectors, s.rsp, s.zf, s.mem, s.vmcs, s.status;
    }

    method HvHandleVmExit(m: Machine, noise: Noise)
      modifies this
      ensures State() == HandleVmExit(old(State()), m, noise)
    {
      hide Scribbled, NextRip, Clobbered, VectorsAfter, FieldOffset, Load;
      var regs: int := gpr.rcx;
      mem := Scribbled(mem, noise, m.base, rsp);
      vectors := VectorsAfter(vectors, noise);
      if vmcs.exitReason % TWO_16 != EXIT_REASON_CPUID {
        gpr := Clobbered(gpr, noise, 1);
        return;
      }
      var r := m.cpuid(Load(mem, regs + FieldOffset(RAX)) % TWO_32, Load(mem, regs + FieldOffset(RCX)) % TWO_32);
      mem := mem[regs + FieldOffset(RAX) := r.eax];
      mem := mem[regs + FieldOffset(RBX) := r.ebx];
      mem := mem[regs + FieldOffset(RCX) := r.ecx];
      mem := mem[regs + FieldOffset(RDX) := r.edx];
      vmcs := vmcs.(guestRip := NextRip(vmcs));
      gpr := Clobbered(gpr, noise, 0);
    }

    method Execute(i: Instr, m: Machine, noise: Noise)
      modifies this
      ensures State() == Step(i, old(State()), m, noise)
    {
      if status != Running {
        return;
      }
      hide HandleVmExit;
      match i
      case Push(r) =>
        rsp := rsp - 8;
        mem := mem[rsp := gpr.Get(r)];
      case Pop(r) =>
        gpr := gpr.Set(r, Load(mem, rsp));
        rsp := rsp + 8;
      case MovRcxRsp => gpr := gpr.(rcx := ToU64(rsp));
      case SubRsp(n) => rsp := rsp - n;
      case AddRsp(n) => rsp := rsp + n;
      case CallHandler => HvHandleVmExit(m, noise);
      case TestAl => zf := gpr.rax % TWO_8 == 0;
      case JnzBail => if !zf { status := Trapped; }
      case Vmresume => status := Resumed;
      case Int3 => status := Trapped;
    }

    /** The processor fetching and executing the trampoline: what it does to a whole exit is `ExitEffect`. */
    method HvExitHandler(m: Machine, noise: Noise)
      requires status == Running && rsp == HostRsp(m.base) && FitsAddressSpace(m)
      modifies this
      ensures ExitEffect(old(State()), State(), m, noise)
    {
      ghost var s := State();
      hide Step;
      var i := 0;
      while i < |EXIT_HANDLER|
        invariant i <= |EXIT_HANDLER|
        invariant Exec(EXIT_HANDLER[i..], State(), m, noise) == Exec(EXIT_HANDLER, s, m, noise)
      {
        Execute(EXIT_HANDLER[i], m, noise);
        i := i + 1;
      }
      ExitHandlerWorks(s, m, noise);
    }
  }

  // ---------- What one exit does ----------

  ghost predicate SameOutside(a: Memory, b: Memory, lo: int, hi: int) {
    forall x :: !(lo <= x < hi) ==> Load(a, x) == Load(b, x)
  }

  /** From an exit in state `s`, the trampoline ends in `e`: a CPUID exit resumes with the registers that
      CPUID itself would leave, RIP past the instruction and the host stack pointer where it started; any
      other exit traps. Either way only the host stack is written, and the vector registers are as the handler
      leaves them. */
  ghost predicate ExitEffect(s: Host, e: Host, m: Machine, noise: Noise) {
    && e.vectors == VectorsAfter(s.vectors, noise)
    && SameOutside(s.mem, e.mem, m.base, m.base + HOST_STACK_SIZE)
    && if s.vmcs.exitReason % TWO_16 == EXIT_REASON_CPUID then
         && e.status == Resumed && e.rsp == s.rsp && e.gpr == CpuidApplied(s.gpr, m.cpuid)
         && e.vmcs == s.vmcs.(guestRip := NextRip(s.vmcs))
       else e.status == Trapped && e.vmcs == s.vmcs
  }

  lemma {:induction false} PushesSave(order: seq<Reg>, s: Host, m: Machine, noise: Noise)
    requires s.status == Running
    ensures var e, n := Exec(Pushes(order), s, m, noise), 8 * |order|;
            && e == s.(rsp := s.rsp - n, mem := e.mem)
            && SameOutside(s.mem, e.mem, s.rsp - n, s.rsp)
            && forall i :: 0 <= i < |order| ==> Load(e.mem, s.rsp - 8 * (i + 1)) == s.gpr.Get(order[i])
    decreases |order|
  {
    if order != [] {
      var code := Pushes(order);
      assert code[1..] == Pushes(order[1..]);
      var s1 := Step(code[0], s, m, noise);
      PushesSave(order[1..], s1, m, noise);
      var e := Exec(code, s, m, noise);
      forall i | 0 <= i < |order|
        ensures Load(e.mem, s.rsp - 8 * (i + 1)) == s.gpr.Get(order[i])
      {
        if i > 0 {
          assert order[i] == order[1..][i - 1];
        }
      }
    }
  }

  lemma {:induction false} PopsRestore(order: seq<Reg>, s: Host, m: Machine, noise: Noise)
    requires s.status == Running && forall i, j :: 0 <= i < j < |order| ==> order[i] != order[j]
    ensures var e := Exec(Pops(order), s, m, noise);
            && e == s.(rsp := s.rsp + 8 * |order|, gpr := e.gpr)
            && (forall i :: 0 <= i < |order| ==> e.gpr.Get(order[i]) == Load(s.mem, s.rsp + 8 * i))
            && forall r :: r !in order ==> e.gpr.Get(r) == s.gpr.Get(r)
    decreases |order|
  {
    hide Gprs.Get, Gprs.Set;
    if order != [] {
      var code := Pops(order);
      assert code[1..] == Pops(order[1..]);
      var s1 := Step(code[0], s, m, noise);
      forall r: Reg
        ensures s1.gpr.Get(r) == if r == order[0] then Load(s.mem, s.rsp) else s.gpr.Get(r)
      {
        GetAfterSet(s.gpr, order[0], Load(s.mem, s.rsp), r);
      }
      PopsRestore(order[1..], s1, m, noise);
      var e := Exec(code, s, m, noise);
      forall i | 0 <= i < |order|
        ensures e.gpr.Get(order[i]) == Load(s.mem, s.rsp + 8 * i)
      {
        if i > 0 {
          assert order[i] == order[1..][i - 1];
        } else {
          assert order[0] !in order[1..];
        }
      }
    }
  }

  /** The push order is the struct's field order from the top down, and the pop order from the bottom up. */
  lemma OrdersMatchStruct(r: Reg)
    ensures FieldOffset(r) % 8 == 0 && 0 <= FieldOffset(r) / 8 < 15
    ensures PUSH_ORDER[14 - FieldOffset(r) / 8] == r && POP_ORDER[FieldOffset(r) / 8] == r
  {
  }

  ghost predicate Saved(g: Gprs, mem: Memory, frame: int) {
    forall r: Reg :: Load(mem, frame + FieldOffset(r)) == g.Get(r)
  }

  lemma FrameIsSaved(s: Host, m: Machine, noise: Noise)
    requires s.status == Running
    ensures var e := Exec(Pushes(PUSH_ORDER), s, m, noise);
            && e == s.(rsp := s.rsp - 120, mem := e.mem)
            && SameOutside(s.mem, e.mem, s.rsp - 120, s.rsp) && Saved(s.gpr, e.mem, s.rsp - 120)
  {
    hide Exec, FieldOffset;
    PushesSave(PUSH_ORDER, s, m, noise);
    var e := Exec(Pushes(PUSH_ORDER), s, m, noise);
    forall r: Reg
      ensures Load(e.mem, s.rsp - 120 + FieldOffset(r)) == s.gpr.Get(r)
    {
      OrdersMatchStruct(r);
      var i := 14 - FieldOffset(r) / 8;
      assert s.rsp - 8 * (i + 1) == s.rsp - 120 + FieldOffset(r);
    }
  }

  lemma FrameIsRestored(s: Host, g: Gprs, m: Machine, noise: Noise)
    requires s.status == Running && Saved(g, s.mem, s.rsp)
    ensures Exec(Pops(POP_ORDER), s, m, noise) == s.(rsp := s.rsp + 120, gpr := g)
  {
    hide Exec, FieldOffset;
    PopOrderIsDistinct();
    PopsRestore(POP_ORDER, s, m, noise);
    var e := Exec(Pops(POP_ORDER), s, m, noise);
    forall r: Reg
      ensures e.gpr.Get(r) == g.Get(r)
    {
      OrdersMatchStruct(r);
      var i := FieldOffset(r) / 8;
      assert s.rsp + 8 * i == s.rsp + FieldOffset(r);
    }
    SameRegisters(e.gpr, g);
  }

  lemma PopOrderIsDistinct()
    ensures forall i, j :: 0 <= i < j < |POP_ORDER| ==> POP_ORDER[i] != POP_ORDER[j]
  {
    assert forall i :: 0 <= i < |POP_ORDER| ==> FieldOffset(POP_ORDER[i]) == 8 * i;
  }

  /** The call: the frame now holds what CPUID leaves, or nothing changed in it and the exit traps. */
  lemma CallWorks(s: Host, g: Gprs, m: Machine, noise: Noise)
    requires s.status == Running && 0 <= m.base <= s.rsp - 0x28 && s.rsp + 120 < m.base + HOST_STACK_SIZE
    requires FitsAddressSpace(m) && Saved(g, s.mem, s.rsp)
    ensures var e := Exec(CALL_CODE, s, m, noise);
            && e.rsp == s.rsp && e.vectors == VectorsAfter(s.vectors, noise)
            && SameOutside(s.mem, e.mem, m.base, s.rsp + 120)
            && if s.vmcs.exitReason % TWO_16 == EXIT_REASON_CPUID then
                 && e.status == Running && Saved(CpuidApplied(g, m.cpuid), e.mem, e.rsp)
                 && e.vmcs == s.vmcs.(guestRip := NextRip(s.vmcs))
               else e.status == Trapped && e.vmcs == s.vmcs
  {
    var s1 := Step(MovRcxRsp, s, m, noise);
    var s2 := Step(SubRsp(0x20), s1, m, noise);
    var s3 := Step(CallHandler, s2, m, noise);
    var s4 := Step(AddRsp(0x20), s3, m, noise);
    var s5 := Step(TestAl, s4, m, noise);
    var s6 := Step(JnzBail, s5, m, noise);
    CallCodeUnfolds(s, m, noise);
    HandlerEdits(s2, g, m, noise);
  }

  lemma CallCodeUnfolds(s: Host, m: Machine, noise: Noise)
    ensures Exec(CALL_CODE, s, m, noise) ==
            Step(JnzBail, Step(TestAl, Step(AddRsp(0x20), Step(CallHandler, Step(SubRsp(0x20),
            Step(MovRcxRsp, s, m, noise), m, noise), m, noise), m, noise), m, noise), m, noise)
  {
    hide Step;
    assert CALL_CODE == [MovRcxRsp] + ([SubRsp(0x20)] + ([CallHandler] + ([AddRsp(0x20)] + ([TestAl] + [JnzBail]))));
    var a := [TestAl] + [JnzBail];
    var b := [AddRsp(0x20)] + a;
    var c := [CallHandler] + b;
    var d := [SubRsp(0x20)] + c;
    ExecOne(MovRcxRsp, d, s, m, noise);
    var s1 := Step(MovRcxRsp, s, m, noise);
    ExecOne(SubRsp(0x20), c, s1, m, noise);
    var s2 := Step(SubRsp(0x20), s1, m, noise);
    ExecOne(CallHandler, b, s2, m, noise);
    var s3 := Step(CallHandler, s2, m, noise);
    ExecOne(AddRsp(0x20), a, s3, m, noise);
    var s4 := Step(AddRsp(0x20), s3, m, noise);
    ExecOne(TestAl, [JnzBail], s4, m, noise);
    assert [JnzBail] == [JnzBail] + [];
    ExecOne(JnzBail, [], Step(TestAl, s4, m, noise), m, noise);
  }

  lemma ExecOne(i: Instr, rest: seq<Instr>, s: Host, m: Machine, noise: Noise)
    ensures Exec([i] + rest, s, m, noise) == Exec(rest, Step(i, s, m, noise), m, noise)
  {
    hide Step;
    assert ([i] + rest)[1..] == rest;
  }

  lemma HandlerEdits(s: Host, g: Gprs, m: Machine, noise: Noise)
    requires var frame := s.gpr.rcx;
             frame == s.rsp + 0x20 && Saved(g, s.mem, frame) && 0 <= m.base <= s.rsp - 8
    ensures var e, frame := HandleVmExit(s, m, noise), s.gpr.rcx;
            && e.rsp == s.rsp && e.status == s.status && e.vectors == VectorsAfter(s.vectors, noise)
            && SameOutside(s.mem, e.mem, m.base, frame + 120)
            && if s.vmcs.exitReason % TWO_16 == EXIT_REASON_CPUID then
                 && e.gpr.rax % TWO_8 == 0 && Saved(CpuidApplied(g, m.cpuid), e.mem, frame)
                 && e.vmcs == s.vmcs.(guestRip := NextRip(s.vmcs))
               else e.gpr.rax % TWO_8 == 1 && e.vmcs == s.vmcs
  {
    hide CpuidApplied, Scribbled, StoreResults, NextRip, Saved, SameOutside, VectorsAfter;
    var frame: int := s.gpr.rcx;
    var mem := Scribbled(s.mem, noise, m.base, s.rsp);
    ScribbleStaysBelow(s.mem, noise, m.base, s.rsp);
    SavedOutside(g, s.mem, mem, m.base, frame);
    ResultsAreSaved(g, mem, frame, m.cpuid);
    SameOutsideBoth(s.mem, mem, mem, m.base, frame, frame + 120);
    SameOutsideBoth(s.mem, mem, HandleVmExit(s, m, noise).mem, m.base, frame, frame + 120);
    AlOf(noise.regs.rax);
  }

  lemma SameOutsideBoth(a: Memory, b: Memory, c: Memory, lo: int, mid: int, hi: int)
    requires lo <= mid <= hi && SameOutside(a, b, lo, mid)
    ensures SameOutside(a, b, lo, hi) && (SameOutside(b, c, mid, hi) ==> SameOutside(a, c, lo, hi))
  {
  }

  lemma SavedOutside(g: Gprs, mem: Memory, after: Memory, lo: int, frame: int)
    requires Saved(g, mem, frame) && SameOutside(mem, after, lo, frame)
    ensures Saved(g, after, frame)
    ensures Load(after, frame + FieldOffset(RAX)) == g.rax && Load(after, frame + FieldOffset(RCX)) == g.rcx
  {
    forall r: Reg
      ensures Load(after, frame + FieldOffset(r)) == g.Get(r)
    {
      assert Load(mem, frame + FieldOffset(r)) == g.Get(r);
    }
    assert g.Get(RAX) == g.rax && g.Get(RCX) == g.rcx;
  }

  lemma ScribbleStaysBelow(mem: Memory, noise: Noise, base: nat, rsp: int)
    ensures SameOutside(mem, Scribbled(mem, noise, base, rsp), base, rsp + 0x20)
  {
  }

  lemma ResultsAreSaved(g: Gprs, mem: Memory, frame: int, cpuid: Cpuid)
    requires Saved(g, mem, frame)
    ensures var after := StoreResults(mem, frame, cpuid(g.rax % TWO_32, g.rcx % TWO_32));
            Saved(CpuidApplied(g, cpuid), after, frame) && SameOutside(mem, after, frame, frame + 120)
  {
    var r := cpuid(g.rax % TWO_32, g.rcx % TWO_32);
    var after := StoreResults(mem, frame, r);
    forall x: Reg
      ensures Load(after, frame + FieldOffset(x)) == CpuidApplied(g, cpuid).Get(x)
    {
      assert Load(mem, frame + FieldOffset(x)) == g.Get(x);
    }
  }

  lemma AlOf(x: U64)
    ensures (x - x % TWO_8 + 0) % TWO_8 == 0 && (x - x % TWO_8 + 1) % TWO_8 == 1
  {
  }

  lemma ExitHandlerWorks(s: Host, m: Machine, noise: Noise)
    requires s.status == Running && s.rsp == HostRsp(m.base) && FitsAddressSpace(m)
    ensures ExitEffect(s, Exec(EXIT_HANDLER, s, m, noise), m, noise)
  {
    hide Exec, Step, Saved, CpuidApplied;
    var tail := [Vmresume, Int3];
    ExecConcat(Pushes(PUSH_ORDER) + CALL_CODE + Pops(POP_ORDER), tail, s, m, noise);
    ExecConcat(Pushes(PUSH_ORDER) + CALL_CODE, Pops(POP_ORDER), s, m, noise);
    ExecConcat(Pushes(PUSH_ORDER), CALL_CODE, s, m, noise);
    var s1 := Exec(Pushes(PUSH_ORDER), s, m, noise);
    var s2 := Exec(CALL_CODE, s1, m, noise);
    FrameIsSaved(s, m, noise);
    CallWorks(s1, s.gpr, m, noise);
    if s2.status == Running {
      var g := CpuidApplied(s.gpr, m.cpuid);
      FrameIsRestored(s2, g, m, noise);
      ResumeStops(s2.(rsp := s2.rsp + 120, gpr := g), m, noise);
    } else {
      StoppedStaysStopped(Pops(POP_ORDER), s2, m, noise);
      StoppedStaysStopped(tail, s2, m, noise);
    }
  }

  /** The same, register by register: exit reason 10 is CPUID, its results go to EAX to EDX with the upper halves
      cleared, the other eleven registers are untouched, and any other reason traps. */
  lemma ExitResults(s: Host, m: Machine, noise: Noise)
    requires s.status == Running && s.rsp == HostRsp(m.base) && FitsAddressSpace(m)
    ensures var e := Exec(EXIT_HANDLER, s, m, noise);
            var r := m.cpuid(s.gpr.rax % 0x1_0000_0000, s.gpr.rcx % 0x1_0000_0000);
            if s.vmcs.exitReason % 0x1_0000 == 10 then
              && e.status == Resumed && e.rsp == s.rsp
              && e.gpr.rax == r.eax && e.gpr.rbx == r.ebx && e.gpr.rcx == r.ecx && e.gpr.rdx == r.edx
              && (forall x: Reg :: x !in {RAX, RBX, RCX, RDX} ==> e.gpr.Get(x) == s.gpr.Get(x))
              && e.vmcs.guestRip == (s.vmcs.guestRip + s.vmcs.instructionLen) % 0x1_0000_0000_0000_0000
            else e.status == Trapped && e.vmcs == s.vmcs
  {
    hide Exec;
    ExitHandlerWorks(s, m, noise);
  }

  lemma ResumeStops(s: Host, m: Machine, noise: Noise)
    requires s.status == Running
    ensures Exec([Vmresume, Int3], s, m, noise) == s.(status := Resumed)
  {
    assert [Vmresume, Int3] == [Vmresume] + [Int3];
    ExecOne(Vmresume, [Int3], s, m, noise);
    StoppedStaysStopped([Int3], s.(status := Resumed), m, noise);
  }

  lemma {:induction false} StoppedStaysStopped(code: seq<Instr>, s: Host, m: Machine, noise: Noise)
    requires s.status != Running
    ensures Exec(code, s, m, noise) == s
    decreases |code|
  {
    if code != [] {
      StoppedStaysStopped(code[1..], s, m, noise);
    }
  }

  // ---------- Whole guest runs ----------

  // The low sixteen bits of an exit reason say what it is, and 10 is CPUID (Intel SDM volume 3C, appendix C).
  type CpuidReason = x: int | 0 <= x < 0x1_0000_0000 && x % 0x1_0000 == 10 witness 10
  type OtherReason = x: int | 0 <= x < 0x1_0000_0000 && x % 0x1_0000 != 10

  /** The guest: its registers, and everything else it has, which no exit touches. */
  datatype Guest<G> = Guest(gpr: Gprs, vectors: Vectors, rip: U64, rsp: U64, other: G)

  /** What a guest does next: a step of its own that causes no exit, CPUID, or any other exit. */
  datatype Action<G> =
    | Local(next: Guest<G>)
    | ExecuteCpuid(len: U64, cpuidReason: CpuidReason)
    | OtherExit(otherReason: OtherReason)

  type Program<!G> = Guest<G> -> Action<G>

  /** A run without a hypervisor, stopped at the first exit that is not CPUID. */
  datatype Native<G> = Native(guest: Guest<G>, stopped: bool)

  ghost function NativeStep<G>(w: Native<G>, program: Program<G>, cpuid: Cpuid): Native<G> {
    if w.stopped then w
    else
      match program(w.guest)
      case Local(next) => Native(next, false)
      case ExecuteCpuid(len, _) =>
        Native(w.guest.(gpr := CpuidApplied(w.guest.gpr, cpuid), rip := ToU64(w.guest.rip + len)), false)
      case OtherExit(_) => Native(w.guest, true)
  }

  ghost function NativeRun<G>(w: Native<G>, program: Program<G>, cpuid: Cpuid, n: nat): Native<G> {
    if n == 0 then w else NativeStep(NativeRun(w, program, cpuid, n - 1), program, cpuid)
  }

  /** A run under the hypervisor: the guest, the host memory, and whether the host has trapped. */
  datatype World<G> = World(guest: Guest<G>, mem: Memory, trapped: bool)

  /** The exit that the hardware makes: general-purpose and vector registers stay in place, RIP and RSP go to the VMCS, RSP is the host's. */
  ghost function ExitState<G>(w: World<G>, len: U64, reason: U32, m: Machine): Host {
    Host(w.guest.gpr, w.guest.vectors, HostRsp(m.base), false, w.mem, Vmcs(reason, len, w.guest.rip, w.guest.rsp), Running)
  }

  /** Back to the guest, or stuck in the trap. */
  ghost function AfterExit<G>(w: World<G>, e: Host): World<G> {
    if e.status == Resumed then World(Guest(e.gpr, e.vectors, e.vmcs.guestRip, e.vmcs.guestRsp, w.guest.other), e.mem, false)
    else World(w.guest, e.mem, true)
  }

  ghost function WorldStep<G>(w: World<G>, program: Program<G>, m: Machine, noise: Noise): World<G> {
    if w.trapped then w
    else
      match program(w.guest)
      case Local(next) => w.(guest := next)
      case ExecuteCpuid(len, reason) =>
        AfterExit(w, Exec(EXIT_HANDLER, ExitState(w, len, reason, m), m, noise))
      case OtherExit(reason) =>
        AfterExit(w, Exec(EXIT_HANDLER, ExitState(w, 0, reason, m), m, noise))
  }

  ghost function WorldRun<G>(w: World<G>, program: Program<G>, m: Machine, noise: nat -> Noise, n: nat): World<G> {
    if n == 0 then w else WorldStep(WorldRun(w, program, m, noise, n - 1), program, m, noise(n - 1))
  }

  /** The handler leaves the vector registers of a native state `v` alone, if `v` is about to execute CPUID. */
  ghost predicate KeepsVectors<G>(v: Native<G>, program: Program<G>, noise: Noise) {
    !v.stopped && program(v.guest).ExecuteCpuid? ==> VectorsAfter(v.guest.vectors, noise) == v.guest.vectors
  }

  ghost predicate InStep<G>(w: World<G>, v: Native<G>) {
    w.guest == v.guest && w.trapped == v.stopped
  }

  /** One step: the guests agree on everything but the vector registers, and on these if and only if the
      handler leaves them alone. */
  lemma StepIsTransparent<G>(w: World<G>, program: Program<G>, m: Machine, noise: Noise)
    requires FitsAddressSpace(m)
    ensures var v := Native(w.guest, w.trapped);
            var w', v' := WorldStep(w, program, m, noise), NativeStep(v, program, m.cpuid);
            && w'.guest == v'.guest.(vectors := w'.guest.vectors) && w'.trapped == v'.stopped
            && (InStep(w', v') <==> KeepsVectors(v, program, noise))
  {
    hide Exec, CpuidApplied, VectorsAfter;
    if !w.trapped {
      match program(w.guest)
      case Local(_) =>
      case ExecuteCpuid(len, reason) => ExitHandlerWorks(ExitState(w, len, reason, m), m, noise);
      case OtherExit(reason) => ExitHandlerWorks(ExitState(w, 0, reason, m), m, noise);
    }
  }

  /** After `k` steps, the trapped run and the native run from the same guest are in the same state, and the
      host has trapped exactly if the native run has stopped. */
  ghost predicate InStepAfter<G>(w: World<G>, program: Program<G>, m: Machine, noise: nat -> Noise, k: nat) {
    InStep(WorldRun(w, program, m, noise, k), NativeRun(Native(w.guest, w.trapped), program, m.cpuid, k))
  }

  /** If step `i` of the native run executes CPUID, the handler leaves the vector registers alone there. */
  ghost predicate KeptAt<G>(w: World<G>, program: Program<G>, m: Machine, noise: nat -> Noise, i: nat) {
    KeepsVectors(NativeRun(Native(w.guest, w.trapped), program, m.cpuid, i), program, noise(i))
  }

  /** When CPUID exits are invisible: for any guest, any number of steps and whatever else the compiled handler
      leaves behind, the two runs agree after every step if and only if the handler leaves the vector registers
      alone at every CPUID of the run. */
  lemma {:induction false} CpuidExitsAreTransparent<G>(
    w: World<G>, program: Program<G>, m: Machine, noise: nat -> Noise, n: nat)
    requires FitsAddressSpace(m)
    ensures (forall k: nat :: k <= n ==> InStepAfter(w, program, m, noise, k)) <==>
            (forall i: nat :: i < n ==> KeptAt(w, program, m, noise, i))
  {
    hide InStepAfter, KeptAt;
    if n == 0 {
      StartsInStep(w, program, m, noise);
    } else {
      CpuidExitsAreTransparent(w, program, m, noise, n - 1);
      NextInStep(w, program, m, noise, n - 1);
    }
  }

  lemma StartsInStep<G>(w: World<G>, program: Program<G>, m: Machine, noise: nat -> Noise)
    ensures InStepAfter(w, program, m, noise, 0)
  {
  }

  lemma NextInStep<G>(w: World<G>, program: Program<G>, m: Machine, noise: nat -> Noise, k: nat)
    requires FitsAddressSpace(m)
    ensures InStepAfter(w, program, m, noise, k) ==>
              (InStepAfter(w, program, m, noise, k + 1) <==> KeptAt(w, program, m, noise, k))
  {
    hide WorldStep, NativeStep, KeepsVectors;
    if InStepAfter(w, program, m, noise, k) {
      StepIsTransparent(WorldRun(w, program, m, noise, k), program, m, noise(k));
    }
  }

  /** A run where CPUID is visible: the first one, under a handler that leaves something else in the vector
      registers. */
  lemma CpuidCanBeSeen<G>(g: Guest<G>, m: Machine)
    requires FitsAddressSpace(m)
    ensures var program: Program<G> := _ => ExecuteCpuid(2, EXIT_REASON_CPUID);
            var noise := (_: nat) => Noise(g.gpr, Some(g.vectors + [0]), map[]);
            !InStepAfter(World(g, map[], false), program, m, noise, 1)
  {
    var program: Program<G> := _ => ExecuteCpuid(2, EXIT_REASON_CPUID);
    var noise := (_: nat) => Noise(g.gpr, Some(g.vectors + [0]), map[]);
    var w := World(g, map[], false);
    StartsInStep(w, program, m, noise);
    NextInStep(w, program, m, noise, 0);
    hide WorldStep, NativeStep;
    assert !KeptAt(w, program, m, noise, 0);
  }

  /** Whatever the handler leaves behind, only the host stack is written. */
  lemma {:induction false} OnlyHostStackIsWritten<G>(
    w: World<G>, program: Program<G>, m: Machine, noise: nat -> Noise, n: nat)
    requires FitsAddressSpace(m)
    ensures SameOutside(w.mem, WorldRun(w, program, m, noise, n).mem, m.base, m.base + HOST_STACK_SIZE)
  {
    hide WorldStep;
    if n > 0 {
      OnlyHostStackIsWritten(w, program, m, noise, n - 1);
      StepWritesHostStack(WorldRun(w, program, m, noise, n - 1), program, m, noise(n - 1));
    }
  }

  lemma StepWritesHostStack<G>(w: World<G>, program: Program<G>, m: Machine, noise: Noise)
    requires FitsAddressSpace(m)
    ensures SameOutside(w.mem, WorldStep(w, program, m, noise).mem, m.base, m.base + HOST_STACK_SIZE)
  {
    hide Exec, CpuidApplied, VectorsAfter;
    if !w.trapped {
      match program(w.guest)
      case Local(_) =>
      case ExecuteCpuid(len, reason) => ExitHandlerWorks(ExitState(w, len, reason, m), m, noise);
      case OtherExit(reason) => ExitHandlerWorks(ExitState(w, 0, reason, m), m, noise);
    }
  }
}
