/**
 `HvTryLaunch`: acquiring memory and VMX operation step by step, and rolling back at the first step that
 fails. What is legal is stated by a monitor of its own, which knows nothing of the order the code uses.
 */
module VmxLaunch {
  import opened Wrappers
  import opened Monitors

  const PAGE_SIZE := 4096

  // ---------- What is observable ----------

  datatype Region = VmxonRegion | VmcsRegion

  datatype Event =
    | Allocate(block: nat)
    | Free(block: nat)
    | WriteRevision(region: Region)
    | SetVmxe
    | VmxOn(ok: bool)
    | VmClear(ok: bool)
    | VmPtrLd(ok: bool)
    | VmWrite
    | VmLaunch(ok: bool)
    | VmReadError
    | VmxOff

  // ---------- What is legal ----------

  datatype VmcsState = Unprepared | Clear | Current | Written | Launched

  /** What a monitor of one logical processor knows. */
  datatype Monitor = Monitor(block: Option<nat>, revisions: set<Region>, vmxe: bool, vmxOn: bool, vmcs: VmcsState)

  /** The rules of VMX operation and of memory: the state after a legal event, or nothing. VMXON needs
      CR4.VMXE and a page-aligned region of live memory that carries the revision identifier; a VMCS must be
      cleared, made current and written, in that order, before it is launched; memory is not allocated twice,
      and not freed while VMX operation is on. */
  ghost function Legal(m: Monitor, e: Event): Option<Monitor> {
    match e
    case Allocate(b) =>
      if m.block.None? && !m.vmxOn then Some(m.(block := Some(b), revisions := {})) else None
    case Free(b) =>
      if m.block == Some(b) && !m.vmxOn then Some(m.(block := None, revisions := {})) else None
    case WriteRevision(r) =>
      if m.block.Some? && !m.vmxOn then Some(m.(revisions := m.revisions + {r})) else None
    case SetVmxe => Some(m.(vmxe := true))
    case VmxOn(ok) =>
      if m.block.Some? && m.block.value % 4096 == 0 && VmxonRegion in m.revisions && m.vmxe && !m.vmxOn
      then Some(m.(vmxOn := ok, vmcs := Unprepared)) else None
    case VmClear(ok) =>
      if m.vmxOn && m.vmcs.Unprepared? && VmcsRegion in m.revisions
      then Some(if ok then m.(vmcs := Clear) else m) else None
    case VmPtrLd(ok) =>
      if m.vmxOn && m.vmcs.Clear? then Some(if ok then m.(vmcs := Current) else m) else None
    case VmWrite =>
      if m.vmxOn && (m.vmcs.Current? || m.vmcs.Written?) then Some(m.(vmcs := Written)) else None
    case VmLaunch(ok) =>
      if m.vmxOn && m.vmcs.Written? then Some(if ok then m.(vmcs := Launched) else m) else None
    case VmReadError =>
      if m.vmxOn && (m.vmcs.Current? || m.vmcs.Written?) then Some(m) else None
    case VmxOff =>
      if m.vmxOn && !m.vmcs.Launched? then Some(m.(vmxOn := false, vmcs := Unprepared)) else None
  }

  /** No memory held, VMX operation off: the state a fresh attempt needs. */
  ghost predicate Clean(m: Monitor) {
    m.block.None? && !m.vmxOn
  }

  ghost predicate InGuest(m: Monitor) {
    m.block.Some? && m.vmxOn && m.vmcs.Launched?
  }

  // ---------- One attempt ----------

  /** What the hardware and the allocator answer in one attempt. */
  datatype Outcomes = Outcomes(
    cpuidEcx: nat, featureControl: nat, block: Option<nat>,
    vmxOn: bool, vmClear: bool, vmPtrLd: bool, setup: bool, launch: bool)
  {
    /** CPUID leaf 1, ECX: the VMX bit. */
    predicate SupportsVmx() {
      (cpuidEcx / 32) % 2 == 1
    }

    /** IA32_FEATURE_CONTROL: the lock bit and the "VMX outside SMX" bit. */
    predicate EnabledByBios() {
      featureControl % 2 == 1 && (featureControl / 4) % 2 == 1
    }

    /** The VMXON and VMCS regions are the first two pages of the block. */
    predicate RegionsAligned()
      requires block.Some?
    {
      block.value % PAGE_SIZE == 0 && (block.value + PAGE_SIZE) % PAGE_SIZE == 0
    }

    ghost predicate ReachesVmxon() {
      SupportsVmx() && EnabledByBios() && block.Some? && block.value % PAGE_SIZE == 0
    }

    ghost predicate Launches() {
      ReachesVmxon() && VmxSucceeds()
    }

    ghost predicate VmxSucceeds() {
      vmxOn && vmClear && vmPtrLd && setup && launch
    }
  }

  /** The driver on one processor. Each step is recorded, and only a legal step may be taken. */
  class Hypervisor {
    var hvState: Option<nat>
    ghost var trace: seq<Event>
    ghost var monitor: Monitor

    constructor ()
      ensures hvState == None && trace == [] && monitor == Monitor(None, {}, false, false, Unprepared)
    {
      hvState, trace, monitor := None, [], Monitor(None, {}, false, false, Unprepared);
    }

    ghost method Do(e: Event)
      requires Legal(monitor, e).Some?
      modifies `trace, `monitor
      ensures trace == old(trace) + [e] && Some(monitor) == Legal(old(monitor), e)
    {
      trace, monitor := trace + [e], Legal(monitor, e).value;
    }

    ghost predicate Consistent()
      reads this
    {
      hvState == monitor.block
    }

    /** Gives the memory back, on every path that fails after it was allocated. */
    method FreeState()
      requires Consistent() && hvState.Some? && !monitor.vmxOn
      modifies this
      ensures Consistent() && Clean(monitor) && monitor.vmxe == old(monitor.vmxe)
      ensures trace == old(trace) + [Free(old(hvState.value))]
    {
      Do(Free(hvState.value));
      hvState := None;
    }

    /** From a clean state, with any outcomes: either the guest runs, or the state is clean again. Every step
        is legal, and CR4.VMXE, once set, is left set. */
    method HvTryLaunch(o: Outcomes) returns (launched: bool)
      requires Consistent() && Clean(monitor)
      modifies this
      ensures Consistent() && launched == o.Launches()
      ensures if launched then InGuest(monitor) else Clean(monitor)
      ensures monitor.vmxe == (old(monitor.vmxe) || o.ReachesVmxon())
      ensures trace == old(trace) + Attempt(o)
    {
      hide VmxSteps, Legal, Outcomes.VmxSucceeds, Outcomes.SupportsVmx, Outcomes.EnabledByBios;
      if !o.SupportsVmx() {
        return false;
      }
      if !o.EnabledByBios() {
        return false;
      }
      AllocateState(o);
      if hvState.None? {
        return false;
      }
      if !o.RegionsAligned() {
        FreeState();
        return false;
      }
      launched := TryVmx(o);
    }

    /** The part with memory in hand: VMX operation is entered, the guest is launched, and all that is undone at
        the first failure. */
    method TryVmx(o: Outcomes) returns (launched: bool)
      requires Consistent() && hvState.Some? && hvState.value % PAGE_SIZE == 0 && !monitor.vmxOn
      modifies this
      ensures Consistent() && launched == o.VmxSucceeds()
      ensures (if launched then InGuest(monitor) else Clean(monitor)) && monitor.vmxe
      ensures trace == old(trace) + VmxSteps(o, old(hvState.value))
    {
      hide VmcsSteps, Legal;
      EnterVmx(o);
      if !o.vmxOn {
        FreeState();
        return false;
      }
      launched := LaunchVmcs(o);
      if launched {
        return;
      }
      RollBack();
    }

    /** The block that everything lives in, if the allocator has one. */
    method AllocateState(o: Outcomes)
      requires Consistent() && Clean(monitor)
      modifies this
      ensures Consistent() && hvState == o.block && !monitor.vmxOn && monitor.vmxe == old(monitor.vmxe)
      ensures trace == old(trace) + if o.block.Some? then [Allocate(o.block.value)] else []
    {
      hvState := o.block;
      if hvState.Some? {
        Do(Allocate(hvState.value));
      }
    }

    /** VMX operation off, then the memory back. */
    method RollBack()
      requires Consistent() && hvState.Some? && monitor.vmxOn && !monitor.vmcs.Launched?
      modifies this
      ensures Consistent() && Clean(monitor) && monitor.vmxe == old(monitor.vmxe)
      ensures trace == old(trace) + [VmxOff, Free(old(hvState.value))]
    {
      Do(VmxOff);
      FreeState();
    }

    /** Both regions get the revision identifier, CR4.VMXE is set, and VMXON is tried. */
    method EnterVmx(o: Outcomes)
      requires Consistent() && hvState.Some? && hvState.value % PAGE_SIZE == 0 && !monitor.vmxOn
      modifies `trace, `monitor
      ensures Consistent() && VmcsRegion in monitor.revisions && monitor.vmxe
      ensures monitor.vmxOn == o.vmxOn && monitor.vmcs.Unprepared?
      ensures trace == old(trace) + [WriteRevision(VmxonRegion), WriteRevision(VmcsRegion), SetVmxe, VmxOn(o.vmxOn)]
    {
      Do(WriteRevision(VmxonRegion));
      Do(WriteRevision(VmcsRegion));
      Do(SetVmxe);
      Do(VmxOn(o.vmxOn));
    }

    /** The part with VMX operation on: the VMCS is cleared, loaded, written and launched. */
    method LaunchVmcs(o: Outcomes) returns (launched: bool)
      requires Consistent() && monitor.vmxOn && monitor.vmcs.Unprepared? && hvState.Some?
      requires VmcsRegion in monitor.revisions
      modifies `trace, `monitor
      ensures Consistent() && launched == (o.vmClear && o.vmPtrLd && o.setup && o.launch)
      ensures monitor.vmxOn && monitor.vmcs.Launched? == launched
      ensures monitor.vmxe == old(monitor.vmxe)
      ensures trace == old(trace) + VmcsSteps(o)
    {
      Do(VmClear(o.vmClear));
      if !o.vmClear {
        return false;
      }
      Do(VmPtrLd(o.vmPtrLd));
      if !o.vmPtrLd {
        return false;
      }
      Do(VmWrite);
      if !o.setup {
        return false;
      }
      Do(VmLaunch(o.launch));
      if o.launch {
        return true;
      }
      Do(VmReadError);
      return false;
    }
  }

  // ---------- The trace of an attempt, and of any number of them ----------

  ghost function VmcsSteps(o: Outcomes): seq<Event> {
    [VmClear(o.vmClear)] +
    if !o.vmClear then [] else
    [VmPtrLd(o.vmPtrLd)] +
    if !o.vmPtrLd then [] else
    [VmWrite] +
    if !o.setup then [] else
    [VmLaunch(o.launch)] +
    if o.launch then [] else [VmReadError]
  }

  ghost function Attempt(o: Outcomes): seq<Event> {
    if !o.SupportsVmx() || !o.EnabledByBios() || o.block.None? then []
    else if !o.RegionsAligned() then [Allocate(o.block.value), Free(o.block.value)]
    else [Allocate(o.block.value)] + VmxSteps(o, o.block.value)
  }

  ghost function VmxSteps(o: Outcomes, block: nat): seq<Event> {
    [WriteRevision(VmxonRegion), WriteRevision(VmcsRegion), SetVmxe, VmxOn(o.vmxOn)] + Release(o, block)
  }

  ghost function Release(o: Outcomes, block: nat): seq<Event> {
    if !o.vmxOn then [Free(block)]
    else VmcsSteps(o) + if o.VmxSucceeds() then [] else [VmxOff, Free(block)]
  }

  lemma VmcsStepsAreLegal(m: Monitor, o: Outcomes)
    requires m.vmxOn && m.vmcs.Unprepared? && VmcsRegion in m.revisions
    ensures var r := Accept(Legal, m, VmcsSteps(o));
            && r.Some? && r.value == m.(vmcs := r.value.vmcs)
            && r.value.vmcs.Launched? == (o.vmClear && o.vmPtrLd && o.setup && o.launch)
  {
    var d := if o.launch then [] else [VmReadError];
    var c := if !o.setup then [] else [VmLaunch(o.launch)] + d;
    var b := if !o.vmPtrLd then [] else [VmWrite] + c;
    var a := if !o.vmClear then [] else [VmPtrLd(o.vmPtrLd)] + b;
    AcceptOne(Legal, m, VmClear(o.vmClear), a);
    if o.vmClear {
      AcceptOne(Legal, m.(vmcs := Clear), VmPtrLd(o.vmPtrLd), b);
      if o.vmPtrLd {
        AcceptOne(Legal, m.(vmcs := Current), VmWrite, c);
        if o.setup {
          AcceptOne(Legal, m.(vmcs := Written), VmLaunch(o.launch), d);
          AcceptOne(Legal, m.(vmcs := Written), VmReadError, []);
          assert [VmReadError] + [] == [VmReadError];
        }
      }
    }
  }

  /** One attempt from a clean state is legal from end to end. */
  lemma AttemptIsLegal(m: Monitor, o: Outcomes)
    requires Clean(m)
    ensures var r := Accept(Legal, m, Attempt(o));
            && r.Some? && (if o.Launches() then InGuest(r.value) else Clean(r.value))
            && r.value.vmxe == (m.vmxe || o.ReachesVmxon())
  {
    if o.SupportsVmx() && o.EnabledByBios() && o.block.Some? {
      var b := o.block.value;
      var m1 := m.(block := Some(b), revisions := {});
      if !o.RegionsAligned() {
        assert [Allocate(b), Free(b)] == [Allocate(b)] + ([Free(b)] + []);
        AcceptOne(Legal, m, Allocate(b), [Free(b)] + []);
        AcceptOne(Legal, m1, Free(b), []);
      } else {
        AcceptOne(Legal, m, Allocate(b), VmxSteps(o, b));
        VmxStepsAreLegal(m1, o, b);
      }
    }
  }

  /** With memory in hand: legal to the end, in the guest or with everything given back. */
  lemma VmxStepsAreLegal(m: Monitor, o: Outcomes, b: nat)
    requires m.block == Some(b) && m.revisions == {} && !m.vmxOn && b % PAGE_SIZE == 0
    ensures var r := Accept(Legal, m, VmxSteps(o, b));
            && r.Some? && (if o.VmxSucceeds() then InGuest(r.value) else Clean(r.value)) && r.value.vmxe
  {
    hide Legal, Accept, VmcsSteps;
    var head := [WriteRevision(VmxonRegion), WriteRevision(VmcsRegion), SetVmxe, VmxOn(o.vmxOn)];
    EnterIsLegal(m, o, b);
    ReleaseIsLegal(Monitor(Some(b), {VmxonRegion, VmcsRegion}, true, o.vmxOn, Unprepared), o, b);
    AcceptConcat(Legal, m, head, Release(o, b));
  }

  lemma EnterIsLegal(m: Monitor, o: Outcomes, b: nat)
    requires m.block == Some(b) && m.revisions == {} && !m.vmxOn && b % PAGE_SIZE == 0
    ensures Accept(Legal, m, [WriteRevision(VmxonRegion), WriteRevision(VmcsRegion), SetVmxe, VmxOn(o.vmxOn)]) ==
            Some(Monitor(Some(b), {VmxonRegion, VmcsRegion}, true, o.vmxOn, Unprepared))
  {
    var e := [VmxOn(o.vmxOn)] + [];
    var d := [SetVmxe] + e;
    var c := [WriteRevision(VmcsRegion)] + d;
    assert [WriteRevision(VmxonRegion), WriteRevision(VmcsRegion), SetVmxe, VmxOn(o.vmxOn)]
        == [WriteRevision(VmxonRegion)] + c;
    AcceptOne(Legal, m, WriteRevision(VmxonRegion), c);
    var m2 := m.(revisions := {} + {VmxonRegion});
    AcceptOne(Legal, m2, WriteRevision(VmcsRegion), d);
    var m3 := m2.(revisions := m2.revisions + {VmcsRegion});
    AcceptOne(Legal, m3, SetVmxe, e);
    AcceptOne(Legal, m3.(vmxe := true), VmxOn(o.vmxOn), []);
    assert m3.revisions == {VmxonRegion, VmcsRegion};
  }

  lemma ReleaseIsLegal(m: Monitor, o: Outcomes, b: nat)
    requires m == Monitor(Some(b), {VmxonRegion, VmcsRegion}, true, o.vmxOn, Unprepared)
    ensures var r := Accept(Legal, m, Release(o, b));
            && r.Some? && (if o.VmxSucceeds() then InGuest(r.value) else Clean(r.value)) && r.value.vmxe
  {
    assert [Free(b)] == [Free(b)] + [] && [VmxOff, Free(b)] == [VmxOff] + ([Free(b)] + []);
    if !o.vmxOn {
      AcceptOne(Legal, m, Free(b), []);
    } else {
      VmcsStepsAreLegal(m, o);
      var m1 := Accept(Legal, m, VmcsSteps(o)).value;
      AcceptConcat(Legal, m, VmcsSteps(o), if o.VmxSucceeds() then [] else [VmxOff, Free(b)]);
      if !o.VmxSucceeds() {
        AcceptOne(Legal, m1, VmxOff, [Free(b)] + []);
        AcceptOne(Legal, m1.(vmxOn := false, vmcs := Unprepared), Free(b), []);
      }
    }
  }

  /** The two registers by their bits: ECX has VMX as bit 5; IA32_FEATURE_CONTROL has the lock as bit 0, "VMX
      inside SMX" as bit 1 and "VMX outside SMX" as bit 2. */
  ghost predicate HasBits(o: Outcomes, low: nat, vmx: nat, high: nat, lock: nat, inside: nat, outside: nat, rest: nat) {
    && low < 32 && vmx <= 1 && lock <= 1 && inside <= 1 && outside <= 1
    && o.cpuidEcx == low + 32 * vmx + 64 * high
    && o.featureControl == lock + 2 * inside + 4 * outside + 8 * rest
  }

  /** What firmware and processor must allow: an attempt tries VMXON if and only if the VMX bit, the lock and
      "outside SMX" are set and an aligned block was given; it launches if and only if all later answers are good
      too. Without the three bits it does nothing at all. */
  lemma AttemptNeedsFirmware(
    o: Outcomes, low: nat, vmx: nat, high: nat, lock: nat, inside: nat, outside: nat, rest: nat)
    requires HasBits(o, low, vmx, high, lock, inside, outside, rest)
    ensures var allowed := vmx == 1 && lock == 1 && outside == 1;
            var aligned := o.block.Some? && o.block.value % 4096 == 0;
            && (VmxOn(o.vmxOn) in Attempt(o) <==> allowed && aligned)
            && (o.Launches() <==> allowed && aligned && o.vmxOn && o.vmClear && o.vmPtrLd && o.setup && o.launch)
            && (!allowed ==> Attempt(o) == [])
  {
    BitsOf(o, low, vmx, high, lock, inside, outside, rest);
    hide VmcsSteps, HasBits, Outcomes.SupportsVmx, Outcomes.EnabledByBios;
    if o.ReachesVmxon() {
      assert Attempt(o)[4] == VmxOn(o.vmxOn);
    }
  }

  lemma BitsOf(o: Outcomes, low: nat, vmx: nat, high: nat, lock: nat, inside: nat, outside: nat, rest: nat)
    requires HasBits(o, low, vmx, high, lock, inside, outside, rest)
    ensures o.SupportsVmx() <==> vmx == 1
    ensures o.EnabledByBios() <==> lock == 1 && outside == 1
  {
    BitFive(low, vmx, high);
    BitTwo(lock + 2 * inside, outside, rest);
    LowestBit(lock, inside + 2 * outside + 4 * rest);
  }

  lemma BitFive(low: nat, bit: nat, high: nat)
    requires low < 32 && bit <= 1
    ensures ((low + 32 * bit + 64 * high) / 32) % 2 == bit
  {
    var k := bit + 2 * high;
    assert low + 32 * bit + 64 * high == 32 * k + low;
    ShiftFive(k, low);
    LowestBit(bit, high);
  }

  lemma ShiftFive(k: nat, low: nat)
    requires low < 32
    ensures (32 * k + low) / 32 == k
  {
  }

  lemma BitTwo(low: nat, bit: nat, high: nat)
    requires low < 4 && bit <= 1
    ensures ((low + 4 * bit + 8 * high) / 4) % 2 == bit
  {
    var k := bit + 2 * high;
    assert low + 4 * bit + 8 * high == 4 * k + low;
    ShiftTwo(k, low);
    LowestBit(bit, high);
  }

  lemma ShiftTwo(k: nat, low: nat)
    requires low < 4
    ensures (4 * k + low) / 4 == k
  {
  }

  lemma LowestBit(bit: nat, high: nat)
    requires bit <= 1
    ensures (bit + 2 * high) % 2 == bit
  {
  }

  /** The trace of a session: attempts in a row, until one launches the guest. */
  ghost function Session(os: seq<Outcomes>): seq<Event> {
    if os == [] then []
    else Attempt(os[0]) + if os[0].Launches() then [] else Session(os[1..])
  }

  ghost predicate SomeLaunches(os: seq<Outcomes>) {
    exists i :: 0 <= i < |os| && os[i].Launches()
  }

  /** Over any sequence of attempts with any outcomes, every step of the whole session is legal, and it ends
      in the guest if some attempt succeeds, and otherwise with no memory held and VMX operation off. */
  lemma {:induction false} SessionIsLegal(m: Monitor, os: seq<Outcomes>)
    requires Clean(m)
    ensures var r := Accept(Legal, m, Session(os));
            r.Some? && if SomeLaunches(os) then InGuest(r.value) else Clean(r.value)
    decreases |os|
  {
    hide Legal, Attempt, Outcomes.Launches, Accept;
    if os == [] {
      AcceptNone(Legal, m);
    } else {
      AttemptIsLegal(m, os[0]);
      var m1 := Accept(Legal, m, Attempt(os[0])).value;
      if os[0].Launches() {
        assert Session(os) == Attempt(os[0]);
      } else {
        SessionIsLegal(m1, os[1..]);
        AcceptConcat(Legal, m, Attempt(os[0]), Session(os[1..]));
        assert SomeLaunches(os) <==> SomeLaunches(os[1..]) by {
          assert forall i :: 0 <= i < |os| - 1 ==> os[1..][i] == os[i + 1];
          assert forall i :: 0 < i < |os| ==> os[i] == os[1..][i - 1];
        }
      }
    }
  }

  // ---------- Memory balance ----------

  ghost function Allocations(trace: seq<Event>): nat {
    if trace == [] then 0 else (if trace[0].Allocate? then 1 else 0) + Allocations(trace[1..])
  }

  ghost function Frees(trace: seq<Event>): nat {
    if trace == [] then 0 else (if trace[0].Free? then 1 else 0) + Frees(trace[1..])
  }

  /** In every legal trace from a clean state, what was allocated and not freed is what is still held. */
  lemma {:induction false} LegalTracesBalance(m: Monitor, trace: seq<Event>)
    requires Accept(Legal, m, trace).Some?
    ensures Allocations(trace) + (if m.block.Some? then 1 else 0) ==
            Frees(trace) + if Accept(Legal, m, trace).value.block.Some? then 1 else 0
    decreases |trace|
  {
    if trace != [] {
      LegalTracesBalance(Legal(m, trace[0]).value, trace[1..]);
    }
  }

  /** So a session that launches nothing frees all it allocated. */
  lemma SessionBalances(m: Monitor, os: seq<Outcomes>)
    requires Clean(m) && !SomeLaunches(os)
    ensures Allocations(Session(os)) == Frees(Session(os))
  {
    hide Accept, Session, SomeLaunches;
    SessionIsLegal(m, os);
    LegalTracesBalance(m, Session(os));
  }
}
