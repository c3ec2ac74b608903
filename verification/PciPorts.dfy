/**
 The CF8/CFC port pair, shared by every processor that reads PCI configuration space: any number of
 processors, interleaved step by step, under one spin lock that does not know who holds it.
 */
module PciPorts {
  import opened Wrappers
  import opened Monitors
  import opened DriverWords
  import Ioctl

  datatype Request = Request(bus: bv8, device: bv8, func: bv8, offset: bv8)
  {
    function Address(): bv32 {
      ConfigAddress(bus, device, func, offset)
    }
  }

  /** Where a processor is in its call: each state is left by one step. */
  datatype Pc =
    | Idle
    | Waiting(req: Request)
    | Locked(req: Request)
    | Addressed(req: Request)
    | Fetched(req: Request, value: bv32, at: nat)

  /** A completed call: what was asked, what was returned, and when the data port was read. */
  datatype Reply = Reply(cpu: nat, req: Request, value: bv32, at: nat)

  datatype State = State(locked: bool, cf8: bv32, pcs: map<nat, Pc>, time: nat, replies: seq<Reply>)

  const BOOT: State := State(false, 0, map[], 0, [])

  datatype Step =
    | Call(cpu: nat, req: Request)
    | AcquireLock(cpu: nat)
    | WriteCf8(cpu: nat)
    | ReadCfc(cpu: nat)
    | ReleaseLock(cpu: nat)

  /** What the devices hold: any dword at any address and time. */
  type Config = (nat, bv32) -> bv32

  ghost function PcOf(s: State, cpu: nat): Pc {
    if cpu in s.pcs then s.pcs[cpu] else Idle
  }

  ghost predicate InSection(pc: Pc) {
    pc.Locked? || pc.Addressed? || pc.Fetched?
  }

  ghost function Move(s: State, cpu: nat, pc: Pc): State {
    s.(pcs := s.pcs[cpu := pc], time := s.time + 1)
  }

  /** One step of one processor. A step that its processor is not at, or an attempt at a lock that is taken,
      changes nothing; so every list of steps is a schedule. */
  ghost function Next(s: State, step: Step, config: Config): State {
    var cpu := step.cpu;
    var pc := PcOf(s, cpu);
    match step
    case Call(_, req) => if pc.Idle? then Move(s, cpu, Waiting(req)) else s
    case AcquireLock(_) =>
      if pc.Waiting? && !s.locked then Move(s, cpu, Locked(pc.req)).(locked := true) else s
    case WriteCf8(_) =>
      if pc.Locked? then Move(s, cpu, Addressed(pc.req)).(cf8 := pc.req.Address()) else s
    case ReadCfc(_) =>
      if pc.Addressed? then Move(s, cpu, Fetched(pc.req, config(s.time, s.cf8), s.time)) else s
    case ReleaseLock(_) =>
      if pc.Fetched? then
        Move(s, cpu, Idle).(locked := false, replies := s.replies + [Reply(cpu, pc.req, pc.value, pc.at)])
      else s
  }

  ghost function Run(steps: seq<Step>, config: Config): State {
    if steps == [] then BOOT else Next(Run(steps[..|steps| - 1], config), steps[|steps| - 1], config)
  }

  // ---------- What every interleaving keeps ----------

  ghost predicate MutualExclusion(s: State) {
    forall c: nat, d: nat :: InSection(PcOf(s, c)) && InSection(PcOf(s, d)) ==> c == d
  }

  /** Between the steps of its section, a processor finds its own address in the port and its own value. */
  ghost predicate OwnPorts(s: State, config: Config) {
    forall c: nat ::
      var pc := PcOf(s, c);
      && (InSection(pc) ==> s.locked)
      && (pc.Addressed? ==> s.cf8 == pc.req.Address())
      && (pc.Fetched? ==> pc.value == config(pc.at, pc.req.Address()))
  }

  ghost predicate LockIsHeld(s: State) {
    s.locked ==> exists c: nat :: InSection(PcOf(s, c))
  }

  ghost predicate RepliesAreTrue(s: State, config: Config) {
    forall i :: 0 <= i < |s.replies| ==> s.replies[i].value == config(s.replies[i].at, s.replies[i].req.Address())
  }

  ghost predicate Inv(s: State, config: Config) {
    MutualExclusion(s) && OwnPorts(s, config) && LockIsHeld(s) && RepliesAreTrue(s, config)
  }

  lemma NextKeepsInv(s: State, step: Step, config: Config)
    requires Inv(s, config)
    ensures Inv(Next(s, step, config), config)
  {
    var s', cpu := Next(s, step, config), step.cpu;
    if s' != s {
      assert forall c: nat :: c != cpu ==> PcOf(s', c) == PcOf(s, c);
      if s.locked && step.Call? {
        var c: nat :| InSection(PcOf(s, c));
        assert InSection(PcOf(s', c));
      } else if s'.locked {
        assert InSection(PcOf(s', cpu));
      }
    }
  }

  lemma {:induction false} RunKeepsInv(steps: seq<Step>, config: Config)
    ensures Inv(Run(steps, config), config)
    decreases |steps|
  {
    hide Inv, Next;
    if steps == [] {
      BootIsFine(config);
    } else {
      RunKeepsInv(steps[..|steps| - 1], config);
      NextKeepsInv(Run(steps[..|steps| - 1], config), steps[|steps| - 1], config);
    }
  }

  lemma BootIsFine(config: Config)
    ensures Inv(BOOT, config)
  {
  }

  /** For every schedule: at most one processor is between acquire and release, and every completed call
      returned the dword that its own request addresses, as it was when that call read the data port. */
  lemma EverySchedule(steps: seq<Step>, config: Config)
    ensures var s := Run(steps, config);
            && MutualExclusion(s)
            && forall i :: 0 <= i < |s.replies| ==>
                 var reply := s.replies[i];
                 var a, req := reply.req.Address(), reply.req;
                 reply.value == config(reply.at, a) && SelectsConfig(a, req.bus, req.device, req.func, req.offset)
  {
    hide MutualExclusion, Run, ConfigAddress, SelectsConfig;
    forall req: Request
      ensures SelectsConfig(req.Address(), req.bus, req.device, req.func, req.offset)
    {
      ConfigAddressIsExact(req.bus, req.device, req.func, req.offset);
    }
    RunKeepsInv(steps, config);
  }

  /** No schedule can block the ports for good: whoever holds the lock frees it by its own next steps. */
  lemma LockCanAlwaysBeFreed(steps: seq<Step>, config: Config)
    requires Run(steps, config).locked
    ensures exists c: nat :: InSection(PcOf(Run(steps, config), c))
              && !Run(steps + [WriteCf8(c), ReadCfc(c), ReleaseLock(c)], config).locked
  {
    hide Run, Next;
    var s := Run(steps, config);
    RunKeepsInv(steps, config);
    var c: nat :| InSection(PcOf(s, c));
    RunOne(steps, WriteCf8(c), config);
    RunOne(steps + [WriteCf8(c)], ReadCfc(c), config);
    RunOne(steps + [WriteCf8(c)] + [ReadCfc(c)], ReleaseLock(c), config);
    assert steps + [WriteCf8(c), ReadCfc(c), ReleaseLock(c)]
        == steps + [WriteCf8(c)] + [ReadCfc(c)] + [ReleaseLock(c)];
    FreesLock(s, c, config);
  }

  lemma RunOne(steps: seq<Step>, step: Step, config: Config)
    ensures Run(steps + [step], config) == Next(Run(steps, config), step, config)
  {
    assert (steps + [step])[..|steps|] == steps;
  }

  lemma FreesLock(s: State, c: nat, config: Config)
    requires InSection(PcOf(s, c))
    ensures !Next(Next(Next(s, WriteCf8(c), config), ReadCfc(c), config), ReleaseLock(c), config).locked
  {
  }

  // ---------- What the hardware sees ----------

  /** One access, and the processor that makes it. */
  datatype Access = Access(cpu: nat, event: Ioctl.Event)

  ghost function StepAccesses(s: State, step: Step): seq<Access> {
    var cpu := step.cpu;
    var pc := PcOf(s, cpu);
    match step
    case Call(_, _) => []
    case AcquireLock(_) => if pc.Waiting? && !s.locked then [Access(cpu, Ioctl.AcquireLock)] else []
    case WriteCf8(_) =>
      if pc.Locked? then [Access(cpu, Ioctl.PortOut(Ioctl.CF8, pc.req.Address()))] else []
    case ReadCfc(_) => if pc.Addressed? then [Access(cpu, Ioctl.PortIn(Ioctl.CFC))] else []
    case ReleaseLock(_) => if pc.Fetched? then [Access(cpu, Ioctl.ReleaseLock)] else []
  }

  /** Every access of a schedule, by any processor, in the order in which they are made. */
  ghost function Accesses(steps: seq<Step>, config: Config): seq<Access> {
    if steps == [] then []
    else
      var before := steps[..|steps| - 1];
      Accesses(before, config) + StepAccesses(Run(before, config), steps[|steps| - 1])
  }

  /** The accesses of one whole call. */
  ghost function CallAccesses(cpu: nat, address: bv32): seq<Access> {
    [Access(cpu, Ioctl.AcquireLock), Access(cpu, Ioctl.PortOut(Ioctl.CF8, address)),
     Access(cpu, Ioctl.PortIn(Ioctl.CFC)), Access(cpu, Ioctl.ReleaseLock)]
  }

  /** The calls one after another, none overlapping the next. */
  ghost function Serial(replies: seq<Reply>): seq<Access> {
    if replies == [] then []
    else
      var last := replies[|replies| - 1];
      Serial(replies[..|replies| - 1]) + CallAccesses(last.cpu, last.req.Address())
  }

  /** The part of its call that a processor inside the section has made. */
  ghost function Begun(cpu: nat, pc: Pc): seq<Access> {
    match pc
    case Locked(req) => CallAccesses(cpu, req.Address())[..1]
    case Addressed(req) => CallAccesses(cpu, req.Address())[..2]
    case Fetched(req, _, _) => CallAccesses(cpu, req.Address())[..3]
    case _ => []
  }

  ghost predicate SerialSoFar(s: State, trace: seq<Access>) {
    && (!s.locked ==> trace == Serial(s.replies))
    && forall c: nat :: InSection(PcOf(s, c)) ==> trace == Serial(s.replies) + Begun(c, PcOf(s, c))
  }

  lemma NextIsSerial(s: State, step: Step, trace: seq<Access>, config: Config)
    requires Inv(s, config) && SerialSoFar(s, trace)
    ensures SerialSoFar(Next(s, step, config), trace + StepAccesses(s, step))
  {
    hide ConfigAddress, Serial;
    var s', more, cpu := Next(s, step, config), StepAccesses(s, step), step.cpu;
    var pc := PcOf(s, cpu);
    if s' == s {
      assert trace + more == trace;
    } else {
      assert forall c: nat :: c != cpu ==> PcOf(s', c) == PcOf(s, c);
      if InSection(PcOf(s', cpu)) {
        assert Begun(cpu, pc) + more == Begun(cpu, PcOf(s', cpu));
      } else if InSection(pc) {
        assert Begun(cpu, pc) + more == CallAccesses(cpu, pc.req.Address());
      }
      if step.ReleaseLock? {
        SerialAfter(s.replies, Reply(cpu, pc.req, pc.value, pc.at));
      }
    }
  }

  lemma SerialAfter(replies: seq<Reply>, r: Reply)
    ensures Serial(replies + [r]) == Serial(replies) + CallAccesses(r.cpu, r.req.Address())
  {
    assert (replies + [r])[..|replies|] == replies;
  }

  /** Every interleaving does to the hardware exactly what its completed calls do one after another, in the
      order in which they end, followed by what the holder of the lock has begun. */
  lemma {:induction false} EveryScheduleIsSerial(steps: seq<Step>, config: Config)
    ensures SerialSoFar(Run(steps, config), Accesses(steps, config))
    decreases |steps|
  {
    hide SerialSoFar, Next, StepAccesses, Inv;
    if steps == [] {
      BootIsSerial();
    } else {
      var before := steps[..|steps| - 1];
      EveryScheduleIsSerial(before, config);
      RunKeepsInv(before, config);
      NextIsSerial(Run(before, config), steps[|steps| - 1], Accesses(before, config), config);
    }
  }

  lemma BootIsSerial()
    ensures SerialSoFar(BOOT, [])
  {
  }

  // ---------- The same calls, as requests to the driver ----------

  ghost function Events(trace: seq<Access>): (r: seq<Ioctl.Event>)
    ensures |r| == |trace|
  {
    seq(|trace|, i requires 0 <= i < |trace| => trace[i].event)
  }

  lemma EventsConcat(a: seq<Access>, b: seq<Access>)
    ensures Events(a + b) == Events(a) + Events(b)
  {
  }

  lemma {:induction false} SerialIsAllowed(replies: seq<Reply>)
    ensures Accept(Ioctl.Allowed, Ioctl.QUIET, Events(Serial(replies))) == Some(Ioctl.QUIET)
    decreases |replies|
  {
    hide Accept, Ioctl.Allowed, CallAccesses;
    if replies == [] {
      AcceptNone(Ioctl.Allowed, Ioctl.QUIET);
    } else {
      var before, last := replies[..|replies| - 1], replies[|replies| - 1];
      SerialIsAllowed(before);
      CallIsAllowed(last.cpu, last.req.Address());
      EventsConcat(Serial(before), CallAccesses(last.cpu, last.req.Address()));
      AcceptConcat(Ioctl.Allowed, Ioctl.QUIET, Events(Serial(before)), Events(CallAccesses(last.cpu, last.req.Address())));
    }
  }

  lemma CallIsAllowed(cpu: nat, address: bv32)
    ensures Accept(Ioctl.Allowed, Ioctl.QUIET, Events(CallAccesses(cpu, address))) == Some(Ioctl.QUIET)
  {
    hide Accept;
    Ioctl.PortReadIsAllowed(address);
    assert Events(CallAccesses(cpu, address)) ==
           [Ioctl.AcquireLock, Ioctl.PortOut(Ioctl.CF8, address), Ioctl.PortIn(Ioctl.CFC), Ioctl.ReleaseLock];
  }

  lemma BegunIsAllowed(cpu: nat, pc: Pc)
    ensures Accept(Ioctl.Allowed, Ioctl.QUIET, Events(Begun(cpu, pc))).Some?
  {
    hide Accept, ConfigAddress, Ioctl.Allowed;
    if InSection(pc) {
      var all, n := CallAccesses(cpu, pc.req.Address()), |Begun(cpu, pc)|;
      CallIsAllowed(cpu, pc.req.Address());
      assert all == Begun(cpu, pc) + all[n..];
      EventsConcat(Begun(cpu, pc), all[n..]);
      AcceptConcat(Ioctl.Allowed, Ioctl.QUIET, Events(Begun(cpu, pc)), Events(all[n..]));
    } else {
      AcceptNone(Ioctl.Allowed, Ioctl.QUIET);
    }
  }

  /** The driver's rules for the ports hold of every interleaving, not only of requests served in turn. */
  lemma EveryScheduleIsAllowed(steps: seq<Step>, config: Config)
    ensures Accept(Ioctl.Allowed, Ioctl.QUIET, Events(Accesses(steps, config))).Some?
  {
    hide Accept, Begun, Serial, Accesses, Run, Ioctl.Allowed;
    var s := Run(steps, config);
    EveryScheduleIsSerial(steps, config);
    RunKeepsInv(steps, config);
    SerialIsAllowed(s.replies);
    if s.locked {
      var c: nat :| InSection(PcOf(s, c));
      BegunIsAllowed(c, PcOf(s, c));
      EventsConcat(Serial(s.replies), Begun(c, PcOf(s, c)));
      AcceptConcat(Ioctl.Allowed, Ioctl.QUIET, Events(Serial(s.replies)), Events(Begun(c, PcOf(s, c))));
    }
  }

  /** Each completed call of an interleaving is a request of the driver: it makes the accesses of the request,
      and returns the request's answer from a machine as it was when the data port was read. */
  lemma RepliesAreRequests(steps: seq<Step>, config: Config, i: nat, r: Ioctl.Request, hw: Ioctl.Hardware)
    requires i < |Run(steps, config).replies| && r.Buffered() && r.inLen >= 4 && r.outLen >= 4
    requires var reply := Run(steps, config).replies[i];
             && r.buffer[..4] == [reply.req.bus, reply.req.device, reply.req.func, reply.req.offset]
             && hw.config(Ioctl.PciAddress(r)) == config(reply.at, Ioctl.PciAddress(r))
    ensures var reply := Run(steps, config).replies[i];
            && Ioctl.PciEvents(r) == Events(CallAccesses(reply.cpu, reply.req.Address()))
            && Ioctl.PciReply(r, hw) == Ioctl.Reply(Ioctl.Success, Ioctl.U32Bytes(reply.value))
  {
    hide Run, ConfigAddress, SelectsConfig, Ioctl.U32Bytes;
    EverySchedule(steps, config);
    var b := r.buffer[..4];
    assert b[0] == r.buffer[0] && b[1] == r.buffer[1] && b[2] == r.buffer[2] && b[3] == r.buffer[3];
  }
}
