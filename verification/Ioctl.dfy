/**
 The IOCTL dispatcher: what each request does to the shared buffer, and every hardware access it makes, over
 one request and over any sequence of them.
 */
module Ioctl {
  import opened Wrappers
  import opened Monitors
  import opened DriverWords

  datatype Status =
    | Success | InvalidDeviceRequest | BufferTooSmall | AccessDenied | NotSupported | InvalidParameter | Unsuccessful

  // CTL_CODE(0x8000, 0x800 + n, METHOD_BUFFERED, FILE_READ_ACCESS)
  const READ_MSR: bv32 := 0x8000_6000
  const READ_PCI_CONFIG: bv32 := 0x8000_6004
  const READ_PCIE_ECAM: bv32 := 0x8000_6008

  const CF8: bv16 := 0xCF8
  const CFC: bv16 := 0xCFC

  const MSR_WHITELIST: seq<bv32> := [0x10, 0xE7, 0xE8, 0x198, 0x19C, 0x1A2, 0x1B1]

  // ---------- The hardware and what is done to it ----------

  /** A mapped page: the dword at an offset, or a fault. */
  type Page = bv16 -> Option<bv32>

  /** What the machine answers while one request is served: anything at all. */
  datatype Hardware = Hardware(msr: bv32 -> Option<bv64>, config: bv32 -> bv32, mmio: bv64 -> Option<Page>)

  datatype Event =
    | ReadMsr(msr: bv32)
    | AcquireLock
    | PortOut(port: bv16, value: bv32)
    | PortIn(port: bv16)
    | ReleaseLock
    | Map(page: bv64)
    | ReadMapped(page: bv64, offset: bv16)
    | Unmap(page: bv64)

  /** What an observer of the hardware keeps: the lock, the selected configuration address, the mapping. */
  datatype Bus = Bus(locked: bool, selected: Option<bv32>, mapped: Option<bv64>)

  const QUIET: Bus := Bus(false, None, None)

  /** What the driver promises: only whitelisted MSRs are read; the only port written is CF8, under the lock;
      CFC is read under the lock after an address was selected; one page at a time is mapped, and reads of it
      are aligned and inside it. */
  ghost function Allowed(b: Bus, e: Event): Option<Bus> {
    match e
    case ReadMsr(m) => if m in MSR_WHITELIST then Some(b) else None
    case AcquireLock => if !b.locked then Some(b.(locked := true, selected := None)) else None
    case PortOut(p, v) => if b.locked && p == 0xCF8 then Some(b.(selected := Some(v))) else None
    case PortIn(p) => if b.locked && p == 0xCFC && b.selected.Some? then Some(b) else None
    case ReleaseLock => if b.locked then Some(b.(locked := false, selected := None)) else None
    case Map(p) => if b.mapped.None? then Some(b.(mapped := Some(p))) else None
    case ReadMapped(p, o) => if b.mapped == Some(p) && o & 3 == 0 && o <= 4092 then Some(b) else None
    case Unmap(p) => if b.mapped == Some(p) then Some(b.(mapped := None)) else None
  }

  // ---------- Words in the buffer ----------

  function U16At(b: seq<bv8>, i: nat): bv16
    requires i + 2 <= |b|
  {
    b[i] as bv16 | (b[i + 1] as bv16 << 8)
  }

  function U32At(b: seq<bv8>, i: nat): bv32
    requires i + 4 <= |b|
  {
    b[i] as bv32 | (b[i + 1] as bv32 << 8) | (b[i + 2] as bv32 << 16) | (b[i + 3] as bv32 << 24)
  }

  function U64At(b: seq<bv8>, i: nat): bv64
    requires i + 8 <= |b|
  {
    U32At(b, i) as bv64 | (U32At(b, i + 4) as bv64 << 32)
  }

  function U32Bytes(v: bv32): (b: seq<bv8>)
    ensures |b| == 4
  {
    [(v & 0xFF) as bv8, ((v >> 8) & 0xFF) as bv8, ((v >> 16) & 0xFF) as bv8, ((v >> 24) & 0xFF) as bv8]
  }

  function U64Bytes(v: bv64): (b: seq<bv8>)
    ensures |b| == 8
  {
    U32Bytes((v & 0xFFFF_FFFF) as bv32) + U32Bytes((v >> 32) as bv32)
  }

  /** Byte k of the value stands at i + k. */
  lemma U32IsLittleEndian(b: seq<bv8>, i: nat)
    requires i + 4 <= |b|
    ensures var v := U32At(b, i);
            && (v & 0xFF) as bv8 == b[i] && ((v >> 8) & 0xFF) as bv8 == b[i + 1]
            && ((v >> 16) & 0xFF) as bv8 == b[i + 2] && ((v >> 24) & 0xFF) as bv8 == b[i + 3]
  {
  }

  lemma U16IsLittleEndian(b: seq<bv8>, i: nat)
    requires i + 2 <= |b|
    ensures (U16At(b, i) & 0xFF) as bv8 == b[i] && (U16At(b, i) >> 8) as bv8 == b[i + 1]
  {
  }

  lemma U64IsLittleEndian(b: seq<bv8>, i: nat)
    requires i + 8 <= |b|
    ensures (U64At(b, i) & 0xFFFF_FFFF) as bv32 == U32At(b, i) && (U64At(b, i) >> 32) as bv32 == U32At(b, i + 4)
  {
    hide U32At;
    HalvesOf(U32At(b, i), U32At(b, i + 4));
  }

  lemma HalvesOf(lo: bv32, hi: bv32)
    ensures var v := lo as bv64 | (hi as bv64 << 32); (v & 0xFFFF_FFFF) as bv32 == lo && (v >> 32) as bv32 == hi
  {
  }

  lemma U32ReadsBack(v: bv32)
    ensures U32At(U32Bytes(v), 0) == v
  {
  }

  lemma U64ReadsBack(v: bv64)
    ensures U64At(U64Bytes(v), 0) == v
  {
    hide U32At, U64Bytes;
    U64Halves(v);
    HalvesJoin(v, U32At(U64Bytes(v), 0), U32At(U64Bytes(v), 4));
  }

  lemma U64Halves(v: bv64)
    ensures U32At(U64Bytes(v), 0) == (v & 0xFFFF_FFFF) as bv32 && U32At(U64Bytes(v), 4) == (v >> 32) as bv32
  {
    TwoWords((v & 0xFFFF_FFFF) as bv32, (v >> 32) as bv32);
  }

  lemma TwoWords(lo: bv32, hi: bv32)
    ensures U32At(U32Bytes(lo) + U32Bytes(hi), 0) == lo && U32At(U32Bytes(lo) + U32Bytes(hi), 4) == hi
  {
    U32ReadsBack(lo);
    U32ReadsBack(hi);
    hide U32Bytes;
    assert forall i :: 0 <= i < 4 ==> (U32Bytes(lo) + U32Bytes(hi))[i] == U32Bytes(lo)[i];
    assert forall i :: 0 <= i < 4 ==> (U32Bytes(lo) + U32Bytes(hi))[4 + i] == U32Bytes(hi)[i];
  }

  lemma HalvesJoin(v: bv64, lo: bv32, hi: bv32)
    requires lo == (v & 0xFFFF_FFFF) as bv32 && hi == (v >> 32) as bv32
    ensures lo as bv64 | (hi as bv64 << 32) == v
  {
  }

  // ---------- What a request means ----------

  datatype Request = Request(code: bv32, inLen: nat, outLen: nat, buffer: seq<bv8>)
  {
    /** With METHOD_BUFFERED the I/O manager gives one buffer that fits the input and the output. */
    ghost predicate Buffered() {
      inLen <= |buffer| && outLen <= |buffer|
    }
  }

  /** The status, and the bytes put at the front of the buffer. */
  datatype Reply = Reply(status: Status, bytes: seq<bv8>)

  ghost function MsrReply(r: Request, hw: Hardware): Reply
    requires r.Buffered()
  {
    if r.inLen < 4 || r.outLen < 8 then Reply(BufferTooSmall, [])
    else
      var msr := U32At(r.buffer, 0);
      if msr !in MSR_WHITELIST then Reply(AccessDenied, [])
      else if hw.msr(msr).None? then Reply(NotSupported, [])
      else Reply(Success, U64Bytes(hw.msr(msr).value))
  }

  ghost function PciAddress(r: Request): bv32
    requires 4 <= |r.buffer|
  {
    ConfigAddress(r.buffer[0], r.buffer[1], r.buffer[2], r.buffer[3])
  }

  ghost function PciReply(r: Request, hw: Hardware): Reply
    requires r.Buffered()
  {
    if r.inLen < 4 || r.outLen < 4 then Reply(BufferTooSmall, [])
    else Reply(Success, U32Bytes(hw.config(PciAddress(r))))
  }

  ghost predicate EcamInRange(r: Request)
    requires 13 <= |r.buffer|
  {
    U16At(r.buffer, 11) <= 4092 && r.buffer[9] < 32 && r.buffer[10] < 8
  }

  ghost function EcamAddress(r: Request): bv64
    requires 13 <= |r.buffer|
  {
    EcamPage(U64At(r.buffer, 0), r.buffer[8], r.buffer[9], r.buffer[10])
  }

  /** The dword at an offset of a page, unless the page cannot be mapped or the read faults. */
  ghost function Mapped(page: bv64, offset: bv16, hw: Hardware): Option<bv32> {
    if hw.mmio(page).None? then None else hw.mmio(page).value(offset)
  }

  ghost function MappedEvents(page: bv64, offset: bv16, hw: Hardware): seq<Event> {
    if hw.mmio(page).None? then [] else [Map(page), ReadMapped(page, offset), Unmap(page)]
  }

  ghost function EcamReply(r: Request, hw: Hardware): Reply
    requires r.Buffered()
  {
    if r.inLen < 13 || r.outLen < 4 then Reply(BufferTooSmall, [])
    else if !EcamInRange(r) then Reply(InvalidParameter, [])
    else
      match Mapped(EcamAddress(r), EcamDword(U16At(r.buffer, 11)), hw)
      case None => Reply(Unsuccessful, [])
      case Some(v) => Reply(Success, U32Bytes(v))
  }

  ghost function ReplyTo(r: Request, hw: Hardware): Reply
    requires r.Buffered()
  {
    if r.code == READ_MSR then MsrReply(r, hw)
    else if r.code == READ_PCI_CONFIG then PciReply(r, hw)
    else if r.code == READ_PCIE_ECAM then EcamReply(r, hw)
    else Reply(InvalidDeviceRequest, [])
  }

  ghost function MsrEvents(r: Request): seq<Event>
    requires r.Buffered()
  {
    if r.inLen >= 4 && r.outLen >= 8 && U32At(r.buffer, 0) in MSR_WHITELIST then [ReadMsr(U32At(r.buffer, 0))] else []
  }

  ghost function PciEvents(r: Request): seq<Event>
    requires r.Buffered()
  {
    if r.inLen >= 4 && r.outLen >= 4 then [AcquireLock, PortOut(CF8, PciAddress(r)), PortIn(CFC), ReleaseLock] else []
  }

  ghost function EcamEvents(r: Request, hw: Hardware): seq<Event>
    requires r.Buffered()
  {
    if r.inLen >= 13 && r.outLen >= 4 && EcamInRange(r) then
      MappedEvents(EcamAddress(r), EcamDword(U16At(r.buffer, 11)), hw)
    else []
  }

  ghost function EventsOf(r: Request, hw: Hardware): seq<Event>
    requires r.Buffered()
  {
    if r.code == READ_MSR then MsrEvents(r)
    else if r.code == READ_PCI_CONFIG then PciEvents(r)
    else if r.code == READ_PCIE_ECAM then EcamEvents(r, hw)
    else []
  }

  // ---------- The driver ----------

  class Driver {
    ghost var trace: seq<Event>

    constructor ()
      ensures trace == []
    {
      trace := [];
    }

    ghost method Log(e: Event)
      modifies this
      ensures trace == old(trace) + [e]
    {
      trace := trace + [e];
    }

    method MsrIsWhitelisted(msr: bv32) returns (r: bool)
      ensures r <==> msr in MSR_WHITELIST
    {
      for i := 0 to |MSR_WHITELIST|
        invariant msr !in MSR_WHITELIST[..i]
      {
        if MSR_WHITELIST[i] == msr {
          return true;
        }
      }
      return false;
    }

    method ReadPciConfigDwordLegacy(bus: bv8, device: bv8, func: bv8, offset: bv8, hw: Hardware) returns (v: bv32)
      modifies this
      ensures v == hw.config(ConfigAddress(bus, device, func, offset))
      ensures trace == old(trace) +
                [AcquireLock, PortOut(CF8, ConfigAddress(bus, device, func, offset)), PortIn(CFC), ReleaseLock]
    {
      hide ConfigAddress;
      var address := ConfigAddress(bus, device, func, offset);
      Log(AcquireLock);
      Log(PortOut(CF8, address));
      Log(PortIn(CFC));
      v := hw.config(address);
      Log(ReleaseLock);
    }

    method ReadPcieConfigDwordEcam(base: bv64, bus: bv8, device: bv8, func: bv8, offset: bv16, hw: Hardware)
      returns (status: Status, value: bv32)
      modifies this
      ensures var inRange, page, o := offset <= 4092 && device < 32 && func < 8,
                                      EcamPage(base, bus, device, func), EcamDword(offset);
              && (!inRange ==> status == InvalidParameter && trace == old(trace))
              && (inRange ==>
                    && trace == old(trace) + MappedEvents(page, o, hw)
                    && match Mapped(page, o, hw)
                       case None => status == Unsuccessful
                       case Some(v) => status == Success && value == v)
    {
      value := 0;
      RangeMasks(device, func);
      hide EcamPage, EcamDword;
      if offset > 4092 || device & !0x1F != 0 || func & !0x7 != 0 {
        return InvalidParameter, value;
      }
      var page := EcamPage(base, bus, device, func);
      var mapped := hw.mmio(page);
      if mapped.None? {
        return Unsuccessful, value;
      }
      Log(Map(page));
      Log(ReadMapped(page, EcamDword(offset)));
      var v := mapped.value(EcamDword(offset));
      Log(Unmap(page));
      if v.None? {
        return Unsuccessful, value;
      }
      return Success, v.value;
    }

    /** For any request: the status and the answer are those of `ReplyTo`, the answer replaces the front of
        the shared buffer and nothing else of it, and the hardware sees exactly `EventsOf`. */
    method HwmonDeviceControl(code: bv32, inLen: nat, outLen: nat, buffer: array<bv8>, hw: Hardware)
      returns (status: Status, bytesReturned: nat)
      requires inLen <= buffer.Length && outLen <= buffer.Length
      modifies this, buffer
      ensures var r := Request(code, inLen, outLen, old(buffer[..]));
              && status == ReplyTo(r, hw).status && bytesReturned == |ReplyTo(r, hw).bytes| <= outLen
              && buffer[..] == ReplyTo(r, hw).bytes + old(buffer[..])[bytesReturned..]
              && trace == old(trace) + EventsOf(r, hw)
    {
      ghost var r := Request(code, inLen, outLen, buffer[..]);
      hide MsrReply, PciReply, EcamReply, MsrEvents, PciEvents, EcamEvents;
      if code == READ_MSR {
        status, bytesReturned := ReadMsrRequest(inLen, outLen, buffer, hw, r);
      } else if code == READ_PCI_CONFIG {
        status, bytesReturned := ReadPciConfigRequest(inLen, outLen, buffer, hw, r);
      } else if code == READ_PCIE_ECAM {
        status, bytesReturned := ReadPcieEcamRequest(inLen, outLen, buffer, hw, r);
      } else {
        status, bytesReturned := InvalidDeviceRequest, 0;
      }
    }

    method ReadMsrRequest(inLen: nat, outLen: nat, buffer: array<bv8>, hw: Hardware, ghost r: Request)
      returns (status: Status, bytesReturned: nat)
      requires r.Buffered() && r.inLen == inLen && r.outLen == outLen && r.buffer == buffer[..]
      modifies this, buffer
      ensures status == MsrReply(r, hw).status && bytesReturned == |MsrReply(r, hw).bytes| <= outLen
      ensures buffer[..] == MsrReply(r, hw).bytes + old(buffer[..])[bytesReturned..]
      ensures trace == old(trace) + MsrEvents(r)
    {
      hide U64Bytes, U32At;
      if inLen < 4 || outLen < 8 {
        return BufferTooSmall, 0;
      }
      var msr := U32At(buffer[..], 0);
      var allowed := MsrIsWhitelisted(msr);
      if !allowed {
        return AccessDenied, 0;
      }
      Log(ReadMsr(msr));
      var value := hw.msr(msr);
      if value.None? {
        return NotSupported, 0;
      }
      bytesReturned := CopyOut(buffer, U64Bytes(value.value));
      status := Success;
    }

    method ReadPciConfigRequest(inLen: nat, outLen: nat, buffer: array<bv8>, hw: Hardware, ghost r: Request)
      returns (status: Status, bytesReturned: nat)
      requires r.Buffered() && r.inLen == inLen && r.outLen == outLen && r.buffer == buffer[..]
      modifies this, buffer
      ensures status == PciReply(r, hw).status && bytesReturned == |PciReply(r, hw).bytes| <= outLen
      ensures buffer[..] == PciReply(r, hw).bytes + old(buffer[..])[bytesReturned..]
      ensures trace == old(trace) + PciEvents(r)
    {
      hide U32Bytes, ConfigAddress;
      if inLen < 4 || outLen < 4 {
        return BufferTooSmall, 0;
      }
      var value := ReadPciConfigDwordLegacy(buffer[0], buffer[1], buffer[2], buffer[3], hw);
      bytesReturned := CopyOut(buffer, U32Bytes(value));
      status := Success;
    }

    method ReadPcieEcamRequest(inLen: nat, outLen: nat, buffer: array<bv8>, hw: Hardware, ghost r: Request)
      returns (status: Status, bytesReturned: nat)
      requires r.Buffered() && r.inLen == inLen && r.outLen == outLen && r.buffer == buffer[..]
      modifies this, buffer
      ensures status == EcamReply(r, hw).status && bytesReturned == |EcamReply(r, hw).bytes| <= outLen
      ensures buffer[..] == EcamReply(r, hw).bytes + old(buffer[..])[bytesReturned..]
      ensures trace == old(trace) + EcamEvents(r, hw)
    {
      hide U32Bytes, U64At, U16At, EcamPage, EcamDword, Mapped, MappedEvents;
      if inLen < 13 || outLen < 4 {
        return BufferTooSmall, 0;
      }
      var value;
      bytesReturned := 0;
      status, value := ReadPcieConfigDwordEcam(
        U64At(buffer[..], 0), buffer[8], buffer[9], buffer[10], U16At(buffer[..], 11), hw);
      if status == Success {
        bytesReturned := CopyOut(buffer, U32Bytes(value));
      }
    }

    static method CopyOut(buffer: array<bv8>, bytes: seq<bv8>) returns (n: nat)
      requires |bytes| <= buffer.Length
      modifies buffer
      ensures n == |bytes| && buffer[..] == bytes + old(buffer[..])[|bytes|..]
    {
      n := |bytes|;
      forall i | 0 <= i < n {
        buffer[i] := bytes[i];
      }
    }
  }

  lemma RangeMasks(device: bv8, func: bv8)
    ensures device & !0x1F == 0 <==> device < 32
    ensures func & !0x7 == 0 <==> func < 8
  {
  }

  // ---------- What every request keeps ----------

  // The requests that succeed, over the bytes of the buffer.

  ghost predicate MsrSucceeds(r: Request, hw: Hardware)
    requires r.Buffered()
  {
    && r.code == 0x8000_6000 && 4 <= r.inLen && 8 <= r.outLen
    && U32At(r.buffer, 0) in [0x10, 0xE7, 0xE8, 0x198, 0x19C, 0x1A2, 0x1B1] && hw.msr(U32At(r.buffer, 0)).Some?
  }

  ghost predicate PciSucceeds(r: Request) {
    r.code == 0x8000_6004 && 4 <= r.inLen && 4 <= r.outLen
  }

  ghost predicate EcamSucceeds(r: Request, hw: Hardware)
    requires r.Buffered()
  {
    && r.code == 0x8000_6008 && 13 <= r.inLen && 4 <= r.outLen
    && U16At(r.buffer, 11) <= 4092 && r.buffer[9] < 32 && r.buffer[10] < 8
    && Mapped(EcamAddress(r), EcamDword(U16At(r.buffer, 11)), hw).Some?
  }

  /** Which requests succeed, and with what: the answer is empty unless the request succeeds, it is then the
      little-endian value of the addressed register or dword, and the hardware saw exactly the accesses for it. */
  lemma RepliesAreHonest(r: Request, hw: Hardware)
    requires r.Buffered()
    ensures ReplyTo(r, hw).status == Success <==> MsrSucceeds(r, hw) || PciSucceeds(r) || EcamSucceeds(r, hw)
    ensures ReplyTo(r, hw).status != Success ==> ReplyTo(r, hw).bytes == []
    ensures MsrSucceeds(r, hw) ==>
              var bytes, msr := ReplyTo(r, hw).bytes, U32At(r.buffer, 0);
              && |bytes| == 8 && Some(U64At(bytes, 0)) == hw.msr(msr) && EventsOf(r, hw) == [ReadMsr(msr)]
    ensures PciSucceeds(r) ==>
              var bytes, a := ReplyTo(r, hw).bytes, PciAddress(r);
              && SelectsConfig(a, r.buffer[0], r.buffer[1], r.buffer[2], r.buffer[3])
              && |bytes| == 4 && U32At(bytes, 0) == hw.config(a)
              && EventsOf(r, hw) == [AcquireLock, PortOut(0xCF8, a), PortIn(0xCFC), ReleaseLock]
    ensures EcamSucceeds(r, hw) ==>
              var bytes, page, o := ReplyTo(r, hw).bytes, EcamAddress(r), EcamDword(U16At(r.buffer, 11));
              && IsFunctionPage(page, U64At(r.buffer, 0), r.buffer[8], r.buffer[9], r.buffer[10])
              && |bytes| == 4 && hw.mmio(page).Some? && hw.mmio(page).value(o) == Some(U32At(bytes, 0))
              && EventsOf(r, hw) == [Map(page), ReadMapped(page, o), Unmap(page)]
  {
    hide U64Bytes, U32Bytes, U64At, U32At, U16At, EcamPage, ConfigAddress, SelectsConfig, IsFunctionPage, EcamDword;
    if MsrSucceeds(r, hw) {
      U64ReadsBack(hw.msr(U32At(r.buffer, 0)).value);
    } else if PciSucceeds(r) {
      U32ReadsBack(hw.config(PciAddress(r)));
      ConfigAddressIsExact(r.buffer[0], r.buffer[1], r.buffer[2], r.buffer[3]);
    } else if EcamSucceeds(r, hw) {
      U32ReadsBack(Mapped(EcamAddress(r), EcamDword(U16At(r.buffer, 11)), hw).value);
      EcamPageIsExact(U64At(r.buffer, 0), r.buffer[8], r.buffer[9], r.buffer[10]);
    }
  }

  /** Why a request fails, over the bytes of the buffer. */
  lemma FailuresAreExact(r: Request, hw: Hardware)
    requires r.Buffered()
    ensures var status := ReplyTo(r, hw).status;
            && (status == InvalidDeviceRequest <==> r.code !in {0x8000_6000, 0x8000_6004, 0x8000_6008})
            && (status == BufferTooSmall <==>
                  || (r.code == 0x8000_6000 && (r.inLen < 4 || r.outLen < 8))
                  || (r.code == 0x8000_6004 && (r.inLen < 4 || r.outLen < 4))
                  || (r.code == 0x8000_6008 && (r.inLen < 13 || r.outLen < 4)))
            && (status == AccessDenied <==>
                  && r.code == 0x8000_6000 && r.inLen >= 4 && r.outLen >= 8
                  && U32At(r.buffer, 0) !in [0x10, 0xE7, 0xE8, 0x198, 0x19C, 0x1A2, 0x1B1])
            && (status == InvalidParameter <==>
                  && r.code == 0x8000_6008 && r.inLen >= 13 && r.outLen >= 4
                  && (U16At(r.buffer, 11) > 4092 || r.buffer[9] >= 32 || r.buffer[10] >= 8))
            && (status == NotSupported ==> r.code == 0x8000_6000 && hw.msr(U32At(r.buffer, 0)).None?)
            && (status == Unsuccessful ==>
                  r.code == 0x8000_6008 && Mapped(EcamAddress(r), EcamDword(U16At(r.buffer, 11)), hw).None?)
  {
    hide U64Bytes, U32Bytes, U64At, U32At, U16At, EcamPage, ConfigAddress, EcamDword, Mapped;
  }

  /** The hardware accesses of one request are allowed and leave the bus quiet. */
  lemma EventsAreAllowed(r: Request, hw: Hardware)
    requires r.Buffered()
    ensures Accept(Allowed, QUIET, EventsOf(r, hw)) == Some(QUIET)
  {
    hide U32At, PciAddress, EcamAddress, EcamInRange;
    var trace := EventsOf(r, hw);
    AcceptNone(Allowed, QUIET);
    if |trace| == 1 {
      AcceptOne(Allowed, QUIET, trace[0], []);
      assert trace == [trace[0]] + [];
    } else if |trace| == 4 {
      PortReadIsAllowed(PciAddress(r));
    } else if |trace| == 3 {
      OffsetInRange(r);
      MappedReadIsAllowed(EcamAddress(r), EcamDword(U16At(r.buffer, 11)));
    }
  }

  lemma OffsetInRange(r: Request)
    requires 13 <= |r.buffer| && EcamInRange(r)
    ensures EcamDword(U16At(r.buffer, 11)) & 3 == 0 && EcamDword(U16At(r.buffer, 11)) <= 4092
  {
    EcamDwordStaysInPage(U16At(r.buffer, 11));
  }

  lemma PortReadIsAllowed(address: bv32)
    ensures Accept(Allowed, QUIET, [AcquireLock, PortOut(CF8, address), PortIn(CFC), ReleaseLock]) == Some(QUIET)
  {
    var c := [ReleaseLock] + [];
    var b := [PortIn(CFC)] + c;
    var a := [PortOut(CF8, address)] + b;
    assert [AcquireLock, PortOut(CF8, address), PortIn(CFC), ReleaseLock] == [AcquireLock] + a;
    var b1 := Bus(true, None, None);
    AcceptOne(Allowed, QUIET, AcquireLock, a);
    AcceptOne(Allowed, b1, PortOut(CF8, address), b);
    AcceptOne(Allowed, b1.(selected := Some(address)), PortIn(CFC), c);
    AcceptOne(Allowed, b1.(selected := Some(address)), ReleaseLock, []);
  }

  lemma MappedReadIsAllowed(page: bv64, offset: bv16)
    requires offset & 3 == 0 && offset <= 4092
    ensures Accept(Allowed, QUIET, [Map(page), ReadMapped(page, offset), Unmap(page)]) == Some(QUIET)
  {
    var b := [Unmap(page)] + [];
    var a := [ReadMapped(page, offset)] + b;
    assert [Map(page), ReadMapped(page, offset), Unmap(page)] == [Map(page)] + a;
    var b1 := QUIET.(mapped := Some(page));
    AcceptOne(Allowed, QUIET, Map(page), a);
    AcceptOne(Allowed, b1, ReadMapped(page, offset), b);
    AcceptOne(Allowed, b1, Unmap(page), []);
  }

  /** The request for offset 4093 of a function, whose last four bytes start at 4092: refused, although the
      dword it would read is inside the page. */
  lemma LastOffsetsAreRefused(hw: Hardware)
    ensures var r := Request(READ_PCIE_ECAM, 13, 4, seq(11, _ => 0) + [0xFD, 0x0F]);
            && r.Buffered() && U16At(r.buffer, 11) == 4093 && EcamDword(4093) == 4092
            && ReplyTo(r, hw) == Reply(InvalidParameter, [])
  {
  }

  // ---------- Any sequence of requests ----------

  datatype Call = Call(request: Request, hw: Hardware)

  ghost predicate AllBuffered(calls: seq<Call>) {
    forall i :: 0 <= i < |calls| ==> calls[i].request.Buffered()
  }

  ghost function Trace(calls: seq<Call>): seq<Event>
    requires AllBuffered(calls)
  {
    if calls == [] then [] else EventsOf(calls[0].request, calls[0].hw) + Trace(calls[1..])
  }

  lemma {:induction false} SessionIsAllowed(calls: seq<Call>)
    requires AllBuffered(calls)
    ensures Accept(Allowed, QUIET, Trace(calls)) == Some(QUIET)
    decreases |calls|
  {
    hide EventsOf, Allowed, Accept;
    if calls == [] {
      AcceptNone(Allowed, QUIET);
    } else {
      EventsAreAllowed(calls[0].request, calls[0].hw);
      SessionIsAllowed(calls[1..]);
      AcceptConcat(Allowed, QUIET, EventsOf(calls[0].request, calls[0].hw), Trace(calls[1..]));
    }
  }

  /** Over any sequence of requests, with any inputs and any hardware: only whitelisted MSRs are read, and no
      port other than CF8 is written. */
  lemma DriverIsReadOnly(calls: seq<Call>, i: nat)
    requires AllBuffered(calls) && i < |Trace(calls)|
    ensures var e := Trace(calls)[i];
            && (e.ReadMsr? ==> e.msr in [0x10, 0xE7, 0xE8, 0x198, 0x19C, 0x1A2, 0x1B1])
            && (e.PortOut? ==> e.port == 0xCF8)
  {
    hide Trace, AllBuffered;
    SessionIsAllowed(calls);
    AcceptedEvent(Allowed, QUIET, Trace(calls), i);
  }
}
