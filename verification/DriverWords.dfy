/** The bit packings of the drivers: configuration addresses, segment descriptors and VMX controls. */
module DriverWords {

  // ---------- PCI configuration mechanism #1 ----------

  function ConfigAddress(bus: bv8, device: bv8, func: bv8, offset: bv8): bv32 {
    0x8000_0000
    | (bus as bv32 << 16)
    | ((device & 0x1F) as bv32 << 11)
    | ((func & 0x7) as bv32 << 8)
    | (offset & 0xFC) as bv32
  }

  /** Two requests within range select the same dword only if they name the same function and dword. */
  lemma ConfigAddressIsInjective(
    bus: bv8, device: bv8, func: bv8, offset: bv8, bus': bv8, device': bv8, func': bv8, offset': bv8)
    requires device < 32 && device' < 32 && func < 8 && func' < 8
    ensures ConfigAddress(bus, device, func, offset) == ConfigAddress(bus', device', func', offset') <==>
            bus == bus' && device == device' && func == func' && offset & 0xFC == offset' & 0xFC
  {
    hide ConfigAddress;
    if ConfigAddress(bus, device, func, offset) == ConfigAddress(bus', device', func', offset') {
      ConfigAddressFields(bus, device, func, offset);
      ConfigAddressFields(bus', device', func', offset');
    } else if bus == bus' && device == device' && func == func' {
      ConfigAddressLowBits(bus, device, func, offset, offset');
    }
  }

  lemma ConfigAddressLowBits(bus: bv8, device: bv8, func: bv8, offset: bv8, offset': bv8)
    ensures offset & 0xFC == offset' & 0xFC ==>
              ConfigAddress(bus, device, func, offset) == ConfigAddress(bus, device, func, offset')
  {
  }

  lemma ConfigAddressFields(bus: bv8, device: bv8, func: bv8, offset: bv8)
    ensures var a := ConfigAddress(bus, device, func, offset);
            && ((a >> 16) & 0xFF) as bv8 == bus && ((a >> 11) & 0x1F) as bv8 == device & 0x1F
            && ((a >> 8) & 0x7) as bv8 == func & 0x7 && (a & 0xFC) as bv8 == offset & 0xFC
  {
  }

  /** What the address port takes: the enable bit, the fields each in its place, and zero elsewhere. */
  predicate SelectsConfig(a: bv32, bus: bv8, device: bv8, func: bv8, offset: bv8) {
    && a & 0xFF00_0003 == 0x8000_0000
    && ((a >> 16) & 0xFF) as bv8 == bus && ((a >> 11) & 0x1F) as bv8 == device & 0x1F
    && ((a >> 8) & 0x7) as bv8 == func & 0x7 && (a & 0xFC) as bv8 == offset & 0xFC
  }

  /** The packed address says exactly that, whatever the caller passes. */
  lemma ConfigAddressIsExact(bus: bv8, device: bv8, func: bv8, offset: bv8)
    ensures SelectsConfig(ConfigAddress(bus, device, func, offset), bus, device, func, offset)
  {
    ConfigAddressFields(bus, device, func, offset);
    ConfigAddressIsWellFormed(bus, device, func, offset);
    hide ConfigAddress;
  }

  /** The enable bit is set, the reserved bits and the two low bits are clear, whatever the caller passes. */
  lemma ConfigAddressIsWellFormed(bus: bv8, device: bv8, func: bv8, offset: bv8)
    ensures ConfigAddress(bus, device, func, offset) & 0xFF00_0003 == 0x8000_0000
  {
  }

  // ---------- PCIe enhanced configuration access ----------

  const ECAM_PAGE_SIZE: bv64 := 4096

  function EcamOffset(bus: bv8, device: bv8, func: bv8): bv64 {
    (bus as bv64 << 20) | (device as bv64 << 15) | (func as bv64 << 12)
  }

  function Plus(base: bv64, x: bv64): bv64 {
    base + x
  }

  function EcamPage(base: bv64, bus: bv8, device: bv8, func: bv8): bv64 {
    Plus(base, EcamOffset(bus, device, func))
  }

  function EcamDword(offset: bv16): bv16 {
    offset & 0xFFC
  }

  /** Within range, the fields do not overlap: packing with OR is adding. */
  lemma EcamOrIsSum(bus: bv8, device: bv8, func: bv8)
    requires device < 32 && func < 8
    ensures EcamOffset(bus, device, func) ==
            (bus as bv64 << 20) + (device as bv64 << 15) + (func as bv64 << 12)
  {
  }

  /** An offset that says bus, device and function, each in its place, and nothing else. */
  predicate IsFunctionOffset(x: bv64, bus: bv8, device: bv8, func: bv8) {
    && (x >> 20) & 0xFF == bus as bv64 && (x >> 15) & 0x1F == device as bv64 && (x >> 12) & 0x7 == func as bv64
    && x & !0xFFF_F000 == 0
  }

  ghost predicate IsFunctionPage(page: bv64, base: bv64, bus: bv8, device: bv8, func: bv8) {
    exists x: bv64 :: IsFunctionOffset(x, bus, device, func) && page == base + x
  }

  /** Within range, the page of a function is the base plus the offset that says so. There is only one. */
  lemma EcamPageIsExact(base: bv64, bus: bv8, device: bv8, func: bv8)
    requires device < 32 && func < 8
    ensures IsFunctionPage(EcamPage(base, bus, device, func), base, bus, device, func)
  {
    EcamOffsetIsExact(bus, device, func);
    hide EcamOffset, IsFunctionOffset;
  }

  lemma EcamOffsetIsExact(bus: bv8, device: bv8, func: bv8)
    requires device < 32 && func < 8
    ensures IsFunctionOffset(EcamOffset(bus, device, func), bus, device, func)
  {
  }

  lemma OffsetIsUnique(x: bv64, y: bv64, bus: bv8, device: bv8, func: bv8)
    requires IsFunctionOffset(x, bus, device, func) && IsFunctionOffset(y, bus, device, func)
    ensures x == y
  {
    hide Packed;
    RebuiltFromFields(x);
    RebuiltFromFields(y);
  }

  function Packed(bus: bv64, device: bv64, func: bv64): bv64 {
    (bus << 20) | (device << 15) | (func << 12)
  }

  lemma RebuiltFromFields(x: bv64)
    ensures x & !0xFFF_F000 == 0 ==> x == Packed((x >> 20) & 0xFF, (x >> 15) & 0x1F, (x >> 12) & 0x7)
  {
  }

  /** The address `a` is one of the 4096 from `page` on, even where these wrap. */
  predicate InPage(a: bv64, page: bv64) {
    a - page < ECAM_PAGE_SIZE
  }

  /** Different functions have disjoint pages: an address is in the pages of one function at most. */
  lemma EcamPagesAreDisjoint(
    base: bv64, a: bv64, bus: bv8, device: bv8, func: bv8, bus': bv8, device': bv8, func': bv8)
    requires device < 32 && device' < 32 && func < 8 && func' < 8
    requires InPage(a, EcamPage(base, bus, device, func)) && InPage(a, EcamPage(base, bus', device', func'))
    ensures bus == bus' && device == device' && func == func'
  {
    hide Plus, Minus, EcamOffset, InPage;
    EcamOffsetIsInjective(bus, device, func, bus', device', func');
    FromBase(a, base, EcamOffset(bus, device, func));
    FromBase(a, base, EcamOffset(bus', device', func'));
    OnePage(Minus(a, base), EcamOffset(bus, device, func), EcamOffset(bus', device', func'));
  }

  function Minus(a: bv64, base: bv64): bv64 {
    a - base
  }

  lemma FromBase(a: bv64, base: bv64, x: bv64)
    requires InPage(a, Plus(base, x))
    ensures InPage(Minus(a, base), x)
  {
    hide InPage;
    ShiftPage(a, base, x);
  }

  lemma ShiftPage(a: bv64, base: bv64, x: bv64)
    ensures InPage(a, base + x) <==> InPage(a - base, x)
  {
  }

  lemma OnePage(z: bv64, x: bv64, y: bv64)
    requires x & 0xFFF == 0 && y & 0xFFF == 0 && InPage(z, x) && InPage(z, y)
    ensures x == y
  {
    PageStart(z, x);
    PageStart(z, y);
    hide InPage;
  }

  lemma PageStart(z: bv64, x: bv64)
    requires x & 0xFFF == 0 && InPage(z, x)
    ensures x == z & !0xFFF
  {
  }

  lemma EcamOffsetIsInjective(bus: bv8, device: bv8, func: bv8, bus': bv8, device': bv8, func': bv8)
    requires device < 32 && device' < 32 && func < 8 && func' < 8
    ensures EcamOffset(bus, device, func) & 0xFFF == 0 && EcamOffset(bus', device', func') & 0xFFF == 0
    ensures EcamOffset(bus, device, func) == EcamOffset(bus', device', func') <==>
            bus == bus' && device == device' && func == func'
  {
  }

  /** The dword that is read is the aligned one that contains the offset, and lies inside the page. */
  lemma EcamDwordStaysInPage(offset: bv16)
    requires offset <= 4092
    ensures EcamDword(offset) & 3 == 0 && EcamDword(offset) <= offset
    ensures offset - EcamDword(offset) < 4 && EcamDword(offset) as bv64 + 4 <= ECAM_PAGE_SIZE
  {
  }

  // ---------- Segment descriptors ----------

  type Memory = bv64 -> bv8

  function Descriptor(gdtBase: bv64, selector: bv16): bv64 {
    Plus(gdtBase, (selector & 0xFFF8) as bv64)
  }

  function AccessRights(mem: Memory, gdtBase: bv64, selector: bv16): bv32 {
    if selector == 0 then 0x1_0000
    else
      var d := Descriptor(gdtBase, selector);
      mem(d + 5) as bv32 | ((mem(d + 6) as bv32 & 0xF0) << 8)
  }

  function Dword(mem: Memory, a: bv64): bv32 {
    mem(a) as bv32 | (mem(a + 1) as bv32 << 8) | (mem(a + 2) as bv32 << 16) | (mem(a + 3) as bv32 << 24)
  }

  function SegmentBase(mem: Memory, gdtBase: bv64, selector: bv16, isTr: bool): bv64 {
    if selector == 0 then 0
    else
      var d := Descriptor(gdtBase, selector);
      var base := mem(d + 2) as bv64 | (mem(d + 3) as bv64 << 8) | (mem(d + 4) as bv64 << 16) | (mem(d + 7) as bv64 << 24);
      if isTr then base | (Dword(mem, d + 8) as bv64 << 32) else base
  }

  function Byte(v: bv64): bv8 {
    (v & 0xFF) as bv8
  }

  /** A 16-byte TSS descriptor of a 64-bit base, a 20-bit limit, a type byte and a flags nibble stands at `d`
      (Intel SDM volume 3A, TSS descriptor in 64-bit mode). */
  ghost predicate HoldsTss(mem: Memory, d: bv64, base: bv64, limit: bv64, access: bv8, flags: bv64) {
    && limit < 0x10_0000 && flags < 16
    && mem(d) == Byte(limit) && mem(d + 1) == Byte(limit >> 8)
    && mem(d + 2) == Byte(base) && mem(d + 3) == Byte(base >> 8) && mem(d + 4) == Byte(base >> 16)
    && mem(d + 5) == access && mem(d + 6) == Byte((limit >> 16) | (flags << 4)) && mem(d + 7) == Byte(base >> 24)
    && mem(d + 8) == Byte(base >> 32) && mem(d + 8 + 1) == Byte(base >> 40)
    && mem(d + 8 + 2) == Byte(base >> 48) && mem(d + 8 + 3) == Byte(base >> 56)
  }

  /** A selector is an index into the table and three low bits, which do not count. */
  lemma DescriptorIsIndexed(gdtBase: bv64, index: bv16, low: bv16)
    requires index < 0x2000 && low < 8
    ensures Descriptor(gdtBase, (index << 3) | low) == Plus(gdtBase, index as bv64 << 3)
  {
    hide Plus;
    IndexOfSelector(index, low);
  }

  lemma IndexOfSelector(index: bv16, low: bv16)
    requires index < 0x2000 && low < 8
    ensures (((index << 3) | low) & 0xFFF8) as bv64 == index as bv64 << 3
  {
  }

  /** An encoded TSS descriptor decodes to its base; an 8-byte reading keeps its low half. The access rights
      are the type byte and the flags, with bits 11:8 clear. */
  lemma TssReadsBack(
    mem: Memory, gdtBase: bv64, index: bv16, low: bv16, base: bv64, limit: bv64, access: bv8, flags: bv64)
    requires index < 0x2000 && low < 8 && (index << 3) | low != 0
    requires HoldsTss(mem, Plus(gdtBase, index as bv64 << 3), base, limit, access, flags)
    ensures var selector := (index << 3) | low;
            && SegmentBase(mem, gdtBase, selector, true) == base
            && SegmentBase(mem, gdtBase, selector, false) == base & 0xFFFF_FFFF
            && AccessRights(mem, gdtBase, selector) == access as bv32 | ((flags & 0xF) as bv32 << 12)
  {
    hide Descriptor, Plus, HoldsTss, SegmentBase, AccessRights;
    DescriptorIsIndexed(gdtBase, index, low);
    DescriptorReadsBack(mem, gdtBase, (index << 3) | low, base, limit, access, flags);
  }

  lemma DescriptorReadsBack(
    mem: Memory, gdtBase: bv64, selector: bv16, base: bv64, limit: bv64, access: bv8, flags: bv64)
    requires selector != 0 && HoldsTss(mem, Descriptor(gdtBase, selector), base, limit, access, flags)
    ensures SegmentBase(mem, gdtBase, selector, true) == base
    ensures SegmentBase(mem, gdtBase, selector, false) == base & 0xFFFF_FFFF
    ensures AccessRights(mem, gdtBase, selector) == access as bv32 | ((flags & 0xF) as bv32 << 12)
  {
  }

  /** Bits 11:8 are always clear, and "unusable" is reported exactly for a selector word of zero. */
  lemma AccessRightsReservedBits(mem: Memory, gdtBase: bv64, selector: bv16)
    ensures AccessRights(mem, gdtBase, selector) & 0xF00 == 0
    ensures AccessRights(mem, gdtBase, selector) & 0x1_0000 != 0 <==> selector == 0
  {
  }

  // ---------- VMX capability adjustment ----------

  /** The bits that a capability MSR says must be one, and those it says may be one. */
  function MustBeOne(capability: bv64): bv32 {
    (capability & 0xFFFF_FFFF) as bv32
  }

  function MayBeOne(capability: bv64): bv32 {
    (capability >> 32) as bv32
  }

  function AdjustControl(capability: bv64, desired: bv32): bv32 {
    (desired | MustBeOne(capability)) & MayBeOne(capability)
  }

  /** A capability register: what must be one in its low half, what may be one in its high half. */
  function Capability(required: bv32, allowed: bv32): bv64 {
    required as bv64 | (allowed as bv64 << 32)
  }

  lemma CapabilityReadsBack(required: bv32, allowed: bv32)
    ensures MustBeOne(Capability(required, allowed)) == required && MayBeOne(Capability(required, allowed)) == allowed
  {
  }

  /** No bit of the result is outside what may be one, and the bits that are free keep their desired value. */
  lemma AdjustControlStaysAllowed(required: bv32, allowed: bv32, desired: bv32)
    ensures var r := AdjustControl(Capability(required, allowed), desired);
            r & !allowed == 0 && r & (allowed & !required) == desired & (allowed & !required)
  {
    CapabilityReadsBack(required, allowed);
    hide MustBeOne, MayBeOne, Capability;
    AllowedBits(desired, required, allowed);
    FreeBits(desired, required, allowed);
  }

  /** Every bit that must be one is one, exactly when each of them also may be one. */
  lemma AdjustControlMeetsRequired(required: bv32, allowed: bv32, desired: bv32)
    ensures AdjustControl(Capability(required, allowed), desired) & required == required <==>
            required & allowed == required
  {
    CapabilityReadsBack(required, allowed);
    hide MustBeOne, MayBeOne, Capability;
    RequiredBits(desired, required, allowed);
  }

  /** A capability that demands bit 0 and does not allow it: the result lacks the bit. */
  lemma RequiredBitIsLost()
    ensures AdjustControl(Capability(1, 0), 0) & 1 == 0
  {
  }

  lemma AllowedBits(d: bv32, m: bv32, a: bv32)
    ensures ((d | m) & a) & !a == 0
  {
  }

  lemma FreeBits(d: bv32, m: bv32, a: bv32)
    ensures ((d | m) & a) & (a & !m) == d & (a & !m)
  {
  }

  lemma RequiredBits(d: bv32, m: bv32, a: bv32)
    ensures ((d | m) & a) & m == m & a
  {
  }
}
