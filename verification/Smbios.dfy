/** The SMBIOS collector: what each section of the result holds after any table has been walked. */
module Smbios {
  import opened Wrappers
  import opened Bytes
  import opened SmbiosTable
  import opened Uuid

  const STR_MAX := 64
  const MAX_MEMORY_DEVICES := 64

  /** The value of a `char name[64]` field: the bytes before its terminator. */
  type Text = seq<Byte>

  datatype BiosInfo = BiosInfo(available: bool, vendor: Text, version: Text, releaseDate: Text)

  datatype SystemInfo = SystemInfo(
    available: bool, manufacturer: Text, product: Text, version: Text, serial: Text, uuid: Option<seq<Byte>>)

  datatype BaseboardInfo = BaseboardInfo(
    available: bool, manufacturer: Text, product: Text, version: Text, serial: Text)

  datatype ChassisInfo = ChassisInfo(available: bool, chassisType: Byte, manufacturer: Text, serial: Text)

  datatype MemoryDevice = MemoryDevice(
    populated: bool, sizeMb: nat, speedMts: nat, configuredSpeedMts: nat, memoryType: Byte,
    manufacturer: Text, partNumber: Text, serial: Text, locator: Text)

  const NO_BIOS := BiosInfo(false, [], [], [])
  const NO_SYSTEM := SystemInfo(false, [], [], [], [], None)
  const NO_BASEBOARD := BaseboardInfo(false, [], [], [], [])
  const NO_CHASSIS := ChassisInfo(false, 0, [], [])
  const NO_DEVICE := MemoryDevice(false, 0, 0, 0, 0, [], [], [], [])

  // ---------- String fields ----------

  /** What a field of `size` bytes holds for string `index`: the string cut to fit, or nothing. */
  ghost function FieldText(t: seq<Byte>, cur: nat, hlen: nat, index: Byte, size: nat): Text
    requires cur + hlen <= |t| && 0 < size
  {
    match Lookup(t, cur, hlen, index)
    case None => []
    case Some(s) => Take(CString(t, s), size - 1)
  }

  method CopyStringField(t: seq<Byte>, cur: nat, hlen: nat, index: Byte, out: array<Byte>)
    requires cur + hlen <= |t| && 0 < out.Length
    modifies out
    ensures var s := FieldText(t, cur, hlen, index, out.Length);
            && |s| < out.Length && out[..|s|] == s && out[|s|] == 0
            && forall i :: |s| < i < out.Length ==> out[i] == old(out[i])
  {
    out[0] := 0;
    var s := GetString(t, cur, hlen, index);
    if s.None? {
      return;
    }
    var slen := NulFrom(t, s.value) - s.value;
    if slen >= out.Length {
      slen := out.Length - 1;
    }
    forall i | 0 <= i < slen {
      out[i] := t[s.value + i];
    }
    out[slen] := 0;
    assert out[..slen] == CString(t, s.value)[..slen];
  }

  /** The field at `off` of the structure at `cur`, which must lie inside the formatted area, as a string
      index copied into a 64-byte field. */
  method ReadField(t: seq<Byte>, cur: nat, off: nat) returns (text: Text)
    requires HeaderFits(t, cur) && off < t[cur + 1]
    ensures text == FieldText(t, cur, t[cur + 1], t[cur + off], STR_MAX)
  {
    var buf := new Byte[STR_MAX](_ => 0);
    CopyStringField(t, cur, t[cur + 1], t[cur + off], buf);
    text := CString(buf[..], 0);
    ghost var s := FieldText(t, cur, t[cur + 1], t[cur + off], STR_MAX);
    FieldTextHasNoNul(t, cur, t[cur + 1], t[cur + off], STR_MAX);
    assert buf[..][0..|s|] == s;
    CStringIs(buf[..], 0, s);
  }

  lemma FieldTextHasNoNul(t: seq<Byte>, cur: nat, hlen: nat, index: Byte, size: nat)
    requires cur + hlen <= |t| && 0 < size
    ensures 0 !in FieldText(t, cur, hlen, index, size)
  {
    if Lookup(t, cur, hlen, index).Some? {
      CStringHasNoNul(t, Lookup(t, cur, hlen, index).value);
    }
  }

  // ---------- What the visited structures say ----------

  ghost predicate Carries(t: seq<Byte>, cur: nat, kind: Byte, off: nat) {
    HeaderFits(t, cur) && t[cur] == kind && off < t[cur + 1]
  }

  /** A text field holds what the last structure of its type that is long enough to carry it says. */
  ghost function LatestText(t: seq<Byte>, offs: seq<nat>, kind: Byte, off: nat): Text {
    if offs == [] then []
    else
      var last := offs[|offs| - 1];
      if Carries(t, last, kind, off) then FieldText(t, last, t[last + 1], t[last + off], STR_MAX)
      else LatestText(t, offs[..|offs| - 1], kind, off)
  }

  ghost function LatestByte(t: seq<Byte>, offs: seq<nat>, kind: Byte, off: nat): Byte {
    if offs == [] then 0
    else
      var last := offs[|offs| - 1];
      if Carries(t, last, kind, off) then t[last + off] else LatestByte(t, offs[..|offs| - 1], kind, off)
  }

  ghost predicate Seen(t: seq<Byte>, offs: seq<nat>, kind: Byte) {
    exists i :: 0 <= i < |offs| && Carries(t, offs[i], kind, 0)
  }

  lemma LatestAfter(t: seq<Byte>, offs: seq<nat>, cur: nat, kind: Byte, off: nat)
    ensures LatestText(t, offs + [cur], kind, off) ==
            if Carries(t, cur, kind, off) then FieldText(t, cur, t[cur + 1], t[cur + off], STR_MAX)
            else LatestText(t, offs, kind, off)
    ensures LatestByte(t, offs + [cur], kind, off) ==
            if Carries(t, cur, kind, off) then t[cur + off] else LatestByte(t, offs, kind, off)
  {
    hide FieldText, Carries;
    assert (offs + [cur])[..|offs|] == offs;
  }

  lemma SeenAfter(t: seq<Byte>, offs: seq<nat>, cur: nat, kind: Byte)
    ensures Seen(t, offs + [cur], kind) <==> Seen(t, offs, kind) || Carries(t, cur, kind, 0)
  {
    var all := offs + [cur];
    assert forall i :: 0 <= i < |offs| ==> all[i] == offs[i];
    assert all[|offs|] == cur;
  }

  ghost function BiosOf(t: seq<Byte>, offs: seq<nat>): BiosInfo {
    BiosInfo(Seen(t, offs, 0),
             LatestText(t, offs, 0, 0x04), LatestText(t, offs, 0, 0x05), LatestText(t, offs, 0, 0x08))
  }

  ghost function SystemOf(t: seq<Byte>, offs: seq<nat>, littleEndian: bool): SystemInfo {
    SystemInfo(Seen(t, offs, 1),
               LatestText(t, offs, 1, 0x04), LatestText(t, offs, 1, 0x05),
               LatestText(t, offs, 1, 0x06), LatestText(t, offs, 1, 0x07), LatestUuid(t, offs, littleEndian))
  }

  ghost function BaseboardOf(t: seq<Byte>, offs: seq<nat>): BaseboardInfo {
    BaseboardInfo(Seen(t, offs, 2),
                  LatestText(t, offs, 2, 0x04), LatestText(t, offs, 2, 0x05),
                  LatestText(t, offs, 2, 0x06), LatestText(t, offs, 2, 0x07))
  }

  ghost function ChassisOf(t: seq<Byte>, offs: seq<nat>): ChassisInfo {
    ChassisInfo(Seen(t, offs, 3), LatestByte(t, offs, 3, 0x05) % 0x80,
                LatestText(t, offs, 3, 0x04), LatestText(t, offs, 3, 0x07))
  }

  // ---------- UUID ----------

  ghost function LatestUuid(t: seq<Byte>, offs: seq<nat>, littleEndian: bool): Option<seq<Byte>> {
    if offs == [] then None
    else
      var last := offs[|offs| - 1];
      if Carries(t, last, 1, 0x17) then Some(UuidText(t[last + 0x08..last + 0x18], littleEndian))
      else LatestUuid(t, offs[..|offs| - 1], littleEndian)
  }

  lemma LatestUuidAfter(t: seq<Byte>, offs: seq<nat>, cur: nat, le: bool)
    ensures LatestUuid(t, offs + [cur], le) ==
            if Carries(t, cur, 1, 0x17) then Some(UuidText(t[cur + 0x08..cur + 0x18], le)) else LatestUuid(t, offs, le)
  {
    hide UuidText;
    assert (offs + [cur])[..|offs|] == offs;
  }

  // ---------- Memory devices ----------

  /** Capacity in MB from the size word and, when present, the extended size: (populated, size). */
  function DeviceSize(word: nat, ext: Option<nat>): (bool, nat)
    requires word < 0x1_0000
  {
    if word == 0 then (false, 0)
    else if word == 0xFFFF then (true, 0)
    else if word == 0x7FFF && ext.Some? then (true, ext.value % 0x8000_0000)
    else if word >= 0x8000 then (true, (word - 0x8000) / 1024)
    else (true, word)
  }

  ghost function DeviceText(t: seq<Byte>, cur: nat, off: nat): Text
    requires HeaderFits(t, cur)
  {
    if off < t[cur + 1] then FieldText(t, cur, t[cur + 1], t[cur + off], STR_MAX) else []
  }

  /** The device a Type 17 structure describes; a field past the formatted area is zero. */
  ghost function Device(t: seq<Byte>, cur: nat): MemoryDevice
    requires HeaderFits(t, cur)
  {
    var hlen := t[cur + 1];
    var size := DeviceSize(if hlen > 0x0D then Le16(t, cur + 0x0C) else 0,
                           if hlen >= 0x20 then Some(Le32(t, cur + 0x1C)) else None);
    MemoryDevice(
      size.0, size.1,
      if hlen >= 0x17 then Le16(t, cur + 0x15) else 0,
      if hlen >= 0x26 then Le16(t, cur + 0x24) else 0,
      if hlen > 0x12 then t[cur + 0x12] else 0,
      DeviceText(t, cur, 0x17), DeviceText(t, cur, 0x1A), DeviceText(t, cur, 0x18), DeviceText(t, cur, 0x10))
  }

  ghost function DevicesOf(t: seq<Byte>, offs: seq<nat>): seq<MemoryDevice> {
    if offs == [] then []
    else
      var last := offs[|offs| - 1];
      var before := DevicesOf(t, offs[..|offs| - 1]);
      if Carries(t, last, 17, 0) then before + [Device(t, last)] else before
  }

  lemma DevicesAfter(t: seq<Byte>, offs: seq<nat>, cur: nat)
    ensures DevicesOf(t, offs + [cur]) ==
            if Carries(t, cur, 17, 0) then DevicesOf(t, offs) + [Device(t, cur)] else DevicesOf(t, offs)
  {
    assert (offs + [cur])[..|offs|] == offs;
  }

  /** A capacity as section 7.18 lets firmware write it: the size word, and what the extended field must say. */
  datatype Capacity = NotInstalled | Unknown | Megabytes(mb: nat) | Kilobytes(kb: nat) | Extended(mb: nat)
  {
    ghost predicate Valid() {
      match this
      case Megabytes(mb) => 0 < mb < 0x7FFF
      case Kilobytes(kb) => kb < 0x7FFF
      case Extended(mb) => mb < 0x8000_0000
      case _ => true
    }

    ghost function Word(): nat {
      match this
      case NotInstalled => 0
      case Unknown => 0xFFFF
      case Megabytes(mb) => mb
      case Kilobytes(kb) => 0x8000 + kb
      case Extended(_) => 0x7FFF
    }

    /** Only an extended capacity says anything about the field, and nothing about its top bit. */
    ghost predicate Fits(ext: Option<nat>) {
      Extended? ==> ext == Some(mb) || ext == Some(0x8000_0000 + mb)
    }

    ghost function InMb(): nat {
      match this
      case NotInstalled => 0
      case Unknown => 0
      case Megabytes(mb) => mb
      case Kilobytes(kb) => kb / 1024
      case Extended(mb) => mb
    }
  }

  /** Every capacity reads back, in megabytes; and every size word is that of a capacity. */
  lemma CapacityReadsBack(c: Capacity, ext: Option<nat>)
    requires c.Valid() && c.Fits(ext)
    ensures c.Word() < 0x1_0000 && DeviceSize(c.Word(), ext) == (!c.NotInstalled?, c.InMb())
  {
  }

  lemma EveryWordIsACapacity(word: nat)
    requires word < 0x1_0000
    ensures exists c: Capacity :: c.Valid() && c.Word() == word
  {
    var c := if word == 0 then NotInstalled else if word == 0xFFFF then Unknown
             else if word < 0x7FFF then Megabytes(word) else if word == 0x7FFF then Extended(0) else Kilobytes(word - 0x8000);
    assert c.Valid() && c.Word() == word;
  }

  /** A saturated word without the extended field is taken at its face value. */
  lemma SaturatedWordStands()
    ensures DeviceSize(0x7FFF, None) == (true, 0x7FFF)
  {
  }

  method ReadMemoryDevice(t: seq<Byte>, cur: nat) returns (m: MemoryDevice)
    requires IsStructure(t, cur)
    ensures m == Device(t, cur)
  {
    hide FieldText, LeValue, CString;
    var hlen := t[cur + 1];
    m := NO_DEVICE;
    var sizeWord := 0;
    if hlen > 0x0D { sizeWord := Le16(t, cur + 0x0C); }
    if sizeWord == 0 {
      m := m.(populated := false);
    } else if sizeWord == 0xFFFF {
      m := m.(populated := true, sizeMb := 0);
    } else {
      var isKb := sizeWord >= 0x8000;
      var rawSize := sizeWord % 0x8000;
      m := m.(populated := true, sizeMb := if isKb then rawSize / 1024 else rawSize);
      if rawSize == 0x7FFF && hlen >= 0x20 {
        m := m.(sizeMb := Le32(t, cur + 0x1C) % 0x8000_0000);
      }
    }
    assert (m.populated, m.sizeMb) == DeviceSize(sizeWord, if hlen >= 0x20 then Some(Le32(t, cur + 0x1C)) else None);
    hide DeviceSize, Le16, Le32;
    if hlen > 0x12 { m := m.(memoryType := t[cur + 0x12]); }
    if hlen >= 0x17 { m := m.(speedMts := Le16(t, cur + 0x15)); }
    if hlen >= 0x26 { m := m.(configuredSpeedMts := Le16(t, cur + 0x24)); }
    if hlen > 0x10 { var s := ReadField(t, cur, 0x10); m := m.(locator := s); }
    if hlen >= 0x18 { var s := ReadField(t, cur, 0x17); m := m.(manufacturer := s); }
    if hlen >= 0x19 { var s := ReadField(t, cur, 0x18); m := m.(serial := s); }
    if hlen >= 0x1B { var s := ReadField(t, cur, 0x1A); m := m.(partNumber := s); }
  }

  // ---------- The collector ----------

  class SmbiosData {
    var available: bool
    var majorVersion: Byte
    var minorVersion: Byte
    var bios: BiosInfo
    var system: SystemInfo
    var baseboard: BaseboardInfo
    var chassis: ChassisInfo
    const memoryDevices: array<MemoryDevice>
    var memoryDeviceCount: nat
    var structuresParsed: nat
    var structuresMalformedSkipped: nat

    ghost predicate Valid()
      reads `memoryDeviceCount
    {
      memoryDevices.Length == MAX_MEMORY_DEVICES && memoryDeviceCount <= MAX_MEMORY_DEVICES
    }

    /** SMBIOS 2.6 and later store the first three UUID fields little-endian. */
    predicate LittleEndianUuid()
      reads `majorVersion, `minorVersion
    {
      majorVersion > 2 || (majorVersion == 2 && minorVersion >= 6)
    }

    ghost function Devices(): seq<MemoryDevice>
      reads `memoryDeviceCount, memoryDevices
      requires Valid()
    {
      memoryDevices[..memoryDeviceCount]
    }

    ghost predicate Sections(t: seq<Byte>, offs: seq<nat>)
      reads `bios, `system, `baseboard, `chassis, `majorVersion, `minorVersion, `memoryDeviceCount, memoryDevices
    {
      && Valid()
      && bios == BiosOf(t, offs)
      && system == SystemOf(t, offs, LittleEndianUuid())
      && baseboard == BaseboardOf(t, offs)
      && chassis == ChassisOf(t, offs)
      && Devices() == Take(DevicesOf(t, offs), MAX_MEMORY_DEVICES)
    }

    /** The sections and the counters after the walk `w`. */
    ghost predicate Says(t: seq<Byte>, w: Visit)
      reads `bios, `system, `baseboard, `chassis, `majorVersion, `minorVersion, `memoryDeviceCount, memoryDevices
      reads `structuresParsed, `structuresMalformedSkipped
    {
      && Sections(t, w.visited)
      && structuresParsed == |w.visited|
      && structuresMalformedSkipped == (if w.stop.BadHeader? || w.stop.Unterminated? then 1 else 0)
    }

    constructor ()
      ensures Valid() && fresh(memoryDevices)
    {
      memoryDevices := new MemoryDevice[MAX_MEMORY_DEVICES](_ => NO_DEVICE);
      memoryDeviceCount := 0;
      bios, system, baseboard, chassis := NO_BIOS, NO_SYSTEM, NO_BASEBOARD, NO_CHASSIS;
      available, majorVersion, minorVersion, structuresParsed, structuresMalformedSkipped := false, 0, 0, 0, 0;
    }

    method Clear()
      requires Valid()
      modifies this, memoryDevices
      ensures Sections([], [])
      ensures !available && structuresParsed == structuresMalformedSkipped == 0
      ensures majorVersion == minorVersion == 0
    {
      available, majorVersion, minorVersion := false, 0, 0;
      bios, system, baseboard, chassis := NO_BIOS, NO_SYSTEM, NO_BASEBOARD, NO_CHASSIS;
      forall i | 0 <= i < memoryDevices.Length {
        memoryDevices[i] := NO_DEVICE;
      }
      memoryDeviceCount, structuresParsed, structuresMalformedSkipped := 0, 0, 0;
    }

    method ParseBios(t: seq<Byte>, cur: nat, ghost offs: seq<nat>)
      requires IsStructure(t, cur) && t[cur] == 0 && bios == BiosOf(t, offs)
      modifies `bios
      ensures bios == BiosOf(t, offs + [cur])
    {
      hide LatestText, LatestByte, LatestUuid, Seen, FieldText;
      var hlen := t[cur + 1];
      bios := bios.(available := true);
      if hlen > 0x04 { var s := ReadField(t, cur, 0x04); bios := bios.(vendor := s); }
      if hlen > 0x05 { var s := ReadField(t, cur, 0x05); bios := bios.(version := s); }
      if hlen > 0x08 { var s := ReadField(t, cur, 0x08); bios := bios.(releaseDate := s); }
      SeenAfter(t, offs, cur, 0);
      LatestAfter(t, offs, cur, 0, 0x04);
      LatestAfter(t, offs, cur, 0, 0x05);
      LatestAfter(t, offs, cur, 0, 0x08);
    }

    method ParseSystem(t: seq<Byte>, cur: nat, ghost offs: seq<nat>)
      requires IsStructure(t, cur) && t[cur] == 1 && system == SystemOf(t, offs, LittleEndianUuid())
      modifies `system
      ensures system == SystemOf(t, offs + [cur], LittleEndianUuid())
    {
      hide LatestText, LatestByte, LatestUuid, Seen, FieldText, UuidText;
      var hlen := t[cur + 1];
      system := system.(available := true);
      if hlen > 0x04 { var s := ReadField(t, cur, 0x04); system := system.(manufacturer := s); }
      if hlen > 0x05 { var s := ReadField(t, cur, 0x05); system := system.(product := s); }
      if hlen > 0x06 { var s := ReadField(t, cur, 0x06); system := system.(version := s); }
      if hlen > 0x07 { var s := ReadField(t, cur, 0x07); system := system.(serial := s); }
      if hlen >= 0x18 {
        system := system.(uuid := Some(UuidText(t[cur + 0x08..cur + 0x18], LittleEndianUuid())));
      }
      SeenAfter(t, offs, cur, 1);
      LatestAfter(t, offs, cur, 1, 0x04);
      LatestAfter(t, offs, cur, 1, 0x05);
      LatestAfter(t, offs, cur, 1, 0x06);
      LatestAfter(t, offs, cur, 1, 0x07);
      LatestUuidAfter(t, offs, cur, LittleEndianUuid());
    }

    method ParseBaseboard(t: seq<Byte>, cur: nat, ghost offs: seq<nat>)
      requires IsStructure(t, cur) && t[cur] == 2 && baseboard == BaseboardOf(t, offs)
      modifies `baseboard
      ensures baseboard == BaseboardOf(t, offs + [cur])
    {
      hide LatestText, LatestByte, LatestUuid, Seen, FieldText;
      var hlen := t[cur + 1];
      baseboard := baseboard.(available := true);
      if hlen > 0x04 { var s := ReadField(t, cur, 0x04); baseboard := baseboard.(manufacturer := s); }
      if hlen > 0x05 { var s := ReadField(t, cur, 0x05); baseboard := baseboard.(product := s); }
      if hlen > 0x06 { var s := ReadField(t, cur, 0x06); baseboard := baseboard.(version := s); }
      if hlen > 0x07 { var s := ReadField(t, cur, 0x07); baseboard := baseboard.(serial := s); }
      SeenAfter(t, offs, cur, 2);
      LatestAfter(t, offs, cur, 2, 0x04);
      LatestAfter(t, offs, cur, 2, 0x05);
      LatestAfter(t, offs, cur, 2, 0x06);
      LatestAfter(t, offs, cur, 2, 0x07);
    }

    method ParseChassis(t: seq<Byte>, cur: nat, ghost offs: seq<nat>)
      requires IsStructure(t, cur) && t[cur] == 3 && chassis == ChassisOf(t, offs)
      modifies `chassis
      ensures chassis == ChassisOf(t, offs + [cur])
    {
      hide LatestText, LatestByte, LatestUuid, Seen, FieldText;
      var hlen := t[cur + 1];
      chassis := chassis.(available := true);
      if hlen > 0x04 { var s := ReadField(t, cur, 0x04); chassis := chassis.(manufacturer := s); }
      if hlen > 0x05 { chassis := chassis.(chassisType := t[cur + 0x05] % 0x80); }
      if hlen > 0x07 { var s := ReadField(t, cur, 0x07); chassis := chassis.(serial := s); }
      SeenAfter(t, offs, cur, 3);
      LatestAfter(t, offs, cur, 3, 0x04);
      LatestAfter(t, offs, cur, 3, 0x05);
      LatestAfter(t, offs, cur, 3, 0x07);
    }

    method ParseMemoryDevice(t: seq<Byte>, cur: nat)
      requires Valid() && IsStructure(t, cur)
      modifies `memoryDeviceCount, memoryDevices
      ensures Valid()
      ensures Devices() == Take(old(Devices()) + [Device(t, cur)], MAX_MEMORY_DEVICES)
    {
      if memoryDeviceCount >= MAX_MEMORY_DEVICES {
        return;
      }
      var m := ReadMemoryDevice(t, cur);
      hide Device;
      memoryDevices[memoryDeviceCount] := m;
      memoryDeviceCount := memoryDeviceCount + 1;
    }

    /** One visited structure: every section moves from `offs` to `offs + [cur]`. */
    method ParseStructure(t: seq<Byte>, cur: nat, ghost offs: seq<nat>)
      requires IsStructure(t, cur) && Sections(t, offs)
      modifies `bios, `system, `baseboard, `chassis, `memoryDeviceCount, memoryDevices
      ensures Sections(t, offs + [cur])
    {
      hide LatestText, LatestByte, LatestUuid, DevicesOf, Seen, Device, Take;
      SectionsAfter(t, offs, cur);
      match t[cur]
      case 0 => ParseBios(t, cur, offs);
      case 1 => ParseSystem(t, cur, offs);
      case 2 => ParseBaseboard(t, cur, offs);
      case 3 => ParseChassis(t, cur, offs);
      case 17 => ParseMemoryDevice(t, cur);
      case _ =>
    }

    /** The result over any firmware answer. Each section says what the visited structures say; the
        counters are the length of the walk and whether it ended on a malformed structure. */
    method Collect(table: Option<seq<Byte>>) returns (ok: bool)
      requires Valid()
      modifies this, memoryDevices
      ensures Valid()
      ensures ok <==> table.Some? && RAW_HEADER_SIZE <= |table.value|
      ensures !ok ==> Sections([], []) && !available && structuresParsed == structuresMalformedSkipped == 0
      ensures !ok ==> majorVersion == minorVersion == 0
      ensures ok ==>
                var raw := table.value;
                var t := TableBytes(raw);
                var w := Walk(t, RAW_HEADER_SIZE);
                && majorVersion == raw[1] && minorVersion == raw[2]
                && Sections(t, w.visited)
                && structuresParsed == |w.visited|
                && structuresMalformedSkipped == (if w.stop.BadHeader? || w.stop.Unterminated? then 1 else 0)
                && (available <==> w.visited != [])
    {
      Clear();
      if table.None? {
        return false;
      }
      var raw := table.value;
      if |raw| < RAW_HEADER_SIZE {
        return false;
      }
      majorVersion, minorVersion := raw[1], raw[2];
      var t := Table(raw);
      NothingVisited(t, LittleEndianUuid());
      CollectStructures(t);
      available := structuresParsed > 0;
      ok := true;
    }

    method CollectStructures(t: seq<Byte>)
      requires RAW_HEADER_SIZE <= |t| && Sections(t, []) && structuresParsed == structuresMalformedSkipped == 0
      modifies `bios, `system, `baseboard, `chassis, `memoryDeviceCount, memoryDevices
      modifies `structuresParsed, `structuresMalformedSkipped
      ensures Says(t, Walk(t, RAW_HEADER_SIZE))
    {
      hide BiosOf, SystemOf, BaseboardOf, ChassisOf, DevicesOf, Take, Sections, Next, Walk, Remaining;
      var cur := RAW_HEADER_SIZE;
      ghost var offs: seq<nat> := [];
      ghost var w := Walk(t, cur);
      RemainingStart(t, cur);
      while cur + 4 <= |t|
        invariant cur <= |t| && Sections(t, offs)
        invariant Remaining(t, cur, offs, w)
        invariant structuresParsed == |offs| && structuresMalformedSkipped == 0
        decreases |t| - cur
      {
        var kind, hlen := t[cur], t[cur + 1];
        if hlen < 4 || cur + hlen > |t| {
          RemainingEnd(t, cur, offs, w);
          structuresMalformedSkipped := structuresMalformedSkipped + 1;
          break;
        }
        if kind == END_OF_TABLE {
          RemainingEnd(t, cur, offs, w);
          break;
        }
        ParseStructure(t, cur, offs);
        structuresParsed := structuresParsed + 1;
        var next := NextStructure(t, cur, hlen);
        RemainingStep(t, cur, offs, w);
        offs := offs + [cur];
        if next.None? || next.value <= cur {
          structuresMalformedSkipped := structuresMalformedSkipped + 1;
          break;
        }
        cur := next.value;
      }
      if cur + 4 > |t| {
        RemainingEnd(t, cur, offs, w);
      }
    }
  }

  lemma NothingVisited(t: seq<Byte>, le: bool)
    ensures BiosOf(t, []) == BiosOf([], []) && SystemOf(t, [], le) == SystemOf([], [], le)
    ensures BaseboardOf(t, []) == BaseboardOf([], []) && ChassisOf(t, []) == ChassisOf([], [])
    ensures DevicesOf(t, []) == DevicesOf([], []) && SystemOf(t, [], le) == SystemOf([], [], false)
  {
  }

  /** A structure of another type leaves a section as it was. */
  lemma SectionsAfter(t: seq<Byte>, offs: seq<nat>, cur: nat)
    requires IsStructure(t, cur)
    ensures t[cur] != 0 ==> BiosOf(t, offs + [cur]) == BiosOf(t, offs)
    ensures t[cur] != 1 ==> forall le :: SystemOf(t, offs + [cur], le) == SystemOf(t, offs, le)
    ensures t[cur] != 2 ==> BaseboardOf(t, offs + [cur]) == BaseboardOf(t, offs)
    ensures t[cur] != 3 ==> ChassisOf(t, offs + [cur]) == ChassisOf(t, offs)
    ensures t[cur] == 17 ==> DevicesOf(t, offs + [cur]) == DevicesOf(t, offs) + [Device(t, cur)]
    ensures t[cur] != 17 ==> DevicesOf(t, offs + [cur]) == DevicesOf(t, offs)
    ensures Take(Take(DevicesOf(t, offs), MAX_MEMORY_DEVICES) + [Device(t, cur)], MAX_MEMORY_DEVICES) ==
            Take(DevicesOf(t, offs) + [Device(t, cur)], MAX_MEMORY_DEVICES)
  {
    hide LatestText, LatestByte, LatestUuid, DevicesOf, Seen, Device, FieldText;
    forall kind: Byte, off: nat
      ensures !Carries(t, cur, kind, off) ==>
                && LatestText(t, offs + [cur], kind, off) == LatestText(t, offs, kind, off)
                && LatestByte(t, offs + [cur], kind, off) == LatestByte(t, offs, kind, off)
    {
      LatestAfter(t, offs, cur, kind, off);
    }
    forall kind: Byte
      ensures Seen(t, offs + [cur], kind) <==> Seen(t, offs, kind) || Carries(t, cur, kind, 0)
    {
      SeenAfter(t, offs, cur, kind);
    }
    forall le: bool
      ensures !Carries(t, cur, 1, 0x17) ==> LatestUuid(t, offs + [cur], le) == LatestUuid(t, offs, le)
    {
      LatestUuidAfter(t, offs, cur, le);
    }
    DevicesAfter(t, offs, cur);
  }
}
