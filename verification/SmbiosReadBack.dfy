/**
 End to end: what the two collectors leave when the firmware's answer is an encoded list of structures. Each
 `Meant` function says it from the structures alone.
 */
module SmbiosReadBack {
  import opened Wrappers
  import opened Bytes
  import opened SmbiosTable
  import opened SmbiosEncoding
  import opened Smbios
  import opened Uuid
  import opened MemoryInfo

  /** The text that the string index at formatted offset `off` of `s` names, as a 64-byte field keeps it. */
  ghost function TextIn(s: Structure, off: nat): Text
    requires s.Valid() && 2 <= off < s.FormattedLen()
  {
    var index := s.body[off - 2];
    if 1 <= index <= |s.strings| then Take(s.strings[index - 1], 63) else []
  }

  /** The text of the last structure of the kind that is long enough to carry the field. */
  ghost function MeantText(ss: seq<Structure>, kind: Byte, off: nat): Text
    requires AllValid(ss) && 2 <= off
  {
    if ss == [] then []
    else
      var last := ss[|ss| - 1];
      if last.kind == kind && off < last.FormattedLen() then TextIn(last, off)
      else MeantText(ss[..|ss| - 1], kind, off)
  }

  ghost predicate StandAt(t: seq<Byte>, offs: seq<nat>, ss: seq<Structure>)
    requires AllValid(ss)
  {
    |offs| == |ss| && forall i :: 0 <= i < |ss| ==> At(t, offs[i], Encode(ss[i]))
  }

  lemma OneTextReadsBack(t: seq<Byte>, cur: nat, s: Structure, kind: Byte, off: nat)
    requires s.Valid() && At(t, cur, Encode(s)) && 2 <= off
    ensures Carries(t, cur, kind, off) <==> s.kind == kind && off < s.FormattedLen()
    ensures Carries(t, cur, kind, off) ==> FieldText(t, cur, t[cur + 1], t[cur + off], STR_MAX) == TextIn(s, off)
  {
    hide At, Encode, Next, Lookup, EncodeSet;
    StructureReadsBack(t, cur, s);
    if off < s.FormattedLen() {
      AtByte(t, cur + 2, s.body, off - 2);
      LookupReadsBack(t, cur, s, t[cur + off]);
    }
  }

  lemma {:induction false} TextsReadBack(t: seq<Byte>, offs: seq<nat>, ss: seq<Structure>, kind: Byte, off: nat)
    requires AllValid(ss) && StandAt(t, offs, ss) && 2 <= off
    ensures LatestText(t, offs, kind, off) == MeantText(ss, kind, off)
    decreases |ss|
  {
    hide At, Encode, Carries, FieldText, TextIn;
    if ss != [] {
      var n := |ss| - 1;
      OneTextReadsBack(t, offs[n], ss[n], kind, off);
      TextsReadBack(t, offs[..n], ss[..n], kind, off);
    }
  }

  // ---------- The other fields ----------

  ghost function MeantByte(ss: seq<Structure>, kind: Byte, off: nat): Byte
    requires AllValid(ss) && 2 <= off
  {
    if ss == [] then 0
    else
      var last := ss[|ss| - 1];
      if last.kind == kind && off < last.FormattedLen() then last.body[off - 2]
      else MeantByte(ss[..|ss| - 1], kind, off)
  }

  ghost function MeantUuid(ss: seq<Structure>, littleEndian: bool): Option<seq<Byte>>
    requires AllValid(ss)
  {
    if ss == [] then None
    else
      var last := ss[|ss| - 1];
      if last.kind == 1 && 0x17 < last.FormattedLen() then Some(UuidText(last.body[0x06..0x16], littleEndian))
      else MeantUuid(ss[..|ss| - 1], littleEndian)
  }

  ghost predicate Present(ss: seq<Structure>, kind: Byte) {
    exists i :: 0 <= i < |ss| && ss[i].kind == kind
  }

  ghost function MeantBios(ss: seq<Structure>): BiosInfo
    requires AllValid(ss)
  {
    BiosInfo(Present(ss, 0), MeantText(ss, 0, 0x04), MeantText(ss, 0, 0x05), MeantText(ss, 0, 0x08))
  }

  ghost function MeantSystem(ss: seq<Structure>, littleEndian: bool): SystemInfo
    requires AllValid(ss)
  {
    SystemInfo(Present(ss, 1), MeantText(ss, 1, 0x04), MeantText(ss, 1, 0x05),
               MeantText(ss, 1, 0x06), MeantText(ss, 1, 0x07), MeantUuid(ss, littleEndian))
  }

  ghost function MeantBaseboard(ss: seq<Structure>): BaseboardInfo
    requires AllValid(ss)
  {
    BaseboardInfo(Present(ss, 2), MeantText(ss, 2, 0x04), MeantText(ss, 2, 0x05),
                  MeantText(ss, 2, 0x06), MeantText(ss, 2, 0x07))
  }

  ghost function MeantChassis(ss: seq<Structure>): ChassisInfo
    requires AllValid(ss)
  {
    ChassisInfo(Present(ss, 3), MeantByte(ss, 3, 0x05) % 0x80, MeantText(ss, 3, 0x04), MeantText(ss, 3, 0x07))
  }

  /** The little-endian value of `n` bytes at formatted offset `off`. */
  ghost function Value(s: Structure, off: nat, n: nat): nat
    requires 2 <= off && off + n <= s.FormattedLen()
  {
    LeValue(s.body[off - 2..off - 2 + n])
  }

  ghost function TextOrNothing(s: Structure, off: nat): Text
    requires s.Valid() && 2 <= off
  {
    if off < s.FormattedLen() then TextIn(s, off) else []
  }

  ghost function MeantDevice(s: Structure): MemoryDevice
    requires s.Valid()
  {
    var n := s.FormattedLen();
    SizeBounds(s);
    var size := DeviceSize(if n > 0x0D then Value(s, 0x0C, 2) else 0, if n >= 0x20 then Some(Value(s, 0x1C, 4)) else None);
    MemoryDevice(
      size.0, size.1,
      if n >= 0x17 then Value(s, 0x15, 2) else 0,
      if n >= 0x26 then Value(s, 0x24, 2) else 0,
      if n > 0x12 then s.body[0x10] else 0,
      TextOrNothing(s, 0x17), TextOrNothing(s, 0x1A), TextOrNothing(s, 0x18), TextOrNothing(s, 0x10))
  }

  lemma SizeBounds(s: Structure)
    ensures 0x0D < s.FormattedLen() ==> Value(s, 0x0C, 2) < 0x1_0000
  {
    assert Pow256(2) == 0x1_0000;
  }

  ghost function MeantDevices(ss: seq<Structure>): seq<MemoryDevice>
    requires AllValid(ss)
  {
    if ss == [] then []
    else
      var before, last := MeantDevices(ss[..|ss| - 1]), ss[|ss| - 1];
      if last.kind == 17 then before + [MeantDevice(last)] else before
  }

  ghost function MeantRange(s: Structure): Option<Region> {
    var n := s.FormattedLen();
    if s.kind != 19 || n < 0x0F then None
    else
      var handle, startKb, endKb := Value(s, 0x0C, 2), Value(s, 0x04, 4), Value(s, 0x08, 4);
      if startKb != SENTINEL then Span(1024 * startKb, 1024 * endKb + 1023, handle)
      else if n >= 0x1F then Span(Value(s, 0x0F, 8), Value(s, 0x17, 8), handle)
      else None
  }

  ghost function MeantRegions(ss: seq<Structure>): seq<Region> {
    if ss == [] then []
    else
      var before, last := MeantRegions(ss[..|ss| - 1]), MeantRange(ss[|ss| - 1]);
      if last.Some? then before + [last.value] else before
  }

  // ---------- One structure ----------

  lemma HeaderReadsBack(t: seq<Byte>, cur: nat, s: Structure)
    requires s.Valid() && At(t, cur, Encode(s))
    ensures IsStructure(t, cur) && t[cur] == s.kind && t[cur + 1] == s.FormattedLen()
  {
    hide At, Encode, EncodeSet, Next;
    StructureReadsBack(t, cur, s);
  }

  lemma BytesReadBack(t: seq<Byte>, cur: nat, s: Structure, off: nat, n: nat)
    requires s.Valid() && At(t, cur, Encode(s)) && 2 <= off && off + n <= s.FormattedLen()
    ensures cur + off + n <= |t| && t[cur + off..cur + off + n] == s.body[off - 2..off - 2 + n]
  {
    hide At, Encode, EncodeSet, Next;
    StructureReadsBack(t, cur, s);
    AtIsSlice(t, cur + 2, s.body);
    SliceOfSlice(t, cur + 2, cur + 2 + |s.body|, off - 2, off - 2 + n);
  }

  lemma ByteAtReadsBack(t: seq<Byte>, cur: nat, s: Structure, off: nat)
    requires s.Valid() && At(t, cur, Encode(s)) && 2 <= off < s.FormattedLen()
    ensures cur + off < |t| && t[cur + off] == s.body[off - 2]
  {
    hide At, Encode;
    BytesReadBack(t, cur, s, off, 1);
    assert t[cur + off..cur + off + 1][0] == s.body[off - 2..off - 2 + 1][0];
  }

  lemma ValueReadsBack(t: seq<Byte>, cur: nat, s: Structure, off: nat, n: nat)
    requires s.Valid() && At(t, cur, Encode(s)) && 2 <= off && off + n <= s.FormattedLen()
    ensures cur + off + n <= |t| && LeValue(t[cur + off..cur + off + n]) == Value(s, off, n)
  {
    hide At, Encode, LeValue;
    BytesReadBack(t, cur, s, off, n);
  }

  lemma DeviceTextReadsBack(t: seq<Byte>, cur: nat, s: Structure, off: nat)
    requires s.Valid() && s.kind == 17 && At(t, cur, Encode(s)) && 2 <= off
    ensures HeaderFits(t, cur) && DeviceText(t, cur, off) == TextOrNothing(s, off)
  {
    hide At, Encode, FieldText, TextIn;
    HeaderReadsBack(t, cur, s);
    OneTextReadsBack(t, cur, s, 17, off);
  }

  lemma DeviceReadsBack(t: seq<Byte>, cur: nat, s: Structure)
    requires s.Valid() && s.kind == 17 && At(t, cur, Encode(s))
    ensures HeaderFits(t, cur) && Device(t, cur) == MeantDevice(s)
  {
    hide At, Encode, LeValue, DeviceText, TextOrNothing, DeviceSize, Value;
    var n := s.FormattedLen();
    HeaderReadsBack(t, cur, s);
    DeviceTextReadsBack(t, cur, s, 0x10);
    DeviceTextReadsBack(t, cur, s, 0x17);
    DeviceTextReadsBack(t, cur, s, 0x18);
    DeviceTextReadsBack(t, cur, s, 0x1A);
    if n > 0x0D { ValueReadsBack(t, cur, s, 0x0C, 2); }
    if n > 0x12 { ByteAtReadsBack(t, cur, s, 0x12); }
    if n >= 0x17 { ValueReadsBack(t, cur, s, 0x15, 2); }
    if n >= 0x20 { ValueReadsBack(t, cur, s, 0x1C, 4); }
    if n >= 0x26 { ValueReadsBack(t, cur, s, 0x24, 2); }
  }

  lemma RangeReadsBack(t: seq<Byte>, cur: nat, s: Structure)
    requires s.Valid() && At(t, cur, Encode(s))
    ensures HeaderFits(t, cur) && RangeOf(t, cur) == MeantRange(s)
  {
    hide At, Encode, LeValue, Span, Value;
    HeaderReadsBack(t, cur, s);
    if s.FormattedLen() >= 0x0F {
      ValueReadsBack(t, cur, s, 0x04, 4);
      ValueReadsBack(t, cur, s, 0x08, 4);
      ValueReadsBack(t, cur, s, 0x0C, 2);
    }
    if s.FormattedLen() >= 0x1F {
      ValueReadsBack(t, cur, s, 0x0F, 8);
      ValueReadsBack(t, cur, s, 0x17, 8);
    }
  }

  // ---------- All structures ----------

  lemma {:induction false} ByteReadsBack(t: seq<Byte>, offs: seq<nat>, ss: seq<Structure>, kind: Byte, off: nat)
    requires AllValid(ss) && StandAt(t, offs, ss) && 2 <= off
    ensures LatestByte(t, offs, kind, off) == MeantByte(ss, kind, off)
    decreases |ss|
  {
    hide At, Encode;
    if ss != [] {
      var n := |ss| - 1;
      HeaderReadsBack(t, offs[n], ss[n]);
      if off < ss[n].FormattedLen() {
        ByteAtReadsBack(t, offs[n], ss[n], off);
      }
      ByteReadsBack(t, offs[..n], ss[..n], kind, off);
    }
  }

  lemma {:induction false} UuidReadsBack(t: seq<Byte>, offs: seq<nat>, ss: seq<Structure>, littleEndian: bool)
    requires AllValid(ss) && StandAt(t, offs, ss)
    ensures LatestUuid(t, offs, littleEndian) == MeantUuid(ss, littleEndian)
    decreases |ss|
  {
    hide At, Encode, UuidText;
    if ss != [] {
      var n := |ss| - 1;
      HeaderReadsBack(t, offs[n], ss[n]);
      if 0x17 < ss[n].FormattedLen() {
        BytesReadBack(t, offs[n], ss[n], 0x08, 0x10);
      }
      UuidReadsBack(t, offs[..n], ss[..n], littleEndian);
    }
  }

  lemma PresenceReadsBack(t: seq<Byte>, offs: seq<nat>, ss: seq<Structure>, kind: Byte)
    requires AllValid(ss) && StandAt(t, offs, ss)
    ensures Seen(t, offs, kind) <==> Present(ss, kind)
  {
    hide At, Encode;
    forall i | 0 <= i < |ss|
      ensures Carries(t, offs[i], kind, 0) <==> ss[i].kind == kind
    {
      HeaderReadsBack(t, offs[i], ss[i]);
    }
  }

  lemma {:induction false} DevicesReadBack(t: seq<Byte>, offs: seq<nat>, ss: seq<Structure>)
    requires AllValid(ss) && StandAt(t, offs, ss)
    ensures DevicesOf(t, offs) == MeantDevices(ss)
    decreases |ss|
  {
    hide At, Encode, Device, MeantDevice;
    if ss != [] {
      var n := |ss| - 1;
      HeaderReadsBack(t, offs[n], ss[n]);
      if ss[n].kind == 17 {
        DeviceReadsBack(t, offs[n], ss[n]);
      }
      DevicesReadBack(t, offs[..n], ss[..n]);
    }
  }

  lemma {:induction false} RegionsReadBack(t: seq<Byte>, offs: seq<nat>, ss: seq<Structure>)
    requires AllValid(ss) && StandAt(t, offs, ss)
    ensures AllFit(t, offs) && RegionsOf(t, offs) == MeantRegions(ss)
    decreases |ss|
  {
    hide At, Encode, RangeOf, MeantRange;
    if ss != [] {
      var n := |ss| - 1;
      RangeReadsBack(t, offs[n], ss[n]);
      RegionsReadBack(t, offs[..n], ss[..n]);
    }
  }

  // ---------- One memory device, field by field ----------

  /** A Type 17 structure by its fields, in the order in which they stand (DMTF DSP0134, section 7.18); the
      string fields hold string numbers. `last` is at 0x24, where the program looks for the configured speed. */
  datatype Module = Module(
    handle: seq<Byte>, arrayHandles: seq<Byte>, capacity: Capacity, form: seq<Byte>, locator: Byte, bank: Byte,
    memoryType: Byte, detail: seq<Byte>, speed: nat, manufacturer: Byte, serial: Byte, asset: Byte, part: Byte,
    attributes: Byte, extendedSize: nat, middle: seq<Byte>, last: nat, extra: seq<Byte>)
  {
    ghost predicate Valid() {
      && |handle| == |form| == |detail| == 2 && |arrayHandles| == 8 && |middle| == 4 && |extra| <= 217
      && capacity.Valid() && capacity.Fits(Some(extendedSize))
      && speed < 0x1_0000 && last < 0x1_0000 && extendedSize < 0x1_0000_0000
    }

    ghost function Body(): seq<Byte>
      requires Valid()
    {
      Start() + LeBytes(speed, 2) + [manufacturer, serial, asset, part, attributes] + LeBytes(extendedSize, 4)
      + middle + LeBytes(last, 2) + extra
    }

    ghost function Start(): (s: seq<Byte>)
      requires Valid()
      ensures |s| == 19
    {
      handle + arrayHandles + LeBytes(capacity.Word(), 2) + form + [locator, bank, memoryType] + detail
    }
  }

  ghost function Pick(strings: seq<seq<Byte>>, i: Byte): Text {
    if 1 <= i <= |strings| then Take(strings[i - 1], 63) else []
  }

  lemma FieldsOfBody(m: Module)
    requires m.Valid()
    ensures var b := m.Body();
            && 36 <= |b| <= 253
            && b[10..12] == LeBytes(m.capacity.Word(), 2) && b[14] == m.locator && b[16] == m.memoryType
            && b[19..21] == LeBytes(m.speed, 2) && b[21] == m.manufacturer && b[22] == m.serial && b[24] == m.part
            && b[26..30] == LeBytes(m.extendedSize, 4) && b[34..36] == LeBytes(m.last, 2)
  {
    hide LeBytes, Capacity.Word;
    StartOfBody(m);
    var s, b := m.Start(), m.Body();
    assert b[..19] == s && b[10..12] == s[10..12];
  }

  lemma StartOfBody(m: Module)
    requires m.Valid()
    ensures var s := m.Start();
            s[10..12] == LeBytes(m.capacity.Word(), 2) && s[14] == m.locator && s[16] == m.memoryType
  {
    hide LeBytes, Capacity.Word;
  }

  /** The device that is collected from an encoded module has the module's fields. */
  lemma ModuleReadsBack(m: Module, strings: seq<seq<Byte>>)
    requires m.Valid() && ValidStrings(strings)
    ensures |m.Body()| <= 253 && Structure(17, m.Body(), strings).Valid()
    ensures MeantDevice(Structure(17, m.Body(), strings)) ==
            MemoryDevice(!m.capacity.NotInstalled?, m.capacity.InMb(), m.speed, m.last, m.memoryType,
                         Pick(strings, m.manufacturer), Pick(strings, m.part),
                         Pick(strings, m.serial), Pick(strings, m.locator))
  {
    hide LeBytes, Value, Module.Body, Module.Start, Module.Valid, Capacity.Word, Capacity.InMb, Capacity.Fits, DeviceSize;
    hide TextOrNothing, Pick, ValidStrings;
    var b := m.Body();
    var s := Structure(17, b, strings);
    BytesOfBody(m);
    ModuleTexts(s);
    ValuesOfBody(m, s);
    SizeOfModule(m);
  }

  lemma BytesOfBody(m: Module)
    requires m.Valid()
    ensures var b := m.Body();
            && 36 <= |b| <= 253 && b[14] == m.locator && b[16] == m.memoryType
            && b[21] == m.manufacturer && b[22] == m.serial && b[24] == m.part
  {
    hide Module.Body, Module.Start, LeBytes;
    FieldsOfBody(m);
  }

  lemma SizeOfModule(m: Module)
    requires m.Valid()
    ensures m.capacity.Word() < 0x1_0000
    ensures DeviceSize(m.capacity.Word(), Some(m.extendedSize)) == (!m.capacity.NotInstalled?, m.capacity.InMb())
  {
    CapacityReadsBack(m.capacity, Some(m.extendedSize));
  }

  lemma ModuleTexts(s: Structure)
    requires s.Valid() && 36 <= |s.body|
    ensures TextOrNothing(s, 0x10) == Pick(s.strings, s.body[14]) && TextOrNothing(s, 0x17) == Pick(s.strings, s.body[21])
    ensures TextOrNothing(s, 0x18) == Pick(s.strings, s.body[22]) && TextOrNothing(s, 0x1A) == Pick(s.strings, s.body[24])
  {
  }

  lemma ValuesOfBody(m: Module, s: Structure)
    requires m.Valid() && s.body == m.Body()
    ensures 36 <= |s.body| && m.capacity.Word() < 0x1_0000
    ensures Value(s, 0x0C, 2) == m.capacity.Word() && Value(s, 0x15, 2) == m.speed
    ensures Value(s, 0x1C, 4) == m.extendedSize && Value(s, 0x24, 2) == m.last
  {
    FieldsOfBody(m);
    CapacityReadsBack(m.capacity, Some(m.extendedSize));
    hide LeBytes, Value, Module.Body, Module.Start, Capacity.Word, Capacity.Fits, DeviceSize;
    ValueIs(s, 0x0C, 2, m.capacity.Word());
    ValueIs(s, 0x15, 2, m.speed);
    ValueIs(s, 0x1C, 4, m.extendedSize);
    ValueIs(s, 0x24, 2, m.last);
  }

  lemma ValueIs(s: Structure, off: nat, n: nat, v: nat)
    requires 2 <= off && off + n <= s.FormattedLen() && s.body[off - 2..off - 2 + n] == LeBytes(v, n)
    requires if n == 2 then v < 0x1_0000 else n == 4 && v < 0x1_0000_0000
    ensures Value(s, off, n) == v
  {
    assert Pow256(2) == 0x1_0000 && Pow256(4) == 0x1_0000_0000;
    LeRoundTrip(v, n);
  }

  // ---------- The whole answer ----------

  /** The structures stand in `t` behind the raw header, up to its end or an end-of-table marker. */
  ghost predicate Holds(t: seq<Byte>, ss: seq<Structure>) {
    && AllValid(ss) && RAW_HEADER_SIZE + |EncodeAll(ss)| <= |t|
    && var n := RAW_HEADER_SIZE + |EncodeAll(ss)|;
       t[RAW_HEADER_SIZE..n] == EncodeAll(ss) && (n == |t| || EndMarkerAt(t, n))
  }

  lemma HeldStructuresStand(t: seq<Byte>, ss: seq<Structure>)
    requires Holds(t, ss)
    ensures var w := Walk(t, RAW_HEADER_SIZE);
            StandAt(t, w.visited, ss) && (w.stop == Exhausted || w.stop == EndMarker)
  {
    hide Walk, Encode, EncodeAll, At;
    TableRoundTrip(t, RAW_HEADER_SIZE, ss);
    AtIsSlice(t, RAW_HEADER_SIZE, EncodeAll(ss));
    var offs := Offsets(ss, RAW_HEADER_SIZE);
    forall i | 0 <= i < |ss|
      ensures At(t, offs[i], Encode(ss[i]))
    {
      EncodedAtOffset(t, RAW_HEADER_SIZE, ss, i);
    }
  }

  /** For every list of structures encoded in any buffer: the visited structures say what was meant, in every
      section, every memory device and every mapped range. */
  lemma EncodedTableReadsBack(t: seq<Byte>, ss: seq<Structure>, littleEndian: bool)
    requires Holds(t, ss)
    ensures var offs := Walk(t, RAW_HEADER_SIZE).visited;
            && |offs| == |ss|
            && BiosOf(t, offs) == MeantBios(ss) && SystemOf(t, offs, littleEndian) == MeantSystem(ss, littleEndian)
            && BaseboardOf(t, offs) == MeantBaseboard(ss) && ChassisOf(t, offs) == MeantChassis(ss)
            && DevicesOf(t, offs) == MeantDevices(ss)
            && AllFit(t, offs) && RegionsOf(t, offs) == MeantRegions(ss)
  {
    hide LatestText, LatestByte, LatestUuid, Seen, MeantText, MeantByte, MeantUuid, Present, Walk, StandAt;
    hide DevicesOf, MeantDevices, RegionsOf, MeantRegions, AllFit, EncodeAll;
    HeldStructuresStand(t, ss);
    var offs := Walk(t, RAW_HEADER_SIZE).visited;
    forall kind: Byte, off: nat | 2 <= off
      ensures LatestText(t, offs, kind, off) == MeantText(ss, kind, off)
    {
      TextsReadBack(t, offs, ss, kind, off);
    }
    forall kind: Byte
      ensures Seen(t, offs, kind) <==> Present(ss, kind)
    {
      PresenceReadsBack(t, offs, ss, kind);
    }
    ByteReadsBack(t, offs, ss, 3, 0x05);
    UuidReadsBack(t, offs, ss, littleEndian);
    DevicesReadBack(t, offs, ss);
    RegionsReadBack(t, offs, ss);
    AsMany(t, offs, ss);
  }

  lemma AsMany(t: seq<Byte>, offs: seq<nat>, ss: seq<Structure>)
    requires AllValid(ss) && StandAt(t, offs, ss)
    ensures |offs| == |ss|
  {
  }

  /** The firmware's answer: a header with the table length, the table, and whatever comes after it. */
  ghost function EncodeRaw(header: seq<Byte>, table: seq<Byte>, rest: seq<Byte>): seq<Byte>
    requires |header| == 4
  {
    header + LeBytes(|table|, 4) + table + rest
  }

  ghost predicate IsTail(tail: seq<Byte>) {
    tail == [] || (4 <= |tail| && tail[0] == END_OF_TABLE && 4 <= tail[1] <= |tail|)
  }

  ghost predicate RawHolds(raw: seq<Byte>, ss: seq<Structure>) {
    RAW_HEADER_SIZE <= |raw| && Holds(TableBytes(raw), ss)
  }

  /** An encoded answer holds its structures, whatever the version, the tail and the bytes after the table. */
  lemma RawReadsBack(header: seq<Byte>, ss: seq<Structure>, tail: seq<Byte>, rest: seq<Byte>)
    requires |header| == 4 && AllValid(ss) && IsTail(tail) && |EncodeAll(ss) + tail| < 0x1_0000_0000
    ensures RawHolds(EncodeRaw(header, EncodeAll(ss) + tail, rest), ss)
  {
    hide EncodeAll, LeValue, LeBytes, Pow256;
    var table := EncodeAll(ss) + tail;
    var raw := EncodeRaw(header, table, rest);
    assert raw[4..8] == LeBytes(|table|, 4);
    WordReadsBack(|table|);
    assert TableBytes(raw) == raw[..RAW_HEADER_SIZE + |table|] == header + LeBytes(|table|, 4) + EncodeAll(ss) + tail;
  }

  /** The SMBIOS collector on an encoded answer: everything that was meant, and nothing malformed. */
  method CollectEncoded(data: SmbiosData, raw: seq<Byte>, ghost ss: seq<Structure>)
    requires data.Valid() && RawHolds(raw, ss)
    modifies data, data.memoryDevices
    ensures data.Valid() && data.majorVersion == raw[1] && data.minorVersion == raw[2]
    ensures data.bios == MeantBios(ss)
    ensures data.system == MeantSystem(ss, raw[1] > 2 || (raw[1] == 2 && raw[2] >= 6))
    ensures data.baseboard == MeantBaseboard(ss) && data.chassis == MeantChassis(ss)
    ensures data.Devices() == Take(MeantDevices(ss), 64)
    ensures data.structuresParsed == |ss| && data.structuresMalformedSkipped == 0 && data.available == (ss != [])
  {
    hide Holds, Walk, BiosOf, SystemOf, BaseboardOf, ChassisOf, DevicesOf, Take;
    hide MeantBios, MeantSystem, MeantBaseboard, MeantChassis, MeantDevices;
    var ok := data.Collect(Some(raw));
    EncodedTableReadsBack(TableBytes(raw), ss, data.LittleEndianUuid());
    HeldStructuresStand(TableBytes(raw), ss);
  }

  /** The memory collector on an encoded answer: the first 32 ranges that were meant. */
  method CollectEncodedRegions(info: MemoryInfo, memory: Option<MemoryStatus>, raw: seq<Byte>, ghost ss: seq<Structure>)
    requires info.Valid() && RawHolds(raw, ss)
    modifies info, info.regions
    ensures info.Valid() && info.Regions() == Take(MeantRegions(ss), 32)
  {
    hide Holds, Walk, RegionsOf, MeantRegions, Take, AllFit;
    var ok := info.Collect(memory, Some(raw));
    EncodedTableReadsBack(TableBytes(raw), ss, false);
  }
}
