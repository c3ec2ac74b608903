/**
 The MADT and MCFG parsers (ACPI 6.5, section 5.2.12; PCI Firmware Specification for MCFG), over the bytes
 `t` of one table up to its effective length, so that no read can pass that length.
 */
module AcpiTables {
  import opened Wrappers
  import opened Bytes

  const HEADER_SIZE := 36
  const MAX_PROCESSORS := 512
  const MAX_MCFG_ENTRIES := 16

  // Header, local APIC address and flags; in an MCFG, header and the reserved field.
  const ENTRIES_START := HEADER_SIZE + 8

  datatype Summary = Summary(
    signature: seq<Byte>, oemId: seq<Byte>, oemTableId: seq<Byte>, length: nat, revision: Byte, checksumValid: bool)

  const NO_SUMMARY := Summary([], [], [], 0, 0, false)

  // ---------- MADT entries ----------

  datatype Processor = Processor(
    processorId: Byte, apicId: Byte, x2apicId: nat, isX2apic: bool, enabled: bool, onlineCapable: bool)

  const NO_PROCESSOR := Processor(0, 0, 0, false, false, false)

  ghost predicate EntryFits(t: seq<Byte>, p: nat) {
    p + 2 <= |t| && 2 <= t[p + 1] && p + t[p + 1] <= |t|
  }

  predicate Enabled(flags: nat) { flags % 2 == 1 }

  predicate OnlineCapable(flags: nat) { (flags / 2) % 2 == 1 }

  /** The processor an entry describes, when it is of a recognised type and long enough. */
  ghost function ProcessorAt(t: seq<Byte>, p: nat): Option<Processor>
    requires EntryFits(t, p)
  {
    if t[p] == 0 && t[p + 1] >= 8 then
      var flags := Le32(t, p + 4);
      Some(Processor(t[p + 2], t[p + 3], 0, false, Enabled(flags), OnlineCapable(flags)))
    else if t[p] == 9 && t[p + 1] >= 16 then
      var flags := Le32(t, p + 8);
      Some(Processor(0, 0, Le32(t, p + 4), true, Enabled(flags), OnlineCapable(flags)))
    else None
  }

  ghost function AsList<T>(o: Option<T>): seq<T> {
    if o.Some? then [o.value] else []
  }

  /** All processors from `p` on, without the cap: the walk ends at the first entry that does not fit. */
  ghost function Processors(t: seq<Byte>, p: nat): seq<Processor>
    decreases |t| - p
  {
    if !EntryFits(t, p) then [] else AsList(ProcessorAt(t, p)) + Processors(t, p + t[p + 1])
  }

  /** What a MADT of these bytes lists; one too short for its fixed fields lists nothing. */
  ghost function MadtProcessors(t: seq<Byte>): seq<Processor> {
    if |t| < ENTRIES_START then [] else Take(Processors(t, ENTRIES_START), MAX_PROCESSORS)
  }

  ghost function MadtAddress(t: seq<Byte>): nat {
    if |t| < ENTRIES_START then 0 else Le32(t, HEADER_SIZE)
  }

  class MadtInfo {
    var available: bool
    var summary: Summary
    var localApicAddress: nat
    var processorCount: nat
    const processors: array<Processor>

    ghost predicate Valid()
      reads `processorCount
    {
      processors.Length == MAX_PROCESSORS && processorCount <= MAX_PROCESSORS
    }

    ghost function List(): seq<Processor>
      reads `processorCount, processors
      requires Valid()
    {
      processors[..processorCount]
    }

    ghost predicate RestIsZero()
      reads `processorCount, processors
      requires Valid()
    {
      forall i :: processorCount <= i < MAX_PROCESSORS ==> processors[i] == NO_PROCESSOR
    }

    /** Holds what parsing the bytes `t` gives. */
    ghost predicate Holds(t: seq<Byte>)
      reads `available, `localApicAddress, `processorCount, processors
    {
      && Valid() && available == (ENTRIES_START <= |t|)
      && localApicAddress == MadtAddress(t) && List() == MadtProcessors(t)
    }

    ghost predicate IsZero()
      reads this, processors
    {
      Holds([]) && summary == NO_SUMMARY
    }

    constructor ()
      ensures IsZero() && fresh(processors)
    {
      available, summary, localApicAddress, processorCount := false, NO_SUMMARY, 0, 0;
      processors := new Processor[MAX_PROCESSORS](_ => NO_PROCESSOR);
    }

    method Clear()
      requires Valid()
      modifies this, processors
      ensures IsZero() && processorCount == 0 && RestIsZero()
    {
      available, summary, localApicAddress, processorCount := false, NO_SUMMARY, 0, 0;
      forall i | 0 <= i < processors.Length {
        processors[i] := NO_PROCESSOR;
      }
    }

    method Parse(t: seq<Byte>)
      requires Valid()
      modifies this, processors
      ensures Holds(t)
      ensures RestIsZero()
    {
      Clear();
      if |t| < ENTRIES_START {
        return;
      }
      localApicAddress := Le32(t, HEADER_SIZE);
      ParseEntries(t);
      available := true;
    }

    method Add(e: Processor)
      requires Valid() && RestIsZero()
      modifies `processorCount, processors
      ensures Valid() && RestIsZero()
      ensures List() == Take(old(List()) + [e], MAX_PROCESSORS)
    {
      if processorCount < MAX_PROCESSORS {
        processors[processorCount] := e;
        processorCount := processorCount + 1;
      }
    }

    /** One entry of the list: what it describes is appended. */
    method ParseEntry(t: seq<Byte>, p: nat, ghost done: seq<Processor>)
      requires Valid() && RestIsZero() && EntryFits(t, p) && List() == Take(done, MAX_PROCESSORS)
      modifies `processorCount, processors
      ensures Valid() && RestIsZero()
      ensures List() == Take(done + AsList(ProcessorAt(t, p)), MAX_PROCESSORS)
    {
      hide Le32, Enabled, OnlineCapable, RestIsZero;
      var kind, len := t[p], t[p + 1];
      if kind == 0 && len >= 8 {
        var flags := Le32(t, p + 4);
        Add(Processor(t[p + 2], t[p + 3], 0, false, Enabled(flags), OnlineCapable(flags)));
      } else if kind == 9 && len >= 16 {
        var x2apicId, flags := Le32(t, p + 4), Le32(t, p + 8);
        Add(Processor(0, 0, x2apicId, true, Enabled(flags), OnlineCapable(flags)));
      }
    }

    method ParseEntries(t: seq<Byte>)
      requires Valid() && processorCount == 0 && ENTRIES_START <= |t|
      requires RestIsZero()
      modifies `processorCount, processors
      ensures Valid() && List() == MadtProcessors(t)
      ensures RestIsZero()
    {
      var p := ENTRIES_START;
      ghost var done: seq<Processor> := [];
      hide Pending, Processors, ProcessorAt, AsList, Take, RestIsZero;
      NothingDone(t);
      while p + 2 <= |t|
        invariant Valid() && p <= |t|
        invariant Pending(t, p, done) && List() == Take(done, MAX_PROCESSORS)
        invariant RestIsZero()
        decreases |t| - p
      {
        var kind, len := t[p], t[p + 1];
        if len < 2 || p + len > |t| {
          break;
        }
        ParseEntry(t, p, done);
        PendingStep(t, p, done);
        done := done + AsList(ProcessorAt(t, p));
        p := p + len;
      }
      PendingEnd(t, p, done);
    }
  }

  /** With `done` read and the walk at `p`, the rest of the list is what the walk still finds. */
  ghost predicate Pending(t: seq<Byte>, p: nat, done: seq<Processor>) {
    Processors(t, ENTRIES_START) == done + Processors(t, p)
  }

  lemma NothingDone(t: seq<Byte>)
    ensures Pending(t, ENTRIES_START, []) && Take<Processor>([], MAX_PROCESSORS) == []
  {
    assert [] + Processors(t, ENTRIES_START) == Processors(t, ENTRIES_START);
  }

  lemma PendingStep(t: seq<Byte>, p: nat, done: seq<Processor>)
    requires EntryFits(t, p) && Pending(t, p, done)
    ensures Pending(t, p + t[p + 1], done + AsList(ProcessorAt(t, p)))
  {
    hide ProcessorAt, AsList;
    var rest := Processors(t, p + t[p + 1]);
    assert done + (AsList(ProcessorAt(t, p)) + rest) == (done + AsList(ProcessorAt(t, p))) + rest;
  }

  lemma PendingEnd(t: seq<Byte>, p: nat, done: seq<Processor>)
    requires Pending(t, p, done)
    ensures !EntryFits(t, p) ==> Processors(t, ENTRIES_START) == done
  {
    assert done + [] == done;
  }

  lemma ProcessorsEnd(t: seq<Byte>, p: nat)
    ensures !EntryFits(t, p) ==> Processors(t, p) == []
  {
  }

  // ---------- MADT: truncation ----------

  lemma {:induction false} ProcessorsOfPrefix(t: seq<Byte>, k: nat, p: nat)
    requires k <= |t|
    ensures Processors(t[..k], p) <= Processors(t, p)
    decreases |t| - p
  {
    hide ProcessorAt, AsList;
    if EntryFits(t[..k], p) {
      assert t[..k][p] == t[p] && t[..k][p + 1] == t[p + 1];
      ProcessorOfPrefix(t, k, p);
      ProcessorsOfPrefix(t, k, p + t[p + 1]);
    }
  }

  lemma ProcessorOfPrefix(t: seq<Byte>, k: nat, p: nat)
    requires k <= |t| && EntryFits(t[..k], p)
    ensures EntryFits(t, p) && ProcessorAt(t[..k], p) == ProcessorAt(t, p)
  {
    hide LeValue;
    if p + 8 <= k {
      assert t[..k][p + 4..p + 8] == t[p + 4..p + 8];
    }
    if p + 12 <= k {
      assert t[..k][p + 8..p + 12] == t[p + 8..p + 12];
    }
  }

  /** Cutting a MADT anywhere only loses processors from the end of the list. */
  lemma TruncatedMadtIsPrefix(t: seq<Byte>, k: nat)
    requires k <= |t|
    ensures MadtProcessors(t[..k]) <= MadtProcessors(t)
  {
    hide Processors;
    ProcessorsOfPrefix(t, k, ENTRIES_START);
  }

  // ---------- MADT: round trip ----------

  /** The flags of a processor: bit 0, bit 1 and thirty others. */
  ghost function Flags(enabled: bool, onlineCapable: bool, others: nat): nat {
    (if enabled then 1 else 0) + (if onlineCapable then 2 else 0) + 4 * others
  }

  lemma FlagsReadBack(enabled: bool, onlineCapable: bool, others: nat)
    ensures var flags := Flags(enabled, onlineCapable, others);
            Enabled(flags) == enabled && OnlineCapable(flags) == onlineCapable
  {
  }

  /** An entry as it is meant. `extra` is what a longer entry holds past the fields that are read. */
  datatype Entry =
    | LocalApic(processorId: Byte, apicId: Byte, enabled: bool, onlineCapable: bool, others: nat, extra: seq<Byte>)
    | LocalX2apic(
        reserved: seq<Byte>, x2apicId: nat, enabled: bool, onlineCapable: bool, others: nat, extra: seq<Byte>)
    | Other(kind: Byte, body: seq<Byte>)
  {
    ghost predicate Valid() {
      match this
      case LocalApic(_, _, _, _, others, extra) => others < 0x4000_0000 && |extra| <= 247
      case LocalX2apic(reserved, id, _, _, others, extra) =>
        |reserved| == 2 && id < 0x1_0000_0000 && others < 0x4000_0000 && 4 <= |extra| <= 243
      case Other(kind, body) =>
        |body| <= 253 && !(kind == 0 && |body| >= 6) && !(kind == 9 && |body| >= 14)
    }

    ghost function Encode(): (e: seq<Byte>)
      requires Valid()
      ensures 2 <= |e| == e[1]
    {
      match this
      case LocalApic(pid, apic, en, oc, others, extra) =>
        [0, 8 + |extra|] + [pid, apic] + LeBytes(Flags(en, oc, others), 4) + extra
      case LocalX2apic(reserved, id, en, oc, others, extra) =>
        [9, 12 + |extra|] + reserved + LeBytes(id, 4) + LeBytes(Flags(en, oc, others), 4) + extra
      case Other(kind, body) => [kind, 2 + |body|] + body
    }

    ghost function Meaning(): Option<Processor> {
      match this
      case LocalApic(pid, apic, en, oc, _, _) => Some(Processor(pid, apic, 0, false, en, oc))
      case LocalX2apic(_, id, en, oc, _, _) => Some(Processor(0, 0, id, true, en, oc))
      case Other(_, _) => None
    }
  }

  ghost predicate AllValid(es: seq<Entry>) {
    forall i :: 0 <= i < |es| ==> es[i].Valid()
  }

  ghost function EncodeEntries(es: seq<Entry>): seq<Byte>
    requires AllValid(es)
  {
    if es == [] then [] else es[0].Encode() + EncodeEntries(es[1..])
  }

  ghost function Meanings(es: seq<Entry>): seq<Processor> {
    if es == [] then [] else AsList(es[0].Meaning()) + Meanings(es[1..])
  }

  lemma SuffixSplit(t: seq<Byte>, p: nat, a: seq<Byte>, b: seq<Byte>)
    requires p <= |t| && t[p..] == a + b
    ensures p + |a| <= |t| && t[p..p + |a|] == a && t[p + |a|..] == b
  {
    assert t[p..p + |a|] == t[p..][..|a|];
    assert t[p + |a|..] == t[p..][|a|..];
  }

  lemma EntryReadsBack(t: seq<Byte>, p: nat, e: Entry)
    requires e.Valid() && p + |e.Encode()| <= |t| && t[p..p + |e.Encode()|] == e.Encode()
    ensures EntryFits(t, p) && t[p + 1] == |e.Encode()| && ProcessorAt(t, p) == e.Meaning()
  {
    hide LeValue, LeBytes;
    var bytes := e.Encode();
    assert forall i :: 0 <= i < |bytes| ==> t[p + i] == bytes[i];
    assert t[p + 0] == bytes[0] && t[p + 1] == bytes[1];
    match e
    case LocalApic(pid, apic, en, oc, others, extra) =>
      assert t[p + 2] == bytes[2] && t[p + 3] == bytes[3];
      assert t[p + 4..p + 8] == bytes[4..8] == LeBytes(Flags(en, oc, others), 4);
      WordReadsBack(Flags(en, oc, others));
      FlagsReadBack(en, oc, others);
    case LocalX2apic(reserved, id, en, oc, others, extra) =>
      assert t[p + 4..p + 8] == bytes[4..8] == LeBytes(id, 4);
      assert t[p + 8..p + 12] == bytes[8..12] == LeBytes(Flags(en, oc, others), 4);
      WordReadsBack(id);
      WordReadsBack(Flags(en, oc, others));
      FlagsReadBack(en, oc, others);
    case Other(kind, body) =>
  }

  lemma {:induction false} EntriesReadBack(t: seq<Byte>, p: nat, es: seq<Entry>)
    requires AllValid(es) && p <= |t| && t[p..] == EncodeEntries(es)
    ensures Processors(t, p) == Meanings(es)
    decreases |es|
  {
    hide ProcessorAt, AsList, Entry.Encode, Entry.Meaning, Entry.Valid, Processors, EntryFits;
    if es == [] {
      ProcessorsEnd(t, p);
      ShortEntryDoesNotFit(t, p);
    } else {
      var first, rest := es[0].Encode(), EncodeEntries(es[1..]);
      SuffixSplit(t, p, first, rest);
      EntryReadsBack(t, p, es[0]);
      EntriesReadBack(t, p + |first|, es[1..]);
      ProcessorsUnfold(t, p);
    }
  }

  lemma ShortEntryDoesNotFit(t: seq<Byte>, p: nat)
    ensures |t| <= p ==> !EntryFits(t, p)
  {
  }

  lemma ProcessorsUnfold(t: seq<Byte>, p: nat)
    requires EntryFits(t, p)
    ensures Processors(t, p) == AsList(ProcessorAt(t, p)) + Processors(t, p + t[p + 1])
  {
    hide ProcessorAt, AsList;
  }

  /** What follows the header of a MADT. */
  datatype Madt = Madt(localApicAddress: nat, flags: seq<Byte>, entries: seq<Entry>)
  {
    ghost predicate Valid() {
      localApicAddress < 0x1_0000_0000 && |flags| == 4 && AllValid(entries)
    }

    ghost function Body(): seq<Byte>
      requires Valid()
    {
      LeBytes(localApicAddress, 4) + flags + EncodeEntries(entries)
    }
  }

  /** The round trip: for any list of entries, the first 512 processors among them come back in order. */
  lemma MadtRoundTrip(t: seq<Byte>, header: seq<Byte>, m: Madt)
    requires m.Valid() && |header| == 36 && t == header + m.Body()
    ensures 44 <= |t| && MadtAddress(t) == m.localApicAddress && MadtProcessors(t) == Take(Meanings(m.entries), 512)
  {
    hide LeValue, LeBytes, Processors, EncodeEntries, Meanings;
    assert t[36..40] == LeBytes(m.localApicAddress, 4);
    WordReadsBack(m.localApicAddress);
    assert t[44..] == EncodeEntries(m.entries);
    EntriesReadBack(t, 44, m.entries);
  }

  // ---------- MCFG ----------

  datatype McfgEntry = McfgEntry(baseAddress: nat, segmentGroup: nat, startBus: Byte, endBus: Byte)

  const NO_MCFG_ENTRY := McfgEntry(0, 0, 0, 0)

  ghost function McfgAt(t: seq<Byte>, p: nat): McfgEntry
    requires p + 16 <= |t|
  {
    McfgEntry(Le64(t, p), Le16(t, p + 8), t[p + 10], t[p + 11])
  }

  ghost function McfgCount(len: nat): nat {
    if len < ENTRIES_START then 0
    else
      var n := (len - ENTRIES_START) / 16;
      if n < MAX_MCFG_ENTRIES then n else MAX_MCFG_ENTRIES
  }

  /** Every whole 16-byte record past the reserved field, up to sixteen of them. */
  ghost function McfgEntries(t: seq<Byte>): seq<McfgEntry> {
    seq(McfgCount(|t|), i requires 0 <= i < McfgCount(|t|) => McfgAt(t, ENTRIES_START + 16 * i))
  }

  lemma McfgEntryOfPrefix(t: seq<Byte>, k: nat, p: nat)
    requires p + 16 <= k <= |t|
    ensures McfgAt(t[..k], p) == McfgAt(t, p)
  {
    hide LeValue;
    assert t[..k][p..p + 8] == t[p..p + 8];
    assert t[..k][p + 8..p + 10] == t[p + 8..p + 10];
  }

  lemma McfgCountFits(len: nat, i: nat)
    requires i < McfgCount(len)
    ensures ENTRIES_START + 16 * i + 16 <= len
  {
  }

  // ---------- MCFG: round trip ----------

  /** One record: the entry, and four bytes that are not read. */
  datatype McfgRecord = McfgRecord(entry: McfgEntry, reserved: seq<Byte>)
  {
    ghost predicate Valid() {
      entry.baseAddress < TWO_64 && entry.segmentGroup < 0x1_0000 && |reserved| == 4
    }

    ghost function Encode(): (e: seq<Byte>)
      requires Valid()
      ensures |e| == 16
    {
      LeBytes(entry.baseAddress, 8) + LeBytes(entry.segmentGroup, 2) + [entry.startBus, entry.endBus] + reserved
    }
  }

  ghost predicate AllRecordsValid(rs: seq<McfgRecord>) {
    forall i :: 0 <= i < |rs| ==> rs[i].Valid()
  }

  ghost function EncodeRecords(rs: seq<McfgRecord>): (e: seq<Byte>)
    requires AllRecordsValid(rs)
    ensures |e| == 16 * |rs|
  {
    if rs == [] then [] else rs[0].Encode() + EncodeRecords(rs[1..])
  }

  ghost function EntriesOf(rs: seq<McfgRecord>): (es: seq<McfgEntry>)
    ensures |es| == |rs| && forall i :: 0 <= i < |rs| ==> es[i] == rs[i].entry
  {
    if rs == [] then [] else [rs[0].entry] + EntriesOf(rs[1..])
  }

  lemma RecordReadsBack(t: seq<Byte>, p: nat, r: McfgRecord)
    requires r.Valid() && p + 16 <= |t| && t[p..p + 16] == r.Encode()
    ensures McfgAt(t, p) == r.entry
  {
    hide LeValue, LeBytes;
    var e := t[p..p + 16];
    SliceOfSlice(t, p, p + 16, 0, 8);
    SliceOfSlice(t, p, p + 16, 8, 10);
    assert e[0..8] == LeBytes(r.entry.baseAddress, 8);
    assert e[8..10] == LeBytes(r.entry.segmentGroup, 2);
    assert t[p + 10] == e[10] && t[p + 11] == e[11];
    assert Pow256(8) == TWO_64 && Pow256(2) == 0x1_0000;
    LeRoundTrip(r.entry.baseAddress, 8);
    LeRoundTrip(r.entry.segmentGroup, 2);
  }

  lemma {:induction false} RecordStands(rs: seq<McfgRecord>, i: nat)
    requires AllRecordsValid(rs) && i < |rs|
    ensures EncodeRecords(rs)[16 * i..16 * i + 16] == rs[i].Encode()
    decreases i
  {
    hide McfgRecord.Encode;
    var first, rest := rs[0].Encode(), EncodeRecords(rs[1..]);
    if i > 0 {
      RecordStands(rs[1..], i - 1);
      assert (first + rest)[16 * i..16 * i + 16] == rest[16 * (i - 1)..16 * (i - 1) + 16];
    }
  }

  /** The round trip: any list of records comes back as its first sixteen entries, in order; a last record that
      is cut off is not read. */
  lemma McfgRoundTrip(t: seq<Byte>, header: seq<Byte>, reserved: seq<Byte>, rs: seq<McfgRecord>, tail: seq<Byte>)
    requires |header| == 36 && |reserved| == 8 && AllRecordsValid(rs) && |tail| < 16
    requires t == header + reserved + EncodeRecords(rs) + tail
    ensures 44 <= |t| && McfgEntries(t) == Take(EntriesOf(rs), 16)
  {
    hide McfgAt, McfgRecord.Encode, McfgRecord.Valid;
    var e := EncodeRecords(rs);
    assert McfgCount(|t|) == if |rs| < 16 then |rs| else 16;
    forall i | 0 <= i < McfgCount(|t|)
      ensures McfgAt(t, 44 + 16 * i) == rs[i].entry
    {
      RecordStands(rs, i);
      assert t[44 + 16 * i..44 + 16 * i + 16] == e[16 * i..16 * i + 16];
      RecordReadsBack(t, 44 + 16 * i, rs[i]);
    }
  }

  /** Cutting an MCFG anywhere only loses entries from the end of the list. */
  lemma TruncatedMcfgIsPrefix(t: seq<Byte>, k: nat)
    requires k <= |t|
    ensures McfgEntries(t[..k]) <= McfgEntries(t)
  {
    var cut := t[..k];
    McfgCountGrows(k, |t|);
    forall i | 0 <= i < McfgCount(k)
      ensures McfgEntries(cut)[i] == McfgEntries(t)[i]
    {
      McfgCountFits(k, i);
      McfgEntryOfPrefix(t, k, ENTRIES_START + 16 * i);
    }
  }

  lemma McfgCountGrows(len: nat, more: nat)
    requires len <= more
    ensures McfgCount(len) <= McfgCount(more)
  {
  }

  class McfgInfo {
    var available: bool
    var summary: Summary
    var entryCount: nat
    const entries: array<McfgEntry>

    ghost predicate Valid()
      reads `entryCount
    {
      entries.Length == MAX_MCFG_ENTRIES && entryCount <= MAX_MCFG_ENTRIES
    }

    ghost function List(): seq<McfgEntry>
      reads `entryCount, entries
      requires Valid()
    {
      entries[..entryCount]
    }

    ghost predicate Holds(t: seq<Byte>)
      reads `available, `entryCount, entries
    {
      Valid() && available == (ENTRIES_START <= |t|) && List() == McfgEntries(t)
    }

    ghost predicate IsZero()
      reads this, entries
    {
      Holds([]) && summary == NO_SUMMARY
    }

    constructor ()
      ensures IsZero() && fresh(entries)
    {
      available, summary, entryCount := false, NO_SUMMARY, 0;
      entries := new McfgEntry[MAX_MCFG_ENTRIES](_ => NO_MCFG_ENTRY);
    }

    method Clear()
      requires Valid()
      modifies this, entries
      ensures IsZero() && entryCount == 0
    {
      available, summary, entryCount := false, NO_SUMMARY, 0;
      forall i | 0 <= i < entries.Length {
        entries[i] := NO_MCFG_ENTRY;
      }
    }

    method Parse(t: seq<Byte>)
      requires Valid()
      modifies this, entries
      ensures Holds(t)
    {
      Clear();
      if |t| < ENTRIES_START {
        return;
      }
      var p := ENTRIES_START;
      hide LeValue;
      while p + 16 <= |t| && entryCount < MAX_MCFG_ENTRIES
        invariant Valid() && p == ENTRIES_START + 16 * entryCount <= |t|
        invariant forall i :: 0 <= i < entryCount ==>
                    ENTRIES_START + 16 * i + 16 <= |t| && entries[i] == McfgAt(t, ENTRIES_START + 16 * i)
      {
        entries[entryCount] := McfgEntry(Le64(t, p), Le16(t, p + 8), t[p + 10], t[p + 11]);
        entryCount := entryCount + 1;
        p := p + 16;
      }
      assert entryCount == McfgCount(|t|);
      available := true;
    }
  }
}
