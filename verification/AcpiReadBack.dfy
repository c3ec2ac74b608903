/**
 End to end: what the ACPI collector leaves when the buffers it fetches hold encoded tables. The layouts are
 those of ACPI 6.5, section 5.2.6, and of the four tables that are parsed.
 */
module AcpiReadBack {
  import opened Wrappers
  import opened Bytes
  import Checksum
  import opened AcpiTables
  import opened Acpi

  // ---------- One table ----------

  /** A table by its fields. `creator` is the OEM revision, the creator and its revision. */
  datatype SystemTable = SystemTable(
    signature: seq<Byte>, revision: Byte, checksum: Byte, oemId: seq<Byte>, oemTableId: seq<Byte>,
    creator: seq<Byte>, body: seq<Byte>)
  {
    ghost predicate Valid() {
      && |signature| == 4 && |oemId| == 6 && |oemTableId| == 8 && |creator| == 12
      && 36 + |body| < 0x1_0000_0000
    }

    ghost function Header(): (h: seq<Byte>)
      requires Valid()
      ensures |h| == 36
    {
      signature + LeBytes(36 + |body|, 4) + [revision, checksum] + oemId + oemTableId + creator
    }

    ghost function Encode(): (e: seq<Byte>)
      requires Valid()
      ensures |e| == 36 + |body|
    {
      Header() + body
    }

    ghost predicate ChecksumHolds()
      requires Valid()
    {
      Checksum.Valid(Encode())
    }

    ghost function Meant(): Summary
      requires Valid()
    {
      Summary(signature, oemId, oemTableId, 36 + |body|, revision, ChecksumHolds())
    }
  }

  lemma HeaderFields(t: SystemTable)
    requires t.Valid()
    ensures var h := t.Header();
            && h[..4] == t.signature && h[4..8] == LeBytes(36 + |t.body|, 4) && h[8] == t.revision
            && h[10..16] == t.oemId && h[16..24] == t.oemTableId
  {
    hide LeBytes;
  }

  /** A buffer that starts with an encoded table is taken for that table. */
  lemma TableReadsBack(raw: Raw, t: SystemTable)
    requires t.Valid() && t.Encode() <= raw
    ensures Effective(raw) == t.Encode() && raw[..4] == t.signature && Summarize(raw) == t.Meant()
  {
    hide LeBytes, Effective, SystemTable.Header, Checksum.Valid;
    HeaderFields(t);
    var e, h := t.Encode(), t.Header();
    assert e[..36] == h && raw[..36] == h;
    assert e[4..8] == h[4..8] && raw[..4] == h[..4] && raw[10..16] == h[10..16] && raw[16..24] == h[16..24];
    EffectiveReadsBack(raw, e);
  }

  // ---------- All fetched buffers ----------

  /** What an answer holds: a table, or nothing when there is no buffer or one too short for a header. */
  ghost predicate IsAnswer(a: Answer, t: Option<SystemTable>) {
    match t
    case None => a.None? || |a.value| < 36
    case Some(table) => table.Valid() && a.Some? && table.Encode() <= a.value
  }

  ghost predicate AreAnswers(answers: seq<Answer>, ts: seq<Option<SystemTable>>) {
    |answers| == |ts| && forall i :: 0 <= i < |ts| ==> IsAnswer(answers[i], ts[i])
  }

  ghost function Present(ts: seq<Option<SystemTable>>): seq<SystemTable> {
    if ts == [] then []
    else
      var before, last := Present(ts[..|ts| - 1]), ts[|ts| - 1];
      if last.Some? then before + [last.value] else before
  }

  ghost predicate Starts(raw: Raw, t: SystemTable) {
    t.Valid() && t.Encode() <= raw
  }

  ghost predicate Hold(xs: seq<Raw>, ts: seq<SystemTable>) {
    |xs| == |ts| && forall i :: 0 <= i < |ts| ==> Starts(xs[i], ts[i])
  }

  lemma {:induction false} UsableHold(answers: seq<Answer>, ts: seq<Option<SystemTable>>)
    requires AreAnswers(answers, ts)
    ensures Hold(Usable(answers), Present(ts))
    decreases |ts|
  {
    hide SystemTable.Encode, SystemTable.Valid;
    if ts != [] {
      var n := |ts| - 1;
      UsableHold(answers[..n], ts[..n]);
      assert IsAnswer(answers[n], ts[n]);
      if ts[n].Some? {
        LongEnough(answers[n], ts[n].value);
      }
    }
  }

  lemma LongEnough(a: Answer, t: SystemTable)
    requires IsAnswer(a, Some(t))
    ensures 36 <= |a.value| && Starts(a.value, t)
  {
  }

  ghost predicate AllValid(ts: seq<SystemTable>) {
    forall i :: 0 <= i < |ts| ==> ts[i].Valid()
  }

  ghost function MeantSummaries(ts: seq<SystemTable>): (r: seq<Summary>)
    requires AllValid(ts)
    ensures |r| == |ts|
  {
    seq(|ts|, i requires 0 <= i < |ts| => ts[i].Meant())
  }

  /** The last table with this signature whose checksum holds. */
  ghost function MeantLast(ts: seq<SystemTable>, signature: seq<Byte>): (r: Option<SystemTable>)
    requires AllValid(ts)
    ensures r.Some? ==> r.value.Valid()
  {
    if ts == [] then None
    else
      var last := ts[|ts| - 1];
      if last.ChecksumHolds() && last.signature == signature then Some(last)
      else MeantLast(ts[..|ts| - 1], signature)
  }

  lemma HeldAreValid(xs: seq<Raw>, ts: seq<SystemTable>)
    requires Hold(xs, ts)
    ensures AllValid(ts)
  {
    forall i | 0 <= i < |ts|
      ensures ts[i].Valid()
    {
      assert Starts(xs[i], ts[i]);
    }
  }

  lemma SummariesReadBack(xs: seq<Raw>, ts: seq<SystemTable>)
    requires Hold(xs, ts) && AllValid(ts)
    ensures Summaries(xs) == MeantSummaries(ts)
  {
    hide Summarize, SystemTable.Meant, SystemTable.Encode, SystemTable.Valid;
    forall i | 0 <= i < |ts|
      ensures Summarize(xs[i]) == ts[i].Meant()
    {
      assert Starts(xs[i], ts[i]);
      TableReadsBack(xs[i], ts[i]);
    }
  }

  lemma {:induction false} SectionReadsBack(xs: seq<Raw>, ts: seq<SystemTable>, signature: seq<Byte>)
    requires Hold(xs, ts) && AllValid(ts)
    ensures match MeantLast(ts, signature)
            case None => SectionBytes(xs, signature) == [] && SectionSummary(xs, signature) == NO_SUMMARY
            case Some(t) => SectionBytes(xs, signature) == t.Encode() && SectionSummary(xs, signature) == t.Meant()
    decreases |ts|
  {
    hide Summarize, Effective, Checksum.Valid, SystemTable.Meant, SystemTable.Encode, SystemTable.Valid;
    if ts != [] {
      var n := |ts| - 1;
      assert Starts(xs[n], ts[n]);
      TableReadsBack(xs[n], ts[n]);
      SectionReadsBack(xs[..n], ts[..n], signature);
    }
  }

  // ---------- The four tables ----------

  /** What follows the header of an MCFG: a reserved field, the records, and perhaps a piece of one more. */
  datatype Mcfg = Mcfg(reserved: seq<Byte>, records: seq<McfgRecord>, tail: seq<Byte>)
  {
    ghost predicate Valid() {
      |reserved| == 8 && AllRecordsValid(records) && |tail| < 16
    }

    ghost function Body(): seq<Byte>
      requires Valid()
    {
      reserved + EncodeRecords(records) + tail
    }
  }

  /** What follows the header of a FADT, as far as it is read. */
  datatype Fadt = Fadt(addresses: seq<Byte>, preferredPmProfile: Byte, sciInterrupt: nat, rest: seq<Byte>)
  {
    ghost predicate Valid() {
      |addresses| == 9 && sciInterrupt < 0x1_0000
    }

    ghost function Body(): seq<Byte> {
      addresses + [preferredPmProfile] + LeBytes(sciInterrupt, 2) + rest
    }
  }

  /** What follows the header of an HPET table, as far as it is read. */
  datatype Hpet = Hpet(blockId: seq<Byte>, space: seq<Byte>, baseAddress: nat, hpetNumber: Byte, rest: seq<Byte>)
  {
    ghost predicate Valid() {
      |blockId| == |space| == 4 && baseAddress < TWO_64
    }

    ghost function Body(): seq<Byte> {
      blockId + space + LeBytes(baseAddress, 8) + [hpetNumber] + rest
    }
  }

  lemma FadtReadsBack(header: seq<Byte>, f: Fadt)
    requires |header| == 36 && f.Valid()
    ensures ParseFadt(header + f.Body()) == FadtInfo(true, NO_SUMMARY, f.sciInterrupt, f.preferredPmProfile)
  {
    hide LeValue, LeBytes;
    var t := header + f.Body();
    assert t[46..48] == LeBytes(f.sciInterrupt, 2);
    assert Pow256(2) == 0x1_0000;
    LeRoundTrip(f.sciInterrupt, 2);
  }

  lemma HpetReadsBack(header: seq<Byte>, h: Hpet)
    requires |header| == 36 && h.Valid()
    ensures ParseHpet(header + h.Body()) == HpetInfo(true, NO_SUMMARY, h.baseAddress, h.hpetNumber)
  {
    hide LeValue, LeBytes;
    var t := header + h.Body();
    assert t[44..52] == LeBytes(h.baseAddress, 8);
    assert Pow256(8) == TWO_64;
    LeRoundTrip(h.baseAddress, 8);
  }

  /** The MADT section says what the table means, and is zero without one or when it is cut short. */
  ghost predicate MadtSays(info: MadtInfo, t: Option<SystemTable>)
    reads info, info.processors
  {
    && info.Valid()
    && match t
       case None => !info.available && info.List() == [] && info.localApicAddress == 0 && info.summary == NO_SUMMARY
       case Some(table) =>
         && table.Valid() && info.summary == table.Meant() && info.available == (8 <= |table.body|)
         && forall m: Madt :: m.Valid() && table.body == m.Body() ==>
              && info.localApicAddress == m.localApicAddress
              && info.List() == Take(Meanings(m.entries), 512)
  }

  ghost predicate McfgSays(info: McfgInfo, t: Option<SystemTable>)
    reads info, info.entries
  {
    && info.Valid()
    && match t
       case None => !info.available && info.List() == [] && info.summary == NO_SUMMARY
       case Some(table) =>
         && table.Valid() && info.summary == table.Meant() && info.available == (8 <= |table.body|)
         && forall m: Mcfg :: m.Valid() && table.body == m.Body() ==> info.List() == Take(EntriesOf(m.records), 16)
  }

  ghost predicate FadtSays(info: FadtInfo, t: Option<SystemTable>) {
    match t
    case None => info == FadtInfo(false, NO_SUMMARY, 0, 0)
    case Some(table) =>
      && table.Valid() && info.summary == table.Meant() && info.available == (12 <= |table.body|)
      && forall f: Fadt :: f.Valid() && table.body == f.Body() ==>
           info.sciInterrupt == f.sciInterrupt && info.preferredPmProfile == f.preferredPmProfile
  }

  ghost predicate HpetSays(info: HpetInfo, t: Option<SystemTable>) {
    match t
    case None => info == HpetInfo(false, NO_SUMMARY, 0, 0)
    case Some(table) =>
      && table.Valid() && info.summary == table.Meant() && info.available == (17 <= |table.body|)
      && forall h: Hpet :: h.Valid() && table.body == h.Body() ==>
           info.baseAddress == h.baseAddress && info.hpetNumber == h.hpetNumber
  }

  lemma MadtIsSaid(info: MadtInfo, t: Option<SystemTable>)
    requires t.Some? ==> t.value.Valid()
    requires info.Holds(if t.Some? then t.value.Encode() else [])
    requires info.summary == if t.Some? then t.value.Meant() else NO_SUMMARY
    ensures MadtSays(info, t)
  {
    hide MadtProcessors, MadtAddress, SystemTable.Header, SystemTable.Meant, Madt.Body, Meanings, Take;
    if t.Some? {
      forall m: Madt | m.Valid() && t.value.body == m.Body()
        ensures info.localApicAddress == m.localApicAddress && info.List() == Take(Meanings(m.entries), 512)
      {
        MadtRoundTrip(t.value.Encode(), t.value.Header(), m);
      }
    } else {
      NothingListed();
    }
  }

  lemma NothingListed()
    ensures MadtProcessors([]) == [] && MadtAddress([]) == 0 && McfgEntries([]) == []
  {
  }

  lemma McfgIsSaid(info: McfgInfo, t: Option<SystemTable>)
    requires t.Some? ==> t.value.Valid()
    requires info.Holds(if t.Some? then t.value.Encode() else [])
    requires info.summary == if t.Some? then t.value.Meant() else NO_SUMMARY
    ensures McfgSays(info, t)
  {
    hide McfgEntries, SystemTable.Header, SystemTable.Meant, EntriesOf, EncodeRecords, Take;
    if t.Some? {
      forall m: Mcfg | m.Valid() && t.value.body == m.Body()
        ensures info.List() == Take(EntriesOf(m.records), 16)
      {
        var h := t.value.Header();
        assert h + (m.reserved + EncodeRecords(m.records) + m.tail) == h + m.reserved + EncodeRecords(m.records) + m.tail;
        McfgRoundTrip(t.value.Encode(), h, m.reserved, m.records, m.tail);
      }
    } else {
      NothingListed();
    }
  }

  lemma FadtIsSaid(info: FadtInfo, t: Option<SystemTable>)
    requires t.Some? ==> t.value.Valid()
    requires info == ParseFadt(if t.Some? then t.value.Encode() else []).(
               summary := if t.Some? then t.value.Meant() else NO_SUMMARY)
    ensures FadtSays(info, t)
  {
    hide SystemTable.Header, SystemTable.Meant, Fadt.Body, Le16;
    if t.Some? {
      forall f: Fadt | f.Valid() && t.value.body == f.Body()
        ensures info.sciInterrupt == f.sciInterrupt && info.preferredPmProfile == f.preferredPmProfile
      {
        FadtReadsBack(t.value.Header(), f);
      }
    }
  }

  lemma HpetIsSaid(info: HpetInfo, t: Option<SystemTable>)
    requires t.Some? ==> t.value.Valid()
    requires info == ParseHpet(if t.Some? then t.value.Encode() else []).(
               summary := if t.Some? then t.value.Meant() else NO_SUMMARY)
    ensures HpetSays(info, t)
  {
    hide SystemTable.Header, SystemTable.Meant, Hpet.Body, Le64;
    if t.Some? {
      forall h: Hpet | h.Valid() && t.value.body == h.Body()
        ensures info.baseAddress == h.baseAddress && info.hpetNumber == h.hpetNumber
      {
        HpetReadsBack(t.value.Header(), h);
      }
    }
  }

  // ---------- The whole collection ----------

  lemma SignaturesAreText()
    ensures FACP == Ascii("FACP") && APIC == Ascii("APIC") && MCFG == Ascii("MCFG") && HPET == Ascii("HPET")
  {
  }

  lemma FirstHold(xs: seq<Raw>, ts: seq<SystemTable>, n: nat)
    requires Hold(xs, ts)
    ensures Hold(Take(xs, n), Take(ts, n)) && AllValid(Take(ts, n))
  {
    hide Starts;
    HeldAreValid(xs, ts);
  }

  lemma CollectedReadsBack(data: AcpiData, xs: seq<Raw>, ts: seq<SystemTable>)
    requires data.Holds(xs) && Hold(xs, ts) && AllValid(ts)
    ensures data.Discovered() == MeantSummaries(ts)
    ensures FadtSays(data.fadt, MeantLast(ts, Ascii("FACP"))) && MadtSays(data.madt, MeantLast(ts, Ascii("APIC")))
    ensures McfgSays(data.mcfg, MeantLast(ts, Ascii("MCFG"))) && HpetSays(data.hpet, MeantLast(ts, Ascii("HPET")))
  {
    hide MeantLast, MeantSummaries, Summaries, SectionBytes, SectionSummary, Hold, AllValid, ParseFadt, ParseHpet;
    hide SystemTable.Encode, SystemTable.Valid, SystemTable.Meant, FadtSays, MadtSays, McfgSays, HpetSays;
    hide MadtInfo.Holds, McfgInfo.Holds;
    SignaturesAreText();
    SummariesReadBack(xs, ts);
    SectionReadsBack(xs, ts, FACP);
    SectionReadsBack(xs, ts, APIC);
    SectionReadsBack(xs, ts, MCFG);
    SectionReadsBack(xs, ts, HPET);
    FadtIsSaid(data.fadt, MeantLast(ts, FACP));
    MadtIsSaid(data.madt, MeantLast(ts, APIC));
    McfgIsSaid(data.mcfg, MeantLast(ts, MCFG));
    HpetIsSaid(data.hpet, MeantLast(ts, HPET));
  }

  /** The collector on buffers that hold encoded tables, among missing and short ones: the first 64 tables are
      recorded, and each section says what the last valid one with its signature means. */
  method CollectEncoded(data: AcpiData, platform: Platform, ghost ts: seq<Option<SystemTable>>) returns (ok: bool)
    requires data.Valid() && platform.taken == platform.live == {}
    requires platform.answers.Some? && AreAnswers(platform.answers.value, ts)
    modifies data, data.discovered, data.madt, data.madt.processors, data.mcfg, data.mcfg.entries, platform
    ensures ok && data.Valid() && platform.live == {}
    ensures var tables := Take(Present(ts), 64);
            && AllValid(tables) && data.Discovered() == MeantSummaries(tables)
            && FadtSays(data.fadt, MeantLast(tables, Ascii("FACP")))
            && MadtSays(data.madt, MeantLast(tables, Ascii("APIC")))
            && McfgSays(data.mcfg, MeantLast(tables, Ascii("MCFG")))
            && HpetSays(data.hpet, MeantLast(tables, Ascii("HPET")))
  {
    hide AcpiData.Holds, Usable, Present, Take, Hold, AllValid, MeantSummaries, MeantLast;
    hide FadtSays, MadtSays, McfgSays, HpetSays, AreAnswers;
    ghost var xs := Usable(platform.answers.value);
    UsableHold(platform.answers.value, ts);
    FirstHold(xs, Present(ts), 64);
    ok := data.Collect(platform);
    data.HoldsValid(Take(xs, 64));
    CollectedReadsBack(data, Take(xs, 64), Take(Present(ts), 64));
  }
}
