/** The ACPI collector: which tables it records and parses, and what it does with every fetched buffer. */
module Acpi {
  import opened Wrappers
  import opened Bytes
  import Checksum
  import opened AcpiTables

  const MAX_DISCOVERED := 64

  const FACP: seq<Byte> := [0x46, 0x41, 0x43, 0x50]
  const APIC: seq<Byte> := [0x41, 0x50, 0x49, 0x43]
  const MCFG: seq<Byte> := [0x4D, 0x43, 0x46, 0x47]
  const HPET: seq<Byte> := [0x48, 0x50, 0x45, 0x54]

  // ---------- One fetched table ----------

  /** A fetched buffer long enough for the table header. */
  type Raw = raw: seq<Byte> | HEADER_SIZE <= |raw| witness seq(HEADER_SIZE, _ => 0)

  /** The bytes a table is trusted for: its own length when that is positive and was received in full. */
  function Effective(raw: Raw): (t: seq<Byte>)
    ensures t <= raw
  {
    var len := Le32(raw, 4);
    if 0 < len <= |raw| then raw[..len] else raw
  }

  /** A table whose length field is its length is trusted for exactly its own bytes, whatever was received
      after them. */
  lemma EffectiveReadsBack(raw: Raw, table: seq<Byte>)
    requires table <= raw && 36 <= |table| < 0x1_0000_0000 && table[4..8] == LeBytes(|table|, 4)
    ensures Effective(raw) == table
  {
    hide LeValue, LeBytes;
    assert raw[4..8] == table[4..8];
    WordReadsBack(|table|);
  }

  /** A length of zero, or more than was received, is not trusted: then all bytes are used. */
  lemma EffectiveFallsBack(raw: Raw, len: nat)
    requires len < 0x1_0000_0000 && raw[4..8] == LeBytes(len, 4) && (len == 0 || |raw| < len)
    ensures Effective(raw) == raw
  {
    WordReadsBack(len);
  }

  function ToU32(n: nat): (r: nat)
    ensures r == n % 0x1_0000_0000
  {
    if n < 0x1_0000_0000 then n else n % 0x1_0000_0000
  }

  function FillSummary(raw: Raw, len: nat, valid: bool): Summary {
    Summary(raw[..4], raw[10..16], raw[16..24], ToU32(len), raw[8], valid)
  }

  /** What `discovered` records of a table, whether or not its checksum holds. */
  ghost function Summarize(raw: Raw): Summary {
    FillSummary(raw, |Effective(raw)|, Checksum.Valid(Effective(raw)))
  }

  lemma SummaryIsFilled(raw: Raw)
    ensures Summarize(raw) == FillSummary(raw, |Effective(raw)|, Checksum.Valid(Effective(raw)))
  {
  }

  datatype FadtInfo = FadtInfo(available: bool, summary: Summary, sciInterrupt: nat, preferredPmProfile: Byte)

  datatype HpetInfo = HpetInfo(available: bool, summary: Summary, baseAddress: nat, hpetNumber: Byte)

  function ParseFadt(t: seq<Byte>): FadtInfo {
    if |t| < 48 then FadtInfo(false, NO_SUMMARY, 0, 0) else FadtInfo(true, NO_SUMMARY, Le16(t, 46), t[45])
  }

  function ParseHpet(t: seq<Byte>): HpetInfo {
    if |t| < 53 then HpetInfo(false, NO_SUMMARY, 0, 0) else HpetInfo(true, NO_SUMMARY, Le64(t, 44), t[52])
  }

  // ---------- All fetched tables ----------

  type Answer = Option<seq<Byte>>

  /** The answers that carry a table header, in order. */
  ghost function Usable(answers: seq<Answer>): seq<Raw> {
    if answers == [] then []
    else
      var before, last := Usable(answers[..|answers| - 1]), answers[|answers| - 1];
      if last.Some? && HEADER_SIZE <= |last.value| then before + [last.value] else before
  }

  ghost function Summaries(xs: seq<Raw>): seq<Summary> {
    seq(|xs|, i requires 0 <= i < |xs| => Summarize(xs[i]))
  }

  ghost predicate IsValid(raw: Raw, sig: seq<Byte>) {
    Checksum.Valid(Effective(raw)) && raw[..4] == sig
  }

  /** The last table with this signature whose checksum holds. */
  ghost function LastValid(xs: seq<Raw>, sig: seq<Byte>): Option<Raw> {
    if xs == [] then None
    else if IsValid(xs[|xs| - 1], sig) then Some(xs[|xs| - 1])
    else LastValid(xs[..|xs| - 1], sig)
  }

  ghost function SectionBytes(xs: seq<Raw>, sig: seq<Byte>): seq<Byte> {
    match LastValid(xs, sig)
    case None => []
    case Some(raw) => Effective(raw)
  }

  ghost function SectionSummary(xs: seq<Raw>, sig: seq<Byte>): Summary {
    match LastValid(xs, sig)
    case None => NO_SUMMARY
    case Some(raw) => Summarize(raw)
  }

  /** Which table a section comes from: one that was recorded, passed its checksum, carries the signature
      and has no such table after it; and there is none exactly when no recorded table qualifies. */
  lemma {:induction false} LastValidIsLast(xs: seq<Raw>, sig: seq<Byte>)
    ensures var r := LastValid(xs, sig);
            if r.Some? then
              exists i :: 0 <= i < |xs| && xs[i] == r.value && IsValid(xs[i], sig)
                          && forall j :: i < j < |xs| ==> !IsValid(xs[j], sig)
            else
              forall i :: 0 <= i < |xs| ==> !IsValid(xs[i], sig)
    decreases |xs|
  {
    hide IsValid;
    if xs != [] && !IsValid(xs[|xs| - 1], sig) {
      var init := xs[..|xs| - 1];
      LastValidIsLast(init, sig);
      if LastValid(init, sig).Some? {
        var i :| 0 <= i < |init| && init[i] == LastValid(init, sig).value && IsValid(init[i], sig)
                 && forall j :: i < j < |init| ==> !IsValid(init[j], sig);
        assert xs[i] == init[i];
        assert forall j :: i < j < |init| ==> xs[j] == init[j];
      } else {
        assert forall j :: 0 <= j < |init| ==> xs[j] == init[j];
      }
    }
  }

  lemma UsableAfter(answers: seq<Answer>, a: Answer)
    ensures Usable(answers + [a]) ==
            if a.Some? && HEADER_SIZE <= |a.value| then Usable(answers) + [a.value] else Usable(answers)
  {
    assert (answers + [a])[..|answers|] == answers;
  }

  lemma {:induction false} UsableOfPrefix(answers: seq<Answer>, n: nat)
    requires n <= |answers|
    ensures Usable(answers[..n]) <= Usable(answers)
    decreases |answers|
  {
    if n < |answers| {
      var init := answers[..|answers| - 1];
      assert init[..n] == answers[..n];
      UsableOfPrefix(init, n);
      assert answers == init + [answers[|answers| - 1]];
      UsableAfter(init, answers[|answers| - 1]);
    } else {
      assert answers[..n] == answers;
    }
  }

  lemma LastValidAfter(xs: seq<Raw>, raw: Raw, sig: seq<Byte>)
    ensures LastValid(xs + [raw], sig) == if IsValid(raw, sig) then Some(raw) else LastValid(xs, sig)
  {
    hide IsValid;
    assert (xs + [raw])[..|xs|] == xs;
  }

  /** One more table changes the section of its signature, if its checksum holds, and no other. */
  lemma SectionsAfter(xs: seq<Raw>, raw: Raw, sig: seq<Byte>)
    ensures SectionBytes(xs + [raw], sig) == if IsValid(raw, sig) then Effective(raw) else SectionBytes(xs, sig)
    ensures SectionSummary(xs + [raw], sig) == if IsValid(raw, sig) then Summarize(raw) else SectionSummary(xs, sig)
  {
    hide IsValid, Effective, Summarize;
    LastValidAfter(xs, raw, sig);
  }

  lemma SummariesAfter(xs: seq<Raw>, raw: Raw)
    ensures Summaries(xs + [raw]) == Summaries(xs) + [Summarize(raw)]
  {
    hide Summarize;
  }

  ghost predicate Follows(xs: seq<Raw>, raw: Raw, sig: seq<Byte>) {
    if IsValid(raw, sig) then
      SectionBytes(xs + [raw], sig) == Effective(raw) && SectionSummary(xs + [raw], sig) == Summarize(raw)
    else
      SectionBytes(xs + [raw], sig) == SectionBytes(xs, sig)
      && SectionSummary(xs + [raw], sig) == SectionSummary(xs, sig)
  }

  lemma AllAfter(xs: seq<Raw>, raw: Raw)
    ensures Summaries(xs + [raw]) == Summaries(xs) + [Summarize(raw)]
    ensures Follows(xs, raw, FACP) && Follows(xs, raw, APIC) && Follows(xs, raw, MCFG) && Follows(xs, raw, HPET)
  {
    SummariesAfter(xs, raw);
    SectionsAfter(xs, raw, FACP);
    SectionsAfter(xs, raw, APIC);
    SectionsAfter(xs, raw, MCFG);
    SectionsAfter(xs, raw, HPET);
  }

  lemma SignaturesDiffer()
    ensures FACP != APIC && FACP != MCFG && FACP != HPET && APIC != MCFG && APIC != HPET && MCFG != HPET
  {
    assert FACP[0] != APIC[0] && FACP[0] != MCFG[0] && FACP[0] != HPET[0];
    assert APIC[0] != MCFG[0] && APIC[0] != HPET[0] && MCFG[0] != HPET[0];
  }

  // ---------- The platform, with its buffers ----------

  /** The signature list, and the buffer fetched for the i-th signature. */
  datatype Block = Signatures | Table(i: nat)

  /** The firmware interface: its answers are arbitrary, and each buffer it hands out must be freed. */
  class Platform {
    const answers: Option<seq<Answer>>
    ghost var taken: set<Block>
    ghost var live: set<Block>

    constructor (answers: Option<seq<Answer>>)
      ensures this.answers == answers && taken == live == {}
    {
      this.answers := answers;
      taken, live := {}, {};
    }

    method EnumSignatures() returns (count: Option<nat>)
      requires Signatures !in taken
      modifies this
      ensures count == if answers.Some? then Some(|answers.value|) else None
      ensures var blocks := if answers.Some? then {Signatures} else {};
              taken == old(taken) + blocks && live == old(live) + blocks
    {
      if answers.None? {
        return None;
      }
      taken, live := taken + {Signatures}, live + {Signatures};
      return Some(|answers.value|);
    }

    method GetTable(i: nat) returns (a: Answer)
      requires answers.Some? && i < |answers.value| && Table(i) !in taken && Signatures in live
      modifies this
      ensures a == answers.value[i]
      ensures var blocks := if a.Some? then {Table(i)} else {};
              taken == old(taken) + blocks && live == old(live) + blocks
    {
      a := answers.value[i];
      if a.Some? {
        taken, live := taken + {Table(i)}, live + {Table(i)};
      }
    }

    /** Only a buffer that is still held may be freed. */
    method Free(ghost block: Block)
      requires block in live
      modifies `live
      ensures live == old(live) - {block}
    {
      live := live - {block};
    }
  }

  /** The buffers handed out by fetching the first `n` tables. */
  ghost function Blocks(answers: seq<Answer>, n: nat): set<Block>
    requires n <= |answers|
  {
    {Signatures} + set i | 0 <= i < n && answers[i].Some? :: Table(i)
  }

  lemma BlocksAfter(answers: seq<Answer>, n: nat)
    requires n < |answers|
    ensures Blocks(answers, n + 1) == Blocks(answers, n) + if answers[n].Some? then {Table(n)} else {}
    ensures Table(n) !in Blocks(answers, n) && Signatures in Blocks(answers, n)
  {
  }

  // ---------- The collector ----------

  class AcpiData {
    const discovered: array<Summary>
    var discoveredCount: nat
    var fadt: FadtInfo
    const madt: MadtInfo
    const mcfg: McfgInfo
    var hpet: HpetInfo

    ghost predicate Valid()
      reads `discoveredCount, madt`processorCount, mcfg`entryCount
    {
      discovered.Length == MAX_DISCOVERED && discoveredCount <= MAX_DISCOVERED && madt.Valid() && mcfg.Valid()
    }

    ghost function Discovered(): seq<Summary>
      reads `discoveredCount, discovered, madt`processorCount, mcfg`entryCount
      requires Valid()
    {
      discovered[..discoveredCount]
    }

    /** The whole result says what the tables `xs` say. */
    ghost predicate Holds(xs: seq<Raw>)
      reads this, discovered, madt, madt.processors, mcfg, mcfg.entries
    {
      && Valid()
      && Discovered() == Summaries(xs)
      && fadt == ParseFadt(SectionBytes(xs, FACP)).(summary := SectionSummary(xs, FACP))
      && madt.Holds(SectionBytes(xs, APIC)) && madt.summary == SectionSummary(xs, APIC)
      && mcfg.Holds(SectionBytes(xs, MCFG)) && mcfg.summary == SectionSummary(xs, MCFG)
      && hpet == ParseHpet(SectionBytes(xs, HPET)).(summary := SectionSummary(xs, HPET))
    }

    constructor ()
      ensures Holds([])
    {
      discovered := new Summary[MAX_DISCOVERED](_ => NO_SUMMARY);
      madt := new MadtInfo();
      mcfg := new McfgInfo();
      discoveredCount := 0;
      fadt := ParseFadt([]);
      hpet := ParseHpet([]);
    }

    method Clear()
      requires Valid()
      modifies this, discovered, madt, madt.processors, mcfg, mcfg.entries
      ensures Holds([])
    {
      forall i | 0 <= i < discovered.Length {
        discovered[i] := NO_SUMMARY;
      }
      discoveredCount := 0;
      fadt := ParseFadt([]);
      hpet := ParseHpet([]);
      madt.Clear();
      mcfg.Clear();
    }

    /** One fetched table: recorded always, parsed only when its checksum holds. */
    method AddTable(raw: Raw, ghost xs: seq<Raw>)
      requires Holds(xs) && discoveredCount < MAX_DISCOVERED
      modifies this, discovered, madt, madt.processors, mcfg, mcfg.entries
      ensures Holds(xs + [raw])
    {
      hide SectionBytes, SectionSummary, Summaries, Summarize, ParseFadt, ParseHpet, FillSummary, Checksum.Valid;
      hide Effective, MadtInfo.Holds, McfgInfo.Holds;
      var t := Effective(raw);
      var valid := Checksum.ChecksumOk(t);
      var summary := FillSummary(raw, |t|, valid);
      AllAfter(xs, raw);
      SummaryIsFilled(raw);
      Record(summary);
      if valid {
        ParseTable(raw[..4], t, summary);
      }
    }

    method Record(summary: Summary)
      requires Valid() && discoveredCount < MAX_DISCOVERED
      modifies `discoveredCount, discovered
      ensures Valid() && Discovered() == old(Discovered()) + [summary]
    {
      discovered[discoveredCount] := summary;
      discoveredCount := discoveredCount + 1;
    }

    method ParseTable(sig: seq<Byte>, t: seq<Byte>, summary: Summary)
      requires madt.Valid() && mcfg.Valid()
      modifies `fadt, `hpet, madt, madt.processors, mcfg, mcfg.entries
      ensures madt.Valid() && mcfg.Valid()
      ensures fadt == if sig == FACP then ParseFadt(t).(summary := summary) else old(fadt)
      ensures hpet == if sig == HPET then ParseHpet(t).(summary := summary) else old(hpet)
      ensures if sig == APIC then madt.Holds(t) && madt.summary == summary else unchanged(madt, madt.processors)
      ensures if sig == MCFG then mcfg.Holds(t) && mcfg.summary == summary else unchanged(mcfg, mcfg.entries)
    {
      SignaturesDiffer();
      hide ParseFadt, ParseHpet, MadtProcessors, McfgEntries;
      if sig == FACP {
        fadt := ParseFadt(t).(summary := summary);
      } else if sig == APIC {
        madt.Parse(t);
        madt.summary := summary;
      } else if sig == MCFG {
        mcfg.Parse(t);
        mcfg.summary := summary;
      } else if sig == HPET {
        hpet := ParseHpet(t).(summary := summary);
      }
    }

    lemma HoldsValid(xs: seq<Raw>)
      requires Holds(xs)
      ensures Valid() && discoveredCount == |xs| <= MAX_DISCOVERED
    {
    }

    /** For any answers: the result says what the first 64 usable tables say, and every buffer that was
        handed out has been freed. */
    method Collect(platform: Platform) returns (ok: bool)
      requires Valid() && platform.taken == platform.live == {}
      modifies this, discovered, madt, madt.processors, mcfg, mcfg.entries, platform
      ensures ok <==> platform.answers.Some?
      ensures !ok ==> Holds([]) && platform.taken == {}
      ensures ok ==> Holds(Take(Usable(platform.answers.value), MAX_DISCOVERED))
      ensures ok ==> exists n: nat :: n <= |platform.answers.value| && platform.taken == Blocks(platform.answers.value, n)
      ensures platform.live == {}
    {
      hide Holds, Usable, Blocks, Take;
      Clear();
      var count := platform.EnumSignatures();
      if count.None? {
        return false;
      }
      NothingFetched(platform.answers.value);
      ghost var n := CollectTables(platform);
      platform.Free(Signatures);
      ok := true;
    }

    /** With the first `i` answers dealt with, no table buffer is held and the result says what they say. */
    ghost predicate Progress(platform: Platform, i: nat)
      reads this, discovered, madt, madt.processors, mcfg, mcfg.entries, platform
    {
      && platform.answers.Some? && i <= |platform.answers.value|
      && Holds(Usable(platform.answers.value[..i]))
      && platform.live == {Signatures} && platform.taken == Blocks(platform.answers.value, i)
    }

    method CollectTables(platform: Platform) returns (ghost n: nat)
      requires Progress(platform, 0)
      modifies this, discovered, madt, madt.processors, mcfg, mcfg.entries, platform
      ensures platform.answers.Some? && Holds(Take(Usable(platform.answers.value), MAX_DISCOVERED))
      ensures n <= |platform.answers.value| && platform.taken == Blocks(platform.answers.value, n)
      ensures platform.live == {Signatures}
    {
      var i := 0;
      hide Holds, Usable, Blocks, Take;
      while i < |platform.answers.value| && discoveredCount < MAX_DISCOVERED
        invariant Progress(platform, i)
      {
        CollectOne(platform, i);
        i := i + 1;
      }
      n := i;
      HoldsValid(Usable(platform.answers.value[..i]));
      FirstTablesSuffice(platform.answers.value, n);
    }

    method CollectOne(platform: Platform, i: nat)
      requires Progress(platform, i) && i < |platform.answers.value| && discoveredCount < MAX_DISCOVERED
      modifies this, discovered, madt, madt.processors, mcfg, mcfg.entries, platform
      ensures Progress(platform, i + 1)
    {
      hide Holds, Usable, Blocks, Valid;
      UsableNext(platform.answers.value, i);
      BlocksAfter(platform.answers.value, i);
      var a := platform.GetTable(i);
      if a.None? {
        return;
      }
      if |a.value| >= HEADER_SIZE {
        AddTable(a.value, Usable(platform.answers.value[..i]));
      }
      platform.Free(Table(i));
    }
  }

  lemma UsableNext(answers: seq<Answer>, i: nat)
    requires i < |answers|
    ensures Usable(answers[..i + 1]) ==
            if answers[i].Some? && HEADER_SIZE <= |answers[i].value| then Usable(answers[..i]) + [answers[i].value]
            else Usable(answers[..i])
  {
    hide Usable;
    UsableAfter(answers[..i], answers[i]);
    assert answers[..i + 1] == answers[..i] + [answers[i]];
  }

  lemma NothingFetched(answers: seq<Answer>)
    ensures Blocks(answers, 0) == {Signatures} && Usable(answers[..0]) == []
  {
  }

  /** Stopping once 64 tables are recorded loses none of the first 64. */
  lemma FirstTablesSuffice(answers: seq<Answer>, n: nat)
    requires n <= |answers| && |Usable(answers[..n])| <= MAX_DISCOVERED
    requires n == |answers| || |Usable(answers[..n])| == MAX_DISCOVERED
    ensures Usable(answers[..n]) == Take(Usable(answers), MAX_DISCOVERED)
  {
    hide Usable;
    UsableOfPrefix(answers, n);
    assert answers[..|answers|] == answers;
  }
}
