/** The second walk over the SMBIOS table: Type 19 address ranges (DMTF DSP0134, section 7.20). */
module MemoryInfo {
  import opened Wrappers
  import opened Bytes
  import opened SmbiosTable

  const MAX_REGIONS := 32
  const SENTINEL := 0xFFFF_FFFF

  datatype Region = Region(base: nat, length: nat, handle: nat)

  const NO_REGION := Region(0, 0, 0)

  // ---------- One range ----------

  /** The addresses first..last, both included; an empty range and the whole address space have no region. */
  ghost function Span(first: nat, last: nat, handle: nat): Option<Region> {
    if first <= last && last - first + 1 < TWO_64 then Some(Region(first, last - first + 1, handle)) else None
  }

  /** What a Type 19 structure maps: in KB units, or in bytes when the start field says so and the
      extended fields are there. */
  ghost function RangeOf(t: seq<Byte>, cur: nat): Option<Region>
    requires HeaderFits(t, cur)
  {
    var hlen := t[cur + 1];
    if t[cur] != 19 || hlen < 0x0F then None
    else
      var handle := Le16(t, cur + 0x0C);
      var startKb, endKb := Le32(t, cur + 0x04), Le32(t, cur + 0x08);
      if startKb != SENTINEL then Span(1024 * startKb, 1024 * endKb + 1023, handle)
      else if hlen >= 0x1F then Span(Le64(t, cur + 0x0F), Le64(t, cur + 0x17), handle)
      else None
  }

  /** Every region lies in the 64-bit address space and spans its first to its last address, in KB or in
      bytes. A structure has no region if and only if it is of another type or too short, or its range is
      reversed, lacks its extended fields or is the whole address space. */
  lemma RangeIsSound(t: seq<Byte>, cur: nat)
    requires HeaderFits(t, cur)
    ensures RangeOf(t, cur).Some? ==>
              var r := RangeOf(t, cur).value;
              && 0 < r.length && r.base + r.length <= TWO_64 && r.handle == Le16(t, cur + 0x0C)
              && if Le32(t, cur + 0x04) != SENTINEL then
                   && r.base == 1024 * Le32(t, cur + 0x04)
                   && r.length == 1024 * (Le32(t, cur + 0x08) - Le32(t, cur + 0x04) + 1)
                 else
                   && t[cur + 1] >= 0x1F && r.base == Le64(t, cur + 0x0F)
                   && r.length == Le64(t, cur + 0x17) - Le64(t, cur + 0x0F) + 1
    ensures RangeOf(t, cur).None? <==>
            || t[cur] != 19 || t[cur + 1] < 0x0F
            || (Le32(t, cur + 0x04) != SENTINEL && Le32(t, cur + 0x08) < Le32(t, cur + 0x04))
            || (Le32(t, cur + 0x04) == SENTINEL && t[cur + 1] < 0x1F)
            || (Le32(t, cur + 0x04) == SENTINEL && Le64(t, cur + 0x17) < Le64(t, cur + 0x0F))
            || (Le32(t, cur + 0x04) == SENTINEL && Le64(t, cur + 0x0F) == 0 && Le64(t, cur + 0x17) == TWO_64 - 1)
  {
    hide Le16, Le32, Le64;
  }

  lemma {:induction false} RepeatedByte(s: seq<Byte>)
    ensures (forall i :: 0 <= i < |s| ==> s[i] == 255) ==> LeValue(s) == Pow256(|s|) - 1
    ensures (forall i :: 0 <= i < |s| ==> s[i] == 0) ==> LeValue(s) == 0
    decreases |s|
  {
    if s != [] {
      RepeatedByte(s[1..]);
    }
  }

  /** A range that maps addresses and is lost: the extended fields say 0 to 2^64 - 1. */
  lemma WholeAddressSpaceIsDropped()
    ensures var t := [19, 31, 0, 0] + seq(8, _ => 255) + [0, 0, 1] + seq(8, _ => 0) + seq(8, _ => 255) + [0, 0];
            && IsStructure(t, 0) && Le32(t, 0x04) == SENTINEL
            && Le64(t, 0x0F) == 0 && Le64(t, 0x17) == TWO_64 - 1 && RangeOf(t, 0).None?
  {
    var t: seq<Byte> := [19, 31, 0, 0] + seq(8, _ => 255) + [0, 0, 1] + seq(8, _ => 0) + seq(8, _ => 255) + [0, 0];
    RepeatedByte(t[0x04..0x08]);
    RepeatedByte(t[0x0F..0x17]);
    RepeatedByte(t[0x17..0x1F]);
    assert Pow256(4) == SENTINEL + 1 && Pow256(8) == TWO_64;
    hide LeValue;
    RangeIsSound(t, 0);
  }

  /** The 64-bit arithmetic of one structure, with its wrap. */
  method ReadRange(t: seq<Byte>, cur: nat) returns (r: Option<Region>)
    requires IsStructure(t, cur)
    ensures r == RangeOf(t, cur)
  {
    hide LeValue;
    var kind, hlen := t[cur], t[cur + 1];
    if kind == 19 && hlen >= 0x0F {
      var startKb, endKb := Le32(t, cur + 0x04), Le32(t, cur + 0x08);
      var base, length := 0, 0;
      if startKb == SENTINEL && hlen >= 0x1F {
        var extStart, extEnd := Le64(t, cur + 0x0F), Le64(t, cur + 0x17);
        base := extStart;
        length := if extEnd >= extStart then ToU64(extEnd - extStart + 1) else 0;
      } else if startKb != SENTINEL {
        base := ToU64(startKb * 1024);
        var endBytes := ToU64(endKb * 1024);
        length := if endBytes >= base then ToU64(endBytes - base + 1024) else 0;
      } else {
        base, length := 0, 0;
      }
      if length > 0 {
        return Some(Region(base, length, Le16(t, cur + 0x0C)));
      }
    }
    return None;
  }

  // ---------- All ranges of a walk ----------

  ghost predicate AllFit(t: seq<Byte>, offs: seq<nat>) {
    forall i :: 0 <= i < |offs| ==> HeaderFits(t, offs[i])
  }

  /** The regions of the visited structures, in order. */
  ghost function RegionsOf(t: seq<Byte>, offs: seq<nat>): seq<Region>
    requires AllFit(t, offs)
  {
    if offs == [] then []
    else
      var before, last := RegionsOf(t, offs[..|offs| - 1]), RangeOf(t, offs[|offs| - 1]);
      if last.Some? then before + [last.value] else before
  }

  lemma RegionsAfter(t: seq<Byte>, offs: seq<nat>, cur: nat)
    requires AllFit(t, offs) && HeaderFits(t, cur)
    ensures AllFit(t, offs + [cur])
    ensures RegionsOf(t, offs + [cur]) ==
            RegionsOf(t, offs) + if RangeOf(t, cur).Some? then [RangeOf(t, cur).value] else []
  {
    hide RangeOf, HeaderFits;
    assert (offs + [cur])[..|offs|] == offs;
  }

  lemma {:induction false} RegionsOfPrefix(t: seq<Byte>, a: seq<nat>, b: seq<nat>)
    requires AllFit(t, a + b)
    ensures AllFit(t, a) && RegionsOf(t, a) <= RegionsOf(t, a + b)
    decreases |b|
  {
    hide RangeOf, HeaderFits;
    assert forall i :: 0 <= i < |a| ==> a[i] == (a + b)[i];
    if b == [] {
      assert a + b == a;
    } else {
      assert (a + b)[..|a + b| - 1] == a + b[..|b| - 1];
      RegionsOfPrefix(t, a, b[..|b| - 1]);
    }
  }

  /** Stopping a walk once 32 regions are found loses none of the first 32. */
  lemma FirstRegionsSuffice(t: seq<Byte>, cur: nat, offs: seq<nat>, w: Visit)
    requires Remaining(t, cur, offs, w) && AllFit(t, offs) && AllFit(t, w.visited)
    requires w.visited == offs || |RegionsOf(t, offs)| == MAX_REGIONS
    requires |RegionsOf(t, offs)| <= MAX_REGIONS
    ensures offs <= w.visited && RegionsOf(t, offs) == Take(RegionsOf(t, w.visited), MAX_REGIONS)
  {
    hide RegionsOf, AllFit;
    RegionsOfPrefix(t, offs, Walk(t, cur).visited);
  }

  /** The structures that a walk visits when it stops at the 32nd region: no further than that region needs,
      and all of them when there are fewer. */
  ghost predicate Visits(t: seq<Byte>, full: seq<nat>, visited: seq<nat>) {
    && visited <= full && AllFit(t, visited)
    && (visited == full || |RegionsOf(t, visited)| == MAX_REGIONS)
    && FewerBefore(t, visited)
  }

  /** Before the last visited structure, fewer than 32 regions were found. */
  ghost predicate FewerBefore(t: seq<Byte>, visited: seq<nat>) {
    visited != [] ==>
      var before := visited[..|visited| - 1];
      AllFit(t, before) && |RegionsOf(t, before)| < MAX_REGIONS
  }

  lemma FewerBeforeNext(t: seq<Byte>, visited: seq<nat>, cur: nat)
    requires AllFit(t, visited) && |RegionsOf(t, visited)| < MAX_REGIONS
    ensures FewerBefore(t, visited + [cur])
  {
    hide RegionsOf, AllFit;
    assert (visited + [cur])[..|visited|] == visited;
  }

  /** That fixes the list: there is only one such walk. */
  lemma VisitsIsUnique(t: seq<Byte>, full: seq<nat>, a: seq<nat>, b: seq<nat>)
    requires Visits(t, full, a) && Visits(t, full, b) && |a| <= |b|
    ensures a == b
  {
    hide RegionsOf, AllFit;
    if |a| < |b| {
      var before := b[..|b| - 1];
      assert a <= before && before == a + before[|a|..];
      RegionsOfPrefix(t, a, before[|a|..]);
      assert false;
    }
    assert a == full[..|a|] && b == full[..|b|];
  }

  lemma WalkFits(t: seq<Byte>, cur: nat)
    requires cur <= |t|
    ensures AllFit(t, Walk(t, cur).visited)
  {
    WalkFollowsNext(t, cur);
  }

  datatype MemoryStatus = MemoryStatus(totalPhysical: nat, availablePhysical: nat, loadPercent: nat)

  class MemoryInfo {
    var available: bool
    var status: MemoryStatus
    const regions: array<Region>
    var regionCount: nat

    ghost predicate Valid()
      reads `regionCount
    {
      regions.Length == MAX_REGIONS && regionCount <= MAX_REGIONS
    }

    ghost function Regions(): (r: seq<Region>)
      reads `regionCount, regions
      requires Valid()
      ensures |r| == regionCount
    {
      regions[..regionCount]
    }

    constructor ()
      ensures Valid() && fresh(regions)
    {
      available, status, regionCount := false, MemoryStatus(0, 0, 0), 0;
      regions := new Region[MAX_REGIONS](_ => NO_REGION);
    }

    /** The region walk. Its visited structures are a prefix of those that the SMBIOS collector visits, and
        its regions are the first 32 of the collector's whole visited list. */
    method CollectRegions(table: Option<seq<Byte>>) returns (ghost visited: seq<nat>)
      requires Valid() && regionCount == 0
      modifies `regionCount, regions
      ensures Valid()
      ensures table.None? || |table.value| < RAW_HEADER_SIZE ==> visited == [] && Regions() == []
      ensures table.Some? && RAW_HEADER_SIZE <= |table.value| ==>
                var t := TableBytes(table.value);
                var full := Walk(t, RAW_HEADER_SIZE).visited;
                && Visits(t, full, visited) && Regions() == RegionsOf(t, visited)
                && AllFit(t, full) && Regions() == Take(RegionsOf(t, full), MAX_REGIONS)
    {
      visited := [];
      if table.None? {
        return;
      }
      var raw := table.value;
      if |raw| < RAW_HEADER_SIZE {
        return;
      }
      var t := Table(raw);
      visited := WalkRegions(t);
    }

    /** One visited structure: its range, if it has one, is appended. */
    method AddRange(t: seq<Byte>, cur: nat, ghost offs: seq<nat>)
      requires Valid() && regionCount < MAX_REGIONS && IsStructure(t, cur)
      requires AllFit(t, offs) && Regions() == RegionsOf(t, offs)
      modifies `regionCount, regions
      ensures Valid() && AllFit(t, offs + [cur]) && Regions() == RegionsOf(t, offs + [cur])
    {
      hide RegionsOf, RangeOf, AllFit;
      var r := ReadRange(t, cur);
      RegionsAfter(t, offs, cur);
      if r.Some? {
        regions[regionCount] := r.value;
        regionCount := regionCount + 1;
      }
    }

    method WalkRegions(t: seq<Byte>) returns (ghost visited: seq<nat>)
      requires Valid() && regionCount == 0 && RAW_HEADER_SIZE <= |t|
      modifies `regionCount, regions
      ensures Valid()
      ensures var full := Walk(t, RAW_HEADER_SIZE).visited;
              && Visits(t, full, visited) && Regions() == RegionsOf(t, visited)
              && AllFit(t, full) && Regions() == Take(RegionsOf(t, full), MAX_REGIONS)
    {
      var cur := RAW_HEADER_SIZE;
      visited := [];
      ghost var w := Walk(t, cur);
      RemainingStart(t, cur);
      WalkFits(t, cur);
      hide RegionsOf, RangeOf, Walk, Remaining, AllFit, Next, Take, Regions, FewerBefore;
      NoRegions(t);
      while cur + 4 <= |t| && regionCount < MAX_REGIONS
        invariant cur <= |t| && Valid() && AllFit(t, visited)
        invariant Remaining(t, cur, visited, w) && Regions() == RegionsOf(t, visited)
        invariant FewerBefore(t, visited)
        decreases |t| - cur
      {
        var kind, hlen := t[cur], t[cur + 1];
        if hlen < 4 || cur + hlen > |t| {
          break;
        }
        if kind == END_OF_TABLE {
          break;
        }
        FewerBeforeNext(t, visited, cur);
        AddRange(t, cur, visited);
        var next := NextStructure(t, cur, hlen);
        RemainingStep(t, cur, visited, w);
        visited := visited + [cur];
        if next.None? || next.value <= cur {
          RegionsTaken(t, w.visited);
          return;
        }
        cur := next.value;
      }
      if regionCount < MAX_REGIONS {
        RemainingEnd(t, cur, visited, w);
      }
      FirstRegionsSuffice(t, cur, visited, w);
    }

    /** The whole result: the operating system's totals when it gives them, and the regions. */
    method Collect(memory: Option<MemoryStatus>, table: Option<seq<Byte>>) returns (ok: bool)
      requires Valid()
      modifies this, regions
      ensures Valid()
      ensures available == memory.Some? && (memory.Some? ==> status == memory.value)
      ensures ok <==> memory.Some? || Regions() != []
      ensures table.None? || |table.value| < RAW_HEADER_SIZE ==> Regions() == []
      ensures table.Some? && RAW_HEADER_SIZE <= |table.value| ==>
                var t := TableBytes(table.value);
                var full := Walk(t, RAW_HEADER_SIZE).visited;
                AllFit(t, full) && Regions() == Take(RegionsOf(t, full), MAX_REGIONS)
    {
      available, status, regionCount := false, MemoryStatus(0, 0, 0), 0;
      if memory.Some? {
        available, status := true, memory.value;
      }
      ghost var visited := CollectRegions(table);
      ok := available || regionCount > 0;
    }
  }

  lemma NoRegions(t: seq<Byte>)
    ensures AllFit(t, []) && RegionsOf(t, []) == [] && FewerBefore(t, [])
  {
  }

  lemma RegionsTaken(t: seq<Byte>, offs: seq<nat>)
    requires AllFit(t, offs) && |RegionsOf(t, offs)| <= MAX_REGIONS
    ensures Take(RegionsOf(t, offs), MAX_REGIONS) == RegionsOf(t, offs)
  {
  }
}
