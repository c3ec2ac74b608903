/**
 The PCI class code of a device, from its list of compatible IDs ("PCI\CC_030000", "PCI\CC_0300", ...): the
 most specific ID is selected and its hexadecimal digits are taken apart.
 */
module ClassCode {
  import opened Wrappers
  import opened Bytes

  /** "CC_" */
  const MARK: seq<Byte> := [0x43, 0x43, 0x5F]

  // ---------- One ID ----------

  predicate MarkAt(s: seq<Byte>, i: nat) {
    i + 3 <= |s| && s[i] == MARK[0] && s[i + 1] == MARK[1] && s[i + 2] == MARK[2]
  }

  /** `strstr`, inside one string. */
  function FindMark(s: seq<Byte>, i: nat): (r: Option<nat>)
    requires i <= |s|
    ensures r.Some? ==> i <= r.value && MarkAt(s, r.value)
    ensures forall j :: i <= j < (if r.Some? then r.value else |s|) ==> !MarkAt(s, j)
    decreases |s| - i
  {
    if i == |s| then None else if MarkAt(s, i) then Some(i) else FindMark(s, i + 1)
  }

  /** The leading hexadecimal digits, at most `n` of them. */
  function HexPrefix(s: seq<Byte>, n: nat): (r: seq<Byte>)
    ensures r <= s && |r| <= n && forall i :: 0 <= i < |r| ==> IsHex(r[i])
    ensures |r| < n && |r| < |s| ==> !IsHex(s[|r|])
  {
    if n == 0 || s == [] || !IsHex(s[0]) then [] else [s[0]] + HexPrefix(s[1..], n - 1)
  }

  /** The digits of an ID: those after its first mark, provided that the mark starts in its first `visible`
      bytes. */
  function RunIn(s: seq<Byte>, visible: nat): (r: seq<Byte>)
    ensures |r| <= 6
  {
    match FindMark(s, 0)
    case None => []
    case Some(c) => if c < visible then HexPrefix(s[c + 3..], 6) else []
  }

  // ---------- The list ----------

  /** The digits of every ID of the list, in order. The list ends at an empty string or at `end`. */
  function Runs(buf: seq<Byte>, end: nat, p: nat): seq<seq<Byte>>
    requires end <= |buf|
    decreases |buf| - p
  {
    if end <= p || buf[p] == 0 then []
    else
      var e := NulFrom(buf[..end], p);
      [RunIn(CString(buf, p), e - p)] + Runs(buf, end, e + 1)
  }

  /** What `strstr` needs: every string that the walk looks into has a terminator somewhere in the memory. */
  predicate Terminated(buf: seq<Byte>, end: nat, p: nat)
    requires end <= |buf|
    decreases |buf| - p
  {
    p < end && buf[p] != 0 ==> NulFrom(buf, p) < |buf| && Terminated(buf, end, NulFrom(buf[..end], p) + 1)
  }

  /** The digits that win: a later ID replaces an earlier one only by having more of them, two at least. */
  function Longest(runs: seq<seq<Byte>>): seq<Byte> {
    if runs == [] then []
    else
      var best, last := Longest(runs[..|runs| - 1]), runs[|runs| - 1];
      if 2 <= |last| && |best| < |last| then last else best
  }

  ghost predicate FirstLongest(runs: seq<seq<Byte>>, k: nat) {
    && k < |runs| && 2 <= |runs[k]|
    && (forall j :: 0 <= j < |runs| ==> |runs[j]| <= |runs[k]|)
    && (forall j :: 0 <= j < k ==> |runs[j]| < |runs[k]|)
  }

  /** `Longest` is the first of the longest runs, or nothing exactly when no run has two digits. */
  lemma {:induction false} LongestIsFirst(runs: seq<seq<Byte>>)
    ensures Longest(runs) == [] <==> forall j :: 0 <= j < |runs| ==> |runs[j]| < 2
    ensures Longest(runs) != [] ==> exists k: nat :: FirstLongest(runs, k) && runs[k] == Longest(runs)
  {
    if runs != [] {
      var n := |runs| - 1;
      var init := runs[..n];
      LongestIsFirst(init);
      assert forall j :: 0 <= j < n ==> init[j] == runs[j];
      if Longest(init) == [] {
        assert 2 <= |runs[n]| ==> FirstLongest(runs, n);
      } else {
        hide Longest;
        var k: nat :| FirstLongest(init, k) && init[k] == Longest(init);
        assert FirstLongest(runs, if |init[k]| < |runs[n]| then n else k);
      }
    }
  }

  // ---------- Digits and values ----------

  /** The byte that two digits of a run spell. */
  function Pair(s: seq<Byte>, i: nat): (r: Byte)
    requires i + 2 <= |s|
  {
    16 * Digit(s[i]) + Digit(s[i + 1])
  }

  /** A shift to the right by `n` hexadecimal digits. */
  function ShiftRight(v: nat, n: nat): nat {
    if n == 0 then v else ShiftRight(v / 16, n - 1)
  }

  /** Shifting out the digits from position `i` on leaves the value of the ones before. */
  lemma {:induction false} ShiftDropsDigits(s: seq<Byte>, i: nat)
    requires i <= |s|
    ensures ShiftRight(HexValue(s), |s| - i) == HexValue(s[..i])
    decreases |s| - i
  {
    if i == |s| {
      assert s[..i] == s;
    } else {
      var init := s[..|s| - 1];
      ShiftDropsDigits(init, i);
      assert init[..i] == s[..i];
    }
  }

  /** The shift and the mask that the extraction uses give the pair of digits at position `i`, whatever the
      number of digits. */
  lemma PairIsShiftedByte(s: seq<Byte>, i: nat)
    requires i + 2 <= |s|
    ensures ToByte(ShiftRight(HexValue(s), |s| - (i + 2))) == Pair(s, i)
  {
    hide ShiftRight;
    ShiftDropsDigits(s, i + 2);
    LastPair(s[..i + 2]);
  }

  lemma LastPair(t: seq<Byte>)
    requires 2 <= |t|
    ensures ToByte(HexValue(t)) == Pair(t, |t| - 2)
  {
    hide Pow16, Digit;
    var n := |t| - 1;
    assert HexValue(t[..n]) == 16 * HexValue(t[..n][..n - 1]) + Digit(t[n - 1]);
    LowByte(HexValue(t), HexValue(t[..n][..n - 1]), Pair(t, n - 1));
  }

  lemma LowByte(x: nat, high: nat, low: Byte)
    requires x == 256 * high + low
    ensures ToByte(x) == low
  {
  }

  // ---------- The extraction ----------

  datatype ClassInfo = ClassInfo(classCode: Byte, subclass: Byte, progIf: Byte, available: bool)

  /** The device after the winning digits are known: one field for each complete pair. */
  function Classified(run: seq<Byte>, info: ClassInfo): ClassInfo {
    if |run| < 2 then info
    else ClassInfo(Pair(run, 0),
                   if |run| < 4 then info.subclass else Pair(run, 2),
                   if |run| < 6 then info.progIf else Pair(run, 4),
                   true)
  }

  class PciDevice {
    var classCode: Byte
    var subclass: Byte
    var progIf: Byte
    var available: bool

    constructor ()
      ensures Info() == ClassInfo(0, 0, 0, false)
    {
      classCode, subclass, progIf, available := 0, 0, 0, false;
    }

    function Info(): ClassInfo
      reads this
    {
      ClassInfo(classCode, subclass, progIf, available)
    }

    method ExtractClassCode(buf: seq<Byte>, end: nat) returns (ok: bool)
      requires end <= |buf| && Terminated(buf, end, 0)
      modifies this
      ensures ok <==> Longest(Runs(buf, end, 0)) != []
      ensures Info() == Classified(Longest(Runs(buf, end, 0)), old(Info()))
    {
      hide RunIn, HexValue, Classified, NulFrom, Runs;
      var p, bestDigits, bestValue := 0, 0, 0;
      ghost var done: seq<seq<Byte>> := [];
      NoDigits();
      while p < end && buf[p] != 0
        invariant Terminated(buf, end, p)
        invariant Runs(buf, end, 0) == done + Runs(buf, end, p)
        invariant bestDigits == |Longest(done)| <= 6 && bestValue == HexValue(Longest(done))
        invariant bestDigits == 0 || 2 <= bestDigits
        invariant Info() == old(Info())
        decreases |buf| - p
      {
        var slen := NulFrom(buf[..end], p) - p;
        ghost var run := RunIn(CString(buf, p), slen);
        RunsAdvance(buf, end, p, done);
        var n, v := ReadDigits(buf, p, slen);
        if n >= 2 && n > bestDigits {
          bestDigits, bestValue := n, v;
        }
        assert (done + [run])[..|done|] == done;
        done := done + [run];
        p := p + slen + 1;
      }
      RunsAreDone(buf, end, p, done);
      ok := Store(bestDigits, bestValue, Longest(done));
    }

    /** What is done with the winning digits. */
    method Store(bestDigits: nat, bestValue: nat, ghost best: seq<Byte>) returns (ok: bool)
      requires bestDigits == |best| <= 6 && bestValue == HexValue(best) && (best == [] || 2 <= |best|)
      modifies this
      ensures ok <==> best != []
      ensures Info() == Classified(best, old(Info()))
    {
      hide HexValue, Pair, ShiftRight, ToByte;
      if bestDigits >= 2 {
        PairIsShiftedByte(best, 0);
        classCode := ToByte(ShiftRight(bestValue, bestDigits - 2));
        if bestDigits >= 4 {
          PairIsShiftedByte(best, 2);
          subclass := ToByte(ShiftRight(bestValue, bestDigits - 4));
        }
        if bestDigits >= 6 {
          LastPair(best);
          progIf := ToByte(bestValue);
        }
        available := true;
      }
      ok := bestDigits >= 2;
    }

    /** One string of the list: how many digits follow its first mark, and their value. */
    static method ReadDigits(buf: seq<Byte>, p: nat, slen: nat) returns (n: nat, v: nat)
      requires p <= |buf| && NulFrom(buf, p) < |buf|
      ensures n == |RunIn(CString(buf, p), slen)| && v == HexValue(RunIn(CString(buf, p), slen))
    {
      hide HexPrefix, HexValue;
      n, v := 0, 0;
      NoDigits();
      var s := CString(buf, p);
      var cc := FindMark(s, 0);
      if cc.Some? && cc.value < slen {
        var digits := p + cc.value + 3;
        assert s[cc.value + 3..] == buf[digits..NulFrom(buf, p)];
        n := CountDigits(buf, digits, NulFrom(buf, p));
        v := HexValue(buf[digits..digits + n]);
      }
    }

    static method CountDigits(buf: seq<Byte>, digits: nat, ghost nul: nat) returns (n: nat)
      requires digits <= nul < |buf| && buf[nul] == 0
      ensures digits + n <= nul && buf[digits..digits + n] == HexPrefix(buf[digits..nul], 6)
    {
      n := 0;
      while n < 6 && IsHex(buf[digits + n])
        invariant n <= 6 && digits + n <= nul
        invariant forall i :: digits <= i < digits + n ==> IsHex(buf[i])
      {
        n := n + 1;
      }
      HexPrefixIs(buf[digits..nul], 6, buf[digits..digits + n]);
    }
  }

  lemma RunsAdvance(buf: seq<Byte>, end: nat, p: nat, done: seq<seq<Byte>>)
    requires p < end <= |buf| && buf[p] != 0
    ensures var e := NulFrom(buf[..end], p);
            done + Runs(buf, end, p) == (done + [RunIn(CString(buf, p), e - p)]) + Runs(buf, end, e + 1)
  {
    hide RunIn;
  }

  lemma RunsAreDone(buf: seq<Byte>, end: nat, p: nat, done: seq<seq<Byte>>)
    requires end <= |buf| && (end <= p || buf[p] == 0)
    ensures done + Runs(buf, end, p) == done
  {
  }

  lemma NoDigits()
    ensures HexValue([]) == 0
  {
  }

  lemma HexPrefixIs(s: seq<Byte>, n: nat, r: seq<Byte>)
    requires r <= s && |r| <= n && forall i :: 0 <= i < |r| ==> IsHex(r[i])
    requires |r| < n && |r| < |s| ==> !IsHex(s[|r|])
    ensures HexPrefix(s, n) == r
  {
    var h := HexPrefix(s, n);
    forall i | 0 <= i < |r|
      ensures IsHex(s[i])
    {
      assert s[i] == r[i];
    }
    forall i | 0 <= i < |h|
      ensures IsHex(s[i])
    {
      assert s[i] == h[i];
    }
    assert h == s[..|h|] && r == s[..|r|];
  }

  // ---------- Printing a list and reading it back ----------

  /** A list of IDs as the registry stores it: each with its terminator, and an empty string at the end. */
  function MultiSz(ids: seq<seq<Byte>>): seq<Byte> {
    if ids == [] then [0] else ids[0] + [0] + MultiSz(ids[1..])
  }

  function RunsOf(ids: seq<seq<Byte>>): (r: seq<seq<Byte>>)
    ensures |r| == |ids|
    ensures forall i :: 0 <= i < |ids| ==> r[i] == RunIn(ids[i], |ids[i]|)
  {
    if ids == [] then [] else [RunIn(ids[0], |ids[0]|)] + RunsOf(ids[1..])
  }

  ghost predicate AreIds(ids: seq<seq<Byte>>) {
    forall i :: 0 <= i < |ids| ==> ids[i] != [] && 0 !in ids[i]
  }

  /** The walk finds exactly the IDs of a well-formed list, whatever stands after it in memory, and its
      terminators are where the walk needs them. */
  lemma {:induction false} ListReadsBack(before: seq<Byte>, ids: seq<seq<Byte>>, after: seq<Byte>)
    requires AreIds(ids)
    ensures var list := before + MultiSz(ids);
            Terminated(list + after, |list|, |before|) && Runs(list + after, |list|, |before|) == RunsOf(ids)
    decreases |ids|
  {
    hide NulFrom, CString, RunIn;
    if ids == [] {
      assert (before + [0] + after)[|before|] == 0;
    } else {
      FirstIdReadsBack(before, ids[0], MultiSz(ids[1..]), after);
      assert AreIds(ids[1..]);
      ListReadsBack(before + ids[0] + [0], ids[1..], after);
    }
  }

  lemma FirstIdReadsBack(before: seq<Byte>, id: seq<Byte>, rest: seq<Byte>, after: seq<Byte>)
    requires id != [] && 0 !in id
    ensures var list, p := before + (id + [0] + rest), |before|;
            var buf := list + after;
            && list == before + id + [0] + rest && buf[..|list|] == list && buf[p] != 0
            && NulFrom(list, p) == NulFrom(buf, p) == p + |id| && CString(buf, p) == id
  {
    var list, p := before + (id + [0] + rest), |before|;
    var buf := list + after;
    assert buf[p] == id[0] && id[0] in id;
    assert list[p..p + |id|] == id && list[p + |id|] == 0;
    assert buf[p..p + |id|] == id && buf[p + |id|] == 0;
    CStringIs(list, p, id);
    CStringIs(buf, p, id);
  }

  /** A list that is cut inside a string: its mark counts if it starts before the cut. */
  lemma CutListReadsBack(id: seq<Byte>, end: nat)
    requires 0 !in id && 0 < end <= |id|
    ensures Terminated(id + [0], end, 0)
    ensures Runs(id + [0], end, 0) ==
            match FindMark(id, 0)
            case None => [[]]
            case Some(c) => [if c < end then HexPrefix(id[c + 3..], 6) else []]
  {
    var buf := id + [0];
    assert buf[0] == id[0] && id[0] in id;
    assert buf[0..|id|] == id;
    CStringIs(buf, 0, id);
    assert NulFrom(buf[..end], 0) == end by {
      assert forall i :: 0 <= i < end ==> buf[..end][i] == id[i] && id[i] in id;
    }
  }

  /** A class triple, as six digits. */
  function PrintClass(c: Byte, s: Byte, p: Byte): (r: seq<Byte>)
    ensures |r| == 6
  {
    [HexChar(c / 16), HexChar(c % 16), HexChar(s / 16), HexChar(s % 16), HexChar(p / 16), HexChar(p % 16)]
  }

  /** A device whose list holds an ID with `n` digits of a printed class triple, none being more specific and
      none before it as specific, gets what the complete pairs among these digits say and keeps the rest,
      whatever else the list holds and whatever stands after it. */
  lemma ClassReadsBack(
    ids: seq<seq<Byte>>, after: seq<Byte>, k: nat, prefix: seq<Byte>, suffix: seq<Byte>, n: nat,
    c: Byte, s: Byte, p: Byte, info: ClassInfo)
    requires AreIds(ids) && k < |ids| && 2 <= n <= 6
    requires ids[k] == prefix + Ascii("CC_") + PrintClass(c, s, p)[..n] + suffix
    requires n < 6 && suffix != [] ==> !IsHex(suffix[0])
    requires forall j :: 0 <= j < |prefix| ==> !SaysMark(ids[k], j)
    requires forall j :: 0 <= j < |ids| ==> |RunIn(ids[j], |ids[j]|)| <= if j < k then n - 1 else n
    ensures var end := |MultiSz(ids)|;
            var buf := MultiSz(ids) + after;
            && Terminated(buf, end, 0)
            && Classified(Longest(Runs(buf, end, 0)), info) ==
               ClassInfo(c, if n < 4 then info.subclass else s, if n < 6 then info.progIf else p, true)
  {
    hide RunIn, Pair, Terminated, Runs, MultiSz, AreIds, Longest, PrintClass, HexPrefix;
    assert [] + MultiSz(ids) == MultiSz(ids);
    ListReadsBack([], ids, after);
    PairsArePrinted(c, s, p);
    RunIsPrinted(ids[k], prefix, PrintClass(c, s, p)[..n], suffix);
    LongRunWins(RunsOf(ids), k, n);
    SamePairs(PrintClass(c, s, p), n);
  }

  lemma SamePairs(run: seq<Byte>, n: nat)
    requires |run| == 6 && 2 <= n <= 6
    ensures Pair(run[..n], 0) == Pair(run, 0)
    ensures 4 <= n ==> Pair(run[..n], 2) == Pair(run, 2)
    ensures 6 <= n ==> Pair(run[..n], 4) == Pair(run, 4)
  {
  }

  /** A list without two digits behind any mark leaves the device alone. */
  lemma NoClassKeepsDevice(ids: seq<seq<Byte>>, after: seq<Byte>, info: ClassInfo)
    requires AreIds(ids) && forall j :: 0 <= j < |ids| ==> |RunIn(ids[j], |ids[j]|)| < 2
    ensures var end := |MultiSz(ids)|;
            var buf := MultiSz(ids) + after;
            Terminated(buf, end, 0) && Classified(Longest(Runs(buf, end, 0)), info) == info
  {
    hide RunIn, Terminated, Runs, MultiSz, AreIds, Longest;
    assert [] + MultiSz(ids) == MultiSz(ids);
    ListReadsBack([], ids, after);
    LongestIsFirst(RunsOf(ids));
  }

  lemma RunIsPrinted(id: seq<Byte>, prefix: seq<Byte>, digits: seq<Byte>, suffix: seq<Byte>)
    requires id == prefix + Ascii("CC_") + digits + suffix && |digits| <= 6
    requires forall i :: 0 <= i < |digits| ==> IsHex(digits[i])
    requires |digits| < 6 && suffix != [] ==> !IsHex(suffix[0])
    requires forall j :: 0 <= j < |prefix| ==> !SaysMark(id, j)
    ensures RunIn(id, |id|) == digits
  {
    hide HexPrefix, FindMark;
    MarkStands(id, prefix, digits + suffix);
    var tail := id[|prefix| + 3..];
    assert tail == digits + suffix;
    HexPrefixIs(tail, 6, digits);
  }

  lemma MarkStands(id: seq<Byte>, prefix: seq<Byte>, rest: seq<Byte>)
    requires id == prefix + Ascii("CC_") + rest
    requires forall j :: 0 <= j < |prefix| ==> !SaysMark(id, j)
    ensures FindMark(id, 0) == Some(|prefix|)
  {
    hide FindMark;
    var at := |prefix|;
    assert id[at..at + 3] == Ascii("CC_");
    MarkIsText(id, at);
    forall j: nat | j < at
      ensures !MarkAt(id, j)
    {
      MarkIsText(id, j);
    }
  }

  ghost predicate SaysMark(id: seq<Byte>, j: nat) {
    j + 3 <= |id| && id[j..j + 3] == Ascii("CC_")
  }

  lemma MarkIsText(id: seq<Byte>, j: nat)
    ensures MarkAt(id, j) <==> SaysMark(id, j)
  {
    var text := Ascii("CC_");
    assert text == [MARK[0], MARK[1], MARK[2]];
    assert j + 3 <= |id| ==> id[j..j + 3] == [id[j], id[j + 1], id[j + 2]];
  }

  lemma LongRunWins(runs: seq<seq<Byte>>, k: nat, n: nat)
    requires k < |runs| && |runs[k]| == n && 2 <= n
    requires forall j :: 0 <= j < |runs| ==> |runs[j]| <= if j < k then n - 1 else n
    ensures Longest(runs) == runs[k]
  {
    LongestIsFirst(runs);
    var w: nat :| FirstLongest(runs, w) && runs[w] == Longest(runs);
    assert |runs[k]| <= |runs[w]|;
  }

  lemma PairsArePrinted(c: Byte, s: Byte, p: Byte)
    ensures var r := PrintClass(c, s, p);
            && Pair(r, 0) == c && Pair(r, 2) == s && Pair(r, 4) == p
            && forall i :: 0 <= i < 6 ==> IsHex(r[i])
  {
  }
}
