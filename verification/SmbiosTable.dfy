/**
 SMBIOS structure table: the skip to the next structure, the string lookup and the walk, over the
 bytes `t` from the start of the buffer up to the end of the table. All positions are offsets in `t`.
 */
module SmbiosTable {
  import opened Wrappers
  import opened Bytes

  // ---------- Skipping to the next structure ----------

  ghost predicate NulPair(t: seq<Byte>, p: nat) {
    p + 1 < |t| && t[p] == 0 && t[p + 1] == 0
  }

  /** The least position at or after `start` that holds two NULs. */
  ghost function FirstNulPair(t: seq<Byte>, start: nat): (r: Option<nat>)
    requires start <= |t|
    ensures r.Some? ==> start <= r.value && NulPair(t, r.value)
    ensures r.Some? ==> forall p :: start <= p < r.value ==> !NulPair(t, p)
    ensures r.None? ==> forall p :: start <= p ==> !NulPair(t, p)
    decreases |t| - start
  {
    if start + 1 >= |t| then None
    else if NulPair(t, start) then Some(start)
    else FirstNulPair(t, start + 1)
  }

  /** Two past the least double NUL of the string area. Failing that, the table end, when one zero byte
      follows a formatted area whose own last byte is zero. Otherwise there is no next structure. */
  ghost function Next(t: seq<Byte>, cur: nat, hlen: nat): (r: Option<nat>)
    requires 0 < hlen && cur + hlen <= |t|
    ensures r.Some? ==> cur + hlen < r.value <= |t|
  {
    var start := cur + hlen;
    match FirstNulPair(t, start)
    case Some(p) => Some(p + 2)
    case None =>
      if start + 1 == |t| && t[start] == 0 && t[start - 1] == 0 then Some(|t|) else None
  }

  /** The whole meaning of a skip that lands on q: q is two past the least double NUL of the string area, or it
      is the table end, one zero byte past a formatted area that itself ends in zero. */
  lemma NextIsExact(t: seq<Byte>, cur: nat, hlen: nat, q: nat)
    requires 0 < hlen && cur + hlen <= |t|
    ensures var start := cur + hlen;
            Next(t, cur, hlen) == Some(q) <==>
            || (start + 2 <= q && NulPair(t, q - 2) && forall p :: start <= p < q - 2 ==> !NulPair(t, p))
            || (q == |t| == start + 1 && t[start] == 0 && t[start - 1] == 0)
  {
  }

  method NextStructure(t: seq<Byte>, cur: nat, hlen: nat) returns (r: Option<nat>)
    requires 0 < hlen && cur + hlen <= |t|
    ensures r == Next(t, cur, hlen)
  {
    var p := cur + hlen;
    while p + 1 < |t|
      invariant cur + hlen <= p <= |t|
      invariant p != cur + hlen ==> p < |t|
      invariant forall i :: cur + hlen <= i < p ==> !NulPair(t, i)
    {
      if t[p] == 0 && t[p + 1] == 0 {
        assert NulPair(t, p);
        return Some(p + 2);
      }
      p := p + 1;
    }
    assert p != cur + hlen ==> !NulPair(t, p - 1);
    assert FirstNulPair(t, cur + hlen).None?;
    if p + 1 == |t| && t[p] == 0 && t[p - 1] == 0 {
      return Some(|t|);
    }
    return None;
  }

  // ---------- String lookup ----------

  /** Where string number `k`, counted from 1, of the set at `p` starts. The set ends at the first empty
      or unterminated string; 0 and numbers past the set are "no string". */
  ghost function StringNumber(t: seq<Byte>, p: nat, k: nat): (r: Option<nat>)
    requires p <= |t|
    ensures r.Some? ==> p <= r.value < |t| && r.value < NulFrom(t, r.value) < |t|
    decreases k
  {
    var e := NulFrom(t, p);
    if k == 0 || e == |t| || e == p then None
    else if k == 1 then Some(p)
    else StringNumber(t, e + 1, k - 1)
  }

  ghost function Lookup(t: seq<Byte>, cur: nat, hlen: nat, index: nat): (r: Option<nat>)
    requires cur + hlen <= |t|
  {
    StringNumber(t, cur + hlen, index)
  }

  /** The lookup loop, with its 8-bit counter: the counter cannot wrap before the index is met. */
  method GetString(t: seq<Byte>, cur: nat, hlen: nat, index: Byte) returns (r: Option<nat>)
    requires cur + hlen <= |t|
    ensures r == Lookup(t, cur, hlen, index)
  {
    if index == 0 {
      return None;
    }
    var p := cur + hlen;
    var current: Byte := 1;
    while p < |t|
      invariant cur + hlen <= p <= |t|
      invariant 1 <= current <= index
      invariant StringNumber(t, p, index - current + 1) == Lookup(t, cur, hlen, index)
    {
      var e := NulFrom(t, p);
      if e == |t| {
        return None;
      }
      if e == p {
        return None;
      }
      if current == index {
        return Some(p);
      }
      p := e + 1;
      current := ToByte(current + 1);
    }
    return None;
  }

  /** Every string that a lookup can reach lies, terminator included, in [cur + hlen, q - 1) when the
      skip lands on q, although the lookup itself is bounded only by the table end. */
  lemma StringsStayInStructure(t: seq<Byte>, cur: nat, hlen: nat, index: nat)
    requires 0 < hlen && cur + hlen <= |t|
    requires Next(t, cur, hlen).Some? && Lookup(t, cur, hlen, index).Some?
    ensures var s := Lookup(t, cur, hlen, index).value;
            cur + hlen <= s < NulFrom(t, s) < Next(t, cur, hlen).value - 1
  {
    var start := cur + hlen;
    if FirstNulPair(t, start).Some? {
      StringBeforePair(t, start, FirstNulPair(t, start).value, index);
    }
  }

  lemma {:induction false} StringBeforePair(t: seq<Byte>, start: nat, p: nat, k: nat)
    requires start <= p + 1 && NulPair(t, p) && StringNumber(t, start, k).Some?
    ensures NulFrom(t, StringNumber(t, start, k).value) <= p
    decreases k
  {
    if start <= p {
      NulFromIsFirst(t, start, p);
      if k > 1 {
        StringBeforePair(t, NulFrom(t, start) + 1, p, k - 1);
      }
    }
  }

  /** Where the lookup stops: at the first empty or unterminated string. */
  ghost function StringsEnd(t: seq<Byte>, p: nat): (e: nat)
    requires p <= |t|
    ensures p <= e <= |t|
    decreases |t| - p
  {
    var e := NulFrom(t, p);
    if e == |t| || e == p then e else StringsEnd(t, e + 1)
  }

  /** The two rules agree: with a first string present, the skip lands one past the empty string that
      ends the lookup. They part exactly when the area opens with one NUL that is not doubled. */
  lemma SkipAgreesWithLookup(t: seq<Byte>, cur: nat, hlen: nat)
    requires 0 < hlen && cur + hlen < |t| && Next(t, cur, hlen).Some?
    ensures var start := cur + hlen;
            var q := Next(t, cur, hlen).value;
            && (t[start] != 0 ==> q == StringsEnd(t, start) + 1)
            && (t[start] == 0 ==> StringsEnd(t, start) == start && (q == start + 2 <==> NulPair(t, start)))
  {
    var start := cur + hlen;
    if t[start] != 0 {
      SkipFindsStringsEnd(t, start, FirstNulPair(t, start).value);
    } else {
      assert NulFrom(t, start) == start;
    }
  }

  /** They do part: a Type 1 structure whose string area is a lone NUL, a byte and two NULs. The lookup ends
      on the lone NUL, and the skip lands four bytes past it. */
  lemma SkipAndLookupPart()
    ensures var t := [1, 4, 0, 0, 0, 1, 0, 0];
            IsStructure(t, 0) && Next(t, 0, 4) == Some(8) && StringsEnd(t, 4) == 4
  {
    var t := [1, 4, 0, 0, 0, 1, 0, 0];
    assert !NulPair(t, 4) && !NulPair(t, 5) && NulPair(t, 6);
    assert NulFrom(t, 4) == 4;
    NextIsExact(t, 0, 4, 8);
  }

  lemma {:induction false} SkipFindsStringsEnd(t: seq<Byte>, start: nat, p: nat)
    requires start <= p && NulPair(t, p) && t[start] != 0
    requires forall i :: start <= i < p ==> !NulPair(t, i)
    ensures StringsEnd(t, start) == p + 1
    decreases |t| - start
  {
    NulFromIsFirst(t, start, p);
    var e := NulFrom(t, start);
    if e < p {
      assert !NulPair(t, e);
      SkipFindsStringsEnd(t, e + 1, p);
    } else {
      assert NulFrom(t, e + 1) == e + 1;
    }
  }

  // ---------- The walk ----------

  /** Why a walk stops. */
  datatype Stop = Exhausted | BadHeader | EndMarker | Unterminated

  datatype Visit = Visit(visited: seq<nat>, stop: Stop)

  const END_OF_TABLE: Byte := 127

  ghost predicate HeaderFits(t: seq<Byte>, cur: nat) {
    cur + 4 <= |t| && 4 <= t[cur + 1] && cur + t[cur + 1] <= |t|
  }

  /** A structure the walk accepts: its header fits and it is not the end-of-table marker. */
  ghost predicate IsStructure(t: seq<Byte>, cur: nat) {
    HeaderFits(t, cur) && t[cur] != END_OF_TABLE
  }

  /** The structures visited from `cur` on. A structure is visited before its string set is checked. */
  ghost function Walk(t: seq<Byte>, cur: nat): Visit
    requires cur <= |t|
    decreases |t| - cur
  {
    if cur + 4 > |t| then Visit([], Exhausted)
    else if !HeaderFits(t, cur) then Visit([], BadHeader)
    else if t[cur] == END_OF_TABLE then Visit([], EndMarker)
    else match Next(t, cur, t[cur + 1])
      case None => Visit([cur], Unterminated)
      case Some(q) => var rest := Walk(t, q); Visit([cur] + rest.visited, rest.stop)
  }

  /** What the list of visited offsets is: it starts at `cur`, each next one is where the skip from the
      one before lands, all are structures, and only the last of an unterminated walk has no successor. */
  lemma {:induction false} WalkFollowsNext(t: seq<Byte>, cur: nat)
    requires cur <= |t|
    ensures var w := Walk(t, cur);
            && (w.visited != [] ==> w.visited[0] == cur)
            && (forall i :: 0 <= i < |w.visited| ==> IsStructure(t, w.visited[i]))
            && (forall i :: 0 <= i < |w.visited| - 1 ==>
                  Next(t, w.visited[i], t[w.visited[i] + 1]) == Some(w.visited[i + 1]))
            && (w.stop.Unterminated? <==>
                  w.visited != [] && var last := w.visited[|w.visited| - 1]; Next(t, last, t[last + 1]).None?)
    decreases |t| - cur
  {
    hide Next;
    if IsStructure(t, cur) && Next(t, cur, t[cur + 1]).Some? {
      var q := Next(t, cur, t[cur + 1]).value;
      WalkFollowsNext(t, q);
      var w, rest := Walk(t, cur).visited, Walk(t, q).visited;
      forall i | 0 <= i < |w|
        ensures IsStructure(t, w[i])
        ensures i < |w| - 1 ==> Next(t, w[i], t[w[i] + 1]) == Some(w[i + 1])
      {
        if i > 0 {
          assert w[i] == rest[i - 1];
        }
      }
    }
  }

  /** Where the walk stops, and why: at `p`, right behind the last structure it visits, fewer than four bytes are
      left, the header claims less than itself or more than there is, or a structure of type 127 begins. */
  lemma {:induction false} WalkStopsBecause(t: seq<Byte>, cur: nat, p: nat)
    requires cur <= |t|
    requires var w := Walk(t, cur).visited;
             if w == [] then p == cur else var last := w[|w| - 1]; IsStructure(t, last) && Next(t, last, t[last + 1]) == Some(p)
    ensures p <= |t|
    ensures Walk(t, cur).stop ==
            if |t| < p + 4 then Exhausted
            else if t[p + 1] < 4 || |t| < p + t[p + 1] then BadHeader else EndMarker
    ensures Walk(t, cur).stop.EndMarker? ==> t[p] == 127
    decreases |t| - cur
  {
    hide Next;
    WalkFollowsNext(t, cur);
    if IsStructure(t, cur) && Next(t, cur, t[cur + 1]).Some? {
      var q := Next(t, cur, t[cur + 1]).value;
      var w, rest := Walk(t, cur).visited, Walk(t, q).visited;
      assert rest != [] ==> w[|w| - 1] == rest[|rest| - 1];
      WalkStopsBecause(t, q, p);
    }
  }

  /** Each structure but the last takes at least six bytes, and the last at least its header's four. */
  lemma {:induction false} WalkIsBounded(t: seq<Byte>, cur: nat)
    requires cur <= |t|
    ensures 6 * |Walk(t, cur).visited| <= |t| - cur + 2
    decreases |t| - cur
  {
    if IsStructure(t, cur) && Next(t, cur, t[cur + 1]).Some? {
      WalkIsBounded(t, Next(t, cur, t[cur + 1]).value);
    }
  }

  /** A structure that stands at the end of the table without a string area is visited, and it is also where
      the walk finds the table malformed. */
  lemma LastIsVisitedAndMalformed()
    ensures Walk([1, 4, 0, 0], 0) == Visit([0], Unterminated)
  {
    assert FirstNulPair([1, 4, 0, 0], 4).None?;
  }

  /** With `offs` visited and the walk at `cur`, the whole walk is `w`. */
  ghost predicate Remaining(t: seq<Byte>, cur: nat, offs: seq<nat>, w: Visit) {
    cur <= |t| && w == Visit(offs + Walk(t, cur).visited, Walk(t, cur).stop)
  }

  lemma RemainingStart(t: seq<Byte>, cur: nat)
    requires cur <= |t|
    ensures Remaining(t, cur, [], Walk(t, cur))
  {
    assert [] + Walk(t, cur).visited == Walk(t, cur).visited;
  }

  lemma RemainingStep(t: seq<Byte>, cur: nat, offs: seq<nat>, w: Visit)
    requires Remaining(t, cur, offs, w) && IsStructure(t, cur)
    ensures var next := Next(t, cur, t[cur + 1]);
            if next.Some? then Remaining(t, next.value, offs + [cur], w) else w == Visit(offs + [cur], Unterminated)
  {
    hide Next;
    var next := Next(t, cur, t[cur + 1]);
    if next.Some? {
      assert offs + ([cur] + Walk(t, next.value).visited) == (offs + [cur]) + Walk(t, next.value).visited;
    }
  }

  lemma RemainingEnd(t: seq<Byte>, cur: nat, offs: seq<nat>, w: Visit)
    requires Remaining(t, cur, offs, w) && !IsStructure(t, cur)
    ensures w.visited == offs
    ensures w.stop == if cur + 4 > |t| then Exhausted else if !HeaderFits(t, cur) then BadHeader else EndMarker
  {
    assert offs + [] == offs;
  }

  // ---------- The table inside the raw buffer ----------

  const RAW_HEADER_SIZE := 8

  /** The bytes up to the end of the table: the length the header claims, cut to what was received. */
  ghost function TableBytes(raw: seq<Byte>): (t: seq<Byte>)
    requires RAW_HEADER_SIZE <= |raw|
    ensures RAW_HEADER_SIZE <= |t| && t <= raw
  {
    Take(raw, RAW_HEADER_SIZE + Le32(raw, 4))
  }

  /** The table is what follows the header's eight bytes: as many bytes as the length says, or all there are. */
  lemma TableIsCut(header: seq<Byte>, claimed: nat, data: seq<Byte>)
    requires |header| == 4 && claimed < 0x1_0000_0000
    ensures var raw := header + LeBytes(claimed, 4) + data;
            TableBytes(raw) == header + LeBytes(claimed, 4) + if claimed <= |data| then data[..claimed] else data
  {
    var raw := header + LeBytes(claimed, 4) + data;
    assert raw[4..8] == LeBytes(claimed, 4);
    WordReadsBack(claimed);
  }

  method Table(raw: seq<Byte>) returns (t: seq<Byte>)
    requires RAW_HEADER_SIZE <= |raw|
    ensures t == TableBytes(raw)
  {
    var len := Le32(raw, 4);
    if RAW_HEADER_SIZE + len > |raw| {
      len := |raw| - RAW_HEADER_SIZE;
    }
    t := raw[..RAW_HEADER_SIZE + len];
  }
}
