/**
 The layout that DMTF DSP0134 gives a structure (sections 6.1.2 and 6.1.3), as an encoder, and the
 round trips between it and the walk, the skip and the string lookup.
 */
module SmbiosEncoding {
  import opened Wrappers
  import opened Bytes
  import opened SmbiosTable

  /** A structure as it is meant: its type, the formatted area past the two header bytes, its strings. */
  datatype Structure = Structure(kind: Byte, body: seq<Byte>, strings: seq<seq<Byte>>)
  {
    ghost predicate Valid() {
      kind != END_OF_TABLE && 2 <= |body| <= 253 && ValidStrings(strings)
    }

    ghost function FormattedLen(): nat { 2 + |body| }
  }

  ghost predicate ValidStrings(ss: seq<seq<Byte>>) {
    forall i :: 0 <= i < |ss| ==> ss[i] != [] && 0 !in ss[i]
  }

  /** Each string with its terminator, then the empty string that closes the set. */
  ghost function EncodeStrings(ss: seq<seq<Byte>>): (e: seq<Byte>)
    ensures |e| > 0 && e[|e| - 1] == 0
    ensures ss != [] ==> |e| > 1 && e[|e| - 2] == 0
  {
    if ss == [] then [0] else ss[0] + [0] + EncodeStrings(ss[1..])
  }

  ghost function EncodeSet(ss: seq<seq<Byte>>): seq<Byte> {
    if ss == [] then [0, 0] else EncodeStrings(ss)
  }

  ghost function Encode(s: Structure): seq<Byte>
    requires s.Valid()
  {
    [s.kind, s.FormattedLen()] + s.body + EncodeSet(s.strings)
  }

  ghost predicate AllValid(ss: seq<Structure>) {
    forall i :: 0 <= i < |ss| ==> ss[i].Valid()
  }

  ghost function EncodeAll(ss: seq<Structure>): seq<Byte>
    requires AllValid(ss)
  {
    if ss == [] then [] else Encode(ss[0]) + EncodeAll(ss[1..])
  }

  /** Where each structure starts when the table starts at `base`. */
  ghost function Offsets(ss: seq<Structure>, base: nat): (r: seq<nat>)
    requires AllValid(ss)
    ensures |r| == |ss|
  {
    if ss == [] then [] else [base] + Offsets(ss[1..], base + |Encode(ss[0])|)
  }

  /** The bytes `s` stand in `t` at `p`. */
  ghost predicate At(t: seq<Byte>, p: nat, s: seq<Byte>)
    decreases |s|
  {
    p + |s| <= |t| && (s == [] || (t[p] == s[0] && At(t, p + 1, s[1..])))
  }

  lemma {:induction false} AtSplit(t: seq<Byte>, p: nat, a: seq<Byte>, b: seq<Byte>)
    requires At(t, p, a + b)
    ensures At(t, p, a) && At(t, p + |a|, b)
    decreases |a|
  {
    if a == [] {
      assert a + b == b;
    } else {
      assert (a + b)[1..] == a[1..] + b;
      AtSplit(t, p + 1, a[1..], b);
    }
  }

  lemma {:induction false} AtByte(t: seq<Byte>, p: nat, s: seq<Byte>, i: nat)
    requires At(t, p, s) && i < |s|
    ensures t[p + i] == s[i]
    decreases i
  {
    if i > 0 {
      AtByte(t, p + 1, s[1..], i - 1);
    }
  }

  lemma {:induction false} AtIsSlice(t: seq<Byte>, p: nat, s: seq<Byte>)
    ensures At(t, p, s) <==> p + |s| <= |t| && t[p..p + |s|] == s
    decreases |s|
  {
    if s != [] && p + |s| <= |t| {
      AtIsSlice(t, p + 1, s[1..]);
      assert t[p + 1..p + |s|] == t[p..p + |s|][1..];
      assert s == [s[0]] + s[1..];
    }
  }

  /** The first string of an encoded set. */
  lemma FirstStringAt(t: seq<Byte>, p: nat, s: seq<Byte>, rest: seq<Byte>)
    requires s != [] && 0 !in s && At(t, p, s + [0] + rest)
    ensures p + |s| < |t| && NulFrom(t, p) == p + |s| && CString(t, p) == s && At(t, p + |s| + 1, rest)
  {
    AtSplit(t, p, s + [0], rest);
    AtByte(t, p, s + [0], |s|);
    AtSplit(t, p, s, [0]);
    AtIsSlice(t, p, s);
    CStringIs(t, p, s);
  }

  /** An encoded string set is read back string by string, and its lookup ends on the closing NUL. */
  lemma {:induction false} StringsReadBack(t: seq<Byte>, p: nat, ss: seq<seq<Byte>>)
    requires ValidStrings(ss) && At(t, p, EncodeStrings(ss))
    ensures StringsAt(t, p) == ss
    ensures StringsEnd(t, p) == p + |EncodeStrings(ss)| - 1
    decreases |ss|
  {
    if ss != [] {
      FirstStringAt(t, p, ss[0], EncodeStrings(ss[1..]));
      StringsReadBack(t, p + |ss[0]| + 1, ss[1..]);
      assert ss == [ss[0]] + ss[1..];
    }
  }

  lemma SetReadsBack(t: seq<Byte>, p: nat, ss: seq<seq<Byte>>)
    requires ValidStrings(ss) && At(t, p, EncodeSet(ss))
    ensures StringsAt(t, p) == ss
  {
    if ss != [] {
      StringsReadBack(t, p, ss);
    }
  }

  lemma SkipsEncodedSet(t: seq<Byte>, cur: nat, hlen: nat, ss: seq<seq<Byte>>)
    requires 0 < hlen && ValidStrings(ss) && At(t, cur + hlen, EncodeSet(ss))
    ensures Next(t, cur, hlen) == Some(cur + hlen + |EncodeSet(ss)|)
  {
    var start, e := cur + hlen, EncodeSet(ss);
    AtByte(t, start, e, |e| - 1);
    AtByte(t, start, e, |e| - 2);
    assert NulPair(t, start + |e| - 2);
    SkipAgreesWithLookup(t, cur, hlen);
    if ss != [] {
      FirstStringAt(t, start, ss[0], EncodeStrings(ss[1..]));
      StringsReadBack(t, start, ss);
    }
  }

  /** One structure is visited with its own type and formatted area, and its successor is found. */
  lemma StructureReadsBack(t: seq<Byte>, cur: nat, s: Structure)
    requires s.Valid() && At(t, cur, Encode(s))
    ensures IsStructure(t, cur) && t[cur] == s.kind && t[cur + 1] == s.FormattedLen()
    ensures At(t, cur + 2, s.body)
    ensures At(t, cur + t[cur + 1], EncodeSet(s.strings))
    ensures Next(t, cur, t[cur + 1]) == Some(cur + |Encode(s)|)
  {
    var header: seq<Byte> := [s.kind, s.FormattedLen()];
    AtSplit(t, cur, header + s.body, EncodeSet(s.strings));
    AtSplit(t, cur, header, s.body);
    AtByte(t, cur, header, 0);
    AtByte(t, cur, header, 1);
    SkipsEncodedSet(t, cur, s.FormattedLen(), s.strings);
  }

  /** In an encoded structure, index i finds the i-th string for 1 <= i <= min(n, 255), and nothing else. */
  lemma LookupReadsBack(t: seq<Byte>, cur: nat, s: Structure, i: Byte)
    requires s.Valid() && At(t, cur, Encode(s)) && cur + s.FormattedLen() <= |t|
    ensures var r := Lookup(t, cur, s.FormattedLen(), i);
            if 1 <= i <= |s.strings| then r.Some? && CString(t, r.value) == s.strings[i - 1] else r.None?
  {
    hide Encode, EncodeStrings, StringsAt, StringNumber;
    StructureReadsBack(t, cur, s);
    var start := cur + s.FormattedLen();
    SetReadsBack(t, start, s.strings);
    StringNumberIsString(t, start, i);
  }

  /** From `cur`, the skip visits exactly `offs` and then lands on `n`. */
  ghost predicate Chain(t: seq<Byte>, cur: nat, offs: seq<nat>, n: nat)
    decreases |offs|
  {
    if offs == [] then cur == n
    else
      && offs[0] == cur && IsStructure(t, cur) && Next(t, cur, t[cur + 1]).Some?
      && Chain(t, Next(t, cur, t[cur + 1]).value, offs[1..], n)
  }

  lemma {:induction false} ChainIsWalked(t: seq<Byte>, cur: nat, offs: seq<nat>, n: nat)
    requires n <= |t| && Chain(t, cur, offs, n)
    ensures cur <= n && Walk(t, cur) == Visit(offs + Walk(t, n).visited, Walk(t, n).stop)
    decreases |offs|
  {
    if offs == [] {
      assert [] + Walk(t, n).visited == Walk(t, n).visited;
    } else {
      ChainIsWalked(t, Next(t, cur, t[cur + 1]).value, offs[1..], n);
      assert offs + Walk(t, n).visited == [cur] + (offs[1..] + Walk(t, n).visited);
    }
  }

  lemma EncodeAllSplit(t: seq<Byte>, cur: nat, ss: seq<Structure>)
    requires AllValid(ss) && ss != [] && At(t, cur, EncodeAll(ss))
    ensures At(t, cur, Encode(ss[0])) && At(t, cur + |Encode(ss[0])|, EncodeAll(ss[1..]))
  {
    hide At, Encode;
    AtSplit(t, cur, Encode(ss[0]), EncodeAll(ss[1..]));
  }

  lemma OffsetsSplit(cur: nat, ss: seq<Structure>)
    requires AllValid(ss) && ss != []
    ensures var offs, rest := Offsets(ss, cur), Offsets(ss[1..], cur + |Encode(ss[0])|);
            offs[0] == cur && offs[1..] == rest && forall i :: 0 < i < |ss| ==> offs[i] == rest[i - 1]
  {
  }

  lemma {:induction false} EncodedIsChain(t: seq<Byte>, cur: nat, ss: seq<Structure>)
    requires AllValid(ss) && At(t, cur, EncodeAll(ss))
    ensures Chain(t, cur, Offsets(ss, cur), cur + |EncodeAll(ss)|)
    decreases |ss|
  {
    hide At, Encode, Next, IsStructure;
    if ss != [] {
      EncodeAllSplit(t, cur, ss);
      StructureReadsBack(t, cur, ss[0]);
      EncodedIsChain(t, cur + |Encode(ss[0])|, ss[1..]);
      OffsetsSplit(cur, ss);
    }
  }

  /** Each encoded structure stands at its offset. */
  lemma {:induction false} EncodedAtOffset(t: seq<Byte>, cur: nat, ss: seq<Structure>, i: nat)
    requires AllValid(ss) && At(t, cur, EncodeAll(ss)) && i < |ss|
    ensures At(t, Offsets(ss, cur)[i], Encode(ss[i]))
    decreases i
  {
    hide At, Encode;
    EncodeAllSplit(t, cur, ss);
    OffsetsSplit(cur, ss);
    if i > 0 {
      EncodedAtOffset(t, cur + |Encode(ss[0])|, ss[1..], i - 1);
    }
  }

  ghost predicate EndMarkerAt(t: seq<Byte>, p: nat) {
    HeaderFits(t, p) && t[p] == END_OF_TABLE
  }

  lemma WalkEnds(t: seq<Byte>, n: nat)
    requires n <= |t|
    ensures n == |t| ==> Walk(t, n) == Visit([], Exhausted)
    ensures EndMarkerAt(t, n) ==> Walk(t, n) == Visit([], EndMarker)
  {
  }

  /** The round trip: any list of structures, standing at any offset of any buffer, followed by the end of
      the table or by an end-of-table marker and whatever comes after it. */
  lemma TableRoundTrip(t: seq<Byte>, base: nat, ss: seq<Structure>)
    requires AllValid(ss) && base + |EncodeAll(ss)| <= |t|
    requires t[base..base + |EncodeAll(ss)|] == EncodeAll(ss)
    requires var n := base + |EncodeAll(ss)|; n == |t| || EndMarkerAt(t, n)
    ensures Walk(t, base).visited == Offsets(ss, base)
    ensures Walk(t, base).stop == if base + |EncodeAll(ss)| == |t| then Exhausted else EndMarker
  {
    hide EncodeAll, Offsets, At, Chain, Walk;
    AtIsSlice(t, base, EncodeAll(ss));
    EncodedIsChain(t, base, ss);
    ChainIsWalked(t, base, Offsets(ss, base), base + |EncodeAll(ss)|);
    WalkEnds(t, base + |EncodeAll(ss)|);
  }

  // ---------- The other direction: bytes to structure to bytes ----------

  ghost function StringsAt(t: seq<Byte>, p: nat): (ss: seq<seq<Byte>>)
    requires p <= |t|
    decreases |t| - p
  {
    var e := NulFrom(t, p);
    if e == |t| || e == p then [] else [CString(t, p)] + StringsAt(t, e + 1)
  }

  lemma {:induction false} StringsAtAreValid(t: seq<Byte>, p: nat)
    requires p <= |t|
    ensures ValidStrings(StringsAt(t, p))
    decreases |t| - p
  {
    var e := NulFrom(t, p);
    if e != |t| && e != p {
      CStringHasNoNul(t, p);
      StringsAtAreValid(t, e + 1);
    }
  }

  lemma {:induction false} StringNumberIsString(t: seq<Byte>, p: nat, i: nat)
    requires p <= |t|
    ensures var r := StringNumber(t, p, i);
            if 1 <= i <= |StringsAt(t, p)| then r.Some? && CString(t, r.value) == StringsAt(t, p)[i - 1] else r.None?
    decreases |t| - p
  {
    var e := NulFrom(t, p);
    if e != |t| && e != p && i > 1 {
      StringNumberIsString(t, e + 1, i - 1);
    }
  }

  ghost function Decode(t: seq<Byte>, cur: nat): (s: Structure)
    requires IsStructure(t, cur)
    ensures s.Valid()
  {
    var start := cur + t[cur + 1];
    StringsAtAreValid(t, start);
    Structure(t[cur], t[cur + 2..start], StringsAt(t, start))
  }

  lemma {:induction false} EncodeStringsAt(t: seq<Byte>, p: nat)
    requires p <= |t| && StringsEnd(t, p) < |t|
    ensures t[p..StringsEnd(t, p) + 1] == EncodeStrings(StringsAt(t, p))
    decreases |t| - p
  {
    hide StringsAt, StringsEnd, EncodeStrings, NulFrom;
    var e := NulFrom(t, p);
    StringsAtUnfolds(t, p);
    if e != p {
      var first, rest, q := CString(t, p), StringsAt(t, e + 1), StringsEnd(t, e + 1);
      EncodeStringsAt(t, e + 1);
      EncodeStringsUnfolds(first, rest);
      SplitAround(t, p, e, q + 1);
    }
  }

  lemma StringsAtUnfolds(t: seq<Byte>, p: nat)
    requires p <= |t| && StringsEnd(t, p) < |t|
    ensures var e := NulFrom(t, p);
            && e < |t|
            && if e == p then t[p..StringsEnd(t, p) + 1] == EncodeStrings(StringsAt(t, p))
               else
                 && StringsAt(t, p) == [CString(t, p)] + StringsAt(t, e + 1)
                 && StringsEnd(t, p) == StringsEnd(t, e + 1)
  {
  }

  lemma SplitAround<T>(t: seq<T>, a: nat, b: nat, c: nat)
    requires a <= b < c <= |t|
    ensures t[a..c] == t[a..b] + [t[b]] + t[b + 1..c]
  {
  }

  lemma EncodeStringsUnfolds(first: seq<Byte>, rest: seq<seq<Byte>>)
    ensures EncodeStrings([first] + rest) == first + [0] + EncodeStrings(rest)
  {
    assert ([first] + rest)[1..] == rest;
  }

  lemma DecodeThenEncodeSet(t: seq<Byte>, cur: nat, hlen: nat)
    requires 0 < hlen && cur + hlen < |t| && Next(t, cur, hlen).Some?
    ensures var start := cur + hlen;
            t[start..Next(t, cur, hlen).value] == EncodeSet(StringsAt(t, start)) <==>
            t[start] != 0 || NulPair(t, start)
  {
    var start, q := cur + hlen, Next(t, cur, hlen).value;
    if t[start] != 0 {
      NextOfNonEmptySet(t, cur, hlen);
      EncodeStringsAt(t, start);
      hide *;
    } else {
      NextOfLoneNul(t, cur, hlen);
      hide *;
    }
  }

  lemma NextOfLoneNul(t: seq<Byte>, cur: nat, hlen: nat)
    requires 0 < hlen && cur + hlen < |t| && Next(t, cur, hlen).Some? && t[cur + hlen] == 0
    ensures var start, q := cur + hlen, Next(t, cur, hlen).value;
            && EncodeSet(StringsAt(t, start)) == [0, 0] && (t[start..q] == [0, 0] <==> NulPair(t, start))
  {
    var start, q := cur + hlen, Next(t, cur, hlen).value;
    NextIsExact(t, cur, hlen, q);
    hide EncodeStrings, StringsEnd, FirstNulPair, Next;
    assert NulFrom(t, start) == start;
    if NulPair(t, start) {
      assert q - 2 == start;
      assert t[start..q] == [t[start], t[start + 1]];
    } else if q >= start + 2 {
      assert t[start..q][1] == t[start + 1];
    }
  }

  lemma NextOfNonEmptySet(t: seq<Byte>, cur: nat, hlen: nat)
    requires 0 < hlen && cur + hlen < |t| && Next(t, cur, hlen).Some? && t[cur + hlen] != 0
    ensures var start := cur + hlen;
            && Next(t, cur, hlen).value == StringsEnd(t, start) + 1
            && EncodeSet(StringsAt(t, start)) == EncodeStrings(StringsAt(t, start))
  {
    SkipAgreesWithLookup(t, cur, hlen);
    hide EncodeStrings;
  }

  /** The bytes between a structure and its successor are the encoding of what is read from them if and
      only if the string area does not open with a lone NUL. */
  lemma DecodeThenEncode(t: seq<Byte>, cur: nat)
    requires IsStructure(t, cur) && Next(t, cur, t[cur + 1]).Some?
    ensures var start := cur + t[cur + 1];
            t[cur..Next(t, cur, t[cur + 1]).value] == Encode(Decode(t, cur)) <==>
            t[start] != 0 || NulPair(t, start)
  {
    hide Encode, Decode, EncodeSet, StringsAt, Next, NulPair;
    DecodeParts(t, cur);
    DecodeThenEncodeSet(t, cur, t[cur + 1]);
    EncodedUpTo(t, cur, cur + t[cur + 1], Next(t, cur, t[cur + 1]).value, Decode(t, cur));
  }

  lemma DecodeParts(t: seq<Byte>, cur: nat)
    requires IsStructure(t, cur)
    ensures var s, start := Decode(t, cur), cur + t[cur + 1];
            && s.FormattedLen() == t[cur + 1] && s.strings == StringsAt(t, start)
            && t[cur..start] == [s.kind, s.FormattedLen()] + s.body
  {
    HeadOfSlice(t, cur, cur + t[cur + 1]);
  }

  /** Two byte strings that open with the same formatted area are equal when their string sets are. */
  lemma EncodedUpTo(t: seq<Byte>, cur: nat, start: nat, q: nat, s: Structure)
    requires s.Valid() && start <= q <= |t| && start == cur + s.FormattedLen()
    requires t[cur..start] == [s.kind, s.FormattedLen()] + s.body
    ensures t[cur..q] == Encode(s) <==> t[start..q] == EncodeSet(s.strings)
  {
    SplitSlice(t, cur, start, q);
    CancelPrefix(t[cur..q], Encode(s), t[cur..start], t[start..q], EncodeSet(s.strings));
  }

  lemma HeadOfSlice<T>(t: seq<T>, a: nat, b: nat)
    requires a + 2 <= b <= |t|
    ensures t[a..b] == [t[a], t[a + 1]] + t[a + 2..b]
  {
  }

  lemma SplitSlice<T>(t: seq<T>, a: nat, b: nat, c: nat)
    requires a <= b <= c <= |t|
    ensures t[a..c] == t[a..b] + t[b..c]
  {
  }

  lemma CancelPrefix<T>(x: seq<T>, y: seq<T>, h: seq<T>, a: seq<T>, b: seq<T>)
    requires x == h + a && y == h + b
    ensures x == y <==> a == b
  {
    assert (h + a)[|h|..] == a && (h + b)[|h|..] == b;
  }
}
