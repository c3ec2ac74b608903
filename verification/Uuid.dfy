/** How a UUID is printed: 8-4-4-4-12 digits, its first three fields in one of two byte orders. */
module Uuid {
  import opened Bytes

  /** The sixteen bytes in the order they are printed. */
  function UuidOrder(u: seq<Byte>, littleEndian: bool): (d: seq<Byte>)
    requires |u| == 16
    ensures |d| == 16
  {
    if littleEndian then [u[3], u[2], u[1], u[0], u[5], u[4], u[7], u[6]] + u[8..] else u
  }

  /** Printing order is its own inverse. */
  lemma UuidOrderIsInvolution(u: seq<Byte>, littleEndian: bool)
    requires |u| == 16
    ensures UuidOrder(UuidOrder(u, littleEndian), littleEndian) == u
  {
    if littleEndian {
      var d := UuidOrder(u, true);
      assert d[8..] == u[8..];
      assert u == [u[0], u[1], u[2], u[3], u[4], u[5], u[6], u[7]] + u[8..];
    }
  }

  const DASH: Byte := 0x2D

  /** Each byte as two digits. */
  function HexText(d: seq<Byte>): (s: seq<Byte>)
    ensures |s| == 2 * |d|
    ensures forall i :: 0 <= i < |s| ==> IsHex(s[i]) && s[i] <= 'F' as int
    ensures forall i :: 0 <= i < |d| ==> s[2 * i] == HexChar(d[i] / 16) && s[2 * i + 1] == HexChar(d[i] % 16)
  {
    if d == [] then []
    else
      var init := d[..|d| - 1];
      HexText(init) + [HexChar(d[|d| - 1] / 16), HexChar(d[|d| - 1] % 16)]
  }

  /** The sixteen bytes in printing order, in groups of 4, 2, 2, 2 and 6. */
  function UuidText(u: seq<Byte>, littleEndian: bool): (s: seq<Byte>)
    requires |u| == 16
    ensures |s| == 36
  {
    var d := UuidOrder(u, littleEndian);
    HexText(d[..4]) + [DASH] + HexText(d[4..6]) + [DASH] + HexText(d[6..8]) + [DASH] + HexText(d[8..10]) + [DASH]
    + HexText(d[10..])
  }

  lemma HexTextIsInjective(a: seq<Byte>, b: seq<Byte>)
    requires HexText(a) == HexText(b)
    ensures a == b
  {
    assert |a| == |b|;
    forall i | 0 <= i < |a|
      ensures a[i] == b[i]
    {
      assert HexText(a)[2 * i] == HexText(b)[2 * i] && HexText(a)[2 * i + 1] == HexText(b)[2 * i + 1];
      assert Digit(HexChar(a[i] / 16)) == Digit(HexChar(b[i] / 16));
      assert Digit(HexChar(a[i] % 16)) == Digit(HexChar(b[i] % 16));
    }
  }

  lemma GroupsOfText(u: seq<Byte>, littleEndian: bool)
    requires |u| == 16
    ensures var s, d := UuidText(u, littleEndian), UuidOrder(u, littleEndian);
            && s[..8] == HexText(d[..4]) && s[9..13] == HexText(d[4..6]) && s[14..18] == HexText(d[6..8])
            && s[19..23] == HexText(d[8..10]) && s[24..] == HexText(d[10..])
  {
    hide HexText, UuidOrder;
  }

  lemma SameGroups(d: seq<Byte>, e: seq<Byte>)
    requires |d| == |e| == 16
    requires d[..4] == e[..4] && d[4..6] == e[4..6] && d[6..8] == e[6..8] && d[8..10] == e[8..10] && d[10..] == e[10..]
    ensures d == e
  {
    assert d == d[..4] + d[4..6] + d[6..8] + d[8..10] + d[10..];
    assert e == e[..4] + e[4..6] + e[6..8] + e[8..10] + e[10..];
  }

  /** Different UUIDs are printed differently. */
  lemma UuidTextIsInjective(u: seq<Byte>, v: seq<Byte>, littleEndian: bool)
    requires |u| == |v| == 16
    ensures UuidText(u, littleEndian) == UuidText(v, littleEndian) <==> u == v
  {
    hide UuidText, HexText, UuidOrder;
    if UuidText(u, littleEndian) == UuidText(v, littleEndian) {
      var d, e := UuidOrder(u, littleEndian), UuidOrder(v, littleEndian);
      GroupsOfText(u, littleEndian);
      GroupsOfText(v, littleEndian);
      HexTextIsInjective(d[..4], e[..4]);
      HexTextIsInjective(d[4..6], e[4..6]);
      HexTextIsInjective(d[6..8], e[6..8]);
      HexTextIsInjective(d[8..10], e[8..10]);
      HexTextIsInjective(d[10..], e[10..]);
      SameGroups(d, e);
      UuidOrderIsInvolution(u, littleEndian);
      UuidOrderIsInvolution(v, littleEndian);
    }
  }

  // ---------- What the text says ----------

  /** The digits of a text spell the bytes, two by two. */
  ghost predicate Spells(text: seq<Byte>, bytes: seq<Byte>) {
    && |text| == 2 * |bytes|
    && forall i :: 0 <= i < |bytes| ==> 16 * Digit(text[2 * i]) + Digit(text[2 * i + 1]) == bytes[i]
  }

  lemma HexTextSpells(d: seq<Byte>)
    ensures Spells(HexText(d), d)
  {
    hide Digit, HexChar;
    forall i | 0 <= i < |d|
      ensures 16 * Digit(HexText(d)[2 * i]) + Digit(HexText(d)[2 * i + 1]) == d[i]
    {
      assert Digit(HexChar(d[i] / 16)) == d[i] / 16 && Digit(HexChar(d[i] % 16)) == d[i] % 16;
    }
  }

  /** The value of a big-endian byte string. */
  function BeValue(s: seq<Byte>): nat {
    if s == [] then 0 else 256 * BeValue(s[..|s| - 1]) + s[|s| - 1]
  }

  lemma {:induction false} SpelledValue(text: seq<Byte>, bytes: seq<Byte>)
    requires Spells(text, bytes)
    ensures HexValue(text) == BeValue(bytes)
    decreases |bytes|
  {
    hide Digit;
    if bytes != [] {
      var n := |bytes| - 1;
      var init := text[..2 * n];
      assert Spells(init, bytes[..n]) by {
        assert forall i :: 0 <= i < n ==> init[2 * i] == text[2 * i] && init[2 * i + 1] == text[2 * i + 1];
      }
      SpelledValue(init, bytes[..n]);
      TwoDigits(text, 2 * n);
    }
  }

  lemma TwoDigits(text: seq<Byte>, n: nat)
    requires |text| == n + 2
    ensures HexValue(text) == 16 * (16 * HexValue(text[..n]) + Digit(text[n])) + Digit(text[n + 1])
  {
    hide Digit;
    assert text[..n + 1][..n] == text[..n];
  }

  function Reversed(s: seq<Byte>): (r: seq<Byte>)
    ensures |r| == |s|
  {
    if s == [] then [] else Reversed(s[1..]) + [s[0]]
  }

  lemma {:induction false} ReversedValue(s: seq<Byte>)
    ensures BeValue(Reversed(s)) == LeValue(s)
  {
    if s != [] {
      ReversedValue(s[1..]);
      assert Reversed(s)[..|s| - 1] == Reversed(s[1..]);
    }
  }

  lemma ReversedGroups(u: seq<Byte>)
    requires |u| == 16
    ensures var d := UuidOrder(u, true);
            d[..4] == Reversed(u[0..4]) && d[4..6] == Reversed(u[4..6]) && d[6..8] == Reversed(u[6..8])
  {
    ReversedPairs(u[4], u[5], u[6], u[7]);
    ReversedQuad(u[0], u[1], u[2], u[3]);
    assert u[0..4] == [u[0], u[1], u[2], u[3]] && u[4..6] == [u[4], u[5]] && u[6..8] == [u[6], u[7]];
  }

  lemma ReversedPairs(a: Byte, b: Byte, c: Byte, d: Byte)
    ensures Reversed([a, b]) == [b, a] && Reversed([c, d]) == [d, c]
  {
    assert [a, b][1..] == [b] && [c, d][1..] == [d];
  }

  lemma ReversedQuad(a: Byte, b: Byte, c: Byte, d: Byte)
    ensures Reversed([a, b, c, d]) == [d, c, b, a]
  {
    assert [a, b, c, d][1..] == [b, c, d] && [b, c, d][1..] == [c, d];
    ReversedPairs(c, d, c, d);
  }

  /** The text, without the order: dashes at 8, 13, 18 and 23, upper-case digits elsewhere; in the little-endian layout the first three
      groups spell the values of a 32-bit and two 16-bit little-endian words; all other digits spell the bytes
      as they come. */
  lemma UuidTextIsExact(u: seq<Byte>, littleEndian: bool)
    requires |u| == 16
    ensures var s := UuidText(u, littleEndian);
            && s[8] == s[13] == s[18] == s[23] == '-' as int
            && (forall i :: 0 <= i < 36 && i !in {8, 13, 18, 23} ==> IsHex(s[i]) && s[i] <= 'F' as int)
            && (if littleEndian then
                  && HexValue(s[0..8]) == LeValue(u[0..4])
                  && HexValue(s[9..13]) == LeValue(u[4..6]) && HexValue(s[14..18]) == LeValue(u[6..8])
                else Spells(s[0..8], u[0..4]) && Spells(s[9..13], u[4..6]) && Spells(s[14..18], u[6..8]))
            && Spells(s[19..23], u[8..10]) && Spells(s[24..36], u[10..16])
  {
    var s, d := UuidText(u, littleEndian), UuidOrder(u, littleEndian);
    DashesOfText(u, littleEndian);
    GroupsOfText(u, littleEndian);
    assert s[24..36] == s[24..] && d[10..16] == d[10..];
    assert d[8..10] == u[8..10] && d[10..16] == u[10..16];
    hide HexText, UuidText, UuidOrder, Spells, HexValue, LeValue, BeValue, Reversed;
    HexTextSpells(d[..4]);
    HexTextSpells(d[4..6]);
    HexTextSpells(d[6..8]);
    HexTextSpells(d[8..10]);
    HexTextSpells(d[10..]);
    if littleEndian {
      ReversedGroups(u);
      SpelledValue(s[0..8], d[..4]);
      SpelledValue(s[9..13], d[4..6]);
      SpelledValue(s[14..18], d[6..8]);
      ReversedValue(u[0..4]);
      ReversedValue(u[4..6]);
      ReversedValue(u[6..8]);
    }
  }

  lemma DashesOfText(u: seq<Byte>, littleEndian: bool)
    requires |u| == 16
    ensures var s := UuidText(u, littleEndian);
            && s[8] == s[13] == s[18] == s[23] == '-' as int
            && forall i :: 0 <= i < 36 && i !in {8, 13, 18, 23} ==> IsHex(s[i]) && s[i] <= 'F' as int
  {
    hide HexText, UuidOrder;
  }
}
