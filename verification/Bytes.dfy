/** Bytes, little-endian words and NUL-terminated strings, as the firmware parsers read them. */
module Bytes {
  type Byte = x: int | 0 <= x < 256

  const TWO_64 := 0x1_0000_0000_0000_0000

  type U64 = x: int | 0 <= x < TWO_64

  /** The conversion to `uint8_t`: it keeps the low eight bits. */
  function ToByte(x: nat): (r: Byte)
    ensures r == x % 256
  {
    if x < 256 then x else x % 256
  }

  /** The conversion to `uint64_t`: it wraps. */
  function ToU64(x: int): (r: U64)
    ensures r == x % TWO_64
  {
    if 0 <= x < TWO_64 then x else x % TWO_64
  }

  /** The first `n` elements, or all of them when there are fewer. */
  function Take<T>(s: seq<T>, n: nat): (r: seq<T>)
    ensures r <= s && |r| == if |s| < n then |s| else n
  {
    if |s| < n then s else s[..n]
  }

  lemma SliceOfSlice<T>(t: seq<T>, a: nat, b: nat, c: nat, d: nat)
    requires a <= b <= |t| && c <= d <= b - a
    ensures t[a..b][c..d] == t[a + c..a + d]
  {
    var x, y := t[a..b][c..d], t[a + c..a + d];
    assert |x| == |y| && forall i :: 0 <= i < |x| ==> x[i] == y[i];
  }

  function Pow256(n: nat): (r: nat)
    ensures 0 < r
  {
    if n == 0 then 1 else 256 * Pow256(n - 1)
  }

  /** The value of a little-endian byte string. */
  function LeValue(s: seq<Byte>): (v: nat)
    ensures v < Pow256(|s|)
  {
    if s == [] then 0 else s[0] + 256 * LeValue(s[1..])
  }

  /** The `n` low bytes of `v`, least significant first. */
  function LeBytes(v: nat, n: nat): (s: seq<Byte>)
    ensures |s| == n
  {
    if n == 0 then [] else [v % 256] + LeBytes(v / 256, n - 1)
  }

  function Le16(t: seq<Byte>, p: nat): (v: nat)
    requires p + 2 <= |t|
    ensures v < 0x1_0000
  {
    assert Pow256(2) == 0x1_0000;
    LeValue(t[p..p + 2])
  }

  function Le32(t: seq<Byte>, p: nat): (v: nat)
    requires p + 4 <= |t|
    ensures v < 0x1_0000_0000
  {
    assert Pow256(4) == 0x1_0000_0000;
    LeValue(t[p..p + 4])
  }

  function Le64(t: seq<Byte>, p: nat): (v: nat)
    requires p + 8 <= |t|
    ensures v < 0x1_0000_0000_0000_0000
  {
    assert Pow256(8) == 0x1_0000_0000_0000_0000;
    LeValue(t[p..p + 8])
  }

  lemma {:induction false} LeRoundTrip(v: nat, n: nat)
    requires v < Pow256(n)
    ensures LeValue(LeBytes(v, n)) == v
  {
    if n > 0 {
      LeRoundTrip(v / 256, n - 1);
      assert LeBytes(v, n)[1..] == LeBytes(v / 256, n - 1);
    }
  }

  lemma WordReadsBack(v: nat)
    requires v < 0x1_0000_0000
    ensures LeValue(LeBytes(v, 4)) == v
  {
    assert Pow256(4) == 0x1_0000_0000;
    LeRoundTrip(v, 4);
  }

  /** `strnlen`, as a position: the first NUL at or after `p`, or the end of the buffer. */
  function NulFrom(t: seq<Byte>, p: nat): (e: nat)
    requires p <= |t|
    ensures p <= e <= |t|
    ensures e < |t| ==> t[e] == 0
    ensures p < e ==> t[p] != 0
    decreases |t| - p
  {
    if p == |t| || t[p] == 0 then p else NulFrom(t, p + 1)
  }

  lemma {:induction false} NulFromIsFirst(t: seq<Byte>, p: nat, i: nat)
    requires p <= i < |t| && t[i] == 0
    ensures NulFrom(t, p) <= i
    decreases i - p
  {
    if t[p] != 0 {
      NulFromIsFirst(t, p + 1, i);
    }
  }

  /** The bytes of the string at `p`, without its terminator. */
  function CString(t: seq<Byte>, p: nat): seq<Byte>
    requires p <= |t|
  {
    t[p..NulFrom(t, p)]
  }

  lemma CStringHasNoNul(t: seq<Byte>, p: nat)
    requires p <= |t|
    ensures 0 !in CString(t, p)
  {
    forall i | p <= i < NulFrom(t, p)
      ensures t[i] != 0
    {
      if t[i] == 0 {
        NulFromIsFirst(t, p, i);
      }
    }
  }

  /** A NUL-free run followed by a NUL is exactly the string that a reader finds there. */
  lemma {:induction false} CStringIs(t: seq<Byte>, p: nat, s: seq<Byte>)
    requires p + |s| < |t| && t[p..p + |s|] == s && 0 !in s && t[p + |s|] == 0
    ensures NulFrom(t, p) == p + |s| && CString(t, p) == s
    decreases |s|
  {
    if s != [] {
      assert t[p] == s[0] && s[0] in s;
      assert t[p + 1..p + |s|] == s[1..];
      CStringIs(t, p + 1, s[1..]);
    }
  }

  // ---------- Hexadecimal digits ----------

  predicate IsHex(b: Byte) {
    0x30 <= b <= 0x39 || 0x41 <= b <= 0x46 || 0x61 <= b <= 0x66
  }

  function Digit(b: Byte): (d: nat)
    ensures d < 16
  {
    if 0x30 <= b <= 0x39 then b - 0x30
    else if 0x41 <= b <= 0x46 then b - 0x41 + 10
    else if 0x61 <= b <= 0x66 then b - 0x61 + 10
    else 0
  }

  /** The upper-case digit. */
  function HexChar(d: nat): (b: Byte)
    requires d < 16
    ensures IsHex(b) && Digit(b) == d && b <= 'F' as int
  {
    if d < 10 then 0x30 + d else 0x41 + d - 10
  }

  function Pow16(n: nat): (r: nat)
    ensures 0 < r
  {
    if n == 0 then 1 else 16 * Pow16(n - 1)
  }

  /** `strtoul` in base 16. */
  function HexValue(s: seq<Byte>): (v: nat)
    ensures v < Pow16(|s|)
  {
    if s == [] then 0 else 16 * HexValue(s[..|s| - 1]) + Digit(s[|s| - 1])
  }

  // ---------- Text ----------

  /** The bytes of a text of 8-bit characters. */
  function Ascii(s: string): (b: seq<Byte>)
    ensures |b| == |s| && forall i :: 0 <= i < |s| ==> b[i] == s[i] as int % 256
  {
    seq(|s|, i requires 0 <= i < |s| => ToByte(s[i] as int))
  }

  /** The digits are these characters, each with its place as its value, in either case. */
  lemma HexDigitsAreThese(b: Byte)
    ensures var upper, lower := Ascii("0123456789ABCDEF"), Ascii("0123456789abcdef");
            && (IsHex(b) <==> b in upper || b in lower)
            && forall d :: 0 <= d < 16 ==> Digit(upper[d]) == d && Digit(lower[d]) == d
  {
    var upper, lower := Ascii("0123456789ABCDEF"), Ascii("0123456789abcdef");
    if 0x61 <= b <= 0x66 {
      assert lower[Digit(b)] == b;
    } else if IsHex(b) {
      assert upper[Digit(b)] == b;
    }
  }
}
