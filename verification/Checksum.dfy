/** The ACPI table checksum (ACPI 6.5, section 5.2.6): all bytes sum to zero modulo 256. */
module Checksum {
  import opened Bytes

  ghost function Sum(t: seq<Byte>): nat {
    if t == [] then 0 else t[0] + Sum(t[1..])
  }

  ghost predicate Valid(t: seq<Byte>) {
    Sum(t) % 256 == 0
  }

  lemma {:induction false} SumConcat(a: seq<Byte>, b: seq<Byte>)
    ensures Sum(a + b) == Sum(a) + Sum(b)
    decreases |a|
  {
    if a == [] {
      assert a + b == b;
    } else {
      assert (a + b)[1..] == a[1..] + b;
      SumConcat(a[1..], b);
    }
  }

  lemma SumUpTo(t: seq<Byte>, i: nat)
    requires i < |t|
    ensures Sum(t[..i + 1]) == Sum(t[..i]) + t[i]
  {
    assert t[..i + 1] == t[..i] + [t[i]];
    SumConcat(t[..i], [t[i]]);
    assert Sum([t[i]]) == t[i] + Sum([]);
  }

  lemma AddMod(a: nat, b: nat, s: nat)
    requires s == a % 256
    ensures (s + b) % 256 == (a + b) % 256
  {
    assert a == 256 * (a / 256) + s;
    ModShift(s + b, a / 256);
  }

  lemma {:induction false} ModShift(x: int, k: nat)
    ensures (x + 256 * k) % 256 == x % 256
  {
    if k > 0 {
      ModShift(x, k - 1);
      assert (x + 256 * k) == (x + 256 * (k - 1)) + 256;
    }
  }

  /** The byte-wise wrapping loop decides the sum over the integers. */
  method ChecksumOk(t: seq<Byte>) returns (ok: bool)
    ensures ok <==> Valid(t)
  {
    var sum: Byte := 0;
    for i := 0 to |t|
      invariant sum == Sum(t[..i]) % 256
    {
      SumUpTo(t, i);
      AddMod(Sum(t[..i]), t[i], sum);
      sum := ToByte(sum + t[i]);
    }
    assert t[..|t|] == t;
    ok := sum == 0;
  }

  lemma SumUpdate(t: seq<Byte>, i: nat, b: Byte)
    requires i < |t|
    ensures Sum(t[i := b]) == Sum(t) - t[i] + b
  {
    assert t == t[..i + 1] + t[i + 1..];
    assert t[i := b] == t[i := b][..i + 1] + t[i + 1..];
    assert t[i := b][..i] == t[..i];
    SumConcat(t[..i + 1], t[i + 1..]);
    SumConcat(t[i := b][..i + 1], t[i + 1..]);
    SumUpTo(t, i);
    SumUpTo(t[i := b], i);
  }

  /** The one value at position `i` that makes the table valid, whatever the other bytes are. */
  ghost function ChecksumByte(t: seq<Byte>, i: nat): Byte
    requires i < |t|
  {
    (t[i] - Sum(t)) % 256
  }

  lemma ChecksumByteIsUnique(t: seq<Byte>, i: nat, b: Byte)
    requires i < |t|
    ensures Valid(t[i := b]) <==> b == ChecksumByte(t, i)
  {
    SumUpdate(t, i, b);
    var x := t[i] - Sum(t);
    assert Sum(t[i := b]) == b - x;
    CongruentBytes(b, x);
  }

  lemma CongruentBytes(b: Byte, x: int)
    ensures (b - x) % 256 == 0 <==> b == x % 256
  {
  }

  /** Any change of one byte of a valid table is detected. */
  lemma OneByteChangeIsDetected(t: seq<Byte>, i: nat, b: Byte)
    requires Valid(t) && i < |t| && b != t[i]
    ensures !Valid(t[i := b])
  {
    assert t[i := t[i]] == t;
    ChecksumByteIsUnique(t, i, t[i]);
    ChecksumByteIsUnique(t, i, b);
  }
}
