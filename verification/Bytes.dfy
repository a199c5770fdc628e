// Bytes, and the fixed-width integers that the agent reads from packets and netlink buffers.
module Bytes {
  type byte = b: int | 0 <= b < 256

  const U16: int := 0x1_0000
  /** One more than the greatest `int`. */
  const I32: int := 0x8000_0000
  const U32: int := 0x1_0000_0000
  const U64: int := 0x1_0000_0000_0000_0000

  /** Network order, two bytes. */
  function Be16(s: seq<byte>, at: nat): (v: nat)
    requires at + 2 <= |s|
    ensures v < U16
  {
    s[at] as int * 0x100 + s[at + 1]
  }

  /** Network order, four bytes. */
  function Be32(s: seq<byte>, at: nat): (v: nat)
    requires at + 4 <= |s|
    ensures v < U32
  {
    Be16(s, at) * U16 + Be16(s, at + 2)
  }

  /** Host order of the little-endian targets, two bytes. */
  function Le16(s: seq<byte>, at: nat): (v: nat)
    requires at + 2 <= |s|
    ensures v < U16
  {
    s[at] as int + s[at + 1] as int * 0x100
  }

  /** Host order of the little-endian targets, four bytes. */
  function Le32(s: seq<byte>, at: nat): (v: nat)
    requires at + 4 <= |s|
    ensures v < U32
  {
    Le16(s, at) + Le16(s, at + 2) * U16
  }

  function PutBe16(v: nat): (s: seq<byte>)
    requires v < U16
    ensures |s| == 2
  {
    [v / 0x100, v % 0x100]
  }

  function PutBe32(v: nat): (s: seq<byte>)
    requires v < U32
    ensures |s| == 4
  {
    PutBe16(v / U16) + PutBe16(v % U16)
  }

  function PutLe16(v: nat): (s: seq<byte>)
    requires v < U16
    ensures |s| == 2
  {
    [v % 0x100, v / 0x100]
  }

  function PutLe32(v: nat): (s: seq<byte>)
    requires v < U32
    ensures |s| == 4
  {
    PutLe16(v % U16) + PutLe16(v / U16)
  }

  lemma Be16RoundTrip(s: seq<byte>, at: nat, v: nat)
    requires v < U16 && at + 2 <= |s| && s[at..at + 2] == PutBe16(v)
    ensures Be16(s, at) == v
  {
    assert s[at..at + 2][0] == s[at] && s[at..at + 2][1] == s[at + 1];
  }

  lemma Be32RoundTrip(s: seq<byte>, at: nat, v: nat)
    requires v < U32 && at + 4 <= |s| && s[at..at + 4] == PutBe32(v)
    ensures Be32(s, at) == v
  {
    assert s[at..at + 2] == s[at..at + 4][..2] == PutBe16(v / U16);
    assert s[at + 2..at + 4] == s[at..at + 4][2..] == PutBe16(v % U16);
    Be16RoundTrip(s, at, v / U16);
    Be16RoundTrip(s, at + 2, v % U16);
  }

  lemma Le16RoundTrip(s: seq<byte>, at: nat, v: nat)
    requires v < U16 && at + 2 <= |s| && s[at..at + 2] == PutLe16(v)
    ensures Le16(s, at) == v
  {
    assert s[at..at + 2][0] == s[at] && s[at..at + 2][1] == s[at + 1];
  }

  lemma Le32RoundTrip(s: seq<byte>, at: nat, v: nat)
    requires v < U32 && at + 4 <= |s| && s[at..at + 4] == PutLe32(v)
    ensures Le32(s, at) == v
  {
    assert s[at..at + 2] == s[at..at + 4][..2] == PutLe16(v % U16);
    assert s[at + 2..at + 4] == s[at..at + 4][2..] == PutLe16(v / U16);
    Le16RoundTrip(s, at, v % U16);
    Le16RoundTrip(s, at + 2, v / U16);
  }

  /** The bytes read back as a number are the number's own encoding. */
  lemma PutBe16Read(s: seq<byte>, at: nat)
    requires at + 2 <= |s|
    ensures PutBe16(Be16(s, at)) == s[at..at + 2]
  {
  }

  lemma PutBe32Read(s: seq<byte>, at: nat)
    requires at + 4 <= |s|
    ensures PutBe32(Be32(s, at)) == s[at..at + 4]
  {
    PutBe16Read(s, at);
    PutBe16Read(s, at + 2);
    assert s[at..at + 4] == s[at..at + 2] + s[at + 2..at + 4];
  }

  lemma PutLe16Read(s: seq<byte>, at: nat)
    requires at + 2 <= |s|
    ensures PutLe16(Le16(s, at)) == s[at..at + 2]
  {
  }

  lemma HighAndLow(high: nat, low: nat)
    requires low < U16
    ensures (low + high * U16) % U16 == low && (low + high * U16) / U16 == high
  {
  }

  lemma PutLe32Read(s: seq<byte>, at: nat)
    requires at + 4 <= |s|
    ensures PutLe32(Le32(s, at)) == s[at..at + 4]
  {
    PutLe16Read(s, at);
    PutLe16Read(s, at + 2);
    HighAndLow(Le16(s, at + 2), Le16(s, at));
    assert s[at..at + 4] == s[at..at + 2] + s[at + 2..at + 4];
  }

  /** Rounds a length up to the four-byte netlink alignment. */
  function Align4(n: nat): (a: nat)
    ensures n <= a < n + 4 && a % 4 == 0
  {
    (n + 3) / 4 * 4
  }

  function Pow2(k: nat): (p: nat)
    ensures 1 <= p
  {
    if k == 0 then 1 else 2 * Pow2(k - 1)
  }

  function Max(a: int, b: int): int {
    if a < b then b else a
  }

  function Min(a: int, b: int): int {
    if a < b then a else b
  }
}
