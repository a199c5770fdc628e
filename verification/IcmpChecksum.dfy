/** The Internet checksum (RFC 1071) as the trace probes compute it over their ICMP messages. */
module IcmpChecksum {
  import opened Bytes

  const ALL_ONES: nat := 0xffff

  /** The message read as little-endian 16-bit words, added up; an odd last byte counts as itself. */
  function WordSum(data: seq<byte>): nat {
    if |data| == 0 then 0
    else if |data| == 1 then data[0]
    else Le16(data, 0) + WordSum(data[2..])
  }

  /** Carries added back in until sixteen bits are left. */
  function Fold(sum: nat): (f: nat)
    ensures f <= ALL_ONES
    decreases sum
  {
    if sum / U16 == 0 then sum else Fold(sum % U16 + sum / U16)
  }

  /** The checksum of a message: the complement of the folded 32-bit sum. */
  function Checksum(data: seq<byte>): (c: nat)
    ensures c <= ALL_ONES
  {
    ALL_ONES - Fold(WordSum(data) % U32)
  }

  /** The checksum as the source computes it, with a 32-bit accumulator. */
  method Compute(data: seq<byte>) returns (c: nat)
    ensures c == Checksum(data)
  {
    var p, len, sum := data, |data|, 0;
    while len > 1
      invariant |p| == len && 0 <= sum < U32
      invariant (sum + WordSum(p)) % U32 == WordSum(data) % U32
      decreases len
    {
      AddMod(sum + Le16(p, 0), WordSum(p[2..]));
      sum := (sum + Le16(p, 0)) % U32;
      p := p[2..];
      len := len - 2;
    }
    if len > 0 {
      sum := (sum + p[0]) % U32;
    }
    assert sum == WordSum(data) % U32;
    ghost var start := sum;
    while sum / U16 != 0
      invariant 0 <= sum && Fold(sum) == Fold(start)
      decreases sum
    {
      sum := sum % U16 + sum / U16;
    }
    c := ALL_ONES - sum;
  }

  lemma AddMod(a: nat, b: nat)
    ensures (a % U32 + b) % U32 == (a + b) % U32
  {
  }

  // ---- Folding keeps the sum modulo 65535 ----

  lemma {:induction false} FoldKeepsResidue(sum: nat)
    ensures Fold(sum) % ALL_ONES == sum % ALL_ONES
    ensures Fold(sum) == 0 <==> sum == 0
    decreases sum
  {
    if sum / U16 != 0 {
      FoldKeepsResidue(sum % U16 + sum / U16);
      CarryKeepsResidue(sum % U16, sum / U16);
    }
  }

  lemma CarryKeepsResidue(low: nat, high: nat)
    ensures (high * U16 + low) % ALL_ONES == (low + high) % ALL_ONES
  {
    assert high * U16 + low == high * ALL_ONES + (low + high);
    AddMultiple(low + high, high);
  }

  lemma {:induction false} AddMultiple(x: nat, k: nat)
    ensures (k * ALL_ONES + x) % ALL_ONES == x % ALL_ONES
  {
    if k > 0 {
      AddMultiple(x, k - 1);
      assert k * ALL_ONES + x == ((k - 1) * ALL_ONES + x) + ALL_ONES;
    }
  }

  // ---- A stored checksum makes the message check ----

  /** Stores a 16-bit word at an even position, as the source stores its checksum field. */
  function Stored(data: seq<byte>, at: nat, word: nat): (s: seq<byte>)
    requires at + 2 <= |data| && word < U16
    ensures |s| == |data|
  {
    data[at := word % 0x100][at + 1 := word / 0x100]
  }

  /** Overwriting one aligned word changes the sum by that word. */
  lemma {:induction false} StoredSum(data: seq<byte>, at: nat, word: nat)
    requires at % 2 == 0 && at + 2 <= |data| && word < U16
    ensures WordSum(Stored(data, at, word)) + Le16(data, at) == WordSum(data) + word
    decreases |data|
  {
    var s := Stored(data, at, word);
    if at == 0 {
      assert s[2..] == data[2..];
    } else {
      assert s[2..] == Stored(data[2..], at - 2, word);
      StoredSum(data[2..], at - 2, word);
    }
  }

  lemma {:induction false} SumBound(data: seq<byte>)
    ensures WordSum(data) <= (|data| + 1) / 2 * ALL_ONES
    decreases |data|
  {
    if |data| > 1 {
      SumBound(data[2..]);
    }
  }

  /** A sum and its folded complement together fold to all ones. */
  lemma ComplementCancels(sum: nat)
    ensures Fold(sum + (ALL_ONES - Fold(sum))) == ALL_ONES
  {
    var f := Fold(sum);
    var total := sum + (ALL_ONES - f);
    FoldKeepsResidue(sum);
    FoldKeepsResidue(total);
    assert total % ALL_ONES == 0 by {
      var q, r := sum / ALL_ONES, sum % ALL_ONES;
      assert f == r || f == r + ALL_ONES;
      assert total == q * ALL_ONES + (if f == r then ALL_ONES else 0);
      AddMultiple(if f == r then ALL_ONES else 0, q);
    }
    assert total > 0;
  }

  /** The sum of a message of up to 131072 bytes fits 32 bits. */
  lemma NoOverflow(data: seq<byte>)
    requires |data| <= 131072
    ensures WordSum(data) % U32 == WordSum(data)
  {
    SumBound(data);
    assert WordSum(data) <= 65536 * ALL_ONES;
  }

  /** Storing the checksum of a message whose word-aligned checksum field is zero makes the whole
      message check to zero, for every length up to 131072 bytes. */
  lemma StoredChecksumChecks(data: seq<byte>, at: nat)
    requires |data| <= 131072
    requires at % 2 == 0 && at + 2 <= |data| && data[at] == 0 && data[at + 1] == 0
    ensures Checksum(Stored(data, at, Checksum(data))) == 0
  {
    var c := Checksum(data);
    StoredSum(data, at, c);
    NoOverflow(data);
    NoOverflow(Stored(data, at, c));
    ComplementCancels(WordSum(data));
  }

  /** A message checks to zero exactly when its sum is a nonzero multiple of 65535. */
  lemma ChecksIff(data: seq<byte>)
    requires |data| <= 131072
    ensures Checksum(data) == 0 <==> WordSum(data) % ALL_ONES == 0 && WordSum(data) != 0
  {
    NoOverflow(data);
    FoldKeepsResidue(WordSum(data));
  }

  lemma {:induction false} SumIsZeroIff(data: seq<byte>)
    ensures WordSum(data) == 0 <==> forall k :: 0 <= k < |data| ==> data[k] == 0
    decreases |data|
  {
    if |data| > 1 {
      SumIsZeroIff(data[2..]);
      assert forall k :: 2 <= k < |data| ==> data[k] == data[2..][k - 2];
      assert forall k :: 0 <= k < |data| - 2 ==> data[2..][k] == data[k + 2];
    }
  }

  /** Of a message that checks, overwriting one aligned word goes unnoticed exactly when the new
      word equals the old one modulo 65535 and some byte of the stored message is not zero. */
  lemma WordErrorUnnoticedIff(data: seq<byte>, at: nat, word: nat)
    requires |data| <= 131072 && Checksum(data) == 0
    requires at % 2 == 0 && at + 2 <= |data| && word < U16
    ensures var s := Stored(data, at, word);
            Checksum(s) == 0
            <==> word % ALL_ONES == Le16(data, at) % ALL_ONES && exists k :: 0 <= k < |s| && s[k] != 0
  {
    var s := Stored(data, at, word);
    StoredSum(data, at, word);
    ChecksIff(data);
    ChecksIff(s);
    SumIsZeroIff(s);
    SameResidue(WordSum(data), Le16(data, at), word, WordSum(s));
  }

  lemma SameResidue(sum: nat, was: nat, now: nat, sum': nat)
    requires sum' + was == sum + now && sum % ALL_ONES == 0
    ensures sum' % ALL_ONES == 0 <==> now % ALL_ONES == was % ALL_ONES
  {
  }
}
