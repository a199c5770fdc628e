/** Base64 (section 4 of RFC 4648) as the agent's HTTP egress encodes its Basic credentials. */
module Base64 {
  import opened Bytes
  import opened Wrappers

  const PAD: byte := 61

  // ---- Alphabet ----

  type sextet = i: int | 0 <= i < 64

  /** Position i of "ABC..Zabc..z012..9+/". */
  function Letter(i: sextet): byte {
    if i < 26 then 65 + i
    else if i < 52 then 97 + i - 26
    else if i < 62 then 48 + i - 52
    else if i == 62 then 43
    else 47
  }

  function Value(c: byte): Option<sextet> {
    if 65 <= c < 91 then Some(c - 65)
    else if 97 <= c < 123 then Some(c - 97 + 26)
    else if 48 <= c < 58 then Some(c - 48 + 52)
    else if c == 43 then Some(62)
    else if c == 47 then Some(63)
    else None
  }

  lemma LetterValue(i: sextet, c: byte)
    ensures Value(c) == Some(i) <==> c == Letter(i)
    ensures Letter(i) != PAD
  {
  }

  // ---- Bits, most significant first ----

  function Bits(x: nat, n: nat): (s: seq<bool>)
    ensures |s| == n
  {
    if n == 0 then [] else Bits(x / 2, n - 1) + [x % 2 == 1]
  }

  function Number(s: seq<bool>): (x: nat)
    ensures x < Pow2(|s|)
  {
    if |s| == 0 then 0 else 2 * Number(s[..|s| - 1]) + if s[|s| - 1] then 1 else 0
  }

  lemma {:induction false} NumberOfBits(x: nat, n: nat)
    requires x < Pow2(n)
    ensures Number(Bits(x, n)) == x
  {
    if n > 0 {
      NumberOfBits(x / 2, n - 1);
      assert Bits(x, n)[..n - 1] == Bits(x / 2, n - 1);
    }
  }

  lemma {:induction false} BitsOfNumber(s: seq<bool>)
    ensures Bits(Number(s), |s|) == s
  {
    if |s| > 0 {
      BitsOfNumber(s[..|s| - 1]);
      assert s == s[..|s| - 1] + [s[|s| - 1]];
    }
  }

  lemma {:induction false} NumberJoin(s: seq<bool>, t: seq<bool>)
    ensures Number(s + t) == Number(s) * Pow2(|t|) + Number(t)
  {
    if |t| > 0 {
      var n := |t| - 1;
      assert (s + t)[..|s + t| - 1] == s + t[..n];
      NumberJoin(s, t[..n]);
      Doubled(Number(s), Pow2(n));
    } else {
      assert s + t == s;
    }
  }

  lemma Doubled(a: nat, b: nat)
    ensures a * (2 * b) == 2 * (a * b)
  {
  }

  lemma JoinSix(s: seq<bool>, t: seq<bool>)
    requires |t| == 6
    ensures Number(s + t) == Number(s) * 64 + Number(t)
  {
    NumberJoin(s, t);
    assert Pow2(6) == 64;
  }

  lemma JoinEight(s: seq<bool>, t: seq<bool>)
    requires |t| == 8
    ensures Number(s + t) == Number(s) * 256 + Number(t)
  {
    NumberJoin(s, t);
    assert Pow2(8) == 256;
  }

  predicate NoneSet(s: seq<bool>) {
    forall i :: 0 <= i < |s| ==> !s[i]
  }

  lemma {:induction false} BitsOfZero(n: nat)
    ensures NoneSet(Bits(0, n))
  {
    if n > 0 {
      BitsOfZero(n - 1);
    }
  }

  // ---- Encoding ----

  /** The 24 bits of up to three bytes, missing bytes taken as zero. */
  function GroupBits(g: seq<byte>): (s: seq<bool>)
    requires 1 <= |g| <= 3
    ensures |s| == 24
  {
    Bits(g[0], 8) + Bits(if |g| > 1 then g[1] else 0, 8) + Bits(if |g| > 2 then g[2] else 0, 8)
  }

  function Quad(g: seq<byte>): (q: seq<byte>)
    requires 1 <= |g| <= 3
    ensures |q| == 4
  {
    var s := GroupBits(g);
    [SixBits(s[..6]), SixBits(s[6..12]),
     if |g| > 1 then SixBits(s[12..18]) else PAD, if |g| > 2 then SixBits(s[18..]) else PAD]
  }

  function SixBits(s: seq<bool>): byte
    requires |s| == 6
  {
    Letter(Number(s))
  }

  function Encode(s: seq<byte>): seq<byte> {
    if |s| == 0 then [] else Quad(s[..Min(3, |s|)]) + Encode(s[Min(3, |s|)..])
  }

  function EncodedLength(n: nat): nat {
    (n + 2) / 3 * 4
  }

  lemma {:induction false} EncodeLength(s: seq<byte>)
    ensures |Encode(s)| == EncodedLength(|s|)
  {
    if |s| > 0 {
      EncodeLength(s[Min(3, |s|)..]);
    }
  }

  // ---- The decoder of the RFC, strict about padding and unused bits ----

  /** Two, three or four letters make one, two or three bytes; the bits left over must be zero. */
  function Unquad(q: seq<byte>): (r: Option<seq<byte>>)
    requires |q| == 4
    ensures r.Some? ==> 1 <= |r.value| <= 3
  {
    var a, b, c, d := Value(q[0]), Value(q[1]), Value(q[2]), Value(q[3]);
    if a.None? || b.None? then None
    else
      var two := Bits(a.value, 6) + Bits(b.value, 6);
      if q[2] == 61 && q[3] == 61 then if NoneSet(two[8..]) then Some([EightBits(two[..8])]) else None
      else if c.None? then None
      else
        var three := two + Bits(c.value, 6);
        if q[3] == 61
        then if NoneSet(three[16..]) then Some([EightBits(three[..8]), EightBits(three[8..16])]) else None
        else if d.None? then None
        else
          var four := three + Bits(d.value, 6);
          Some([EightBits(four[..8]), EightBits(four[8..16]), EightBits(four[16..])])
  }

  function EightBits(s: seq<bool>): byte
    requires |s| == 8
  {
    Number(s)
  }

  /** None if the text is not the encoding of anything. */
  function Decode(t: seq<byte>): Option<seq<byte>> {
    if |t| == 0 then Some([])
    else if |t| < 4 then None
    else
      var g, rest := Unquad(t[..4]), Decode(t[4..]);
      if g.None? || rest.None? || (|g.value| < 3 && |t| > 4) then None else Some(g.value + rest.value)
  }

  /** A letter stands for six bits, and a byte for eight, both ways. */
  lemma LetterBits(c: byte, s: seq<bool>)
    requires |s| == 6
    ensures Value(c).Some? && Bits(Value(c).value, 6) == s <==> c == SixBits(s)
    ensures SixBits(s) != PAD
  {
    LetterValue(Number(s), c);
    BitsOfNumber(s);
    if Value(c).Some? {
      NumberOfBits(Value(c).value, 6);
    }
  }

  lemma ByteBits(x: byte, s: seq<bool>)
    requires |s| == 8
    ensures Bits(x, 8) == s <==> x == EightBits(s)
  {
    NumberOfBits(x, 8);
    BitsOfNumber(s);
  }

  /** Four letters decode to a group exactly when they are its encoding. */
  lemma UnquadIff(q: seq<byte>, g: seq<byte>)
    requires |q| == 4 && 1 <= |g| <= 3
    ensures Unquad(q) == Some(g) <==> q == Quad(g)
  {
    if |g| == 1 {
      UnquadOne(q, g);
    } else if |g| == 2 {
      UnquadTwo(q, g);
    } else {
      UnquadThree(q, g);
    }
  }

  /** Two runs of bits agree when they are cut alike and the parts agree. */
  lemma SameParts(s: seq<bool>, t: seq<bool>, cut: nat)
    requires |s| == |t| && cut <= |s|
    ensures s == t <==> s[..cut] == t[..cut] && s[cut..] == t[cut..]
  {
    assert s == s[..cut] + s[cut..] && t == t[..cut] + t[cut..];
  }

  lemma ThreeParts(s: seq<bool>, t: seq<bool>, i: nat, j: nat)
    requires |s| == |t| && i <= j <= |s|
    ensures s == t <==> s[..i] == t[..i] && s[i..j] == t[i..j] && s[j..] == t[j..]
  {
    SameParts(s, t, i);
    SameParts(s[i..], t[i..], j - i);
    assert s[i..][..j - i] == s[i..j] && s[i..][j - i..] == s[j..];
    assert t[i..][..j - i] == t[i..j] && t[i..][j - i..] == t[j..];
  }

  lemma GroupOctets(g: seq<byte>)
    requires 1 <= |g| <= 3
    ensures var s := GroupBits(g);
            && s[..8] == Bits(g[0], 8)
            && s[8..16] == Bits(if |g| > 1 then g[1] else 0, 8)
            && s[16..] == Bits(if |g| > 2 then g[2] else 0, 8)
  {
  }

  lemma TwoSextets(a: seq<bool>, b: seq<bool>, s: seq<bool>)
    requires |a| == |b| == 6 && |s| == 24
    ensures a + b == s[..12] <==> a == s[..6] && b == s[6..12]
  {
    SameParts(a + b, s[..12], 6);
    assert (a + b)[..6] == a && (a + b)[6..] == b && s[..12][..6] == s[..6] && s[..12][6..] == s[6..12];
  }

  lemma AllClear(s: seq<bool>, t: seq<bool>)
    requires |s| == |t| && NoneSet(t)
    ensures NoneSet(s) <==> s == t
  {
  }

  lemma OneOctet(two: seq<bool>, g: seq<byte>)
    requires |two| == 12 && |g| == 1
    ensures two == GroupBits(g)[..12] <==> [EightBits(two[..8])] == g && NoneSet(two[8..])
  {
    var s := GroupBits(g)[..12];
    BitsOfZero(8);
    GroupOctets(g);
    ByteBits(g[0], two[..8]);
    SameParts(two, s, 8);
    assert s[..8] == GroupBits(g)[..8] && s[8..] == GroupBits(g)[8..16][..4];
    assert g == [g[0]];
    AllClear(two[8..], s[8..]);
  }

  lemma UnquadOne(q: seq<byte>, g: seq<byte>)
    requires |q| == 4 && |g| == 1
    ensures Unquad(q) == Some(g) <==> q == Quad(g)
  {
    var s := GroupBits(g);
    assert q == [q[0], q[1], q[2], q[3]];
    LetterBits(q[0], s[..6]);
    LetterBits(q[1], s[6..12]);
    if Value(q[0]).Some? && Value(q[1]).Some? {
      var a, b := Bits(Value(q[0]).value, 6), Bits(Value(q[1]).value, 6);
      TwoSextets(a, b, s);
      OneOctet(a + b, g);
    }
  }

  lemma ThreeSextets(a: seq<bool>, b: seq<bool>, c: seq<bool>, s: seq<bool>)
    requires |a| == |b| == |c| == 6 && |s| == 24
    ensures a + b + c == s[..18] <==> a == s[..6] && b == s[6..12] && c == s[12..18]
  {
    var three := a + b + c;
    ThreeParts(three, s[..18], 6, 12);
    assert three[..6] == a && three[6..12] == b && three[12..] == c;
    assert s[..18][..6] == s[..6] && s[..18][6..12] == s[6..12] && s[..18][12..] == s[12..18];
  }

  lemma TwoOctets(three: seq<bool>, g: seq<byte>)
    requires |three| == 18 && |g| == 2
    ensures three == GroupBits(g)[..18]
            <==> [EightBits(three[..8]), EightBits(three[8..16])] == g && NoneSet(three[16..])
  {
    var s := GroupBits(g)[..18];
    BitsOfZero(8);
    GroupOctets(g);
    ByteBits(g[0], three[..8]);
    ByteBits(g[1], three[8..16]);
    ThreeParts(three, s, 8, 16);
    assert s[..8] == GroupBits(g)[..8] && s[8..16] == GroupBits(g)[8..16] && s[16..] == GroupBits(g)[16..][..2];
    assert g == [g[0], g[1]];
    AllClear(three[16..], s[16..]);
  }

  lemma UnquadTwo(q: seq<byte>, g: seq<byte>)
    requires |q| == 4 && |g| == 2
    ensures Unquad(q) == Some(g) <==> q == Quad(g)
  {
    var s := GroupBits(g);
    assert q == [q[0], q[1], q[2], q[3]];
    LetterBits(q[0], s[..6]);
    LetterBits(q[1], s[6..12]);
    LetterBits(q[2], s[12..18]);
    if Value(q[0]).Some? && Value(q[1]).Some? && Value(q[2]).Some? {
      var a, b, c := Bits(Value(q[0]).value, 6), Bits(Value(q[1]).value, 6), Bits(Value(q[2]).value, 6);
      ThreeSextets(a, b, c, s);
      TwoOctets(a + b + c, g);
    }
  }

  lemma FourSextets(a: seq<bool>, b: seq<bool>, c: seq<bool>, d: seq<bool>, s: seq<bool>)
    requires |a| == |b| == |c| == |d| == 6 && |s| == 24
    ensures a + b + c + d == s <==> a == s[..6] && b == s[6..12] && c == s[12..18] && d == s[18..]
  {
    var four := a + b + c + d;
    ThreeParts(four, s, 6, 12);
    SameParts(four[12..], s[12..], 6);
    assert four[..6] == a && four[6..12] == b && four[12..][..6] == c && four[12..][6..] == d;
    assert s[12..][..6] == s[12..18] && s[12..][6..] == s[18..];
  }

  lemma ThreeOctets(four: seq<bool>, g: seq<byte>)
    requires |four| == 24 && |g| == 3
    ensures four == GroupBits(g) <==> [EightBits(four[..8]), EightBits(four[8..16]), EightBits(four[16..])] == g
  {
    var s := GroupBits(g);
    ByteBits(g[0], four[..8]);
    ByteBits(g[1], four[8..16]);
    ByteBits(g[2], four[16..]);
    ThreeParts(four, s, 8, 16);
    GroupOctets(g);
    assert g == [g[0], g[1], g[2]];
  }

  lemma UnquadThree(q: seq<byte>, g: seq<byte>)
    requires |q| == 4 && |g| == 3
    ensures Unquad(q) == Some(g) <==> q == Quad(g)
  {
    var s := GroupBits(g);
    assert q == [q[0], q[1], q[2], q[3]];
    LetterBits(q[0], s[..6]);
    LetterBits(q[1], s[6..12]);
    LetterBits(q[2], s[12..18]);
    LetterBits(q[3], s[18..]);
    if Value(q[0]).Some? && Value(q[1]).Some? && Value(q[2]).Some? && Value(q[3]).Some? {
      var a, b := Bits(Value(q[0]).value, 6), Bits(Value(q[1]).value, 6);
      var c, d := Bits(Value(q[2]).value, 6), Bits(Value(q[3]).value, 6);
      FourSextets(a, b, c, d, s);
      ThreeOctets(a + b + c + d, g);
    }
  }

  /** Decoding inverts encoding, and accepts nothing but encodings. */
  lemma {:induction false} DecodeIff(t: seq<byte>, s: seq<byte>)
    ensures Decode(t) == Some(s) <==> t == Encode(s)
    decreases |t| + |s|
  {
    if t == Encode(s) && |s| > 0 {
      var g, rest := s[..Min(3, |s|)], s[Min(3, |s|)..];
      assert t[..4] == Quad(g) && t[4..] == Encode(rest) && s == g + rest;
      UnquadIff(t[..4], g);
      DecodeIff(t[4..], rest);
    }
    if Decode(t) == Some(s) && |t| > 0 {
      var g, rest := Unquad(t[..4]).value, Decode(t[4..]).value;
      UnquadIff(t[..4], g);
      DecodeIff(t[4..], rest);
      assert t == t[..4] + t[4..] && s == g + rest;
      if |g| < 3 {
        assert t[4..] == [] && rest == [];
      }
      assert s[..Min(3, |s|)] == g && s[Min(3, |s|)..] == rest;
    }
  }

  // ---- The encoder over a buffer ----

  lemma FirstQuad(input: seq<byte>, i: nat)
    requires i < |input|
    ensures var n := Min(3, |input| - i);
            Encode(input[i..]) == Quad(input[i..i + n]) + Encode(input[i + n..])
  {
    var n := Min(3, |input| - i);
    assert input[i..][..n] == input[i..i + n] && input[i..][n..] == input[i + n..];
  }

  lemma Regroup(a: seq<byte>, b: seq<byte>, c: seq<byte>)
    ensures a + (b + c) == a + b + c
  {
  }

  /** Shifting and masking the 24-bit group gives its four sextets. */
  lemma SplitGroup(s: seq<bool>)
    requires |s| == 24
    ensures var v := Number(s);
            && v / 0x4_0000 % 64 == Number(s[..6]) && v / 0x1000 % 64 == Number(s[6..12])
            && v / 0x40 % 64 == Number(s[12..18]) && v % 64 == Number(s[18..])
  {
    SextetNumber(s);
    FourDigits(Number(s[..6]), Number(s[6..12]), Number(s[12..18]), Number(s[18..]));
  }

  lemma SextetNumber(s: seq<bool>)
    requires |s| == 24
    ensures Number(s) == ((Number(s[..6]) * 64 + Number(s[6..12])) * 64 + Number(s[12..18])) * 64 + Number(s[18..])
  {
    assert s == s[..18] + s[18..] && s[..18] == s[..12] + s[12..18] && s[..12] == s[..6] + s[6..12];
    JoinSix(s[..18], s[18..]);
    JoinSix(s[..12], s[12..18]);
    JoinSix(s[..6], s[6..12]);
  }

  lemma FourDigits(a: sextet, b: sextet, c: sextet, d: sextet)
    ensures var v := ((a * 64 + b) * 64 + c) * 64 + d;
            && v / 0x4_0000 % 64 == a && v / 0x1000 % 64 == b && v / 0x40 % 64 == c && v % 64 == d
  {
    var v := ((a * 64 + b) * 64 + c) * 64 + d;
    assert v / 0x40 == (a * 64 + b) * 64 + c;
    assert v / 0x1000 == a * 64 + b;
    assert v / 0x4_0000 == a;
  }

  lemma GroupNumber(x: byte, y: byte, z: byte)
    ensures Number(Bits(x, 8) + Bits(y, 8) + Bits(z, 8)) == x as int * 0x1_0000 + y as int * 0x100 + z as int
  {
    NumberOfBits(x, 8);
    NumberOfBits(y, 8);
    NumberOfBits(z, 8);
    JoinEight(Bits(x, 8), Bits(y, 8));
    JoinEight(Bits(x, 8) + Bits(y, 8), Bits(z, 8));
  }

  /** The letters of a group, from its 24-bit number. */
  lemma QuadOfNumber(g: seq<byte>, v: nat)
    requires 1 <= |g| <= 3
    requires v == g[0] as int * 0x1_0000 + (if |g| > 1 then g[1] as int * 0x100 else 0) + (if |g| > 2 then g[2] as int else 0)
    ensures Quad(g) == [Letter(v / 0x4_0000 % 64), Letter(v / 0x1000 % 64),
                        if |g| > 1 then Letter(v / 0x40 % 64) else PAD, if |g| > 2 then Letter(v % 64) else PAD]
  {
    GroupNumber(g[0], if |g| > 1 then g[1] else 0, if |g| > 2 then g[2] else 0);
    SplitGroup(GroupBits(g));
  }

  method WriteQuad(g: seq<byte>, out: array<byte>, o: nat)
    requires 1 <= |g| <= 3 && o + 4 < out.Length
    modifies out
    ensures out[..o + 4] == old(out[..o]) + Quad(g)
  {
    var v := g[0] as int * 0x1_0000;
    if |g| > 1 {
      v := v + g[1] as int * 0x100;
    }
    if |g| > 2 {
      v := v + g[2] as int;
    }
    QuadOfNumber(g, v);
    ghost var q := Quad(g);
    out[o] := Letter(v / 0x4_0000 % 64);
    out[o + 1] := Letter(v / 0x1000 % 64);
    out[o + 2] := if |g| > 1 then Letter(v / 0x40 % 64) else PAD;
    out[o + 3] := if |g| > 2 then Letter(v % 64) else PAD;
    assert out[o..o + 4] == q;
  }

  /** Writes the encoding and a terminator, or fails when they do not fit. */
  method B64Encode(input: seq<byte>, out: array<byte>) returns (ok: bool)
    modifies out
    ensures ok <==> EncodedLength(|input|) + 1 <= out.Length
    ensures ok ==> out[..EncodedLength(|input|)] == Encode(input) && out[EncodedLength(|input|)] == 0
  {
    EncodeLength(input);
    if out.Length == 0 {
      return false;
    }
    ok := EncodeInto(input, out);
  }

  method EncodeInto(input: seq<byte>, out: array<byte>) returns (ok: bool)
    requires 0 < out.Length
    modifies out
    ensures ok <==> |Encode(input)| < out.Length
    ensures ok ==> out[..|Encode(input)|] == Encode(input) && out[|Encode(input)|] == 0
  {
    var o, i := 0, 0;
    while i < |input|
      invariant 0 <= i <= |input| && o < out.Length
      invariant Encode(input) == out[..o] + Encode(input[i..])
    {
      var left := |input| - i;
      FirstQuad(input, i);
      if o + 4 >= out.Length {
        return false;
      }
      ghost var rest := Encode(input[i + Min(3, left)..]);
      Regroup(out[..o], Quad(input[i..i + Min(3, left)]), rest);
      WriteQuad(input[i..i + Min(3, left)], out, o);
      o := o + 4;
      i := i + if left > 3 then 3 else left;
    }
    assert input[i..] == [] && Encode(input) == out[..o];
    out[o] := 0;
    return true;
  }

  // ---- Basic credentials (section 2 of RFC 7617) ----

  const COLON: byte := 58
  const RAW_MAX: nat := 320
  const ENC_MAX: nat := 440
  /** "Authorization: Basic " */
  const PREFIX: seq<byte> := [65, 117, 116, 104, 111, 114, 105, 122, 97, 116, 105, 111, 110, 58, 32, 66, 97, 115, 105, 99, 32]
  const CRLF: seq<byte> := [13, 10]

  /** The field name and scheme as text. */
  lemma PrefixText()
    ensures var text := "Authorization: Basic ";
            |PREFIX| == |text| && forall i :: 0 <= i < |text| ==> PREFIX[i] == text[i] as int
  {
  }

  /** A credential line: the name of the field and scheme, the encoded credentials, a line end. */
  function Line(prefix: seq<byte>, user: seq<byte>, pass: seq<byte>): seq<byte> {
    prefix + Encode(user + [COLON] + pass) + CRLF
  }

  /** The credential header line for a buffer of hdrSize bytes; a missing password is an empty one. */
  method BuildBasicAuth(user: seq<byte>, pass: seq<byte>, hdrSize: nat) returns (hdr: Option<seq<byte>>)
    ensures hdr.Some? <==> 0 < |user| && |user| + 1 + |pass| < 320 && 16 <= hdrSize && |Line(PREFIX, user, pass)| < hdrSize
    ensures hdr.Some? ==> hdr.value == Line(PREFIX, user, pass)
  {
    EncodeLength(user + [COLON] + pass);
    if |user| == 0 || hdrSize < 16 {
      return None;
    }
    var raw := user + [COLON] + pass;
    if |raw| >= RAW_MAX {
      return None;
    }
    var enc := new byte[ENC_MAX];
    var ok := B64Encode(raw, enc);
    if !ok {
      return None;
    }
    var line := PREFIX + enc[..EncodedLength(|raw|)] + CRLF;
    if |line| >= hdrSize {
      return None;
    }
    return Some(line);
  }

  /** What a server reads from a line with this prefix: user and password around the first colon. */
  function ReadLine(prefix: seq<byte>, line: seq<byte>): Option<(seq<byte>, seq<byte>)> {
    if |line| < |prefix| + 2 || line[..|prefix|] != prefix || line[|line| - 2..] != [13, 10] then None
    else
      var raw := Decode(line[|prefix|..|line| - 2]);
      if raw.None? then None else SplitAtColon(raw.value)
  }

  function SplitAtColon(s: seq<byte>): Option<(seq<byte>, seq<byte>)> {
    if |s| == 0 then None
    else if s[0] == 58 then Some(([], s[1..]))
    else
      var r := SplitAtColon(s[1..]);
      if r.None? then None else Some(([s[0]] + r.value.0, r.value.1))
  }

  lemma {:induction false} SplitJoined(user: seq<byte>, pass: seq<byte>)
    ensures SplitAtColon(user + [COLON] + pass) == Some((user, pass)) <==> COLON !in user
    ensures SplitAtColon(user + [COLON] + pass).Some?
  {
    var s := user + [COLON] + pass;
    if |user| > 0 {
      assert s[1..] == user[1..] + [COLON] + pass;
      SplitJoined(user[1..], pass);
      assert user == [user[0]] + user[1..];
    } else {
      assert s[1..] == pass;
    }
  }

  /** A server reads back the very user and password if and only if the user has no colon. */
  lemma HeaderReadsBackIff(prefix: seq<byte>, user: seq<byte>, pass: seq<byte>)
    ensures ReadLine(prefix, Line(prefix, user, pass)) == Some((user, pass)) <==> COLON !in user
  {
    var raw := user + [COLON] + pass;
    var line := Line(prefix, user, pass);
    assert line[..|prefix|] == prefix && line[|line| - 2..] == CRLF;
    assert line[|prefix|..|line| - 2] == Encode(raw);
    DecodeIff(Encode(raw), raw);
    SplitJoined(user, pass);
  }
}
