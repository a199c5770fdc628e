/** Hexadecimal numerals, and `strtoul` in base 16. */
module HexNumerals {
  import opened Bytes
  import opened Wrappers

  /** How many values an `unsigned long` has on the target, and a `size_t` with it: the agent is
      built for 32-bit and for 64-bit ones. */
  type Word = n: nat | n == 0x1_0000_0000 || n == 0x1_0000_0000_0000_0000 witness 0x1_0000_0000
  const ULONG: Word

  datatype Numeral = Numeral(value: nat, used: nat)

  // ---- Reading ----

  function HexValue(c: byte): Option<nat> {
    if 48 <= c < 58 then Some(c - 48)
    else if 97 <= c < 103 then Some(c - 97 + 10)
    else if 65 <= c < 71 then Some(c - 65 + 10)
    else None
  }

  predicate IsHex(c: byte) {
    HexValue(c).Some?
  }

  /** How many leading bytes are hexadecimal digits. */
  function DigitCount(s: seq<byte>): (n: nat)
    ensures n <= |s|
  {
    if |s| == 0 || !IsHex(s[0]) then 0 else 1 + DigitCount(s[1..])
  }

  function HexNumber(digits: seq<byte>): nat {
    if |digits| == 0 then 0
    else
      var v := HexValue(digits[|digits| - 1]);
      HexNumber(digits[..|digits| - 1]) * 16 + if v.Some? then v.value else 0
  }

  function SpaceCount(s: seq<byte>): (n: nat)
    ensures n <= |s|
  {
    if |s| > 0 && (s[0] == 32 || 9 <= s[0] < 14) then 1 + SpaceCount(s[1..]) else 0
  }

  /** Digits after an optional 0x, which counts only before a digit. */
  function Unsigned(t: seq<byte>): (r: Numeral)
    ensures r.used <= |t|
  {
    if DigitCount(t) == 0 then Numeral(0, 0)
    else
      var prefix := if |t| >= 3 && t[0] == 48 && (t[1] == 120 || t[1] == 88) && IsHex(t[2]) then 2 else 0;
      var n := DigitCount(t[prefix..]);
      Numeral(HexNumber(t[prefix..][..n]), prefix + n)
  }

  /** The same after an optional sign, as an `unsigned long`; too large a number saturates. */
  function Signed(u: seq<byte>): (r: Numeral)
    ensures r.used <= |u| && r.value < ULONG
  {
    var sign := if |u| > 0 && (u[0] == 43 || u[0] == 45) then 1 else 0;
    var r := Unsigned(u[sign..]);
    if r.used == 0 then Numeral(0, 0)
    else Numeral(if r.value >= ULONG then ULONG - 1
                 else if sign == 1 && u[0] == 45 && r.value > 0 then ULONG - r.value
                 else r.value,
                 sign + r.used)
  }

  /** The number at the start of a string, after white space, and how many bytes it takes; none if
      there is no number. */
  function Strtoul(s: seq<byte>): (r: Numeral)
    ensures r.used <= |s| && r.value < ULONG
  {
    var w := SpaceCount(s);
    var r := Signed(s[w..]);
    if r.used == 0 then Numeral(0, 0) else Numeral(r.value, w + r.used)
  }

  // ---- Spelling ----

  /** The byte is a digit for d: 0 to 9, and then A to F in either case. */
  predicate IsDigit(c: byte, d: nat) {
    (d < 10 && c == 48 + d) || (10 <= d < 16 && (c == 65 + (d - 10) || c == 97 + (d - 10)))
  }

  /** A spelling of n: its digits, most significant first, in any case, after any number of zeros. */
  predicate Spells(s: seq<byte>, n: nat) {
    && |s| > 0 && IsDigit(s[|s| - 1], n % 16)
    && if |s| == 1 then n < 16 else Spells(s[..|s| - 1], n / 16)
  }

  /** 0 to 9, A to F and a to f. */
  predicate IsDigitChar(c: byte) {
    48 <= c <= 57 || 65 <= c <= 70 || 97 <= c <= 102
  }

  predicate IsBlank(c: byte) {
    c == 9 || c == 10 || c == 11 || c == 12 || c == 13 || c == 32
  }

  lemma DigitIff(c: byte, d: nat)
    ensures IsDigit(c, d) <==> HexValue(c) == Some(d)
    ensures IsHex(c) <==> IsDigitChar(c)
  {
  }

  lemma {:induction false} AllDigits(s: seq<byte>)
    ensures DigitCount(s) == |s| <==> forall k :: 0 <= k < |s| ==> IsHex(s[k])
  {
    if |s| > 0 {
      AllDigits(s[1..]);
      assert forall k :: 1 <= k < |s| ==> s[k] == s[1..][k - 1];
    }
  }

  lemma LastDigit(s: seq<byte>)
    requires |s| > 0
    ensures DigitCount(s) == |s| <==> DigitCount(s[..|s| - 1]) == |s| - 1 && IsHex(s[|s| - 1])
  {
    AllDigits(s);
    AllDigits(s[..|s| - 1]);
    assert forall k :: 0 <= k < |s| - 1 ==> s[k] == s[..|s| - 1][k];
  }

  /** A string of digits is read as n, whole, exactly when it spells n. */
  lemma {:induction false} SpellsIff(s: seq<byte>, n: nat)
    ensures Spells(s, n) <==> 0 < |s| == DigitCount(s) && HexNumber(s) == n
  {
    if |s| > 0 {
      var before, last := s[..|s| - 1], s[|s| - 1];
      LastDigit(s);
      DigitIff(last, n % 16);
      SpellsIff(before, n / 16);
      if |s| == 1 {
        assert before == [];
        DigitIff(last, n);
      }
    }
  }

  lemma FirstDigit(s: seq<byte>, n: nat)
    requires Spells(s, n)
    ensures IsDigitChar(s[0]) && DigitCount(s) == |s|
  {
    SpellsIff(s, n);
    AllDigits(s);
    DigitIff(s[0], 0);
  }

  lemma {:induction false} DigitsEnd(digits: seq<byte>, after: seq<byte>)
    requires DigitCount(digits) == |digits| && (|after| > 0 ==> !IsHex(after[0]))
    ensures DigitCount(digits + after) == |digits|
  {
    if |digits| > 0 {
      assert (digits + after)[1..] == digits[1..] + after;
      DigitsEnd(digits[1..], after);
    } else {
      assert digits + after == after;
    }
  }

  lemma {:induction false} BlanksEnd(blanks: seq<byte>, after: seq<byte>)
    requires (forall k :: 0 <= k < |blanks| ==> IsBlank(blanks[k])) && (|after| > 0 ==> !IsBlank(after[0]))
    ensures SpaceCount(blanks + after) == |blanks|
  {
    if |blanks| > 0 {
      assert (blanks + after)[1..] == blanks[1..] + after;
      BlanksEnd(blanks[1..], after);
    } else {
      assert blanks + after == after;
    }
  }

  // ---- What strtoul makes of a numeral ----

  predicate IsSign(s: seq<byte>) {
    s == [] || s == [43] || s == [45]
  }

  predicate IsPrefix(s: seq<byte>) {
    s == [] || s == [48, 120] || s == [48, 88]
  }

  /** The value as an `unsigned long`: the greatest if it is too large, negated after a minus. */
  function Limited(n: nat, negative: bool): nat {
    if n >= ULONG then ULONG - 1 else if negative && n > 0 then ULONG - n else n
  }

  /** What follows neither continues the digits nor makes a prefix of them. */
  predicate EndsNumeral(prefix: seq<byte>, digits: seq<byte>, after: seq<byte>) {
    && (|after| > 0 ==> !IsDigitChar(after[0]))
    && (prefix == [] && digits == [48] && |after| >= 2 && (after[0] == 120 || after[0] == 88) ==> !IsDigitChar(after[1]))
  }

  lemma DigitsOf(digits: seq<byte>, n: nat, after: seq<byte>)
    requires Spells(digits, n) && (|after| > 0 ==> !IsDigitChar(after[0]))
    ensures var u := digits + after;
            && IsDigitChar(u[0]) && DigitCount(u) == |digits| && HexNumber(u[..|digits|]) == n
            && (|digits| > 1 ==> IsDigitChar(u[1]))
  {
    SpellsIff(digits, n);
    FirstDigit(digits, n);
    AllDigits(digits);
    if |digits| > 1 {
      DigitIff(digits[1], 0);
    }
    if |after| > 0 {
      DigitIff(after[0], 0);
    }
    DigitsEnd(digits, after);
    assert (digits + after)[..|digits|] == digits;
  }

  lemma ReadPlain(digits: seq<byte>, n: nat, after: seq<byte>)
    requires Spells(digits, n) && EndsNumeral([], digits, after)
    ensures Unsigned(digits + after) == Numeral(n, |digits|)
  {
    var t := digits + after;
    DigitsOf(digits, n, after);
    assert t[0..] == t;
    if |t| >= 3 && t[0] == 48 && (t[1] == 120 || t[1] == 88) {
      assert digits == [48] && after[0] == t[1] && after[1] == t[2];
      DigitIff(after[1], 0);
    }
  }

  lemma ReadPrefixed(prefix: seq<byte>, digits: seq<byte>, n: nat, after: seq<byte>)
    requires IsPrefix(prefix) && prefix != [] && Spells(digits, n) && EndsNumeral(prefix, digits, after)
    ensures Unsigned(prefix + (digits + after)) == Numeral(n, 2 + |digits|)
  {
    var u := digits + after;
    var t := prefix + u;
    DigitsOf(digits, n, after);
    DigitIff(u[0], 0);
    assert t[0] == 48 && t[1] == prefix[1] && t[2] == u[0] && t[2..] == u;
  }

  lemma ReadUnsigned(prefix: seq<byte>, digits: seq<byte>, n: nat, after: seq<byte>)
    requires IsPrefix(prefix) && Spells(digits, n) && EndsNumeral(prefix, digits, after)
    ensures var t := prefix + (digits + after);
            |t| > 0 && IsDigitChar(t[0]) && Unsigned(t) == Numeral(n, |prefix| + |digits|)
  {
    DigitsOf(digits, n, after);
    if prefix == [] {
      ReadPlain(digits, n, after);
      assert prefix + (digits + after) == digits + after;
    } else {
      ReadPrefixed(prefix, digits, n, after);
    }
  }

  lemma ReadSigned(sign: seq<byte>, t: seq<byte>)
    requires IsSign(sign) && |t| > 0 && IsDigitChar(t[0]) && Unsigned(t).used > 0
    ensures var u, r := sign + t, Unsigned(t);
            !IsBlank(u[0]) && Signed(u) == Numeral(Limited(r.value, sign == [45]), |sign| + r.used)
  {
    var u := sign + t;
    assert u[|sign|..] == t;
    assert u[0] == (if sign == [] then t[0] else sign[0]);
    assert sign == [45] <==> |sign| == 1 && sign[0] == 45;
  }

  lemma ReadBlanks(blanks: seq<byte>, u: seq<byte>)
    requires (forall k :: 0 <= k < |blanks| ==> IsBlank(blanks[k])) && (|u| > 0 ==> !IsBlank(u[0]))
    ensures var r := Signed(u);
            Strtoul(blanks + u) == if r.used == 0 then Numeral(0, 0) else Numeral(r.value, |blanks| + r.used)
  {
    BlanksEnd(blanks, u);
    assert (blanks + u)[|blanks|..] == u;
  }

  /** White space, a sign, an 0x and a spelled number are read whole: as the number, as the greatest
      `unsigned long` if it is too large, negated after a minus sign. */
  lemma ReadNumeral(blanks: seq<byte>, sign: seq<byte>, prefix: seq<byte>, digits: seq<byte>, n: nat, after: seq<byte>)
    requires forall k :: 0 <= k < |blanks| ==> IsBlank(blanks[k])
    requires IsSign(sign) && IsPrefix(prefix) && Spells(digits, n) && EndsNumeral(prefix, digits, after)
    ensures Strtoul(blanks + (sign + (prefix + (digits + after))))
            == Numeral(Limited(n, sign == [45]), |blanks| + |sign| + |prefix| + |digits|)
  {
    var t := prefix + (digits + after);
    ReadUnsigned(prefix, digits, n, after);
    ReadSigned(sign, t);
    ReadBlanks(blanks, sign + t);
  }

  /** Without a digit after white space and a sign there is no number, and nothing is read. */
  lemma ReadNoNumeral(blanks: seq<byte>, sign: seq<byte>, after: seq<byte>)
    requires (forall k :: 0 <= k < |blanks| ==> IsBlank(blanks[k])) && IsSign(sign)
    requires |after| > 0 ==> !IsDigitChar(after[0])
    requires sign == [] && |after| > 0 ==> !IsBlank(after[0]) && after[0] != 43 && after[0] != 45
    ensures Strtoul(blanks + (sign + after)) == Numeral(0, 0)
  {
    var u := sign + after;
    assert u[|sign|..] == after;
    if |after| > 0 {
      DigitIff(after[0], 0);
      assert u[0] == (if sign == [] then after[0] else sign[0]);
    }
    ReadBlanks(blanks, u);
  }

  // ---- Printing ----

  function HexDigit(v: nat): byte
    requires v < 16
  {
    if v < 10 then 48 + v else 97 + v - 10
  }

  /** The numeral without leading zeros, in lower case. */
  function HexPrint(n: nat): (s: seq<byte>)
    ensures |s| > 0
  {
    if n < 16 then [HexDigit(n)] else HexPrint(n / 16) + [HexDigit(n % 16)]
  }

  /** Printing a size spells it, so reading it back gives the size. */
  lemma {:induction false} HexRoundTrip(n: nat)
    ensures Spells(HexPrint(n), n) && HexNumber(HexPrint(n)) == n && DigitCount(HexPrint(n)) == |HexPrint(n)|
  {
    if n >= 16 {
      HexRoundTrip(n / 16);
      assert HexPrint(n)[..|HexPrint(n)| - 1] == HexPrint(n / 16);
    }
    SpellsIff(HexPrint(n), n);
  }
}
