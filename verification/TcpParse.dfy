/** The IPv4/IPv6 + TCP header parser of the TCP statistics. */
module TcpParse {
  import opened Bytes
  import opened Wrappers

  const TCP: byte := 6
  const HOPOPTS: byte := 0
  const ROUTING: byte := 43
  const FRAGMENT: byte := 44
  const DSTOPTS: byte := 60

  /** An address in place of its printed form; IPv4 addresses are numbers in host order. */
  datatype Addr = V4(addr: nat) | V6(octets: seq<byte>)

  datatype RawPacket = RawPacket(src: Addr, dst: Addr, srcPort: nat, dstPort: nat, flags: byte,
                                 isIpv6: bool, ipLen: nat, seqNo: nat)

  /** A parsed packet: both addresses are of the family that `isIpv6` names. */
  type Packet = p: RawPacket | p.src.V6? == p.isIpv6 && p.dst.V6? == p.isIpv6
    witness RawPacket(V4(0), V4(0), 0, 0, 0, false, 0, 0)

  // ---- The parse, as a function of the buffer ----

  /** The fields that the TCP header at `off` supplies. */
  function WithTcp(pkt: seq<byte>, off: nat, src: Addr, dst: Addr, ipLen: nat): (p: Packet)
    requires off + 14 <= |pkt| && src.V6? == dst.V6?
  {
    RawPacket(src, dst, Be16(pkt, off), Be16(pkt, off + 2), pkt[off + 13], src.V6?, ipLen, Be32(pkt, off + 4))
  }

  predicate IsSized(kind: byte) {
    kind == HOPOPTS || kind == ROUTING || kind == DSTOPTS
  }

  /** Follows extension headers from one of the given kind at `off`: the kind and position
      where the walk stops. */
  function SkipExtensions(pkt: seq<byte>, kind: byte, off: nat): (r: (byte, nat))
    decreases |pkt| - off
  {
    if kind == TCP || off + 8 > |pkt| then (kind, off)
    else if IsSized(kind) then SkipExtensions(pkt, pkt[off], off + (pkt[off + 1] as int + 1) * 8)
    else if kind == FRAGMENT then SkipExtensions(pkt, pkt[off], off + 8)
    else (kind, off)
  }

  function Parse4(pkt: seq<byte>): Option<Packet>
    requires |pkt| >= 20
  {
    var hdr := (pkt[0] as int % 16) * 4;
    if hdr < 20 || |pkt| < hdr || pkt[9] != TCP || |pkt| < hdr + 14 then None
    else
      var total := Be16(pkt, 2);
      Some(WithTcp(pkt, hdr, V4(Be32(pkt, 12)), V4(Be32(pkt, 16)), if total == 0 then |pkt| % U16 else total))
  }

  function Parse6(pkt: seq<byte>): Option<Packet> {
    if |pkt| < 54 then None
    else
      var (kind, off) := SkipExtensions(pkt, pkt[6], 40);
      if kind != TCP || off + 14 > |pkt| then None
      else Some(WithTcp(pkt, off, V6(pkt[8..24]), V6(pkt[24..40]), (Be16(pkt, 4) + 40) % U16))
  }

  function Parse(pkt: seq<byte>): Option<Packet> {
    if |pkt| < 20 then None
    else if pkt[0] / 16 == 4 then Parse4(pkt)
    else if pkt[0] / 16 == 6 then Parse6(pkt)
    else None
  }

  /** The parser as the source runs it: no read is outside the buffer and the header walk ends. */
  method ParseIpPacket(pkt: seq<byte>) returns (r: Option<Packet>)
    ensures r == Parse(pkt)
  {
    if |pkt| < 20 {
      return None;
    }
    var ver := pkt[0] / 16;
    if ver == 4 {
      var ihl := pkt[0] as int % 16;
      if ihl < 5 || |pkt| < ihl * 4 {
        return None;
      }
      if pkt[9] != TCP {
        return None;
      }
      if |pkt| < ihl * 4 + 14 {
        return None;
      }
      var ipLen := Be16(pkt, 2);
      if ipLen == 0 {
        ipLen := |pkt| % U16;
      }
      return Some(WithTcp(pkt, ihl * 4, V4(Be32(pkt, 12)), V4(Be32(pkt, 16)), ipLen));
    }
    if ver == 6 {
      if |pkt| < 54 {
        return None;
      }
      var nx := pkt[6];
      var off := 40;
      while nx != TCP && off + 8 <= |pkt|
        invariant SkipExtensions(pkt, pkt[6], 40) == SkipExtensions(pkt, nx, off)
        decreases |pkt| - off
      {
        if IsSized(nx) {
          var extLen := pkt[off + 1] as int;
          nx := pkt[off];
          off := off + (extLen + 1) * 8;
        } else if nx == FRAGMENT {
          nx := pkt[off];
          off := off + 8;
        } else {
          break;
        }
      }
      if nx != TCP || off + 14 > |pkt| {
        return None;
      }
      return Some(WithTcp(pkt, off, V6(pkt[8..24]), V6(pkt[24..40]), (Be16(pkt, 4) + 40) % U16));
    }
    return None;
  }

  // ---- Packets as they are built ----

  /** The first fourteen bytes of a TCP header (section 3.1 of RFC 9293). */
  datatype TcpHeader = TcpHeader(srcPort: nat, dstPort: nat, seqNo: nat, ackAndOffset: seq<byte>, flags: byte) {
    ghost predicate Valid() {
      srcPort < U16 && dstPort < U16 && seqNo < U32 && |ackAndOffset| == 5
    }

    function Build(): (s: seq<byte>)
      requires Valid()
      ensures |s| == 14
    {
      PutBe16(srcPort) + PutBe16(dstPort) + PutBe32(seqNo) + ackAndOffset + [flags]
    }
  }

  /** An IPv4 header that carries TCP, any legal header length (section 3.1 of RFC 791). */
  datatype Ip4Header = Ip4Header(ihl: nat, tos: byte, totalLen: nat, identToTtl: seq<byte>, checksum: seq<byte>,
                                 src: nat, dst: nat, options: seq<byte>) {
    ghost predicate Valid() {
      && 5 <= ihl < 16 && totalLen < U16 && |identToTtl| == 5 && |checksum| == 2
      && src < U32 && dst < U32 && |options| == (ihl - 5) * 4
    }

    function Build(): (s: seq<byte>)
      requires Valid()
      ensures |s| == ihl * 4
    {
      [64 + ihl, tos] + PutBe16(totalLen) + identToTtl + [6] + checksum + PutBe32(src) + PutBe32(dst) + options
    }
  }

  /** An IPv6 extension header (section 4 of RFC 8200): its kind, the byte after the
      next-header byte, and the rest. */
  datatype Extension = Extension(kind: byte, second: byte, body: seq<byte>) {
    // hop-by-hop options 0, routing 43 and destination options 60 give their length in units of
    // eight bytes, the first not counted; fragment 44 always has eight bytes
    ghost predicate Valid() {
      || ((kind == 0 || kind == 43 || kind == 60) && |body| == (second as int + 1) * 8 - 2)
      || (kind == 44 && |body| == 6)
    }
  }

  function FirstKind(exts: seq<Extension>): byte {
    if |exts| == 0 then 6 else exts[0].kind
  }

  function BuildChain(exts: seq<Extension>): seq<byte> {
    if |exts| == 0 then []
    else [FirstKind(exts[1..]), exts[0].second] + exts[0].body + BuildChain(exts[1..])
  }

  ghost predicate ValidChain(exts: seq<Extension>) {
    forall i :: 0 <= i < |exts| ==> exts[i].Valid()
  }

  /** A fixed IPv6 header; its next-header byte is set by the chain that follows. */
  datatype Ip6Header = Ip6Header(classLow: byte, flowLabel: seq<byte>, payloadLen: nat, hopLimit: byte,
                                 src: seq<byte>, dst: seq<byte>) {
    ghost predicate Valid() {
      classLow < 16 && |flowLabel| == 3 && payloadLen < U16 && |src| == 16 && |dst| == 16
    }

    function Build(next: byte): (s: seq<byte>)
      requires Valid()
      ensures |s| == 40
    {
      [96 + classLow] + flowLabel + PutBe16(payloadLen) + [next, hopLimit] + src + dst
    }
  }

  // ---- Parsing what was built ----

  lemma ReadTcp(t: TcpHeader, before: seq<byte>, after: seq<byte>, src: Addr, dst: Addr, ipLen: nat)
    requires t.Valid() && src.V6? == dst.V6?
    ensures WithTcp(before + t.Build() + after, |before|, src, dst, ipLen)
              == RawPacket(src, dst, t.srcPort, t.dstPort, t.flags, src.V6?, ipLen, t.seqNo)
  {
    var pkt := before + t.Build() + after;
    var off := |before|;
    assert pkt[off..off + 14] == t.Build();
    assert pkt[off..off + 2] == t.Build()[..2] == PutBe16(t.srcPort);
    assert pkt[off + 2..off + 4] == t.Build()[2..4] == PutBe16(t.dstPort);
    assert pkt[off + 4..off + 8] == t.Build()[4..8] == PutBe32(t.seqNo);
    assert pkt[off + 13] == t.Build()[13] == t.flags;
    Be16RoundTrip(pkt, off, t.srcPort);
    Be16RoundTrip(pkt, off + 2, t.dstPort);
    Be32RoundTrip(pkt, off + 4, t.seqNo);
  }

  /** Every IPv4 header with options, then a TCP header, parses to what was encoded. */
  lemma ParseBuilt4(h: Ip4Header, t: TcpHeader, rest: seq<byte>)
    requires h.Valid() && t.Valid()
    ensures var pkt := h.Build() + t.Build() + rest;
            Parse(pkt) == Some(RawPacket(V4(h.src), V4(h.dst), t.srcPort, t.dstPort, t.flags, false,
                                         if h.totalLen == 0 then |pkt| % U16 else h.totalLen, t.seqNo))
  {
    var b := h.Build();
    var pkt := b + t.Build() + rest;
    assert pkt[0] == b[0] == 64 + h.ihl;
    assert pkt[9] == b[9] == TCP;
    assert pkt[2..4] == b[2..4] == PutBe16(h.totalLen);
    assert pkt[12..16] == b[12..16] == PutBe32(h.src);
    assert pkt[16..20] == b[16..20] == PutBe32(h.dst);
    Be16RoundTrip(pkt, 2, h.totalLen);
    Be32RoundTrip(pkt, 12, h.src);
    Be32RoundTrip(pkt, 16, h.dst);
    ReadTcp(t, b, rest, V4(h.src), V4(h.dst), if h.totalLen == 0 then |pkt| % U16 else h.totalLen);
  }

  /** The walk passes exactly the chain that was built, whatever stands around it. */
  lemma {:induction false} SkipBuiltChain(before: seq<byte>, exts: seq<Extension>, after: seq<byte>)
    requires ValidChain(exts)
    ensures SkipExtensions(before + BuildChain(exts) + after, FirstKind(exts), |before|)
              == (6, |before| + |BuildChain(exts)|)
    decreases |exts|
  {
    var pkt := before + BuildChain(exts) + after;
    if |exts| > 0 {
      var e := exts[0];
      var head := [FirstKind(exts[1..]), e.second] + e.body;
      assert BuildChain(exts) == head + BuildChain(exts[1..]);
      assert pkt == (before + head) + BuildChain(exts[1..]) + after;
      assert pkt[|before|] == head[0] == FirstKind(exts[1..]);
      assert pkt[|before| + 1] == head[1] == e.second;
      SkipBuiltChain(before + head, exts[1..], after);
    }
  }

  lemma Read6(h: Ip6Header, next: byte, after: seq<byte>)
    requires h.Valid()
    ensures var pkt := h.Build(next) + after;
            && pkt[0] / 16 == 6 && pkt[6] == next && Be16(pkt, 4) == h.payloadLen
            && pkt[8..24] == h.src && pkt[24..40] == h.dst
  {
    var b := h.Build(next);
    var pkt := b + after;
    assert pkt[0] == b[0] == 96 + h.classLow;
    assert pkt[6] == b[6] == next;
    assert pkt[4..6] == b[4..6] == PutBe16(h.payloadLen);
    assert pkt[8..24] == b[8..24] == h.src;
    assert pkt[24..40] == b[24..40] == h.dst;
    Be16RoundTrip(pkt, 4, h.payloadLen);
  }

  /** Every IPv6 header, then any chain of extension headers, then a TCP header, parses to what
      was encoded. */
  lemma ParseBuilt6(h: Ip6Header, exts: seq<Extension>, t: TcpHeader, rest: seq<byte>)
    requires h.Valid() && ValidChain(exts) && t.Valid()
    ensures Parse(h.Build(FirstKind(exts)) + BuildChain(exts) + t.Build() + rest)
              == Some(RawPacket(V6(h.src), V6(h.dst), t.srcPort, t.dstPort, t.flags, true,
                                (h.payloadLen + 40) % U16, t.seqNo))
  {
    var b, chain, tcp := h.Build(FirstKind(exts)), BuildChain(exts), t.Build();
    Regroup(b, chain, tcp, rest);
    Read6(h, FirstKind(exts), chain + tcp + rest);
    SkipBuiltChain(b, exts, tcp + rest);
    Parse6At(b + chain + tcp + rest, |b + chain|, h, FirstKind(exts));
    ReadTcp(t, b + chain, rest, V6(h.src), V6(h.dst), (h.payloadLen + 40) % U16);
  }

  lemma Regroup(a: seq<byte>, b: seq<byte>, c: seq<byte>, d: seq<byte>)
    ensures a + b + c + d == a + (b + c + d) == a + b + (c + d)
  {
  }

  lemma Parse6At(pkt: seq<byte>, off: nat, h: Ip6Header, next: byte)
    requires 54 <= |pkt| && off + 14 <= |pkt| && SkipExtensions(pkt, next, 40) == (TCP, off)
    requires pkt[0] / 16 == 6 && pkt[6] == next && Be16(pkt, 4) == h.payloadLen
    requires pkt[8..24] == h.src && pkt[24..40] == h.dst
    ensures Parse(pkt) == Some(WithTcp(pkt, off, V6(h.src), V6(h.dst), (h.payloadLen + 40) % U16))
  {
  }

  // ---- Every packet that parses was built so ----

  lemma TcpAt(pkt: seq<byte>, off: nat) returns (t: TcpHeader)
    requires off + 14 <= |pkt|
    ensures t.Valid() && pkt[off..off + 14] == t.Build()
  {
    t := TcpHeader(Be16(pkt, off), Be16(pkt, off + 2), Be32(pkt, off + 4), pkt[off + 8..off + 13], pkt[off + 13]);
    PutBe16Read(pkt, off);
    PutBe16Read(pkt, off + 2);
    PutBe32Read(pkt, off + 4);
    assert pkt[off..off + 14]
        == pkt[off..off + 2] + pkt[off + 2..off + 4] + pkt[off + 4..off + 8] + pkt[off + 8..off + 13] + [pkt[off + 13]];
  }

  lemma {:induction false} ChainAt(pkt: seq<byte>, kind: byte, off: nat, end: nat) returns (exts: seq<Extension>)
    requires SkipExtensions(pkt, kind, off) == (TCP, end) && end <= |pkt|
    ensures off <= end && ValidChain(exts) && FirstKind(exts) == kind && pkt[off..end] == BuildChain(exts)
    decreases |pkt| - off
  {
    if kind == TCP {
      exts := [];
    } else {
      var size := if IsSized(kind) then (pkt[off + 1] as int + 1) * 8 else 8;
      var more := ChainAt(pkt, pkt[off], off + size, end);
      var e := Extension(kind, pkt[off + 1], pkt[off + 2..off + size]);
      exts := [e] + more;
      assert exts[1..] == more;
      assert pkt[off..end] == [pkt[off], pkt[off + 1]] + pkt[off + 2..off + size] + pkt[off + size..end];
    }
  }

  lemma Header4At(pkt: seq<byte>) returns (h: Ip4Header)
    requires Parse(pkt).Some? && !Parse(pkt).value.isIpv6
    ensures h.Valid() && h.ihl == pkt[0] as int % 16 && h.ihl * 4 + 14 <= |pkt| && pkt[..h.ihl * 4] == h.Build()
  {
    var ihl := pkt[0] as int % 16;
    h := Ip4Header(ihl, pkt[1], Be16(pkt, 2), pkt[4..9], pkt[10..12], Be32(pkt, 12), Be32(pkt, 16), pkt[20..ihl * 4]);
    PutBe16Read(pkt, 2);
    PutBe32Read(pkt, 12);
    PutBe32Read(pkt, 16);
    assert pkt[..ihl * 4] == [pkt[0], pkt[1]] + pkt[2..4] + pkt[4..9] + [pkt[9]] + pkt[10..12]
           + pkt[12..16] + pkt[16..20] + pkt[20..ihl * 4];
  }

  /** A buffer parses as IPv4 exactly when it is some IPv4 header, a TCP header and a rest. */
  lemma Parse4Iff(pkt: seq<byte>)
    ensures (Parse(pkt).Some? && !Parse(pkt).value.isIpv6)
            <==> exists h: Ip4Header, t: TcpHeader, rest: seq<byte> ::
                   h.Valid() && t.Valid() && pkt == h.Build() + t.Build() + rest
  {
    if Parse(pkt).Some? && !Parse(pkt).value.isIpv6 {
      var h := Header4At(pkt);
      var t := TcpAt(pkt, h.ihl * 4);
      assert pkt == h.Build() + t.Build() + pkt[h.ihl * 4 + 14..];
    }
    forall h: Ip4Header, t: TcpHeader, rest: seq<byte> | h.Valid() && t.Valid() && pkt == h.Build() + t.Build() + rest
      ensures Parse(pkt).Some? && !Parse(pkt).value.isIpv6
    {
      ParseBuilt4(h, t, rest);
    }
  }

  lemma Header6At(pkt: seq<byte>) returns (h: Ip6Header)
    requires 40 <= |pkt| && pkt[0] / 16 == 6
    ensures h.Valid() && pkt[..40] == h.Build(pkt[6])
  {
    h := Ip6Header(pkt[0] % 16, pkt[1..4], Be16(pkt, 4), pkt[7], pkt[8..24], pkt[24..40]);
    PutBe16Read(pkt, 4);
    assert pkt[..40] == [pkt[0]] + pkt[1..4] + pkt[4..6] + [pkt[6], pkt[7]] + pkt[8..24] + pkt[24..40];
  }

  /** A buffer parses as IPv6 exactly when it is some IPv6 header, an extension chain, a TCP
      header and a rest. */
  lemma Parse6Iff(pkt: seq<byte>)
    ensures (Parse(pkt).Some? && Parse(pkt).value.isIpv6)
            <==> exists h: Ip6Header, exts: seq<Extension>, t: TcpHeader, rest: seq<byte> ::
                   h.Valid() && ValidChain(exts) && t.Valid()
                   && pkt == h.Build(FirstKind(exts)) + BuildChain(exts) + t.Build() + rest
  {
    if Parse(pkt).Some? && Parse(pkt).value.isIpv6 {
      var end := SkipExtensions(pkt, pkt[6], 40).1;
      var exts := ChainAt(pkt, pkt[6], 40, end);
      var h := Header6At(pkt);
      var t := TcpAt(pkt, end);
      assert pkt == h.Build(FirstKind(exts)) + BuildChain(exts) + t.Build() + pkt[end + 14..];
    }
    forall h: Ip6Header, exts: seq<Extension>, t: TcpHeader, rest: seq<byte> |
      h.Valid() && ValidChain(exts) && t.Valid()
      && pkt == h.Build(FirstKind(exts)) + BuildChain(exts) + t.Build() + rest
      ensures Parse(pkt).Some? && Parse(pkt).value.isIpv6
    {
      ParseBuilt6(h, exts, t, rest);
    }
  }
}
