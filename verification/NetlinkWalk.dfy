/** The two walks over netlink datagrams: conntrack messages are fed one at a time, and NFLOG
    packet messages are searched for their payload attribute. */
module NetlinkWalk {
  import opened Bytes
  import opened Wrappers

  const NLMSG_HDR: nat := 16
  const NLMSG_ERROR: nat := 2
  const NLMSG_DONE: nat := 3
  /** Subsystem NFNL_SUBSYS_ULOG in the high byte, NFULNL_MSG_PACKET in the low one. */
  const PACKET_MSG: nat := 0x400
  /** The netlink header and the four-byte nfgenmsg. */
  const PACKET_HDR: nat := 20

  const ATTR_HDR: nat := 4
  const ATTR_PACKET_HDR: nat := 1
  const ATTR_MARK: nat := 2
  const ATTR_TIMESTAMP: nat := 3
  const ATTR_PAYLOAD: nat := 9

  // ---- Attributes ----

  datatype Attr = Attr(kind: nat, data: seq<byte>)

  /** The attributes of a message, up to the first that is malformed; the two flag bits of a
      kind are ignored. */
  function ParseAttrs(a: seq<byte>): seq<Attr> {
    if |a| < ATTR_HDR then []
    else
      var len := Le16(a, 0);
      if len < ATTR_HDR || len > |a| then []
      else [Attr(Le16(a, 2) % 0x4000, a[ATTR_HDR..len])] + ParseAttrs(a[Min(Align4(len), |a|)..])
  }

  /** What the callback is given for one packet message. */
  datatype Delivery = Delivery(payload: seq<byte>, hwProtocol: nat, mark: nat, sec: nat, usec: nat)

  const Nothing := Delivery([], 0, 0, 0, 0)

  function Be64(s: seq<byte>, at: nat): nat
    requires at + 8 <= |s|
  {
    Be32(s, at) * U32 + Be32(s, at + 4)
  }

  function Noted(d: Delivery, a: Attr): Delivery {
    if a.kind == ATTR_PACKET_HDR && |a.data| >= 4 then d.(hwProtocol := Be16(a.data, 0))
    else if a.kind == ATTR_MARK && |a.data| >= 4 then d.(mark := Be32(a.data, 0))
    else if a.kind == ATTR_TIMESTAMP && |a.data| >= 16 then d.(sec := Be64(a.data, 0), usec := Be64(a.data, 8))
    else if a.kind == ATTR_PAYLOAD && |a.data| > 0 then d.(payload := a.data)
    else d
  }

  function Gather(d: Delivery, attrs: seq<Attr>): Delivery
    decreases |attrs|
  {
    if |attrs| == 0 then d else Gather(Noted(d, attrs[0]), attrs[1..])
  }

  // ---- Messages ----

  /** Callbacks in order, the returned count, and whether a control message's padded length went
      past the end of the buffer, where the source's unsigned subtraction would wrap. */
  datatype Walked = Walked(calls: seq<Delivery>, count: nat, torn: bool)

  /** The callback for one packet message, if any; attributes of 2 GiB or more have a negative
      length as an `int`, and none of them is read. */
  function Calls(attrs: seq<byte>): seq<Delivery> {
    var d := Gather(Nothing, ParseAttrs(attrs));
    if |attrs| < I32 && |d.payload| > 0 then [d] else []
  }

  function Walk(p: seq<byte>): Walked
    decreases |p|
  {
    if |p| < NLMSG_HDR then Walked([], 0, false)
    else
      var len, kind := Le32(p, 0), Le16(p, 4);
      if len < NLMSG_HDR || len > |p| then Walked([], 0, false)
      else if kind == NLMSG_DONE || kind == NLMSG_ERROR then
        if Align4(len) > |p| then Walked([], 0, true) else Walk(p[Align4(len)..])
      else
        var rest := if Align4(len) > |p| then Walked([], 0, false) else Walk(p[Align4(len)..]);
        if kind == PACKET_MSG && len > PACKET_HDR
        then Walked(Calls(p[PACKET_HDR..len]) + rest.calls, 1 + rest.count, rest.torn)
        else rest
  }

  /** The messages that the conntrack walk feeds to the decoder, each without its padding; the
      padded length is computed in 32 bits. */
  function Fed(p: seq<byte>): seq<seq<byte>>
    decreases |p|
  {
    if |p| < NLMSG_HDR then []
    else
      var len := Le32(p, 0);
      if len < NLMSG_HDR || len > |p| then []
      else
        var step := Align4(len) % U32;
        [p[..len]] + if step == 0 then [] else Fed(p[Min(step, |p|)..])
  }

  // ---- The walks as loops ----
  // A pointer into the buffer is the rest of the buffer that it points at.

  /** The attribute walk, with the message's callback if it has a payload. */
  method WalkPacketAttrs(attr: seq<byte>) returns (call: seq<Delivery>)
    requires |attr| < U32
    ensures call == Calls(attr)
  {
    var d := Nothing;
    var nla, rem: int := attr, if |attr| < I32 then |attr| else |attr| - U32;
    while rem >= ATTR_HDR && ATTR_HDR <= Le16(nla, 0) <= rem
      invariant |attr| >= I32 ==> rem < 0 && d == Nothing
      invariant |attr| < I32 ==> |nla| == Max(rem, 0)
      invariant |attr| < I32 ==> Gather(Nothing, ParseAttrs(attr)) == Gather(d, ParseAttrs(nla))
      decreases rem
    {
      var len := Le16(nla, 0);
      var a := Attr(Le16(nla, 2) % 0x4000, nla[ATTR_HDR..len]);
      FirstAttr(nla);
      d := Noted(d, a);
      nla := nla[Min(Align4(len), |nla|)..];
      rem := rem - Align4(len);
    }
    call := if |d.payload| > 0 then [d] else [];
  }

  lemma FirstAttr(a: seq<byte>)
    requires |a| >= ATTR_HDR && ATTR_HDR <= Le16(a, 0) <= |a|
    ensures var len := Le16(a, 0);
            && |ParseAttrs(a)| > 0
            && ParseAttrs(a)[0] == Attr(Le16(a, 2) % 0x4000, a[ATTR_HDR..len])
            && ParseAttrs(a)[1..] == ParseAttrs(a[Min(Align4(len), |a|)..])
  {
  }

  /** The NFLOG walk; None stands for the -1 of a buffer shorter than a header. */
  method NflogWalk(buf: seq<byte>) returns (r: Option<Walked>)
    ensures r == if |buf| < NLMSG_HDR then None else Some(Walk(buf))
  {
    if |buf| < NLMSG_HDR {
      return None;
    }
    var p, left := buf, |buf|;
    var calls, count := [], 0;
    while left >= NLMSG_HDR
      invariant |p| == left
      invariant Walk(buf) == After(calls, count, Walk(p))
      decreases left
    {
      var len, kind := Le32(p, 0), Le16(p, 4);
      if len < NLMSG_HDR || len > left {
        break;
      }
      if kind == NLMSG_DONE || kind == NLMSG_ERROR {
        if Align4(len) > left {
          assert calls + [] == calls;
          return Some(Walked(calls, count, true));
        }
        p := p[Align4(len)..];
        left := left - Align4(len);
        continue;
      }
      MessageTurn(calls, count, p);
      if kind == PACKET_MSG && len > PACKET_HDR {
        var call := WalkPacketAttrs(p[PACKET_HDR..len]);
        calls := calls + call;
        count := count + 1;
      }
      p := p[Min(Align4(len), left)..];
      if left < Align4(len) {
        left := 0;
        break;
      }
      left := left - Align4(len);
    }
    assert calls + [] == calls;
    return Some(Walked(calls, count, false));
  }

  /** What a message that is no control message does to the walk so far. */
  lemma MessageTurn(calls: seq<Delivery>, count: nat, p: seq<byte>)
    requires |p| >= NLMSG_HDR && NLMSG_HDR <= Le32(p, 0) <= |p|
    requires Le16(p, 4) != NLMSG_DONE && Le16(p, 4) != NLMSG_ERROR
    ensures var len, rest := Le32(p, 0), Walk(p[Min(Align4(Le32(p, 0)), |p|)..]);
            After(calls, count, Walk(p))
            == if Le16(p, 4) == PACKET_MSG && len > PACKET_HDR
               then After(calls + Calls(p[PACKET_HDR..len]), count + 1, rest)
               else After(calls, count, rest)
  {
    var len := Le32(p, 0);
    var rest := Walk(p[Min(Align4(len), |p|)..]);
    if Le16(p, 4) == PACKET_MSG && len > PACKET_HDR {
      CallsJoin(calls, Calls(p[PACKET_HDR..len]), rest.calls);
    }
  }

  lemma CallsJoin(a: seq<Delivery>, b: seq<Delivery>, c: seq<Delivery>)
    ensures a + (b + c) == a + b + c
  {
  }

  function After(calls: seq<Delivery>, count: nat, w: Walked): Walked {
    Walked(calls + w.calls, count + w.count, w.torn)
  }

  /** The conntrack walk, with the decoder abstracted to the messages that it is fed. */
  method FeedMessages(buf: seq<byte>) returns (fed: seq<seq<byte>>)
    ensures fed == Fed(buf)
  {
    fed := [];
    if |buf| < NLMSG_HDR {
      return;
    }
    var p, off, len := buf, 0, |buf|;
    while off + NLMSG_HDR <= len
      invariant |p| == Max(len - off, 0)
      invariant Fed(buf) == fed + Fed(p)
      decreases len - off
    {
      var nlLen := Le32(p, 0);
      if nlLen < NLMSG_HDR || off + nlLen > len {
        break;
      }
      var aligned := (nlLen + 3) % U32 / 4 * 4;
      AlignIn32Bits(nlLen);
      OneMoreFed(fed, p);
      fed := fed + [p[..nlLen]];
      if aligned == 0 {
        return;
      }
      p := p[Min(aligned, |p|)..];
      off := off + aligned;
    }
  }

  lemma AlignIn32Bits(n: nat)
    requires n < U32
    ensures (n + 3) % U32 / 4 * 4 == Align4(n) % U32
  {
    if n + 3 < U32 {
      assert (n + 3) % U32 == n + 3;
    } else {
      assert (n + 3) % U32 == n + 3 - U32 && Align4(n) == U32;
    }
  }

  /** One turn of the loop feeds the first message and leaves the walk of the rest. */
  lemma OneMoreFed(fed: seq<seq<byte>>, p: seq<byte>)
    requires |p| >= NLMSG_HDR && NLMSG_HDR <= Le32(p, 0) <= |p|
    ensures var len := Le32(p, 0);
            var step := Align4(len) % U32;
            fed + Fed(p) == fed + [p[..len]] + (if step == 0 then [] else Fed(p[Min(step, |p|)..]))
  {
    FirstFed(p);
    PutFirst(fed, Fed(p));
  }

  lemma PutFirst<T>(a: seq<T>, b: seq<T>)
    requires |b| > 0
    ensures a + b == a + [b[0]] + b[1..]
  {
  }

  lemma FirstFed(p: seq<byte>)
    requires |p| >= NLMSG_HDR && NLMSG_HDR <= Le32(p, 0) <= |p|
    ensures var len := Le32(p, 0);
            var step := Align4(len) % U32;
            && |Fed(p)| > 0 && Fed(p)[0] == p[..len]
            && Fed(p)[1..] == (if step == 0 then [] else Fed(p[Min(step, |p|)..]))
  {
  }
}
