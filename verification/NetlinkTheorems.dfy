/** Both walks invert netlink's framing. */
module NetlinkTheorems {
  import opened Bytes
  import opened Wrappers
  import opened NetlinkWalk

  // ---- Framing (section 2.3.2 of RFC 3549) ----

  /** A message: its kind, the ten header bytes after it, its body, and the padding that follows. */
  datatype Message = Message(kind: nat, meta: seq<byte>, body: seq<byte>, pad: seq<byte>) {
    function Length(): nat {
      16 + |body|
    }

    ghost predicate Valid() {
      && kind < U16 && |meta| == 10 && Length() + 3 < U32
      && (Length() + |pad|) % 4 == 0 && |pad| < 4
    }

    function Bytes(): (s: seq<byte>)
      requires Valid()
      ensures |s| == Length()
    {
      PutLe32(Length()) + PutLe16(kind) + meta + body
    }

    predicate IsPacket() {
      kind == 0x400 && |body| > 4
    }
  }

  ghost predicate ValidAll(msgs: seq<Message>) {
    forall i :: 0 <= i < |msgs| ==> msgs[i].Valid()
  }

  function Encode(msgs: seq<Message>): seq<byte>
    requires ValidAll(msgs)
  {
    if |msgs| == 0 then [] else msgs[0].Bytes() + msgs[0].pad + Encode(msgs[1..])
  }

  /** Fewer than four bytes of padding up to a multiple of four are those of the alignment. */
  lemma PaddedLength(len: nat, pad: nat)
    requires (len + pad) % 4 == 0 && pad < 4
    ensures len + pad == Align4(len)
  {
  }

  lemma ReadHeader(m: Message, after: seq<byte>)
    requires m.Valid()
    ensures var p := m.Bytes() + after;
            Le32(p, 0) == m.Length() && Le16(p, 4) == m.kind && p[..m.Length()] == m.Bytes()
  {
    var b := m.Bytes();
    var p := b + after;
    assert p[0..4] == b[0..4] == PutLe32(m.Length());
    assert p[4..6] == b[4..6] == PutLe16(m.kind);
    Le32RoundTrip(p, 0, m.Length());
    Le16RoundTrip(p, 4, m.kind);
  }

  lemma ReadMessage(m: Message, after: seq<byte>)
    requires m.Valid()
    ensures Align4(m.Length()) == |m.Bytes() + m.pad|
    ensures var p := m.Bytes() + m.pad + after;
            && Le32(p, 0) == m.Length() && Le16(p, 4) == m.kind
            && p[..m.Length()] == m.Bytes()
            && (|m.body| > 4 ==> p[PACKET_HDR..m.Length()] == m.body[4..])
            && p[Align4(m.Length())..] == after
  {
    var b := m.Bytes();
    var p := b + m.pad + after;
    PaddedLength(m.Length(), |m.pad|);
    ReadHeader(m, m.pad + after);
    assert p == b + (m.pad + after);
    if |m.body| > 4 {
      assert p[PACKET_HDR..m.Length()] == b[PACKET_HDR..] == m.body[4..];
    }
  }

  /** On any run of well-formed messages the conntrack walk feeds each message once, in order. */
  lemma {:induction false} FedInvertsEncode(msgs: seq<Message>)
    requires ValidAll(msgs)
    ensures |Fed(Encode(msgs))| == |msgs|
    ensures forall i :: 0 <= i < |msgs| ==> Fed(Encode(msgs))[i] == msgs[i].Bytes()
  {
    if |msgs| > 0 {
      var m := msgs[0];
      ReadMessage(m, Encode(msgs[1..]));
      FedInvertsEncode(msgs[1..]);
      FedFirst(m, Encode(msgs[1..]));
    }
  }

  lemma FedFirst(m: Message, after: seq<byte>)
    requires m.Valid()
    ensures Fed(m.Bytes() + m.pad + after) == [m.Bytes()] + Fed(after)
  {
    var p := m.Bytes() + m.pad + after;
    PaddedLength(m.Length(), |m.pad|);
    ReadMessage(m, after);
    FedAt(p, m.Length(), m.Bytes(), after);
  }

  lemma FedAt(p: seq<byte>, len: nat, first: seq<byte>, after: seq<byte>)
    requires NLMSG_HDR <= len && len + 3 < U32 && Align4(len) <= |p| && Le32(p, 0) == len
    requires p[..len] == first && p[Align4(len)..] == after
    ensures Fed(p) == [first] + Fed(after)
  {
    AlignIsSmall(len);
    FirstFed(p);
    var fed := Fed(p);
    assert fed[1..] == Fed(after);
    assert fed == [fed[0]] + fed[1..];
  }

  lemma AlignIsSmall(len: nat)
    requires 0 < len && len + 3 < U32
    ensures 0 < Align4(len) < U32 && Align4(len) % U32 == Align4(len)
  {
  }

  /** What the NFLOG walk makes of a run of messages. */
  function WalkOf(msgs: seq<Message>): Walked {
    if |msgs| == 0 then Walked([], 0, false)
    else
      var rest := WalkOf(msgs[1..]);
      if msgs[0].IsPacket() then Walked(Calls(msgs[0].body[4..]) + rest.calls, 1 + rest.count, false) else rest
  }

  /** On any run of well-formed messages the NFLOG walk calls back in order, once for each packet
      message with a payload, and passes over all others. */
  lemma {:induction false} WalkInvertsEncode(msgs: seq<Message>)
    requires ValidAll(msgs)
    ensures Walk(Encode(msgs)) == WalkOf(msgs)
  {
    if |msgs| > 0 {
      var m := msgs[0];
      ReadMessage(m, Encode(msgs[1..]));
      WalkInvertsEncode(msgs[1..]);
      assert !WalkOf(msgs[1..]).torn by { NeverTorn(msgs[1..]); }
      WalkFirst(m, Encode(msgs[1..]));
    }
  }

  lemma {:induction false} NeverTorn(msgs: seq<Message>)
    ensures !WalkOf(msgs).torn
  {
    if |msgs| > 0 {
      NeverTorn(msgs[1..]);
    }
  }

  lemma WalkFirst(m: Message, after: seq<byte>)
    requires m.Valid()
    ensures var w := Walk(after);
            Walk(m.Bytes() + m.pad + after)
              == if m.IsPacket() then Walked(Calls(m.body[4..]) + w.calls, 1 + w.count, w.torn) else w
  {
    ReadMessage(m, after);
    WholeLength(m, after);
    WalkHere(m.Bytes() + m.pad + after, m.Length(), m.kind, m.body, after);
  }

  lemma WholeLength(m: Message, after: seq<byte>)
    requires m.Valid()
    ensures NLMSG_HDR <= m.Length() <= Align4(m.Length()) <= |m.Bytes() + m.pad + after|
  {
    PaddedLength(m.Length(), |m.pad|);
  }

  lemma WalkHere(p: seq<byte>, len: nat, kind: nat, body: seq<byte>, after: seq<byte>)
    requires NLMSG_HDR <= len <= Align4(len) <= |p| && Le32(p, 0) == len && Le16(p, 4) == kind && len == 16 + |body|
    requires (|body| > 4 ==> p[PACKET_HDR..len] == body[4..]) && p[Align4(len)..] == after
    ensures var w := Walk(after);
            Walk(p) == if kind == 0x400 && |body| > 4 then Walked(Calls(body[4..]) + w.calls, 1 + w.count, w.torn) else w
  {
  }

  /** Some attribute is a payload with data. */
  ghost predicate HasPayload(attrs: seq<Attr>) {
    exists k :: 0 <= k < |attrs| && attrs[k].kind == 9 && |attrs[k].data| > 0
  }

  /** A packet message is called back exactly when its attributes are below 2 GiB and one of them
      is a payload with data, whatever else it holds. */
  lemma CalledBackIff(body: seq<byte>)
    ensures Calls(body) != [] <==> |body| < I32 && HasPayload(ParseAttrs(body))
  {
    GathersLatest(ParseAttrs(body));
    LatestIff(ParseAttrs(body), 9, 1);
  }

  lemma {:induction false} LatestIff(attrs: seq<Attr>, kind: nat, least: nat)
    ensures Latest(attrs, kind, least).Some?
            <==> exists k :: 0 <= k < |attrs| && attrs[k].kind == kind && |attrs[k].data| >= least
    ensures Latest(attrs, kind, least).Some? ==> |Latest(attrs, kind, least).value| >= least
  {
    if |attrs| > 0 {
      LatestIff(attrs[..|attrs| - 1], kind, least);
    }
  }

  predicate IsEmptyHanded(m: Message) {
    m.IsPacket() && Calls(m.body[4..]) == []
  }

  lemma {:induction false} CountsCalls(msgs: seq<Message>)
    ensures |WalkOf(msgs).calls| <= WalkOf(msgs).count
    ensures |WalkOf(msgs).calls| == WalkOf(msgs).count
            <==> forall i :: 0 <= i < |msgs| ==> !IsEmptyHanded(msgs[i])
  {
    if |msgs| > 0 {
      CountsCalls(msgs[1..]);
      assert forall i :: 0 < i < |msgs| ==> msgs[i] == msgs[1..][i - 1];
      assert forall i :: 0 <= i < |msgs[1..]| ==> msgs[1..][i] == msgs[i + 1];
    }
  }

  /** The returned count is not the number of callbacks, as the header file has it: it is that
      number exactly when every packet message is below 2 GiB and has a payload with data. */
  lemma CountsCallsIff(msgs: seq<Message>)
    requires ValidAll(msgs)
    ensures var w := Walk(Encode(msgs));
            && |w.calls| <= w.count
            && (|w.calls| == w.count
                <==> forall i :: 0 <= i < |msgs| && msgs[i].IsPacket() ==>
                       |msgs[i].body[4..]| < I32 && HasPayload(ParseAttrs(msgs[i].body[4..])))
  {
    WalkInvertsEncode(msgs);
    CountsCalls(msgs);
    forall i | 0 <= i < |msgs| && msgs[i].IsPacket()
      ensures IsEmptyHanded(msgs[i])
              <==> !(|msgs[i].body[4..]| < I32 && HasPayload(ParseAttrs(msgs[i].body[4..])))
    {
      CalledBackIff(msgs[i].body[4..]);
    }
  }

  /** A packet message with one empty payload attribute is counted but not called back. */
  lemma EmptyPayloadIsCounted(meta: seq<byte>)
    requires |meta| == 10
    ensures var m := Message(0x400, meta, [0, 0, 0, 0, 4, 0, 9, 0], []);
            m.Valid() && Walk(Encode([m])) == Walked([], 1, false)
  {
    var m := Message(0x400, meta, [0, 0, 0, 0, 4, 0, 9, 0], []);
    assert m.Length() == 24;
    WalkInvertsEncode([m]);
    EmptyPayloadHasNoCall();
    assert m.body[4..] == [4, 0, 9, 0];
    assert [m][1..] == [];
  }

  lemma EmptyPayloadHasNoCall()
    ensures Calls([4, 0, 9, 0]) == []
  {
    var a := RawAttr(9, [], []);
    assert EncodeAttrs([a]) == [4, 0, 9, 0];
    ParseInvertsEncode([a]);
    var attrs := ParseAttrs([4, 0, 9, 0]);
    assert attrs == [Attr(9, [])];
    GathersLatest(attrs);
    assert attrs[..0] == [];
  }

  /** In a buffer whose length is a multiple of four, as the kernel fills it, no padded length
      leaves the buffer: the unguarded subtraction for control messages never wraps. */
  lemma {:induction false} AlignedNeverTorn(p: seq<byte>)
    requires |p| % 4 == 0
    ensures !Walk(p).torn
    decreases |p|
  {
    if |p| >= NLMSG_HDR && NLMSG_HDR <= Le32(p, 0) <= |p| {
      var len := Le32(p, 0);
      AlignFits(len, |p|);
      AlignedNeverTorn(p[Align4(len)..]);
      TornLater(p);
    }
  }

  lemma AlignFits(len: nat, n: nat)
    requires len <= n && n % 4 == 0
    ensures Align4(len) <= n && (n - Align4(len)) % 4 == 0
  {
  }

  lemma TornLater(p: seq<byte>)
    requires NLMSG_HDR <= |p| && NLMSG_HDR <= Le32(p, 0) && Align4(Le32(p, 0)) <= |p|
    ensures Walk(p).torn == Walk(p[Align4(Le32(p, 0))..]).torn
  {
  }

  // ---- When the NFLOG walk leaves the buffer ----

  /** Whole messages, and then a control message whose padding is cut off. */
  ghost predicate CutControl(p: seq<byte>, msgs: seq<Message>, m: Message, tail: seq<byte>) {
    && ValidAll(msgs) && m.Valid() && (m.kind == 2 || m.kind == 3)
    && |tail| < |m.pad| && p == Encode(msgs) + m.Bytes() + tail
  }

  /** The walk's subtraction for control messages wraps if and only if the buffer ends inside the
      padding of one. */
  lemma TornIff(p: seq<byte>)
    requires |p| + 3 < U32
    ensures Walk(p).torn
            <==> exists msgs: seq<Message>, m: Message, tail: seq<byte> :: CutControl(p, msgs, m, tail)
  {
    if Walk(p).torn {
      var msgs, m, tail := TornAt(p);
      assert CutControl(p, msgs, m, tail);
    }
    if msgs: seq<Message>, m: Message, tail: seq<byte> :| CutControl(p, msgs, m, tail) {
      CutEndsTorn(p, msgs, m, tail);
    }
  }

  lemma CutEndsTorn(p: seq<byte>, msgs: seq<Message>, m: Message, tail: seq<byte>)
    requires CutControl(p, msgs, m, tail)
    ensures Walk(p).torn
  {
    var cut := m.Bytes() + tail;
    Joined(Encode(msgs), m.Bytes(), tail);
    CutIsTorn(m, tail);
    WalkPast(msgs, cut);
  }

  lemma Joined(a: seq<byte>, b: seq<byte>, c: seq<byte>)
    ensures a + b + c == a + (b + c)
  {
  }

  lemma CutIsTorn(m: Message, tail: seq<byte>)
    requires m.Valid() && (m.kind == 2 || m.kind == 3) && |tail| < |m.pad|
    ensures Walk(m.Bytes() + tail) == Walked([], 0, true)
  {
    CutLength(m, tail);
    ReadHeader(m, tail);
    TornHere(m.Bytes() + tail, m.Length(), m.kind);
  }

  lemma CutLength(m: Message, tail: seq<byte>)
    requires m.Valid() && |tail| < |m.pad|
    ensures NLMSG_HDR <= m.Length() <= |m.Bytes() + tail| < Align4(m.Length())
  {
    PaddedLength(m.Length(), |m.pad|);
  }

  lemma TornHere(p: seq<byte>, len: nat, kind: nat)
    requires NLMSG_HDR <= len <= |p| < Align4(len) && Le32(p, 0) == len && Le16(p, 4) == kind
    requires kind == NLMSG_DONE || kind == NLMSG_ERROR
    ensures Walk(p) == Walked([], 0, true)
  {
  }

  lemma {:induction false} WalkPast(msgs: seq<Message>, after: seq<byte>)
    requires ValidAll(msgs)
    ensures Walk(Encode(msgs) + after).torn == Walk(after).torn
    decreases |msgs|
  {
    if |msgs| == 0 {
      assert [] + after == after;
    } else {
      var m, rest := msgs[0], Encode(msgs[1..]);
      assert Encode(msgs) + after == m.Bytes() + m.pad + (rest + after);
      WalkFirst(m, rest + after);
      WalkPast(msgs[1..], after);
    }
  }

  /** The message at the start of a buffer, without what is missing of its padding. */
  lemma MessageAt(p: seq<byte>) returns (m: Message)
    requires |p| + 3 < U32 && NLMSG_HDR <= |p| && NLMSG_HDR <= Le32(p, 0) <= |p|
    ensures m.Valid() && m.Length() == Le32(p, 0) && m.kind == Le16(p, 4) && p[..m.Length()] == m.Bytes()
    ensures Align4(m.Length()) <= |p| ==> m.pad == p[m.Length()..Align4(m.Length())]
  {
    var len := Le32(p, 0);
    var pad := if Align4(len) <= |p| then p[len..Align4(len)] else seq(Align4(len) - len, _ => 0);
    m := Message(Le16(p, 4), p[6..16], p[16..len], pad);
    PutLe32Read(p, 0);
    PutLe16Read(p, 4);
    assert p[..len] == p[0..4] + p[4..6] + p[6..16] + p[16..len];
  }

  /** A torn walk starts with a whole header: of a control message that is cut, or of a message
      after which the walk is torn. */
  lemma TornHeader(p: seq<byte>)
    requires Walk(p).torn
    ensures NLMSG_HDR <= |p| && NLMSG_HDR <= Le32(p, 0) <= |p|
    ensures Align4(Le32(p, 0)) > |p| ==> Le16(p, 4) == 2 || Le16(p, 4) == 3
    ensures Align4(Le32(p, 0)) <= |p| ==> Walk(p[Align4(Le32(p, 0))..]).torn
  {
  }

  lemma {:induction false} TornAt(p: seq<byte>) returns (msgs: seq<Message>, m: Message, tail: seq<byte>)
    requires |p| + 3 < U32 && Walk(p).torn
    ensures CutControl(p, msgs, m, tail)
    decreases |p|
  {
    TornHeader(p);
    var first := MessageAt(p);
    var len := first.Length();
    if Align4(len) > |p| {
      msgs, m, tail := [], first, p[len..];
      PaddedLength(len, |first.pad|);
      CutFirst(p, first, tail);
    } else {
      var more: seq<Message>;
      more, m, tail := TornAt(p[Align4(len)..]);
      WholeFirst(p, first);
      msgs := [first] + more;
      CutLater(p, first, p[Align4(len)..], more, m, tail);
    }
  }

  lemma CutFirst(p: seq<byte>, first: Message, tail: seq<byte>)
    requires first.Valid() && (first.kind == 2 || first.kind == 3) && |tail| < |first.pad|
    requires first.Length() <= |p| && p[..first.Length()] == first.Bytes() && p[first.Length()..] == tail
    ensures CutControl(p, [], first, tail)
  {
    assert p == p[..first.Length()] + p[first.Length()..];
    assert [] + first.Bytes() + tail == first.Bytes() + tail;
  }

  lemma WholeFirst(p: seq<byte>, first: Message)
    requires first.Valid() && Align4(first.Length()) <= |p| && p[..first.Length()] == first.Bytes()
    requires first.pad == p[first.Length()..Align4(first.Length())]
    ensures p == first.Bytes() + first.pad + p[Align4(first.Length())..]
  {
    var len, end := first.Length(), Align4(first.Length());
    assert p == p[..len] + p[len..end] + p[end..];
  }

  lemma CutLater(p: seq<byte>, first: Message, rest: seq<byte>, more: seq<Message>, m: Message, tail: seq<byte>)
    requires first.Valid() && p == first.Bytes() + first.pad + rest && CutControl(rest, more, m, tail)
    ensures CutControl(p, [first] + more, m, tail)
  {
    var msgs := [first] + more;
    assert msgs[1..] == more;
    assert Encode(msgs) == first.Bytes() + first.pad + Encode(more);
    Regroup(first.Bytes() + first.pad, Encode(more), m.Bytes(), tail);
  }

  lemma Regroup(a: seq<byte>, b: seq<byte>, c: seq<byte>, d: seq<byte>)
    ensures a + (b + c + d) == a + b + c + d
  {
  }

  /** A control message of 17 bytes without its padding. */
  lemma UnpaddedControlIsTorn(meta: seq<byte>)
    requires |meta| == 10
    ensures Walk([17, 0, 0, 0, 3, 0] + meta + [0]) == Walked([], 0, true)
  {
    var m := Message(3, meta, [0], [0, 0, 0]);
    CutIsTorn(m, []);
    assert m.Bytes() + [] == [17, 0, 0, 0, 3, 0] + meta + [0];
  }

  // ---- Attributes ----

  datatype RawAttr = RawAttr(kind: nat, data: seq<byte>, pad: seq<byte>) {
    ghost predicate Valid() {
      kind < U16 && 4 + |data| < U16 && (4 + |data| + |pad|) % 4 == 0 && |pad| < 4
    }
  }

  ghost predicate ValidAttrs(attrs: seq<RawAttr>) {
    forall i :: 0 <= i < |attrs| ==> attrs[i].Valid()
  }

  function EncodeAttrs(attrs: seq<RawAttr>): seq<byte>
    requires ValidAttrs(attrs)
  {
    if |attrs| == 0 then []
    else PutLe16(4 + |attrs[0].data|) + PutLe16(attrs[0].kind) + attrs[0].data + attrs[0].pad + EncodeAttrs(attrs[1..])
  }

  /** The attribute walk sees exactly the attributes that were encoded, less their flag bits. */
  lemma {:induction false} ParseInvertsEncode(attrs: seq<RawAttr>)
    requires ValidAttrs(attrs)
    ensures |ParseAttrs(EncodeAttrs(attrs))| == |attrs|
    ensures forall i :: 0 <= i < |attrs| ==>
              ParseAttrs(EncodeAttrs(attrs))[i] == Attr(attrs[i].kind % 0x4000, attrs[i].data)
  {
    if |attrs| > 0 {
      var a, after := attrs[0], EncodeAttrs(attrs[1..]);
      var p := EncodeAttrs(attrs);
      var len := 4 + |a.data|;
      PaddedLength(len, |a.pad|);
      assert p[0..2] == PutLe16(len);
      assert p[2..4] == PutLe16(a.kind);
      Le16RoundTrip(p, 0, len);
      Le16RoundTrip(p, 2, a.kind);
      assert p[ATTR_HDR..len] == a.data;
      assert p[Align4(len)..] == after;
      ParseInvertsEncode(attrs[1..]);
      FirstAttr(p);
    }
  }

  /** The data of the last attribute of a kind with at least so many bytes. */
  function Latest(attrs: seq<Attr>, kind: nat, least: nat): Option<seq<byte>> {
    if |attrs| == 0 then None
    else
      var a := attrs[|attrs| - 1];
      if a.kind == kind && |a.data| >= least then Some(a.data) else Latest(attrs[..|attrs| - 1], kind, least)
  }

  lemma {:induction false} GatherLast(d: Delivery, attrs: seq<Attr>)
    requires |attrs| > 0
    ensures Gather(d, attrs) == Noted(Gather(d, attrs[..|attrs| - 1]), attrs[|attrs| - 1])
    decreases |attrs|
  {
    var n := |attrs| - 1;
    if n > 0 {
      GatherLast(Noted(d, attrs[0]), attrs[1..]);
      assert attrs[1..][..n - 1] == attrs[..n][1..];
    }
  }

  /** A callback is given the last non-empty payload, and each other field from the last attribute
      of its kind that is long enough. */
  lemma {:induction false} GathersLatest(attrs: seq<Attr>)
    ensures var d := Gather(Nothing, attrs);
            var hw, mark := Latest(attrs, 1, 4), Latest(attrs, 2, 4);
            var time, payload := Latest(attrs, 3, 16), Latest(attrs, 9, 1);
            && (hw.Some? ==> |hw.value| >= 4) && (mark.Some? ==> |mark.value| >= 4) && (time.Some? ==> |time.value| >= 16)
            && d.payload == (if payload.Some? then payload.value else [])
            && d.hwProtocol == (if hw.Some? then Be16(hw.value, 0) else 0)
            && d.mark == (if mark.Some? then Be32(mark.value, 0) else 0)
            && d.sec == (if time.Some? then Be32(time.value, 0) * U32 + Be32(time.value, 4) else 0)
            && d.usec == (if time.Some? then Be32(time.value, 8) * U32 + Be32(time.value, 12) else 0)
  {
    LatestIff(attrs, 1, 4);
    LatestIff(attrs, 2, 4);
    LatestIff(attrs, 3, 16);
    if |attrs| > 0 {
      GatherLast(Nothing, attrs);
      GathersLatest(attrs[..|attrs| - 1]);
    }
  }
}
