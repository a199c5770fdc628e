/** The TCP statistics as the agent keeps them: counters and fixed-size tables updated in place. */
module TcpStats {
  import opened Bytes
  import opened Wrappers
  import opened TcpParse
  import opened CounterTable
  import opened TcpEngine
  import SynCache
  import NetlinkWalk

  /** The engine after the NFLOG callbacks of one datagram. */
  function FeedCalls(e: Engine, calls: seq<NetlinkWalk.Delivery>, now: nat): (e': Engine)
    requires Fits(e)
    ensures Fits(e')
  {
    if |calls| == 0 then e
    else Step(FeedCalls(e, calls[..|calls| - 1], now), Nflog(calls[|calls| - 1].payload, now))
  }

  class TcpState {
    var prefixLen: nat
    var totals: Counters
    var pktsParsed: nat
    var pktsNonTcp: nat
    var pktsParseFail: nat
    const remotes: array<Remote>
    var remoteCount: nat
    const prefixes: array<Prefix>
    var prefixCount: nat
    const syns: SynCache.Cache
    // what eviction lost and what was applied, since the last reset
    ghost var deadRemotes: seq<Remote>
    ghost var deadPrefixes: seq<Prefix>
    ghost var hits: seq<Hit>

    ghost function Repr(): set<object> {
      {this, remotes, prefixes, syns, syns.flows}
    }

    ghost predicate Valid()
      reads this, remotes, prefixes, syns, syns.flows
    {
      && remotes.Length == REMOTE_MAX && remoteCount <= REMOTE_MAX
      && prefixes.Length == PREFIX_MAX && prefixCount <= PREFIX_MAX
      && remotes as object != prefixes && remotes as object != syns.flows && prefixes as object != syns.flows
      && syns.Valid()
    }

    /** The state that these fields stand for. */
    ghost function View(): (e: Engine)
      requires Valid()
      reads this, remotes, prefixes, syns, syns.flows
      ensures Fits(e)
    {
      Engine(prefixLen, totals, pktsParsed, pktsNonTcp, pktsParseFail,
             remotes[..remoteCount], prefixes[..prefixCount], syns.misses, deadRemotes, deadPrefixes, hits)
    }

    constructor (len: nat)
      ensures Valid() && View() == Fresh(len)
    {
      prefixLen := len;
      totals := NoCounts;
      pktsParsed, pktsNonTcp, pktsParseFail := 0, 0, 0;
      remotes := new Remote[REMOTE_MAX](_ => Row(V4(0), NoCounts, NoInfo));
      remoteCount := 0;
      prefixes := new Prefix[PREFIX_MAX](_ => Row(Net(0, 0), NoCounts, 0));
      prefixCount := 0;
      var cache := new SynCache.Cache();
      syns := cache;
      deadRemotes, deadPrefixes, hits := [], [], [];
    }

    /** Clears counters, tables and the SYN cache; the prefix length stays. */
    method Reset()
      requires Valid()
      modifies Repr()
      ensures Valid() && View() == Fresh(old(prefixLen))
    {
      totals := NoCounts;
      pktsParsed, pktsNonTcp, pktsParseFail := 0, 0, 0;
      remoteCount, prefixCount := 0, 0;
      syns.Clear();
      deadRemotes, deadPrefixes, hits := [], [], [];
    }

    method ApplyPacket(p: Packet, now: nat)
      requires Valid()
      modifies Repr()
      ensures Valid() && View() == Apply(old(View()), p, now)
    {
      var o := OrientPacket(p);
      var retrans := NoteSyn(p);
      var sum := Bumped(totals, p, retrans);
      totals := sum;
      var first := CountRemoteRow(o, p, retrans, now);
      ghost var net := None;
      if !p.isIpv6 {
        var raddr := Ip4(o.remote);
        if raddr != 0 {
          net := Some(NetOf(raddr, prefixLen));
          RollUpRemote(NetOf(raddr, prefixLen), p, retrans, first);
        }
      }
      hits := hits + [Row(o.remote, Delta(p, retrans), HitInfo(p, retrans, net, first))];
    }

    /** Looks a SYN up in the cache, if it is one that is looked up. */
    method NoteSyn(p: Packet) returns (retrans: bool)
      requires Valid()
      modifies syns, syns.flows
      ensures Valid() && retrans == Retransmitted(old(View()), p)
      ensures View() == old(View()).(misses := if IsQuery(p) then SynCache.Noted(old(syns.misses), TupleOf(p)) else old(syns.misses))
    {
      var sip, dip := Ip4(p.src), Ip4(p.dst);
      retrans := false;
      if IsSyn(p) && !p.isIpv6 && sip != 0 && dip != 0 {
        retrans := syns.IsRetrans(SynCache.Tuple(sip, dip, p.srcPort, p.dstPort), p.seqNo);
      }
    }

    method CountRemoteRow(o: Oriented, p: Packet, retrans: bool, now: nat) returns (first: bool)
      requires Valid()
      modifies this`remoteCount, this`deadRemotes, remotes
      ensures Valid() && View() == TouchRemote(old(View()), o, Delta(p, retrans), now)
      ensures first <==> Place(old(View()).remotes, o.remote, REMOTE_MAX, NoInfo).rows
                           [Place(old(View()).remotes, o.remote, REMOTE_MAX, NoInfo).at].c.pkts == 0
    {
      var at, count', evicted := PlaceRow(remotes, remoteCount, o.remote, NoInfo);
      remoteCount := count';
      deadRemotes := deadRemotes + evicted;
      var c := Bumped(remotes[at].c, p, retrans);
      remotes[at] := Row(o.remote, c, RemoteInfo(Some(o.local), o.remotePort, o.localPort, now));
      first := remotes[at].c.pkts == 1;
    }

    method RollUpRemote(net: Net, p: Packet, retrans: bool, first: bool)
      requires Valid()
      modifies this`prefixCount, this`deadPrefixes, prefixes
      ensures Valid() && View() == CountPrefix(old(View()), net, Delta(p, retrans), first)
    {
      var at, count', evicted := PlaceRow(prefixes, prefixCount, net, 0);
      prefixCount := count';
      deadPrefixes := deadPrefixes + evicted;
      var c := Bumped(prefixes[at].c, p, retrans);
      prefixes[at] := Row(net, c, prefixes[at].extra + One(first));
    }

    /** Counts one payload by its parse result, and applies the packet if there is one. */
    method CountPayload(r: Option<Packet>, nonTcp: bool, now: nat)
      requires Valid()
      modifies Repr()
      ensures Valid() && View() == Take(old(View()), r, nonTcp, now)
    {
      ghost var e := View();
      pktsParsed := pktsParsed + 1;
      assert View() == Noticed(e);
      if r.Some? {
        ApplyPacket(r.value, now);
      } else if nonTcp {
        pktsNonTcp := pktsNonTcp + 1;
      } else {
        pktsParseFail := pktsParseFail + 1;
      }
      assert View() == Sorted(Noticed(e), r, nonTcp, now);
    }

    /** A payload that the NFLOG walk delivers: one that does not parse is told apart by its
        IP version and protocol byte. */
    method OnNflogPayload(payload: seq<byte>, now: nat)
      requires Valid()
      modifies Repr()
      ensures Valid() && View() == Step(old(View()), Nflog(payload, now))
    {
      var r := ParseIpPacket(payload);
      var nonTcp := false;
      if r.None? && |payload| >= 1 {
        var ver := payload[0] / 16;
        if ver == 4 && |payload| >= 10 && payload[9] != TCP {
          nonTcp := true;
        } else if ver == 6 && |payload| >= 7 && payload[6] != TCP {
          nonTcp := true;
        }
      }
      CountPayload(r, nonTcp, now);
    }

    /** A netlink datagram: every payload that the walk delivers, in order. */
    method FeedNflog(buf: seq<byte>, now: nat) returns (walked: Option<NetlinkWalk.Walked>)
      requires Valid()
      modifies Repr()
      ensures Valid()
      ensures walked == if |buf| < NetlinkWalk.NLMSG_HDR then None else Some(NetlinkWalk.Walk(buf))
      ensures View() == if walked.Some? then FeedCalls(old(View()), walked.value.calls, now) else old(View())
    {
      walked := NetlinkWalk.NflogWalk(buf);
      if walked.None? {
        return;
      }
      var calls := walked.value.calls;
      var i := 0;
      while i < |calls|
        invariant 0 <= i <= |calls| && Valid()
        invariant View() == FeedCalls(old(View()), calls[..i], now)
      {
        assert calls[..i + 1][..i] == calls[..i];
        OnNflogPayload(calls[i].payload, now);
        i := i + 1;
      }
      assert calls[..|calls|] == calls;
    }

    /** A payload fed directly; an empty one is refused before it is counted, and one that does
        not parse counts as unparsable whatever its protocol. */
    method FeedPayload(payload: seq<byte>, now: nat) returns (ok: bool)
      requires Valid()
      modifies Repr()
      ensures Valid() && View() == Step(old(View()), Feed(payload, now))
      ensures ok <==> |payload| > 0 && Parse(payload).Some?
    {
      if |payload| == 0 {
        return false;
      }
      var r := ParseIpPacket(payload);
      CountPayload(r, false, now);
      return r.Some?;
    }
  }

  /** Prefers the public side as remote when exactly one side is private. */
  method OrientPacket(p: Packet) returns (o: Oriented)
    ensures o == Orient(p)
  {
    var outbound := Oriented(p.dst, p.src, p.dstPort, p.srcPort);
    var inbound := Oriented(p.src, p.dst, p.srcPort, p.dstPort);
    if !p.isIpv6 && Ip4(p.src) != 0 && Ip4(p.dst) != 0 {
      var sp, dp := IsPrivate(Ip4(p.src)), IsPrivate(Ip4(p.dst));
      if sp && !dp {
        return outbound;
      } else if dp && !sp {
        return inbound;
      }
      return outbound;
    }
    return outbound;
  }

  /** The counter increments that a packet makes in the totals and in each row it touches. */
  method Bumped(c: Counters, p: Packet, retrans: bool) returns (c': Counters)
    ensures c' == c.Plus(Delta(p, retrans))
  {
    c' := c.(pkts := c.pkts + 1, bytes := c.bytes + p.ipLen);
    if IsSyn(p) {
      c' := c'.(syn := c'.syn + 1);
    }
    if IsFin(p) {
      c' := c'.(fin := c'.fin + 1);
    }
    if IsRst(p) {
      c' := c'.(rst := c'.rst + 1);
    }
    if retrans {
      c' := c'.(retrans := c'.retrans + 1);
    }
  }
}
