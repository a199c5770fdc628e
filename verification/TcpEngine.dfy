/** What the TCP statistics compute, as a function of the payloads they are fed: totals, the
    remote and prefix tables, the SYN cache, and a ledger of what eviction lost. */
module TcpEngine {
  import opened Bytes
  import opened Wrappers
  import opened TcpParse
  import opened CounterTable
  import SynCache

  const REMOTE_MAX: nat := 256
  const PREFIX_MAX: nat := 128

  // ---- Addresses ----

  /** An aggregation prefix: the masked address and the mask length. */
  datatype Net = Net(base: int, len: nat)

  /** The IPv4 number of a printed address; 0 for IPv6 text, as for 0.0.0.0. */
  function Ip4(a: Addr): nat {
    if a.V4? then a.addr else 0
  }

  /** 10/8, 172.16/12, 127/8, 192.168/16 and 169.254/16, by their leading bits. */
  predicate IsPrivate(a: nat) {
    || a / 0x100_0000 == 10
    || a / 0x10_0000 == 0xac1
    || a / 0x1_0000 == 0xc0a8
    || a / 0x100_0000 == 127
    || a / 0x1_0000 == 0xa9fe
  }

  /** The number of an address in dotted notation. */
  function Dotted(a: byte, b: byte, c: byte, d: byte): nat {
    ((a as nat * 256 + b) * 256 + c) * 256 + d
  }

  /** Private use (section 3 of RFC 1918), loopback and link-local addresses. */
  predicate IsLocal(a: nat) {
    || Dotted(10, 0, 0, 0) <= a <= Dotted(10, 255, 255, 255)
    || Dotted(172, 16, 0, 0) <= a <= Dotted(172, 31, 255, 255)
    || Dotted(192, 168, 0, 0) <= a <= Dotted(192, 168, 255, 255)
    || Dotted(127, 0, 0, 0) <= a <= Dotted(127, 255, 255, 255)
    || Dotted(169, 254, 0, 0) <= a <= Dotted(169, 254, 255, 255)
  }

  /** The masks pick out exactly the local address ranges. */
  lemma PrivateIff(a: nat)
    ensures IsPrivate(a) <==> IsLocal(a)
  {
  }

  function MaskLen(len: nat): (l: nat)
    ensures 1 <= l <= 32
  {
    if len == 0 || len > 32 then 24 else len
  }

  /** The address with all but its leading bits cleared. */
  function NetOf(a: nat, len: nat): Net {
    var block := Pow2(32 - MaskLen(len));
    Net(a / block * block, MaskLen(len))
  }

  /** Where a remote address is rolled up; an IPv6 or zero remote has no prefix. */
  function RollUp(a: Addr, len: nat): Option<Net> {
    if Ip4(a) != 0 then Some(NetOf(Ip4(a), len)) else None
  }

  /** A prefix is the aligned block of 2^(32 - l) addresses around the address, for the wanted
      length l, or 24 if that is 0 or above 32. */
  lemma NetIsBlock(a: nat, len: nat, l: nat)
    requires 1 <= l <= 32 && (len == l || (l == 24 && (len == 0 || len > 32)))
    ensures var net, size := NetOf(a, len), Pow2(32 - l);
            net.len == l && net.base <= a < net.base + size && net.base % size == 0
  {
    assert MaskLen(len) == l;
    BlockAround(a, Pow2(32 - l));
  }

  lemma BlockAround(a: nat, size: nat)
    requires 1 <= size
    ensures var base := a / size * size; base <= a < base + size && base % size == 0
  {
    var q := a / size;
    assert a == q * size + a % size;
    Multiple(q, size);
  }

  lemma {:induction false} Multiple(k: nat, n: nat)
    requires 1 <= n
    ensures k * n % n == 0
  {
    if k > 0 {
      Multiple(k - 1, n);
      assert k * n == (k - 1) * n + n;
      OneMore((k - 1) * n, n);
    }
  }

  lemma OneMore(x: nat, n: nat)
    requires 1 <= n && x % n == 0
    ensures (x + n) % n == 0
  {
    var q, r := (x + n) / n, (x + n) % n;
    assert x == x / n * n;
    assert (x / n + 1) * n == x + n;
    assert (q - x / n - 1) * n + r == 0;
    SmallMultiple(q - x / n - 1, n, r);
  }

  lemma SmallMultiple(d: int, n: nat, r: nat)
    requires r < n && d * n + r == 0
    ensures r == 0
  {
    if d < -1 {
      ScaledApart(d, -1, n);
    } else if d > 0 {
      ScaledApart(0, d, n);
    }
  }

  /** Two addresses are rolled up together exactly when their leading bits agree. */
  lemma SameNet(a: nat, b: nat, len: nat)
    ensures NetOf(a, len) == NetOf(b, len) <==> a / Pow2(32 - MaskLen(len)) == b / Pow2(32 - MaskLen(len))
  {
    var block := Pow2(32 - MaskLen(len));
    if a / block != b / block {
      ScaledApart(a / block, b / block, block);
    }
  }

  lemma {:induction false} ScaledApart(p: int, q: int, d: nat)
    requires p != q && 1 <= d
    ensures p * d != q * d && (p < q <==> p * d < q * d)
  {
    if d > 1 {
      ScaledApart(p, q, d - 1);
      assert p * d == p * (d - 1) + p;
      assert q * d == q * (d - 1) + q;
    }
  }

  // ---- Packets ----

  predicate HasBit(flags: byte, bit: nat)
    requires 1 <= bit
  {
    flags / bit % 2 == 1
  }

  predicate IsFin(p: Packet) { HasBit(p.flags, 1) }
  predicate IsSyn(p: Packet) { HasBit(p.flags, 2) }
  predicate IsRst(p: Packet) { HasBit(p.flags, 4) }

  datatype Oriented = Oriented(remote: Addr, local: Addr, remotePort: nat, localPort: nat)

  /** The remote is the public side when exactly one side is private, else the destination. */
  function Orient(p: Packet): Oriented {
    if !p.isIpv6 && Ip4(p.src) != 0 && Ip4(p.dst) != 0 && IsPrivate(Ip4(p.dst)) && !IsPrivate(Ip4(p.src))
    then Oriented(p.src, p.dst, p.srcPort, p.dstPort)
    else Oriented(p.dst, p.src, p.dstPort, p.srcPort)
  }

  function Reversed(p: Packet): Packet {
    p.(src := p.dst, dst := p.src, srcPort := p.dstPort, dstPort := p.srcPort)
  }

  /** Both ends are IPv4 addresses other than 0.0.0.0, and exactly one is local. */
  ghost predicate OnePrivate(p: Packet) {
    && p.src.V4? && p.dst.V4? && p.src.addr != 0 && p.dst.addr != 0
    && IsLocal(p.src.addr) != IsLocal(p.dst.addr)
  }

  /** The two directions of a conversation are counted under one remote exactly when one end
      is private and the other public, or both ends are the same address. The remote is then the
      public end, and else the destination; the other end is the local side, each with its port. */
  lemma BothDirections(p: Packet)
    ensures (Orient(p).remote == Orient(Reversed(p)).remote) <==> (p.src == p.dst || OnePrivate(p))
    ensures OnePrivate(p) ==> Orient(p) == Orient(Reversed(p)) && !IsLocal(Orient(p).remote.addr)
    ensures !OnePrivate(p) ==> Orient(p).remote == p.dst && Orient(p).remotePort == p.dstPort
    ensures var o := Orient(p);
            || (o.remote, o.remotePort, o.local, o.localPort) == (p.dst, p.dstPort, p.src, p.srcPort)
            || (o.remote, o.remotePort, o.local, o.localPort) == (p.src, p.srcPort, p.dst, p.dstPort)
  {
    if p.src.V4? {
      PrivateIff(p.src.addr);
      PrivateIff(p.dst.addr);
    }
  }

  /** Only IPv4 SYNs with two nonzero addresses are looked up in the SYN cache. */
  predicate IsQuery(p: Packet) {
    IsSyn(p) && !p.isIpv6 && Ip4(p.src) != 0 && Ip4(p.dst) != 0
  }

  function TupleOf(p: Packet): SynCache.Tuple {
    SynCache.Tuple(Ip4(p.src), Ip4(p.dst), p.srcPort, p.dstPort)
  }

  function One(b: bool): nat {
    if b then 1 else 0
  }

  /** What one packet adds to every counter set that it reaches. */
  function Delta(p: Packet, retrans: bool): Counters
  {
    Counters(1, p.ipLen, One(IsSyn(p)), One(IsFin(p)), One(IsRst(p)), One(retrans))
  }

  // ---- State ----

  datatype RemoteInfo = RemoteInfo(local: Option<Addr>, remotePort: nat, localPort: nat, lastSeen: nat)
  type Remote = Row<Addr, RemoteInfo>
  /** A prefix row keeps the number of remotes it has counted. */
  type Prefix = Row<Net, nat>

  const NoInfo := RemoteInfo(None, 0, 0, 0)

  /** One applied packet: its remote, what it added, where it was rolled up, whether it opened
      its remote's row. */
  datatype HitInfo = HitInfo(pkt: Packet, retrans: bool, net: Option<Net>, first: bool)
  type Hit = Row<Addr, HitInfo>

  datatype Engine = Engine(
    prefixLen: nat, totals: Counters, parsed: nat, nonTcp: nat, parseFail: nat,
    remotes: seq<Remote>, prefixes: seq<Prefix>, misses: seq<SynCache.Tuple>,
    // since the last reset: evicted rows in order, and applied packets in order
    deadRemotes: seq<Remote>, deadPrefixes: seq<Prefix>, hits: seq<Hit>)

  function Fresh(prefixLen: nat): Engine {
    Engine(prefixLen, NoCounts, 0, 0, 0, [], [], [], [], [], [])
  }

  ghost predicate Fits(e: Engine) {
    |e.remotes| <= REMOTE_MAX && |e.prefixes| <= PREFIX_MAX
  }

  // ---- One packet ----

  function Retransmitted(e: Engine, p: Packet): bool {
    IsQuery(p) && TupleOf(p) in SynCache.Window(e.misses)
  }

  /** The remote row: its counters, and what was last seen of it. */
  function TouchRemote(e: Engine, o: Oriented, d: Counters, now: nat): (e': Engine)
    requires Fits(e)
    ensures Fits(e')
  {
    var at := Place(e.remotes, o.remote, REMOTE_MAX, NoInfo);
    var row := Row(o.remote, at.rows[at.at].c.Plus(d), RemoteInfo(Some(o.local), o.remotePort, o.localPort, now));
    e.(remotes := at.rows[at.at := row], deadRemotes := e.deadRemotes + at.evicted)
  }

  /** Totals, SYN cache and the remote row. */
  function CountRemote(e: Engine, p: Packet, now: nat): (e': Engine)
    requires Fits(e)
    ensures Fits(e')
  {
    var d := Delta(p, Retransmitted(e, p));
    TouchRemote(e.(totals := e.totals.Plus(d),
                   misses := if IsQuery(p) then SynCache.Noted(e.misses, TupleOf(p)) else e.misses),
                Orient(p), d, now)
  }

  /** The prefix row: its counters, and one more remote when the remote's row was just opened. */
  function CountPrefix(e: Engine, net: Net, d: Counters, first: bool): (e': Engine)
    requires Fits(e)
    ensures Fits(e')
  {
    var at := Place(e.prefixes, net, PREFIX_MAX, 0);
    var row := Row(net, at.rows[at.at].c.Plus(d), at.rows[at.at].extra + One(first));
    e.(prefixes := at.rows[at.at := row], deadPrefixes := e.deadPrefixes + at.evicted)
  }

  /** The remote's packet count is 1 right after it was touched. */
  predicate Opens(e: Engine, p: Packet)
    requires Fits(e)
  {
    var at := Place(e.remotes, Orient(p).remote, REMOTE_MAX, NoInfo);
    at.rows[at.at].c.pkts + 1 == 1
  }

  function Apply(e: Engine, p: Packet, now: nat): (e': Engine)
    requires Fits(e)
    ensures Fits(e')
  {
    var d := Delta(p, Retransmitted(e, p));
    var net := if p.isIpv6 then None else RollUp(Orient(p).remote, e.prefixLen);
    var first := Opens(e, p);
    var counted := CountRemote(e, p, now);
    var rolled := if net.Some? then CountPrefix(counted, net.value, d, first) else counted;
    rolled.(hits := e.hits + [Row(Orient(p).remote, d, HitInfo(p, Retransmitted(e, p), net, first))])
  }

  // ---- Feeding payloads ----

  /** How a payload that does not parse is counted when it comes from NFLOG. */
  predicate LooksNonTcp(payload: seq<byte>) {
    || (|payload| >= 10 && payload[0] / 16 == 4 && payload[9] != TCP)
    || (|payload| >= 7 && payload[0] / 16 == 6 && payload[6] != TCP)
  }

  /** Counts one payload, parsed or not, and applies the packet if there is one. */
  function Take(e: Engine, r: Option<Packet>, nonTcp: bool, now: nat): (e': Engine)
    requires Fits(e)
    ensures Fits(e')
  {
    Sorted(Noticed(e), r, nonTcp, now)
  }

  function Noticed(e: Engine): Engine {
    e.(parsed := e.parsed + 1)
  }

  /** What becomes of a payload once it is counted as parsed. */
  function Sorted(e: Engine, r: Option<Packet>, nonTcp: bool, now: nat): (e': Engine)
    requires Fits(e)
    ensures Fits(e')
  {
    if r.Some? then Apply(e, r.value, now)
    else if nonTcp then e.(nonTcp := e.nonTcp + 1)
    else e.(parseFail := e.parseFail + 1)
  }

  datatype Event =
    | Nflog(payload: seq<byte>, now: nat)
    | Feed(payload: seq<byte>, now: nat)
    | Reset
    | SetPrefixLen(len: nat)

  function Step(e: Engine, ev: Event): (e': Engine)
    requires Fits(e)
    ensures Fits(e')
  {
    match ev
    case Nflog(payload, now) => Take(e, Parse(payload), LooksNonTcp(payload), now)
    case Feed(payload, now) => if |payload| == 0 then e else Take(e, Parse(payload), false, now)
    case Reset => Fresh(e.prefixLen)
    case SetPrefixLen(len) => e.(prefixLen := len)
  }

  function Run(prefixLen: nat, evs: seq<Event>): (e: Engine)
    ensures Fits(e)
  {
    if |evs| == 0 then Fresh(prefixLen) else Step(Run(prefixLen, evs[..|evs| - 1]), evs[|evs| - 1])
  }

  // ---- What every reachable state keeps ----

  ghost predicate RetransWithinSyn<K, X>(rows: seq<Row<K, X>>) {
    forall i :: 0 <= i < |rows| ==> rows[i].c.retrans <= rows[i].c.syn
  }

  ghost predicate Sound(e: Engine) {
    && Fits(e)
    && DistinctKeys(e.remotes) && DistinctKeys(e.prefixes)
    && NoIdleRow(e.remotes) && NoIdleRow(e.prefixes)
    && e.totals.retrans <= e.totals.syn
    && RetransWithinSyn(e.remotes) && RetransWithinSyn(e.prefixes)
    && e.parsed == e.totals.pkts + e.nonTcp + e.parseFail
  }

  lemma PlacedRowSound<K, X>(rows: seq<Row<K, X>>, key: K, cap: nat, blank: X, r: Row<K, X>, d: Counters)
    requires 0 < cap && |rows| <= cap && DistinctKeys(rows) && NoIdleRow(rows) && RetransWithinSyn(rows)
    requires 1 <= d.pkts && d.retrans <= d.syn
    requires var p := Place(rows, key, cap, blank);
             r.key == key && r.c == p.rows[p.at].c.Plus(d)
    ensures var p := Place(rows, key, cap, blank);
            var rows' := p.rows[p.at := r];
            DistinctKeys(rows') && NoIdleRow(rows') && RetransWithinSyn(rows')
  {
    PlaceKeeps(rows, key, cap, blank);
  }

  lemma TakeSound(e: Engine, r: Option<Packet>, nonTcp: bool, now: nat)
    requires Sound(e)
    ensures Sound(Take(e, r, nonTcp, now))
  {
    if r.Some? {
      ApplySound(Noticed(e), r.value, now);
    }
  }

  lemma ApplySound(e: Engine, p: Packet, now: nat)
    requires 1 <= e.parsed && Sound(e.(parsed := e.parsed - 1))
    ensures Sound(Apply(e, p, now))
  {
    var d := Delta(p, Retransmitted(e, p));
    var counted := CountRemote(e, p, now);
    var at := Place(e.remotes, Orient(p).remote, REMOTE_MAX, NoInfo);
    PlacedRowSound(e.remotes, Orient(p).remote, REMOTE_MAX, NoInfo, counted.remotes[at.at], d);
    var net := if p.isIpv6 then None else RollUp(Orient(p).remote, e.prefixLen);
    if net.Some? {
      var rolled := CountPrefix(counted, net.value, d, Opens(e, p));
      var at' := Place(counted.prefixes, net.value, PREFIX_MAX, 0);
      PlacedRowSound(counted.prefixes, net.value, PREFIX_MAX, 0, rolled.prefixes[at'.at], d);
    }
  }

  /** In every reachable state, eviction and resets included: at most 256 remotes and 128
      prefixes with distinct keys, none idle; no more retransmissions than SYNs in the totals
      or in any row; and every payload is counted as TCP, as non-TCP or as unparsable. */
  lemma {:induction false} RunSound(prefixLen: nat, evs: seq<Event>)
    ensures Sound(Run(prefixLen, evs))
    ensures |Run(prefixLen, evs).remotes| <= 256 && |Run(prefixLen, evs).prefixes| <= 128
  {
    if |evs| > 0 {
      RunSound(prefixLen, evs[..|evs| - 1]);
      var e := Run(prefixLen, evs[..|evs| - 1]);
      match evs[|evs| - 1] {
        case Nflog(payload, now) => TakeSound(e, Parse(payload), LooksNonTcp(payload), now);
        case Feed(payload, now) => TakeSound(e, Parse(payload), false, now);
        case _ =>
      }
    }
  }

  // ---- The ledger ----

  datatype Field = Pkts | Octets | Syn | Fin | Rst | Retrans | Remotes

  function Count(c: Counters, field: Field): nat {
    match field
    case Pkts => c.pkts
    case Octets => c.bytes
    case Syn => c.syn
    case Fin => c.fin
    case Rst => c.rst
    case Retrans => c.retrans
    case Remotes => 0
  }

  /** A remote row counts as one remote once it has a packet. */
  function RemoteWeight(field: Field): Remote -> int {
    (r: Remote) => if field == Remotes then One(r.c.pkts != 0) else Count(r.c, field)
  }

  function PrefixWeight(field: Field): Prefix -> int {
    (r: Prefix) => if field == Remotes then r.extra else Count(r.c, field)
  }

  function HitWeight(field: Field): Hit -> int {
    (h: Hit) => if field == Remotes then One(h.extra.first) else Count(h.c, field)
  }

  /** The same, for hits rolled up in a selected prefix only. */
  function RolledWeight(g: Net -> bool, field: Field): Hit -> int {
    (h: Hit) => if h.extra.net.Some? && g(h.extra.net.value) then HitWeight(field)(h) else 0
  }

  function Any<K>(): K -> bool { (k: K) => true }
  function Only<K(==)>(key: K): K -> bool { (k: K) => k == key }
  /** The remote addresses that are rolled up in a prefix. */
  function Inside(net: Net, len: nat): Addr -> bool { (a: Addr) => RollUp(a, len) == Some(net) }

  function RemoteSum(e: Engine, f: Addr -> bool, field: Field): int {
    SumWhere(e.remotes, f, RemoteWeight(field)) + SumWhere(e.deadRemotes, f, RemoteWeight(field))
  }

  function PrefixSum(e: Engine, g: Net -> bool, field: Field): int {
    SumWhere(e.prefixes, g, PrefixWeight(field)) + SumWhere(e.deadPrefixes, g, PrefixWeight(field))
  }

  function LastOf(e: Engine): Hit
    requires |e.hits| > 0
  {
    e.hits[|e.hits| - 1]
  }

  lemma ApplyRemoteSum(e: Engine, p: Packet, now: nat, f: Addr -> bool, field: Field)
    requires Fits(e)
    ensures var e' := Apply(e, p, now);
            RemoteSum(e', f, field) == RemoteSum(e, f, field) + Part(LastOf(e'), f, HitWeight(field))
  {
    var e' := Apply(e, p, now);
    var key := Orient(p).remote;
    var at := Place(e.remotes, key, REMOTE_MAX, NoInfo);
    SumPlaced(e.remotes, e.deadRemotes, key, REMOTE_MAX, NoInfo, e'.remotes[at.at], f, RemoteWeight(field));
  }

  lemma ApplyPrefixSum(e: Engine, p: Packet, now: nat, g: Net -> bool, field: Field)
    requires Fits(e)
    ensures var e' := Apply(e, p, now);
            PrefixSum(e', g, field) == PrefixSum(e, g, field) + Part(LastOf(e'), Any(), RolledWeight(g, field))
  {
    var e' := Apply(e, p, now);
    var net := LastOf(e').extra.net;
    if net.Some? {
      var at := Place(e.prefixes, net.value, PREFIX_MAX, 0);
      SumPlaced(e.prefixes, e.deadPrefixes, net.value, PREFIX_MAX, 0, e'.prefixes[at.at], g, PrefixWeight(field));
    }
  }

  lemma HitsGrow(e: Engine, p: Packet, now: nat, f: Addr -> bool, w: Hit -> int)
    requires Fits(e)
    ensures var e' := Apply(e, p, now);
            SumWhere(e'.hits, f, w) == SumWhere(e.hits, f, w) + Part(LastOf(e'), f, w)
  {
    var e' := Apply(e, p, now);
    assert e'.hits[..|e'.hits| - 1] == e.hits;
  }

  ghost predicate Balanced(e: Engine, f: Addr -> bool, g: Net -> bool, field: Field) {
    && RemoteSum(e, f, field) == SumWhere(e.hits, f, HitWeight(field))
    && PrefixSum(e, g, field) == SumWhere(e.hits, Any(), RolledWeight(g, field))
    && (field != Remotes ==> Count(e.totals, field) == SumWhere(e.hits, Any(), HitWeight(field)))
  }

  lemma ApplyBalanced(e: Engine, p: Packet, now: nat, f: Addr -> bool, g: Net -> bool, field: Field)
    requires Fits(e) && Balanced(e, f, g, field)
    ensures Balanced(Apply(e, p, now), f, g, field)
  {
    ApplyRemoteSum(e, p, now, f, field);
    ApplyPrefixSum(e, p, now, g, field);
    HitsGrow(e, p, now, f, HitWeight(field));
    HitsGrow(e, p, now, Any(), RolledWeight(g, field));
    HitsGrow(e, p, now, Any(), HitWeight(field));
  }

  lemma TakeBalanced(e: Engine, r: Option<Packet>, nonTcp: bool, now: nat, f: Addr -> bool, g: Net -> bool, field: Field)
    requires Fits(e) && Balanced(e, f, g, field)
    ensures Balanced(Take(e, r, nonTcp, now), f, g, field)
  {
    SameSums(e, Noticed(e), f, g, field);
    SortedBalanced(Noticed(e), r, nonTcp, now, f, g, field);
  }

  lemma SortedBalanced(e: Engine, r: Option<Packet>, nonTcp: bool, now: nat, f: Addr -> bool, g: Net -> bool, field: Field)
    requires Fits(e) && Balanced(e, f, g, field)
    ensures Balanced(Sorted(e, r, nonTcp, now), f, g, field)
  {
    if r.Some? {
      ApplyBalanced(e, r.value, now, f, g, field);
    } else {
      SameSums(e, Sorted(e, r, nonTcp, now), f, g, field);
    }
  }

  lemma SameSums(e: Engine, e': Engine, f: Addr -> bool, g: Net -> bool, field: Field)
    requires Balanced(e, f, g, field)
    requires e'.remotes == e.remotes && e'.deadRemotes == e.deadRemotes && e'.hits == e.hits
    requires e'.totals == e.totals && e'.prefixes == e.prefixes && e'.deadPrefixes == e.deadPrefixes
    ensures Balanced(e', f, g, field)
  {
  }

  /** For every set of addresses: its live and evicted remote rows together hold what its
      packets added since the last reset; the same for every set of prefixes, and for the totals. */
  lemma {:induction false} Ledger(prefixLen: nat, evs: seq<Event>, f: Addr -> bool, g: Net -> bool, field: Field)
    ensures Balanced(Run(prefixLen, evs), f, g, field)
  {
    if |evs| > 0 {
      Ledger(prefixLen, evs[..|evs| - 1], f, g, field);
      var e := Run(prefixLen, evs[..|evs| - 1]);
      match evs[|evs| - 1] {
        case Nflog(payload, now) => TakeBalanced(e, Parse(payload), LooksNonTcp(payload), now, f, g, field);
        case Feed(payload, now) => TakeBalanced(e, Parse(payload), false, now, f, g, field);
        case _ =>
      }
    }
  }
}
